/** The decoded Jenkins payloads the extractor reads and the two records it writes. Only the
    fields the extraction reads or writes are kept. */
module JenkinsModels {

  import opened Wrappers
  import opened GoInt

  /** One entry of `lastBuiltRevision.branches`. */
  datatype Branch = Branch(name: string)

  /** `lastBuiltRevision` of a build action: the commit built and the branches holding it. */
  datatype BuiltRevision = BuiltRevision(sha1: string, branches: seq<Branch>)

  /** One entry of an action's `causes`; `upstreamProject` is empty for causes that are not
      an upstream build. */
  datatype Cause = Cause(upstreamProject: string, upstreamBuild: Int64)

  /** One element of the build's `actions`. */
  datatype Action = Action(
    lastBuiltRevision: BuiltRevision,
    mercurialRevisionNumber: string,
    remoteUrls: seq<string>,
    causes: seq<Cause>)

  /** One entry of `changeSet.revisions`: a Subversion revision number. */
  datatype SvnRevision = SvnRevision(revision: Int64)

  /** `changeSet`: the kind of version control (`git`, `hg`, `svn`, ...) and, for Subversion,
      the revisions. */
  datatype ChangeSet = ChangeSet(kind: string, revisions: seq<SvnRevision>)

  /** The decoded build API response (`models.ApiBuildResponse`). */
  datatype ApiBuildResponse = ApiBuildResponse(
    className: string,
    displayName: string,
    duration: Int64,
    estimatedDuration: Int64,
    number: Int64,
    result: string,
    timestamp: Int64,
    changeSet: ChangeSet,
    actions: seq<Action>)

  /** The decoded job context the build was collected under (`SimpleJob`). */
  datatype SimpleJob = SimpleJob(name: string)

  /** A raw row after decoding: each field is `None` when its JSON text failed to decode. */
  datatype RawData = RawData(data: Option<ApiBuildResponse>, input: Option<SimpleJob>)

  /** The tool-layer build record (`models.JenkinsBuild`); `startTime` is in whole seconds
      since the epoch. */
  datatype JenkinsBuild = JenkinsBuild(
    connectionId: Uint64,
    jobName: string,
    duration: Int64,
    fullDisplayName: string,
    estimatedDuration: Int64,
    number: Int64,
    result: string,
    timestamp: Int64,
    className: string,
    startTime: Int64,
    commitSha: string,
    triggeredBy: string)

  /** The tool-layer record linking a build to one repository it built (`models.JenkinsBuildCommit`). */
  datatype JenkinsBuildCommit = JenkinsBuildCommit(
    connectionId: Uint64,
    buildName: string,
    commitSha: string,
    repoUrl: string,
    branch: string)

  /** An element of the extractor's result list. */
  datatype Record = BuildRecord(build: JenkinsBuild) | CommitRecord(commit: JenkinsBuildCommit)

  /** Which of the two JSON texts failed to decode. */
  datatype DecodeError = ResponseDecodeError | InputDecodeError
}
