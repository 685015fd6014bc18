/** The per-row extraction of the Jenkins build extractor, written as the step-by-step
    computation it is: decode, build the record, walk the actions, append the build last. */
module BuildExtractor {

  import opened Wrappers
  import opened GoInt
  import opened Strings
  import opened Decimal
  import opened JenkinsModels
  import opened BuildExtractorSpec

  /** Extracts the records of one raw row for the connection `connectionId`. */
  method Extract(connectionId: Uint64, row: RawData) returns (r: Result<seq<Record>, DecodeError>)
    ensures r == ExtractSpec(connectionId, row)
  {
    if row.data.None? {
      return Failure(ResponseDecodeError);
    }
    var body := row.data.value;
    if row.input.None? {
      return Failure(InputDecodeError);
    }
    var input := row.input.value;

    var results: seq<Record> := [];
    assert AsRecords([]) == results;
    var strList := Split(body.className, '.');
    var buildClass := strList[|strList| - 1];
    var build := JenkinsBuild(
      connectionId, input.name, body.duration, body.displayName, body.estimatedDuration,
      body.number, body.result, body.timestamp, buildClass, MillisToSeconds(body.timestamp), "", "");
    ghost var base := build;
    var vcs := body.changeSet.kind;
    if vcs == "git" || vcs == "hg" {
      var actions := body.actions;
      var i := 0;
      while i < |actions|
        invariant 0 <= i <= |actions|
        invariant results == AsRecords(CommitsOf(connectionId, body.displayName, actions[..i]))
        invariant build == base.(commitSha := LastSha(actions[..i]), triggeredBy := LastTrigger(AllCauses(actions[..i])))
      {
        var a := actions[i];
        assert actions[..i + 1][..i] == actions[..i];
        var sha := "";
        var branch := "";
        if a.lastBuiltRevision.sha1 != "" {
          sha := a.lastBuiltRevision.sha1;
        }
        if a.mercurialRevisionNumber != "" {
          sha := a.mercurialRevisionNumber;
        }
        build := build.(commitSha := sha);
        if |a.lastBuiltRevision.branches| > 0 {
          branch := a.lastBuiltRevision.branches[0].name;
        }
        AsRecordsAppend(CommitsOf(connectionId, body.displayName, actions[..i]), ActionCommits(connectionId, body.displayName, a));
        results := AppendUrlCommits(results, connectionId, build.fullDisplayName, sha, branch, a.remoteUrls);
        if |a.causes| > 0 {
          var triggeredBy := ResolveTrigger(build.triggeredBy, a.causes);
          build := build.(triggeredBy := triggeredBy);
        }
        LastTriggerAppend(AllCauses(actions[..i]), a.causes);
        i := i + 1;
      }
      assert actions[..i] == actions;
    } else if vcs == "svn" {
      if |body.changeSet.revisions| > 0 {
        build := build.(commitSha := IntToDecimal(body.changeSet.revisions[0].revision));
      }
    }

    results := results + [BuildRecord(build)];
    return Success(results);
  }

  /** The loop over one action's remote URLs: one commit record per non-empty URL, appended
      in order to `results`. */
  method AppendUrlCommits(results: seq<Record>, connectionId: Uint64, buildName: string, sha: string,
                          branch: string, urls: seq<string>) returns (out: seq<Record>)
    ensures out == results + AsRecords(UrlCommits(connectionId, buildName, sha, branch, urls))
  {
    out := results;
    var j := 0;
    while j < |urls|
      invariant 0 <= j <= |urls|
      invariant out == results + AsRecords(UrlCommits(connectionId, buildName, sha, branch, urls[..j]))
    {
      var url := urls[j];
      assert urls[..j + 1][..j] == urls[..j];
      if url != "" {
        var buildCommitRemoteUrl := JenkinsBuildCommit(connectionId, buildName, sha, url, branch);
        AsRecordsAppend(UrlCommits(connectionId, buildName, sha, branch, urls[..j]), [buildCommitRemoteUrl]);
        out := out + [CommitRecord(buildCommitRemoteUrl)];
      }
      j := j + 1;
    }
    assert urls[..j] == urls;
  }

  /** The loop over one action's causes: `triggeredBy` is overwritten by every cause that
      names an upstream build, and kept when none does. */
  method ResolveTrigger(triggeredBy: string, causes: seq<Cause>) returns (t: string)
    ensures t == if LastTrigger(causes) != "" then LastTrigger(causes) else triggeredBy
  {
    t := triggeredBy;
    var k := 0;
    while k < |causes|
      invariant 0 <= k <= |causes|
      invariant t == if LastTrigger(causes[..k]) != "" then LastTrigger(causes[..k]) else triggeredBy
    {
      var cause := causes[k];
      assert causes[..k + 1][..k] == causes[..k];
      if cause.upstreamProject != "" {
        var triggeredByBuild := cause.upstreamProject + " #" + IntToDecimal(cause.upstreamBuild);
        assert triggeredByBuild[|cause.upstreamProject|] == ' ';
        t := triggeredByBuild;
      }
      k := k + 1;
    }
    assert causes[..k] == causes;
  }
}
