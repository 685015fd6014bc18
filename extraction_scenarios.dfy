/** Concrete rows and what extracting them gives. */
module ExtractionScenarios {

  import opened Wrappers
  import opened GoInt
  import opened Strings
  import opened JenkinsModels
  import opened BuildExtractorSpec

  function Response(className: string, kind: string, revisions: seq<SvnRevision>, actions: seq<Action>): (body: ApiBuildResponse)
  {
    ApiBuildResponse(className, "job #7", 1200, 1500, 7, "SUCCESS", 1_650_000_000_123, ChangeSet(kind, revisions), actions)
  }

  function Row(body: ApiBuildResponse): (row: RawData)
  {
    RawData(Some(body), Some(SimpleJob("job")))
  }

  function GitAction(sha1: string, mercurial: string, branches: seq<Branch>, urls: seq<string>, causes: seq<Cause>): (a: Action)
  {
    Action(BuiltRevision(sha1, branches), mercurial, urls, causes)
  }

  /** A row with no change-set kind and no actions gives one build record with no commit and
      no trigger; its start time drops the milliseconds. */
  lemma SparseRow()
    ensures var r := ExtractSpec(3, Row(Response("Simple", "", [], [])));
      r.Success? && |r.value| == 1 && r.value[0].BuildRecord? &&
      r.value[0].build.commitSha == "" && r.value[0].build.triggeredBy == "" &&
      r.value[0].build.className == "Simple" && r.value[0].build.startTime == 1_650_000_000
  {
    var body := Response("Simple", "", [], []);
    var b := BuildOf(3, body, SimpleJob("job"));
    var none: seq<JenkinsBuildCommit> := [];
    assert CommitRecordsOf(3, body) == none && AsRecords(none) == [];
    assert ExtractSpec(3, Row(body)) == Success(AsRecords(none) + [BuildRecord(b)]);
    assert b.className == "Simple" by {
      LastSegmentIsSuffixAfterLastSep("Simple", '.');
    }
    assert b.startTime == 1_650_000_000 by {
      assert Quot(1_650_000_000_123, 1000) == 1_650_000_000;
    }
  }

  lemma DottedClass()
    ensures BuildClass("hudson.model.FreeStyleBuild") == "FreeStyleBuild"
  {
    assert "hudson.model.FreeStyleBuild" == "hudson.model" + ['.'] + "FreeStyleBuild";
    LastSegmentAfterSep("hudson.model", '.', "FreeStyleBuild");
  }

  /** A start time before the epoch is truncated toward zero, not rounded down. */
  lemma NegativeTimestamp()
    ensures MillisToSeconds(-1500) == -1
  {
  }

  /** One `git` action with two remote URLs and an empty one gives two commit records, both
      with the action's commit and branch, followed by the build with that commit. */
  lemma GitWithTwoRemotes()
    ensures var a := GitAction("abc123", "", [Branch("main")], ["u1", "u2", ""], []);
      var r := ExtractSpec(3, Row(Response("Simple", "git", [], [a])));
      r.Success? && |r.value| == 3 &&
      r.value[0] == CommitRecord(JenkinsBuildCommit(3, "job #7", "abc123", "u1", "main")) &&
      r.value[1] == CommitRecord(JenkinsBuildCommit(3, "job #7", "abc123", "u2", "main")) &&
      r.value[2].BuildRecord? && r.value[2].build.commitSha == "abc123"
  {
    var a := GitAction("abc123", "", [Branch("main")], ["u1", "u2", ""], []);
    var urls := ["u1", "u2", ""];
    var c1 := JenkinsBuildCommit(3, "job #7", "abc123", "u1", "main");
    var c2 := JenkinsBuildCommit(3, "job #7", "abc123", "u2", "main");
    assert urls[..2] == ["u1", "u2"] && urls[..2][..1] == ["u1"] && urls[..2][..1][..0] == [];
    assert UrlCommits(3, "job #7", "abc123", "main", urls[..2][..1]) == [c1];
    assert UrlCommits(3, "job #7", "abc123", "main", urls[..2]) == [c1, c2];
    assert UrlCommits(3, "job #7", "abc123", "main", urls) == [c1, c2];
    assert [a][..0] == [];
    assert CommitsOf(3, "job #7", [a]) == [c1, c2];
  }

  /** A repeated URL is not collapsed: it gives one record per occurrence. */
  lemma RepeatedUrlKept()
    ensures |CommitsOf(3, "job #7", [GitAction("abc123", "", [], ["u1", "u1"], [])])| == 2
  {
    var a := GitAction("abc123", "", [], ["u1", "u1"], []);
    var urls := ["u1", "u1"];
    assert urls[..1] == ["u1"] && urls[..1][..0] == [];
    assert |UrlCommits(3, "job #7", "abc123", "", urls[..1])| == 1;
    assert |UrlCommits(3, "job #7", "abc123", "", urls)| == 2;
    assert [a][..0] == [];
  }

  /** A Mercurial revision number takes precedence over `sha1`. */
  lemma MercurialOverridesSha1()
    ensures ActionSha(GitAction("abc123", "42", [], [], [])) == "42"
  {
  }

  /** The commit and branch are worked out afresh for each action: the second action's record
      has an empty commit and branch although the first had both, and the build's commit is
      the empty one of the last action. */
  lemma NoCarryOverBetweenActions()
    ensures var a1 := GitAction("abc123", "", [Branch("main")], ["u1"], []);
      var a2 := GitAction("", "", [], ["u2"], []);
      var r := ExtractSpec(3, Row(Response("Simple", "hg", [], [a1, a2])));
      r.Success? && |r.value| == 3 &&
      r.value[0] == CommitRecord(JenkinsBuildCommit(3, "job #7", "abc123", "u1", "main")) &&
      r.value[1] == CommitRecord(JenkinsBuildCommit(3, "job #7", "", "u2", "")) &&
      r.value[2].BuildRecord? && r.value[2].build.commitSha == ""
  {
    var a1 := GitAction("abc123", "", [Branch("main")], ["u1"], []);
    var a2 := GitAction("", "", [], ["u2"], []);
    var c1 := JenkinsBuildCommit(3, "job #7", "abc123", "u1", "main");
    var c2 := JenkinsBuildCommit(3, "job #7", "", "u2", "");
    assert ["u1"][..0] == [] && ["u2"][..0] == [];
    assert ActionCommits(3, "job #7", a1) == [c1];
    assert ActionCommits(3, "job #7", a2) == [c2];
    assert [a1, a2][..1] == [a1] && [a1][..0] == [];
    assert CommitsOf(3, "job #7", [a1]) == [c1];
    assert CommitsOf(3, "job #7", [a1, a2]) == [c1, c2];
  }

  /** A Subversion build takes the first revision as its commit and emits no commit records. */
  lemma SvnRevision4521()
    ensures var r := ExtractSpec(3, Row(Response("Simple", "svn", [SvnRevision(4521), SvnRevision(4522)], [])));
      r.Success? && |r.value| == 1 && r.value[0].build.commitSha == "4521"
  {
  }

  /** Causes without an upstream project are skipped; the last qualifying cause wins. */
  lemma UpstreamTrigger()
    ensures var a := GitAction("", "", [], [], [Cause("", 0), Cause("pipelineA", 12), Cause("", 3)]);
      var r := ExtractSpec(3, Row(Response("Simple", "git", [], [a])));
      r.Success? && |r.value| == 1 && r.value[0].build.triggeredBy == "pipelineA #12"
  {
  }

  /** A response that fails to decode is reported before the input is looked at. */
  lemma BothTextsMalformed()
    ensures ExtractSpec(3, RawData(None, None)) == Failure(ResponseDecodeError)
    ensures ExtractSpec(3, RawData(Some(Response("Simple", "git", [], [])), None)) == Failure(InputDecodeError)
  {
  }
}
