# Jenkins build extraction, modelled in Dafny

This project models the per-row extraction transform of the Jenkins plugin's `extractApiBuilds`
subtask: the `Extract` closure of `plugins/jenkins/tasks/build_extractor.go`. For one raw row it
takes the decoded build API response and the decoded job context and returns either a decoding
error or a list made of zero or more `JenkinsBuildCommit` records followed by exactly one
`JenkinsBuild` record.

Files, one module each:

- `wrappers.dfy` (`Wrappers`): `Option` and `Result`.
- `goint.dfy` (`GoInt`): Go's `int64`/`uint64` ranges and Go's integer division, which truncates toward zero.
- `strings.dfy` (`Strings`): `strings.Split` for a one-character separator, `strings.Join`, and the last segment of a split.
- `decimal.dfy` (`Decimal`): the decimal text `strconv.Itoa` and `%d` produce, with the parser that reads it back.
- `jenkins_models.dfy` (`JenkinsModels`): the decoded payloads (`ApiBuildResponse`, `Action`, `Cause`, ...), the two output records, and the row type. A row holds `Option` values, with `None` meaning the JSON text failed to decode.
- `build_extractor_spec.dfy` (`BuildExtractorSpec`): the extraction as pure functions (`ExtractSpec` and helpers), plus the lemmas that state its properties.
- `build_extractor.dfy` (`BuildExtractor`): the closure as an imperative method. `Extract` mirrors the code's loop over actions. `AppendUrlCommits` is its inner loop over remote URLs and `ResolveTrigger` its inner loop over causes. Each is proved against the functions of `BuildExtractorSpec`.
- `extraction_scenarios.dfy` (`ExtractionScenarios`): concrete rows and the records extracted from them.

The reference functions that `Extract` is proved against carry no contract of their own.
The lemmas in the table below state what they mean. Each one computes part of the closure:

- `BuildExtractorSpec.ExtractSpec` (build_extractor.go:60-131): the whole result of one row.
- `BuildExtractorSpec.Family` (:87-88, :123): the treatment `changeSet.kind` selects: `git` and `hg`, `svn`, or anything else.
- `BuildExtractorSpec.BuildOf` (:75-86): the build record with its final commit and trigger.
- `BuildExtractorSpec.ActionSha` (:90-97): an action's commit. That is its Mercurial revision number when set, otherwise `sha1`, which may be empty.
- `BuildExtractorSpec.ActionBranch` (:99-101): the name of an action's first branch, or empty.
- `BuildExtractorSpec.TriggerText` and `BuildExtractorSpec.LastTrigger` (:114-121): the `"<project> #<build>"` text, and the trigger left after visiting a list of causes.
- `Decimal.IntToDecimal` (:117, :125): the `%d` / `strconv.Itoa` text of an integer.

The connection id comes from the task's options (`data.Options.ConnectionId`). The closure only
captures it, so here it is a parameter.

The model keeps these details of the code:

- `sha` and `branch` are reset to empty at the start of every action. Nothing carries over from one action to the next.
- A non-empty Mercurial revision number takes precedence over a non-empty `sha1`.
- `build.CommitSha` is overwritten by every action, so the last action decides it, even when its commit is empty.
- Remote URLs are not de-duplicated: every occurrence of a non-empty URL gives a record.
- The build record is the last element of the result.

## Model

| member | source | states |
|---|---|---|
| `BuildExtractor.Extract` | plugins/jenkins/tasks/build_extractor.go:60-131 | The closure, step by step (decode, class, build record, action loop, svn branch, final append), returns exactly `ExtractSpec` of the same row |
| `BuildExtractor.AppendUrlCommits` | plugins/jenkins/tasks/build_extractor.go:102-113 | The URL loop appends one commit record per non-empty URL in order, each with the action's commit and branch, and nothing else |
| `BuildExtractor.ResolveTrigger` | plugins/jenkins/tasks/build_extractor.go:114-121 | The cause loop leaves the trigger of the last cause naming an upstream project, or the earlier value when no cause does |
| `BuildExtractorSpec.ExtractFailsOnlyOnDecode` | plugins/jenkins/tasks/build_extractor.go:61-70 | Extraction fails exactly when the response or the input failed to decode. A bad response is reported first, whatever the input. A failure carries no records |
| `BuildExtractorSpec.ExtractResultShape` | plugins/jenkins/tasks/build_extractor.go:72-130 | On success there is at least one element. Exactly one element is a build record, and it is the last. Every earlier element is a commit record |
| `BuildExtractorSpec.ExtractBuildFields` | plugins/jenkins/tasks/build_extractor.go:73-86 | The build record copies connection, job name, duration, display name, estimated duration, number, result and timestamp. Its class is the suffix after the last `.` (no `.` in it; the whole name when there is no dot; empty for an empty name or a trailing dot). Its start time is the timestamp divided by 1000, truncated toward zero |
| `BuildExtractorSpec.ExtractDistributed` | plugins/jenkins/tasks/build_extractor.go:88-122 | For `git`/`hg`, the records before the build are those of the actions in order. Their URLs are exactly the non-empty remote URLs of all actions, in order, with repetitions kept. Each record has the connection, the build's display name, and the commit and branch of an action listing its URL. The build's commit is the last action's commit, or empty with no actions. Its trigger is the last upstream cause over all actions |
| `BuildExtractorSpec.ExtractNotDistributed` | plugins/jenkins/tasks/build_extractor.go:123-127 | For `svn` and every other kind, there are no commit records and no trigger. The commit is the decimal text of the first revision for `svn` with revisions, and empty otherwise |
| `BuildExtractorSpec.CommitUrlsInOrder` | plugins/jenkins/tasks/build_extractor.go:102-112 | The records' URLs are, in order, exactly the non-empty remote URLs of all actions, so also their number. Empty URLs are skipped and repeated URLs are kept |
| `BuildExtractorSpec.CommitsOfAppend` | plugins/jenkins/tasks/build_extractor.go:89-113 | The records of two runs of actions are those of the first followed by those of the second (action order) |
| `BuildExtractorSpec.CommitsOfActionAt` | plugins/jenkins/tasks/build_extractor.go:89-113 | The records of action `i` form one block after those of all earlier actions and before those of all later ones |
| `BuildExtractorSpec.ActionCommitFields` | plugins/jenkins/tasks/build_extractor.go:90-112 | Every record of an action has the connection, the build's display name, that action's own commit and branch, and a non-empty URL the action lists |
| `BuildExtractorSpec.UrlCommitFields` | plugins/jenkins/tasks/build_extractor.go:102-112 | Every record built from a URL list has the given connection, build name, commit and branch, and a non-empty URL from that list |
| `BuildExtractorSpec.CommitsOfOwnAction` | plugins/jenkins/tasks/build_extractor.go:89-113 | The records of action `i` are the block starting right after the records of the earlier actions. The block holds, in order, that action's own non-empty URLs, each with that action's own commit and branch |
| `BuildExtractorSpec.RepoUrlsAppend` | plugins/jenkins/tasks/build_extractor.go:111 | The URLs of appended record lists are the URLs of each list, in order |
| `BuildExtractorSpec.CommitsOfFields` | plugins/jenkins/tasks/build_extractor.go:89-113 | Every record of a run of actions has the connection, the build name and a non-empty URL, plus the commit and branch of an action that lists the URL |
| `BuildExtractorSpec.LastTriggerEmpty` | plugins/jenkins/tasks/build_extractor.go:114-121 | The trigger is empty if and only if no cause names an upstream project |
| `BuildExtractorSpec.LastTriggerIsLastUpstreamCause` | plugins/jenkins/tasks/build_extractor.go:114-121 | When cause `k` names an upstream project and no later cause does, the trigger is `"<project> #<build>"` of cause `k` (last writer wins) |
| `BuildExtractorSpec.LastTriggerAppend` | plugins/jenkins/tasks/build_extractor.go:89-121 | Across actions: a trigger found in later causes replaces the earlier one, and otherwise the earlier one stays |
| `BuildExtractorSpec.NonEmptyAppend` | plugins/jenkins/tasks/build_extractor.go:102-103 | Dropping empty URLs from a concatenation drops them from each part |
| `BuildExtractorSpec.UrlCommitsUrls` | plugins/jenkins/tasks/build_extractor.go:102-112 | The URLs of the records made from one URL list are its non-empty URLs in order |
| `BuildExtractorSpec.AsRecordsAppend` | plugins/jenkins/tasks/build_extractor.go:111 | Appending commit records to the result list appends their wrapped forms in the same order |
| `Strings.Split` | plugins/jenkins/tasks/build_extractor.go:73-74 | Splitting always yields at least one segment, so the code's index `len(strList)-1` is in range, even for the empty string |
| `Strings.SplitJoin` | plugins/jenkins/tasks/build_extractor.go:73 | Joining the segments with the separator gives back the original string |
| `Strings.SplitHasNoSep` | plugins/jenkins/tasks/build_extractor.go:73 | No segment contains the separator |
| `Strings.LastSegmentIsSuffixAfterLastSep` | plugins/jenkins/tasks/build_extractor.go:73-74 | The last segment is a suffix with no separator, either the whole string or preceded by a separator. So it is the whole string without a separator, and empty for an empty string or a trailing separator |
| `Strings.LastSegmentAfterSep` | plugins/jenkins/tasks/build_extractor.go:73-74 | The last segment of `p.q` is `q` when `q` has no separator, whatever `p` is |
| `GoInt.Quot` | plugins/jenkins/tasks/build_extractor.go:85 | Go's `/` by a positive divisor: the remainder has the dividend's sign and is smaller than the divisor in magnitude (rounding toward zero) |
| `GoInt.MillisToSeconds` | plugins/jenkins/tasks/build_extractor.go:85 | `Timestamp/1000` is the whole number of seconds, truncated toward zero for negative timestamps too |
| `Decimal.NatToDecimal` | plugins/jenkins/tasks/build_extractor.go:125 | A natural number's text is a non-empty string of digits with no leading zero, except for `"0"` itself |
| `Decimal.NatRoundTrip` | plugins/jenkins/tasks/build_extractor.go:125 | The digits of a natural number read back as that number |
| `Decimal.DecimalRoundTrip` | plugins/jenkins/tasks/build_extractor.go:117 | The `%d` / `strconv.Itoa` text of an integer reads back as that integer |
| `Decimal.DecimalInjective` | plugins/jenkins/tasks/build_extractor.go:125 | Different revisions or upstream build numbers give different texts |
| `ExtractionScenarios.SparseRow` | plugins/jenkins/tasks/build_extractor.go:72-130 | A row with no change-set kind and no actions gives one build record with empty commit and trigger |
| `ExtractionScenarios.DottedClass` | plugins/jenkins/tasks/build_extractor.go:73-74 | `hudson.model.FreeStyleBuild` has class `FreeStyleBuild` |
| `ExtractionScenarios.NegativeTimestamp` | plugins/jenkins/tasks/build_extractor.go:85 | `-1500` ms is `-1` s (toward zero), not `-2` |
| `ExtractionScenarios.GitWithTwoRemotes` | plugins/jenkins/tasks/build_extractor.go:88-113 | URLs `u1`, `u2`, `""` give two records with the action's commit and branch, then the build |
| `ExtractionScenarios.RepeatedUrlKept` | plugins/jenkins/tasks/build_extractor.go:102-112 | A URL listed twice gives two records |
| `ExtractionScenarios.MercurialOverridesSha1` | plugins/jenkins/tasks/build_extractor.go:92-97 | A Mercurial revision number wins over `sha1` |
| `ExtractionScenarios.NoCarryOverBetweenActions` | plugins/jenkins/tasks/build_extractor.go:89-101 | An action without commit or branch gets empty ones, not the previous action's. The build's commit is then empty |
| `ExtractionScenarios.SvnRevision4521` | plugins/jenkins/tasks/build_extractor.go:123-127 | `svn` with revisions 4521, 4522 gives commit `"4521"` and no commit records |
| `ExtractionScenarios.UpstreamTrigger` | plugins/jenkins/tasks/build_extractor.go:114-121 | Causes `("",0)`, `("pipelineA",12)`, `("",3)` give the trigger `pipelineA #12` |
| `ExtractionScenarios.BothTextsMalformed` | plugins/jenkins/tasks/build_extractor.go:61-70 | A bad response is reported as such even when the input is bad too. A bad input after a good response is reported as an input error |

## Left out

- `ExtractApiBuildsMeta` and the body of `ExtractApiBuilds` around the closure (lines 35-59 and 132-138) are not modelled. That is task registration and the generic raw-data extractor that scans rows and stores records; it depends on the database and the task context.
- JSON decoding (`json.Unmarshal`, `errors.Convert`, lines 62 and 67) is not modelled. Decoded values are inputs, and a failed decode is `None`. The model keeps only which of the two texts failed, not the decoder's error message.
- `time.Unix(seconds, 0)` (line 85) is not modelled as a `time.Time`. `startTime` is the whole number of seconds since the epoch.
- `fmt.Sprintf` and `strconv.Itoa` (lines 117 and 125) are modelled by `Decimal.IntToDecimal`, not by Go's formatter.
- The record and response struct definitions (`models.ApiBuildResponse`, `models.JenkinsBuild`, `models.JenkinsBuildCommit`, `SimpleJob`) are not part of this model. The datatypes keep only the fields the closure reads or writes. Their numeric fields are modelled as 64-bit signed integers (`GoInt.Int64`) and the connection id as `uint64`. `Revisions[0].Revision` is passed to `strconv.Itoa` (line 125), so it is a Go `int`, whose width depends on the platform; the model takes it as 64-bit. The fields other than the timestamp are only copied or formatted, so their exact Go widths do not change any result.
- Strings are modelled as sequences of characters, not as Go byte strings. Nothing changes because of that: the closure only compares strings with `""`, concatenates them, and splits at the ASCII character `.`.
- The records are returned as values, not as pointers. The code appends `build` as a pointer after its last change, so nothing observable depends on pointer identity.
