# rebazer core in Dafny

rebazer watches open pull requests on GitHub or Bitbucket and rebases those
that have fallen behind their destination branch. This project models three
pure pieces of it and proves properties about them:

- **Repository identity** (`RepositoryConfig`, module `Domain`): an immutable
  record of hosting type, host URL, team, repository, credentials and master
  branch, from which three values are derived: the identity key
  `getQualifiers`, the clone URL `getUrl` and the log form `toString`.
- **Connector decisions** (modules `RepositoryConnector`, `GithubConnector`,
  `BitbucketConnector`). These are `rebaseNeeded`, `isApproved`,
  `greenBuildExists`, `newestChecksTime`, `getLatestUpdate` and
  `getAllPullRequests`, computed from the REST responses after they have been
  read. Each response is reduced to the fields the connector looks at: review
  states, participant flags, check-run conclusions and completion times,
  build states, and pull-request listings. The connector classes themselves
  are not part of this model. Their rules are the ones their two test
  classes fix. Where the tests leave a case open, the choice made is listed
  under "Left out".
- **Timestamps** (modules `Rfc3339`, `Calendar`): reading a fixed-width
  subset of the RFC 3339 section 5.6 `date-time` (`PullRequestLastUpdateStore.parseStringToDate`) as
  an absolute instant, in whole seconds since 1970-01-01T00:00:00Z.
  - The day count is a closed form of the proleptic Gregorian calendar.
  - Its order is proved to be the printed order of dates.
  - Normalising any offset to `Z` is proved to keep the instant, rolling the
    date over where needed.

Every modelled operation of the connectors and of timestamp reading is a
total function; only the calendar and formatting helpers (`DayNumber`,
`NextDate`, `PreviousDate`, `EpochSeconds`, `Format`, `ToUtc`) require
valid fields. A timestamp that is not a date-time
gives `Err(MalformedTimestamp(text))` where the Java code is assumed to throw.

The rules as modelled:

- GitHub `isApproved`: some review is `APPROVED`.
- GitHub `greenBuildExists`: there is a check run and every one concluded
  `success`. A `failure` next to a `success` is not green, so "any success"
  would not do.
- Bitbucket `isApproved`: some participant has `approved` set.
- Bitbucket `greenBuildExists`: there is a build status and every one is
  `SUCCESSFUL`. The two variants agree: no build reported is not green, and
  neither is a failure next to a success.
- `newestChecksTime` reports the `completed_at` *text* of the latest
  completed run, because the tests compare it as a string. Null and empty
  times are skipped. With none left it reports `2010-01-01T00:00:00Z`. On a
  tie between instants the definition reports the first listed.
- GitHub `getLatestUpdate`: the later of `updated_at` and the instant of
  `newestChecksTime`.
- Bitbucket `getLatestUpdate`: `updated_on` alone.

The last update is not monotone in the first completed check. While no
check has completed, the fallback takes part. A first check completed before
the fallback, on a pull request updated before it too, therefore lowers the
last update. `GithubConnector.FirstCheckCanLowerLatestUpdate` proves this, and
`GithubConnector.EarlyTimes` gives such times. The monotonicity that does hold
is `GithubConnector.LatestUpdateMonotoneInChecks`.

Files: `wrappers.dfy`, `calendar.dfy`, `rfc3339.dfy`, `domain.dfy`,
`connector.dfy`, `github.dfy`, `bitbucket.dfy`.

## Model

| member | source | states |
|---|---|---|
| Domain.RepositoryConfig.ToString | src/main/java/org/retest/rebazer/domain/RepositoryConfig.java:26-28 | The log form is `Repo [ `, then host name, `/`, team, `/`, repo, then ` ]`. Its length is fixed by those parts. |
| Domain.RepositoryConfig.Qualifiers | src/main/java/org/retest/rebazer/domain/RepositoryConfig.java:34-36 | Exactly three elements, in order: host name, team, repository. |
| Domain.RepositoryConfig.Url | src/main/java/org/retest/rebazer/domain/RepositoryConfig.java:38-40 | The clone URL is the full host URL text, then `/`, then `team/repo`, then `.git`. Each piece sits at its own position. |
| Domain.QualifiersIdentify | src/main/java/org/retest/rebazer/domain/RepositoryConfig.java:34-36 | Two records have equal identity keys if and only if host name, team and repository agree. |
| Domain.IdentityIgnoresOtherFields | src/main/java/org/retest/rebazer/domain/RepositoryConfig.java:16-36 | Hosting type, user, password, master branch and the rest of the URL change neither the identity key nor the log form, so the log form never shows the credentials. |
| Domain.UrlNotDeterminedByQualifiers | src/main/java/org/retest/rebazer/domain/RepositoryConfig.java:34-40 | Changing only the URL text, such as scheme or port, keeps the identity key but always changes the clone URL. |
| Domain.UrlDeterminesRepository | src/main/java/org/retest/rebazer/domain/RepositoryConfig.java:38-40 | Under one host URL, with team and repository names free of `/`, clone URLs are equal if and only if team and repository are. |
| RepositoryConnector.RebaseNeeded | src/test/java/org/retest/rebazer/connector/GithubConnectorTest.java:121-142 | No rebase is needed exactly when the head of the branch is the last common commit. Bitbucket applies the same rule to the last parent commit (BitbucketConnectorTest.java lines 51-74). |
| GithubConnector.IsApproved | src/test/java/org/retest/rebazer/connector/GithubConnectorTest.java:144-158 | Approved if and only if some review has state `APPROVED`. |
| GithubConnector.GreenBuildExists | src/test/java/org/retest/rebazer/connector/GithubConnectorTest.java:160-182 | Green if and only if there is at least one check run and every conclusion is `success`. A `failure` next to a `success` is not green. |
| GithubConnector.CompletionTimes | src/test/java/org/retest/rebazer/connector/GithubConnectorTest.java:57-74 | The texts kept are exactly the non-null, non-empty completion times. None are kept exactly when no run completed. |
| GithubConnector.ParseStamps | src/test/java/org/retest/rebazer/connector/GithubConnectorTest.java:222-235 | Succeeds if and only if every text is a date-time. Each text is then paired with its instant, in order. |
| GithubConnector.Newest | src/test/java/org/retest/rebazer/connector/GithubConnectorTest.java:45-56 | The running maximum is absent only for no stamps. Otherwise it is one of the stamps, and no stamp has a later instant. `NewestIsMaximum` adds that it is the first of the latest. |
| GithubConnector.NewestIsMaximum | src/test/java/org/retest/rebazer/connector/GithubConnectorTest.java:45-56 | The running maximum returns a stamp no earlier than any other and strictly later than every stamp before it. |
| GithubConnector.NewestChecksTime | src/test/java/org/retest/rebazer/connector/GithubConnectorTest.java:57-74 | `newestChecksTime`: with no completed run the result is `2010-01-01T00:00:00Z`. Otherwise a result is one of the completion times. `NewestChecksTimeIsLatest` and `NewestChecksTimeFails` give the rest. |
| GithubConnector.NewestChecksTimeFails | src/test/java/org/retest/rebazer/connector/GithubConnectorTest.java:222-235 | `newestChecksTime` fails if and only if some completed run's time is not a date-time. |
| GithubConnector.NewestChecksTimeIsLatest | src/test/java/org/retest/rebazer/connector/GithubConnectorTest.java:45-56 | Otherwise the result is one of the completion times, and no completion time denotes a later instant, wherever it is listed. |
| GithubConnector.NewestChecksTimeIsStrictlyLatest | src/test/java/org/retest/rebazer/connector/GithubConnectorTest.java:222-235 | A completion time strictly later than all others is exactly the result. |
| GithubConnector.SampleCompletedTexts | src/test/java/org/retest/rebazer/connector/GithubConnectorTest.java:57-71 | Of runs with a null, an empty and three present completion times, exactly the three present times count as completed: null and empty entries are skipped. |
| GithubConnector.NewestOfThree | src/test/java/org/retest/rebazer/connector/GithubConnectorTest.java:45-56 | Of three completion times, the one whose instant is strictly latest is reported, whatever its position in the list. |
| GithubConnector.NewestOfPrintedTimes | src/test/java/org/retest/rebazer/connector/GithubConnectorTest.java:77-102 | The same holds for printed date-times with any offsets, compared as instants rather than as text. |
| GithubConnector.FallbackParses | src/test/java/org/retest/rebazer/connector/GithubConnectorTest.java:115 | The fallback text reads as 2010-01-01T00:00:00Z. |
| GithubConnector.NewestChecksInstant | src/test/java/org/retest/rebazer/connector/GithubConnectorTest.java:57-74 | With no completed run the instant is the fallback's. Otherwise a result is the instant of one of the completion times. |
| GithubConnector.NewestChecksInstantFails | src/test/java/org/retest/rebazer/connector/GithubConnectorTest.java:77-102 | The instant of the newest check exists if and only if every completion time is a date-time. |
| GithubConnector.NewestChecksInstantIsLatest | src/test/java/org/retest/rebazer/connector/GithubConnectorTest.java:77-102 | Otherwise that instant bounds every completion time and is the instant of one of them. |
| GithubConnector.NewestChecksInstantIgnoresOrder | src/test/java/org/retest/rebazer/connector/GithubConnectorTest.java:45-56 | Run lists with the same completion times succeed together and give the same instant. |
| GithubConnector.GetLatestUpdate | src/test/java/org/retest/rebazer/connector/GithubConnectorTest.java:206-249 | `getLatestUpdate` succeeds if and only if `updated_at` and the newest check both have instants. Only `lastUpdate` changes. It is the larger of those two instants: no earlier than either, and equal to one of them. |
| GithubConnector.LatestUpdateFails | src/test/java/org/retest/rebazer/connector/GithubConnectorTest.java:206-220 | `getLatestUpdate` succeeds if and only if `updated_at` and every completion time are date-times. |
| GithubConnector.LatestUpdateIsLatest | src/test/java/org/retest/rebazer/connector/GithubConnectorTest.java:237-249 | Only `lastUpdate` changes. It is no earlier than `updated_at`, than any completed check, or (with none) than the fallback. It equals one of those instants. |
| GithubConnector.LatestUpdateIgnoresCheckOrder | src/test/java/org/retest/rebazer/connector/GithubConnectorTest.java:77-102 | Reordering or repeating check runs leaves the last update unchanged. |
| GithubConnector.LatestUpdateOfPrintedTimes | src/test/java/org/retest/rebazer/connector/GithubConnectorTest.java:77-102 | For printed date-times with any offsets, the last update is the later, as instants, of `updated_at` and the latest check. |
| GithubConnector.LatestUpdateMonotoneInUpdatedAt | src/test/java/org/retest/rebazer/connector/GithubConnectorTest.java:237-249 | A later `updated_at` never gives an earlier last update. |
| GithubConnector.LatestUpdateMonotoneInChecks | src/test/java/org/retest/rebazer/connector/GithubConnectorTest.java:237-249 | Adding completed checks to a list that already had one never gives an earlier last update. |
| GithubConnector.FirstCheckCanLowerLatestUpdate | src/test/java/org/retest/rebazer/connector/GithubConnectorTest.java:45-75 | A first completed check earlier than the fallback, on a pull request updated earlier too, lowers the last update. |
| GithubConnector.PrintedBefore | src/test/java/org/retest/rebazer/connector/GithubConnectorTest.java:77-90 | Of two printed UTC date-times, the one printed earlier denotes the earlier instant. |
| GithubConnector.PrintedBeforeFallback | src/test/java/org/retest/rebazer/connector/GithubConnectorTest.java:46 | A UTC date-time printed before 2010-01-01T00:00:00Z denotes an earlier instant. |
| GithubConnector.EarlyTimes | src/test/java/org/retest/rebazer/connector/GithubConnectorTest.java:46 | `updated_at` 2008-06-01T00:00:00Z and a check at 2009-06-01T00:00:00Z both precede the fallback. |
| GithubConnector.GetAllPullRequests | src/test/java/org/retest/rebazer/connector/GithubConnectorTest.java:184-204 | Succeeds if and only if every `updated_at` is a date-time. Entry i becomes `PullRequest(number, head.ref, base.ref, instant of updated_at)`, with the same length and order. |
| BitbucketConnector.IsApproved | src/test/java/org/retest/rebazer/connector/BitbucketConnectorTest.java:76-92 | Approved if and only if some participant has `approved` set. |
| BitbucketConnector.GreenBuildExists | src/test/java/org/retest/rebazer/connector/BitbucketConnectorTest.java:94-110 | Green if and only if there is at least one build status and every one is `SUCCESSFUL`. A single `FAILED` status is not green. |
| BitbucketConnector.GetAllPullRequests | src/test/java/org/retest/rebazer/connector/BitbucketConnectorTest.java:112-133 | Succeeds if and only if every `updated_on` is a date-time. Entry i becomes `PullRequest(id, source branch, destination branch, instant of updated_on)`, with the same length and order. |
| BitbucketConnector.GetLatestUpdate | src/test/java/org/retest/rebazer/connector/BitbucketConnectorTest.java:135-142 | Succeeds if and only if `updated_on` is a date-time. The result is the pull request with `lastUpdate` set to its instant and nothing else changed. |
| BitbucketConnector.LatestUpdateIsUpdatedOn | src/test/java/org/retest/rebazer/connector/BitbucketConnectorTest.java:135-142 | A printed `updated_on` yields exactly the instant of the date-time it prints. |
| Rfc3339.Parse | src/test/java/org/retest/rebazer/connector/GithubConnectorTest.java:115 | An accepted text has a valid date-time with at least 20 characters. A rejected text reports itself as malformed. |
| Rfc3339.Format | src/test/java/org/retest/rebazer/connector/GithubConnectorTest.java:115 | The printed form is fixed-width: 20 characters with `Z`, 25 with a numeric offset, with `-`, `T` and `:` at their positions. `ParseFormat` and `FormatParse` make it the inverse of `Parse`. |
| Rfc3339.EpochSeconds | src/test/java/org/retest/rebazer/connector/GithubConnectorTest.java:91-102 | For valid fields, the instant plus the offset lies within the 86400 seconds of the local calendar day, so the offset is subtracted from the local clock. |
| Rfc3339.ParseInstant | src/test/java/org/retest/rebazer/connector/GithubConnectorTest.java:193-194 | Defined exactly where parsing succeeds, and equal to the local clock minus the offset, in seconds since the Unix epoch. |
| Rfc3339.ParseInstants | src/test/java/org/retest/rebazer/connector/GithubConnectorTest.java:184-204 | Reading a list of texts succeeds if and only if every text is a date-time. Its result then holds the instant of each text, in order. |
| Rfc3339.FirstMalformed | src/test/java/org/retest/rebazer/connector/GithubConnectorTest.java:184-204 | When a list fails, it fails at the first text that is not a date-time, and the error names that text. |
| Rfc3339.ParseFormat | src/test/java/org/retest/rebazer/connector/GithubConnectorTest.java:115 | Printing a valid date-time and reading it back gives that date-time. |
| Rfc3339.FormatParse | src/test/java/org/retest/rebazer/connector/GithubConnectorTest.java:115 | Every accepted text is the printing of what was read, so the text form is canonical. |
| Rfc3339.ToUtc | src/test/java/org/retest/rebazer/connector/GithubConnectorTest.java:91-94 | Normalising to `Z` gives a valid UTC date-time denoting the same instant. |
| Rfc3339.UtcInstantOrder | src/test/java/org/retest/rebazer/connector/GithubConnectorTest.java:77-90 | For UTC date-times, instant order is field-by-field order, and equal instants mean equal date-times. |
| Rfc3339.InstantOrder | src/test/java/org/retest/rebazer/connector/GithubConnectorTest.java:77-102 | Any two date-times compare as instants exactly as their UTC forms compare field by field. They denote the same instant exactly when their UTC forms coincide. |
| Rfc3339.OffsetRollsOverDate | src/test/java/org/retest/rebazer/connector/GithubConnectorTest.java:91-94 | `2019-02-04T20:18:44-04:00` normalises to `2019-02-05T00:18:44Z`. |
| Rfc3339.OffsetExamples | src/test/java/org/retest/rebazer/connector/GithubConnectorTest.java:91-102 | The instant comparisons behind the offset rows of the test table, in both directions, including the equality of `+01:00` with `Z` one hour earlier. |
| Calendar.DayNumberOrder | src/test/java/org/retest/rebazer/connector/GithubConnectorTest.java:77-102 | The day count is below another exactly when the date is printed earlier, and equal exactly when the dates are equal. |
| Calendar.DayNumber | src/test/java/org/retest/rebazer/connector/GithubConnectorTest.java:77-102 | 1970-01-01 is day 0, and every date's count lies within the days its own year spans. `DayNumberOrder`, `NextDate` and `PreviousDate` tie it to calendar order. |
| Calendar.NextDate | src/test/java/org/retest/rebazer/connector/GithubConnectorTest.java:91-94 | The next calendar day is valid, later, and one day count higher, across month and year ends. |
| Calendar.PreviousDate | src/test/java/org/retest/rebazer/connector/GithubConnectorTest.java:95-102 | The previous calendar day is valid, earlier, and one day count lower. |

## Left out

- HTTP transport: `RestTemplate`, its builder, basic authentication and root URI. This is network I/O. Responses are parameters holding the fields that are read.
- JSON syntax and JsonPath. These are a foreign library, and some test inputs are not well-formed JSON. Only the mapping from fields is modelled.
- Mockito and JUnit scaffolding, and reading fixture files from disk. These are test infrastructure.
- `RepositoryConfig.getConnector`. It delegates to `RepositoryHostingTypes` and Spring wiring, which are not part of this model.
- `java.net.URL` internals. A host is the two strings the record reads from it: `getHost()` and `toString()`.
- `java.util.Date`. An instant is whole seconds since the epoch, which is the precision the tests use.
- The polling orchestrator, the store of last updates, and the git rebase executor. These are scheduling, I/O and process plumbing.
- The HTTP calls behind `getHeadOfBranch`, `getLastCommonCommitId` and `getLastParentCommitId`. Their results are the parameters of `RebaseNeeded`.
- Rfc3339.Parse: accepts only the fixed-width form with upper-case `T` and `Z`, years 0000 to 9999, and no fractional seconds or leap second `60`. `PullRequestLastUpdateStore` is not part of this model, so its leniencies are unknown.
- Rfc3339.Parse: an unparseable timestamp is an `Err` value. `parseStringToDate` is not part of this model; it is assumed to raise an exception there.
- Rfc3339.Parse: a timestamp with fractional seconds, such as a Bitbucket `updated_on` carrying microseconds, is an `Err` value rather than being truncated to whole seconds.
- GithubConnector.GreenBuildExists: the tests fix only a `failure` next to a `success` (not green) and two `success` runs (green). "No run concluded `failure`" and "the first run concluded `success`" fit them as well. Requiring every run to conclude `success` is a choice: a run still pending (null conclusion), `neutral`, `skipped` or `cancelled` makes the build not green. Treating an empty run list as not green is a choice too, made to agree with the Bitbucket variant and to fail safe.
- BitbucketConnector.GreenBuildExists: the tests use only one-element status lists. Requiring every status to be `SUCCESSFUL`, and at least one to exist, is a choice, made to agree with the GitHub variant.
- GithubConnector.IsApproved: the tests use only one-element review lists. "Some review is `APPROVED`" is a choice: a list with an `APPROVED` and a later `CHANGES_REQUESTED` review counts as approved, and an empty list as not approved.
- BitbucketConnector.IsApproved: the tests use only one-element participant lists. "Some participant approved" is a choice, and an empty list counts as not approved.
- GithubConnector.NewestChecksTime: the tests use only `Z` completion times, where text order and instant order agree. Choosing the latest by instant rather than by text follows the rule that printed timestamps are compared only after reading them as instants.
- GithubConnector.NewestChecksTime: the tests stub the pull request's stored last update to the same 2010-01-01T00:00:00Z as the fallback, so a connector falling back to that stored value would fit them equally well. The fixed text `2010-01-01T00:00:00Z` is the choice made here, and the stored last update is not an input of the model.
- GithubConnector.NewestChecksTime: the tie rule, where the first listed of equally late times is reported, is a fact about the definition. No contract states it, because `CompletionTimes` is specified by the set of texts it keeps, not by their order.
- GithubConnector.NewestChecksInstantIgnoresOrder: states equality only for successful results. On failure the error names the first malformed text, which depends on order.
- GithubConnector.LatestUpdateIgnoresCheckOrder: states equality only for successful results, for the same reason.
