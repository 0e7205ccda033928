/**
 * `GithubConnector`: the decisions it takes on already-read responses of the
 * GitHub REST API. Each response is reduced to the fields the connector reads.
 */
module GithubConnector {
  import opened Wrappers
  import opened Calendar
  import opened Rfc3339
  import opened Domain

  /** One element of the open pull-request listing: `number`, `head.ref`, `base.ref`, `updated_at`. */
  datatype PullListing = PullListing(number: int, headRef: string, baseRef: string, updatedAt: string)

  /**
   * One pull request's own resource, reduced to `updated_at`. Its `head.sha`
   * only names the commit whose check runs are fetched; those runs are passed
   * to the operations below as a separate argument.
   */
  datatype PullDetails = PullDetails(updatedAt: string)

  /** One element of the pull request's reviews: its `state`. */
  datatype Review = Review(state: string)

  /** One element of `check_runs` for the head commit; `None` is a JSON `null`. */
  datatype CheckRun = CheckRun(conclusion: Option<string>, completedAt: Option<string>)

  /** A timestamp text with the instant it denotes. */
  datatype Stamp = Stamp(text: string, instant: int)

  const Approved := "APPROVED"
  const Success := "success"

  /** What `newestChecksTime` reports when no check run has completed. */
  const FallbackTime := "2010-01-01T00:00:00Z"

  /** The date-time `FallbackTime` writes. */
  const FallbackDateTime := DateTime(Date(2010, 1, 1), 0, 0, 0, Zulu)

  // ---------------------------------------------------------------------------
  // Approval and build state

  /** `isApproved`: some review is in state `APPROVED`; no reviews means not approved. */
  function IsApproved(reviews: seq<Review>): (r: bool)
    ensures r <==> exists i :: 0 <= i < |reviews| && reviews[i].state == Approved
  {
    if reviews == [] then false
    else reviews[0].state == Approved || IsApproved(reviews[1..])
  }

  /**
   * `greenBuildExists`: at least one check run, and every one concluded
   * `success`. One `failure`, or one run still without a conclusion, makes
   * the build not green, and so does a commit no check has reported on.
   */
  function GreenBuildExists(runs: seq<CheckRun>): (r: bool)
    ensures r <==> runs != [] && forall i :: 0 <= i < |runs| ==> runs[i].conclusion == Some(Success)
  {
    if runs == [] then false
    else runs[0].conclusion == Some(Success) && (|runs| == 1 || GreenBuildExists(runs[1..]))
  }

  // ---------------------------------------------------------------------------
  // Newest check completion

  /** A run whose `completed_at` is neither null nor empty. */
  predicate Completed(run: CheckRun) {
    run.completedAt.Some? && run.completedAt.value != ""
  }

  /** The `completed_at` texts of the completed runs. */
  ghost function CompletedTexts(runs: seq<CheckRun>): set<string> {
    set i | 0 <= i < |runs| && Completed(runs[i]) :: runs[i].completedAt.value
  }

  /** The `completed_at` texts of the completed runs, in listing order. */
  function CompletionTimes(runs: seq<CheckRun>): (r: seq<string>)
    ensures forall t :: t in r <==> t in CompletedTexts(runs)
    ensures r == [] <==> CompletedTexts(runs) == {}
  {
    if runs == [] then []
    else
      var rest := CompletionTimes(runs[1..]);
      assert forall t :: t in CompletedTexts(runs) <==>
        t in CompletedTexts(runs[1..]) || (Completed(runs[0]) && t == runs[0].completedAt.value) by {
        forall t | t in CompletedTexts(runs[1..]) ensures t in CompletedTexts(runs) {
          var i :| 0 <= i < |runs[1..]| && Completed(runs[1..][i]) && runs[1..][i].completedAt.value == t;
          assert runs[i + 1] == runs[1..][i];
        }
        forall t | t in CompletedTexts(runs) ensures t in CompletedTexts(runs[1..]) || (Completed(runs[0]) && t == runs[0].completedAt.value) {
          var i :| 0 <= i < |runs| && Completed(runs[i]) && runs[i].completedAt.value == t;
          if i > 0 {
            assert runs[1..][i - 1] == runs[i];
          }
        }
      }
      if Completed(runs[0]) then
        assert runs[0].completedAt.value in CompletedTexts(runs);
        [runs[0].completedAt.value] + rest
      else
        assert rest != [] ==> rest[0] in CompletedTexts(runs);
        rest
  }

  /** Every text paired with the instant it denotes, in order. */
  function ParseStamps(texts: seq<string>): (r: Result<seq<Stamp>>)
    ensures r.Ok? <==> forall i :: 0 <= i < |texts| ==> ParseInstant(texts[i]).Ok?
    ensures r.Ok? ==> |r.value| == |texts|
    ensures r.Ok? ==> forall i :: 0 <= i < |texts| ==>
      ParseInstant(texts[i]).Ok? && r.value[i] == Stamp(texts[i], ParseInstant(texts[i]).value)
  {
    var instants :- ParseInstants(texts);
    Ok(seq(|texts|, i requires 0 <= i < |texts| => Stamp(texts[i], instants[i])))
  }

  /**
   * A running maximum over the stamps in order, compared as instants: the
   * first stamp denoting the latest instant, or `None` when there are none.
   */
  function Newest(stamps: seq<Stamp>): (r: Option<Stamp>)
    ensures r.None? <==> stamps == []
    ensures r.Some? ==> r.value in stamps
    ensures r.Some? ==> forall j :: 0 <= j < |stamps| ==> stamps[j].instant <= r.value.instant
  {
    if stamps == [] then None
    else
      var best := Newest(stamps[..|stamps| - 1]);
      var last := stamps[|stamps| - 1];
      if best.None? || last.instant > best.value.instant then Some(last) else best
  }

  /** `st` sits at position `i`, is no earlier than any stamp, and later than every stamp before `i`. */
  ghost predicate NewestAt(stamps: seq<Stamp>, i: int, st: Stamp) {
    0 <= i < |stamps| && stamps[i] == st
    && (forall j :: 0 <= j < |stamps| ==> stamps[j].instant <= st.instant)
    && (forall j :: 0 <= j < i ==> stamps[j].instant < st.instant)
  }

  /** The running maximum finds the latest stamp, the first among equally late ones. */
  lemma {:induction false} NewestIsMaximum(stamps: seq<Stamp>)
    requires stamps != []
    ensures exists i :: NewestAt(stamps, i, Newest(stamps).value)
  {
    var init := stamps[..|stamps| - 1];
    var last := stamps[|stamps| - 1];
    if init == [] || last.instant > Newest(init).value.instant {
      assert Newest(stamps) == Some(last);
      if init != [] {
        NewestIsMaximum(init);
        var i :| NewestAt(init, i, Newest(init).value);
        forall j | 0 <= j < |init| ensures stamps[j].instant < last.instant {
          assert stamps[j] == init[j];
        }
      }
      assert NewestAt(stamps, |stamps| - 1, last);
    } else {
      assert Newest(stamps) == Newest(init);
      NewestIsMaximum(init);
      var i :| NewestAt(init, i, Newest(init).value);
      forall j | 0 <= j < i ensures stamps[j].instant < Newest(init).value.instant {
        assert stamps[j] == init[j];
      }
      forall j | 0 <= j < |init| ensures stamps[j].instant <= Newest(init).value.instant {
        assert stamps[j] == init[j];
      }
      assert NewestAt(stamps, i, Newest(init).value);
    }
  }

  /** The instant `a` denotes is no later than the one `b` denotes; both are date-times. */
  ghost predicate NoLaterThan(a: string, b: string) {
    ParseInstant(a).Ok? && ParseInstant(b).Ok? && ParseInstant(a).value <= ParseInstant(b).value
  }

  /**
   * `newestChecksTime`: the `completed_at` text of the check run that
   * completed last, or `FallbackTime` when none has completed; null and empty
   * `completed_at` values are skipped, and any other text that is not a
   * date-time is an error.
   */
  function NewestChecksTime(runs: seq<CheckRun>): (r: Result<string>)
    ensures CompletedTexts(runs) == {} ==> r == Ok(FallbackTime)
    ensures r.Ok? && CompletedTexts(runs) != {} ==> r.value in CompletedTexts(runs)
  {
    var stamps :- ParseStamps(CompletionTimes(runs));
    match Newest(stamps)
    case None => Ok(FallbackTime)
    case Some(st) =>
      var i :| 0 <= i < |stamps| && stamps[i] == st;
      assert st.text == CompletionTimes(runs)[i];
      Ok(st.text)
  }

  /** Reading the check times fails exactly when a completed run's time is not a date-time. */
  lemma NewestChecksTimeFails(runs: seq<CheckRun>)
    ensures NewestChecksTime(runs).Ok? <==> forall t :: t in CompletedTexts(runs) ==> ParseInstant(t).Ok?
  {
    var texts := CompletionTimes(runs);
    if ParseStamps(texts).Err? {
      var i :| 0 <= i < |texts| && ParseInstant(texts[i]).Err?;
      assert texts[i] in CompletedTexts(runs);
    }
  }

  /**
   * Otherwise the reported text is the completion time of one of the runs,
   * and no completed run finished later, wherever it stands in the list.
   */
  lemma NewestChecksTimeIsLatest(runs: seq<CheckRun>)
    requires CompletedTexts(runs) != {}
    requires NewestChecksTime(runs).Ok?
    ensures NewestChecksTime(runs).value in CompletedTexts(runs)
    ensures forall t :: t in CompletedTexts(runs) ==> NoLaterThan(t, NewestChecksTime(runs).value)
  {
    var texts := CompletionTimes(runs);
    var t0 :| t0 in CompletedTexts(runs);
    assert t0 in texts;
    var stamps := ParseStamps(texts).value;
    NewestIsMaximum(stamps);
    var k :| NewestAt(stamps, k, Newest(stamps).value);
    assert NewestChecksTime(runs).value == texts[k];
    forall t | t in CompletedTexts(runs) ensures NoLaterThan(t, texts[k]) {
      var j :| 0 <= j < |texts| && texts[j] == t;
      assert stamps[j].instant <= stamps[k].instant;
    }
  }

  lemma FallbackDigits()
    ensures Digits(2010, 4) == "2010" && Digits(1, 2) == "01" && Digits(0, 2) == "00"
  {
  }

  lemma FallbackValid()
    ensures Valid(FallbackDateTime)
  {
  }

  lemma FallbackFormat()
    ensures Valid(FallbackDateTime) && Format(FallbackDateTime) == FallbackTime
  {
    FallbackValid();
    FallbackDigits();
    FallbackPieces();
  }

  /** The fallback text cut at its separators. */
  lemma FallbackPieces()
    ensures FallbackTime == "2010" + "-" + "01" + "-" + "01" + "T" + "00" + ":" + "00" + ":" + "00" + "Z"
  {
    Assemble(FallbackTime, "2010", "01", "01", "00", "00", "00", "Z");
  }

  /** The fallback text is the date-time 2010-01-01T00:00:00Z. */
  lemma FallbackParses()
    ensures Parse(FallbackTime) == Ok(FallbackDateTime)
  {
    FallbackFormat();
    ParseFormat(FallbackDateTime);
  }

  /**
   * `getLatestUpdate`: the pull request with `lastUpdate` set to the later of
   * `updated_at` and the newest check time, compared as absolute instants;
   * the other fields are kept.
   */
  function GetLatestUpdate(pr: PullRequest, details: PullDetails, runs: seq<CheckRun>): (r: Result<PullRequest>)
    ensures r.Ok? <==> ParseInstant(details.updatedAt).Ok? && NewestChecksInstant(runs).Ok?
    ensures r.Ok? ==> r.value == pr.(lastUpdate := r.value.lastUpdate)
    ensures r.Ok? ==> r.value.lastUpdate >= ParseInstant(details.updatedAt).value
                      && r.value.lastUpdate >= NewestChecksInstant(runs).value
    ensures r.Ok? ==> r.value.lastUpdate in {ParseInstant(details.updatedAt).value, NewestChecksInstant(runs).value}
  {
    var updated :- ParseInstant(details.updatedAt);
    var checks :- NewestChecksInstant(runs);
    Ok(pr.(lastUpdate := if updated >= checks then updated else checks))
  }

  /** The instant `newestChecksTime` denotes. */
  function NewestChecksInstant(runs: seq<CheckRun>): (r: Result<int>)
    ensures CompletedTexts(runs) == {} ==> r == ParseInstant(FallbackTime)
    ensures r.Ok? && CompletedTexts(runs) != {} ==> exists t :: t in CompletedTexts(runs) && ParseInstant(t) == r
  {
    var newest :- NewestChecksTime(runs);
    ParseInstant(newest)
  }

  /** The newest check instant can be computed exactly when every completion time is a date-time. */
  lemma NewestChecksInstantFails(runs: seq<CheckRun>)
    ensures NewestChecksInstant(runs).Ok? <==> forall t :: t in CompletedTexts(runs) ==> ParseInstant(t).Ok?
  {
    NewestChecksTimeFails(runs);
    if NewestChecksTime(runs).Ok? {
      if CompletedTexts(runs) == {} {
        FallbackParses();
      } else {
        NewestChecksTimeIsLatest(runs);
      }
    }
  }

  /**
   * Otherwise the newest check instant is no earlier than any completed run
   * and is the instant of one of them.
   */
  lemma NewestChecksInstantIsLatest(runs: seq<CheckRun>)
    requires CompletedTexts(runs) != {}
    requires NewestChecksInstant(runs).Ok?
    ensures forall t :: t in CompletedTexts(runs) ==>
      ParseInstant(t).Ok? && ParseInstant(t).value <= NewestChecksInstant(runs).value
    ensures exists t :: t in CompletedTexts(runs) && ParseInstant(t) == NewestChecksInstant(runs)
  {
    NewestChecksTimeIsLatest(runs);
    var newest := NewestChecksTime(runs).value;
    var c := NewestChecksInstant(runs);
    assert ParseInstant(newest) == c;
    forall t | t in CompletedTexts(runs)
      ensures ParseInstant(t).Ok? && ParseInstant(t).value <= c.value
    {
      assert NoLaterThan(t, newest);
    }
  }

  /** The latest update can be computed exactly when `updated_at` and every completion time are date-times. */
  lemma LatestUpdateFails(pr: PullRequest, details: PullDetails, runs: seq<CheckRun>)
    ensures GetLatestUpdate(pr, details, runs).Ok?
            <==> ParseInstant(details.updatedAt).Ok? && forall t :: t in CompletedTexts(runs) ==> ParseInstant(t).Ok?
  {
    NewestChecksInstantFails(runs);
  }

  /**
   * The last update is never stale and never invented: it is no earlier than
   * `updated_at` nor than any completed check run, and it is one of those
   * instants, or the fallback instant when no check run has completed. Only
   * `lastUpdate` changes.
   */
  lemma LatestUpdateIsLatest(pr: PullRequest, details: PullDetails, runs: seq<CheckRun>)
    requires GetLatestUpdate(pr, details, runs).Ok?
    ensures var r := GetLatestUpdate(pr, details, runs).value;
      && r == pr.(lastUpdate := r.lastUpdate)
      && ParseInstant(details.updatedAt).Ok?
      && ParseInstant(details.updatedAt).value <= r.lastUpdate
      && (forall t :: t in CompletedTexts(runs) ==> ParseInstant(t).Ok? && ParseInstant(t).value <= r.lastUpdate)
      && (CompletedTexts(runs) == {} ==> ParseInstant(FallbackTime).Ok? && ParseInstant(FallbackTime).value <= r.lastUpdate)
      && (r.lastUpdate == ParseInstant(details.updatedAt).value
          || (exists t :: t in CompletedTexts(runs) && ParseInstant(t) == Ok(r.lastUpdate))
          || (CompletedTexts(runs) == {} && ParseInstant(FallbackTime) == Ok(r.lastUpdate)))
  {
    var r := GetLatestUpdate(pr, details, runs).value;
    var updated := ParseInstant(details.updatedAt).value;
    var checks := NewestChecksInstant(runs).value;
    assert r.lastUpdate == if updated >= checks then updated else checks;
    if CompletedTexts(runs) == {} {
    } else {
      NewestChecksInstantIsLatest(runs);
    }
  }

  /**
   * Only which completion times occur matters, not where in the list or how
   * often: lists with the same completed texts give the same last update.
   */
  lemma LatestUpdateIgnoresCheckOrder(pr: PullRequest, details: PullDetails, a: seq<CheckRun>, b: seq<CheckRun>)
    requires CompletedTexts(a) == CompletedTexts(b)
    ensures GetLatestUpdate(pr, details, a).Ok? <==> GetLatestUpdate(pr, details, b).Ok?
    ensures GetLatestUpdate(pr, details, a).Ok? ==> GetLatestUpdate(pr, details, a) == GetLatestUpdate(pr, details, b)
  {
    NewestChecksInstantIgnoresOrder(a, b);
  }

  /** The instant of the newest check depends only on which completion times occur. */
  lemma NewestChecksInstantIgnoresOrder(a: seq<CheckRun>, b: seq<CheckRun>)
    requires CompletedTexts(a) == CompletedTexts(b)
    ensures NewestChecksInstant(a).Ok? <==> NewestChecksInstant(b).Ok?
    ensures NewestChecksInstant(a).Ok? ==> NewestChecksInstant(a).value == NewestChecksInstant(b).value
  {
    NewestChecksTimeFails(a);
    NewestChecksTimeFails(b);
    if NewestChecksTime(a).Ok? {
      if CompletedTexts(a) != {} {
        NewestChecksTimeIsLatest(a);
        NewestChecksTimeIsLatest(b);
        var na, nb := NewestChecksTime(a).value, NewestChecksTime(b).value;
        assert NoLaterThan(na, nb) && NoLaterThan(nb, na);
        assert ParseInstant(na) == ParseInstant(nb);
      }
    } else {
      var t :| t in CompletedTexts(a) && ParseInstant(t).Err?;
    }
  }

  /**
   * Five check runs: one with a null `completed_at`, one with an empty one,
   * then three with completion times.
   */
  function SampleRuns(ta: string, tb: string, tc: string): seq<CheckRun> {
    [CheckRun(None, None), CheckRun(None, Some("")),
     CheckRun(None, Some(ta)), CheckRun(None, Some(tb)), CheckRun(None, Some(tc))]
  }

  /** Null and empty completion times are skipped; the present ones are all kept. */
  lemma SampleCompletedTexts(ta: string, tb: string, tc: string)
    requires ta != "" && tb != "" && tc != ""
    ensures CompletedTexts(SampleRuns(ta, tb, tc)) == {ta, tb, tc}
  {
    var runs := SampleRuns(ta, tb, tc);
    assert Completed(runs[2]) && Completed(runs[3]) && Completed(runs[4]);
  }

  /** A completion time strictly later than every other completion time is the one reported. */
  lemma NewestChecksTimeIsStrictlyLatest(runs: seq<CheckRun>, tb: string)
    requires tb in CompletedTexts(runs)
    requires forall t :: t in CompletedTexts(runs) ==> ParseInstant(t).Ok?
    requires forall t :: t in CompletedTexts(runs) && t != tb ==> ParseInstant(t).value < ParseInstant(tb).value
    ensures NewestChecksTime(runs) == Ok(tb)
  {
    NewestChecksTimeFails(runs);
    NewestChecksTimeIsLatest(runs);
    var v := NewestChecksTime(runs).value;
    assert NoLaterThan(tb, v);
  }

  /**
   * Of three completion times, the one denoting the latest instant is
   * reported, whatever its position.
   */
  lemma NewestOfThree(runs: seq<CheckRun>, ta: string, tb: string, tc: string)
    requires CompletedTexts(runs) == {ta, tb, tc}
    requires ParseInstant(ta).Ok? && ParseInstant(tb).Ok? && ParseInstant(tc).Ok?
    requires ParseInstant(ta).value < ParseInstant(tb).value && ParseInstant(tc).value < ParseInstant(tb).value
    ensures NewestChecksTime(runs) == Ok(tb)
  {
    var texts := CompletedTexts(runs);
    forall t | t in texts
      ensures ParseInstant(t).Ok? && (t != tb ==> ParseInstant(t).value < ParseInstant(tb).value)
    {
      assert t in {ta, tb, tc};
    }
    NewestChecksTimeIsStrictlyLatest(runs, tb);
  }

  /** A printed date-time denotes its own instant. */
  lemma PrintedInstant(t: DateTime)
    requires Valid(t)
    ensures ParseInstant(Format(t)) == Ok(EpochSeconds(t))
  {
    ParseFormat(t);
  }

  /** The same with printed date-times, whatever their offsets. */
  lemma NewestOfPrintedTimes(runs: seq<CheckRun>, a: DateTime, b: DateTime, c: DateTime)
    requires Valid(a) && Valid(b) && Valid(c)
    requires CompletedTexts(runs) == {Format(a), Format(b), Format(c)}
    requires EpochSeconds(a) < EpochSeconds(b) && EpochSeconds(c) < EpochSeconds(b)
    ensures NewestChecksTime(runs) == Ok(Format(b))
  {
    PrintedInstant(a);
    PrintedInstant(b);
    PrintedInstant(c);
    NewestOfThree(runs, Format(a), Format(b), Format(c));
  }

  /**
   * With those runs, the last update is the later of `updated_at` and the
   * newest check, as instants, whatever the offsets.
   */
  lemma LatestUpdateOfPrintedTimes(pr: PullRequest, u: DateTime, runs: seq<CheckRun>,
                                   a: DateTime, b: DateTime, c: DateTime)
    requires Valid(u) && Valid(a) && Valid(b) && Valid(c)
    requires CompletedTexts(runs) == {Format(a), Format(b), Format(c)}
    requires EpochSeconds(a) < EpochSeconds(b) && EpochSeconds(c) < EpochSeconds(b)
    ensures GetLatestUpdate(pr, PullDetails(Format(u)), runs)
            == Ok(pr.(lastUpdate := if EpochSeconds(u) >= EpochSeconds(b) then EpochSeconds(u) else EpochSeconds(b)))
  {
    NewestOfPrintedTimes(runs, a, b, c);
    PrintedInstant(u);
    PrintedInstant(b);
  }

  /** A later `updated_at` never gives an earlier last update. */
  lemma LatestUpdateMonotoneInUpdatedAt(pr: PullRequest, d1: PullDetails, d2: PullDetails, runs: seq<CheckRun>)
    requires GetLatestUpdate(pr, d1, runs).Ok? && GetLatestUpdate(pr, d2, runs).Ok?
    requires ParseInstant(d1.updatedAt).value <= ParseInstant(d2.updatedAt).value
    ensures GetLatestUpdate(pr, d1, runs).value.lastUpdate <= GetLatestUpdate(pr, d2, runs).value.lastUpdate
  {
  }

  /**
   * One more completed check run never gives an earlier last update, as long
   * as some check run had already completed.
   */
  lemma LatestUpdateMonotoneInChecks(pr: PullRequest, d: PullDetails, a: seq<CheckRun>, b: seq<CheckRun>)
    requires GetLatestUpdate(pr, d, a).Ok? && GetLatestUpdate(pr, d, b).Ok?
    requires CompletedTexts(a) != {} && CompletedTexts(a) <= CompletedTexts(b)
    ensures GetLatestUpdate(pr, d, a).value.lastUpdate <= GetLatestUpdate(pr, d, b).value.lastUpdate
  {
    NewestChecksInstantIsLatest(a);
    NewestChecksInstantIsLatest(b);
    var t :| t in CompletedTexts(a) && ParseInstant(t) == NewestChecksInstant(a);
    assert t in CompletedTexts(b);
  }

  /**
   * Without the proviso above the last update can go down: while no check
   * has completed the fallback 2010-01-01T00:00:00Z takes part, and a first
   * check completed earlier than that, on a pull request updated earlier
   * too, replaces it with an earlier instant.
   */
  lemma FirstCheckCanLowerLatestUpdate(pr: PullRequest, d: PullDetails, none: seq<CheckRun>, one: seq<CheckRun>, c: string)
    requires CompletedTexts(none) == {} && CompletedTexts(one) == {c}
    requires ParseInstant(d.updatedAt).Ok? && ParseInstant(c).Ok? && ParseInstant(FallbackTime).Ok?
    requires ParseInstant(d.updatedAt).value < ParseInstant(FallbackTime).value
    requires ParseInstant(c).value < ParseInstant(FallbackTime).value
    ensures GetLatestUpdate(pr, d, none).Ok? && GetLatestUpdate(pr, d, one).Ok?
    ensures GetLatestUpdate(pr, d, one).value.lastUpdate < GetLatestUpdate(pr, d, none).value.lastUpdate
  {
    NewestChecksInstantFails(one);
    NewestChecksInstantIsLatest(one);
  }

  /** Of two printed UTC date-times, the one printed earlier denotes the earlier instant. */
  lemma PrintedBefore(t: DateTime, f: DateTime)
    requires Valid(t) && IsUtc(t) && Valid(f) && IsUtc(f) && ClockBefore(t, f)
    ensures ParseInstant(Format(t)).Ok? && ParseInstant(Format(f)).Ok?
    ensures ParseInstant(Format(t)).value < ParseInstant(Format(f)).value
  {
    ParseFormat(t);
    ParseFormat(f);
    UtcInstantOrder(t, f);
  }

  /** A UTC date-time printed before the fallback denotes an earlier instant. */
  lemma PrintedBeforeFallback(t: DateTime)
    requires Valid(t) && IsUtc(t) && ClockBefore(t, FallbackDateTime)
    ensures ParseInstant(Format(t)).Ok? && ParseInstant(FallbackTime).Ok?
    ensures ParseInstant(Format(t)).value < ParseInstant(FallbackTime).value
  {
    FallbackFormat();
    PrintedBefore(t, FallbackDateTime);
  }

  /** Such times exist: `updated_at` 2008-06-01T00:00:00Z and a check completed at 2009-06-01T00:00:00Z. */
  lemma EarlyTimes()
    ensures var u := Format(DateTime(Date(2008, 6, 1), 0, 0, 0, Zulu));
            var c := Format(DateTime(Date(2009, 6, 1), 0, 0, 0, Zulu));
            ParseInstant(u).Ok? && ParseInstant(c).Ok? && ParseInstant(FallbackTime).Ok?
            && ParseInstant(u).value < ParseInstant(FallbackTime).value
            && ParseInstant(c).value < ParseInstant(FallbackTime).value
  {
    PrintedBeforeFallback(DateTime(Date(2008, 6, 1), 0, 0, 0, Zulu));
    PrintedBeforeFallback(DateTime(Date(2009, 6, 1), 0, 0, 0, Zulu));
  }

  // ---------------------------------------------------------------------------
  // Listing

  /** The `updated_at` of every listing entry, in order. */
  function UpdatedAts(listing: seq<PullListing>): (r: seq<string>)
    ensures |r| == |listing| && forall i :: 0 <= i < |listing| ==> r[i] == listing[i].updatedAt
  {
    seq(|listing|, i requires 0 <= i < |listing| => listing[i].updatedAt)
  }

  /** `getAllPullRequests`: one pull request per listing entry, in listing order. */
  function GetAllPullRequests(listing: seq<PullListing>): (r: Result<seq<PullRequest>>)
    ensures r.Ok? <==> forall i :: 0 <= i < |listing| ==> ParseInstant(listing[i].updatedAt).Ok?
    ensures r.Ok? ==> |r.value| == |listing|
    ensures r.Ok? ==> forall i :: 0 <= i < |listing| ==>
      ParseInstant(listing[i].updatedAt).Ok? &&
      r.value[i] == PullRequest(listing[i].number, listing[i].headRef, listing[i].baseRef,
                                ParseInstant(listing[i].updatedAt).value)
  {
    var instants :- ParseInstants(UpdatedAts(listing));
    Ok(seq(|listing|, i requires 0 <= i < |listing| =>
      PullRequest(listing[i].number, listing[i].headRef, listing[i].baseRef, instants[i])))
  }
}
