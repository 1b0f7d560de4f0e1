/** The earlier single-file version of the download command
    (`commands/download_file.py`). It keeps the same table with the same set
    and pop, but its thread has no timestamp, always checks the checksum,
    reports `failed` and `verified` instead of the three markers, re-raises
    every failure, and computes progress without guarding against an
    unknown size. */
module LegacyDownloadFile {
  import opened Values
  import opened Exceptions
  import opened Registry
  import Progress
  import opened DownloadThread
  import opened DownloadFile

  /** A thread object of the earlier version: its identity `serial`, and
      its attributes, with no timestamp and a checksum that must be
      present. */
  datatype LegacyThread = LegacyThread(serial: nat, uid: PyValue, url: PyValue, path: string, checksum: PyValue)

  datatype LegacyLive = LegacyLive(thread: LegacyThread, shouldStop: bool, reports: seq<Dict>)

  const Failed: string := "failed"
  const Verified: string := "verified"

  /** `_report_progress` of the earlier thread, as written: the rounded
      percentage capped at 100, with no guard on the size. None stands for
      the ZeroDivisionError a zero size raises. */
  function LegacyPercent(blockCount: nat, blockSize: nat, totalSize: int): (p: Option<int>)
    ensures p.None? <==> totalSize == 0
    ensures p.Some? ==> p.value <= 100
    ensures p.Some? && totalSize < 0 && 200 * (blockCount * blockSize) > -totalSize ==> p.value < 0
    ensures totalSize > 0 ==> p == Some(Progress.PercentDone(blockCount, blockSize, totalSize).i)
  {
    if totalSize == 0 then None
    else
      var bytes := blockCount * blockSize;
      var r := Progress.RoundHalfAway(100 * bytes, totalSize);
      NegativeSizeRoundsBelowZero(bytes, totalSize, r);
      Some(if r < 100 then r else 100)
  }

  /** A ratio below -1/200 makes the rounded percentage negative. */
  lemma NegativeSizeRoundsBelowZero(bytes: int, d: int, r: int)
    requires d != 0
    requires Progress.Abs(2 * (d * r - 100 * bytes)) <= Progress.Abs(d)
    requires 2 * Progress.Abs(d * r - 100 * bytes) == Progress.Abs(d) ==> Progress.Abs(d * r) > Progress.Abs(100 * bytes)
    ensures 200 * bytes > -d > 0 ==> r < 0
  {
    if 200 * bytes > -d > 0 && r >= 0 {
      Progress.MulNegate(-d, r);
      Progress.MulMonotone(-d, r, 0);
      assert false;
    }
  }

  /** The first callback of a transfer whose server sent no length
      (the transport passes -1): as written the report says -819200. */
  lemma LegacyUnknownSizeGoesNegative()
    ensures LegacyPercent(1, 8192, -1) == Some(-819200)
    ensures Progress.PercentDone(1, 8192, -1) == PNone
  {
    var r := Progress.RoundHalfAway(819200, -1);
    assert -1 * r == -r;
  }

  /** Sending a report in the earlier thread: one more report, holding the
      uid and the progress value only. */
  function LegacyEmit(s: LegacyLive, progress: PyValue): (s': LegacyLive)
    ensures s'.thread == s.thread && s'.shouldStop == s.shouldStop
    ensures |s'.reports| == |s.reports| + 1 && s'.reports[..|s.reports|] == s.reports
    ensures s'.reports[|s.reports|].Keys == {"uid", "progress"}
    ensures s'.reports[|s.reports|]["uid"] == s.thread.uid && s'.reports[|s.reports|]["progress"] == progress
  {
    s.(reports := s.reports + [map["uid" := s.thread.uid, "progress" := progress]])
  }

  datatype LegacyHookResult = LegacyContinued(state: LegacyLive) | LegacyRaised(state: LegacyLive, error: Exc)

  /** `_reporthook` of the earlier thread: the stop signal when the flag is
      set, a ZeroDivisionError for a zero size, else one progress report. */
  function LegacyReportHook(s: LegacyLive, signal: Exc, blockCount: nat, blockSize: nat, totalSize: int): (h: LegacyHookResult)
    ensures h.state.thread == s.thread && h.state.shouldStop == s.shouldStop
    ensures h.LegacyRaised? <==> s.shouldStop || totalSize == 0
    ensures h.LegacyRaised? ==> h.state.reports == s.reports
    ensures h.LegacyRaised? ==> h.error == (if s.shouldStop then signal else ZeroDivisionError)
    ensures h.LegacyContinued? ==>
              h.state.reports == s.reports + [map["uid" := s.thread.uid,
                                                  "progress" := PInt(LegacyPercent(blockCount, blockSize, totalSize).value)]]
  {
    if s.shouldStop then LegacyRaised(s, signal)
    else match LegacyPercent(blockCount, blockSize, totalSize)
      case None => LegacyRaised(s, ZeroDivisionError)
      case Some(p) => LegacyContinued(LegacyEmit(s, PInt(p)))
  }

  /** A callback of the transfer reports a total size of zero. */
  ghost predicate HasZeroSizeCallback(events: seq<Event>)
  {
    exists j :: 0 <= j < |events| && events[j].Callback? && events[j].totalSize == 0
  }

  lemma ZeroSizeTail(events: seq<Event>)
    requires |events| > 0
    ensures HasZeroSizeCallback(events) <==>
              (events[0].Callback? && events[0].totalSize == 0) || HasZeroSizeCallback(events[1..])
  {
    var rest := events[1..];
    if HasZeroSizeCallback(events) && !(events[0].Callback? && events[0].totalSize == 0) {
      var j :| 0 <= j < |events| && events[j].Callback? && events[j].totalSize == 0;
      assert rest[j - 1].Callback? && rest[j - 1].totalSize == 0;
    }
    if HasZeroSizeCallback(rest) {
      var j :| 0 <= j < |rest| && rest[j].Callback? && rest[j].totalSize == 0;
      assert events[j + 1].Callback? && events[j + 1].totalSize == 0;
    }
  }

  /** A progress report of the earlier thread: uid and an integer, no
      timestamp. */
  ghost predicate IsLegacyProgressReport(t: LegacyThread, r: Dict)
  {
    r.Keys == {"uid", "progress"} && r["uid"] == t.uid && r["progress"].PInt?
  }

  /** The transfer's events through the earlier callback. */
  function LegacyDrive(s: LegacyLive, signal: Exc, events: seq<Event>): (d: StepResult<LegacyLive>)
    decreases |events|
    ensures d.state.thread == s.thread
    ensures s.shouldStop ==> d.state.shouldStop
    ensures d.raised.None? ==> (d.state.shouldStop <==> s.shouldStop || StopRequested(events))
    ensures |s.reports| <= |d.state.reports| && d.state.reports[..|s.reports|] == s.reports
    ensures forall i :: |s.reports| <= i < |d.state.reports| ==> IsLegacyProgressReport(s.thread, d.state.reports[i])
    ensures d.raised.Some? ==> d.raised.value in {signal, ZeroDivisionError}
    ensures d.raised.Some? <==>
              (s.shouldStop && HasCallback(events)) || StopObserved(events) || HasZeroSizeCallback(events)
    ensures d.raised.None? ==> |d.state.reports| == |s.reports| + CountCallbacks(events)
  {
    if |events| == 0 then StepResult(s, None)
    else
      EventsTail(events);
      ZeroSizeTail(events);
      match events[0]
      case StopScheduled => LegacyDrive(s.(shouldStop := true), signal, events[1..])
      case Callback(bc, bs, ts) =>
        var h := LegacyReportHook(s, signal, bc, bs, ts);
        if h.LegacyRaised? then StepResult(h.state, Some(h.error))
        else
          var d := LegacyDrive(h.state, signal, events[1..]);
          assert d.state.reports[..|s.reports|] == d.state.reports[..|h.state.reports|][..|s.reports|];
          d
  }

  /** The progress value an earlier callback reports; a callback with a
      zero size reports nothing, so its value is never read. */
  function LegacyCallbackPercent(e: Event): PyValue
  {
    if e.Callback? then
      match LegacyPercent(e.blockCount, e.blockSize, e.totalSize)
      case Some(p) => PInt(p)
      case None => PNone
    else PNone
  }

  /** A callback of the earlier thread that reports appends one report
      carrying that callback's percentage. */
  lemma LegacyHookReportsPercent(s: LegacyLive, signal: Exc, e: Event)
    requires e.Callback?
    ensures var h := LegacyReportHook(s, signal, e.blockCount, e.blockSize, e.totalSize);
            h.LegacyContinued? ==>
              && |h.state.reports| == |s.reports| + 1
              && "progress" in h.state.reports[|s.reports|]
              && h.state.reports[|s.reports|]["progress"] == LegacyCallbackPercent(e)
  {
  }

  /** The reports the earlier transfer sends follow its callbacks: the k-th
      new report carries the percentage of the k-th callback. */
  lemma {:induction false} LegacyDriveFollowsCallbacks(s: LegacyLive, signal: Exc, events: seq<Event>)
    decreases |events|
    ensures ReportsFollow(LegacyDrive(s, signal, events).state.reports, |s.reports|, events, LegacyCallbackPercent)
  {
    if |events| > 0 {
      var e := events[0];
      if e.StopScheduled? {
        var d := LegacyDrive(s.(shouldStop := true), signal, events[1..]);
        LegacyDriveFollowsCallbacks(s.(shouldStop := true), signal, events[1..]);
        assert LegacyDrive(s, signal, events) == d;
        FollowPastStop(d.state.reports, |s.reports|, events, LegacyCallbackPercent);
      } else {
        var h := LegacyReportHook(s, signal, e.blockCount, e.blockSize, e.totalSize);
        if h.LegacyContinued? {
          LegacyHookReportsPercent(s, signal, e);
          var d := LegacyDrive(h.state, signal, events[1..]);
          LegacyDriveFollowsCallbacks(h.state, signal, events[1..]);
          assert LegacyDrive(s, signal, events) == d;
          FollowPastReport(d.state.reports, h.state.reports, |s.reports|, events, LegacyCallbackPercent);
        }
      }
    }
  }

  /** The earlier callback at index `j` raises when the flag started set
      (`flag`), a stop was requested before it, or its size is zero. */
  ghost predicate LegacyRaisesAt(flag: bool, events: seq<Event>, j: int)
  {
    && 0 <= j < |events| && events[j].Callback?
    && (flag || StopRequested(events[..j]) || events[j].totalSize == 0)
  }

  /** Index `j` holds the first callback that raises. */
  ghost predicate FirstLegacyRaise(flag: bool, events: seq<Event>, j: int)
  {
    LegacyRaisesAt(flag, events, j) && forall k :: 0 <= k < j ==> !LegacyRaisesAt(flag, events, k)
  }

  /** Past the first event, the flag is up if it was or that event was a
      stop request. */
  lemma LegacyRaisesShift(flag: bool, events: seq<Event>, k: nat)
    requires k + 1 < |events|
    ensures LegacyRaisesAt(flag, events, k + 1) <==>
              LegacyRaisesAt(flag || events[0].StopScheduled?, events[1..], k)
  {
    PrefixTail(events, k + 1);
    assert events[1..][k] == events[k + 1];
  }

  lemma FirstLegacyRaiseShift(flag: bool, events: seq<Event>, j: nat)
    requires j + 1 < |events|
    ensures FirstLegacyRaise(flag, events, j + 1) <==>
              !LegacyRaisesAt(flag, events, 0) && FirstLegacyRaise(flag || events[0].StopScheduled?, events[1..], j)
  {
    var flag', rest := flag || events[0].StopScheduled?, events[1..];
    forall k | 0 <= k <= j
      ensures LegacyRaisesAt(flag, events, k + 1) <==> LegacyRaisesAt(flag', rest, k)
    {
      LegacyRaisesShift(flag, events, k);
    }
    if !LegacyRaisesAt(flag, events, 0) && FirstLegacyRaise(flag', rest, j) {
      forall k | 0 <= k < j + 1
        ensures !LegacyRaisesAt(flag, events, k)
      {
        if k > 0 {
          assert !LegacyRaisesAt(flag', rest, k - 1);
        }
      }
    }
    if FirstLegacyRaise(flag, events, j + 1) {
      forall k | 0 <= k < j
        ensures !LegacyRaisesAt(flag', rest, k)
      {
        assert !LegacyRaisesAt(flag, events, k + 1);
      }
    }
  }

  /** At the first callback that raises, the earlier transfer stops with the
      stop signal when the flag is up by then, and with ZeroDivisionError
      otherwise, after one report for every callback before it. */
  lemma {:induction false} LegacyDriveFirstRaiseAt(s: LegacyLive, signal: Exc, events: seq<Event>, j: nat)
    requires FirstLegacyRaise(s.shouldStop, events, j)
    decreases j
    ensures var d := LegacyDrive(s, signal, events);
            && d.raised == Some(if s.shouldStop || StopRequested(events[..j]) then signal else ZeroDivisionError)
            && |d.state.reports| == |s.reports| + CountCallbacks(events[..j])
  {
    if j == 0 {
      assert events[..j] == [];
    } else {
      PrefixTail(events, j);
      FirstLegacyRaiseShift(s.shouldStop, events, j - 1);
      var rest := events[1..];
      assert rest[..j - 1] == events[1..j];
      var e := events[0];
      if e.StopScheduled? {
        LegacyDriveFirstRaiseAt(s.(shouldStop := true), signal, rest, j - 1);
        assert LegacyDrive(s, signal, events) == LegacyDrive(s.(shouldStop := true), signal, rest);
      } else {
        var h := LegacyReportHook(s, signal, e.blockCount, e.blockSize, e.totalSize);
        LegacyDriveFirstRaiseAt(h.state, signal, rest, j - 1);
        assert LegacyDrive(s, signal, events) == LegacyDrive(h.state, signal, rest);
      }
    }
  }

  /** The lemma above, for every first raising callback. */
  lemma LegacyDriveFirstRaise(s: LegacyLive, signal: Exc, events: seq<Event>)
    ensures forall j :: FirstLegacyRaise(s.shouldStop, events, j) ==>
              var d := LegacyDrive(s, signal, events);
              && d.raised == Some(if s.shouldStop || StopRequested(events[..j]) then signal else ZeroDivisionError)
              && |d.state.reports| == |s.reports| + CountCallbacks(events[..j])
  {
    forall j | FirstLegacyRaise(s.shouldStop, events, j)
      ensures var d := LegacyDrive(s, signal, events);
              && d.raised == Some(if s.shouldStop || StopRequested(events[..j]) then signal else ZeroDivisionError)
              && |d.state.reports| == |s.reports| + CountCallbacks(events[..j])
    {
      LegacyDriveFirstRaiseAt(s, signal, events, j);
    }
  }

  /** Whenever the earlier transfer raises, some callback is the first to. */
  lemma {:induction false} FirstLegacyRaiseExists(flag: bool, events: seq<Event>)
    requires (flag && HasCallback(events)) || StopObserved(events) || HasZeroSizeCallback(events)
    decreases |events|
    ensures exists j :: FirstLegacyRaise(flag, events, j)
  {
    EventsTail(events);
    ZeroSizeTail(events);
    if LegacyRaisesAt(flag, events, 0) {
      assert FirstLegacyRaise(flag, events, 0);
    } else {
      var flag' := flag || events[0].StopScheduled?;
      FirstLegacyRaiseExists(flag', events[1..]);
      var j :| FirstLegacyRaise(flag', events[1..], j);
      FirstLegacyRaiseShift(flag, events, j);
      assert FirstLegacyRaise(flag, events, j + 1);
    }
  }

  /** The file the earlier thread hashes (the returned name, or its own path
      when that is empty) has a digest equal to the checksum. */
  ghost predicate LegacyChecksumMatches(t: LegacyThread, filename: string, md5Of: DigestOf)
  {
    var file := if |filename| > 0 then filename else t.path;
    md5Of(file).Hexdigest? && t.checksum == PStr(md5Of(file).hex)
  }

  /** `_verify_file_hash` of the earlier thread: always runs; a match sends
      the `verified` report, a mismatch raises ValueError. */
  function LegacyVerify(s: LegacyLive, filename: string, md5Of: DigestOf): (d: StepResult<LegacyLive>)
    ensures d.state.thread == s.thread
    ensures d.raised.None? <==> LegacyChecksumMatches(s.thread, filename, md5Of)
    ensures d.raised.None? ==>
              d.state.reports == s.reports + [map["uid" := s.thread.uid, "progress" := PStr(Verified)]]
    ensures d.raised.Some? ==> d.state.reports == s.reports
    ensures var file := if |filename| > 0 then filename else s.thread.path;
            && (md5Of(file).Hexdigest? ==> (d.raised.None? <==> s.thread.checksum == PStr(md5Of(file).hex)))
            && (md5Of(file).Hexdigest? && d.raised.Some? ==>
                  d.raised.value == ValueError("File checksums do not match"))
            && (md5Of(file).Unreadable? ==> d.raised == Some(IOFailure(md5Of(file).description)))
  {
    var file := if |filename| > 0 then filename else s.thread.path;
    match md5Of(file)
    case Unreadable(why) => StepResult(s, Some(IOFailure(why)))
    case Hexdigest(hex) =>
      if s.thread.checksum == PStr(hex) then StepResult(LegacyEmit(s, PStr(Verified)), None)
      else StepResult(s, Some(ValueError("File checksums do not match")))
  }

  /** What `run` leaves behind: the reports sent and the exception it
      re-raises, if any. */
  datatype LegacyRunResult = LegacyRunResult(reports: seq<Dict>, raised: Option<Exc>)

  /** `_report_failure(e)` followed by `raise e`: the reports sent so far,
      one `failed` report with the exception's repr, and the exception. */
  function LegacyFailedRun(t: LegacyThread, sent: seq<Dict>, e: Exc, reprExc: ExcRepr): (r: LegacyRunResult)
    ensures |r.reports| == |sent| + 1 && r.reports[..|sent|] == sent
    ensures r.reports[|sent|] == map["uid" := t.uid, "progress" := PStr(Failed), "reason" := PStr(reprExc(e))]
    ensures r.raised == Some(e)
  {
    var reports := sent + [map["uid" := t.uid, "progress" := PStr(Failed), "reason" := PStr(reprExc(e))]];
    assert reports[..|sent|] == sent;
    LegacyRunResult(reports, Some(e))
  }

  /** The exception the earlier `run`'s try-block ends with (None: it ended
      normally): the one the first raising callback raises, else the
      transfer's failure, else verification's. */
  function LegacyOutcome(t: LegacyThread, signal: Exc, tr: Transfer, md5Of: DigestOf): (o: Option<Exc>)
    ensures forall j :: FirstLegacyRaise(false, tr.events, j) ==>
              o == Some(if StopRequested(tr.events[..j]) then signal else ZeroDivisionError)
    ensures !StopObserved(tr.events) && !HasZeroSizeCallback(tr.events) && tr.ending.TransferFailed? ==>
              o == Some(IOFailure(tr.ending.description))
    ensures !StopObserved(tr.events) && !HasZeroSizeCallback(tr.events) && tr.ending.Retrieved? ==>
              var file := if |tr.ending.filename| > 0 then tr.ending.filename else t.path;
              match md5Of(file)
              case Unreadable(why) => o == Some(IOFailure(why))
              case Hexdigest(hex) =>
                o == if t.checksum == PStr(hex) then None else Some(ValueError("File checksums do not match"))
    ensures o.None? <==>
              && !StopObserved(tr.events) && !HasZeroSizeCallback(tr.events)
              && tr.ending.Retrieved? && LegacyChecksumMatches(t, tr.ending.filename, md5Of)
  {
    var s0 := LegacyLive(t, false, []);
    var d := LegacyDrive(s0, signal, tr.events);
    LegacyDriveFirstRaise(s0, signal, tr.events);
    if d.raised.Some? then d.raised
    else match tr.ending
      case TransferFailed(why) => Some(IOFailure(why))
      case Retrieved(filename) => LegacyVerify(d.state, filename, md5Of).raised
  }

  /** `_report_success` at the end of a run that raised nothing: the reports
      sent so far and one `verified` report. */
  function LegacyVerifiedRun(t: LegacyThread, sent: seq<Dict>): (r: LegacyRunResult)
    ensures |r.reports| == |sent| + 1 && r.reports[..|sent|] == sent
    ensures r.reports[|sent|] == map["uid" := t.uid, "progress" := PStr(Verified)]
    ensures r.raised == None
  {
    var reports := sent + [map["uid" := t.uid, "progress" := PStr(Verified)]];
    assert reports[..|sent|] == sent;
    LegacyRunResult(reports, None)
  }

  /** `run` of the earlier thread: the transfer's progress reports, then
      `verified` when the try-block ended normally, else one `failed` report
      with the repr of the exception, which is raised again. */
  function LegacyRun(t: LegacyThread, signal: Exc, tr: Transfer, md5Of: DigestOf, reprExc: ExcRepr): (r: LegacyRunResult)
    ensures r.raised == LegacyOutcome(t, signal, tr, md5Of)
    ensures |r.reports| >= 1
    ensures forall i :: 0 <= i < |r.reports| - 1 ==> IsLegacyProgressReport(t, r.reports[i])
    ensures r.raised.Some? ==>
              r.reports[|r.reports| - 1]
              == map["uid" := t.uid, "progress" := PStr(Failed), "reason" := PStr(reprExc(r.raised.value))]
    ensures r.raised.None? ==> r.reports[|r.reports| - 1] == map["uid" := t.uid, "progress" := PStr(Verified)]
    ensures r.raised.None? <==>
              && !StopObserved(tr.events) && !HasZeroSizeCallback(tr.events)
              && tr.ending.Retrieved? && LegacyChecksumMatches(t, tr.ending.filename, md5Of)
    ensures ReportsFollow(r.reports[..|r.reports| - 1], 0, tr.events, LegacyCallbackPercent)
    ensures !StopObserved(tr.events) && !HasZeroSizeCallback(tr.events) ==> |r.reports| == CountCallbacks(tr.events) + 1
    ensures forall j :: FirstLegacyRaise(false, tr.events, j) ==> |r.reports| == CountCallbacks(tr.events[..j]) + 1
  {
    var s0 := LegacyLive(t, false, []);
    var d := LegacyDrive(s0, signal, tr.events);
    LegacyDriveFollowsCallbacks(s0, signal, tr.events);
    LegacyDriveFirstRaise(s0, signal, tr.events);
    match LegacyOutcome(t, signal, tr, md5Of)
    case Some(e) => LegacyFailedRun(t, d.state.reports, e, reprExc)
    case None => LegacyVerifiedRun(t, d.state.reports)
  }

  /** Exactly one report of a run is terminal (`failed` or `verified`): the
      last; and no report of the earlier thread carries a timestamp. */
  lemma LegacyRunOneTerminal(t: LegacyThread, signal: Exc, tr: Transfer, md5Of: DigestOf, reprExc: ExcRepr)
    ensures var r := LegacyRun(t, signal, tr, md5Of, reprExc);
            && r.reports[|r.reports| - 1]["progress"] in {PStr(Failed), PStr(Verified)}
            && (forall i :: 0 <= i < |r.reports| - 1 ==> r.reports[i]["progress"] !in {PStr(Failed), PStr(Verified)})
            && (forall i :: 0 <= i < |r.reports| ==> "uid" in r.reports[i] && "timestamp" !in r.reports[i])
  {
  }

  /** When the file the earlier thread hashes does not match the checksum
      (or cannot be read), the run is never reported as verified. */
  lemma LegacyMismatchFails(t: LegacyThread, signal: Exc, tr: Transfer, md5Of: DigestOf, reprExc: ExcRepr)
    requires tr.ending.Retrieved?
    requires !LegacyChecksumMatches(t, tr.ending.filename, md5Of)
    ensures var r := LegacyRun(t, signal, tr, md5Of, reprExc);
            r.raised.Some? && r.reports[|r.reports| - 1]["progress"] == PStr(Failed)
  {
  }

  /** A transfer with no stop request and no zero size, which returns a file
      whose digest matches the checksum, ends in `verified`, after exactly
      one progress report per callback. */
  lemma LegacyCleanRunVerified(t: LegacyThread, signal: Exc, tr: Transfer, md5Of: DigestOf,
                               reprExc: ExcRepr)
    requires !StopRequested(tr.events) && !HasZeroSizeCallback(tr.events)
    requires tr.ending.Retrieved? && LegacyChecksumMatches(t, tr.ending.filename, md5Of)
    ensures var r := LegacyRun(t, signal, tr, md5Of, reprExc);
            && r.raised.None?
            && |r.reports| == CountCallbacks(tr.events) + 1
            && r.reports[|r.reports| - 1] == map["uid" := t.uid, "progress" := PStr(Verified)]
  {
    var d := LegacyDrive(LegacyLive(t, false, []), signal, tr.events);
    assert d.raised.None?;
  }

  datatype LegacyAction =
    | LegacyScheduleStop(thread: LegacyThread)
    | LegacyStartThread(thread: LegacyThread)
    | LegacyLogInvalidCommand
    | LegacyRaiseKeyError(key: string)

  datatype LegacyExecuteResult = LegacyExecuteResult(registry: Registry<LegacyThread>, action: LegacyAction)

  /** The payload has what the earlier start needs, the checksum included. */
  predicate LegacyCanStart(payload: Dict)
  {
    "url" in payload && "filename" in payload && "checksum" in payload
  }

  /** `DownloadFile.execute` of the earlier command; the download directory
      comes from the settings and is passed in, and a start creates a new
      thread object with identity `serial`. */
  function LegacyExecute(reg: Registry<LegacyThread>, payload: Dict, downloadLocation: string,
                         join: PathJoin, serial: nat): (x: LegacyExecuteResult)
    ensures x.action.LegacyRaiseKeyError? <==> !HasHeader(payload)
    ensures !HasHeader(payload) ==>
              x == LegacyExecuteResult(reg, LegacyRaiseKeyError(if "uid" !in payload then "uid" else "timestamp"))
    ensures x.action.LegacyScheduleStop? <==> StopsRegistered(reg, payload)
    ensures StopsRegistered(reg, payload) ==>
              x == LegacyExecuteResult(reg - {payload["uid"]}, LegacyScheduleStop(reg[payload["uid"]]))
    ensures x.action.LegacyStartThread? <==>
              HasHeader(payload) && !StopsRegistered(reg, payload) && LegacyCanStart(payload)
    ensures x.action.LegacyStartThread? ==>
              && x.action.thread == LegacyThread(serial, payload["uid"], payload["url"],
                                                 join(downloadLocation, payload["filename"]), payload["checksum"])
              && x.registry == reg[payload["uid"] := x.action.thread]
    ensures x.action.LegacyLogInvalidCommand? <==>
              HasHeader(payload) && !StopsRegistered(reg, payload) && !LegacyCanStart(payload)
    ensures x.action.LegacyLogInvalidCommand? ==> x.registry == reg
  {
    if "uid" !in payload then LegacyExecuteResult(reg, LegacyRaiseKeyError("uid"))
    else if "timestamp" !in payload then LegacyExecuteResult(reg, LegacyRaiseKeyError("timestamp"))
    else
      var uid := payload["uid"];
      var popped := if Truthy(Get(payload, "stop")) then PopThread(reg, uid) else PopResult(reg, None);
      if popped.thread.Some? then LegacyExecuteResult(popped.registry, LegacyScheduleStop(popped.thread.value))
      else if !LegacyCanStart(payload) then LegacyExecuteResult(popped.registry, LegacyLogInvalidCommand)
      else
        var t := LegacyThread(serial, uid, payload["url"], join(downloadLocation, payload["filename"]), payload["checksum"]);
        LegacyExecuteResult(SetThread(popped.registry, uid, t), LegacyStartThread(t))
  }

  /** A start without a checksum creates no thread in the earlier command,
      even where the current one would start the download. */
  lemma LegacyRequiresChecksum(reg: Registry<LegacyThread>, payload: Dict, downloadLocation: string,
                               join: PathJoin, serial: nat)
    requires "uid" in payload && "timestamp" in payload && !Truthy(Get(payload, "stop"))
    requires "url" in payload && "filename" in payload && "checksum" !in payload
    ensures LegacyExecute(reg, payload, downloadLocation, join, serial) == LegacyExecuteResult(reg, LegacyLogInvalidCommand)
  {
  }

  /** In the earlier command too, a stop for a uid that is not registered
      does not return early: with url, filename and checksum it starts a
      download. */
  lemma LegacyUnregisteredStopFallsThrough(reg: Registry<LegacyThread>, payload: Dict, downloadLocation: string,
                                           join: PathJoin, serial: nat)
    requires HasHeader(payload) && Truthy(Get(payload, "stop")) && payload["uid"] !in reg
    requires LegacyCanStart(payload)
    ensures var x := LegacyExecute(reg, payload, downloadLocation, join, serial);
            && x.action.LegacyStartThread?
            && x.action.thread.uid == payload["uid"] && x.action.thread.checksum == payload["checksum"]
  {
  }
}
