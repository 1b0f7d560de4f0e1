/** The background download of the current command: a thread with a stop
    flag, a callback the transfer calls after every block, an optional
    checksum check, and one terminal report per run.

    The transfer itself, the thread and the event object are not modelled:
    a transfer is the sequence of callbacks it makes, with the stop
    requests from the command interleaved, followed by how it ended; the
    file's digest is a function of the file name. */
module DownloadThread {
  import opened Values
  import opened Exceptions
  import opened Progress

  /** A thread object: `serial` is its identity, which no other thread
      object shares, and the rest are the attributes it is created with.
      `path` is where the file is written; `md5` is the payload's value
      (None when absent). */
  datatype Thread = Thread(serial: nat, uid: PyValue, timestamp: PyValue, url: PyValue, path: string, md5: PyValue)

  /** A thread while it runs: its stop flag and every report it has handed
      to the report function so far. */
  datatype Live = Live(thread: Thread, shouldStop: bool, reports: seq<Dict>)

  /** A freshly created thread: the flag is clear and nothing is reported. */
  function Fresh(t: Thread): Live
  {
    Live(t, false, [])
  }

  /** `schedule_to_stop`: sets the flag; nothing else changes. */
  function ScheduleToStop(s: Live): (s': Live)
    ensures s'.shouldStop
    ensures s'.thread == s.thread && s'.reports == s.reports
  {
    s.(shouldStop := true)
  }

  /** `_report(data)`: the thread's uid and timestamp, updated with `data`. */
  function ReportData(t: Thread, data: Dict): (r: Dict)
    ensures r.Keys == {"uid", "timestamp"} + data.Keys
    ensures forall k :: k in data ==> r[k] == data[k]
    ensures "uid" !in data ==> r["uid"] == t.uid
    ensures "timestamp" !in data ==> r["timestamp"] == t.timestamp
  {
    map["uid" := t.uid, "timestamp" := t.timestamp] + data
  }

  function Emit(s: Live, data: Dict): Live
  {
    s.(reports := s.reports + [ReportData(s.thread, data)])
  }

  /** The data of `_report_progress`: the percentage and nothing else. */
  function ProgressData(blockCount: nat, blockSize: nat, totalSize: int): (r: Dict)
    ensures r.Keys == {"progress"}
    ensures r["progress"] == PercentDone(blockCount, blockSize, totalSize)
  {
    map["progress" := PercentDone(blockCount, blockSize, totalSize)]
  }

  /** The marker `run` ends with for a given try-block outcome: `success`
      when it ended normally, `stopped` for StopDownload, `error` for any
      other exception. */
  function TerminalMarker(outcome: Option<Exc>): Marker
  {
    match outcome
    case None => Success
    case Some(StopDownload(_)) => Stopped
    case Some(_) => Error
  }

  /** The data of the terminal report `run` sends for the exception its
      try-block ended with (None: it ended normally): the marker, and for
      an error also the exception's repr as the reason. */
  function TerminalData(outcome: Option<Exc>, reprExc: ExcRepr): (r: Dict)
    ensures "progress" in r && r["progress"] == PStr(MarkerValue(TerminalMarker(outcome)))
    ensures MarkerFromValue(r["progress"].s) == Some(TerminalMarker(outcome))
    ensures TerminalMarker(outcome) == Error ==> r.Keys == {"progress", "reason"}
    ensures TerminalMarker(outcome) != Error ==> r.Keys == {"progress"}
    ensures "reason" in r ==> outcome.Some? && r["reason"] == PStr(reprExc(outcome.value))
  {
    match outcome
    case None => map["progress" := PStr(MarkerValue(Success))]
    case Some(StopDownload(_)) => map["progress" := PStr(MarkerValue(Stopped))]
    case Some(e) => map["progress" := PStr(MarkerValue(Error)), "reason" := PStr(reprExc(e))]
  }

  /** A report made by `_report_progress`. */
  ghost predicate IsProgressReport(t: Thread, r: Dict)
  {
    && r.Keys == {"uid", "timestamp", "progress"}
    && r["uid"] == t.uid && r["timestamp"] == t.timestamp
    && (r["progress"] == PNone || (r["progress"].PInt? && 0 <= r["progress"].i <= 100))
  }

  /** A terminal report with the given marker; an error one carries a reason. */
  ghost predicate IsTerminalReport(t: Thread, r: Dict, m: Marker)
  {
    && "uid" in r && "timestamp" in r
    && r["uid"] == t.uid && r["timestamp"] == t.timestamp
    && "progress" in r && r["progress"] == PStr(MarkerValue(m))
    && (m == Error <==> "reason" in r)
    && r.Keys <= {"uid", "timestamp", "progress", "reason"}
  }

  /** What `raise StopDownload` evaluates to when the callback sees the flag.
      As written, the class is raised without its required `uid`, so Python
      fails to construct it and a TypeError is raised in its place; the
      handler `except StopDownload` in `run` shows that a StopDownload for
      the thread's uid was intended. */
  function IntendedStopSignal(t: Thread): (e: Exc)
    ensures e == StopDownload(t.uid)
  {
    NewStopDownload([t.uid])
  }

  function AsWrittenStopSignal(): (e: Exc)
    ensures e == TypeError(2, 1)
  {
    NewStopDownload([])
  }

  /** One call of the transfer's progress callback. */
  datatype HookResult = Continued(state: Live) | Raised(state: Live, error: Exc)

  /** `_reporthook(block_count, block_size, total_size)`: with the flag set
      it raises the stop signal and reports nothing; otherwise it sends
      exactly one progress report. The flag itself is never changed. */
  function ReportHook(s: Live, signal: Exc, blockCount: nat, blockSize: nat, totalSize: int): (h: HookResult)
    ensures h.state.thread == s.thread && h.state.shouldStop == s.shouldStop
    ensures h.Raised? <==> s.shouldStop
    ensures h.Raised? ==> h.error == signal && h.state.reports == s.reports
    ensures h.Continued? ==>
              && |h.state.reports| == |s.reports| + 1
              && h.state.reports[..|s.reports|] == s.reports
              && IsProgressReport(s.thread, h.state.reports[|s.reports|])
              && h.state.reports[|s.reports|]["progress"] == PercentDone(blockCount, blockSize, totalSize)
  {
    if s.shouldStop then Raised(s, signal)
    else
      var s' := Emit(s, ProgressData(blockCount, blockSize, totalSize));
      assert s'.reports[..|s.reports|] == s.reports;
      Continued(s')
  }

  /** What happens while the transfer runs: a callback after a block, or a
      stop request arriving from the command. */
  datatype Event = Callback(blockCount: nat, blockSize: nat, totalSize: int) | StopScheduled

  /** How the transfer ended when no callback raised: it returned the name
      of the written file, or it failed. */
  datatype Ending = Retrieved(filename: string) | TransferFailed(description: string)

  datatype Transfer = Transfer(events: seq<Event>, ending: Ending)

  /** The MD5 hex digest of a file, or the error reading it. */
  datatype Digest = Hexdigest(hex: string) | Unreadable(description: string)

  type DigestOf = string -> Digest

  /** A stop request reaches a later callback. */
  ghost predicate StopObserved(events: seq<Event>)
  {
    exists i, j :: 0 <= i < j < |events| && events[i].StopScheduled? && events[j].Callback?
  }

  ghost predicate StopRequested(events: seq<Event>)
  {
    exists i :: 0 <= i < |events| && events[i].StopScheduled?
  }

  ghost predicate HasCallback(events: seq<Event>)
  {
    exists j :: 0 <= j < |events| && events[j].Callback?
  }

  function CountCallbacks(events: seq<Event>): nat
  {
    if |events| == 0 then 0
    else (if events[0].Callback? then 1 else 0) + CountCallbacks(events[1..])
  }

  /** The transfer's callbacks, in the order it makes them. */
  function Callbacks(events: seq<Event>): (c: seq<Event>)
    ensures |c| == CountCallbacks(events)
    ensures forall i :: 0 <= i < |c| ==> c[i].Callback?
  {
    if |events| == 0 then []
    else (if events[0].Callback? then [events[0]] else []) + Callbacks(events[1..])
  }

  /** The percentage a callback reports. */
  function CallbackPercent(e: Event): PyValue
  {
    if e.Callback? then PercentDone(e.blockCount, e.blockSize, e.totalSize) else PNone
  }

  /** From index `from` on, the reports follow the transfer's callbacks in
      order: there are at most as many as there are callbacks, and the k-th
      reports `value` of the k-th callback. */
  ghost predicate ReportsFollow(reports: seq<Dict>, from: nat, events: seq<Event>, value: Event -> PyValue)
  {
    && from <= |reports|
    && |reports| - from <= |Callbacks(events)|
    && forall j :: from <= j < |reports| ==>
         "progress" in reports[j] && reports[j]["progress"] == value(Callbacks(events)[j - from])
  }

  /** An event that is not a callback sends no report. */
  lemma FollowPastStop(reports: seq<Dict>, from: nat, events: seq<Event>, value: Event -> PyValue)
    requires |events| > 0 && !events[0].Callback?
    requires ReportsFollow(reports, from, events[1..], value)
    ensures ReportsFollow(reports, from, events, value)
  {
    assert Callbacks(events) == Callbacks(events[1..]);
  }

  /** A callback whose report, the last of `sent`, precedes the rest of the
      transfer's. */
  lemma FollowPastReport(reports: seq<Dict>, sent: seq<Dict>, from: nat, events: seq<Event>, value: Event -> PyValue)
    requires |events| > 0 && events[0].Callback?
    requires |sent| == from + 1 && |sent| <= |reports| && reports[..|sent|] == sent
    requires "progress" in sent[from] && sent[from]["progress"] == value(events[0])
    requires ReportsFollow(reports, from + 1, events[1..], value)
    ensures ReportsFollow(reports, from, events, value)
  {
    assert reports[from] == sent[from];
    FollowPastCallback(reports, from, events, value);
  }

  /** A callback that sends its report before the rest of the transfer's. */
  lemma FollowPastCallback(reports: seq<Dict>, from: nat, events: seq<Event>, value: Event -> PyValue)
    requires |events| > 0 && events[0].Callback?
    requires from < |reports| && "progress" in reports[from] && reports[from]["progress"] == value(events[0])
    requires ReportsFollow(reports, from + 1, events[1..], value)
    ensures ReportsFollow(reports, from, events, value)
  {
    var cs := Callbacks(events);
    assert cs == [events[0]] + Callbacks(events[1..]);
    forall j | from < j < |reports|
      ensures "progress" in reports[j] && reports[j]["progress"] == value(cs[j - from])
    {
      assert cs[j - from] == Callbacks(events[1..])[j - (from + 1)];
    }
  }

  /** The state after a step of `run` (the transfer, or verification), and
      the exception the step raised, if any: a raise ends the try-block. */
  datatype StepResult<S> = StepResult(state: S, raised: Option<Exc>)

  /** Runs the transfer's events through the callback and the stop flag.
      The flag only ever goes up, every report sent is a progress report,
      and a callback raises exactly when a stop was requested before it. */
  function Drive(s: Live, signal: Exc, events: seq<Event>): (d: StepResult<Live>)
    decreases |events|
    ensures d.state.thread == s.thread
    ensures s.shouldStop ==> d.state.shouldStop
    ensures d.raised.Some? ==> d.state.shouldStop
    ensures d.raised.None? ==> (d.state.shouldStop <==> s.shouldStop || StopRequested(events))
    ensures |s.reports| <= |d.state.reports| && d.state.reports[..|s.reports|] == s.reports
    ensures forall i :: |s.reports| <= i < |d.state.reports| ==> IsProgressReport(s.thread, d.state.reports[i])
    ensures d.raised.Some? ==> d.raised.value == signal
    ensures d.raised.Some? <==> (s.shouldStop && HasCallback(events)) || StopObserved(events)
    ensures d.raised.None? ==> |d.state.reports| == |s.reports| + CountCallbacks(events)
    ensures s.shouldStop ==> d.state.reports == s.reports
  {
    if |events| == 0 then StepResult(s, None)
    else
      EventsTail(events);
      match events[0]
      case StopScheduled => Drive(ScheduleToStop(s), signal, events[1..])
      case Callback(bc, bs, ts) =>
        var h := ReportHook(s, signal, bc, bs, ts);
        if h.Raised? then StepResult(h.state, Some(h.error))
        else
          var d := Drive(h.state, signal, events[1..]);
          assert d.state.reports[..|s.reports|] == d.state.reports[..|h.state.reports|][..|s.reports|];
          d
  }

  /** How the two event predicates unfold over the first event. */
  lemma EventsTail(events: seq<Event>)
    requires |events| > 0
    ensures HasCallback(events) <==> events[0].Callback? || HasCallback(events[1..])
    ensures StopRequested(events) <==> events[0].StopScheduled? || StopRequested(events[1..])
    ensures StopObserved(events) <==>
              (events[0].StopScheduled? && HasCallback(events[1..])) || StopObserved(events[1..])
  {
    var rest := events[1..];
    if HasCallback(events) && !events[0].Callback? {
      var j :| 0 <= j < |events| && events[j].Callback?;
      assert rest[j - 1].Callback?;
    }
    if HasCallback(rest) {
      var j :| 0 <= j < |rest| && rest[j].Callback?;
      assert events[j + 1].Callback?;
    }
    if StopRequested(events) && !events[0].StopScheduled? {
      var i :| 0 <= i < |events| && events[i].StopScheduled?;
      assert rest[i - 1].StopScheduled?;
    }
    if StopRequested(rest) {
      var i :| 0 <= i < |rest| && rest[i].StopScheduled?;
      assert events[i + 1].StopScheduled?;
    }
    if StopObserved(events) {
      var i, j :| 0 <= i < j < |events| && events[i].StopScheduled? && events[j].Callback?;
      if i == 0 {
        assert rest[j - 1].Callback?;
      } else {
        assert rest[i - 1].StopScheduled? && rest[j - 1].Callback?;
      }
    }
    if StopObserved(rest) {
      var i, j :| 0 <= i < j < |rest| && rest[i].StopScheduled? && rest[j].Callback?;
      assert events[i + 1].StopScheduled? && events[j + 1].Callback?;
    }
    if events[0].StopScheduled? && HasCallback(rest) {
      var j :| 0 <= j < |rest| && rest[j].Callback?;
      assert events[j + 1].Callback?;
    }
  }

  /** How a prefix of the events unfolds over the first event. */
  lemma PrefixTail(events: seq<Event>, n: nat)
    requires 0 < n <= |events|
    ensures events[..n][1..] == events[1..][..n - 1]
    ensures StopRequested(events[..n]) <==> events[0].StopScheduled? || StopRequested(events[1..][..n - 1])
    ensures CountCallbacks(events[..n]) == (if events[0].Callback? then 1 else 0) + CountCallbacks(events[1..][..n - 1])
  {
    assert events[..n][1..] == events[1..][..n - 1];
    EventsTail(events[..n]);
  }

  /** Index `i` holds the first stop request, and a callback comes after it. */
  ghost predicate FirstStopObserved(events: seq<Event>, i: int)
  {
    && 0 <= i < |events| && events[i].StopScheduled?
    && !StopRequested(events[..i]) && HasCallback(events[i + 1..])
  }

  /** When the first stop request, at `i`, reaches a later callback, the
      transfer raises the signal after one report for every callback
      before `i`. */
  lemma {:induction false} DriveReportsBeforeStopAt(s: Live, signal: Exc, events: seq<Event>, i: nat)
    requires !s.shouldStop && FirstStopObserved(events, i)
    decreases i
    ensures var d := Drive(s, signal, events);
            d.raised == Some(signal) && |d.state.reports| == |s.reports| + CountCallbacks(events[..i])
  {
    EventsTail(events);
    if i == 0 {
      assert events[..i] == [];
    } else {
      PrefixTail(events, i);
      var rest := events[1..];
      assert rest[i - 1..] == events[i..];
      var h := ReportHook(s, signal, events[0].blockCount, events[0].blockSize, events[0].totalSize);
      DriveReportsBeforeStopAt(h.state, signal, rest, i - 1);
      assert Drive(s, signal, events) == Drive(h.state, signal, rest);
    }
  }

  /** The count above, for every first stop request that reaches a callback. */
  lemma DriveReportsBeforeStop(s: Live, signal: Exc, events: seq<Event>)
    requires !s.shouldStop
    ensures forall i :: FirstStopObserved(events, i) ==>
              var d := Drive(s, signal, events);
              d.raised == Some(signal) && |d.state.reports| == |s.reports| + CountCallbacks(events[..i])
  {
    forall i | FirstStopObserved(events, i)
      ensures var d := Drive(s, signal, events);
              d.raised == Some(signal) && |d.state.reports| == |s.reports| + CountCallbacks(events[..i])
    {
      DriveReportsBeforeStopAt(s, signal, events, i);
    }
  }

  /** A stop that reaches a callback has a first stop request, and that one
      reaches a callback too. */
  lemma FirstStopExists(events: seq<Event>)
    requires StopObserved(events)
    ensures exists i :: FirstStopObserved(events, i)
  {
    var i, j :| 0 <= i < j < |events| && events[i].StopScheduled? && events[j].Callback?;
    while StopRequested(events[..i])
      invariant 0 <= i < j && events[i].StopScheduled?
      decreases i
    {
      var k :| 0 <= k < |events[..i]| && events[..i][k].StopScheduled?;
      i := k;
    }
    assert events[i + 1..][j - i - 1].Callback?;
    assert FirstStopObserved(events, i);
  }

  /** The reports a transfer sends follow its callbacks: the k-th new
      report carries the percentage of the k-th callback. */
  lemma {:induction false} DriveFollowsCallbacks(s: Live, signal: Exc, events: seq<Event>)
    decreases |events|
    ensures ReportsFollow(Drive(s, signal, events).state.reports, |s.reports|, events, CallbackPercent)
  {
    if |events| > 0 {
      var e := events[0];
      if e.StopScheduled? {
        var d := Drive(ScheduleToStop(s), signal, events[1..]);
        DriveFollowsCallbacks(ScheduleToStop(s), signal, events[1..]);
        assert Drive(s, signal, events) == d;
        FollowPastStop(d.state.reports, |s.reports|, events, CallbackPercent);
      } else {
        var h := ReportHook(s, signal, e.blockCount, e.blockSize, e.totalSize);
        if h.Continued? {
          var d := Drive(h.state, signal, events[1..]);
          DriveFollowsCallbacks(h.state, signal, events[1..]);
          assert Drive(s, signal, events) == d;
          FollowPastReport(d.state.reports, h.state.reports, |s.reports|, events, CallbackPercent);
        }
      }
    }
  }

  /** `_verify_file_hash(filename)`: None when it returns normally, else the
      exception it raises. Without a truthy `md5` it returns at once; the
      file hashed is the one the transfer returned, or the thread's own path
      when that name is empty. */
  function VerifyFileHash(t: Thread, filename: string, md5Of: DigestOf): (e: Option<Exc>)
    ensures !Truthy(t.md5) ==> e == None
    ensures e.Some? && e.value.ChecksumVerificationError? ==>
              && e.value.expected == t.md5
              && e.value.calculated.PStr?
              && e.value.expected != e.value.calculated
    ensures Truthy(t.md5) ==>
              var file := if |filename| > 0 then filename else t.path;
              match md5Of(file)
              case Unreadable(why) => e == Some(IOFailure(why))
              case Hexdigest(hex) =>
                (e == None <==> t.md5 == PStr(hex))
                && (e != None ==> e.value == ChecksumVerificationError(t.md5, PStr(hex)))
  {
    if !Truthy(t.md5) then None
    else
      var file := if |filename| > 0 then filename else t.path;
      match md5Of(file)
      case Unreadable(why) => Some(IOFailure(why))
      case Hexdigest(hex) =>
        if t.md5 == PStr(hex) then None
        else Some(NewChecksumVerificationError(Some(t.md5), Some(PStr(hex))))
  }

  /** Without an md5 the digest is never consulted: any digest function
      gives the same answer. */
  lemma VerificationSkippedWithoutMd5(t: Thread, filename: string, f: DigestOf, g: DigestOf)
    requires !Truthy(t.md5)
    ensures VerifyFileHash(t, filename, f) == VerifyFileHash(t, filename, g) == None
  {
  }

  /** The exception `run`'s try-block ends with: one raised by a callback,
      else the transfer's failure, else the outcome of verification. */
  function Outcome(t: Thread, signal: Exc, tr: Transfer, md5Of: DigestOf): (o: Option<Exc>)
    ensures StopObserved(tr.events) ==> o == Some(signal)
    ensures !StopObserved(tr.events) && tr.ending.TransferFailed? ==> o == Some(IOFailure(tr.ending.description))
    ensures !StopObserved(tr.events) && tr.ending.Retrieved? ==> o == VerifyFileHash(t, tr.ending.filename, md5Of)
  {
    var d := Drive(Fresh(t), signal, tr.events);
    if d.raised.Some? then d.raised
    else match tr.ending
      case TransferFailed(why) => Some(IOFailure(why))
      case Retrieved(filename) => VerifyFileHash(t, filename, md5Of)
  }

  /** `run`: the transfer's progress reports followed by exactly one terminal
      report chosen by how the try-block ended. */
  function Run(t: Thread, signal: Exc, tr: Transfer, md5Of: DigestOf, reprExc: ExcRepr): (reports: seq<Dict>)
    ensures |reports| >= 1
    ensures forall i :: 0 <= i < |reports| - 1 ==> IsProgressReport(t, reports[i])
    ensures ReportsFollow(reports[..|reports| - 1], 0, tr.events, CallbackPercent)
    ensures !StopObserved(tr.events) ==> |reports| == CountCallbacks(tr.events) + 1
    ensures forall i :: FirstStopObserved(tr.events, i) ==> |reports| == CountCallbacks(tr.events[..i]) + 1
    ensures reports[|reports| - 1] == ReportData(t, TerminalData(Outcome(t, signal, tr, md5Of), reprExc))
  {
    var d := Drive(Fresh(t), signal, tr.events);
    DriveFollowsCallbacks(Fresh(t), signal, tr.events);
    DriveReportsBeforeStop(Fresh(t), signal, tr.events);
    var reports := d.state.reports + [ReportData(t, TerminalData(Outcome(t, signal, tr, md5Of), reprExc))];
    assert reports[..|reports| - 1] == d.state.reports;
    reports
  }

  /** The terminal report for an outcome names the thread and carries that
      outcome's marker, with a reason exactly for `error`. */
  lemma TerminalReportShape(t: Thread, outcome: Option<Exc>, reprExc: ExcRepr)
    ensures IsTerminalReport(t, ReportData(t, TerminalData(outcome, reprExc)), TerminalMarker(outcome))
  {
    match outcome
    case None =>
    case Some(e) =>
      if !e.StopDownload? {
        assert TerminalData(outcome, reprExc).Keys == {"progress", "reason"};
      }
  }

  /** Every run ends in exactly one terminal report, the last one, and every
      report names the thread's uid and timestamp. */
  lemma RunReportsOneTerminal(t: Thread, signal: Exc, tr: Transfer, md5Of: DigestOf, reprExc: ExcRepr)
    ensures var reports := Run(t, signal, tr, md5Of, reprExc);
            && IsTerminalReport(t, reports[|reports| - 1], TerminalMarker(Outcome(t, signal, tr, md5Of)))
            && (forall i :: 0 <= i < |reports| - 1 ==> !IsMarkerValue(reports[i]["progress"]))
            && (forall i :: 0 <= i < |reports| ==>
                  "uid" in reports[i] && "timestamp" in reports[i] &&
                  reports[i]["uid"] == t.uid && reports[i]["timestamp"] == t.timestamp)
  {
    var reports := Run(t, signal, tr, md5Of, reprExc);
    TerminalReportShape(t, Outcome(t, signal, tr, md5Of), reprExc);
    forall i | 0 <= i < |reports| - 1
      ensures !IsMarkerValue(reports[i]["progress"])
      ensures "uid" in reports[i] && "timestamp" in reports[i]
      ensures reports[i]["uid"] == t.uid && reports[i]["timestamp"] == t.timestamp
    {
      assert IsProgressReport(t, reports[i]);
    }
  }

  /** With the intended stop signal, `run` ends in `stopped` exactly when a
      stop request reached a callback. */
  lemma StoppedIffStopObserved(t: Thread, tr: Transfer, md5Of: DigestOf, reprExc: ExcRepr)
    ensures var reports := Run(t, IntendedStopSignal(t), tr, md5Of, reprExc);
            reports[|reports| - 1]["progress"] == PStr(MarkerValue(Stopped)) <==> StopObserved(tr.events)
  {
    var signal := IntendedStopSignal(t);
    var outcome := Outcome(t, signal, tr, md5Of);
    RunReportsOneTerminal(t, signal, tr, md5Of, reprExc);
    MarkerValuesDistinct(Stopped, TerminalMarker(outcome));
    var d := Drive(Fresh(t), signal, tr.events);
    if d.raised.None? {
      assert outcome.Some? ==> !outcome.value.StopDownload?;
    }
  }

  /** `run` ends in `success` exactly when no stop reached a callback, the
      transfer returned a file, and verification passed. */
  lemma SuccessIffCompleted(t: Thread, signal: Exc, tr: Transfer, md5Of: DigestOf, reprExc: ExcRepr)
    ensures var reports := Run(t, signal, tr, md5Of, reprExc);
            reports[|reports| - 1]["progress"] == PStr(MarkerValue(Success)) <==>
              && !StopObserved(tr.events)
              && tr.ending.Retrieved?
              && VerifyFileHash(t, tr.ending.filename, md5Of) == None
  {
    var outcome := Outcome(t, signal, tr, md5Of);
    RunReportsOneTerminal(t, signal, tr, md5Of, reprExc);
    MarkerValuesDistinct(Success, TerminalMarker(outcome));
  }

  /** A checksum mismatch after a full transfer ends the run in `error`,
      with the repr of the error naming both digests as the reason. */
  lemma ChecksumMismatchReportsError(t: Thread, tr: Transfer, md5Of: DigestOf, reprExc: ExcRepr, hex: string)
    requires !StopObserved(tr.events) && tr.ending.Retrieved?
    requires Truthy(t.md5)
    requires md5Of(if |tr.ending.filename| > 0 then tr.ending.filename else t.path) == Hexdigest(hex)
    requires t.md5 != PStr(hex)
    ensures var reports := Run(t, IntendedStopSignal(t), tr, md5Of, reprExc);
            && reports[|reports| - 1]["progress"] == PStr(MarkerValue(Error))
            && reports[|reports| - 1]["reason"] == PStr(reprExc(ChecksumVerificationError(t.md5, PStr(hex))))
  {
  }

  /** When nothing stops it and no md5 was given, a completed transfer
      always ends in `success`, whatever the file's digest. */
  lemma NoMd5CompletedIsSuccess(t: Thread, tr: Transfer, md5Of: DigestOf, reprExc: ExcRepr)
    requires !StopObserved(tr.events) && tr.ending.Retrieved?
    requires !Truthy(t.md5)
    ensures var reports := Run(t, IntendedStopSignal(t), tr, md5Of, reprExc);
            reports[|reports| - 1]["progress"] == PStr(MarkerValue(Success))
  {
  }

  /** As written, a run never ends in `stopped`: the callback's failed
      construction of StopDownload raises a TypeError, which the generic
      handler reports as `error`. */
  lemma AsWrittenNeverStopped(t: Thread, tr: Transfer, md5Of: DigestOf, reprExc: ExcRepr)
    ensures var reports := Run(t, AsWrittenStopSignal(), tr, md5Of, reprExc);
            reports[|reports| - 1]["progress"] != PStr(MarkerValue(Stopped))
  {
    var signal := AsWrittenStopSignal();
    var outcome := Outcome(t, signal, tr, md5Of);
    RunReportsOneTerminal(t, signal, tr, md5Of, reprExc);
    MarkerValuesDistinct(Stopped, TerminalMarker(outcome));
    var d := Drive(Fresh(t), signal, tr.events);
    assert outcome.Some? ==> !outcome.value.StopDownload?;
  }

  /** A stop requested before the first callback: the intended code reports
      `stopped`, the code as written reports `error` with the TypeError. */
  lemma StopBeforeFirstCallback(t: Thread, md5Of: DigestOf, reprExc: ExcRepr)
    ensures var tr := Transfer([StopScheduled, Callback(0, 8192, 1000)], Retrieved("f"));
            && Run(t, IntendedStopSignal(t), tr, md5Of, reprExc)
               == [ReportData(t, map["progress" := PStr("stopped")])]
            && Run(t, AsWrittenStopSignal(), tr, md5Of, reprExc)
               == [ReportData(t, map["progress" := PStr("error"), "reason" := PStr(reprExc(TypeError(2, 1)))])]
  {
  }
}
