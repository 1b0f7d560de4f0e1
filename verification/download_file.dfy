/** The `download-file/command` handler: one parsed payload either stops a
    registered download, starts a new one, or is logged as invalid.

    `execute` is a pure function here: it returns the new table and the one
    action the handler takes. Starting the thread, scheduling its stop and
    logging are left to the caller; what the thread then does is in
    DownloadThread. */
module DownloadFile {
  import opened Values
  import opened Registry
  import opened DownloadThread

  datatype Action =
    | ScheduleStop(thread: Thread)
    | StartThread(thread: Thread)
    | LogInvalidCommand
      /** `execute` itself raises KeyError for the missing key. */
    | RaiseKeyError(key: string)

  datatype ExecuteResult = ExecuteResult(registry: Registry<Thread>, action: Action)

  /** `os.path.join(uploads_location, filename)`, left abstract. */
  type PathJoin = (string, PyValue) -> string

  /** The payload names a download: it has both `uid` and `timestamp`. */
  predicate HasHeader(payload: Dict)
  {
    "uid" in payload && "timestamp" in payload
  }

  /** The payload asks to stop a download that is registered. */
  predicate StopsRegistered<T>(reg: Registry<T>, payload: Dict)
  {
    HasHeader(payload) && Truthy(Get(payload, "stop")) && payload["uid"] in reg
  }

  /** The payload has what a start needs. */
  predicate CanStart(payload: Dict)
  {
    "url" in payload && "filename" in payload
  }

  /** The thread object a start payload creates, with identity `serial`:
      the payload's uid, timestamp and url, the file name joined to the
      uploads directory, and the md5 when there is one. */
  function NewThread(payload: Dict, uploads: string, join: PathJoin, serial: nat): (t: Thread)
    requires HasHeader(payload) && CanStart(payload)
    ensures t.serial == serial
    ensures t.uid == payload["uid"] && t.timestamp == payload["timestamp"] && t.url == payload["url"]
    ensures t.path == join(uploads, payload["filename"])
    ensures "md5" in payload ==> t.md5 == payload["md5"]
    ensures "md5" !in payload ==> t.md5 == PNone
  {
    Thread(serial, payload["uid"], payload["timestamp"], payload["url"],
           join(uploads, payload["filename"]), Get(payload, "md5"))
  }

  /** `DownloadFile.execute(topic, payload)`. A start creates a new thread
      object; `serial` is the identity it gets. */
  function Execute(reg: Registry<Thread>, payload: Dict, uploads: string, join: PathJoin, serial: nat): (x: ExecuteResult)
    ensures !HasHeader(payload) ==>
              x == ExecuteResult(reg, RaiseKeyError(if "uid" !in payload then "uid" else "timestamp"))
    ensures StopsRegistered(reg, payload) ==>
              x == ExecuteResult(reg - {payload["uid"]}, ScheduleStop(reg[payload["uid"]]))
    ensures x.action.LogInvalidCommand? <==>
              HasHeader(payload) && !StopsRegistered(reg, payload) && !CanStart(payload)
    ensures x.action.LogInvalidCommand? ==> x.registry == reg
    ensures x.action.StartThread? <==>
              HasHeader(payload) && !StopsRegistered(reg, payload) && CanStart(payload)
    ensures x.action.StartThread? ==>
              && x.action.thread.serial == serial
              && x.action.thread.uid == payload["uid"]
              && x.action.thread.timestamp == payload["timestamp"]
              && x.action.thread.url == payload["url"]
              && x.action.thread.path == join(uploads, payload["filename"])
              && x.action.thread.md5 == (if "md5" in payload then payload["md5"] else PNone)
              && x.registry == reg[payload["uid"] := x.action.thread]
  {
    if "uid" !in payload then ExecuteResult(reg, RaiseKeyError("uid"))
    else if "timestamp" !in payload then ExecuteResult(reg, RaiseKeyError("timestamp"))
    else
      var uid := payload["uid"];
      var popped := if Truthy(Get(payload, "stop")) then PopThread(reg, uid) else PopResult(reg, None);
      if popped.thread.Some? then ExecuteResult(popped.registry, ScheduleStop(popped.thread.value))
      else if !CanStart(payload) then ExecuteResult(popped.registry, LogInvalidCommand)
      else
        var t := NewThread(payload, uploads, join, serial);
        ExecuteResult(SetThread(popped.registry, uid, t), StartThread(t))
  }

  /** A stop payload: uid, timestamp and a truthy `stop`, nothing to start. */
  predicate IsStopPayload(payload: Dict)
  {
    HasHeader(payload) && Truthy(Get(payload, "stop")) && !CanStart(payload)
  }

  /** Starting a download under a free uid and then stopping it hands the
      stop to exactly that thread and restores the table. */
  lemma StartThenStopRestores(reg: Registry<Thread>, start: Dict, stop: Dict, uploads: string, join: PathJoin,
                              serial: nat, serial': nat)
    requires HasHeader(start) && CanStart(start) && !Truthy(Get(start, "stop"))
    requires start["uid"] !in reg
    requires IsStopPayload(stop) && stop["uid"] == start["uid"]
    ensures var started := Execute(reg, start, uploads, join, serial);
            && started.action.StartThread?
            && Execute(started.registry, stop, uploads, join, serial')
               == ExecuteResult(reg, ScheduleStop(started.action.thread))
  {
    var started := Execute(reg, start, uploads, join, serial);
    assert started.registry - {start["uid"]} == reg;
  }

  /** Stopping twice: the second stop finds nothing to stop, and as it has
      nothing to start either it is only logged. */
  lemma SecondStopIsLogged(reg: Registry<Thread>, stop: Dict, uploads: string, join: PathJoin, serial: nat, serial': nat)
    requires IsStopPayload(stop)
    ensures var first := Execute(reg, stop, uploads, join, serial);
            Execute(first.registry, stop, uploads, join, serial') == ExecuteResult(first.registry, LogInvalidCommand)
  {
  }

  /** A stop for a uid that is not registered does not return early: when
      the payload also carries a url and a file name, it starts a download. */
  lemma UnregisteredStopFallsThrough(reg: Registry<Thread>, payload: Dict, uploads: string, join: PathJoin, serial: nat)
    requires HasHeader(payload) && Truthy(Get(payload, "stop")) && payload["uid"] !in reg
    requires CanStart(payload)
    ensures Execute(reg, payload, uploads, join, serial).action == StartThread(NewThread(payload, uploads, join, serial))
  {
  }

  /** A second start under a uid still registered replaces the first thread
      object: a later stop reaches the second one, which is a different
      object from the first even when the two payloads are equal, and,
      the first being a new object, afterwards no entry of the table holds
      it. */
  lemma RestartOrphansEarlierThread(reg: Registry<Thread>, first: Dict, second: Dict, stop: Dict,
                                    uploads: string, join: PathJoin, serial1: nat, serial2: nat, serial3: nat)
    requires HasHeader(first) && CanStart(first) && !Truthy(Get(first, "stop"))
    requires HasHeader(second) && CanStart(second) && !Truthy(Get(second, "stop"))
    requires IsStopPayload(stop)
    requires first["uid"] == second["uid"] == stop["uid"]
    requires serial1 != serial2
    requires forall k :: k in reg ==> reg[k].serial != serial1
    ensures var x1 := Execute(reg, first, uploads, join, serial1);
            var x2 := Execute(x1.registry, second, uploads, join, serial2);
            var x := Execute(x2.registry, stop, uploads, join, serial3);
            && x1.action.StartThread? && x2.action.StartThread?
            && x.action == ScheduleStop(x2.action.thread)
            && x.action.thread != x1.action.thread
            && first["uid"] !in x.registry
            && (forall k :: k in x.registry ==> x.registry[k] != x1.action.thread)
  {
    var x1 := Execute(reg, first, uploads, join, serial1);
    var x2 := Execute(x1.registry, second, uploads, join, serial2);
    var x := Execute(x2.registry, stop, uploads, join, serial3);
    forall k | k in x.registry
      ensures x.registry[k] != x1.action.thread
    {
      assert k in reg && x.registry[k] == reg[k] && reg[k].serial != serial1;
    }
  }

  /** Whatever the payload, only its uid's entry can change. */
  lemma OtherEntriesUntouched(reg: Registry<Thread>, payload: Dict, uploads: string, join: PathJoin, serial: nat, k: PyValue)
    requires k in reg
    requires !HasHeader(payload) || k != payload["uid"]
    ensures var x := Execute(reg, payload, uploads, join, serial);
            k in x.registry && x.registry[k] == reg[k]
  {
  }
}
