/** The module-level table of running downloads, keyed by the caller's uid.
    Both versions of the command keep the same table with the same two
    operations; the lock around each only makes it atomic, so the table is
    a plain map updated one operation at a time. */
module Registry {
  import opened Values

  type Registry<T> = map<PyValue, T>

  /** The table after a pop, and what the pop returned. */
  datatype PopResult<T> = PopResult(registry: Registry<T>, thread: Option<T>)

  /** `_set_download_thread`: the uid now maps to the thread, replacing any
      earlier entry; every other uid keeps its entry. */
  function SetThread<T>(reg: Registry<T>, uid: PyValue, t: T): (r: Registry<T>)
    ensures uid in r && r[uid] == t
    ensures r.Keys == reg.Keys + {uid}
    ensures forall k :: k in reg && k != uid ==> r[k] == reg[k]
  {
    reg[uid := t]
  }

  /** `_pop_download_thread`: removes the uid's entry and returns it, or
      returns None and leaves the table alone when there is none. */
  function PopThread<T>(reg: Registry<T>, uid: PyValue): (p: PopResult<T>)
    ensures uid in reg ==> p.thread == Some(reg[uid])
    ensures uid !in reg ==> p.thread == None && p.registry == reg
    ensures p.registry.Keys == reg.Keys - {uid}
    ensures forall k :: k in p.registry ==> p.registry[k] == reg[k]
  {
    if uid in reg then PopResult(reg - {uid}, Some(reg[uid])) else PopResult(reg, None)
  }

  /** A second pop of the same uid finds nothing and changes nothing. */
  lemma PopTwice<T>(reg: Registry<T>, uid: PyValue)
    ensures var first := PopThread(reg, uid);
            PopThread(first.registry, uid) == PopResult(first.registry, None)
  {
  }

  /** Set then pop hands back exactly the thread that was set, and the table
      ends as it was minus that uid. */
  lemma SetThenPop<T>(reg: Registry<T>, uid: PyValue, t: T)
    ensures PopThread(SetThread(reg, uid, t), uid) == PopResult(reg - {uid}, Some(t))
  {
  }

  /** Pop then set the popped thread back restores the table. */
  lemma PopThenSetRestores<T>(reg: Registry<T>, uid: PyValue)
    requires uid in reg
    ensures var p := PopThread(reg, uid);
            p.thread.Some? && SetThread(p.registry, uid, p.thread.value) == reg
  {
  }
}
