/** The two memoisation helpers: `cached_call`, which keeps the first truthy
    result of a function of no arguments, and `cached_property`, a
    descriptor that stores its value in the instance's `__dict__` (the
    same descriptor exists in `util.py` and in `util/cache.py`).

    A wrapped function may answer differently from call to call, so it is
    modelled by the answer it gives on each call, counted from zero; an
    answer is a returned value or a raised exception. */
module Cache {
  import opened Values

  /** What one call of a wrapped function does: it returns a value, or it
      raises an exception, known here only by its description. */
  datatype Answer = Returned(value: PyValue) | Raises(description: string)

  /** The call returned a truthy value: the only answer `cached_call` keeps. */
  predicate ReturnsTruthy(a: Answer)
  {
    a.Returned? && Truthy(a.value)
  }

  /** The closure state of a `cached_call` wrapper: its `result` dict, empty
      or holding `res`, and how often the wrapped function has run. */
  datatype CallCache = CallCache(res: Option<PyValue>, invocations: nat)

  const EmptyCallCache := CallCache(None, 0)

  /** The wrapper's state after a call, and what the call did. */
  datatype CallResult = CallResult(cache: CallCache, answer: Answer)

  /** The stored result counts only when it is truthy. */
  predicate HoldsTruthy(c: CallCache)
  {
    c.res.Some? && Truthy(c.res.value)
  }

  /** One call of the wrapper: a truthy stored result is returned without
      running the function; otherwise the function runs once more. A value
      it returns, truthy or not, is stored and returned; an exception it
      raises propagates and leaves the stored result as it was. */
  function CallWrapper(c: CallCache, func: nat -> Answer): (r: CallResult)
    ensures HoldsTruthy(c) ==> r == CallResult(c, Returned(c.res.value))
    ensures !HoldsTruthy(c) ==> r.cache.invocations == c.invocations + 1 && r.answer == func(c.invocations)
    ensures r.answer.Returned? ==> r.cache.res == Some(r.answer.value)
    ensures r.answer.Raises? ==> r.cache.res == c.res
  {
    if HoldsTruthy(c) then CallResult(c, Returned(c.res.value))
    else match func(c.invocations)
      case Returned(v) => CallResult(CallCache(Some(v), c.invocations + 1), Returned(v))
      case Raises(why) => CallResult(c.(invocations := c.invocations + 1), Raises(why))
  }

  /** Calls a fresh wrapper `n` times, for a function none of whose first
      `k` calls returns a truthy value and whose `k`-th does, when the
      wrapper gets that far (`k >= n` covers a function that never returns
      a truthy value within the `n` calls): it runs `min(n, k + 1)` times,
      each of the first `k` calls gives the function's own answer, and from
      the `k`-th call on every call returns that truthy value. */
  method CallRepeatedly(func: nat -> Answer, n: nat, k: nat) returns (answers: seq<Answer>, invocations: nat)
    requires forall i :: 0 <= i < k ==> !ReturnsTruthy(func(i))
    requires k < n ==> ReturnsTruthy(func(k))
    ensures |answers| == n
    ensures invocations == if n <= k then n else k + 1
    ensures forall j :: 0 <= j < n ==> answers[j] == func(if j < k then j else k)
  {
    var c := EmptyCallCache;
    answers := [];
    var j := 0;
    while j < n
      invariant 0 <= j <= n
      invariant |answers| == j
      invariant c.invocations == if j <= k then j else k + 1
      invariant j <= k ==> !HoldsTruthy(c)
      invariant j > k ==> c.res == Some(func(k).value)
      invariant forall i :: 0 <= i < j ==> answers[i] == func(if i < k then i else k)
    {
      var r := CallWrapper(c, func);
      c := r.cache;
      answers := answers + [r.answer];
      j := j + 1;
    }
    invocations := c.invocations;
  }

  /** An answer that is not a truthy value, a falsy one or an exception, is
      not kept: the next call runs the function again. */
  lemma UnkeptAnswerIsRetried(c: CallCache, func: nat -> Answer)
    requires !HoldsTruthy(c)
    requires !ReturnsTruthy(func(c.invocations))
    ensures var first := CallWrapper(c, func);
            var second := CallWrapper(first.cache, func);
            && (first.answer.Raises? ==> first.cache.res == c.res)
            && second.cache.invocations == c.invocations + 2 && second.answer == func(c.invocations + 1)
  {
  }

  /** Instances are named by their identity; `Heap` maps each to its
      `__dict__`. */
  type ObjId = nat
  type Heap = map<ObjId, Dict>

  /** A `cached_property` wrapping a function whose `__name__` is `name`. */
  datatype CachedProperty = CachedProperty(name: string)

  /** What an access yields: the descriptor itself, or the answer of the
      wrapped function (a value, or the exception that propagates). */
  datatype AccessOutcome = DescriptorItself(property: CachedProperty) | Answered(answer: Answer)

  /** The instance dicts after an access, every call of the wrapped function
      so far (the instance it was called with), and what the access yielded. */
  datatype AccessResult = AccessResult(heap: Heap, calls: seq<ObjId>, outcome: AccessOutcome)

  /** The wrapped function: its answer for an instance on the call with the
      given number of earlier calls. */
  type PropertyFunc = (ObjId, nat) -> Answer

  /** `cached_property.__get__(obj)`: on the class (obj None) the descriptor
      itself; on an instance, one call of the function with that instance.
      A returned value is stored in that instance's dict under the
      function's name and returned; a raised exception propagates and
      stores nothing. No other instance's dict changes. */
  function DescriptorGet(p: CachedProperty, obj: Option<ObjId>, heap: Heap, calls: seq<ObjId>,
                         func: PropertyFunc): (a: AccessResult)
    requires obj.Some? ==> obj.value in heap
    ensures obj.None? ==> a == AccessResult(heap, calls, DescriptorItself(p))
    ensures obj.Some? ==>
              && a.calls == calls + [obj.value]
              && a.outcome == Answered(func(obj.value, |calls|))
              && a.heap.Keys == heap.Keys
              && (forall o :: o in heap && o != obj.value ==> a.heap[o] == heap[o])
    ensures obj.Some? && func(obj.value, |calls|).Returned? ==>
              && a.heap[obj.value].Keys == heap[obj.value].Keys + {p.name}
              && a.heap[obj.value][p.name] == func(obj.value, |calls|).value
              && (forall k :: k in heap[obj.value] && k != p.name ==> a.heap[obj.value][k] == heap[obj.value][k])
    ensures obj.Some? && func(obj.value, |calls|).Raises? ==> a.heap == heap
  {
    match obj
    case None => AccessResult(heap, calls, DescriptorItself(p))
    case Some(o) =>
      var answer := func(o, |calls|);
      var heap' := if answer.Returned? then heap[o := heap[o][p.name := answer.value]] else heap;
      AccessResult(heap', calls + [o], Answered(answer))
  }

  /** `instance.name` with the property defined on the class: it defines no
      `__set__`, so an entry in the instance dict is found first and the
      descriptor is consulted only when there is none. */
  function GetAttr(p: CachedProperty, o: ObjId, heap: Heap, calls: seq<ObjId>, func: PropertyFunc): AccessResult
    requires o in heap
  {
    if p.name in heap[o] then AccessResult(heap, calls, Answered(Returned(heap[o][p.name])))
    else DescriptorGet(p, Some(o), heap, calls, func)
  }

  /** Accessing the property `n` times on an instance that has not cached it
      yet, when the function raises on its first `k` calls and returns on
      the next: each of the first `min(n, k + 1)` accesses calls the function
      with that instance and yields its answer; every later access yields
      the value returned, which only that instance's dict gains. */
  method AccessRepeatedly(p: CachedProperty, o: ObjId, heap: Heap, calls: seq<ObjId>, func: PropertyFunc,
                          n: nat, k: nat)
    returns (outcomes: seq<AccessOutcome>, heap': Heap, calls': seq<ObjId>)
    requires o in heap && p.name !in heap[o]
    requires forall i :: |calls| <= i < |calls| + k ==> func(o, i).Raises?
    requires k < n ==> func(o, |calls| + k).Returned?
    ensures |outcomes| == n
    ensures |calls'| == |calls| + (if n <= k then n else k + 1)
    ensures calls'[..|calls|] == calls
    ensures forall i :: |calls| <= i < |calls'| ==> calls'[i] == o
    ensures n <= k ==> heap' == heap
    ensures k < n ==> heap' == heap[o := heap[o][p.name := func(o, |calls| + k).value]]
    ensures forall j :: 0 <= j < n ==> outcomes[j] == Answered(func(o, |calls| + (if j < k then j else k)))
  {
    outcomes := [];
    heap' := heap;
    calls' := calls;
    var j := 0;
    while j < n
      invariant 0 <= j <= n
      invariant |outcomes| == j
      invariant o in heap'
      invariant |calls'| == |calls| + (if j <= k then j else k + 1)
      invariant calls'[..|calls|] == calls
      invariant forall i :: |calls| <= i < |calls'| ==> calls'[i] == o
      invariant j <= k ==> heap' == heap
      invariant j > k ==> heap' == heap[o := heap[o][p.name := func(o, |calls| + k).value]]
      invariant forall i :: 0 <= i < j ==> outcomes[i] == Answered(func(o, |calls| + (if i < k then i else k)))
    {
      var a := GetAttr(p, o, heap', calls', func);
      assert (calls' + [o])[..|calls|] == calls'[..|calls|];
      outcomes := outcomes + [a.outcome];
      heap' := a.heap;
      calls' := a.calls;
      j := j + 1;
    }
  }

  /** Calling `__get__` itself twice runs the function twice: the caching
      comes only from the instance dict being consulted first. */
  lemma DirectGetRunsEachTime(p: CachedProperty, o: ObjId, heap: Heap, calls: seq<ObjId>, func: PropertyFunc)
    requires o in heap
    ensures var a1 := DescriptorGet(p, Some(o), heap, calls, func);
            var a2 := DescriptorGet(p, Some(o), a1.heap, a1.calls, func);
            a2.calls == calls + [o, o] && a2.outcome == Answered(func(o, |calls| + 1))
  {
  }
}
