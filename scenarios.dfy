/** Clients of the Event class that replay the repository's tests: each
    builds a fresh event, drives it through the class's methods and
    states what the test observes. The emit calls pass no re-entrant
    callback unless the test installs one. */
module EmitoxScenarios {
  import opened EmitoxSpec
  import opened Emitox

  /** An on-listener is called with exactly the arguments passed to emit. */
  method OnListenerGetsArgs(fn: FnId, args: seq<Arg>) returns (trace: seq<Call>)
    ensures trace == [Call(fn, args)]
  {
    var e := new Event();
    ghost var l := e.On(fn);
    trace := e.Emit(args, {});
  }

  /** Listeners registered with on, one per callback of `fns`, are all called
      by one emit, in registration order, with the same arguments. */
  method ManyOnListenersGetArgs(fns: seq<FnId>, args: seq<Arg>) returns (trace: seq<Call>)
    ensures |trace| == |fns|
    ensures forall j :: 0 <= j < |fns| ==> trace[j] == Call(fns[j], args)
  {
    var e := new Event();
    var n := 0;
    while n < |fns|
      invariant n <= |fns|
      invariant fresh(e) && fresh(e.Footprint())
      invariant |Listeners(e.State())| == n
      invariant forall j :: 0 <= j < n ==> Listeners(e.State())[j].fn == fns[j]
    {
      ghost var l := e.On(fns[n]);
      n := n + 1;
    }
    ghost var before := Listeners(e.State());
    trace := e.Emit(args, {});
    EmitCallsEveryListener(Multi(before), args);
  }

  /** A once-listener fires on the first of three emits only, with that
      emit's arguments. */
  method OnceListenerFiresOnce(fn: FnId, a1: seq<Arg>, a2: seq<Arg>, a3: seq<Arg>)
    returns (t1: seq<Call>, t2: seq<Call>, t3: seq<Call>)
    ensures t1 == [Call(fn, a1)] && t2 == [] && t3 == []
  {
    var e := new Event();
    ghost var l := e.Once(fn);
    t1 := e.Emit(a1, {});
    t2 := e.Emit(a2, {});
    t3 := e.Emit(a3, {});
  }

  /** Once-listeners registered for every callback of `fns` are all called by
      the first emit and by no later one. */
  method ManyOnceListenersFireOnce(fns: seq<FnId>, data: seq<Arg>) returns (t1: seq<Call>, t2: seq<Call>)
    ensures |t1| == |fns|
    ensures forall j :: 0 <= j < |fns| ==> t1[j] == Call(fns[j], data)
    ensures t2 == []
  {
    var e := new Event();
    var n := 0;
    while n < |fns|
      invariant n <= |fns|
      invariant fresh(e) && fresh(e.Footprint())
      invariant |Listeners(e.State())| == n
      invariant forall j :: 0 <= j < n ==> Listeners(e.State())[j].fn == fns[j]
      invariant forall x :: x in Listeners(e.State()) ==> x.once
    {
      ghost var l := e.Once(fns[n]);
      n := n + 1;
    }
    ghost var before := e.State();
    PersistentOfOnce(Listeners(before));
    EmitKeepsPersistent(before);
    t1 := e.Emit(data, {});
    EmitCallsEveryListener(before, data);
    t2 := e.Emit(data, {});
  }

  /** Removing an on- or once-listener, by its callback or with off(),
      before any emit means it is never called. */
  method RemovedListenerNotCalled(fn: FnId, once: bool, removeAll: bool) returns (trace: seq<Call>)
    ensures trace == []
  {
    var e := new Event();
    ghost var l;
    if once {
      l := e.Once(fn);
    } else {
      l := e.On(fn);
    }
    e.Off(if removeAll then None else Some(fn));
    trace := e.Emit([], {});
  }

  /** Removing the second of two listeners leaves the first one called. */
  method RemoveOneOfTwo(f1: FnId, f2: FnId) returns (trace: seq<Call>)
    requires f1 != f2
    ensures trace == [Call(f1, [])]
  {
    var e := new Event();
    ghost var l1 := e.On(f1);
    ghost var l2 := e.On(f2);
    assert e.State() == Multi([l1, l2]);
    assert [l1, l2][1..] == [l2] && [l2][1..] == [];
    assert Without([l2], f2) == [];
    assert Without([l1, l2], f2) == [l1];
    e.Off(Some(f2));
    assert e.State() == Multi([l1]);
    trace := e.Emit([], {});
  }

  /** Removing both of two listeners one by one leaves nothing to call,
      though the storage is still an array (now empty). */
  method RemoveBothOfTwo(f1: FnId, f2: FnId) returns (trace: seq<Call>, count: nat)
    requires f1 != f2
    ensures trace == [] && count == 0
  {
    var e := new Event();
    ghost var l1 := e.On(f1);
    ghost var l2 := e.On(f2);
    assert e.State() == Multi([l1, l2]);
    assert [l1, l2][1..] == [l2] && [l2][1..] == [];
    assert Without([l2], f1) == [l2];
    assert Without([l1, l2], f1) == [l2];
    e.Off(Some(f1));
    assert e.State() == Multi([l2]);
    assert Without([l2], f2) == [];
    e.Off(Some(f2));
    assert e.State() == Multi([]);
    trace := e.Emit([], {});
    count := e.ListenerCount();
  }

  /** A listener that removes itself while called does not make emit skip
      the next listener; a second emit calls only the other one. */
  method SelfRemovalDuringEmit(f1: FnId, f2: FnId) returns (t1: seq<Call>, count: nat, t2: seq<Call>)
    requires f1 != f2
    ensures t1 == [Call(f1, []), Call(f2, [])]
    ensures count == 1
    ensures t2 == [Call(f2, [])]
  {
    var e := new Event();
    ghost var l1 := e.On(f1);
    ghost var l2 := e.On(f2);
    SelfRemovalKeepsSuccessor(l1, l2);
    t1 := e.Emit([], {f1});
    count := e.ListenerCount();
    t2 := e.Emit([], {f1});
  }

  /** listenerCount through on(a), on(b), on(b), off(a): 0, then 3, then 2. */
  method CountThroughOnAndOff(a: FnId, b: FnId) returns (c0: nat, c3: nat, c2: nat)
    requires a != b
    ensures c0 == 0 && c3 == 3 && c2 == 2
  {
    var e := new Event();
    c0 := e.ListenerCount();
    ghost var la := e.On(a);
    ghost var lb1 := e.On(b);
    ghost var lb2 := e.On(b);
    c3 := e.ListenerCount();
    assert e.State() == Multi([la] + [lb1, lb2]);
    WithoutConcat([la], [lb1, lb2], a);
    WithoutAbsent([lb1, lb2], a);
    assert Without([la], a) == [] by {
      assert [la][1..] == [];
    }
    e.Off(Some(a));
    c2 := e.ListenerCount();
  }
}
