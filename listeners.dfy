/** The value-level view of an emitox `Event`: listener records, the three
    shapes its storage can take, and the operations on that storage as
    functions. The class in event.dfy is proved against these functions. */
module EmitoxSpec {

  /** Identity of a callback function; the source compares callbacks by reference. */
  type FnId = nat

  /** One argument passed to `emit`; arguments are opaque to the event. */
  type Arg = int

  datatype Option<T> = None | Some(value: T)

  /** A registered callback and its only-fire-once flag. Listeners are objects:
      rmFirstListenerInstance looks for one by reference. */
  class Listener {
    const fn: FnId
    const once: bool

    constructor (fn: FnId, once: bool)
      ensures this.fn == fn && this.once == once
    {
      this.fn := fn;
      this.once := once;
    }
  }

  /** What `_lis` holds: nothing, one listener stored bare, or an array.
      The array may hold zero or one element: `off` never collapses it. */
  datatype Storage = Empty | Single(listener: Listener) | Multi(items: seq<Listener>)

  /** One invocation of a callback during `emit`. */
  datatype Call = Call(fn: FnId, args: seq<Arg>)

  /** The listeners reachable from the storage, in invocation order. */
  function Listeners(st: Storage): seq<Listener>
  {
    match st
    case Empty => []
    case Single(l) => [l]
    case Multi(items) => items
  }

  /** addEventLis: empty becomes single, single becomes a two-element array,
      an array is pushed onto (even an empty one, which is truthy). */
  function Appended(st: Storage, l: Listener): (r: Storage)
    ensures Listeners(r) == Listeners(st) + [l]
    ensures r.Single? <==> st.Empty?
    ensures st.Multi? ==> r.Multi?
  {
    match st
    case Empty => Single(l)
    case Single(first) => Multi([first, l])
    case Multi(items) => Multi(items + [l])
  }

  /** The entries whose callback is not `fn`, in their original order. */
  function Without(s: seq<Listener>, fn: FnId): (r: seq<Listener>)
    ensures |r| <= |s|
  {
    if s == [] then []
    else (if s[0].fn != fn then [s[0]] else []) + Without(s[1..], fn)
  }

  /** The entries that are not once-listeners, in their original order. */
  function Persistent(s: seq<Listener>): (r: seq<Listener>)
    ensures |r| <= |s|
    ensures forall x :: x in r ==> x in s && !x.once
    ensures forall x :: x in s && !x.once ==> x in r
  {
    if s == [] then []
    else
      assert s == [s[0]] + s[1..];
      (if s[0].once then [] else [s[0]]) + Persistent(s[1..])
  }

  /** The index a backward scan for `l` stops at, or -1 when `l` is not there. */
  function LastIndexOf(s: seq<Listener>, l: Listener): (k: int)
    ensures -1 <= k < |s|
    ensures k >= 0 ==> s[k] == l
    ensures forall j :: k < j < |s| ==> s[j] != l
    ensures k == -1 <==> l !in s
  {
    if s == [] then -1
    else if s[|s| - 1] == l then |s| - 1
    else LastIndexOf(s[..|s| - 1], l)
  }

  /** rmFirstListenerInstance: the bare listener goes if it is `l`; an array
      loses the last entry that is `l` and collapses to empty only when it
      ends up empty; a different bare listener stays. */
  function RemovedInstance(st: Storage, l: Listener): (r: Storage)
    ensures r.Empty? <==> Listeners(r) == []
    ensures st.Multi? ==> r == (if Listeners(r) == [] then Empty else Multi(Listeners(r)))
    ensures st.Single? ==> r == (if st.listener == l then Empty else st)
    ensures l !in Listeners(st) ==> Listeners(r) == Listeners(st)
    ensures l in Listeners(st) ==>
              var s, k := Listeners(st), LastIndexOf(Listeners(st), l);
              Listeners(r) == s[..k] + s[k + 1..]
  {
    match st
    case Empty => Empty
    case Single(x) => if x == l then Empty else st
    case Multi(items) =>
      var k := LastIndexOf(items, l);
      if k < 0 then (if items == [] then Empty else st)
      else
        var rest := items[..k] + items[k + 1..];
        if rest == [] then Empty else Multi(rest)
  }

  /** Event.off as written: with no callback everything goes; a bare
      listener with that callback goes; anything else is replaced by a new
      array of the entries whose callback differs, which for a bare listener
      is always the empty array, because a listener object has no length. */
  function AfterOff(st: Storage, fn: Option<FnId>): (r: Storage)
    ensures fn.None? || st.Empty? ==> r.Empty?
    ensures st.Single? && fn.Some? ==>
              r == (if st.listener.fn == fn.value then Empty else Multi([]))
    ensures fn.Some? && st.Multi? ==> r == Multi(Without(st.items, fn.value))
    ensures fn.Some? ==> forall x :: x in Listeners(r) ==> x in Listeners(st) && x.fn != fn.value
  {
    match st
    case Empty => Empty
    case Single(x) =>
      if fn.None? || x.fn == fn.value then Empty else Multi([])
    case Multi(items) =>
      if fn.None? then Empty
      else
        WithoutMembers(items, fn.value);
        var r := Multi(Without(items, fn.value));
        assert Listeners(r) == Without(items, fn.value);
        r
  }

  /** The calls `emit(args)` makes on the listeners `s`, one per entry, in order. */
  function Calls(s: seq<Listener>, args: seq<Arg>): (r: seq<Call>)
    ensures |r| == |s|
  {
    if s == [] then []
    else [Call(s[0].fn, args)] + Calls(s[1..], args)
  }

  /** Where `_lis` points while `emit` walks the array it captured: cleared
      (an evicted once-listener emptied the array), still the captured
      array, or a new array that a self-removing callback's `off` installed. */
  datatype Cursor = Cleared | Captured | Replaced(items: seq<Listener>)

  /** The state of a dispatch over an array: where `_lis` points and what
      the captured array holds. */
  datatype Walked = Walked(cursor: Cursor, captured: seq<Listener>)

  /** The effect of `off(fn)` called from a callback during dispatch. */
  function OffDuring(c: Cursor, fn: FnId, captured: seq<Listener>): Cursor
  {
    match c
    case Cleared => Cleared
    case Captured => Replaced(Without(captured, fn))
    case Replaced(items) => Replaced(Without(items, fn))
  }

  /** The dispatch loop from index `i` of the captured array: a once-listener
      is spliced out and the index stays, emptying the array clears `_lis`;
      a persistent listener is stepped over. Then the callback runs, and
      callbacks whose identity is in `selfOff` call `off` on themselves. */
  function Walk(captured: seq<Listener>, i: nat, c: Cursor, selfOff: set<FnId>): Walked
    decreases |captured| - i
  {
    if i >= |captured| then Walked(c, captured)
    else
      var l := captured[i];
      var rest := if l.once then captured[..i] + captured[i + 1..] else captured;
      var evicted := if l.once && rest == [] then Cleared else c;
      var after := if l.fn in selfOff then OffDuring(evicted, l.fn, rest) else evicted;
      Walk(rest, if l.once then i else i + 1, after, selfOff)
  }

  /** The storage a dispatch state denotes. */
  function WalkedStorage(w: Walked): Storage
  {
    match w.cursor
    case Cleared => Empty
    case Captured => Multi(w.captured)
    case Replaced(items) => Multi(items)
  }

  /** The storage after `emit`: a bare once-listener is cleared before its
      call; an array is walked in place as `Walk` describes. */
  function AfterEmit(st: Storage, selfOff: set<FnId>): Storage
  {
    match st
    case Empty => Empty
    case Single(l) =>
      var evicted := if l.once then Empty else st;
      if l.fn in selfOff then AfterOff(evicted, Some(l.fn)) else evicted
    case Multi(items) =>
      WalkedStorage(Walk(items, 0, Captured, selfOff))
  }

  /** A callback's `off` during dispatch acts on the storage the cursor denotes. */
  lemma OffDuringIsOff(c: Cursor, fn: FnId, captured: seq<Listener>)
    ensures AfterOff(WalkedStorage(Walked(c, captured)), Some(fn)) ==
            WalkedStorage(Walked(OffDuring(c, fn, captured), captured))
    ensures !OffDuring(c, fn, captured).Captured?
  {
  }

  // ---------------------------------------------------------------------
  // Properties

  /** Removal by callback keeps the relative order: it distributes over concatenation. */
  lemma {:induction false} WithoutConcat(a: seq<Listener>, b: seq<Listener>, fn: FnId)
    ensures Without(a + b, fn) == Without(a, fn) + Without(b, fn)
  {
    if a == [] {
      assert a + b == b;
    } else {
      assert (a + b)[0] == a[0];
      assert (a + b)[1..] == a[1..] + b;
      WithoutConcat(a[1..], b, fn);
    }
  }



  /** Removal by callback keeps exactly the entries with another callback. */
  lemma {:induction false} WithoutMembers(s: seq<Listener>, fn: FnId)
    ensures forall x :: x in Without(s, fn) <==> x in s && x.fn != fn
  {
    if s != [] {
      assert s == [s[0]] + s[1..];
      WithoutMembers(s[1..], fn);
    }
  }

  /** Removal by callback leaves a list without that callback as it is. */
  lemma {:induction false} WithoutAbsent(s: seq<Listener>, fn: FnId)
    requires forall x :: x in s ==> x.fn != fn
    ensures Without(s, fn) == s
  {
    if s != [] {
      assert s == [s[0]] + s[1..];
      WithoutAbsent(s[1..], fn);
    }
  }

  /** A sequence of once-listeners keeps none of them as persistent. */
  lemma {:induction false} PersistentOfOnce(s: seq<Listener>)
    requires forall x :: x in s ==> x.once
    ensures Persistent(s) == []
  {
    if s != [] {
      assert s[0] in s;
      assert forall x :: x in s[1..] ==> x in s;
      PersistentOfOnce(s[1..]);
    }
  }

  /** The j-th call is on the j-th listener, with emit's arguments. */
  lemma {:induction false} CallsAt(s: seq<Listener>, args: seq<Arg>, j: nat)
    requires j < |s|
    ensures Calls(s, args)[j] == Call(s[j].fn, args)
  {
    if j > 0 {
      CallsAt(s[1..], args, j - 1);
    }
  }

  /** What remains to be kept is unchanged by splicing out a once-listener. */
  lemma KeptAfterSplice(captured: seq<Listener>, i: nat)
    requires i < |captured| && captured[i].once
    ensures var rest := captured[..i] + captured[i + 1..];
      rest[..i] + Persistent(rest[i..]) == captured[..i] + Persistent(captured[i..])
  {
    assert captured[i..][1..] == captured[i + 1..];
    assert (captured[..i] + captured[i + 1..])[i..] == captured[i + 1..];
  }

  /** What remains to be kept is unchanged by stepping over a persistent listener. */
  lemma KeptAfterPass(captured: seq<Listener>, i: nat)
    requires i < |captured| && !captured[i].once
    ensures captured[..i + 1] + Persistent(captured[i + 1..]) == captured[..i] + Persistent(captured[i..])
  {
  }

  /** Without a re-entrant callback, the dispatch from index `i` keeps the
      entries before `i` and the persistent ones after it, and clears `_lis`
      only when that leaves nothing and some entry was still to be reached. */
  lemma {:induction false} WalkWithoutReentry(captured: seq<Listener>, i: nat, c: Cursor)
    requires i <= |captured|
    decreases |captured| - i
    ensures var kept := captured[..i] + Persistent(captured[i..]);
      Walk(captured, i, c, {}) == Walked(if i < |captured| && kept == [] then Cleared else c, kept)
  {
    if i == |captured| {
      assert captured[..i] == captured;
      assert captured[i..] == [];
    } else if captured[i].once {
      var rest := captured[..i] + captured[i + 1..];
      var c1 := if rest == [] then Cleared else c;
      WalkWithoutReentry(rest, i, c1);
      KeptAfterSplice(captured, i);
    } else {
      WalkWithoutReentry(captured, i + 1, c);
      KeptAfterPass(captured, i);
    }
  }

  /** emit without re-entrant callbacks leaves exactly the persistent
      listeners, in order, and no once-listener. */
  lemma EmitKeepsPersistent(st: Storage)
    ensures Listeners(AfterEmit(st, {})) == Persistent(Listeners(st))
    ensures forall x :: x in Listeners(AfterEmit(st, {})) ==> !x.once
  {
    match st
    case Empty =>
    case Single(l) =>
    case Multi(items) =>
      WalkWithoutReentry(items, 0, Captured);
      assert items[..0] == [] && items[0..] == items;
      assert Listeners(AfterEmit(st, {})) == Persistent(items);
  }

  /** emit without re-entrant callbacks changes the storage's shape only by
      clearing it, and clears it exactly when it held listeners and all of
      them were once-listeners. */
  lemma EmitClearsOnlyWhenAllOnce(st: Storage)
    ensures var r := AfterEmit(st, {});
      (r.Empty? <==> st.Empty? || (Listeners(st) != [] && Persistent(Listeners(st)) == [])) &&
      (!r.Empty? ==> r == (if st.Single? then st else Multi(Persistent(st.items))))
  {
    match st
    case Empty =>
    case Single(l) =>
    case Multi(items) =>
      WalkWithoutReentry(items, 0, Captured);
      assert items[..0] == [] && items[0..] == items;
  }

  /** Every listener present when emit starts is called once, in storage
      order, with emit's arguments. */
  lemma EmitCallsEveryListener(st: Storage, args: seq<Arg>)
    ensures |Calls(Listeners(st), args)| == |Listeners(st)|
    ensures forall j :: 0 <= j < |Listeners(st)| ==>
              Calls(Listeners(st), args)[j] == Call(Listeners(st)[j].fn, args)
  {
    forall j | 0 <= j < |Listeners(st)|
      ensures Calls(Listeners(st), args)[j] == Call(Listeners(st)[j].fn, args)
    {
      CallsAt(Listeners(st), args, j);
    }
  }

  /** A self-removing first listener does not make the dispatch skip the
      second one, and afterwards only the second one remains. */
  lemma SelfRemovalKeepsSuccessor(l1: Listener, l2: Listener)
    requires !l1.once && !l2.once && l1.fn != l2.fn
    ensures AfterEmit(Multi([l1, l2]), {l1.fn}) == Multi([l2])
  {
    var orig := [l1, l2];
    assert orig[1..] == [l2];
    assert Without(orig, l1.fn) == [l2];
    assert Walk(orig, 1, Replaced([l2]), {l1.fn}) == Walk(orig, 2, Replaced([l2]), {l1.fn});
  }

  /** The timer of a timed once-listener retracts exactly the listener that
      the same call appended, leaving the listeners that were there before. */
  lemma TimeoutRetractsListener(st: Storage, l: Listener)
    requires l !in Listeners(st)
    ensures Listeners(RemovedInstance(Appended(st, l), l)) == Listeners(st)
  {
    var s := Listeners(st) + [l];
    assert Listeners(Appended(st, l)) == s;
    assert LastIndexOf(s, l) == |s| - 1;
    assert s[..|s| - 1] == Listeners(st);
  }
}
