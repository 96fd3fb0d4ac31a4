/** Two places where emitox, as written, does not do what its own
    documentation and tests describe, each with the behaviour as written
    (from EmitoxSpec), an input that exhibits the difference, and a
    corrected definition with the intended property proved about it. */
module EmitoxFindings {
  import opened EmitoxSpec
  import opened Emitox

  // ---------------------------------------------------------------------
  // 1. off(fn) on a bare listener with a different callback

  /** As written, off(fn) on a bare listener whose callback is not `fn`
      replaces it by an empty array: the unrelated listener is lost. */
  lemma OffDropsUnrelatedListener(x: Listener, fn: FnId)
    requires x.fn != fn
    ensures AfterOff(Single(x), Some(fn)) == Multi([])
    ensures Listeners(AfterOff(Single(x), Some(fn))) != Without([x], fn)
  {
    assert [x][1..] == [];
    assert Without([x], fn) == [x];
  }

  /** The same on the class: after on(f1) and off(f2) the f1 listener is
      neither counted nor called. */
  method OffOtherCallbackDropsListener(f1: FnId, f2: FnId) returns (count: nat, trace: seq<Call>)
    requires f1 != f2
    ensures count == 0 && trace == []
  {
    var e := new Event();
    ghost var l := e.On(f1);
    e.Off(Some(f2));
    count := e.ListenerCount();
    trace := e.Emit([], {});
  }

  /** off as evidently intended: `off()` removes everything and `off(fn)`
      removes exactly the listeners with callback `fn`, keeping the others in
      order. It differs from the code as written only on a bare listener with
      another callback, which stays where it is. */
  function AfterOffIntended(st: Storage, fn: Option<FnId>): (r: Storage)
    ensures Listeners(r) == if fn.None? then [] else Without(Listeners(st), fn.value)
    ensures r.Single? <==> st.Single? && fn.Some? && st.listener.fn != fn.value
    ensures r.Multi? <==> st.Multi? && fn.Some?
    ensures r != AfterOff(st, fn) <==> st.Single? && fn.Some? && st.listener.fn != fn.value
  {
    match st
    case Single(x) =>
      assert [x][1..] == [];
      if fn.Some? && x.fn != fn.value then st else AfterOff(st, fn)
    case _ => AfterOff(st, fn)
  }

  // ---------------------------------------------------------------------
  // 2. a once-listener behind a self-removing callback survives emit

  /** The entries whose callback is not in `fns`, in their original order. */
  function Outside(s: seq<Listener>, fns: set<FnId>): (r: seq<Listener>)
    ensures |r| <= |s|
    ensures forall x :: x in r ==> x in s && x.fn !in fns
    ensures forall x :: x in s && x.fn !in fns ==> x in r
  {
    if s == [] then []
    else
      assert s == [s[0]] + s[1..];
      (if s[0].fn !in fns then [s[0]] else []) + Outside(s[1..], fns)
  }

  /** No listener object occurs twice; every on/once call adds a new one. */
  ghost predicate Distinct(s: seq<Listener>)
  {
    forall i, j :: 0 <= i < j < |s| ==> s[i] != s[j]
  }

  /** As written, with a persistent listener whose callback removes itself
      followed by a once-listener, one emit leaves the once-listener
      registered: `off` copied it into the new array before the dispatch
      spliced it out of the captured one. */
  lemma OnceListenerSurvivesSelfRemoval(l1: Listener, l2: Listener)
    requires !l1.once && l2.once && l1.fn != l2.fn
    ensures AfterEmit(Multi([l1, l2]), {l1.fn}) == Multi([l2])
    ensures Outside(Persistent([l1, l2]), {l1.fn}) == []
  {
    var orig := [l1, l2];
    assert orig[1..] == [l2] && [l2][1..] == [];
    assert Without(orig, l1.fn) == [l2];
    assert orig[..1] + orig[2..] == [l1];
    assert Walk(orig, 0, Captured, {l1.fn}) == Walk(orig, 1, Replaced([l2]), {l1.fn});
    assert Walk(orig, 1, Replaced([l2]), {l1.fn}) == Walk([l1], 1, Replaced([l2]), {l1.fn});
    assert Persistent(orig) == [l1];
  }

  /** The same on the class: with on(f1), where f1 removes itself, and
      once(f2), the second emit calls the once-listener f2 again. */
  method OnceListenerFiresTwice(f1: FnId, f2: FnId) returns (t1: seq<Call>, t2: seq<Call>)
    requires f1 != f2
    ensures t1 == [Call(f1, []), Call(f2, [])]
    ensures t2 == [Call(f2, [])]
  {
    var e := new Event();
    ghost var l1 := e.On(f1);
    ghost var l2 := e.Once(f2);
    OnceListenerSurvivesSelfRemoval(l1, l2);
    t1 := e.Emit([], {f1});
    t2 := e.Emit([], {f1});
  }

  /** The cursor after also retracting the evicted once-listener `l` from
      a replacement array, as rmFirstListenerInstance would. */
  function Retracted(items: seq<Listener>, l: Listener): (c: Cursor)
    ensures c.Replaced? ==> c.items != []
  {
    var r := RemovedInstance(Multi(items), l);
    if r.Empty? then Cleared else Replaced(Listeners(r))
  }

  /** The dispatch loop as evidently intended: as `Walk`, except that a
      once-listener evicted after a callback's `off` replaced `_lis` is
      also retracted from the replacement. */
  function WalkIntended(captured: seq<Listener>, i: nat, c: Cursor, selfOff: set<FnId>): Walked
    decreases |captured| - i
  {
    if i >= |captured| then Walked(c, captured)
    else
      var l := captured[i];
      var rest := if l.once then captured[..i] + captured[i + 1..] else captured;
      var evicted :=
        if l.once && rest == [] then Cleared
        else if l.once && c.Replaced? then Retracted(c.items, l)
        else c;
      var after := if l.fn in selfOff then OffDuring(evicted, l.fn, rest) else evicted;
      WalkIntended(rest, if l.once then i else i + 1, after, selfOff)
  }

  /** emit with the corrected dispatch loop; a bare listener is handled as written. */
  function AfterEmitIntended(st: Storage, selfOff: set<FnId>): Storage
  {
    match st
    case Multi(items) => WalkedStorage(WalkIntended(items, 0, Captured, selfOff))
    case _ => AfterEmit(st, selfOff)
  }

  // Lemmas about Outside

  lemma {:induction false} OutsideConcat(a: seq<Listener>, b: seq<Listener>, fns: set<FnId>)
    ensures Outside(a + b, fns) == Outside(a, fns) + Outside(b, fns)
  {
    if a == [] {
      assert a + b == b;
    } else {
      assert (a + b)[0] == a[0];
      assert (a + b)[1..] == a[1..] + b;
      OutsideConcat(a[1..], b, fns);
    }
  }

  /** Removing one more callback from the outside entries. */
  lemma {:induction false} WithoutOutside(s: seq<Listener>, fns: set<FnId>, fn: FnId)
    ensures Without(Outside(s, fns), fn) == Outside(s, fns + {fn})
  {
    if s != [] {
      WithoutOutside(s[1..], fns, fn);
      var head := if s[0].fn !in fns then [s[0]] else [];
      WithoutConcat(head, Outside(s[1..], fns), fn);
      if s[0].fn !in fns {
        assert head[1..] == [];
      }
    }
  }

  lemma {:induction false} OutsideNone(s: seq<Listener>)
    ensures Outside(s, {}) == s
  {
    if s != [] {
      OutsideNone(s[1..]);
      assert s == [s[0]] + s[1..];
    }
  }

  /** Two sets of callbacks that agree on the entries select the same entries. */
  lemma {:induction false} OutsideAgree(s: seq<Listener>, f: set<FnId>, g: set<FnId>)
    requires forall j :: 0 <= j < |s| ==> (s[j].fn in f <==> s[j].fn in g)
    ensures Outside(s, f) == Outside(s, g)
  {
    if s != [] {
      assert forall j :: 0 <= j < |s[1..]| ==> s[1..][j] == s[j + 1];
      OutsideAgree(s[1..], f, g);
    }
  }

  /** In a sequence without repeats, an entry does not occur after itself. */
  lemma DistinctAfter(s: seq<Listener>, i: nat)
    requires i < |s| && Distinct(s)
    ensures s[i] !in s[i + 1..]
  {
    var b := s[i + 1..];
    forall j | 0 <= j < |b| ensures b[j] != s[i] {
      assert b[j] == s[i + 1 + j];
    }
  }

  /** A backward scan for `l` in `a + [l] + b` stops at `l` when `b` has none. */
  lemma LastIndexOfMiddle(a: seq<Listener>, l: Listener, b: seq<Listener>)
    requires l !in b
    ensures var o := a + ([l] + b);
      LastIndexOf(o, l) == |a| && o[..|a|] == a && o[|a| + 1..] == b
  {
    var o := a + ([l] + b);
    var k := LastIndexOf(o, l);
    assert o[|a|] == l;
    assert o[..|a|] == a;
    assert o[|a| + 1..] == b;
  }

  /** Outside of `s` split around entry `i`. */
  lemma OutsideAround(s: seq<Listener>, i: nat, fns: set<FnId>)
    requires i < |s|
    ensures Outside(s, fns) ==
            Outside(s[..i], fns) + ((if s[i].fn !in fns then [s[i]] else []) + Outside(s[i + 1..], fns))
    ensures Outside(s[..i] + s[i + 1..], fns) == Outside(s[..i], fns) + Outside(s[i + 1..], fns)
  {
    var l := s[i];
    var a, b := s[..i], s[i + 1..];
    assert s == a + ([l] + b);
    OutsideConcat(a, [l] + b, fns);
    OutsideConcat([l], b, fns);
    OutsideConcat(a, b, fns);
    assert [l][1..] == [];
  }

  /** Splicing out entry `i` whose callback is excluded leaves Outside as it is. */
  lemma OutsideSpliceExcluded(s: seq<Listener>, i: nat, fns: set<FnId>)
    requires i < |s| && s[i].fn in fns
    ensures Outside(s[..i] + s[i + 1..], fns) == Outside(s, fns)
  {
    OutsideAround(s, i, fns);
    var ob := Outside(s[i + 1..], fns);
    assert [] + ob == ob;
  }

  /** Splicing out entry `i` whose callback is not excluded, and which does
      not occur later, loses exactly that entry from Outside, at the place
      where a backward scan for it stops. */
  lemma OutsideSpliceKept(s: seq<Listener>, i: nat, fns: set<FnId>)
    requires i < |s| && s[i].fn !in fns && s[i] !in s[i + 1..]
    ensures var o := Outside(s, fns);
      var k := LastIndexOf(o, s[i]);
      0 <= k && Outside(s[..i] + s[i + 1..], fns) == o[..k] + o[k + 1..]
  {
    var l := s[i];
    var oa, ob := Outside(s[..i], fns), Outside(s[i + 1..], fns);
    OutsideAround(s, i, fns);
    assert Outside(s, fns) == oa + ([l] + ob);
    assert l !in ob;
    LastIndexOfMiddle(oa, l, ob);
  }

  lemma SpliceDistinct(s: seq<Listener>, i: nat)
    requires i < |s| && Distinct(s)
    ensures Distinct(s[..i] + s[i + 1..])
  {
    var r := s[..i] + s[i + 1..];
    forall p, q | 0 <= p < q < |r| ensures r[p] != r[q] {
      var p' := if p < i then p else p + 1;
      var q' := if q < i then q else q + 1;
      assert r[p] == s[p'] && r[q] == s[q'];
    }
  }

  /** A set of callbacks excludes everything once a subset of it does, and
      from every subsequence. */
  lemma OutsideEmptyGrows(s: seq<Listener>, f: set<FnId>, g: set<FnId>, t: seq<Listener>)
    requires f <= g && Outside(s, f) == []
    requires forall x :: x in t ==> x in s
    ensures Outside(t, g) == []
  {
  }

  /** The entries before `i` are persistent, and those whose callback
      removes itself have done so (are in `done`). */
  ghost predicate PassedOk(captured: seq<Listener>, i: nat, selfOff: set<FnId>, done: set<FnId>)
  {
    i <= |captured| &&
    forall j :: 0 <= j < i ==>
      !captured[j].once && (captured[j].fn in selfOff ==> captured[j].fn in done)
  }

  /** `_lis` is the captured array while no callback has removed itself,
      and afterwards denotes the captured entries outside `done`. */
  ghost predicate CursorOk(captured: seq<Listener>, c: Cursor, done: set<FnId>)
  {
    (c.Captured? ==> done == {}) &&
    (c.Replaced? ==> c.items == Outside(captured, done)) &&
    (c.Cleared? ==> Outside(captured, done) == [])
  }

  /** Dispatch state from which the corrected loop is on track: `done` holds
      the callbacks that have removed themselves. */
  ghost predicate OnTrack(captured: seq<Listener>, i: nat, c: Cursor, selfOff: set<FnId>, done: set<FnId>)
  {
    Distinct(captured) && done <= selfOff &&
    PassedOk(captured, i, selfOff, done) && CursorOk(captured, c, done)
  }

  /** Retracting an evicted once-listener from the replacement array keeps
      it equal to the captured entries outside `done`. */
  lemma EvictReplaced(captured: seq<Listener>, i: nat, done: set<FnId>)
    requires i < |captured| && Distinct(captured)
    ensures CursorOk(captured[..i] + captured[i + 1..],
                     Retracted(Outside(captured, done), captured[i]), done)
  {
    if captured[i].fn in done {
      EvictReplacedExcluded(captured, i, done);
    } else {
      DistinctAfter(captured, i);
      EvictReplacedKept(captured, i, done);
    }
  }

  lemma EvictReplacedExcluded(captured: seq<Listener>, i: nat, done: set<FnId>)
    requires i < |captured| && captured[i].fn in done
    ensures CursorOk(captured[..i] + captured[i + 1..],
                     Retracted(Outside(captured, done), captured[i]), done)
  {
    OutsideSpliceExcluded(captured, i, done);
    assert captured[i] !in Outside(captured, done);
  }

  lemma EvictReplacedKept(captured: seq<Listener>, i: nat, done: set<FnId>)
    requires i < |captured| && captured[i].fn !in done && captured[i] !in captured[i + 1..]
    ensures CursorOk(captured[..i] + captured[i + 1..],
                     Retracted(Outside(captured, done), captured[i]), done)
  {
    OutsideSpliceKept(captured, i, done);
    assert captured[i] in Outside(captured, done) by {
      assert captured[i] in captured;
    }
  }

  lemma EvictCursor(captured: seq<Listener>, i: nat, c: Cursor, done: set<FnId>)
    requires i < |captured| && Distinct(captured) && CursorOk(captured, c, done)
    ensures var rest := captured[..i] + captured[i + 1..];
      var evicted :=
        if rest == [] then Cleared
        else if c.Replaced? then Retracted(c.items, captured[i])
        else c;
      CursorOk(rest, evicted, done)
  {
    var rest := captured[..i] + captured[i + 1..];
    if rest == [] {
    } else if c.Replaced? {
      EvictReplaced(captured, i, done);
    } else if c.Cleared? {
      assert forall x :: x in rest ==> x in captured;
      OutsideEmptyGrows(captured, done, done, rest);
    }
  }

  lemma EvictPassed(captured: seq<Listener>, i: nat, selfOff: set<FnId>, done: set<FnId>)
    requires i < |captured| && PassedOk(captured, i, selfOff, done)
    ensures PassedOk(captured[..i] + captured[i + 1..], i, selfOff, done)
  {
    var rest := captured[..i] + captured[i + 1..];
    assert forall j :: 0 <= j < i ==> rest[j] == captured[j];
  }

  /** One step of the corrected loop on a once-listener keeps it on track. */
  lemma EvictStep(captured: seq<Listener>, i: nat, c: Cursor, selfOff: set<FnId>, done: set<FnId>)
    requires OnTrack(captured, i, c, selfOff, done) && i < |captured| && captured[i].once
    ensures var l := captured[i];
      var rest := captured[..i] + captured[i + 1..];
      var evicted :=
        if rest == [] then Cleared
        else if c.Replaced? then Retracted(c.items, l)
        else c;
      OnTrack(rest, i, evicted, selfOff, done)
  {
    SpliceDistinct(captured, i);
    EvictCursor(captured, i, c, done);
    EvictPassed(captured, i, selfOff, done);
  }

  /** One step of the corrected loop through a self-removing callback `fn`
      keeps it on track, with `fn` now among the removed ones. */
  lemma OffStep(captured: seq<Listener>, i: nat, c: Cursor, selfOff: set<FnId>, done: set<FnId>, fn: FnId)
    requires OnTrack(captured, i, c, selfOff, done) && fn in selfOff
    requires forall j :: 0 <= j < i && captured[j].fn in selfOff ==> captured[j].fn in done + {fn}
    ensures OnTrack(captured, i, OffDuring(c, fn, captured), selfOff, done + {fn})
  {
    match c
    case Cleared =>
      OutsideEmptyGrows(captured, done, done + {fn}, captured);
    case Captured =>
      OutsideNone(captured);
      WithoutOutside(captured, {}, fn);
      assert {} + {fn} == done + {fn};
    case Replaced(items) =>
      WithoutOutside(captured, done, fn);
  }

  /** At the end of the array an on-track cursor denotes the captured
      entries outside every self-removing callback. */
  lemma WalkIntendedDone(captured: seq<Listener>, c: Cursor, selfOff: set<FnId>, done: set<FnId>)
    requires OnTrack(captured, |captured|, c, selfOff, done)
    ensures Listeners(WalkedStorage(Walked(c, captured))) == Outside(captured, selfOff)
  {
    OutsideAgree(captured, done, selfOff);
    if c.Captured? {
      OutsideNone(captured);
    }
  }

  /** The corrected loop's step over a once-listener stays on track. */
  lemma OnceStep(captured: seq<Listener>, i: nat, c: Cursor, selfOff: set<FnId>, done: set<FnId>)
    requires OnTrack(captured, i, c, selfOff, done) && i < |captured| && captured[i].once
    ensures var l := captured[i];
      var rest := captured[..i] + captured[i + 1..];
      var evicted :=
        if rest == [] then Cleared
        else if c.Replaced? then Retracted(c.items, l)
        else c;
      var after := if l.fn in selfOff then OffDuring(evicted, l.fn, rest) else evicted;
      OnTrack(rest, i, after, selfOff, if l.fn in selfOff then done + {l.fn} else done)
  {
    var l := captured[i];
    var rest := captured[..i] + captured[i + 1..];
    var evicted :=
      if rest == [] then Cleared
      else if c.Replaced? then Retracted(c.items, l)
      else c;
    EvictStep(captured, i, c, selfOff, done);
    if l.fn in selfOff {
      OffStep(rest, i, evicted, selfOff, done, l.fn);
    }
  }

  /** The corrected loop's step over a persistent listener stays on track. */
  lemma PassStep(captured: seq<Listener>, i: nat, c: Cursor, selfOff: set<FnId>, done: set<FnId>)
    requires OnTrack(captured, i, c, selfOff, done) && i < |captured| && !captured[i].once
    ensures var l := captured[i];
      var after := if l.fn in selfOff then OffDuring(c, l.fn, captured) else c;
      OnTrack(captured, i + 1, after, selfOff, if l.fn in selfOff then done + {l.fn} else done)
  {
    var l := captured[i];
    if l.fn in selfOff {
      OffStep(captured, i, c, selfOff, done, l.fn);
    }
  }

  /** From an on-track state the corrected loop ends with exactly the
      entries already passed and the persistent ones not yet reached, minus
      every self-removing callback. */
  lemma {:induction false} WalkIntendedOutside(captured: seq<Listener>, i: nat, c: Cursor, selfOff: set<FnId>, done: set<FnId>)
    requires OnTrack(captured, i, c, selfOff, done)
    decreases |captured| - i
    ensures Listeners(WalkedStorage(WalkIntended(captured, i, c, selfOff))) ==
            Outside(captured[..i] + Persistent(captured[i..]), selfOff)
  {
    if i == |captured| {
      assert captured[..i] + Persistent(captured[i..]) == captured;
      WalkIntendedDone(captured, c, selfOff, done);
    } else {
      var l := captured[i];
      var done' := if l.fn in selfOff then done + {l.fn} else done;
      if l.once {
        var rest := captured[..i] + captured[i + 1..];
        var evicted :=
          if rest == [] then Cleared
          else if c.Replaced? then Retracted(c.items, l)
          else c;
        var after := if l.fn in selfOff then OffDuring(evicted, l.fn, rest) else evicted;
        OnceStep(captured, i, c, selfOff, done);
        WalkIntendedOutside(rest, i, after, selfOff, done');
        KeptAfterSplice(captured, i);
      } else {
        var after := if l.fn in selfOff then OffDuring(c, l.fn, captured) else c;
        PassStep(captured, i, c, selfOff, done);
        WalkIntendedOutside(captured, i + 1, after, selfOff, done');
        KeptAfterPass(captured, i);
      }
    }
  }

  /** The corrected emit leaves exactly the persistent listeners whose
      callbacks did not remove themselves, in order: no once-listener
      survives a dispatch. */
  lemma EmitIntendedKeepsPersistentOutside(st: Storage, selfOff: set<FnId>)
    requires Distinct(Listeners(st))
    ensures Listeners(AfterEmitIntended(st, selfOff)) == Outside(Persistent(Listeners(st)), selfOff)
  {
    match st
    case Empty =>
    case Single(l) =>
      assert [l][1..] == [];
    case Multi(items) =>
      assert items[..0] == [] && items[0..] == items;
      assert OnTrack(items, 0, Captured, selfOff, {});
      assert items[..0] + Persistent(items[0..]) == Persistent(items);
      WalkIntendedOutside(items, 0, Captured, selfOff, {});
  }

  /** Without re-entrant callbacks the correction changes nothing. */
  lemma {:induction false} WalkIntendedWithoutReentry(captured: seq<Listener>, i: nat, c: Cursor)
    requires c.Captured? || c.Cleared?
    decreases |captured| - i
    ensures WalkIntended(captured, i, c, {}) == Walk(captured, i, c, {})
  {
    if i < |captured| {
      var l := captured[i];
      var rest := if l.once then captured[..i] + captured[i + 1..] else captured;
      var evicted := if l.once && rest == [] then Cleared else c;
      WalkIntendedWithoutReentry(rest, if l.once then i else i + 1, evicted);
    }
  }

  lemma EmitIntendedWithoutReentry(st: Storage)
    ensures AfterEmitIntended(st, {}) == AfterEmit(st, {})
  {
    match st
    case Multi(items) =>
      WalkIntendedWithoutReentry(items, 0, Captured);
    case _ =>
  }
}
