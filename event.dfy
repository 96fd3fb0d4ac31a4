/** The emitox `Event` class over its one mutable field `_lis`, with the
    module-level helpers addEventLis and rmFirstListenerInstance. Every
    operation is proved against the functions of EmitoxSpec. */
module Emitox {
  import opened EmitoxSpec

  /** A JavaScript array of listeners, changed in place by push and splice. */
  class ListenerArray {
    var items: seq<Listener>

    constructor (items: seq<Listener>)
      ensures this.items == items
    {
      this.items := items;
    }

    /** Array.prototype.push with one argument. */
    method Push(l: Listener)
      modifies this
      ensures items == old(items) + [l]
    {
      items := items + [l];
    }

    /** Array.prototype.splice(i, 1) for an index inside the array. */
    method Splice(i: nat)
      requires i < |items|
      modifies this
      ensures items == old(items)[..i] + old(items)[i + 1..]
    {
      items := items[..i] + items[i + 1..];
    }
  }

  /** The run-time value of `_lis`: undefined, a bare listener, or an array. */
  datatype Lis = Unset | Obj(listener: Listener) | Arr(arr: ListenerArray)

  class Event {
    var lis: Lis

    constructor ()
      ensures State() == Empty
    {
      lis := Unset;
    }

    /** The array `_lis` refers to, if it refers to one. */
    function Footprint(): set<object>
      reads this
    {
      if lis.Arr? then {lis.arr} else {}
    }

    /** The storage `_lis` denotes. */
    function State(): Storage
      reads this, Footprint()
    {
      match lis
      case Unset => Empty
      case Obj(l) => Single(l)
      case Arr(a) => Multi(a.items)
    }

    /** listenerCount: 0 when unset, 1 for a bare listener (it has an `fn`),
        the array's length otherwise. */
    function ListenerCount(): (n: nat)
      reads this, Footprint()
      ensures n == |Listeners(State())|
      ensures n == 0 <==> lis.Unset? || (lis.Arr? && lis.arr.items == [])
    {
      match lis
      case Unset => 0
      case Obj(_) => 1
      case Arr(a) => |a.items|
    }

    /** on(fn): appends a new persistent listener for `fn`. */
    method On(fn: FnId) returns (ghost added: Listener)
      modifies this, Footprint()
      ensures fresh(added) && added.fn == fn && !added.once
      ensures State() == Appended(old(State()), added)
      ensures fresh(Footprint() - old(Footprint()))
    {
      var l := new Listener(fn, false);
      AddEventLis(this, l);
      added := l;
    }

    /** once(fn), the callback form: appends a new once-listener for `fn`. */
    method Once(fn: FnId) returns (ghost added: Listener)
      modifies this, Footprint()
      ensures fresh(added) && added.fn == fn && added.once
      ensures State() == Appended(old(State()), added)
      ensures fresh(Footprint() - old(Footprint()))
    {
      var l := new Listener(fn, true);
      AddEventLis(this, l);
      added := l;
    }

    /** off() and off(fn). Never changes an array in place: removal by
        callback builds a new array, which is why a dispatch in progress
        keeps walking the array it captured. */
    method Off(fn: Option<FnId>)
      modifies this
      ensures State() == AfterOff(old(State()), fn)
      ensures lis.Arr? ==> fresh(lis.arr)
    {
      var cur := lis;
      if cur.Unset? {
        return;
      } else if fn.None? {
        lis := Unset;
        return;
      } else if cur.Obj? && cur.listener.fn == fn.value {
        lis := Unset;
        return;
      }
      var newLis := new ListenerArray([]);
      // a bare listener has no length, so the loop does not run for it
      var length := if cur.Arr? then |cur.arr.items| else 0;
      var i := 0;
      while i < length
        invariant 0 <= i <= length
        invariant cur.Arr? ==> newLis.items == Without(cur.arr.items[..i], fn.value)
        invariant cur.Obj? ==> newLis.items == []
      {
        var l := cur.arr.items[i];
        assert cur.arr.items[..i + 1] == cur.arr.items[..i] + [l];
        WithoutConcat(cur.arr.items[..i], [l], fn.value);
        if l.fn != fn.value {
          newLis.Push(l);
        }
        i := i + 1;
      }
      if cur.Arr? {
        assert cur.arr.items[..length] == cur.arr.items;
      }
      lis := Arr(newLis);
    }

    /** emit(args): calls every listener present when it starts, in order,
        with `args`, evicting each once-listener before its call. Callbacks
        whose identity is in `selfOff` call `off` on themselves when called;
        no other callback touches the event. */
    method Emit(args: seq<Arg>, selfOff: set<FnId>) returns (trace: seq<Call>)
      modifies this, Footprint()
      ensures trace == Calls(Listeners(old(State())), args)
      ensures State() == AfterEmit(old(State()), selfOff)
      ensures fresh(Footprint() - old(Footprint()))
    {
      var cur := lis;
      if cur.Unset? {
        trace := [];
        return;
      }
      if cur.Obj? {
        var l := cur.listener;
        if l.once {
          lis := Unset;
        }
        trace := [Call(l.fn, args)];
        if l.fn in selfOff {
          Off(Some(l.fn));
        }
        return;
      }
      trace := EmitArray(cur.arr, args, selfOff);
    }

    /** The array branch of emit: walks the captured array `a` by index, and
        does not advance the index past an evicted once-listener. */
    method EmitArray(a: ListenerArray, args: seq<Arg>, selfOff: set<FnId>) returns (trace: seq<Call>)
      requires lis == Arr(a)
      modifies this, a
      ensures trace == Calls(old(a.items), args)
      ensures State() == AfterEmit(Multi(old(a.items)), selfOff)
      ensures fresh(Footprint() - {a})
    {
      ghost var orig := a.items;
      ghost var cursor := Captured;
      trace := [];
      var i: nat := 0;
      while i < |a.items|
        invariant i <= |a.items|
        invariant Walk(a.items, i, cursor, selfOff) == Walk(orig, 0, Captured, selfOff)
        invariant trace + Calls(a.items[i..], args) == Calls(orig, args)
        invariant State() == WalkedStorage(Walked(cursor, a.items))
        invariant cursor.Captured? <==> lis == Arr(a)
        invariant lis.Arr? && lis.arr != a ==> fresh(lis.arr)
        decreases |a.items| - i
      {
        ghost var tail := a.items[i + 1..];
        assert a.items[i..] == [a.items[i]] + tail;
        assert Calls(a.items[i..], args) == [Call(a.items[i].fn, args)] + Calls(tail, args);
        var call;
        i, call, cursor := DispatchAt(a, i, args, selfOff, cursor);
        trace := trace + [call];
        assert trace + Calls(tail, args) == Calls(orig, args);
      }
      assert a.items[i..] == [];
    }

    /** One round of emit's loop at index `i` of the captured array `a`:
        evict a once-listener, call the callback, and let a self-removing
        callback call off. `cursor` says where `_lis` points. */
    method DispatchAt(a: ListenerArray, i: nat, args: seq<Arg>, selfOff: set<FnId>, ghost cursor: Cursor)
      returns (next: nat, call: Call, ghost after: Cursor)
      requires i < |a.items|
      requires State() == WalkedStorage(Walked(cursor, a.items))
      requires cursor.Captured? <==> lis == Arr(a)
      modifies this, a
      ensures call == Call(old(a.items)[i].fn, args)
      ensures old(a.items)[i].once ==> a.items == old(a.items)[..i] + old(a.items)[i + 1..] && next == i
      ensures !old(a.items)[i].once ==> a.items == old(a.items) && next == i + 1
      ensures var l := old(a.items)[i];
        var evicted := if l.once && a.items == [] then Cleared else cursor;
        after == if l.fn in selfOff then OffDuring(evicted, l.fn, a.items) else evicted
      ensures Walk(a.items, next, after, selfOff) == Walk(old(a.items), i, cursor, selfOff)
      ensures next <= |a.items| && a.items[next..] == old(a.items)[i + 1..]
      ensures State() == WalkedStorage(Walked(after, a.items))
      ensures after.Captured? <==> lis == Arr(a)
      ensures lis.Arr? && lis.arr != a ==> lis == old(lis) || fresh(lis.arr)
    {
      var l := a.items[i];
      ghost var tail := a.items[i + 1..];
      after := cursor;
      next := i;
      if l.once {
        a.Splice(i);
        assert a.items[i..] == tail;
        if |a.items| == 0 {
          lis := Unset;
          after := Cleared;
        }
      } else {
        next := i + 1;
      }
      call := Call(l.fn, args);
      if l.fn in selfOff {
        OffDuringIsOff(after, l.fn, a.items);
        Off(Some(l.fn));
        after := OffDuring(after, l.fn, a.items);
      }
    }
  }

  /** addEventLis: an unset `_lis` takes the listener bare, an array is
      pushed onto in place, a bare listener becomes a two-element array. */
  method AddEventLis(e: Event, l: Listener)
    modifies e, e.Footprint()
    ensures e.State() == Appended(old(e.State()), l)
    ensures old(e.lis).Arr? ==> e.lis == old(e.lis)
    ensures fresh(e.Footprint() - old(e.Footprint()))
  {
    var cur := e.lis;
    if cur.Unset? {
      e.lis := Obj(l);
    } else if cur.Arr? {
      cur.arr.Push(l);
    } else {
      var arr := new ListenerArray([cur.listener, l]);
      e.lis := Arr(arr);
    }
  }

  /** rmFirstListenerInstance: scans an array from the end for the object
      `l`, splices out the first hit and stops; an array left empty
      collapses to unset. A bare listener goes only if it is `l`. */
  method RmFirstListenerInstance(e: Event, l: Listener)
    modifies e, e.Footprint()
    ensures e.State() == RemovedInstance(old(e.State()), l)
    ensures e.lis.Arr? ==> e.lis == old(e.lis)
    ensures e.Footprint() <= old(e.Footprint())
  {
    var cur := e.lis;
    if cur.Unset? {
      return;
    } else if cur.Obj? && cur.listener == l {
      e.lis := Unset;
    } else if cur.Arr? {
      var a := cur.arr;
      var i := |a.items| - 1;
      while i > -1
        invariant -1 <= i < |a.items|
        invariant a.items == old(a.items)
        invariant forall j :: i < j < |a.items| ==> a.items[j] != l
        decreases i
      {
        if a.items[i] == l {
          assert LastIndexOf(a.items, l) == i;
          a.Splice(i);
          break;
        }
        i := i - 1;
      }
      if |a.items| == 0 {
        e.lis := Unset;
      }
    }
    // a different bare listener: its length is undefined, so nothing changes
  }
}
