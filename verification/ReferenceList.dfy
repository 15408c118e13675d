/** The reference table as the source keeps it: a list threaded through the records by `next`,
    walked from `head` (src/bridges/jni/references.c:32-43, 128-242, 258-262). */
module ReferenceList {
  import opened Common
  import opened ReferenceTable
  import opened References

  function Head(order: seq<Addr>): Option<Addr> {
    if order == [] then None else Some(order[0])
  }

  /** The links spell out `order`, starting at `head`. */
  ghost predicate Threaded(head: Option<Addr>, next: map<Addr, Option<Addr>>, order: seq<Addr>)
    decreases |order|
  {
    && head == Head(order)
    && (order != [] ==> order[0] in next && Threaded(next[order[0]], next, order[1..]))
  }

  lemma {:induction false} ThreadedFrame(
    head: Option<Addr>, next: map<Addr, Option<Addr>>, after: map<Addr, Option<Addr>>, order: seq<Addr>)
    requires Threaded(head, next, order)
    requires forall a :: a in order && a in next ==> a in after && after[a] == next[a]
    ensures Threaded(head, after, order)
    decreases |order|
  {
    if order != [] {
      ThreadedFrame(next[order[0]], next, after, order[1..]);
    }
  }

  /** Cutting one record out of the middle of the list. */
  lemma {:induction false} ThreadedCut(head: Option<Addr>, next: map<Addr, Option<Addr>>, order: seq<Addr>, i: nat)
    requires Threaded(head, next, order) && Distinct(order) && i < |order|
    ensures order[i] in next && next[order[i]] == Head(order[i + 1..])
    ensures i == 0 ==> Threaded(next[order[0]], next, order[1..])
    ensures i > 0 ==> Threaded(head, next[order[i - 1] := next[order[i]]], order[..i] + order[i + 1..])
    decreases |order|
  {
    if i > 0 {
      ThreadedCut(next[order[0]], next, order[1..], i - 1);
      var after := next[order[i - 1] := next[order[i]]];
      var rest := order[..i] + order[i + 1..];
      assert order[1..][i..] == order[i + 1..];
      if i == 1 {
        assert rest[1..] == order[2..];
        ThreadedTail(head, next, order, 2);
        ThreadedFrame(next[order[1]], next, after, order[2..]);
      } else {
        assert rest[1..] == order[1..][..i - 1] + order[1..][i..];
      }
    }
  }

  lemma {:induction false} ThreadedTail(head: Option<Addr>, next: map<Addr, Option<Addr>>, order: seq<Addr>, i: nat)
    requires Threaded(head, next, order) && 0 < i <= |order|
    ensures order[i - 1] in next && Threaded(next[order[i - 1]], next, order[i..])
    decreases i
  {
    if i > 1 {
      ThreadedTail(next[order[0]], next, order[1..], i - 1);
      assert order[1..][i - 1..] == order[i..];
    }
  }

  lemma {:induction false} KeepOne(order: seq<Addr>, i: nat)
    requires Distinct(order) && i < |order|
    ensures Keep(order, {order[i]}) == order[..i] + order[i + 1..]
  {
    if i == 0 {
      KeepNothing(order[1..], {order[0]});
    } else {
      KeepOne(order[1..], i - 1);
      assert order[1..][..i - 1] == order[..i][1..];
      assert order[1..][i..] == order[i + 1..];
    }
  }

  lemma {:induction false} KeepNothing(order: seq<Addr>, dead: set<Addr>)
    requires forall a :: a in order ==> a !in dead
    ensures Keep(order, dead) == order
  {
    if order != [] {
      KeepNothing(order[1..], dead);
    }
  }

  lemma {:induction false} KeepTwice(order: seq<Addr>, dead: set<Addr>, more: set<Addr>)
    ensures Keep(Keep(order, dead), more) == Keep(order, dead + more)
  {
    if order != [] {
      KeepTwice(order[1..], dead, more);
      if order[0] !in dead {
        assert Keep(order, dead)[1..] == Keep(order[1..], dead);
      }
    }
  }

  lemma CursorIs(cursor: Option<Addr>, next: map<Addr, Option<Addr>>, order: seq<Addr>, i: nat)
    requires i <= |order| && Threaded(cursor, next, order[i..])
    ensures if i == |order| then cursor.None?
            else cursor == Some(order[i]) && order[i] in next && Threaded(next[order[i]], next, order[i + 1..])
  {
    if i < |order| {
      assert order[i..][1..] == order[i + 1..];
    }
  }

  /** The walk that clears the globals has passed `i` owned records and cut out the ownerless ones `dead`. */
  ghost predicate Swept(s: Table, order: seq<Addr>, dead: set<Addr>, i: nat) {
    && i <= |order| && Distinct(order) && order == Keep(s.order, dead)
    && (forall a :: a in order ==> a in s.refs && a !in dead)
    && (forall a :: a in dead ==> a in s.order && a in s.refs && s.refs[a].owner.None?)
    && (forall k :: 0 <= k < i ==> s.refs[order[k]].owner.Some?)
  }

  lemma SweptOn(s: Table, order: seq<Addr>, dead: set<Addr>, i: nat)
    requires Swept(s, order, dead, i) && i < |order|
    ensures Distinct(order) && order[i] in s.refs && order[i] !in dead
    ensures if s.refs[order[i]].owner.Some? then Swept(s, order, dead, i + 1)
            else Swept(s, order[..i] + order[i + 1..], dead + {order[i]}, i)
  {
    KeepTwice(s.order, dead, {order[i]});
    KeepOne(order, i);
    KeepMembers(order, {order[i]});
    KeepMembers(s.order, dead);
  }

  lemma SweptAll(s: Table, order: seq<Addr>, dead: set<Addr>)
    requires Swept(s, order, dead, |order|)
    ensures Table(s.refs - dead, order, s.frames) == Apply(s, ClearGlobals)
  {
    KeepMembers(s.order, dead);
    var gone := set a | a in s.order && a in s.refs && s.refs[a].owner.None?;
    assert dead == gone && ClearOp(s) == s.(order := Keep(s.order, gone), refs := s.refs - gone);
  }

  lemma DistinctPrefix(slots: seq<Addr>, i: nat)
    requires Distinct(slots) && i < |slots|
    ensures slots[i] in slots && slots[i] !in slots[..i]
    ensures Members(slots[..i + 1]) == Members(slots[..i]) + {slots[i]}
  {
  }

  class List {
    var refs: map<Addr, Ref>
    var head: Option<Addr>
    var next: map<Addr, Option<Addr>>
    var frames: map<Tid, seq<Frame>>
    ghost var order: seq<Addr>

    ghost function State(): Table
      reads this
    {
      Table(refs, order, frames)
    }

    ghost predicate Valid()
      reads this
    {
      Inv(State()) && Threaded(head, next, order)
    }

    constructor ()
      ensures Valid() && State() == Table(map[], [], map[])
    {
      refs, head, next, frames, order := map[], None, map[], map[], [];
    }

    /** `__find`: walk the list for an address. */
    method Find(a: Addr) returns (found: bool)
      requires Threaded(head, next, order)
      ensures found <==> a in order
    {
      var cursor := head;
      ghost var i := 0;
      while cursor.Some?
        invariant i <= |order| && a !in order[..i] && Threaded(cursor, next, order[i..])
        decreases |order| - i
      {
        if cursor.value == a {
          return true;
        }
        assert order[i..][1..] == order[i + 1..];
        cursor := next[cursor.value];
        i := i + 1;
      }
      found := false;
    }

    /** Redirect the link that points at the record `a`, which `previous` holds, or the head. */
    method CutOut(a: Addr, previous: Option<Addr>, ghost i: nat) returns (rest: Option<Addr>)
      requires Threaded(head, next, order) && Distinct(order) && i < |order| && order[i] == a
      requires previous == if i == 0 then None else Some(order[i - 1])
      modifies this`head, this`next, this`order
      ensures order == old(order)[..i] + old(order)[i + 1..] && Threaded(head, next, order)
      ensures Threaded(rest, next, order[i..])
    {
      ThreadedCut(head, next, order, i);
      rest := next[a];
      if previous.None? {
        head := rest;
        order := order[1..];
        assert old(order)[..0] + old(order)[1..] == order && order[0..] == order;
      } else {
        next := next[previous.value := rest];
        order := order[..i] + order[i + 1..];
        ThreadedTail(head, next, order, i);
      }
    }

    /** `__unlink`: redirect the link that points at the record and mark the record invalid. */
    method UnlinkRef(a: Addr)
      requires Threaded(head, next, order) && Distinct(order) && a in order && a in refs
      modifies this`refs, this`head, this`next, this`order
      ensures Threaded(head, next, order) && State() == Unlink(old(State()), a)
    {
      var previous: Option<Addr> := None;
      var cursor := head;
      ghost var i := 0;
      while cursor != Some(a)
        invariant i < |order| && a in order[i..] && Threaded(cursor, next, order[i..])
        invariant previous == if i == 0 then None else Some(order[i - 1])
        decreases |order| - i
      {
        assert order[i..][1..] == order[i + 1..];
        previous := cursor;
        cursor := next[cursor.value];
        i := i + 1;
      }
      KeepOne(order, i);
      var _ := CutOut(a, previous, i);
      refs := refs[a := refs[a].(target := 0, kind := Invalid)];
    }

    /** Lines 157-163: fill a record and put it at the head of the list. */
    method LinkRef(a: Addr, r: Ref)
      requires Threaded(head, next, order) && a !in order
      modifies this`refs, this`head, this`next, this`order
      ensures Threaded(head, next, order) && State() == Link(old(State()), a, r)
    {
      refs := refs[a := r];
      ghost var was := next;
      next := next[a := head];
      ThreadedFrame(head, was, next, order);
      head := Some(a);
      ghost var longer := [a] + order;
      assert longer[1..] == order;
      order := longer;
    }

    /** `jni_refs_delete`. */
    method DeleteRef(current: Tid, a: Addr, kind: Kind)
      requires Valid()
      modifies this
      ensures Valid() && State() == Delete(old(State()), current, a, kind)
    {
      hide Inv;
      DeleteKeeps(State(), current, a, kind);
      ListedLive(State());
      var found := Find(a);
      if !found || refs[a].kind != kind || !Visible(refs[a], current) {
        return;
      }
      UnlinkRef(a);
      if kind != Local {
        refs := refs - {a};
      }
      assert State() == Delete(old(State()), current, a, kind);
    }

    /** The search of lines 134-140 through the frame's blocks. */
    method FindFree(slots: seq<Addr>) returns (i: nat)
      requires forall a :: a in slots ==> a in refs
      ensures i == FirstFree(refs, slots)
    {
      i := 0;
      while i < |slots| && refs[slots[i]].kind != Invalid
        invariant i <= |slots| && FirstFree(refs, slots) == i + FirstFree(refs, slots[i..])
        decreases |slots| - i
      {
        assert slots[i..][1..] == slots[i + 1..];
        i := i + 1;
      }
    }

    /** Lines 205-209 over a frame's slots: unlink the live ones. */
    method UnlinkSlots(slots: seq<Addr>)
      requires Threaded(head, next, order) && Distinct(order) && Distinct(slots)
      requires forall a :: a in slots ==> a in refs && (refs[a].kind != Invalid <==> a in order)
      modifies this`refs, this`head, this`next, this`order
      ensures Threaded(head, next, order) && order == Keep(old(order), Members(slots))
      ensures refs.Keys == old(refs.Keys) && forall a :: a in refs && a !in slots ==> refs[a] == old(refs)[a]
    {
      var i := 0;
      KeepNothing(order, Members(slots[..0]));
      while i < |slots|
        invariant i <= |slots| && Threaded(head, next, order) && Distinct(order)
        invariant order == Keep(old(order), Members(slots[..i]))
        invariant refs.Keys == old(refs.Keys)
        invariant forall a :: a in refs && a !in slots[..i] ==> refs[a] == old(refs)[a]
      {
        DistinctPrefix(slots, i);
        KeepTwice(old(order), Members(slots[..i]), {slots[i]});
        KeepMembers(old(order), Members(slots[..i]));
        KeepMembers(order, {slots[i]});
        if refs[slots[i]].kind != Invalid {
          UnlinkRef(slots[i]);
        } else {
          KeepNothing(order, {slots[i]});
        }
        i := i + 1;
      }
      assert slots[..i] == slots;
    }

    /** `__pop_frame`: unlink the live slots, then free the blocks and the frame. */
    method PopCurrent(t: Tid)
      requires Valid() && FramesOf(State(), t) != []
      modifies this
      ensures Valid() && State() == PopFrame(old(State()), t)
    {
      PopFrameKeeps(State(), t);
      SlotFacts(State(), t);
      hide Inv;
      var fs := frames[t];
      var slots := fs[|fs| - 1].slots;
      frames := frames[t := fs[..|fs| - 1]];
      UnlinkSlots(slots);
      refs := refs - Members(slots);
      assert refs == old(refs) - Members(slots);
    }

    /** What the pop loop needs of the frame it takes apart. */
    static lemma SlotFacts(s: Table, t: Tid)
      requires Inv(s) && FramesOf(s, t) != []
      ensures Distinct(s.order) && Distinct(Top(s, t).slots)
      ensures forall a :: a in Top(s, t).slots ==> a in s.refs && (s.refs[a].kind != Invalid <==> a in s.order)
    {
      assert HasFrame(s.frames, t, |s.frames[t]| - 1);
    }

    /** `jni_refs_pop`: a native boundary stays. */
    method PopRefs(t: Tid)
      requires Valid()
      modifies this
      ensures Valid() && State() == Apply(old(State()), PopOne(t))
    {
      hide Inv, Threaded, Keep, Slots;
      if t in frames && frames[t] != [] && !frames[t][|frames[t]| - 1].boundary {
        PopCurrent(t);
      }
    }

    /** `jni_refs_push`, and `jni_refs_enter_native`, which marks the frame: `block` is what the allocator returns. */
    method PushRefs(t: Tid, capacity: int, block: Option<seq<Addr>>, native: bool) returns (ok: bool)
      requires Valid() && (capacity >= 0 ==> BlockFits(State(), block, Larger(capacity, 1)))
      modifies this`refs, this`frames
      ensures Valid() && ok == (capacity >= 0 && block.Some?)
      ensures State() ==
              Apply(old(State()), if native then EnterNative(t, capacity, block) else PushFrame(t, capacity, block))
    {
      OpKeeps(State(), if native then EnterNative(t, capacity, block) else PushFrame(t, capacity, block));
      hide Inv, Threaded, Fresh;
      if capacity < 0 || block.None? {
        return false;
      }
      refs := Blank(refs, block.value);
      frames := frames[t := (if t in frames then frames[t] else []) + [Frame(block.value, native)]];
      ok := true;
    }

    /** `jni_refs_new` for a global reference: a record of its own at the head of the list. */
    method NewGlobalRef(target: nat, kind: Kind, record: Option<Addr>) returns (a: Option<Addr>)
      requires Valid() && Enabled(State(), NewGlobal(target, kind, record))
      modifies this`refs, this`head, this`next, this`order
      ensures Valid() && State() == Apply(old(State()), NewGlobal(target, kind, record))
      ensures a == if target == 0 then None else record
    {
      OpKeeps(State(), NewGlobal(target, kind, record));
      ListedLive(State());
      hide Inv;
      if target == 0 || record.None? {
        return None;
      }
      LinkRef(record.value, Ref(target, kind, None, 0));
      a := record;
    }

    /** `jni_refs_clear_globals`: the walk that cuts out and frees every record without an owner. */
    method ClearGlobalRefs()
      requires Valid()
      modifies this`refs, this`head, this`next, this`order
      ensures Valid() && State() == Apply(old(State()), ClearGlobals)
    {
      hide Inv, Threaded, Distinct, Keep, ClearOp;
      OpKeeps(State(), ClearGlobals);
      ListedLive(State());
      ghost var s, dead: set<Addr>, i := State(), {}, 0;
      KeepNothing(order, {});
      var previous: Option<Addr>, cursor := None, head;
      assert order[0..] == order;
      while cursor.Some?
        invariant i <= |order| && Threaded(head, next, order) && Threaded(cursor, next, order[i..])
        invariant previous == if i == 0 then None else Some(order[i - 1])
        invariant refs == s.refs - dead && Swept(s, order, dead, i)
        decreases |order| - i
      {
        CursorIs(cursor, next, order, i);
        SweptOn(s, order, dead, i);
        var a := cursor.value;
        if refs[a].owner.Some? {
          previous, cursor := cursor, next[a];
          i := i + 1;
        } else {
          cursor := CutOut(a, previous, i);
          refs := refs - {a};
          dead := dead + {a};
          assert refs == s.refs - dead;
        }
      }
      CursorIs(cursor, next, order, i);
      SweptAll(s, order, dead);
    }

    /** `jni_refs_leave_native`: the loop down to the boundary, and the boundary. */
    method LeaveNativeCall(t: Tid)
      requires Valid()
      modifies this
      ensures Valid() && State() == LeaveNative(old(State()), t)
    {
      hide Inv, Threaded, Keep, Slots;
      while t in frames && frames[t] != [] && !frames[t][|frames[t]| - 1].boundary
        invariant Valid() && LeaveNative(State(), t) == LeaveNative(old(State()), t)
        decreases |FramesOf(State(), t)|
      {
        PopCurrent(t);
      }
      if t in frames && frames[t] != [] {
        PopCurrent(t);
      }
    }

    /** The frame loop of `jni_refs_cleanup`. */
    method CleanupFrames(t: Tid)
      requires Valid()
      modifies this
      ensures Valid() && State() == Cleanup(old(State()), t)
    {
      hide Inv, Threaded, Keep, Slots;
      while t in frames && frames[t] != []
        invariant Valid() && Cleanup(State(), t) == Cleanup(old(State()), t)
        decreases |FramesOf(State(), t)|
      {
        PopCurrent(t);
      }
    }

    /** The counting loop of `jni_refs_ensure` (lines 118-123). */
    method CountFree(slots: seq<Addr>) returns (available: nat)
      requires forall a :: a in slots ==> a in refs
      ensures available == Available(refs, slots)
    {
      available := 0;
      var i := 0;
      while i < |slots|
        invariant i <= |slots| && Available(refs, slots) == available + Available(refs, slots[i..])
      {
        assert slots[i..][1..] == slots[i + 1..];
        if refs[slots[i]].kind == Invalid {
          available := available + 1;
        }
        i := i + 1;
      }
    }

    /** Lines 134-163: link the first free slot of the current frame, if there is one. */
    method LinkFree(t: Tid, target: nat, serial: nat) returns (a: Option<Addr>)
      requires Valid()
      modifies this`refs, this`head, this`next, this`order
      ensures Valid()
      ensures a.Some? <==> HasRoom(old(State()), t, 1)
      ensures a.None? ==> State() == old(State())
      ensures a.Some? ==> a.value == FreeSlot(old(State()), t)
      ensures a.Some? ==> State() == Link(old(State()), a.value, Ref(target, Local, Some(t), serial))
    {
      if t !in frames || frames[t] == [] {
        return None;
      }
      SlotFacts(State(), t);
      var slots := frames[t][|frames[t]| - 1].slots;
      var i := FindFree(slots);
      RoomMeansFree(refs, slots);
      if i == |slots| {
        return None;
      }
      LinkLocalKeeps(State(), t, slots[i], target, serial);
      hide Inv, Available;
      LinkRef(slots[i], Ref(target, Local, Some(t), serial));
      a := Some(slots[i]);
    }

    /** `jni_refs_new` for a local reference: make room if needed, then use the first free slot. */
    method NewLocalRef(t: Tid, target: nat, serial: nat, block: Option<seq<Addr>>) returns (a: Option<Addr>)
      requires Valid() && target != 0 && Enabled(State(), NewLocal(t, target, serial, block))
      modifies this
      ensures Valid() && State() == NewLocalOp(old(State()), t, target, serial, block)
      ensures a.Some? <==> HasRoom(EnsureOp(old(State()), t, 1, block), t, 1)
      ensures a.Some? ==> a.value == FreeSlot(EnsureOp(old(State()), t, 1, block), t)
    {
      hide Inv, EnsureOp, Threaded, FreeSlot, HasRoom, Link;
      EnsureRefs(t, 1, block);
      a := LinkFree(t, target, serial);
    }

    /** `jni_refs_ensure`. */
    method EnsureRefs(t: Tid, capacity: nat, block: Option<seq<Addr>>)
      requires Valid() && BlockFits(State(), block, Wanted(State(), t, capacity))
      modifies this`refs, this`frames
      ensures Valid() && State() == EnsureOp(old(State()), t, capacity, block)
    {
      EnsureKeeps(State(), t, capacity, block);
      EnsureRoom(t, capacity, block);
      hide Inv, EnsureOp, Threaded;
    }

    /** The lines 114-125 of `jni_refs_ensure`. */
    method EnsureRoom(t: Tid, capacity: nat, block: Option<seq<Addr>>)
      requires Valid() && BlockFits(State(), block, Wanted(State(), t, capacity))
      modifies this`refs, this`frames
      ensures State() == EnsureOp(old(State()), t, capacity, block)
    {
      if t !in frames || frames[t] == [] {
        hide Inv, Available, Threaded, Fresh;
        if block.Some? {
          refs := Blank(refs, block.value);
          frames := frames[t := [Frame(block.value, false)]];
          assert [] + [Frame(block.value, false)] == [Frame(block.value, false)];
        }
        return;
      }
      SlotFacts(State(), t);
      hide Inv, Available, Threaded, Fresh;
      var fs := frames[t];
      var top := fs[|fs| - 1];
      var available := CountFree(top.slots);
      if available < capacity && block.Some? {
        refs := Blank(refs, block.value);
        frames := frames[t := fs[|fs| - 1 := top.(slots := block.value + top.slots)]];
      }
    }
  }
}
