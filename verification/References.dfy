/** Runs over the JNI reference table: what survives them, what a native call's boundary
    protects, and the intrusive list as code (src/bridges/jni/references.c:34-269). */
module References {
  import opened Common
  import opened ReferenceTable

  /** One call into the reference table. A `block` is what the allocator returns, if it does. */
  datatype Op =
    | PushFrame(t: Tid, capacity: int, block: Option<seq<Addr>>)
    | Ensure(t: Tid, capacity: int, block: Option<seq<Addr>>)
    | NewLocal(t: Tid, target: nat, serial: nat, block: Option<seq<Addr>>)
    | NewGlobal(target: nat, kind: Kind, record: Option<Addr>)
    | DeleteRef(current: Tid, a: Addr, kind: Kind)
    | PopOne(t: Tid)
    | EnterNative(t: Tid, capacity: int, block: Option<seq<Addr>>)
    | LeaveCall(t: Tid)
    | CleanupThread(t: Tid)
    | ClearGlobals

  function Larger(a: int, b: int): int {
    if a > b then a else b
  }

  /** How many slots `jni_refs_ensure` asks the allocator for, zero when it needs none. */
  function Wanted(s: Table, t: Tid, capacity: int): nat {
    if capacity < 0 then 0
    else if FramesOf(s, t) == [] then Larger(capacity, 32)
    else if Available(s.refs, Top(s, t).slots) >= capacity then 0
    else capacity - Available(s.refs, Top(s, t).slots)
  }

  predicate BlockFits(s: Table, block: Option<seq<Addr>>, size: nat) {
    block.Some? ==> |block.value| == size && Fresh(s, block.value)
  }

  predicate Enabled(s: Table, op: Op) {
    match op
    case PushFrame(_, capacity, block) => capacity >= 0 ==> BlockFits(s, block, Larger(capacity, 1))
    case EnterNative(_, capacity, block) => capacity >= 0 ==> BlockFits(s, block, Larger(capacity, 1))
    case Ensure(t, capacity, block) => BlockFits(s, block, Wanted(s, t, capacity))
    case NewLocal(t, _, _, block) => BlockFits(s, block, Wanted(s, t, 1))
    case NewGlobal(_, kind, record) =>
      (kind == Global || kind == WeakGlobal) && (record.Some? ==> record.value !in s.refs)
    case _ => true
  }

  function PushOp(s: Table, t: Tid, capacity: int, block: Option<seq<Addr>>, boundary: bool): Table {
    if capacity < 0 || block.None? then s else Push(s, t, block.value, boundary)
  }

  /** `jni_refs_ensure`. */
  function EnsureOp(s: Table, t: Tid, capacity: int, block: Option<seq<Addr>>): Table {
    if Wanted(s, t, capacity) == 0 || block.None? then s
    else if FramesOf(s, t) == [] then Push(s, t, block.value, false)
    else Reserve(s, t, block.value)
  }

  predicate HasRoom(s: Table, t: Tid, n: nat) {
    FramesOf(s, t) != [] && Available(s.refs, Top(s, t).slots) >= n
  }

  /** The slot `__local_slot` returns. */
  function FreeSlot(s: Table, t: Tid): (a: Addr)
    requires HasRoom(s, t, 1)
    ensures a in Top(s, t).slots && a in s.refs && s.refs[a].kind == Invalid
  {
    RoomMeansFree(s.refs, Top(s, t).slots);
    Top(s, t).slots[FirstFree(s.refs, Top(s, t).slots)]
  }

  /** `jni_refs_new` for a local reference of an attached thread; a null object makes none. */
  function NewLocalOp(s: Table, t: Tid, target: nat, serial: nat, block: Option<seq<Addr>>): Table {
    if target == 0 then s
    else
      var r := EnsureOp(s, t, 1, block);
      if HasRoom(r, t, 1) then Link(r, FreeSlot(r, t), Ref(target, Local, Some(t), serial)) else r
  }

  /** `jni_refs_clear_globals`. */
  function ClearOp(s: Table): Table {
    var dead := set a | a in s.order && a in s.refs && s.refs[a].owner.None?;
    s.(order := Keep(s.order, dead), refs := s.refs - dead)
  }

  function Apply(s: Table, op: Op): Table {
    match op
    case PushFrame(t, capacity, block) => PushOp(s, t, capacity, block, false)
    case EnterNative(t, capacity, block) => PushOp(s, t, capacity, block, true)
    case Ensure(t, capacity, block) => EnsureOp(s, t, capacity, block)
    case NewLocal(t, target, serial, block) => NewLocalOp(s, t, target, serial, block)
    case NewGlobal(target, kind, record) =>
      if target == 0 || record.None? then s else Link(s, record.value, Ref(target, kind, None, 0))
    case DeleteRef(current, a, kind) => Delete(s, current, a, kind)
    case PopOne(t) => Pop(s, t)
    case LeaveCall(t) => LeaveNative(s, t)
    case CleanupThread(t) => Cleanup(s, t)
    case ClearGlobals => ClearOp(s)
  }

  lemma {:induction false} RoomMeansFree(refs: map<Addr, Ref>, slots: seq<Addr>)
    ensures Available(refs, slots) > 0 <==> FirstFree(refs, slots) < |slots|
  {
    if slots != [] {
      RoomMeansFree(refs, slots[1..]);
    }
  }

  // ---------------------------------------------------------------- the invariant over runs

  lemma {:induction false} LeaveKeeps(s: Table, t: Tid)
    requires Inv(s)
    ensures Inv(LeaveNative(s, t))
    decreases |FramesOf(s, t)|
  {
    hide Inv;
    PopFrameKeeps(s, t);
    if FramesOf(s, t) != [] && !Top(s, t).boundary {
      LeaveKeeps(PopFrame(s, t), t);
    }
  }

  lemma {:induction false} CleanupKeeps(s: Table, t: Tid)
    requires Inv(s)
    ensures Inv(Cleanup(s, t)) && FramesOf(Cleanup(s, t), t) == []
    decreases |FramesOf(s, t)|
  {
    hide Inv;
    if FramesOf(s, t) != [] {
      PopFrameKeeps(s, t);
      CleanupKeeps(PopFrame(s, t), t);
    }
  }

  lemma EnsureKeeps(s: Table, t: Tid, capacity: int, block: Option<seq<Addr>>)
    requires Inv(s) && BlockFits(s, block, Wanted(s, t, capacity))
    ensures Inv(EnsureOp(s, t, capacity, block))
  {
    hide Inv;
    if Wanted(s, t, capacity) > 0 && block.Some? {
      if FramesOf(s, t) == [] {
        PushKeeps(s, t, block.value, false);
      } else {
        ReserveKeeps(s, t, block.value);
      }
    }
  }

  lemma ClearKeeps(s: Table)
    requires Inv(s)
    ensures Inv(ClearOp(s))
  {
    var dead := set a | a in s.order && a in s.refs && s.refs[a].owner.None?;
    var r := ClearOp(s);
    KeepMembers(s.order, dead);
    forall b | b in r.order && r.refs[b].owner.Some?
      ensures exists d :: HasFrame(r.frames, r.refs[b].owner.value, d) && b in r.frames[r.refs[b].owner.value][d].slots
    {
      var d :| HasFrame(s.frames, s.refs[b].owner.value, d) && b in s.frames[s.refs[b].owner.value][d].slots;
    }
  }

  /** Every call keeps the table consistent: the list holds each live reference once, slots are
      in use exactly when listed, and an owned reference sits in a frame of its owner. */
  lemma OpKeeps(s: Table, op: Op)
    requires Inv(s) && Enabled(s, op)
    ensures Inv(Apply(s, op))
  {
    hide Inv;
    match op
    case PushFrame(t, capacity, block) => if capacity >= 0 && block.Some? { PushKeeps(s, t, block.value, false); }
    case EnterNative(t, capacity, block) => if capacity >= 0 && block.Some? { PushKeeps(s, t, block.value, true); }
    case Ensure(t, capacity, block) => EnsureKeeps(s, t, capacity, block);
    case NewLocal(t, target, serial, block) =>
      EnsureKeeps(s, t, 1, block);
      var r := EnsureOp(s, t, 1, block);
      if HasRoom(r, t, 1) { LinkLocalKeeps(r, t, FreeSlot(r, t), target, serial); }
    case NewGlobal(target, kind, record) => if record.Some? { LinkGlobalKeeps(s, record.value, target, kind); }
    case DeleteRef(current, a, kind) => DeleteKeeps(s, current, a, kind);
    case PopOne(t) => PopFrameKeeps(s, t);
    case LeaveCall(t) => LeaveKeeps(s, t);
    case CleanupThread(t) => CleanupKeeps(s, t);
    case ClearGlobals => ClearKeeps(s);
  }

  function Run(s: Table, ops: seq<Op>): Table
    decreases |ops|
  {
    if ops == [] then s else Run(Apply(s, ops[0]), ops[1..])
  }

  predicate Runs(s: Table, ops: seq<Op>)
    decreases |ops|
  {
    ops == [] || (Enabled(s, ops[0]) && Runs(Apply(s, ops[0]), ops[1..]))
  }

  lemma {:induction false} RunKeeps(s: Table, ops: seq<Op>)
    requires Inv(s) && Runs(s, ops)
    ensures Inv(Run(s, ops))
    decreases |ops|
  {
    hide Inv, Apply, Enabled;
    if ops != [] {
      OpKeeps(s, ops[0]);
      RunKeeps(Apply(s, ops[0]), ops[1..]);
    }
  }

  /** From an empty table, after any calls by any threads in any order: no reference is listed
      twice, every listed one is live, and the owned ones are exactly the used slots of their
      owners' frames. */
  lemma EveryRunIsConsistent(ops: seq<Op>)
    requires Runs(Table(map[], [], map[]), ops)
    ensures var s := Run(Table(map[], [], map[]), ops);
            && Distinct(s.order)
            && (forall a :: a in s.order ==> a in s.refs && s.refs[a].kind != Invalid)
            && (forall t, a ::
                 (a in s.order && a in s.refs && s.refs[a].owner == Some(t)) <==>
                 (exists d :: HasFrame(s.frames, t, d) && a in s.frames[t][d].slots && a in s.refs &&
                     s.refs[a].kind != Invalid))
  {
    RunKeeps(Table(map[], [], map[]), ops);
  }

  // ---------------------------------------------------------------- frames going away

  /** Popping a frame removes exactly its live references, from the list and from memory. */
  lemma PopRemovesExactly(s: Table, t: Tid, a: Addr)
    requires Inv(s) && FramesOf(s, t) != []
    ensures var r := PopFrame(s, t);
            && (a in r.order <==> a in s.order && a !in Top(s, t).slots)
            && (a in r.refs <==> a in s.refs && a !in Top(s, t).slots)
            && (a in r.refs ==> r.refs[a] == s.refs[a])
            && FramesOf(r, t) == FramesOf(s, t)[..|FramesOf(s, t)| - 1]
  {
    KeepMembers(s.order, Slots(Top(s, t)));
  }

  /** A thread that has cleaned up owns nothing any more. */
  lemma CleanupLeavesNothing(s: Table, t: Tid)
    requires Inv(s)
    ensures var r := Cleanup(s, t);
            FramesOf(r, t) == [] && forall a :: a in r.order ==> a in r.refs && r.refs[a].owner != Some(t)
  {
    CleanupKeeps(s, t);
    var r := Cleanup(s, t);
    forall a | a in r.order
      ensures a in r.refs && r.refs[a].owner != Some(t)
    {
    }
  }

  // ---------------------------------------------------------------- room for local references

  lemma {:induction false} AvailableAppend(refs: map<Addr, Ref>, p: seq<Addr>, q: seq<Addr>)
    ensures Available(refs, p + q) == Available(refs, p) + Available(refs, q)
  {
    if p == [] {
      assert p + q == q;
    } else {
      assert (p + q)[1..] == p[1..] + q;
      AvailableAppend(refs, p[1..], q);
    }
  }

  lemma {:induction false} AvailableBlank(refs: map<Addr, Ref>, block: seq<Addr>, part: seq<Addr>)
    requires forall a :: a in part ==> a in block
    ensures Available(Blank(refs, block), part) == |part|
  {
    if part != [] {
      AvailableBlank(refs, block, part[1..]);
    }
  }

  lemma {:induction false} AvailableSame(refs: map<Addr, Ref>, after: map<Addr, Ref>, slots: seq<Addr>)
    requires forall a :: a in slots ==>
               (a in after && after[a].kind == Invalid <==> a in refs && refs[a].kind == Invalid)
    ensures Available(after, slots) == Available(refs, slots)
  {
    if slots != [] {
      AvailableSame(refs, after, slots[1..]);
    }
  }

  /** Using the first free slot leaves one fewer. */
  lemma {:induction false} AvailableTake(refs: map<Addr, Ref>, slots: seq<Addr>, i: nat, r: Ref)
    requires i < |slots| && slots[i] in refs && refs[slots[i]].kind == Invalid && r.kind != Invalid && Distinct(slots)
    ensures Available(refs[slots[i] := r], slots) == Available(refs, slots) - 1
  {
    if i == 0 {
      AvailableSame(refs, refs[slots[0] := r], slots[1..]);
    } else {
      AvailableTake(refs, slots[1..], i - 1, r);
    }
  }

  /** After a successful `jni_refs_ensure(n)` there is room for `n` in the current frame. */
  lemma EnsureMakesRoom(s: Table, t: Tid, n: nat, block: Option<seq<Addr>>)
    requires Inv(s) && BlockFits(s, block, Wanted(s, t, n)) && (Wanted(s, t, n) == 0 || block.Some?)
    requires n > 0
    ensures HasRoom(EnsureOp(s, t, n, block), t, n)
  {
    if Wanted(s, t, n) > 0 {
      AvailableBlank(s.refs, block.value, block.value);
      if FramesOf(s, t) != [] {
        var slots := Top(s, t).slots;
        assert HasFrame(s.frames, t, |s.frames[t]| - 1);
        AvailableAppend(Blank(s.refs, block.value), block.value, slots);
        AvailableSame(s.refs, Blank(s.refs, block.value), slots);
      }
    }
  }

  /** The references made by consecutive `jni_refs_new` calls that get no memory. */
  function NewLocals(s: Table, t: Tid, targets: seq<nat>): Table
    decreases |targets|
  {
    if targets == [] then s else NewLocals(NewLocalOp(s, t, targets[0], 0, None), t, targets[1..])
  }

  /** One local reference with room for it: the first free slot is taken, and the room shrinks by one. */
  lemma RoomTaken(s: Table, t: Tid, target: nat, n: nat)
    requires Inv(s) && HasRoom(s, t, n + 1) && FramesOf(s, t) != [] && target != 0
    ensures HasRoom(s, t, 1)
    ensures var next := Link(s, FreeSlot(s, t), Ref(target, Local, Some(t), 0));
            && NewLocalOp(s, t, target, 0, None) == next && Inv(next) && HasRoom(next, t, n)
            && FreeSlot(s, t) !in s.order
  {
    var a := FreeSlot(s, t);
    LinkLocalKeeps(s, t, a, target, 0);
    var slots := Top(s, t).slots;
    assert HasFrame(s.frames, t, |s.frames[t]| - 1);
    RoomMeansFree(s.refs, slots);
    AvailableTake(s.refs, slots, FirstFree(s.refs, slots), Ref(target, Local, Some(t), 0));
  }

  /** That room is enough: the next `n` local references of the frame need no allocation, all
      succeed, no slot moves and no earlier reference changes. */
  lemma {:induction false} RoomSuffices(s: Table, t: Tid, targets: seq<nat>)
    requires Inv(s) && HasRoom(s, t, |targets|) && FramesOf(s, t) != []
    requires forall k :: 0 <= k < |targets| ==> targets[k] != 0
    ensures var r := NewLocals(s, t, targets);
            && r.frames == s.frames
            && |r.order| == |s.order| + |targets| && r.order[|targets|..] == s.order
            && (forall k :: 0 <= k < |targets| ==>
                 r.order[k] in r.refs && r.refs[r.order[k]] == Ref(targets[|targets| - 1 - k], Local, Some(t), 0))
            && (forall a :: a in s.order ==> a in r.refs && r.refs[a] == s.refs[a])
    decreases |targets|
  {
    hide Inv, HasRoom, FreeSlot, NewLocalOp;
    ListedLive(s);
    if targets != [] {
      RoomTaken(s, t, targets[0], |targets| - 1);
      var a, next := FreeSlot(s, t), NewLocalOp(s, t, targets[0], 0, None);
      RoomSuffices(next, t, targets[1..]);
      OrderShift(NewLocals(s, t, targets).order, a, s.order, |targets|);
      assert a in next.order;
    }
  }

  lemma OrderShift(order: seq<Addr>, a: Addr, rest: seq<Addr>, n: nat)
    requires 0 < n <= |order| && order[n - 1..] == [a] + rest
    ensures order[n..] == rest && order[n - 1] == a
  {
    assert order[n..] == order[n - 1..][1..] && order[n - 1] == order[n - 1..][0];
  }

  // ---------------------------------------------------------------- the native boundary

  /** How many native calls are in progress above the start of `fs`. */
  function Boundaries(fs: seq<Frame>): nat {
    if fs == [] then 0 else Boundaries(fs[..|fs| - 1]) + if fs[|fs| - 1].boundary then 1 else 0
  }

  /** `base`, a native boundary, and frames above it with `depth` nested native calls. */
  predicate Within(fs: seq<Frame>, base: seq<Frame>, depth: nat) {
    |base| < |fs| && fs[..|base|] == base && fs[|base|].boundary && Boundaries(fs[|base| + 1..]) == depth
  }

  /** The thread's frames. */
  predicate Inside(s: Table, t: Tid, base: seq<Frame>, depth: nat) {
    Within(FramesOf(s, t), base, depth)
  }

  /** The call begins a native call of the thread. */
  predicate Enters(op: Op, t: Tid) {
    op.EnterNative? && op.t == t && op.capacity >= 0 && op.block.Some?
  }

  /** Inside `depth` nested native calls only those can be left, and the thread does not clean up. */
  predicate Allowed(op: Op, t: Tid, depth: nat) {
    match op
    case LeaveCall(u) => u == t ==> depth > 0
    case CleanupThread(u) => u != t
    case _ => true
  }

  /** The nesting after a call. */
  function After(op: Op, t: Tid, depth: nat): nat
    requires Allowed(op, t, depth)
  {
    if Enters(op, t) then depth + 1 else if op == LeaveCall(t) then depth - 1 else depth
  }

  /** Taking the top frame off: one native call less exactly when it is a boundary. */
  lemma BoundariesPop(fs: seq<Frame>, n: nat)
    requires n < |fs|
    ensures Boundaries(fs[n..]) == Boundaries(fs[..|fs| - 1][n..]) + if fs[|fs| - 1].boundary then 1 else 0
  {
    assert fs[n..][..|fs| - n - 1] == fs[..|fs| - 1][n..];
  }

  /** Boundaries are counted by position only. */
  lemma SameShape(fs: seq<Frame>, gs: seq<Frame>, n: nat)
    requires n <= |fs| == |gs| && forall d :: n <= d < |fs| ==> fs[d].boundary == gs[d].boundary
    ensures Boundaries(fs[n..]) == Boundaries(gs[n..])
    decreases |fs|
  {
    if n < |fs| {
      BoundariesPop(fs, n);
      BoundariesPop(gs, n);
      SameShape(fs[..|fs| - 1], gs[..|gs| - 1], n);
    }
  }

  /** A frame is pushed, an ordinary one popped, or only slots are added to the top one. */
  predicate Stepped(fs: seq<Frame>, gs: seq<Frame>, enters: bool) {
    || (|gs| == |fs| > 0 && gs[..|fs| - 1] == fs[..|fs| - 1] && gs[|fs| - 1].boundary == fs[|fs| - 1].boundary &&
           !enters)
    || (|gs| == |fs| + 1 && gs[..|fs|] == fs && gs[|fs|].boundary == enters)
    || (|fs| > 0 && gs == fs[..|fs| - 1] && !fs[|fs| - 1].boundary && !enters)
  }

  lemma SteppedWithin(fs: seq<Frame>, gs: seq<Frame>, base: seq<Frame>, depth: nat, enters: bool)
    requires Within(fs, base, depth) && Stepped(fs, gs, enters)
    ensures Within(gs, base, if enters then depth + 1 else depth)
  {
    var n := |base| + 1;
    if |gs| == |fs| {
      forall d | n <= d < |fs|
        ensures fs[d].boundary == gs[d].boundary
      {
        assert d < |fs| - 1 ==> gs[..|fs| - 1][d] == fs[..|fs| - 1][d];
      }
      SameShape(fs, gs, n);
      assert gs[..|base|] == gs[..|fs| - 1][..|base|];
    } else if |gs| > |fs| {
      BoundariesPop(gs, n);
      assert gs[..|base|] == gs[..|fs|][..|base|];
      assert gs[|base|] == gs[..|fs|][|base|];
    } else {
      BoundariesPop(fs, n);
      assert |fs| > n;
      assert gs[..|base|] == fs[..|base|];
    }
  }

  lemma {:induction false} LeaveOthers(s: Table, u: Tid, t: Tid)
    ensures u != t ==> FramesOf(LeaveNative(s, u), t) == FramesOf(s, t)
    decreases |FramesOf(s, u)|
  {
    if FramesOf(s, u) != [] && !Top(s, u).boundary {
      LeaveOthers(PopFrame(s, u), u, t);
    }
  }

  lemma {:induction false} CleanupOthers(s: Table, u: Tid, t: Tid)
    ensures u != t ==> FramesOf(Cleanup(s, u), t) == FramesOf(s, t)
    decreases |FramesOf(s, u)|
  {
    if FramesOf(s, u) != [] {
      CleanupOthers(PopFrame(s, u), u, t);
    }
  }

  /** Leaving a nested native call ends that one only. */
  lemma {:induction false} LeaveNested(s: Table, t: Tid, base: seq<Frame>, depth: nat)
    requires Inside(s, t, base, depth) && depth > 0
    ensures Inside(LeaveNative(s, t), t, base, depth - 1)
    decreases |FramesOf(s, t)|
  {
    var fs := FramesOf(s, t);
    assert |fs| > |base| + 1;
    BoundariesPop(fs, |base| + 1);
    assert fs[..|fs| - 1][..|base|] == base;
    if !Top(s, t).boundary {
      LeaveNested(PopFrame(s, t), t, base, depth);
    }
  }

  /** No call gets below the boundary frame, and every call keeps count of the nested ones. */
  lemma BoundaryHolds(s: Table, op: Op, t: Tid, base: seq<Frame>, depth: nat)
    requires Inside(s, t, base, depth) && Allowed(op, t, depth)
    ensures Inside(Apply(s, op), t, base, After(op, t, depth))
  {
    if op == LeaveCall(t) {
      LeaveNested(s, t, base, depth);
    } else {
      FrameStep(s, op, t);
      hide Within, Apply, Stepped;
      SteppedWithin(FramesOf(s, t), FramesOf(Apply(s, op), t), base, depth, Enters(op, t));
    }
  }

  /** What a call other than leaving or cleaning up does to the thread's frames. */
  lemma FrameStep(s: Table, op: Op, t: Tid)
    requires FramesOf(s, t) != [] && op != LeaveCall(t) && op != CleanupThread(t)
    ensures Stepped(FramesOf(s, t), FramesOf(Apply(s, op), t), Enters(op, t))
  {
    hide Available, Keep, FreeSlot;
    match op
    case LeaveCall(u) => LeaveOthers(s, u, t);
    case CleanupThread(u) => CleanupOthers(s, u, t);
    case PushFrame(_, _, _) => hide Available;
    case EnterNative(_, _, _) => hide Available;
    case Ensure(_, _, _) => hide Available, Blank;
    case NewLocal(_, _, _, _) => hide Available, Blank, FreeSlot;
    case NewGlobal(_, _, _) => hide Available;
    case DeleteRef(_, _, _) => hide Keep;
    case PopOne(_) => hide Keep;
    case ClearGlobals => hide Keep;
  }

  /** Leaving pops back to exactly the caller's frames. */
  lemma {:induction false} LeaveReturns(s: Table, t: Tid, base: seq<Frame>)
    requires Inside(s, t, base, 0)
    ensures FramesOf(LeaveNative(s, t), t) == base
    decreases |FramesOf(s, t)|
  {
    var fs := FramesOf(s, t);
    if |fs| > |base| + 1 {
      BoundariesPop(fs, |base| + 1);
      assert fs[..|fs| - 1][..|base|] == base;
    }
    if !Top(s, t).boundary {
      LeaveReturns(PopFrame(s, t), t, base);
    }
  }

  predicate InBase(base: seq<Frame>, a: Addr) {
    exists d :: 0 <= d < |base| && a in base[d].slots
  }

  /** The call is a `DeleteLocalRef` of `a` that takes effect. */
  predicate DeletesIt(s: Table, op: Op, a: Addr) {
    op.DeleteRef? && op.a == a && Deletes(s, op.current, a, op.kind)
  }

  /** Slots of the caller's frames are in no other frame. */
  lemma BaseIsApart(s: Table, t: Tid, base: seq<Frame>, depth: nat, a: Addr)
    requires Inv(s) && Inside(s, t, base, depth) && InBase(base, a)
    ensures a in s.refs && (a in s.order ==> s.refs[a].owner == Some(t))
    ensures forall u, d :: HasFrame(s.frames, u, d) && a in s.frames[u][d].slots ==> u == t && d < |base|
  {
    var b :| 0 <= b < |base| && a in base[b].slots;
    assert s.frames[t][b] == base[b] by { assert s.frames[t][..|base|][b] == base[b]; }
    assert HasFrame(s.frames, t, b) && a in Slots(s.frames[t][b]);
    forall u, d | HasFrame(s.frames, u, d) && a in s.frames[u][d].slots
      ensures u == t && d < |base|
    {
      assert a in Slots(s.frames[u][d]);
    }
  }

  lemma PopSpares(s: Table, u: Tid, a: Addr)
    requires FramesOf(s, u) != [] ==> a !in Top(s, u).slots
    ensures var r := PopFrame(s, u);
            && (a in r.order <==> a in s.order) && (a in r.refs <==> a in s.refs)
            && (a in r.refs ==> r.refs[a] == s.refs[a])
  {
    if FramesOf(s, u) != [] {
      KeepMembers(s.order, Slots(Top(s, u)));
    }
  }

  lemma {:induction false} LeaveSpares(s: Table, u: Tid, a: Addr)
    requires forall d :: HasFrame(s.frames, u, d) ==> a !in s.frames[u][d].slots
    ensures var r := LeaveNative(s, u);
            && (a in r.order <==> a in s.order) && (a in r.refs <==> a in s.refs)
            && (a in r.refs ==> r.refs[a] == s.refs[a])
    decreases |FramesOf(s, u)|
  {
    assert FramesOf(s, u) != [] ==> HasFrame(s.frames, u, |s.frames[u]| - 1);
    PopSpares(s, u, a);
    if FramesOf(s, u) != [] && !Top(s, u).boundary {
      LeaveSpares(PopFrame(s, u), u, a);
    }
  }

  lemma {:induction false} CleanupSpares(s: Table, u: Tid, a: Addr)
    requires forall d :: HasFrame(s.frames, u, d) ==> a !in s.frames[u][d].slots
    ensures var r := Cleanup(s, u);
            && (a in r.order <==> a in s.order) && (a in r.refs <==> a in s.refs)
            && (a in r.refs ==> r.refs[a] == s.refs[a])
    decreases |FramesOf(s, u)|
  {
    if FramesOf(s, u) != [] {
      assert HasFrame(s.frames, u, |s.frames[u]| - 1);
      PopSpares(s, u, a);
      CleanupSpares(PopFrame(s, u), u, a);
    }
  }

  /** Calls inside a native call leave the caller's references alone, except by deleting them. */
  lemma TopIsApart(s: Table, t: Tid, base: seq<Frame>, depth: nat, a: Addr)
    requires Inv(s) && Inside(s, t, base, depth) && InBase(base, a)
    ensures a in s.refs && (a in s.order ==> s.refs[a].owner == Some(t))
    ensures forall u, d :: HasFrame(s.frames, u, d) && a in s.frames[u][d].slots ==> u == t && d < |base|
    ensures forall u :: FramesOf(s, u) != [] ==> a !in Top(s, u).slots
  {
    BaseIsApart(s, t, base, depth, a);
    forall u | FramesOf(s, u) != []
      ensures a !in Top(s, u).slots
    {
      assert HasFrame(s.frames, u, |s.frames[u]| - 1);
    }
  }

  lemma PushSpares(s: Table, u: Tid, capacity: int, block: Option<seq<Addr>>, boundary: bool, a: Addr)
    requires (capacity >= 0 ==> BlockFits(s, block, Larger(capacity, 1))) && a in s.refs
    ensures var r := PushOp(s, u, capacity, block, boundary);
            r.order == s.order && a in r.refs && r.refs[a] == s.refs[a]
  {
  }

  lemma NewLocalSpares(s: Table, u: Tid, target: nat, serial: nat, block: Option<seq<Addr>>, a: Addr)
    requires BlockFits(s, block, Wanted(s, u, 1)) && a in s.refs
    requires FramesOf(s, u) != [] ==> a !in Top(s, u).slots
    ensures var r := NewLocalOp(s, u, target, serial, block);
            (a in r.order <==> a in s.order) && a in r.refs && r.refs[a] == s.refs[a]
  {
    EnsureSpares(s, u, 1, block, a);
    hide EnsureOp;
  }

  lemma OpSpares(s: Table, op: Op, t: Tid, base: seq<Frame>, depth: nat, a: Addr)
    requires Inv(s) && Enabled(s, op) && Inside(s, t, base, depth) && Allowed(op, t, depth) && InBase(base, a)
    ensures var r := Apply(s, op);
            && (a in r.order <==> a in s.order && !DeletesIt(s, op, a))
            && (a in r.order ==> a in r.refs && r.refs[a] == s.refs[a])
  {
    hide Inv, Inside, InBase, Available, Blank, FreeSlot, EnsureOp, PushOp, NewLocalOp, BlockFits;
    TopIsApart(s, t, base, depth, a);
    match op
    case LeaveCall(u) => if u == t { LeaveAbove(s, t, base, depth, a); } else { LeaveSpares(s, u, a); }
    case CleanupThread(u) => CleanupSpares(s, u, a);
    case PopOne(u) => PopSpares(s, u, a);
    case DeleteRef(_, b, _) => KeepMembers(s.order, {b});
    case ClearGlobals => KeepMembers(s.order, set b | b in s.order && b in s.refs && s.refs[b].owner.None?);
    case NewLocal(u, target, serial, block) => NewLocalSpares(s, u, target, serial, block, a);
    case Ensure(u, capacity, block) => EnsureSpares(s, u, capacity, block, a);
    case PushFrame(u, capacity, block) => PushSpares(s, u, capacity, block, false, a);
    case EnterNative(u, capacity, block) => PushSpares(s, u, capacity, block, true, a);
    case NewGlobal(_, _, _) =>
  }

  lemma EnsureSpares(s: Table, u: Tid, capacity: int, block: Option<seq<Addr>>, a: Addr)
    requires BlockFits(s, block, Wanted(s, u, capacity)) && a in s.refs
    requires FramesOf(s, u) != [] ==> a !in Top(s, u).slots
    ensures var r := EnsureOp(s, u, capacity, block);
            && r.order == s.order && a in r.refs && r.refs[a] == s.refs[a]
            && (FramesOf(r, u) != [] ==> a !in Top(r, u).slots)
  {
  }

  /** The calls of a native body, of this thread and of others: every native call of the thread that begins in it also
      ends in it, and none ends it. */
  predicate Body(ops: seq<Op>, t: Tid, depth: nat)
    decreases |ops|
  {
    if ops == [] then depth == 0 else Allowed(ops[0], t, depth) && Body(ops[1..], t, After(ops[0], t, depth))
  }

  /** Whether some call of the body deleted `a`. */
  predicate DeletedBy(s: Table, ops: seq<Op>, a: Addr)
    decreases |ops|
  {
    ops != [] && (DeletesIt(s, ops[0], a) || DeletedBy(Apply(s, ops[0]), ops[1..], a))
  }

  lemma {:induction false} BodySpares(s: Table, ops: seq<Op>, t: Tid, base: seq<Frame>, depth: nat, a: Addr)
    requires Inv(s) && Runs(s, ops) && Inside(s, t, base, depth) && Body(ops, t, depth) && InBase(base, a)
    ensures var r := Run(s, ops);
            && Inv(r) && Inside(r, t, base, 0)
            && (a in s.order ==> (a in r.order <==> !DeletedBy(s, ops, a)))
            && (a !in s.order ==> a !in r.order)
            && (a in r.order ==> a in r.refs && a in s.refs && r.refs[a] == s.refs[a])
    decreases |ops|
  {
    BaseIsApart(s, t, base, depth, a);
    hide Inv, Apply, Enabled, Inside, DeletesIt, Allowed, After;
    if ops != [] {
      var next := Apply(s, ops[0]);
      OpKeeps(s, ops[0]);
      BoundaryHolds(s, ops[0], t, base, depth);
      OpSpares(s, ops[0], t, base, depth, a);
      BodySpares(next, ops[1..], t, base, After(ops[0], t, depth), a);
    }
  }

  /** `enter_native`, any body with any nested native calls, `leave_native`: the caller gets back its exact frames, and
      every reference in them that the body did not explicitly delete, unchanged; nothing revives. */
  lemma NativeCallRestores(s: Table, t: Tid, capacity: nat, block: seq<Addr>, ops: seq<Op>, a: Addr)
    requires Inv(s) && BlockFits(s, Some(block), Larger(capacity, 1))
    requires Body(ops, t, 0) && Runs(Push(s, t, block, true), ops)
    ensures var entered := Push(s, t, block, true);
            var r := LeaveNative(Run(entered, ops), t);
            && FramesOf(r, t) == FramesOf(s, t)
            && (InBase(FramesOf(s, t), a) ==>
                 && (a in r.order <==> a in s.order && !DeletedBy(entered, ops, a))
                 && (a in r.order ==> a in r.refs && r.refs[a] == s.refs[a]))
  {
    var base := FramesOf(s, t);
    var entered := Push(s, t, block, true);
    PushKeeps(s, t, block, true);
    BodyStaysInside(entered, ops, t, base, 0);
    var done := Run(entered, ops);
    LeaveReturns(done, t, base);
    if InBase(base, a) {
      BaseIsApart(entered, t, base, 0, a);
      BodySpares(entered, ops, t, base, 0, a);
      BaseIsApart(done, t, base, 0, a);
      LeaveAbove(done, t, base, 0, a);
    }
  }

  lemma {:induction false} BodyStaysInside(s: Table, ops: seq<Op>, t: Tid, base: seq<Frame>, depth: nat)
    requires Inside(s, t, base, depth) && Body(ops, t, depth)
    ensures Inside(Run(s, ops), t, base, 0)
    decreases |ops|
  {
    hide Apply, Inside;
    if ops != [] {
      BoundaryHolds(s, ops[0], t, base, depth);
      BodyStaysInside(Apply(s, ops[0]), ops[1..], t, base, After(ops[0], t, depth));
    }
  }

  /** Leaving touches only slots above the caller's frames. */
  lemma {:induction false} LeaveAbove(s: Table, t: Tid, base: seq<Frame>, depth: nat, a: Addr)
    requires Inside(s, t, base, depth)
    requires forall d :: |base| <= d < |FramesOf(s, t)| ==> a !in FramesOf(s, t)[d].slots
    ensures var r := LeaveNative(s, t);
            && (a in r.order <==> a in s.order) && (a in r.refs <==> a in s.refs)
            && (a in r.refs ==> r.refs[a] == s.refs[a])
    decreases |FramesOf(s, t)|
  {
    PopSpares(s, t, a);
    var fs := FramesOf(s, t);
    if !Top(s, t).boundary {
      BoundariesPop(fs, |base| + 1);
      assert fs[..|fs| - 1][..|base|] == base;
      LeaveAbove(PopFrame(s, t), t, base, depth, a);
    }
  }
}
