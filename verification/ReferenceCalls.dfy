/** What each call on the JNI references does to the live ones and to the frames of every thread
    (src/bridges/jni/references.c:70-269), call by call, and what a pushed frame gives back. */
module ReferenceCalls {
  import opened Common
  import opened ReferenceTable
  import opened References

  /** The live references, by handle. */
  function Live(s: Table): map<Addr, Ref> {
    map a | a in s.order && a in s.refs :: s.refs[a]
  }

  /** The same live references, and the same frames of the threads other than `t`. */
  ghost predicate OthersKeep(s: Table, r: Table, t: Tid) {
    forall u :: u != t ==> FramesOf(r, u) == FramesOf(s, u)
  }

  // ---------------------------------------------------------------- frames come and go

  /** Pushing a frame, ordinary or native, puts one with the block's slots on top, or changes nothing. */
  lemma PushIsExact(s: Table, t: Tid, capacity: int, block: Option<seq<Addr>>, native: bool)
    requires Inv(s) && (capacity >= 0 ==> BlockFits(s, block, Larger(capacity, 1)))
    ensures var r := Apply(s, if native then EnterNative(t, capacity, block) else PushFrame(t, capacity, block));
            && Live(r) == Live(s) && OthersKeep(s, r, t)
            && (if capacity >= 0 && block.Some? then
                  && FramesOf(r, t) == FramesOf(s, t) + [Frame(block.value, native)]
                  && |block.value| == (if capacity == 0 then 1 else capacity)
                  && forall a :: a in block.value ==> a !in Live(s) && a in r.refs && r.refs[a].kind == Invalid
                else r == s)
  {
  }

  /** Popping takes the thread's top frame and exactly its references, unless it is a native boundary or there is none:
      then nothing changes. */
  lemma PopIsExact(s: Table, t: Tid)
    requires Inv(s)
    ensures var r, fs := Apply(s, PopOne(t)), FramesOf(s, t);
            if fs != [] && !fs[|fs| - 1].boundary then
              && FramesOf(r, t) == fs[..|fs| - 1] && OthersKeep(s, r, t)
              && Live(r) == Live(s) - Slots(fs[|fs| - 1])
              && r.refs == s.refs - Slots(fs[|fs| - 1])
            else r == s
  {
    if FramesOf(s, t) != [] {
      KeepMembers(s.order, Slots(Top(s, t)));
    }
  }

  /** Leaving a native call takes the frames down to and with the newest boundary, or all of them without one, and
      exactly their references. */
  lemma {:induction false} LeaveIsExact(s: Table, t: Tid, n: nat)
    requires Inv(s) && n <= |FramesOf(s, t)|
    requires forall d :: n < d < |FramesOf(s, t)| ==> !FramesOf(s, t)[d].boundary
    requires n < |FramesOf(s, t)| ==> FramesOf(s, t)[n].boundary
    requires n == |FramesOf(s, t)| ==> FramesOf(s, t) == []
    ensures var r, fs := Apply(s, LeaveCall(t)), FramesOf(s, t);
            && FramesOf(r, t) == fs[..n] && OthersKeep(s, r, t)
            && (forall a :: a in Live(r) <==> a in Live(s) && !InBase(fs[n..], a))
            && (forall a :: a in Live(r) ==> Live(r)[a] == Live(s)[a])
    decreases |FramesOf(s, t)|
  {
    hide Inv, Live, InBase, Slots, PopFrame, OthersKeep;
    var fs := FramesOf(s, t);
    if fs != [] {
      var top := |fs| - 1;
      var next := PopFrame(s, t);
      PopTakes(s, t);
      InBaseTop(fs, n);
      SlotsAre(fs[top]);
      if n < top {
        assert fs[..top][..n] == fs[..n];
        LeaveIsExact(next, t, n);
        OthersStill(s, next, Apply(s, LeaveCall(t)), t);
      } else {
        NoFrames(fs[..top][n..]);
      }
    } else {
      NoFrames(fs[n..]);
      NothingToPop(s, t);
    }
  }

  /** A frame that goes away takes its references. */
  lemma PopTakes(s: Table, t: Tid)
    requires Inv(s) && FramesOf(s, t) != []
    ensures var r := PopFrame(s, t); var fs := FramesOf(s, t);
            && Inv(r) && FramesOf(r, t) == fs[..|fs| - 1] && OthersKeep(s, r, t)
            && Live(r) == Live(s) - Slots(fs[|fs| - 1])
  {
    KeepMembers(s.order, Slots(Top(s, t)));
    PopFrameKeeps(s, t);
  }

  lemma SlotsAre(f: Frame)
    ensures forall a :: a in Slots(f) <==> a in f.slots
  {
  }

  lemma NoFrames(fs: seq<Frame>)
    requires fs == []
    ensures forall a :: !InBase(fs, a)
  {
  }

  lemma NothingToPop(s: Table, t: Tid)
    requires FramesOf(s, t) == []
    ensures PopFrame(s, t) == s && OthersKeep(s, s, t)
  {
  }

  lemma OthersStill(s: Table, m: Table, r: Table, t: Tid)
    requires OthersKeep(s, m, t) && OthersKeep(m, r, t)
    ensures OthersKeep(s, r, t)
  {
  }

  lemma InBaseTop(fs: seq<Frame>, n: nat)
    requires n < |fs|
    ensures forall a :: InBase(fs[n..], a) <==> InBase(fs[..|fs| - 1][n..], a) || a in fs[|fs| - 1].slots
  {
    var rest := fs[..|fs| - 1][n..];
    assert fs[n..] == rest + [fs[|fs| - 1]];
    forall a | a in fs[|fs| - 1].slots
      ensures InBase(fs[n..], a)
    {
      assert a in fs[n..][|rest|].slots;
    }
    forall a | InBase(rest, a)
      ensures InBase(fs[n..], a)
    {
      var d :| 0 <= d < |rest| && a in rest[d].slots;
      assert fs[n..][d] == rest[d];
    }
  }

  /** A thread that is cleaned up keeps no frame, and exactly the references it owned are gone. */
  lemma {:induction false} CleanupIsExact(s: Table, t: Tid)
    requires Inv(s)
    ensures var r := Apply(s, CleanupThread(t));
            && FramesOf(r, t) == [] && OthersKeep(s, r, t)
            && (forall a :: a in Live(r) <==> a in Live(s) && Live(s)[a].owner != Some(t))
            && (forall a :: a in Live(r) ==> Live(r)[a] == Live(s)[a])
    decreases |FramesOf(s, t)|
  {
    hide Inv, PopFrame;
    var fs := FramesOf(s, t);
    if fs != [] {
      PopTakes(s, t);
      TopIsOwned(s, t);
      CleanupIsExact(PopFrame(s, t), t);
    } else {
      NothingOwned(s, t);
    }
  }

  lemma TopIsOwned(s: Table, t: Tid)
    requires Inv(s) && FramesOf(s, t) != []
    ensures forall a :: a in Live(s) && a in Top(s, t).slots ==> Live(s)[a].owner == Some(t)
  {
    assert HasFrame(s.frames, t, |s.frames[t]| - 1);
  }

  lemma NothingOwned(s: Table, t: Tid)
    requires Inv(s) && FramesOf(s, t) == []
    ensures forall a :: a in Live(s) ==> Live(s)[a].owner != Some(t)
  {
  }

  // ---------------------------------------------------------------- references come and go

  /** Ensuring room makes a first frame or adds slots to the current one, and leaves every reference as it is. */
  lemma EnsureIsExact(s: Table, t: Tid, capacity: int, block: Option<seq<Addr>>)
    requires Inv(s) && BlockFits(s, block, Wanted(s, t, capacity))
    ensures var r := Apply(s, Ensure(t, capacity, block));
            && Live(r) == Live(s) && OthersKeep(s, r, t)
            && (capacity < 0 || block.None? ==> r == s)
            && (FramesOf(s, t) == [] && capacity >= 0 && block.Some? ==>
                 && FramesOf(r, t) == [Frame(block.value, false)]
                 && |block.value| == if capacity < 32 then 32 else capacity)
            && (FramesOf(s, t) != [] ==>
                 var n := |FramesOf(s, t)| - 1;
                 && |FramesOf(r, t)| == n + 1 && FramesOf(r, t)[..n] == FramesOf(s, t)[..n]
                 && FramesOf(r, t)[n].boundary == FramesOf(s, t)[n].boundary
                 && FramesOf(r, t)[n].slots ==
                    (if capacity > Available(s.refs, Top(s, t).slots) && block.Some? then block.value else [])
                    + FramesOf(s, t)[n].slots)
  {
    hide Available;
  }

  /** A new local reference is one more, of the calling thread and in its current frame, with the object and the call it
      was made in; without an object, or without room, there is none. */
  lemma LocalIsExact(s: Table, t: Tid, target: nat, serial: nat, block: Option<seq<Addr>>)
    requires Inv(s) && Enabled(s, NewLocal(t, target, serial, block))
    ensures var r := Apply(s, NewLocal(t, target, serial, block));
            && OthersKeep(s, r, t)
            && (target == 0 ==> r == s)
            && (target != 0 && (block.Some? || HasRoom(s, t, 1)) ==>
                 exists a: Addr :: a !in Live(s) && Live(r) == Live(s)[a := Ref(target, Local, Some(t), serial)] &&
                   FramesOf(r, t) != [] && a in Top(r, t).slots)
            && (target != 0 && block.None? && !HasRoom(s, t, 1) ==> r == s)
  {
    hide Inv, Live, Available, Link, FreeSlot;
    if target != 0 {
      var m := EnsureOp(s, t, 1, block);
      EnsureIsExact(s, t, 1, block);
      EnsureKeeps(s, t, 1, block);
      if block.Some? && Wanted(s, t, 1) > 0 {
        EnsureMakesRoom(s, t, 1, block);
      }
      if HasRoom(m, t, 1) {
        FreeIsNew(m, t, Ref(target, Local, Some(t), serial));
      }
    }
  }

  lemma FreeIsNew(s: Table, t: Tid, ref: Ref)
    requires Inv(s) && HasRoom(s, t, 1)
    ensures var a := FreeSlot(s, t); var r := Link(s, a, ref);
            && a !in Live(s) && Live(r) == Live(s)[a := ref] && r.frames == s.frames && a in Top(s, t).slots
  {
    assert HasFrame(s.frames, t, |s.frames[t]| - 1);
  }

  /** A new global reference is one more, of nobody; without an object or memory there is none. */
  lemma GlobalIsExact(s: Table, target: nat, kind: Kind, record: Option<Addr>)
    requires Inv(s) && Enabled(s, NewGlobal(target, kind, record))
    ensures var r := Apply(s, NewGlobal(target, kind, record));
            && r.frames == s.frames
            && (if target != 0 && record.Some? then
                  record.value !in Live(s) && Live(r) == Live(s)[record.value := Ref(target, kind, None, 0)]
                else r == s)
  {
  }

  /** Deleting takes exactly the reference, if it is live, of the kind asked for and the calling thread's or nobody's;
      anything else changes nothing. A local one leaves a free slot behind, another its record. */
  lemma DeleteIsExact(s: Table, current: Tid, a: Addr, kind: Kind)
    requires Inv(s)
    ensures var r := Apply(s, DeleteRef(current, a, kind));
            && r.frames == s.frames
            && (if a in Live(s) && Live(s)[a].kind == kind && Live(s)[a].owner in {None, Some(current)} then
                  && Live(r) == Live(s) - {a}
                  && (if kind == Local then a in r.refs && r.refs[a].kind == Invalid && r.refs[a].target == 0
                      else a !in r.refs)
                else r == s)
  {
    KeepMembers(s.order, {a});
  }

  /** Clearing the globals takes exactly what no thread owns. */
  lemma ClearIsExact(s: Table)
    requires Inv(s)
    ensures var r := Apply(s, ClearGlobals);
            && r.frames == s.frames
            && (forall a :: a in Live(r) <==> a in Live(s) && Live(s)[a].owner.Some?)
            && (forall a :: a in Live(r) ==> Live(r)[a] == Live(s)[a])
  {
    KeepMembers(s.order, set b | b in s.order && b in s.refs && s.refs[b].owner.None?);
  }

  lemma {:induction false} Above(taken: set<Addr>) returns (m: Addr)
    ensures forall a :: a in taken ==> a < m
  {
    if taken == {} {
      m := 1;
    } else {
      var a :| a in taken;
      var rest := Above(taken - {a});
      m := if a < rest then rest else a + 1;
      assert forall b :: b in taken ==> b == a || b in taken - {a};
    }
  }

  /** No table is too full for a call: there always are slots the allocator may answer with, and it may always
      refuse. */
  lemma MemoryMayAnswer(s: Table, size: nat, t: Tid, target: nat, serial: nat) returns (block: seq<Addr>)
    ensures BlockFits(s, Some(block), size) && BlockFits(s, None, size)
    ensures size == Wanted(s, t, 1) ==> Enabled(s, NewLocal(t, target, serial, Some(block)))
    ensures Enabled(s, NewLocal(t, target, serial, None))
    ensures Enabled(s, PopOne(t)) && Enabled(s, LeaveCall(t)) && Enabled(s, CleanupThread(t))
    ensures Enabled(s, ClearGlobals)
  {
    var m := Above(s.refs.Keys);
    block := seq(size, i => m + i);
  }

  // ---------------------------------------------------------------- a pushed frame

  /** Above `base` the thread has ordinary frames only, `depth` on top of one. */
  predicate Stacked(fs: seq<Frame>, base: seq<Frame>, depth: nat) {
    && |fs| == |base| + 1 + depth && fs[..|base|] == base
    && forall d :: |base| <= d < |fs| ==> !fs[d].boundary
  }

  /** Calls of other threads, and of this thread what keeps to its own frames: no native call, and no more pops than
      pushes. */
  predicate Keeps(op: Op, t: Tid, depth: nat) {
    match op
    case EnterNative(u, _, _) => u != t
    case LeaveCall(u) => u != t
    case CleanupThread(u) => u != t
    case PopOne(u) => u == t ==> depth > 0
    case _ => true
  }

  predicate Pushes(op: Op, t: Tid) {
    op.PushFrame? && op.t == t && op.capacity >= 0 && op.block.Some?
  }

  function Deeper(op: Op, t: Tid, depth: nat): nat
    requires Keeps(op, t, depth)
  {
    if Pushes(op, t) then depth + 1 else if op == PopOne(t) then depth - 1 else depth
  }

  /** Every frame pushed meanwhile is popped again. */
  predicate Balanced(ops: seq<Op>, t: Tid, depth: nat)
    decreases |ops|
  {
    if ops == [] then depth == 0 else Keeps(ops[0], t, depth) && Balanced(ops[1..], t, Deeper(ops[0], t, depth))
  }

  lemma {:induction false} StackedStep(s: Table, op: Op, t: Tid, base: seq<Frame>, depth: nat)
    requires Inv(s) && Enabled(s, op) && Stacked(FramesOf(s, t), base, depth) && Keeps(op, t, depth)
    ensures Stacked(FramesOf(Apply(s, op), t), base, Deeper(op, t, depth))
  {
    hide Inv, Available, Keep, FreeSlot;
    match op
    case PushFrame(u, capacity, block) => PushIsExact(s, u, capacity, block, false);
    case EnterNative(u, capacity, block) => PushIsExact(s, u, capacity, block, true);
    case Ensure(u, capacity, block) =>
      EnsureIsExact(s, u, capacity, block);
      StackedTop(s, Apply(s, op), t, base, depth);
    case NewLocal(u, target, serial, block) =>
      EnsureIsExact(s, u, 1, block);
      StackedTop(s, EnsureOp(s, u, 1, block), t, base, depth);
    case NewGlobal(_, _, _) =>
    case DeleteRef(_, _, _) =>
    case PopOne(u) => PopIsExact(s, u);
    case LeaveCall(u) => LeaveOthers(s, u, t);
    case CleanupThread(u) => CleanupOthers(s, u, t);
    case ClearGlobals =>
  }

  lemma StackedTop(s: Table, r: Table, t: Tid, base: seq<Frame>, depth: nat)
    requires Stacked(FramesOf(s, t), base, depth)
    requires var n := |base| + depth;
             FramesOf(r, t) == FramesOf(s, t) ||
             (|FramesOf(r, t)| == n + 1 && FramesOf(r, t)[..n] == FramesOf(s, t)[..n] &&
              FramesOf(r, t)[n].boundary == FramesOf(s, t)[n].boundary)
    ensures Stacked(FramesOf(r, t), base, depth)
  {
    var n := |base| + depth;
    if FramesOf(r, t) != FramesOf(s, t) {
      assert FramesOf(r, t)[..n][..|base|] == FramesOf(r, t)[..|base|];
      assert FramesOf(s, t)[..n][..|base|] == FramesOf(s, t)[..|base|];
      forall d | |base| <= d < n
        ensures !FramesOf(r, t)[d].boundary
      {
        assert FramesOf(r, t)[..n][d] == FramesOf(s, t)[..n][d];
      }
    }
  }

  /** A reference in a frame below is in no frame a call may take. */
  lemma BelowIsApart(s: Table, t: Tid, base: seq<Frame>, depth: nat, a: Addr)
    requires Inv(s) && Stacked(FramesOf(s, t), base, depth) && InBase(base, a)
    ensures a in s.refs && (a in s.order ==> s.refs[a].owner == Some(t))
    ensures forall u, d :: HasFrame(s.frames, u, d) && a in s.frames[u][d].slots ==> u == t && d < |base|
    ensures forall u :: FramesOf(s, u) != [] ==> a !in Top(s, u).slots
  {
    var b :| 0 <= b < |base| && a in base[b].slots;
    assert s.frames[t][b] == base[b] by { assert s.frames[t][..|base|][b] == base[b]; }
    assert HasFrame(s.frames, t, b) && a in Slots(s.frames[t][b]);
    forall u, d | HasFrame(s.frames, u, d) && a in s.frames[u][d].slots
      ensures u == t && d < |base|
    {
      assert a in Slots(s.frames[u][d]);
    }
    forall u | FramesOf(s, u) != []
      ensures a !in Top(s, u).slots
    {
      assert HasFrame(s.frames, u, |s.frames[u]| - 1);
    }
  }

  lemma BelowIsSpared(s: Table, op: Op, t: Tid, base: seq<Frame>, depth: nat, a: Addr)
    requires Inv(s) && Enabled(s, op) && Stacked(FramesOf(s, t), base, depth) && Keeps(op, t, depth) && InBase(base, a)
    ensures var r := Apply(s, op);
            && (a in r.order <==> a in s.order && !DeletesIt(s, op, a))
            && (a in r.order ==> a in r.refs && r.refs[a] == s.refs[a])
  {
    BelowIsApart(s, t, base, depth, a);
    CallSpares(s, op, a, t);
  }

  /** A call that may not take the frames of `t` spares a reference that is in no top frame. */
  lemma CallSpares(s: Table, op: Op, a: Addr, t: Tid)
    requires Enabled(s, op) && a in s.refs && (a in s.order ==> s.refs[a].owner == Some(t))
    requires forall u, d :: HasFrame(s.frames, u, d) && a in s.frames[u][d].slots ==> u == t
    requires forall u :: FramesOf(s, u) != [] ==> a !in Top(s, u).slots
    requires op != LeaveCall(t) && op != CleanupThread(t)
    ensures var r := Apply(s, op);
            && (a in r.order <==> a in s.order && !DeletesIt(s, op, a))
            && (a in r.order ==> a in r.refs && r.refs[a] == s.refs[a])
  {
    hide Available, Blank, FreeSlot, EnsureOp, PushOp, NewLocalOp, BlockFits;
    match op
    case LeaveCall(u) => LeaveSpares(s, u, a);
    case CleanupThread(u) => CleanupSpares(s, u, a);
    case PopOne(u) => PopSpares(s, u, a);
    case DeleteRef(_, b, _) => KeepMembers(s.order, {b});
    case ClearGlobals => KeepMembers(s.order, set b | b in s.order && b in s.refs && s.refs[b].owner.None?);
    case NewLocal(u, target, serial, block) => NewLocalSpares(s, u, target, serial, block, a);
    case Ensure(u, capacity, block) => EnsureSpares(s, u, capacity, block, a);
    case PushFrame(u, capacity, block) => PushSpares(s, u, capacity, block, false, a);
    case EnterNative(u, capacity, block) => PushSpares(s, u, capacity, block, true, a);
    case NewGlobal(_, _, _) =>
  }

  lemma {:induction false} BalancedSpares(s: Table, ops: seq<Op>, t: Tid, base: seq<Frame>, depth: nat)
    requires Inv(s) && Runs(s, ops) && Stacked(FramesOf(s, t), base, depth) && Balanced(ops, t, depth)
    ensures var r := Run(s, ops);
            && Inv(r) && Stacked(FramesOf(r, t), base, 0)
            && forall a :: InBase(base, a) ==>
                 && (a in s.order ==> (a in r.order <==> !DeletedBy(s, ops, a)))
                 && (a !in s.order ==> a !in r.order)
                 && (a in r.order ==> a in r.refs && a in s.refs && r.refs[a] == s.refs[a])
    decreases |ops|
  {
    hide Inv, Apply, Enabled, Stacked, DeletesIt, Keeps, Deeper, InBase;
    if ops != [] {
      var next := Apply(s, ops[0]);
      OpKeeps(s, ops[0]);
      StackedStep(s, ops[0], t, base, depth);
      BalancedSpares(next, ops[1..], t, base, Deeper(ops[0], t, depth));
    }
    forall a | InBase(base, a)
      ensures a in s.refs
      ensures ops != [] ==>
                var next := Apply(s, ops[0]);
                && (a in next.order <==> a in s.order && !DeletesIt(s, ops[0], a))
                && (a in next.order ==> a in next.refs && next.refs[a] == s.refs[a])
    {
      BelowIsApart(s, t, base, depth, a);
      if ops != [] {
        BelowIsSpared(s, ops[0], t, base, depth, a);
      }
    }
  }

  /** `PushLocalFrame`, any calls that push no more than they pop, `PopLocalFrame`: the thread has exactly the frames it
      had, and every reference in them that was not explicitly deleted, unchanged. */
  lemma PushPopRestores(s: Table, t: Tid, capacity: nat, block: seq<Addr>, ops: seq<Op>)
    requires Inv(s) && BlockFits(s, Some(block), Larger(capacity, 1))
    requires var pushed := Apply(s, PushFrame(t, capacity, Some(block))); Runs(pushed, ops) && Balanced(ops, t, 0)
    ensures var pushed := Apply(s, PushFrame(t, capacity, Some(block)));
            var r := Apply(Run(pushed, ops), PopOne(t));
            && FramesOf(r, t) == FramesOf(s, t)
            && forall a :: InBase(FramesOf(s, t), a) ==>
                 && (a in Live(r) <==> a in Live(s) && !DeletedBy(pushed, ops, a))
                 && (a in Live(r) ==> Live(r)[a] == Live(s)[a])
  {
    hide Inv, Balanced, Runs, DeletedBy, Stacked, Apply, Live, InBase, Slots;
    var base := FramesOf(s, t);
    var pushed := Apply(s, PushFrame(t, capacity, Some(block)));
    PushIsExact(s, t, capacity, Some(block), false);
    OpKeeps(s, PushFrame(t, capacity, Some(block)));
    StackedOne(base, Frame(block, false));
    BalancedSpares(pushed, ops, t, base, 0);
    var done := Run(pushed, ops);
    StackedLast(FramesOf(done, t), base);
    PopIsExact(done, t);
    forall a | InBase(base, a)
      ensures a in Live(s) <==> a in pushed.order
      ensures a in Live(s) ==> a in pushed.refs && Live(s)[a] == pushed.refs[a]
      ensures a in Live(done) <==> a in done.order
      ensures a in Live(done) ==> a in done.refs && Live(done)[a] == done.refs[a]
      ensures a !in Slots(Top(done, t))
    {
      LiveBelow(pushed, t, base, a);
      LiveBelow(done, t, base, a);
    }
  }

  lemma StackedOne(base: seq<Frame>, f: Frame)
    ensures !f.boundary ==> Stacked(base + [f], base, 0)
  {
  }

  lemma StackedLast(fs: seq<Frame>, base: seq<Frame>)
    requires Stacked(fs, base, 0)
    ensures fs != [] && !fs[|fs| - 1].boundary && fs[..|fs| - 1] == base
  {
  }

  lemma LiveBelow(s: Table, t: Tid, base: seq<Frame>, a: Addr)
    requires Inv(s) && Stacked(FramesOf(s, t), base, 0) && InBase(base, a)
    ensures (a in Live(s) <==> a in s.order) && a in s.refs && (a in Live(s) ==> Live(s)[a] == s.refs[a])
    ensures FramesOf(s, t) != [] && a !in Slots(Top(s, t))
  {
    BelowIsApart(s, t, base, 0, a);
  }
}
