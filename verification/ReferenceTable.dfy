/** JNI references: the global list of live references and the per-thread frames whose blocks
    hold local ones (src/bridges/jni/references.c:70-269), as operations on a table. */
module ReferenceTable {
  import opened Common

  type Addr = nat
  type Tid = nat

  datatype Kind = Invalid | Local | Global | WeakGlobal

  datatype Ref = Ref(target: nat, kind: Kind, owner: Option<Tid>, serial: nat)

  /** A frame's slots, newest block first as `__local_slot` searches them. */
  datatype Frame = Frame(slots: seq<Addr>, boundary: bool)

  /** `refs` is the memory of all reference records, `order` the global list, `frames` each
      thread's frames with the current one last. */
  datatype Table = Table(refs: map<Addr, Ref>, order: seq<Addr>, frames: map<Tid, seq<Frame>>)

  const EMPTY_REF := Ref(0, Invalid, None, 0)

  function FramesOf(s: Table, t: Tid): seq<Frame> {
    if t in s.frames then s.frames[t] else []
  }

  function Members(q: seq<Addr>): set<Addr> {
    set a | a in q
  }

  function Slots(f: Frame): set<Addr> {
    Members(f.slots)
  }

  function Top(s: Table, t: Tid): Frame
    requires FramesOf(s, t) != []
  {
    FramesOf(s, t)[|FramesOf(s, t)| - 1]
  }

  /** The list without the addresses in `dead`. */
  function Keep(order: seq<Addr>, dead: set<Addr>): (r: seq<Addr>) {
    if order == [] then []
    else if order[0] in dead then Keep(order[1..], dead)
    else [order[0]] + Keep(order[1..], dead)
  }

  // ---------------------------------------------------------------- operations

  /** Memory the allocator may hand out: distinct records not in use. */
  predicate Fresh(s: Table, block: seq<Addr>) {
    && (forall a :: a in block ==> a !in s.refs)
    && (forall i, j :: 0 <= i < j < |block| ==> block[i] != block[j])
  }

  function Blank(refs: map<Addr, Ref>, block: seq<Addr>): map<Addr, Ref> {
    refs + map a | a in block :: EMPTY_REF
  }

  function SetTop(s: Table, t: Tid, f: Frame): Table
    requires FramesOf(s, t) != []
  {
    s.(frames := s.frames[t := FramesOf(s, t)[|FramesOf(s, t)| - 1 := f]])
  }

  /** `__reserve` on the current frame. */
  function Reserve(s: Table, t: Tid, block: seq<Addr>): Table
    requires FramesOf(s, t) != []
  {
    SetTop(s, t, Top(s, t).(slots := block + Top(s, t).slots)).(refs := Blank(s.refs, block))
  }

  /** `jni_refs_push` and `jni_refs_enter_native`: a new current frame over a new block. */
  function Push(s: Table, t: Tid, block: seq<Addr>, boundary: bool): Table {
    s.(frames := s.frames[t := FramesOf(s, t) + [Frame(block, boundary)]], refs := Blank(s.refs, block))
  }

  /** Free slots of a frame. */
  function Available(refs: map<Addr, Ref>, slots: seq<Addr>): nat {
    if slots == [] then 0
    else (if slots[0] in refs && refs[slots[0]].kind == Invalid then 1 else 0) + Available(refs, slots[1..])
  }

  /** Index of the first free slot, or the number of slots. */
  function FirstFree(refs: map<Addr, Ref>, slots: seq<Addr>): (i: nat)
    ensures i <= |slots|
    ensures i < |slots| ==> slots[i] in refs && refs[slots[i]].kind == Invalid
    ensures forall j :: 0 <= j < i ==> !(slots[j] in refs && refs[slots[j]].kind == Invalid)
  {
    if slots == [] then 0
    else if slots[0] in refs && refs[slots[0]].kind == Invalid then 0
    else 1 + FirstFree(refs, slots[1..])
  }

  /** Put a reference into a record and at the head of the list. */
  function Link(s: Table, a: Addr, r: Ref): Table {
    s.(refs := s.refs[a := r], order := [a] + s.order)
  }

  /** `__unlink`. */
  function Unlink(s: Table, a: Addr): Table
    requires a in s.refs
  {
    s.(refs := s.refs[a := s.refs[a].(target := 0, kind := Invalid)], order := Keep(s.order, {a}))
  }

  predicate Visible(r: Ref, current: Tid) {
    r.owner == None || r.owner == Some(current)
  }

  predicate Deletes(s: Table, current: Tid, a: Addr, kind: Kind) {
    a in s.order && a in s.refs && s.refs[a].kind == kind && Visible(s.refs[a], current)
  }

  /** `jni_refs_delete`: unlink, and free the record unless it is a slot. */
  function Delete(s: Table, current: Tid, a: Addr, kind: Kind): Table {
    if !Deletes(s, current, a, kind) then s
    else if kind == Local then Unlink(s, a)
    else Unlink(s, a).(refs := s.refs - {a})
  }

  /** `__pop_frame`: the current frame goes with every reference in it. */
  function PopFrame(s: Table, t: Tid): Table {
    if FramesOf(s, t) == [] then s
    else
      var fs := FramesOf(s, t);
      s.(frames := s.frames[t := fs[..|fs| - 1]], order := Keep(s.order, Slots(Top(s, t))),
          refs := s.refs - Slots(Top(s, t)))
  }

  /** `jni_refs_pop` never removes a native boundary. */
  function Pop(s: Table, t: Tid): Table {
    if FramesOf(s, t) != [] && !Top(s, t).boundary then PopFrame(s, t) else s
  }

  /** `jni_refs_leave_native`: everything above the boundary, then the boundary. */
  function LeaveNative(s: Table, t: Tid): Table
    decreases |FramesOf(s, t)|
  {
    if FramesOf(s, t) != [] && !Top(s, t).boundary then LeaveNative(PopFrame(s, t), t) else PopFrame(s, t)
  }

  /** The frames of `jni_refs_cleanup`. */
  function Cleanup(s: Table, t: Tid): Table
    decreases |FramesOf(s, t)|
  {
    if FramesOf(s, t) == [] then s else Cleanup(PopFrame(s, t), t)
  }

  // ---------------------------------------------------------------- the invariant

  ghost predicate Distinct(q: seq<Addr>) {
    forall i, j :: 0 <= i < j < |q| ==> q[i] != q[j]
  }

  predicate HasFrame(frames: map<Tid, seq<Frame>>, t: Tid, d: int) {
    t in frames && 0 <= d < |frames[t]|
  }

  /** Slots are pairwise different memory. */
  ghost predicate SlotsApart(frames: map<Tid, seq<Frame>>) {
    && (forall t, d :: HasFrame(frames, t, d) ==> Distinct(frames[t][d].slots))
    && (forall t, d, u, e :: HasFrame(frames, t, d) && HasFrame(frames, u, e) && (t, d) != (u, e) ==>
          Slots(frames[t][d]) !! Slots(frames[u][e]))
  }

  /** A slot is in use exactly when it is on the list, and then it belongs to its thread. */
  ghost predicate SlotsTracked(s: Table) {
    forall t, d, a :: HasFrame(s.frames, t, d) && a in s.frames[t][d].slots ==>
      a in s.refs && (s.refs[a].kind != Invalid <==> a in s.order) && (a in s.order ==> s.refs[a].owner == Some(t))
  }

  /** Every reference on the list is live, and an owned one sits in a frame of its owner. */
  ghost predicate ListTracked(s: Table) {
    && Distinct(s.order)
    && (forall a :: a in s.order ==>
          a in s.refs && s.refs[a].kind != Invalid && (s.refs[a].kind == Local <==> s.refs[a].owner.Some?))
    && (forall a :: a in s.order && s.refs[a].owner.Some? ==>
          exists d :: HasFrame(s.frames, s.refs[a].owner.value, d) && a in s.frames[s.refs[a].owner.value][d].slots)
  }

  ghost predicate Inv(s: Table) {
    SlotsApart(s.frames) && SlotsTracked(s) && ListTracked(s)
  }

  lemma ListedLive(s: Table)
    requires Inv(s)
    ensures Distinct(s.order) && forall a :: a in s.order ==> a in s.refs
  {
  }

  lemma {:induction false} KeepMembers(order: seq<Addr>, dead: set<Addr>)
    ensures forall a :: a in Keep(order, dead) <==> a in order && a !in dead
    ensures Distinct(order) ==> Distinct(Keep(order, dead))
  {
    if order != [] {
      KeepMembers(order[1..], dead);
      assert forall a :: a in order <==> a == order[0] || a in order[1..];
      if Distinct(order) {
        assert order[0] !in order[1..];
      }
    }
  }

  // ---------------------------------------------------------------- every operation keeps it

  lemma ReserveKeeps(s: Table, t: Tid, block: seq<Addr>)
    requires Inv(s) && Fresh(s, block) && FramesOf(s, t) != []
    ensures Inv(Reserve(s, t, block))
  {
    var r := Reserve(s, t, block);
    var top := |s.frames[t]| - 1;
    var slots := s.frames[t][top].slots;
    assert r.frames[t][top].slots == block + slots;
    assert forall a :: a in slots ==> a in s.refs;
    assert forall a :: a in block + slots <==> a in block || a in slots;
    ReserveApart(s, t, block);
    forall a | a in r.order && r.refs[a].owner.Some?
      ensures exists d :: HasFrame(r.frames, r.refs[a].owner.value, d) && a in r.frames[r.refs[a].owner.value][d].slots
    {
      var u := s.refs[a].owner.value;
      var d :| HasFrame(s.frames, u, d) && a in s.frames[u][d].slots;
      assert HasFrame(r.frames, u, d) && a in r.frames[u][d].slots;
    }
  }

  lemma DistinctAppend(p: seq<Addr>, q: seq<Addr>)
    requires Distinct(p) && Distinct(q) && forall a :: a in p ==> a !in q
    ensures Distinct(p + q)
  {
    forall i, j | 0 <= i < j < |p + q|
      ensures (p + q)[i] != (p + q)[j]
    {
      if i < |p| {
        assert p[i] in p;
      }
    }
  }

  lemma ReserveApart(s: Table, t: Tid, block: seq<Addr>)
    requires Inv(s) && Fresh(s, block) && FramesOf(s, t) != []
    ensures SlotsApart(Reserve(s, t, block).frames)
  {
    var r := Reserve(s, t, block);
    var top := |s.frames[t]| - 1;
    assert HasFrame(s.frames, t, top) && forall a :: a in s.frames[t][top].slots ==> a in s.refs;
    DistinctAppend(block, s.frames[t][top].slots);
    forall u, d | HasFrame(r.frames, u, d)
      ensures Distinct(r.frames[u][d].slots)
      ensures (u, d) != (t, top) ==> r.frames[u][d] == s.frames[u][d]
    {
      assert HasFrame(s.frames, u, d);
    }
    assert Slots(r.frames[t][top]) == Slots(s.frames[t][top]) + Members(block);
    forall u, d | HasFrame(r.frames, u, d) && (u, d) != (t, top)
      ensures Slots(r.frames[u][d]) !! Slots(r.frames[t][top])
    {
      assert HasFrame(s.frames, u, d) && HasFrame(s.frames, t, top);
    }
    forall u, d, v, e | HasFrame(r.frames, u, d) && HasFrame(r.frames, v, e) && (u, d) != (v, e)
      ensures Slots(r.frames[u][d]) !! Slots(r.frames[v][e])
    {
      if (u, d) == (t, top) {
        assert Slots(r.frames[v][e]) !! Slots(r.frames[t][top]);
      } else if (v, e) != (t, top) {
        assert HasFrame(s.frames, u, d) && HasFrame(s.frames, v, e);
      }
    }
  }

  lemma PushApart(s: Table, t: Tid, block: seq<Addr>, boundary: bool)
    requires Inv(s) && Fresh(s, block)
    ensures SlotsApart(Push(s, t, block, boundary).frames)
  {
    var frames := Push(s, t, block, boundary).frames;
    var top := |FramesOf(s, t)|;
    assert frames[t][top] == Frame(block, boundary);
    forall u, d | HasFrame(frames, u, d) && (u, d) != (t, top)
      ensures HasFrame(s.frames, u, d) && frames[u][d] == s.frames[u][d]
      ensures Slots(frames[u][d]) !! Slots(frames[t][top])
    {
    }
    hide Inv;
    forall u, d, v, e | HasFrame(frames, u, d) && HasFrame(frames, v, e) && (u, d) != (v, e)
      ensures Slots(frames[u][d]) !! Slots(frames[v][e])
    {
      if (u, d) == (t, top) {
        assert Slots(frames[v][e]) !! Slots(frames[t][top]);
      } else if (v, e) != (t, top) {
        assert HasFrame(s.frames, u, d) && HasFrame(s.frames, v, e);
      }
    }
  }

  lemma PushKeeps(s: Table, t: Tid, block: seq<Addr>, boundary: bool)
    requires Inv(s) && Fresh(s, block)
    ensures Inv(Push(s, t, block, boundary))
  {
    var r := Push(s, t, block, boundary);
    PushApart(s, t, block, boundary);
    hide SlotsApart, Slots;
    var top := |FramesOf(s, t)|;
    assert HasFrame(r.frames, t, top) && r.frames[t][top] == Frame(block, boundary);
    forall u, d | HasFrame(r.frames, u, d) && (u, d) != (t, top)
      ensures HasFrame(s.frames, u, d) && r.frames[u][d] == s.frames[u][d]
    {
    }
    forall a | a in r.order && r.refs[a].owner.Some?
      ensures exists d :: HasFrame(r.frames, r.refs[a].owner.value, d) && a in r.frames[r.refs[a].owner.value][d].slots
    {
      var u := s.refs[a].owner.value;
      var d :| HasFrame(s.frames, u, d) && a in s.frames[u][d].slots;
      assert HasFrame(r.frames, u, d) && a in r.frames[u][d].slots;
    }
  }

  /** A new local reference goes into a free slot of the current frame. */
  lemma LinkLocalKeeps(s: Table, t: Tid, a: Addr, target: nat, serial: nat)
    requires Inv(s) && FramesOf(s, t) != [] && a in Top(s, t).slots && a in s.refs && s.refs[a].kind == Invalid
    ensures Inv(Link(s, a, Ref(target, Local, Some(t), serial)))
  {
    var r := Link(s, a, Ref(target, Local, Some(t), serial));
    var top := |s.frames[t]| - 1;
    assert HasFrame(s.frames, t, top) && a in s.frames[t][top].slots;
    assert a !in s.order;
    assert a in Slots(s.frames[t][top]);
    forall u, d | HasFrame(s.frames, u, d) && (u, d) != (t, top)
      ensures a !in s.frames[u][d].slots
    {
      assert a !in Slots(s.frames[u][d]);
    }
    forall b | b in r.order && r.refs[b].owner.Some?
      ensures exists d :: HasFrame(r.frames, r.refs[b].owner.value, d) && b in r.frames[r.refs[b].owner.value][d].slots
    {
      if b != a {
        var d :| HasFrame(s.frames, s.refs[b].owner.value, d) && b in s.frames[s.refs[b].owner.value][d].slots;
      }
    }
  }

  lemma LinkGlobalKeeps(s: Table, a: Addr, target: nat, kind: Kind)
    requires Inv(s) && a !in s.refs && (kind == Global || kind == WeakGlobal)
    ensures Inv(Link(s, a, Ref(target, kind, None, 0)))
  {
    var r := Link(s, a, Ref(target, kind, None, 0));
    forall b | b in r.order && r.refs[b].owner.Some?
      ensures exists d :: HasFrame(r.frames, r.refs[b].owner.value, d) && b in r.frames[r.refs[b].owner.value][d].slots
    {
      var d :| HasFrame(s.frames, s.refs[b].owner.value, d) && b in s.frames[s.refs[b].owner.value][d].slots;
    }
  }

  lemma DeleteKeeps(s: Table, current: Tid, a: Addr, kind: Kind)
    requires Inv(s)
    ensures Inv(Delete(s, current, a, kind))
  {
    if Deletes(s, current, a, kind) {
      var r := Delete(s, current, a, kind);
      KeepMembers(s.order, {a});
      if kind != Local {
        forall t, d | HasFrame(s.frames, t, d)
          ensures a !in s.frames[t][d].slots
        {
        }
      }
      forall b | b in r.order && r.refs[b].owner.Some?
        ensures exists d ::
                  HasFrame(r.frames, r.refs[b].owner.value, d) && b in r.frames[r.refs[b].owner.value][d].slots
      {
        var d :| HasFrame(s.frames, s.refs[b].owner.value, d) && b in s.frames[s.refs[b].owner.value][d].slots;
      }
    }
  }

  lemma PopFrameKeeps(s: Table, t: Tid)
    requires Inv(s)
    ensures Inv(PopFrame(s, t))
  {
    if FramesOf(s, t) != [] {
      var r := PopFrame(s, t);
      var top := |s.frames[t]| - 1;
      var dead := Slots(s.frames[t][top]);
      assert HasFrame(s.frames, t, top);
      KeepMembers(s.order, dead);
      forall u, d | HasFrame(r.frames, u, d)
        ensures HasFrame(s.frames, u, d) && r.frames[u][d] == s.frames[u][d] && (u, d) != (t, top)
        ensures Slots(r.frames[u][d]) !! dead
      {
      }
      forall u, d, a | HasFrame(r.frames, u, d) && a in r.frames[u][d].slots
        ensures a in r.refs && (r.refs[a].kind != Invalid <==> a in r.order) &&
                (a in r.order ==> r.refs[a].owner == Some(u))
      {
        assert a in Slots(r.frames[u][d]);
      }
      forall b | b in r.order && r.refs[b].owner.Some?
        ensures exists d ::
                  HasFrame(r.frames, r.refs[b].owner.value, d) && b in r.frames[r.refs[b].owner.value][d].slots
      {
        var u := s.refs[b].owner.value;
        var d :| HasFrame(s.frames, u, d) && b in s.frames[u][d].slots;
        assert (u, d) != (t, top) by { assert b !in dead; }
        assert HasFrame(r.frames, u, d);
      }
    }
  }
}
