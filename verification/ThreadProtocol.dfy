/** The runtime lock and the life of the virtual machine (src/bridges/jni/thread.c) as a state machine.
    A step is one stretch of code between taking and giving up the mutex; threads interleave freely and
    condition waits may wake spuriously. */
module ThreadProtocol {
  import opened Common

  /** `jni_thread_t`. */
  datatype Record = Record(daemon: bool, calls: nat, depth: nat, serial: nat)

  /** What a thread has open, outermost first: a bare lock, a JNI call, or a native body
      running with the lock given up, whose depth was saved. */
  datatype Frame = Lock | Call | Saved(depth: nat)

  datatype Place =
    | Running
    | MonitorWait(signalled: bool)
    | DestroyWait(signalled: bool)
    | Leaving

  /** `list` is the thread list in order, `records` what its nodes hold, and `cleanups` counts the
      calls of `jni_runtime_vm_cleanup`. Threads that are not mentioned run with nothing open. */
  datatype Vm = Vm(
    list: seq<nat>, records: map<nat, Record>, holder: Option<nat>, destroyed: bool, destroyer: Option<nat>,
    stacks: map<nat, seq<Frame>>, places: map<nat, Place>, cleanups: nat)

  const START := Vm([], map[], None, false, None, map[], map[], 0)

  function StackOf(s: Vm, t: nat): seq<Frame> {
    if t in s.stacks then s.stacks[t] else []
  }

  function PlaceOf(s: Vm, t: nat): Place {
    if t in s.places then s.places[t] else Running
  }

  function Top(stack: seq<Frame>): Frame
    requires stack != []
  {
    stack[|stack| - 1]
  }

  function Pop(stack: seq<Frame>): seq<Frame>
    requires stack != []
  {
    stack[..|stack| - 1]
  }

  // ---------------------------------------------------------------- the steps

  /** `jni_thread_lock` can go on: the thread has the lock already, or nobody has. */
  predicate CanLock(s: Vm, t: nat) {
    (t in s.records && s.records[t].depth > 0) || s.holder.None?
  }

  function Locked(s: Vm, t: nat): Vm {
    if t in s.records && s.records[t].depth > 0 then
      s.(records := s.records[t := s.records[t].(depth := s.records[t].depth + 1)])
    else if t in s.records then
      s.(records := s.records[t := s.records[t].(depth := 1)], holder := Some(t))
    else s.(holder := Some(t))
  }

  function Unlocked(s: Vm, t: nat): Vm {
    if t in s.records && s.records[t].depth > 1 then
      s.(records := s.records[t := s.records[t].(depth := s.records[t].depth - 1)])
    else if t in s.records then
      s.(records := s.records[t := s.records[t].(depth := 0)], holder := None)
    else s.(holder := None)
  }

  function Woken(p: Place): Place {
    match p
    case MonitorWait(_) => MonitorWait(true)
    case DestroyWait(_) => DestroyWait(true)
    case place => place
  }

  /** `pthread_cond_broadcast`. */
  function Signalled(places: map<nat, Place>): map<nat, Place> {
    map t | t in places :: Woken(places[t])
  }

  /** `__remove_thread`: unlink, clean the machine up after the last thread, wake every waiter. */
  function Removed(s: Vm, t: nat): Vm {
    var list := WithoutFirst(s.list, t);
    s.(list := list, records := s.records - {t},
       stacks := s.stacks[t := []], places := Signalled(s.places[t := Running]),
       cleanups := s.cleanups + if s.destroyed && list == [] then 1 else 0)
  }

  predicate IsUser(records: map<nat, Record>, u: nat) {
    u in records && !records[u].daemon
  }

  /** `__has_user_thread`. */
  predicate HasUser(list: seq<nat>, records: map<nat, Record>, t: nat) {
    exists i :: 0 <= i < |list| && list[i] != t && IsUser(records, list[i])
  }

  /** The loop test of `jni_thread_destroy` and what follows it, with the lock held at depth 1. */
  function Decided(s: Vm, t: nat): Vm
    requires t in s.records
  {
    if HasUser(s.list, s.records, t) then
      s.(places := s.places[t := DestroyWait(false)], holder := None)
    else
      Unlocked(s, t).(destroyed := true, destroyer := None, places := s.places[t := Leaving])
  }

  datatype Step =
    | TakeLock(t: nat)
    | DropLock(t: nat)
    | Enter(t: nat, own: bool)
    | Leave(t: nat)
    | Suspend(t: nat)
    | Resume(t: nat)
    | MonitorSleep(t: nat)
    | MonitorWake(t: nat)
    | Notify(t: nat)
    | Attach(t: nat, daemon: bool, memory: bool)
    | Detach(t: nat)
    | Destroy(t: nat)
    | DestroyWake(t: nat)
    | DestroyDetach(t: nat)
    | Exit(t: nat)

  /** Guest code never holds the runtime lock, so it detaches, destroys and exits at depth 0. */
  predicate Outside(s: Vm, t: nat) {
    PlaceOf(s, t).Running? && s.holder.None? && (t in s.records ==> s.records[t].depth == 0)
  }

  predicate Opened(s: Vm, t: nat, frame: Frame) {
    PlaceOf(s, t).Running? && StackOf(s, t) != [] && Top(StackOf(s, t)) == frame
  }

  predicate Enabled(s: Vm, step: Step) {
    match step
    case TakeLock(t) => PlaceOf(s, t).Running? && CanLock(s, t)
    case DropLock(t) => Opened(s, t, Lock)
    case Enter(t, _) => PlaceOf(s, t).Running? && CanLock(s, t)
    case Leave(t) => Opened(s, t, Call) && t in s.records && s.records[t].calls > 0
    case Suspend(t) => Opened(s, t, Call) && t in s.records
    case Resume(t) =>
      PlaceOf(s, t).Running? && StackOf(s, t) != [] && Top(StackOf(s, t)).Saved? && s.holder.None? && t in s.records
    case MonitorSleep(t) => Opened(s, t, Call) && t in s.records
    case MonitorWake(t) => PlaceOf(s, t).MonitorWait? && s.holder.None?
    case Notify(t) => Opened(s, t, Call)
    case Attach(t, _, _) => PlaceOf(s, t).Running? && CanLock(s, t)
    case Detach(t) => Outside(s, t)
    case Destroy(t) => Outside(s, t)
    case DestroyWake(t) => PlaceOf(s, t).DestroyWait? && s.holder.None? && t in s.records
    case DestroyDetach(t) => PlaceOf(s, t).Leaving? && s.holder.None?
    case Exit(t) => Outside(s, t) && t in s.records
  }

  predicate EnterRefused(s: Vm, t: nat, own: bool) {
    s.destroyed || t !in s.records || !own
  }

  function EnterStep(s: Vm, t: nat, own: bool): Vm {
    if EnterRefused(s, t, own) then s
    else
      var l := Locked(s, t);
      var r := l.records[t];
      l.(records := l.records[t := r.(calls := r.calls + 1, serial := if r.calls == 0 then r.serial + 1 else r.serial)],
         stacks := s.stacks[t := StackOf(s, t) + [Call]])
  }

  function LeaveStep(s: Vm, t: nat): Vm
    requires Enabled(s, Leave(t))
  {
    var r := s.records[t];
    Unlocked(s.(records := s.records[t := r.(calls := r.calls - 1)], stacks := s.stacks[t := Pop(StackOf(s, t))]), t)
  }

  predicate AttachRefused(s: Vm, t: nat) {
    s.destroyed || (s.destroyer.Some? && t !in s.records)
  }

  function AttachStep(s: Vm, t: nat, daemon: bool, memory: bool): Vm {
    if AttachRefused(s, t) || t in s.records || !memory then s
    else s.(list := [t] + s.list, records := s.records[t := Record(daemon, 0, 0, 0)])
  }

  /** `jni_thread_detach`: refused inside a call. */
  function DetachStep(s: Vm, t: nat): Vm {
    if t !in s.records || s.records[t].calls > 0 then s else Removed(s, t)
  }

  predicate DestroyRefused(s: Vm, t: nat) {
    t !in s.records || s.records[t].calls > 0 || s.destroyed || s.destroyer.Some?
  }

  function DestroyStep(s: Vm, t: nat): Vm {
    if DestroyRefused(s, t) then s else Decided(Locked(s, t).(destroyer := Some(t)), t)
  }

  function Apply(s: Vm, step: Step): Vm
    requires Enabled(s, step)
  {
    match step
    case TakeLock(t) => Locked(s, t).(stacks := s.stacks[t := StackOf(s, t) + [Lock]])
    case DropLock(t) => Unlocked(s, t).(stacks := s.stacks[t := Pop(StackOf(s, t))])
    case Enter(t, own) => EnterStep(s, t, own)
    case Leave(t) => LeaveStep(s, t)
    case Suspend(t) =>
      s.(records := s.records[t := s.records[t].(depth := 0)], holder := None,
         stacks := s.stacks[t := StackOf(s, t) + [Saved(s.records[t].depth)]])
    case Resume(t) =>
      s.(records := s.records[t := s.records[t].(depth := Top(StackOf(s, t)).depth)], holder := Some(t),
         stacks := s.stacks[t := Pop(StackOf(s, t))])
    case MonitorSleep(t) => s.(holder := None, places := s.places[t := MonitorWait(false)])
    case MonitorWake(t) => s.(holder := Some(t), places := s.places[t := Running])
    case Notify(t) => s.(places := Signalled(s.places))
    case Attach(t, daemon, memory) => AttachStep(s, t, daemon, memory)
    case Detach(t) => DetachStep(s, t)
    case Destroy(t) => DestroyStep(s, t)
    case DestroyWake(t) => Decided(s.(holder := Some(t)), t)
    case DestroyDetach(t) => DetachStep(s.(places := s.places[t := Running]), t)
    case Exit(t) => Removed(s, t)
  }

  // ---------------------------------------------------------------- the invariant

  /** How deep the lock is held by the frames above the last native body. */
  function DepthOf(stack: seq<Frame>): nat {
    if stack == [] || Top(stack).Saved? then 0 else 1 + DepthOf(Pop(stack))
  }

  function CallsOf(stack: seq<Frame>): nat {
    if stack == [] then 0 else CallsOf(Pop(stack)) + if Top(stack).Call? then 1 else 0
  }

  /** A native body runs inside a call, and saved the depth the call held. */
  predicate Nested(stack: seq<Frame>) {
    stack != [] ==>
      Nested(Pop(stack)) &&
      (Top(stack).Saved? ==> Pop(stack) != [] && Top(Pop(stack)).Call? && Top(stack).depth == DepthOf(Pop(stack)))
  }

  /** One thread agrees with the lock, the flags and what it has open. */
  predicate ThreadOkay(r: Option<Record>, stack: seq<Frame>, place: Place, holds: bool, destroyed: bool, chosen: bool) {
    if r.None? then place.Running? && (stack == [] || stack == [Lock]) && (holds <==> stack != []) && !chosen
    else
      && Nested(stack)
      && r.value.calls == CallsOf(stack)
      && r.value.depth == DepthOf(stack) + (if place.DestroyWait? then 1 else 0)
      && (holds <==> place.Running? && r.value.depth > 0)
      && (place.MonitorWait? ==> stack != [] && Top(stack).Call?)
      && (place.DestroyWait? ==> stack == [] && !destroyed)
      && (chosen <==> place.DestroyWait?)
      && (place.Leaving? ==> stack == [] && destroyed)
      && (destroyed && !r.value.daemon ==> place.Leaving?)
  }

  function RecordOf(s: Vm, t: nat): Option<Record> {
    if t in s.records then Some(s.records[t]) else None
  }

  predicate Fine(s: Vm, t: nat) {
    ThreadOkay(RecordOf(s, t), StackOf(s, t), PlaceOf(s, t), s.holder == Some(t), s.destroyed, s.destroyer == Some(t))
  }

  predicate Distinct(list: seq<nat>) {
    forall i, j :: 0 <= i < j < |list| ==> list[i] != list[j]
  }

  /** The list holds every record once. */
  ghost predicate ListOkay(list: seq<nat>, records: map<nat, Record>) {
    && (forall t :: t in records <==> t in list)
    && Distinct(list)
  }

  /** A destroyer that was not woken still has somebody to wait for. */
  ghost predicate Awaited(s: Vm) {
    forall t :: t in s.places && s.places[t] == DestroyWait(false) ==> HasUser(s.list, s.records, t)
  }

  ghost predicate Inv(s: Vm) {
    && ListOkay(s.list, s.records)
    && (forall t: nat :: Fine(s, t))
    && Awaited(s)
    && s.cleanups == (if s.destroyed && s.list == [] then 1 else 0)
  }

  // ---------------------------------------------------------------- the invariant is kept

  lemma StackPush(stack: seq<Frame>, f: Frame)
    ensures Pop(stack + [f]) == stack && Top(stack + [f]) == f
  {
  }

  lemma {:induction false} UnlinkList(list: seq<nat>, t: nat)
    requires Distinct(list)
    ensures forall u :: u in WithoutFirst(list, t) <==> u in list && u != t
    ensures Distinct(WithoutFirst(list, t))
  {
    if list != [] {
      var rest := WithoutFirst(list[1..], t);
      UnlinkList(list[1..], t);
      assert list == [list[0]] + list[1..];
      assert forall u :: u in list[1..] ==> u != list[0];
      assert list[0] !in rest;
      assert Distinct(list[1..]);
      if list[0] != t {
        var r := [list[0]] + rest;
        forall i, j | 0 <= i < j < |r|
          ensures r[i] != r[j]
        {
          assert r[j] == rest[j - 1];
          assert i > 0 ==> r[i] == rest[i - 1];
        }
      }
    }
  }

  /** What a step of `t` leaves as it was for another thread `u`, up to waking it. */
  predicate Beside(s: Vm, n: Vm, u: nat) {
    && RecordOf(n, u) == RecordOf(s, u) && StackOf(n, u) == StackOf(s, u)
    && (PlaceOf(n, u) == PlaceOf(s, u) || PlaceOf(n, u) == Woken(PlaceOf(s, u)))
    && (n.holder == s.holder || (n.holder != Some(u) && s.holder != Some(u)))
    && (n.destroyer == s.destroyer || (n.destroyer != Some(u) && s.destroyer != Some(u)))
    && (n.destroyed == s.destroyed || (n.destroyed && !IsUser(s.records, u) && s.destroyer != Some(u)))
  }

  lemma OthersFine(s: Vm, n: Vm, t: nat)
    requires forall u: nat :: Fine(s, u)
    requires forall u: nat :: u != t ==> Beside(s, n, u)
    requires Fine(n, t)
    ensures forall u: nat :: Fine(n, u)
  {
    forall u: nat
      ensures Fine(n, u)
    {
      if u != t {
        assert Fine(s, u) && Beside(s, n, u);
      }
    }
  }

  /** The users among the threads are the same, or more. */
  lemma SameUsers(s: Vm, n: Vm)
    requires Awaited(s) && n.list == s.list
    requires forall u :: u in s.list ==> (IsUser(s.records, u) ==> IsUser(n.records, u))
    requires forall t :: t in n.places && n.places[t] == DestroyWait(false) ==>
               t in s.places && s.places[t] == DestroyWait(false)
    ensures Awaited(n)
  {
    forall t | t in n.places && n.places[t] == DestroyWait(false)
      ensures HasUser(n.list, n.records, t)
    {
      assert HasUser(s.list, s.records, t);
      var i :| 0 <= i < |s.list| && s.list[i] != t && IsUser(s.records, s.list[i]);
      assert IsUser(n.records, n.list[i]);
    }
  }

  // ---------------------------------------------------------------- other threads

  lemma LockedBeside(s: Vm, t: nat, u: nat)
    requires u != t && CanLock(s, t)
    ensures RecordOf(Locked(s, t), u) == RecordOf(s, u)
    ensures Locked(s, t).holder == s.holder || (s.holder.None? && Locked(s, t).holder == Some(t))
    ensures Locked(s, t) == s.(records := Locked(s, t).records, holder := Locked(s, t).holder)
  {
  }

  lemma UnlockedBeside(s: Vm, t: nat, u: nat)
    requires u != t
    ensures RecordOf(Unlocked(s, t), u) == RecordOf(s, u)
    ensures Unlocked(s, t).holder == s.holder || Unlocked(s, t).holder == None
    ensures Unlocked(s, t) == s.(records := Unlocked(s, t).records, holder := Unlocked(s, t).holder)
  {
  }

  lemma RemovedBeside(s: Vm, t: nat, u: nat)
    requires u != t
    ensures Beside(s, Removed(s, t), u)
  {
  }

  lemma NoUser(list: seq<nat>, records: map<nat, Record>, t: nat, u: nat)
    requires ListOkay(list, records) && !HasUser(list, records, t) && u != t
    ensures !IsUser(records, u)
  {
    assert u in records ==> u in list;
  }

  lemma DecidedBeside(s: Vm, t: nat, u: nat)
    requires u != t && t in s.records && ListOkay(s.list, s.records) && s.destroyer == Some(t)
    requires s.holder == Some(t)
    ensures Beside(s, Decided(s, t), u)
  {
    UnlockedBeside(s, t, u);
    hide HasUser, Unlocked, ListOkay;
    if !HasUser(s.list, s.records, t) {
      NoUser(s.list, s.records, t, u);
    }
  }

  /** A thread with the lock, and no other, is the holder. */
  lemma OnlyHolder(s: Vm, t: nat)
    requires Fine(s, t) && PlaceOf(s, t).Running? && StackOf(s, t) != [] && !Top(StackOf(s, t)).Saved?
    ensures s.holder == Some(t)
  {
  }

  lemma HolderLocks(s: Vm, t: nat)
    requires Fine(s, t) && CanLock(s, t) && PlaceOf(s, t).Running?
    ensures s.holder == None || s.holder == Some(t)
    ensures Locked(s, t).holder == Some(t)
  {
  }

  lemma OthersLock(s: Vm, step: Step, u: nat)
    requires Enabled(s, step) && Fine(s, step.t) && u != step.t
    requires step.TakeLock? || step.DropLock? || step.Enter? || step.Leave?
    ensures Beside(s, Apply(s, step), u)
  {
    var t := step.t;
    match step
    case TakeLock(_) => LockedBeside(s, t, u);
    case DropLock(_) => OnlyHolder(s, t);
    case Enter(_, _) => HolderLocks(s, t);
    case Leave(_) => OnlyHolder(s, t);
  }

  lemma OthersWait(s: Vm, step: Step, u: nat)
    requires Enabled(s, step) && Fine(s, step.t) && u != step.t
    requires step.Suspend? || step.Resume? || step.MonitorSleep? || step.MonitorWake? || step.Notify?
    ensures Beside(s, Apply(s, step), u)
  {
    if step.Suspend? || step.MonitorSleep? {
      OnlyHolder(s, step.t);
    }
  }

  lemma OthersLife(s: Vm, step: Step, u: nat)
    requires Enabled(s, step) && Fine(s, step.t) && ListOkay(s.list, s.records) && u != step.t
    requires !step.TakeLock? && !step.DropLock? && !step.Enter? && !step.Leave?
    requires !step.Suspend? && !step.Resume? && !step.MonitorSleep? && !step.MonitorWake? && !step.Notify?
    ensures Beside(s, Apply(s, step), u)
  {
    var t := step.t;
    hide ListOkay, Decided, Removed;
    match step
    case Attach(_, _, _) =>
    case Detach(_) => RemovedBeside(s, t, u);
    case Destroy(_) =>
      if !DestroyRefused(s, t) {
        var m := Locked(s, t).(destroyer := Some(t));
        LockedBeside(s, t, u);
        LockedList(s, t);
        DecidedBeside(m, t, u);
        assert Beside(s, m, u);
      }
    case DestroyWake(_) => DecidedBeside(s.(holder := Some(t)), t, u);
    case DestroyDetach(_) => RemovedBeside(s.(places := s.places[t := Running]), t, u);
    case Exit(_) => RemovedBeside(s, t, u);
  }

  lemma LockedList(s: Vm, t: nat)
    requires ListOkay(s.list, s.records)
    ensures ListOkay(Locked(s, t).list, Locked(s, t).records)
    ensures forall u :: IsUser(Locked(s, t).records, u) <==> IsUser(s.records, u)
  {
  }

  /** No step changes how another thread stands, except by waking it. */
  lemma Others(s: Vm, step: Step, u: nat)
    requires Enabled(s, step) && Fine(s, step.t) && ListOkay(s.list, s.records) && u != step.t
    ensures Beside(s, Apply(s, step), u)
  {
    hide Apply, Beside, ListOkay, Enabled, Fine;
    if step.TakeLock? || step.DropLock? || step.Enter? || step.Leave? {
      OthersLock(s, step, u);
    } else if step.Suspend? || step.Resume? || step.MonitorSleep? || step.MonitorWake? || step.Notify? {
      OthersWait(s, step, u);
    } else {
      OthersLife(s, step, u);
    }
  }

  // ---------------------------------------------------------------- the thread itself

  lemma LockFine(s: Vm, t: nat)
    requires Fine(s, t) && Enabled(s, TakeLock(t))
    ensures Fine(Apply(s, TakeLock(t)), t)
  {
    StackPush(StackOf(s, t), Lock);
  }

  lemma DropFine(s: Vm, t: nat)
    requires Fine(s, t) && Enabled(s, DropLock(t))
    ensures Fine(Apply(s, DropLock(t)), t)
  {
  }

  lemma EnterFine(s: Vm, t: nat, own: bool)
    requires Fine(s, t) && Enabled(s, Enter(t, own))
    ensures Fine(Apply(s, Enter(t, own)), t)
  {
    StackPush(StackOf(s, t), Call);
  }

  lemma LeaveFine(s: Vm, t: nat)
    requires Fine(s, t) && Enabled(s, Leave(t))
    ensures Fine(Apply(s, Leave(t)), t)
  {
  }

  lemma SuspendFine(s: Vm, t: nat)
    requires Fine(s, t) && Enabled(s, Suspend(t))
    ensures Fine(Apply(s, Suspend(t)), t)
  {
    StackPush(StackOf(s, t), Saved(s.records[t].depth));
  }

  lemma ResumeFine(s: Vm, t: nat)
    requires Fine(s, t) && Enabled(s, Resume(t))
    ensures Fine(Apply(s, Resume(t)), t)
    ensures Apply(s, Resume(t)).records[t].depth == DepthOf(Pop(StackOf(s, t))) > 0
  {
  }

  lemma NothingOpen(stack: seq<Frame>)
    requires Nested(stack) && CallsOf(stack) == 0 && DepthOf(stack) == 0
    ensures stack == []
  {
  }

  lemma DestroyFine(s: Vm, t: nat)
    requires Fine(s, t) && Enabled(s, Destroy(t))
    ensures Fine(Apply(s, Destroy(t)), t)
  {
    if !DestroyRefused(s, t) {
      NothingOpen(StackOf(s, t));
    }
    hide HasUser, Nested, CallsOf, DepthOf;
    assert DepthOf([]) == 0;
  }

  lemma WaitFine(s: Vm, step: Step)
    requires Fine(s, step.t) && Enabled(s, step)
    requires step.MonitorSleep? || step.MonitorWake? || step.Notify? || step.DestroyWake?
    ensures Fine(Apply(s, step), step.t)
  {
    hide HasUser;
  }

  lemma RegisterFine(s: Vm, step: Step)
    requires Fine(s, step.t) && Enabled(s, step)
    requires step.Attach? || step.Detach? || step.DestroyDetach? || step.Exit?
    ensures Fine(Apply(s, step), step.t)
  {
    hide WithoutFirst;
  }

  // ---------------------------------------------------------------- the list and the waits

  /** The rest of the invariant. */
  ghost predicate Settled(s: Vm) {
    && ListOkay(s.list, s.records)
    && Awaited(s)
    && s.cleanups == (if s.destroyed && s.list == [] then 1 else 0)
  }

  lemma SettledSame(s: Vm, n: Vm)
    requires Settled(s) && n.list == s.list && n.cleanups == s.cleanups && n.records.Keys == s.records.Keys
    requires n.destroyed == s.destroyed || (s.list != [] && n.destroyed)
    requires forall u :: u in s.list ==> (IsUser(s.records, u) ==> IsUser(n.records, u))
    requires forall t :: t in n.places && n.places[t] == DestroyWait(false) ==>
               t in s.places && s.places[t] == DestroyWait(false)
    ensures Settled(n)
  {
    SameUsers(s, n);
    assert forall t :: t in n.records <==> t in n.records.Keys;
    assert forall t :: t in s.records <==> t in s.records.Keys;
  }

  lemma SettledRemoved(s: Vm, t: nat)
    requires Settled(s) && t in s.records
    ensures Settled(Removed(s, t))
  {
    UnlinkList(s.list, t);
    hide WithoutFirst;
    var n := Removed(s, t);
    assert forall u :: u in n.places ==> n.places[u] != DestroyWait(false);
  }

  lemma SettledAttach(s: Vm, t: nat, daemon: bool, memory: bool)
    requires Settled(s)
    ensures Settled(AttachStep(s, t, daemon, memory))
  {
    var n := AttachStep(s, t, daemon, memory);
    if n != s {
      assert Distinct(n.list);
      forall d | d in n.places && n.places[d] == DestroyWait(false)
        ensures HasUser(n.list, n.records, d)
      {
        assert HasUser(s.list, s.records, d);
        var i :| 0 <= i < |s.list| && s.list[i] != d && IsUser(s.records, s.list[i]);
        assert n.list[i + 1] == s.list[i];
      }
    }
  }

  lemma SettledDecided(s: Vm, t: nat)
    requires Settled(s) && t in s.records
    ensures Settled(Decided(s, t))
  {
    var n := Decided(s, t);
    assert t in s.list;
    if HasUser(s.list, s.records, t) {
      forall d | d in n.places && n.places[d] == DestroyWait(false)
        ensures HasUser(n.list, n.records, d)
      {
      }
    } else {
      SettledSame(s, n);
    }
  }

  /** Updating one thread's record, but not whether it is a daemon. */
  lemma SettledRecord(s: Vm, n: Vm, t: nat)
    requires Settled(s) && n.list == s.list && n.cleanups == s.cleanups && n.destroyed == s.destroyed
    requires n.places == s.places
    requires n.records == s.records ||
             (t in s.records && t in n.records && n.records == s.records[t := n.records[t]] &&
              n.records[t].daemon == s.records[t].daemon)
    ensures Settled(n)
  {
    hide Settled;
    SettledSame(s, n);
  }

  lemma SettledCall(s: Vm, step: Step)
    requires Settled(s) && Enabled(s, step) && (step.TakeLock? || step.DropLock? || step.Enter? || step.Leave?)
    ensures Settled(Apply(s, step))
  {
    hide Settled, Nested, CallsOf, DepthOf, StackOf, Pop;
    var t := step.t;
    if step.Enter? || step.TakeLock? {
      SettledRecord(s, Locked(s, t), t);
      SettledRecord(Locked(s, t), Apply(s, step), t);
    } else {
      SettledRecord(s, Unlocked(s, t), t);
      SettledRecord(Unlocked(s, t), Apply(s, step), t);
    }
  }

  lemma SettledLock(s: Vm, step: Step)
    requires Settled(s) && Enabled(s, step)
    requires !step.Attach? && !step.Detach? && !step.Destroy? && !step.DestroyWake? && !step.DestroyDetach? &&
             !step.Exit?
    requires Fine(s, step.t)
    ensures Settled(Apply(s, step))
  {
    if step.TakeLock? || step.DropLock? || step.Enter? || step.Leave? {
      SettledCall(s, step);
    } else {
      hide Settled, Nested, CallsOf, DepthOf, StackOf;
      SettledSame(s, Apply(s, step));
    }
  }

  lemma SettledStep(s: Vm, step: Step)
    requires Settled(s) && Enabled(s, step) && Fine(s, step.t)
    ensures Settled(Apply(s, step))
  {
    var t := step.t;
    hide Settled, Decided, Removed, HasUser, AttachStep;
    match step
    case Attach(_, daemon, memory) => SettledAttach(s, t, daemon, memory);
    case Detach(_) =>
      if t in s.records {
        SettledRemoved(s, t);
      }
    case Destroy(_) =>
      if !DestroyRefused(s, t) {
        var m := Locked(s, t).(destroyer := Some(t));
        SettledSame(s, m);
        SettledDecided(m, t);
      }
    case DestroyWake(_) =>
      SettledSame(s, s.(holder := Some(t)));
      SettledDecided(s.(holder := Some(t)), t);
    case DestroyDetach(_) =>
      var m := s.(places := s.places[t := Running]);
      SettledSame(s, m);
      SettledRemoved(m, t);
    case Exit(_) => SettledRemoved(s, t);
    case _ => SettledLock(s, step);
  }

  lemma OwnStep(s: Vm, step: Step)
    requires Enabled(s, step) && Fine(s, step.t)
    ensures Fine(Apply(s, step), step.t)
  {
    hide Fine, Apply, Enabled;
    match step
    case TakeLock(t) => LockFine(s, t);
    case DropLock(t) => DropFine(s, t);
    case Enter(t, own) => EnterFine(s, t, own);
    case Leave(t) => LeaveFine(s, t);
    case Suspend(t) => SuspendFine(s, t);
    case Resume(t) => ResumeFine(s, t);
    case Destroy(t) => DestroyFine(s, t);
    case Attach(_, _, _) => RegisterFine(s, step);
    case Detach(_) => RegisterFine(s, step);
    case DestroyDetach(_) => RegisterFine(s, step);
    case Exit(_) => RegisterFine(s, step);
    case _ => WaitFine(s, step);
  }

  /** Every step keeps the invariant. */
  lemma StepKeeps(s: Vm, step: Step)
    requires Inv(s) && Enabled(s, step)
    ensures Inv(Apply(s, step))
  {
    hide Apply, Enabled, Fine, ListOkay, Awaited, Beside;
    assert Fine(s, step.t);
    OwnStep(s, step);
    forall u: nat | u != step.t
      ensures Beside(s, Apply(s, step), u)
    {
      Others(s, step, u);
    }
    OthersFine(s, Apply(s, step), step.t);
    SettledStep(s, step);
  }
}
