/** What the runtime lock and the attach, detach and destroy protocol guarantee over every interleaving
    (src/bridges/jni/thread.c; Java Native Interface specification, chapter 5), and its critical sections as code. */
module Thread {
  import opened Common
  import opened ThreadProtocol

  /** A run from a fresh virtual machine. */
  ghost predicate Run(trace: seq<Vm>) {
    && |trace| > 0
    && trace[0] == START
    && forall i :: 0 < i < |trace| ==> Follows(trace[i - 1], trace[i])
  }

  ghost predicate Follows(s: Vm, n: Vm) {
    exists step :: Enabled(s, step) && n == Apply(s, step)
  }

  lemma {:induction false} RunKeepsInvariant(trace: seq<Vm>, i: nat)
    requires Run(trace) && i < |trace|
    ensures Inv(trace[i])
  {
    hide Apply, Enabled;
    if i > 0 {
      RunKeepsInvariant(trace, i - 1);
      assert Follows(trace[i - 1], trace[i]);
      var step :| Enabled(trace[i - 1], step) && trace[i] == Apply(trace[i - 1], step);
      StepKeeps(trace[i - 1], step);
    }
  }

  /** An awake attached thread has the mutex exactly when its depth is positive; a waiting one has given it
      up and remembers its depth; a thread inside a native body has depth 0 until it calls in again. */
  lemma MutexIsDepth(trace: seq<Vm>, i: nat, t: nat)
    requires Run(trace) && i < |trace| && t in trace[i].records
    ensures var s := trace[i];
            && (PlaceOf(s, t).Running? ==> (s.holder == Some(t) <==> s.records[t].depth > 0))
            && (!PlaceOf(s, t).Running? ==> s.holder != Some(t))
            && (PlaceOf(s, t).MonitorWait? || PlaceOf(s, t).DestroyWait? ==> s.records[t].depth > 0)
            && (StackOf(s, t) != [] && Top(StackOf(s, t)).Saved? ==> s.records[t].depth == 0 && s.records[t].calls > 0)
  {
    RunKeepsInvariant(trace, i);
    assert Fine(trace[i], t);
    var stack := StackOf(trace[i], t);
    if stack != [] && Top(stack).Saved? {
      assert CallsOf(Pop(stack)) > 0;
    }
  }

  /** However a native body locks, calls in, waits or nests further native bodies: back where it started,
      the thread has the depth and the number of calls it had. */
  lemma NestingRestores(trace: seq<Vm>, i: nat, j: nat, t: nat)
    requires Run(trace) && i < |trace| && j < |trace|
    requires t in trace[i].records && t in trace[j].records && StackOf(trace[i], t) == StackOf(trace[j], t)
    requires PlaceOf(trace[i], t).Running? && PlaceOf(trace[j], t).Running?
    ensures trace[i].records[t].depth == trace[j].records[t].depth
    ensures trace[i].records[t].calls == trace[j].records[t].calls
  {
    RunKeepsInvariant(trace, i);
    RunKeepsInvariant(trace, j);
    assert Fine(trace[i], t) && Fine(trace[j], t);
  }

  /** Resuming from a native body brings back the depth of the call around it. */
  lemma ResumeRestores(trace: seq<Vm>, i: nat, t: nat)
    requires Run(trace) && i < |trace| && Enabled(trace[i], Resume(t))
    ensures Apply(trace[i], Resume(t)).records[t].depth == DepthOf(Pop(StackOf(trace[i], t))) > 0
  {
    RunKeepsInvariant(trace, i);
    assert Fine(trace[i], t);
    ResumeFine(trace[i], t);
  }

  /** Somebody destroys the machine, or has destroyed it. */
  predicate Closed(s: Vm) {
    s.destroyed || s.destroyer.Some?
  }

  lemma ClosedStep(s: Vm, step: Step)
    requires Inv(s) && Enabled(s, step) && Closed(s)
    ensures Closed(Apply(s, step))
    ensures forall t :: t in Apply(s, step).records ==>
              t in s.records && Apply(s, step).records[t].daemon == s.records[t].daemon
    ensures s.destroyed ==> Apply(s, step).destroyed
  {
    hide Inv, HasUser, WithoutFirst;
  }

  /** Once a destroyer is set no new thread attaches, ever. */
  lemma {:induction false} ClosedForever(trace: seq<Vm>, i: nat, j: nat)
    requires Run(trace) && i <= j < |trace| && Closed(trace[i])
    ensures Closed(trace[j]) && (trace[i].destroyed ==> trace[j].destroyed)
    ensures forall t :: t in trace[j].records ==>
                          t in trace[i].records && trace[j].records[t].daemon == trace[i].records[t].daemon
    decreases j - i
  {
    hide Apply, Enabled, Inv, Closed;
    if i < j {
      ClosedForever(trace, i, j - 1);
      RunKeepsInvariant(trace, j - 1);
      assert Follows(trace[j - 1], trace[j]);
      var step :| Enabled(trace[j - 1], step) && trace[j] == Apply(trace[j - 1], step);
      ClosedStep(trace[j - 1], step);
    }
  }

  /** A destroyed machine has no user thread left but the one that is destroying it, and no call and no
      attachment succeeds any more. */
  lemma DestroyedMeansAlone(trace: seq<Vm>, i: nat)
    requires Run(trace) && i < |trace| && trace[i].destroyed
    ensures var s := trace[i];
            && (forall t :: IsUser(s.records, t) ==> PlaceOf(s, t).Leaving?)
            && (forall t, own :: Enabled(s, Enter(t, own)) ==> EnterRefused(s, t, own) && Apply(s, Enter(t, own)) == s)
            && (forall t, daemon, memory :: Enabled(s, Attach(t, daemon, memory)) ==>
                  AttachRefused(s, t) && Apply(s, Attach(t, daemon, memory)) == s)
            && (forall t :: Enabled(s, Destroy(t)) ==> DestroyRefused(s, t) && Apply(s, Destroy(t)) == s)
  {
    RunKeepsInvariant(trace, i);
    var s := trace[i];
    forall t | IsUser(s.records, t)
      ensures PlaceOf(s, t).Leaving?
    {
      assert Fine(s, t);
    }
  }

  /** The detachment that ends a destruction always succeeds. */
  lemma DestroyCompletes(trace: seq<Vm>, i: nat, t: nat)
    requires Run(trace) && i < |trace| && PlaceOf(trace[i], t).Leaving?
    ensures trace[i].destroyed && t in trace[i].records && trace[i].records[t].calls == 0
    ensures Enabled(trace[i], DestroyDetach(t)) ==> t !in Apply(trace[i], DestroyDetach(t)).records
  {
    RunKeepsInvariant(trace, i);
    assert Fine(trace[i], t);
  }

  /** Detaching gives the mutex up even when the thread held it before the call, which is why the protocol has
      guest code detach only at depth 0: the frames still open lose the lock exactly when the depth was positive. */
  lemma DetachReleases(trace: seq<Vm>, i: nat, t: nat)
    requires Run(trace) && i < |trace| && t in trace[i].records && trace[i].records[t].calls == 0
    requires PlaceOf(trace[i], t).Running? && CanLock(trace[i], t)
    ensures var s := trace[i]; var n := Unlocked(DetachStep(Locked(s, t), t), t);
            && n.holder.None? && t !in n.records
            && (s.holder == Some(t) <==> s.records[t].depth > 0)
            && (s.records[t].depth > 0 <==> StackOf(s, t) != [])
  {
    RunKeepsInvariant(trace, i);
    var s := trace[i];
    assert Fine(s, t);
    if s.records[t].depth == 0 {
      NothingOpen(StackOf(s, t));
    }
  }

  /** The machine is cleaned up once, when the last thread leaves after the destruction. */
  lemma CleanedUpOnce(trace: seq<Vm>, i: nat)
    requires Run(trace) && i < |trace|
    ensures trace[i].cleanups <= 1
    ensures trace[i].cleanups == 1 <==> trace[i].destroyed && trace[i].records == map[]
  {
    RunKeepsInvariant(trace, i);
    var s := trace[i];
    if s.list == [] {
      assert forall t :: t !in s.records;
    } else {
      assert s.list[0] in s.records;
    }
  }

  /** No wakeup is lost: a destroyer that sleeps unsignalled still has a user thread to wait for, and
      one that wakes with none left completes. */
  lemma DestroyerSleepsForSomebody(trace: seq<Vm>, i: nat, t: nat)
    requires Run(trace) && i < |trace| && PlaceOf(trace[i], t).DestroyWait?
    ensures var s := trace[i];
            && (PlaceOf(s, t) == DestroyWait(false) ==> exists u :: u != t && IsUser(s.records, u))
            && (s.holder.None? ==> Enabled(s, DestroyWake(t)))
            && (s.holder.None? && (forall u :: IsUser(s.records, u) ==> u == t) ==> Apply(s, DestroyWake(t)).destroyed)
  {
    RunKeepsInvariant(trace, i);
    var s := trace[i];
    assert Fine(s, t);
    if PlaceOf(s, t) == DestroyWait(false) {
      assert HasUser(s.list, s.records, t);
      var k :| 0 <= k < |s.list| && s.list[k] != t && IsUser(s.records, s.list[k]);
    }
  }

  // ---------------------------------------------------------------- the code

  lemma NewRecord(s: Vm, t: nat, daemon: bool)
    requires CanLock(s, t)
    ensures t !in s.records ==>
              var l := Locked(s, t);
              l.list == s.list &&
              Unlocked(l.(records := l.records[t := Record(daemon, 0, 1, 0)], list := [t] + s.list), t) ==
              s.(list := [t] + s.list, records := s.records[t := Record(daemon, 0, 0, 0)])
  {
    if t !in s.records {
      assert s.records[t := Record(daemon, 0, 1, 0)][t := Record(daemon, 0, 0, 0)] ==
             s.records[t := Record(daemon, 0, 0, 0)];
    }
  }

  /** Giving the lock back at once undoes taking it. */
  lemma EachFine(s: Vm, t: nat)
    requires Inv(s)
    ensures Fine(s, t)
  {
  }

  lemma LockUnlock(s: Vm, t: nat)
    requires Fine(s, t) && CanLock(s, t) && PlaceOf(s, t).Running?
    ensures Unlocked(Locked(s, t), t) == s
    ensures (t in Locked(s, t).records <==> t in s.records) && Locked(s, t).records.Keys == s.records.Keys
  {
    if t in s.records {
      assert s.records[t := s.records[t]] == s.records;
    }
  }

  lemma {:induction false} UnlinkAbsent(list: seq<nat>, t: nat)
    requires t !in list
    ensures WithoutFirst(list, t) == list
  {
    if list != [] {
      UnlinkAbsent(list[1..], t);
    }
  }

  /** The thread list, the flags and the mutex, with what every thread has open as ghost state. Each method
      is one critical section. */
  class Runtime {
    var list: seq<nat>
    var records: map<nat, Record>
    var holder: Option<nat>
    var destroyed: bool
    var destroyer: Option<nat>
    ghost var stacks: map<nat, seq<Frame>>
    ghost var places: map<nat, Place>
    ghost var cleanups: nat

    ghost function State(): Vm
      reads this
    {
      Vm(list, records, holder, destroyed, destroyer, stacks, places, cleanups)
    }

    constructor ()
      ensures State() == START
    {
      list, records, holder, destroyed, destroyer := [], map[], None, false, None;
      stacks, places, cleanups := map[], map[], 0;
    }

    /** `jni_thread_lock`, once it need not block. */
    method TakeMutex(t: nat)
      requires CanLock(State(), t)
      modifies this`records, this`holder
      ensures State() == Locked(old(State()), t)
    {
      if t in records && records[t].depth > 0 {
        records := records[t := records[t].(depth := records[t].depth + 1)];
        return;
      }
      holder := Some(t);
      if t in records {
        records := records[t := records[t].(depth := 1)];
      }
    }

    /** `jni_thread_unlock`. */
    method GiveMutex(t: nat)
      modifies this`records, this`holder
      ensures State() == Unlocked(old(State()), t)
    {
      if t in records && records[t].depth > 1 {
        records := records[t := records[t].(depth := records[t].depth - 1)];
        return;
      }
      if t in records {
        records := records[t := records[t].(depth := 0)];
      }
      holder := None;
    }

    /** `jni_thread_enter`. */
    method EnterCall(t: nat, own: bool) returns (ok: bool)
      requires Inv(State()) && Enabled(State(), Enter(t, own))
      modifies this
      ensures State() == Apply(old(State()), Enter(t, own)) && ok == !EnterRefused(old(State()), t, own)
    {
      hide Inv, Fine, Locked, Unlocked, CanLock;
      EachFine(State(), t);
      LockUnlock(State(), t);
      TakeMutex(t);
      if destroyed || t !in records || !own {
        GiveMutex(t);
        return false;
      }
      var r := records[t];
      records := records[t := r.(calls := r.calls + 1, serial := if r.calls == 0 then r.serial + 1 else r.serial)];
      stacks := stacks[t := StackOf(State(), t) + [Call]];
      ok := true;
    }

    /** `jni_thread_leave`; `collects` is whether the runtime collects before the mutex is given back: when the last
        call ends, and when a call from an unlocked native body does. */
    method LeaveCall(t: nat) returns (collects: bool)
      requires Enabled(State(), Leave(t))
      modifies this
      ensures State() == Apply(old(State()), Leave(t))
      ensures collects <==> State().records[t].calls == 0 || old(records[t].depth) == 1
    {
      records := records[t := records[t].(calls := records[t].calls - 1)];
      collects := records[t].calls == 0 || records[t].depth == 1;
      stacks := stacks[t := Pop(StackOf(State(), t))];
      GiveMutex(t);
    }

    /** `jni_thread_suspend`. */
    method SuspendCall(t: nat) returns (depth: nat)
      requires Enabled(State(), Suspend(t))
      modifies this
      ensures State() == Apply(old(State()), Suspend(t)) && depth == old(State()).records[t].depth
    {
      depth := records[t].depth;
      records := records[t := records[t].(depth := 0)];
      holder := None;
      stacks := stacks[t := StackOf(State(), t) + [Saved(depth)]];
    }

    /** `jni_thread_resume` with the depth `jni_thread_suspend` returned. */
    method ResumeCall(t: nat, depth: nat)
      requires Enabled(State(), Resume(t)) && Top(StackOf(State(), t)).depth == depth
      modifies this
      ensures State() == Apply(old(State()), Resume(t))
    {
      holder := Some(t);
      records := records[t := records[t].(depth := depth)];
      stacks := stacks[t := Pop(StackOf(State(), t))];
    }

    /** `__remove_thread`. */
    method RemoveThread(t: nat)
      modifies this
      ensures State() == Removed(old(State()), t)
    {
      var cursor := 0;
      while cursor < |list| && list[cursor] != t
        invariant 0 <= cursor <= |list| && t !in list[..cursor]
      {
        cursor := cursor + 1;
      }
      if cursor < |list| {
        WithoutFirstAt(list, cursor);
        list := list[..cursor] + list[cursor + 1..];
      } else {
        assert list[..cursor] == list;
        UnlinkAbsent(list, t);
      }
      records := records - {t};
      stacks := stacks[t := []];
      if destroyed && list == [] {
        cleanups := cleanups + 1;
      }
      places := Signalled(places[t := Running]);
    }

    /** `__thread_exited`: the destructor of the thread key. */
    method ThreadExited(t: nat)
      requires Enabled(State(), Exit(t))
      modifies this
      ensures State() == Apply(old(State()), Exit(t))
    {
      RemoveThread(t);
    }

    /** `__has_user_thread`. */
    method HasUserThread(current: nat) returns (found: bool)
      requires forall u :: u in list ==> u in records
      ensures found == HasUser(list, records, current)
    {
      var thread := 0;
      while thread < |list|
        invariant 0 <= thread <= |list|
        invariant forall k :: 0 <= k < thread ==> list[k] == current || !IsUser(records, list[k])
      {
        if list[thread] != current && !records[list[thread]].daemon {
          assert IsUser(records, list[thread]);
          return true;
        }
        thread := thread + 1;
      }
      found := false;
    }

    /** `jni_thread_attach`; no result stands for a refusal or a failed allocation. */
    method AttachThread(t: nat, daemon: bool, memory: bool) returns (env: bool)
      requires Inv(State()) && Enabled(State(), Attach(t, daemon, memory))
      modifies this
      ensures State() == Apply(old(State()), Attach(t, daemon, memory))
      ensures env <==> t in records && !AttachRefused(old(State()), t)
    {
      assert Fine(State(), t);
      LockUnlock(State(), t);
      NewRecord(State(), t, daemon);
      hide Inv, Fine, Locked, Unlocked, CanLock;
      TakeMutex(t);
      if destroyed || (destroyer.Some? && t !in records) {
        GiveMutex(t);
        return false;
      }
      if t !in records {
        if !memory {
          GiveMutex(t);
          return false;
        }
        records := records[t := Record(daemon, 0, 1, 0)];
        list := [t] + list;
      }
      GiveMutex(t);
      env := true;
    }

    /** `jni_thread_detach`, also at the end of `jni_thread_destroy`. */
    method DetachThread(t: nat) returns (ok: bool)
      requires holder.None? && (t in records ==> records[t].depth == 0)
      modifies this
      ensures State() == DetachStep(old(State()), t)
      ensures !ok <==> t in old(records) && old(records)[t].calls > 0
    {
      TakeMutex(t);
      if t in records && records[t].calls > 0 {
        GiveMutex(t);
        assert records == old(records);
        return false;
      }
      if t in records {
        RemoveThread(t);
        assert records == old(records) - {t};
      }
      GiveMutex(t);
      ok := true;
    }

    /** The loop of `jni_thread_destroy` from one wait to the next (lines 232-238). */
    method DecideDestroy(t: nat) returns (done: bool)
      requires t in records && forall u :: u in list ==> u in records
      modifies this
      ensures State() == Decided(old(State()), t) && done == !HasUser(old(list), old(records), t)
    {
      var waiting := HasUserThread(t);
      if waiting {
        holder := None;
        places := places[t := DestroyWait(false)];
        return false;
      }
      destroyed := true;
      destroyer := None;
      GiveMutex(t);
      places := places[t := Leaving];
      done := true;
    }

    /** `jni_thread_destroy` up to its first wait or its final detachment. */
    method DestroyMachine(t: nat) returns (accepted: bool)
      requires Inv(State()) && Enabled(State(), Destroy(t))
      modifies this
      ensures State() == Apply(old(State()), Destroy(t)) && accepted == !DestroyRefused(old(State()), t)
    {
      hide Fine, HasUser;
      TakeMutex(t);
      if t !in records || records[t].calls > 0 || destroyed || destroyer.Some? {
        GiveMutex(t);
        assert records == old(records);
        return false;
      }
      destroyer := Some(t);
      var _ := DecideDestroy(t);
      accepted := true;
    }

    /** The destroyer reacquires the mutex and looks again. */
    method WakeDestroyer(t: nat) returns (done: bool)
      requires Inv(State()) && Enabled(State(), DestroyWake(t))
      modifies this
      ensures State() == Apply(old(State()), DestroyWake(t))
    {
      holder := Some(t);
      done := DecideDestroy(t);
    }
  }
}
