/** When each call on a JNI thread succeeds, and what it changes when it does (src/bridges/jni/thread.c:66-246): the
    outcome of every step of the protocol, in any state it can reach. */
module ThreadCalls {
  import opened Common
  import opened ThreadProtocol

  /** Nothing but the thread's own record and what it has open changes, and the mutex. */
  ghost predicate OnlyOwn(s: Vm, r: Vm, t: nat) {
    && r.list == s.list && r.destroyed == s.destroyed && r.destroyer == s.destroyer && r.cleanups == s.cleanups
    && r.places == s.places && r.records.Keys == s.records.Keys
    && forall u :: u != t ==> RecordOf(r, u) == RecordOf(s, u) && StackOf(r, u) == StackOf(s, u)
  }

  /** A call is entered exactly by the attached thread whose environment it is, on a machine that is not destroyed: one
      level deeper, with the mutex, and as a new top-level call if no other was open. */
  lemma EnterDecides(s: Vm, t: nat, own: bool)
    requires Inv(s) && Enabled(s, Enter(t, own))
    ensures var r := Apply(s, Enter(t, own));
            if t in s.records && own && !s.destroyed then
              && OnlyOwn(s, r, t) && r.holder == Some(t) && StackOf(r, t) == StackOf(s, t) + [Call]
              && r.records[t].calls == s.records[t].calls + 1 && r.records[t].depth == s.records[t].depth + 1
              && r.records[t].serial == s.records[t].serial + (if s.records[t].calls == 0 then 1 else 0)
              && r.records[t].daemon == s.records[t].daemon
            else r == s
  {
    FineIs(s, t);
    hide Inv, Fine, CallsOf, DepthOf, Nested;
  }

  lemma FineIs(s: Vm, t: nat)
    requires Inv(s)
    ensures t in s.records && PlaceOf(s, t).Running? ==> (s.holder == Some(t) <==> s.records[t].depth > 0)
    ensures t in s.records && StackOf(s, t) != [] && Top(StackOf(s, t)) == Call ==> s.records[t].depth > 0
    ensures t in s.records && PlaceOf(s, t).DestroyWait? ==> s.records[t].depth == 1
    ensures t in s.records ==> (s.destroyer == Some(t) <==> PlaceOf(s, t).DestroyWait?)
    ensures t !in s.records ==> PlaceOf(s, t).Running?
  {
    assert Fine(s, t);
  }

  /** Leaving takes one call and one level back, and gives the mutex up exactly with the last level. */
  lemma LeaveDecides(s: Vm, t: nat)
    requires Inv(s) && Enabled(s, Leave(t))
    ensures var r := Apply(s, Leave(t));
            && OnlyOwn(s, r, t) && StackOf(r, t) == StackOf(s, t)[..|StackOf(s, t)| - 1]
            && r.records[t].calls == s.records[t].calls - 1 && r.records[t].depth == s.records[t].depth - 1
            && r.records[t].serial == s.records[t].serial && r.records[t].daemon == s.records[t].daemon
            && r.holder == if s.records[t].depth > 1 then s.holder else None
  {
    FineIs(s, t);
    hide Inv, Fine, CallsOf, DepthOf, Nested;
  }

  /** The lock is recursive: taking it is one level deeper. */
  lemma LockDecides(s: Vm, t: nat)
    requires Inv(s) && Enabled(s, TakeLock(t))
    ensures var r := Apply(s, TakeLock(t));
            && OnlyOwn(s, r, t) && r.holder == Some(t) && StackOf(r, t) == StackOf(s, t) + [Lock]
            && (t in s.records ==> r.records[t] == s.records[t].(depth := s.records[t].depth + 1))
  {
    hide Inv, Fine, CallsOf, DepthOf, Nested;
    FineIs(s, t);
    if t in s.records && s.records[t].depth > 0 {
      assert s.holder == Some(t);
    }
  }

  /** The last level back gives the mutex up. */
  lemma UnlockDecides(s: Vm, t: nat)
    requires Inv(s) && Enabled(s, DropLock(t))
    ensures var r := Apply(s, DropLock(t));
            && OnlyOwn(s, r, t) && StackOf(r, t) == StackOf(s, t)[..|StackOf(s, t)| - 1]
            && (t in s.records ==>
                 r.records[t] == s.records[t].(depth := r.records[t].depth) &&
                 r.records[t].depth == s.records[t].depth - 1)
            && r.holder == if t in s.records && s.records[t].depth > 1 then s.holder else None
  {
    LockedIs(s, t);
    hide Inv, Fine, CallsOf, DepthOf, Nested;
  }

  lemma LockedIs(s: Vm, t: nat)
    requires Inv(s) && Opened(s, t, Lock)
    ensures t in s.records ==> s.records[t].depth > 0
  {
    assert Fine(s, t);
  }

  /** A native body runs with the mutex given up; its depth is put away, and comes back with the mutex. */
  lemma SuspendDecides(s: Vm, t: nat)
    requires Inv(s) && Enabled(s, Suspend(t))
    ensures var r := Apply(s, Suspend(t));
            && OnlyOwn(s, r, t) && r.holder.None? && StackOf(r, t) == StackOf(s, t) + [Saved(s.records[t].depth)]
            && r.records[t] == s.records[t].(depth := 0)
            && Enabled(r, Resume(t)) && s.holder == Some(t) && Apply(r, Resume(t)).holder == Some(t)
            && Apply(r, Resume(t)).records[t] == s.records[t]
            && StackOf(Apply(r, Resume(t)), t) == StackOf(s, t)
  {
    FineIs(s, t);
    hide Inv, Fine, CallsOf, DepthOf, Nested;
  }

  /** A thread attaches exactly when it is not attached, there is memory, and nobody destroys the machine or has
      destroyed it: as the daemon or user thread it asked to be, with nothing open. An attached one stays as it is. */
  lemma AttachDecides(s: Vm, t: nat, daemon: bool, memory: bool)
    requires Inv(s) && Enabled(s, Attach(t, daemon, memory))
    ensures var r := Apply(s, Attach(t, daemon, memory));
            if t !in s.records && memory && !s.destroyed && s.destroyer.None? then
              && t in r.records && r.records[t].daemon == daemon
              && r.records[t].calls == r.records[t].depth == r.records[t].serial == 0
              && r.records.Keys == s.records.Keys + {t} && (forall u :: u in s.records ==> r.records[u] == s.records[u])
              && r == s.(list := [t] + s.list, records := r.records)
            else r == s
  {
  }

  /** Every waiter is woken. */
  ghost predicate AllWoken(s: Vm, r: Vm, t: nat) {
    forall u :: u != t ==>
      PlaceOf(r, u) == match PlaceOf(s, u)
                       case MonitorWait(_) => MonitorWait(true)
                       case DestroyWait(_) => DestroyWait(true)
                       case Running => Running
                       case Leaving => Leaving
  }

  /** The thread is gone, and everything else is as it was but woken; the last one to go from a destroyed machine
      cleans it up. */
  ghost predicate Gone(s: Vm, r: Vm, t: nat) {
    && r.records == s.records - {t} && (forall u :: u in r.list <==> u in s.list && u != t)
    && StackOf(r, t) == [] && PlaceOf(r, t) == Running && AllWoken(s, r, t)
    && (forall u :: u != t ==> StackOf(r, u) == StackOf(s, u))
    && r.holder == s.holder && r.destroyed == s.destroyed && r.destroyer == s.destroyer
    && r.cleanups == s.cleanups + if s.destroyed && s.records.Keys <= {t} then 1 else 0
  }

  lemma LastToGo(s: Vm, t: nat)
    requires Inv(s)
    ensures forall u :: u in WithoutFirst(s.list, t) <==> u in s.list && u != t
    ensures WithoutFirst(s.list, t) == [] <==> s.records.Keys <= {t}
  {
    UnlinkList(s.list, t);
    var list := WithoutFirst(s.list, t);
    if list == [] {
      forall u | u in s.records
        ensures u == t
      {
        assert u in s.list && u !in list;
      }
    } else {
      assert list[0] in s.list && list[0] != t && list[0] in s.records;
    }
  }

  lemma RemovedIsGone(s: Vm, t: nat)
    requires Inv(s) && t in s.records
    ensures Gone(s, Removed(s, t), t)
  {
    hide Inv, Fine, WithoutFirst;
    LastToGo(s, t);
  }

  /** A thread detaches exactly when it is attached and has no call open; a thread that exits goes in any case. */
  lemma DetachDecides(s: Vm, t: nat)
    requires Inv(s) && Enabled(s, Detach(t))
    ensures var r := Apply(s, Detach(t));
            if t in s.records && s.records[t].calls == 0 then Gone(s, r, t) else r == s
    ensures t in s.records ==> Gone(s, Apply(s, Exit(t)), t)
  {
    hide Inv, Removed, Gone;
    if t in s.records {
      RemovedIsGone(s, t);
    }
  }

  /** The machine is destroyed exactly by an attached thread without an open call, if nobody else does so: at once when
      it is the only user thread, and otherwise it waits, with the mutex given up. */
  lemma DestroyDecides(s: Vm, t: nat)
    requires Inv(s) && Enabled(s, Destroy(t))
    ensures var r := Apply(s, Destroy(t));
            if t in s.records && s.records[t].calls == 0 && !s.destroyed && s.destroyer.None? then
              && r.holder.None? && r.list == s.list && r.stacks == s.stacks && r.cleanups == s.cleanups
              && (forall u :: u != t ==> RecordOf(r, u) == RecordOf(s, u) && PlaceOf(r, u) == PlaceOf(s, u))
              && (if exists u :: u != t && IsUser(s.records, u) then
                    && r.destroyer == Some(t) && !r.destroyed && PlaceOf(r, t) == DestroyWait(false)
                    && r.records == s.records[t := s.records[t].(depth := 1)]
                  else r.destroyer.None? && r.destroyed && PlaceOf(r, t) == Leaving && r.records == s.records)
            else r == s
  {
    hide Inv, Fine, HasUser, Locked, Unlocked;
    FineIs(s, t);
    UsersAre(s, t);
    if t in s.records {
      LockOnce(s, t);
    }
  }

  /** A destroyer that goes on looks again: it waits on while there is another user thread, and otherwise the machine is
      destroyed. */
  lemma DestructionGoesOn(s: Vm, t: nat)
    requires Inv(s) && Enabled(s, DestroyWake(t))
    ensures var r := Apply(s, DestroyWake(t));
            && r.holder.None? && r.list == s.list && r.stacks == s.stacks && r.cleanups == s.cleanups
            && (forall u :: u != t ==> RecordOf(r, u) == RecordOf(s, u) && PlaceOf(r, u) == PlaceOf(s, u))
            && (if exists u :: u != t && IsUser(s.records, u) then
                  && r.destroyer == s.destroyer && r.destroyed == s.destroyed && PlaceOf(r, t) == DestroyWait(false)
                  && r.records == s.records
                else
                  && r.destroyer.None? && r.destroyed && PlaceOf(r, t) == Leaving
                  && r.records == s.records[t := s.records[t].(depth := 0)])
  {
    hide Inv, Fine, HasUser;
    FineIs(s, t);
    UsersAre(s, t);
  }

  /** Then it detaches, like any other thread. */
  lemma DestroyerDetaches(s: Vm, t: nat)
    requires Inv(s) && Enabled(s, DestroyDetach(t))
    ensures Gone(s, Apply(s, DestroyDetach(t)), t)
  {
    hide Inv, Removed, Gone;
    LeavingIs(s, t);
    RemovedIsGone(s, t);
  }

  lemma LeavingIs(s: Vm, t: nat)
    requires Inv(s) && PlaceOf(s, t).Leaving?
    ensures t in s.records && s.records[t].calls == 0
    ensures Removed(s.(places := s.places[t := Running]), t) == Removed(s, t)
  {
    assert Fine(s, t);
    assert s.places[t := Running][t := Running] == s.places[t := Running];
  }

  lemma LockOnce(s: Vm, t: nat)
    requires t in s.records && s.records[t].depth == 0 && s.holder.None?
    ensures var l := s.(records := s.records[t := s.records[t].(depth := 1)], holder := Some(t));
            && Locked(s, t) == l
            && forall d: Option<nat> :: Unlocked(l.(destroyer := d), t) == s.(destroyer := d)
  {
    assert s.records[t := s.records[t].(depth := 1)][t := s.records[t]] == s.records;
  }

  lemma UsersAre(s: Vm, t: nat)
    requires Inv(s)
    ensures HasUser(s.list, s.records, t) <==> exists u :: u != t && IsUser(s.records, u)
    ensures t in s.records ==>
              (HasUser(s.list, s.records[t := s.records[t].(depth := 1)], t) <==> HasUser(s.list, s.records, t))
  {
    if HasUser(s.list, s.records, t) {
      var i :| 0 <= i < |s.list| && s.list[i] != t && IsUser(s.records, s.list[i]);
    }
    if u :| u != t && IsUser(s.records, u) {
      assert u in s.list;
      var i :| 0 <= i < |s.list| && s.list[i] == u;
    }
    if t in s.records {
      var deeper := s.records[t := s.records[t].(depth := 1)];
      forall i | 0 <= i < |s.list|
        ensures IsUser(deeper, s.list[i]) <==> IsUser(s.records, s.list[i])
      {
      }
    }
  }

  /** A waiting thread gives the mutex up and has it again when it goes on; a notification wakes every waiter. */
  lemma WaitDecides(s: Vm, t: nat)
    requires Inv(s)
    ensures Enabled(s, MonitorSleep(t)) ==>
              var r := Apply(s, MonitorSleep(t));
              r == s.(holder := None, places := r.places) && Placed(s, r, t, MonitorWait(false))
    ensures Enabled(s, MonitorWake(t)) ==>
              var r := Apply(s, MonitorWake(t));
              r == s.(holder := Some(t), places := r.places) && Placed(s, r, t, Running)
    ensures Enabled(s, Notify(t)) ==>
              var r := Apply(s, Notify(t));
              r == s.(places := r.places) && AllWoken(s, r, t)
  {
    hide Inv, Fine;
  }

  ghost predicate Placed(s: Vm, r: Vm, t: nat, place: Place) {
    PlaceOf(r, t) == place && forall u :: u != t ==> PlaceOf(r, u) == PlaceOf(s, u)
  }

  // ---------------------------------------------------------------- who may go on

  /** How a thread goes on from where it stands: it leaves what it opened last, wakes, or enters. */
  function Onward(s: Vm, t: nat): Step {
    match PlaceOf(s, t)
    case MonitorWait(_) => MonitorWake(t)
    case DestroyWait(_) => DestroyWake(t)
    case Leaving => DestroyDetach(t)
    case Running =>
      if StackOf(s, t) == [] then Enter(t, true)
      else match Top(StackOf(s, t))
        case Call => Leave(t)
        case Lock => DropLock(t)
        case Saved(_) => Resume(t)
  }

  /** Nothing but the mutex makes a thread wait, and whoever has the mutex can go on: no state is a deadlock. */
  lemma OnlyTheMutexBlocks(s: Vm, t: nat, own: bool, daemon: bool, memory: bool)
    requires Inv(s)
    ensures Enabled(s, Onward(s, t)) <==> s.holder.None? || s.holder == Some(t)
    ensures PlaceOf(s, t).Running? && (s.holder.None? || (t in s.records && s.holder == Some(t))) ==>
              Enabled(s, TakeLock(t)) && Enabled(s, Enter(t, own)) && Enabled(s, Attach(t, daemon, memory))
    ensures PlaceOf(s, t).Running? && StackOf(s, t) != [] && Top(StackOf(s, t)) == Call ==>
              s.holder == Some(t) && Enabled(s, Suspend(t)) && Enabled(s, MonitorSleep(t)) && Enabled(s, Notify(t))
    ensures PlaceOf(s, t).Running? && s.holder.None? ==>
              Enabled(s, Detach(t)) && Enabled(s, Destroy(t)) && (t in s.records ==> Enabled(s, Exit(t)))
  {
    assert Fine(s, t);
  }
}
