/** What `_pthread_once` guarantees over every interleaving (src/bridges/libc/once.c:24-154),
    and its critical sections as code over the registry list. */
module Once {
  import opened Common
  import opened OnceProtocol

  const EMPTY := Sys(map[], [], map[], 0, map[], map[])

  /** A run from zeroed controls: any calls, interleaved, woken and cancelled in any order. */
  ghost predicate Run(trace: seq<Sys>) {
    && |trace| > 0
    && trace[0] == EMPTY
    && forall i :: 0 < i < |trace| ==> Follows(trace[i - 1], trace[i])
  }

  ghost predicate Follows(s: Sys, r: Sys) {
    exists step :: Enabled(s, step) && r == Apply(s, step)
  }

  lemma {:induction false} RunKeepsInvariant(trace: seq<Sys>, i: nat)
    requires Run(trace) && i < |trace|
    ensures Inv(trace[i])
  {
    if i == 0 {
      assert forall e :: Users(EMPTY.calls, e) == {};
      assert forall e :: Runners(EMPTY.calls, e) == {};
      assert Sleepers(EMPTY.calls) == {};
    } else {
      RunKeepsInvariant(trace, i - 1);
      assert Follows(trace[i - 1], trace[i]);
      var step :| Enabled(trace[i - 1], step) && trace[i] == Apply(trace[i - 1], step);
      StepKeeps(trace[i - 1], step);
    }
  }

  /** The control whose initializer a call is running. */
  ghost predicate IsInitializing(s: Sys, t: nat, c: nat) {
    t in s.calls && s.calls[t].Initializing? && s.calls[t].entry in s.heap && s.heap[s.calls[t].entry].control == c
  }

  /** At any moment of any run: an initializer is always running on a live record, no control
      has two of them, its word is RUNNING exactly meanwhile, none completes twice, success
      means completed, and EINVAL is never returned once the arguments were accepted. */
  lemma OneInitializerAtATime(trace: seq<Sys>, i: nat)
    requires Run(trace) && i < |trace|
    ensures var s := trace[i];
            && (forall t :: t in s.calls && s.calls[t].Initializing? ==> s.calls[t].entry in s.heap)
            && (forall t, u, c :: IsInitializing(s, t, c) && IsInitializing(s, u, c) ==> t == u)
            && (forall c :: Word(s.words, c) == RUNNING <==> exists t :: IsInitializing(s, t, c))
            && (forall c :: Runs(s.runs, c) <= 1 && (Runs(s.runs, c) == 1 <==> Word(s.words, c) == DONE))
            && (forall t :: t in s.calls && s.calls[t].Returned? ==>
                 s.calls[t].outcome != Invalid &&
                 (s.calls[t].outcome == Okay ==> Runs(s.runs, s.calls[t].control) == 1))
  {
    RunKeepsInvariant(trace, i);
    var s := trace[i];
    forall t, u, c | IsInitializing(s, t, c) && IsInitializing(s, u, c)
      ensures t == u
    {
      var e := s.calls[t].entry;
      assert s.calls[u] == Initializing(e);
      assert {t, u} <= Runners(s.calls, e);
      if t != u {
        SubsetSize({t, u}, Runners(s.calls, e));
      }
    }
    forall c
      ensures Word(s.words, c) == RUNNING <==> exists t :: IsInitializing(s, t, c)
    {
      if Word(s.words, c) == RUNNING {
        var e :| e in s.heap && s.heap[e] == Entry(c, s.heap[e].users, true);
        assert |Runners(s.calls, e)| == 1;
        var t :| t in Runners(s.calls, e);
        assert IsInitializing(s, t, c);
      }
      if t :| IsInitializing(s, t, c) {
        RunnerFound(s.heap, s.calls, t);
      }
    }
  }

  lemma {:induction false} SubsetSize(a: set<nat>, b: set<nat>)
    requires a <= b
    ensures |a| <= |b|
  {
    if a != {} {
      var x :| x in a;
      SubsetSize(a - {x}, b - {x});
    }
  }

  /** The registry itself: one record per control, counting exactly the calls inside it, and
      `__once_waiters` counting exactly the sleepers. */
  lemma RegistryIsExact(trace: seq<Sys>, i: nat)
    requires Run(trace) && i < |trace|
    ensures var s := trace[i];
            && (forall e :: e in s.list <==> e in s.heap)
            && (forall j, k :: 0 <= j < k < |s.list| ==> s.list[j] != s.list[k])
            && (forall e, f :: e in s.heap && f in s.heap && s.heap[e].control == s.heap[f].control ==> e == f)
            && (forall e :: e in s.heap ==> s.heap[e].users == |Users(s.calls, e)| > 0)
            && s.waiters == |Sleepers(s.calls)|
  {
    RunKeepsInvariant(trace, i);
  }

  /** No wakeup is lost: an unsignalled sleeper has an initializer of its control to wait for. */
  lemma NobodySleepsInVain(trace: seq<Sys>, i: nat, t: nat)
    requires Run(trace) && i < |trace|
    requires t in trace[i].calls && trace[i].calls[t].Asleep? && !trace[i].calls[t].signalled
    ensures var s := trace[i];
            s.calls[t].entry in s.heap && exists u :: IsInitializing(s, u, s.heap[s.calls[t].entry].control)
  {
    RunKeepsInvariant(trace, i);
    var s := trace[i];
    var e := s.calls[t].entry;
    assert |Runners(s.calls, e)| == 1;
    var u :| u in Runners(s.calls, e);
    assert IsInitializing(s, u, s.heap[e].control);
  }

  /** A sleeper that wakes with no initializer running leaves the wait: it returns 0 if the
      control is done and otherwise runs the initializer itself. */
  lemma WakingMakesProgress(trace: seq<Sys>, i: nat, t: nat)
    requires Run(trace) && i < |trace| && t in trace[i].calls && trace[i].calls[t].Asleep?
    ensures var s := trace[i];
            && Enabled(s, Wake(t))
            && var e := s.calls[t].entry; var c := s.heap[e].control; var r := Apply(s, Wake(t));
               (forall u :: !IsInitializing(s, u, c)) ==>
                 r.calls[t] == (if Word(s.words, c) == DONE then Returned(c, Okay) else Initializing(e)) &&
                 (Word(s.words, c) != DONE ==> Word(r.words, c) == RUNNING)
  {
    RunKeepsInvariant(trace, i);
    var s := trace[i];
    var e := s.calls[t].entry;
    assert t in Sleepers(s.calls);
    if s.heap[e].running {
      assert |Runners(s.calls, e)| == 1;
      var u :| u in Runners(s.calls, e);
      assert IsInitializing(s, u, s.heap[e].control);
    }
  }

  /** When an initializer ends, completed or cancelled, every sleeper of every control has been
      signalled, and a cancelled one leaves its word as if nobody had tried. */
  lemma EndWakesEveryone(trace: seq<Sys>, i: nat, t: nat)
    requires Run(trace) && i < |trace| && t in trace[i].calls && trace[i].calls[t].Initializing?
    ensures var s := trace[i];
            && Enabled(s, Finish(t)) && Enabled(s, CancelInitializer(t))
            && var c := s.heap[s.calls[t].entry].control;
               var finished, cancelled := Apply(s, Finish(t)), Apply(s, CancelInitializer(t));
               && Word(finished.words, c) == DONE && finished.calls[t] == Returned(c, Okay)
               && Word(cancelled.words, c) == INITIAL && cancelled.calls[t] == Cancelled
               && (forall u :: u in s.calls && s.calls[u].Asleep? ==>
                    finished.calls[u] == cancelled.calls[u] == s.calls[u].(signalled := true))
  {
    RunKeepsInvariant(trace, i);
    var s := trace[i];
    RunnerFound(s.heap, s.calls, t);
    var e := s.calls[t].entry;
    BroadcastCalls(s.(heap := s.heap[e := s.heap[e].(running := false)], words := s.words[s.heap[e].control := DONE]));
    BroadcastCalls(s.(heap := s.heap[e := s.heap[e].(running := false)],
        words := s.words[s.heap[e].control := INITIAL]));
  }

  /** DONE is absorbing: a completed control stays completed for the rest of the run. */
  lemma {:induction false} DoneIsForever(trace: seq<Sys>, i: nat, j: nat, c: nat)
    requires Run(trace) && i <= j < |trace| && Word(trace[i].words, c) == DONE
    ensures Word(trace[j].words, c) == DONE
    decreases j - i
  {
    hide InvBut, Apply, Enabled;
    if i < j {
      DoneIsForever(trace, i, j - 1, c);
      RunKeepsInvariant(trace, j - 1);
      assert Follows(trace[j - 1], trace[j]);
      var step :| Enabled(trace[j - 1], step) && trace[j] == Apply(trace[j - 1], step);
      DoneStep(trace[j - 1], step, c);
    }
  }

  lemma DoneStep(s: Sys, step: Step, c: nat)
    requires Inv(s) && Enabled(s, step) && Word(s.words, c) == DONE
    ensures Word(Apply(s, step).words, c) == DONE
  {
    hide InvBut, Find, Sleepers, Users, Runners;
    if step.Finish? || step.CancelInitializer? {
      RunnerWord(s, step.t);
    }
  }

  lemma ReleaseRuns(s: Sys, e: nat)
    requires Held(s, e)
    ensures Release(s, e).runs == s.runs
  {
  }

  lemma ListHolds(s: Sys, e: nat)
    requires Inv(s) && e in s.heap
    ensures e in s.list
  {
  }

  /** Some record stands for the control. */
  ghost predicate Recorded(s: Sys, c: nat) {
    exists e :: e in s.heap && s.heap[e].control == c
  }

  /** What entering decides, in every reachable state. A completed control answers 0 at once. Otherwise only a failed
      allocation of a record nobody else has made is ENOMEM; with a record the call runs the initializer itself exactly
      when nobody does, and sleeps on the control's record exactly when somebody does. */
  lemma EnteringDecides(trace: seq<Sys>, i: nat, t: nat, c: nat, record: nat, memory: bool)
    requires Run(trace) && i < |trace|
    requires t in trace[i].calls && trace[i].calls[t] == Entering(c) && record !in trace[i].heap
    ensures var s := trace[i];
            && Enabled(s, Enter(t, record, memory))
            && var r := Apply(s, Enter(t, record, memory)); var done := Word(s.words, c) == DONE;
               && (r.calls[t] == Returned(c, Okay) <==> done)
               && (r.calls[t] == Returned(c, NoMemory) <==> !done && !memory && !Recorded(s, c))
               && (IsInitializing(r, t, c) <==>
                    !done && (memory || Recorded(s, c)) && !exists u :: IsInitializing(s, u, c))
               && (IsInitializing(r, t, c) ==> Word(r.words, c) == RUNNING && Recorded(r, c))
               && (r.calls[t].Asleep? <==> exists u :: IsInitializing(s, u, c))
               && (r.calls[t].Asleep? ==>
                    !r.calls[t].signalled && r.calls[t].entry in r.heap && r.heap[r.calls[t].entry].control == c)
  {
    RunKeepsInvariant(trace, i);
    OneInitializerAtATime(trace, i);
    var s := trace[i];
    var k := Find(s.list, s.heap, c);
    WordsInRange(s, c);
    if k == |s.list| {
      NoRecordNotRunning(s, c);
    } else {
      RunningIsSeen(s, c, s.list[k]);
    }
    hide InvBut, Find, Release;
  }

  lemma RunningIsSeen(s: Sys, c: nat, e: nat)
    requires Inv(s) && e in s.heap && s.heap[e].control == c
    ensures s.heap[e].users > 0 && (s.heap[e].running <==> Word(s.words, c) == RUNNING)
  {
  }

  /** A completed control is seen without the lock, and a failed lock answers with its error; no guest word and no
      record is touched. */
  lemma BeginningDecides(s: Sys, t: nat, c: nat)
    ensures t !in s.calls ==>
              var r := Apply(s, Begin(t, c));
              && r == s.(calls := r.calls)
              && r.calls[t] == if Word(s.words, c) == DONE then Returned(c, Okay) else Entering(c)
    ensures t in s.calls && s.calls[t] == Entering(c) ==>
              var r := Apply(s, LockFails(t)); r == s.(calls := r.calls) && r.calls[t] == Returned(c, NativeError)
  {
  }

  /** A failed wait answers with its error and a cancelled one not at all, whatever the control is at by then. */
  lemma WaitsEndApart(trace: seq<Sys>, i: nat, t: nat)
    requires Run(trace) && i < |trace| && t in trace[i].calls && trace[i].calls[t].Asleep?
    ensures var s := trace[i];
            && Enabled(s, WaitFails(t)) && Enabled(s, CancelWaiter(t))
            && var failed, cancelled := Apply(s, WaitFails(t)), Apply(s, CancelWaiter(t));
               && failed.calls[t] == Returned(s.heap[s.calls[t].entry].control, NativeError)
               && cancelled.calls[t] == Cancelled
               && failed.words == cancelled.words == s.words
  {
    SectionsAreReady(trace, i);
  }

  /** A step of one call leaves every other call where it is, apart from signalling it, and every other control's
      word as it is. */
  lemma StepsAreLocal(s: Sys, step: Step, u: nat, c: nat)
    requires Inv(s) && Enabled(s, step)
    ensures var r := Apply(s, step);
            && (u in s.calls && u != step.t ==>
                 u in r.calls &&
                   (r.calls[u] == s.calls[u] || (s.calls[u].Asleep? && r.calls[u] == s.calls[u].(signalled := true))))
            && (Word(r.words, c) != Word(s.words, c) ==>
                 step.t in s.calls &&
                   (IsInitializing(s, step.t, c) || IsInitializing(r, step.t, c)))
  {
    hide InvBut, Find, Users, Runners, Sleepers;
  }

  // ---------------------------------------------------------------- the code

  /** The registry, the guest words and `__once_waiters`, with the positions of all calls and
      the completed runs as ghost state. Each method is one critical section. */
  class OnceRegistry {
    var words: map<nat, int>
    var list: seq<nat>
    var heap: map<nat, Entry>
    var waiters: nat
    ghost var calls: map<nat, Call>
    ghost var runs: map<nat, nat>

    ghost function State(): Sys
      reads this
    {
      Sys(words, list, heap, waiters, calls, runs)
    }

    constructor ()
      ensures State() == EMPTY
    {
      words, list, heap, waiters, calls, runs := map[], [], map[], 0, map[], map[];
    }

    /** The walk of lines 30-35 to the link that points at `e`. */
    method UnlinkEntry(e: nat)
      requires e in list
      modifies this`list
      ensures list == WithoutFirst(old(list), e)
    {
      var link := 0;
      while list[link] != e
        invariant 0 <= link < |list| && e !in list[..link] && e in list
        decreases |list| - link
      {
        link := link + 1;
      }
      WithoutFirstAt(list, link);
      list := list[..link] + list[link + 1..];
    }

    /** `__release` (lines 24-37). */
    method ReleaseEntry(e: nat)
      requires Held(State(), e) && e in list
      modifies this
      ensures State() == Release(old(State()), e)
    {
      var users := heap[e].users - 1;
      heap := heap[e := heap[e].(users := users)];
      if users > 0 {
        return;
      }
      UnlinkEntry(e);
      assert heap - {e} == old(heap) - {e};
      heap := heap - {e};
    }

    /** The search of lines 79-82. */
    method FindEntry(c: nat) returns (k: nat)
      requires Linked(list, heap)
      ensures k == Find(list, heap, c)
    {
      k := 0;
      while k < |list| && heap[list[k]].control != c
        invariant k <= |list|
        invariant Find(list, heap, c) == k + Find(list[k..], heap, c)
        decreases |list| - k
      {
        assert list[k..][1..] == list[k + 1..];
        k := k + 1;
      }
    }

    /** One turn of the loop at lines 110-133, from holding `e` to the next place the call
        stops: returned, asleep or about to run the initializer. */
    method SettleCall(ghost t: nat, e: nat) returns (next: Call)
      requires Held(State(), e) && e in list
      modifies this
      ensures State() == Settle(old(State()), t, e) && t in calls && next == calls[t]
    {
      var c := heap[e].control;
      if Word(words, c) == DONE {
        ReleaseEntry(e);
        next := Returned(c, Okay);
      } else if !heap[e].running {
        heap := heap[e := heap[e].(running := true)];
        words := words[c := RUNNING];
        next := Initializing(e);
      } else {
        waiters := waiters + 1;
        next := Asleep(e, false);
      }
      calls := calls[t := next];
    }

    /** Lines 63-69: the arguments, and the test without the lock. A refused call never gets further. */
    method BeginCall(ghost t: nat, control: nat, initialize: nat) returns (next: Call)
      requires Enabled(State(), Begin(t, control))
      modifies this`calls
      ensures control == 0 || initialize == 0 || control % 4 != 0 ==>
                next == Returned(control, Invalid) && unchanged(this)
      ensures control != 0 && initialize != 0 && control % 4 == 0 ==>
                State() == Apply(old(State()), Begin(t, control)) && next == calls[t]
    {
      if control == 0 || initialize == 0 || control % 4 != 0 {
        return Returned(control, Invalid);
      }
      next := if Word(words, control) == DONE then Returned(control, Okay) else Entering(control);
      calls := calls[t := next];
    }

    /** Lines 78-109: find or make the record under the lock, then settle. */
    method EnterCall(ghost t: nat, c: nat, record: nat, memory: bool) returns (next: Call)
      requires Enabled(State(), Enter(t, record, memory)) && calls[t] == Entering(c)
      requires forall e :: e in list ==> heap[e].users > 0
      modifies this
      ensures State() == Apply(old(State()), Enter(t, record, memory))
      ensures t in calls && next == calls[t]
    {
      hide Settle, Find;
      var state := Word(words, c);
      var k := FindEntry(c);
      if state == DONE {
        next := Returned(c, Okay);
        calls := calls[t := next];
      } else if state > RUNNING || state < 0 || (state == RUNNING && k == |list|) {
        next := Returned(c, Invalid);
        calls := calls[t := next];
      } else if k == |list| && !memory {
        next := Returned(c, NoMemory);
        calls := calls[t := next];
      } else if k == |list| {
        list := [record] + list;
        heap := heap[record := Entry(c, 1, false)];
        next := SettleCall(t, record);
      } else {
        var e := list[k];
        heap := heap[e := heap[e].(users := heap[e].users + 1)];
        next := SettleCall(t, e);
      }
    }

    /** Lines 124-126 and the loop back: a sleeper reacquires the mutex. */
    method WakeCall(ghost t: nat, e: nat) returns (next: Call)
      requires Enabled(State(), Wake(t)) && calls[t].entry == e && e in list
      modifies this
      ensures State() == Apply(old(State()), Wake(t))
      ensures t in calls && next == calls[t]
    {
      waiters := waiters - 1;
      next := SettleCall(t, e);
    }

    /** `__waiter_exited`, and the failed wait at lines 127-131: both leave without an answer. */
    method AbandonWait(ghost t: nat, e: nat, cancelled: bool)
      requires Enabled(State(), CancelWaiter(t)) && calls[t].entry == e && e in list
      modifies this
      ensures State() == Apply(old(State()), if cancelled then CancelWaiter(t) else WaitFails(t))
    {
      calls := calls[t := if cancelled then Cancelled else Returned(heap[e].control, NativeError)];
      waiters := waiters - 1;
      ReleaseEntry(e);
    }

    /** `pthread_cond_broadcast`, when anybody waits. */
    ghost method WakeAll()
      modifies this`calls
      ensures State() == Broadcast(old(State()))
    {
      calls := Broadcast(State()).calls;
    }

    /** Lines 143-151 after a normal return, and `__initializer_exited` after a cancellation. */
    method EndInitializer(ghost t: nat, e: nat, completed: bool)
      requires Enabled(State(), Finish(t)) && calls[t].entry == e && e in list
      modifies this
      ensures State() == Apply(old(State()), if completed then Finish(t) else CancelInitializer(t))
    {
      var c := heap[e].control;
      heap := heap[e := heap[e].(running := false)];
      words := words[c := if completed then DONE else INITIAL];
      WakeAll();
      ghost var after := if completed then Returned(c, Okay) else Cancelled;
      calls := calls[t := after];
      ReleaseRuns(State(), e);
      ReleaseEntry(e);
      if completed {
        runs := runs[c := Runs(runs, c) + 1];
      }
    }
  }

  /** Between critical sections the methods above always find what they require. */
  lemma SectionsAreReady(trace: seq<Sys>, i: nat)
    requires Run(trace) && i < |trace|
    ensures var s := trace[i];
            && (forall e :: e in s.list ==> e in s.heap && s.heap[e].users > 0)
            && (forall t :: t in s.calls && s.calls[t].Asleep? ==>
                 Enabled(s, Wake(t)) && Enabled(s, CancelWaiter(t)) && s.calls[t].entry in s.list)
            && (forall t :: t in s.calls && s.calls[t].Initializing? ==>
                 Enabled(s, Finish(t)) && s.calls[t].entry in s.list)
  {
    RunKeepsInvariant(trace, i);
    var s := trace[i];
    forall t | t in s.calls && s.calls[t].Asleep?
      ensures Enabled(s, Wake(t))
    {
      assert t in Sleepers(s.calls);
    }
  }
}
