/** The steps of `_pthread_once` (src/bridges/libc/once.c:24-154) as a state machine. A step is
    one atomic load or one stretch of code under the registry mutex; calls interleave freely,
    wake spuriously and are cancelled at any point where the source allows it. */
module OnceProtocol {
  import opened Common

  const INITIAL := 0
  const RUNNING := 1
  const DONE := 2

  /** A registry entry; `control` is the address of the guest word. */
  datatype Entry = Entry(control: nat, users: nat, running: bool)

  datatype Outcome = Okay | Invalid | NoMemory | NativeError

  /** Where one call of `_pthread_once` stands. */
  datatype Call =
    | Entering(control: nat)
    | Asleep(entry: nat, signalled: bool)
    | Initializing(entry: nat)
    | Returned(control: nat, outcome: Outcome)
    | Cancelled

  /** `list` is the registry in order, `heap` the records its nodes point to, and `runs`
      counts the initializers of each control that completed normally. */
  datatype Sys = Sys(
    words: map<nat, int>, list: seq<nat>, heap: map<nat, Entry>, waiters: nat,
    calls: map<nat, Call>, runs: map<nat, nat>)

  /** The guest word of a control; guest storage starts zeroed. */
  function Word(words: map<nat, int>, c: nat): int {
    if c in words then words[c] else INITIAL
  }

  function Runs(runs: map<nat, nat>, c: nat): nat {
    if c in runs then runs[c] else 0
  }

  /** Position of the first entry for a control, or the length of the list. */
  function Find(list: seq<nat>, heap: map<nat, Entry>, c: nat): (k: nat)
    requires forall e :: e in list ==> e in heap
    ensures k <= |list|
    ensures k < |list| ==> heap[list[k]].control == c
    ensures forall j :: 0 <= j < k ==> heap[list[j]].control != c
  {
    if list == [] then 0
    else if heap[list[0]].control == c then 0
    else
      var rest := Find(list[1..], heap, c);
      assert forall j :: 0 < j < rest + 1 ==> list[j] == list[1..][j - 1];
      rest + 1
  }

  /** `__release`: drop one user and free the entry with the last of them. */
  function Release(s: Sys, e: nat): Sys
    requires e in s.heap && s.heap[e].users > 0
  {
    if s.heap[e].users > 1 then s.(heap := s.heap[e := s.heap[e].(users := s.heap[e].users - 1)])
    else s.(list := WithoutFirst(s.list, e), heap := s.heap - {e})
  }

  /** `pthread_cond_broadcast`, skipped when nobody waits. */
  function Broadcast(s: Sys): Sys {
    if s.waiters == 0 then s
    else s.(calls := map t | t in s.calls :: if s.calls[t].Asleep? then s.calls[t].(signalled := true) else s.calls[t])
  }

  /** One turn of the loop at lines 110-133 for call `t`, which holds `e`. */
  function Settle(s: Sys, t: nat, e: nat): Sys
    requires e in s.heap && s.heap[e].users > 0
  {
    var c := s.heap[e].control;
    if Word(s.words, c) == DONE then Release(s, e).(calls := s.calls[t := Returned(c, Okay)])
    else if !s.heap[e].running then
      s.(heap := s.heap[e := s.heap[e].(running := true)], words := s.words[c := RUNNING],
         calls := s.calls[t := Initializing(e)])
    else s.(waiters := s.waiters + 1, calls := s.calls[t := Asleep(e, false)])
  }

  datatype Step =
    | Begin(t: nat, c: nat)
    | Enter(t: nat, record: nat, memory: bool)
    | LockFails(t: nat)
    | Wake(t: nat)
    | WaitFails(t: nat)
    | CancelWaiter(t: nat)
    | Finish(t: nat)
    | CancelInitializer(t: nat)

  predicate Enabled(s: Sys, step: Step) {
    match step
    case Begin(t, _) => t !in s.calls
    case Enter(t, record, _) => t in s.calls && s.calls[t].Entering? && record !in s.heap && Linked(s.list, s.heap)
    case LockFails(t) => t in s.calls && s.calls[t].Entering?
    case Wake(t) => Sleeping(s, t)
    case WaitFails(t) => Sleeping(s, t)
    case CancelWaiter(t) => Sleeping(s, t)
    case Finish(t) => Owning(s, t)
    case CancelInitializer(t) => Owning(s, t)
  }

  predicate Linked(list: seq<nat>, heap: map<nat, Entry>) {
    forall e :: e in list ==> e in heap
  }

  predicate Held(s: Sys, e: nat) {
    e in s.heap && s.heap[e].users > 0
  }

  predicate Sleeping(s: Sys, t: nat) {
    t in s.calls && s.calls[t].Asleep? && Held(s, s.calls[t].entry) && s.waiters > 0
  }

  predicate Owning(s: Sys, t: nat) {
    t in s.calls && s.calls[t].Initializing? && Held(s, s.calls[t].entry)
  }

  /** The critical section at lines 78-136. */
  function EnterStep(s: Sys, t: nat, record: nat, memory: bool): Sys
    requires Enabled(s, Enter(t, record, memory))
  {
    var c := s.calls[t].control;
    var k := Find(s.list, s.heap, c);
    var state := Word(s.words, c);
    if state == DONE then s.(calls := s.calls[t := Returned(c, Okay)])
    else if state > RUNNING || state < 0 || (state == RUNNING && k == |s.list|) then
      s.(calls := s.calls[t := Returned(c, Invalid)])
    else if k == |s.list| && !memory then s.(calls := s.calls[t := Returned(c, NoMemory)])
    else if k == |s.list| then
      Settle(s.(list := [record] + s.list, heap := s.heap[record := Entry(c, 1, false)]), t, record)
    else
      var e := s.list[k];
      Settle(s.(heap := s.heap[e := s.heap[e].(users := s.heap[e].users + 1)]), t, e)
  }

  /** The end of an initializer: publish the word, wake waiters and release the entry. */
  function Leave(s: Sys, t: nat, word: int, after: Call): Sys
    requires Owning(s, t)
  {
    var e := s.calls[t].entry;
    var c := s.heap[e].control;
    var stopped := s.(heap := s.heap[e := s.heap[e].(running := false)], words := s.words[c := word]);
    var woken := Broadcast(stopped);
    Release(woken.(calls := woken.calls[t := after]), e)
  }

  function Apply(s: Sys, step: Step): Sys
    requires Enabled(s, step)
  {
    match step
    case Begin(t, c) =>
      s.(calls := s.calls[t := if Word(s.words, c) == DONE then Returned(c, Okay) else Entering(c)])
    case Enter(t, record, memory) => EnterStep(s, t, record, memory)
    case LockFails(t) => s.(calls := s.calls[t := Returned(s.calls[t].control, NativeError)])
    case Wake(t) => Settle(s.(waiters := s.waiters - 1), t, s.calls[t].entry)
    case WaitFails(t) =>
      Release(s.(waiters := s.waiters - 1,
                 calls := s.calls[t := Returned(s.heap[s.calls[t].entry].control, NativeError)]), s.calls[t].entry)
    case CancelWaiter(t) =>
      Release(s.(waiters := s.waiters - 1, calls := s.calls[t := Cancelled]), s.calls[t].entry)
    case Finish(t) =>
      var c := s.heap[s.calls[t].entry].control;
      Leave(s, t, DONE, Returned(c, Okay)).(runs := s.runs[c := Runs(s.runs, c) + 1])
    case CancelInitializer(t) => Leave(s, t, INITIAL, Cancelled)
  }

  // ---------------------------------------------------------------- the invariant

  predicate Uses(call: Call, e: nat) {
    (call.Asleep? || call.Initializing?) && call.entry == e
  }

  /** The calls holding an entry, those running its initializer, and those asleep. */
  function Users(calls: map<nat, Call>, e: nat): set<nat> {
    set t | t in calls && Uses(calls[t], e)
  }

  function Runners(calls: map<nat, Call>, e: nat): set<nat> {
    set t | t in calls && calls[t] == Initializing(e)
  }

  function Sleepers(calls: map<nat, Call>): set<nat> {
    set t | t in calls && calls[t].Asleep?
  }

  /** The registry list holds every record once, and one per control. */
  ghost predicate Registry(list: seq<nat>, heap: map<nat, Entry>) {
    && Linked(list, heap)
    && (forall e :: e in heap ==> e in list)
    && (forall i, j :: 0 <= i < j < |list| ==> list[i] != list[j])
    && (forall e, f :: e in heap && f in heap && heap[e].control == heap[f].control ==> e == f)
  }

  /** Calls hold live records only. */
  ghost predicate Safe(heap: map<nat, Entry>, calls: map<nat, Call>) {
    forall t :: t in calls && (calls[t].Asleep? || calls[t].Initializing?) ==> calls[t].entry in heap
  }

  /** `users` counts exactly the calls holding a record, `extra` counted once too often. */
  ghost predicate UserCounts(heap: map<nat, Entry>, calls: map<nat, Call>, extra: set<nat>) {
    forall e :: e in heap ==> heap[e].users > 0 && heap[e].users == |Users(calls, e)| + if e in extra then 1 else 0
  }

  /** A record is running exactly while one call runs its initializer. */
  ghost predicate RunnerCounts(heap: map<nat, Entry>, calls: map<nat, Call>) {
    forall e :: |Runners(calls, e)| == if e in heap && heap[e].running then 1 else 0
  }

  /** The guest word is RUNNING exactly when the control's record is running. */
  ghost predicate Published(words: map<nat, int>, heap: map<nat, Entry>) {
    && (forall c :: 0 <= Word(words, c) <= DONE)
    && (forall c :: Word(words, c) == RUNNING ==> exists e :: e in heap && heap[e] == Entry(c, heap[e].users, true))
    && (forall e :: e in heap && heap[e].running ==> Word(words, heap[e].control) == RUNNING)
  }

  /** No wakeup is lost: a sleeper nobody has signalled waits for a running initializer. */
  ghost predicate NoLostWakeup(heap: map<nat, Entry>, calls: map<nat, Call>) {
    forall t :: t in calls && calls[t].Asleep? && !calls[t].signalled ==>
      calls[t].entry in heap && heap[calls[t].entry].running
  }

  /** Success follows completion, completion happens once, and no call is refused. */
  ghost predicate Results(words: map<nat, int>, calls: map<nat, Call>, runs: map<nat, nat>) {
    && (forall t :: t in calls && calls[t].Returned? && calls[t].outcome == Okay ==>
          Word(words, calls[t].control) == DONE)
    && (forall t :: t in calls && calls[t].Returned? ==> calls[t].outcome != Invalid)
    && (forall c :: Runs(runs, c) == if Word(words, c) == DONE then 1 else 0)
  }

  /** The invariant; inside a critical section the records in `extra` have one user too many. */
  ghost predicate InvBut(s: Sys, extra: set<nat>) {
    && Registry(s.list, s.heap)
    && Safe(s.heap, s.calls)
    && UserCounts(s.heap, s.calls, extra)
    && RunnerCounts(s.heap, s.calls)
    && s.waiters == |Sleepers(s.calls)|
    && Published(s.words, s.heap)
    && NoLostWakeup(s.heap, s.calls)
    && Results(s.words, s.calls, s.runs)
  }

  ghost predicate Inv(s: Sys) {
    InvBut(s, {})
  }

  // ---------------------------------------------------------------- counting

  /** Changing one call moves it between the sets of users, runners and sleepers. */
  lemma UsersAfter(calls: map<nat, Call>, t: nat, x: Call, e: nat)
    ensures |Users(calls[t := x], e)| ==
            |Users(calls, e)| - (if t in calls && Uses(calls[t], e) then 1 else 0) + (if Uses(x, e) then 1 else 0)
  {
    var rest := Users(calls, e) - {t};
    assert Users(calls[t := x], e) == if Uses(x, e) then rest + {t} else rest;
    assert Users(calls, e) == if t in calls && Uses(calls[t], e) then rest + {t} else rest;
  }

  lemma RunnersAfter(calls: map<nat, Call>, t: nat, x: Call, e: nat)
    ensures |Runners(calls[t := x], e)| ==
            |Runners(calls, e)| - (if t in calls && calls[t] == Initializing(e) then 1 else 0)
            + (if x == Initializing(e) then 1 else 0)
  {
    var rest := Runners(calls, e) - {t};
    assert Runners(calls[t := x], e) == if x == Initializing(e) then rest + {t} else rest;
    assert Runners(calls, e) == if t in calls && calls[t] == Initializing(e) then rest + {t} else rest;
  }

  lemma SleepersAfter(calls: map<nat, Call>, t: nat, x: Call)
    ensures |Sleepers(calls[t := x])| ==
            |Sleepers(calls)| - (if t in calls && calls[t].Asleep? then 1 else 0) + (if x.Asleep? then 1 else 0)
  {
    var rest := Sleepers(calls) - {t};
    assert Sleepers(calls[t := x]) == if x.Asleep? then rest + {t} else rest;
    assert Sleepers(calls) == if t in calls && calls[t].Asleep? then rest + {t} else rest;
  }

  lemma CountAfter(calls: map<nat, Call>, t: nat, x: Call)
    ensures forall e :: |Users(calls[t := x], e)| ==
              |Users(calls, e)| - (if t in calls && Uses(calls[t], e) then 1 else 0) + (if Uses(x, e) then 1 else 0)
    ensures forall e :: |Runners(calls[t := x], e)| ==
              |Runners(calls, e)| - (if t in calls && calls[t] == Initializing(e) then 1 else 0)
              + (if x == Initializing(e) then 1 else 0)
    ensures |Sleepers(calls[t := x])| ==
            |Sleepers(calls)| - (if t in calls && calls[t].Asleep? then 1 else 0) + (if x.Asleep? then 1 else 0)
  {
    forall e {
      UsersAfter(calls, t, x, e);
    }
    forall e {
      RunnersAfter(calls, t, x, e);
    }
    SleepersAfter(calls, t, x);
  }

  lemma {:induction false} UnlinkShortens(list: seq<nat>, e: nat)
    requires e in list
    requires forall i, j :: 0 <= i < j < |list| ==> list[i] != list[j]
    ensures var r := WithoutFirst(list, e);
            && (forall f :: f in r <==> f in list && f != e)
            && (forall i, j :: 0 <= i < j < |r| ==> r[i] != r[j])
  {
    if list[0] != e {
      UnlinkShortens(list[1..], e);
      var r := WithoutFirst(list[1..], e);
      assert forall i :: 0 <= i < |r| ==> r[i] in list[1..];
      assert list[0] !in r;
    }
  }

  // ---------------------------------------------------------------- parts of the invariant, step by step

  /** The same records for the same controls. */
  ghost predicate SameRecords(heap: map<nat, Entry>, after: map<nat, Entry>) {
    after.Keys == heap.Keys && forall e :: e in heap ==> after[e].control == heap[e].control
  }

  lemma RegistrySame(list: seq<nat>, heap: map<nat, Entry>, after: map<nat, Entry>)
    requires Registry(list, heap) && SameRecords(heap, after)
    ensures Registry(list, after)
  {
    forall e, f | e in after && f in after && after[e].control == after[f].control
      ensures e == f
    {
      assert heap[e].control == heap[f].control;
    }
  }

  lemma RegistryRemove(list: seq<nat>, heap: map<nat, Entry>, e: nat)
    requires Registry(list, heap) && e in heap
    ensures Registry(WithoutFirst(list, e), heap - {e})
  {
    UnlinkShortens(list, e);
  }

  lemma RegistryAdd(list: seq<nat>, heap: map<nat, Entry>, record: nat, entry: Entry)
    requires Registry(list, heap) && record !in heap
    requires forall e :: e in heap ==> heap[e].control != entry.control
    ensures Registry([record] + list, heap[record := entry])
  {
    assert record !in list;
  }

  lemma UsersDrop(heap: map<nat, Entry>, calls: map<nat, Call>, e: nat)
    requires UserCounts(heap, calls, {e}) && e in heap && heap[e].users > 1
    ensures UserCounts(heap[e := heap[e].(users := heap[e].users - 1)], calls, {})
  {
  }

  lemma UsersRemove(heap: map<nat, Entry>, calls: map<nat, Call>, e: nat)
    requires UserCounts(heap, calls, {e}) && e in heap
    ensures UserCounts(heap - {e}, calls, {})
  {
  }

  lemma UsersTake(heap: map<nat, Entry>, calls: map<nat, Call>, e: nat)
    requires UserCounts(heap, calls, {}) && e in heap
    ensures UserCounts(heap[e := heap[e].(users := heap[e].users + 1)], calls, {e})
  {
  }

  lemma UsersAdd(heap: map<nat, Entry>, calls: map<nat, Call>, record: nat, c: nat)
    requires UserCounts(heap, calls, {}) && Safe(heap, calls) && record !in heap
    ensures UserCounts(heap[record := Entry(c, 1, false)], calls, {record})
  {
    assert Users(calls, record) == {};
  }

  lemma UsersRunning(heap: map<nat, Entry>, calls: map<nat, Call>, e: nat, running: bool, extra: set<nat>)
    requires UserCounts(heap, calls, extra) && e in heap
    ensures UserCounts(heap[e := heap[e].(running := running)], calls, extra)
  {
  }

  /** A call that held nothing takes over the extra user of `e`. */
  lemma UsersHold(heap: map<nat, Entry>, calls: map<nat, Call>, t: nat, x: Call, e: nat)
    requires UserCounts(heap, calls, {e}) && Uses(x, e)
    requires t in calls ==> !calls[t].Asleep? && !calls[t].Initializing?
    ensures UserCounts(heap, calls[t := x], {})
  {
    forall f {
      UsersAfter(calls, t, x, f);
    }
  }

  /** A call that held `e` leaves its user behind. */
  lemma UsersLetGo(heap: map<nat, Entry>, calls: map<nat, Call>, t: nat, x: Call, e: nat)
    requires UserCounts(heap, calls, {}) && t in calls && Uses(calls[t], e)
    requires !x.Asleep? && !x.Initializing?
    ensures UserCounts(heap, calls[t := x], {e})
  {
    forall f {
      UsersAfter(calls, t, x, f);
    }
  }

  lemma UsersIgnore(heap: map<nat, Entry>, calls: map<nat, Call>, t: nat, x: Call, extra: set<nat>)
    requires UserCounts(heap, calls, extra) && !x.Asleep? && !x.Initializing?
    requires t in calls ==> !calls[t].Asleep? && !calls[t].Initializing?
    ensures UserCounts(heap, calls[t := x], extra)
  {
    forall f {
      UsersAfter(calls, t, x, f);
    }
  }

  /** `RunnerCounts` reads only which records are running. */
  lemma RunnersSame(heap: map<nat, Entry>, after: map<nat, Entry>, calls: map<nat, Call>)
    requires RunnerCounts(heap, calls)
    requires forall e :: e in heap && heap[e].running <==> e in after && after[e].running
    ensures RunnerCounts(after, calls)
  {
  }

  lemma RunnersIgnore(heap: map<nat, Entry>, calls: map<nat, Call>, t: nat, x: Call)
    requires RunnerCounts(heap, calls) && !x.Initializing? && (t in calls ==> !calls[t].Initializing?)
    ensures RunnerCounts(heap, calls[t := x])
  {
    forall e {
      RunnersAfter(calls, t, x, e);
    }
  }

  lemma RunnersStart(heap: map<nat, Entry>, calls: map<nat, Call>, t: nat, e: nat)
    requires RunnerCounts(heap, calls) && e in heap && !heap[e].running && (t in calls ==> !calls[t].Initializing?)
    ensures RunnerCounts(heap[e := heap[e].(running := true)], calls[t := Initializing(e)])
  {
    forall f {
      RunnersAfter(calls, t, Initializing(e), f);
    }
  }

  lemma RunnersStop(heap: map<nat, Entry>, calls: map<nat, Call>, t: nat, e: nat, x: Call)
    requires RunnerCounts(heap, calls) && e in heap && t in calls && calls[t] == Initializing(e) && !x.Initializing?
    ensures RunnerCounts(heap[e := heap[e].(running := false)], calls[t := x])
  {
    forall f {
      RunnersAfter(calls, t, x, f);
    }
  }

  lemma RunnerFound(heap: map<nat, Entry>, calls: map<nat, Call>, t: nat)
    requires RunnerCounts(heap, calls) && t in calls && calls[t].Initializing?
    ensures calls[t].entry in heap && heap[calls[t].entry].running
  {
    assert t in Runners(calls, calls[t].entry);
  }

  /** `Published` reads only which controls have a running record. */
  lemma PublishedSame(words: map<nat, int>, heap: map<nat, Entry>, after: map<nat, Entry>)
    requires Published(words, heap)
    requires forall e :: e in heap && heap[e].running ==>
               e in after && after[e].running && after[e].control == heap[e].control
    requires forall e :: e in after && after[e].running ==>
               e in heap && heap[e].running && after[e].control == heap[e].control
    ensures Published(words, after)
  {
    forall c | Word(words, c) == RUNNING
      ensures exists e :: e in after && after[e] == Entry(c, after[e].users, true)
    {
      var e :| e in heap && heap[e] == Entry(c, heap[e].users, true);
      assert after[e] == Entry(c, after[e].users, true);
    }
  }

  lemma PublishedStart(words: map<nat, int>, heap: map<nat, Entry>, e: nat)
    requires Published(words, heap) && e in heap
    ensures Published(words[heap[e].control := RUNNING], heap[e := heap[e].(running := true)])
  {
    var words', heap' := words[heap[e].control := RUNNING], heap[e := heap[e].(running := true)];
    forall c | Word(words', c) == RUNNING
      ensures exists f :: f in heap' && heap'[f] == Entry(c, heap'[f].users, true)
    {
      if c == heap[e].control {
        assert heap'[e] == Entry(c, heap'[e].users, true);
      } else {
        assert Word(words, c) == RUNNING;
        var f :| f in heap && heap[f] == Entry(c, heap[f].users, true);
        assert heap'[f] == Entry(c, heap'[f].users, true);
      }
    }
    assert forall c :: Word(words', c) == if c == heap[e].control then RUNNING else Word(words, c);
  }

  lemma PublishedStop(list: seq<nat>, words: map<nat, int>, heap: map<nat, Entry>, e: nat, word: int)
    requires Published(words, heap) && e in heap && Registry(list, heap) && (word == DONE || word == INITIAL)
    ensures Published(words[heap[e].control := word], heap[e := heap[e].(running := false)])
  {
    var words', heap' := words[heap[e].control := word], heap[e := heap[e].(running := false)];
    assert forall c :: Word(words', c) == if c == heap[e].control then word else Word(words, c);
    forall c | Word(words', c) == RUNNING
      ensures exists f :: f in heap' && heap'[f] == Entry(c, heap'[f].users, true)
    {
      assert Word(words, c) == RUNNING;
      var f :| f in heap && heap[f] == Entry(c, heap[f].users, true);
      assert heap'[f] == Entry(c, heap'[f].users, true);
    }
    forall f | f in heap' && heap'[f].running
      ensures Word(words', heap'[f].control) == RUNNING
    {
      assert heap[f].running && heap[f].control != heap[e].control;
    }
  }

  lemma ResultsStart(words: map<nat, int>, calls: map<nat, Call>, runs: map<nat, nat>, c: nat, t: nat, e: nat)
    requires Results(words, calls, runs) && Word(words, c) != DONE
    ensures Results(words[c := RUNNING], calls[t := Initializing(e)], runs)
  {
    assert forall d :: Word(words[c := RUNNING], d) == if d == c then RUNNING else Word(words, d);
  }

  lemma ResultsMove(words: map<nat, int>, calls: map<nat, Call>, runs: map<nat, nat>, t: nat, x: Call)
    requires Results(words, calls, runs)
    requires x.Returned? ==> x.outcome != Invalid && (x.outcome == Okay ==> Word(words, x.control) == DONE)
    ensures Results(words, calls[t := x], runs)
  {
  }

  lemma ResultsStop(words: map<nat, int>, calls: map<nat, Call>, runs: map<nat, nat>, c: nat, word: int)
    requires Results(words, calls, runs) && Word(words, c) == RUNNING && (word == DONE || word == INITIAL)
    ensures Results(words[c := word], calls, if word == DONE then runs[c := Runs(runs, c) + 1] else runs)
  {
    var after := if word == DONE then runs[c := Runs(runs, c) + 1] else runs;
    assert forall d :: Word(words[c := word], d) == if d == c then word else Word(words, d);
    assert forall d :: Runs(after, d) == if d == c && word == DONE then Runs(runs, d) + 1 else Runs(runs, d);
  }

  function Signalled(calls: map<nat, Call>): map<nat, Call> {
    map t | t in calls :: if calls[t].Asleep? then calls[t].(signalled := true) else calls[t]
  }

  /** What a broadcast does to every call. */
  lemma BroadcastCalls(s: Sys)
    requires s.waiters == |Sleepers(s.calls)|
    ensures Broadcast(s) == s.(calls := Signalled(s.calls))
  {
    if s.waiters == 0 {
      assert Sleepers(s.calls) == {};
      assert forall t :: t in s.calls ==> t !in Sleepers(s.calls);
      assert Signalled(s.calls) == s.calls;
    }
  }

  /** Signalling changes no count and no result. */
  lemma SignalledCounts(heap: map<nat, Entry>, words: map<nat, int>, calls: map<nat, Call>, runs: map<nat, nat>)
    ensures Safe(heap, calls) ==> Safe(heap, Signalled(calls))
    ensures UserCounts(heap, calls, {}) ==> UserCounts(heap, Signalled(calls), {})
    ensures RunnerCounts(heap, calls) ==> RunnerCounts(heap, Signalled(calls))
    ensures Sleepers(Signalled(calls)) == Sleepers(calls)
    ensures Results(words, calls, runs) ==> Results(words, Signalled(calls), runs)
  {
    assert forall e :: Users(Signalled(calls), e) == Users(calls, e);
    assert forall e :: Runners(Signalled(calls), e) == Runners(calls, e);
  }

  // ---------------------------------------------------------------- steps keep the invariant

  lemma NotOnlyRunner(heap: map<nat, Entry>, calls: map<nat, Call>, e: nat)
    requires UserCounts(heap, calls, {e}) && RunnerCounts(heap, calls) && e in heap && heap[e].users == 1
    ensures !heap[e].running
    ensures forall t :: t in calls && (calls[t].Asleep? || calls[t].Initializing?) ==> calls[t].entry != e
  {
    assert Users(calls, e) == {};
    forall t | t in calls && (calls[t].Asleep? || calls[t].Initializing?)
      ensures calls[t].entry != e
    {
      assert t !in Users(calls, e);
    }
    assert Runners(calls, e) <= Users(calls, e);
  }

  lemma {:induction false} DropKeeps(s: Sys, e: nat)
    requires InvBut(s, {e}) && e in s.heap && s.heap[e].users > 1
    ensures Inv(s.(heap := s.heap[e := s.heap[e].(users := s.heap[e].users - 1)]))
  {
    hide Registry, UserCounts, RunnerCounts, Published, Results, Sleepers;
    var heap := s.heap[e := s.heap[e].(users := s.heap[e].users - 1)];
    RegistrySame(s.list, s.heap, heap);
    UsersDrop(s.heap, s.calls, e);
    RunnersSame(s.heap, heap, s.calls);
    PublishedSame(s.words, s.heap, heap);
  }

  lemma {:induction false} FreeKeeps(s: Sys, e: nat)
    requires InvBut(s, {e}) && e in s.heap && s.heap[e].users == 1
    ensures Inv(s.(list := WithoutFirst(s.list, e), heap := s.heap - {e}))
  {
    hide Registry, UserCounts, RunnerCounts, Published, Results, Sleepers;
    NotOnlyRunner(s.heap, s.calls, e);
    RegistryRemove(s.list, s.heap, e);
    UsersRemove(s.heap, s.calls, e);
    RunnersSame(s.heap, s.heap - {e}, s.calls);
    PublishedSame(s.words, s.heap, s.heap - {e});
  }

  /** Dropping the extra user restores the invariant; a freed record has no user left. */
  lemma {:induction false} ReleaseKeeps(s: Sys, e: nat)
    requires InvBut(s, {e}) && e in s.heap
    ensures Inv(Release(s, e))
  {
    UsersArePositive(s, e);
    hide InvBut;
    if s.heap[e].users > 1 {
      DropKeeps(s, e);
    } else {
      FreeKeeps(s, e);
    }
  }

  lemma UsersArePositive(s: Sys, e: nat)
    requires InvBut(s, {e}) && e in s.heap
    ensures s.heap[e].users > 0
  {
  }

  /** Moving a call that holds nothing to a place where it holds nothing. */
  lemma {:induction false} MoveKeeps(s: Sys, t: nat, x: Call, extra: set<nat>)
    requires InvBut(s, extra)
    requires t in s.calls ==> !s.calls[t].Asleep? && !s.calls[t].Initializing?
    requires x.Cancelled? || x.Entering? ||
             (x.Returned? && x.outcome != Invalid && (x.outcome == Okay ==> Word(s.words, x.control) == DONE))
    ensures InvBut(s.(calls := s.calls[t := x]), extra)
  {
    hide Registry, UserCounts, RunnerCounts, Published, Results;
    UsersIgnore(s.heap, s.calls, t, x, extra);
    RunnersIgnore(s.heap, s.calls, t, x);
    SleepersAfter(s.calls, t, x);
    ResultsMove(s.words, s.calls, s.runs, t, x);
  }

  /** One turn of the waiting loop: return, become the initializer, or sleep. */
  lemma {:induction false} SettleKeeps(s: Sys, t: nat, e: nat)
    requires InvBut(s, {e}) && Held(s, e) && t in s.calls && s.calls[t].Entering?
    ensures Inv(Settle(s, t, e))
  {
    hide Registry, UserCounts, RunnerCounts, Published, Results;
    var c := s.heap[e].control;
    if Word(s.words, c) == DONE {
      MoveKeeps(s, t, Returned(c, Okay), {e});
      ReleaseKeeps(s.(calls := s.calls[t := Returned(c, Okay)]), e);
    } else if !s.heap[e].running {
      var heap := s.heap[e := s.heap[e].(running := true)];
      RegistrySame(s.list, s.heap, heap);
      UsersHold(s.heap, s.calls, t, Initializing(e), e);
      UsersRunning(s.heap, s.calls[t := Initializing(e)], e, true, {});
      RunnersStart(s.heap, s.calls, t, e);
      SleepersAfter(s.calls, t, Initializing(e));
      PublishedStart(s.words, s.heap, e);
      ResultsStart(s.words, s.calls, s.runs, c, t, e);
    } else {
      var x := Asleep(e, false);
      UsersHold(s.heap, s.calls, t, x, e);
      RunnersIgnore(s.heap, s.calls, t, x);
      SleepersAfter(s.calls, t, x);
      ResultsMove(s.words, s.calls, s.runs, t, x);
    }
  }

  /** Entering finds the control's record, makes one, or returns; EINVAL is never the answer. */
  lemma {:induction false} EnterKeeps(s: Sys, t: nat, record: nat, memory: bool)
    requires Inv(s) && Enabled(s, Enter(t, record, memory))
    ensures Inv(EnterStep(s, t, record, memory))
  {
    hide InvBut, Settle, Find;
    var c := s.calls[t].control;
    var k := Find(s.list, s.heap, c);
    if Word(s.words, c) == DONE {
      MoveKeeps(s, t, Returned(c, Okay), {});
    } else if k == |s.list| {
      NoRecordNotRunning(s, c);
      EnterNew(s, t, c, record, memory);
    } else {
      WordsInRange(s, c);
      EnterFound(s, t, s.list[k]);
    }
  }

  lemma WordsInRange(s: Sys, c: nat)
    requires Inv(s)
    ensures 0 <= Word(s.words, c) <= DONE
  {
  }

  lemma NoRecordNotRunning(s: Sys, c: nat)
    requires Inv(s) && Find(s.list, s.heap, c) == |s.list|
    ensures 0 <= Word(s.words, c) <= DONE && Word(s.words, c) != RUNNING
    ensures forall e :: e in s.heap ==> s.heap[e].control != c
  {
  }

  lemma EnterNew(s: Sys, t: nat, c: nat, record: nat, memory: bool)
    requires Inv(s) && Enabled(s, Enter(t, record, memory))
    requires forall e :: e in s.heap ==> s.heap[e].control != c
    ensures !memory ==> Inv(s.(calls := s.calls[t := Returned(c, NoMemory)]))
    ensures memory ==>
              Inv(Settle(s.(list := [record] + s.list, heap := s.heap[record := Entry(c, 1, false)]), t, record))
  {
    MoveKeeps(s, t, Returned(c, NoMemory), {});
    NewRecord(s, c, record);
    hide InvBut, Settle;
    SettleKeeps(s.(list := [record] + s.list, heap := s.heap[record := Entry(c, 1, false)]), t, record);
  }

  lemma EnterFound(s: Sys, t: nat, e: nat)
    requires Inv(s) && t in s.calls && s.calls[t].Entering? && e in s.heap
    ensures Inv(Settle(s.(heap := s.heap[e := s.heap[e].(users := s.heap[e].users + 1)]), t, e))
  {
    OneMoreUser(s, e);
    hide InvBut, Settle;
    SettleKeeps(s.(heap := s.heap[e := s.heap[e].(users := s.heap[e].users + 1)]), t, e);
  }

  lemma {:induction false} NewRecord(s: Sys, c: nat, record: nat)
    requires Inv(s) && record !in s.heap
    requires forall e :: e in s.heap ==> s.heap[e].control != c
    ensures InvBut(s.(list := [record] + s.list, heap := s.heap[record := Entry(c, 1, false)]), {record})
  {
    hide Registry, UserCounts, RunnerCounts, Published, Results, Sleepers;
    var heap := s.heap[record := Entry(c, 1, false)];
    RegistryAdd(s.list, s.heap, record, Entry(c, 1, false));
    UsersAdd(s.heap, s.calls, record, c);
    RunnersSame(s.heap, heap, s.calls);
    PublishedSame(s.words, s.heap, heap);
  }

  lemma {:induction false} OneMoreUser(s: Sys, e: nat)
    requires Inv(s) && e in s.heap
    ensures InvBut(s.(heap := s.heap[e := s.heap[e].(users := s.heap[e].users + 1)]), {e})
  {
    hide Registry, UserCounts, RunnerCounts, Published, Results, Sleepers;
    var heap := s.heap[e := s.heap[e].(users := s.heap[e].users + 1)];
    RegistrySame(s.list, s.heap, heap);
    UsersTake(s.heap, s.calls, e);
    RunnersSame(s.heap, heap, s.calls);
    PublishedSame(s.words, s.heap, heap);
  }

  /** A sleeper taken out of the waiting count, about to settle, fail or be cancelled. */
  lemma {:induction false} WakingUp(s: Sys, t: nat, x: Call)
    requires Inv(s) && Sleeping(s, t)
    requires x.Cancelled? || x.Entering? || (x.Returned? && x.outcome == NativeError)
    ensures InvBut(s.(waiters := s.waiters - 1, calls := s.calls[t := x]), {s.calls[t].entry})
  {
    hide Registry, UserCounts, RunnerCounts, Published, Results;
    UsersLetGo(s.heap, s.calls, t, x, s.calls[t].entry);
    RunnersIgnore(s.heap, s.calls, t, x);
    SleepersAfter(s.calls, t, x);
    ResultsMove(s.words, s.calls, s.runs, t, x);
  }

  /** The end of an initializer, completed or cancelled, up to the release of its record. */
  lemma {:induction false} EndedKeeps(s: Sys, t: nat, e: nat, word: int, after: Call, runs: map<nat, nat>)
    requires Inv(s) && Owning(s, t) && e == s.calls[t].entry
    requires var c := s.heap[e].control;
             (word == DONE && after == Returned(c, Okay) && runs == s.runs[c := Runs(s.runs, c) + 1]) ||
             (word == INITIAL && after == Cancelled && runs == s.runs)
    ensures InvBut(s.(heap := s.heap[e := s.heap[e].(running := false)], words := s.words[s.heap[e].control := word],
                      calls := Signalled(s.calls)[t := after], runs := runs), {e})
  {
    hide Registry, UserCounts, RunnerCounts, Published, Results, Sleepers;
    var calls := Signalled(s.calls);
    var heap := s.heap[e := s.heap[e].(running := false)];
    var words := s.words[s.heap[e].control := word];
    SignalledCounts(s.heap, s.words, s.calls, s.runs);
    RunnerWord(s, t);
    RegistrySame(s.list, s.heap, heap);
    UsersLetGo(s.heap, calls, t, after, e);
    UsersRunning(s.heap, calls[t := after], e, false, {e});
    RunnersStop(s.heap, calls, t, e, after);
    SleepersAfter(calls, t, after);
    PublishedStop(s.list, s.words, s.heap, e, word);
    ResultsStop(s.words, calls, s.runs, s.heap[e].control, word);
    ResultsMove(words, calls, runs, t, after);
  }

  lemma RunnerWord(s: Sys, t: nat)
    requires Inv(s) && Owning(s, t)
    ensures s.heap[s.calls[t].entry].running && Word(s.words, s.heap[s.calls[t].entry].control) == RUNNING
  {
    RunnerFound(s.heap, s.calls, t);
  }

  lemma {:induction false} LeaveKeeps(s: Sys, t: nat, word: int, after: Call)
    requires Inv(s) && Owning(s, t)
    requires (word == DONE && after == Returned(s.heap[s.calls[t].entry].control, Okay)) ||
             (word == INITIAL && after == Cancelled)
    ensures var c := s.heap[s.calls[t].entry].control;
            Inv(Leave(s, t, word, after).(runs := if word == DONE then s.runs[c := Runs(s.runs, c) + 1] else s.runs))
  {
    hide Registry, UserCounts, RunnerCounts, Published, Results, Safe, NoLostWakeup, Sleepers;
    var e := s.calls[t].entry;
    var c := s.heap[e].control;
    var runs := if word == DONE then s.runs[c := Runs(s.runs, c) + 1] else s.runs;
    var heap, words := s.heap[e := s.heap[e].(running := false)], s.words[c := word];
    BroadcastCalls(s.(heap := heap, words := words));
    EndedKeeps(s, t, e, word, after, runs);
    ReleaseKeeps(s.(heap := heap, words := words, calls := Signalled(s.calls)[t := after], runs := runs), e);
  }

  lemma WakeKeeps(s: Sys, t: nat)
    requires Inv(s) && Sleeping(s, t)
    ensures Inv(Apply(s, Wake(t)))
  {
    hide InvBut, Settle;
    var e := s.calls[t].entry;
    var x := Entering(s.heap[e].control);
    WakingUp(s, t, x);
    SettleKeeps(s.(waiters := s.waiters - 1, calls := s.calls[t := x]), t, e);
    SettleForgets(s.(waiters := s.waiters - 1), t, e, x);
  }

  /** `Settle` overwrites the call, so what it was before does not matter. */
  lemma SettleForgets(s: Sys, t: nat, e: nat, x: Call)
    requires Held(s, e)
    ensures Settle(s.(calls := s.calls[t := x]), t, e) == Settle(s, t, e)
  {
    var y := Settle(s, t, e).calls[t];
    assert s.calls[t := x][t := y] == s.calls[t := y];
  }

  /** Every step of every call keeps the invariant. */
  lemma {:induction false} StepKeeps(s: Sys, step: Step)
    requires Inv(s) && Enabled(s, step)
    ensures Inv(Apply(s, step))
  {
    hide InvBut, Settle, Leave, EnterStep, Release;
    match step
    case Begin(t, c) => MoveKeeps(s, t, if Word(s.words, c) == DONE then Returned(c, Okay) else Entering(c), {});
    case Enter(t, record, memory) => EnterKeeps(s, t, record, memory);
    case LockFails(t) => MoveKeeps(s, t, Returned(s.calls[t].control, NativeError), {});
    case Wake(t) => WakeKeeps(s, t);
    case WaitFails(t) =>
      var x := Returned(s.heap[s.calls[t].entry].control, NativeError);
      WakingUp(s, t, x);
      ReleaseKeeps(s.(waiters := s.waiters - 1, calls := s.calls[t := x]), s.calls[t].entry);
    case CancelWaiter(t) =>
      WakingUp(s, t, Cancelled);
      ReleaseKeeps(s.(waiters := s.waiters - 1, calls := s.calls[t := Cancelled]), s.calls[t].entry);
    case Finish(t) => LeaveKeeps(s, t, DONE, Returned(s.heap[s.calls[t].entry].control, Okay));
    case CancelInitializer(t) => LeaveKeeps(s, t, INITIAL, Cancelled); LeaveRuns(s, t);
  }

  lemma LeaveRuns(s: Sys, t: nat)
    requires Owning(s, t)
    ensures Leave(s, t, INITIAL, Cancelled).runs == s.runs
  {
  }
}
