/** The life of a loaded library (src/loader.c:289-311, 403-483): cloning, initialization and an unload that
    may be deferred and retried, over any sequence of calls and registrations of exit callbacks, with constructors,
    destructors and callbacks that register and finalize callbacks themselves. */
module Library {
  import opened ExitCallbacks

  /** What happened to a library, in order. */
  datatype Event = Constructed | Destructed | Prepared | Called(id: nat) | Finished | Released

  /** The handle fields and the callback registry; `log` is what has happened so far. */
  datatype Module = Module(
    refs: nat, unloading: bool, initialized: bool, finalized: bool, prepare: bool, finish: bool, released: bool,
    exits: seq<Entry>, log: seq<Event>)

  /** The address range of the library, never empty in a loaded one, and what its constructors and destructors do to
      the exit callbacks. */
  datatype Code = Code(base: nat, span: nat, ctors: seq<Act>, dtors: seq<Act>)

  function Whole(c: Code): Target {
    Range(c.base, c.span)
  }

  function Calls(ids: seq<nat>): seq<Event> {
    seq(|ids|, i requires 0 <= i < |ids| => Called(ids[i]))
  }

  /** `loader_init_library`: constructors run once, and never on a library that is being unloaded. */
  function Init(m: Module, c: Code): (r: (Module, bool)) {
    if m.unloading then (m, false)
    else if m.initialized then (m, true)
    else (Ran(m, c.ctors, Constructed).(initialized := true), true)
  }

  /** Code of the library ran, together with the callbacks it finalized. */
  function Ran(m: Module, acts: seq<Act>, e: Event): Module {
    var effect := Perform(acts, m.exits);
    m.(exits := effect.0, log := (m.log + Calls(effect.1)) + [e])
  }

  /** `loader_clone_handle`. */
  function Clone(m: Module): (r: (Module, bool)) {
    if m.unloading then (m, false) else (m.(refs := m.refs + 1), true)
  }

  /** Lines 419-429: the preparation that may refuse. */
  function Prepare(m: Module, agrees: bool): (r: (Module, bool)) {
    if !m.prepare then (m.(unloading := true), true)
    else if !agrees then (m.(unloading := false, refs := 1), false)
    else (m.(unloading := true, prepare := false, log := m.log + [Prepared]), true)
  }

  function Torn(m: Module, c: Code): Module {
    if m.initialized then Ran(m, c.dtors, Destructed) else m
  }

  function Emptied(m: Module, c: Code): Module {
    var drained := Finalized(m.exits, Whole(c));
    m.(exits := drained.0, log := m.log + Calls(drained.1))
  }

  function Cleaned(m: Module): Module {
    if m.finish then m.(finish := false, log := m.log + [Finished]) else m
  }

  /** Lines 431-450: destructors, exit callbacks, the final cleanup. */
  function Finalize(m: Module, c: Code): Module {
    Cleaned(Emptied(Torn(m, c), c)).(initialized := false, finalized := true)
  }

  /** `loader_free_library`: whether synchronization objects are busy, whether the preparation agrees and
      whether their destruction fails are the environment's answers. */
  function Free(m: Module, c: Code, busy: bool, agrees: bool, fails: bool): Module {
    if m.refs == 0 then m
    else if m.refs > 1 then m.(refs := m.refs - 1)
    else if busy then m
    else
      var ready := Prepare(m.(refs := 0), agrees);
      if !ready.1 then ready.0
      else
        var done := Finalize(ready.0, c);
        if fails then done.(refs := 1) else done.(released := true, log := done.log + [Released])
  }

  datatype Step =
    | DoInit
    | DoClone
    | DoFree(busy: bool, agrees: bool, fails: bool)
    | DoRegister(entry: Entry)

  /** A released library has no handle left to call with; callbacks can always be registered. */
  function Apply(m: Module, c: Code, step: Step): Module {
    match step
    case DoInit => if m.released then m else Init(m, c).0
    case DoClone => if m.released then m else Clone(m).0
    case DoFree(busy, agrees, fails) => if m.released then m else Free(m, c, busy, agrees, fails)
    case DoRegister(entry) => m.(exits := [entry] + m.exits)
  }

  /** A freshly loaded library has one handle (loader.c lines 267-277). */
  function Loaded(prepare: bool, finish: bool, exits: seq<Entry>): Module {
    Module(1, false, false, false, prepare, finish, false, exits, [])
  }

  function Run(m: Module, c: Code, steps: seq<Step>): Module {
    if steps == [] then m else Apply(Run(m, c, steps[..|steps| - 1]), c, steps[|steps| - 1])
  }

  // ---------------------------------------------------------------- how often, and when

  function Count(log: seq<Event>, e: Event): nat {
    if log == [] then 0 else Count(log[..|log| - 1], e) + if log[|log| - 1] == e then 1 else 0
  }

  lemma {:induction false} CountAppend(a: seq<Event>, b: seq<Event>, e: Event)
    ensures Count(a + b, e) == Count(a, e) + Count(b, e)
    decreases |b|
  {
    if b == [] {
      assert a + b == a;
    } else {
      assert (a + b)[..|a + b| - 1] == a + b[..|b| - 1];
      CountAppend(a, b[..|b| - 1], e);
    }
  }

  lemma {:induction false} CountCalls(ids: seq<nat>, e: Event)
    requires !e.Called?
    ensures Count(Calls(ids), e) == 0
  {
    if ids != [] {
      assert Calls(ids)[..|ids| - 1] == Calls(ids[..|ids| - 1]);
      CountCalls(ids[..|ids| - 1], e);
    }
  }

  /** How often each of the one-time events has happened. */
  datatype Tally = Tally(constructed: nat, destructed: nat, prepared: nat, finished: nat, released: nat)

  function TallyOf(log: seq<Event>): Tally {
    Tally(Count(log, Constructed), Count(log, Destructed), Count(log, Prepared), Count(log, Finished),
        Count(log, Released))
  }

  function One(b: bool): nat {
    if b then 1 else 0
  }

  /** What the log of a library says, given its flags and the hooks it was loaded with. */
  ghost predicate Okay(m: Module, c: Code, prepare: bool, finish: bool) {
    var t := TallyOf(m.log);
    && (m.unloading <==> m.finalized)
    && (m.finalized ==> !m.initialized)
    && (m.released ==> m.finalized)
    && (m.prepare ==> prepare && !m.finalized)
    && (m.finish ==> finish && !m.finalized)
    && (!m.finalized ==> m.prepare == prepare && m.finish == finish)
    && t.constructed == (if m.finalized then t.destructed else One(m.initialized)) <= 1
    && t.destructed <= One(m.finalized)
    && t.prepared == One(prepare && m.finalized)
    && t.finished == One(finish && m.finalized)
    && t.released == One(m.released)
    && (!m.released ==> m.refs > 0)
    && (m.released ==> m.log != [] && m.log[|m.log| - 1] == Released)
  }

  lemma LogOne(log: seq<Event>, e: Event)
    ensures forall x: Event :: Count(log + [e], x) == Count(log, x) + One(x == e)
  {
    assert (log + [e])[..|log|] == log;
  }

  lemma LogCalls(log: seq<Event>, ids: seq<nat>)
    ensures TallyOf(log + Calls(ids)) == TallyOf(log)
  {
    forall e: Event | !e.Called?
      ensures Count(log + Calls(ids), e) == Count(log, e)
    {
      CountAppend(log, Calls(ids), e);
      CountCalls(ids, e);
    }
  }

  /** What finalizing adds to the log, in any state. */
  lemma FinalizeTally(m: Module, c: Code)
    ensures var t, n := TallyOf(m.log), TallyOf(Finalize(m, c).log);
            n == Tally(t.constructed, t.destructed + One(m.initialized), t.prepared, t.finished + One(m.finish),
                t.released)
    ensures Drained(Finalize(m, c).exits, Whole(c))
  {
    hide Count, Calls, Perform, Finalized;
    var torn := Torn(m, c);
    RanTally(m, c.dtors, Destructed);
    FinalizedDrains(torn.exits, Whole(c));
    var ids := Finalized(torn.exits, Whole(c)).1;
    LogCalls(torn.log, ids);
    LogOne(torn.log + Calls(ids), Finished);
  }

  lemma RanTally(m: Module, acts: seq<Act>, e: Event)
    requires !e.Called?
    ensures forall x: Event :: !x.Called? ==> Count(Ran(m, acts, e).log, x) == Count(m.log, x) + One(x == e)
  {
    var ids := Perform(acts, m.exits).1;
    LogOne(m.log + Calls(ids), e);
    forall x: Event | !x.Called?
      ensures Count(m.log + Calls(ids), x) == Count(m.log, x)
    {
      CountAppend(m.log, Calls(ids), x);
      CountCalls(ids, x);
    }
  }

  lemma FreeKeeps(m: Module, c: Code, busy: bool, agrees: bool, fails: bool, prepare: bool, finish: bool)
    requires Okay(m, c, prepare, finish) && !m.released
    ensures Okay(Free(m, c, busy, agrees, fails), c, prepare, finish)
  {
    hide Count;
    LogOne(m.log, Prepared);
    var ready := Prepare(m.(refs := 0), agrees);
    FinalizeTally(ready.0, c);
    LogOne(Finalize(ready.0, c).log, Released);
  }

  lemma StepKeeps(m: Module, c: Code, step: Step, prepare: bool, finish: bool)
    requires Okay(m, c, prepare, finish)
    ensures Okay(Apply(m, c, step), c, prepare, finish)
  {
    hide Count, Free;
    match step
    case DoInit => RanTally(m, c.ctors, Constructed);
    case DoClone =>
    case DoFree(busy, agrees, fails) =>
      if !m.released {
        FreeKeeps(m, c, busy, agrees, fails, prepare, finish);
      }
    case DoRegister(_) =>
  }

  lemma {:induction false} RunKeeps(prepare: bool, finish: bool, exits: seq<Entry>, c: Code, steps: seq<Step>)
    ensures Okay(Run(Loaded(prepare, finish, exits), c, steps), c, prepare, finish)
    decreases |steps|
  {
    if steps != [] {
      RunKeeps(prepare, finish, exits, c, steps[..|steps| - 1]);
      hide Okay, Apply;
      StepKeeps(Run(Loaded(prepare, finish, exits), c, steps[..|steps| - 1]), c, steps[|steps| - 1], prepare, finish);
    }
  }

  /** Through any sequence of clones, frees, refused preparations and failed cleanups, constructors, destructors,
      the preparation, the final cleanup and the release each happen at most once, destructors only after
      constructors, and a release is the last thing that happens, after everything else that was due. */
  lemma EachHappensOnce(prepare: bool, finish: bool, exits: seq<Entry>, c: Code, steps: seq<Step>)
    ensures var m := Run(Loaded(prepare, finish, exits), c, steps);
            var t := TallyOf(m.log);
            && t.destructed <= t.constructed <= 1
            && t.prepared <= One(prepare) && t.finished <= One(finish) && t.released <= 1
            && (t.released == 1 <==> m.released)
            && (m.released ==> t.destructed == t.constructed && t.prepared == One(prepare) && t.finished == One(finish))
            && (m.released ==> m.log != [] && m.log[|m.log| - 1] == Released)
  {
    RunKeeps(prepare, finish, exits, c, steps);
  }

  /** A finalized library is never handed out or initialized again, and it keeps a handle until it is released,
      so its unload can be retried. */
  lemma FinalizedIsFinal(prepare: bool, finish: bool, exits: seq<Entry>, c: Code, steps: seq<Step>)
    ensures var m := Run(Loaded(prepare, finish, exits), c, steps);
            && (m.finalized ==> !Clone(m).1 && Clone(m).0 == m && !Init(m, c).1 && Init(m, c).0 == m)
            && (m.finalized && !m.released ==> m.refs > 0)
            && (!m.finalized ==> Clone(m).1 && Init(m, c).1 && m.refs > 0)
  {
    RunKeeps(prepare, finish, exits, c, steps);
  }

  /** When a library is released, no callback into it or of it is registered any more. */
  lemma ReleasedIsDrained(m: Module, c: Code, busy: bool, agrees: bool, fails: bool)
    requires !m.released
    ensures var r := Free(m, c, busy, agrees, fails);
            r.released ==> Drained(r.exits, Whole(c)) && Free(m, c, busy, agrees, fails) != m
  {
    if m.refs == 1 && !busy {
      FinalizeTally(Prepare(m.(refs := 0), agrees).0, c);
    }
  }

  /** A refused preparation or a busy library changes nothing a caller can see: it can be used and unloaded again. */
  lemma RefusalIsHarmless(prepare: bool, finish: bool, exits: seq<Entry>, c: Code, steps: seq<Step>, busy: bool,
      fails: bool)
    ensures var m := Run(Loaded(prepare, finish, exits), c, steps);
            !m.released && m.refs == 1 && (busy || m.prepare) ==> Free(m, c, busy, false, fails) == m
  {
    RunKeeps(prepare, finish, exits, c, steps);
  }

  // ---------------------------------------------------------------- the code

  function NonNull(functions: seq<nat>): seq<nat> {
    if functions == [] then []
    else NonNull(functions[..|functions| - 1]) +
         if functions[|functions| - 1] != 0 then [functions[|functions| - 1]] else []
  }

  function Backwards(s: seq<nat>): seq<nat> {
    if s == [] then [] else [s[|s| - 1]] + Backwards(s[..|s| - 1])
  }

  /** One turn of the loop over the destructors, and its two ends. */
  lemma BackwardsStep(functions: seq<nat>, count: nat, ran: seq<nat>)
    requires count < |functions|
    ensures ran + Backwards(NonNull(functions[..count + 1])) ==
            (if functions[count] != 0 then ran + [functions[count]] else ran) + Backwards(NonNull(functions[..count]))
  {
    assert functions[..count + 1][..count] == functions[..count];
    var kept := NonNull(functions[..count]);
    assert kept + [] == kept && (kept + [functions[count]])[..|kept|] == kept;
  }

  lemma BackwardsEnds(functions: seq<nat>, ran: seq<nat>)
    ensures ran + Backwards(NonNull(functions[..0])) == ran
    ensures [] + Backwards(NonNull(functions[..|functions|])) == Backwards(NonNull(functions))
  {
    assert functions[..|functions|] == functions;
  }

  /** One turn of the loop over the constructors, and its two ends. */
  lemma ForwardsStep(functions: seq<nat>, count: nat)
    requires count < |functions|
    ensures NonNull(functions[..count + 1]) ==
            if functions[count] != 0 then NonNull(functions[..count]) + [functions[count]]
            else NonNull(functions[..count])
  {
    assert functions[..count + 1][..count] == functions[..count];
  }

  lemma ForwardsEnds(functions: seq<nat>)
    ensures NonNull(functions[..0]) == [] && NonNull(functions[..|functions|]) == NonNull(functions)
  {
    assert functions[..|functions|] == functions;
  }

  /** What functions do, one after the other. */
  function ActsOf(does: nat -> seq<Act>, functions: seq<nat>): seq<Act> {
    if functions == [] then []
    else ActsOf(does, functions[..|functions| - 1]) + does(functions[|functions| - 1])
  }

  lemma NothingYet(does: nat -> seq<Act>, entries: seq<Entry>, log: seq<Event>)
    ensures Perform(ActsOf(does, []), entries) == (entries, []) && log + Calls([]) == log
  {
  }

  lemma CallsAppend(log: seq<Event>, a: seq<nat>, b: seq<nat>)
    ensures log + Calls(a + b) == (log + Calls(a)) + Calls(b)
  {
    assert Calls(a + b) == Calls(a) + Calls(b);
  }

  /** `dynalib_t` with its two function arrays and what each function does; `ran` lists the functions called. */
  class Handle {
    const base: nat
    const span: nat
    const ctors: seq<nat>
    const dtors: seq<nat>
    const does: nat -> seq<Act>
    var refs: nat
    var unloading: bool
    var initialized: bool
    var finalized: bool
    var prepare: bool
    var finish: bool
    var released: bool
    const exits: Registry
    ghost var log: seq<Event>
    ghost var ran: seq<nat>

    ghost function View(): Module
      reads this, exits
    {
      Module(refs, unloading, initialized, finalized, prepare, finish, released, exits.entries, log)
    }

    function Own(): Code {
      Code(base, span, ActsOf(does, NonNull(ctors)), ActsOf(does, Backwards(NonNull(dtors))))
    }

    constructor (
      base: nat, span: nat, ctors: seq<nat>, dtors: seq<nat>, does: nat -> seq<Act>, prepare: bool, finish: bool,
      registry: Registry)
      ensures View() == Loaded(prepare, finish, registry.entries) && ran == [] && exits == registry
      ensures this.base == base && this.span == span && this.ctors == ctors && this.dtors == dtors && this.does == does
    {
      this.base, this.span, this.ctors, this.dtors, this.does, exits := base, span, ctors, dtors, does, registry;
      refs, unloading, initialized, finalized, this.prepare, this.finish := 1, false, false, false, prepare, finish;
      released, log, ran := false, [], [];
    }

    /** The functions `done` ran, on callbacks that were `start`. */
    ghost predicate Progress(start: seq<Entry>, logged: seq<Event>, done: seq<nat>)
      reads this, exits
    {
      && exits.entries == Perform(ActsOf(does, done), start).0
      && log == logged + Calls(Perform(ActsOf(does, done), start).1)
    }

    /** One entry of a function array. */
    method CallFunction(f: nat, ghost start: seq<Entry>, ghost logged: seq<Event>, ghost done: seq<nat>)
      requires Progress(start, logged, done)
      modifies this`ran, this`log, exits
      ensures ran == old(ran) + [f] && Progress(start, logged, done + [f])
    {
      ghost var before := exits.entries;
      hide Calls;
      assert (done + [f])[..|done|] == done;
      PerformAppend(ActsOf(does, done), does(f), start);
      CallsAppend(logged, Perform(ActsOf(does, done), start).1, Perform(does(f), before).1);
      hide Perform;
      exits.RunActs(does(f));
      ran := ran + [f];
      log := log + Calls(Perform(does(f), before).1);
    }

    /** `loader_init_library`: every constructor in order, null entries left out. */
    method InitLibrary() returns (ok: bool)
      modifies this`initialized, this`log, this`ran, exits
      ensures (View(), ok) == Init(old(View()), Own())
      ensures ran == old(ran) + if old(unloading) || old(initialized) then [] else NonNull(ctors)
    {
      hide Perform, Calls, ActsOf, NonNull, Backwards;
      if unloading {
        return false;
      }
      if initialized {
        return true;
      }
      var index := 0;
      NothingYet(does, exits.entries, log);
      ForwardsEnds(ctors);
      while index < |ctors|
        modifies this`ran, this`log, exits
        invariant 0 <= index <= |ctors| && ran == old(ran) + NonNull(ctors[..index])
        invariant Progress(old(exits.entries), old(log), NonNull(ctors[..index]))
      {
        ForwardsStep(ctors, index);
        if ctors[index] != 0 {
          CallFunction(ctors[index], old(exits.entries), old(log), NonNull(ctors[..index]));
        }
        index := index + 1;
      }
      initialized := true;
      log := log + [Constructed];
      ok := true;
    }

    /** `loader_clone_handle`. */
    method CloneHandle() returns (ok: bool)
      modifies this`refs
      ensures (View(), ok) == Clone(old(View()))
    {
      if unloading {
        return false;
      }
      refs := refs + 1;
      ok := true;
    }

    /** Lines 431-440: every destructor, last first. */
    method RunDestructors()
      modifies this`ran, this`log, exits
      ensures ran == old(ran) + Backwards(NonNull(dtors))
      ensures Progress(old(exits.entries), old(log), Backwards(NonNull(dtors)))
    {
      hide Perform, Calls, ActsOf, NonNull, Backwards;
      var count := |dtors|;
      ghost var done: seq<nat> := [];
      NothingYet(does, exits.entries, log);
      BackwardsEnds(dtors, []);
      while count > 0
        invariant 0 <= count <= |dtors| && ran == old(ran) + done
        invariant done + Backwards(NonNull(dtors[..count])) == Backwards(NonNull(dtors))
        invariant Progress(old(exits.entries), old(log), done)
      {
        count := count - 1;
        BackwardsStep(dtors, count, done);
        if dtors[count] != 0 {
          CallFunction(dtors[count], old(exits.entries), old(log), done);
          done := done + [dtors[count]];
        }
      }
      BackwardsEnds(dtors, done);
    }

    /** The destructors of a library that was initialized. */
    method TearDown()
      modifies this`ran, this`log, exits
      ensures View() == Torn(old(View()), Own())
      ensures ran == old(ran) + if initialized then Backwards(NonNull(dtors)) else []
    {
      hide Perform, Calls, ActsOf, NonNull, Backwards;
      if initialized {
        RunDestructors();
        log := log + [Destructed];
      }
    }

    /** The exit callbacks of the library (line 445). */
    method Drain()
      requires span > 0
      modifies this`log, exits
      ensures View() == Emptied(old(View()), Own()) && Drained(exits.entries, Whole(Own()))
    {
      hide Finalized, Calls, ActsOf, NonNull, Backwards, Drained;
      FinalizedDrains(exits.entries, Whole(Own()));
      ghost var before := exits.entries;
      exits.Finalize(Range(base, span));
      log := log + Calls(Finalized(before, Whole(Own())).1);
    }

    /** Lines 431-450: the destructors, the exit callbacks and the final cleanup. */
    method FinalizeLibrary()
      requires span > 0
      modifies this`log, this`ran, this`finish, this`initialized, this`finalized, exits
      ensures View() == Finalize(old(View()), Own())
      ensures Drained(exits.entries, Whole(Own()))
      ensures ran == old(ran) + if old(initialized) then Backwards(NonNull(dtors)) else []
    {
      hide Torn, Emptied, Drained, Own, Backwards, NonNull;
      TearDown();
      Drain();
      if finish {
        finish := false;
        log := log + [Finished];
      }
      initialized := false;
      finalized := true;
    }

    /** Lines 419-429: the preparation that may refuse. */
    method PrepareUnload(agrees: bool) returns (ready: bool)
      modifies this`unloading, this`prepare, this`refs, this`log
      ensures (View(), ready) == Prepare(old(View()), agrees)
    {
      unloading := true;
      if prepare {
        if !agrees {
          unloading := false;
          refs := 1;
          return false;
        }
        prepare := false;
        log := log + [Prepared];
      }
      ready := true;
    }

    /** `loader_free_library`. */
    method FreeLibrary(busy: bool, agrees: bool, fails: bool)
      requires !released && span > 0 && (finalized ==> !initialized)
      modifies this, exits
      ensures View() == Free(old(View()), Own(), busy, agrees, fails)
      ensures released ==> Drained(exits.entries, Whole(Own()))
      ensures ran == old(ran) + if finalized && old(initialized) then Backwards(NonNull(dtors)) else []
    {
      hide Drained, Prepare, Finalize, Own, Backwards, NonNull;
      if refs == 0 {
        return;
      }
      refs := refs - 1;
      if refs > 0 {
        return;
      }
      if busy {
        refs := 1;
        return;
      }
      PrepareFlags(View(), agrees);
      var ready := PrepareUnload(agrees);
      if !ready {
        return;
      }
      FinalizeLibrary();
      FinalizeFlags(old(Prepare(View().(refs := 0), agrees).0), Own());
      if fails {
        refs := 1;
        return;
      }
      released := true;
      log := log + [Released];
    }
  }

  lemma PrepareFlags(m: Module, agrees: bool)
    ensures var (r, ready) := Prepare(m, agrees);
            r.released == m.released && r.finalized == m.finalized && r.initialized == m.initialized
  {
  }

  lemma FinalizeFlags(m: Module, c: Code)
    ensures Finalize(m, c).finalized && Finalize(m, c).refs == m.refs && Finalize(m, c).released == m.released
  {
    hide Finalized, Perform, Calls;
  }
}
