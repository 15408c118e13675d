/** What the calls on a library run, and when (src/bridges/libc/cxx.c:46-97, src/loader.c:289-311, 403-483): which
    callbacks a finalization takes and in which order, how handles are counted, and the order of an unload. */
module UnloadCalls {
  import opened ExitCallbacks
  import opened Library

  // ---------------------------------------------------------------- which callbacks

  /** An address of a library. */
  predicate Within(a: nat, base: nat, size: nat) {
    base <= a < base + size
  }

  /** A range asks for the callbacks of an object in it and those whose code is in it; an object asks for its own, and
      no object for all. */
  lemma AskedExactly(e: Entry, base: nat, size: nat, dso: nat)
    ensures Matches(e, Range(base, size)) <==> Within(e.dso, base, size) || Within(e.callback, base, size)
    ensures dso != 0 ==> (Matches(e, Object(dso)) <==> e.dso == dso)
    ensures Matches(e, Object(0))
  {
  }

  function Others(entries: seq<Entry>, target: Target): seq<Entry> {
    if entries == [] then []
    else (if Matches(entries[0], target) then [] else [entries[0]]) + Others(entries[1..], target)
  }

  function Asked(entries: seq<Entry>, target: Target): seq<nat> {
    if entries == [] then []
    else (if Matches(entries[0], target) then [entries[0].id] else []) + Asked(entries[1..], target)
  }

  lemma {:induction false} AskedWithout(entries: seq<Entry>, target: Target, k: nat)
    requires k < |entries| && Matches(entries[k], target) && forall j :: 0 <= j < k ==> !Matches(entries[j], target)
    ensures Others(entries, target) == Others(Without(entries, k), target)
    ensures Asked(entries, target) == [entries[k].id] + Asked(Without(entries, k), target)
  {
    if k == 0 {
      assert Without(entries, 0) == entries[1..];
    } else {
      assert Without(entries, k)[0] == entries[0] && Without(entries, k)[1..] == Without(entries[1..], k - 1);
      AskedWithout(entries[1..], target, k - 1);
    }
  }

  lemma {:induction false} AskedNone(entries: seq<Entry>, target: Target)
    requires forall j :: 0 <= j < |entries| ==> !Matches(entries[j], target)
    ensures Others(entries, target) == entries && Asked(entries, target) == []
  {
    if entries != [] {
      AskedNone(entries[1..], target);
    }
  }

  /** One callback that leaves the registry alone. */
  lemma FinalizedOne(entries: seq<Entry>, target: Target)
    requires First(entries, target) < |entries| && entries[First(entries, target)].acts == []
    ensures var k := First(entries, target); var rest := Finalized(Without(entries, k), target);
            Weight(Without(entries, k)) < Weight(entries) &&
            Finalized(entries, target) == (rest.0, [entries[k].id] + rest.1)
  {
    hide Matches, Pending, PendingEntry;
    var k := First(entries, target);
    CallShrinks(entries, k);
    assert Perform([], Without(entries, k)) == (Without(entries, k), []);
    assert [entries[k].id] + [] == [entries[k].id];
  }

  /** Callbacks that leave the registry alone run last registered first, each once, and the others stay as they are. */
  lemma {:induction false} LastRegisteredFirst(entries: seq<Entry>, target: Target)
    requires forall k :: 0 <= k < |entries| ==> entries[k].acts == []
    ensures Finalized(entries, target) == (Others(entries, target), Asked(entries, target))
    decreases Weight(entries)
  {
    hide Matches, Perform, Weight, Others, Asked;
    var k := First(entries, target);
    if k == |entries| {
      AskedNone(entries, target);
    } else {
      FinalizedOne(entries, target);
      LastRegisteredFirst(Without(entries, k), target);
      AskedWithout(entries, target, k);
      hide Finalized;
    }
  }

  /** After a finalization of a range no callback is registered whose object or code is in it. */
  lemma NothingInRange(entries: seq<Entry>, base: nat, size: nat)
    ensures forall e :: e in Finalized(entries, Range(base, size)).0 ==>
                          !Within(e.dso, base, size) && !Within(e.callback, base, size)
  {
    var r := Finalized(entries, Range(base, size)).0;
    FinalizedDrains(entries, Range(base, size));
    hide Finalized;
    forall e | e in r
      ensures !Within(e.dso, base, size) && !Within(e.callback, base, size)
    {
      var k :| 0 <= k < |r| && r[k] == e;
      AskedExactly(r[k], base, size, 0);
    }
  }

  // ---------------------------------------------------------------- handles

  /** The handles given out and not given back. */
  function Handles(steps: seq<Step>): int {
    if steps == [] then 1
    else
      Handles(steps[..|steps| - 1]) +
      match steps[|steps| - 1]
      case DoClone => 1
      case DoFree(_, _, _) => -1
      case _ => 0
  }

  /** Nobody gives back the last one. */
  predicate Shared(steps: seq<Step>) {
    forall k :: 0 <= k <= |steps| ==> Handles(steps[..k]) >= 1
  }

  /** A library that somebody holds is never unloaded; its handles are counted, whatever else is called. */
  lemma {:induction false} HandlesAreCounted(
    prepare: bool, finish: bool, exits: seq<Entry>, c: Code, steps: seq<Step>)
    requires Shared(steps)
    ensures var m := Run(Loaded(prepare, finish, exits), c, steps);
            && m.refs == Handles(steps) && !m.unloading && !m.finalized && !m.released
            && m.prepare == prepare && m.finish == finish
            && (m.initialized <==> exists k :: 0 <= k < |steps| && steps[k].DoInit?)
    decreases |steps|
  {
    assert steps[..|steps|] == steps;
    if steps != [] {
      var n := |steps| - 1;
      var earlier := steps[..n];
      forall k | 0 <= k <= n
        ensures Handles(earlier[..k]) >= 1
      {
        assert earlier[..k] == steps[..k];
      }
      HandlesAreCounted(prepare, finish, exits, c, earlier);
      StepCounts(Run(Loaded(prepare, finish, exits), c, earlier), c, steps[n]);
      hide Run, Apply;
      if k :| 0 <= k < |steps| && steps[k].DoInit? {
        assert k < n ==> earlier[k] == steps[k];
      }
      if k :| 0 <= k < |earlier| && earlier[k].DoInit? {
        assert steps[k] == earlier[k];
      }
    }
  }

  /** One call on a library of which more than one handle is out, or no handle is given back. */
  lemma StepCounts(m: Module, c: Code, step: Step)
    requires !m.released && !m.unloading && m.refs >= 1 && (step.DoFree? ==> m.refs > 1)
    ensures var r := Apply(m, c, step);
            && r.unloading == m.unloading && r.finalized == m.finalized && r.released == m.released
            && r.prepare == m.prepare && r.finish == m.finish
            && r.initialized == (m.initialized || step.DoInit?)
            && r.refs == m.refs + (if step.DoClone? then 1 else if step.DoFree? then -1 else 0)
            && (step.DoRegister? ==> r.exits == [step.entry] + m.exits)
            && (step.DoClone? || step.DoFree? ==> r.exits == m.exits && r.log == m.log)
  {
    hide Perform, Calls;
  }

  /** Initializing runs the constructors of a library that is not initialized, and answers whether it is. */
  lemma InitDecides(m: Module, c: Code)
    ensures var (r, ok) := Init(m, c);
            && (ok <==> !m.unloading)
            && (if m.unloading || m.initialized then r == m
                else
                  && r == m.(initialized := true, exits := Perform(c.ctors, m.exits).0, log := r.log)
                  && r.log == m.log + Calls(Perform(c.ctors, m.exits).1) + [Constructed])
  {
    hide Perform, Calls;
  }

  // ---------------------------------------------------------------- the unload

  /** What happens when the last handle is given back and nothing refuses, in order: the preparation, what the
      destructors call, their end, the callbacks still registered, the final cleanup. */
  function Unloading(m: Module, c: Code): seq<Event> {
    var exits := if m.initialized then Perform(c.dtors, m.exits).0 else m.exits;
    (if m.prepare then [Prepared] else []) +
    (if m.initialized then Calls(Perform(c.dtors, m.exits).1) + [Destructed] else []) +
    Calls(Finalized(exits, Range(c.base, c.span)).1) +
    (if m.finish then [Finished] else [])
  }

  lemma Unloads(m: Module, c: Code)
    ensures var r := Finalize(Prepare(m.(refs := 0), true).0, c);
            && Prepare(m.(refs := 0), true).1
            && r.refs == 0 && r.unloading && r.finalized && !r.initialized && !r.prepare && !r.finish
            && r.released == m.released && r.log == m.log + Unloading(m, c)
  {
    hide Perform, Calls, Finalized;
    var exits := if m.initialized then Perform(c.dtors, m.exits).0 else m.exits;
    var a := if m.prepare then [Prepared] else [];
    var b := if m.initialized then Calls(Perform(c.dtors, m.exits).1) + [Destructed] else [];
    var d := Calls(Finalized(exits, Range(c.base, c.span)).1);
    var e := if m.finish then [Finished] else [];
    UnloadLog(m, c, a, b, d, e);
  }

  lemma TornLog(m: Module, c: Code)
    ensures Torn(m, c).log == m.log + if m.initialized then Calls(Perform(c.dtors, m.exits).1) + [Destructed] else []
  {
    hide Perform, Calls;
  }

  lemma UnloadLog(m: Module, c: Code, a: seq<Event>, b: seq<Event>, d: seq<Event>, e: seq<Event>)
    requires a == if m.prepare then [Prepared] else []
    requires b == if m.initialized then Calls(Perform(c.dtors, m.exits).1) + [Destructed] else []
    requires var exits := if m.initialized then Perform(c.dtors, m.exits).0 else m.exits;
             d == Calls(Finalized(exits, Range(c.base, c.span)).1)
    requires e == if m.finish then [Finished] else []
    ensures Finalize(Prepare(m.(refs := 0), true).0, c).log == m.log + (a + b + d + e)
  {
    hide Perform, Calls, Finalized;
    TornLog(Prepare(m.(refs := 0), true).0, c);
    InOrder(m.log, a, b, d, e);
  }

  lemma InOrder(log: seq<Event>, a: seq<Event>, b: seq<Event>, d: seq<Event>, e: seq<Event>)
    ensures (((log + a) + b) + d) + e == log + (a + b + d + e)
    ensures [] + log == log + [] == log
  {
  }

  /** Giving back the last handle unloads the library unless it is busy or its preparation refuses, and releases it
      unless its synchronization objects cannot be destroyed; then one handle is left to try again with. */
  lemma LastHandleUnloads(m: Module, c: Code, busy: bool, agrees: bool, fails: bool)
    requires m.refs == 1 && !m.unloading && !m.released
    ensures var r := Free(m, c, busy, agrees, fails);
            if busy || (m.prepare && !agrees) then r == m
            else
              && r.unloading && r.finalized && !r.initialized && !r.prepare && !r.finish
              && r.released == !fails && r.refs == (if fails then 1 else 0)
              && r.log == m.log + Unloading(m, c) + if fails then [] else [Released]
  {
    Unloads(m, c);
    hide Finalize, Unloading;
  }

  /** The next try runs no constructor, destructor or hook again: only what was registered meanwhile. */
  lemma RetryReleases(m: Module, c: Code, agrees: bool, fails: bool)
    requires m.refs == 1 && m.unloading && m.finalized && !m.initialized && !m.prepare && !m.finish && !m.released
    ensures var r := Free(m, c, false, agrees, fails);
            && r.released == !fails && r.refs == (if fails then 1 else 0)
            && r.log == m.log + Calls(Finalized(m.exits, Range(c.base, c.span)).1) + if fails then [] else [Released]
  {
    Unloads(m, c);
    hide Finalize, Finalized, Calls;
    assert [] + [] + Calls(Finalized(m.exits, Range(c.base, c.span)).1) + [] ==
           Calls(Finalized(m.exits, Range(c.base, c.span)).1);
  }
}
