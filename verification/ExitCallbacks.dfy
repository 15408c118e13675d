/** The registry of exit callbacks the unloader drains (src/bridges/libc/cxx.c:14-97). */
module ExitCallbacks {
  /** A registered callback, with what it does to the registry itself when it runs. */
  datatype Entry = Entry(id: nat, callback: nat, dso: nat, acts: seq<Act>)

  /** A successful registration or a nested finalization. */
  datatype Act = Register(entry: Entry) | Nested(target: Target)

  /** Which callbacks `__finalize` is asked for: those of a range of addresses, of one object, or all. */
  datatype Target = Range(base: nat, size: nat) | Object(dso: nat)

  /** `__inside`. */
  predicate Inside(value: nat, base: nat, size: nat) {
    value >= base && value - base < size
  }

  predicate Matches(e: Entry, target: Target) {
    match target
    case Range(base, size) => Inside(e.dso, base, size) || Inside(e.callback, base, size)
    case Object(dso) => dso == 0 || e.dso == dso
  }

  predicate Drained(entries: seq<Entry>, target: Target) {
    forall k :: 0 <= k < |entries| ==> !Matches(entries[k], target)
  }

  // ---------------------------------------------------------------- everything that can still run

  /** How much a list can lead to. */
  function Weight(entries: seq<Entry>): nat
    decreases entries
  {
    if entries == [] then 0 else EntryWeight(entries[0]) + Weight(entries[1..])
  }

  function EntryWeight(e: Entry): nat
    decreases e
  {
    1 + ActWeight(e.acts)
  }

  function ActWeight(acts: seq<Act>): nat
    decreases acts
  {
    if acts == [] then 0
    else 1 + OneWeight(acts[0]) + ActWeight(acts[1..])
  }

  function OneWeight(act: Act): nat
    decreases act
  {
    if act.Register? then EntryWeight(act.entry) else 0
  }

  /** The callbacks a list can lead to, each as often as it would run. */
  function Pending(entries: seq<Entry>): multiset<nat>
    decreases entries
  {
    if entries == [] then multiset{} else PendingEntry(entries[0]) + Pending(entries[1..])
  }

  function PendingEntry(e: Entry): multiset<nat>
    decreases e
  {
    multiset{e.id} + PendingActs(e.acts)
  }

  function PendingActs(acts: seq<Act>): multiset<nat>
    decreases acts
  {
    if acts == [] then multiset{}
    else PendingAct(acts[0]) + PendingActs(acts[1..])
  }

  function PendingAct(act: Act): multiset<nat>
    decreases act
  {
    if act.Register? then PendingEntry(act.entry) else multiset{}
  }

  lemma {:induction false} WeightAppend(a: seq<Entry>, b: seq<Entry>)
    ensures Weight(a + b) == Weight(a) + Weight(b) && Pending(a + b) == Pending(a) + Pending(b)
    decreases |a|
  {
    if a == [] {
      assert a + b == b;
    } else {
      assert (a + b)[0] == a[0] && (a + b)[1..] == a[1..] + b;
      WeightAppend(a[1..], b);
    }
  }

  lemma WeightOne(e: Entry, rest: seq<Entry>)
    ensures Weight([e] + rest) == EntryWeight(e) + Weight(rest)
    ensures Pending([e] + rest) == PendingEntry(e) + Pending(rest)
  {
    assert ([e] + rest)[1..] == rest;
  }

  lemma ActStep(acts: seq<Act>)
    requires acts != []
    ensures ActWeight(acts) == 1 + (if acts[0].Register? then EntryWeight(acts[0].entry) else 0) + ActWeight(acts[1..])
    ensures PendingActs(acts) ==
            (if acts[0].Register? then PendingEntry(acts[0].entry) else multiset{}) + PendingActs(acts[1..])
  {
    assert OneWeight(acts[0]) == if acts[0].Register? then EntryWeight(acts[0].entry) else 0;
    assert PendingAct(acts[0]) == if acts[0].Register? then PendingEntry(acts[0].entry) else multiset{};
  }

  /** The first callback that is asked for, or the length of the list. */
  function First(entries: seq<Entry>, target: Target): (k: nat)
    ensures k <= |entries|
    ensures k < |entries| ==> Matches(entries[k], target)
    ensures forall j :: 0 <= j < k ==> !Matches(entries[j], target)
    decreases |entries|
  {
    if entries == [] || Matches(entries[0], target) then 0
    else
      var rest := First(entries[1..], target);
      assert forall j :: 0 < j < rest + 1 ==> entries[j] == entries[1..][j - 1];
      rest + 1
  }

  function Without(entries: seq<Entry>, k: nat): seq<Entry>
    requires k < |entries|
  {
    entries[..k] + entries[k + 1..]
  }

  lemma CallShrinks(entries: seq<Entry>, k: nat)
    requires k < |entries|
    ensures Weight(entries) == 1 + ActWeight(entries[k].acts) + Weight(Without(entries, k))
    ensures Pending(entries) == PendingEntry(entries[k]) + Pending(Without(entries, k))
  {
    hide Weight, ActWeight, Pending, PendingEntry;
    var e, front, back := entries[k], entries[..k], entries[k + 1..];
    assert entries == front + ([e] + back);
    WeightAppend(front, [e] + back);
    WeightAppend(front, back);
    WeightOne(e, back);
    Swapped(Pending(front), PendingEntry(e), Pending(back));
  }

  lemma Swapped(a: multiset<nat>, b: multiset<nat>, c: multiset<nat>)
    ensures a + (b + c) == b + (a + c)
  {
  }

  /** What running code does to the registry: what is left, and the callbacks that ran meanwhile, in order. */
  function Perform(acts: seq<Act>, entries: seq<Entry>): (r: (seq<Entry>, seq<nat>))
    ensures Weight(r.0) <= ActWeight(acts) + Weight(entries)
    decreases ActWeight(acts) + Weight(entries)
  {
    if acts == [] then (entries, [])
    else if acts[0].Register? then
      ActStep(acts);
      WeightOne(acts[0].entry, entries);
      Perform(acts[1..], [acts[0].entry] + entries)
    else
      ActStep(acts);
      var inner := Finalized(entries, acts[0].target);
      var rest := Perform(acts[1..], inner.0);
      (rest.0, inner.1 + rest.1)
  }

  /** Finalizing as repeated calls: what is left, and the callbacks in the order they started. */
  function Finalized(entries: seq<Entry>, target: Target): (r: (seq<Entry>, seq<nat>))
    ensures Weight(r.0) <= Weight(entries)
    decreases Weight(entries)
  {
    var k := First(entries, target);
    if k == |entries| then (entries, [])
    else
      CallShrinks(entries, k);
      var call := Perform(entries[k].acts, Without(entries, k));
      var rest := Finalized(call.0, target);
      (rest.0, [entries[k].id] + call.1 + rest.1)
  }

  /** A finalization leaves nothing it was asked for, runs everything at most as often as it was
      registered, and loses nothing: what ran and what can still run is what could run before; also when
      callbacks register others and start finalizations of their own. */
  lemma {:induction false} FinalizedDrains(entries: seq<Entry>, target: Target)
    ensures Drained(Finalized(entries, target).0, target)
    ensures multiset(Finalized(entries, target).1) + Pending(Finalized(entries, target).0) == Pending(entries)
    decreases Weight(entries)
  {
    var k := First(entries, target);
    if k < |entries| {
      CallShrinks(entries, k);
      var e, others := entries[k], Without(entries, k);
      var call := Perform(e.acts, others);
      PerformConserves(e.acts, others);
      FinalizedDrains(call.0, target);
      var rest := Finalized(call.0, target);
      var ran := [e.id] + call.1;
      assert Finalized(entries, target) == (rest.0, ran + rest.1);
      assert PendingEntry(e) == multiset{e.id} + PendingActs(e.acts);
      hide Finalized, Perform, Pending, PendingActs, PendingEntry, Weight, ActWeight, Without, First;
      ConserveCall(e.id, call.1, PendingActs(e.acts), Pending(others), Pending(call.0), Pending(entries));
      Conserve(ran, rest.1, Pending(call.0), Pending(rest.0), Pending(entries));
    }
  }

  /** A callback and what it ran in turn. */
  lemma ConserveCall(
    id: nat, inner: seq<nat>, acts: multiset<nat>, others: multiset<nat>, left: multiset<nat>, all: multiset<nat>)
    requires multiset(inner) + left == acts + others && all == (multiset{id} + acts) + others
    ensures multiset([id] + inner) + left == all
  {
    assert multiset([id] + inner) == multiset{id} + multiset(inner);
    assert (multiset{id} + multiset(inner)) + left == multiset{id} + (multiset(inner) + left);
  }

  /** What ran before, what ran then, and what can still run. */
  lemma Conserve(before: seq<nat>, after: seq<nat>, middle: multiset<nat>, left: multiset<nat>, all: multiset<nat>)
    requires multiset(before) + middle == all && multiset(after) + left == middle
    ensures multiset(before + after) + left == all
  {
    assert multiset(before + after) == multiset(before) + multiset(after);
  }

  lemma {:induction false} PerformConserves(acts: seq<Act>, entries: seq<Entry>)
    ensures multiset(Perform(acts, entries).1) + Pending(Perform(acts, entries).0) ==
            PendingActs(acts) + Pending(entries)
    decreases ActWeight(acts) + Weight(entries)
  {
    hide Finalized, Pending, Weight, ActWeight, First, Without;
    if acts != [] {
      ActStep(acts);
      if acts[0].Register? {
        WeightOne(acts[0].entry, entries);
        PerformConserves(acts[1..], [acts[0].entry] + entries);
      } else {
        var inner := Finalized(entries, acts[0].target);
        FinalizedDrains(entries, acts[0].target);
        PerformConserves(acts[1..], inner.0);
        var rest := Perform(acts[1..], inner.0);
        assert Perform(acts, entries) == (rest.0, inner.1 + rest.1);
        assert PendingActs(acts) == PendingActs(acts[1..]);
        Conserve(inner.1, rest.1, PendingActs(acts) + Pending(inner.0), Pending(rest.0),
            PendingActs(acts) + Pending(entries));
      }
    }
  }

  /** No finalization that running code can start, itself or through what it registers, asks for `e`. */
  predicate Spares(acts: seq<Act>, e: Entry)
    decreases acts
  {
    acts == [] || (ActSpares(acts[0], e) && Spares(acts[1..], e))
  }

  predicate ActSpares(act: Act, e: Entry)
    decreases act
  {
    if act.Register? then EntrySpares(act.entry, e) else !Matches(e, act.target)
  }

  predicate EntrySpares(other: Entry, e: Entry)
    decreases other
  {
    Spares(other.acts, e)
  }

  predicate AllSpare(entries: seq<Entry>, e: Entry) {
    forall k :: 0 <= k < |entries| ==> Spares(entries[k].acts, e)
  }

  /** What neither the call nor the callbacks ask for stays registered. */
  lemma {:induction false} OthersStay(entries: seq<Entry>, target: Target, e: Entry)
    requires e in entries && !Matches(e, target) && AllSpare(entries, e)
    ensures e in Finalized(entries, target).0 && AllSpare(Finalized(entries, target).0, e)
    decreases Weight(entries)
  {
    var k := First(entries, target);
    if k < |entries| {
      CallShrinks(entries, k);
      var call := Perform(entries[k].acts, Without(entries, k));
      assert e in Without(entries, k);
      PerformSpares(entries[k].acts, Without(entries, k), e);
      OthersStay(call.0, target, e);
    }
  }

  lemma {:induction false} PerformSpares(acts: seq<Act>, entries: seq<Entry>, e: Entry)
    requires e in entries && AllSpare(entries, e) && Spares(acts, e)
    ensures e in Perform(acts, entries).0 && AllSpare(Perform(acts, entries).0, e)
    decreases ActWeight(acts) + Weight(entries)
  {
    if acts != [] {
      ActStep(acts);
      assert ActSpares(acts[0], e);
      if acts[0].Register? {
        assert EntrySpares(acts[0].entry, e);
        WeightOne(acts[0].entry, entries);
        PerformSpares(acts[1..], [acts[0].entry] + entries, e);
      } else {
        OthersStay(entries, acts[0].target, e);
        PerformSpares(acts[1..], Finalized(entries, acts[0].target).0, e);
      }
    }
  }

  /** Code that runs after other code. */
  lemma {:induction false} PerformAppend(a: seq<Act>, b: seq<Act>, entries: seq<Entry>)
    ensures Perform(a + b, entries) ==
            var p := Perform(a, entries); var q := Perform(b, p.0); (q.0, p.1 + q.1)
    decreases ActWeight(a) + Weight(entries)
  {
    if a == [] {
      assert a + b == b && [] + Perform(b, entries).1 == Perform(b, entries).1;
    } else {
      assert (a + b)[0] == a[0] && (a + b)[1..] == a[1..] + b;
      ActStep(a);
      if a[0].Register? {
        WeightOne(a[0].entry, entries);
        PerformAppend(a[1..], b, [a[0].entry] + entries);
      } else {
        var inner := Finalized(entries, a[0].target);
        PerformAppend(a[1..], b, inner.0);
        var p, r := Perform(a[1..], inner.0), Perform(a[1..] + b, inner.0);
        assert Perform(a + b, entries) == (r.0, inner.1 + r.1);
        assert Perform(a, entries) == (p.0, inner.1 + p.1);
        assert inner.1 + (p.1 + Perform(b, p.0).1) == (inner.1 + p.1) + Perform(b, p.0).1;
      }
    }
  }

  /** The registry and, as ghost state, the callbacks that ran. */
  class Registry {
    var entries: seq<Entry>
    ghost var ran: seq<nat>

    constructor ()
      ensures entries == [] && ran == []
    {
      entries, ran := [], [];
    }

    /** `bridge_cxa_atexit`: no callback and no memory are refused. */
    method AtExit(e: Entry, memory: bool) returns (ok: bool)
      modifies this`entries
      ensures ok <==> e.callback != 0 && memory
      ensures entries == if ok then [e] + old(entries) else old(entries)
    {
      if e.callback == 0 || !memory {
        return false;
      }
      entries := [e] + entries;
      ok := true;
    }

    /** The walk of lines 55-66. */
    method FindMatch(target: Target) returns (link: nat)
      ensures link == First(entries, target)
    {
      link := 0;
      while link < |entries| && !Matches(entries[link], target)
        invariant 0 <= link <= |entries| && forall j :: 0 <= j < link ==> !Matches(entries[j], target)
      {
        link := link + 1;
      }
    }

    /** Code running outside the lock, a callback among it: it may register more and finalize on its own. */
    method RunActs(acts: seq<Act>)
      modifies this
      ensures entries == Perform(acts, old(entries)).0 && ran == old(ran) + Perform(acts, old(entries)).1
      decreases ActWeight(acts) + Weight(entries), 0
    {
      ghost var all := Perform(acts, entries);
      var i := 0;
      assert acts[0..] == acts;
      while i < |acts|
        invariant 0 <= i <= |acts|
        invariant Perform(acts[i..], entries).0 == all.0 && ran + Perform(acts[i..], entries).1 == old(ran) + all.1
        invariant ActWeight(acts[i..]) + Weight(entries) <= ActWeight(acts) + Weight(old(entries))
      {
        ActStep(acts[i..]);
        PerformStep(acts[i..], entries, ran);
        assert acts[i..][1..] == acts[i + 1..];
        match acts[i] {
          case Register(e) =>
            WeightOne(e, entries);
            entries := [e] + entries;
          case Nested(target) =>
            Finalize(target);
        }
        i := i + 1;
      }
    }

    /** `__finalize`: unlink the first callback asked for, run it, start over. */
    method Finalize(target: Target)
      modifies this
      ensures entries == Finalized(old(entries), target).0 && ran == old(ran) + Finalized(old(entries), target).1
      decreases Weight(entries), 1
    {
      hide Matches, Finalized, Perform, Weight, ActWeight, First;
      ghost var all := Finalized(entries, target);
      var link := FindMatch(target);
      while link < |entries|
        invariant link == First(entries, target)
        invariant Finalized(entries, target).0 == all.0 && ran + Finalized(entries, target).1 == old(ran) + all.1
        invariant Weight(entries) <= Weight(old(entries))
        decreases Weight(entries)
      {
        FinalizedStep(entries, target, ran);
        var entry := entries[link];
        entries := entries[..link] + entries[link + 1..];
        ran := ran + [entry.id];
        RunActs(entry.acts);
        link := FindMatch(target);
      }
      FinalizedDone(entries, target, ran);
    }
  }

  lemma PerformStep(acts: seq<Act>, entries: seq<Entry>, ran: seq<nat>)
    requires acts != []
    ensures var all := Perform(acts, entries);
            if acts[0].Register? then Perform(acts[1..], [acts[0].entry] + entries) == all
            else
              var inner := Finalized(entries, acts[0].target);
              && Perform(acts[1..], inner.0).0 == all.0
              && (ran + inner.1) + Perform(acts[1..], inner.0).1 == ran + all.1
  {
  }

  lemma FinalizedStep(entries: seq<Entry>, target: Target, ran: seq<nat>)
    requires First(entries, target) < |entries|
    ensures var k := First(entries, target);
            var call := Perform(entries[k].acts, Without(entries, k));
            && Weight(entries) == 1 + ActWeight(entries[k].acts) + Weight(Without(entries, k))
            && Weight(call.0) < Weight(entries)
            && Finalized(call.0, target).0 == Finalized(entries, target).0
            && (ran + [entries[k].id] + call.1) + Finalized(call.0, target).1 == ran + Finalized(entries, target).1
  {
    var k := First(entries, target);
    CallShrinks(entries, k);
    var call := Perform(entries[k].acts, Without(entries, k));
    var rest := Finalized(call.0, target);
    assert Finalized(entries, target) == (rest.0, [entries[k].id] + call.1 + rest.1);
    Regroup(ran, [entries[k].id], call.1, rest.1);
  }

  lemma Regroup(a: seq<nat>, b: seq<nat>, c: seq<nat>, d: seq<nat>)
    ensures a + (b + c + d) == (a + b + c) + d
  {
  }

  lemma FinalizedDone(entries: seq<Entry>, target: Target, ran: seq<nat>)
    requires First(entries, target) == |entries|
    ensures Finalized(entries, target).0 == entries && ran + Finalized(entries, target).1 == ran
  {
  }
}
