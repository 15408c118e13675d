/** What becomes of scheduled events and started voices (src/bridges/audio/sfx.c:18-27, 91-197, 244-259 and
    src/bridges/audio/mixer.c:17-47): every event starts, on a voice that plays its asset, unless it is taken back. */
module SfxCalls {
  import opened Common
  import opened Sfx

  // ---------------------------------------------------------------- every event starts

  /** The event has started or is waiting. */
  predicate Kept(q: Queue, e: Event) {
    e.id in q.started || e in q.events
  }

  lemma ScheduleKeepsIt(q: Queue, e: Event, asset: Asset, frame: nat)
    requires QueueOkay(q) && Kept(q, e)
    ensures Kept(Apply(q, Schedule(asset, frame)), e)
  {
    InsertedHolds(q.events, Event(q.nextId, asset, frame, false));
    hide Inserted;
  }

  lemma RenderStartsIt(q: Queue, e: Event, end: nat)
    requires Kept(q, e) && !e.played
    ensures Kept(Apply(q, Render(end)), e)
    ensures e.frame < end ==> e.id in Apply(q, Render(end)).started
  {
    var due := Due(q.events, end);
    DueIn(q.events, end);
    hide Due;
    if e in q.events {
      var i :| 0 <= i < |q.events| && q.events[i] == e;
      if IsDue(e, end) {
        var k :| 0 <= k < |due| && due[k] == e;
        assert Ids(due)[k] == e.id;
      } else {
        assert Consumed(q.events, end)[i] == e;
      }
    }
  }

  lemma UnloadSparesIt(q: Queue, e: Event, asset: Asset)
    requires Kept(q, e) && e.asset != asset
    ensures Kept(Apply(q, Unload(asset)), e)
  {
    if e in q.events {
      var i :| 0 <= i < |q.events| && q.events[i] == e;
      assert Silenced(q.events, asset)[i] == e;
    }
  }

  /** Calls that take no event of the asset back. */
  predicate Spares(steps: seq<Step>, asset: Asset) {
    forall k :: 0 <= k < |steps| ==> !steps[k].Reset? && steps[k] != Unload(asset)
  }

  lemma RunOne(steps: seq<Step>, step: Step)
    ensures Run(steps + [step]) == Apply(Run(steps), step)
  {
    assert (steps + [step])[..|steps|] == steps;
  }

  lemma StepWaits(q: Queue, e: Event, step: Step)
    requires QueueOkay(q) && Kept(q, e) && !e.played && !step.Reset? && step != Unload(e.asset)
    ensures Kept(Apply(q, step), e)
  {
    hide QueueOkay, Kept, Apply;
    match step
    case Schedule(asset, frame) => ScheduleKeepsIt(q, e, asset, frame);
    case Render(end) => RenderStartsIt(q, e, end);
    case Unload(asset) => UnloadSparesIt(q, e, asset);
  }

  lemma {:induction false} Waits(steps: seq<Step>, later: seq<Step>, e: Event)
    requires Kept(Run(steps), e) && !e.played && Spares(later, e.asset)
    ensures Kept(Run(steps + later), e)
    decreases |later|
  {
    hide Run, QueueOkay, Kept, Apply;
    if later == [] {
      assert steps + later == steps;
    } else {
      var n := |later| - 1;
      var before := steps + later[..n];
      Waits(steps, later[..n], e);
      StartsAtMostOnce(before);
      StepWaits(Run(before), e, later[n]);
      assert steps + later == before + [later[n]];
      RunOne(before, later[n]);
    }
  }

  /** Whatever else is scheduled, rendered or unloaded meanwhile, an event has started by the end of the block its frame
      is in, unless its asset is unloaded or the track is replaced. */
  lemma EveryEventStarts(steps: seq<Step>, asset: Asset, frame: nat, later: seq<Step>, end: nat)
    requires Spares(later, asset) && frame < end
    ensures Run(steps).nextId in Run((steps + [Schedule(asset, frame)]) + later + [Render(end)]).started
  {
    var q, scheduled := Run(steps), steps + [Schedule(asset, frame)];
    var e := Event(q.nextId, asset, frame, false);
    assert scheduled[..|steps|] == steps;
    StartsAtMostOnce(steps);
    InsertedHolds(q.events, e);
    assert e in Run(scheduled).events;
    Waits(scheduled, later, e);
    var all := scheduled + later + [Render(end)];
    assert all[..|all| - 1] == scheduled + later && all[|all| - 1] == Render(end);
    RenderStartsIt(Run(scheduled + later), e, end);
    RunOne(scheduled + later, Render(end));
    hide Kept, Inserted, QueueOkay, Due, Apply;
  }

  /** Unloading takes back exactly the waiting events of the asset, and a new main track all. */
  lemma TakenBack(q: Queue, asset: Asset, end: nat)
    ensures forall e :: e in Due(Apply(q, Unload(asset)).events, end) <==> e in Due(q.events, end) && e.asset != asset
    ensures Apply(q, Unload(asset)).started == q.started
    ensures Due(Apply(q, Reset).events, end) == [] && Apply(q, Reset).started == q.started
  {
    var r := Silenced(q.events, asset);
    DueIn(q.events, end);
    DueIn(r, end);
    NothingDue([], end);
    hide Due;
    forall e
      ensures e in r && IsDue(e, end) <==> e in q.events && IsDue(e, end) && e.asset != asset
    {
      if e in r && IsDue(e, end) {
        var i :| 0 <= i < |r| && r[i] == e;
        assert q.events[i] == e;
      }
      if e in q.events && e.asset != asset {
        var i :| 0 <= i < |q.events| && q.events[i] == e;
        assert r[i] == e;
      }
    }
  }

  // ---------------------------------------------------------------- voices

  lemma {:induction false} FreeVoiceExactly(voices: seq<Voice>, i: nat)
    requires |voices| == MAX_VOICES && i <= |voices|
    ensures var k := FreeVoice(voices, i);
            if exists j :: i <= j < |voices| && !voices[j].active
            then i <= k && !voices[k].active && forall j :: i <= j < k ==> voices[j].active
            else k == 0
    decreases |voices| - i
  {
    if i < |voices| && voices[i].active {
      FreeVoiceExactly(voices, i + 1);
    }
  }

  /** A start takes the first free voice, or the first one; it plays the asset from its first frame to its last, with
      the loops and the volume asked for, under a handle of its own, and leaves the other voices as they are. */
  lemma StartsOneVoice(bank: Bank, asset: Asset, delay: nat, loops: int, force: bool, volume: Float)
    requires |bank.voices| == MAX_VOICES && 1 <= bank.serial <= 0x7fff_ffff
    ensures var r := StartVoice(bank, Some(asset), delay, loops, force, volume);
            var k := FreeVoice(bank.voices, 0); var v := r.voices[k];
            && |r.voices| == MAX_VOICES && (forall j :: 0 <= j < MAX_VOICES && j != k ==> r.voices[j] == bank.voices[j])
            && v.active && v.asset == Some(asset) && v.handle == bank.serial
            && v.position == v.begin == 0 && v.end == asset.length && v.delay == delay
            && (v.loops < 0 <==> loops < 0) && (loops >= 0 ==> v.loops == loops) && v.loops >= -1
            && (force ==> v.volume == 0.8)
            && (!force && volume == Finite(-1.0) ==> v.volume == -1.0)
            && (!force && volume != Finite(-1.0) ==> 0.0 <= v.volume <= 1.0)
            && (!force && volume.Finite? && 0.0 <= volume.value <= 1.0 ==> v.volume == volume.value)
            && 1 <= r.serial <= 0x7fff_ffff && r.serial % 0x7fff_ffff == (bank.serial + 1) % 0x7fff_ffff
  {
    hide FreeVoice;
  }

  /** Without an asset the voice is silent. */
  lemma StartsSilence(bank: Bank, delay: nat, loops: int, force: bool, volume: Float)
    requires |bank.voices| == MAX_VOICES
    ensures var r := StartVoice(bank, None, delay, loops, force, volume); var k := FreeVoice(bank.voices, 0);
            !r.voices[k].active && r.voices[k].asset.None? && r.voices[k].begin == r.voices[k].end == 0
  {
    hide FreeVoice;
  }

  function Starts(bank: Bank, assets: seq<Option<Asset>>): (r: Bank)
    requires |bank.voices| == MAX_VOICES
    ensures |r.voices| == MAX_VOICES
  {
    if assets == [] then bank
    else StartVoice(Starts(bank, assets[..|assets| - 1]), assets[|assets| - 1], 0, 0, true, Finite(DEFAULT))
  }

  /** Handles are given out in turn, from 1 to 2^31 - 1, whatever is started. */
  lemma {:induction false} HandlesCycle(bank: Bank, assets: seq<Option<Asset>>)
    requires |bank.voices| == MAX_VOICES && 1 <= bank.serial <= 0x7fff_ffff
    ensures Starts(bank, assets).serial == (bank.serial - 1 + |assets|) % 0x7fff_ffff + 1
  {
    if assets != [] {
      HandlesCycle(bank, assets[..|assets| - 1]);
    }
  }

  /** An event is started once through at four fifths of full volume, at its delay. */
  lemma EventVoice(bank: Bank, asset: Asset, delay: nat)
    requires |bank.voices| == MAX_VOICES && 1 <= bank.serial <= 0x7fff_ffff
    ensures var r := Start(bank, asset, delay); var k := FreeVoice(bank.voices, 0); var v := r.voices[k];
            && v == Voice(true, 0.8, 0, bank.serial, 0, 0, asset.length, delay, Some(asset))
            && (forall j :: 0 <= j < MAX_VOICES && j != k ==> r.voices[j] == bank.voices[j])
  {
    hide FreeVoice;
  }

  /** A part of the asset is played exactly if it starts and ends in milliseconds inside it, at the rate of 48 frames a
      millisecond; otherwise the whole. */
  lemma RangedExactly(bank: Bank, k: nat, asset: Asset, begin: int, end: int)
    requires k < |bank.voices|
    ensures var r := Ranged(bank, k, asset, begin, end);
            if 0 <= begin < end && 48 * end <= asset.length then
              && r.serial == bank.serial && |r.voices| == |bank.voices|
              && r.voices[k] == bank.voices[k].(begin := 48 * begin, end := 48 * end)
              && forall j :: 0 <= j < |bank.voices| && j != k ==> r.voices[j] == bank.voices[j]
            else r == bank
  {
  }

  // ---------------------------------------------------------------- slots

  /** A slot is free exactly while fewer assets are loaded than there are slots. */
  lemma FreeExactly(slots: seq<Slot>)
    ensures HasFree(slots) <==> |UsedIn(slots)| < |slots|
  {
    CountUsed(slots);
  }

  lemma {:induction false} CountUsed(slots: seq<Slot>)
    ensures |UsedIn(slots)| <= |slots|
    ensures |UsedIn(slots)| == |slots| <==> forall i :: 0 <= i < |slots| ==> slots[i].used
  {
    hide UsedIn;
    if slots != [] {
      CountUsed(slots[..|slots| - 1]);
      OneMoreSlot(slots);
    } else {
      NoSlots(slots);
    }
  }

  lemma NoSlots(slots: seq<Slot>)
    requires slots == []
    ensures UsedIn(slots) == {}
  {
  }

  lemma OneMoreSlot(slots: seq<Slot>)
    requires slots != []
    ensures var n := |slots| - 1; var last := Asset(n, slots[n].length);
            last !in UsedIn(slots[..n]) &&
              UsedIn(slots) == UsedIn(slots[..n]) + if slots[n].used then {last} else {}
  {
    var n := |slots| - 1;
    var rest := slots[..n];
    assert forall i :: 0 <= i < n ==> rest[i] == slots[i];
  }
}
