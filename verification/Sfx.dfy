/** The queue of scheduled sound effects (src/bridges/audio/sfx.c:8-262 and
    src/bridges/audio/mixer.c:17-47): a sorted array with a skip pointer, whose consumption is a full scan. */
module Sfx {
  import opened Common

  const MAX_SFX := 128
  const MAX_VOICES := 32
  const MAX_EVENTS := 4096
  const SAMPLE_RATE := 48000
  const SERIAL_MAX := 0x7fff_ffff

  /** `audio_event_t`; `id` tells scheduled events apart, as their places in the array do. */
  datatype Event = Event(id: nat, asset: Asset, frame: nat, played: bool)

  /** A loaded asset: where `audio_t` keeps it, and how many frames it has. */
  datatype Asset = Asset(slot: nat, length: nat)

  /** `audio_asset_t`; an empty slot is not `used`. */
  datatype Slot = Slot(used: bool, path: string, length: nat)

  const EMPTY := Slot(false, "", 0)

  /** `audio_voice_t`. */
  datatype Voice = Voice(
    active: bool, volume: real, loops: int, handle: nat, position: nat, begin: nat, end: nat, delay: nat,
        asset: Option<Asset>)

  const SILENT := Voice(false, 0.0, 0, 0, 0, 0, 0, 0, None)

  /** A volume a caller passes; NaN and the infinities are not finite. */
  datatype Float = NotFinite | Finite(value: real)

  const FORCED := 0.8
  const DEFAULT := -1.0

  /** `audio_gain`. */
  function Gain(volume: Float): (gain: real)
    ensures 0.0 <= gain <= 1.0
  {
    if volume.NotFinite? || volume.value < 0.0 then 0.0 else if volume.value > 1.0 then 1.0 else volume.value
  }

  // ---------------------------------------------------------------- what the operations mean

  predicate Sorted(events: seq<Event>) {
    forall i, j :: 0 <= i < j < |events| ==> events[i].frame <= events[j].frame
  }

  /** Everything below the skip pointer has been played. */
  predicate Skipped(events: seq<Event>, next: nat) {
    next <= |events| && forall i :: 0 <= i < next ==> events[i].played
  }

  predicate Distinct(events: seq<Event>) {
    forall i, j :: 0 <= i < j < |events| ==> events[i].id != events[j].id
  }

  /** Only loaded assets are waited for or heard. */
  predicate AssetsLive(events: seq<Event>, voices: seq<Voice>, used: set<Asset>) {
    && (forall i :: 0 <= i < |events| && !events[i].played ==> events[i].asset in used)
    && VoicesLive(voices, used)
  }

  predicate VoicesLive(voices: seq<Voice>, used: set<Asset>) {
    forall v :: 0 <= v < |voices| && voices[v].asset.Some? ==> voices[v].asset.value in used
  }

  /** The loaded assets. */
  function UsedIn(slots: seq<Slot>): set<Asset> {
    set i | 0 <= i < |slots| && slots[i].used :: Asset(i, slots[i].length)
  }

  predicate Keeps(slots: seq<Slot>, path: string, i: nat) {
    i < |slots| && slots[i].used && slots[i].path == path
  }

  /** No path is loaded twice. */
  predicate OneEach(slots: seq<Slot>) {
    forall i, j :: 0 <= i < j < |slots| && slots[i].used && slots[j].used ==> slots[i].path != slots[j].path
  }

  ghost predicate IsLoaded(slots: seq<Slot>, path: string) {
    exists i: nat :: Keeps(slots, path, i)
  }

  predicate HasFree(slots: seq<Slot>) {
    exists i :: 0 <= i < |slots| && !slots[i].used
  }

  predicate IsDue(e: Event, end: nat) {
    !e.played && e.frame < end
  }

  /** All unplayed events before `end`, by a scan of the whole array. */
  function Due(events: seq<Event>, end: nat): seq<Event> {
    if events == [] then []
    else Due(events[..|events| - 1], end) +
         if IsDue(events[|events| - 1], end) then [events[|events| - 1]] else []
  }

  /** The array with those events played. */
  function Consumed(events: seq<Event>, end: nat): (r: seq<Event>)
    ensures |r| == |events|
  {
    seq(|events|, i requires 0 <= i < |events| =>
      if IsDue(events[i], end) then events[i].(played := true) else events[i])
  }

  /** The array without waiting events of an asset. */
  function Silenced(events: seq<Event>, asset: Asset): (r: seq<Event>)
    ensures |r| == |events|
  {
    seq(|events|, i requires 0 <= i < |events| =>
      if events[i].asset == asset then events[i].(played := true) else events[i])
  }

  /** Where a new event goes: after everything at its frame or before. */
  function Place(events: seq<Event>, frame: nat): (k: nat)
    ensures k <= |events|
    ensures forall i :: k <= i < |events| ==> events[i].frame > frame
    ensures k > 0 ==> events[k - 1].frame <= frame
  {
    if events != [] && events[|events| - 1].frame > frame then Place(events[..|events| - 1], frame) else |events|
  }

  function Inserted(events: seq<Event>, e: Event): seq<Event> {
    events[..Place(events, e.frame)] + [e] + events[Place(events, e.frame)..]
  }

  lemma InsertedSorted(events: seq<Event>, e: Event)
    requires Sorted(events)
    ensures Sorted(Inserted(events, e))
    ensures forall i :: 0 <= i < Place(events, e.frame) ==> events[i].frame <= e.frame
  {
    var k := Place(events, e.frame);
    forall i | 0 <= i < k
      ensures events[i].frame <= e.frame
    {
      assert events[i].frame <= events[k - 1].frame;
    }
  }

  /** Nothing is lost or doubled by an insertion, and events of one frame keep the order they were scheduled in. */
  lemma InsertedHolds(events: seq<Event>, e: Event)
    requires Distinct(events) && forall i :: 0 <= i < |events| ==> events[i].id != e.id
    ensures var r := Inserted(events, e);
            |r| == |events| + 1 && Distinct(r) && (forall x :: x in r <==> x in events || x == e)
  {
    var k, r := Place(events, e.frame), Inserted(events, e);
    InsertedAt(events, e);
    hide Place, Inserted;
    forall i, j | 0 <= i < j < |r|
      ensures r[i].id != r[j].id
    {
      assert i != k ==> r[i] == events[if i < k then i else i - 1];
      assert j != k ==> r[j] == events[if j < k then j else j - 1];
    }
    forall x
      ensures x in r <==> x in events || x == e
    {
      if x in events {
        var i :| 0 <= i < |events| && events[i] == x;
        assert r[if i < k then i else i + 1] == x;
      }
    }
  }

  lemma InsertedAt(events: seq<Event>, e: Event)
    ensures var k, r := Place(events, e.frame), Inserted(events, e);
            |r| == |events| + 1 && r[k] == e &&
            (forall i :: 0 <= i < k ==> r[i] == events[i]) && forall i :: k < i < |r| ==> r[i] == events[i - 1]
  {
  }

  lemma {:induction false} DueAppend(a: seq<Event>, b: seq<Event>, end: nat)
    ensures Due(a + b, end) == Due(a, end) + Due(b, end)
  {
    if b == [] {
      assert a + b == a;
    } else {
      var n := |b| - 1;
      assert (a + b)[..|a| + n] == a + b[..n];
      DueAppend(a, b[..n], end);
    }
  }

  lemma {:induction false} NothingDue(events: seq<Event>, end: nat)
    requires forall i :: 0 <= i < |events| ==> !IsDue(events[i], end)
    ensures Due(events, end) == []
  {
    if events != [] {
      NothingDue(events[..|events| - 1], end);
    }
  }

  /** What was played stays below the pointer, and what the sorted order puts at `end` or later is not due:
      looking between the pointer and the first late event finds every due event. */
  lemma ScanIsComplete(events: seq<Event>, next: nat, stop: nat, end: nat)
    requires Sorted(events) && Skipped(events, next) && next <= stop <= |events|
    requires stop < |events| ==> events[stop].frame >= end
    ensures Due(events, end) == Due(events[next..stop], end)
  {
    var a, b, c := events[..next], events[next..stop], events[stop..];
    assert events == a + b + c;
    hide Due;
    DueAppend(a + b, c, end);
    DueAppend(a, b, end);
    forall i | 0 <= i < |c|
      ensures !IsDue(c[i], end)
    {
      assert c[i] == events[stop + i] && events[stop].frame <= events[stop + i].frame;
    }
    NothingDue(a, end);
    NothingDue(c, end);
  }

  lemma {:induction false} DueIn(events: seq<Event>, end: nat)
    ensures forall e :: e in Due(events, end) <==> e in events && IsDue(e, end)
  {
    if events != [] {
      var n := |events| - 1;
      assert events == events[..n] + [events[n]];
      DueIn(events[..n], end);
    }
  }

  lemma {:induction false} DueDistinct(events: seq<Event>, end: nat)
    requires Distinct(events)
    ensures Distinct(Due(events, end))
  {
    if events != [] {
      var n := |events| - 1;
      var due := Due(events[..n], end);
      DueDistinct(events[..n], end);
      DueIn(events[..n], end);
      forall i | 0 <= i < |due|
        ensures due[i].id != events[n].id
      {
        assert due[i] in due;
        var k :| 0 <= k < n && events[..n][k] == due[i];
        assert events[k] == due[i];
      }
    }
  }

  // ---------------------------------------------------------------- whole runs

  /** The queue over time: `started` lists the ids of started events in order. */
  datatype Queue = Queue(events: seq<Event>, started: seq<nat>, nextId: nat)

  datatype Step =
    | Schedule(asset: Asset, frame: nat)
    | Render(end: nat)
    | Unload(asset: Asset)
    | Reset

  function Ids(events: seq<Event>): (ids: seq<nat>)
    ensures |ids| == |events|
  {
    seq(|events|, i requires 0 <= i < |events| => events[i].id)
  }

  function Apply(q: Queue, step: Step): Queue {
    match step
    case Schedule(asset, frame) =>
      Queue(Inserted(q.events, Event(q.nextId, asset, frame, false)), q.started, q.nextId + 1)
    case Render(end) => q.(events := Consumed(q.events, end), started := q.started + Ids(Due(q.events, end)))
    case Unload(asset) => q.(events := Silenced(q.events, asset))
    case Reset => q.(events := [])
  }

  function Run(steps: seq<Step>): Queue {
    if steps == [] then Queue([], [], 0) else Apply(Run(steps[..|steps| - 1]), steps[|steps| - 1])
  }

  predicate Once(ids: seq<nat>) {
    forall i, j :: 0 <= i < j < |ids| ==> ids[i] != ids[j]
  }

  predicate QueueOkay(q: Queue) {
    && Sorted(q.events)
    && Distinct(q.events)
    && (forall i :: 0 <= i < |q.events| ==> q.events[i].id < q.nextId)
    && (forall id :: id in q.started ==> id < q.nextId)
    && Once(q.started)
    && (forall i :: 0 <= i < |q.events| && !q.events[i].played ==> q.events[i].id !in q.started)
  }

  lemma RenderKeeps(q: Queue, end: nat)
    requires QueueOkay(q)
    ensures QueueOkay(Apply(q, Render(end)))
  {
    var due := Due(q.events, end);
    var n := Apply(q, Render(end));
    DueIn(q.events, end);
    DueDistinct(q.events, end);
    forall i | 0 <= i < |due|
      ensures due[i].id < q.nextId && due[i].id !in q.started
    {
      assert due[i] in due;
      var k :| 0 <= k < |q.events| && q.events[k] == due[i];
    }
    forall i | 0 <= i < |n.events| && !n.events[i].played
      ensures n.events[i].id !in n.started
    {
      forall k | 0 <= k < |due|
        ensures due[k].id != q.events[i].id
      {
        assert due[k] in due;
        var j :| 0 <= j < |q.events| && q.events[j] == due[k];
        assert IsDue(q.events[j], end) && !IsDue(q.events[i], end);
      }
    }
  }

  lemma ScheduleKeeps(q: Queue, asset: Asset, frame: nat)
    requires QueueOkay(q)
    ensures QueueOkay(Apply(q, Schedule(asset, frame)))
  {
    var e := Event(q.nextId, asset, frame, false);
    var r := Inserted(q.events, e);
    InsertedSorted(q.events, e);
    InsertedHolds(q.events, e);
    hide Inserted, Sorted, Distinct;
    forall i | 0 <= i < |r|
      ensures r[i].id < q.nextId + 1 && (!r[i].played ==> r[i].id !in q.started)
    {
      assert r[i] in r;
      if r[i] != e {
        var k :| 0 <= k < |q.events| && q.events[k] == r[i];
      }
    }
  }

  /** Over any run the array stays sorted and each event starts at most once. */
  lemma {:induction false} StartsAtMostOnce(steps: seq<Step>)
    ensures QueueOkay(Run(steps))
    ensures forall i, j :: 0 <= i < j < |Run(steps).started| ==> Run(steps).started[i] != Run(steps).started[j]
    ensures forall i, j :: 0 <= i < j < |Run(steps).events| ==> Run(steps).events[i].frame <= Run(steps).events[j].frame
  {
    if steps != [] {
      var q, step := Run(steps[..|steps| - 1]), steps[|steps| - 1];
      StartsAtMostOnce(steps[..|steps| - 1]);
      hide Run;
      match step
      case Schedule(asset, frame) => ScheduleKeeps(q, asset, frame);
      case Render(end) => RenderKeeps(q, end);
      case Unload(asset) =>
      case Reset =>
    }
  }

  /** After a block nothing that was due in it is left waiting. */
  lemma NothingDueIsLeft(steps: seq<Step>, end: nat)
    ensures var q := Run(steps + [Render(end)]);
            (forall i :: 0 <= i < |q.events| && !q.events[i].played ==> q.events[i].frame >= end) &&
            forall i :: 0 <= i < |Run(steps).events| && IsDue(Run(steps).events[i], end) ==>
                          Run(steps).events[i].id in q.started
  {
    var all := steps + [Render(end)];
    assert all[..|steps|] == steps;
    var q := Run(steps);
    DueIn(q.events, end);
    forall i | 0 <= i < |q.events| && IsDue(q.events[i], end)
      ensures q.events[i].id in Ids(Due(q.events, end))
    {
      assert q.events[i] in q.events;
      var due := Due(q.events, end);
      var k :| 0 <= k < |due| && due[k] == q.events[i];
      assert Ids(due)[k] == q.events[i].id;
    }
  }

  // ---------------------------------------------------------------- voices

  datatype Bank = Bank(voices: seq<Voice>, serial: nat)

  function FreeVoice(voices: seq<Voice>, i: nat): (k: nat)
    requires |voices| == MAX_VOICES && i <= |voices|
    ensures k < |voices|
    decreases |voices| - i
  {
    if i == |voices| then 0 else if !voices[i].active then i else FreeVoice(voices, i + 1)
  }

  /** Lines 151-159: a voice that plays the whole asset, or none. */
  function NewVoice(asset: Option<Asset>, handle: nat, delay: nat, loops: int, force: bool, volume: Float): Voice {
    Voice(asset.Some?,
          if force then FORCED else if volume == Finite(DEFAULT) then DEFAULT else Gain(volume),
          if loops < 0 then -1 else loops,
          handle, 0, 0, if asset.Some? then asset.value.length else 0, delay, asset)
  }

  /** `audio_sfx_start`: the first free voice, or the first voice at all. */
  function StartVoice(bank: Bank, asset: Option<Asset>, delay: nat, loops: int, force: bool, volume: Float): Bank
    requires |bank.voices| == MAX_VOICES
  {
    Bank(bank.voices[FreeVoice(bank.voices, 0) := NewVoice(asset, bank.serial, delay, loops, force, volume)],
         if bank.serial == SERIAL_MAX then 1 else bank.serial + 1)
  }

  /** The start of an event (mixer.c lines 38-42). */
  function Start(bank: Bank, asset: Asset, delay: nat): Bank
    requires |bank.voices| == MAX_VOICES
  {
    StartVoice(bank, Some(asset), delay, 0, true, Finite(DEFAULT))
  }

  /** The voices after starting events in order; an event after the block's first frame waits for its frame. */
  function StartAll(bank: Bank, due: seq<Event>, delay: nat, position: nat): (r: Bank)
    requires |bank.voices| == MAX_VOICES
    ensures |r.voices| == MAX_VOICES
  {
    if due == [] then bank
    else
      var e := due[|due| - 1];
      Start(StartAll(bank, due[..|due| - 1], delay, position), e.asset, StartDelay(e, delay, position))
  }

  function StartDelay(e: Event, delay: nat, position: nat): nat {
    delay + if e.frame > position then e.frame - position else 0
  }

  /** An event that starts in a block starts on a frame of that block: its own, or the first one the track plays. */
  lemma StartsInTheBlock(e: Event, delay: nat, position: nat, frames: nat)
    requires delay < frames && IsDue(e, position + frames - delay)
    ensures delay <= StartDelay(e, delay, position) < frames
    ensures e.frame >= position ==> position + (StartDelay(e, delay, position) - delay) == e.frame
  {
  }

  // ---------------------------------------------------------------- the code

  /** The parts of `audio_t` that effects use. */
  class Mixer {
    var events: array<Event>
    var count: nat
    var next: nat
    var voices: array<Voice>
    var serial: nat
    const slots: array<Slot>
    ghost var used: set<Asset>
    ghost var started: seq<nat>
    var nextId: nat

    ghost function Events(): seq<Event>
      reads this, events
      requires count <= events.Length
    {
      events[..count]
    }

    ghost function View(): Queue
      reads this, events
      requires count <= events.Length
    {
      Queue(Events(), started, nextId)
    }

    ghost predicate Valid()
      reads this, events, voices, slots
    {
      && count <= events.Length <= MAX_EVENTS
      && voices.Length == MAX_VOICES
      && slots.Length == MAX_SFX && OneEach(slots[..]) && used == UsedIn(slots[..])
      && QueueOkay(View())
      && Skipped(Events(), next)
      && AssetsLive(Events(), voices[..], used)
    }

    constructor ()
      ensures Valid() && View() == Run([]) && used == {} && fresh(events) && fresh(voices) && fresh(slots)
    {
      events := new Event[0](_ => Event(0, Asset(0, 0), 0, false));
      voices := new Voice[MAX_VOICES](_ => SILENT);
      slots := new Slot[MAX_SFX](_ => EMPTY);
      count, next, serial, used, started, nextId := 0, 0, 1, {}, [], 0;
      new;
      assert events[..count] == [];
    }

    /** `find_sfx`. */
    method FindSfx(path: string) returns (asset: Option<Asset>)
      requires slots.Length == MAX_SFX
      ensures asset.Some? ==> Keeps(slots[..], path, asset.value.slot) && asset.value in UsedIn(slots[..])
      ensures asset.Some? <==> IsLoaded(slots[..], path)
    {
      for i := 0 to MAX_SFX
        invariant forall j :: 0 <= j < i ==> !Keeps(slots[..], path, j)
      {
        if slots[i].used && slots[i].path == path {
          assert Keeps(slots[..], path, i);
          return Some(Asset(i, slots[i].length));
        }
      }
      asset := None;
    }

    /** `find_free_sfx`. */
    method FindFree() returns (free: Option<nat>)
      requires slots.Length == MAX_SFX
      ensures free.Some? ==> free.value < MAX_SFX && !slots[free.value].used
      ensures free.Some? <==> HasFree(slots[..])
    {
      for i := 0 to MAX_SFX
        invariant forall j :: 0 <= j < i ==> slots[j].used
      {
        if !slots[i].used {
          assert !slots[..][i].used;
          return Some(i);
        }
      }
      free := None;
    }

    /** Lines 65-88: storing a loaded file, unless somebody else loaded it meanwhile or took the last slot. */
    method Install(path: string, length: nat) returns (ok: bool)
      requires Valid()
      modifies slots, this`used
      ensures Valid() && (ok <==> old(IsLoaded(slots[..], path) || HasFree(slots[..])))
      ensures ok ==> IsLoaded(slots[..], path)
      ensures old(IsLoaded(slots[..], path)) || !ok ==> slots[..] == old(slots[..]) && used == old(used)
      ensures !old(IsLoaded(slots[..], path)) && ok ==>
                exists k :: 0 <= k < MAX_SFX && !old(slots[k].used) && used == old(used) + {Asset(k, length)} &&
                  slots[..] == old(slots[..])[k := Slot(true, path, length)]
    {
      var existing := FindSfx(path);
      if existing.Some? {
        return true;
      }
      var free := FindFree();
      if free.None? {
        return false;
      }
      ghost var before := slots[..];
      slots[free.value] := Slot(true, path, length);
      used := used + {Asset(free.value, length)};
      UsedInstall(before, free.value, path, length);
      assert slots[..] == before[free.value := Slot(true, path, length)];
      assert Keeps(slots[..], path, free.value);
      ok := true;
    }

    /** `vita_audio_preload_sfx`; `path` is the resolved one, `wav` the length of the file if it can be loaded. */
    method Preload(path: Option<string>, wav: Option<nat>, memory: bool) returns (ok: bool)
      requires Valid()
      modifies slots, this`used
      ensures Valid() && old(used) <= used
      ensures ok <==> path.Some? && old(IsLoaded(slots[..], path.value) || (HasFree(slots[..]) && wav.Some? && memory))
      ensures ok ==> IsLoaded(slots[..], path.value)
      ensures !ok || old(IsLoaded(slots[..], path.value)) ==> slots[..] == old(slots[..]) && used == old(used)
    {
      if path.None? {
        return false;
      }
      var existing := FindSfx(path.value);
      if existing.Some? {
        return true;
      }
      var free := FindFree();
      if free.None? || wav.None? || !memory {
        return false;
      }
      ok := Install(path.value, wav.value);
    }

    /** Lines 227-242: a full array doubles, up to its limit. */
    method Grow(memory: bool) returns (ok: bool)
      requires Valid()
      modifies this`events
      ensures Valid() && View() == old(View()) && voices == old(voices) && next == old(next)
      ensures events == old(events) || fresh(events)
      ensures ok ==> count < events.Length
      ensures ok == old(CanGrow(memory)) && (!ok ==> events == old(events))
    {
      if count < events.Length {
        return true;
      }
      var capacity := if events.Length > 0 then events.Length * 2 else 16;
      if capacity > MAX_EVENTS || !memory {
        return false;
      }
      var larger := new Event[capacity](_ => Event(0, Asset(0, 0), 0, false));
      for i := 0 to count
        modifies larger
        invariant larger[..i] == events[..i]
      {
        larger[i] := events[i];
      }
      events := larger;
      ok := true;
    }

    /** The loop at lines 246-249: later events move up by one. */
    method MakeRoom(frame: nat, ghost before: seq<Event>) returns (index: nat)
      requires count < events.Length && before == events[..count]
      modifies events
      ensures index <= count && Shifted(before, events[..count + 1], index, frame)
      ensures index > 0 ==> events[index - 1].frame <= frame
    {
      index := count;
      ShiftedStart(before, events[..count + 1], frame);
      hide Shifted;
      while index > 0 && events[index - 1].frame > frame
        invariant 0 <= index <= count
        invariant Shifted(before, events[..count + 1], index, frame)
      {
        ShiftedNext(before, events[..count + 1], index, frame);
        events[index] := events[index - 1];
        index := index - 1;
      }
    }

    /** Lines 244-259: make room, pull the pointer back and write the event. */
    method Insert(e: Event)
      requires count < events.Length
      modifies events, this`count, this`next
      ensures count == old(count) + 1 && Events() == Inserted(old(Events()), e)
      ensures var k := Place(old(Events()), e.frame); next == if k < old(next) then k else old(next)
    {
      hide Shifted, Place, Inserted;
      ghost var before := events[..count];
      var index := MakeRoom(e.frame, before);
      ShiftedEnd(before, events[..count + 1], index, e);
      if index < next {
        next := index;
      }
      count := count + 1;
      events[index] := e;
    }

    /** `vita_audio_schedule_sfx`: the file is loaded if need be, and the event queued. */
    method ScheduleSfx(path: Option<string>, position: int, wav: Option<nat>, memory: bool, room: bool)
      returns (ok: bool)
      requires Valid()
      modifies this, events, slots
      ensures Valid() && voices == old(voices) && (events == old(events) || fresh(events))
      ensures ok <==>
                && position >= 0 && path.Some?
                && old(IsLoaded(slots[..], path.value) || (HasFree(slots[..]) && wav.Some? && memory))
                && old(CanGrow(room))
      ensures ok ==> exists asset: Asset :: asset in used && Keeps(slots[..], path.value, asset.slot) &&
                       View() == Apply(old(View()), Schedule(asset, position * SAMPLE_RATE / 1000))
      ensures !ok ==> View() == old(View()) && next == old(next)
    {
      if position < 0 || path.None? {
        return false;
      }
      ok := Preload(path, wav, memory);
      if ok {
        ok := ScheduleFound(path.value, position, room);
      }
    }

    /** There is room for one more event, or it can be made. */
    predicate CanGrow(room: bool)
      reads this
    {
      count < events.Length || ((if events.Length > 0 then events.Length * 2 else 16) <= MAX_EVENTS && room)
    }

    /** Lines 220-261, also when somebody has unloaded the file again. */
    method ScheduleFound(path: string, position: nat, room: bool) returns (ok: bool)
      requires Valid()
      modifies this, events
      ensures Valid() && voices == old(voices) && used == old(used) && (events == old(events) || fresh(events))
      ensures ok <==> old(IsLoaded(slots[..], path) && CanGrow(room))
      ensures ok ==> exists asset: Asset :: asset in used && Keeps(slots[..], path, asset.slot) &&
                       View() == Apply(old(View()), Schedule(asset, position * SAMPLE_RATE / 1000))
      ensures !ok ==> View() == old(View()) && next == old(next)
    {
      var asset := FindSfx(path);
      if asset.None? {
        return false;
      }
      hide OneEach, UsedIn, QueueOkay, Skipped, AssetsLive;
      ok := Grow(room);
      if ok {
        Enqueue(asset.value, position * SAMPLE_RATE / 1000);
      }
    }

    /** Lines 244-259: the event goes behind everything at its frame or before. */
    method Enqueue(asset: Asset, frame: nat)
      requires Valid() && asset in used && count < events.Length
      modifies events, this`count, this`next, this`nextId
      ensures Valid() && View() == Apply(old(View()), Schedule(asset, frame))
    {
      var e := Event(nextId, asset, frame, false);
      ghost var q, skipped := View(), next;
      ScheduleKeeps(q, e.asset, e.frame);
      SkippedInsert(q.events, e, skipped);
      LiveInsert(q.events, e, voices[..], used);
      hide OneEach, UsedIn;
      Insert(e);
      nextId := nextId + 1;
    }

    /** `vita_audio_unload_sfx`: the slot is free again, and nothing waits for the asset or plays it. */
    method UnloadSfx(path: Option<string>)
      requires Valid()
      modifies this, events, voices, slots
      ensures Valid() && events == old(events) && voices == old(voices)
      ensures path.Some? ==> !IsLoaded(slots[..], path.value)
      ensures path.None? || !old(IsLoaded(slots[..], path.value)) ==>
                View() == old(View()) && voices[..] == old(voices[..]) && slots[..] == old(slots[..])
      ensures path.Some? && old(IsLoaded(slots[..], path.value)) ==>
                exists asset: Asset :: old(Keeps(slots[..], path.value, asset.slot)) && used == old(used) - {asset} &&
                  slots[..] == old(slots[..])[asset.slot := EMPTY] && View() == Apply(old(View()), Unload(asset)) &&
                  forall v :: 0 <= v < voices.Length ==>
                    voices[v] == if old(voices[v]).asset == Some(asset) then SILENT else old(voices[v])
    {
      if path.None? {
        return;
      }
      var found := FindSfx(path.value);
      if found.None? {
        return;
      }
      ghost var before := slots[..];
      UsedRemove(before, path.value, found.value);
      hide OneEach, UsedIn, IsLoaded;
      Forget(found.value);
      slots[found.value.slot] := EMPTY;
      assert slots[..] == before[found.value.slot := EMPTY];
    }

    /** Lines 105-115, for an asset that was found. */
    method Forget(asset: Asset)
      requires Valid()
      modifies events, voices, this`used
      ensures count <= events.Length && used == old(used) - {asset} && View() == Apply(old(View()), Unload(asset))
      ensures QueueOkay(View()) && Skipped(Events(), next) && AssetsLive(Events(), voices[..], used)
      ensures forall v :: 0 <= v < voices.Length ==>
                voices[v] == if old(voices[v]).asset == Some(asset) then SILENT else old(voices[v])
    {
      ghost var q := View();
      for index := 0 to count
        modifies events
        invariant forall i :: 0 <= i < index ==> events[i] == Silenced(q.events, asset)[i]
        invariant forall i :: index <= i < count ==> events[i] == q.events[i]
      {
        if events[index].asset == asset {
          events[index] := events[index].(played := true);
        }
      }
      assert events[..count] == Silenced(q.events, asset);
      for i := 0 to MAX_VOICES
        modifies voices
        invariant events[..count] == Silenced(q.events, asset)
        invariant forall v :: 0 <= v < i ==>
                    voices[v] == if old(voices[v]).asset == Some(asset) then SILENT else old(voices[v])
        invariant forall v :: i <= v < MAX_VOICES ==> voices[v] == old(voices[v])
      {
        if voices[i].asset == Some(asset) {
          voices[i] := SILENT;
        }
      }
      used := used - {asset};
      UnloadKeeps(q, asset);
    }

    /** `audio_sfx_start` (lines 130-165); no asset makes the voice silent. */
    method StartSfx(asset: Option<Asset>, delay: nat, loops: int, force: bool, volume: Float) returns (k: nat)
      requires voices.Length == MAX_VOICES
      modifies voices, this`serial
      ensures k == FreeVoice(old(voices[..]), 0)
      ensures Bank(voices[..], serial) == StartVoice(old(Bank(voices[..], serial)), asset, delay, loops, force, volume)
    {
      k := 0;
      while k < MAX_VOICES && voices[k].active
        invariant 0 <= k <= MAX_VOICES
        invariant FreeVoice(voices[..], 0) == FreeVoice(voices[..], k)
      {
        k := k + 1;
      }
      if k == MAX_VOICES {
        k := 0;
      }
      var handle := serial;
      serial := if serial == SERIAL_MAX then 1 else serial + 1;
      voices[k] := NewVoice(asset, handle, delay, loops, force, volume);
    }

    /** `__play`: the file is loaded if need be, and a voice started. */
    method Play(path: Option<string>, wav: Option<nat>, memory: bool,
                loops: int, force: bool, volume: Float, begin: int, end: int)
      returns (handle: int)
      requires Valid()
      modifies this`serial, this`used, slots, voices
      ensures Valid() && View() == old(View())
      ensures handle >= 0 <==>
                path.Some? && old(IsLoaded(slots[..], path.value) || (HasFree(slots[..]) && wav.Some? && memory))
      ensures handle < 0 ==> handle == -1 && voices[..] == old(voices[..]) && used == old(used)
      ensures handle >= 0 ==>
                && handle == old(serial)
                && Played(old(Bank(voices[..], serial)), Bank(voices[..], serial), slots[..], path.value,
                          loops, force, volume, begin, end)
    {
      handle := -1;
      var ok := Preload(path, wav, memory);
      if ok {
        handle := PlayFound(path.value, loops, force, volume, begin, end);
      }
    }

    /** Lines 182-196, also when somebody has unloaded the file again: then the voice it took falls silent. */
    method PlayFound(path: string, loops: int, force: bool, volume: Float, begin: int, end: int) returns (handle: int)
      requires Valid()
      modifies this`serial, voices
      ensures Valid() && View() == old(View())
      ensures !IsLoaded(slots[..], path) ==>
                && handle == -1
                && Bank(voices[..], serial) == StartVoice(old(Bank(voices[..], serial)), None, 0, loops, force, volume)
      ensures IsLoaded(slots[..], path) ==>
                && handle == old(serial)
                && Played(old(Bank(voices[..], serial)), Bank(voices[..], serial), slots[..], path,
                          loops, force, volume, begin, end)
    {
      var asset := FindSfx(path);
      var k := StartSfx(asset, 0, loops, force, volume);
      hide OneEach, UsedIn, IsLoaded, StartVoice, QueueOkay;
      if asset.Some? && begin >= 0 && end > begin {
        var first, last := begin * SAMPLE_RATE / 1000, end * SAMPLE_RATE / 1000;
        if last <= asset.value.length {
          voices[k] := voices[k].(begin := first, end := last);
        }
      }
      handle := if asset.Some? then voices[k].handle else -1;
    }

    /** Lines 38-44: start the event at the pointer and mark it. */
    method StartNext(delay: nat)
      requires next < count <= events.Length && voices.Length == MAX_VOICES
      modifies events, voices, this`started, this`serial
      ensures var e := old(events[next]);
              && events[..count] == old(events[..count])[next := e.(played := true)]
              && started == old(started) + [e.id]
              && Bank(voices[..], serial) == Start(old(Bank(voices[..], serial)), e.asset, delay)
    {
      var event := events[next];
      var _ := StartSfx(Some(event.asset), delay, 0, true, Finite(DEFAULT));
      events[next] := event.(played := true);
      started := started + [event.id];
    }

    /** `__schedule`: from the skip pointer to the first late event. */
    method StartDue(frames: nat, playing: bool, delay: nat, position: nat)
      requires Valid()
      modifies this, events, voices
      ensures Valid() && events == old(events) && voices == old(voices) && used == old(used)
      ensures !playing || delay >= frames ==> View() == old(View()) && voices[..] == old(voices[..])
      ensures playing && delay < frames ==>
                var end := position + frames - delay;
                View() == Apply(old(View()), Render(end)) &&
                Bank(voices[..], serial) ==
                StartAll(old(Bank(voices[..], serial)), Due(old(Events()), end), delay, position)
    {
      hide Midway, Due, StartAll, QueueOkay, AssetsLive, Skipped;
      if !playing || delay >= frames {
        return;
      }
      ghost var q, bank, first := View(), Bank(voices[..], serial), next;
      var end := position + frames - delay;
      MidwayStart(q, bank, first, end, delay, position);
      Consume(end, delay, position, q, bank, first);
      MidwayEnd(q, bank, first, end, delay, position, next, events[..count], Bank(voices[..], serial), started, used);
    }

    /** The loop of `__schedule` (lines 27-46). */
    method Consume(end: nat, delay: nat, position: nat, ghost q: Queue, ghost bank: Bank, ghost first: nat)
      requires count <= events.Length && voices.Length == MAX_VOICES && |q.events| == count && first == next <= count
      requires Midway(q, bank, first, end, delay, position, next, events[..count], Bank(voices[..], serial), started)
      modifies events, voices, this`next, this`started, this`serial
      ensures next <= count && (next < count ==> q.events[next].frame >= end)
      ensures Midway(q, bank, first, end, delay, position, next, events[..count], Bank(voices[..], serial), started)
    {
      hide Midway, Start, StartDelay;
      while next < count && (events[next].played || events[next].frame < end)
        modifies events, voices, this`next, this`started, this`serial
        invariant first <= next <= count
        invariant Midway(q, bank, first, end, delay, position, next, events[..count], Bank(voices[..], serial), started)
      {
        MidwayAt(q, bank, first, end, delay, position, next, events[..count], Bank(voices[..], serial), started);
        if !events[next].played {
          StartNext(StartDelay(events[next], delay, position));
        }
        next := next + 1;
      }
      if next < count {
        MidwayAt(q, bank, first, end, delay, position, next, events[..count], Bank(voices[..], serial), started);
      }
    }

    /** Loading or unloading the main track forgets its events (bgm.c lines 76-79 and 98-101). */
    method ResetEvents()
      requires Valid()
      modifies this`count, this`next
      ensures Valid() && View() == Apply(old(View()), Reset)
    {
      count := 0;
      next := 0;
    }
  }

  /** Lines 185-192: the part of the asset to play, in milliseconds; a range outside it is ignored. */
  function Ranged(bank: Bank, k: nat, asset: Asset, begin: int, end: int): Bank
    requires k < |bank.voices|
  {
    if begin >= 0 && end > begin && end * SAMPLE_RATE / 1000 <= asset.length then
      var voice := bank.voices[k].(begin := begin * SAMPLE_RATE / 1000, end := end * SAMPLE_RATE / 1000);
      bank.(voices := bank.voices[k := voice])
    else bank
  }

  /** The asset of the path was started, on the first free voice or on the first one. */
  ghost predicate Played(before: Bank, now: Bank, slots: seq<Slot>, path: string,
                         loops: int, force: bool, volume: Float, begin: int, end: int)
    requires |before.voices| == MAX_VOICES
  {
    exists asset: Asset :: asset in UsedIn(slots) && Keeps(slots, path, asset.slot) &&
      now == Ranged(StartVoice(before, Some(asset), 0, loops, force, volume), FreeVoice(before.voices, 0), asset,
          begin, end)
  }

  lemma UsedInstall(slots: seq<Slot>, k: nat, path: string, length: nat)
    requires k < |slots| && !slots[k].used && OneEach(slots) && !IsLoaded(slots, path)
    ensures var r := slots[k := Slot(true, path, length)];
            OneEach(r) && UsedIn(r) == UsedIn(slots) + {Asset(k, length)}
  {
    var r := slots[k := Slot(true, path, length)];
    assert Asset(k, r[k].length) in UsedIn(r);
    forall i: nat | i < |slots| && slots[i].used
      ensures slots[i].path != path && Asset(i, slots[i].length) in UsedIn(r)
    {
      assert !Keeps(slots, path, i);
      assert r[i].used;
    }
  }

  lemma UsedRemove(slots: seq<Slot>, path: string, asset: Asset)
    requires OneEach(slots) && Keeps(slots, path, asset.slot) && asset.length == slots[asset.slot].length
    ensures var r := slots[asset.slot := EMPTY];
            OneEach(r) && UsedIn(r) == UsedIn(slots) - {asset} && !IsLoaded(r, path)
  {
    var r := slots[asset.slot := EMPTY];
    forall i: nat | i < |slots| && i != asset.slot && slots[i].used
      ensures slots[i].path != path && r[i] == slots[i] && Asset(i, slots[i].length) in UsedIn(r)
    {
      assert r[i].used;
    }
  }

  /** The array once the events below `n` have been looked at. */
  function Partly(events: seq<Event>, n: nat, end: nat): seq<Event>
    requires n <= |events|
  {
    Consumed(events, end)[..n] + events[n..]
  }

  lemma PartlyNext(events: seq<Event>, n: nat, end: nat)
    requires n < |events|
    ensures Partly(events, n + 1, end) == Partly(events, n, end)[n := Consumed(events, end)[n]]
    ensures Due(events[n..n + 1], end) == if IsDue(events[n], end) then [events[n]] else []
  {
  }

  /** The events from `index` on belong behind the new one and have moved up. */
  predicate Shifted(before: seq<Event>, now: seq<Event>, index: nat, frame: nat) {
    && |now| == |before| + 1 && index <= |before|
    && now[..index] == before[..index] && now[index + 1..] == before[index..]
    && forall i :: index <= i < |before| ==> before[i].frame > frame
  }

  lemma ShiftedStart(before: seq<Event>, now: seq<Event>, frame: nat)
    requires |now| == |before| + 1 && now[..|before|] == before
    ensures Shifted(before, now, |before|, frame)
  {
  }

  lemma ShiftedNext(before: seq<Event>, now: seq<Event>, index: nat, frame: nat)
    requires Shifted(before, now, index, frame) && 0 < index < |now|
    ensures now[index - 1].frame > frame ==> Shifted(before, now[index := now[index - 1]], index - 1, frame)
  {
    var next := now[index := now[index - 1]];
    assert now[index - 1] == now[..index][index - 1] == before[index - 1];
    assert next[..index - 1] == now[..index][..index - 1] == before[..index - 1];
    assert next[index..] == [before[index - 1]] + now[index + 1..] == before[index - 1..];
  }

  lemma ShiftedEnd(before: seq<Event>, now: seq<Event>, index: nat, e: Event)
    requires Shifted(before, now, index, e.frame)
    requires index > 0 ==> now[index - 1].frame <= e.frame
    ensures index == Place(before, e.frame) && now[index := e] == Inserted(before, e)
  {
    assert index > 0 ==> now[index - 1] == now[..index][index - 1];
    assert now[index := e] == now[..index] + [e] + now[index + 1..];
  }

  /** How far `__schedule` has come when it looks at event `n`. */
  ghost predicate Midway(q: Queue, bank: Bank, first: nat, end: nat, delay: nat, position: nat, n: nat,
                         events: seq<Event>, now: Bank, started: seq<nat>) {
    && first <= n <= |q.events| && |bank.voices| == MAX_VOICES == |now.voices|
    && (forall i :: 0 <= i < n ==> q.events[i].played || q.events[i].frame < end)
    && events == Partly(q.events, n, end)
    && now == StartAll(bank, Due(q.events[first..n], end), delay, position)
    && started == q.started + Ids(Due(q.events[first..n], end))
  }

  lemma MidwayStart(q: Queue, bank: Bank, first: nat, end: nat, delay: nat, position: nat)
    requires Skipped(q.events, first) && |bank.voices| == MAX_VOICES
    ensures Midway(q, bank, first, end, delay, position, first, q.events, bank, q.started)
  {
    assert q.events[first..first] == [];
    assert q.started + [] == q.started;
  }

  lemma DueNext(events: seq<Event>, first: nat, n: nat, end: nat)
    requires first <= n < |events|
    ensures Due(events[first..n + 1], end) ==
            Due(events[first..n], end) + if IsDue(events[n], end) then [events[n]] else []
  {
    assert events[first..n + 1][..n - first] == events[first..n];
    assert events[first..n + 1][n - first] == events[n];
  }

  lemma StartOneMore(bank: Bank, due: seq<Event>, e: Event, delay: nat, position: nat)
    requires |bank.voices| == MAX_VOICES
    ensures StartAll(bank, due + [e], delay, position) ==
            Start(StartAll(bank, due, delay, position), e.asset, StartDelay(e, delay, position))
    ensures Ids(due + [e]) == Ids(due) + [e.id]
  {
    assert (due + [e])[..|due|] == due;
  }

  lemma MidwayAt(q: Queue, bank: Bank, first: nat, end: nat, delay: nat, position: nat, n: nat,
                 events: seq<Event>, now: Bank, started: seq<nat>)
    requires Midway(q, bank, first, end, delay, position, n, events, now, started) && n < |q.events|
    ensures |events| == |q.events| && |now.voices| == MAX_VOICES && events[n] == q.events[n]
    ensures events[n].played ==> Midway(q, bank, first, end, delay, position, n + 1, events, now, started)
    ensures var e := events[n];
            IsDue(e, end) ==>
              Midway(q, bank, first, end, delay, position, n + 1, events[n := e.(played := true)],
                     Start(now, e.asset, StartDelay(e, delay, position)), started + [e.id])
  {
    hide Start, FreeVoice, StartAll, StartDelay;
    var seen, e := Due(q.events[first..n], end), q.events[n];
    DueNext(q.events, first, n, end);
    PartlyNext(q.events, n, end);
    assert events[n] == e;
    StartOneMore(bank, seen, e, delay, position);
    assert Partly(q.events, n, end)[n := Consumed(q.events, end)[n]] ==
           if IsDue(e, end) then events[n := e.(played := true)] else events;
    assert q.started + (Ids(seen) + [e.id]) == (q.started + Ids(seen)) + [e.id];
    assert seen + [] == seen;
    hide Due, Partly, Ids;
  }

  lemma MidwayEnd(q: Queue, bank: Bank, first: nat, end: nat, delay: nat, position: nat, n: nat,
                  events: seq<Event>, now: Bank, started: seq<nat>, used: set<Asset>)
    requires Midway(q, bank, first, end, delay, position, n, events, now, started)
    requires QueueOkay(q) && Skipped(q.events, first) && AssetsLive(q.events, bank.voices, used)
    requires n < |q.events| ==> q.events[n].frame >= end
    ensures Apply(q, Render(end)) == Queue(events, started, q.nextId) && QueueOkay(Queue(events, started, q.nextId))
    ensures now == StartAll(bank, Due(q.events, end), delay, position)
    ensures Skipped(events, n) && AssetsLive(events, now.voices, used)
  {
    ScanIsComplete(q.events, first, n, end);
    PartlyAll(q.events, n, end);
    RenderKeeps(q, end);
    DueIn(q.events, end);
    var due := Due(q.events, end);
    forall i | 0 <= i < |due|
      ensures due[i].asset in used
    {
      assert due[i] in due;
    }
    StartAllLive(bank, due, delay, position, used);
  }

  lemma {:induction false} StartAllLive(bank: Bank, due: seq<Event>, delay: nat, position: nat, used: set<Asset>)
    requires |bank.voices| == MAX_VOICES && forall i :: 0 <= i < |due| ==> due[i].asset in used
    requires VoicesLive(bank.voices, used)
    ensures VoicesLive(StartAll(bank, due, delay, position).voices, used)
  {
    if due != [] {
      var e := due[|due| - 1];
      var before := StartAll(bank, due[..|due| - 1], delay, position);
      StartAllLive(bank, due[..|due| - 1], delay, position, used);
      hide StartAll, FreeVoice;
      StartLive(before, e.asset, StartDelay(e, delay, position), used);
    }
  }

  lemma StartLive(bank: Bank, asset: Asset, delay: nat, used: set<Asset>)
    requires |bank.voices| == MAX_VOICES && VoicesLive(bank.voices, used) && asset in used
    ensures VoicesLive(Start(bank, asset, delay).voices, used)
  {
  }

  lemma PartlyAll(events: seq<Event>, n: nat, end: nat)
    requires n <= |events| && Sorted(events) && (n < |events| ==> events[n].frame >= end)
    ensures Partly(events, n, end) == Consumed(events, end)
  {
  }

  /** The pointer after an insertion still has only played events below it. */
  lemma SkippedInsert(events: seq<Event>, e: Event, next: nat)
    requires Skipped(events, next)
    ensures var k := Place(events, e.frame); Skipped(Inserted(events, e), if k < next then k else next)
  {
  }

  lemma LiveInsert(events: seq<Event>, e: Event, voices: seq<Voice>, used: set<Asset>)
    requires AssetsLive(events, voices, used) && e.asset in used
    ensures AssetsLive(Inserted(events, e), voices, used)
  {
  }

  lemma UnloadKeeps(q: Queue, asset: Asset)
    requires QueueOkay(q)
    ensures QueueOkay(Apply(q, Unload(asset)))
  {
  }
}
