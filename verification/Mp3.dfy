/** The MP3 stream's cursor: sequential playback, the fast skip and the indexed seek
    (src/bridges/audio/mp3.c:259-411, 440-515) over a file of one constant format, which may be damaged or cut off. */
module Mp3 {
  import opened Common
  import opened Mp3Position
  import opened Mp3Index

  const UINT32_MAX := 0xffff_ffff

  // ---------------------------------------------------------------- the file

  /** The frames of a file: `count` of them can be read one after the other. A frame's size includes the bytes before
      its header that `mp3_frame_read` skips. */
  ghost predicate FramesAre(file: File, first: nat, count: nat) {
    && Framed(file)
    && OffsetOf(file, first, count).Some?
    && forall k: nat :: HasFrame(file, first, k) <==> k < count
  }

  /** A complete frame stands at a byte offset. */
  predicate Readable(file: File, at: nat) {
    file(at).Some? && at <= LONG_MAX - file(at).value.size
  }

  lemma NextFrame(file: File, first: nat, count: nat, k: nat, at: nat)
    requires FramesAre(file, first, count) && k <= count && OffsetOf(file, first, k) == Some(at)
    ensures k < count <==> Readable(file, at)
    ensures k < count ==> OffsetOf(file, first, k + 1) == Some(at + file(at).value.size)
  {
    assert HasFrame(file, first, k) <==> k < count;
  }

  /** The index reads frames only where they stand, without skipping anything. */
  ghost predicate Strict(strict: File, file: File) {
    forall at: nat :: strict(at).Some? ==> strict(at) == file(at)
  }

  lemma {:induction false} StrictOffset(strict: File, file: File, first: nat, k: nat)
    requires Strict(strict, file) && OffsetOf(strict, first, k).Some?
    ensures OffsetOf(file, first, k) == OffsetOf(strict, first, k)
    decreases k
  {
    if k > 0 {
      StrictOffset(strict, file, first, k - 1);
    }
  }

  // ---------------------------------------------------------------- where playback is

  /** What does not change: `frames` file frames of `samples` source frames each. */
  datatype Reel = Reel(file: File, first: nat, frames: nat, samples: nat, rate: nat) {
    ghost predicate Fine() {
      0 < rate <= OUTPUT && samples > 0 && FramesAre(file, first, frames)
    }

    function Total(): nat {
      frames * samples
    }
  }

  /** The stream's fields, with the file frame it reads next and `skew`, the source frames that were refused since it
      last started over. */
  datatype Spot = Spot(
    offset: nat, decodedAt: nat, decodedFrames: nat, decodedPosition: nat, phase: nat, output: nat, failed: bool,
    cursor: nat, skew: nat)

  /** The source frame heard next. */
  function Heard(r: Reel, s: Spot): nat {
    var end := s.cursor * r.samples + s.decodedPosition;
    if end >= s.decodedFrames then end - s.decodedFrames else 0
  }

  /** The position the stream tells, which does not count refused frames. */
  function WhereIs(r: Reel, s: Spot): Position {
    Position(if Heard(r, s) >= s.skew then Heard(r, s) - s.skew else 0, s.phase, s.output)
  }

  predicate Empty(s: Spot) {
    s.decodedPosition == s.decodedFrames
  }

  predicate AtEnd(r: Reel, s: Spot) {
    s.cursor == r.frames && Empty(s)
  }

  /** The file is read at frame `cursor`, the buffer holds the frame before it, and what was heard was played in phase.
      Once frames were refused the stream has failed, until it has reached the end of the file. */
  ghost predicate Placed(r: Reel, s: Spot) {
    && s.cursor <= r.frames && OffsetOf(r.file, r.first, s.cursor) == Some(s.offset)
    && (!Empty(s) ==> s.cursor > 0 && OffsetOf(r.file, r.first, s.cursor - 1) == Some(s.decodedAt))
    && s.skew <= Heard(r, s) <= r.Total()
    && InPhase(WhereIs(r, s), r.rate)
    && (Empty(s) ==> s.phase < r.rate)
    && (s.skew > 0 && !s.failed ==> AtEnd(r, s))
  }

  predicate Shaped(r: Reel, s: Spot) {
    && s.decodedPosition <= s.decodedFrames && (s.decodedFrames == 0 || s.decodedFrames == r.samples)
    && s.phase < OUTPUT
  }

  /** The end of the file is the end of its source frames, and where a frame can be read there is one. */
  lemma Bounds(r: Reel, s: Spot)
    requires r.Fine() && Shaped(r, s) && Placed(r, s)
    ensures Heard(r, s) == s.cursor * r.samples + s.decodedPosition - s.decodedFrames == WhereIs(r, s).source + s.skew
    ensures AtEnd(r, s) <==> Heard(r, s) == r.Total()
    ensures s.cursor < r.frames <==> Readable(r.file, s.offset)
    ensures s.cursor < r.frames ==>
              OffsetOf(r.file, r.first, s.cursor + 1) == Some(s.offset + r.file(s.offset).value.size)
  {
    MulOrder(1, s.cursor, r.samples);
    MulOrder(s.cursor, r.frames, r.samples);
    NextFrame(r.file, r.first, r.frames, s.cursor, s.offset);
  }

  /** Playback is where sequential playback of the file without its refused frames can be. */
  lemma PlacedOnTrack(r: Reel, s: Spot)
    requires r.Fine() && Shaped(r, s) && Placed(r, s)
    ensures s.skew <= r.Total() && OnTrack(WhereIs(r, s), r.rate, r.Total() - s.skew)
    ensures AtEnd(r, s) <==> WhereIs(r, s).source == r.Total() - s.skew
  {
    Bounds(r, s);
  }

  /** Back at the first frame. */
  function Rewound(r: Reel, s: Spot): Spot {
    Spot(r.first, s.decodedAt, 0, 0, 0, 0, false, 0, 0)
  }

  lemma RewoundKeeps(r: Reel, s: Spot)
    requires r.Fine()
    ensures Placed(r, Rewound(r, s)) && Shaped(r, Rewound(r, s)) && WhereIs(r, Rewound(r, s)) == START
    ensures AtEnd(r, Rewound(r, s)) <==> r.Total() == 0
  {
    MulOrder(0, r.frames, r.samples);
  }

  /** The file after the next frame. */
  function Behind(r: Reel, s: Spot): nat
    requires Readable(r.file, s.offset)
  {
    s.offset + r.file(s.offset).value.size
  }

  function Loaded(r: Reel, s: Spot): Spot
    requires Readable(r.file, s.offset)
  {
    s.(cursor := s.cursor + 1, offset := Behind(r, s), decodedAt := s.offset, decodedFrames := r.samples,
        decodedPosition := 0)
  }

  lemma LoadedKeeps(r: Reel, s: Spot)
    requires r.Fine() && Shaped(r, s) && Placed(r, s) && Empty(s) && Readable(r.file, s.offset)
    ensures Placed(r, Loaded(r, s)) && WhereIs(r, Loaded(r, s)) == WhereIs(r, s) && !AtEnd(r, s)
  {
    Bounds(r, s);
    hide FramesAre, OffsetOf, Readable, InPhase;
    assert (s.cursor + 1) * r.samples == s.cursor * r.samples + r.samples;
  }

  function Passed(r: Reel, s: Spot): Spot
    requires Readable(r.file, s.offset)
  {
    s.(cursor := s.cursor + 1, offset := Behind(r, s), skew := s.skew + r.samples, failed := true)
  }

  lemma PassedKeeps(r: Reel, s: Spot)
    requires r.Fine() && Shaped(r, s) && Placed(r, s) && Empty(s) && Readable(r.file, s.offset)
    ensures Placed(r, Passed(r, s)) && WhereIs(r, Passed(r, s)) == WhereIs(r, s) && !AtEnd(r, s)
  {
    Bounds(r, s);
    hide FramesAre, OffsetOf, Readable, InPhase;
    assert (s.cursor + 1) * r.samples == s.cursor * r.samples + r.samples;
    MulOrder(s.cursor + 1, r.frames, r.samples);
  }

  lemma EndKeeps(r: Reel, s: Spot, failed: bool)
    requires r.Fine() && Shaped(r, s) && Placed(r, s) && Empty(s) && !Readable(r.file, s.offset)
    ensures Placed(r, s.(failed := failed)) && WhereIs(r, s.(failed := failed)) == WhereIs(r, s) && AtEnd(r, s)
  {
    Bounds(r, s);
  }

  /** The buffer stands at source frame `i`. */
  predicate Buffers(r: Reel, s: Spot, i: nat) {
    r.samples > 0 && OffsetOf(r.file, r.first, i / r.samples) == Some(s.decodedAt) && i % r.samples == s.decodedPosition
  }

  /** The buffer holds the source frames it is played as. */
  lemma BufferIsSource(r: Reel, s: Spot)
    requires r.Fine() && Shaped(r, s) && Placed(r, s) && !Empty(s)
    ensures Buffers(r, s, Heard(r, s))
    ensures OffsetOf(r.file, r.first, Heard(r, s) / r.samples) == Some(s.decodedAt)
    ensures Heard(r, s) % r.samples == s.decodedPosition
  {
    Bounds(r, s);
    assert Heard(r, s) == (s.cursor - 1) * r.samples + s.decodedPosition;
    DivUnique(Heard(r, s), r.samples, s.cursor - 1, s.decodedPosition);
  }

  /** A jump over decoded source frames. */
  function Jumped(r: Reel, s: Spot, step: nat): Spot {
    var phase := s.phase + step * r.rate;
    s.(decodedPosition := s.decodedPosition + phase / OUTPUT, phase := phase % OUTPUT, output := s.output + step)
  }

  lemma JumpedKeeps(r: Reel, s: Spot, step: nat)
    requires r.Fine() && Shaped(r, s) && !Empty(s)
    requires step <= Room(WhereIs(r, s), s.decodedFrames - s.decodedPosition, r.rate)
    ensures Shaped(r, Jumped(r, s, step))
    ensures Placed(r, s) ==>
              Placed(r, Jumped(r, s, step)) && WhereIs(r, Jumped(r, s, step)) == Jump(WhereIs(r, s), step, r.rate)
  {
    var left := s.decodedFrames - s.decodedPosition;
    JumpStays(WhereIs(r, s), step, left, r.rate);
    if Placed(r, s) {
      Bounds(r, s);
      MulOrder(s.cursor, r.frames, r.samples);
      hide FramesAre, OffsetOf, InPhase;
      assert Heard(r, Jumped(r, s, step)) == Heard(r, s) + (s.phase + step * r.rate) / OUTPUT;
    }
  }

  /** One output frame, before the end, is a step of the resampler. */
  lemma StepIsJump(r: Reel, s: Spot)
    requires r.Fine() && Shaped(r, s) && !Empty(s)
    ensures Shaped(r, Jumped(r, s, 1))
    ensures Placed(r, s) ==>
              && Placed(r, Jumped(r, s, 1)) && s.skew <= r.Total() && WhereIs(r, s).source + s.skew < r.Total()
              && WhereIs(r, Jumped(r, s, 1)) == Step(WhereIs(r, s), r.rate, r.Total() - s.skew)
  {
    JumpStays(WhereIs(r, s), 0, s.decodedFrames - s.decodedPosition, r.rate);
    JumpedKeeps(r, s, 1);
    if Placed(r, s) {
      PlacedOnTrack(r, s);
      Bounds(r, s);
      JumpOne(WhereIs(r, s), r.rate, r.Total() - s.skew);
    }
    hide Jumped, Jump, Step, InPhase, FramesAre, OffsetOf, Heard;
  }

  /** What lines 371-375 set. */
  lemma JumpedOne(r: Reel, s: Spot)
    requires 0 < r.rate <= OUTPUT && s.phase < OUTPUT
    ensures Jumped(r, s, 1) ==
            if s.phase + r.rate >= OUTPUT then
              s.(decodedPosition := s.decodedPosition + 1, phase := s.phase + r.rate - OUTPUT, output := s.output + 1)
            else s.(phase := s.phase + r.rate, output := s.output + 1)
  {
  }

  /** Entering at a frame: the first output sample of it. */
  function Entered(r: Reel, s: Spot, target: nat): Spot
    requires r.rate > 0
  {
    var entry := Entry(target * r.samples, r.rate);
    s.(cursor := target, output := entry.output, phase := entry.phase, decodedFrames := 0, decodedPosition := 0,
       failed := false, skew := 0)
  }

  lemma EnteredKeeps(r: Reel, s: Spot, target: nat, position: nat)
    requires r.Fine() && target < r.frames && OffsetOf(r.file, r.first, target) == Some(s.offset)
    requires target == position * r.rate / OUTPUT / r.samples
    ensures Placed(r, Entered(r, s, target)) && Shaped(r, Entered(r, s, target)) &&
            Entered(r, s, target).output <= position
  {
    MulOrder(target, r.frames, r.samples);
    EntryOnTrack(position, r.samples, r.rate, r.Total());
  }

  /** Where `n` calls from the start lead in the file without `skew` refused source frames. */
  function Playback(r: Reel, skew: nat, n: nat): Position
    requires 0 < r.rate <= OUTPUT
  {
    Sequential(n, r.rate, if skew <= r.Total() then r.Total() - skew else 0)
  }

  /** An in-phase place is where playback gets by its own count, and stays the answer behind the end. */
  lemma SequentialThere(r: Reel, s: Spot, position: nat)
    requires r.Fine() && Shaped(r, s) && Placed(r, s)
    requires s.output == position || (s.output < position && AtEnd(r, s))
    ensures WhereIs(r, s) == Playback(r, s.skew, position)
  {
    PlacedOnTrack(r, s);
    OnTrackIsSequential(WhereIs(r, s), position, r.rate, r.Total() - s.skew);
  }

  // ---------------------------------------------------------------- the stream

  class Stream {
    const format: Format
    const reel: Reel
    const path: string
    const index: Index
    const cache: MarkCache
    /** What the codec makes of the frame at a byte offset, by index. */
    const sound: ((nat, nat)) -> int
    /** Where the codec refuses a frame, and whether the file breaks off inside one. */
    const damaged: nat -> bool
    const truncated: bool
    /** Whether the codec and the file obey, by attempt: a rewind, the start of a warm-up, the frames of a warm-up,
        saving and restoring the file position. */
    const rewinds: nat -> bool
    const starts: nat -> bool
    const warms: ((nat, nat)) -> bool
    const tells: nat -> bool
    const restores: nat -> bool

    var offset: nat
    var drained: bool
    /** The frame in the buffer and how much of it was played. */
    var decodedAt: nat
    var decodedFrames: nat
    var decodedPosition: nat
    var phase: nat
    var output: nat
    var checked: bool
    var failed: bool
    var attempts: nat
    ghost var cursor: nat
    ghost var skew: nat
    /** Where the file is read has nothing to do with the position any more. */
    ghost var lost: bool
    /** What a caller sees: a seek answered false, and none to before its place or more than a second ahead of it has
        answered true since. */
    ghost var denied: bool

    ghost function Now(): Spot
      reads this
    {
      Spot(offset, decodedAt, decodedFrames, decodedPosition, phase, output, failed, cursor, skew)
    }

    /** No frame is refused. */
    ghost predicate Whole() {
      forall at: nat :: !damaged(at)
    }

    ghost predicate Opened() {
      && reel.Fine() && reel.rate == format.rate
      && Strict(index.file, reel.file) && index.first == reel.first && index.format == format
      && cache.disk(path, format) == index.file
    }

    ghost predicate Valid()
      reads this
    {
      && Opened() && Shaped(reel, Now())
      && (!lost ==> Placed(reel, Now()))
      && (skew > 0 ==> !Whole())
    }

    ghost function Where(): Position
      reads this
    {
      WhereIs(reel, Now())
    }

    /** Source frame `i` of the file, as sequential decoding delivers it. */
    ghost function SourceFrame(i: nat): int
      requires reel.samples > 0
    {
      var at := OffsetOf(reel.file, reel.first, i / reel.samples);
      if at.Some? then sound((at.value, i % reel.samples)) else 0
    }

    constructor (
      format: Format, reel: Reel, path: string, index: Index, cache: MarkCache,
      sound: ((nat, nat)) -> int, damaged: nat -> bool, truncated: bool,
      rewinds: nat -> bool, starts: nat -> bool, warms: ((nat, nat)) -> bool, tells: nat -> bool, restores: nat -> bool)
      requires reel.Fine() && reel.rate == format.rate
      requires Strict(index.file, reel.file) && index.first == reel.first && index.format == format
      requires cache.disk(path, format) == index.file && index.Valid() && cache.Valid()
      ensures Valid() && !lost && !denied && Now() == Rewound(reel, Now()) && !drained && index.Valid() && cache.Valid()
      ensures this.format == format && this.reel == reel && this.sound == sound && this.index == index &&
              this.cache == cache
      ensures this.damaged == damaged && this.truncated == truncated && this.rewinds == rewinds
    {
      this.format, this.reel, this.path, this.index, this.cache := format, reel, path, index, cache;
      this.sound, this.damaged, this.truncated := sound, damaged, truncated;
      this.rewinds, this.starts, this.warms, this.tells, this.restores := rewinds, starts, warms, tells, restores;
      offset, drained, decodedAt, decodedFrames, decodedPosition := reel.first, false, reel.first, 0, 0;
      phase, output, checked, failed, attempts := 0, 0, false, false, 0;
      cursor, skew, lost, denied := 0, 0, false, false;
      RewoundKeeps(reel, Spot(0, reel.first, 0, 0, 0, 0, false, 0, 0));
    }

    /** Lines 270-274. */
    method StartOver()
      modifies this
      ensures Now() == Rewound(reel, old(Now())) && !lost && !drained && unchanged(`checked, `denied, `attempts)
    {
      offset, drained, decodedFrames, decodedPosition, phase, output, failed := reel.first, false, 0, 0, 0, 0, false;
      cursor, skew, lost := 0, 0, false;
    }

    /** `vita_mp3_reset`: back to the first frame, if the codec and the file allow it. */
    method Reset() returns (ok: bool)
      requires Valid()
      modifies this
      ensures Valid() && attempts == old(attempts) + 1 && ok == rewinds(attempts) && unchanged(`checked, `denied)
      ensures ok ==> !lost && Now() == Rewound(reel, old(Now())) && !drained
      ensures !ok ==> lost == old(lost) && Now() == old(Now())
    {
      RewoundKeeps(reel, Now());
      hide Placed, Shaped, Opened;
      attempts := attempts + 1;
      ok := rewinds(attempts);
      if ok {
        StartOver();
      }
    }

    /** `__read_frame`: the complete frame at the file position. A cut-off tail fails the stream once; at the end of the
        file an earlier failure is forgotten. */
    method ReadFrame() returns (got: bool)
      modifies this`offset, this`drained, this`failed
      ensures got <==> Readable(reel.file, old(offset))
      ensures got ==> offset == Behind(reel, old(Now())) && failed == old(failed)
      ensures !got ==> offset == old(offset) && failed == (truncated && !old(drained))
    {
      var frame := reel.file(offset);
      if frame.None? || offset > LONG_MAX - frame.value.size {
        failed := truncated && !drained;
        drained := true;
        return false;
      }
      offset := offset + frame.value.size;
      got := true;
    }

    /** `__decode_frame`: a refused frame leaves the buffer as it was. */
    method DecodeFrame(at: nat) returns (ok: bool)
      modifies this`decodedAt, this`decodedFrames, this`decodedPosition
      ensures ok == !damaged(at)
      ensures ok ==> decodedAt == at && decodedFrames == reel.samples && decodedPosition == 0
      ensures !ok ==> unchanged(this)
    {
      ok := !damaged(at);
      if ok {
        decodedAt, decodedFrames, decodedPosition := at, reel.samples, 0;
      }
    }

    /** `decode_next_frame`: the next frame in the buffer; a refused one is passed over, and at the end is none. */
    method DecodeNext() returns (ok: bool)
      requires Valid() && Empty(Now())
      modifies this`offset, this`drained, this`decodedAt, this`decodedFrames, this`decodedPosition, this`checked,
               this`failed, this`cursor, this`skew
      ensures Valid() && (ok <==> Readable(reel.file, old(offset)) && !damaged(old(offset)))
      ensures ok ==> Now() == Loaded(reel, old(Now()))
      ensures !ok && Readable(reel.file, old(offset)) ==> Now() == Passed(reel, old(Now())) && !Whole()
      ensures !Readable(reel.file, old(offset)) ==> Now() == old(Now()).(failed := failed) && (failed ==> truncated)
    {
      hide Placed, Shaped, Opened, Readable;
      ghost var s := Now();
      var at := offset;
      Steps(s);
      ok := ReadFrame();
      if !ok {
        assert Now() == s.(failed := failed);
        return;
      }
      ok := DecodeFrame(at);
      cursor := cursor + 1;
      if ok {
        checked := true;
        assert Now() == Loaded(reel, s);
      } else {
        failed, skew := true, skew + reel.samples;
        assert Now() == Passed(reel, s);
      }
    }

    /** What each outcome of reading a frame keeps. */
    lemma Steps(s: Spot)
      requires Opened() && Shaped(reel, s) && Empty(s)
      ensures Readable(reel.file, s.offset) ==> Shaped(reel, Loaded(reel, s)) && Shaped(reel, Passed(reel, s))
      ensures forall b :: Shaped(reel, s.(failed := b))
      ensures Placed(reel, s) && Readable(reel.file, s.offset) ==>
                && Placed(reel, Loaded(reel, s)) && Placed(reel, Passed(reel, s)) && !AtEnd(reel, s)
                && WhereIs(reel, Loaded(reel, s)) == WhereIs(reel, Passed(reel, s)) == WhereIs(reel, s)
      ensures Placed(reel, s) && !Readable(reel.file, s.offset) ==>
                && AtEnd(reel, s)
                && forall b :: Placed(reel, s.(failed := b)) && WhereIs(reel, s.(failed := b)) == WhereIs(reel, s)
    {
      if Placed(reel, s) {
        if Readable(reel.file, s.offset) {
          LoadedKeeps(reel, s);
          PassedKeeps(reel, s);
        } else {
          EndKeeps(reel, s, true);
          EndKeeps(reel, s, false);
        }
      }
    }

    /** The next frame is refused. */
    ghost predicate Refuses(s: Spot) {
      Empty(s) && Readable(reel.file, s.offset) && damaged(s.offset)
    }

    /** What reading on makes of a place: a refused frame is passed over, the end is the end or leads to the start. */
    ghost predicate Follows(s: Spot, n: Spot, loop: bool, ok: bool)
      reads this
    {
      && (ok ==> !Empty(n))
      && (!AtEnd(reel, s) ==>
           && WhereIs(reel, n) == WhereIs(reel, s) && (ok <==> !Refuses(s))
           && (if Refuses(s) then n.skew == s.skew + reel.samples && n.failed && !Whole()
               else n.skew == s.skew && n.failed == s.failed))
      && (AtEnd(reel, s) && !loop ==>
           !ok && WhereIs(reel, n) == WhereIs(reel, s) && n.skew == s.skew && (n.failed ==> truncated) &&
               AtEnd(reel, n))
      && (AtEnd(reel, s) && loop ==>
           if ok then WhereIs(reel, n) == START && n.skew == 0
           else || (WhereIs(reel, n) == WhereIs(reel, s) && (n.failed || !rewinds(attempts)))
                || (WhereIs(reel, n) == START && (n.failed || reel.Total() == 0)))
    }

    /** `ensure_decoded_sample`: a decoded source frame in the buffer. */
    method Ensure(loop: bool) returns (ok: bool)
      requires Valid()
      modifies this
      ensures Valid() && (ok ==> !Empty(Now())) && (lost ==> old(lost)) && denied == old(denied)
      ensures !old(lost) ==> Follows(old(Now()), Now(), loop, ok)
      ensures !loop ==>
                && lost == old(lost) && output == old(output) && attempts == old(attempts) &&
                   (ok ==> failed == old(failed))
                && (failed ==> old(failed) || truncated || !Whole())
    {
      ghost var s := Now();
      if decodedPosition < decodedFrames {
        return true;
      }
      Steps(s);
      hide Placed, Shaped, Opened, Readable, WhereIs, InPhase;
      ok := DecodeNext();
      if ok || failed || !loop {
        return;
      }
      RewoundKeeps(reel, s);
      ok := Reset();
      if !ok {
        return;
      }
      Steps(Now());
      ok := DecodeNext();
    }

    /** Lines 371-375: the phase accumulator. */
    method Accumulate()
      requires 0 < reel.rate <= OUTPUT && phase < OUTPUT
      modifies this`output, this`phase, this`decodedPosition
      ensures Now() == Jumped(reel, old(Now()), 1)
    {
      JumpedOne(reel, Now());
      hide Jumped;
      output := output + 1;
      phase := phase + reel.rate;
      if phase >= OUTPUT {
        phase := phase - OUTPUT;
        decodedPosition := decodedPosition + 1;
      }
    }

    /** One output frame. At rates up to 48000 one output frame passes at most one source frame. */
    method AdvanceOne()
      requires Valid() && !Empty(Now())
      modifies this`output, this`phase, this`decodedPosition
      ensures Valid() && Now() == Jumped(reel, old(Now()), 1)
    {
      StepIsJump(reel, Now());
      hide Placed, Opened;
      Accumulate();
    }

    /** What one call makes of a place: the sample of the source frame it stands on, `skew` frames after its position. A
        refused frame is passed over: the call that would emit it first answers false, or the one before it has already
        passed it. With looping the end leads back to the start. */
    ghost predicate Plays(s: Spot, n: Spot, loop: bool, ok: bool, sample: int)
      requires reel.Fine()
      reads this
    {
      var wrapped := AtEnd(reel, s);
      var from, skew := if wrapped then START else WhereIs(reel, s), if wrapped then 0 else s.skew;
      var total := if skew <= reel.Total() then reel.Total() - skew else 0;
      var next := Step(from, reel.rate, total);
      && (ok ==> sample == SourceFrame(from.source + skew))
      && (!loop ==>
           && (ok <==> !wrapped && !Refuses(s))
           && WhereIs(reel, n) == (if ok then next else WhereIs(reel, s))
           && (n.skew == s.skew || (n.skew == s.skew + reel.samples && n.failed && !Whole()))
           && (Refuses(s) ==> n.skew == s.skew + reel.samples)
           && (wrapped ==> n.skew == s.skew && (n.failed ==> truncated)))
      && (loop && ok ==>
           && (next.source < total ==> WhereIs(reel, n) == next)
           && (next.source >= total ==>
                WhereIs(reel, n) == START || (WhereIs(reel, n) == next && (n.failed || !rewinds(attempts)))))
      && (loop && !ok ==> Refuses(s) || (wrapped && (n.failed || reel.Total() == 0 || !rewinds(attempts))))
    }

    /** `vita_mp3_next_sample`: one step of sequential playback. */
    method NextSample(loop: bool) returns (ok: bool, sample: int)
      requires Valid()
      modifies this
      ensures Valid() && (lost ==> old(lost)) && denied == old(denied)
      ensures !old(lost) ==> Plays(old(Now()), Now(), loop, ok, sample)
    {
      sample := 0;
      ghost var s := Now();
      hide Placed, Opened, Readable, WhereIs, AtEnd, Follows, Plays, Jumped, Refuses;
      ok := Ensure(loop);
      if !ok {
        if !old(lost) { NotTaken(s, Now(), loop, sample); }
        return;
      }
      ghost var middle := Now();
      sample := sound((decodedAt, decodedPosition));
      if !old(lost) { Resumed(s, middle, loop); }
      AdvanceOne();
      var more := true;
      if decodedPosition >= decodedFrames {
        more := Ensure(loop);
      }
      if !old(lost) { Taken(s, middle, Now(), loop, more); }
    }

    lemma NotTaken(s: Spot, n: Spot, loop: bool, sample: int)
      requires Opened() && Shaped(reel, s) && Placed(reel, s) && Follows(s, n, loop, false)
      ensures Plays(s, n, loop, false, sample)
    {
      Bounds(reel, s);
      assert AtEnd(reel, s) ==> !Refuses(s);
      hide Placed, Shaped, WhereIs, InPhase, FramesAre;
    }

    /** A frame is in the buffer: the place is where it was, or the start. */
    ghost predicate Stands(s: Spot, m: Spot, loop: bool) {
      && (AtEnd(reel, s) ==> loop) && !Refuses(s)
      && WhereIs(reel, m) == (if AtEnd(reel, s) then START else WhereIs(reel, s))
      && m.skew == (if AtEnd(reel, s) then 0 else s.skew)
    }

    lemma Resumed(s: Spot, m: Spot, loop: bool)
      requires Opened() && Shaped(reel, s) && Placed(reel, s) && Follows(s, m, loop, true)
      ensures Stands(s, m, loop)
    {
      if AtEnd(reel, s) && Refuses(s) { Bounds(reel, s); }
    }

    /** The buffer is heard, and the step after it may read on. */
    lemma Taken(s: Spot, m: Spot, n: Spot, loop: bool, more: bool)
      requires Opened() && Shaped(reel, m) && Placed(reel, m) && !Empty(m) && Stands(s, m, loop)
      requires var a := Jumped(reel, m, 1); if Empty(a) then Follows(a, n, loop, more) else n == a
      ensures Plays(s, n, loop, true, sound((m.decodedAt, m.decodedPosition)))
    {
      var a := Jumped(reel, m, 1);
      Bounds(reel, m);
      BufferIsSource(reel, m);
      StepIsJump(reel, m);
      PlacedOnTrack(reel, a);
      hide Placed, Shaped, WhereIs, Jumped, AtEnd, Refuses, InPhase, FramesAre, OffsetOf, Step, Heard;
    }

    /** One turn of `__skip_to` (lines 396-407). */
    method SkipChunk(position: nat)
      requires Valid() && !Empty(Now()) && output < position
      modifies this`decodedPosition, this`phase, this`output
      ensures Valid() && old(output) < output <= position
    {
      ghost var s := Now();
      var left := decodedFrames - decodedPosition;
      JumpStays(WhereIs(reel, s), 0, left, reel.rate);
      var room := Ceil(left * OUTPUT - phase, reel.rate);
      var step := position - output;
      if step > room {
        step := room;
      }
      JumpedKeeps(reel, s, step);
      hide Placed, Opened, Ceil, InPhase;
      var total := phase + step * reel.rate;
      decodedPosition := decodedPosition + total / OUTPUT;
      phase := total % OUTPUT;
      output := output + step;
      assert Now() == Jumped(reel, s, step);
    }

    /** `__skip_to`: whole stretches of a decoded frame at once, ending where single steps would, also at the end of
        the file; it fails only at a refused frame or a cut-off tail. */
    method SkipTo(position: nat) returns (ok: bool)
      requires Valid() && !failed && output <= position
      modifies this
      ensures Valid() && ok == !failed && (!ok ==> truncated || !Whole())
      ensures lost == old(lost) && denied == old(denied) && attempts == old(attempts) &&
              (ok && !lost ==> skew == old(skew))
      ensures !lost && skew == old(skew) ==> Where() == Playback(reel, skew, position)
      ensures position == old(output) ==> ok && Now() == old(Now())
    {
      ok := true;
      hide Placed, Opened, Follows, Playback;
      while output < position
        invariant Valid() && !failed && output <= position && lost == old(lost) && denied == old(denied)
        invariant attempts == old(attempts) && (!lost ==> skew == old(skew))
        invariant position == old(output) ==> Now() == old(Now())
        decreases position - output
      {
        ghost var s := Now();
        var more := Ensure(false);
        if !lost { Skipped(s, Now(), more, position); }
        if !more {
          return !failed;
        }
        SkipChunk(position);
      }
      if !lost { Reached(Now(), position); }
    }

    lemma Reached(s: Spot, position: nat)
      requires Opened() && Shaped(reel, s) && Placed(reel, s) && s.output == position
      ensures WhereIs(reel, s) == Playback(reel, s.skew, position)
    {
      SequentialThere(reel, s, position);
    }

    lemma Skipped(s: Spot, n: Spot, more: bool, position: nat)
      requires Opened() && Shaped(reel, s) && Shaped(reel, n) && Placed(reel, s) && Placed(reel, n)
      requires Follows(s, n, false, more) && s.output < position
      ensures more || !n.failed ==> n.skew == s.skew
      ensures !more && n.skew == s.skew ==> WhereIs(reel, n) == Playback(reel, n.skew, position)
    {
      if !more && n.skew == s.skew {
        SequentialThere(reel, n, position);
      }
    }

    /** The index and the cache are those of the file the stream reads. */
    lemma Paired()
      requires Opened()
      ensures reel.samples > 0 && index.format == format && index.first == reel.first && Framed(index.file)
      ensures cache.disk(path, format) == index.file
    {
    }

    /** Lines 460-476: the decoder is cleared, warmed up from the mark and placed at the target frame. */
    method FromFrame(target: nat, mark: Mark, position: nat) returns (ok: bool)
      requires Valid() && index.Valid() && Answers(index.file, format, reel.first, target, mark) && Framed(index.file)
      requires reel.samples > 0 && target == position * reel.rate / OUTPUT / reel.samples
      modifies this, index`blocked
      ensures Valid() && index.Valid() && denied == old(denied) && attempts == old(attempts)
      ensures ok ==> !lost && !failed && skew == 0 && Where() == Playback(reel, skew, position)
      ensures !ok ==> lost || failed
    {
      hide Placed, Shaped, Opened, Playback, Answers, WhereIs;
      if !starts(attempts) {
        lost := true;
        return false;
      }
      var warmed := WarmUp(target, mark);
      if !warmed {
        index.blocked := true;
        return false;
      }
      EnterAt(target, position);
      ok := SkipTo(position);
    }

    /** The source frame that holds an output position, without a product that could wrap (lines 446-449). */
    method TargetFrame(position: nat) returns (target: nat)
      requires reel.samples > 0
      ensures target == position * reel.rate / OUTPUT / reel.samples
    {
      SplitProduct(position, reel.rate);
      target := (position / OUTPUT * reel.rate + position % OUTPUT * reel.rate / OUTPUT) / reel.samples;
    }

    /** `__seek_index`: from the frame that holds the target, found and warmed up through the index. Success is exact;
        a failure has failed, has lost the place or moved nothing. */
    method SeekIndex(position: nat, memory: nat) returns (ok: bool)
      requires Valid() && index.Valid() && cache.Valid()
      modifies this, index, cache`next, cache.rows
      ensures Valid() && index.Valid() && cache.Valid() && denied == old(denied) && attempts >= old(attempts)
      ensures ok ==> !lost && !failed && skew == 0 && Where() == Playback(reel, skew, position)
      ensures !ok ==> lost || failed || (!old(lost) && Now() == old(Now()))
    {
      hide Placed, Shaped, Opened, Playback, Answers, WhereIs;
      Paired();
      if !checked || failed {
        return false;
      }
      var target := TargetFrame(position);
      if target >= UINT32_MAX {
        return false;
      }
      attempts := attempts + 1;
      var mark, kept := Find(index, cache, path, target, memory, tells(attempts), restores(attempts));
      if mark.None? {
        lost := lost || !kept;
        return false;
      }
      ok := FromFrame(target, mark.value, position);
    }

    /** Lines 464-467: the file stands behind the warm-up; a failed one leaves its last frame in the buffer. */
    method WarmUp(target: nat, mark: Mark) returns (ok: bool)
      requires Valid() && Answers(index.file, format, reel.first, target, mark) && Framed(index.file)
      modifies this`offset, this`lost, this`decodedAt, this`decodedFrames, this`decodedPosition
      ensures Valid() && lost
      ensures target < reel.frames && OffsetOf(reel.file, reel.first, target) == Some(offset)
    {
      var attempt := attempts;
      StrictOffset(index.file, reel.file, reel.first, target);
      StrictOffset(index.file, reel.file, reel.first, target + 1);
      assert HasFrame(reel.file, reel.first, target);
      hide Placed, Answers;
      var end, last;
      ok, end, last := Preroll(index.file, format, reel.first, target, mark, (k: nat) => warms((attempt, k)));
      offset, lost := end, true;
      if last.Some? {
        decodedAt, decodedFrames, decodedPosition := last.value, reel.samples, 0;
      }
    }

    /** Lines 469-475: the first output sample of the target frame. */
    method EnterAt(target: nat, position: nat)
      requires Valid() && target < reel.frames && OffsetOf(reel.file, reel.first, target) == Some(offset)
      requires target == position * reel.rate / OUTPUT / reel.samples
      modifies this`output, this`phase, this`decodedFrames, this`decodedPosition, this`failed, this`drained,
               this`cursor, this`skew, this`lost
      ensures Valid() && !lost && Now() == Entered(reel, old(Now()), target) && output <= position
    {
      EnteredKeeps(reel, Now(), target, position);
      hide Placed, Opened, InPhase;
      var entry := Entry(target * reel.samples, reel.rate);
      output, phase, decodedFrames, decodedPosition, failed, drained := entry.output, entry.phase, 0, 0, false, false;
      cursor, skew, lost := target, 0, false;
      assert Now() == Entered(reel, old(Now()), target);
    }

    /** Lines 499-514: over from the start, if asked for, and on; after a failure back to where it was. */
    method Move(position: nat, rewind: bool, previous: nat) returns (ok: bool)
      requires Valid() && (rewind || (!failed && output <= position))
      modifies this
      ensures Valid() && denied == old(denied) && (lost ==> old(lost))
      ensures ok && rewind ==> !lost && skew == 0 && Where() == Playback(reel, skew, position)
      ensures ok && !rewind ==>
                lost == old(lost) && (!lost ==> skew == old(skew) && Where() == Playback(reel, skew, position))
      ensures !rewind && position == old(output) ==> ok && Now() == old(Now())
      ensures !ok ==>
                || failed || (rewind && Now() == old(Now()) && lost == old(lost))
                || (!lost && skew == 0 && Where() == Playback(reel, skew, previous))
      ensures !ok && lost ==> !rewinds(attempts) && attempts > old(attempts)
      ensures Whole() && !truncated && (forall a :: rewinds(a)) ==> ok
    {
      hide Placed, Opened, Playback, Shaped, WhereIs;
      if rewind {
        ok := Reset();
        if !ok {
          return;
        }
      }
      ok := SkipTo(position);
      if ok {
        return;
      }
      var again := Reset();
      if again {
        var _ := SkipTo(previous);
      }
    }

    /** A seek that neither starts over nor goes far skips on from where the stream is: behind refused frames, or at a
        lost place, without having failed. */
    ghost predicate Stale(position: nat)
      reads this
    {
      (lost || skew > 0) && !failed && output <= position <= output + OUTPUT
    }

    /** What a caller can tell before the call: the seek goes back or more than a second ahead. */
    ghost predicate Leaps(position: nat)
      reads this
    {
      position < output || position > output + OUTPUT
    }

    /** Lines 485-514. */
    method Attempt(position: nat, memory: nat) returns (ok: bool)
      requires Valid() && index.Valid() && cache.Valid()
      modifies this, index, cache`next, cache.rows
      ensures Valid() && index.Valid() && cache.Valid() && denied == old(denied)
      ensures ok ==> (lost || skew > 0 <==> old(Stale(position)))
      ensures ok && !lost ==> Where() == Playback(reel, skew, position) && (skew == 0 || skew == old(skew))
      ensures !ok ==>
                lost || failed || (Where() == Playback(reel, skew, old(output)) && (skew == 0 || skew == old(skew)))
      ensures lost && !old(lost) ==> !ok && attempts > old(attempts) && !rewinds(attempts)
      ensures Whole() && !truncated && (forall a :: rewinds(a)) ==> ok
      ensures old(Stale(position)) && position == old(output) ==> ok && Now() == old(Now())
    {
      var previous := output;
      var distance := if position > previous then position - previous else previous - position;
      var distant := distance > OUTPUT;
      var backward := position < previous && position > OUTPUT;
      var rewind := position < previous || failed;
      if !lost { Reached(Now(), previous); }
      hide Placed, Opened, Playback, Shaped, WhereIs;
      ok := false;
      if (distant || backward) && !failed {
        ok := SeekIndex(position, memory);
        rewind := true;
      }
      if !ok {
        ok := Move(position, rewind, previous);
      }
    }

    /** `vita_mp3_seek_frames`. A seek that answers true is where sequential playback of the whole file would be, unless
        it was stale; it is never stale when it leaps, nor in a file without refused frames whose last seeks have not
        been denied. A denied seek whose restore succeeds leaves the audible position. */
    method SeekFrames(position: nat, memory: nat) returns (ok: bool)
      requires Valid() && index.Valid() && cache.Valid() && (lost ==> denied)
      modifies this, index, cache`next, cache.rows
      ensures Valid() && index.Valid() && cache.Valid() && (lost ==> denied)
      ensures denied == (!ok || (old(denied) && !old(Leaps(position))))
      ensures ok ==> (lost || skew > 0 <==> old(Stale(position)))
      ensures ok && !lost ==> Where() == Playback(reel, skew, position) && (skew == 0 || skew == old(skew))
      ensures ok && (old(Leaps(position)) || (Whole() && !old(denied))) ==>
                !lost && skew == 0 && Where() == Playback(reel, 0, position)
      ensures !ok ==>
                lost || failed || (Where() == Playback(reel, skew, old(output)) && (skew == 0 || skew == old(skew)))
      ensures lost && !old(lost) ==> !ok && attempts > old(attempts) && !rewinds(attempts)
      ensures Whole() && !truncated && (forall a :: rewinds(a)) ==> ok
      ensures old(Stale(position)) && position == old(output) ==> ok && Now() == old(Now())
    {
      ghost var leaps := Leaps(position);
      hide Placed, Opened, Playback, Shaped, WhereIs;
      ok := Attempt(position, memory);
      denied := !ok || (denied && !leaps);
    }
  }

  /** A stream is stale only after the rest of a damaged file was played out, or after a denied seek. */
  lemma StaleOnlyAfter(s: Stream, position: nat)
    requires s.Valid() && (s.lost ==> s.denied) && s.Stale(position)
    ensures s.denied || (AtEnd(s.reel, s.Now()) && !s.Whole())
  {
  }

  /** It does get stale: of a file whose only frame is refused, two calls reach the end, and a seek to the start then
      answers true without reading the file again. */
  method StaleSeek(
    format: Format, reel: Reel, path: string, index: Index, cache: MarkCache, sound: ((nat, nat)) -> int,
    damaged: nat -> bool, yes: nat -> bool, warms: ((nat, nat)) -> bool) returns (s: Stream, ok: bool)
    requires reel.Fine() && reel.rate == format.rate && reel.frames == 1 && damaged(reel.first)
    requires Strict(index.file, reel.file) && index.first == reel.first && index.format == format
    requires cache.disk(path, format) == index.file && index.Valid() && cache.Valid()
    modifies index, cache`next, cache.rows
    ensures ok && s.Valid() && !s.lost && !s.failed && s.output == 0 && s.skew == reel.samples == reel.Total()
  {
    s := new Stream(format, reel, path, index, cache, sound, damaged, false, yes, yes, warms, yes, yes);
    Bounds(reel, s.Now());
    var first, _ := s.NextSample(false);
    Bounds(reel, s.Now());
    hide Placed, Sequential, FramesAre;
    var second, _ := s.NextSample(false);
    assert s.Stale(0);
    ok := s.SeekFrames(0, 0);
  }
}
