/** The Vorbis side of an audio stream (src/bridges/audio/stream.c:78-89, 106-223): resampling any supported rate
    to 48000 frames a second, and seeking to where sequential playback would be. */
module Vorbis {
  import opened Mp3Position

  const MAX_RATE := 192000
  const MAX_HOLES := 16

  /** Source frames passed while a phase covers whole ones (lines 214-220); the end of the file stops them. */
  function Drain(p: Position, total: nat): (q: Position)
    requires p.source < total
    ensures q.source <= total && q.output == p.output
    decreases total - p.source
  {
    if p.phase < OUTPUT then p
    else
      var q := p.(source := p.source + 1, phase := p.phase - OUTPUT);
      if q.source == total then q else Drain(q, total)
  }

  /** One output frame of sequential playback. */
  function Advance(p: Position, rate: nat, total: nat): Position {
    if p.source >= total then p
    else Drain(Position(p.source, p.phase + rate, p.output + 1), total)
  }

  function Playback(n: nat, rate: nat, total: nat): Position {
    if n == 0 then START else Advance(Playback(n - 1, rate, total), rate, total)
  }

  /** Lines 87-88: how many output frames the file makes. */
  function Duration(rate: nat, total: nat): nat
    requires rate > 0
  {
    total * OUTPUT / rate + if total * OUTPUT % rate != 0 then 1 else 0
  }

  /** Where playback stands: exactly in phase before the end, and at the full duration there. */
  predicate Placed(p: Position, rate: nat, total: nat)
    requires rate > 0
  {
    p.source <= total && if p.source < total then InPhase(p, rate) else p.output == Duration(rate, total)
  }

  lemma DurationLeast(n: nat, rate: nat, total: nat)
    requires rate > 0
    ensures n < Duration(rate, total) <==> n * rate < total * OUTPUT
  {
    var q := total * OUTPUT / rate;
    DivMod(total * OUTPUT, rate);
    MulOrder(n, q, rate);
    MulOrder(q, n, rate);
    if n == q {
      assert n * rate == q * rate;
    }
  }

  lemma DurationBounds(n: nat, rate: nat, total: nat)
    requires rate > 0
    ensures n < Duration(rate, total) <==> n * rate < total * OUTPUT
    ensures n < Duration(rate, total) ==> n * rate / OUTPUT < total
  {
    hide Duration;
    DurationLeast(n, rate, total);
    DivMod(n * rate, OUTPUT);
    MulOrder(total, n * rate / OUTPUT, OUTPUT);
  }

  /** Draining keeps exact phase until the end. */
  lemma {:induction false} DrainExact(p: Position, rate: nat, total: nat)
    requires rate > 0 && p.source < total && p.source * OUTPUT + p.phase == p.output * rate
    ensures var q := Drain(p, total);
            q.source * OUTPUT + q.phase == p.output * rate && (q.source < total ==> q.phase < OUTPUT)
    decreases total - p.source
  {
    if p.phase >= OUTPUT {
      var q := p.(source := p.source + 1, phase := p.phase - OUTPUT);
      assert q.source * OUTPUT == p.source * OUTPUT + OUTPUT;
      if q.source < total {
        DrainExact(q, rate, total);
      }
    }
  }

  lemma AdvancePlaced(p: Position, rate: nat, total: nat)
    requires rate > 0 && Placed(p, rate, total)
    ensures Placed(Advance(p, rate, total), rate, total)
  {
    if p.source < total {
      var next := Position(p.source, p.phase + rate, p.output + 1);
      assert (p.output + 1) * rate == p.output * rate + rate;
      DrainExact(next, rate, total);
      var q := Drain(next, total);
      DurationBounds(p.output, rate, total);
      DurationBounds(p.output + 1, rate, total);
      MulOrder(p.source + 1, total, OUTPUT);
      assert (p.source + 1) * OUTPUT == p.source * OUTPUT + OUTPUT;
    }
  }

  lemma StartPlaced(rate: nat, total: nat)
    requires rate > 0
    ensures Placed(START, rate, total)
  {
    DurationBounds(0, rate, total);
  }

  /** Playback makes exactly `Duration` frames, and frame `n` is source frame `n * rate / 48000`: no drift. */
  lemma {:induction false} PlaybackIsExact(n: nat, rate: nat, total: nat)
    requires rate > 0
    ensures n < Duration(rate, total) ==>
              Playback(n, rate, total) == Position(n * rate / OUTPUT, n * rate % OUTPUT, n) && n * rate / OUTPUT < total
    ensures n >= Duration(rate, total) ==>
              Playback(n, rate, total).source == total && Playback(n, rate, total).output == Duration(rate, total)
    ensures Placed(Playback(n, rate, total), rate, total)
  {
    DurationBounds(n, rate, total);
    if n == 0 {
      StartPlaced(rate, total);
    } else {
      PlaybackIsExact(n - 1, rate, total);
      AdvancePlaced(Playback(n - 1, rate, total), rate, total);
      PlacedAt(Playback(n, rate, total), rate, total);
    }
  }

  /** A placed position is determined by its output count, as far as anybody can hear. */
  lemma PlacedAt(p: Position, rate: nat, total: nat)
    requires rate > 0 && Placed(p, rate, total)
    ensures p.source < total <==> p.output < Duration(rate, total)
    ensures p.source < total ==> p == Position(p.output * rate / OUTPUT, p.output * rate % OUTPUT, p.output)
  {
    DurationBounds(p.output, rate, total);
    if p.source < total {
      DivUnique(p.output * rate, OUTPUT, p.source, p.phase);
      MulOrder(p.source + 1, total, OUTPUT);
      assert (p.source + 1) * OUTPUT == p.source * OUTPUT + OUTPUT;
    }
  }

  /** What a seek computes (lines 108-121). */
  function Target(position: nat, rate: nat, total: nat): Position
    requires rate > 0
  {
    var n := if position > Duration(rate, total) then Duration(rate, total) else position;
    var source := if n == Duration(rate, total) then total else n / OUTPUT * rate + n % OUTPUT * rate / OUTPUT;
    Position(source, n % OUTPUT * rate % OUTPUT, n)
  }

  lemma SplitRemainder(n: nat, rate: nat)
    ensures n % OUTPUT * rate % OUTPUT == n * rate % OUTPUT
  {
    var q, r := n / OUTPUT, n % OUTPUT;
    DivMod(n, OUTPUT);
    DivMod(r * rate, OUTPUT);
    assert n * rate == q * OUTPUT * rate + r * rate;
    assert q * OUTPUT * rate == q * rate * OUTPUT;
    var s, t := r * rate / OUTPUT, r * rate % OUTPUT;
    assert n * rate == (q * rate + s) * OUTPUT + t;
    DivUnique(n * rate, OUTPUT, q * rate + s, t);
  }

  /** A seek puts the stream where that many frames of sequential playback would; at the end, at the end. */
  lemma SeekIsPlayback(position: nat, rate: nat, total: nat)
    requires rate > 0
    ensures var t, s := Target(position, rate, total), Playback(position, rate, total);
            && Placed(t, rate, total)
            && t.source == s.source && t.output == s.output
            && (t.source < total ==> t == s)
  {
    var d := Duration(rate, total);
    PlaybackIsExact(position, rate, total);
    var n := if position > d then d else position;
    SplitProduct(n, rate);
    SplitRemainder(n, rate);
    DurationBounds(n, rate, total);
    if n < d {
      DivMod(n * rate, OUTPUT);
    }
  }

  /** The 64-bit products do not wrap for the files the stream opens. */
  lemma SeekArithmeticFits(n: nat, rate: nat, total: nat)
    requires 0 < rate <= MAX_RATE && total <= UINT64_MAX / OUTPUT && n <= Duration(rate, total)
    ensures total * OUTPUT <= UINT64_MAX && n % OUTPUT * rate <= UINT64_MAX
    ensures n < Duration(rate, total) ==> n / OUTPUT * rate + n % OUTPUT * rate / OUTPUT <= UINT64_MAX
  {
    DivMod(UINT64_MAX, OUTPUT);
    MulOrder(total, UINT64_MAX / OUTPUT, OUTPUT);
    MulOrder(n % OUTPUT, OUTPUT, rate);
    SplitProduct(n, rate);
    DurationBounds(n, rate, total);
  }

  // ---------------------------------------------------------------- the code

  /** One looped output frame: the end stands for the start, before and after. */
  function LoopAdvance(p: Position, rate: nat, total: nat): Position {
    var next := Advance(if p.source == total then START else p, rate, total);
    if next.source == total then START else next
  }

  class Stream {
    const rate: nat
    /** Source frames in the file. */
    const total: nat
    /** The decoded source frames, by index. */
    const pcm: nat -> int
    /** How many frames a read from a source position yields; none for a damaged place. */
    const chunk: nat -> nat
    /** How many holes the library reports when reading on at a source frame. */
    const holes: nat -> nat
    /** Whether the library can seek to a source position. */
    const seekable: nat -> bool

    var decoded: nat
    var count: nat
    var index: nat
    var phase: nat
    var position: nat
    var failed: bool

    ghost function Where(): Position
      reads this
    {
      Position(if decoded + index >= count then decoded + index - count else 0, phase, position)
    }

    predicate Buffered()
      reads this
    {
      0 < rate <= MAX_RATE && index <= count <= decoded <= total
    }

    ghost predicate Valid()
      reads this
    {
      Buffered() && (!failed ==> Placed(Where(), rate, total))
    }

    constructor (rate: nat, total: nat, pcm: nat -> int, chunk: nat -> nat, holes: nat -> nat, seekable: nat -> bool)
      requires 0 < rate <= MAX_RATE
      ensures Valid() && Where() == START && !failed && this.rate == rate && this.total == total
      ensures this.pcm == pcm && this.chunk == chunk && this.holes == holes && this.seekable == seekable
    {
      this.rate, this.total, this.pcm, this.chunk := rate, total, pcm, chunk;
      this.holes, this.seekable := holes, seekable;
      decoded, count, index, phase, position, failed := 0, 0, 0, 0, 0, false;
      StartPlaced(rate, total);
    }

    /** `__seek_vorbis`. */
    method SeekVorbis(frames: nat) returns (ok: bool)
      requires 0 < rate <= MAX_RATE
      modifies this
      ensures ok <==> seekable(Target(frames, rate, total).source)
      ensures ok ==> Valid() && !failed && Where() == Target(frames, rate, total) && count == 0
      ensures !ok ==> unchanged(this)
    {
      SeekIsPlayback(frames, rate, total);
      var duration := Duration(rate, total);
      var n := if frames > duration then duration else frames;
      var source := if n == duration then total else n / OUTPUT * rate + n % OUTPUT * rate / OUTPUT;
      if !seekable(source) {
        return false;
      }
      decoded := source;
      phase := n % OUTPUT * rate % OUTPUT;
      position := n;
      index, count := 0, 0;
      failed := false;
      ok := true;
    }

    /** `vita_audio_stream_seek_frames`: a failed seek goes back to where the stream was, or fails it. */
    method SeekFrames(frames: nat) returns (ok: bool)
      requires Valid()
      modifies this
      ensures Valid()
      ensures ok <==> seekable(Target(frames, rate, total).source)
      ensures ok ==> !failed && Where() == Target(frames, rate, total)
      ensures !ok && !failed && !old(failed) ==>
                Where().source == old(Where()).source && Where().output == old(Where()).output &&
                (Where().source < total ==> Where() == old(Where()))
    {
      var previous := position;
      ok := SeekVorbis(frames);
      if ok {
        return;
      }
      if !failed {
        PlacedAt(Where(), rate, total);
        SplitProduct(previous, rate);
        SplitRemainder(previous, rate);
      }
      var restored := SeekVorbis(previous);
      if !restored {
        failed := true;
      }
    }

    /** A place where the library reports more holes than are tolerated, or an invalid amount of data. */
    predicate Broken(at: nat)
      reads this
    {
      holes(at) > MAX_HOLES || (at < total && (chunk(at) == 0 || chunk(at) > total - at))
    }

    /** `__ensure_vorbis`: a decoded frame under the cursor. Without looping it never moves the position. It fails only
        at a broken place, or at holes on both sides of a wrap. */
    method Ensure(loop: bool) returns (ok: bool)
      requires Buffered() && !failed
      modifies this
      ensures Buffered() && (ok ==> !failed && index < count && Where().source < total)
      ensures failed ==> !ok
      ensures ok ==> Where() == if loop && old(Where()).source == total then START else old(Where())
      ensures !ok && !failed ==> old(Where()).source == total
      ensures !ok && !failed && (total > 0 || !loop) ==> Where() == old(Where())
      ensures !ok && !failed ==> Where() == old(Where()) || Where() == START
      ensures !ok && !failed && loop ==> total == 0 || !seekable(0)
      ensures failed ==>
                && old(index >= count)
                && (Broken(decoded) || (loop && decoded == 0 && holes(0) + holes(total) > MAX_HOLES))
    {
      var resets, seen := 0, 0;
      while index >= count
        invariant Buffered() && !failed && 0 <= resets <= 1
        invariant resets == 0 ==> Where() == old(Where()) && seen == 0
        invariant resets == 1 ==> seen == holes(total) && decoded == 0
        invariant resets == 1 ==> loop && old(Where()).source == total && Where() == START
        decreases if index < count then 0 else 2 - resets
      {
        seen := seen + holes(decoded);
        if seen > MAX_HOLES {
          failed := true;
          return false;
        }
        if decoded < total {
          var n := chunk(decoded);
          if n == 0 || n > total - decoded {
            failed := true;
            return false;
          }
          decoded := decoded + n;
          count, index := n, 0;
          return true;
        }
        if !loop || resets > 0 {
          return false;
        }
        StartPlaced(rate, total);
        DurationBounds(0, rate, total);
        var back := SeekVorbis(0);
        if !back {
          return false;
        }
        resets := 1;
      }
      ok := true;
    }

    /** `vita_audio_stream_next_sample`. A damaged place ends the stream after the frame before it. */
    method NextSample(loop: bool) returns (ok: bool, sample: int)
      requires Valid()
      modifies this
      ensures Valid()
      ensures old(failed) ==> !ok && unchanged(this)
      ensures !loop && !failed ==>
                (ok <==> old(Where()).source < total) && Where() == Advance(old(Where()), rate, total)
      ensures !loop && ok ==> sample == pcm(old(Where()).source)
      ensures loop && !failed && seekable(0) && total > 0 ==> ok && Where() == LoopAdvance(old(Where()), rate, total)
      ensures loop && ok && old(Where()).source == total ==> sample == pcm(0)
      ensures loop && ok && old(Where()).source < total ==> sample == pcm(old(Where()).source)
    {
      if failed {
        return false, 0;
      }
      ghost var start := Where();
      var ready := Ensure(loop);
      if !ready {
        return false, 0;
      }
      sample := pcm(decoded - count + index);
      ghost var from := Where();
      AdvancePlaced(from, rate, total);
      position := position + 1;
      phase := phase + rate;
      PassFrames(loop, from);
      ok := true;
    }

    /** Lines 214-222: pass the source frames the phase covers, reading on as needed. */
    method PassFrames(loop: bool, ghost from: Position)
      requires Buffered() && index < count && !failed
      requires from.source < total && Placed(from, rate, total)
      requires Where() == Position(from.source, from.phase + rate, from.output + 1)
      modifies this
      ensures Valid()
      ensures !failed && !loop ==> Where() == Advance(from, rate, total)
      ensures !failed && loop && seekable(0) ==>
                Where() == if Advance(from, rate, total).source == total then START else Advance(from, rate, total)
    {
      AdvancePlaced(from, rate, total);
      StartPlaced(rate, total);
      ghost var goal := Advance(from, rate, total);
      hide Placed, Duration;
      while phase >= OUTPUT
        invariant Buffered() && index < count && !failed
        invariant Drain(Where(), total) == goal || (loop && goal.source == total && Where() == START)
        decreases if Where() == START then 0 else 1, total - (decoded - count + index)
      {
        phase := phase - OUTPUT;
        index := index + 1;
        var more := Ensure(loop);
        if !more {
          return;
        }
      }
    }
  }
}
