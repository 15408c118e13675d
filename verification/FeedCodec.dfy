/** The decoders behind the feed (src/bridges/audio/mp3.c:362-382, 479-515 and
    src/bridges/audio/stream.c:126-146, 195-223): what an undamaged file of each codec is to the feed,
    and exactly which files the feed's wrap test serves. */
module FeedCodec {
  import opened Common
  import opened FeedTrack
  import opened Mp3Position
  import Mp3
  import Vorbis

  /** The position after one frame from `p` of a file that makes `duration` frames; a looped file is back at 0
      after its last frame. */
  function StepOf(duration: nat, p: nat, loop: bool): Option<nat> {
    var from := if loop && p >= duration then 0 else p;
    if from >= duration then None
    else if loop && from + 1 == duration then Some(0)
    else Some(from + 1)
  }

  function SourceAt(n: nat, rate: nat): nat {
    n * rate / OUTPUT
  }

  /** The output frame of a file that stands at a position. */
  function FrameAt(rate: nat, total: nat, pcm: nat -> Pcm, p: nat, loop: bool): Pcm
    requires rate > 0
  {
    pcm(SourceAt(if loop && p >= Vorbis.Duration(rate, total) then 0 else p, rate))
  }

  /** A file of `total` source frames at `rate`, as the feed's decoder. */
  function TrackOf(rate: nat, total: nat, pcm: nat -> Pcm): Track
    requires rate > 0
  {
    Track((p: nat, loop: bool) => FrameAt(rate, total, pcm, p, loop),
          (p: nat, loop: bool) => StepOf(Vorbis.Duration(rate, total), p, loop),
          (p: nat) => Least(p, Vorbis.Duration(rate, total)))
  }

  /** The file makes exactly one output frame. */
  predicate OneFrame(rate: nat, total: nat) {
    0 < total * OUTPUT <= rate
  }

  lemma OneFrameDuration(rate: nat, total: nat)
    requires rate > 0
    ensures OneFrame(rate, total) <==> Vorbis.Duration(rate, total) == 1
  {
    Vorbis.DurationBounds(0, rate, total);
    Vorbis.DurationBounds(1, rate, total);
  }

  // ---------------------------------------------------------------- both codecs are such decoders

  /** The frame a call emits and the position it leaves, by the contract of `Vorbis.Stream.NextSample`. */
  lemma VorbisIsTrack(p: Position, rate: nat, total: nat, pcm: nat -> Pcm, loop: bool)
    requires rate > 0 && Vorbis.Placed(p, rate, total)
    ensures var t := TrackOf(rate, total, pcm);
            var from := if loop && p.source == total then START else p;
            var next := if loop then Vorbis.LoopAdvance(p, rate, total) else Vorbis.Advance(p, rate, total);
            && (t.step(p.output, loop).Some? <==> from.source < total)
            && (from.source < total ==>
                   t.step(p.output, loop) == Some(next.output) && t.pcm(p.output, loop) == pcm(from.source))
  {
    var from := if loop && p.source == total then START else p;
    Vorbis.PlacedAt(p, rate, total);
    Vorbis.StartPlaced(rate, total);
    Vorbis.PlacedAt(from, rate, total);
    Vorbis.AdvancePlaced(from, rate, total);
    Vorbis.PlacedAt(Vorbis.Advance(from, rate, total), rate, total);
    assert 0 * rate / OUTPUT == 0;
  }

  /** A seek lands where `Vorbis.Stream.SeekFrames` does. */
  lemma VorbisSeekIsLand(n: nat, rate: nat, total: nat, pcm: nat -> Pcm)
    requires rate > 0
    ensures TrackOf(rate, total, pcm).land(n) == Vorbis.Target(n, rate, total).output
  {
  }

  /** The two resamplers agree up to 48000. */
  lemma OnTrackPlaced(p: Position, rate: nat, total: nat)
    requires 0 < rate <= OUTPUT && OnTrack(p, rate, total)
    ensures Vorbis.Placed(p, rate, total)
    ensures Step(p, rate, total) == Vorbis.Advance(p, rate, total)
  {
    if p.source == total {
      Vorbis.DurationLeast(p.output, rate, total);
      if p.output > 0 {
        assert (p.output - 1) * rate == p.output * rate - rate;
        Vorbis.DurationLeast(p.output - 1, rate, total);
      }
    } else {
      if p.phase + rate >= OUTPUT && p.source + 1 < total {
        var r := Position(p.source + 1, p.phase + rate - OUTPUT, p.output + 1);
        assert Vorbis.Drain(r, total) == r;
      }
    }
  }

  /** The frame a call emits and the position it leaves, by the contract of `Mp3.Stream.NextSample`. */
  lemma Mp3IsTrack(p: Position, rate: nat, total: nat, pcm: nat -> Pcm, loop: bool)
    requires 0 < rate <= OUTPUT && OnTrack(p, rate, total)
    ensures var t := TrackOf(rate, total, pcm);
            var from := if loop && p.source == total then START else p;
            var next := if loop then LoopStep(p, rate, total) else Step(p, rate, total);
            && (t.step(p.output, loop).Some? <==> from.source < total)
            && (from.source < total ==>
                   t.step(p.output, loop) == Some(next.output) && t.pcm(p.output, loop) == pcm(from.source))
  {
    var from := if loop && p.source == total then START else p;
    OnTrackPlaced(p, rate, total);
    OnTrackPlaced(START, rate, total);
    VorbisIsTrack(p, rate, total, pcm, loop);
  }

  /** Where sequential playback gets is where a seek lands. */
  lemma Mp3SeekIsLand(n: nat, rate: nat, total: nat, pcm: nat -> Pcm)
    requires 0 < rate <= OUTPUT
    ensures TrackOf(rate, total, pcm).land(n) == Sequential(n, rate, total).output
  {
    SequentialOnTrack(n, rate, total);
    var p := Sequential(n, rate, total);
    OnTrackPlaced(p, rate, total);
    Vorbis.PlacedAt(p, rate, total);
  }

  /** The seek itself: one that answers true lands there if it leaps, or in a whole file whose seeks were not denied. */
  method Mp3SeekLands(s: Mp3.Stream, n: nat, memory: nat, ghost pcm: nat -> Pcm) returns (ok: bool)
    requires s.Valid() && s.index.Valid() && s.cache.Valid() && (s.lost ==> s.denied)
    modifies s, s.index, s.cache`next, s.cache.rows
    ensures s.Valid() && s.index.Valid() && s.cache.Valid() && (s.lost ==> s.denied)
    ensures ok && (old(s.Leaps(n)) || (s.Whole() && !old(s.denied))) ==>
              s.output == TrackOf(s.reel.rate, s.reel.Total(), pcm).land(n)
  {
    ok := s.SeekFrames(n, memory);
    Mp3SeekIsLand(n, s.reel.rate, s.reel.Total(), pcm);
  }

  // ---------------------------------------------------------------- which files the feed serves

  /** What the feed assumes of its decoder holds of a file exactly when it does not make one frame only. */
  lemma SoundExactly(rate: nat, total: nat, pcm: nat -> Pcm)
    requires rate > 0
    ensures Sound(TrackOf(rate, total, pcm)) <==> !OneFrame(rate, total)
  {
    OneFrameDuration(rate, total);
    var t := TrackOf(rate, total, pcm);
    if OneFrame(rate, total) {
      assert t.step(0, true) == Some(0);
    }
  }

  /** The feed's own loop makes blocks of output, at every position and in both modes. */
  ghost predicate BlocksAreOutput(t: Track) {
    forall p: nat, loop :: BlockOf(t, loop, DecodedAt(t, loop, p))
  }

  lemma {:induction false} OneFrameFills(t: Track, b: Block)
    requires t.step(0, true) == Some(0) && b.start == b.end == 0 && !b.ended && |b.pcm| <= FRAMES
    ensures |Filled(t, true, b).pcm| == FRAMES && Filled(t, true, b).start == Filled(t, true, b).end == 0
    ensures b.pcm <= Filled(t, true, b).pcm && !Filled(t, true, b).ended
    decreases FRAMES - |b.pcm|
  {
    if |b.pcm| < FRAMES {
      OneFrameFills(t, b.(pcm := b.pcm + [t.pcm(0, true)]));
    }
  }

  /** At a looped file of one output frame the feed goes wrong: `__decode` sees no wrap and fills a whole block, and
      a reader that has taken `n` of its frames is told position `n`, where the decoder always stands at 0. */
  lemma OneFrameMisreports(rate: nat, total: nat, pcm: nat -> Pcm, n: nat)
    requires rate > 0 && OneFrame(rate, total) && 0 < n < FRAMES
    ensures var t := TrackOf(rate, total, pcm); var b := DecodedAt(t, true, 0);
            && |b.pcm| == FRAMES && b.start == 0
            && Read(Consumer([b], 0, 0), n).0.position == n
            && After(t, 0, true, n) == Some(0)
            && !BlockOf(t, true, b)
  {
    var t := TrackOf(rate, total, pcm);
    OneFrameDuration(rate, total);
    OneFrameFills(t, Block(0, 0, [], false));
    var b := DecodedAt(t, true, 0);
    var (next, copied) := CopyBlock(Consumer([b], 0, 0), n);
    assert next == Consumer([b], n, n) && |copied| == n;
    assert Read(next, 0) == (next, []);
    StaysAtZero(t, n);
    StaysAtZero(t, 1);
  }

  lemma {:induction false} StaysAtZero(t: Track, n: nat)
    requires t.step(0, true) == Some(0)
    ensures After(t, 0, true, n) == Some(0)
  {
    if n > 0 {
      StaysAtZero(t, n - 1);
    }
  }

  /** The blocks the feed queues are the decoder's output exactly for files that do not make one frame only. */
  lemma FeedServesExactly(rate: nat, total: nat, pcm: nat -> Pcm)
    requires rate > 0
    ensures BlocksAreOutput(TrackOf(rate, total, pcm)) <==> !OneFrame(rate, total)
  {
    var t := TrackOf(rate, total, pcm);
    SoundExactly(rate, total, pcm);
    if OneFrame(rate, total) {
      OneFrameMisreports(rate, total, pcm, 1);
    } else {
      forall p: nat, loop
        ensures BlockOf(t, loop, DecodedAt(t, loop, p))
      {
        FilledIsOutput(t, loop, Block(p, p, [], false));
      }
    }
  }
}
