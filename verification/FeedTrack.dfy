/** The abstract decoder behind an audio feed and the blocks cut from its output
    (src/bridges/audio/feed.c:21-27, 88-110, 422-467). */
module FeedTrack {
  import opened Common

  const FRAMES := 1024
  const BLOCKS := 16
  const PRIME := 4

  /** One stereo output frame. */
  type Pcm = (int, int)

  /** A deterministic decoder, known by its position: the frame it emits there, the position
      after that frame (none at the end of the stream), and where a seek to a target lands. */
  datatype Track = Track(pcm: (nat, bool) -> Pcm, step: (nat, bool) -> Option<nat>, land: nat -> nat)

  /** Positions rise by one or fall (a loop of at least two frames), and a position the decoder
      has reported is sought exactly. */
  ghost predicate Sound(t: Track) {
    && (forall p: nat, l :: t.step(p, l).Some? ==> t.step(p, l).value == p + 1 || t.step(p, l).value < p)
    && (forall p: nat, l :: t.step(p, l).Some? ==> t.land(t.step(p, l).value) == t.step(p, l).value)
    && (forall p: nat :: t.land(t.land(p)) == t.land(p))
    && t.land(0) == 0
  }

  /** The decoder's position after `n` frames from `p`, if the stream lasts that long. */
  function After(t: Track, p: nat, loop: bool, n: nat): Option<nat> {
    if n == 0 then Some(p)
    else
      var before := After(t, p, loop, n - 1);
      if before.None? then None else t.step(before.value, loop)
  }

  /** The frames emitted meanwhile. */
  function Frames(t: Track, p: nat, loop: bool, n: nat): (s: seq<Pcm>)
    requires After(t, p, loop, n).Some?
    ensures |s| == n
  {
    if n == 0 then [] else Frames(t, p, loop, n - 1) + [t.pcm(After(t, p, loop, n - 1).value, loop)]
  }

  /** Decoding `a` frames and then `b` is decoding `a + b`. */
  lemma {:induction false} AfterAdd(t: Track, p: nat, loop: bool, a: nat, b: nat)
    requires After(t, p, loop, a).Some?
    ensures After(t, p, loop, a + b) == After(t, After(t, p, loop, a).value, loop, b)
    ensures After(t, p, loop, a + b).Some? ==>
              Frames(t, p, loop, a + b) == Frames(t, p, loop, a) + Frames(t, After(t, p, loop, a).value, loop, b)
  {
    if b > 0 {
      AfterAdd(t, p, loop, a, b - 1);
      assert a + b - 1 == a + (b - 1);
    }
  }

  lemma {:induction false} AfterEarlier(t: Track, p: nat, loop: bool, k: nat, n: nat)
    requires k <= n && After(t, p, loop, n).Some?
    ensures After(t, p, loop, k).Some?
    ensures Frames(t, p, loop, k) == Frames(t, p, loop, n)[..k]
    decreases n - k
  {
    if k < n {
      AfterEarlier(t, p, loop, k, n - 1);
    }
  }

  /** Consecutive frames of the output are one stretch of it. */
  lemma {:induction false} FramesSlice(t: Track, p: nat, loop: bool, k: nat, n: nat)
    requires k <= n && After(t, p, loop, n).Some?
    ensures After(t, p, loop, k).Some?
    ensures var q := After(t, p, loop, k).value;
            After(t, q, loop, n - k) == After(t, p, loop, n) &&
            Frames(t, q, loop, n - k) == Frames(t, p, loop, n)[k..]
  {
    AfterEarlier(t, p, loop, k, n);
    AfterAdd(t, p, loop, k, n - k);
  }

  // ---------------------------------------------------------------- blocks

  datatype Block = Block(start: nat, end: nat, pcm: seq<Pcm>, ended: bool)

  /** A block holds output from `start` and ends where the decoder stood after its last frame;
      inside it positions rise by one, so only its end can be a wrap. */
  ghost predicate BlockOf(t: Track, loop: bool, b: Block) {
    && After(t, b.start, loop, |b.pcm|) == Some(b.end)
    && b.pcm == Frames(t, b.start, loop, |b.pcm|)
    && forall k :: 0 <= k < |b.pcm| ==> After(t, b.start, loop, k) == Some(b.start + k)
  }

  /** What `__decode` leaves: a block of output, as long as possible, and the end flag. */
  ghost predicate Decoded(t: Track, loop: bool, p: nat, b: Block) {
    && b.start == p && |b.pcm| <= FRAMES && BlockOf(t, loop, b)
    && (b.ended ==> t.step(b.end, loop).None?)
    && (b.ended || |b.pcm| == FRAMES || b.end < p + |b.pcm|)
  }

  lemma ExtendBlock(t: Track, loop: bool, b: Block)
    requires BlockOf(t, loop, b) && b.end == b.start + |b.pcm| && t.step(b.end, loop).Some?
    ensures BlockOf(t, loop, b.(pcm := b.pcm + [t.pcm(b.end, loop)], end := t.step(b.end, loop).value))
  {
    var n := |b.pcm| + 1;
    assert n - 1 == |b.pcm|;
    assert After(t, b.start, loop, n) == t.step(b.end, loop);
    assert Frames(t, b.start, loop, n) == b.pcm + [t.pcm(b.end, loop)];
  }

  /** What the loop of `__decode` makes of a block, for any decoder. */
  function Filled(t: Track, loop: bool, b: Block): Block
    decreases FRAMES - |b.pcm|
  {
    if |b.pcm| >= FRAMES then b
    else
      var next := t.step(b.end, loop);
      if next.None? then b.(ended := true)
      else
        var longer := b.(pcm := b.pcm + [t.pcm(b.end, loop)], end := next.value);
        if next.value < b.end then longer else Filled(t, loop, longer)
  }

  function DecodedAt(t: Track, loop: bool, p: nat): Block {
    Filled(t, loop, Block(p, p, [], false))
  }

  /** `__decode`: fill one block, stopping at the end of the stream or at a falling position. */
  method Decode(t: Track, p: nat, loop: bool) returns (b: Block)
    ensures b == DecodedAt(t, loop, p)
    ensures Sound(t) ==> Decoded(t, loop, p, b)
  {
    b := Block(p, p, [], false);
    var frame := 0;
    while frame < FRAMES
      invariant 0 <= frame <= FRAMES && |b.pcm| == frame
      invariant DecodedAt(t, loop, p) == Filled(t, loop, b)
    {
      var next := t.step(b.end, loop);
      if next.None? {
        b := b.(ended := true);
        break;
      }
      var wrapped := next.value < b.end;
      b := b.(pcm := b.pcm + [t.pcm(b.end, loop)], end := next.value);
      if wrapped {
        break;
      }
      frame := frame + 1;
    }
    if Sound(t) {
      FilledIsOutput(t, loop, Block(p, p, [], false));
    }
  }

  /** Of a decoder whose wraps can be seen, the loop makes a block of its output. */
  lemma {:induction false} FilledIsOutput(t: Track, loop: bool, b: Block)
    requires Sound(t) && BlockOf(t, loop, b) && !b.ended && |b.pcm| <= FRAMES && b.end == b.start + |b.pcm|
    ensures Decoded(t, loop, b.start, Filled(t, loop, b))
    decreases FRAMES - |b.pcm|
  {
    if |b.pcm| < FRAMES && t.step(b.end, loop).Some? {
      ExtendBlock(t, loop, b);
      var longer := b.(pcm := b.pcm + [t.pcm(b.end, loop)], end := t.step(b.end, loop).value);
      if longer.end >= b.end {
        FilledIsOutput(t, loop, longer);
      }
    }
  }

  // ---------------------------------------------------------------- the consumer's side

  /** The queue of blocks, how many frames of its head were consumed, and the position
      reported to clients. */
  datatype Consumer = Consumer(queue: seq<Block>, offset: nat, position: nat)

  /** The queue continues the output from `p` up to position `tail` without a gap. */
  ghost predicate Chain(t: Track, loop: bool, p: nat, queue: seq<Block>, tail: nat)
    decreases |queue|
  {
    if queue == [] then p == tail
    else
      && queue[0].start == p && queue[0].pcm != [] && BlockOf(t, loop, queue[0])
      && Chain(t, loop, queue[0].end, queue[1..], tail)
  }

  /** The consumer is ready to go on from its reported position, with output up to `tail`. */
  ghost predicate Ready(t: Track, loop: bool, c: Consumer, tail: nat) {
    if c.queue == [] then c.offset == 0 && c.position == tail
    else
      && c.offset < |c.queue[0].pcm|
      && c.position == c.queue[0].start + c.offset
      && Chain(t, loop, c.queue[0].start, c.queue, tail)
  }

  lemma {:induction false} ChainAppend(t: Track, loop: bool, p: nat, queue: seq<Block>, b: Block)
    requires Chain(t, loop, p, queue, b.start) && b.pcm != [] && BlockOf(t, loop, b)
    ensures Chain(t, loop, p, queue + [b], b.end)
    decreases |queue|
  {
    if queue == [] {
      assert (queue + [b])[1..] == [];
    } else {
      ChainAppend(t, loop, queue[0].end, queue[1..], b);
      assert (queue + [b])[1..] == queue[1..] + [b];
    }
  }

  /** Queueing the next block of output keeps the consumer ready, whatever it has consumed. */
  lemma {:induction false} PushReady(t: Track, loop: bool, c: Consumer, b: Block)
    requires Ready(t, loop, c, b.start) && b.pcm != [] && BlockOf(t, loop, b)
    ensures Ready(t, loop, c.(queue := c.queue + [b]), b.end)
  {
    if c.queue == [] {
      assert Chain(t, loop, b.start, [b], b.end);
      assert c.queue + [b] == [b];
    } else {
      ChainAppend(t, loop, c.queue[0].start, c.queue, b);
    }
  }

  function Least(a: nat, b: nat): nat {
    if a < b then a else b
  }

  /** One turn of the copying loop at lines 441-458. */
  function CopyBlock(c: Consumer, want: nat): (r: (Consumer, seq<Pcm>))
    requires c.queue != [] && c.offset <= |c.queue[0].pcm|
  {
    var b := c.queue[0];
    var offset := c.offset + Least(|b.pcm| - c.offset, want);
    var next :=
      if offset == |b.pcm| then Consumer(c.queue[1..], 0, b.end)
      else Consumer(c.queue, offset, b.start + offset);
    (next, b.pcm[c.offset..offset])
  }

  predicate Fits(c: Consumer) {
    c.queue != [] ==> c.offset <= |c.queue[0].pcm|
  }

  /** All of `audio_feed_read`'s copying. */
  function Read(c: Consumer, want: nat): (r: (Consumer, seq<Pcm>))
    requires Fits(c)
    decreases |c.queue| + want
  {
    if want == 0 || c.queue == [] then (c, [])
    else
      var (next, copied) := CopyBlock(c, want);
      var (last, rest) := Read(next, want - |copied|);
      (last, copied + rest)
  }

  function Waiting(queue: seq<Block>): nat {
    if queue == [] then 0 else |queue[0].pcm| + Waiting(queue[1..])
  }

  /** Frames ready to be read. */
  function Available(c: Consumer): int {
    Waiting(c.queue) - c.offset
  }

  /** A read takes the output that follows the reported position, as much as is asked for and
      ready, and the position moves to where the decoder stood after the last frame taken. */
  lemma {:induction false} ReadContinues(t: Track, loop: bool, c: Consumer, want: nat, tail: nat)
    requires Ready(t, loop, c, tail)
    ensures var (next, out) := Read(c, want);
            && Ready(t, loop, next, tail)
            && |out| == (if want < Available(c) then want else Available(c))
            && |next.queue| <= |c.queue|
            && After(t, c.position, loop, |out|) == Some(next.position)
            && out == Frames(t, c.position, loop, |out|)
    decreases |c.queue| + want
  {
    hide Chain, BlockOf, CopyBlock, Waiting;
    if c.queue == [] {
      NothingWaits(c.queue);
    } else if want == 0 {
      SomethingWaits(t, loop, c, tail);
    } else {
      var (mid, copied) := CopyBlock(c, want);
      CopyContinues(t, loop, c, want, tail);
      ReadContinues(t, loop, mid, want - |copied|, tail);
      AfterAdd(t, c.position, loop, |copied|, |Read(mid, want - |copied|).1|);
    }
  }

  lemma NothingWaits(queue: seq<Block>)
    requires queue == []
    ensures Waiting(queue) == 0
  {
  }

  lemma SomethingWaits(t: Track, loop: bool, c: Consumer, tail: nat)
    requires Ready(t, loop, c, tail) && c.queue != []
    ensures Available(c) > 0
  {
  }

  lemma {:induction false} CopyContinues(t: Track, loop: bool, c: Consumer, want: nat, tail: nat)
    requires Ready(t, loop, c, tail) && c.queue != [] && want > 0
    ensures var (mid, copied) := CopyBlock(c, want);
            && Ready(t, loop, mid, tail) && 0 < |copied| <= want
            && |mid.queue| <= |c.queue|
            && Available(mid) == Available(c) - |copied| && (|copied| < want ==> |mid.queue| < |c.queue|)
            && After(t, c.position, loop, |copied|) == Some(mid.position)
            && copied == Frames(t, c.position, loop, |copied|)
  {
    var (mid, copied) := CopyBlock(c, want);
    var b := c.queue[0];
    var offset := c.offset + |copied|;
    FramesSlice(t, b.start, loop, c.offset, |b.pcm|);
    AfterEarlier(t, c.position, loop, |copied|, |b.pcm| - c.offset);
    AfterAdd(t, b.start, loop, c.offset, |copied|);
    if offset == |b.pcm| {
      assert Chain(t, loop, b.end, c.queue[1..], tail);
    }
  }
}
