/** The feed's ring of blocks as the source keeps it: a fixed array, `head`, `count`, `offset`
    and `position` (src/bridges/audio/feed.c:52-58, 132-136, 194-199, 441-458). */
module FeedRing {
  import opened Common
  import opened FeedTrack

  /** The array index of the `k`th queued block. */
  function Slot(head: nat, k: nat): (i: nat)
    ensures i < BLOCKS
  {
    (head + k) % BLOCKS
  }

  class Ring {
    const blocks: array<Block>
    var head: nat
    var count: nat
    var offset: nat
    var position: nat

    ghost predicate Valid()
      reads this, blocks
    {
      && blocks.Length == BLOCKS && head < BLOCKS && count <= BLOCKS
      && (count == 0 ==> offset == 0)
      && Fits(Value())
    }

    ghost function Queue(): (q: seq<Block>)
      reads this, blocks
      requires blocks.Length == BLOCKS
      ensures |q| == count
    {
      seq(count, k requires 0 <= k < count reads this, blocks requires blocks.Length == BLOCKS => blocks[Slot(head, k)])
    }

    ghost function Value(): Consumer
      reads this, blocks
      requires blocks.Length == BLOCKS
    {
      Consumer(Queue(), offset, position)
    }

    constructor ()
      ensures Valid() && fresh(blocks) && Value() == Consumer([], 0, 0)
    {
      blocks := new Block[BLOCKS](_ => Block(0, 0, [], false));
      head, count, offset, position := 0, 0, 0, 0;
    }

    /** Lines 132-136: store a block behind the queued ones. */
    method Push(block: Block)
      requires Valid() && count < BLOCKS
      modifies this`count, blocks
      ensures Valid() && Value() == old(Value()).(queue := old(Queue()) + [block])
    {
      var tail := (head + count) % BLOCKS;
      SlotsDiffer(head, count);
      blocks[tail] := block;
      count := count + 1;
      assert Queue() == old(Queue()) + [block];
    }

    /** Lines 193-199: drop everything and report the codec's position. */
    method Reset(at: nat)
      requires Valid()
      modifies this
      ensures Valid() && Value() == Consumer([], 0, at)
    {
      head, count, offset, position := 0, 0, 0, at;
    }

    /** One turn of the loop at lines 441-458. */
    method Copy(want: nat) returns (copied: seq<Pcm>)
      requires Valid() && count > 0
      modifies this
      ensures Valid() && (Value(), copied) == CopyBlock(old(Value()), want)
    {
      var block := blocks[head];
      assert block == Queue()[0];
      var n := |block.pcm| - offset;
      if n > want {
        n := want;
      }
      copied := block.pcm[offset..offset + n];
      offset := offset + n;
      position := block.start + offset;
      if offset == |block.pcm| {
        position := block.end;
        head := (head + 1) % BLOCKS;
        offset := 0;
        count := count - 1;
        assert Queue() == old(Queue())[1..];
      } else {
        assert Queue() == old(Queue());
      }
    }

    /** The copying of `audio_feed_read`: it takes exactly what `Read` describes. */
    method ReadFrames(frames: nat) returns (pcm: seq<Pcm>)
      requires Valid()
      modifies this
      ensures Valid() && (Value(), pcm) == Read(old(Value()), frames)
    {
      hide Read, CopyBlock;
      pcm := [];
      assert [] + Read(Value(), frames).1 == Read(Value(), frames).1;
      while |pcm| < frames && count > 0
        invariant Valid() && |pcm| <= frames
        invariant var (last, rest) := Read(Value(), frames - |pcm|); (last, pcm + rest) == Read(old(Value()), frames)
        decreases count + frames - |pcm|
      {
        ghost var before, had := Value(), pcm;
        var copied := Copy(frames - |pcm|);
        CopyBounds(before, frames - |had|);
        ReadUnfolds(before, frames - |had|, had);
        pcm := pcm + copied;
      }
      ReadDone(Value(), frames - |pcm|, pcm);
    }
  }

  lemma CopyBounds(c: Consumer, want: nat)
    requires Fits(c) && c.queue != []
    ensures var (next, copied) := CopyBlock(c, want);
            |copied| <= want && |next.queue| <= |c.queue| && (copied == [] && want > 0 ==> |next.queue| < |c.queue|)
  {
  }

  lemma ReadDone(c: Consumer, want: nat, had: seq<Pcm>)
    requires Fits(c) && (want == 0 || c.queue == [])
    ensures (c, had) == (Read(c, want).0, had + Read(c, want).1)
  {
    assert had + [] == had;
  }

  lemma ReadUnfolds(c: Consumer, want: nat, had: seq<Pcm>)
    requires Fits(c) && want > 0 && c.queue != []
    ensures var (next, copied) := CopyBlock(c, want); var (last, rest) := Read(next, want - |copied|);
            Read(c, want).0 == last && had + Read(c, want).1 == (had + copied) + rest
  {
    var (next, copied) := CopyBlock(c, want);
    var (last, rest) := Read(next, want - |copied|);
    assert had + (copied + rest) == (had + copied) + rest;
  }

  /** No two queued blocks share a slot, nor the next one to be stored. */
  lemma SlotsDiffer(head: nat, count: nat)
    requires head < BLOCKS && count < BLOCKS
    ensures forall k :: 0 <= k < count ==> Slot(head, k) != Slot(head, count)
  {
  }
}
