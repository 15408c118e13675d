/** The critical sections of the audio feed as code over its fields and its ring of blocks
    (src/bridges/audio/feed.c:112-236, 296-467). Each is one step of the interleaving model. */
module FeedLoop {
  import opened Common
  import opened FeedTrack
  import opened Feed
  import FeedRing

  /** `audio_feed_t`. The codec, the worker's place, the waiting control call and the history are ghost. */
  class AudioFeed {
    const ring: FeedRing.Ring
    var running: bool
    var active: bool
    var command: Command
    var seeking: bool
    var result: bool
    var loop: bool
    var nextLoop: bool
    var target: nat
    var eof: bool
    ghost var track: Track
    ghost var open: bool
    ghost var decoder: nat
    ghost var worker: Worker
    ghost var control: Control
    ghost var origin: nat
    ghost var delivered: seq<Pcm>
    ghost var broken: bool

    ghost function Value(): State
      reads this, ring, ring.blocks
      requires ring.blocks.Length == BLOCKS
    {
      Fields(ring.Value())
    }

    ghost function Fields(c: Consumer): State
      reads this
    {
      State(track, open, decoder, running, active, command, seeking, result, loop, nextLoop, target, eof,
            c, worker, control, origin, delivered, broken)
    }

    /** `audio_feed_open` once its worker runs (lines 244-276): the first thing it asks for is a seek to 0. */
    constructor (stream: Track)
      requires Sound(stream)
      ensures ring.Valid() && Initial(Value())
      ensures fresh(ring) && fresh(ring.blocks)
    {
      ring := new FeedRing.Ring();
      running, active, command, seeking, result, loop, nextLoop, target, eof :=
        true, false, Idle, false, false, false, false, 0, false;
      track, open, decoder, worker, control, origin, delivered, broken := stream, true, 0, Top, Free, 0, [], false;
    }

    /** The first critical section of `__fill` (lines 114-121). */
    method CheckFill(ghost filling: Filling) returns (go: bool, wrap: bool)
      requires ring.Valid() && worker == Fill(filling)
      modifies this`worker
      ensures ring.Valid() && Value() == Apply(old(Value()), Step.CheckFill)
      ensures go ==> worker == Decoding(filling, wrap)
      ensures !go ==> worker == AfterFill(filling, false)
    {
      if !running || eof || ring.count == BLOCKS {
        worker := AfterFill(filling, false);
        return false, false;
      }
      worker := Decoding(filling, loop);
      return true, loop;
    }

    /** The second critical section of `__fill` (lines 126-140). */
    method PushBlock(block: Block, prime: bool, ghost filling: Filling) returns (filled: bool)
      requires ring.Valid() && worker == Worker.Decoded(filling, block) && prime == filling.Priming?
      requires running && (!seeking || prime) ==> ring.count < BLOCKS
      modifies this, ring, ring.blocks
      ensures ring.Valid() && Value() == Apply(old(Value()), Step.PushBlock)
      ensures worker == AfterFill(filling, filled)
    {
      hide Fits, AfterFill, FeedRing.Ring.Queue;
      assert Apply(Value(), Step.PushBlock) == Pushed(Value(), filling, block);
      hide Apply, Enabled;
      if !running || (seeking && !prime) {
        worker := AfterFill(filling, false);
        return false;
      }
      filled := block.pcm != [];
      eof, worker := block.ended, AfterFill(filling, filled);
      if filled {
        ring.Push(block);
      }
    }

    /** The end of `__prime` (lines 151-155). */
    method FinishPriming(answer: bool)
      requires ring.Valid() && worker == Primed(answer)
      modifies this`result, this`seeking, this`worker
      ensures ring.Valid() && Value() == Apply(old(Value()), EndPrime)
    {
      hide FeedRing.Ring.Queue, FeedRing.Ring.Value, Fits;
      result := answer;
      seeking := false;
      worker := Top;
    }

    /** The first critical section of `__seek` (lines 179-185). */
    method TakeSeek() returns (goal: nat, previous: nat, wrap: bool, oldWrap: bool)
      requires ring.Valid() && worker == Picked(Seek)
      modifies this`command, this`worker
      ensures ring.Valid() && Value() == Apply(old(Value()), StartSeek)
      ensures worker == Seeking(goal, previous, wrap, oldWrap)
    {
      goal, previous, wrap, oldWrap := target, ring.position, nextLoop, loop;
      command := Idle;
      worker := Seeking(goal, previous, wrap, oldWrap);
    }

    /** The fields that a command sets when it ends (lines 165-173 and 196-200). */
    method Restart(
      drained: bool, wrap: bool, next: Command, ghost place: Worker, ghost from: nat, ghost heard: seq<Pcm>,
      ghost lost: bool, ghost stream: Track)
      modifies this
      ensures eof == drained && loop == wrap && command == next
      ensures worker == place && origin == from && delivered == heard && broken == lost && track == stream
      ensures unchanged(`running, `active, `seeking, `result, `nextLoop, `target, `open, `decoder, `control)
    {
      eof, loop, command, worker, origin := drained, wrap, next, place, from;
      delivered, broken, track := heard, lost, stream;
    }

    /** The second critical section of `__seek` (lines 193-200), with the codec's position afterwards. */
    method ResetAfterSeek(ok: bool, restored: bool, wrap: bool, oldWrap: bool, at: nat)
      requires ring.Valid() && worker == Sought(ok, restored, wrap, oldWrap) && at == decoder
      modifies this, ring
      ensures ring.Valid() && Value() == Apply(old(Value()), ResetSeek)
    {
      hide FeedRing.Ring.Queue, FeedRing.Ring.Value, Fits;
      ghost var moved := ok || !restored || broken;
      Restart(!restored, if ok then wrap else oldWrap, command, Fill(Priming(0, ok)), if moved then at else origin,
              if moved then [] else delivered, !restored, track);
      ring.Reset(at);
    }

    /** The critical section of `__open` (lines 165-173). */
    method ResetAfterOpen(ok: bool, ghost next: Option<Track>)
      requires ring.Valid() && worker == Opened(next) && ok == next.Some?
      modifies this, ring
      ensures ring.Valid() && Value() == Apply(old(Value()), ResetOpen)
    {
      hide FeedRing.Ring.Queue, FeedRing.Ring.Value, Fits;
      Restart(!ok, false, Idle, Fill(Priming(0, ok)), 0, [], !ok, if next.Some? then next.value else track);
      ring.Reset(0);
    }

    /** `__wait` up to its wait: post a command. */
    method Post(what: Command, start: bool)
      requires ring.Valid()
      modifies this
      ensures ring.Valid()
      ensures Value() == old(Value()).(seeking := true, command := what, control := Waiting(what, start))
    {
      seeking := true;
      command := what;
      control := Waiting(what, start);
    }

    lemma Here()
      requires ring.Valid()
      ensures ring.Value().position == ring.position
    {
    }

    /** `__move` up to its wait, and what `audio_feed_start` does when there is nothing to wait for. */
    method RequestMove(position: nat, wrap: bool, start: bool) returns (there: bool)
      requires ring.Valid() && control.Free? && running
      modifies this
      ensures ring.Valid() && Value() == Move(old(Value()), position, wrap, start)
      ensures there == AlreadyThere(old(Value()), position, wrap)
    {
      hide FeedRing.Ring.Queue, FeedRing.Ring.Value, Fits;
      Here();
      if running && result && position == ring.position && wrap == loop {
        active := active || start;
        return true;
      }
      target := position;
      nextLoop := wrap;
      Post(Seek, start);
      there := false;
    }

    /** `audio_feed_seek` up to its wait. */
    method SeekRequest(position: nat, wrap: bool) returns (there: bool)
      requires ring.Valid() && Enabled(Value(), RequestSeek(position, wrap))
      modifies this
      ensures ring.Valid() && Value() == Apply(old(Value()), RequestSeek(position, wrap))
    {
      there := RequestMove(position, wrap, false);
    }

    /** `audio_feed_start` up to its wait. */
    method StartRequest(wrap: bool) returns (there: bool)
      requires ring.Valid() && Enabled(Value(), RequestStart(wrap))
      modifies this
      ensures ring.Valid() && Value() == Apply(old(Value()), RequestStart(wrap))
    {
      there := RequestMove(ring.position, wrap, true);
    }

    /** `audio_feed_reopen` up to its wait (lines 367-371). */
    method OpenRequest()
      requires ring.Valid() && Enabled(Value(), RequestOpen)
      modifies this
      ensures ring.Valid() && Value() == Apply(old(Value()), RequestOpen)
    {
      active := false;
      Post(Open, false);
    }

    /** The end of `__wait` (lines 326-330), and of `audio_feed_start`: the answer is the worker's. */
    method Answer(start: bool) returns (ok: bool)
      requires ring.Valid() && Enabled(Value(), FinishRequest) && control.start == start
      modifies this`active, this`control
      ensures ring.Valid() && Value() == Apply(old(Value()), FinishRequest)
      ensures ok == (running && result)
    {
      hide FeedRing.Ring.Queue, FeedRing.Ring.Value, Fits;
      ok := running && result;
      active := active || (start && ok);
      control := Free;
    }

    /** `audio_feed_park`, for the only owner. */
    method ParkFeed()
      requires ring.Valid()
      modifies this`active
      ensures ring.Valid() && Value() == Apply(old(Value()), Park)
    {
      active := false;
    }

    /** `audio_feed_close` of the last owner, up to joining the worker (lines 302-306). */
    method CloseFeed()
      requires ring.Valid()
      modifies this`running
      ensures ring.Valid() && Value() == Apply(old(Value()), Close)
    {
      running := false;
    }

    /** `audio_feed_position`. */
    method Position() returns (at: nat)
      requires ring.Valid()
      ensures at == Value().consumer.position
    {
      at := ring.position;
    }

    /** `audio_feed_read`: nothing while a command is pending, otherwise what is ready; the end only behind the
        last frame. */
    method ReadFeed(frames: nat) returns (pcm: seq<Pcm>, ended: bool)
      requires ring.Valid()
      modifies this`active, this`delivered, ring
      ensures ring.Valid() && Value() == Apply(old(Value()), ReadFrames(frames))
      ensures delivered == old(delivered) + pcm
      ensures ended <==> frames > 0 && !seeking && eof && ring.count == 0
    {
      hide Read, FeedRing.Ring.Queue, Fits;
      if frames == 0 || seeking {
        assert delivered + [] == delivered;
        return [], false;
      }
      pcm := ring.ReadFrames(frames);
      active := true;
      ended := eof && ring.count == 0;
      delivered := delivered + pcm;
    }
  }

  /** Between critical sections the sections find what they require: the ring agrees with the model, and there is
      room for the block the worker brings. */
  lemma RoomForTheBlock(trace: seq<State>, i: nat)
    requires Run(trace) && i < |trace| && trace[i].worker.Decoded?
    ensures |trace[i].consumer.queue| < BLOCKS && Fits(trace[i].consumer)
  {
    RunKeepsInvariant(trace, i);
  }
}
