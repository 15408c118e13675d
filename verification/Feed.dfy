/** The audio feed as interleaved steps of its worker, its readers and its control calls
    (src/bridges/audio/feed.c:112-236, 320-467). A step is one critical section under the
    feed's mutex or one stretch of unlocked work on the codec, which the worker owns. */
module Feed {
  import opened Common
  import opened FeedTrack

  datatype Command = Idle | Seek | Open

  /** Which call of `__fill` this is: the worker's own, or number `k` of `__prime`. */
  datatype Filling = Plain | Priming(k: nat, result: bool)

  /** Where the worker stands, with the locals it carries. */
  datatype Worker =
    | Top
    | Picked(command: Command)
    | Fill(filling: Filling)
    | Decoding(filling: Filling, loop: bool)
    | Decoded(filling: Filling, block: Block)
    | Seeking(target: nat, previous: nat, loop: bool, oldLoop: bool)
    | Sought(ok: bool, restored: bool, loop: bool, oldLoop: bool)
    | Opened(next: Option<Track>)
    | Primed(result: bool)
    | Stopped

  /** A control call holding the control mutex and what it asked for; `start` marks
      `audio_feed_start`. */
  datatype Control = Free | Waiting(asked: Command, start: bool)

  /** `decoder` is the codec's position and `open` whether there is a codec. `origin`,
      `delivered` and `broken` are history: where the last completed seek or open left the
      stream, the frames read since, and whether its codec was lost. */
  datatype State = State(
    track: Track, open: bool, decoder: nat,
    running: bool, active: bool, command: Command, seeking: bool, result: bool,
    loop: bool, nextLoop: bool, target: nat, eof: bool,
    consumer: Consumer, worker: Worker, control: Control,
    origin: nat, delivered: seq<Pcm>, broken: bool)

  datatype Step =
    | Pick
    | StartFill
    | CheckFill
    | DecodeBlock(block: Block)
    | PushBlock
    | EndPrime
    | StartSeek
    | SeekCodec(ok: bool, restored: bool, lost: nat)
    | ResetSeek
    | OpenCodec(next: Option<Track>)
    | ResetOpen
    | Stop
    | RequestSeek(position: nat, wantLoop: bool)
    | RequestStart(wantLoop: bool)
    | RequestOpen
    | FinishRequest
    | Park
    | Close
    | ReadFrames(want: nat)

  ghost predicate Enabled(s: State, step: Step) {
    match step
    case Pick => s.worker.Top? && s.running && s.command != Idle
    case StartFill =>
      s.worker.Top? && s.running && s.command == Idle && s.active && !s.eof && |s.consumer.queue| < BLOCKS
    case CheckFill => s.worker.Fill?
    case DecodeBlock(block) => s.worker.Decoding? && FeedTrack.Decoded(s.track, s.worker.loop, s.decoder, block)
    case PushBlock => s.worker.Decoded?
    case EndPrime => s.worker.Primed?
    case StartSeek => s.worker == Picked(Seek)
    case SeekCodec(ok, restored, _) => s.worker.Seeking? && (ok || restored ==> s.open)
    case ResetSeek => s.worker.Sought?
    case OpenCodec(next) => s.worker == Picked(Open) && (next.Some? ==> Sound(next.value))
    case ResetOpen => s.worker.Opened?
    case Stop => s.worker.Top? && !s.running
    case RequestSeek(_, _) => s.control.Free? && s.running
    case RequestStart(_) => s.control.Free? && s.running
    case RequestOpen => s.control.Free? && s.running
    case FinishRequest => s.control.Waiting? && !(s.running && s.seeking)
    case Park => true
    case Close => true
    case ReadFrames(_) => Fits(s.consumer)
  }

  /** Where a call of `__fill` that returned `filled` goes next. */
  function AfterFill(filling: Filling, filled: bool): Worker {
    match filling
    case Plain => Top
    case Priming(k, result) =>
      if filled && k + 1 < PRIME then Fill(Priming(k + 1, result)) else Primed(result)
  }

  /** `__move`: nothing to do when the feed is already there. */
  predicate AlreadyThere(s: State, position: nat, loop: bool) {
    s.running && s.result && position == s.consumer.position && loop == s.loop
  }

  function Move(s: State, position: nat, loop: bool, start: bool): State {
    if AlreadyThere(s, position, loop) then if start then s.(active := true) else s
    else s.(target := position, nextLoop := loop, seeking := true, command := Seek, control := Waiting(Seek, start))
  }

  /** The first critical section of `__fill`. */
  function CheckedFill(s: State, filling: Filling): State {
    if !s.running || s.eof || |s.consumer.queue| == BLOCKS then s.(worker := AfterFill(filling, false))
    else s.(worker := Decoding(filling, s.loop))
  }

  function Queued(c: Consumer, block: Block): Consumer {
    if block.pcm != [] then c.(queue := c.queue + [block]) else c
  }

  /** The second critical section of `__fill`: discard the block or queue it. */
  function Pushed(s: State, filling: Filling, block: Block): State {
    if !s.running || (s.seeking && filling.Plain?) then s.(worker := AfterFill(filling, false))
    else s.(consumer := Queued(s.consumer, block), eof := block.ended, worker := AfterFill(filling, block.pcm != []))
  }

  /** The queue after a seek: emptied at the codec's position, with the sequence restarted unless it was restored. */
  ghost function SoughtReset(s: State): State
    requires s.worker.Sought?
  {
    var w := s.worker;
    s.(consumer := Consumer([], 0, s.decoder), eof := !w.restored, loop := if w.ok then w.loop else w.oldLoop,
       worker := Fill(Priming(0, w.ok)),
       origin := if w.ok || !w.restored || s.broken then s.decoder else s.origin,
       delivered := if w.ok || !w.restored || s.broken then [] else s.delivered,
       broken := !w.restored)
  }

  /** The queue after an open: emptied at the start of the new stream. */
  ghost function OpenedReset(s: State): State
    requires s.worker.Opened?
  {
    var next := s.worker.next;
    s.(track := if next.Some? then next.value else s.track, command := Idle,
       consumer := Consumer([], 0, 0), eof := next.None?, loop := false, worker := Fill(Priming(0, next.Some?)),
       origin := 0, delivered := [], broken := next.None?)
  }

  ghost function Apply(s: State, step: Step): State
    requires Enabled(s, step)
  {
    match step
    case Pick => s.(worker := Picked(s.command))
    case StartFill => s.(worker := Fill(Plain))
    case CheckFill => CheckedFill(s, s.worker.filling)
    case DecodeBlock(block) => s.(worker := Decoded(s.worker.filling, block), decoder := block.end)
    case PushBlock => Pushed(s, s.worker.filling, s.worker.block)
    case EndPrime => s.(result := s.worker.result, seeking := false, worker := Top)
    case StartSeek => s.(command := Idle, worker := Seeking(s.target, s.consumer.position, s.nextLoop, s.loop))
    case SeekCodec(ok, restored, lost) =>
      var w := s.worker;
      s.(decoder := if ok then s.track.land(w.target) else if restored then s.track.land(w.previous) else lost,
         worker := Sought(ok, ok || restored, w.loop, w.oldLoop))
    case ResetSeek => SoughtReset(s)
    case OpenCodec(next) => s.(worker := Opened(next), decoder := 0, open := next.Some?)
    case ResetOpen => OpenedReset(s)
    case Stop => s.(worker := Stopped)
    case RequestSeek(position, wantLoop) => Move(s, position, wantLoop, false)
    case RequestStart(wantLoop) => Move(s, s.consumer.position, wantLoop, true)
    case RequestOpen => s.(active := false, seeking := true, command := Open, control := Waiting(Open, false))
    case FinishRequest =>
      s.(control := Free, active := s.active || (s.control.start && s.running && s.result))
    case Park => s.(active := false)
    case Close => s.(running := false)
    case ReadFrames(want) =>
      if want == 0 || s.seeking then s
      else
        var (next, out) := Read(s.consumer, want);
        s.(active := true, consumer := next, delivered := s.delivered + out)
  }

  // ---------------------------------------------------------------- the invariant

  /** The worker is inside a command: from picking it up to the end of priming. */
  predicate Commanded(w: Worker) {
    || w.Picked? || w.Seeking? || w.Sought? || w.Opened? || w.Primed?
    || ((w.Fill? || w.Decoding? || w.Decoded?) && w.filling.Priming?)
  }

  /** The worker is refilling the queue a command has just emptied. */
  predicate Refilling(w: Worker) {
    w.Primed? || ((w.Fill? || w.Decoding? || w.Decoded?) && w.filling.Priming?)
  }

  /** How the command word, the seeking flag and the worker's place fit together. */
  predicate Handshake(s: State) {
    && (s.command != Idle ==> s.seeking && (!Commanded(s.worker) || s.worker == Picked(s.command) || s.worker.Opened?))
    && (s.worker.Picked? ==> s.command == s.worker.command && s.command != Idle)
    && (s.worker.Opened? ==> s.command == Open)
    && (Commanded(s.worker) ==> s.seeking)
    && (s.seeking ==> s.command != Idle || Commanded(s.worker))
    && (s.seeking && s.running ==> s.control.Waiting?)
  }

  /** Everything read since the last completed command is the decoder's own output from where
      that command left it, and the reported position is where the decoder then stood. */
  ghost predicate Faithful(t: Track, origin: nat, loop: bool, delivered: seq<Pcm>, position: nat) {
    After(t, origin, loop, |delivered|) == Some(position) && delivered == Frames(t, origin, loop, |delivered|)
  }

  /** Where the queued output ends. */
  function Tail(c: Consumer): nat {
    if c.queue == [] then c.position else c.queue[|c.queue| - 1].end
  }

  /** The codec stands where the queue ends, unless a pending command will
      reposition it or the feed is closed. */
  ghost predicate InStep(s: State) {
    if !s.running || (s.seeking && !Refilling(s.worker)) then true
    else match s.worker
      case Decoding(_, loop) => s.decoder == Tail(s.consumer) && loop == s.loop
      case Decoded(_, block) => s.decoder == block.end && FeedTrack.Decoded(s.track, s.loop, Tail(s.consumer), block)
      case _ => s.decoder == Tail(s.consumer)
  }

  /** What the codec's answer to a seek means for its position. */
  predicate SoughtWell(s: State) {
    && s.worker.Sought? && s.worker.oldLoop == s.loop
    && (s.worker.ok ==> s.worker.restored)
    && (s.worker.restored ==> s.track.land(s.decoder) == s.decoder)
    && (!s.worker.ok && s.worker.restored && !s.broken ==> s.decoder == s.consumer.position)
  }

  /** The queue continues the reported position, and the end flag is right. */
  ghost predicate Flowing(s: State) {
    && |s.consumer.queue| <= BLOCKS
    && ((s.worker.Decoding? || s.worker.Decoded?) ==> |s.consumer.queue| < BLOCKS)
    && Ready(s.track, s.loop, s.consumer, Tail(s.consumer))
    && (s.eof ==> s.broken || s.track.step(Tail(s.consumer), s.loop).None?)
  }

  ghost predicate Inv(s: State) {
    && Sound(s.track)
    && Handshake(s)
    && (!s.broken ==> s.track.land(s.consumer.position) == s.consumer.position)
    && (s.worker.Seeking? ==> s.worker.previous == s.consumer.position && s.worker.oldLoop == s.loop)
    && (s.worker.Sought? ==> SoughtWell(s))
    && (s.worker.Opened? ==> s.decoder == 0 && (s.worker.next.Some? ==> Sound(s.worker.next.value)))
    && Faithful(s.track, s.origin, s.loop, s.delivered, s.consumer.position)
    && Flowing(s)
    && InStep(s)
  }

  // ---------------------------------------------------------------- every step keeps it

  lemma DecodingPlace(filling: Filling, loop: bool)
    ensures Commanded(Decoding(filling, loop)) == Commanded(Fill(filling))
    ensures Refilling(Decoding(filling, loop)) == Refilling(Fill(filling))
    ensures Commanded(Fill(filling)) <==> filling.Priming?
    ensures Refilling(Fill(filling)) <==> filling.Priming?
  {
  }

  lemma DecodedPlace(filling: Filling, block: Block)
    ensures Commanded(Worker.Decoded(filling, block)) <==> filling.Priming?
    ensures Refilling(Worker.Decoded(filling, block)) <==> filling.Priming?
  {
  }

  /** After a fill the worker is back at the top, or goes on priming. */
  lemma AfterFillPlace(filling: Filling, filled: bool)
    ensures var w := AfterFill(filling, filled);
            && !w.Picked? && !w.Seeking? && !w.Sought? && !w.Opened? && !w.Decoding? && !w.Decoded?
            && (Commanded(w) <==> filling.Priming?) && (Refilling(w) <==> filling.Priming?)
  {
  }

  lemma {:induction false} ChainTail(t: Track, loop: bool, p: nat, queue: seq<Block>, tail: nat)
    requires Chain(t, loop, p, queue, tail) && queue != []
    ensures queue[|queue| - 1].end == tail
    decreases |queue|
  {
    if |queue| > 1 {
      ChainTail(t, loop, queue[0].end, queue[1..], tail);
    }
  }

  lemma ReadyTail(t: Track, loop: bool, c: Consumer, tail: nat)
    requires Ready(t, loop, c, tail)
    ensures Tail(c) == tail
  {
    if c.queue != [] {
      ChainTail(t, loop, c.queue[0].start, c.queue, tail);
    }
  }

  /** A read extends what was delivered by the output that comes next. */
  lemma {:induction false} ReadDelivers(s: State, want: nat)
    requires Inv(s) && Fits(s.consumer)
    ensures var (next, out) := Read(s.consumer, want);
            && Ready(s.track, s.loop, next, Tail(s.consumer)) && Tail(next) == Tail(s.consumer)
            && |next.queue| <= |s.consumer.queue|
            && Faithful(s.track, s.origin, s.loop, s.delivered + out, next.position)
            && (out == [] ==> next.position == s.consumer.position)
            && (out != [] ==> s.track.land(next.position) == next.position)
  {
    var (next, out) := Read(s.consumer, want);
    var tail := Tail(s.consumer);
    ReadContinues(s.track, s.loop, s.consumer, want, tail);
    ReadyTail(s.track, s.loop, next, tail);
    AfterAdd(s.track, s.origin, s.loop, |s.delivered|, |out|);
    Reported(s.track, s.consumer.position, s.loop, |out|);
  }

  /** A position the decoder has reported is one it can be sent back to. */
  lemma Reported(t: Track, p: nat, loop: bool, n: nat)
    requires Sound(t) && After(t, p, loop, n).Some?
    ensures n > 0 ==> t.land(After(t, p, loop, n).value) == After(t, p, loop, n).value
  {
  }

  lemma {:induction false} ReadKeeps(s: State, want: nat)
    requires Inv(s) && Enabled(s, ReadFrames(want)) && !s.seeking && want > 0
    ensures Inv(Apply(s, ReadFrames(want)))
  {
    hide Read, Ready, Faithful, FeedTrack.Decoded, Sound, Fits, Tail;
    ReadDelivers(s, want);
  }

  lemma PushFacts(s: State)
    requires Inv(s) && s.worker.Decoded? && s.running && !(s.seeking && s.worker.filling.Plain?)
    ensures var block, c := s.worker.block, s.consumer;
            var next := Queued(c, block);
            && Ready(s.track, s.loop, next, Tail(next)) && Tail(next) == block.end == s.decoder
            && next.position == c.position && |next.queue| <= BLOCKS
            && (block.ended ==> s.track.step(block.end, s.loop).None?)
  {
    var block, c := s.worker.block, s.consumer;
    assert FeedTrack.Decoded(s.track, s.loop, Tail(c), block);
    if block.pcm != [] {
      PushReady(s.track, s.loop, c, block);
      ReadyTail(s.track, s.loop, c.(queue := c.queue + [block]), block.end);
    } else {
      assert After(s.track, block.start, s.loop, 0) == Some(block.end);
    }
  }

  /** A place of the worker without a command or codec state of its own. */
  predicate Quiet(w: Worker) {
    !w.Picked? && !w.Seeking? && !w.Sought? && !w.Opened? && !w.Decoding? && !w.Decoded?
  }

  /** Moving the worker between such places, inside a command or outside. */
  lemma {:induction false} QuietMove(s: State, w: Worker)
    requires Inv(s) && Quiet(w)
    requires s.worker.Fill? || s.worker.Decoded?
    requires Commanded(s.worker) <==> Commanded(w)
    requires Refilling(s.worker) <==> Refilling(w)
    requires s.worker.Decoded? ==> !s.running || (s.seeking && !Refilling(w))
    ensures Inv(s.(worker := w))
  {
    hide Commanded, Refilling, Ready, Faithful, Sound, FeedTrack.Decoded, Tail;
  }

  /** Queueing a block: the worker's block becomes the end of the queue. */
  lemma {:induction false} QueueMove(s: State, block: Block, w: Worker)
    requires Inv(s) && s.worker.Decoded? && s.worker.block == block && Quiet(w)
    requires Commanded(s.worker) <==> Commanded(w)
    requires s.running && !(s.seeking && s.worker.filling.Plain?)
    ensures Inv(s.(consumer := Queued(s.consumer, block), eof := block.ended, worker := w))
  {
    PushFacts(s);
    hide Commanded, Refilling, Ready, Faithful, Sound, FeedTrack.Decoded, Tail, Queued;
  }

  /** A decoded block goes to the queue only if it continues it. */
  lemma {:induction false} PushKeeps(s: State, filling: Filling, block: Block)
    requires Inv(s) && s.worker == Worker.Decoded(filling, block)
    ensures Inv(Pushed(s, filling, block))
  {
    AfterFillPlace(filling, false);
    AfterFillPlace(filling, block.pcm != []);
    DecodedPlace(filling, block);
    hide AfterFill, Commanded, Refilling, Inv;
    if s.running && !(s.seeking && filling.Plain?) {
      QueueMove(s, block, AfterFill(filling, block.pcm != []));
    } else {
      QuietMove(s, AfterFill(filling, false));
    }
  }

  lemma {:induction false} ResetKeeps(s: State, step: Step)
    requires Inv(s) && Enabled(s, step) && (step.ResetSeek? || step.ResetOpen?)
    ensures Inv(Apply(s, step))
  {
    var r := Apply(s, step);
    assert After(r.track, r.origin, r.loop, 0) == Some(r.origin);
  }

  /** The unlocked work on the codec touches nothing the readers see. */
  lemma {:induction false} CodecKeeps(s: State, step: Step)
    requires Inv(s) && Enabled(s, step) && (step.DecodeBlock? || step.SeekCodec? || step.OpenCodec?)
    ensures Inv(Apply(s, step))
  {
    hide Ready, Faithful, BlockOf, Tail, Read, Fits;
  }

  lemma {:induction false} TopKeeps(s: State, step: Step)
    requires Inv(s) && Enabled(s, step)
    requires step.Pick? || step.StartFill? || step.Stop?
    ensures Inv(Apply(s, step))
  {
    hide Ready, Faithful, FeedTrack.Decoded, Tail, Sound, Read, Fits;
  }

  lemma {:induction false} CheckKeeps(s: State, filling: Filling)
    requires Inv(s) && s.worker == Fill(filling)
    ensures Inv(CheckedFill(s, filling))
  {
    AfterFillPlace(filling, false);
    DecodingPlace(filling, s.loop);
    if !s.running || s.eof || |s.consumer.queue| == BLOCKS {
      hide AfterFill, Commanded, Refilling, Inv;
      QuietMove(s, AfterFill(filling, false));
    } else {
      DecodingStarts(s, filling);
    }
  }

  lemma DecodingStarts(s: State, filling: Filling)
    requires Inv(s) && s.worker == Fill(filling) && s.running && |s.consumer.queue| != BLOCKS
    ensures Inv(s.(worker := Decoding(filling, s.loop)))
  {
    DecodingPlace(filling, s.loop);
    hide Commanded, Refilling, Ready, Faithful, Sound, FeedTrack.Decoded, Tail;
  }

  lemma {:induction false} CommandKeeps(s: State, step: Step)
    requires Inv(s) && Enabled(s, step)
    requires step.EndPrime? || step.StartSeek?
    ensures Inv(Apply(s, step))
  {
    hide Ready, Faithful, FeedTrack.Decoded, Tail, Sound, Read, Fits;
  }

  lemma RequestKeeps(s: State, step: Step)
    requires Inv(s) && Enabled(s, step)
    requires step.RequestSeek? || step.RequestStart? || step.RequestOpen?
    ensures Inv(Apply(s, step))
  {
    hide Inv, Move;
    match step
    case RequestSeek(position, wantLoop) => MoveKeeps(s, position, wantLoop, false);
    case RequestStart(wantLoop) => MoveKeeps(s, s.consumer.position, wantLoop, true);
    case RequestOpen => AskedKeeps(s, false, s.target, s.nextLoop, Open, false);
  }

  lemma MoveKeeps(s: State, position: nat, loop: bool, start: bool)
    requires Inv(s) && s.control.Free? && s.running
    ensures Inv(Move(s, position, loop, start))
  {
    AskedKeeps(s, s.active, position, loop, Seek, start);
    ActiveKeeps(s);
    hide Inv;
  }

  lemma ActiveKeeps(s: State)
    requires Inv(s)
    ensures Inv(s.(active := true))
  {
    hide Ready, Faithful, FeedTrack.Decoded, Tail, Sound;
  }

  /** Posting a command. */
  lemma AskedKeeps(s: State, active: bool, target: nat, wantLoop: bool, what: Command, start: bool)
    requires Inv(s) && what != Idle && s.control.Free? && s.running
    ensures Inv(s.(active := active, target := target, nextLoop := wantLoop, seeking := true, command := what,
                   control := Waiting(what, start)))
  {
    hide Ready, Faithful, FeedTrack.Decoded, Tail, Sound;
  }

  lemma {:induction false} FlagKeeps(s: State, step: Step)
    requires Inv(s) && Enabled(s, step)
    requires step.FinishRequest? || step.Park? || step.Close?
    ensures Inv(Apply(s, step))
  {
    hide Ready, Faithful, FeedTrack.Decoded, Tail, Sound, Read, Fits;
  }

  /** Every step of every thread keeps the invariant. */
  lemma {:induction false} StepKeeps(s: State, step: Step)
    requires Inv(s) && Enabled(s, step)
    ensures Inv(Apply(s, step))
  {
    hide Inv, Pushed, CheckedFill;
    match step
    case ReadFrames(want) => if !s.seeking && want > 0 { ReadKeeps(s, want); }
    case PushBlock => PushKeeps(s, s.worker.filling, s.worker.block);
    case ResetSeek => ResetKeeps(s, step);
    case ResetOpen => ResetKeeps(s, step);
    case DecodeBlock(_) => CodecKeeps(s, step);
    case SeekCodec(_, _, _) => CodecKeeps(s, step);
    case OpenCodec(_) => CodecKeeps(s, step);
    case RequestSeek(_, _) => RequestKeeps(s, step);
    case RequestStart(_) => RequestKeeps(s, step);
    case RequestOpen => RequestKeeps(s, step);
    case FinishRequest => FlagKeeps(s, step);
    case Park => FlagKeeps(s, step);
    case Close => FlagKeeps(s, step);
    case Pick => TopKeeps(s, step);
    case StartFill => TopKeeps(s, step);
    case Stop => TopKeeps(s, step);
    case CheckFill => CheckKeeps(s, s.worker.filling);
    case EndPrime => CommandKeeps(s, step);
    case StartSeek => CommandKeeps(s, step);
  }

  // ---------------------------------------------------------------- what a command answers

  predicate Promises(w: Worker) {
    if w.Primed? then w.result
    else (w.Fill? || w.Decoding? || w.Decoded?) && w.filling.Priming? && w.filling.result
  }

  /** A command that will answer true has put the stream where it was asked to be. */
  predicate Placed(s: State) {
    && s.delivered == [] && !s.broken && s.control.Waiting?
    && (if s.control.asked == Seek then s.origin == s.track.land(s.target) && s.loop == s.nextLoop
        else s.origin == 0 && !s.loop)
  }

  predicate Answering(s: State) {
    s.running ==>
      && (s.command != Idle ==> s.control.Waiting? && s.control.asked == s.command)
      && (s.worker.Seeking? ==>
           s.control.Waiting? && s.control.asked == Seek && s.worker.target == s.target && s.worker.loop == s.nextLoop)
      && (s.worker.Sought? ==>
           s.control.Waiting? && s.control.asked == Seek && s.worker.loop == s.nextLoop &&
           (s.worker.ok ==> s.worker.restored && s.decoder == s.track.land(s.target)))
      && (Promises(s.worker) ==> Placed(s))
  }

  /** `Answering` without the worker's own part, for steps that only move the worker. */
  lemma {:induction false} AnsweringMoves(s: State, w: Worker)
    requires Answering(s) && !w.Seeking? && !w.Sought?
    requires Promises(w) ==> Promises(s.worker)
    ensures Answering(s.(worker := w))
  {
    hide Promises;
  }

  lemma AnsweringIgnoresQueue(s: State, c: Consumer, eof: bool)
    requires Answering(s)
    ensures Answering(s.(consumer := c, eof := eof))
  {
  }

  lemma FilledAnswers(s: State, filling: Filling, block: Block, filled: bool)
    requires Answering(s) && s.worker == Worker.Decoded(filling, block)
    ensures Answering(s.(worker := AfterFill(filling, filled)))
  {
    AfterFillPromise(filling, filled);
    assert filling.Priming? && filling.result ==> Promises(s.worker);
    hide AfterFill, Answering, Promises;
    AnsweringMoves(s, AfterFill(filling, filled));
  }

  lemma {:induction false} AnsweringPush(s: State, filling: Filling, block: Block)
    requires Answering(s) && s.worker == Worker.Decoded(filling, block)
    ensures Answering(Pushed(s, filling, block))
  {
    hide AfterFill, Answering, Queued;
    if !s.running || (s.seeking && filling.Plain?) {
      FilledAnswers(s, filling, block, false);
    } else {
      FilledAnswers(s, filling, block, block.pcm != []);
      AnsweringIgnoresQueue(s.(worker := AfterFill(filling, block.pcm != [])), Queued(s.consumer, block), block.ended);
    }
  }

  lemma {:induction false} AnsweringCheck(s: State, filling: Filling)
    requires Answering(s) && s.worker == Fill(filling)
    ensures Answering(CheckedFill(s, filling))
  {
    AfterFillPromise(filling, false);
    AnsweringMoves(s, AfterFill(filling, false));
    AnsweringMoves(s, Decoding(filling, s.loop));
    hide Answering;
  }

  lemma {:induction false} AnsweringCodec(s: State, step: Step)
    requires Inv(s) && Answering(s) && Enabled(s, step)
    requires step.StartSeek? || step.SeekCodec? || step.ResetSeek? || step.OpenCodec? || step.ResetOpen? ||
             step.DecodeBlock?
    ensures Answering(Apply(s, step))
  {
    hide Faithful, Flowing, InStep, Sound, FeedTrack.Decoded;
  }

  lemma {:induction false} AnsweringControl(s: State, step: Step)
    requires Inv(s) && Answering(s) && Enabled(s, step)
    requires step.RequestSeek? || step.RequestStart? || step.RequestOpen? || step.FinishRequest? || step.Park? ||
             step.Close?
    ensures Answering(Apply(s, step))
  {
    hide Faithful, Flowing, InStep, Sound;
  }

  lemma {:induction false} AnsweringRest(s: State, step: Step)
    requires Inv(s) && Answering(s) && Enabled(s, step)
    requires step.Pick? || step.StartFill? || step.EndPrime? || step.Stop? || step.ReadFrames?
    ensures Answering(Apply(s, step))
  {
    hide Faithful, Flowing, InStep, Sound, Read;
  }

  lemma {:induction false} AnsweringKeeps(s: State, step: Step)
    requires Inv(s) && Answering(s) && Enabled(s, step)
    ensures Answering(Apply(s, step))
  {
    hide Inv, Answering, CheckedFill, Pushed;
    match step
    case CheckFill => AnsweringCheck(s, s.worker.filling);
    case PushBlock => AnsweringPush(s, s.worker.filling, s.worker.block);
    case StartSeek => AnsweringCodec(s, step);
    case SeekCodec(_, _, _) => AnsweringCodec(s, step);
    case ResetSeek => AnsweringCodec(s, step);
    case OpenCodec(_) => AnsweringCodec(s, step);
    case ResetOpen => AnsweringCodec(s, step);
    case DecodeBlock(_) => AnsweringCodec(s, step);
    case RequestSeek(_, _) => AnsweringControl(s, step);
    case RequestStart(_) => AnsweringControl(s, step);
    case RequestOpen => AnsweringControl(s, step);
    case FinishRequest => AnsweringControl(s, step);
    case Park => AnsweringControl(s, step);
    case Close => AnsweringControl(s, step);
    case Pick => AnsweringRest(s, step);
    case StartFill => AnsweringRest(s, step);
    case EndPrime => AnsweringRest(s, step);
    case Stop => AnsweringRest(s, step);
    case ReadFrames(_) => AnsweringRest(s, step);
  }

  lemma AfterFillPromise(filling: Filling, filled: bool)
    ensures Promises(AfterFill(filling, filled)) <==> filling.Priming? && filling.result
    ensures !AfterFill(filling, filled).Seeking? && !AfterFill(filling, filled).Sought?
  {
  }

  // ---------------------------------------------------------------- runs

  /** A feed whose worker has just been started on an open codec. */
  ghost predicate Initial(s: State) {
    && Sound(s.track) && s.open && s.decoder == 0
    && s.running && !s.active && s.command == Idle && !s.seeking && !s.result
    && !s.loop && !s.eof && s.consumer == Consumer([], 0, 0) && s.worker == Top && s.control == Free
    && s.origin == 0 && s.delivered == [] && !s.broken
  }

  ghost predicate Follows(s: State, r: State) {
    exists step :: Enabled(s, step) && r == Apply(s, step)
  }

  /** Any interleaving of the worker, readers and control calls. */
  ghost predicate Run(trace: seq<State>) {
    && |trace| > 0 && Initial(trace[0])
    && forall i :: 0 < i < |trace| ==> Follows(trace[i - 1], trace[i])
  }

  lemma {:induction false} RunKeepsInvariant(trace: seq<State>, i: nat)
    requires Run(trace) && i < |trace|
    ensures Inv(trace[i]) && Answering(trace[i])
  {
    if i > 0 {
      hide Inv, Answering, Enabled, Apply, Initial;
      RunKeepsInvariant(trace, i - 1);
      assert Follows(trace[i - 1], trace[i]);
      var step :| Enabled(trace[i - 1], step) && trace[i] == Apply(trace[i - 1], step);
      StepKeeps(trace[i - 1], step);
      AnsweringKeeps(trace[i - 1], step);
    } else {
      assert After(trace[0].track, 0, false, 0) == Some(0);
    }
  }

  /** At any moment of any run, the frames read since the last completed command are exactly
      the first frames of the decoder's output from where that command left it, and the
      reported position is the decoder's own position after the last of them. */
  lemma DeliveredIsDecoderOutput(trace: seq<State>, i: nat)
    requires Run(trace) && i < |trace|
    ensures var s := trace[i]; var n := |s.delivered|;
            After(s.track, s.origin, s.loop, n) == Some(s.consumer.position) &&
            s.delivered == Frames(s.track, s.origin, s.loop, n)
  {
    RunKeepsInvariant(trace, i);
  }

  /** The end is reported (line 460) only when the whole output was delivered, or the codec was
      lost by a command that failed altogether. */
  lemma EndMeansEverythingDelivered(trace: seq<State>, i: nat)
    requires Run(trace) && i < |trace|
    requires trace[i].eof && trace[i].consumer.queue == [] && !trace[i].broken
    ensures var s := trace[i]; After(s.track, s.origin, s.loop, |s.delivered| + 1).None?
  {
    RunKeepsInvariant(trace, i);
    var s := trace[i];
    assert After(s.track, s.origin, s.loop, |s.delivered| + 1) == s.track.step(s.consumer.position, s.loop);
  }

  /** A command that the worker is about to answer with true has restarted the sequence at its target, with
      its loop mode; an open restarts at 0. */
  lemma SuccessPlacesTheStream(trace: seq<State>, i: nat)
    requires Run(trace) && i < |trace| && trace[i].running && trace[i].worker == Primed(true)
    ensures var s := trace[i];
            && Enabled(s, EndPrime) && Apply(s, EndPrime).result && Enabled(Apply(s, EndPrime), FinishRequest)
            && s.delivered == [] && s.consumer.position == s.origin
            && (s.control.Waiting? && s.control.asked == Seek ==>
                   s.origin == s.track.land(s.target) && s.loop == s.nextLoop)
            && (s.control.Waiting? && s.control.asked == Open ==> s.origin == 0 && !s.loop)
  {
    RunKeepsInvariant(trace, i);
  }

  /** Everything readers see and the history of what they read. */
  ghost predicate SameOutput(s: State, r: State) {
    && r.track == s.track && r.origin == s.origin && r.loop == s.loop && r.delivered == s.delivered
    && r.consumer == s.consumer
  }

  /** A seek or a start is answered true at once exactly when the feed is already there: nothing restarts, position
      and loop mode are the ones asked for, and they continue what was delivered. Otherwise a command is posted. */
  lemma ImmediateSuccess(trace: seq<State>, i: nat, position: nat, loop: bool, start: bool)
    requires Run(trace) && i < |trace| && trace[i].control.Free? && trace[i].running
    ensures var s := trace[i]; var r := Move(s, position, loop, start);
            && (AlreadyThere(s, position, loop) <==> r.control.Free?)
            && (AlreadyThere(s, position, loop) ==>
                 && SameOutput(s, r) && r.decoder == s.decoder && r.command == s.command
                 && r.consumer.position == position && r.loop == loop && r.active == (s.active || start)
                 && After(r.track, r.origin, loop, |r.delivered|) == Some(position))
            && (!AlreadyThere(s, position, loop) ==>
                   r.seeking && r.command == Seek && r.target == position && r.nextLoop == loop)
  {
    RunKeepsInvariant(trace, i);
  }

  /** Steps that restart the sequence: a completed open, a seek that succeeded, or one that
      lost the codec or found it lost. */
  predicate Restarts(s: State, step: Step) {
    || step.ResetOpen?
    || (step.ResetSeek? && s.worker.Sought? && (s.worker.ok || !s.worker.restored || s.broken))
  }

  /** Steps that neither read, queue nor reset change none of it. */
  lemma CodecKeepsOutput(s: State, step: Step)
    requires Enabled(s, step) && (step.DecodeBlock? || step.SeekCodec? || step.OpenCodec?)
    ensures SameOutput(s, Apply(s, step))
  {
    hide FeedTrack.Decoded, Sound;
  }

  lemma FillKeepsOutput(s: State, filling: Filling)
    ensures SameOutput(s, CheckedFill(s, filling))
  {
    hide AfterFill;
  }

  lemma OutputKept(s: State, step: Step)
    requires Enabled(s, step)
    requires !step.ReadFrames? && !step.PushBlock? && !step.ResetSeek? && !step.ResetOpen?
    ensures SameOutput(s, Apply(s, step))
  {
    hide FeedTrack.Decoded, Sound, CheckedFill, Move, Pushed, SoughtReset, OpenedReset;
    if step.RequestSeek? || step.RequestStart? || step.RequestOpen? || step.FinishRequest? || step.Park? ||
        step.Close? {
      ControlKeepsOutput(s, step);
    } else if step.DecodeBlock? || step.SeekCodec? || step.OpenCodec? {
      CodecKeepsOutput(s, step);
    } else {
      match step
      case Pick =>
      case StartFill =>
      case CheckFill => FillKeepsOutput(s, s.worker.filling);
      case EndPrime =>
      case StartSeek =>
      case Stop =>
    }
  }

  lemma ControlKeepsOutput(s: State, step: Step)
    requires Enabled(s, step)
    requires step.RequestSeek? || step.RequestStart? || step.RequestOpen? || step.FinishRequest? || step.Park? ||
             step.Close?
    ensures SameOutput(s, Apply(s, step))
  {
    match step
    case RequestSeek(position, wantLoop) => MoveKeepsOutput(s, position, wantLoop, false);
    case RequestStart(wantLoop) => MoveKeepsOutput(s, s.consumer.position, wantLoop, true);
    case RequestOpen =>
    case FinishRequest =>
    case Park =>
    case Close =>
    hide Move, AlreadyThere;
  }

  lemma MoveKeepsOutput(s: State, position: nat, loop: bool, start: bool)
    ensures SameOutput(s, Move(s, position, loop, start))
  {
  }

  ghost predicate SameHistory(s: State, r: State) {
    && r.track == s.track && r.origin == s.origin && r.loop == s.loop && r.delivered == s.delivered
    && r.consumer.position == s.consumer.position
  }

  lemma PushExtends(s: State)
    requires s.worker.Decoded?
    ensures SameHistory(s, Pushed(s, s.worker.filling, s.worker.block))
  {
    QueuedPosition(s.consumer, s.worker.block);
    hide AfterFill, Queued;
  }

  lemma QueuedPosition(c: Consumer, block: Block)
    ensures Queued(c, block).position == c.position
  {
  }

  lemma ReadExtends(s: State, want: nat)
    requires Enabled(s, ReadFrames(want))
    ensures var r := Apply(s, ReadFrames(want));
            && r.track == s.track && r.origin == s.origin && r.loop == s.loop && s.delivered <= r.delivered
            && (s.seeking ==> r.delivered == s.delivered && r.consumer.position == s.consumer.position)
  {
    hide Read;
  }

  lemma FailedSeekRestores(s: State)
    requires Inv(s) && Enabled(s, ResetSeek) && !Restarts(s, ResetSeek)
    ensures var r := Apply(s, ResetSeek);
            && r.track == s.track && r.origin == s.origin && r.loop == s.loop && r.delivered == s.delivered
            && r.consumer == Consumer([], 0, s.consumer.position)
  {
    hide Faithful, Flowing, InStep, Sound, Handshake;
  }

  /** Nothing else does, so a failed seek whose restore succeeds leaves the delivered frames,
      the position's sequence and the loop mode unbroken. */
  lemma OnlyCommandsRestart(s: State, step: Step)
    requires Inv(s) && Enabled(s, step) && !Restarts(s, step)
    ensures var r := Apply(s, step);
            r.track == s.track && r.origin == s.origin && r.loop == s.loop && s.delivered <= r.delivered
    ensures var r := Apply(s, step);
            step.ResetSeek? ==>
              r.delivered == s.delivered && r.consumer.position == s.consumer.position && r.consumer.queue == []
  {
    if step.ResetSeek? {
      FailedSeekRestores(s);
    } else if step.ReadFrames? {
      ReadExtends(s, step.want);
      hide Inv, Enabled, Apply;
    } else if step.PushBlock? {
      PushExtends(s);
      hide Inv, Pushed;
    } else {
      OutputKept(s, step);
      hide Inv, Enabled, Apply;
    }
  }

  /** While a command is pending no frame is delivered and no position moves. */
  lemma PendingCommandFreezesReaders(s: State, step: Step)
    requires Inv(s) && Enabled(s, step) && s.seeking && !step.ResetSeek? && !step.ResetOpen?
    ensures var r := Apply(s, step); r.delivered == s.delivered && r.consumer.position == s.consumer.position
  {
    if step.ReadFrames? {
      ReadExtends(s, step.want);
      hide Inv, Enabled, Apply;
    } else if step.PushBlock? {
      PushExtends(s);
      hide Inv, Pushed;
    } else {
      OutputKept(s, step);
      hide Inv, Enabled, Apply;
    }
  }

  /** Between two moments with no restart, what was delivered only grows, from one origin. */
  lemma {:induction false} SequenceContinues(trace: seq<State>, steps: seq<Step>, i: nat, j: nat)
    requires Run(trace) && i <= j < |trace| && |steps| == |trace| - 1
    requires forall k :: i <= k < j ==>
               Enabled(trace[k], steps[k]) && trace[k + 1] == Apply(trace[k], steps[k]) && !Restarts(trace[k], steps[k])
    ensures trace[j].track == trace[i].track && trace[j].origin == trace[i].origin && trace[j].loop == trace[i].loop
    ensures trace[i].delivered <= trace[j].delivered
    decreases j - i
  {
    hide Inv, Answering, Enabled, Apply, Restarts, Initial, Follows;
    if i < j {
      SequenceContinues(trace, steps, i, j - 1);
      RunKeepsInvariant(trace, j - 1);
      OnlyCommandsRestart(trace[j - 1], steps[j - 1]);
    }
  }
}
