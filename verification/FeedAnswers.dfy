/** How a command of the audio feed ends: what it answers, that it is answered, and what is ready by then
    (src/bridges/audio/feed.c:112-236, 320-408). */
module FeedAnswers {
  import opened Common
  import opened FeedTrack
  import opened Feed

  ghost predicate Taken(trace: seq<State>, steps: seq<Step>, k: nat)
    requires k < |steps| && k + 1 < |trace|
  {
    Enabled(trace[k], steps[k]) && trace[k + 1] == Apply(trace[k], steps[k])
  }

  /** A run together with the steps taken. */
  ghost predicate History(trace: seq<State>, steps: seq<Step>) {
    |trace| == |steps| + 1 && Initial(trace[0]) && forall k :: 0 <= k < |steps| ==> Taken(trace, steps, k)
  }

  lemma HistoryIsRun(trace: seq<State>, steps: seq<Step>, i: nat)
    requires History(trace, steps) && i < |trace|
    ensures Run(trace) && Inv(trace[i]) && Answering(trace[i])
  {
    hide Enabled, Apply, Initial, Inv, Answering;
    forall k | 0 < k < |trace|
      ensures Follows(trace[k - 1], trace[k])
    {
      assert Taken(trace, steps, k - 1);
    }
    RunKeepsInvariant(trace, i);
  }

  // ---------------------------------------------------------------- the answer is the codec's

  /** The step at which a command asks the codec, and what the codec says: the target of a seek was reached, or a new
      stream was opened. */
  predicate AsksCodec(step: Step) {
    step.SeekCodec? || step.OpenCodec?
  }

  predicate CodecAgrees(step: Step)
    requires AsksCodec(step)
  {
    if step.SeekCodec? then step.ok else step.next.Some?
  }

  /** The worker is between asking the codec and answering, with the codec's word in its locals. */
  predicate Carries(w: Worker, ok: bool) {
    match w
    case Sought(found, _, _, _) => found == ok
    case Opened(next) => next.Some? == ok
    case Fill(filling) => filling.Priming? && filling.result == ok
    case Decoding(filling, _) => filling.Priming? && filling.result == ok
    case Decoded(filling, _) => filling.Priming? && filling.result == ok
    case Primed(result) => result == ok
    case _ => false
  }

  /** The steps of the worker; the others leave it where it is. */
  predicate Works(step: Step) {
    || step.Pick? || step.StartFill? || step.CheckFill? || step.DecodeBlock? || step.PushBlock? || step.EndPrime?
    || step.StartSeek? || step.SeekCodec? || step.ResetSeek? || step.OpenCodec? || step.ResetOpen? || step.Stop?
  }

  /** What a step that is not the worker's leaves alone. */
  ghost predicate Undisturbed(s: State, r: State) {
    && r.worker == s.worker && r.result == s.result && (r.running ==> s.running)
    && (s.seeking ==> r.seeking && r.consumer == s.consumer && r.eof == s.eof)
  }

  lemma MoveUndisturbed(s: State, position: nat, loop: bool, start: bool)
    ensures Undisturbed(s, Move(s, position, loop, start))
  {
  }

  lemma ReadUndisturbed(s: State, want: nat)
    requires Enabled(s, ReadFrames(want))
    ensures Undisturbed(s, Apply(s, ReadFrames(want)))
  {
    hide Read, Fits;
  }

  lemma FlagsUndisturbed(s: State, step: Step)
    requires Enabled(s, step) && (step.RequestOpen? || step.FinishRequest? || step.Park? || step.Close?)
    ensures Undisturbed(s, Apply(s, step))
  {
  }

  lemma OthersUndisturbed(s: State, step: Step)
    requires Enabled(s, step) && !Works(step)
    ensures Undisturbed(s, Apply(s, step))
  {
    hide Undisturbed, Move, Read, Fits;
    match step
    case RequestSeek(position, wantLoop) => MoveUndisturbed(s, position, wantLoop, false);
    case RequestStart(wantLoop) => MoveUndisturbed(s, s.consumer.position, wantLoop, true);
    case ReadFrames(want) => ReadUndisturbed(s, want);
    case RequestOpen => FlagsUndisturbed(s, step);
    case FinishRequest => FlagsUndisturbed(s, step);
    case Park => FlagsUndisturbed(s, step);
    case Close => FlagsUndisturbed(s, step);
  }

  /** A fill returns to where its caller goes on, or decodes. */
  lemma AfterFillCarries(filling: Filling, filled: bool, ok: bool)
    ensures Carries(AfterFill(filling, filled), ok) <==> filling.Priming? && filling.result == ok
  {
  }

  lemma CheckedOnly(s: State, filling: Filling)
    ensures var r := CheckedFill(s, filling);
            && r == s.(worker := r.worker)
            && (r.worker == AfterFill(filling, false) || r.worker == Decoding(filling, s.loop))
  {
    hide AfterFill;
  }

  lemma PushedOnly(s: State, filling: Filling, block: Block)
    ensures var r := Pushed(s, filling, block);
            && r == s.(consumer := r.consumer, eof := r.eof, worker := r.worker)
            && r.worker == AfterFill(filling, s.running && !(s.seeking && filling.Plain?) && block.pcm != [])
  {
    hide AfterFill, Queued;
  }

  lemma FillCarries(s: State, filling: Filling, ok: bool)
    ensures Carries(CheckedFill(s, filling).worker, ok) <==> filling.Priming? && filling.result == ok
  {
    hide AfterFill, CheckedFill;
    AfterFillCarries(filling, false, ok);
    CheckedOnly(s, filling);
  }

  lemma PushCarries(s: State, filling: Filling, block: Block, ok: bool)
    ensures Carries(Pushed(s, filling, block).worker, ok) <==> filling.Priming? && filling.result == ok
  {
    hide AfterFill, Pushed;
    AfterFillCarries(filling, s.running && !(s.seeking && filling.Plain?) && block.pcm != [], ok);
    PushedOnly(s, filling, block);
  }

  lemma ResetCarries(s: State, step: Step, ok: bool)
    requires Enabled(s, step) && Carries(s.worker, ok) && (step.ResetSeek? || step.ResetOpen? || step.DecodeBlock?)
    ensures Carries(Apply(s, step).worker, ok)
  {
    hide FeedTrack.Decoded, Sound;
  }

  /** The codec's word goes on through every step but the one that answers with it. */
  lemma CarriesOn(s: State, step: Step, ok: bool)
    requires Enabled(s, step) && Carries(s.worker, ok) && !step.EndPrime?
    ensures Carries(Apply(s, step).worker, ok) && !AsksCodec(step)
  {
    hide FeedTrack.Decoded, Read, Fits, Sound, Move, CheckedFill, Pushed, SoughtReset, OpenedReset;
    if !Works(step) {
      OthersUndisturbed(s, step);
      hide Apply;
    } else if step.CheckFill? {
      FillCarries(s, s.worker.filling, ok);
    } else if step.PushBlock? {
      PushCarries(s, s.worker.filling, s.worker.block, ok);
    } else {
      ResetCarries(s, step, ok);
    }
  }

  /** What the remaining steps of the worker leave alone. */
  predicate SameFlags(s: State, r: State) {
    r.result == s.result && r.active == s.active && r.running == s.running
  }

  lemma TurnOnly(s: State, step: Step)
    requires Enabled(s, step) && (step.Pick? || step.StartFill? || step.StartSeek? || step.Stop?)
    ensures SameFlags(s, Apply(s, step))
  {
    hide FeedTrack.Decoded, Sound, CheckedFill, Pushed, Read, Move, SoughtReset, OpenedReset;
  }

  lemma CodecOnly(s: State, step: Step)
    requires Enabled(s, step) && (step.DecodeBlock? || step.SeekCodec? || step.OpenCodec?)
    ensures SameFlags(s, Apply(s, step))
  {
    hide FeedTrack.Decoded, Sound, CheckedFill, Pushed, Read, Move, SoughtReset, OpenedReset;
  }

  lemma ResetOnly(s: State, step: Step)
    requires Enabled(s, step) && (step.ResetSeek? || step.ResetOpen?)
    ensures SameFlags(s, Apply(s, step))
  {
    hide FeedTrack.Decoded, Sound, CheckedFill, Pushed, Read, Move;
  }

  lemma FillOnly(s: State, step: Step)
    requires Enabled(s, step) && (step.CheckFill? || step.PushBlock?)
    ensures SameFlags(s, Apply(s, step))
  {
    hide FeedTrack.Decoded, Sound, CheckedFill, Pushed, Read, Move, SoughtReset, OpenedReset;
    if step.CheckFill? {
      CheckedOnly(s, s.worker.filling);
    } else {
      PushedOnly(s, s.worker.filling, s.worker.block);
    }
  }

  lemma WorkerOnly(s: State, step: Step)
    requires Enabled(s, step) && Works(step) && !step.EndPrime?
    ensures SameFlags(s, Apply(s, step))
  {
    hide Enabled, Apply, SameFlags;
    match step
    case CheckFill => FillOnly(s, step);
    case PushBlock => FillOnly(s, step);
    case DecodeBlock(_) => CodecOnly(s, step);
    case SeekCodec(_, _, _) => CodecOnly(s, step);
    case OpenCodec(_) => CodecOnly(s, step);
    case ResetSeek => ResetOnly(s, step);
    case ResetOpen => ResetOnly(s, step);
    case _ => TurnOnly(s, step);
  }

  lemma ResultKept(s: State, step: Step)
    requires Enabled(s, step) && !step.EndPrime?
    ensures Apply(s, step).result == s.result
  {
    hide Enabled, Apply, Undisturbed;
    if Works(step) {
      WorkerOnly(s, step);
    } else {
      OthersUndisturbed(s, step);
      UndisturbedResult(s, Apply(s, step));
    }
  }

  lemma UndisturbedResult(s: State, r: State)
    requires Undisturbed(s, r)
    ensures r.result == s.result && r.worker == s.worker && (s.seeking ==> r.seeking)
  {
  }

  lemma CodecCarries(s: State, step: Step)
    requires Enabled(s, step) && AsksCodec(step)
    ensures Carries(Apply(s, step).worker, CodecAgrees(step))
  {
    hide Sound;
  }

  lemma {:induction false} CarriedTo(trace: seq<State>, steps: seq<Step>, i: nat, j: nat)
    requires History(trace, steps) && i < j < |trace| && AsksCodec(steps[i])
    requires forall k :: i < k < j ==> !steps[k].EndPrime?
    ensures Carries(trace[j].worker, CodecAgrees(steps[i]))
    decreases j - i
  {
    hide Enabled, Apply, Initial, Carries;
    if j > i + 1 {
      CarriedTo(trace, steps, i, j - 1);
      assert Taken(trace, steps, j - 1);
      CarriesOn(trace[j - 1], steps[j - 1], CodecAgrees(steps[i]));
    } else {
      assert Taken(trace, steps, i);
      CodecCarries(trace[i], steps[i]);
    }
  }

  lemma PrimeAnswers(s: State, ok: bool)
    requires Enabled(s, EndPrime) && Carries(s.worker, ok)
    ensures Apply(s, EndPrime).result == ok && !Apply(s, EndPrime).seeking
  {
  }

  lemma {:induction false} ResultUntil(trace: seq<State>, steps: seq<Step>, j: nat, m: nat)
    requires History(trace, steps) && j <= m < |trace| && forall k :: j <= k < m ==> !steps[k].EndPrime?
    ensures trace[m].result == trace[j].result
    decreases m - j
  {
    hide Enabled, Apply, Initial;
    if j < m {
      ResultUntil(trace, steps, j, m - 1);
      assert Taken(trace, steps, m - 1);
      ResultKept(trace[m - 1], steps[m - 1]);
    }
  }

  /** In every run: what a command answers is what the codec said to it. From the step that asks the codec to the end of
      priming, which ends the command, and until the next command ends, the answer is true if and only if the codec
      reached the target, or opened the stream. */
  lemma AnswerIsTheCodecs(trace: seq<State>, steps: seq<Step>, i: nat, j: nat, m: nat)
    requires History(trace, steps) && i < j < m < |trace|
    requires AsksCodec(steps[i]) && steps[j].EndPrime?
    requires forall k :: i < k < m && k != j ==> !steps[k].EndPrime?
    ensures trace[m].result <==> CodecAgrees(steps[i])
    ensures !trace[j + 1].seeking
  {
    hide Enabled, Apply, Initial, Carries;
    CarriedTo(trace, steps, i, j);
    assert Taken(trace, steps, j);
    PrimeAnswers(trace[j], CodecAgrees(steps[i]));
    ResultUntil(trace, steps, j + 1, m);
  }

  /** And every answer is to such a question. */
  lemma {:induction false} AnswersAreToQuestions(trace: seq<State>, steps: seq<Step>, j: nat) returns (i: nat)
    requires History(trace, steps) && j < |trace| && Asked(trace[j].worker)
    ensures i < j && AsksCodec(steps[i]) && forall k :: i < k < j ==> !steps[k].EndPrime?
  {
    hide Enabled, Apply, Inv, Answering;
    if j == 0 {
      assert false;
    } else {
      assert Taken(trace, steps, j - 1);
      CarriesFrom(trace[j - 1], steps[j - 1]);
      if AsksCodec(steps[j - 1]) {
        i := j - 1;
      } else {
        i := AnswersAreToQuestions(trace, steps, j - 1);
      }
    }
  }

  predicate Asked(w: Worker) {
    Carries(w, true) || Carries(w, false)
  }

  lemma CarriesFrom(s: State, step: Step)
    requires Enabled(s, step) && Asked(Apply(s, step).worker)
    ensures AsksCodec(step) || (Asked(s.worker) && !step.EndPrime?)
  {
    hide FeedTrack.Decoded, Read, Fits, Sound, Move, CheckedFill, Pushed;
    if !Works(step) {
      OthersUndisturbed(s, step);
    } else if step.CheckFill? {
      FillCarries(s, s.worker.filling, true);
      FillCarries(s, s.worker.filling, false);
    } else if step.PushBlock? {
      PushCarries(s, s.worker.filling, s.worker.block, true);
      PushCarries(s, s.worker.filling, s.worker.block, false);
    }
  }

  // ---------------------------------------------------------------- every command is answered

  /** How far a call of `__fill` is from returning. */
  function FillRank(filling: Filling): nat {
    match filling
    case Plain => 3 * PRIME + 10
    case Priming(k, _) => if k < PRIME then 3 * (PRIME - k) else 0
  }

  /** At most how many steps the worker takes until the pending command is answered. */
  function Rank(w: Worker): nat {
    match w
    case Top => 3 * PRIME + 9
    case Picked(_) => 3 * PRIME + 8
    case Seeking(_, _, _, _) => 3 * PRIME + 7
    case Sought(_, _, _, _) => 3 * PRIME + 6
    case Opened(_) => 3 * PRIME + 6
    case Fill(filling) => FillRank(filling) + 3
    case Decoding(filling, _) => FillRank(filling) + 2
    case Decoded(filling, _) => FillRank(filling) + 1
    case Primed(_) => 0
    case Stopped => 0
  }

  lemma RankAfterFill(filling: Filling, filled: bool)
    ensures Rank(AfterFill(filling, filled)) < FillRank(filling) + 1
  {
  }

  /** While a command is pending the worker is never stuck. */
  lemma WorkerCanMove(s: State) returns (step: Step)
    requires Inv(s) && s.seeking && s.running && !s.worker.Stopped?
    ensures Works(step) && Enabled(s, step)
  {
    match s.worker
    case Top => step := Pick;
    case Picked(command) => step := if command == Seek then StartSeek else OpenCodec(None);
    case Seeking(_, _, _, _) => step := SeekCodec(false, false, 0);
    case Sought(_, _, _, _) => step := ResetSeek;
    case Opened(_) => step := ResetOpen;
    case Fill(_) => step := CheckFill;
    case Decoding(_, loop) =>
      FilledIsOutput(s.track, loop, Block(s.decoder, s.decoder, [], false));
      step := DecodeBlock(DecodedAt(s.track, loop, s.decoder));
    case Decoded(_, _) => step := PushBlock;
    case Primed(_) => step := EndPrime;
  }

  predicate Nearer(s: State, r: State) {
    r.running && r.seeking && Rank(r.worker) < Rank(s.worker)
  }

  lemma CheckIsNearer(s: State)
    requires s.running && s.seeking && s.worker.Fill?
    ensures Nearer(s, CheckedFill(s, s.worker.filling))
  {
    RankAfterFill(s.worker.filling, false);
    hide AfterFill;
  }

  lemma PushIsNearer(s: State)
    requires s.running && s.seeking && s.worker.Decoded?
    ensures Nearer(s, Pushed(s, s.worker.filling, s.worker.block))
  {
    RankAfterFill(s.worker.filling, false);
    RankAfterFill(s.worker.filling, true);
    hide AfterFill, Queued;
  }

  lemma CodecIsNearer(s: State, step: Step)
    requires Enabled(s, step) && s.seeking && s.running
    requires step.DecodeBlock? || step.SeekCodec? || step.ResetSeek? || step.OpenCodec? || step.ResetOpen?
    ensures Nearer(s, Apply(s, step))
  {
    hide FeedTrack.Decoded, Sound;
  }

  lemma PickIsNearer(s: State, step: Step)
    requires Handshake(s) && Enabled(s, step) && s.seeking && s.running
    requires step.Pick? || step.StartFill? || step.StartSeek? || step.Stop?
    ensures Nearer(s, Apply(s, step))
  {
  }

  lemma Shaken(s: State)
    requires Inv(s)
    ensures Handshake(s)
  {
  }

  /** Each of its steps brings the answer nearer, and the last one gives it. */
  lemma RankFalls(s: State, step: Step)
    requires Inv(s) && Enabled(s, step) && s.seeking && s.running && Works(step)
    ensures if step.EndPrime? then !Apply(s, step).seeking else Nearer(s, Apply(s, step))
  {
    hide FeedTrack.Decoded, Sound, Nearer, CheckedFill, Pushed, SoughtReset, OpenedReset, Inv, Handshake;
    Shaken(s);
    match step
    case CheckFill => CheckIsNearer(s);
    case PushBlock => PushIsNearer(s);
    case DecodeBlock(_) => CodecIsNearer(s, step);
    case SeekCodec(_, _, _) => CodecIsNearer(s, step);
    case ResetSeek => CodecIsNearer(s, step);
    case OpenCodec(_) => CodecIsNearer(s, step);
    case ResetOpen => CodecIsNearer(s, step);
    case Pick => PickIsNearer(s, step);
    case StartFill => PickIsNearer(s, step);
    case StartSeek => PickIsNearer(s, step);
    case Stop => PickIsNearer(s, step);
    case EndPrime =>
  }

  lemma RankBound(w: Worker)
    ensures Rank(w) <= 3 * PRIME + 13
  {
  }

  function WorkerSteps(steps: seq<Step>): nat {
    if steps == [] then 0 else WorkerSteps(steps[..|steps| - 1]) + if Works(steps[|steps| - 1]) then 1 else 0
  }

  /** A pending command is answered: while it stays pending and the feed is not closed, the worker can always move,
      and it has at most `3 * PRIME + 13` steps to take, whatever readers and other calls do in between. */
  lemma {:induction false} CommandsAreAnswered(trace: seq<State>, steps: seq<Step>, i: nat, j: nat)
    requires History(trace, steps) && i <= j < |trace|
    requires forall k :: i <= k <= j ==> trace[k].seeking && trace[k].running
    ensures WorkerSteps(steps[i..j]) + Rank(trace[j].worker) <= Rank(trace[i].worker) <= 3 * PRIME + 13
    decreases j - i
  {
    hide Enabled, Apply, Initial, Inv, Answering, Rank, Works, Undisturbed;
    RankBound(trace[i].worker);
    if i < j {
      CommandsAreAnswered(trace, steps, i, j - 1);
      HistoryIsRun(trace, steps, j - 1);
      var s, step := trace[j - 1], steps[j - 1];
      assert Taken(trace, steps, j - 1);
      assert steps[i..j][..j - i - 1] == steps[i..j - 1];
      if Works(step) {
        RankFalls(s, step);
      } else {
        OthersUndisturbed(s, step);
        UndisturbedResult(s, Apply(s, step));
      }
    }
  }

  // ---------------------------------------------------------------- what is ready by then

  /** Priming has queued one block per call of `__fill`, until it has its four or the output ends. */
  predicate Primes(s: State) {
    s.running ==>
      match s.worker
      case Fill(filling) => filling.Priming? ==> |s.consumer.queue| == filling.k < PRIME
      case Decoding(filling, _) => filling.Priming? ==> |s.consumer.queue| == filling.k < PRIME
      case Decoded(filling, _) => filling.Priming? ==> |s.consumer.queue| == filling.k < PRIME
      case Primed(_) => |s.consumer.queue| == PRIME || s.eof
      case _ => true
  }

  lemma PrimesPush(s: State)
    requires Inv(s) && Primes(s) && s.worker.Decoded?
    ensures Primes(Pushed(s, s.worker.filling, s.worker.block))
  {
    hide Ready, Faithful, Sound, Tail, BlockOf;
    if s.running && s.worker.filling.Priming? && s.worker.block.pcm == [] {
      EmptyBlockEnds(s);
    }
  }

  /** A block without frames is the end of the output. */
  lemma EmptyBlockEnds(s: State)
    requires Inv(s) && s.running && s.worker.Decoded? && s.worker.block.pcm == []
    requires s.worker.filling.Priming? || !s.seeking
    ensures s.worker.block.ended
  {
    assert FeedTrack.Decoded(s.track, s.loop, Tail(s.consumer), s.worker.block);
  }

  lemma PrimesCheck(s: State)
    requires Primes(s) && s.worker.Fill?
    ensures Primes(CheckedFill(s, s.worker.filling))
  {
  }

  lemma PrimesElsewhere(s: State, step: Step)
    requires Primes(s) && Enabled(s, step) && Works(step) && !step.CheckFill? && !step.PushBlock?
    ensures Primes(Apply(s, step))
  {
    hide FeedTrack.Decoded, Sound, CheckedFill, Pushed;
  }

  lemma PrimesUndisturbed(s: State, r: State)
    requires Handshake(s) && Primes(s) && Undisturbed(s, r)
    ensures Primes(r)
  {
  }

  lemma PrimesOn(s: State, step: Step)
    requires Inv(s) && Primes(s) && Enabled(s, step)
    ensures Primes(Apply(s, step))
  {
    hide Inv, Handshake, Primes, Undisturbed, Read, Fits, FeedTrack.Decoded, Sound, CheckedFill, Pushed, Move;
    if step.PushBlock? {
      PrimesPush(s);
    } else if step.CheckFill? {
      PrimesCheck(s);
    } else if Works(step) {
      PrimesElsewhere(s, step);
    } else {
      Shaken(s);
      OthersUndisturbed(s, step);
      PrimesUndisturbed(s, Apply(s, step));
    }
  }

  /** When a command is about to be answered, four blocks are queued, or all the output there is. */
  lemma {:induction false} AnswersAreReady(trace: seq<State>, steps: seq<Step>, i: nat)
    requires History(trace, steps) && i < |trace|
    ensures Primes(trace[i])
  {
    hide Enabled, Apply, Inv, Answering;
    if i > 0 {
      AnswersAreReady(trace, steps, i - 1);
      HistoryIsRun(trace, steps, i - 1);
      assert Taken(trace, steps, i - 1);
      PrimesOn(trace[i - 1], steps[i - 1]);
    }
  }

  /** An idle worker of an active feed makes one block of output ready, and tells the end exactly when decoding the
      block came to it; a block without frames is the end. */
  lemma IdleWorkerFills(s: State, block: Block)
    requires Inv(s) && s.worker.Top? && s.running && s.command == Idle && s.active && !s.eof
    requires |s.consumer.queue| < BLOCKS && FeedTrack.Decoded(s.track, s.loop, s.decoder, block)
    ensures Enabled(s, StartFill)
    ensures var a := Apply(s, StartFill); Enabled(a, CheckFill)
    ensures var b := Apply(Apply(s, StartFill), CheckFill); Enabled(b, DecodeBlock(block))
    ensures var c := Apply(Apply(Apply(s, StartFill), CheckFill), DecodeBlock(block));
            && Enabled(c, PushBlock)
            && var r := Apply(c, PushBlock);
               && r == s.(consumer := r.consumer, eof := block.ended, decoder := block.end)
               && r.consumer.queue == (if block.pcm == [] then s.consumer.queue else s.consumer.queue + [block])
               && r.consumer.position == s.consumer.position && r.consumer.offset == s.consumer.offset
    ensures block.pcm == [] ==> block.ended
  {
    hide Ready, Faithful, Sound, Tail;
  }

  /** What makes a feed work on its own, and what stops it. */
  predicate Activates(s: State, step: Step) {
    || (step.ReadFrames? && step.want > 0 && !s.seeking)
    || (step.FinishRequest? && s.control.Waiting? && s.control.start && s.running && s.result)
    || (step.RequestStart? && s.running && s.result && s.loop == step.wantLoop)
  }

  lemma WorkerKeepsActive(s: State, step: Step)
    requires Enabled(s, step) && Works(step)
    ensures Apply(s, step).active == s.active
  {
    if !step.EndPrime? {
      WorkerOnly(s, step);
      hide Enabled, Apply;
    }
  }

  lemma MoveActivates(s: State, position: nat, loop: bool, start: bool)
    ensures Move(s, position, loop, start).active <==>
            s.active || (start && s.running && s.result && position == s.consumer.position && s.loop == loop)
  {
  }

  /** A feed works on its own from a read, or a start that succeeded, until it is parked or reopened. */
  lemma ActiveExactly(s: State, step: Step)
    requires Enabled(s, step)
    ensures Apply(s, step).active <==> (s.active && !step.Park? && !step.RequestOpen?) || Activates(s, step)
  {
    hide Read, Fits, Move, FeedTrack.Decoded, Sound, CheckedFill, Pushed;
    if Works(step) {
      WorkerKeepsActive(s, step);
    } else {
      match step
      case RequestSeek(position, wantLoop) => MoveActivates(s, position, wantLoop, false);
      case RequestStart(wantLoop) => MoveActivates(s, s.consumer.position, wantLoop, true);
      case ReadFrames(_) =>
      case RequestOpen =>
      case FinishRequest =>
      case Park =>
      case Close =>
    }
  }
}
