/** Position arithmetic of the MP3 resampler (src/bridges/audio/mp3.c:347-411, 440-477): source
    frames at the file's rate, output frames at 48000 per second, and a phase between them. */
module Mp3Position {
  const OUTPUT := 48000

  /** `source` counts source frames consumed, `phase` is the fraction of the next one in
      units of 1/48000, and `output` counts output frames produced. */
  datatype Position = Position(source: nat, phase: nat, output: nat)

  const START := Position(0, 0, 0)

  /** One output frame of sequential playback (lines 371-379) of a file of `total` source
      frames; nothing follows the end. */
  function Step(p: Position, rate: nat, total: nat): Position
    requires 0 < rate <= OUTPUT
  {
    if p.source >= total then p
    else if p.phase + rate < OUTPUT then Position(p.source, p.phase + rate, p.output + 1)
    else Position(p.source + 1, p.phase + rate - OUTPUT, p.output + 1)
  }

  /** Where `n` calls of `vita_mp3_next_sample` from the start leave the stream. */
  function Sequential(n: nat, rate: nat, total: nat): Position
    requires 0 < rate <= OUTPUT
  {
    if n == 0 then START else Step(Sequential(n - 1, rate, total), rate, total)
  }

  /** Exact resampling: no drift between source and output. */
  predicate InPhase(p: Position, rate: nat) {
    p.source * OUTPUT + p.phase == p.output * rate && p.phase < OUTPUT
  }

  /** A position sequential playback of the file passes through, or its end. */
  predicate OnTrack(p: Position, rate: nat, total: nat) {
    InPhase(p, rate) && p.source <= total && (p.source == total ==> p.phase < rate)
  }

  // ---------------------------------------------------------------- arithmetic

  /** Multiplication keeps the order, by at least one multiple. */
  lemma MulOrder(a: nat, b: nat, c: nat)
    ensures a < b ==> a * c + c <= b * c
    ensures a <= b ==> a * c <= b * c
  {
    if a < b {
      assert b * c == (a + 1) * c + (b - a - 1) * c;
    }
  }

  lemma DivMod(x: nat, d: nat)
    requires d > 0
    ensures x == x / d * d + x % d
  {
  }

  lemma DivUnique(x: nat, d: nat, q: nat, r: nat)
    requires d > 0 && x == q * d + r && r < d
    ensures x / d == q && x % d == r
  {
    DivMod(x, d);
    MulOrder(x / d, q, d);
    MulOrder(q, x / d, d);
  }

  /** Output frames determine where in-phase playback stands. */
  lemma InPhaseUnique(p: Position, q: Position, rate: nat)
    requires InPhase(p, rate) && InPhase(q, rate) && p.output == q.output
    ensures p == q
  {
    DivUnique(p.output * rate, OUTPUT, p.source, p.phase);
    DivUnique(q.output * rate, OUTPUT, q.source, q.phase);
  }

  lemma StepOnTrack(p: Position, rate: nat, total: nat)
    requires 0 < rate <= OUTPUT && OnTrack(p, rate, total)
    ensures var q := Step(p, rate, total);
            OnTrack(q, rate, total) && if p.source == total then q == p else q.output == p.output + 1
  {
    assert (p.output + 1) * rate == p.output * rate + rate;
  }

  /** Sequential playback stays on track and counts every frame until the end. */
  lemma {:induction false} SequentialOnTrack(n: nat, rate: nat, total: nat)
    requires 0 < rate <= OUTPUT
    ensures OnTrack(Sequential(n, rate, total), rate, total) && Sequential(n, rate, total).source <= total
    ensures Sequential(n, rate, total).output <= n
    ensures Sequential(n, rate, total).source < total ==> Sequential(n, rate, total).output == n
    ensures Sequential(n, rate, total).output < n ==> Sequential(n, rate, total).source == total
  {
    assert n == 0 ==> OnTrack(START, rate, total);
    hide OnTrack, Step;
    if n > 0 {
      SequentialOnTrack(n - 1, rate, total);
      StepOnTrack(Sequential(n - 1, rate, total), rate, total);
    }
  }

  /** Before the end the position has a closed form: `source * 48000 + phase == n * rate`. */
  lemma {:induction false} SequentialIsExact(n: nat, rate: nat, total: nat)
    requires 0 < rate <= OUTPUT && Sequential(n, rate, total).output == n
    ensures Sequential(n, rate, total) == Position(n * rate / OUTPUT, n * rate % OUTPUT, n)
  {
    SequentialOnTrack(n, rate, total);
    var p := Sequential(n, rate, total);
    DivUnique(n * rate, OUTPUT, p.source, p.phase);
  }

  /** Two on-track positions: fewer output frames means no later in the source. */
  lemma OnTrackOrder(p: Position, q: Position, rate: nat, total: nat)
    requires 0 < rate <= OUTPUT && OnTrack(p, rate, total) && OnTrack(q, rate, total)
    requires p.output < q.output
    ensures p.source < total && p.source <= q.source
  {
    MulOrder(p.output, q.output, rate);
    MulOrder(q.source, p.source, OUTPUT);
  }

  /** An on-track position is the one sequential playback reaches by its own count, and stays
      the answer for every larger count once the end is reached. */
  lemma {:induction false} OnTrackIsSequential(p: Position, n: nat, rate: nat, total: nat)
    requires 0 < rate <= OUTPUT && OnTrack(p, rate, total)
    requires p.output == n || (p.output < n && p.source == total)
    ensures p == Sequential(n, rate, total)
  {
    SequentialOnTrack(n, rate, total);
    var q := Sequential(n, rate, total);
    if p.output < q.output {
      OnTrackOrder(p, q, rate, total);
    } else if q.output < p.output {
      OnTrackOrder(q, p, rate, total);
    }
    InPhaseUnique(p, q, rate);
  }

  // ---------------------------------------------------------------- jumps

  /** Smallest number of steps of `rate` that cover `distance`. */
  function Ceil(distance: nat, rate: nat): nat
    requires rate > 0
  {
    (distance + rate - 1) / rate
  }

  lemma CeilBounds(distance: nat, rate: nat)
    requires rate > 0
    ensures distance <= Ceil(distance, rate) * rate < distance + rate
  {
    var x := distance + rate - 1;
    DivMod(x, rate);
    assert x % rate < rate;
  }

  lemma CeilLeast(distance: nat, rate: nat, n: nat)
    requires rate > 0 && distance <= n * rate
    ensures Ceil(distance, rate) <= n
  {
    CeilBounds(distance, rate);
    MulOrder(n, Ceil(distance, rate), rate);
  }

  /** The position after `step` output frames at once (lines 404-407). */
  function Jump(p: Position, step: nat, rate: nat): Position {
    var phase := p.phase + step * rate;
    Position(p.source + phase / OUTPUT, phase % OUTPUT, p.output + step)
  }

  lemma JumpOne(p: Position, rate: nat, total: nat)
    requires 0 < rate <= OUTPUT && p.phase < OUTPUT && p.source < total
    ensures Jump(p, 1, rate) == Step(p, rate, total)
  {
  }

  /** How many output frames lines 396-398 allow when `left` source frames are decoded. */
  function Room(p: Position, left: nat, rate: nat): nat
    requires rate > 0 && left * OUTPUT >= p.phase
  {
    Ceil(left * OUTPUT - p.phase, rate)
  }

  /** A jump within the room never passes the end of the decoded frame, and stays in phase; one that uses all of it
      lands exactly on that end, with a phase below one step. */
  lemma JumpStays(p: Position, step: nat, left: nat, rate: nat)
    requires 0 < rate <= OUTPUT && p.phase < OUTPUT && left > 0 && step <= Room(p, left, rate)
    ensures var q := Jump(p, step, rate);
            && (InPhase(p, rate) ==> InPhase(q, rate)) && q.source <= p.source + left
            && (step == Room(p, left, rate) ==> q.source == p.source + left)
            && (q.source == p.source + left ==> q.phase < rate)
    ensures Room(p, left, rate) > 0
  {
    assert left * OUTPUT >= OUTPUT;
    var room := Room(p, left, rate);
    CeilBounds(left * OUTPUT - p.phase, rate);
    var phase := p.phase + step * rate;
    MulOrder(step, room, rate);
    DivMod(phase, OUTPUT);
    var q := Jump(p, step, rate);
    assert (p.output + step) * rate == p.output * rate + step * rate;
    assert q.source * OUTPUT == p.source * OUTPUT + phase / OUTPUT * OUTPUT;
    MulOrder(left, phase / OUTPUT, OUTPUT);
    MulOrder(phase / OUTPUT, left, OUTPUT);
  }

  /** The split multiplication at lines 447-448 is exact, though it never forms `n * rate`. */
  lemma SplitProduct(n: nat, rate: nat)
    ensures n / OUTPUT * rate + n % OUTPUT * rate / OUTPUT == n * rate / OUTPUT
  {
    var q, r := n / OUTPUT, n % OUTPUT;
    DivMod(n, OUTPUT);
    DivMod(r * rate, OUTPUT);
    var s, t := r * rate / OUTPUT, r * rate % OUTPUT;
    assert n * rate == q * OUTPUT * rate + r * rate;
    assert q * OUTPUT * rate == q * rate * OUTPUT;
    assert n * rate == (q * rate + s) * OUTPUT + t;
    DivUnique(n * rate, OUTPUT, q * rate + s, t);
  }

  /** The first output frame at or after source frame `base`, with its phase (lines 471-472). */
  function Entry(base: nat, rate: nat): Position
    requires rate > 0
  {
    var output := Ceil(base * OUTPUT, rate);
    CeilBounds(base * OUTPUT, rate);
    Position(base, output * rate - base * OUTPUT, output)
  }

  /** Entering at the frame that holds output `n` is on track and not past `n`. */
  lemma EntryOnTrack(n: nat, samples: nat, rate: nat, total: nat)
    requires 0 < rate <= OUTPUT && samples > 0
    requires n * rate / OUTPUT / samples * samples <= total
    ensures var p := Entry(n * rate / OUTPUT / samples * samples, rate);
            OnTrack(p, rate, total) && p.output <= n && p.phase < rate
  {
    var source := n * rate / OUTPUT;
    var base := source / samples * samples;
    DivMod(source, samples);
    DivMod(n * rate, OUTPUT);
    CeilBounds(base * OUTPUT, rate);
    assert base * OUTPUT <= source * OUTPUT;
    CeilLeast(base * OUTPUT, rate, n);
  }

  // ---------------------------------------------------------------- looping and widths

  /** One looped output frame: the end stands for the start, before and after. */
  function LoopStep(p: Position, rate: nat, total: nat): Position
    requires 0 < rate <= OUTPUT
  {
    var next := Step(if p.source == total then START else p, rate, total);
    if next.source == total then START else next
  }

  /** The audio feed tells a wrap by a falling position. In a non-empty file every looped step
      rises by one or falls exactly when the file yields more than one output frame. */
  lemma LoopIsVisible(rate: nat, total: nat)
    requires 0 < rate <= OUTPUT && total > 0
    ensures (forall p :: OnTrack(p, rate, total) ==>
              LoopStep(p, rate, total).output == p.output + 1 || LoopStep(p, rate, total).output < p.output)
            <==> total > 1 || rate < OUTPUT
  {
    var first := Step(START, rate, total);
    if total > 1 || rate < OUTPUT {
      forall p | OnTrack(p, rate, total)
        ensures LoopStep(p, rate, total).output == p.output + 1 || LoopStep(p, rate, total).output < p.output
      {
        assert OnTrack(START, rate, total);
        SequentialOnTrack(1, rate, total);
        assert Sequential(1, rate, total) == first by { assert Sequential(0, rate, total) == START; }
        if p.output == 0 { InPhaseUnique(p, START, rate); }
        if p.output == 1 { InPhaseUnique(p, first, rate); }
      }
    } else {
      assert OnTrack(START, rate, total) && LoopStep(START, rate, total) == START;
    }
  }

  const UINT64_MAX := 0xffff_ffff_ffff_ffff

  /** The 64-bit products of lines 446-472 do not wrap, for any 64-bit position. */
  lemma SeekArithmeticFits(position: nat, rate: nat, samples: nat)
    requires position <= UINT64_MAX && 0 < rate <= OUTPUT && 0 < samples <= 1152
    ensures position / OUTPUT * rate + position % OUTPUT * rate / OUTPUT <= UINT64_MAX
    ensures position % OUTPUT * rate <= UINT64_MAX
    ensures forall target: nat :: target < 0xffff_ffff ==>
              target * samples * OUTPUT + rate - 1 <= UINT64_MAX &&
                  Entry(target * samples, rate).output * rate <= UINT64_MAX
  {
    ProductFits(position, rate);
    RestFits(position, rate);
    forall target: nat | target < 0xffff_ffff
      ensures target * samples * OUTPUT + rate - 1 <= UINT64_MAX &&
              Entry(target * samples, rate).output * rate <= UINT64_MAX
    {
      EntryFits(target, rate, samples);
    }
  }

  lemma ProductFits(position: nat, rate: nat)
    requires position <= UINT64_MAX && 0 < rate <= OUTPUT
    ensures position / OUTPUT * rate + position % OUTPUT * rate / OUTPUT <= UINT64_MAX
  {
    SplitProduct(position, rate);
    MulOrder(rate, OUTPUT, position);
    DivMod(position * rate, OUTPUT);
    MulOrder(position, position * rate / OUTPUT, OUTPUT);
  }

  lemma RestFits(position: nat, rate: nat)
    requires 0 < rate <= OUTPUT
    ensures position % OUTPUT * rate <= UINT64_MAX
  {
    MulOrder(position % OUTPUT, OUTPUT, rate);
  }

  lemma EntryFits(target: nat, rate: nat, samples: nat)
    requires 0 < rate <= OUTPUT && 0 < samples <= 1152 && target < 0xffff_ffff
    ensures target * samples * OUTPUT + rate - 1 <= UINT64_MAX
    ensures Entry(target * samples, rate).output * rate <= UINT64_MAX
  {
    MulOrder(target, 0xffff_ffff, samples);
    var frames := target * samples;
    assert frames <= 0xffff_ffff * 1152;
    CeilBounds(frames * OUTPUT, rate);
  }
}
