/** The sparse frame index, the warm-up boundary it picks and the cache of such boundaries
    (src/bridges/audio/mp3_index.c:30-172, mp3_marks.c:19-67, mp3.c:413-438). */
module Mp3Index {
  import opened Common

  const STRIDE := 32
  const PREROLL := 16
  const HISTORY := 4
  const MARKS := 16
  const LONG_MAX := 0x7fff_ffff

  /** Version, rate and channels: what `mp3_frame_matches` compares. */
  datatype Format = Format(version: int, rate: nat, channels: nat)

  /** A frame's byte size and main-data payload. */
  datatype Frame = Frame(size: nat, payload: nat)

  /** An immutable file read for one format: the matching complete frame at a byte offset. */
  type File = nat -> Option<Frame>

  /** Frames take at least their header. */
  ghost predicate Framed(file: File) {
    forall at: nat :: file(at).Some? ==> file(at).value.size >= 4
  }

  function Reservoir(format: Format): nat {
    if format.version == 3 then 511 else 255
  }

  /** A frame refers back at most as far as its side information can say: in nine bits for MPEG version 1, in eight
      for the others. The reservoir is that far and no farther. */
  lemma ReservoirReaches(format: Format, nine: bv9, eight: bv8)
    ensures if format.version == 3 then nine as nat <= Reservoir(format) else eight as nat <= Reservoir(format)
    ensures Reservoir(format) == if format.version == 3 then !(0 as bv9) as nat else !(0 as bv8) as nat
  {
    assert !(0 as bv9) == 511 && !(0 as bv8) == 255;
  }

  /** The byte offset of frame `k`, when all frames before it can be read. */
  function OffsetOf(file: File, first: nat, k: nat): Option<nat> {
    if k == 0 then Some(first)
    else
      var before := OffsetOf(file, first, k - 1);
      if before.None? || file(before.value).None? || before.value > LONG_MAX - file(before.value).value.size then None
      else Some(before.value + file(before.value).value.size)
  }

  /** Frame `k` exists: it and every frame before it can be read. */
  predicate HasFrame(file: File, first: nat, k: nat) {
    OffsetOf(file, first, k + 1).Some?
  }

  lemma {:induction false} OffsetEarlier(file: File, first: nat, j: nat, k: nat)
    requires j <= k && OffsetOf(file, first, k).Some?
    ensures OffsetOf(file, first, j).Some?
    ensures j < k ==> file(OffsetOf(file, first, j).value).Some?
    decreases k - j
  {
    if j < k {
      OffsetEarlier(file, first, j + 1, k);
    }
  }

  function PayloadOf(file: File, first: nat, k: nat): nat
    requires HasFrame(file, first, k)
  {
    file(OffsetOf(file, first, k).value).value.payload
  }

  /** Payload of the frames [from, end). */
  function PayloadSum(file: File, first: nat, from: nat, end: nat): nat
    requires from <= end && (from < end ==> HasFrame(file, first, end - 1))
    decreases end - from
  {
    if from == end then 0
    else
      OffsetEarlier(file, first, from + 1, end);
      PayloadOf(file, first, from) + PayloadSum(file, first, from + 1, end)
  }

  lemma {:induction false} PayloadSumBack(file: File, first: nat, from: nat, end: nat)
    requires from <= end && HasFrame(file, first, end)
    ensures OffsetOf(file, first, end).Some?
    ensures from < end ==> HasFrame(file, first, end - 1)
    ensures PayloadSum(file, first, from, end + 1) == PayloadSum(file, first, from, end) + PayloadOf(file, first, end)
    decreases end - from
  {
    OffsetEarlier(file, first, end, end + 1);
    OffsetEarlier(file, first, from + 1, end + 1);
    if from < end {
      PayloadSumBack(file, first, from + 1, end);
    }
  }

  /** More frames, more payload. */
  lemma {:induction false} PayloadGrows(file: File, first: nat, a: nat, b: nat, end: nat)
    requires a <= b <= end && (a < end ==> HasFrame(file, first, end - 1))
    ensures PayloadSum(file, first, b, end) <= PayloadSum(file, first, a, end)
    decreases b - a
  {
    if a < b {
      PayloadGrows(file, first, a + 1, b, end);
    }
  }

  /** Reading the frame at a known offset on the way to a frame that exists. */
  lemma ReadNext(file: File, first: nat, k: nat, last: nat, offset: nat)
    requires k <= last && HasFrame(file, first, last) && OffsetOf(file, first, k) == Some(offset)
    ensures file(offset).Some? && HasFrame(file, first, k)
    ensures OffsetOf(file, first, k + 1) == Some(offset + file(offset).value.size)
    ensures PayloadOf(file, first, k) == file(offset).value.payload
  {
    OffsetEarlier(file, first, k + 1, last + 1);
  }

  /** A frame with its byte offset and payload. */
  ghost predicate Known(file: File, first: nat, k: nat, offset: nat, payload: nat) {
    HasFrame(file, first, k) && OffsetOf(file, first, k) == Some(offset) && payload == PayloadOf(file, first, k)
  }

  // ---------------------------------------------------------------- the boundary to look for

  /** Decoding from frame `f` fills the bit reservoir before the last two frames of history. */
  predicate Fills(file: File, format: Format, first: nat, target: nat, f: nat)
    requires target >= PREROLL && HasFrame(file, first, target)
    requires f <= target - HISTORY
  {
    OffsetEarlier(file, first, target - 2, target + 1);
    PayloadSum(file, first, f, target - 2) >= Reservoir(format)
  }

  lemma {:induction false} PayloadSplit(file: File, first: nat, from: nat, at: nat, end: nat)
    requires from <= at <= end && (from < end ==> HasFrame(file, first, end - 1))
    ensures from < at ==> HasFrame(file, first, at - 1)
    ensures PayloadSum(file, first, from, end) == PayloadSum(file, first, from, at) + PayloadSum(file, first, at, end)
    decreases at - from
  {
    if from < at {
      OffsetEarlier(file, first, at, end);
      PayloadSplit(file, first, from + 1, at, end);
    }
  }

  /** In the stream of all payloads, frame `target - 2` refers back no farther than to where frame `f` begins: the
      decoder has everything that the last two frames before the target can ask for. */
  lemma FillsExactly(file: File, format: Format, first: nat, target: nat, f: nat)
    requires target >= 16 && HasFrame(file, first, target) && f <= target - 4
    ensures HasFrame(file, first, target - 3) && (f > 0 ==> HasFrame(file, first, f - 1))
    ensures Fills(file, format, first, target, f) <==>
            PayloadSum(file, first, 0, f) <=
            PayloadSum(file, first, 0, target - 2) - if format.version == 3 then 511 else 255
  {
    OffsetEarlier(file, first, target - 2, target + 1);
    OffsetEarlier(file, first, f, target + 1);
    PayloadSplit(file, first, 0, f, target - 2);
  }

  /** The latest frame at or before `target - 4`, within 16 frames of the target, that fills the
      reservoir. */
  ghost predicate Boundary(file: File, format: Format, first: nat, target: nat, f: nat)
    requires target >= PREROLL && HasFrame(file, first, target)
  {
    && target - PREROLL <= f <= target - HISTORY
    && Fills(file, format, first, target, f)
    && forall g :: f < g <= target - HISTORY ==> !Fills(file, format, first, target, g)
  }

  lemma BoundaryUnique(file: File, format: Format, first: nat, target: nat, f: nat, g: nat)
    requires target >= PREROLL && HasFrame(file, first, target)
    requires Boundary(file, format, first, target, f) && Boundary(file, format, first, target, g)
    ensures f == g
  {
  }

  datatype Mark = Mark(offset: nat, frame: nat)

  /** What an uncached search of the file answers. */
  ghost predicate Answers(file: File, format: Format, first: nat, target: nat, mark: Mark) {
    && target >= PREROLL && HasFrame(file, first, target)
    && Boundary(file, format, first, target, mark.frame)
    && OffsetOf(file, first, mark.frame) == Some(mark.offset)
  }

  lemma AnswersUnique(file: File, format: Format, first: nat, target: nat, m: Mark, n: Mark)
    requires Answers(file, format, first, target, m) && Answers(file, format, first, target, n)
    ensures m == n
  {
    BoundaryUnique(file, format, first, target, m.frame, n.frame);
  }

  /** Where the frame after the next one stands; without it no later frame is there. */
  lemma ScanNext(file: File, first: nat, n: nat, at: nat, target: nat)
    requires OffsetOf(file, first, n) == Some(at) && n <= target
    ensures file(at).Some? && at <= LONG_MAX - file(at).value.size ==>
              OffsetOf(file, first, n + 1) == Some(at + file(at).value.size)
    ensures file(at).None? || at > LONG_MAX - file(at).value.size ==> !HasFrame(file, first, target)
  {
    if HasFrame(file, first, target) {
      OffsetEarlier(file, first, n + 1, target + 1);
    }
  }

  lemma ScanEnd(file: File, first: nat, target: nat)
    requires OffsetOf(file, first, target + 1).Some?
    ensures HasFrame(file, first, target)
  {
  }

  lemma StrideNext(n: nat)
    ensures (n + 1 + STRIDE - 1) / STRIDE == (n + STRIDE - 1) / STRIDE + if n % STRIDE == 0 then 1 else 0
    ensures n % STRIDE == 0 ==> (n + STRIDE - 1) / STRIDE * STRIDE == n
  {
  }

  // ---------------------------------------------------------------- the index

  class Index {
    const file: File
    const format: Format
    const first: nat
    var offsets: seq<nat>
    var scanned: nat
    var next: nat
    var blocked: bool

    /** `offsets[k]` is the byte offset of frame 32k, up to the scanned frames. */
    ghost predicate Valid()
      reads this
    {
      && Framed(file)
      && OffsetOf(file, first, scanned) == Some(next)
      && |offsets| == (scanned + STRIDE - 1) / STRIDE
      && forall k :: 0 <= k < |offsets| ==> OffsetOf(file, first, k * STRIDE) == Some(offsets[k])
    }

    constructor (file: File, format: Format, first: nat)
      requires Framed(file)
      ensures Valid() && this.file == file && this.format == format && this.first == first && !blocked
    {
      this.file, this.format, this.first := file, format, first;
      offsets, scanned, next, blocked := [], 0, first, false;
    }

    /** `__scan`: read on to the target frame, keeping every 32nd offset; `memory` is how many
        more entries can be stored. */
    method Scan(target: nat, memory: nat) returns (ok: bool)
      requires Valid()
      modifies this`offsets, this`scanned, this`next
      ensures Valid() && old(scanned) <= scanned
      ensures ok ==> scanned > target && HasFrame(file, first, target)
      ensures !ok && target / STRIDE < memory ==> !HasFrame(file, first, target)
    {
      hide OffsetOf, HasFrame;
      var left := memory;
      while scanned <= target
        invariant Valid() && old(scanned) <= scanned
        invariant left + (scanned + STRIDE - 1) / STRIDE >= memory
        decreases target + 1 - scanned
      {
        ScanNext(file, first, scanned, next, target);
        StrideNext(scanned);
        var frame := file(next);
        if frame.None? || next > LONG_MAX - frame.value.size {
          return false;
        }
        if scanned % STRIDE == 0 {
          if left == 0 {
            return false;
          }
          left := left - 1;
          offsets := offsets + [next];
        }
        next := next + frame.value.size;
        scanned := scanned + 1;
      }
      OffsetEarlier(file, first, target + 1, scanned);
      ScanEnd(file, first, target);
      ok := true;
    }

    /** `__locate`: read the 16 frames before the target from the nearest entry, then walk back
        from four frames before it until the reservoir fills. */
    method Locate(target: nat) returns (mark: Option<Mark>)
      requires Valid() && target >= PREROLL && scanned > target && HasFrame(file, first, target)
      ensures mark.Some? ==> Answers(file, format, first, target, mark.value)
      ensures mark.None? ==> forall f :: target - PREROLL <= f <= target - HISTORY ==>
                !Fills(file, format, first, target, f)
    {
      hide HasFrame, PayloadOf, OffsetOf, Index.Valid;
      var window, payloads := ReadWindow(target);
      var start := target - PREROLL;
      var at := PREROLL - HISTORY;
      var payload := payloads[at] + payloads[at + 1];
      assert Known(file, first, start + at, window[at], payloads[at]);
      assert Known(file, first, start + (at + 1), window[at + 1], payloads[at + 1]);
      WindowSum(file, first, target);
      while payload < Reservoir(format) && at > 0
        invariant 0 <= at <= PREROLL - HISTORY
        invariant HasFrame(file, first, target - 3) && payload == PayloadSum(file, first, start + at, target - 2)
        invariant forall f :: start + at < f <= target - HISTORY ==> !Fills(file, format, first, target, f)
      {
        assert !Fills(file, format, first, target, start + at);
        at := at - 1;
        assert Known(file, first, start + at, window[at], payloads[at]);
        payload := payload + payloads[at];
      }
      assert Known(file, first, start + at, window[at], payloads[at]);
      if payload < Reservoir(format) {
        assert !Fills(file, format, first, target, start + at);
        return None;
      }
      mark := Some(Mark(window[at], start + at));
    }

    /** Lines 94-115: offsets and payloads of the frames [target - 16, target). */
    method ReadWindow(target: nat) returns (window: seq<nat>, payloads: seq<nat>)
      requires Valid() && target >= PREROLL && scanned > target && HasFrame(file, first, target)
      ensures |window| == |payloads| == PREROLL
      ensures forall k :: 0 <= k < PREROLL ==> Known(file, first, target - PREROLL + k, window[k], payloads[k])
    {
      hide HasFrame, PayloadOf;
      var start := target - PREROLL;
      var slot := start / STRIDE;
      var offset := offsets[slot];
      window, payloads := [], [];
      var frame := slot * STRIDE;
      while frame < target
        invariant slot * STRIDE <= frame <= target && OffsetOf(file, first, frame) == Some(offset)
        invariant |window| == |payloads| == if frame > start then frame - start else 0
        invariant forall k :: 0 <= k < |window| ==> Known(file, first, start + k, window[k], payloads[k])
      {
        ReadNext(file, first, frame, target, offset);
        var packet := file(offset).value;
        if frame >= start {
          assert Known(file, first, frame, offset, packet.payload);
          window, payloads := window + [offset], payloads + [packet.payload];
        }
        offset := offset + packet.size;
        frame := frame + 1;
      }
    }
  }

  /** The sum the walk starts from: the two frames before the last two. */
  lemma WindowSum(file: File, first: nat, target: nat)
    requires target >= PREROLL && HasFrame(file, first, target)
    ensures HasFrame(file, first, target - 3) && HasFrame(file, first, target - 4)
    ensures PayloadSum(file, first, target - 4, target - 2) ==
            PayloadOf(file, first, target - 4) + PayloadOf(file, first, target - 3)
  {
    OffsetEarlier(file, first, target - 2, target + 1);
    OffsetEarlier(file, first, target - 3, target + 1);
    assert PayloadSum(file, first, target - 2, target - 2) == 0;
    assert PayloadSum(file, first, target - 3, target - 2) == PayloadOf(file, first, target - 3);
  }

  // ---------------------------------------------------------------- the warm-up

  /** The frames [.., end) that decode without a gap up to `end`. */
  function Streak(decodes: nat -> bool, from: nat, end: nat): nat
    requires from <= end
    decreases end - from
  {
    if from == end || !decodes(end - 1) then 0 else Streak(decodes, from, end - 1) + 1
  }

  /** `__preroll` from a boundary the index chose: the payload it recomputes is the one the
      index checked, so it succeeds exactly when the last two frames decode in full; it reads
      on to the target frame in any case. `last` is where the last frame it decoded stands. */
  method Preroll(file: File, format: Format, first: nat, target: nat, mark: Mark, decodes: nat -> bool)
      returns (ok: bool, end: nat, last: Option<nat>)
    requires Framed(file) && Answers(file, format, first, target, mark)
    ensures ok <==> decodes(target - 1) && decodes(target - 2)
    ensures OffsetOf(file, first, target) == Some(end)
    ensures last.None? <==> forall k :: mark.frame <= k < target ==> !decodes(k)
  {
    hide Answers, Counted, HasFrame, OffsetOf;
    var ready: nat, payload: nat := 0, 0;
    var offset := mark.offset;
    var frame := mark.frame;
    last := None;
    CountedStart(file, format, first, target, mark);
    StreakOfTwo(decodes, mark.frame, target);
    while frame < target
      invariant mark.frame <= frame <= target && OffsetOf(file, first, frame) == Some(offset)
      invariant ready == Streak(decodes, mark.frame, frame)
      invariant last.None? <==> forall k :: mark.frame <= k < frame ==> !decodes(k)
      invariant Counted(file, first, mark.frame, if frame <= target - 2 then frame else target - 2, payload)
    {
      CountedNext(file, first, mark.frame, frame, target, offset, payload);
      var packet := file(offset).value;
      if frame + 2 < target {
        payload := payload + packet.payload;
      }
      if decodes(frame) {
        ready, last := ready + 1, Some(offset);
      } else {
        ready := 0;
      }
      offset := offset + packet.size;
      frame := frame + 1;
    }
    CountedEnd(file, format, first, target, mark, payload);
    ok, end := ready >= 2 && payload >= Reservoir(format), offset;
  }

  /** The payload of the frames from one to another, the last of which is there. */
  ghost predicate Counted(file: File, first: nat, from: nat, end: nat, payload: nat) {
    from <= end && (from < end ==> HasFrame(file, first, end - 1)) && payload == PayloadSum(file, first, from, end)
  }

  lemma CountedStart(file: File, format: Format, first: nat, target: nat, mark: Mark)
    requires Answers(file, format, first, target, mark)
    ensures HasFrame(file, first, target) && mark.frame + HISTORY <= target
    ensures OffsetOf(file, first, mark.frame) == Some(mark.offset) && Counted(file, first, mark.frame, mark.frame, 0)
  {
  }

  lemma CountedNext(file: File, first: nat, from: nat, frame: nat, target: nat, offset: nat, payload: nat)
    requires HasFrame(file, first, target) && frame < target && from + 2 <= target
    requires OffsetOf(file, first, frame) == Some(offset)
    requires Counted(file, first, from, if frame <= target - 2 then frame else target - 2, payload)
    ensures file(offset).Some? && OffsetOf(file, first, frame + 1) == Some(offset + file(offset).value.size)
    ensures Counted(file, first, from, if frame + 1 <= target - 2 then frame + 1 else target - 2,
                if frame + 2 < target then payload + file(offset).value.payload else payload)
  {
    hide HasFrame, PayloadOf, OffsetOf, PayloadSum;
    ReadNext(file, first, frame, target, offset);
    if frame + 2 < target {
      PayloadSumBack(file, first, from, frame);
    }
  }

  lemma CountedEnd(file: File, format: Format, first: nat, target: nat, mark: Mark, payload: nat)
    requires Answers(file, format, first, target, mark) && Counted(file, first, mark.frame, target - 2, payload)
    ensures payload >= Reservoir(format)
  {
    PrerollPays(file, format, first, target, mark);
  }

  lemma PrerollPays(file: File, format: Format, first: nat, target: nat, mark: Mark)
    requires Answers(file, format, first, target, mark)
    ensures target >= PREROLL && mark.frame <= target - HISTORY &&
            OffsetOf(file, first, mark.frame) == Some(mark.offset)
    ensures HasFrame(file, first, target) && HasFrame(file, first, target - 3)
    ensures PayloadSum(file, first, mark.frame, target - 2) >= Reservoir(format)
  {
    OffsetEarlier(file, first, target - 2, target + 1);
    assert Fills(file, format, first, target, mark.frame);
  }

  lemma StreakOfTwo(decodes: nat -> bool, from: nat, end: nat)
    requires from + 2 <= end
    ensures Streak(decodes, from, end) >= 2 <==> decodes(end - 1) && decodes(end - 2)
  {
  }

  // ---------------------------------------------------------------- the mark cache

  /** A cached boundary; an empty path marks an unused row. */
  datatype Row = Row(path: string, first: nat, format: Format, target: nat, mark: Mark)

  /** Installed files are immutable: path and format name one readable file. */
  type Disk = (string, Format) -> File

  class MarkCache {
    const disk: Disk
    const rows: array<Row>
    var next: nat

    /** Every used row holds what an uncached search of its file would answer. */
    ghost predicate Valid()
      reads this, rows
    {
      && rows.Length == MARKS && next < MARKS
      && forall i :: 0 <= i < MARKS && rows[i].path != "" ==>
           Answers(disk(rows[i].path, rows[i].format), rows[i].format, rows[i].first, rows[i].target, rows[i].mark)
    }

    constructor (disk: Disk)
      ensures Valid() && fresh(rows) && this.disk == disk
    {
      this.disk := disk;
      rows := new Row[MARKS](_ => Row("", 0, Format(0, 0, 0), 0, Mark(0, 0)));
      next := 0;
    }

    /** `mp3_mark_get`: a hit is transparent. */
    method Get(path: string, first: nat, format: Format, target: nat) returns (mark: Option<Mark>)
      requires Valid()
      ensures mark.Some? ==> Answers(disk(path, format), format, first, target, mark.value)
      ensures mark.None? <==> path == "" || forall i :: 0 <= i < MARKS ==>
                rows[i].first != first || rows[i].target != target || rows[i].path != path || rows[i].format != format
    {
      if path == "" {
        return None;
      }
      var index := 0;
      while index < MARKS
        invariant 0 <= index <= MARKS
        invariant forall i :: 0 <= i < index ==>
                    rows[i].first != first || rows[i].target != target || rows[i].path != path ||
                        rows[i].format != format
      {
        var row := rows[index];
        if row.first == first && row.target == target && row.path == path && row.format == format {
          return Some(row.mark);
        }
        index := index + 1;
      }
      mark := None;
    }

    /** `mp3_mark_put`: overwrite the rows in turn. */
    method Put(path: string, first: nat, format: Format, target: nat, mark: Mark)
      requires Valid() && Answers(disk(path, format), format, first, target, mark)
      modifies this`next, rows
      ensures Valid()
      ensures path == "" ==> rows[..] == old(rows[..]) && next == old(next)
      ensures path != "" ==>
                rows[..] == old(rows[..])[old(next) := Row(path, first, format, target, mark)] &&
                next == (old(next) + 1) % MARKS
    {
      if path == "" {
        return;
      }
      rows[next] := Row(path, first, format, target, mark);
      next := (next + 1) % MARKS;
    }

    /** `mp3_mark_clear`. */
    method Clear()
      requires Valid()
      modifies this`next, rows
      ensures Valid() && forall i :: 0 <= i < MARKS ==> rows[i].path == ""
    {
      forall i | 0 <= i < MARKS {
        rows[i] := Row("", 0, Format(0, 0, 0), 0, Mark(0, 0));
      }
      next := 0;
    }
  }

  /** `mp3_index_find`: with or without the cache the answer is the file's own; a target that
      is answered has its frame in the file. A failed search blocks the index for good. `tell`
      and `back` are whether the file position can be saved and restored; `kept` says that it
      is where it was. */
  method Find(index: Index, cache: MarkCache, path: string, target: nat, memory: nat, tell: bool, back: bool)
      returns (mark: Option<Mark>, kept: bool)
    requires index.Valid() && cache.Valid() && index.file == cache.disk(path, index.format)
    modifies index, cache`next, cache.rows
    ensures index.Valid() && cache.Valid()
    ensures mark.Some? ==> Answers(index.file, index.format, index.first, target, mark.value)
    ensures mark.Some? ==> HasFrame(index.file, index.first, target)
    ensures mark.None? <== old(index.blocked)
    ensures mark.None? && !old(index.blocked) && target / STRIDE < memory && tell && back ==>
              forall m :: !Answers(index.file, index.format, index.first, target, m)
    ensures mark.None? && target >= PREROLL && tell ==> index.blocked
    ensures mark.Some? || back ==> kept
  {
    kept := true;
    if index.blocked || target < PREROLL {
      return None, true;
    }
    mark := cache.Get(path, index.first, index.format, target);
    if mark.None? {
      if !tell {
        return;
      }
      var result := true;
      if target >= index.scanned {
        result := index.Scan(target, memory);
      } else {
        OffsetEarlier(index.file, index.first, target + 1, index.scanned);
      }
      if result {
        mark := index.Locate(target);
      }
      if !back {
        mark, kept := None, false;
      }
      if mark.None? {
        index.blocked := true;
        return;
      }
      cache.Put(path, index.first, index.format, target, mark.value);
    }
  }
}
