/** Packing of native call arguments (src/bridges/jni/native_call.c:6-24, 73-176), against an allocator
    written from the Arm procedure call standard: AAPCS32, section 6.5, stage C, rules C.3 to C.8. */
module NativeCall {
  import opened Common
  import opened Descriptor

  const WORD := 0x1_0000_0000

  type Word = w: int | 0 <= w < WORD

  // ---------------------------------------------------------------- values

  /** The union `jvalue` as its two little-endian words. */
  datatype JValue = JValue(lo: Word, hi: Word)

  function Signed(v: nat, size: nat): int {
    if 2 * v < size then v else v - size
  }

  /** The member of the union a type code selects; floating-point values are their bits. */
  function Member(kind: char, v: JValue): int {
    match kind
    case 'Z' => v.lo % 0x100
    case 'B' => Signed(v.lo % 0x100, 0x100)
    case 'C' => v.lo % 0x1_0000
    case 'S' => Signed(v.lo % 0x1_0000, 0x1_0000)
    case 'I' => Signed(v.lo, WORD)
    case 'J' => Signed(v.lo + v.hi * WORD, WORD * WORD)
    case 'D' => v.lo + v.hi * WORD
    case _ => v.lo
  }

  /** How wide the Java Native Interface specification makes a type, and which are signed. */
  function Bytes(kind: char): nat {
    if kind == 'Z' || kind == 'B' then 1 else if kind == 'C' || kind == 'S' then 2
    else if kind == 'J' || kind == 'D' then 8 else 4
  }

  function Values(bytes: nat): (n: nat)
    ensures n > 0
  {
    if bytes == 0 then 1 else 256 * Values(bytes - 1)
  }

  predicate InRange(kind: char, x: int) {
    var n := Values(Bytes(kind));
    if kind == 'B' || kind == 'S' || kind == 'I' || kind == 'J' then 2 * x + n >= 0 && 2 * x < n else 0 <= x < n
  }

  /** The member is a value of its type, and the union holds exactly its bytes, whatever stands behind them. */
  lemma MemberIsExact(kind: char, v: JValue, x: int)
    requires ParameterKind(kind) && InRange(kind, x)
    ensures InRange(kind, Member(kind, v))
    ensures Member(kind, v) == x <==> (v.lo + v.hi * WORD) % Values(Bytes(kind)) == x % Values(Bytes(kind))
  {
    hide Values, Signed;
    ValuesAre();
    LowBytes(v);
    var n, w := Values(Bytes(kind)), v.lo + v.hi * WORD;
    SignedIsExact(w % n, n, x);
    UnsignedIsExact(w % n, n, x);
  }

  lemma ValuesAre()
    ensures Values(1) == 0x100 && Values(2) == 0x1_0000 && Values(4) == WORD && Values(8) == WORD * WORD
  {
    assert Values(3) == 0x100 * Values(2);
    assert Values(5) == 0x100 * WORD && Values(6) == 0x1_0000 * WORD && Values(7) == 0x100 * Values(6);
  }

  lemma SignedIsExact(low: nat, n: nat, x: int)
    requires low < n && n % 2 == 0
    ensures 2 * Signed(low, n) + n >= 0 && 2 * Signed(low, n) < n
    ensures 2 * x + n >= 0 && 2 * x < n ==> (Signed(low, n) == x <==> low == x % n)
  {
    if 2 * x + n >= 0 && 2 * x < n {
      Wraps(x, n);
    }
  }

  lemma Wraps(x: int, n: nat)
    requires n > 0 && 0 <= x + n && x < n
    ensures x % n == if x < 0 then x + n else x
  {
    var q, r := x / n, x % n;
    assert x == q * n + r;
    assert q >= 1 ==> q * n >= n;
    assert q <= -2 ==> (q + 2) * n <= 0;
  }

  lemma UnsignedIsExact(low: nat, n: nat, x: int)
    requires low < n
    ensures 0 <= x < n ==> (low == x <==> low == x % n)
  {
  }

  lemma LowBytes(v: JValue)
    ensures (v.lo + v.hi * WORD) % 0x100 == v.lo % 0x100 && (v.lo + v.hi * WORD) % 0x1_0000 == v.lo % 0x1_0000
    ensures (v.lo + v.hi * WORD) % WORD == v.lo && (v.lo + v.hi * WORD) % (WORD * WORD) == v.lo + v.hi * WORD
  {
    RemainderIs(v.lo + v.hi * WORD, v.lo / 0x100 + v.hi * 0x100_0000, v.lo % 0x100, 0x100);
    RemainderIs(v.lo + v.hi * WORD, v.lo / 0x1_0000 + v.hi * 0x1_0000, v.lo % 0x1_0000, 0x1_0000);
    RemainderIs(v.lo + v.hi * WORD, v.hi, v.lo, WORD);
    RemainderIs(v.lo + v.hi * WORD, 0, v.lo + v.hi * WORD, WORD * WORD);
  }

  lemma RemainderIs(x: int, p: int, r: nat, n: nat)
    requires r < n && x == p * n + r
    ensures x % n == r
  {
    var q := x / n - p;
    assert q * n == r - x % n;
    assert q >= 1 ==> q * n >= n;
    assert q <= -1 ==> (q + 1) * n <= 0;
  }

  predicate Wide(kind: char) {
    kind == 'J' || kind == 'D'
  }

  predicate ParameterKind(kind: char) {
    kind in {'Z', 'B', 'C', 'S', 'I', 'J', 'F', 'D', 'L'}
  }

  predicate ReturnKind(kind: char) {
    kind == 'V' || ParameterKind(kind)
  }

  // ---------------------------------------------------------------- the procedure call standard

  /** The next core register number and the next stacked argument address (from SP). */
  datatype Allocator = Allocator(ncrn: nat, nsaa: nat)

  datatype Location = Registers(first: nat) | Stack(offset: nat) | Split(first: nat, rest: nat)

  const START := Allocator(0, 0)

  function Size(kind: char): nat {
    if Wide(kind) then 8 else 4
  }

  /** Stage C for one fundamental type of 4 or 8 bytes, aligned to its size. */
  function Allocate(a: Allocator, kind: char): (r: (Location, Allocator)) {
    var words := Size(kind) / 4;
    var ncrn := if Wide(kind) && a.ncrn % 2 == 1 then a.ncrn + 1 else a.ncrn;               // C.3
    if ncrn + words <= 4 then (Registers(ncrn), Allocator(ncrn + words, a.nsaa))            // C.4
    else if ncrn < 4 && a.nsaa == 0 then                                                    // C.5
      (Split(ncrn, a.nsaa), Allocator(4, a.nsaa + 4 * (words - (4 - ncrn))))
    else                                                                                    // C.6 to C.8
      var nsaa := if Wide(kind) && a.nsaa % 8 != 0 then a.nsaa + 8 - a.nsaa % 8 else a.nsaa;
      (Stack(nsaa), Allocator(4, nsaa + Size(kind)))
  }

  function AllocateAll(kinds: string): Allocator {
    if kinds == "" then START else Allocate(AllocateAll(kinds[..|kinds| - 1]), kinds[|kinds| - 1]).1
  }

  /** Where the standard puts parameter `k`. */
  function LocationOf(kinds: string, k: nat): Location
    requires k < |kinds|
  {
    Allocate(AllocateAll(kinds[..k]), kinds[k]).0
  }

  /** The word a callee finds at a location: r0 to r3, then the stack upwards. */
  function WordAt(words: seq<Word>, at: Location, i: nat): (w: Option<Word>) {
    match at
    case Registers(first) => if first + i < 4 && first + i < |words| then Some(words[first + i]) else None
    case Stack(offset) =>
      if offset % 4 == 0 && 4 + offset / 4 + i < |words| then Some(words[4 + offset / 4 + i]) else None
    case Split(_, _) => None
  }

  /** How a callee reads a parameter of a type: narrow values come extended to a word. */
  function CalleeReads(kind: char, words: seq<Word>, at: Location): Option<int> {
    var first, second := WordAt(words, at, 0), WordAt(words, at, 1);
    if first.None? || (Wide(kind) && second.None?) then None
    else match kind
      case 'J' => Some(Signed(first.value + second.value * WORD, WORD * WORD))
      case 'D' => Some(first.value + second.value * WORD)
      case 'B' => Some(Signed(first.value, WORD))
      case 'S' => Some(Signed(first.value, WORD))
      case 'I' => Some(Signed(first.value, WORD))
      case _ => Some(first.value)
  }

  // ---------------------------------------------------------------- packing

  function Narrow(kind: char, v: JValue): Word {
    Member(kind, v) % WORD
  }

  function Append(words: seq<Word>, kind: char, v: JValue): seq<Word> {
    if Wide(kind) then (if |words| % 2 == 1 then words + [0] else words) + [v.lo, v.hi]
    else words + [Narrow(kind, v)]
  }

  function Packed(kinds: string, values: seq<JValue>): seq<Word>
    requires |kinds| == |values|
  {
    var n := |kinds| - 1;
    if kinds == "" then [] else Append(Packed(kinds[..n], values[..n]), kinds[n], values[n])
  }

  /** The allocator never leaves registers free once it uses the stack. */
  predicate Sound(a: Allocator) {
    a.ncrn <= 4 && a.nsaa % 4 == 0 && (a.ncrn < 4 ==> a.nsaa == 0)
  }

  /** The next free word, counted from r0 on into the stack. */
  function Position(a: Allocator): nat {
    if a.ncrn < 4 then a.ncrn else 4 + a.nsaa / 4
  }

  /** The first word of a location, counted from r0 on into the stack. */
  function Index(at: Location): nat {
    match at
    case Registers(first) => first
    case Stack(offset) => 4 + offset / 4
    case Split(first, _) => first
  }

  lemma NextIndex(a: Allocator, kind: char)
    requires Sound(a)
    ensures Sound(Allocate(a, kind).1)
    ensures Position(a) <= Index(Allocate(a, kind).0)
    ensures Position(Allocate(a, kind).1) == Index(Allocate(a, kind).0) + Size(kind) / 4
    ensures Wide(kind) ==> Index(Allocate(a, kind).0) % 2 == 0
    ensures Allocate(a, kind).0.Stack? <==> Index(Allocate(a, kind).0) >= 4
    ensures !Allocate(a, kind).0.Split?
  {
    if !Wide(kind) {
      NextNarrow(a, kind);
    } else if a.ncrn < 3 {
      NextPair(a, kind);
    } else {
      NextOnStack(a, kind);
    }
    hide Allocate, Wide;
  }

  lemma NextNarrow(a: Allocator, kind: char)
    requires Sound(a) && !Wide(kind)
    ensures var (at, next) := Allocate(a, kind);
            && Sound(next) && Index(at) == Position(a) && Position(next) == Index(at) + Size(kind) / 4
            && (at.Stack? <==> Index(at) >= 4) && !at.Split?
  {
    if a.ncrn == 4 {
      StackWord(a.nsaa);
    }
  }

  lemma StackWord(offset: nat)
    requires offset % 4 == 0
    ensures (offset + 4) % 4 == 0 && (offset + 4) / 4 == offset / 4 + 1
  {
  }

  lemma NextPair(a: Allocator, kind: char)
    requires Sound(a) && Wide(kind) && a.ncrn < 3
    ensures var (at, next) := Allocate(a, kind);
            && Sound(next) && Position(a) <= Index(at) && Position(next) == Index(at) + Size(kind) / 4
            && Index(at) % 2 == 0 && at.Registers? && Index(at) < 4
  {
  }

  lemma NextOnStack(a: Allocator, kind: char)
    requires Sound(a) && Wide(kind) && a.ncrn >= 3
    ensures var (at, next) := Allocate(a, kind);
            && Sound(next) && Position(a) <= Index(at) && Position(next) == Index(at) + Size(kind) / 4
            && Index(at) % 2 == 0 && at.Stack? && Index(at) >= 4
  {
    PairOnStack(a.nsaa);
  }

  /** The next multiple of eight, and the two words there. */
  lemma PairOnStack(nsaa: nat)
    requires nsaa % 4 == 0
    ensures var up := if nsaa % 8 != 0 then nsaa + 8 - nsaa % 8 else nsaa;
            && up >= nsaa && up / 4 >= nsaa / 4 && up / 4 % 2 == 0
            && (up + 8) % 4 == 0 && (up + 8) / 4 == up / 4 + 2
  {
    var m := nsaa / 4;
    if m % 2 == 0 {
      assert nsaa % 8 == 0 && nsaa / 4 == m;
    } else {
      assert nsaa % 8 == 4 && (nsaa + 4) / 4 == m + 1;
    }
  }

  /** Where the next word goes, as the standard counts it and as the code does. */
  predicate Agrees(a: Allocator, count: nat) {
    Sound(a) && count == Position(a)
  }

  lemma AppendAgrees(a: Allocator, words: seq<Word>, kind: char, v: JValue)
    requires Agrees(a, |words|)
    ensures Agrees(Allocate(a, kind).1, |Append(words, kind, v)|)
    ensures words <= Append(words, kind, v)
    ensures !Allocate(a, kind).0.Split?
    ensures WordAt(Append(words, kind, v), Allocate(a, kind).0, 0) == Some(if Wide(kind) then v.lo else Narrow(kind, v))
    ensures Wide(kind) ==> WordAt(Append(words, kind, v), Allocate(a, kind).0, 1) == Some(v.hi)
  {
    hide Member;
    NextIndex(a, kind);
  }

  lemma {:induction false} PackedAgrees(kinds: string, values: seq<JValue>)
    requires |kinds| == |values|
    ensures Agrees(AllocateAll(kinds), |Packed(kinds, values)|)
    ensures |Packed(kinds, values)| <= 2 * |kinds|
  {
    if kinds != "" {
      var n := |kinds| - 1;
      PackedAgrees(kinds[..n], values[..n]);
      AppendAgrees(AllocateAll(kinds[..n]), Packed(kinds[..n], values[..n]), kinds[n], values[n]);
      PackedLength(kinds, values);
    }
  }

  /** Padding comes only before a wide value, and never two words in a row: at most two words an argument. */
  lemma {:induction false} PackedLength(kinds: string, values: seq<JValue>)
    requires |kinds| == |values|
    ensures |Packed(kinds, values)| <= 2 * |kinds|
    ensures |Packed(kinds, values)| % 2 == 1 ==> |Packed(kinds, values)| < 2 * |kinds|
  {
    if kinds != "" {
      PackedLength(kinds[..|kinds| - 1], values[..|kinds| - 1]);
    }
  }

  lemma WordAtPrefix(words: seq<Word>, more: seq<Word>, at: Location, i: nat)
    requires words <= more && WordAt(words, at, i).Some?
    ensures WordAt(more, at, i) == WordAt(words, at, i)
  {
  }

  /** Every argument lies, whole and in order, where the standard puts it: no argument is split between
      r3 and the stack. */
  lemma {:induction false} PackedPlaces(kinds: string, values: seq<JValue>, k: nat)
    requires |kinds| == |values| && k < |kinds|
    ensures !LocationOf(kinds, k).Split?
    ensures WordAt(Packed(kinds, values), LocationOf(kinds, k), 0) ==
            Some(if Wide(kinds[k]) then values[k].lo else Narrow(kinds[k], values[k]))
    ensures Wide(kinds[k]) ==> WordAt(Packed(kinds, values), LocationOf(kinds, k), 1) == Some(values[k].hi)
  {
    var n := |kinds| - 1;
    var before := Packed(kinds[..n], values[..n]);
    PackedAgrees(kinds[..n], values[..n]);
    AppendAgrees(AllocateAll(kinds[..n]), before, kinds[n], values[n]);
    if k < n {
      PackedPlaces(kinds[..n], values[..n], k);
      assert kinds[..n][..k] == kinds[..k];
      WordAtPrefix(before, Packed(kinds, values), LocationOf(kinds, k), 0);
      if Wide(kinds[k]) {
        WordAtPrefix(before, Packed(kinds, values), LocationOf(kinds, k), 1);
      }
    }
  }

  lemma NarrowMember(kind: char, v: JValue)
    requires ParameterKind(kind) && !Wide(kind)
    ensures (if kind in "BSI" then Signed(Narrow(kind, v), WORD) else Narrow(kind, v)) == Member(kind, v)
  {
    var m := Member(kind, v);
    if m < 0 {
      assert m % WORD == m + WORD;
    }
  }

  lemma ReadsBack(kind: char, v: JValue, words: seq<Word>, at: Location)
    requires ParameterKind(kind)
    requires WordAt(words, at, 0) == Some(if Wide(kind) then v.lo else Narrow(kind, v))
    requires Wide(kind) ==> WordAt(words, at, 1) == Some(v.hi)
    ensures CalleeReads(kind, words, at) == Some(Member(kind, v))
  {
    hide WordAt, Narrow;
    if !Wide(kind) {
      NarrowMember(kind, v);
    }
  }

  /** The callee reads back every argument the caller passed. */
  lemma CalleeGetsArguments(kinds: string, values: seq<JValue>, k: nat)
    requires |kinds| == |values| && k < |kinds| && ParameterKind(kinds[k])
    ensures CalleeReads(kinds[k], Packed(kinds, values), LocationOf(kinds, k)) == Some(Member(kinds[k], values[k]))
  {
    hide Packed, LocationOf, WordAt, Narrow, Member, CalleeReads;
    PackedPlaces(kinds, values, k);
    ReadsBack(kinds[k], values[k], Packed(kinds, values), LocationOf(kinds, k));
  }

  lemma {:induction false} AllocatorSound(kinds: string)
    ensures Sound(AllocateAll(kinds))
  {
    if kinds != "" {
      AllocatorSound(kinds[..|kinds| - 1]);
      NextIndex(AllocateAll(kinds[..|kinds| - 1]), kinds[|kinds| - 1]);
    }
  }

  lemma {:induction false} PositionAfter(kinds: string, j: nat, k: nat)
    requires j < k <= |kinds|
    ensures Index(LocationOf(kinds, j)) + Size(kinds[j]) / 4 <= Position(AllocateAll(kinds[..k]))
  {
    AllocatorSound(kinds[..k - 1]);
    NextIndex(AllocateAll(kinds[..k - 1]), kinds[k - 1]);
    assert kinds[..k][..k - 1] == kinds[..k - 1];
    if j < k - 1 {
      PositionAfter(kinds, j, k - 1);
    }
  }

  /** Parameters never overlap, stay in order and, once one is on the stack, no register is filled any more;
      a wide one starts at an even word. */
  lemma InOrder(kinds: string, j: nat, k: nat)
    requires j < k < |kinds|
    ensures Index(LocationOf(kinds, j)) + Size(kinds[j]) / 4 <= Index(LocationOf(kinds, k))
    ensures LocationOf(kinds, j).Stack? ==> LocationOf(kinds, k).Stack?
    ensures Wide(kinds[k]) ==> Index(LocationOf(kinds, k)) % 2 == 0
  {
    PositionAfter(kinds, j, k);
    AllocatorSound(kinds[..j]);
    AllocatorSound(kinds[..k]);
    NextIndex(AllocateAll(kinds[..j]), kinds[j]);
    NextIndex(AllocateAll(kinds[..k]), kinds[k]);
  }

  // ---------------------------------------------------------------- the call

  /** `__call_ok` (lines 6-24). */
  predicate CallOkay(procedure: bool, sig: Option<Parsed>, args: Option<seq<JValue>>, result: bool) {
    procedure && sig.Some? && result && |sig.value.args| <= MAX_CALL_ARGS && (sig.value.args == "" || args.Some?)
  }

  predicate KindsOkay(sig: Parsed) {
    (forall k :: 0 <= k < |sig.args| ==> ParameterKind(sig.args[k])) && ReturnKind(sig.ret)
  }

  /** The type codes a call may have, letter by letter. */
  lemma CodesExactly(sig: Parsed)
    ensures KindsOkay(sig) <==> (forall c :: c in sig.args ==> c in "ZBCSIJFDL") && sig.ret in "VZBCSIJFDL"
  {
    forall c
      ensures ParameterKind(c) <==> c in "ZBCSIJFDL"
    {
    }
    if forall c :: c in sig.args ==> c in "ZBCSIJFDL" {
      assert forall k :: 0 <= k < |sig.args| ==> sig.args[k] in sig.args;
    }
    assert sig.ret in "VZBCSIJFDL" <==> sig.ret == 'V' || sig.ret in "ZBCSIJFDL";
    hide ParameterKind;
  }

  function AllValues(env: Word, receiver: Word, args: seq<JValue>): (all: seq<JValue>)
    ensures |all| == 2 + |args|
    ensures all[0] == JValue(env, 0) && all[1] == JValue(receiver, 0) && all[2..] == args
  {
    [JValue(env, 0), JValue(receiver, 0)] + args
  }

  /** The first `n` words are `used` and the rest is still zero. */
  predicate Filled(words: seq<Word>, n: nat, used: seq<Word>) {
    n <= |words| && words[..n] == used && forall i :: n <= i < |words| ==> words[i] == 0
  }

  /** One turn of the packing loop (lines 88-129). */
  method Put(a: array<Word>, count: nat, kind: char, v: JValue, ghost used: seq<Word>) returns (next: nat)
    requires count + 3 <= a.Length || (count % 2 == 0 && count + 2 <= a.Length)
    requires Filled(a[..], count, used)
    modifies a
    ensures count < next <= count + 3 && (count % 2 == 0 ==> next <= count + 2)
    ensures Filled(a[..], next, Append(used, kind, v))
  {
    hide Member;
    if Wide(kind) {
      var at := (count + 1) / 2 * 2;
      a[at] := v.lo;
      a[at + 1] := v.hi;
      next := at + 2;
    } else {
      a[count] := Narrow(kind, v);
      next := count + 1;
    }
    assert a[..count] == old(a[..])[..count];
    assert a[..][..next] == a[..next];
  }

  /** Lines 80-84: the environment and the receiver come first. */
  method PutFixed(a: array<Word>, env: Word, receiver: Word)
    requires a.Length >= 2 && Filled(a[..], 0, [])
    modifies a
    ensures Filled(a[..], 2, [env, receiver])
  {
    a[0] := env;
    a[1] := receiver;
    assert a[..][..2] == [env, receiver];
  }

  /** The packing loop of `jni_native_call` (lines 82-130), into the zeroed words; it stops at an unknown type code. */
  method PackInto(a: array<Word>, env: Word, receiver: Word, kinds: string, args: seq<JValue>)
      returns (ok: bool, count: nat)
    requires |args| == |kinds| <= MAX_CALL_ARGS && a.Length == 2 + 2 * MAX_CALL_ARGS
    requires Filled(a[..], 0, [])
    modifies a
    ensures ok <==> forall k :: 0 <= k < |kinds| ==> ParameterKind(kinds[k])
    ensures ok ==>
              count <= 2 + 2 * |kinds| && Filled(a[..], count, Packed("LL" + kinds, AllValues(env, receiver, args)))
  {
    hide FirstArguments, Append, ParameterKind, Packed, AllValues, Filled;
    PutFixed(a, env, receiver);
    FirstWords(env, receiver, kinds, args);
    var index := 0;
    count := 2;
    while index < |kinds|
      invariant 0 <= index <= |kinds| && 2 <= count <= 2 + 2 * index
      invariant Filled(a[..], count, FirstArguments(env, receiver, kinds, args, index))
      invariant forall k :: 0 <= k < index ==> ParameterKind(kinds[k])
    {
      if !ParameterKind(kinds[index]) {
        return false, count;
      }
      NextWords(env, receiver, kinds, args, index);
      count := Put(a, count, kinds[index], args[index], FirstArguments(env, receiver, kinds, args, index));
      index := index + 1;
    }
    AllWords(env, receiver, kinds, args);
    ok := true;
  }

  /** The words of the first `n` arguments. */
  function FirstArguments(env: Word, receiver: Word, kinds: string, args: seq<JValue>, n: nat): seq<Word>
    requires n <= |args| == |kinds|
  {
    Packed("LL" + kinds[..n], AllValues(env, receiver, args[..n]))
  }

  lemma FirstWords(env: Word, receiver: Word, kinds: string, args: seq<JValue>)
    requires |args| == |kinds|
    ensures FirstArguments(env, receiver, kinds, args, 0) == [env, receiver]
  {
    var values := AllValues(env, receiver, args[..0]);
    assert "LL" + kinds[..0] == "LL" && "LL"[..1] == "L";
    assert values[..1] == [values[0]];
    assert Packed("L", values[..1]) == [env];
  }

  lemma NextWords(env: Word, receiver: Word, kinds: string, args: seq<JValue>, n: nat)
    requires n < |args| == |kinds|
    ensures FirstArguments(env, receiver, kinds, args, n + 1) ==
            Append(FirstArguments(env, receiver, kinds, args, n), kinds[n], args[n])
  {
    var all, values := "LL" + kinds[..n + 1], AllValues(env, receiver, args[..n + 1]);
    assert all[..n + 2] == "LL" + kinds[..n] && values[..n + 2] == AllValues(env, receiver, args[..n]);
  }

  lemma AllWords(env: Word, receiver: Word, kinds: string, args: seq<JValue>)
    requires |args| == |kinds|
    ensures FirstArguments(env, receiver, kinds, args, |args|) == Packed("LL" + kinds, AllValues(env, receiver, args))
  {
    assert kinds[..|kinds|] == kinds && args[..|args|] == args;
  }

  /** `jni_native_call` up to the call (lines 76-134): the words handed to the entry stub, or none. */
  method Pack(procedure: bool, env: Word, receiver: Word, sig: Option<Parsed>, args: Option<seq<JValue>>, result: bool)
      returns (words: array?<Word>, count: nat)
    requires sig.Some? && args.Some? ==> |args.value| == |sig.value.args|
    ensures words != null <==> CallOkay(procedure, sig, args, result) && KindsOkay(sig.value)
    ensures words != null ==> fresh(words) && words.Length == 2 + 2 * MAX_CALL_ARGS && count <= 2 + 2 * |sig.value.args|
    ensures words != null ==> |Arguments(args)| == |sig.value.args|
    ensures words != null ==>
              Filled(words[..], count, Packed("LL" + sig.value.args, AllValues(env, receiver, Arguments(args))))
  {
    words, count := null, 0;
    if !procedure || sig.None? || !result || |sig.value.args| > MAX_CALL_ARGS {
      return;
    }
    if |sig.value.args| > 0 && args.None? {
      return;
    }
    hide Packed, ParameterKind, AllValues;
    var a := new Word[2 + 2 * MAX_CALL_ARGS](_ => 0);
    var ok;
    ok, count := PackInto(a, env, receiver, sig.value.args, Arguments(args));
    if ok && ReturnKind(sig.value.ret) {
      words := a;
    }
  }

  function Arguments(args: Option<seq<JValue>>): seq<JValue> {
    if args.Some? then args.value else []
  }

  /** Lines 138-173: what the caller finds in the zeroed result union. */
  function Unpack(kind: char, r0: Word, r1: Word): JValue {
    match kind
    case 'Z' => JValue(r0 % 0x100, 0)
    case 'B' => JValue(r0 % 0x100, 0)
    case 'C' => JValue(r0 % 0x1_0000, 0)
    case 'S' => JValue(r0 % 0x1_0000, 0)
    case 'J' => JValue(r0, r1)
    case 'D' => JValue(r0, r1)
    case 'V' => JValue(0, 0)
    case _ => JValue(r0, 0)
  }

  /** A call is refused exactly without a procedure, a signature or a place for the result, with more than 255
      arguments, or if it has some and they are not given. */
  lemma RefusedExactly(procedure: bool, sig: Option<Parsed>, args: Option<seq<JValue>>, result: bool)
    ensures !CallOkay(procedure, sig, args, result) <==>
            !procedure || !result || sig.None? || |sig.value.args| > 255 || (|sig.value.args| > 0 && args.None?)
  {
  }

  /** Of r0 a narrow result takes its own bytes, and only a wide one takes r1; without a result there is none. */
  lemma UnpackExactly(kind: char, r0: Word, r1: Word)
    requires ReturnKind(kind)
    ensures kind == 'V' ==> Unpack(kind, r0, r1) == JValue(0, 0)
    ensures Wide(kind) ==> Unpack(kind, r0, r1) == JValue(r0, r1)
    ensures kind != 'V' && !Wide(kind) ==>
              Unpack(kind, r0, r1).lo == r0 % Values(Bytes(kind)) && Unpack(kind, r0, r1).hi == 0
  {
    ValuesAre();
    hide Values;
  }

  lemma LowBits(v: nat, size: nat)
    requires size in {0x100, 0x1_0000} && v < size
    ensures Signed(v, size) % WORD % size == v
  {
    if 2 * v >= size {
      assert Signed(v, size) % WORD == v - size + WORD;
      if size == 0x100 {
        assert v - 0x100 + WORD == v + 0xff_ffff * 0x100;
      } else {
        assert v - 0x1_0000 + WORD == v + 0xffff * 0x1_0000;
      }
    }
  }

  lemma NarrowComesBack(kind: char, v: JValue, r1: Word)
    requires kind in {'B', 'S'}
    ensures Member(kind, Unpack(kind, Narrow(kind, v), r1)) == Member(kind, v)
  {
    var size := if kind == 'B' then 0x100 else 0x1_0000;
    LowBits(v.lo % size, size);
    assert Narrow(kind, v) % size == v.lo % size;
  }

  /** A result the callee left in r0 and r1, extended as the standard requires, is the member the caller reads. */
  lemma ResultComesBack(kind: char, v: JValue, r1: Word)
    requires ParameterKind(kind)
    ensures var r := if Wide(kind) then Unpack(kind, v.lo, v.hi) else Unpack(kind, Narrow(kind, v), r1);
            Member(kind, r) == Member(kind, v)
  {
    if kind in {'B', 'S'} {
      NarrowComesBack(kind, v, r1);
    } else if kind in {'Z', 'C', 'I'} {
      NarrowMember(kind, v);
    }
  }

  /** Every signature the parser accepts can be called, and its words fit the fixed buffer. */
  lemma AcceptedIsCallable(s: Signature, args: Option<seq<JValue>>)
    requires SignatureOkay(s)
    ensures |s.args| <= MAX_CALL_ARGS
    ensures KindsOkay(Parsed(EraseAll(s.args), TotalSlots(s.args), EraseReturn(s.ret)))
    ensures CallOkay(true, Some(Parsed(EraseAll(s.args), TotalSlots(s.args), EraseReturn(s.ret))), args, true) <==>
            s.args == [] || args.Some?
  {
    assert s.args[..|s.args|] == s.args;
    SlotsMonotone(s.args, |s.args|);
    forall k | 0 <= k < |s.args|
      ensures ParameterKind(EraseAll(s.args)[k])
    {
      assert WellFormed(s.args[k]);
    }
  }
}
