/** The text and pattern decoding of the glob matcher (src/bridges/libc/match.c:16-117). */
module MatchPattern {
  import opened Common

  datatype Flags = Flags(noEscape: bool, pathname: bool, period: bool, leadingDir: bool, caseFold: bool)

  /** `towlower` and `iswctype(wctype(name))`; an unknown class name contains nothing. The code knows neither the
      character a collating symbol of several characters stands for nor what is equivalent. */
  datatype Locale = Locale(
    lower: int -> int, isClass: (string, int) -> bool, symbol: CString -> int, isEquivalent: (string, int) -> bool)

  const SLASH := 47
  const DOT := 46

  // ---------------------------------------------------------------- UTF-8 units

  predicate Continuation(c: char) {
    0x80 <= c as int < 0xc0
  }

  /** `value` extended by the payloads of `count` continuation bytes. */
  function Accumulate(s: string, at: nat, count: nat, value: nat): nat
    requires at + count <= |s|
    decreases count
  {
    if count == 0 then value
    else Accumulate(s, at, count - 1, value) * 64 + s[at + count - 1] as int % 64
  }

  function TrailCount(first: int): nat {
    if first < 0xe0 then 1 else if first < 0xf0 then 2 else 3
  }

  function LeadPayload(first: nat): nat {
    if first < 0xe0 then first % 64 else if first < 0xf0 then first % 32 else first % 16
  }

  /** Whether the accumulated value is refused: too large, a surrogate or overlong. */
  predicate Refused(count: nat, value: int) {
    || value > 0x10ffff
    || 0xd800 <= value <= 0xdfff
    || (count == 2 && value < 0x800)
    || (count == 3 && value < 0x10000)
  }

  /** One unit of text at byte `i`: its value and the offset after it.
      A malformed sequence stands for its first byte alone. */
  function Character(s: CString, i: nat): (r: (int, nat))
    requires i < |s|
    ensures i < r.1 <= |s|
  {
    var first := s[i] as int;
    var count := TrailCount(first);
    if first < 0xc2 || first > 0xf4 then (first, i + 1)
    else if i + count >= |s| || exists k :: i < k <= i + count && !Continuation(s[k]) then (first, i + 1)
    else
      var value := Accumulate(s, i + 1, count, LeadPayload(first));
      if Refused(count, value) then (first, i + 1) else (value, i + 1 + count)
  }

  /** A decoded unit is an ASCII character exactly when its only byte is that character,
      so byte tests such as `text[-1] == '/'` see characters. */
  lemma {:induction false} AsciiUnits(s: CString, i: nat, c: char)
    requires i < |s|
    requires 0 < c as int < 0x80
    ensures Character(s, i).0 == c as int <==> s[i] == c
    ensures s[Character(s, i).1 - 1] == c <==> s[i] == c
    ensures s[i] == c ==> Character(s, i).1 == i + 1
  {
    var first := s[i] as int;
    var count := TrailCount(first);
    if 0xc2 <= first <= 0xf4 && i + count < |s| && !exists k :: i < k <= i + count && !Continuation(s[k]) {
      UnrolledValue(s, i, count, LeadPayload(s[i] as int));
      assert Continuation(s[i + count]);
    }
  }

  lemma {:induction false} UnrolledValue(s: CString, i: nat, count: nat, lead: nat)
    requires i + count < |s| && 1 <= count <= 3
    ensures Accumulate(s, i + 1, count, lead) ==
            FromDigits(count, lead, s[i + 1] as int % 64, if count > 1 then s[i + 2] as int % 64 else 0,
                       if count > 2 then s[i + 3] as int % 64 else 0)
  {
    assert Accumulate(s, i + 1, 0, lead) == lead;
    assert Accumulate(s, i + 1, 1, lead) == lead * 64 + s[i + 1] as int % 64;
    if count > 1 {
      assert Accumulate(s, i + 1, 2, lead) == (lead * 64 + s[i + 1] as int % 64) * 64 + s[i + 2] as int % 64;
    }
  }

  predicate ScalarValue(value: int) {
    0 < value <= 0x10ffff && !(0xd800 <= value <= 0xdfff)
  }

  /** The UTF-8 encoding of a scalar value (section 3 of RFC 3629). */
  function Utf8(value: int): (s: CString)
    requires ScalarValue(value)
  {
    if value < 0x80 then [value as char]
    else if value < 0x800 then [(0xc0 + value / 64) as char, (0x80 + value % 64) as char]
    else if value < 0x10000 then
      [(0xe0 + value / 4096) as char, (0x80 + value / 64 % 64) as char, (0x80 + value % 64) as char]
    else
      [(0xf0 + value / 262144) as char, (0x80 + value / 4096 % 64) as char,
       (0x80 + value / 64 % 64) as char, (0x80 + value % 64) as char]
  }

  /** A unit made of a lead byte and `count` continuation bytes. */
  lemma {:induction false} LongUnit(s: CString, i: nat, count: nat)
    requires i + count < |s| && 1 <= count <= 3
    requires 0xc2 <= s[i] as int <= 0xf4 && TrailCount(s[i] as int) == count
    requires forall k :: i < k <= i + count ==> Continuation(s[k])
    ensures var value := Accumulate(s, i + 1, count, LeadPayload(s[i] as int));
            Character(s, i) == if Refused(count, value) then (s[i] as int, i + 1) else (value, i + 1 + count)
  {
  }

  /** Well-formed UTF-8 is read back as the scalar value it encodes, wherever it stands. */
  lemma {:induction false} Utf8RoundTrip(before: CString, value: int, after: CString)
    requires ScalarValue(value)
    ensures Character(before + Utf8(value) + after, |before|) == (value, |before| + |Utf8(value)|)
  {
    var s: CString := before + Utf8(value) + after;
    assert forall k :: 0 <= k < |Utf8(value)| ==> s[|before| + k] == Utf8(value)[k];
    ReadsBack(s, |before|, value);
  }

  lemma {:induction false} ReadsBack(s: CString, i: nat, value: int)
    requires ScalarValue(value) && i + |Utf8(value)| <= |s|
    requires forall k :: 0 <= k < |Utf8(value)| ==> s[i + k] == Utf8(value)[k]
    ensures Character(s, i) == (value, i + |Utf8(value)|)
  {
    var u := Utf8(value);
    assert s[i + 0] == u[0];
    if value >= 0x80 {
      var count := |u| - 1;
      Utf8Shape(value);
      assert s[i + 1] == u[1];
      if count > 1 { assert s[i + 2] == u[2]; }
      if count > 2 { assert s[i + 3] == u[3]; }
      LongUnit(s, i, count);
      UnrolledValue(s, i, count, LeadPayload(s[i] as int));
    }
  }

  /** The value carried by payload digits. */
  function FromDigits(count: nat, lead: nat, a: nat, b: nat, c: nat): nat {
    if count == 1 then lead * 64 + a
    else if count == 2 then (lead * 64 + a) * 64 + b
    else ((lead * 64 + a) * 64 + b) * 64 + c
  }

  /** The bytes of a multi-byte encoding and the value they carry. */
  lemma {:induction false} Utf8Shape(value: int)
    requires ScalarValue(value) && value >= 0x80
    ensures var u := Utf8(value); var count := |u| - 1;
            && 1 <= count <= 3 && TrailCount(u[0] as int) == count && 0xc2 <= u[0] as int <= 0xf4
            && Continuation(u[1]) && (count > 1 ==> Continuation(u[2])) && (count > 2 ==> Continuation(u[3]))
            && value == FromDigits(count, LeadPayload(u[0] as int), u[1] as int % 64,
                 if count > 1 then u[2] as int % 64 else 0, if count > 2 then u[3] as int % 64 else 0)
  {
    Digits(value);
    if value < 0x800 {
      Payloads(value / 64, value % 64, 0, 0);
    } else if value < 0x10000 {
      Payloads(value / 4096, value / 64 % 64, value % 64, 0);
    } else {
      Payloads(value / 262144, value / 4096 % 64, value / 64 % 64, value % 64);
    }
  }

  /** Base-64 digits of a number. */
  lemma Digits(value: nat)
    ensures value == value / 64 * 64 + value % 64
    ensures value / 64 == value / 4096 * 64 + value / 64 % 64
    ensures value / 4096 == value / 262144 * 64 + value / 4096 % 64
  {
    assert value / 4096 == value / 64 / 64;
    assert value / 262144 == value / 4096 / 64;
  }

  /** The payload bits come back out of lead and continuation bytes. */
  lemma Payloads(lead: nat, a: nat, b: nat, c: nat)
    requires a < 64 && b < 64 && c < 64
    ensures 2 <= lead < 32 ==> LeadPayload(0xc0 + lead) == lead
    ensures lead < 16 ==> LeadPayload(0xe0 + lead) == lead
    ensures lead < 5 ==> LeadPayload(0xf0 + lead) == lead
    ensures (0x80 + a) % 64 == a && (0x80 + b) % 64 == b && (0x80 + c) % 64 == c
  {
  }

  /** `__character`: decode one unit by the source's loop over trailing bytes. */
  method NextCharacter(s: CString, i: nat) returns (value: int, next: nat)
    requires i < |s|
    ensures (value, next) == Character(s, i)
  {
    var first := s[i] as int;
    if first < 0xc2 || first > 0xf4 {
      return first, i + 1;
    }
    var count := TrailCount(first);
    value := LeadPayload(first);
    var index := 0;
    while index < count
      invariant 0 <= index <= count && i + index < |s|
      invariant value == Accumulate(s, i + 1, index, LeadPayload(first))
      invariant forall k :: i < k <= i + index ==> Continuation(s[k])
    {
      if !Continuation(At(s, i + 1 + index)) {
        assert i + count >= |s| || !Continuation(s[i + 1 + index]);
        return first, i + 1;
      }
      value := value * 64 + s[i + 1 + index] as int % 64;
      index := index + 1;
    }
    if Refused(count, value) {
      return first, i + 1;
    }
    next := i + 1 + count;
  }

  /** The characters of `t` from byte `i` on. */
  function Characters(t: CString, i: nat): (chars: seq<int>)
    requires i <= |t|
    decreases |t| - i
  {
    if i == |t| then [] else [Character(t, i).0] + Characters(t, Character(t, i).1)
  }

  // ---------------------------------------------------------------- pattern tokens

  /** A member of a bracket; equivalence classes are in the standard only. */
  datatype Item = Class(name: string) | Single(value: int) | Range(low: int, high: int) | Equivalent(name: string)

  /** A token of the pattern. `Literal` keeps the unfolded character and whether a
      backslash quoted it; `Never` is a trailing backslash. */
  datatype Token = Star | Any | Bracket(invert: bool, items: seq<Item>) | Literal(value: int, quoted: bool) | Never

  function Fold(value: int, f: Flags, loc: Locale): int {
    if f.caseFold then loc.lower(value) else value
  }

  predicate Quotes(p: CString, i: nat, f: Flags) {
    At(p, i) == '\\' && !f.noEscape && i + 1 < |p|
  }

  /** A possibly quoted character: its value and the offset after it. */
  function Quoted(p: CString, i: nat, f: Flags): (r: (int, nat))
    requires i < |p|
    ensures i < r.1 <= |p|
  {
    if Quotes(p, i, f) then Character(p, i + 1) else Character(p, i)
  }

  /** Offset of the first `c` before a "]" at or after `i`, or the length when there is none. */
  function Closing(p: CString, i: nat, c: char): (e: nat)
    requires i <= |p|
    ensures i <= e <= |p|
    ensures e < |p| ==> e + 1 < |p| && p[e] == c && p[e + 1] == ']'
    decreases |p| - i
  {
    if i == |p| then i
    else if p[i] == c && At(p, i + 1) == ']' then i
    else Closing(p, i + 1, c)
  }

  /** "[:name:]" inside a bracket, with the source's bound on its length. */
  predicate HasClass(p: CString, i: nat)
    requires i < |p|
  {
    && p[i] == '['
    && At(p, i + 1) == ':'
    && Closing(p, i + 2, ':') < |p|
    && Closing(p, i + 2, ':') - i <= 32
  }

  function NextItem(p: CString, i: nat, f: Flags, loc: Locale): (r: (Item, nat))
    requires i < |p|
    ensures i < r.1 <= |p|
  {
    if HasClass(p, i) then
      var e := Closing(p, i + 2, ':');
      (Class(p[i + 2..e]), e + 2)
    else
      var (low, dash) := Quoted(p, i, f);
      if At(p, dash) != '-' || At(p, dash + 1) == '\0' || At(p, dash + 1) == ']' then
        (Single(Fold(low, f, loc)), dash)
      else
        var (high, next) := Quoted(p, dash + 1, f);
        (Range(Fold(low, f, loc), Fold(high, f, loc)), next)
  }

  /** The items of a bracket from `i` and the offset of its "]", or of the end of the pattern. */
  function Items(p: CString, i: nat, first: bool, f: Flags, loc: Locale): (r: (seq<Item>, nat))
    requires i <= |p|
    ensures i <= r.1 <= |p|
    ensures r.1 < |p| ==> p[r.1] == ']'
    decreases |p| - i
  {
    if i == |p| || (p[i] == ']' && !first) then ([], i)
    else
      var (item, next) := NextItem(p, i, f, loc);
      var (rest, end) := Items(p, next, false, f, loc);
      ([item] + rest, end)
  }

  predicate Inverted(p: CString, i: nat) {
    At(p, i + 1) == '!' || At(p, i + 1) == '^'
  }

  function BodyStart(p: CString, i: nat): nat {
    if Inverted(p, i) then i + 2 else i + 1
  }

  /** The token starting at `i` and the offset after it. */
  function NextToken(p: CString, i: nat, f: Flags, loc: Locale): (r: (Token, nat))
    requires i < |p|
    ensures i < r.1 <= |p|
  {
    if p[i] == '*' then (Star, i + 1)
    else if p[i] == '\\' && i + 1 == |p| && !f.noEscape then (Never, i + 1)
    else if p[i] == '?' then (Any, i + 1)
    else if p[i] == '[' && Items(p, BodyStart(p, i), true, f, loc).1 < |p| then
      var (items, end) := Items(p, BodyStart(p, i), true, f, loc);
      (Bracket(Inverted(p, i), items), end + 1)
    else
      var (value, next) := Quoted(p, i, f);
      (Literal(value, Quotes(p, i, f)), next)
  }

  function Tokens(p: CString, i: nat, f: Flags, loc: Locale): (toks: seq<Token>)
    requires i <= |p|
    decreases |p| - i
  {
    if i == |p| then []
    else
      var (tok, next) := NextToken(p, i, f, loc);
      [tok] + Tokens(p, next, f, loc)
  }

  predicate Contains(item: Item, value: int, loc: Locale) {
    match item
    case Class(name) => loc.isClass(name, value)
    case Single(v) => v == value
    case Range(low, high) => low <= value <= high
    case Equivalent(name) => loc.isEquivalent(name, value)
  }

  predicate AnyContains(items: seq<Item>, value: int, loc: Locale) {
    exists k :: 0 <= k < |items| && Contains(items[k], value, loc)
  }

  /** Whether a token other than a star stands for the character `c`. With PATHNAME a
      slash is matched by a plain slash only. */
  predicate TokenMatches(tok: Token, c: int, f: Flags, loc: Locale) {
    if f.pathname && c == SLASH then tok == Literal(SLASH, false)
    else match tok
      case Star => false
      case Never => false
      case Any => true
      case Bracket(invert, items) => AnyContains(items, Fold(c, f, loc), loc) != invert
      case Literal(value, _) => Fold(value, f, loc) == Fold(c, f, loc)
  }

  /** The byte test of lines 160-165 asks for a literal dot, quoted or not. */
  lemma {:induction false} ExplicitDot(p: CString, i: nat, f: Flags, loc: Locale)
    requires i <= |p|
    ensures (At(p, if At(p, i) == '\\' && !f.noEscape then i + 1 else i) == '.') <==>
            (i < |p| && NextToken(p, i, f, loc).0.Literal? && NextToken(p, i, f, loc).0.value == DOT)
  {
    if i < |p| {
      if Quotes(p, i, f) {
        AsciiUnits(p, i + 1, '.');
      } else {
        AsciiUnits(p, i, '.');
      }
    }
  }

  /** One pass of the bracket loop: whether the item at `i` contains the value. */
  method ReadItem(p: CString, i: nat, value: int, f: Flags, loc: Locale) returns (found: bool, next: nat)
    requires i < |p|
    ensures next == NextItem(p, i, f, loc).1
    ensures found <==> Contains(NextItem(p, i, f, loc).0, value, loc)
  {
    if HasClass(p, i) {
      var e := Closing(p, i + 2, ':');
      return loc.isClass(p[i + 2..e], value), e + 2;
    }
    var low, dash := ReadLiteral(p, i, f, loc);
    if At(p, dash) != '-' || At(p, dash + 1) == '\0' || At(p, dash + 1) == ']' {
      return low == value, dash;
    }
    var high, after := ReadLiteral(p, dash + 1, f, loc);
    return low <= value && value <= high, after;
  }

  /** `__bracket`: the source's loop, result -1 for no closing bracket. */
  method ReadBracket(p: CString, i: nat, value: int, f: Flags, loc: Locale) returns (result: int, end: nat)
    requires i < |p| && p[i] == '['
    ensures var (items, close) := Items(p, BodyStart(p, i), true, f, loc);
            if close == |p| then result == -1
            else end == close + 1 && result == (if AnyContains(items, value, loc) != Inverted(p, i) then 1 else 0)
  {
    var next := i + 1;
    var invert := At(p, next) == '!' || At(p, next) == '^';
    if invert {
      next := next + 1;
    }
    ghost var (items, close) := Items(p, next, true, f, loc);
    var first := true;
    var matched := false;
    while next < |p| && (p[next] != ']' || first)
      invariant next <= |p|
      invariant Items(p, next, first, f, loc).1 == close
      invariant AnyContains(items, value, loc) <==> matched || AnyContains(Items(p, next, first, f, loc).0, value, loc)
      decreases |p| - next
    {
      AnyContainsCons(NextItem(p, next, f, loc).0, Items(p, NextItem(p, next, f, loc).1, false, f, loc).0, value, loc);
      first := false;
      var found;
      found, next := ReadItem(p, next, value, f, loc);
      matched := matched || found;
    }
    if next == |p| {
      return -1, i;
    }
    return if matched != invert then 1 else 0, next + 1;
  }

  lemma AnyContainsCons(item: Item, rest: seq<Item>, value: int, loc: Locale)
    ensures AnyContains([item] + rest, value, loc) <==> Contains(item, value, loc) || AnyContains(rest, value, loc)
  {
    var all := [item] + rest;
    if Contains(item, value, loc) {
      assert Contains(all[0], value, loc);
    }
    if AnyContains(rest, value, loc) {
      var k :| 0 <= k < |rest| && Contains(rest[k], value, loc);
      assert all[k + 1] == rest[k];
    }
  }

  /** `__literal`: a possibly quoted character, folded. */
  method ReadLiteral(p: CString, i: nat, f: Flags, loc: Locale) returns (value: int, next: nat)
    requires i < |p|
    ensures next == Quoted(p, i, f).1 && value == Fold(Quoted(p, i, f).0, f, loc)
  {
    var at := i;
    if p[at] == '\\' && !f.noEscape && At(p, at + 1) != '\0' {
      at := at + 1;
    }
    value, next := NextCharacter(p, at);
    value := Fold(value, f, loc);
  }

  /** `__unit`: test one pattern unit against the character at `text[j]`. Whatever the
      character, a matching unit consumes exactly its token's pattern text. */
  method MatchUnit(p: CString, i: nat, t: CString, j: nat, f: Flags, loc: Locale) returns (ok: bool, next: nat)
    requires i < |p| && p[i] != '*' && j < |t|
    ensures ok <==> TokenMatches(NextToken(p, i, f, loc).0, Character(t, j).0, f, loc)
    ensures ok ==> next == NextToken(p, i, f, loc).1
  {
    next := i;
    AsciiUnits(t, j, '/');
    AsciiUnits(p, i, '/');
    if p[i] == '\\' && At(p, i + 1) == '\0' && !f.noEscape {
      return false, i;
    }
    if f.pathname && t[j] == '/' && p[i] != '/' {
      return false, i;
    }
    var value, _ := NextCharacter(t, j);
    value := Fold(value, f, loc);
    if p[i] == '?' {
      return true, i + 1;
    }
    if p[i] == '[' {
      var result, end := ReadBracket(p, i, value, f, loc);
      if result >= 0 {
        return result != 0, end;
      }
    }
    var low, after := ReadLiteral(p, i, f, loc);
    return low == value, after;
  }
}
