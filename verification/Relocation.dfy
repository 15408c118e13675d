/** The two relocation passes over a mapped library (src/loader/image.c:9-38, 132-158 and
    src/loader/relocation.c:93-178), against the one-shot values of the Arm ELF specification. */
module Relocation {
  import opened Words

  const WORD := 0x1_0000_0000

  const R_ARM_NONE := 0
  const R_ARM_ABS32 := 2
  const R_ARM_GLOB_DAT := 21
  const R_ARM_JUMP_SLOT := 22
  const R_ARM_RELATIVE := 23

  type Address = a: int | 0 <= a < WORD

  datatype Symbol = Symbol(undefined: bool, absolute: bool, value: Address, weak: bool)

  datatype Reloc = Reloc(offset: nat, kind: nat, symbol: nat)

  datatype Section = Section(name: string, entries: seq<Reloc>)

  /** What the passes read: the base, the dynamic symbols, and where each import was found (0 for nowhere). */
  datatype Library = Library(base: Address, symbols: seq<Symbol>, imports: seq<Address>)

  predicate LibraryOkay(lib: Library) {
    |lib.imports| == |lib.symbols|
  }

  datatype Pass = Internal | External

  /** `loader_addr`, and nothing for an undefined symbol. */
  function SymbolAddress(lib: Library, s: nat): Address
    requires s < |lib.symbols|
  {
    var symbol := lib.symbols[s];
    if symbol.undefined then 0
    else if symbol.absolute then symbol.value
    else (lib.base + symbol.value) % WORD
  }

  predicate Supported(kind: nat) {
    || kind == R_ARM_NONE || kind == R_ARM_ABS32 || kind == R_ARM_RELATIVE
    || kind == R_ARM_GLOB_DAT || kind == R_ARM_JUMP_SLOT
  }

  /** What the internal pass accepts. */
  predicate Loadable(lib: Library, r: Reloc) {
    r.symbol < |lib.symbols| && Supported(r.kind)
  }

  /** The relocations the external pass looks at. */
  predicate ExternalOnly(lib: Library, r: Reloc) {
    r.kind != R_ARM_NONE && r.kind != R_ARM_RELATIVE && r.symbol < |lib.symbols| && lib.symbols[r.symbol].undefined
  }

  /** An import that was found. */
  predicate Bound(lib: Library, r: Reloc)
    requires LibraryOkay(lib)
  {
    ExternalOnly(lib, r) && lib.imports[r.symbol] != 0
  }

  /** A required import that was not found. */
  predicate Missing(lib: Library, r: Reloc)
    requires LibraryOkay(lib)
  {
    ExternalOnly(lib, r) && lib.imports[r.symbol] == 0 && !lib.symbols[r.symbol].weak
  }

  // ---------------------------------------------------------------- memory words

  predicate Inside(memory: Blob, r: Reloc) {
    r.kind == R_ARM_NONE || r.offset + 4 <= |memory|
  }

  function WriteWord(memory: Blob, at: nat, w: Address): (next: Blob)
    requires at + 4 <= |memory|
    ensures |next| == |memory|
  {
    memory[..at] + Word(w) + memory[at + 4..]
  }

  lemma WriteRead(memory: Blob, at: nat, w: Address)
    requires at + 4 <= |memory|
    ensures ReadWord(WriteWord(memory, at, w), at) == w
    ensures WriteWord(memory, at, ReadWord(memory, at)) == memory
    ensures forall i :: 0 <= i < |memory| && !(at <= i < at + 4) ==> WriteWord(memory, at, w)[i] == memory[i]
  {
    hide Word;
    var next := WriteWord(memory, at, w);
    assert next[at..at + 4] == Word(w);
    hide ReadWord;
    WordRoundTrip(w, next, at);
    WordRoundTrip(0, memory, at);
    assert memory == memory[..at] + memory[at..at + 4] + memory[at + 4..];
  }

  lemma SameWord(memory: Blob, other: Blob, at: nat)
    requires at + 4 <= |memory| == |other| && forall i :: at <= i < at + 4 ==> memory[i] == other[i]
    ensures ReadWord(memory, at) == ReadWord(other, at)
  {
  }

  // ---------------------------------------------------------------- one relocation

  /** The value one pass leaves in a word that held `held`. */
  function Rewritten(lib: Library, pass: Pass, r: Reloc, held: Address): Address
    requires LibraryOkay(lib)
  {
    match pass
    case Internal =>
      if r.symbol >= |lib.symbols| then held
      else if r.kind == R_ARM_ABS32 then (held + SymbolAddress(lib, r.symbol)) % WORD
      else if r.kind == R_ARM_RELATIVE then (held + lib.base) % WORD
      else if r.kind == R_ARM_GLOB_DAT || r.kind == R_ARM_JUMP_SLOT then SymbolAddress(lib, r.symbol)
      else held
    case External =>
      if !Bound(lib, r) then held
      else if r.kind == R_ARM_ABS32 then (held + lib.imports[r.symbol]) % WORD
      else if r.kind == R_ARM_GLOB_DAT || r.kind == R_ARM_JUMP_SLOT then lib.imports[r.symbol]
      else held
  }

  /** The address S a symbol finally has: its own, or the import's, or 0 for an unresolved weak symbol. */
  function FinalAddress(lib: Library, s: nat): Address
    requires LibraryOkay(lib) && s < |lib.symbols|
  {
    if lib.symbols[s].undefined then lib.imports[s] else SymbolAddress(lib, s)
  }

  /** The operation the Arm ELF specification gives a dynamic relocation over the addend `a` in place:
      S + A, B + A or S. */
  function OneShot(lib: Library, r: Reloc, a: Address): Address
    requires LibraryOkay(lib) && r.symbol < |lib.symbols|
  {
    if r.kind == R_ARM_ABS32 then (FinalAddress(lib, r.symbol) + a) % WORD
    else if r.kind == R_ARM_RELATIVE then (lib.base + a) % WORD
    else if r.kind == R_ARM_GLOB_DAT || r.kind == R_ARM_JUMP_SLOT then FinalAddress(lib, r.symbol)
    else a
  }

  lemma TwoStepsAreOne(lib: Library, r: Reloc, a: Address)
    requires LibraryOkay(lib) && Loadable(lib, r)
    ensures Rewritten(lib, External, r, Rewritten(lib, Internal, r, a)) == OneShot(lib, r, a)
  {
  }

  /** The types by the numbers the Arm ELF specification gives them: nothing else is accepted, and each word gets
      the value its number asks for, whatever the two passes do on the way. */
  lemma TypesByNumber(lib: Library, r: Reloc, a: Address)
    requires LibraryOkay(lib) && r.symbol < |lib.symbols|
    ensures Loadable(lib, r) <==> r.kind in {0, 2, 21, 22, 23}
    ensures Loadable(lib, r) ==>
              var s := FinalAddress(lib, r.symbol);
              Rewritten(lib, External, r, Rewritten(lib, Internal, r, a)) ==
              if r.kind == 2 then (s + a) % WORD else if r.kind == 23 then (lib.base + a) % WORD
              else if r.kind == 0 then a else s
  {
    if Loadable(lib, r) {
      TwoStepsAreOne(lib, r, a);
    }
  }

  // ---------------------------------------------------------------- a pass

  predicate Valid(lib: Library, memory: Blob, list: seq<Reloc>) {
    LibraryOkay(lib) && forall k :: 0 <= k < |list| ==> Inside(memory, list[k])
  }

  function Relocated(lib: Library, pass: Pass, memory: Blob, r: Reloc): (next: Blob)
    requires LibraryOkay(lib) && Inside(memory, r)
    ensures |next| == |memory|
  {
    if r.kind == R_ARM_NONE then memory
    else WriteWord(memory, r.offset, Rewritten(lib, pass, r, ReadWord(memory, r.offset)))
  }

  /** One pass over a list of relocations, in order. */
  function Passed(lib: Library, pass: Pass, memory: Blob, list: seq<Reloc>): (next: Blob)
    requires Valid(lib, memory, list)
    ensures |next| == |memory|
  {
    if list == [] then memory
    else Relocated(lib, pass, Passed(lib, pass, memory, list[..|list| - 1]), list[|list| - 1])
  }

  predicate Apart(p: Reloc, q: Reloc) {
    p.kind == R_ARM_NONE || q.kind == R_ARM_NONE || p.offset + 4 <= q.offset || q.offset + 4 <= p.offset
  }

  predicate Disjoint(list: seq<Reloc>) {
    forall i, j :: 0 <= i < j < |list| ==> Apart(list[i], list[j])
  }

  predicate Touches(r: Reloc, i: nat) {
    r.kind != R_ARM_NONE && r.offset <= i < r.offset + 4
  }

  lemma RelocatedOutside(lib: Library, pass: Pass, memory: Blob, r: Reloc, i: nat)
    requires LibraryOkay(lib) && Inside(memory, r)
    requires i < |memory| && !Touches(r, i)
    ensures Relocated(lib, pass, memory, r)[i] == memory[i]
  {
    if r.kind != R_ARM_NONE {
      WriteRead(memory, r.offset, Rewritten(lib, pass, r, ReadWord(memory, r.offset)));
    }
  }

  /** A pass leaves every byte outside the relocated words alone. */
  lemma {:induction false} PassedOutside(lib: Library, pass: Pass, memory: Blob, list: seq<Reloc>, i: nat)
    requires Valid(lib, memory, list) && i < |memory|
    requires forall k :: 0 <= k < |list| ==> !Touches(list[k], i)
    ensures Passed(lib, pass, memory, list)[i] == memory[i]
  {
    hide Relocated;
    if list != [] {
      var n := |list| - 1;
      PassedOutside(lib, pass, memory, list[..n], i);
      RelocatedOutside(lib, pass, Passed(lib, pass, memory, list[..n]), list[n], i);
    }
  }

  lemma WordsApart(lib: Library, pass: Pass, memory: Blob, list: seq<Reloc>, r: Reloc)
    requires Valid(lib, memory, list) && r.kind != R_ARM_NONE && r.offset + 4 <= |memory|
    requires forall k :: 0 <= k < |list| ==> Apart(list[k], r)
    ensures ReadWord(Passed(lib, pass, memory, list), r.offset) == ReadWord(memory, r.offset)
  {
    hide ReadWord, Passed;
    var next := Passed(lib, pass, memory, list);
    forall i | r.offset <= i < r.offset + 4
      ensures next[i] == memory[i]
    {
      assert forall k :: 0 <= k < |list| ==> Apart(list[k], r);
      PassedOutside(lib, pass, memory, list, i);
    }
    SameWord(next, memory, r.offset);
  }

  /** When no two words overlap, a pass rewrites each of them once, from what it held before the pass. */
  lemma {:induction false} PassedAt(lib: Library, pass: Pass, memory: Blob, list: seq<Reloc>, k: nat)
    requires Valid(lib, memory, list) && Disjoint(list) && k < |list| && list[k].kind != R_ARM_NONE
    ensures ReadWord(Passed(lib, pass, memory, list), list[k].offset) ==
            Rewritten(lib, pass, list[k], ReadWord(memory, list[k].offset))
    decreases |list|
  {
    hide ReadWord, Rewritten, WriteWord;
    var n := |list| - 1;
    var before := Passed(lib, pass, memory, list[..n]);
    var last := list[n];
    assert forall j :: 0 <= j < n ==> Apart(list[j], last);
    if k == n {
      WordsApart(lib, pass, memory, list[..n], last);
      WriteRead(before, last.offset, Rewritten(lib, pass, last, ReadWord(before, last.offset)));
    } else {
      PassedAt(lib, pass, memory, list[..n], k);
      if last.kind != R_ARM_NONE {
        assert Apart(list[k], last);
        WriteRead(before, last.offset, Rewritten(lib, pass, last, ReadWord(before, last.offset)));
        SameWord(Passed(lib, pass, memory, list), before, list[k].offset);
      }
    }
  }

  function Both(lib: Library, memory: Blob, list: seq<Reloc>): (next: Blob)
    requires Valid(lib, memory, list)
    ensures |next| == |memory|
  {
    Passed(lib, External, Passed(lib, Internal, memory, list), list)
  }

  /** The internal pass and then the external pass leave every relocated word at its one-shot value. */
  lemma OneShotEverywhere(lib: Library, memory: Blob, list: seq<Reloc>, k: nat)
    requires Valid(lib, memory, list) && Disjoint(list) && k < |list|
    requires Loadable(lib, list[k]) && list[k].kind != R_ARM_NONE
    ensures ReadWord(Both(lib, memory, list), list[k].offset) == OneShot(lib, list[k], ReadWord(memory, list[k].offset))
  {
    hide ReadWord, Passed, Rewritten, OneShot;
    PassedAt(lib, Internal, memory, list, k);
    PassedAt(lib, External, Passed(lib, Internal, memory, list), list, k);
    TwoStepsAreOne(lib, list[k], ReadWord(memory, list[k].offset));
  }

  /** Nothing else changes. */
  lemma OnlyWordsChange(lib: Library, memory: Blob, list: seq<Reloc>, i: nat)
    requires Valid(lib, memory, list) && i < |memory|
    requires forall k :: 0 <= k < |list| ==> !Touches(list[k], i)
    ensures Both(lib, memory, list)[i] == memory[i]
  {
    hide Passed;
    PassedOutside(lib, Internal, memory, list, i);
    PassedOutside(lib, External, Passed(lib, Internal, memory, list), list, i);
  }

  lemma EqualWords(p: Blob, q: Blob, at: nat)
    requires at + 4 <= |p| == |q| && ReadWord(p, at) == ReadWord(q, at)
    ensures forall i :: at <= i < at + 4 ==> p[i] == q[i]
  {
    hide ReadWord, Word;
    WordRoundTrip(0, p, at);
    WordRoundTrip(0, q, at);
    forall i | at <= i < at + 4
      ensures p[i] == q[i]
    {
      assert p[i] == p[at..at + 4][i - at] && q[i] == q[at..at + 4][i - at];
    }
  }

  /** The order of the relocations makes no difference. */
  lemma OrderDoesNotMatter(lib: Library, memory: Blob, p: seq<Reloc>, q: seq<Reloc>)
    requires Valid(lib, memory, p) && Valid(lib, memory, q) && Disjoint(p) && Disjoint(q)
    requires forall r :: r in p <==> r in q
    requires forall k :: 0 <= k < |p| ==> Loadable(lib, p[k])
    ensures Both(lib, memory, p) == Both(lib, memory, q)
  {
    hide Both, ReadWord, OneShot;
    forall i | 0 <= i < |memory|
      ensures Both(lib, memory, p)[i] == Both(lib, memory, q)[i]
    {
      if k :| 0 <= k < |p| && Touches(p[k], i) {
        assert p[k] in q;
        var j :| 0 <= j < |q| && q[j] == p[k];
        OneShotEverywhere(lib, memory, p, k);
        OneShotEverywhere(lib, memory, q, j);
        EqualWords(Both(lib, memory, p), Both(lib, memory, q), p[k].offset);
      } else {
        forall j | 0 <= j < |q|
          ensures !Touches(q[j], i)
        {
          assert q[j] in p;
        }
        OnlyWordsChange(lib, memory, p, i);
        OnlyWordsChange(lib, memory, q, i);
      }
    }
  }

  // ---------------------------------------------------------------- the loops

  predicate Selected(section: Section) {
    section.name == ".rel.dyn" || section.name == ".rel.plt"
  }

  /** The relocations of the selected sections, in the order both passes meet them. */
  function Entries(sections: seq<Section>): seq<Reloc> {
    if sections == [] then []
    else
      var last := sections[|sections| - 1];
      Entries(sections[..|sections| - 1]) + if Selected(last) then last.entries else []
  }

  lemma {:induction false} EntriesPrefix(sections: seq<Section>, n: nat)
    requires n <= |sections|
    ensures Entries(sections[..n]) <= Entries(sections)
    ensures n < |sections| && Selected(sections[n]) ==>
              Entries(sections[..n]) + sections[n].entries <= Entries(sections)
    ensures n < |sections| && Selected(sections[n]) ==>
              Entries(sections[..n + 1]) == Entries(sections[..n]) + sections[n].entries
    ensures n < |sections| && !Selected(sections[n]) ==> Entries(sections[..n + 1]) == Entries(sections[..n])
  {
    if n == |sections| {
      assert sections[..n] == sections;
    } else {
      assert sections[..n + 1][..n] == sections[..n];
      if n + 1 < |sections| {
        var m := |sections| - 1;
        EntriesPrefix(sections[..m], n);
        assert sections[..m][..n] == sections[..n];
      } else {
        assert sections[..n + 1] == sections;
      }
    }
  }

  /** Whether the internal pass writes: an absolute word of an unknown address is left to the external pass. */
  predicate InternalWrites(lib: Library, r: Reloc) {
    Loadable(lib, r) && r.kind != R_ARM_NONE && !(r.kind == R_ARM_ABS32 && SymbolAddress(lib, r.symbol) == 0)
  }

  /** A copy into the mapped image; the kernel may refuse it. */
  method Copy(memory: array<Byte>, at: nat, value: Address, granted: bool) returns (ok: bool)
    requires at + 4 <= memory.Length
    modifies memory
    ensures ok == granted
    ensures memory[..] == if ok then WriteWord(old(memory[..]), at, value) else old(memory[..])
  {
    if granted {
      var bytes := Word(value);
      hide Word;
      memory[at], memory[at + 1], memory[at + 2], memory[at + 3] := bytes[0], bytes[1], bytes[2], bytes[3];
    }
    ok := granted;
  }

  /** A relocation that leaves its word as it is leaves the memory as it is. */
  lemma RelocatedIs(lib: Library, pass: Pass, memory: Blob, r: Reloc)
    requires LibraryOkay(lib) && Inside(memory, r)
    ensures r.kind == R_ARM_NONE ==> Relocated(lib, pass, memory, r) == memory
    ensures r.kind != R_ARM_NONE ==>
              var held := ReadWord(memory, r.offset);
              var value := Rewritten(lib, pass, r, held);
              Relocated(lib, pass, memory, r) == WriteWord(memory, r.offset, value) &&
              (value == held ==> Relocated(lib, pass, memory, r) == memory)
  {
    if r.kind != R_ARM_NONE {
      WriteRead(memory, r.offset, 0);
    }
  }

  lemma UndefinedAddress(lib: Library, s: nat)
    requires s < |lib.symbols|
    ensures lib.symbols[s].undefined ==> SymbolAddress(lib, s) == 0
  {
  }

  /** `__relocate` with the symbol lookup before it (image.c lines 141-156). */
  method RelocateOne(memory: array<Byte>, lib: Library, r: Reloc, granted: bool) returns (ok: bool)
    requires LibraryOkay(lib) && Inside(memory[..], r)
    modifies memory
    ensures ok <==> Loadable(lib, r) && (InternalWrites(lib, r) ==> granted)
    ensures ok ==> memory[..] == Relocated(lib, Internal, old(memory[..]), r)
  {
    hide ReadWord, SymbolAddress, WriteWord, Relocated;
    if r.symbol >= |lib.symbols| {
      return false;
    }
    UndefinedAddress(lib, r.symbol);
    var symbol := if lib.symbols[r.symbol].undefined then 0 else SymbolAddress(lib, r.symbol);
    ghost var before := memory[..];
    RelocatedIs(lib, Internal, before, r);
    if r.kind == R_ARM_NONE {
      return true;
    }
    var value: Address;
    if r.kind == R_ARM_ABS32 {
      var held := ReadWord(memory[..], r.offset);
      if symbol == 0 {
        assert (held + symbol) % WORD == held;
        return true;
      }
      value := (held + symbol) % WORD;
    } else if r.kind == R_ARM_RELATIVE {
      value := (ReadWord(memory[..], r.offset) + lib.base) % WORD;
    } else if r.kind == R_ARM_GLOB_DAT || r.kind == R_ARM_JUMP_SLOT {
      value := symbol;
    } else {
      return false;
    }
    ok := Copy(memory, r.offset, value, granted);
  }

  /** The first `n` relocations have been passed over. */
  ghost predicate Reached(lib: Library, pass: Pass, start: Blob, memory: Blob, list: seq<Reloc>, n: nat) {
    Valid(lib, start, list) && n <= |list| && memory == Passed(lib, pass, start, list[..n])
  }

  lemma ReachedNext(lib: Library, pass: Pass, start: Blob, memory: Blob, list: seq<Reloc>, n: nat, next: Blob)
    requires Reached(lib, pass, start, memory, list, n) && n < |list|
    requires Inside(memory, list[n]) ==> next == Relocated(lib, pass, memory, list[n])
    ensures Inside(memory, list[n]) && Reached(lib, pass, start, next, list, n + 1)
  {
    assert list[..n + 1][..n] == list[..n];
  }

  lemma ReachedInside(lib: Library, pass: Pass, start: Blob, memory: Blob, list: seq<Reloc>, n: nat)
    requires Reached(lib, pass, start, memory, list, n) && n < |list|
    ensures LibraryOkay(lib) && Inside(memory, list[n])
  {
  }

  lemma ReachedBounds(lib: Library, pass: Pass, start: Blob, memory: Blob, list: seq<Reloc>)
    requires Valid(lib, start, list)
    ensures Reached(lib, pass, start, start, list, 0)
    ensures Reached(lib, pass, start, memory, list, |list|) ==> memory == Passed(lib, pass, start, list)
  {
    assert list[..|list|] == list;
  }

  /** The internal pass accepts the first `n` relocations and every copy they need was granted. */
  predicate Accepted(lib: Library, list: seq<Reloc>, n: nat, granted: nat -> bool)
    requires n <= |list|
  {
    forall k: nat :: k < n ==> Loadable(lib, list[k]) && (InternalWrites(lib, list[k]) ==> granted(k))
  }

  lemma AcceptedNone(lib: Library, list: seq<Reloc>, granted: nat -> bool)
    ensures Accepted(lib, list, 0, granted)
  {
  }

  lemma AcceptedNext(lib: Library, list: seq<Reloc>, n: nat, granted: nat -> bool)
    requires n < |list| && Accepted(lib, list, n, granted)
    ensures Accepted(lib, list, n + 1, granted) <==>
            Loadable(lib, list[n]) && (InternalWrites(lib, list[n]) ==> granted(n))
    ensures !Accepted(lib, list, n + 1, granted) ==> !Accepted(lib, list, |list|, granted)
  {
  }

  /** The relocations of one section (image.c lines 138-157). */
  method LoadSection(memory: array<Byte>, lib: Library, entries: seq<Reloc>, position: nat, granted: nat -> bool,
                     ghost list: seq<Reloc>, ghost start: Blob) returns (ok: bool)
    requires position + |entries| <= |list| && list[position..position + |entries|] == entries
    requires Reached(lib, Internal, start, memory[..], list, position) && Accepted(lib, list, position, granted)
    modifies memory
    ensures ok ==> Reached(lib, Internal, start, memory[..], list, position + |entries|)
    ensures ok ==> Accepted(lib, list, position + |entries|, granted)
    ensures !ok ==> !Accepted(lib, list, |list|, granted)
  {
    hide Inside, Loadable, InternalWrites, Relocated, Reached, Valid, Accepted;
    for j := 0 to |entries|
      invariant Reached(lib, Internal, start, memory[..], list, position + j)
      invariant Accepted(lib, list, position + j, granted)
    {
      ghost var before := memory[..];
      assert entries[j] == list[position + j];
      ReachedInside(lib, Internal, start, before, list, position + j);
      AcceptedNext(lib, list, position + j, granted);
      ok := RelocateOne(memory, lib, entries[j], granted(position + j));
      if !ok {
        return;
      }
      ReachedNext(lib, Internal, start, before, list, position + j, memory[..]);
    }
    ok := true;
  }

  lemma NoEntries(sections: seq<Section>)
    ensures Entries(sections[..0]) == []
  {
  }

  lemma SectionEntries(sections: seq<Section>, n: nat)
    requires n < |sections|
    ensures var list, at := Entries(sections), |Entries(sections[..n])|;
            var size := if Selected(sections[n]) then |sections[n].entries| else 0;
            at + size <= |list| && |Entries(sections[..n + 1])| == at + size &&
            (size > 0 ==> list[at..at + size] == sections[n].entries)
  {
    EntriesPrefix(sections, n);
    EntriesPrefix(sections, n + 1);
  }

  /** The internal pass of `loader_load_sections` (image.c lines 132-158). */
  method LoadRelocations(memory: array<Byte>, lib: Library, sections: seq<Section>, granted: nat -> bool)
      returns (ok: bool)
    requires Valid(lib, memory[..], Entries(sections))
    modifies memory
    ensures ok <==> Accepted(lib, Entries(sections), |Entries(sections)|, granted)
    ensures ok ==> memory[..] == Passed(lib, Internal, old(memory[..]), Entries(sections))
  {
    hide Reached, Valid, Accepted, Selected, Entries, Passed;
    ghost var list, start := Entries(sections), memory[..];
    AcceptedNone(lib, list, granted);
    ReachedBounds(lib, Internal, start, start, list);
    NoEntries(sections);
    var index, position: nat := 0, 0;
    while index < |sections|
      invariant 0 <= index <= |sections| && position == |Entries(sections[..index])| <= |list|
      invariant Reached(lib, Internal, start, memory[..], list, position)
      invariant Accepted(lib, list, position, granted)
    {
      SectionEntries(sections, index);
      if Selected(sections[index]) {
        ok := LoadSection(memory, lib, sections[index].entries, position, granted, list, start);
        if !ok {
          return;
        }
        position := position + |sections[index].entries|;
      }
      index := index + 1;
    }
    assert sections[..index] == sections;
    ReachedBounds(lib, Internal, start, memory[..], list);
    ok := true;
  }

  // ---------------------------------------------------------------- binding

  /** What makes the loader refuse a library: a missing required import, or a found one it cannot place. */
  predicate Refused(lib: Library, r: Reloc)
    requires LibraryOkay(lib)
  {
    Missing(lib, r) || (Bound(lib, r) && !Supported(r.kind))
  }

  /** A symbol is reported only when it is counted. */
  predicate ReportedCounts(reported: seq<bool>, unresolved: nat) {
    forall s :: 0 <= s < |reported| && reported[s] ==> unresolved > 0
  }

  /** One turn of `loader_bind` (relocation.c lines 112-166). */
  method BindOne(memory: array<Byte>, reported: array<bool>, lib: Library, r: Reloc, unresolved: nat, granted: bool)
      returns (ok: bool, count: nat)
    requires LibraryOkay(lib) && Inside(memory[..], r) && reported.Length == |lib.symbols|
    requires ReportedCounts(reported[..], unresolved)
    modifies memory, reported
    ensures ok <==> (Bound(lib, r) && Supported(r.kind) ==> granted)
    ensures ok ==> memory[..] == Relocated(lib, External, old(memory[..]), r)
    ensures ok ==> (count > 0 <==> unresolved > 0 || Refused(lib, r))
    ensures ok ==> ReportedCounts(reported[..], count)
  {
    hide ReadWord, WriteWord, Relocated, SymbolAddress;
    RelocatedIs(lib, External, memory[..], r);
    count := unresolved;
    if r.kind == R_ARM_NONE {
      return true, count;
    }
    if r.kind == R_ARM_RELATIVE || r.symbol >= |lib.symbols| || !lib.symbols[r.symbol].undefined {
      return true, count;
    }
    var target := lib.imports[r.symbol];
    if target == 0 {
      if !lib.symbols[r.symbol].weak && !reported[r.symbol] {
        reported[r.symbol] := true;
        count := count + 1;
      }
      return true, count;
    }
    var value: Address;
    if r.kind == R_ARM_ABS32 {
      value := (ReadWord(memory[..], r.offset) + target) % WORD;
    } else if r.kind == R_ARM_GLOB_DAT || r.kind == R_ARM_JUMP_SLOT {
      value := target;
    } else {
      if !reported[r.symbol] {
        reported[r.symbol] := true;
        count := count + 1;
      }
      return true, count;
    }
    ok := Copy(memory, r.offset, value, granted);
  }

  predicate CopiesGranted(lib: Library, list: seq<Reloc>, n: nat, granted: nat -> bool)
    requires LibraryOkay(lib) && n <= |list|
  {
    forall k: nat :: k < n && Bound(lib, list[k]) && Supported(list[k].kind) ==> granted(k)
  }

  predicate NoneRefused(lib: Library, list: seq<Reloc>, n: nat)
    requires LibraryOkay(lib) && n <= |list|
  {
    forall k: nat :: k < n ==> !Refused(lib, list[k])
  }

  lemma BindNext(lib: Library, list: seq<Reloc>, n: nat, granted: nat -> bool)
    requires LibraryOkay(lib) && n < |list|
    ensures NoneRefused(lib, list, n + 1) <==> NoneRefused(lib, list, n) && !Refused(lib, list[n])
    ensures CopiesGranted(lib, list, n + 1, granted) <==>
            CopiesGranted(lib, list, n, granted) && (Bound(lib, list[n]) && Supported(list[n].kind) ==> granted(n))
    ensures !CopiesGranted(lib, list, n + 1, granted) ==> !CopiesGranted(lib, list, |list|, granted)
  {
  }

  /** What `loader_bind` has found out after `n` relocations. */
  predicate Counted(lib: Library, list: seq<Reloc>, n: nat, granted: nat -> bool, reported: seq<bool>, unresolved: nat)
    requires LibraryOkay(lib) && n <= |list|
  {
    && CopiesGranted(lib, list, n, granted)
    && (unresolved == 0 <==> NoneRefused(lib, list, n))
    && ReportedCounts(reported, unresolved)
  }

  /** The relocations of one section (relocation.c lines 109-167). */
  method BindSection(memory: array<Byte>, reported: array<bool>, lib: Library, entries: seq<Reloc>, position: nat,
                     unresolved: nat, granted: nat -> bool, ghost list: seq<Reloc>, ghost start: Blob)
      returns (ok: bool, count: nat)
    requires LibraryOkay(lib) && reported.Length == |lib.symbols|
    requires position + |entries| <= |list| && list[position..position + |entries|] == entries
    requires Reached(lib, External, start, memory[..], list, position)
    requires Counted(lib, list, position, granted, reported[..], unresolved)
    modifies memory, reported
    ensures ok ==> Reached(lib, External, start, memory[..], list, position + |entries|)
    ensures ok ==> Counted(lib, list, position + |entries|, granted, reported[..], count)
    ensures !ok ==> !CopiesGranted(lib, list, |list|, granted)
  {
    hide Inside, Bound, Supported, Refused, Relocated, Reached, Valid, CopiesGranted, NoneRefused, ReportedCounts;
    count := unresolved;
    for j := 0 to |entries|
      invariant Reached(lib, External, start, memory[..], list, position + j)
      invariant Counted(lib, list, position + j, granted, reported[..], count)
    {
      ghost var before := memory[..];
      assert entries[j] == list[position + j];
      ReachedInside(lib, External, start, before, list, position + j);
      BindNext(lib, list, position + j, granted);
      ok, count := BindOne(memory, reported, lib, entries[j], count, granted(position + j));
      if !ok {
        return;
      }
      ReachedNext(lib, External, start, before, list, position + j, memory[..]);
    }
    ok := true;
  }

  lemma CountedNone(lib: Library, list: seq<Reloc>, granted: nat -> bool, reported: seq<bool>)
    requires LibraryOkay(lib) && forall s :: 0 <= s < |reported| ==> !reported[s]
    ensures Counted(lib, list, 0, granted, reported, 0)
  {
  }

  lemma ValidSymbols(lib: Library, start: Blob, list: seq<Reloc>)
    requires Valid(lib, start, list)
    ensures LibraryOkay(lib)
  {
  }

  /** `loader_bind`: the external pass. It succeeds only when every required import that is relocated was found. */
  method Bind(memory: array<Byte>, lib: Library, sections: seq<Section>, room: bool, granted: nat -> bool)
      returns (ok: bool)
    requires Valid(lib, memory[..], Entries(sections))
    modifies memory
    ensures var list := Entries(sections);
            ok <==> room && CopiesGranted(lib, list, |list|, granted) && NoneRefused(lib, list, |list|)
    ensures ok ==> memory[..] == Passed(lib, External, old(memory[..]), Entries(sections))
  {
    hide Reached, Counted, CopiesGranted, NoneRefused, Selected, Entries, Valid, Passed;
    ValidSymbols(lib, memory[..], Entries(sections));
    if !room {
      return false;
    }
    var reported := new bool[|lib.symbols|](_ => false);
    ghost var list, start := Entries(sections), memory[..];
    CountedNone(lib, list, granted, reported[..]);
    ReachedBounds(lib, External, start, start, list);
    NoEntries(sections);
    var index, position: nat, unresolved: nat := 0, 0, 0;
    while index < |sections|
      invariant 0 <= index <= |sections| && position == |Entries(sections[..index])| <= |list|
      invariant Reached(lib, External, start, memory[..], list, position)
      invariant Counted(lib, list, position, granted, reported[..], unresolved)
    {
      SectionEntries(sections, index);
      if Selected(sections[index]) {
        ok, unresolved :=
          BindSection(memory, reported, lib, sections[index].entries, position, unresolved, granted, list, start);
        if !ok {
          return;
        }
        position := position + |sections[index].entries|;
      }
      index := index + 1;
    }
    assert sections[..index] == sections;
    ReachedBounds(lib, External, start, memory[..], list);
    Verdict(lib, list, granted, reported[..], unresolved);
    ok := unresolved == 0;
  }

  lemma Verdict(lib: Library, list: seq<Reloc>, granted: nat -> bool, reported: seq<bool>, unresolved: nat)
    requires LibraryOkay(lib) && Counted(lib, list, |list|, granted, reported, unresolved)
    ensures CopiesGranted(lib, list, |list|, granted) && (unresolved == 0 <==> NoneRefused(lib, list, |list|))
  {
  }

  /** After the internal pass accepted a library, binding meets no unknown relocation type and no unknown symbol:
      only missing imports can make it refuse. */
  lemma OnlyMissingRefused(lib: Library, list: seq<Reloc>, granted: nat -> bool)
    requires LibraryOkay(lib) && Accepted(lib, list, |list|, granted)
    ensures NoneRefused(lib, list, |list|) <==> forall k :: 0 <= k < |list| ==> !Missing(lib, list[k])
    ensures forall k :: 0 <= k < |list| ==> list[k].symbol < |lib.symbols|
  {
    forall k | 0 <= k < |list|
      ensures Refused(lib, list[k]) <==> Missing(lib, list[k])
    {
      assert Loadable(lib, list[k]);
    }
  }
}
