/** Which images the loader accepts (src/loader/validation.c:20-278), in the terms of the System V ABI, chapters 4 and
    5: numbers of the ABI, strings, stretches of the file, powers of two and shared pages. */
module ElfAccepts {
  import opened Words
  import opened ElfImage
  import opened ElfCheck

  // ---------------------------------------------------------------- terms

  /** The file has that many bytes from there on. */
  predicate Stretch(b: Image, from: nat, size: nat) {
    from <= |b| && size <= |b[from..]|
  }

  function Times(k: nat, q: nat): nat {
    k * q
  }

  ghost predicate Multiple(n: nat, k: nat) {
    exists q: nat :: n == Times(k, q)
  }

  function Exp2(k: nat): (n: nat)
    ensures n > 0
  {
    if k == 0 then 1 else 2 * Exp2(k - 1)
  }

  /** The bytes at an offset are this string and its end. */
  predicate StringAt(b: Image, at: nat, s: string) {
    at <= |b| && s + "\0" <= b[at..] && '\0' !in s
  }

  /** Some string starts at an offset and has ended by `end`. */
  ghost predicate SomeString(b: Image, at: nat, end: nat) {
    end <= |b| && exists s :: StringAt(b, at, s) && at + |s| < end
  }

  predicate Holds(p: Program, a: nat) {
    p.vaddr <= a < p.vaddr + p.memsz
  }

  lemma StretchIs(b: Image, from: nat, size: nat)
    ensures FileRange(b, from, size) <==> Stretch(b, from, size)
  {
  }

  lemma MultipleIs(n: nat, k: nat)
    requires k > 0
    ensures n % k == 0 <==> Multiple(n, k)
  {
    if n % k == 0 {
      assert n == Times(k, n / k);
    }
    if q: nat :| n == Times(k, q) {
      Remainder(k, q);
    }
  }

  lemma Remainder(k: nat, q: nat)
    requires k > 0
    ensures k * q % k == 0
  {
    DivUnique(k * q, k, q, 0);
  }

  lemma StringIs(b: Image, at: nat, name: string)
    requires NoNul(name)
    ensures NameIs(b, at, name) <==> StringAt(b, at, name)
  {
    if NameIs(b, at, name) {
      assert b[at..] == b[at..at + |name|] + [b[at + |name|]] + b[at + |name| + 1..];
    }
    if StringAt(b, at, name) {
      var rest := b[at..];
      assert rest[..|name|] == (name + "\0")[..|name|] == name;
      assert rest[|name|] == (name + "\0")[|name|] == '\0';
      assert b[at..at + |name|] == rest[..|name|];
    }
  }

  lemma TerminatedIs(b: Image, at: nat, end: nat)
    ensures Terminated(b, at, end) <==> SomeString(b, at, end)
  {
    if Terminated(b, at, end) {
      var i :| at <= i < end && b[i] == '\0';
      var s := FirstString(b, at, i);
      assert StringAt(b, at, s);
    }
    if SomeString(b, at, end) {
      var s :| StringAt(b, at, s) && at + |s| < end;
      assert b[at..][|s|] == (s + "\0")[|s|];
    }
  }

  lemma FirstString(b: Image, at: nat, i: nat) returns (s: string)
    requires at <= i < |b| && b[i] == '\0'
    ensures StringAt(b, at, s) && at + |s| <= i
    decreases i - at
  {
    if b[at] == '\0' {
      s := "";
      assert b[at..][..1] == "\0";
    } else {
      var rest := FirstString(b, at + 1, i);
      s := [b[at]] + rest;
      assert b[at..] == [b[at]] + b[at + 1..];
    }
  }

  // ---------------------------------------------------------------- segments

  lemma {:induction false} PowerIs(n: nat)
    ensures PowerOfTwo(n) <==> exists k: nat :: n == Exp2(k)
    decreases n
  {
    if PowerOfTwo(n) {
      var k := Exponent(n);
    }
    if k: nat :| n == Exp2(k) {
      ExpIsPower(k);
    }
  }

  lemma {:induction false} Exponent(n: nat) returns (k: nat)
    requires PowerOfTwo(n)
    ensures n == Exp2(k)
    decreases n
  {
    if n == 1 {
      k := 0;
    } else {
      var half := Exponent(n / 2);
      k := half + 1;
    }
  }

  lemma {:induction false} ExpIsPower(k: nat)
    ensures PowerOfTwo(Exp2(k))
  {
    if k > 0 {
      ExpIsPower(k - 1);
      assert Exp2(k) / 2 == Exp2(k - 1);
    }
  }

  lemma {:induction false} ExpSplits(j: nat, k: nat)
    requires j <= k
    ensures Exp2(k) == Exp2(j) * Exp2(k - j)
    decreases k - j
  {
    if j < k {
      ExpSplits(j, k - 1);
      TwiceInside(Exp2(j), Exp2(k - 1 - j));
    }
  }

  lemma TwiceInside(a: nat, b: nat)
    ensures a * (2 * b) == 2 * (a * b)
  {
  }

  lemma {:induction false} ExpGrows(j: nat, k: nat)
    requires j <= k
    ensures Exp2(j) <= Exp2(k)
    decreases k - j
  {
    if j < k {
      ExpGrows(j, k - 1);
    }
  }

  lemma WordIsExp()
    ensures Exp2(32) == 0x1_0000_0000
  {
    assert Exp2(8) == 0x100;
    assert Exp2(16) == 0x1_0000 by {
      ExpSplits(8, 16);
    }
    ExpSplits(16, 32);
  }

  lemma DivUnique(x: int, n: nat, q: int, r: nat)
    requires r < n && x == n * q + r
    ensures x % n == r
  {
    var d := x / n - q;
    assert d * n == r - x % n;
    assert d >= 1 ==> d * n >= n;
    assert d <= -1 ==> (d + 1) * n <= 0;
  }

  /** Taking a remainder twice, if the second divisor divides the first. */
  lemma RemainderTwice(x: int, n: nat, m: nat)
    requires n > 0 && m > 0
    ensures n * m > 0 && x % (n * m) % n == x % n
  {
    var y := x % (n * m);
    var q := x / (n * m);
    assert x == n * m * q + y;
    var r := y % n;
    assert y == n * (y / n) + r;
    assert n * m * q == n * (m * q);
    assert x == n * (m * q + y / n) + r;
    DivUnique(x, n, m * q + y / n, r);
  }

  /** Two numbers leave the same remainder exactly if it divides their difference. */
  lemma SameRemainder(x: nat, y: nat, n: nat)
    requires n > 0
    ensures (x - y) % n == 0 <==> x % n == y % n
  {
    var p, q, r, s := x / n, y / n, x % n, y % n;
    assert x - y == n * (p - q) + (r - s);
    if r >= s {
      DivUnique(x - y, n, p - q, r - s);
    } else {
      assert n * (p - q) == n * (p - q - 1) + n;
      DivUnique(x - y, n, p - q - 1, r - s + n);
    }
  }

  /** A segment's address and offset agree up to its alignment, which is a power of two. */
  ghost predicate Aligned(p: Program) {
    p.align <= 1 || exists k: nat :: p.align == Exp2(k) && p.vaddr % Exp2(k) == p.offset % Exp2(k)
  }

  lemma AlignedIs(p: Program)
    requires p.align < 0x1_0000_0000
    ensures AlignOk(p) <==> Aligned(p)
  {
    hide PowerOfTwo, Exp2;
    PowerIs(p.align);
    if k: nat :| p.align == Exp2(k) {
      AlignsAt(p, k);
    }
  }

  lemma AlignsAt(p: Program, k: nat)
    requires p.align < 0x1_0000_0000 && p.align == Exp2(k)
    ensures (p.vaddr - p.offset) % 0x1_0000_0000 % p.align == 0 <==> p.vaddr % Exp2(k) == p.offset % Exp2(k)
  {
    hide Exp2;
    WordIsExp();
    if k >= 32 {
      ExpGrows(32, k);
    } else {
      ExpSplits(k, 32);
      RemainderTwice(p.vaddr - p.offset, Exp2(k), Exp2(32 - k));
      SameRemainder(p.vaddr, p.offset, Exp2(k));
    }
  }

  ghost predicate SegmentAccepted(b: Image, p: Program) {
    p.filesz <= p.memsz && Stretch(b, p.offset, p.filesz) && p.vaddr + p.memsz <= 384 * 0x10_0000 && Aligned(p)
  }

  /** No page holds bytes of both. */
  ghost predicate NoPageShared(p: Program, q: Program) {
    forall a, c :: Holds(p, a) && Holds(q, c) ==> a / 0x1000 != c / 0x1000
  }

  lemma NoPageSharedIs(p: Program, q: Program)
    requires p.memsz > 0 && q.memsz > 0
    ensures PagesApart(p, q) <==> NoPageShared(p, q)
  {
    if PagesApart(p, q) {
      forall a, c | Holds(p, a) && Holds(q, c)
        ensures a / 0x1000 != c / 0x1000
      {
        OnPages(p, a);
        OnPages(q, c);
      }
    } else if FirstPage(p) >= FirstPage(q) {
      SharesPage(p, q);
    } else {
      SharesPage(q, p);
    }
  }

  lemma OnPages(p: Program, a: nat)
    requires Holds(p, a)
    ensures FirstPage(p) / 0x1000 <= a / 0x1000 && (a / 0x1000 + 1) * 0x1000 <= EndPage(p)
    ensures FirstPage(p) % 0x1000 == 0 && EndPage(p) % 0x1000 == 0
  {
  }

  lemma SharesPage(p: Program, q: Program)
    requires p.memsz > 0 && q.memsz > 0 && FirstPage(q) <= FirstPage(p) < EndPage(q)
    ensures !NoPageShared(p, q) && !NoPageShared(q, p)
  {
    var c := if q.vaddr >= FirstPage(p) then q.vaddr else FirstPage(p);
    assert Holds(p, p.vaddr) && Holds(q, c);
    assert c / 0x1000 == p.vaddr / 0x1000;
  }

  /** The mapped segments below `n`. */
  function MappedBelow(b: Image, n: nat): set<nat>
    requires HeaderOk(b) && n <= Phnum(b)
  {
    set i: nat | i < n && Loaded(ProgramOf(b, i))
  }

  lemma {:induction false} LoadsAre(b: Image, n: nat)
    requires HeaderOk(b) && n <= Phnum(b)
    ensures Loads(b, n) == |MappedBelow(b, n)|
  {
    hide HeaderOk, ProgramOf, Loaded;
    if n > 0 {
      LoadsAre(b, n - 1);
      assert MappedBelow(b, n) == MappedBelow(b, n - 1) + if Loaded(ProgramOf(b, n - 1)) then {n - 1} else {};
    } else {
      assert MappedBelow(b, 0) == {};
    }
  }

  ghost predicate SegmentsAccepted(b: Image)
    requires HeaderOk(b)
  {
    && (forall i :: 0 <= i < Phnum(b) && ProgramOf(b, i).kind == 1 ==> SegmentAccepted(b, ProgramOf(b, i)))
    && (forall i, j :: 0 <= i < j < Phnum(b) && Loaded(ProgramOf(b, i)) && Loaded(ProgramOf(b, j)) ==>
                         NoPageShared(ProgramOf(b, i), ProgramOf(b, j)))
    && 1 <= |MappedBelow(b, Phnum(b))| <= 16
  }

  lemma ProgramFits(b: Image, i: nat)
    requires HeaderOk(b) && i < Phnum(b)
    ensures ProgramOf(b, i).align < 0x1_0000_0000
  {
  }

  lemma SegmentsAre(b: Image)
    requires HeaderOk(b)
    ensures SegmentsOk(b) <==> SegmentsAccepted(b)
  {
    hide HeaderOk, ProgramOf, AlignOk, Aligned, FileRange, Stretch, PagesApart, NoPageShared, Loads, MappedBelow;
    LoadsAre(b, Phnum(b));
    forall i | 0 <= i < Phnum(b)
      ensures SegmentOk(b, ProgramOf(b, i)) <==> SegmentAccepted(b, ProgramOf(b, i))
    {
      var p := ProgramOf(b, i);
      ProgramFits(b, i);
      AlignedIs(p);
      StretchIs(b, p.offset, p.filesz);
    }
    forall i, j | 0 <= i < j < Phnum(b) && Loaded(ProgramOf(b, i)) && Loaded(ProgramOf(b, j))
      ensures PagesApart(ProgramOf(b, i), ProgramOf(b, j)) <==> NoPageShared(ProgramOf(b, i), ProgramOf(b, j))
    {
      NoPageSharedIs(ProgramOf(b, i), ProgramOf(b, j));
    }
    hide SegmentOk, SegmentAccepted;
  }

  // ---------------------------------------------------------------- sections

  /** The name of a section is this string of the name table. */
  predicate SectionNamed(b: Image, j: nat, name: string)
    requires HeaderOk(b) && j < Shnum(b)
  {
    StringAt(b, Names(b).offset + SectionOf(b, j).name, name)
  }

  /** The range is in the memory of one segment. */
  predicate InMemory(b: Image, address: nat, size: nat)
    requires HeaderOk(b)
  {
    exists i :: 0 <= i < Phnum(b) && ProgramOf(b, i).kind == 1 && InProgram(ProgramOf(b, i), address, size)
  }

  /** Every byte of the range is, and an empty range is at least at its end. */
  predicate InProgram(p: Program, address: nat, size: nat) {
    if size == 0 then address == p.vaddr + p.memsz || Holds(p, address)
    else forall a :: address <= a < address + size ==> Holds(p, a)
  }

  lemma InProgramIs(p: Program, address: nat, size: nat)
    ensures Covers(p, address, size) <==> p.kind == 1 && InProgram(p, address, size)
  {
    if size > 0 && InProgram(p, address, size) {
      assert Holds(p, address) && Holds(p, address + size - 1);
    }
  }

  lemma InMemoryIs(b: Image, address: nat, size: nat)
    requires HeaderOk(b)
    ensures Mapped(b, address, size) <==> InMemory(b, address, size)
  {
    hide HeaderOk, ProgramOf;
    forall i | 0 <= i < Phnum(b)
      ensures Covers(ProgramOf(b, i), address, size) <==>
              ProgramOf(b, i).kind == 1 && InProgram(ProgramOf(b, i), address, size)
    {
      InProgramIs(ProgramOf(b, i), address, size);
    }
    hide Covers, InProgram;
  }

  /** A section of the file with a name, and what its name asks for. */
  ghost predicate SectionAccepted(b: Image, j: nat)
    requires HeaderOk(b) && j < Shnum(b)
  {
    var s := SectionOf(b, j);
    && (s.kind == 8 || Stretch(b, s.offset, s.size))
    && s.name < Names(b).size && SomeString(b, Names(b).offset + s.name, Names(b).offset + Names(b).size)
    && (SectionNamed(b, j, ".dynsym") ==>
          s.kind == 11 && s.entsize == 16 && s.size >= 1 && Multiple(s.size, 16) && Multiple(s.offset, 4))
    && (SectionNamed(b, j, ".dynstr") ==> s.kind == 3 && s.size >= 1)
    && (SectionNamed(b, j, ".init_array") || SectionNamed(b, j, ".fini_array") ==>
          Multiple(s.size, 4) && InMemory(b, s.addr, s.size))
  }

  lemma NamesAre(b: Image, j: nat, name: string)
    requires HeaderOk(b) && j < Shnum(b) && NoNul(name)
    ensures Named(b, j, name) <==> SectionNamed(b, j, name)
  {
    hide HeaderOk, SectionOf;
    StringIs(b, Names(b).offset + SectionOf(b, j).name, name);
  }

  lemma SectionIs(b: Image, j: nat)
    requires HeaderOk(b) && j < Shnum(b)
    ensures ShapeOk(b, SectionOf(b, j)) && RuleOk(b, j) <==> SectionAccepted(b, j)
  {
    hide HeaderOk, SectionOf, Named, SectionNamed, FileRange, Stretch, Terminated, SomeString, Mapped, InMemory,
      Multiple;
    var s := SectionOf(b, j);
    StretchIs(b, s.offset, s.size);
    TerminatedIs(b, Names(b).offset + s.name, Names(b).offset + Names(b).size);
    NamesAre(b, j, ".dynsym");
    NamesAre(b, j, ".dynstr");
    NamesAre(b, j, ".init_array");
    NamesAre(b, j, ".fini_array");
    MultipleIs(s.size, 16);
    MultipleIs(s.offset, 4);
    MultipleIs(s.size, 4);
    InMemoryIs(b, s.addr, s.size);
  }

  /** A section is the only one of its name. */
  predicate TheOne(b: Image, j: nat, name: string)
    requires HeaderOk(b)
  {
    j < Shnum(b) && SectionNamed(b, j, name) && forall k :: 0 <= k < Shnum(b) && SectionNamed(b, k, name) ==> k == j
  }

  lemma TheOneIs(b: Image, j: nat, name: string)
    requires HeaderOk(b) && NoNul(name)
    ensures OnlyNamed(b, Shnum(b), name, j) && j < Shnum(b) <==> TheOne(b, j, name)
  {
    hide HeaderOk, Named, SectionNamed;
    forall k | 0 <= k < Shnum(b)
      ensures Named(b, k, name) <==> SectionNamed(b, k, name)
    {
      NamesAre(b, k, name);
    }
  }

  /** The name table, every section, one symbol table and the one string table it names. */
  ghost predicate SectionsAccepted(b: Image, sym: nat, str: nat)
    requires HeaderOk(b)
  {
    && Names(b).kind == 3 && Names(b).size >= 1 && Stretch(b, Names(b).offset, Names(b).size)
    && (forall j :: 0 <= j < Shnum(b) ==> SectionAccepted(b, j))
    && TheOne(b, sym, ".dynsym") && TheOne(b, str, ".dynstr")
    && SectionOf(b, sym).link == str
  }

  lemma SectionsAre(b: Image, sym: nat, str: nat)
    requires HeaderOk(b)
    ensures SectionsOk(b, sym, str) <==> SectionsAccepted(b, sym, str)
  {
    hide HeaderOk, SectionOf, ShapeOk, RuleOk, SectionAccepted, OnlyNamed, TheOne, FileRange, Stretch;
    StretchIs(b, Names(b).offset, Names(b).size);
    TheOneIs(b, sym, ".dynsym");
    TheOneIs(b, str, ".dynstr");
    forall j | 0 <= j < Shnum(b)
      ensures ShapeOk(b, SectionOf(b, j)) && RuleOk(b, j) <==> SectionAccepted(b, j)
    {
      SectionIs(b, j);
    }
  }

  // ---------------------------------------------------------------- symbols and relocations

  /** A symbol's name is a string of the string table; it is absolute or of a section of the file. */
  ghost predicate SymbolAccepted(b: Image, str: nat, s: Sym)
    requires HeaderOk(b) && str < Shnum(b)
  {
    var strings := SectionOf(b, str);
    && s.name < strings.size && SomeString(b, strings.offset + s.name, strings.offset + strings.size)
    && (s.shndx < Shnum(b) || s.shndx == 0xfff1)
  }

  lemma SymbolIs(b: Image, str: nat, s: Sym)
    requires HeaderOk(b) && str < Shnum(b)
    ensures SymbolOk(b, str, s) <==> SymbolAccepted(b, str, s)
  {
    hide HeaderOk, SectionOf, Terminated, SomeString;
    TerminatedIs(b, SectionOf(b, str).offset + s.name, SectionOf(b, str).offset + SectionOf(b, str).size);
  }

  /** A relocation section's form: records of eight bytes that name the symbol table. */
  ghost predicate RelocationsFormed(s: Section, sym: nat) {
    s.kind == 9 && s.entsize == 8 && Multiple(s.size, 8) && Multiple(s.offset, 4) && s.link == sym
  }

  lemma FormedIs(b: Image, j: nat, sym: nat)
    requires HeaderOk(b) && j < Shnum(b)
    ensures RelSectionOk(b, j, sym) <==> RelocationsFormed(SectionOf(b, j), sym)
  {
    hide HeaderOk, SectionOf;
    MultipleIs(SectionOf(b, j).size, 8);
    MultipleIs(SectionOf(b, j).offset, 4);
    hide Multiple;
  }

  /** A relocation names a symbol of the table, and the word it changes is in memory. */
  predicate RelocationAccepted(b: Image, symbols: nat, r: Rel)
    requires HeaderOk(b)
  {
    RelSymbol(r) < symbols && (RelType(r) == 0 || InMemory(b, r.offset, 4))
  }

  lemma RelocationIs(b: Image, sym: nat, r: Rel)
    requires HeaderOk(b) && sym < Shnum(b)
    ensures RelOk(b, sym, r) <==> RelocationAccepted(b, SectionOf(b, sym).size / 16, r)
  {
    hide HeaderOk, SectionOf, Mapped, InMemory;
    InMemoryIs(b, r.offset, 4);
  }

  // ---------------------------------------------------------------- the image

  /** An ELF file of this kind: identified, with tables of at least one program header and two section headers, aligned
      and in the file, and a name table among the sections. */
  ghost predicate HeaderAccepted(b: Image) {
    && Identified(b)
    && Phnum(b) >= 1 && 1 <= Shstrndx(b) <= Shnum(b) - 1
    && Multiple(Phoff(b), 4) && Multiple(Shoff(b), 4)
    && Stretch(b, Phoff(b), 32 * Phnum(b)) && Stretch(b, Shoff(b), 40 * Shnum(b))
  }

  lemma HeaderIs(b: Image)
    ensures HeaderOk(b) <==> HeaderAccepted(b)
  {
    if Identified(b) {
      MultipleIs(Phoff(b), 4);
      MultipleIs(Shoff(b), 4);
      StretchIs(b, Phoff(b), 32 * Phnum(b));
      StretchIs(b, Shoff(b), 40 * Shnum(b));
    }
    hide Multiple, Stretch, FileRange;
  }

  ghost predicate SymbolsAccepted(b: Image, sym: nat, str: nat)
    requires HeaderOk(b) && sym < Shnum(b) && str < Shnum(b) && TableInFile(b, sym, SHT_DYNSYM)
  {
    forall k: nat :: k < SectionOf(b, sym).size / 16 ==> SymbolAccepted(b, str, SymbolOf(b, sym, k))
  }

  lemma SymbolsAre(b: Image, sym: nat, str: nat)
    requires HeaderOk(b) && sym < Shnum(b) && str < Shnum(b) && TableInFile(b, sym, SHT_DYNSYM)
    ensures SymbolsOk(b, sym, str) <==> SymbolsAccepted(b, sym, str)
  {
    hide HeaderOk, SectionOf, SymbolOk, SymbolAccepted, SymbolOf, TableInFile;
    forall k: nat | k < SymbolCount(b, sym)
      ensures SymbolOk(b, str, SymbolOf(b, sym, k)) <==> SymbolAccepted(b, str, SymbolOf(b, sym, k))
    {
      SymbolIs(b, str, SymbolOf(b, sym, k));
    }
  }

  /** Every section of a relocation name is formed as one, and each of its records is acceptable. */
  ghost predicate RelocationsAccepted(b: Image, sym: nat)
    requires HeaderOk(b) && sym < Shnum(b)
  {
    forall j :: 0 <= j < Shnum(b) && (SectionNamed(b, j, ".rel.dyn") || SectionNamed(b, j, ".rel.plt")) ==>
                  RelocationsFormed(SectionOf(b, j), sym) && TableInFile(b, j, SHT_REL) &&
                    forall k: nat :: k < SectionOf(b, j).size / 8 ==>
                      RelocationAccepted(b, SectionOf(b, sym).size / 16, RelOf(b, j, k))
  }

  lemma RelsAre(b: Image, j: nat, sym: nat)
    requires HeaderOk(b) && j < Shnum(b) && sym < Shnum(b)
    ensures RelsOk(b, j, sym) <==>
            RelocationsFormed(SectionOf(b, j), sym) && TableInFile(b, j, SHT_REL) &&
              forall k: nat :: k < SectionOf(b, j).size / 8 ==>
                RelocationAccepted(b, SectionOf(b, sym).size / 16, RelOf(b, j, k))
  {
    hide HeaderOk, SectionOf, RelOk, RelocationAccepted, RelOf, RelSectionOk, RelocationsFormed, TableInFile;
    FormedIs(b, j, sym);
    if TableInFile(b, j, SHT_REL) {
      forall k: nat | k < RelCount(b, j)
        ensures RelOk(b, sym, RelOf(b, j, k)) <==>
                RelocationAccepted(b, SectionOf(b, sym).size / 16, RelOf(b, j, k))
      {
        RelocationIs(b, sym, RelOf(b, j, k));
      }
    }
  }

  lemma AllRelsAre(b: Image, sym: nat)
    requires HeaderOk(b) && sym < Shnum(b)
    ensures AllRelsOk(b, sym, Shnum(b)) <==> RelocationsAccepted(b, sym)
  {
    hide HeaderOk, SectionOf, RelOf, RelsOk, Named, SectionNamed, RelocationsFormed, RelocationAccepted, TableInFile;
    forall j | 0 <= j < Shnum(b)
      ensures IsRelocation(b, j) <==> SectionNamed(b, j, ".rel.dyn") || SectionNamed(b, j, ".rel.plt")
    {
      NamesAre(b, j, ".rel.dyn");
      NamesAre(b, j, ".rel.plt");
    }
    forall j | 0 <= j < Shnum(b)
      ensures RelsOk(b, j, sym) <==>
              RelocationsFormed(SectionOf(b, j), sym) && TableInFile(b, j, SHT_REL) &&
                forall k: nat :: k < SectionOf(b, j).size / 8 ==>
                  RelocationAccepted(b, SectionOf(b, sym).size / 16, RelOf(b, j, k))
    {
      RelsAre(b, j, sym);
    }
  }

  /** The images the loader accepts, with their symbol and string tables, are exactly these. */
  lemma AcceptedExactly(b: Image, sym: nat, str: nat)
    ensures Accepted(b, sym, str) <==>
            && HeaderAccepted(b) && HeaderOk(b)
            && SegmentsAccepted(b) && SectionsAccepted(b, sym, str)
            && TableInFile(b, sym, SHT_DYNSYM) && SymbolsAccepted(b, sym, str) && RelocationsAccepted(b, sym)
  {
    HeaderIs(b);
    if HeaderOk(b) {
      SegmentsAre(b);
      SectionsAre(b, sym, str);
      if SectionsOk(b, sym, str) && TableInFile(b, sym, SHT_DYNSYM) {
        SymbolsAre(b, sym, str);
        AllRelsAre(b, sym);
      }
    }
    hide HeaderOk, HeaderAccepted, SegmentsOk, SegmentsAccepted, SectionsOk, SectionsAccepted, SymbolsOk,
      SymbolsAccepted, AllRelsOk, RelocationsAccepted, TableInFile;
  }
}
