/** Mapping an accepted image (src/loader.c:141-186, src/loader/image.c:40-130): the validator justifies every
    access the loader makes without checking, and the loader's own later checks never fire. */
module ElfLoad {
  import opened Words
  import opened ElfImage
  import opened ElfCheck
  import Relocation

  const STB_WEAK := 2
  const LIBRARY_ADDRESS_LIMIT := 0xB000_0000

  // ---------------------------------------------------------------- the window

  /** Where the last of the first `n` segments ends. */
  function EndOf(b: Image, n: nat): nat
    requires HeaderOk(b) && n <= Phnum(b)
  {
    if n == 0 then 0
    else
      var p, rest := ProgramOf(b, n - 1), EndOf(b, n - 1);
      if Loaded(p) && p.vaddr + p.memsz > rest then p.vaddr + p.memsz else rest
  }

  function Span(b: Image): nat
    requires HeaderOk(b)
  {
    Up(EndOf(b, Phnum(b)))
  }

  lemma UpMonotone(v: nat, w: nat)
    requires v <= w
    ensures Up(v) <= Up(w) && v <= Up(v) < v + PAGE_SIZE && Up(v) % PAGE_SIZE == 0 && Down(v) % PAGE_SIZE == 0
  {
    var x, y := (v + PAGE_SIZE - 1) / PAGE_SIZE, (w + PAGE_SIZE - 1) / PAGE_SIZE;
    assert Up(v) == PAGE_SIZE * x && Up(w) == PAGE_SIZE * y && x <= y;
  }

  lemma {:induction false} EndCovers(b: Image, i: nat, n: nat)
    requires HeaderOk(b) && i < n <= Phnum(b) && Loaded(ProgramOf(b, i))
    ensures ProgramOf(b, i).vaddr + ProgramOf(b, i).memsz <= EndOf(b, n)
  {
    hide HeaderOk, ProgramOf;
    if i < n - 1 {
      EndCovers(b, i, n - 1);
    }
  }

  lemma {:induction false} EndSmall(b: Image, n: nat)
    requires HeaderOk(b) && n <= Phnum(b) && AllSegments(b, n)
    ensures EndOf(b, n) <= LIBRARY_MAX_SPAN
    ensures EndOf(b, n) > 0 <==> Loads(b, n) > 0
  {
    hide HeaderOk, ProgramOf;
    if n > 0 {
      EndSmall(b, n - 1);
    }
  }

  lemma EndFits(b: Image)
    requires HeaderOk(b) && SegmentsOk(b)
    ensures 0 < EndOf(b, Phnum(b)) <= Up(EndOf(b, Phnum(b)))
  {
    EndSmall(b, Phnum(b));
    UpMonotone(EndOf(b, Phnum(b)), LIBRARY_MAX_SPAN);
  }

  /** `__window`: a free window for the whole image, wherever the kernel puts it. */
  method Window(b: Image, kernel: nat -> nat) returns (base: nat)
    requires HeaderOk(b) && SegmentsOk(b)
    ensures base == 0 || base == kernel(Span(b))
    ensures base != 0 <==> kernel(Span(b)) % PAGE_SIZE == 0 && 0 < kernel(Span(b)) <= LIBRARY_ADDRESS_LIMIT - Span(b)
  {
    hide HeaderOk, ProgramOf, SegmentsOk, Up, Down;
    EndFits(b);
    var end, index := 0, 0;
    while index < Phnum(b)
      invariant 0 <= index <= Phnum(b) && end == EndOf(b, index)
    {
      var program := ProgramOf(b, index);
      if program.kind == PT_LOAD && program.memsz > 0 {
        var last := program.vaddr + program.memsz;
        if last > end {
          end := last;
        }
      }
      index := index + 1;
    }
    if end == 0 {
      assert false;
    }
    var size := Up(end);
    var block := kernel(size);
    if block == 0 || block % PAGE_SIZE != 0 || block + size > LIBRARY_ADDRESS_LIMIT {
      return 0;
    }
    base := block;
  }

  // ---------------------------------------------------------------- segments

  /** What a mapped segment holds at a window offset: the file bytes, then zeros up to the end of its last page. */
  function SegmentByte(b: Image, p: Program, a: nat): Byte
    requires SegmentOk(b, p)
  {
    if p.vaddr <= a < p.vaddr + p.filesz then b[p.offset + (a - p.vaddr)] else '\0'
  }

  predicate Placed(b: Image, memory: Blob, p: Program)
    requires SegmentOk(b, p)
  {
    EndPage(p) <= |memory| && forall a :: FirstPage(p) <= a < EndPage(p) ==> memory[a] == SegmentByte(b, p, a)
  }

  /** Zeroing a block and copying the file bytes into it (lines 91-96). */
  method PlaceSegment(b: Image, memory: array<Byte>, p: Program)
    requires SegmentOk(b, p) && EndPage(p) <= memory.Length
    modifies memory
    ensures Placed(b, memory[..], p)
    ensures forall a :: 0 <= a < memory.Length && !(FirstPage(p) <= a < EndPage(p)) ==> memory[a] == old(memory[a])
  {
    UpMonotone(p.vaddr + p.memsz, p.vaddr + p.memsz);
    hide Down, Up, AlignOk;
    assert FirstPage(p) <= p.vaddr by {
      DownBelow(p.vaddr);
    }
    for a := FirstPage(p) to EndPage(p)
      invariant forall k :: FirstPage(p) <= k < a ==> memory[k] == '\0'
      invariant forall k :: 0 <= k < memory.Length && !(FirstPage(p) <= k < EndPage(p)) ==> memory[k] == old(memory[k])
    {
      memory[a] := '\0';
    }
    for k := 0 to p.filesz
      invariant forall a :: FirstPage(p) <= a < EndPage(p) ==>
                              memory[a] == if p.vaddr <= a < p.vaddr + k then b[p.offset + (a - p.vaddr)] else '\0'
      invariant forall a :: 0 <= a < memory.Length && !(FirstPage(p) <= a < EndPage(p)) ==> memory[a] == old(memory[a])
    {
      memory[p.vaddr + k] := b[p.offset + k];
    }
  }

  lemma DownBelow(v: nat)
    ensures Down(v) <= v
  {
  }

  /** The segments below `n` are in place. */
  predicate AllPlaced(b: Image, memory: Blob, n: nat)
    requires HeaderOk(b) && n <= Phnum(b) && AllSegments(b, n)
  {
    forall i :: 0 <= i < n && Loaded(ProgramOf(b, i)) ==> Placed(b, memory, ProgramOf(b, i))
  }

  lemma PlacedApart(b: Image, before: Blob, after: Blob, p: Program, q: Program)
    requires SegmentOk(b, p) && Placed(b, before, p) && PagesApart(p, q) && |after| == |before|
    requires forall a :: 0 <= a < |before| && !(FirstPage(q) <= a < EndPage(q)) ==> after[a] == before[a]
    ensures Placed(b, after, p)
  {
    hide FirstPage, EndPage, SegmentByte, SegmentOk;
  }

  lemma PlacedNext(b: Image, before: Blob, after: Blob, n: nat)
    requires HeaderOk(b) && n < Phnum(b) && AllSegments(b, n + 1) && AllApart(b, n + 1) && AllPlaced(b, before, n)
    requires Loaded(ProgramOf(b, n)) ==> Placed(b, after, ProgramOf(b, n))
    requires !Loaded(ProgramOf(b, n)) ==> after == before
    requires |after| == |before|
    requires var q := ProgramOf(b, n);
             forall a :: 0 <= a < |before| && !(FirstPage(q) <= a < EndPage(q)) ==> after[a] == before[a]
    ensures AllPlaced(b, after, n + 1)
  {
    hide HeaderOk, ProgramOf, Placed, SegmentOk, FirstPage, EndPage, PagesApart;
    forall i | 0 <= i < n + 1 && Loaded(ProgramOf(b, i))
      ensures Placed(b, after, ProgramOf(b, i))
    {
      if i < n && Loaded(ProgramOf(b, n)) {
        PlacedApart(b, before, after, ProgramOf(b, i), ProgramOf(b, n));
      }
    }
  }

  /** The kernel maps every block the first `n` segments ask for. */
  predicate Granted(b: Image, n: nat, kernel: nat -> bool)
    requires HeaderOk(b) && n <= Phnum(b)
  {
    forall i: nat :: i < n && Loaded(ProgramOf(b, i)) ==> kernel(i)
  }

  /** The block of a segment as the loader computes it. */
  lemma BlockPages(p: Program)
    requires p.memsz > 0
    ensures FirstPage(p) <= p.vaddr && FirstPage(p) < EndPage(p)
    ensures FirstPage(p) + Up(p.vaddr - FirstPage(p) + p.memsz) == EndPage(p)
  {
    var pages := p.vaddr / PAGE_SIZE;
    assert FirstPage(p) == PAGE_SIZE * pages;
    UpShift(pages, p.vaddr - PAGE_SIZE * pages + p.memsz);
    UpMonotone(p.vaddr + p.memsz, p.vaddr + p.memsz);
  }

  lemma LoadsBelow(b: Image, i: nat)
    requires HeaderOk(b) && SegmentsOk(b) && i < Phnum(b) && Loaded(ProgramOf(b, i))
    ensures Loads(b, i) < MAX_SEGMENTS
  {
    hide HeaderOk, ProgramOf, AllSegments, AllApart;
    assert Loads(b, i + 1) == Loads(b, i) + 1;
    LoadsGrow(b, i + 1, Phnum(b));
  }

  lemma SegmentFits(b: Image, i: nat, base: nat)
    requires HeaderOk(b) && SegmentsOk(b) && i < Phnum(b) && Loaded(ProgramOf(b, i))
    requires base + Span(b) <= LIBRARY_ADDRESS_LIMIT
    ensures var p := ProgramOf(b, i);
            && SegmentOk(b, p)
            && p.filesz <= p.memsz
            && FirstPage(p) <= p.vaddr && FirstPage(p) < EndPage(p) <= Span(b)
            && FirstPage(p) + Up(p.vaddr - FirstPage(p) + p.memsz) == EndPage(p)
    ensures Loads(b, i) < MAX_SEGMENTS
  {
    hide HeaderOk, ProgramOf, Loads, Up, Down, AllApart, FileRange, AlignOk, EndOf;
    var p := ProgramOf(b, i);
    EndCovers(b, i, Phnum(b));
    LoadsBelow(b, i);
    BlockPages(p);
    UpMonotone(p.vaddr + p.memsz, EndOf(b, Phnum(b)));
  }

  lemma UpShift(pages: nat, v: nat)
    ensures Up(PAGE_SIZE * pages + v) == PAGE_SIZE * pages + Up(v)
  {
    assert (PAGE_SIZE * pages + v + PAGE_SIZE - 1) % PAGE_SIZE == (v + PAGE_SIZE - 1) % PAGE_SIZE;
  }

  /** The segment loop of `loader_load_sections` (lines 48-108): it stops only where the kernel refuses, and
      otherwise leaves every segment's bytes in place. */
  method LoadSegments(b: Image, memory: array<Byte>, base: nat, kernel: nat -> bool)
      returns (ok: bool, blocks: nat)
    requires HeaderOk(b) && SegmentsOk(b)
    requires base + Span(b) <= LIBRARY_ADDRESS_LIMIT && memory.Length == Span(b)
    modifies memory
    ensures ok <==> Granted(b, Phnum(b), kernel)
    ensures ok ==> AllPlaced(b, memory[..], Phnum(b)) && blocks == Loads(b, Phnum(b))
  {
    hide HeaderOk, ProgramOf, SegmentsOk, SegmentOk, Placed, Up, Down, AllPlaced;
    ok, blocks := true, 0;
    var index := 0;
    SegmentsParts(b);
    AllPlacedNone(b, memory[..]);
    while index < Phnum(b)
      invariant 0 <= index <= Phnum(b) && blocks == Loads(b, index)
      invariant AllSegments(b, index) && AllPlaced(b, memory[..], index)
      invariant Granted(b, index, kernel)
    {
      SegmentsUpTo(b, index + 1);
      var program := ProgramOf(b, index);
      ghost var before := memory[..];
      if program.kind == PT_LOAD && program.memsz > 0 {
        SegmentFits(b, index, base);
        if blocks >= MAX_SEGMENTS || program.filesz > program.memsz {
          assert false;
        }
        var start := FirstPage(program);
        var size := Up(program.vaddr - start + program.memsz);
        if base + start + size > LIBRARY_ADDRESS_LIMIT {
          assert false;
        }
        if !kernel(index) {
          return false, blocks;
        }
        blocks := blocks + 1;
        PlaceSegment(b, memory, program);
      }
      PlacedNext(b, before, memory[..], index);
      index := index + 1;
    }
  }

  lemma SegmentsParts(b: Image)
    requires HeaderOk(b) && SegmentsOk(b)
    ensures AllSegments(b, Phnum(b)) && AllApart(b, Phnum(b)) && AllSegments(b, 0)
  {
    hide HeaderOk;
  }

  lemma SegmentsUpTo(b: Image, n: nat)
    requires HeaderOk(b) && n <= Phnum(b) && SegmentsOk(b)
    ensures AllSegments(b, n) && AllApart(b, n)
  {
    hide HeaderOk, ProgramOf;
  }

  lemma AllPlacedNone(b: Image, memory: Blob)
    requires HeaderOk(b) && AllSegments(b, 0)
    ensures AllPlaced(b, memory, 0)
  {
    hide HeaderOk;
  }

  // ---------------------------------------------------------------- what is read after mapping

  /** Lines 110-130: the tables by name, as the validator saw them. */
  method FindTables(b: Image, ghost sym: nat, ghost str: nat) returns (symbols: nat, strings: nat)
    requires Accepted(b, sym, str)
    ensures symbols == sym && strings == str
  {
    hide HeaderOk, NamesOk, ShapeOk, RuleOk, Named, SectionOf, SegmentsOk, SymbolsOk, AllRelsOk, TableInFile;
    symbols, strings := Shnum(b), Shnum(b);
    var index := 0;
    while index < Shnum(b)
      invariant 0 <= index <= Shnum(b)
      invariant OnlyNamed(b, index, DYNSYM, symbols) && OnlyNamed(b, index, DYNSTR, strings)
    {
      assert ShapeOk(b, SectionOf(b, index));
      var kind := Classify(b, index);
      if kind == 1 {
        symbols := index;
      } else if kind == 2 {
        strings := index;
      }
      index := index + 1;
    }
    assert Named(b, sym, DYNSYM) && Named(b, str, DYNSTR);
  }

  /** The pages of one loaded segment hold the range: memory that `LoadSegments` has placed, no hole of the window. */
  predicate OnPages(b: Image, address: nat, size: nat)
    requires HeaderOk(b)
  {
    exists i :: 0 <= i < Phnum(b) && HoldsRange(ProgramOf(b, i), address, size)
  }

  predicate HoldsRange(p: Program, address: nat, size: nat) {
    Loaded(p) && FirstPage(p) <= address && address + size <= EndPage(p)
  }

  /** A range in the memory of a segment lies on that segment's pages, and they in the window. */
  lemma MappedInside(b: Image, address: nat, size: nat)
    requires HeaderOk(b) && SegmentsOk(b) && Mapped(b, address, size) && size > 0
    ensures OnPages(b, address, size) && address + size <= Span(b)
  {
    hide HeaderOk, ProgramOf, SegmentsOk, Up, Down;
    var i :| 0 <= i < Phnum(b) && Covers(ProgramOf(b, i), address, size);
    var p := ProgramOf(b, i);
    EndCovers(b, i, Phnum(b));
    UpMonotone(EndOf(b, Phnum(b)), EndOf(b, Phnum(b)));
    UpMonotone(p.vaddr + p.memsz, p.vaddr + p.memsz);
    DownBelow(p.vaddr);
    assert HoldsRange(p, address, size);
  }

  /** The constructor and destructor arrays lie on a segment's pages. */
  lemma ArraysInside(b: Image, sym: nat, str: nat, j: nat)
    requires Accepted(b, sym, str) && j < Shnum(b) && (Named(b, j, INIT_ARRAY) || Named(b, j, FINI_ARRAY))
    ensures var s := SectionOf(b, j);
            s.size % 4 == 0 && (s.size > 0 ==> OnPages(b, s.addr, s.size) && s.addr + s.size <= Span(b))
  {
    hide HeaderOk, OnPages, SectionOf, SegmentsOk, SymbolsOk, AllRelsOk, Named, Mapped, SymbolTableOk, StringTableOk;
    assert RuleOk(b, j);
    if SectionOf(b, j).size > 0 {
      MappedInside(b, SectionOf(b, j).addr, SectionOf(b, j).size);
    }
  }

  /** The names the external pass and the lookups read are strings in the file. */
  lemma SymbolNamesInFile(b: Image, sym: nat, str: nat, k: nat)
    requires Accepted(b, sym, str) && k < SymbolCount(b, sym)
    ensures Terminated(b, SectionOf(b, str).offset + SymbolOf(b, sym, k).name, |b|)
  {
    hide HeaderOk, SectionOf, SegmentsOk, SectionsOk, AllRelsOk, SymbolOf, SymbolCount, Terminated;
    assert SymbolOk(b, str, SymbolOf(b, sym, k));
    TerminatedInFile(b, SectionOf(b, str).offset + SymbolOf(b, sym, k).name,
        SectionOf(b, str).offset + SectionOf(b, str).size);
  }

  function RelocOf(r: Rel): Relocation.Reloc {
    Relocation.Reloc(r.offset, RelType(r), RelSymbol(r))
  }

  function Relocs(b: Image, j: nat): seq<Relocation.Reloc>
    requires HeaderOk(b) && j < Shnum(b) && TableInFile(b, j, SHT_REL)
  {
    seq(RelCount(b, j), k requires 0 <= k < RelCount(b, j) => RelocOf(RelOf(b, j, k)))
  }

  /** A section as the relocation passes see it. */
  function RelocSection(b: Image, sym: nat, j: nat): Relocation.Section
    requires HeaderOk(b) && sym < Shnum(b) && AllRelsOk(b, sym, Shnum(b)) && j < Shnum(b)
  {
    if IsRelocation(b, j) then
      Relocation.Section(if Named(b, j, REL_DYN) then REL_DYN else REL_PLT, Relocs(b, j))
    else Relocation.Section("", [])
  }

  function RelocSections(b: Image, sym: nat): seq<Relocation.Section>
    requires HeaderOk(b) && sym < Shnum(b) && AllRelsOk(b, sym, Shnum(b))
  {
    seq(Shnum(b), j requires 0 <= j < Shnum(b) => RelocSection(b, sym, j))
  }

  lemma {:induction false} FromSomeSection(sections: seq<Relocation.Section>, r: Relocation.Reloc)
    requires r in Relocation.Entries(sections)
    ensures exists j :: 0 <= j < |sections| && r in sections[j].entries
  {
    var n := |sections| - 1;
    if r in Relocation.Entries(sections[..n]) {
      FromSomeSection(sections[..n], r);
      var j :| 0 <= j < n && r in sections[..n][j].entries;
      assert sections[j] == sections[..n][j];
    } else {
      assert r in sections[n].entries;
    }
  }

  lemma OneFits(b: Image, sym: nat, str: nat, j: nat, r: Relocation.Reloc)
    requires Accepted(b, sym, str) && j < Shnum(b) && r in RelocSection(b, sym, j).entries
    ensures r.symbol < SymbolCount(b, sym)
    ensures r.kind != R_ARM_NONE ==> OnPages(b, r.offset, 4) && r.offset + 4 <= Span(b)
  {
    hide HeaderOk, OnPages, SegmentsOk, SectionsOk, SymbolsOk, SectionOf, RelOf, Mapped, Named, TableInFile, Span;
    assert RelsOk(b, j, sym);
    var k: nat :| k < RelCount(b, j) && r == RelocOf(RelOf(b, j, k));
    assert RelOk(b, sym, RelOf(b, j, k));
    if r.kind != R_ARM_NONE {
      MappedInside(b, r.offset, 4);
    }
  }

  /** A symbol of the table as the passes see it. */
  function RelocSymbolOf(s: Sym): Relocation.Symbol
    requires s.value < Relocation.WORD
  {
    Relocation.Symbol(s.shndx == SHN_UNDEF, s.shndx == SHN_ABS, s.value, s.info / 16 == STB_WEAK)
  }

  /** The library an accepted image is loaded as, wherever it is placed and its imports are found. */
  function LibraryOf(
    b: Image, sym: nat, str: nat, base: Relocation.Address, imports: seq<Relocation.Address>): Relocation.Library
    requires Accepted(b, sym, str)
  {
    var n := SymbolCount(b, sym);
    Relocation.Library(base, seq(n, k requires 0 <= k < n => RelocSymbolOf(SymbolOf(b, sym, k))), imports)
  }

  /** A symbol of an accepted image: what is undefined is nowhere, what is absolute is where it says, and everything
      else is of one of the image's sections and moves with the library. */
  lemma SymbolsMeanTheTable(
    b: Image, sym: nat, str: nat, base: Relocation.Address, imports: seq<Relocation.Address>, k: nat)
    requires Accepted(b, sym, str) && k < SymbolCount(b, sym)
    ensures var lib := LibraryOf(b, sym, str, base, imports);
            k < |lib.symbols| && Placing(b, lib, k, SymbolOf(b, sym, k))
  {
    hide HeaderOk, SectionOf, SegmentsOk, SectionsOk, AllRelsOk, SymbolOf, SymbolCount, Terminated;
    assert SymbolOk(b, str, SymbolOf(b, sym, k));
    hide SymbolsOk, SymbolOk;
  }

  ghost predicate Placing(b: Image, lib: Relocation.Library, k: nat, s: Sym)
    requires HeaderOk(b) && k < |lib.symbols|
  {
    && (if s.shndx == SHN_UNDEF then Relocation.SymbolAddress(lib, k) == 0
        else if s.shndx == SHN_ABS then Relocation.SymbolAddress(lib, k) == s.value
        else s.shndx < Shnum(b) && Relocation.SymbolAddress(lib, k) == (lib.base + s.value) % Relocation.WORD)
    && (lib.symbols[k].weak <==> s.info / 16 == STB_WEAK)
  }

  /** What the relocation passes assume holds of every accepted image: each relocated word lies on a segment's
      pages and each symbol index in the table, so their own index tests never fire. */
  lemma EveryRelocationFits(
    b: Image, sym: nat, str: nat, base: Relocation.Address, imports: seq<Relocation.Address>, memory: Blob)
    requires Accepted(b, sym, str) && |memory| == Span(b) && |imports| == SymbolCount(b, sym)
    ensures var list, lib := Relocation.Entries(RelocSections(b, sym)), LibraryOf(b, sym, str, base, imports);
            && Relocation.Valid(lib, memory, list)
            && (forall k :: 0 <= k < |list| ==> list[k].symbol < |lib.symbols|)
            && (forall k :: 0 <= k < |list| && list[k].kind != R_ARM_NONE ==> OnPages(b, list[k].offset, 4))
  {
    var lib := LibraryOf(b, sym, str, base, imports);
    hide HeaderOk, OnPages, SegmentsOk, SectionsOk, SymbolsOk, AllRelsOk, RelocSection, Span, SymbolCount, LibraryOf;
    var sections := RelocSections(b, sym);
    var list := Relocation.Entries(sections);
    forall k | 0 <= k < |list|
      ensures list[k].symbol < |lib.symbols| && Relocation.Inside(memory, list[k])
      ensures list[k].kind != R_ARM_NONE ==> OnPages(b, list[k].offset, 4)
    {
      FromSomeSection(sections, list[k]);
      var j :| 0 <= j < |sections| && list[k] in sections[j].entries;
      OneFits(b, sym, str, j, list[k]);
    }
  }
}
