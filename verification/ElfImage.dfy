/** The ELF validator (src/loader/validation.c): what an accepted image satisfies. Every table, name and
    segment the checks read is read within the file, because the model can only read there. */
module ElfImage {
  import opened Words

  const PAGE_SIZE := 0x1000
  const LIBRARY_MAX_SPAN := 0x1800_0000
  const MAX_SEGMENTS := 16

  const PT_LOAD := 1
  const SHT_STRTAB := 3
  const SHT_NOBITS := 8
  const SHT_REL := 9
  const SHT_DYNSYM := 11
  const SHN_UNDEF := 0
  const SHN_ABS := 0xfff1
  const R_ARM_NONE := 0

  datatype Program = Program(kind: nat, offset: nat, vaddr: nat, filesz: nat, memsz: nat, flags: nat, align: nat)

  datatype Section = Section(
    name: nat, kind: nat, addr: nat, offset: nat, size: nat, link: nat, entsize: nat)

  datatype Sym = Sym(name: nat, value: nat, info: nat, shndx: nat)

  datatype Rel = Rel(offset: nat, info: nat)

  type Image = b: Blob | |b| < 0x1_0000_0000

  // ---------------------------------------------------------------- records

  function Half(b: Image, at: nat): nat
    requires at + 2 <= |b|
  {
    b[at] as int + 256 * b[at + 1] as int
  }

  function ProgramAt(b: Image, at: nat): Program
    requires at + 32 <= |b|
  {
    Program(ReadWord(b, at), ReadWord(b, at + 4), ReadWord(b, at + 8), ReadWord(b, at + 16), ReadWord(b, at + 20),
            ReadWord(b, at + 24), ReadWord(b, at + 28))
  }

  function SectionAt(b: Image, at: nat): Section
    requires at + 40 <= |b|
  {
    Section(ReadWord(b, at), ReadWord(b, at + 4), ReadWord(b, at + 12), ReadWord(b, at + 16), ReadWord(b, at + 20),
            ReadWord(b, at + 24), ReadWord(b, at + 36))
  }

  function SymAt(b: Image, at: nat): Sym
    requires at + 16 <= |b|
  {
    Sym(ReadWord(b, at), ReadWord(b, at + 4), b[at + 12] as int, Half(b, at + 14))
  }

  function RelAt(b: Image, at: nat): Rel
    requires at + 8 <= |b|
  {
    Rel(ReadWord(b, at), ReadWord(b, at + 4))
  }

  function RelSymbol(r: Rel): nat {
    r.info / 256
  }

  function RelType(r: Rel): nat {
    r.info % 256
  }

  // ---------------------------------------------------------------- the header

  /** `__file_range`. */
  predicate FileRange(b: Image, offset: nat, size: nat) {
    offset + size <= |b|
  }

  const MAGIC: Blob := "\U{7F}ELF"

  /** The identification, kind and record sizes. */
  predicate Identified(b: Image) {
    && |b| >= 52
    && b[..4] == MAGIC
    && b[4] == 1 as char && b[5] == 1 as char && b[6] == 1 as char
    && Half(b, 16) == 3 && Half(b, 18) == 40 && ReadWord(b, 20) == 1
    && Half(b, 40) == 52 && Half(b, 42) == 32 && Half(b, 46) == 40
  }

  function Phoff(b: Image): nat
    requires |b| >= 52
  {
    ReadWord(b, 28)
  }

  function Shoff(b: Image): nat
    requires |b| >= 52
  {
    ReadWord(b, 32)
  }

  function Phnum(b: Image): nat
    requires |b| >= 52
  {
    Half(b, 44)
  }

  function Shnum(b: Image): nat
    requires |b| >= 52
  {
    Half(b, 48)
  }

  function Shstrndx(b: Image): nat
    requires |b| >= 52
  {
    Half(b, 50)
  }

  /** `__header_ok`: an ARM shared object whose two tables lie in the file. */
  predicate HeaderOk(b: Image): (ok: bool)
    ensures ok ==> |b| >= 52
  {
    && Identified(b)
    && Phnum(b) > 0 && 0 < Shstrndx(b) < Shnum(b)
    && Phoff(b) % 4 == 0 && Shoff(b) % 4 == 0
    && FileRange(b, Phoff(b), 32 * Phnum(b))
    && FileRange(b, Shoff(b), 40 * Shnum(b))
  }

  function ProgramOf(b: Image, i: nat): Program
    requires HeaderOk(b) && i < Phnum(b)
  {
    ProgramAt(b, Phoff(b) + 32 * i)
  }

  function SectionOf(b: Image, j: nat): Section
    requires HeaderOk(b) && j < Shnum(b)
  {
    SectionAt(b, Shoff(b) + 40 * j)
  }

  function Names(b: Image): Section
    requires HeaderOk(b)
  {
    SectionOf(b, Shstrndx(b))
  }

  // ---------------------------------------------------------------- segments

  function Down(v: nat): nat {
    v - v % PAGE_SIZE
  }

  function Up(v: nat): nat {
    Down(v + PAGE_SIZE - 1)
  }

  predicate PowerOfTwo(n: nat) {
    n == 1 || (n > 1 && n % 2 == 0 && PowerOfTwo(n / 2))
  }

  predicate AlignOk(p: Program) {
    p.align > 1 ==> PowerOfTwo(p.align) && (p.vaddr - p.offset) % 0x1_0000_0000 % p.align == 0
  }

  predicate SegmentOk(b: Image, p: Program) {
    && p.filesz <= p.memsz
    && FileRange(b, p.offset, p.filesz)
    && p.vaddr + p.memsz <= LIBRARY_MAX_SPAN
    && AlignOk(p)
  }

  /** A segment that is mapped. */
  predicate Loaded(p: Program) {
    p.kind == PT_LOAD && p.memsz > 0
  }

  function FirstPage(p: Program): nat {
    Down(p.vaddr)
  }

  function EndPage(p: Program): nat {
    Up(p.vaddr + p.memsz)
  }

  predicate PagesApart(p: Program, q: Program) {
    FirstPage(p) >= EndPage(q) || FirstPage(q) >= EndPage(p)
  }

  /** The mapped segments among the first `n`. */
  function Loads(b: Image, n: nat): (count: nat)
    requires HeaderOk(b) && n <= Phnum(b)
    ensures count <= n
  {
    if n == 0 then 0 else Loads(b, n - 1) + if Loaded(ProgramOf(b, n - 1)) then 1 else 0
  }

  lemma {:induction false} LoadsGrow(b: Image, m: nat, n: nat)
    requires HeaderOk(b) && m <= n <= Phnum(b)
    ensures Loads(b, m) <= Loads(b, n)
    ensures Loads(b, m) < Loads(b, n) <==> exists i :: m <= i < n && Loaded(ProgramOf(b, i))
  {
    hide HeaderOk, ProgramOf, Loaded;
    if m < n {
      LoadsGrow(b, m, n - 1);
    }
  }

  predicate AllSegments(b: Image, n: nat)
    requires HeaderOk(b) && n <= Phnum(b)
  {
    forall i :: 0 <= i < n && ProgramOf(b, i).kind == PT_LOAD ==> SegmentOk(b, ProgramOf(b, i))
  }

  /** No two mapped segments share a page. */
  predicate AllApart(b: Image, n: nat)
    requires HeaderOk(b) && n <= Phnum(b)
  {
    forall i, j :: 0 <= i < j < n && Loaded(ProgramOf(b, i)) && Loaded(ProgramOf(b, j)) ==>
                     PagesApart(ProgramOf(b, i), ProgramOf(b, j))
  }

  predicate SegmentsOk(b: Image)
    requires HeaderOk(b)
  {
    AllSegments(b, Phnum(b)) && AllApart(b, Phnum(b)) && 0 < Loads(b, Phnum(b)) <= MAX_SEGMENTS
  }

  /** The inner loop of `__segments_ok` (lines 121-139). */
  method ApartFrom(b: Image, index: nat) returns (ok: bool)
    requires HeaderOk(b) && index < Phnum(b)
    ensures ok <==> forall i :: 0 <= i < index && Loaded(ProgramOf(b, i)) ==>
              PagesApart(ProgramOf(b, i), ProgramOf(b, index))
  {
    hide HeaderOk, ProgramOf, FirstPage, EndPage;
    var program := ProgramOf(b, index);
    var start, end := FirstPage(program), EndPage(program);
    var previous := 0;
    while previous < index
      invariant 0 <= previous <= index
      invariant forall i :: 0 <= i < previous && Loaded(ProgramOf(b, i)) ==> PagesApart(ProgramOf(b, i), program)
    {
      var other := ProgramOf(b, previous);
      if Loaded(other) && start < EndPage(other) && FirstPage(other) < end {
        assert !PagesApart(other, program);
        return false;
      }
      previous := previous + 1;
    }
    ok := true;
  }

  /** `__segments_ok`. */
  method CheckSegments(b: Image) returns (ok: bool)
    requires HeaderOk(b)
    ensures ok <==> SegmentsOk(b)
  {
    hide HeaderOk, ProgramOf, SegmentOk, PagesApart;
    var loads, index := 0, 0;
    while index < Phnum(b)
      invariant 0 <= index <= Phnum(b) && loads == Loads(b, index) <= MAX_SEGMENTS
      invariant AllSegments(b, index) && AllApart(b, index)
    {
      var program := ProgramOf(b, index);
      if program.kind == PT_LOAD {
        if !SegmentOk(b, program) {
          return false;
        }
        if program.memsz > 0 {
          loads := loads + 1;
          if loads > MAX_SEGMENTS {
            assert Loads(b, index + 1) > MAX_SEGMENTS;
            LoadsGrow(b, index + 1, Phnum(b));
            return false;
          }
          var apart := ApartFrom(b, index);
          if !apart {
            return false;
          }
        }
      }
      index := index + 1;
    }
    ok := loads > 0;
  }

  /** `__mapped_range`: the range lies in the memory of one segment. */
  predicate Mapped(b: Image, address: nat, size: nat)
    requires HeaderOk(b)
  {
    exists i :: 0 <= i < Phnum(b) && Covers(ProgramOf(b, i), address, size)
  }

  predicate Covers(p: Program, address: nat, size: nat) {
    p.kind == PT_LOAD && address >= p.vaddr && address + size <= p.vaddr + p.memsz
  }

  method CheckMapped(b: Image, address: nat, size: nat) returns (ok: bool)
    requires HeaderOk(b)
    ensures ok <==> Mapped(b, address, size)
  {
    hide HeaderOk, ProgramOf;
    var index := 0;
    while index < Phnum(b)
      invariant 0 <= index <= Phnum(b)
      invariant forall i :: 0 <= i < index ==> !Covers(ProgramOf(b, i), address, size)
    {
      var program := ProgramOf(b, index);
      if program.kind == PT_LOAD && address >= program.vaddr && address + size <= program.vaddr + program.memsz {
        assert Covers(ProgramOf(b, index), address, size);
        return true;
      }
      index := index + 1;
    }
    ok := false;
  }

  // ---------------------------------------------------------------- names

  /** A string starts at `at` and ends before `end`. */
  predicate Terminated(b: Image, at: nat, end: nat) {
    end <= |b| && exists i :: at <= i < end && b[i] == '\0'
  }

  /** The string at `at` is `name`. */
  predicate NameIs(b: Image, at: nat, name: string) {
    at + |name| < |b| && b[at..at + |name|] == name && b[at + |name|] == '\0'
  }

  /** `strcmp(text, name) == 0`, byte by byte; a terminated text is never read past its end. */
  method SameName(b: Image, at: nat, name: string) returns (same: bool)
    requires Terminated(b, at, |b|)
    requires forall i :: 0 <= i < |name| ==> name[i] != '\0'
    ensures same <==> NameIs(b, at, name)
  {
    var stop :| at <= stop < |b| && b[stop] == '\0';
    var i := 0;
    while i < |name|
      invariant 0 <= i <= |name| && at + i <= stop
      invariant forall k :: 0 <= k < i ==> b[at + k] == name[k]
    {
      assert at + |name| <= |b| ==> b[at..at + |name|][i] == b[at + i];
      if b[at + i] != name[i] {
        return false;
      }
      i := i + 1;
    }
    same := b[at + i] == '\0';
  }
}
