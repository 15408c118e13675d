/** The records of an ELF file as the System V ABI, chapters 4 and 5, lays them out in bytes, and that the loader's
    structures (src/loader/validation.c, src/loader/image.c) read exactly these. */
module ElfRecords {
  import opened Words
  import opened ElfImage

  /** A half word, the low byte first. */
  function HalfBytes(n: nat): (b: Blob)
    requires n < 0x1_0000
    ensures |b| == 2
  {
    [(n % 256) as char, (n / 256) as char]
  }

  predicate Fits(n: nat) {
    n < 0x1_0000_0000
  }

  /** A record of words alone. */
  function AllWords(ns: seq<nat>): (b: Blob)
    requires forall i :: 0 <= i < |ns| ==> ns[i] < 0x1_0000_0000
    ensures |b| == 4 * |ns|
  {
    var n := |ns| - 1;
    if n < 0 then [] else AllWords(ns[..n]) + Word(ns[n])
  }

  /** `Elf32_Phdr`. */
  function ProgramBytes(p: Program, paddr: nat): (b: Blob)
    requires Fits(p.kind) && Fits(p.offset) && Fits(p.vaddr) && Fits(paddr) && Fits(p.filesz) && Fits(p.memsz)
    requires Fits(p.flags) && Fits(p.align)
    ensures |b| == 32
  {
    AllWords([p.kind, p.offset, p.vaddr, paddr, p.filesz, p.memsz, p.flags, p.align])
  }

  /** `Elf32_Shdr`. */
  function SectionBytes(s: Section, flags: nat, info: nat, align: nat): (b: Blob)
    requires Fits(s.name) && Fits(s.kind) && Fits(flags) && Fits(s.addr) && Fits(s.offset) && Fits(s.size)
    requires Fits(s.link) && Fits(info) && Fits(align) && Fits(s.entsize)
    ensures |b| == 40
  {
    AllWords([s.name, s.kind, flags, s.addr, s.offset, s.size, s.link, info, align, s.entsize])
  }

  /** `Elf32_Sym`. */
  function SymbolBytes(s: Sym, size: nat, other: Byte): (b: Blob)
    requires Fits(s.name) && Fits(s.value) && Fits(size) && s.info < 256 && s.shndx < 0x1_0000
    ensures |b| == 16
  {
    Word(s.name) + Word(s.value) + Word(size) + [s.info as char] + [other] + HalfBytes(s.shndx)
  }

  /** `Elf32_Rel`: the symbol's index stands above the type's eight bits. */
  function RelBytes(offset: nat, symbol: nat, kind: nat): (b: Blob)
    requires Fits(offset) && symbol < 0x100_0000 && kind < 0x100
    ensures |b| == 8
  {
    Word(offset) + Word(symbol * 0x100 + kind)
  }

  lemma WordAt(b: Blob, at: nat, n: nat)
    requires Fits(n) && at + 4 <= |b| && b[at..at + 4] == Word(n)
    ensures ReadWord(b, at) == n
  {
    WordRoundTrip(n, b, at);
  }

  /** Word `k` of a stretch of words. */
  lemma WordOf(b: Blob, at: nat, record: Blob, k: nat, n: nat)
    requires at + |record| <= |b| && b[at..at + |record|] == record && k + 4 <= |record|
    requires Fits(n) && record[k..k + 4] == Word(n)
    ensures ReadWord(b, at + k) == n
  {
    var stretch := b[at..at + |record|];
    assert forall i :: k <= i < k + 4 ==> stretch[i] == b[at + i];
    assert b[at + k..at + k + 4] == stretch[k..k + 4];
    WordAt(b, at + k, n);
  }

  lemma {:induction false} WordIn(ns: seq<nat>, i: nat)
    requires (forall k :: 0 <= k < |ns| ==> ns[k] < 0x1_0000_0000) && i < |ns|
    ensures AllWords(ns)[4 * i..4 * i + 4] == Word(ns[i])
  {
    hide Word;
    var n := |ns| - 1;
    if i < n {
      WordIn(ns[..n], i);
      assert AllWords(ns)[4 * i..4 * i + 4] == AllWords(ns[..n])[4 * i..4 * i + 4];
    }
  }

  /** A record of words is read word by word. */
  lemma WordRead(b: Blob, at: nat, ns: seq<nat>, i: nat)
    requires (forall k :: 0 <= k < |ns| ==> ns[k] < 0x1_0000_0000) && i < |ns|
    requires at + 4 * |ns| <= |b| && b[at..at + 4 * |ns|] == AllWords(ns)
    ensures ReadWord(b, at + 4 * i) == ns[i]
  {
    hide Word, ReadWord, AllWords;
    WordIn(ns, i);
    WordOf(b, at, AllWords(ns), 4 * i, ns[i]);
  }

  lemma ProgramIsRead(b: Image, at: nat, p: Program, paddr: nat)
    requires Fits(p.kind) && Fits(p.offset) && Fits(p.vaddr) && Fits(paddr) && Fits(p.filesz) && Fits(p.memsz)
    requires Fits(p.flags) && Fits(p.align)
    requires at + 32 <= |b| && b[at..at + 32] == ProgramBytes(p, paddr)
    ensures ProgramAt(b, at) == p
  {
    hide Word, ReadWord, AllWords;
    var ns := [p.kind, p.offset, p.vaddr, paddr, p.filesz, p.memsz, p.flags, p.align];
    WordRead(b, at, ns, 0);
    WordRead(b, at, ns, 1);
    WordRead(b, at, ns, 2);
    WordRead(b, at, ns, 4);
    WordRead(b, at, ns, 5);
    WordRead(b, at, ns, 6);
    WordRead(b, at, ns, 7);
  }

  lemma SectionIsRead(b: Image, at: nat, s: Section, flags: nat, info: nat, align: nat)
    requires Fits(s.name) && Fits(s.kind) && Fits(flags) && Fits(s.addr) && Fits(s.offset) && Fits(s.size)
    requires Fits(s.link) && Fits(info) && Fits(align) && Fits(s.entsize)
    requires at + 40 <= |b| && b[at..at + 40] == SectionBytes(s, flags, info, align)
    ensures SectionAt(b, at) == s
  {
    hide Word, ReadWord, AllWords;
    var ns := [s.name, s.kind, flags, s.addr, s.offset, s.size, s.link, info, align, s.entsize];
    WordRead(b, at, ns, 0);
    WordRead(b, at, ns, 1);
    WordRead(b, at, ns, 3);
    WordRead(b, at, ns, 4);
    WordRead(b, at, ns, 5);
    WordRead(b, at, ns, 6);
    WordRead(b, at, ns, 9);
  }

  lemma SymbolIsRead(b: Image, at: nat, s: Sym, size: nat, other: Byte)
    requires Fits(s.name) && Fits(s.value) && Fits(size) && s.info < 256 && s.shndx < 0x1_0000
    requires at + 16 <= |b| && b[at..at + 16] == SymbolBytes(s, size, other)
    ensures SymAt(b, at) == s
  {
    hide Word, ReadWord;
    var r := SymbolBytes(s, size, other);
    WordOf(b, at, r, 0, s.name);
    WordOf(b, at, r, 4, s.value);
    assert b[at + 12] == b[at..at + 16][12] == s.info as char;
    assert b[at + 14] == b[at..at + 16][14] == HalfBytes(s.shndx)[0];
    assert b[at + 15] == b[at..at + 16][15] == HalfBytes(s.shndx)[1];
  }

  lemma RelocationIsRead(b: Image, at: nat, offset: nat, symbol: nat, kind: nat)
    requires Fits(offset) && symbol < 0x100_0000 && kind < 0x100
    requires at + 8 <= |b| && b[at..at + 8] == RelBytes(offset, symbol, kind)
    ensures RelAt(b, at).offset == offset
    ensures RelSymbol(RelAt(b, at)) == symbol && RelType(RelAt(b, at)) == kind
  {
    hide Word, ReadWord;
    var r := RelBytes(offset, symbol, kind);
    WordOf(b, at, r, 0, offset);
    WordOf(b, at, r, 4, symbol * 0x100 + kind);
  }

  /** `Elf32_Ehdr` of a 32-bit little-endian shared object for Arm, with the fields the validator does not look at. */
  function HeaderBytes(
    rest: Blob, entry: nat, phoff: nat, shoff: nat, flags: nat, phnum: nat, shnum: nat, shstrndx: nat): (b: Blob)
    requires |rest| == 9 && Fits(entry) && Fits(phoff) && Fits(shoff) && Fits(flags)
    requires phnum < 0x1_0000 && shnum < 0x1_0000 && shstrndx < 0x1_0000
    ensures |b| == 52
  {
    "\U{7F}ELF" + [1 as char, 1 as char, 1 as char] + rest + HalfBytes(3) + HalfBytes(40) + Word(1) + Word(entry)
    + Word(phoff) + Word(shoff) + Word(flags) + HalfBytes(52) + HalfBytes(32) + HalfBytes(phnum) + HalfBytes(40)
    + HalfBytes(shnum) + HalfBytes(shstrndx)
  }

  lemma HalfOf(b: Blob, record: Blob, k: nat, n: nat)
    requires |record| <= |b| && b[..|record|] == record && k + 2 <= |record| && |b| < 0x1_0000_0000
    requires n < 0x1_0000 && record[k..k + 2] == HalfBytes(n)
    ensures Half(b, k) == n
  {
    assert b[k] == record[k] == record[k..k + 2][0] && b[k + 1] == record[k + 1] == record[k..k + 2][1];
  }

  /** Such a header is identified, and its tables are where it says. */
  lemma HeaderIsRead(
    b: Image, rest: Blob, entry: nat, phoff: nat, shoff: nat, flags: nat, phnum: nat, shnum: nat, shstrndx: nat)
    requires |rest| == 9 && Fits(entry) && Fits(phoff) && Fits(shoff) && Fits(flags)
    requires phnum < 0x1_0000 && shnum < 0x1_0000 && shstrndx < 0x1_0000
    requires |b| >= 52 && b[..52] == HeaderBytes(rest, entry, phoff, shoff, flags, phnum, shnum, shstrndx)
    ensures Identified(b)
    ensures Phoff(b) == phoff && Shoff(b) == shoff
    ensures Phnum(b) == phnum && Shnum(b) == shnum && Shstrndx(b) == shstrndx
  {
    hide Word, ReadWord, Half, HalfBytes;
    var r := HeaderBytes(rest, entry, phoff, shoff, flags, phnum, shnum, shstrndx);
    assert b[0..0 + 52] == r;
    WordOf(b, 0, r, 20, 1);
    WordOf(b, 0, r, 28, phoff);
    WordOf(b, 0, r, 32, shoff);
    HalfOf(b, r, 16, 3);
    HalfOf(b, r, 18, 40);
    HalfOf(b, r, 40, 52);
    HalfOf(b, r, 42, 32);
    HalfOf(b, r, 44, phnum);
    HalfOf(b, r, 46, 40);
    HalfOf(b, r, 48, shnum);
    HalfOf(b, r, 50, shstrndx);
    assert b[..4] == r[..4] == MAGIC;
    assert b[4] == r[4] && b[5] == r[5] && b[6] == r[6];
  }
}
