/** The section, symbol and relocation passes of the ELF validator, and the validator itself
    (src/loader/validation.c:145-278). */
module ElfCheck {
  import opened Words
  import opened ElfImage

  // ---------------------------------------------------------------- sections

  /** `__sections_ok` lines 152-155: the section name table. */
  predicate NamesOk(b: Image)
    requires HeaderOk(b)
  {
    Names(b).kind == SHT_STRTAB && Names(b).size > 0 && FileRange(b, Names(b).offset, Names(b).size)
  }

  /** A section lies in the file, unless it has no bytes there, and its name is a string of the name table. */
  predicate ShapeOk(b: Image, s: Section)
    requires HeaderOk(b)
  {
    && (s.kind != SHT_NOBITS ==> FileRange(b, s.offset, s.size))
    && s.name < Names(b).size
    && Terminated(b, Names(b).offset + s.name, Names(b).offset + Names(b).size)
  }

  /** Section `j` has this name. */
  predicate Named(b: Image, j: nat, name: string)
    requires HeaderOk(b) && j < Shnum(b)
  {
    NameIs(b, Names(b).offset + SectionOf(b, j).name, name)
  }

  const DYNSYM := ".dynsym"
  const DYNSTR := ".dynstr"
  const INIT_ARRAY := ".init_array"
  const FINI_ARRAY := ".fini_array"
  const REL_DYN := ".rel.dyn"
  const REL_PLT := ".rel.plt"

  predicate SymbolTableOk(s: Section) {
    s.kind == SHT_DYNSYM && s.entsize == 16 && s.size % 16 == 0 && s.size > 0 && s.offset % 4 == 0
  }

  predicate StringTableOk(s: Section) {
    s.kind == SHT_STRTAB && s.size > 0
  }

  predicate ArrayOk(b: Image, s: Section)
    requires HeaderOk(b)
  {
    s.size % 4 == 0 && Mapped(b, s.addr, s.size)
  }

  /** What the name of a section asks of it. */
  predicate RuleOk(b: Image, j: nat)
    requires HeaderOk(b) && j < Shnum(b)
  {
    var s := SectionOf(b, j);
    && (Named(b, j, DYNSYM) ==> SymbolTableOk(s))
    && (Named(b, j, DYNSTR) ==> StringTableOk(s))
    && (Named(b, j, INIT_ARRAY) || Named(b, j, FINI_ARRAY) ==> ArrayOk(b, s))
  }

  predicate SectionsUpTo(b: Image, n: nat)
    requires HeaderOk(b) && n <= Shnum(b)
  {
    forall j :: 0 <= j < n ==> ShapeOk(b, SectionOf(b, j)) && RuleOk(b, j)
  }

  /** The sections below `n` with a name: `at` is the only one, or `Shnum` stands for none. */
  predicate OnlyNamed(b: Image, n: nat, name: string, at: nat)
    requires HeaderOk(b) && n <= Shnum(b)
  {
    (at < n || at == Shnum(b)) && forall j :: 0 <= j < n ==> (Named(b, j, name) <==> j == at)
  }

  /** `__sections_ok`, with the symbol and string tables it finds. */
  predicate SectionsOk(b: Image, sym: nat, str: nat): (ok: bool)
    requires HeaderOk(b)
    ensures ok ==> sym < Shnum(b) && str < Shnum(b)
  {
    && NamesOk(b)
    && SectionsUpTo(b, Shnum(b))
    && OnlyNamed(b, Shnum(b), DYNSYM, sym) && OnlyNamed(b, Shnum(b), DYNSTR, str)
    && sym < Shnum(b) && str < Shnum(b)
    && SectionOf(b, sym).link == str
  }

  lemma TerminatedInFile(b: Image, at: nat, end: nat)
    requires Terminated(b, at, end)
    ensures Terminated(b, at, |b|)
  {
  }

  predicate NoNul(s: string) {
    forall i :: 0 <= i < |s| ==> s[i] != '\0'
  }

  lemma NamesDiffer(b: Image, at: nat, p: string, q: string)
    requires NoNul(p) && NoNul(q)
    ensures NameIs(b, at, p) && NameIs(b, at, q) ==> p == q
  {
    if NameIs(b, at, p) && NameIs(b, at, q) {
      assert forall i :: 0 <= i < |p| ==> p[i] == b[at + i] && b[at + i] == b[at..at + |p|][i];
      assert forall i :: 0 <= i < |q| ==> q[i] == b[at + i] && b[at + i] == b[at..at + |q|][i];
    }
  }

  /** The name tests of lines 169-188: at most one applies. */
  method Classify(b: Image, j: nat) returns (kind: nat)
    requires HeaderOk(b) && j < Shnum(b) && NamesOk(b) && ShapeOk(b, SectionOf(b, j))
    ensures kind == 1 <==> Named(b, j, DYNSYM)
    ensures kind == 2 <==> Named(b, j, DYNSTR)
    ensures kind == 3 <==> Named(b, j, INIT_ARRAY) || Named(b, j, FINI_ARRAY)
  {
    var at := Names(b).offset + SectionOf(b, j).name;
    TerminatedInFile(b, at, Names(b).offset + Names(b).size);
    hide HeaderOk, NameIs, SectionOf, Terminated;
    var first := SameName(b, at, DYNSYM);
    var second := SameName(b, at, DYNSTR);
    var third := SameName(b, at, INIT_ARRAY);
    var fourth := SameName(b, at, FINI_ARRAY);
    NamesDiffer(b, at, DYNSYM, DYNSTR);
    NamesDiffer(b, at, DYNSYM, INIT_ARRAY);
    NamesDiffer(b, at, DYNSYM, FINI_ARRAY);
    NamesDiffer(b, at, DYNSTR, INIT_ARRAY);
    NamesDiffer(b, at, DYNSTR, FINI_ARRAY);
    kind := if first then 1 else if second then 2 else if third || fourth then 3 else 0;
  }

  /** No two tables make the sections acceptable. */
  ghost predicate NoTables(b: Image)
    requires HeaderOk(b)
  {
    forall p: nat, q: nat :: !SectionsOk(b, p, q)
  }

  /** The sections below `n` are acceptable, and `sym` and `str` are the tables found among them. */
  predicate Found(b: Image, n: nat, sym: nat, str: nat)
    requires HeaderOk(b) && n <= Shnum(b)
  {
    SectionsUpTo(b, n) && OnlyNamed(b, n, DYNSYM, sym) && OnlyNamed(b, n, DYNSTR, str)
  }

  lemma BadSection(b: Image, j: nat)
    requires HeaderOk(b) && j < Shnum(b) && !(ShapeOk(b, SectionOf(b, j)) && RuleOk(b, j))
    ensures NoTables(b)
  {
  }

  lemma TwoTables(b: Image, i: nat, j: nat, name: string)
    requires HeaderOk(b) && i < j < Shnum(b) && Named(b, i, name) && Named(b, j, name)
    requires name == DYNSYM || name == DYNSTR
    ensures NoTables(b)
  {
    hide Named, HeaderOk, SectionsUpTo, NamesOk;
  }

  /** A table found is the table of any view, and none found is none. */
  lemma TablesFound(b: Image, sym: nat, str: nat)
    requires HeaderOk(b) && NamesOk(b) && Found(b, Shnum(b), sym, str)
    ensures sym == Shnum(b) || str == Shnum(b) || SectionOf(b, sym).link != str ==> NoTables(b)
    ensures !(sym == Shnum(b) || str == Shnum(b) || SectionOf(b, sym).link != str) ==> SectionsOk(b, sym, str)
  {
    hide Named, HeaderOk, NamesOk, SectionOf, SectionsUpTo;
    forall p: nat, q: nat | SectionsOk(b, p, q)
      ensures p == sym && q == str
    {
      assert Named(b, p, DYNSYM) && Named(b, q, DYNSTR);
    }
  }

  /** One turn of the loop at lines 160-189. */
  method CheckSection(b: Image, index: nat, sym: nat, str: nat) returns (ok: bool, newSym: nat, newStr: nat)
    requires HeaderOk(b) && NamesOk(b) && index < Shnum(b) && Found(b, index, sym, str)
    ensures ok ==> Found(b, index + 1, newSym, newStr)
    ensures !ok ==> NoTables(b)
  {
    hide HeaderOk, NamesOk, ShapeOk, Named, SymbolTableOk, StringTableOk, ArrayOk, SectionOf, NoTables;
    ok, newSym, newStr := true, sym, str;
    var section := SectionOf(b, index);
    if !ShapeOk(b, section) {
      BadSection(b, index);
      return false, sym, str;
    }
    var kind := Classify(b, index);
    if kind == 1 {
      if sym < Shnum(b) {
        TwoTables(b, sym, index, DYNSYM);
        ok := false;
      } else {
        newSym := index;
      }
    } else if kind == 2 {
      if str < Shnum(b) {
        TwoTables(b, str, index, DYNSTR);
        ok := false;
      } else {
        newStr := index;
      }
    }
    if (kind == 1 && !SymbolTableOk(section)) || (kind == 2 && !StringTableOk(section)) ||
       (kind == 3 && !ArrayOk(b, section))
    {
      BadSection(b, index);
      ok := false;
    }
  }

  /** `__sections_ok`. */
  method CheckSections(b: Image) returns (ok: bool, sym: nat, str: nat)
    requires HeaderOk(b)
    ensures ok ==> SectionsOk(b, sym, str)
    ensures !ok ==> NoTables(b)
  {
    ok, sym, str := NamesOk(b), Shnum(b), Shnum(b);
    if !ok {
      return;
    }
    assert Found(b, 0, sym, str);
    hide HeaderOk, NamesOk, SectionOf, Found, NoTables;
    var index := 0;
    while index < Shnum(b)
      invariant 0 <= index <= Shnum(b) && Found(b, index, sym, str)
    {
      ok, sym, str := CheckSection(b, index, sym, str);
      if !ok {
        return;
      }
      index := index + 1;
    }
    FoundTables(b, sym, str);
    TablesFound(b, sym, str);
    ok := sym < Shnum(b) && str < Shnum(b) && SectionOf(b, sym).link == str;
  }

  lemma FoundTables(b: Image, sym: nat, str: nat)
    requires HeaderOk(b) && Found(b, Shnum(b), sym, str)
    ensures sym <= Shnum(b) && str <= Shnum(b)
  {
    hide HeaderOk;
  }

  // ---------------------------------------------------------------- symbols

  function SymbolCount(b: Image, sym: nat): nat
    requires HeaderOk(b) && sym < Shnum(b)
  {
    SectionOf(b, sym).size / 16
  }

  /** A table in the file: all of its records can be read. */
  predicate TableInFile(b: Image, j: nat, kind: nat)
    requires HeaderOk(b) && j < Shnum(b)
  {
    SectionOf(b, j).kind == kind && FileRange(b, SectionOf(b, j).offset, SectionOf(b, j).size)
  }

  lemma TablesInFile(b: Image, sym: nat, str: nat)
    requires HeaderOk(b) && SectionsOk(b, sym, str)
    ensures TableInFile(b, sym, SHT_DYNSYM) && TableInFile(b, str, SHT_STRTAB)
  {
    hide HeaderOk, SectionOf, Mapped, NameIs;
    assert Named(b, sym, DYNSYM) && Named(b, str, DYNSTR);
    assert ShapeOk(b, SectionOf(b, sym)) && RuleOk(b, sym) && ShapeOk(b, SectionOf(b, str)) && RuleOk(b, str);
  }

  function SymbolOf(b: Image, sym: nat, k: nat): Sym
    requires HeaderOk(b) && sym < Shnum(b) && TableInFile(b, sym, SHT_DYNSYM) && k < SymbolCount(b, sym)
  {
    SymAt(b, SectionOf(b, sym).offset + 16 * k)
  }

  /** The name of a symbol is a string of the string table, and it is absolute or of a known section. */
  predicate SymbolOk(b: Image, str: nat, s: Sym)
    requires HeaderOk(b) && str < Shnum(b)
  {
    var strings := SectionOf(b, str);
    && s.name < strings.size
    && Terminated(b, strings.offset + s.name, strings.offset + strings.size)
    && (s.shndx < Shnum(b) || s.shndx == SHN_ABS)
  }

  predicate SymbolsOk(b: Image, sym: nat, str: nat)
    requires HeaderOk(b) && sym < Shnum(b) && str < Shnum(b) && TableInFile(b, sym, SHT_DYNSYM)
  {
    forall k: nat :: k < SymbolCount(b, sym) ==> SymbolOk(b, str, SymbolOf(b, sym, k))
  }

  /** `__symbols_ok`. */
  method CheckSymbols(b: Image, sym: nat, str: nat) returns (ok: bool)
    requires HeaderOk(b) && sym < Shnum(b) && str < Shnum(b) && TableInFile(b, sym, SHT_DYNSYM)
    ensures ok <==> SymbolsOk(b, sym, str)
  {
    hide HeaderOk, SymbolOf, SymbolOk, TableInFile, SymbolCount;
    var index := 0;
    while index < SymbolCount(b, sym)
      invariant 0 <= index <= SymbolCount(b, sym)
      invariant forall k: nat :: k < index ==> SymbolOk(b, str, SymbolOf(b, sym, k))
    {
      if !SymbolOk(b, str, SymbolOf(b, sym, index)) {
        return false;
      }
      index := index + 1;
    }
    ok := true;
  }

  // ---------------------------------------------------------------- relocations

  predicate IsRelocation(b: Image, j: nat)
    requires HeaderOk(b) && j < Shnum(b)
  {
    Named(b, j, REL_DYN) || Named(b, j, REL_PLT)
  }

  predicate RelSectionOk(b: Image, j: nat, sym: nat)
    requires HeaderOk(b) && j < Shnum(b)
  {
    var s := SectionOf(b, j);
    s.kind == SHT_REL && s.entsize == 8 && s.size % 8 == 0 && s.offset % 4 == 0 && s.link == sym
  }

  function RelCount(b: Image, j: nat): nat
    requires HeaderOk(b) && j < Shnum(b)
  {
    SectionOf(b, j).size / 8
  }

  function RelOf(b: Image, j: nat, k: nat): Rel
    requires HeaderOk(b) && j < Shnum(b) && TableInFile(b, j, SHT_REL) && k < RelCount(b, j)
  {
    RelAt(b, SectionOf(b, j).offset + 8 * k)
  }

  predicate RelOk(b: Image, sym: nat, r: Rel)
    requires HeaderOk(b) && sym < Shnum(b)
  {
    RelSymbol(r) < SymbolCount(b, sym) && (RelType(r) != R_ARM_NONE ==> Mapped(b, r.offset, 4))
  }

  predicate RelsOk(b: Image, j: nat, sym: nat)
    requires HeaderOk(b) && j < Shnum(b) && sym < Shnum(b)
  {
    && RelSectionOk(b, j, sym)
    && TableInFile(b, j, SHT_REL)
    && forall k: nat :: k < RelCount(b, j) ==> RelOk(b, sym, RelOf(b, j, k))
  }

  predicate AllRelsOk(b: Image, sym: nat, n: nat)
    requires HeaderOk(b) && sym < Shnum(b) && n <= Shnum(b)
  {
    forall j :: 0 <= j < n && IsRelocation(b, j) ==> RelsOk(b, j, sym)
  }

  /** Lines 239-252: one relocation section. Its records are read after the section pass placed it in the file. */
  method CheckRels(b: Image, j: nat, sym: nat) returns (ok: bool)
    requires HeaderOk(b) && j < Shnum(b) && sym < Shnum(b) && NamesOk(b) && ShapeOk(b, SectionOf(b, j))
    ensures ok <==> RelsOk(b, j, sym)
  {
    if !RelSectionOk(b, j, sym) {
      return false;
    }
    assert TableInFile(b, j, SHT_REL);
    hide HeaderOk, NamesOk, ShapeOk, RelOf, SectionOf, Mapped, TableInFile, SymbolCount, RelCount;
    var entry := 0;
    while entry < RelCount(b, j)
      invariant 0 <= entry <= RelCount(b, j)
      invariant forall k: nat :: k < entry ==> RelOk(b, sym, RelOf(b, j, k))
    {
      var r := RelOf(b, j, entry);
      if RelSymbol(r) >= SymbolCount(b, sym) {
        return false;
      }
      if RelType(r) != R_ARM_NONE {
        var mapped := CheckMapped(b, r.offset, 4);
        if !mapped {
          return false;
        }
      }
      entry := entry + 1;
    }
    ok := true;
  }

  /** `__rels_ok`. */
  method CheckAllRels(b: Image, sym: nat) returns (ok: bool)
    requires HeaderOk(b) && sym < Shnum(b) && NamesOk(b) && SectionsUpTo(b, Shnum(b))
    ensures ok <==> AllRelsOk(b, sym, Shnum(b))
  {
    hide HeaderOk, NamesOk, SectionOf, RelsOk, RuleOk, NameIs;
    var index := 0;
    while index < Shnum(b)
      invariant 0 <= index <= Shnum(b) && AllRelsOk(b, sym, index)
    {
      assert ShapeOk(b, SectionOf(b, index));
      var at := Names(b).offset + SectionOf(b, index).name;
      TerminatedInFile(b, at, Names(b).offset + Names(b).size);
      var dyn := SameName(b, at, REL_DYN);
      var plt := SameName(b, at, REL_PLT);
      if dyn || plt {
        var fine := CheckRels(b, index, sym);
        if !fine {
          return false;
        }
      }
      index := index + 1;
    }
    ok := true;
  }

  // ---------------------------------------------------------------- the validator

  /** The images the loader accepts, with their symbol and string tables. */
  predicate Accepted(b: Image, sym: nat, str: nat) {
    && HeaderOk(b)
    && SegmentsOk(b)
    && SectionsOk(b, sym, str)
    && TableInFile(b, sym, SHT_DYNSYM)
    && SymbolsOk(b, sym, str)
    && AllRelsOk(b, sym, Shnum(b))
  }

  /** The tables are determined by the image. */
  lemma OneView(b: Image, sym: nat, str: nat, p: nat, q: nat)
    requires HeaderOk(b) && SectionsOk(b, sym, str) && SectionsOk(b, p, q)
    ensures p == sym && q == str
  {
    hide HeaderOk, Named, SectionOf, SectionsUpTo, NamesOk;
    assert Named(b, p, DYNSYM) && Named(b, q, DYNSTR);
  }

  /** `loader_elf_check`. */
  method CheckImage(b: Image) returns (ok: bool, sym: nat, str: nat)
    ensures ok ==> Accepted(b, sym, str)
    ensures !ok ==> forall p: nat, q: nat :: !Accepted(b, p, q)
  {
    ok, sym, str := HeaderOk(b), 0, 0;
    if !ok {
      return;
    }
    hide HeaderOk, SegmentsOk;
    ok := CheckSegments(b);
    if !ok {
      return;
    }
    ok, sym, str := CheckSections(b);
    if !ok {
      return;
    }
    TablesInFile(b, sym, str);
    forall p: nat, q: nat | SectionsOk(b, p, q)
      ensures p == sym && q == str
    {
      OneView(b, sym, str, p, q);
    }
    hide SymbolsOk, AllRelsOk, TableInFile, OnlyNamed, SectionsUpTo, SectionOf;
    ok := CheckSymbols(b, sym, str);
    if !ok {
      return;
    }
    ok := CheckAllRels(b, sym);
  }
}
