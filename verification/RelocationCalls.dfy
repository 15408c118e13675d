/** Which relocations the passes see, write and miss (src/loader/image.c:9-38, 132-158, src/loader/relocation.c:93-178),
    by the section names and type numbers of the Arm ELF specification. */
module RelocationCalls {
  import opened Words
  import opened Relocation

  /** A relocation of a section of one of the two names. */
  predicate Dynamic(section: Section, r: Reloc) {
    (section.name == ".rel.dyn" || section.name == ".rel.plt") && r in section.entries
  }

  /** The dynamic relocations are those of the sections ".rel.dyn" and ".rel.plt". */
  lemma {:induction false} EntriesExactly(sections: seq<Section>, r: Reloc)
    ensures r in Entries(sections) <==> exists k :: 0 <= k < |sections| && Dynamic(sections[k], r)
  {
    if sections != [] {
      var n := |sections| - 1;
      var rest := sections[..n];
      EntriesExactly(rest, r);
      LastSection(sections, r);
      hide Entries, Dynamic;
      assert forall k :: 0 <= k < n ==> rest[k] == sections[k];
    }
  }

  lemma LastSection(sections: seq<Section>, r: Reloc)
    requires sections != []
    ensures var n := |sections| - 1;
            r in Entries(sections) <==> r in Entries(sections[..n]) || Dynamic(sections[n], r)
  {
  }

  /** Of one section every relocation is seen, in order and once. */
  lemma EntriesOfOne(section: Section)
    ensures Entries([section]) ==
            if section.name == ".rel.dyn" || section.name == ".rel.plt" then section.entries else []
  {
    assert [section][..0] == [];
    assert Entries([]) == [];
  }

  /** An import is missing exactly if a relocation needs the address of a symbol that is neither in the library nor
      found elsewhere, and the symbol is not weak. */
  lemma MissingExactly(lib: Library, r: Reloc)
    requires LibraryOkay(lib) && Loadable(lib, r)
    ensures Missing(lib, r) <==>
            && r.kind in {2, 21, 22} && lib.symbols[r.symbol].undefined && !lib.symbols[r.symbol].weak
            && FinalAddress(lib, r.symbol) == 0
  {
  }

  /** The first pass asks for a copy exactly where it has a word to set: for a relative relocation, for the address of a
      symbol, and for an addend if the symbol's address is known by then; elsewhere the word stays as it is. */
  lemma WritesExactly(lib: Library, r: Reloc, held: Address)
    requires LibraryOkay(lib) && Loadable(lib, r)
    ensures InternalWrites(lib, r) <==> r.kind in {21, 22, 23} || (r.kind == 2 && SymbolAddress(lib, r.symbol) != 0)
    ensures !InternalWrites(lib, r) ==> Rewritten(lib, Internal, r, held) == held
  {
  }
}
