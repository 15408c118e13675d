/** What loading the segments of an accepted image leaves in memory, and when it succeeds
    (src/loader/image.c:48-106). */
module ElfCalls {
  import opened Words
  import opened ElfImage
  import opened ElfCheck
  import opened ElfAccepts
  import opened ElfLoad

  /** A segment is in place exactly if its bytes of the file stand at its address, and zeros elsewhere on its pages. */
  lemma PlacedExactly(b: Image, memory: Blob, p: Program)
    requires SegmentOk(b, p)
    ensures Placed(b, memory, p) <==>
            && EndPage(p) <= |memory| && p.offset + p.filesz <= |b| && p.vaddr + p.filesz <= |memory|
            && memory[p.vaddr..p.vaddr + p.filesz] == b[p.offset..p.offset + p.filesz]
            && forall a :: FirstPage(p) <= a < EndPage(p) && !(p.vaddr <= a < p.vaddr + p.filesz) ==> memory[a] == '\0'
  {
    hide AlignOk;
    PagesAround(p);
    if EndPage(p) <= |memory| {
      var there, here := memory[p.vaddr..p.vaddr + p.filesz], b[p.offset..p.offset + p.filesz];
      hide FirstPage, EndPage;
      if Placed(b, memory, p) {
        forall k | 0 <= k < p.filesz
          ensures there[k] == here[k]
        {
          assert memory[p.vaddr + k] == SegmentByte(b, p, p.vaddr + k);
        }
      }
      if there == here {
        forall a | p.vaddr <= a < p.vaddr + p.filesz
          ensures memory[a] == SegmentByte(b, p, a)
        {
          assert there[a - p.vaddr] == here[a - p.vaddr];
        }
      }
    }
  }

  lemma PagesAround(p: Program)
    ensures FirstPage(p) <= p.vaddr && p.vaddr + p.memsz <= EndPage(p)
  {
  }

  /** All blocks are granted exactly if the kernel maps the block of every mapped segment. */
  lemma GrantedExactly(b: Image, n: nat, kernel: nat -> bool)
    requires HeaderOk(b) && n <= Phnum(b)
    ensures Granted(b, n, kernel) <==> forall i :: i in MappedBelow(b, n) ==> kernel(i)
  {
  }

  lemma {:induction false} EndAttained(b: Image, n: nat)
    requires HeaderOk(b) && n <= Phnum(b)
    ensures forall i :: 0 <= i < n && Loaded(ProgramOf(b, i)) ==>
                          ProgramOf(b, i).vaddr + ProgramOf(b, i).memsz <= EndOf(b, n)
    ensures EndOf(b, n) > 0 ==>
              exists i :: 0 <= i < n && Loaded(ProgramOf(b, i)) &&
                ProgramOf(b, i).vaddr + ProgramOf(b, i).memsz == EndOf(b, n)
  {
    hide HeaderOk, ProgramOf, Loaded;
    if n > 0 {
      EndAttained(b, n - 1);
      var p := ProgramOf(b, n - 1);
      assert EndOf(b, n) == EndOf(b, n - 1) || (Loaded(p) && p.vaddr + p.memsz == EndOf(b, n));
    }
  }

  /** The window is as large as the last page of the mapped segments asks, and no larger. */
  lemma SpanExactly(b: Image)
    requires HeaderOk(b) && SegmentsOk(b)
    ensures forall i :: 0 <= i < Phnum(b) && Loaded(ProgramOf(b, i)) ==> EndPage(ProgramOf(b, i)) <= Span(b)
    ensures exists i :: 0 <= i < Phnum(b) && Loaded(ProgramOf(b, i)) && EndPage(ProgramOf(b, i)) == Span(b)
  {
    hide HeaderOk, ProgramOf, SegmentsOk, Up, Down;
    var k := SomeLoaded(b);
    EndAttained(b, Phnum(b));
    assert EndOf(b, Phnum(b)) > 0;
    forall i | 0 <= i < Phnum(b) && Loaded(ProgramOf(b, i))
      ensures EndPage(ProgramOf(b, i)) <= Span(b)
    {
      UpMonotone(ProgramOf(b, i).vaddr + ProgramOf(b, i).memsz, EndOf(b, Phnum(b)));
    }
  }

  lemma SomeLoaded(b: Image) returns (k: nat)
    requires HeaderOk(b) && SegmentsOk(b)
    ensures k < Phnum(b) && Loaded(ProgramOf(b, k))
  {
    hide HeaderOk, ProgramOf, Loaded, AllSegments, AllApart;
    LoadsGrow(b, 0, Phnum(b));
    k :| 0 <= k < Phnum(b) && Loaded(ProgramOf(b, k));
  }
}
