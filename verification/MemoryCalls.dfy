/** When `mmap` and `mremap` succeed (src/bridges/libc/memory.c:141-329, 463-573), told by the flags of the Linux ABI,
    the page map and the calls that may fail. */
module MemoryCalls {
  import opened Common
  import opened MemoryPages
  import opened Memory

  // ---------------------------------------------------------------- flags

  const PROT_READ: bv32 := 1
  const PROT_WRITE: bv32 := 2
  const MAP_PRIVATE: bv32 := 2
  const MAP_ANONYMOUS: bv32 := 0x20
  const MAP_DENYWRITE: bv32 := 0x800
  const MAP_EXECUTABLE: bv32 := 0x1000
  const MAP_NORESERVE: bv32 := 0x4000
  const MAP_POPULATE: bv32 := 0x8000
  const MAP_STACK: bv32 := 0x2_0000

  /** `mmap` serves exactly private mappings to read, or to read and write, that are placed where there is room; the
      flags that only advise are let pass. */
  lemma SupportedExactly(protection: bv32, flags: bv32)
    ensures var harmless := MAP_ANONYMOUS | MAP_DENYWRITE | MAP_EXECUTABLE | MAP_NORESERVE | MAP_POPULATE | MAP_STACK;
            Supported(protection, flags) <==>
            && (protection == PROT_READ || protection == PROT_READ | PROT_WRITE)
            && flags | MAP_PRIVATE == flags && flags | MAP_PRIVATE | harmless == MAP_PRIVATE | harmless
    ensures Anonymous(flags) <==> flags | MAP_ANONYMOUS == flags
  {
  }

  /** A file backs a mapping exactly if it is not anonymous. */
  lemma BackingExactly(flags: bv32, fd: int)
    requires Anonymous(flags) || fd >= 0
    ensures Backing(flags, fd) == if flags | MAP_ANONYMOUS == flags then None else Some(fd)
  {
  }

  /** `mremap` takes a page-aligned address, two sizes of at least a byte whose pages fit in half the address space, an
      old range that ends in it, and no flag but MREMAP_MAYMOVE. */
  lemma ArgumentsExactly(address: nat, old_size: nat, new_size: nat, flags: bv32)
    ensures ArgumentsOkay(address, old_size, new_size, flags) <==>
            && address % PAGE == 0 && (flags == 0 || flags == 1)
            && 0 < new_size && new_size + 4095 <= 0x7fff_ffff && 0 < old_size && old_size + 4095 <= 0x7fff_ffff
            && exists pages: nat ::
                 (pages - 1) * PAGE < old_size <= pages * PAGE && address + pages * PAGE <= 0xffff_ffff
  {
    if Round(old_size).Some? {
      var pages := Round(old_size).value / PAGE;
      assert (pages - 1) * PAGE < old_size <= pages * PAGE;
    }
  }

  // ---------------------------------------------------------------- the calls that may fail

  /** The calls that filling a stretch of a mapping makes: every page is read, if there is a file, and copied in. */
  predicate Fills(file: Option<File>, position: int, start: nat, length: nat, e: Event) {
    match e
    case Grab => file.Some?
    case ReadAt(at) => file.Some? && start <= at - position < start + length && (at - position) % PAGE == 0
    case CopyAt(at) => start <= at < start + length && at % PAGE == 0
    case _ => false
  }

  /** Those that making a mapping of so many bytes makes, with the pages from `start` on filled. */
  predicate Makes(file: Option<File>, position: int, start: nat, length: nat, e: Event) {
    match e
    case AllocRecord => true
    case AllocPages => true
    case Storage => true
    case Protect => true
    case Dup => file.Some?
    case _ => start <= length && Fills(file, position, start, length - start, e)
  }

  /** Those that growing in place makes. */
  predicate Extends(file: Option<File>, position: int, start: nat, length: nat, e: Event) {
    e == Unprotect || e == Protect || Fills(file, position, start, length, e)
  }

  /** Those that moving makes. */
  predicate Replaces(file: Option<File>, position: int, start: nat, length: nat, e: Event) {
    e == UnprotectMoved || e == CopyOld || e == ProtectMoved || Makes(file, position, start, length, e)
  }

  /** A stretch is filled exactly when none of its calls fails. */
  lemma ReadableExactly(m: Mapping, env: Env, start: nat, length: nat)
    requires start % PAGE == 0 && length % PAGE == 0
    ensures Readable(m, env, start, length) <==> forall e :: Fills(m.file, m.offset, start, length, e) ==> !env.fails(e)
  {
    if Readable(m, env, start, length) {
      forall e | Fills(m.file, m.offset, start, length, e)
        ensures !env.fails(e)
      {
        if e.ReadAt? || e.CopyAt? {
          var at := if e.ReadAt? then e.offset - m.offset else e.start;
          assert PageReads(m, env, at / PAGE * PAGE);
        }
      }
    }
    if forall e :: Fills(m.file, m.offset, start, length, e) ==> !env.fails(e) {
      assert m.file.Some? ==> Fills(m.file, m.offset, start, length, Grab);
      forall i | start / PAGE <= i < (start + length) / PAGE
        ensures PageReads(m, env, i * PAGE)
      {
        assert Fills(m.file, m.offset, start, length, CopyAt(i * PAGE));
        assert m.file.Some? ==> Fills(m.file, m.offset, start, length, ReadAt(m.offset + i * PAGE));
      }
    }
  }

  /** A mapping is made exactly when none of its calls fails. */
  lemma CreatableExactly(
    length: nat, protection: bv32, file: Option<File>, position: int, base: nat, env: Env, start: nat)
    requires start % PAGE == 0 && length % PAGE == 0 && start <= length
    ensures Creatable(Blank(length, protection, file, position, base), env, start) <==>
            forall e :: Makes(file, position, start, length, e) ==> !env.fails(e)
  {
    var m := Blank(length, protection, file, position, base);
    ReadableExactly(m, env, start, length - start);
    hide Readable, Fills;
    if forall e :: Makes(file, position, start, length, e) ==> !env.fails(e) {
      assert Makes(file, position, start, length, AllocRecord) && Makes(file, position, start, length, AllocPages);
      assert Makes(file, position, start, length, Storage) && Makes(file, position, start, length, Protect);
      assert file.Some? ==> Makes(file, position, start, length, Dup);
      forall e | Fills(file, position, start, length - start, e)
        ensures !env.fails(e)
      {
        FillsOnly(file, position, start, length - start, e);
        assert Makes(file, position, start, length, e);
      }
    }
  }

  lemma FillsOnly(file: Option<File>, position: int, start: nat, length: nat, e: Event)
    requires Fills(file, position, start, length, e)
    ensures e.Grab? || e.ReadAt? || e.CopyAt?
  {
  }

  // ---------------------------------------------------------------- ranges of the page map

  /** Every page of the range is live. */
  ghost predicate AllSeen(list: seq<Mapping>, start: nat, end: nat)
    requires AllWell(list)
  {
    forall a: nat :: start <= a < end && a % PAGE == 0 ==> View(list, a).Some?
  }

  ghost predicate NoneSeen(list: seq<Mapping>, start: nat, end: nat)
    requires AllWell(list)
  {
    forall a: nat :: start <= a < end && a % PAGE == 0 ==> View(list, a).None?
  }

  /** A mapping holds a range live exactly when its storage covers the range and every page of it is live. */
  lemma HoldsLiveExactly(list: seq<Mapping>, i: nat, start: nat, length: nat)
    requires AllWell(list) && Disjoint(list) && i < |list|
    requires start % PAGE == 0 && length % PAGE == 0 && length > 0
    ensures var m := list[i];
            HoldsLive(m, start, length) <==>
            m.base <= start && start + length <= m.base + m.capacity && AllSeen(list, start, start + length)
  {
    var m := list[i];
    if m.base <= start && start + length <= m.base + m.capacity {
      PagesSeen(list, i, start, start + length);
    }
  }

  /** Pages of one mapping's storage, by index and by address. */
  lemma PagesSeen(list: seq<Mapping>, i: nat, start: nat, end: nat)
    requires AllWell(list) && Disjoint(list) && i < |list| && start <= end
    requires start % PAGE == 0 && end % PAGE == 0 && list[i].base <= start && end <= list[i].base + list[i].capacity
    ensures var m := list[i];
            && (AllLive(m, (start - m.base) / PAGE, (end - m.base) / PAGE) <==> AllSeen(list, start, end))
            && (NoneLive(m, (start - m.base) / PAGE, (end - m.base) / PAGE) <==> NoneSeen(list, start, end))
  {
    hide View, WellFormed, Disjoint;
    var m := list[i];
    StorageEnds(m, end);
    var from, to := (start - m.base) / PAGE, (end - m.base) / PAGE;
    forall a: nat | start <= a < end && a % PAGE == 0
      ensures AllLive(m, from, to) ==> View(list, a).Some?
      ensures NoneLive(m, from, to) ==> View(list, a).None?
    {
      PageSeen(list, i, start, end, a);
    }
    forall k | from <= k < to
      ensures AllSeen(list, start, end) ==> m.live[k]
      ensures NoneSeen(list, start, end) ==> !m.live[k]
    {
      IndexSeen(list, i, start, end, k);
    }
  }

  lemma StorageEnds(m: Mapping, end: nat)
    requires WellFormed(m) && m.base <= end <= m.base + m.capacity
    ensures (end - m.base) / PAGE <= |m.live| && m.base % PAGE == 0
  {
  }

  lemma LookSeen(m: Mapping, a: nat)
    requires WellFormed(m) && Inside(m, a) && a % PAGE == 0
    ensures (a - m.base) / PAGE < |m.live| && (Look(m, a).Some? <==> m.live[(a - m.base) / PAGE])
  {
    PageIndex(m, a);
  }

  lemma PageSeen(list: seq<Mapping>, i: nat, start: nat, end: nat, a: nat)
    requires AllWell(list) && Disjoint(list) && i < |list| && start <= a < end && a % PAGE == 0
    requires start % PAGE == 0 && end % PAGE == 0 && list[i].base <= start && end <= list[i].base + list[i].capacity
    ensures var m := list[i]; var k := (a - m.base) / PAGE;
            && (start - m.base) / PAGE <= k < (end - m.base) / PAGE && k < |m.live|
            && (View(list, a).Some? <==> m.live[k])
  {
    hide View, Look, WellFormed, Disjoint;
    var m := list[i];
    ViewInside(list, i, a);
    LookSeen(m, a);
    StorageEnds(m, a);
    PageOrder(m, a, start - m.base, end - m.base);
  }

  lemma IndexSeen(list: seq<Mapping>, i: nat, start: nat, end: nat, k: nat)
    requires AllWell(list) && Disjoint(list) && i < |list| && start <= end
    requires start % PAGE == 0 && end % PAGE == 0 && list[i].base <= start && end <= list[i].base + list[i].capacity
    requires (start - list[i].base) / PAGE <= k < (end - list[i].base) / PAGE
    ensures var m := list[i]; var a := m.base + k * PAGE;
            && start <= a < end && a % PAGE == 0 && k < |m.live| && (View(list, a).Some? <==> m.live[k])
  {
    hide View, Look, WellFormed, Disjoint;
    var m := list[i];
    var a := m.base + k * PAGE;
    StorageEnds(m, start);
    AtIndex(m.base, start, end, k);
    PageSeen(list, i, start, end, a);
  }

  lemma AtIndex(base: nat, start: nat, end: nat, k: nat)
    requires base % PAGE == 0 && start % PAGE == 0 && end % PAGE == 0 && base <= start <= end
    requires (start - base) / PAGE <= k < (end - base) / PAGE
    ensures var a := base + k * PAGE; start <= a < end && a % PAGE == 0 && (a - base) / PAGE == k
  {
  }

  // ---------------------------------------------------------------- when a range can be given a new length

  /** The mapping's storage covers the range. */
  predicate Covers(m: Mapping, start: nat, length: nat) {
    m.base <= start && start + length <= m.base + m.capacity
  }

  /** Growing is possible: the file position stays in range, and none of the calls fails that growing in place makes, if
      the pages behind the range are free in the same storage, or otherwise that moving makes, if it may move. */
  ghost predicate GrowsWhen(
    list: seq<Mapping>, m: Mapping, start: nat, old_length: nat, new_length: nat, mayMove: bool, env: Env)
    requires AllWell(list) && m.base <= start && old_length < new_length
  {
    var position := m.offset + (start - m.base);
    && position + new_length <= INT64_MAX
    && if Covers(m, start, new_length) && NoneSeen(list, start + old_length, start + new_length) then
         forall e ::
           Extends(m.file, m.offset, start - m.base + old_length, new_length - old_length, e) ==> !env.fails(e)
       else mayMove && forall e :: Replaces(m.file, position, old_length, new_length, e) ==> !env.fails(e)
  }

  lemma ExtendsExactly(m: Mapping, env: Env, start: nat, length: nat)
    requires start % PAGE == 0 && length % PAGE == 0
    ensures !env.fails(Unprotect) && !env.fails(Protect) && Readable(m, env, start, length) <==>
            forall e :: Extends(m.file, m.offset, start, length, e) ==> !env.fails(e)
  {
    ReadableExactly(m, env, start, length);
    hide Readable, Fills;
    if forall e :: Extends(m.file, m.offset, start, length, e) ==> !env.fails(e) {
      assert Extends(m.file, m.offset, start, length, Unprotect) && Extends(m.file, m.offset, start, length, Protect);
      assert forall e :: Fills(m.file, m.offset, start, length, e) ==> Extends(m.file, m.offset, start, length, e);
    }
  }

  lemma ReplacesExactly(
    length: nat, protection: bv32, file: Option<File>, position: int, base: nat, env: Env, start: nat)
    requires start % PAGE == 0 && length % PAGE == 0 && start <= length
    ensures Creatable(Blank(length, protection, file, position, base), env, start) &&
            !env.fails(UnprotectMoved) && !env.fails(CopyOld) && !env.fails(ProtectMoved) <==>
            forall e :: Replaces(file, position, start, length, e) ==> !env.fails(e)
  {
    CreatableExactly(length, protection, file, position, base, env, start);
    hide Creatable, Makes;
    if forall e :: Replaces(file, position, start, length, e) ==> !env.fails(e) {
      assert Replaces(file, position, start, length, UnprotectMoved);
      assert Replaces(file, position, start, length, CopyOld) && Replaces(file, position, start, length, ProtectMoved);
      assert forall e :: Makes(file, position, start, length, e) ==> Replaces(file, position, start, length, e);
    }
  }

  lemma TailFreeExactly(list: seq<Mapping>, i: nat, start: nat, old_length: nat, new_length: nat)
    requires AllWell(list) && Disjoint(list) && i < |list| && list[i].base <= start && old_length < new_length
    requires start % PAGE == 0 && old_length % PAGE == 0 && new_length % PAGE == 0
    ensures TailFree(list[i], start, old_length, new_length) <==>
            Covers(list[i], start, new_length) && NoneSeen(list, start + old_length, start + new_length)
  {
    hide View, WellFormed, Disjoint;
    if Covers(list[i], start, new_length) {
      PagesSeen(list, i, start + old_length, start + new_length);
    }
  }

  /** A live range stays in place exactly when one storage covers it and its new length, with no live page behind it. */
  lemma RoomExactly(list: seq<Mapping>, start: nat, old_length: nat, new_length: nat)
    requires AllWell(list) && Disjoint(list) && old_length < new_length
    requires start % PAGE == 0 && old_length % PAGE == 0 && new_length % PAGE == 0
    ensures RoomBehind(list, start, old_length, new_length) <==>
            NoneSeen(list, start + old_length, start + new_length) &&
              exists i :: 0 <= i < |list| && Covers(list[i], start, new_length)
  {
    hide AllWell, WellFormed, Disjoint, TailFree, NoneSeen;
    forall i | 0 <= i < |list| && list[i].base <= start
      ensures TailFree(list[i], start, old_length, new_length) <==>
              Covers(list[i], start, new_length) && NoneSeen(list, start + old_length, start + new_length)
    {
      TailFreeExactly(list, i, start, old_length, new_length);
    }
  }

  lemma GrowableExactly(
    list: seq<Mapping>, i: nat, start: nat, old_length: nat, new_length: nat, mayMove: bool, env: Env)
    requires AllWell(list) && Disjoint(list) && i < |list| && list[i].base <= start && old_length < new_length
    requires start % PAGE == 0 && old_length % PAGE == 0 && new_length % PAGE == 0
    ensures Growable(list[i], start, old_length, new_length, mayMove, env) <==>
            GrowsWhen(list, list[i], start, old_length, new_length, mayMove, env)
  {
    hide AllWell, Disjoint, TailFree, Readable, Creatable, NoneSeen, Extends, Replaces;
    var m := list[i];
    TailFreeExactly(list, i, start, old_length, new_length);
    BaseInPages(list, i);
    ExtendsExactly(m, env, start - m.base + old_length, new_length - old_length);
    ReplacesExactly(new_length, m.protection, m.file, m.offset + (start - m.base), env.base, env, old_length);
  }

  lemma BaseInPages(list: seq<Mapping>, i: nat)
    requires AllWell(list) && i < |list|
    ensures list[i].base % PAGE == 0
  {
  }

  /** `mremap` of a valid range succeeds exactly when one mapping's storage covers it, every page of it is live, and it
      gets no longer or can grow. */
  lemma RemapsExactly(
    list: seq<Mapping>, descriptors: nat, start: nat, old_length: nat, new_length: nat, mayMove: bool, env: Env)
    requires Sound(list, descriptors)
    requires start % PAGE == 0 && old_length % PAGE == 0 && new_length % PAGE == 0 && old_length > 0
    ensures (exists i :: 0 <= i < |list| && Remappable(list[i], start, old_length, new_length, mayMove, env)) <==>
            AllSeen(list, start, start + old_length) &&
              exists i :: 0 <= i < |list| && Covers(list[i], start, old_length) &&
                (new_length <= old_length || GrowsWhen(list, list[i], start, old_length, new_length, mayMove, env))
  {
    hide WellFormed, HoldsLive, Growable, GrowsWhen, AllSeen;
    forall i | 0 <= i < |list|
      ensures Remappable(list[i], start, old_length, new_length, mayMove, env) <==>
              && Covers(list[i], start, old_length) && AllSeen(list, start, start + old_length)
              && (new_length <= old_length || GrowsWhen(list, list[i], start, old_length, new_length, mayMove, env))
    {
      HoldsLiveExactly(list, i, start, old_length);
      if list[i].base <= start && old_length < new_length {
        GrowableExactly(list, i, start, old_length, new_length, mayMove, env);
      }
    }
  }

  /** If nothing fails: growing is possible exactly in place, or where moving is allowed. */
  lemma GrowsWithoutFailures(
    list: seq<Mapping>, m: Mapping, start: nat, old_length: nat, new_length: nat, mayMove: bool, env: Env)
    requires AllWell(list) && m.base <= start && old_length < new_length && forall e :: !env.fails(e)
    ensures GrowsWhen(list, m, start, old_length, new_length, mayMove, env) <==>
            && m.offset + (start - m.base) + new_length <= INT64_MAX
            && (mayMove || (Covers(m, start, new_length) && NoneSeen(list, start + old_length, start + new_length)))
  {
    hide Extends, Replaces, NoneSeen;
  }
}
