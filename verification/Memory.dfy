/** `mmap`, `munmap` and `mremap` over the mapping registry (src/bridges/libc/memory.c:47-573).
    The registry refines a map from page addresses to contents and file positions. */
module Memory {
  import opened Common
  import opened MemoryPages

  datatype Errno = EINVAL | ENOMEM | EOVERFLOW | ENOTSUP | EBADF | EFAULT | Native

  datatype Result = Mapped(base: nat) | Failed(error: Errno)

  /** The calls that may fail. `ReadAt` and `CopyAt` name the file and storage offset. */
  datatype Event =
    | AllocRecord | AllocPages | Dup | Storage | Grab
    | ReadAt(offset: int) | CopyAt(start: int)
    | Protect | Unprotect | UnprotectMoved | ProtectMoved | CopyOld

  /** One call's environment: which of them fail, and the storage the kernel offers. */
  datatype Env = Env(fails: Event -> bool, base: nat)

  /** The kernel offers page-aligned storage that overlaps no block still held. */
  ghost predicate Offers(list: seq<Mapping>, base: nat, length: nat) {
    && base > 0 && base % PAGE == 0 && base + length <= UINTPTR_MAX
    && forall i :: 0 <= i < |list| ==> base + length <= list[i].base || list[i].base + list[i].capacity <= base
  }

  /** `__round_length`. */
  function Round(length: nat): (r: Option<nat>)
    ensures r.Some? <==> 0 < length <= PTRDIFF_MAX - (PAGE - 1)
    ensures r.Some? ==> r.value % PAGE == 0 && length <= r.value < length + PAGE
  {
    if length == 0 || length > PTRDIFF_MAX - (PAGE - 1) then None
    else Some((length + PAGE - 1) / PAGE * PAGE)
  }

  /** Storage differing only in the contents of pages [from, to). */
  ghost predicate Filled(m: Mapping, n: Mapping, from: nat, to: nat) {
    && n == m.(data := n.data) && |n.data| == |m.data|
    && forall i :: 0 <= i < |m.data| && !(from <= i < to) ==> n.data[i] == m.data[i]
  }

  /** Nothing `__populate` does for the page at storage offset `at` fails. */
  predicate PageReads(m: Mapping, env: Env, at: int) {
    (m.file.Some? ==> !env.fails(ReadAt(m.offset + at))) && !env.fails(CopyAt(at))
  }

  predicate Readable(m: Mapping, env: Env, start: nat, length: nat) {
    && (m.file.Some? ==> !env.fails(Grab))
    && forall i :: start / PAGE <= i < (start + length) / PAGE ==> PageReads(m, env, i * PAGE)
  }

  /** `__populate`: fill pages one by one, stopping at the first failure. */
  method Populate(m: Mapping, start: nat, length: nat, disk: Disk, env: Env) returns (okay: bool, n: Mapping)
    requires WellFormed(m) && start % PAGE == 0 && length % PAGE == 0 && start + length <= m.capacity
    ensures WellFormed(n) && Filled(m, n, start / PAGE, (start + length) / PAGE)
    ensures okay <==> Readable(m, env, start, length)
    ensures okay ==> forall i :: start / PAGE <= i < (start + length) / PAGE ==> n.data[i] == Fresh(m, disk, i)
  {
    n := m;
    if m.file.Some? && env.fails(Grab) {
      return false, n;
    }
    okay := true;
    var page := start / PAGE;
    while page < (start + length) / PAGE && okay
      invariant start / PAGE <= page <= (start + length) / PAGE
      invariant WellFormed(n) && Filled(m, n, start / PAGE, (start + length) / PAGE)
      invariant okay ==> forall i :: start / PAGE <= i < page ==>
                  PageReads(m, env, i * PAGE) && n.data[i] == Fresh(m, disk, i)
      invariant !okay ==> exists i :: start / PAGE <= i < page && !PageReads(m, env, i * PAGE)
    {
      if PageReads(m, env, page * PAGE) {
        n := n.(data := n.data[page := Fresh(m, disk, page)]);
      } else {
        okay := false;
      }
      page := page + 1;
    }
  }

  /** Whether a new mapping can be made at all. */
  predicate Creatable(m: Mapping, env: Env, start: nat)
    requires start <= m.capacity
  {
    && !env.fails(AllocRecord) && !env.fails(AllocPages) && !env.fails(Storage) && !env.fails(Protect)
    && (m.file.Some? ==> !env.fails(Dup))
    && Readable(m, env, start, m.capacity - start)
  }

  /** A new mapping as `__create` lays it out, before its pages are filled. */
  function Blank(length: nat, protection: bv32, file: Option<File>, offset: int, base: nat): Mapping {
    Mapping(base, length, length / PAGE, seq(length / PAGE, _ => true), seq(length / PAGE, _ => ZEROS),
            protection, file, offset)
  }

  lemma BlankWell(length: nat, protection: bv32, file: Option<File>, offset: int, base: nat)
    requires base > 0 && base % PAGE == 0 && length % PAGE == 0 && length > 0 && base + length <= UINTPTR_MAX
    requires offset >= 0 && offset % PAGE == 0 && offset + length <= INT64_MAX
    ensures WellFormed(Blank(length, protection, file, offset, base))
  {
    CountAll(length / PAGE);
  }

  /** The page map after a new mapping: its pages, and everything else as before. */
  lemma {:induction false} AddView(list: seq<Mapping>, descriptors: nat, m: Mapping)
    requires Sound(list, descriptors) && WellFormed(m) && m.active > 0 && Offers(list, m.base, m.capacity)
    ensures Sound([m] + list, descriptors + if m.file.Some? then 1 else 0)
    ensures forall a: nat :: View([m] + list, a) == if Inside(m, a) then Look(m, a) else View(list, a)
  {
    var next := [m] + list;
    assert next[1..] == list;
    forall a: nat
      ensures View(next, a) == if Inside(m, a) then Look(m, a) else View(list, a)
    {
      if Inside(m, a) && Look(m, a).None? {
        ViewOutside(list, a);
      }
    }
  }

  // ---------------------------------------------------------------- what the calls do to the page map

  /** Every `mmap` flag the bridge knows. */
  const KNOWN: bv32 := 0x12_d833

  /** A private, non-fixed mapping for reading or for reading and writing. */
  predicate Supported(protection: bv32, flags: bv32) {
    flags & !KNOWN == 0 && flags & 3 == 2 && flags & 0x10_0010 == 0 && (protection == 1 || protection == 3)
  }

  predicate Anonymous(flags: bv32) {
    flags & 0x20 != 0
  }

  function Backing(flags: bv32, fd: int): Option<File> {
    if Anonymous(flags) || fd < 0 then None else Some(fd)
  }

  /** The pages of a fresh private mapping. */
  function NewPage(file: Option<File>, offset: int, protection: bv32, disk: Disk): PageView {
    PageView(if file.Some? then disk(file.value, offset) else ZEROS, file, offset, protection)
  }

  /** `mmap`: the new range holds file pages or zeros; nothing else changes. */
  ghost predicate MapsFresh(
    before: seq<Mapping>, after: seq<Mapping>, base: nat, length: nat,
    protection: bv32, file: Option<File>, offset: int, disk: Disk)
    requires AllWell(before) && AllWell(after)
  {
    && (forall a: nat :: !(base <= a < base + length) ==> View(after, a) == View(before, a))
    && (forall a: nat :: base <= a < base + length && a % PAGE == 0 ==>
         View(after, a) == Some(NewPage(file, offset + (a - base), protection, disk)))
  }

  ghost predicate SameView(before: seq<Mapping>, after: seq<Mapping>)
    requires AllWell(before) && AllWell(after)
  {
    forall a: nat :: View(after, a) == View(before, a)
  }

  ghost predicate UnmapsRange(before: seq<Mapping>, after: seq<Mapping>, start: nat, end: nat)
    requires AllWell(before) && AllWell(after)
  {
    forall a: nat :: View(after, a) == if start <= a < end then None else View(before, a)
  }

  /** Growing in place: the old range is untouched, the new tail is filled from where the
      mapping's file position says. */
  ghost predicate GrowsInPlace(
    before: seq<Mapping>, after: seq<Mapping>, start: nat, old_length: nat, new_length: nat, disk: Disk)
    requires AllWell(before) && AllWell(after)
  {
    && (forall a: nat :: !(start + old_length <= a < start + new_length) ==> View(after, a) == View(before, a))
    && View(before, start).Some?
    && var first := View(before, start).value;
       forall a: nat :: start + old_length <= a < start + new_length && a % PAGE == 0 ==>
         && View(before, a) == None
         && View(after, a) == Some(NewPage(first.file, first.offset + (a - start), first.protection, disk))
  }

  /** Moving: the old range goes, its pages reappear in order at the new place with their
      contents and file positions, and the rest is filled as by growing in place. */
  ghost predicate Moves(
    before: seq<Mapping>, after: seq<Mapping>, start: nat, old_length: nat, base: nat, new_length: nat, disk: Disk)
    requires AllWell(before) && AllWell(after)
  {
    && (forall a: nat :: base <= a < base + new_length ==> View(before, a) == None)
    && (forall a: nat :: !(base <= a < base + new_length) ==>
         View(after, a) == if start <= a < start + old_length then None else View(before, a))
    && View(before, start).Some?
    && (forall a: nat :: base <= a < base + old_length && a % PAGE == 0 ==>
         View(after, a) == View(before, start + (a - base)))
    && var first := View(before, start).value;
       forall a: nat :: base + old_length <= a < base + new_length && a % PAGE == 0 ==>
         View(after, a) == Some(NewPage(first.file, first.offset + (a - base), first.protection, disk))
  }

  // ---------------------------------------------------------------- the registry

  class Registry {
    var mappings: seq<Mapping>
    var descriptors: nat

    ghost predicate Valid()
      reads this
    {
      Sound(mappings, descriptors)
    }

    constructor ()
      ensures Valid() && mappings == [] && descriptors == 0
    {
      mappings, descriptors := [], 0;
    }

    /** `__create`: a filled mapping of its own, or nothing kept. */
    method Create(length: nat, protection: bv32, file: Option<File>, offset: int, start: nat, disk: Disk, env: Env)
      returns (made: Option<Mapping>)
      requires length > 0 && length % PAGE == 0 && start % PAGE == 0 && start <= length
      requires offset >= 0 && offset % PAGE == 0 && offset + length <= INT64_MAX
      requires env.base > 0 && env.base % PAGE == 0 && env.base + length <= UINTPTR_MAX
      modifies this`descriptors
      ensures made.Some? <==> Creatable(Blank(length, protection, file, offset, env.base), env, start)
      ensures descriptors == old(descriptors) + if made.Some? && file.Some? then 1 else 0
      ensures made.Some? ==>
                var m := made.value;
                && WellFormed(m)
                && m == Blank(length, protection, file, offset, env.base).(data := m.data)
                && forall i :: start / PAGE <= i < length / PAGE ==> m.data[i] == Fresh(m, disk, i)
    {
      if env.fails(AllocRecord) || env.fails(AllocPages) {
        return None;
      }
      var m := Blank(length, protection, file, offset, env.base);
      BlankWell(length, protection, file, offset, env.base);
      if file.Some? {
        if env.fails(Dup) {
          return None;
        }
        descriptors := descriptors + 1;
      }
      if !env.fails(Storage) {
        var okay, n := Populate(m, start, length - start, disk, env);
        if okay && !env.fails(Protect) {
          return Some(n);
        }
      }
      if file.Some? {
        descriptors := descriptors - 1;
      }
      made := None;
    }

    /** `__map`: the checks in the source's order, then a mapping of its own. */
    method Map(length: nat, protection: bv32, flags: bv32, fd: int, offset: int, disk: Disk, env: Env)
      returns (r: Result)
      requires Valid()
      requires Round(length).Some? ==> Offers(mappings, env.base, Round(length).value)
      modifies this
      ensures Valid()
      ensures r.Mapped? <==>
                && Round(length).Some? && offset >= 0 && offset % PAGE == 0
                && offset <= INT64_MAX - Round(length).value
                && Supported(protection, flags) && (Anonymous(flags) || fd >= 0)
                && Creatable(Blank(Round(length).value, protection, Backing(flags, fd), offset, env.base), env, 0)
      ensures r.Mapped? ==> r.base == env.base
      ensures r.Mapped? ==>
                MapsFresh(
                  old(mappings), mappings, env.base, Round(length).value, protection, Backing(flags, fd), offset, disk)
      ensures r.Mapped? ==> Backing(flags, fd) == if flags & 0x20 != 0 then None else Some(fd)
      ensures r.Failed? ==> mappings == old(mappings) && descriptors == old(descriptors)
    {
      if length == 0 || offset < 0 || offset % PAGE != 0 {
        return Failed(EINVAL);
      }
      var rounded := Round(length);
      if rounded.None? {
        return Failed(ENOMEM);
      }
      if offset > INT64_MAX - rounded.value {
        return Failed(EOVERFLOW);
      }
      if protection & !7 != 0 || flags & !KNOWN != 0 || flags & 3 == 0 || flags & 3 == 3 {
        return Failed(EINVAL);
      }
      if flags & 3 != 2 || flags & 0x10_0010 != 0 || (protection != 1 && protection != 3) {
        return Failed(ENOTSUP);
      }
      if !Anonymous(flags) && fd < 0 {
        return Failed(EBADF);
      }
      var made := Create(rounded.value, protection, Backing(flags, fd), offset, 0, disk, env);
      if made.None? {
        return Failed(Native);
      }
      hide Sound, Offers, MapsFresh, Creatable, WellFormed;
      FreshAdded(mappings, old(descriptors), made.value, disk);
      mappings := [made.value] + mappings;
      r := Mapped(env.base);
    }

    /** One mapping's turn of `__unmap`: the page loop at lines 431-437. */
    method RetirePages(m: Mapping, address: nat, end: nat) returns (r: Mapping)
      requires WellFormed(m) && address % PAGE == 0
      ensures r == Retire(m, address, end)
    {
      var last := m.base + m.capacity;
      var first := if address > m.base then address else m.base;
      var stop := if end < last then end else last;
      r := m;
      var page := first;
      while page < stop
        invariant page % PAGE == 0 && first <= page
        invariant r == m.(live := r.live, active := r.active) && |r.live| == |m.live|
        invariant r.active == CountLive(r.live)
        invariant forall i :: 0 <= i < |m.live| ==>
                    r.live[i] == (m.live[i] && !(first <= m.base + i * PAGE < page && m.base + i * PAGE < stop))
        decreases stop - page
      {
        var index := (page - m.base) / PAGE;
        assert m.base + index * PAGE == page;
        if r.live[index] {
          CountUpdate(r.live, index, false);
          CountPositive(r.live, index);
          r := r.(live := r.live[index := false], active := r.active - 1);
        }
        page := page + PAGE;
      }
      assert r.live == Retire(m, address, end).live;
    }

    /** The walk of `__unmap` over the list, releasing mappings that lost their last page. */
    method UnmapList(address: nat, end: nat)
      requires AllWell(mappings) && descriptors == CountFiles(mappings) && address % PAGE == 0
      modifies this
      ensures mappings == UnmapAll(old(mappings), address, end) && descriptors == CountFiles(mappings)
    {
      hide WellFormed, Retire, Look, CountFiles;
      var link := 0;
      while link < |mappings|
        invariant link <= |mappings| && AllWell(mappings)
        invariant mappings[..link] + UnmapAll(mappings[link..], address, end) == UnmapAll(old(mappings), address, end)
        invariant descriptors == CountFiles(mappings)
        decreases |mappings| - link
      {
        var m := RetirePages(mappings[link], address, end);
        RetireLook(mappings[link], address, end, 0);
        UnmapStep(mappings, link, address, end);
        if m.active == 0 {
          FilesRemove(mappings, link);
          FilesPositive(mappings, link);
          if m.file.Some? {
            descriptors := descriptors - 1;
          }
          mappings := mappings[..link] + mappings[link + 1..];
        } else {
          FilesUpdate(mappings, link, m);
          mappings := mappings[link := m];
          link := link + 1;
        }
      }
      assert mappings == UnmapAll(old(mappings), address, end);
    }

    /** `__unmap`: exactly the pages of the range leave the page map. */
    method Unmap(address: nat, length: nat)
      requires Valid() && address % PAGE == 0
      modifies this
      ensures Valid() && UnmapsRange(old(mappings), mappings, address, address + length)
    {
      hide View, UnmapAll, WellFormed, Disjoint, CountFiles, UnmapsRange;
      UnmapKeeps(mappings, descriptors, address, address + length);
      UnmapList(address, address + length);
    }

    /** `bridge_munmap`. Unknown ranges succeed; only tracked pages go. */
    method Munmap(address: nat, length: nat) returns (okay: bool)
      requires Valid()
      modifies this
      ensures Valid()
      ensures okay <==> address % PAGE == 0 && Round(length).Some? && address <= UINTPTR_MAX - Round(length).value
      ensures okay ==> UnmapsRange(old(mappings), mappings, address, address + Round(length).value)
      ensures !okay ==> mappings == old(mappings) && descriptors == old(descriptors)
    {
      var rounded := Round(length);
      if address % PAGE != 0 || rounded.None? || address > UINTPTR_MAX - rounded.value {
        return false;
      }
      Unmap(address, rounded.value);
      okay := true;
    }

    /** The search at lines 478-486 for one mapping holding the whole old range. */
    method FindHolder(start: nat, length: nat) returns (found: Option<nat>)
      requires Valid() && length > 0
      ensures found.Some? ==> found.value < |mappings| && Holds(mappings[found.value], start, length)
      ensures found.None? ==> forall i :: 0 <= i < |mappings| ==> !Holds(mappings[i], start, length)
    {
      var i := 0;
      while i < |mappings|
        invariant i <= |mappings| && forall j :: 0 <= j < i ==> !Holds(mappings[j], start, length)
      {
        var m := mappings[i];
        if start >= m.base && start - m.base < m.capacity && length <= m.capacity - (start - m.base) {
          return Some(i);
        }
        i := i + 1;
      }
      found := None;
    }

    /** Lines 523-541: fill the retired tail and bring it back to life, all or nothing. */
    method GrowTail(i: nat, from: nat, to: nat, disk: Disk, env: Env) returns (populated: bool)
      requires Valid() && i < |mappings| && from % PAGE == 0 && to % PAGE == 0 && from < to <= mappings[i].capacity
      requires NoneLive(mappings[i], from / PAGE, to / PAGE)
      modifies this`mappings
      ensures Valid() && descriptors == old(descriptors)
      ensures populated <==>
                !env.fails(Unprotect) && !env.fails(Protect) && Readable(old(mappings)[i], env, from, to - from)
      ensures !populated ==> SameView(old(mappings), mappings)
      ensures populated ==> TailGrown(old(mappings), mappings, old(mappings)[i], from, to, disk)
    {
      var m, n := mappings[i], mappings[i];
      populated := false;
      if !env.fails(Unprotect) {
        populated, n := Populate(m, from, to - from, disk, env);
      }
      if env.fails(Protect) {
        populated := false;
      }
      ghost var filled := n;
      if populated {
        n := MarkLive(n, from / PAGE, to / PAGE);
        RevivedView(mappings, descriptors, i, filled, n, from, to, disk);
      } else {
        DeadPagesDoNotShow(mappings, descriptors, i, n, from / PAGE, to / PAGE);
      }
      mappings := mappings[i := n];
    }

    /** Lines 552-572: a replacement with its own descriptor, holding the old pages and new
        ones; the old range is unmapped only when everything else has worked. */
    method MoveRange(i: nat, start: nat, old_length: nat, new_length: nat, disk: Disk, env: Env) returns (r: Result)
      requires Valid() && i < |mappings| && Holds(mappings[i], start, old_length) && old_length > 0
      requires start % PAGE == 0 && old_length % PAGE == 0 && new_length % PAGE == 0 && old_length < new_length
      requires AllLive(mappings[i], (start - mappings[i].base) / PAGE, (start - mappings[i].base + old_length) / PAGE)
      requires mappings[i].offset <= INT64_MAX - (start - mappings[i].base) - new_length
      requires Offers(mappings, env.base, new_length)
      modifies this
      ensures Valid()
      ensures r.Mapped? ==>
                r.base == env.base && Moves(old(mappings), mappings, start, old_length, env.base, new_length, disk)
      ensures r.Failed? ==> r.error == Native && mappings == old(mappings) && descriptors == old(descriptors)
      ensures var m := old(mappings)[i];
              r.Mapped? <==>
                && Creatable(
                     Blank(new_length, m.protection, m.file, m.offset + (start - m.base), env.base), env, old_length)
                && !env.fails(UnprotectMoved) && !env.fails(CopyOld) && !env.fails(ProtectMoved)
    {
      hide Look, View, Moves, MovedView, UnmapsRange, Creatable, CountFiles;
      var m := mappings[i];
      var relative := start - m.base;
      var made := Create(new_length, m.protection, m.file, m.offset + relative, old_length, disk, env);
      if made.None? {
        return Failed(Native);
      }
      if env.fails(UnprotectMoved) || env.fails(CopyOld) || env.fails(ProtectMoved) {
        if m.file.Some? {
          descriptors := descriptors - 1;
        }
        return Failed(Native);
      }
      var replacement := CopyRange(m, made.value, relative, old_length);
      ghost var before := mappings;
      MovedIn(before, old(descriptors), i, made.value, replacement, start, old_length, new_length, disk);
      mappings := [replacement] + mappings;
      ghost var middle := mappings;
      Unmap(start, old_length);
      MovedOut(before, middle, mappings, start, old_length, env.base, new_length, disk);
      r := Mapped(env.base);
    }

    /** Filling and reviving the tail of a range keeps the range and makes it longer. */
    method GrowInPlace(i: nat, address: nat, old_length: nat, new_length: nat, disk: Disk, env: Env)
      returns (populated: bool)
      requires Valid() && i < |mappings| && HoldsLive(mappings[i], address, old_length) && old_length > 0
      requires address % PAGE == 0 && old_length % PAGE == 0 && new_length % PAGE == 0 && old_length < new_length
      requires TailFree(mappings[i], address, old_length, new_length)
      modifies this`mappings
      ensures Valid() && descriptors == old(descriptors)
      ensures populated <==>
                var relative := address - old(mappings)[i].base;
                && !env.fails(Unprotect) && !env.fails(Protect)
                && Readable(old(mappings)[i], env, relative + old_length, new_length - old_length)
      ensures !populated ==> SameView(old(mappings), mappings)
      ensures populated ==> GrowsInPlace(old(mappings), mappings, address, old_length, new_length, disk)
    {
      var relative := address - mappings[i].base;
      RangeIndexes(mappings, i, address, old_length, new_length);
      hide View, WellFormed, AllLive, NoneLive, Readable, GrowsInPlace, TailGrown;
      populated := GrowTail(i, relative + old_length, relative + new_length, disk, env);
      if populated {
        TailIsGrowth(old(mappings), mappings, old(descriptors), i, address, old_length, new_length, disk);
      }
    }

    /** Lines 509-572: grow in place when the tail is retired, otherwise move if allowed. */
    method Grow(i: nat, address: nat, old_length: nat, new_length: nat, mayMove: bool, disk: Disk, env: Env)
      returns (r: Result)
      requires Valid() && i < |mappings| && HoldsLive(mappings[i], address, old_length) && old_length > 0
      requires address % PAGE == 0 && old_length % PAGE == 0 && new_length % PAGE == 0 && old_length < new_length
      requires Offers(mappings, env.base, new_length)
      modifies this
      ensures Valid()
      ensures r.Failed? ==> SameView(old(mappings), mappings) && descriptors == old(descriptors)
      ensures r.Mapped? ==>
                if TailFree(old(mappings)[i], address, old_length, new_length)
                then r.base == address && GrowsInPlace(old(mappings), mappings, address, old_length, new_length, disk)
                else mayMove && r.base == env.base &&
                     Moves(old(mappings), mappings, address, old_length, env.base, new_length, disk)
      ensures r.Mapped? <==> Growable(old(mappings)[i], address, old_length, new_length, mayMove, env)
    {
      var m := mappings[i];
      assert WellFormed(m) && Holds(m, address, old_length);
      if m.offset > INT64_MAX - (address - m.base) - new_length {
        return Failed(EOVERFLOW);
      }
      var available := TailAvailable(m, address, old_length, new_length);
      hide Sound, View, Offers, WellFormed, AllLive, Creatable, Readable, Moves, GrowsInPlace, TailFree;
      if available {
        var populated := GrowInPlace(i, address, old_length, new_length, disk, env);
        return if populated then Mapped(address) else Failed(Native);
      }
      if !mayMove {
        return Failed(ENOMEM);
      }
      r := MoveRange(i, address, old_length, new_length, disk, env);
    }

    /** The checks of `bridge_mremap` up to line 498: the mapping that holds the old range, with
        all of it live. */
    method Resolve(address: nat, old_length: nat) returns (found: Option<nat>)
      requires Valid() && old_length > 0 && old_length % PAGE == 0 && address % PAGE == 0
      ensures found.Some? ==> found.value < |mappings| && HoldsLive(mappings[found.value], address, old_length)
      ensures found.None? ==> forall i :: 0 <= i < |mappings| ==> !HoldsLive(mappings[i], address, old_length)
    {
      found := FindHolder(address, old_length);
      if found.Some? {
        var m := mappings[found.value];
        HolderIsUnique(mappings, descriptors, found.value, address, old_length);
        var relative := address - m.base;
        var live := RangeLive(m, relative / PAGE, (relative + old_length) / PAGE);
        if !live {
          return None;
        }
      }
    }

    /** Lines 497-573: shrinking unmaps the end, growing is in place or a move. */
    method Resize(i: nat, address: nat, old_length: nat, new_length: nat, mayMove: bool, disk: Disk, env: Env)
      returns (r: Result)
      requires Valid() && i < |mappings| && HoldsLive(mappings[i], address, old_length) && old_length > 0
      requires address % PAGE == 0 && old_length % PAGE == 0 && new_length % PAGE == 0
      requires Offers(mappings, env.base, new_length)
      modifies this
      ensures Valid()
      ensures r.Failed? ==> SameView(old(mappings), mappings) && descriptors == old(descriptors)
      ensures r.Mapped? ==> Remaps(old(mappings), mappings, address, old_length, r.base, new_length, mayMove, disk)
      ensures r.Mapped? <==> Remappable(old(mappings)[i], address, old_length, new_length, mayMove, env)
    {
      hide View, Offers, WellFormed, AllLive, NoneLive, Creatable, Readable, Moves, GrowsInPlace;
      LiveRange(mappings, descriptors, i, address, old_length);
      if new_length <= old_length {
        if new_length < old_length {
          Unmap(address + new_length, old_length - new_length);
        }
        return Mapped(address);
      }
      RoomIsTheHolders(mappings, descriptors, i, address, old_length, new_length);
      r := Grow(i, address, old_length, new_length, mayMove, disk, env);
    }

    /** `bridge_mremap`. A failure at any point leaves the page map and the number of owned
        descriptors as they were. */
    method Mremap(address: nat, old_size: nat, new_size: nat, flags: bv32, disk: Disk, env: Env) returns (r: Result)
      requires Valid()
      requires Round(new_size).Some? ==> Offers(mappings, env.base, Round(new_size).value)
      modifies this
      ensures Valid()
      ensures r.Failed? ==> SameView(old(mappings), mappings) && descriptors == old(descriptors)
      ensures r.Mapped? ==> ArgumentsOkay(address, old_size, new_size, flags)
      ensures r.Mapped? ==>
                Remaps(old(mappings), mappings, address, Round(old_size).value, r.base, Round(new_size).value,
                    flags & 1 == 1, disk)
      ensures r.Mapped? <==>
                ArgumentsOkay(address, old_size, new_size, flags) &&
                exists i :: 0 <= i < |old(mappings)| &&
                  Remappable(
                    old(mappings)[i], address, Round(old_size).value, Round(new_size).value, flags & 1 == 1, env)
    {
      var rounded_old, rounded_new := Round(old_size), Round(new_size);
      if address % PAGE != 0 || rounded_old.None? || rounded_new.None? || address > UINTPTR_MAX - rounded_old.value ||
         flags & !3 != 0 || (flags & 2 != 0 && flags & 1 == 0) {
        return Failed(EINVAL);
      }
      if flags & 2 != 0 {
        return Failed(ENOTSUP);
      }
      var old_length, new_length := rounded_old.value, rounded_new.value;
      var holder := Resolve(address, old_length);
      if holder.None? {
        return Failed(EFAULT);
      }
      hide Sound, View, Offers, HoldsLive, Round, WellFormed, Growable, Moves, GrowsInPlace, UnmapsRange;
      r := Resize(holder.value, address, old_length, new_length, flags & 1 == 1, disk, env);
    }
  }

  predicate ArgumentsOkay(address: nat, old_size: nat, new_size: nat, flags: bv32) {
    && address % PAGE == 0 && Round(old_size).Some? && Round(new_size).Some?
    && address <= UINTPTR_MAX - Round(old_size).value && flags <= 1
  }

  /** The pages after the old range are inside the same storage and retired. */
  predicate TailFree(m: Mapping, address: nat, old_length: nat, new_length: nat) {
    && m.base <= address && new_length <= m.capacity - (address - m.base)
    && NoneLive(m, (address - m.base + old_length) / PAGE, (address - m.base + new_length) / PAGE)
  }

  /** A range can grow: in place when the pages behind it are retired and can be filled, otherwise, if it may move, into
      a replacement that can be made and filled. */
  predicate Growable(m: Mapping, address: nat, old_length: nat, new_length: nat, mayMove: bool, env: Env)
    requires m.base <= address && old_length < new_length
  {
    var relative := address - m.base;
    && m.offset <= INT64_MAX - relative - new_length
    && if TailFree(m, address, old_length, new_length) then
         && !env.fails(Unprotect) && !env.fails(Protect)
         && Readable(m, env, relative + old_length, new_length - old_length)
       else
         && mayMove
         && Creatable(Blank(new_length, m.protection, m.file, m.offset + relative, env.base), env, old_length)
         && !env.fails(UnprotectMoved) && !env.fails(CopyOld) && !env.fails(ProtectMoved)
  }

  /** The mapping holds the range live, and it can be given the new length. */
  predicate Remappable(m: Mapping, address: nat, old_length: nat, new_length: nat, mayMove: bool, env: Env) {
    && HoldsLive(m, address, old_length)
    && (new_length <= old_length || Growable(m, address, old_length, new_length, mayMove, env))
  }

  /** What a successful `mremap` did, by how the lengths compare and where the result is. */
  ghost predicate Remaps(
    before: seq<Mapping>, after: seq<Mapping>, address: nat, old_length: nat, base: nat, new_length: nat,
    mayMove: bool, disk: Disk)
    requires AllWell(before) && AllWell(after)
  {
    && (forall a: nat :: address <= a < address + old_length && a % PAGE == 0 ==> View(before, a).Some?)
    && (if new_length <= old_length then
          base == address && UnmapsRange(before, after, address + new_length, address + old_length)
        else if RoomBehind(before, address, old_length, new_length) then
          base == address && GrowsInPlace(before, after, address, old_length, new_length, disk)
        else mayMove && Moves(before, after, address, old_length, base, new_length, disk))
  }

  /** The storage that covers the range has it free to grow in place. */
  predicate RoomBehind(list: seq<Mapping>, address: nat, old_length: nat, new_length: nat) {
    exists i :: 0 <= i < |list| && Holds(list[i], address, old_length) &&
      TailFree(list[i], address, old_length, new_length)
  }

  /** One mapping's storage contains the range. */
  predicate Holds(m: Mapping, start: nat, length: nat) {
    start >= m.base && start - m.base < m.capacity && length <= m.capacity - (start - m.base)
  }

  predicate AllLive(m: Mapping, from: nat, to: nat) {
    to <= |m.live| && forall i :: from <= i < to ==> m.live[i]
  }

  predicate NoneLive(m: Mapping, from: nat, to: nat) {
    to <= |m.live| && forall i :: from <= i < to ==> !m.live[i]
  }

  predicate HoldsLive(m: Mapping, start: nat, length: nat) {
    Holds(m, start, length) && AllLive(m, (start - m.base) / PAGE, (start - m.base + length) / PAGE)
  }

  /** The liveness loop at lines 493-498. */
  method RangeLive(m: Mapping, from: nat, to: nat) returns (live: bool)
    requires from <= to <= |m.live|
    ensures live <==> AllLive(m, from, to)
  {
    for page := from to to
      invariant AllLive(m, from, page)
    {
      if !m.live[page] {
        return false;
      }
    }
    live := true;
  }

  /** The availability loop at lines 515-521. */
  method RangeDead(m: Mapping, from: nat, to: nat) returns (dead: bool)
    requires from <= to <= |m.live|
    ensures dead <==> NoneLive(m, from, to)
  {
    for page := from to to
      invariant NoneLive(m, from, page)
    {
      if m.live[page] {
        return false;
      }
    }
    dead := true;
  }

  /** The loop at lines 533-537. */
  method MarkLive(m: Mapping, from: nat, to: nat) returns (n: Mapping)
    requires WellFormed(m) && NoneLive(m, from, to) && from <= to
    ensures WellFormed(n) && Revived(m, n, from, to)
  {
    n := m;
    for page := from to to
      invariant WellFormed(n) && n == m.(live := n.live, active := n.active)
      invariant forall i :: 0 <= i < |m.live| ==> n.live[i] == (m.live[i] || from <= i < page)
      invariant n.active == m.active + (page - from)
    {
      CountUpdate(n.live, page, true);
      n := n.(live := n.live[page := true], active := n.active + 1);
    }
  }

  ghost predicate Revived(m: Mapping, n: Mapping, from: nat, to: nat) {
    && n == m.(live := n.live, active := n.active) && |n.live| == |m.live|
    && (forall i :: 0 <= i < |m.live| ==> n.live[i] == (m.live[i] || from <= i < to))
    && n.active >= m.active
  }

  /** The old pages of a moved range over a new mapping's storage. */
  function CopyRange(m: Mapping, n: Mapping, relative: nat, length: nat): (r: Mapping)
    requires WellFormed(m) && WellFormed(n) && relative + length <= m.capacity && length <= n.capacity
    requires relative % PAGE == 0 && length % PAGE == 0
    ensures WellFormed(r)
  {
    n.(data := m.data[relative / PAGE..(relative + length) / PAGE] + n.data[length / PAGE..])
  }

  // ---------------------------------------------------------------- what they do to the page map

  /** Page addresses and page indexes of one mapping. */
  lemma PageIndex(m: Mapping, a: nat)
    requires WellFormed(m) && Inside(m, a) && a % PAGE == 0
    ensures var i := (a - m.base) / PAGE; i < |m.live| && m.base + i * PAGE == a
  {
  }

  lemma PageOrder(m: Mapping, a: nat, from: nat, to: nat)
    requires WellFormed(m) && Inside(m, a) && a % PAGE == 0 && from % PAGE == 0 && to % PAGE == 0
    ensures from / PAGE <= (a - m.base) / PAGE < to / PAGE <==> from <= a - m.base < to
  {
    assert (a - m.base) / PAGE * PAGE == a - m.base;
  }

  /** Whether the range can grow where it is: the room, and the page loop. */
  method TailAvailable(m: Mapping, address: nat, old_length: nat, new_length: nat) returns (available: bool)
    requires WellFormed(m) && HoldsLive(m, address, old_length)
    requires address % PAGE == 0 && old_length % PAGE == 0 && new_length % PAGE == 0 && old_length < new_length
    ensures available <==> TailFree(m, address, old_length, new_length)
  {
    var relative := address - m.base;
    if new_length > m.capacity - relative {
      return false;
    }
    RangeIndexes([m], 0, address, old_length, new_length);
    available := RangeDead(m, (relative + old_length) / PAGE, (relative + new_length) / PAGE);
  }

  lemma RangeIndexes(list: seq<Mapping>, i: nat, address: nat, old_length: nat, new_length: nat)
    requires AllWell(list) && i < |list| && HoldsLive(list[i], address, old_length)
    requires address % PAGE == 0 && old_length % PAGE == 0 && new_length % PAGE == 0 && old_length < new_length
    ensures var m := list[i]; var relative := address - m.base;
            && relative % PAGE == 0 && relative >= 0
            && (new_length <= m.capacity - relative ==>
                 (relative + old_length) / PAGE <= (relative + new_length) / PAGE <= |m.live|)
            && (new_length > m.capacity - relative ==> (relative + new_length) / PAGE > |m.live|)
  {
    var relative := address - list[i].base;
    PagesOrdered(relative + old_length, relative + new_length);
    PagesOrdered(relative + new_length, list[i].capacity);
    PagesOrdered(list[i].capacity, relative + new_length);
  }

  lemma PagesOrdered(x: nat, y: nat)
    requires x % PAGE == 0 && y % PAGE == 0
    ensures x <= y <==> x / PAGE <= y / PAGE
  {
  }

  lemma HolderIsUnique(list: seq<Mapping>, descriptors: nat, i: nat, start: nat, length: nat)
    requires Sound(list, descriptors) && i < |list| && Holds(list[i], start, length) && length > 0
    ensures forall j :: 0 <= j < |list| && Holds(list[j], start, length) ==> j == i
  {
    forall j | 0 <= j < |list| && j != i
      ensures !Holds(list[j], start, length)
    {
      assert Apart(list[if j < i then j else i], list[if j < i then i else j]);
    }
  }

  lemma RoomIsTheHolders(
    list: seq<Mapping>, descriptors: nat, i: nat, start: nat, old_length: nat, new_length: nat)
    requires Sound(list, descriptors) && i < |list| && Holds(list[i], start, old_length) && old_length > 0
    ensures RoomBehind(list, start, old_length, new_length) <==> TailFree(list[i], start, old_length, new_length)
  {
    hide Holds, TailFree, Sound;
    HolderIsUnique(list, descriptors, i, start, old_length);
  }

  lemma LiveRange(list: seq<Mapping>, descriptors: nat, i: nat, start: nat, length: nat)
    requires Sound(list, descriptors) && i < |list| && HoldsLive(list[i], start, length)
    requires start % PAGE == 0 && length % PAGE == 0
    ensures forall a: nat :: start <= a < start + length && a % PAGE == 0 ==> View(list, a).Some?
  {
    forall a: nat | start <= a < start + length && a % PAGE == 0
      ensures View(list, a).Some?
    {
      LivePage(list[i], start, length, a);
      ViewInside(list, i, a);
      hide View, Look, Sound, AllLive;
    }
  }

  lemma LivePage(m: Mapping, start: nat, length: nat, a: nat)
    requires WellFormed(m) && HoldsLive(m, start, length) && start <= a < start + length
    requires start % PAGE == 0 && length % PAGE == 0 && a % PAGE == 0
    ensures Inside(m, a) && Look(m, a).Some?
  {
    PageIndex(m, a);
    PageOrder(m, a, start - m.base, start - m.base + length);
  }

  /** Refilled storage behind retired pages does not show. */
  lemma DeadPagesDoNotShow(list: seq<Mapping>, descriptors: nat, i: nat, n: Mapping, from: nat, to: nat)
    requires Sound(list, descriptors) && i < |list| && WellFormed(n) && Filled(list[i], n, from, to)
    requires NoneLive(list[i], from, to)
    ensures Sound(list[i := n], descriptors) && SameView(list, list[i := n])
  {
    FilesUpdate(list, i, n);
    ViewUpdate(list, i, n, 0);
    forall a: nat
      ensures View(list[i := n], a) == View(list, a)
    {
      ViewUpdate(list, i, n, a);
      if Inside(n, a) {
        ViewInside(list, i, a);
      }
    }
  }

  /** Retired pages [from, to) of a mapping came back, freshly filled. */
  ghost predicate TailGrown(before: seq<Mapping>, after: seq<Mapping>, m: Mapping, from: nat, to: nat, disk: Disk)
    requires AllWell(before) && AllWell(after)
  {
    && (forall a: nat :: !(m.base + from <= a < m.base + to) ==> View(after, a) == View(before, a))
    && (forall a: nat :: m.base + from <= a < m.base + to && a % PAGE == 0 ==>
         && View(before, a) == None
         && View(after, a) == Some(NewPage(m.file, m.offset + (a - m.base), m.protection, disk)))
  }

  lemma RevivedView(
    list: seq<Mapping>, descriptors: nat, i: nat, filled: Mapping, n: Mapping, from: nat, to: nat, disk: Disk)
    requires Sound(list, descriptors) && i < |list| && WellFormed(filled) && WellFormed(n)
    requires from % PAGE == 0 && to % PAGE == 0 && from < to <= list[i].capacity
    requires NoneLive(list[i], from / PAGE, to / PAGE)
    requires Filled(list[i], filled, from / PAGE, to / PAGE) && Revived(filled, n, from / PAGE, to / PAGE)
    requires forall k :: from / PAGE <= k < to / PAGE ==> filled.data[k] == Fresh(list[i], disk, k)
    ensures Sound(list[i := n], descriptors) && TailGrown(list, list[i := n], list[i], from, to, disk)
  {
    var m := list[i];
    FilesUpdate(list, i, n);
    ViewUpdate(list, i, n, 0);
    forall a: nat
      ensures !(m.base + from <= a < m.base + to) ==> View(list[i := n], a) == View(list, a)
      ensures m.base + from <= a < m.base + to && a % PAGE == 0 ==>
                && View(list, a) == None
                && View(list[i := n], a) == Some(NewPage(m.file, m.offset + (a - m.base), m.protection, disk))
    {
      ViewUpdate(list, i, n, a);
      if Inside(m, a) {
        ViewInside(list, i, a);
        RevivedPage(m, filled, n, from, to, disk, a);
      }
    }
  }

  lemma RevivedPage(m: Mapping, filled: Mapping, n: Mapping, from: nat, to: nat, disk: Disk, a: nat)
    requires WellFormed(m) && WellFormed(filled) && WellFormed(n) && Inside(m, a)
    requires from % PAGE == 0 && to % PAGE == 0 && from < to <= m.capacity
    requires NoneLive(m, from / PAGE, to / PAGE)
    requires Filled(m, filled, from / PAGE, to / PAGE) && Revived(filled, n, from / PAGE, to / PAGE)
    requires forall k :: from / PAGE <= k < to / PAGE ==> filled.data[k] == Fresh(m, disk, k)
    ensures !(from <= a - m.base < to) ==> Look(n, a) == Look(m, a)
    ensures from <= a - m.base < to && a % PAGE == 0 ==>
              Look(m, a) == None && Look(n, a) == Some(NewPage(m.file, m.offset + (a - m.base), m.protection, disk))
  {
    if a % PAGE == 0 {
      PageIndex(m, a);
      PageOrder(m, a, from, to);
    }
  }

  lemma TailIsGrowth(
    before: seq<Mapping>, after: seq<Mapping>, descriptors: nat, i: nat, start: nat, old_length: nat, new_length: nat,
        disk: Disk)
    requires Sound(before, descriptors) && AllWell(after) && i < |before| && HoldsLive(before[i], start, old_length)
    requires start % PAGE == 0 && old_length > 0 && old_length % PAGE == 0
    requires TailGrown(before, after, before[i], start - before[i].base + old_length,
                 start - before[i].base + new_length, disk)
    ensures GrowsInPlace(before, after, start, old_length, new_length, disk)
  {
    MovedFirst(before, i, start, old_length);
    hide View, Sound, HoldsLive;
  }

  /** A replacement mapping added: the old pages in order, then fresh ones. */
  lemma MovedIn(
    list: seq<Mapping>, descriptors: nat, i: nat, made: Mapping, replacement: Mapping,
    start: nat, old_length: nat, new_length: nat, disk: Disk)
    requires Sound(list, descriptors) && i < |list| && HoldsLive(list[i], start, old_length) && old_length > 0
    requires start % PAGE == 0 && old_length % PAGE == 0 && new_length % PAGE == 0 && old_length < new_length
    requires WellFormed(made) && Offers(list, made.base, made.capacity) && made.capacity == new_length
    requires made.file == list[i].file && made.offset == list[i].offset + (start - list[i].base)
    requires made.protection == list[i].protection
    requires made.active == new_length / PAGE && forall k :: 0 <= k < |made.live| ==> made.live[k]
    requires forall k :: old_length / PAGE <= k < new_length / PAGE ==> made.data[k] == Fresh(made, disk, k)
    requires replacement == CopyRange(list[i], made, start - list[i].base, old_length)
    ensures Sound([replacement] + list, descriptors + if made.file.Some? then 1 else 0)
    ensures MovedView(list, [replacement] + list, start, old_length, made.base, new_length, disk)
  {
    MovedApart(list, i, made, start, old_length);
    AddView(list, descriptors, replacement);
    MovedFirst(list, i, start, old_length);
    MovedPages(list, descriptors, i, made, replacement, start, old_length, disk);
    MovedSeen(list, [replacement] + list, made, replacement, start, old_length, disk);
  }

  /** The page map while both places exist, from what is known of the pages of the replacement. */
  lemma MovedSeen(
    before: seq<Mapping>, middle: seq<Mapping>, made: Mapping, replacement: Mapping,
    start: nat, old_length: nat, disk: Disk)
    requires AllWell(before) && AllWell(middle) && WellFormed(replacement)
    requires replacement == made.(data := replacement.data)
    requires forall a: nat ::
               View(middle, a) == if Inside(replacement, a) then Look(replacement, a) else View(before, a)
    requires forall a: nat :: made.base <= a < made.base + made.capacity ==> View(before, a) == None
    requires made.base + made.capacity <= start || start + old_length <= made.base
    requires View(before, start).Some? && View(before, start).value.file == made.file
    requires View(before, start).value.offset == made.offset && View(before, start).value.protection == made.protection
    requires PagesMoved(before, made, replacement, start, old_length, disk)
    ensures MovedView(before, middle, start, old_length, made.base, made.capacity, disk)
  {
    hide View, Look, WellFormed;
  }

  /** The pages of the old range in order, then fresh ones. */
  ghost predicate PagesMoved(
    list: seq<Mapping>, made: Mapping, replacement: Mapping, start: nat, old_length: nat, disk: Disk)
    requires AllWell(list) && WellFormed(replacement)
  {
    forall a: nat :: Inside(made, a) && a % PAGE == 0 ==>
      Look(replacement, a) ==
      if a < made.base + old_length then View(list, start + (a - made.base))
      else Some(NewPage(made.file, made.offset + (a - made.base), made.protection, disk))
  }

  lemma MovedFirst(list: seq<Mapping>, i: nat, start: nat, old_length: nat)
    requires AllWell(list) && Disjoint(list) && i < |list| && HoldsLive(list[i], start, old_length)
    requires start % PAGE == 0 && old_length % PAGE == 0 && old_length > 0
    ensures View(list, start).Some?
    ensures View(list, start).value.file == list[i].file && View(list, start).value.protection == list[i].protection
    ensures View(list, start).value.offset == list[i].offset + (start - list[i].base)
  {
    ViewInside(list, i, start);
    LivePage(list[i], start, old_length, start);
  }

  /** The storage offered for a move holds no page yet and lies apart from the old range. */
  lemma MovedApart(list: seq<Mapping>, i: nat, made: Mapping, start: nat, old_length: nat)
    requires AllWell(list) && i < |list| && Holds(list[i], start, old_length)
    requires Offers(list, made.base, made.capacity)
    ensures forall a: nat :: made.base <= a < made.base + made.capacity ==> View(list, a) == None
    ensures made.base + made.capacity <= start || start + old_length <= made.base
  {
    forall a: nat | made.base <= a < made.base + made.capacity
      ensures View(list, a) == None
    {
      ViewOutside(list, a);
    }
  }

  lemma MovedPage(
    list: seq<Mapping>, descriptors: nat, i: nat, made: Mapping, replacement: Mapping,
    start: nat, old_length: nat, disk: Disk, a: nat)
    requires Sound(list, descriptors) && i < |list| && HoldsLive(list[i], start, old_length) && old_length > 0
    requires start % PAGE == 0 && old_length % PAGE == 0 && WellFormed(made) && old_length < made.capacity
    requires made.file == list[i].file && made.offset == list[i].offset + (start - list[i].base)
    requires made.protection == list[i].protection
    requires forall k :: 0 <= k < |made.live| ==> made.live[k]
    requires forall k :: old_length / PAGE <= k < |made.live| ==> made.data[k] == Fresh(made, disk, k)
    requires replacement == CopyRange(list[i], made, start - list[i].base, old_length)
    requires Inside(made, a) && a % PAGE == 0
    ensures Look(replacement, a) ==
            if a < made.base + old_length then View(list, start + (a - made.base))
            else Some(NewPage(list[i].file, made.offset + (a - made.base), list[i].protection, disk))
  {
    var m := list[i];
    assert AllWell(list) && Disjoint(list) && WellFormed(m);
    hide Sound, View, WellFormed, CopyRange, HoldsLive;
    if a < made.base + old_length {
      CopiedIndex(m, made, start, old_length, a);
      CopiedPage(m, made, replacement, start, old_length, a);
      ViewInside(list, i, start + (a - made.base));
    } else {
      FreshTail(m, made, replacement, start, old_length, disk, a);
    }
  }

  lemma MovedPages(
    list: seq<Mapping>, descriptors: nat, i: nat, made: Mapping, replacement: Mapping,
    start: nat, old_length: nat, disk: Disk)
    requires Sound(list, descriptors) && i < |list| && HoldsLive(list[i], start, old_length) && old_length > 0
    requires start % PAGE == 0 && old_length % PAGE == 0 && WellFormed(made) && old_length < made.capacity
    requires made.file == list[i].file && made.offset == list[i].offset + (start - list[i].base)
    requires made.protection == list[i].protection
    requires forall k :: 0 <= k < |made.live| ==> made.live[k]
    requires forall k :: old_length / PAGE <= k < |made.live| ==> made.data[k] == Fresh(made, disk, k)
    requires replacement == CopyRange(list[i], made, start - list[i].base, old_length)
    ensures PagesMoved(list, made, replacement, start, old_length, disk)
  {
    assert AllWell(list) && WellFormed(list[i]);
    hide View, Look, WellFormed, CopyRange, Sound, HoldsLive;
    forall a: nat | Inside(made, a) && a % PAGE == 0
      ensures Look(replacement, a) ==
              if a < made.base + old_length then View(list, start + (a - made.base))
              else Some(NewPage(list[i].file, made.offset + (a - made.base), list[i].protection, disk))
    {
      MovedPage(list, descriptors, i, made, replacement, start, old_length, disk, a);
    }
  }

  /** Behind the copied pages the replacement holds its own fresh ones. */
  lemma FreshTail(
    m: Mapping, made: Mapping, replacement: Mapping, start: nat, old_length: nat, disk: Disk, a: nat)
    requires WellFormed(m) && WellFormed(made) && Holds(m, start, old_length) && old_length < made.capacity
    requires start % PAGE == 0 && old_length % PAGE == 0
    requires forall k :: 0 <= k < |made.live| ==> made.live[k]
    requires forall k :: old_length / PAGE <= k < |made.live| ==> made.data[k] == Fresh(made, disk, k)
    requires replacement == CopyRange(m, made, start - m.base, old_length)
    requires Inside(made, a) && a % PAGE == 0 && a >= made.base + old_length
    ensures Look(replacement, a) == Some(NewPage(made.file, made.offset + (a - made.base), made.protection, disk))
  {
    PageIndex(made, a);
    PageOrder(made, a, 0, old_length);
  }

  /** Where a page of the old range lies in both mappings. */
  lemma CopiedIndex(m: Mapping, made: Mapping, start: nat, old_length: nat, a: nat)
    requires WellFormed(m) && WellFormed(made) && HoldsLive(m, start, old_length) && old_length < made.capacity
    requires start % PAGE == 0 && old_length % PAGE == 0
    requires made.base <= a < made.base + old_length && a % PAGE == 0
    ensures var b := start + (a - made.base);
            var k := (a - made.base) / PAGE;
            && Inside(made, a) && k < |made.live| && k < old_length / PAGE
            && Look(m, b).Some? && (b - m.base) / PAGE == (start - m.base) / PAGE + k
  {
    PageIndex(made, a);
    PagesAdd(start - m.base, a - made.base, old_length);
    LivePage(m, start, old_length, start + (a - made.base));
  }

  lemma CopiedPage(m: Mapping, made: Mapping, replacement: Mapping, start: nat, old_length: nat, a: nat)
    requires WellFormed(m) && WellFormed(made) && HoldsLive(m, start, old_length) && old_length < made.capacity
    requires start % PAGE == 0 && old_length % PAGE == 0
    requires made.file == m.file && made.offset == m.offset + (start - m.base) && made.protection == m.protection
    requires forall k :: 0 <= k < |made.live| ==> made.live[k]
    requires replacement == CopyRange(m, made, start - m.base, old_length)
    requires made.base <= a < made.base + old_length && a % PAGE == 0
    ensures Look(replacement, a) == Look(m, start + (a - made.base))
  {
    hide WellFormed, AllLive, CopyRange;
    CopiedIndex(m, made, start, old_length, a);
    BaseAligned(m);
    CopiedAt(m, made, start - m.base, old_length, (a - made.base) / PAGE);
  }

  lemma BaseAligned(m: Mapping)
    requires WellFormed(m)
    ensures m.base % PAGE == 0
  {
  }

  lemma CopiedAt(m: Mapping, n: Mapping, relative: nat, length: nat, k: nat)
    requires WellFormed(m) && WellFormed(n) && relative + length <= m.capacity && length <= n.capacity
    requires relative % PAGE == 0 && length % PAGE == 0 && k < length / PAGE
    ensures relative / PAGE + k < |m.data|
    ensures var r := CopyRange(m, n, relative, length);
            && r == n.(data := r.data) && k < |r.data| && r.data[k] == m.data[relative / PAGE + k]
  {
  }

  lemma PagesAdd(x: nat, y: nat, length: nat)
    requires x % PAGE == 0 && y % PAGE == 0 && length % PAGE == 0 && y < length
    ensures (x + y) / PAGE == x / PAGE + y / PAGE && (x + length) / PAGE == x / PAGE + length / PAGE
    ensures y / PAGE < length / PAGE
  {
  }

  /** The page map while both places exist. */
  ghost predicate MovedView(
    before: seq<Mapping>, middle: seq<Mapping>, start: nat, old_length: nat, base: nat, new_length: nat, disk: Disk)
    requires AllWell(before) && AllWell(middle)
  {
    && (forall a: nat :: base <= a < base + new_length ==> View(before, a) == None)
    && (forall a: nat :: !(base <= a < base + new_length) ==> View(middle, a) == View(before, a))
    && View(before, start).Some?
    && (base + new_length <= start || start + old_length <= base)
    && var first := View(before, start).value;
       forall a: nat :: base <= a < base + new_length && a % PAGE == 0 ==>
         View(middle, a) == if a < base + old_length then View(before, start + (a - base))
                            else Some(NewPage(first.file, first.offset + (a - base), first.protection, disk))
  }

  lemma MovedOut(
    before: seq<Mapping>, middle: seq<Mapping>, after: seq<Mapping>,
    start: nat, old_length: nat, base: nat, new_length: nat, disk: Disk)
    requires AllWell(before) && AllWell(middle) && AllWell(after) && old_length < new_length
    requires MovedView(before, middle, start, old_length, base, new_length, disk)
    requires UnmapsRange(middle, after, start, start + old_length)
    ensures Moves(before, after, start, old_length, base, new_length, disk)
  {
  }

  /** What `__unmap` leaves is a sound registry without the pages of the range. */
  lemma UnmapKeeps(list: seq<Mapping>, descriptors: nat, address: nat, end: nat)
    requires Sound(list, descriptors)
    ensures Sound(UnmapAll(list, address, end), CountFiles(UnmapAll(list, address, end)))
    ensures UnmapsRange(list, UnmapAll(list, address, end), address, end)
  {
    UnmapSound(list, address, end);
    UnmapView(list, address, end);
    hide View, UnmapAll, WellFormed;
  }

  /** One turn of the walk, on the list and on what it will become. */
  lemma UnmapStep(list: seq<Mapping>, link: nat, address: nat, end: nat)
    requires link < |list|
    ensures var m := Retire(list[link], address, end);
            var dropped, kept := list[..link] + list[link + 1..], list[link := m];
            var total := list[..link] + UnmapAll(list[link..], address, end);
            && (m.active == 0 ==> total == dropped[..link] + UnmapAll(dropped[link..], address, end))
            && (m.active > 0 ==> total == kept[..link + 1] + UnmapAll(kept[link + 1..], address, end))
  {
    var m := Retire(list[link], address, end);
    var rest := list[link + 1..];
    assert list[link..][1..] == rest;
    assert (list[..link] + rest)[link..] == rest;
    assert list[link := m][link + 1..] == rest;
    assert list[link := m][..link + 1] == list[..link] + [m];
    assert list[..link] + ([m] + UnmapAll(rest, address, end)) == (list[..link] + [m]) + UnmapAll(rest, address, end);
  }

  lemma {:induction false} FilesPositive(list: seq<Mapping>, i: nat)
    requires i < |list|
    ensures list[i].file.Some? ==> CountFiles(list) > 0
  {
    if i > 0 {
      FilesPositive(list[1..], i - 1);
    }
  }

  lemma {:induction false} FilesRemove(list: seq<Mapping>, i: nat)
    requires i < |list|
    ensures CountFiles(list[..i] + list[i + 1..]) == CountFiles(list) - if list[i].file.Some? then 1 else 0
  {
    var next := list[..i] + list[i + 1..];
    if i == 0 {
      assert next == list[1..];
    } else {
      assert next[1..] == list[1..][..i - 1] + list[1..][i..];
      FilesRemove(list[1..], i - 1);
    }
  }

  /** Registering a freshly filled mapping. */
  lemma FreshAdded(list: seq<Mapping>, descriptors: nat, m: Mapping, disk: Disk)
    requires Sound(list, descriptors) && WellFormed(m) && Offers(list, m.base, m.capacity)
    requires m.active == m.capacity / PAGE
    requires forall i :: 0 <= i < |m.live| ==> m.live[i] && m.data[i] == Fresh(m, disk, i)
    ensures Sound([m] + list, descriptors + if m.file.Some? then 1 else 0)
    ensures MapsFresh(list, [m] + list, m.base, m.capacity, m.protection, m.file, m.offset, disk)
  {
    FreshLooks(m, disk);
    AddView(list, descriptors, m);
  }

  /** Every page of a freshly filled mapping is the file's page or zeros. */
  lemma FreshLooks(m: Mapping, disk: Disk)
    requires WellFormed(m) && forall i :: 0 <= i < |m.live| ==> m.live[i] && m.data[i] == Fresh(m, disk, i)
    ensures forall a: nat :: Inside(m, a) && a % PAGE == 0 ==>
              Look(m, a) == Some(NewPage(m.file, m.offset + (a - m.base), m.protection, disk))
  {
    forall a: nat | Inside(m, a) && a % PAGE == 0
      ensures Look(m, a) == Some(NewPage(m.file, m.offset + (a - m.base), m.protection, disk))
    {
      assert (a - m.base) / PAGE * PAGE == a - m.base;
    }
  }
}
