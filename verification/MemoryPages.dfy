/** Mappings and the page map they stand for (src/bridges/libc/memory.c:30-256, 421-446). */
module MemoryPages {
  import opened Common

  const PAGE := 4096
  const PTRDIFF_MAX := 0x7fff_ffff
  const UINTPTR_MAX := 0xffff_ffff
  const INT64_MAX := 0x7fff_ffff_ffff_ffff

  /** The contents of one page. */
  type Page = seq<int>

  const ZEROS: Page := seq(PAGE, _ => 0)

  /** An open file, kept alive by the mapping's own descriptor. */
  type File = nat

  /** What a positional read of one page returns, with zeros past the end of the file. */
  type Disk = (File, int) -> Page

  /** `pages` in the source is `live` here; `data` is the storage behind the mapping. */
  datatype Mapping = Mapping(
    base: nat, capacity: nat, active: nat, live: seq<bool>, data: seq<Page>,
    protection: bv32, file: Option<File>, offset: int)

  /** A live page as the guest knows it: its contents, where it would be filled from and what it may be used for. */
  datatype PageView = PageView(data: Page, file: Option<File>, offset: int, protection: bv32)

  function CountLive(live: seq<bool>): (n: nat)
    ensures n <= |live|
  {
    if live == [] then 0 else (if live[0] then 1 else 0) + CountLive(live[1..])
  }

  predicate WellFormed(m: Mapping) {
    && m.base % PAGE == 0 && m.base > 0 && m.capacity % PAGE == 0 && m.capacity > 0
    && m.base + m.capacity <= UINTPTR_MAX
    && |m.live| == m.capacity / PAGE && |m.data| == |m.live|
    && m.active == CountLive(m.live)
    && m.offset >= 0 && m.offset % PAGE == 0 && m.offset + m.capacity <= INT64_MAX
  }

  predicate Inside(m: Mapping, a: nat) {
    m.base <= a < m.base + m.capacity
  }

  /** The page of one mapping at a page address, if it is live. */
  function Look(m: Mapping, a: nat): Option<PageView>
    requires WellFormed(m)
  {
    if Inside(m, a) && a % PAGE == 0 && m.live[(a - m.base) / PAGE] then
      Some(PageView(m.data[(a - m.base) / PAGE], m.file, m.offset + (a - m.base), m.protection))
    else None
  }

  predicate AllWell(list: seq<Mapping>) {
    forall i :: 0 <= i < |list| ==> WellFormed(list[i])
  }

  /** The page map of a list of mappings. */
  function View(list: seq<Mapping>, a: nat): Option<PageView>
    requires AllWell(list)
  {
    if list == [] then None
    else if Look(list[0], a).Some? then Look(list[0], a)
    else View(list[1..], a)
  }

  /** Storage blocks never overlap, retired pages included. */
  predicate Apart(m: Mapping, n: Mapping) {
    m.base + m.capacity <= n.base || n.base + n.capacity <= m.base
  }

  ghost predicate Disjoint(list: seq<Mapping>) {
    forall i, j :: 0 <= i < j < |list| ==> Apart(list[i], list[j])
  }

  function CountFiles(list: seq<Mapping>): nat {
    if list == [] then 0 else (if list[0].file.Some? then 1 else 0) + CountFiles(list[1..])
  }

  /** The registry invariant. A mapping is kept exactly while it has a live page, and every
      file-backed mapping owns one descriptor. */
  ghost predicate Sound(list: seq<Mapping>, descriptors: nat) {
    && AllWell(list)
    && Disjoint(list)
    && (forall i :: 0 <= i < |list| ==> list[i].active > 0)
    && descriptors == CountFiles(list)
  }

  // ---------------------------------------------------------------- counting and lookup

  lemma {:induction false} CountUpdate(live: seq<bool>, i: nat, b: bool)
    requires i < |live|
    ensures CountLive(live[i := b]) == CountLive(live) - (if live[i] then 1 else 0) + (if b then 1 else 0)
  {
    if i == 0 {
      assert live[0 := b][1..] == live[1..];
    } else {
      assert live[i := b][1..] == live[1..][i - 1 := b];
      CountUpdate(live[1..], i - 1, b);
    }
  }

  lemma {:induction false} CountPositive(live: seq<bool>, i: nat)
    requires i < |live| && live[i]
    ensures CountLive(live) > 0
  {
    if i > 0 {
      CountPositive(live[1..], i - 1);
    }
  }

  lemma {:induction false} CountZero(live: seq<bool>)
    requires CountLive(live) == 0
    ensures forall i :: 0 <= i < |live| ==> !live[i]
  {
    forall i | 0 <= i < |live|
      ensures !live[i]
    {
      if live[i] {
        CountPositive(live, i);
      }
    }
  }

  lemma {:induction false} CountAll(n: nat)
    ensures CountLive(seq(n, _ => true)) == n
  {
    if n > 0 {
      assert seq(n, _ => true)[1..] == seq(n - 1, _ => true);
      CountAll(n - 1);
    }
  }

  /** Inside one mapping's storage the page map is that mapping's. */
  lemma {:induction false} ViewInside(list: seq<Mapping>, i: nat, a: nat)
    requires AllWell(list) && Disjoint(list) && i < |list| && Inside(list[i], a)
    ensures View(list, a) == Look(list[i], a)
  {
    if i > 0 {
      assert Apart(list[0], list[i]);
      ViewInside(list[1..], i - 1, a);
    } else if Look(list[0], a).None? {
      ViewOutside(list[1..], a);
    }
  }

  lemma {:induction false} ViewOutside(list: seq<Mapping>, a: nat)
    requires AllWell(list) && forall i :: 0 <= i < |list| ==> !Inside(list[i], a)
    ensures View(list, a) == None
  {
    if list != [] {
      ViewOutside(list[1..], a);
    }
  }

  /** Replacing one mapping changes the page map inside its storage only. */
  lemma {:induction false} ViewUpdate(list: seq<Mapping>, i: nat, m: Mapping, a: nat)
    requires AllWell(list) && Disjoint(list) && i < |list| && WellFormed(m)
    requires m.base == list[i].base && m.capacity == list[i].capacity
    ensures AllWell(list[i := m]) && Disjoint(list[i := m])
    ensures View(list[i := m], a) == if Inside(m, a) then Look(m, a) else View(list, a)
  {
    var next := list[i := m];
    forall j, k | 0 <= j < k < |next|
      ensures Apart(next[j], next[k])
    {
      assert Apart(list[j], list[k]);
    }
    if Inside(m, a) {
      ViewInside(next, i, a);
    } else {
      ViewSkips(list, i, m, a);
    }
  }

  lemma {:induction false} ViewSkips(list: seq<Mapping>, i: nat, m: Mapping, a: nat)
    requires AllWell(list) && i < |list| && WellFormed(m) && !Inside(m, a) && !Inside(list[i], a)
    ensures View(list[i := m], a) == View(list, a)
  {
    if i == 0 {
      assert list[i := m][1..] == list[1..];
    } else {
      assert list[i := m][1..] == list[1..][i - 1 := m];
      ViewSkips(list[1..], i - 1, m, a);
    }
  }

  lemma {:induction false} FilesUpdate(list: seq<Mapping>, i: nat, m: Mapping)
    requires i < |list| && m.file == list[i].file
    ensures CountFiles(list[i := m]) == CountFiles(list)
  {
    if i == 0 {
      assert list[i := m][1..] == list[1..];
    } else {
      assert list[i := m][1..] == list[1..][i - 1 := m];
      FilesUpdate(list[1..], i - 1, m);
    }
  }

  // ---------------------------------------------------------------- retiring pages

  /** A mapping with its pages in [address, end) retired. */
  function Retire(m: Mapping, address: nat, end: nat): Mapping {
    var live := seq(|m.live|, i requires 0 <= i < |m.live| => m.live[i] && !(address <= m.base + i * PAGE < end));
    m.(live := live, active := CountLive(live))
  }

  /** The list `__unmap` leaves: pages retired, mappings without a live page dropped. */
  function UnmapAll(list: seq<Mapping>, address: nat, end: nat): seq<Mapping> {
    if list == [] then []
    else
      var m := Retire(list[0], address, end);
      (if m.active == 0 then [] else [m]) + UnmapAll(list[1..], address, end)
  }

  lemma RetireLook(m: Mapping, address: nat, end: nat, a: nat)
    requires WellFormed(m)
    ensures WellFormed(Retire(m, address, end)) && Retire(m, address, end).file == m.file
    ensures Look(Retire(m, address, end), a) == if address <= a < end then None else Look(m, a)
    ensures Retire(m, address, end).active == 0 ==> Look(Retire(m, address, end), a) == None
  {
    var r := Retire(m, address, end);
    if Inside(m, a) && a % PAGE == 0 {
      assert m.base + (a - m.base) / PAGE * PAGE == a;
    }
    if r.active == 0 {
      CountZero(r.live);
    }
  }

  /** Unmapping removes exactly the pages in the range, and keeps the registry sound. */
  lemma {:induction false} UnmapView(list: seq<Mapping>, address: nat, end: nat)
    requires AllWell(list)
    ensures AllWell(UnmapAll(list, address, end))
    ensures forall a: nat :: View(UnmapAll(list, address, end), a) == if address <= a < end then None else View(list, a)
  {
    if list != [] {
      var m := Retire(list[0], address, end);
      var rest := UnmapAll(list[1..], address, end);
      UnmapView(list[1..], address, end);
      forall a: nat
        ensures View(UnmapAll(list, address, end), a) == if address <= a < end then None else View(list, a)
      {
        RetireLook(list[0], address, end, a);
        assert ([m] + rest)[1..] == rest;
        if m.active == 0 {
          assert [] + rest == rest;
        }
      }
      RetireLook(list[0], address, end, 0);
    }
  }

  /** Every mapping left by an unmap is one of the old ones, in the same storage. */
  lemma {:induction false} UnmapOrigin(list: seq<Mapping>, address: nat, end: nat, j: nat) returns (i: nat)
    requires j < |UnmapAll(list, address, end)|
    ensures i < |list| && UnmapAll(list, address, end)[j] == Retire(list[i], address, end)
    ensures Retire(list[i], address, end).active > 0 && j <= i
    ensures forall k :: 0 <= k < j ==>
              exists h :: 0 <= h < i && UnmapAll(list, address, end)[k] == Retire(list[h], address, end)
  {
    hide Retire, CountLive;
    var m := Retire(list[0], address, end);
    var rest := UnmapAll(list[1..], address, end);
    if m.active > 0 && j == 0 {
      i := 0;
    } else {
      var off := if m.active == 0 then 0 else 1;
      var i' := UnmapOrigin(list[1..], address, end, j - off);
      i := i' + 1;
      forall k | 0 <= k < j
        ensures exists h :: 0 <= h < i && UnmapAll(list, address, end)[k] == Retire(list[h], address, end)
      {
        if k < off {
          assert UnmapAll(list, address, end)[k] == Retire(list[0], address, end);
        } else {
          var h :| 0 <= h < i' && rest[k - off] == Retire(list[1..][h], address, end);
          assert UnmapAll(list, address, end)[k] == Retire(list[h + 1], address, end);
        }
      }
    }
  }

  lemma {:induction false} UnmapSound(list: seq<Mapping>, address: nat, end: nat)
    requires AllWell(list) && Disjoint(list)
    ensures Sound(UnmapAll(list, address, end), CountFiles(UnmapAll(list, address, end)))
  {
    var next := UnmapAll(list, address, end);
    UnmapView(list, address, end);
    forall j | 0 <= j < |next|
      ensures next[j].active > 0
    {
      var _ := UnmapOrigin(list, address, end, j);
    }
    forall j, k | 0 <= j < k < |next|
      ensures Apart(next[j], next[k])
    {
      var i := UnmapOrigin(list, address, end, k);
      var h :| 0 <= h < i && next[j] == Retire(list[h], address, end);
      assert Apart(list[h], list[i]);
    }
  }

  // ---------------------------------------------------------------- filling pages

  /** What `__populate` puts into page `i`: file contents or zeros. */
  function Fresh(m: Mapping, disk: Disk, i: int): Page {
    if m.file.Some? then disk(m.file.value, m.offset + i * PAGE) else ZEROS
  }

  /** A page without a file holds a zero in every byte. */
  lemma FreshIsZero(m: Mapping, disk: Disk, i: int)
    requires m.file.None?
    ensures |Fresh(m, disk, i)| == 4096 && forall k :: 0 <= k < 4096 ==> Fresh(m, disk, i)[k] == 0
  {
  }
}
