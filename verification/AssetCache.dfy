/** The cache of directory names (src/bridges/android/asset_cache.c): transparent over a fixed set of directories,
    and a least-recently-used cache of folders under concurrent loads. */
module AssetCache {
  import opened Common

  const CACHE_FOLDERS := 16
  const CACHE_NAMES := 4096
  const CACHE_BYTES := 64 * 1024
  const PATH_LIMIT := 1024

  /** A directory while the program runs: its entries, nothing, or no answer. */
  datatype Listing = Entries(names: seq<CString>) | Missing | Unreadable

  /** The directories, and how names compare: as they are, or with their case folded. */
  datatype Disk = Disk(list: CString -> Listing, fold: CString -> CString)

  predicate Dots(name: CString) {
    name == "." || name == ".."
  }

  /** The names of a directory without its own and its parent's. */
  function Proper(names: seq<CString>): (r: seq<CString>)
    ensures forall n :: n in r <==> n in names && !Dots(n)
    ensures |r| <= |names|
  {
    if names == [] then []
    else
      var rest := Proper(names[..|names| - 1]);
      var last := names[|names| - 1];
      assert names == names[..|names| - 1] + [last];
      if Dots(last) then rest else rest + [last]
  }

  /** The complete set of names of a folder, when there is one. */
  function Snapshot(disk: Disk, path: CString): Option<seq<CString>> {
    match disk.list(path)
    case Entries(names) => Some(Proper(names))
    case Missing => Some([])
    case Unreadable => None
  }

  predicate HasName(disk: Disk, names: seq<CString>, name: CString) {
    exists k :: 0 <= k < |names| && disk.fold(names[k]) == disk.fold(name)
  }

  // ---------------------------------------------------------------- recency

  function Without(paths: seq<CString>, p: CString): (r: seq<CString>)
    ensures forall q :: q in r <==> q in paths && q != p
    ensures |r| <= |paths|
  {
    if paths == [] then []
    else
      var rest := Without(paths[..|paths| - 1], p);
      var last := paths[|paths| - 1];
      assert paths == paths[..|paths| - 1] + [last];
      if last == p then rest else rest + [last]
  }

  /** A cache of sixteen, most recent first: what is used moves to the front, and the last one makes room. */
  function Access(recent: seq<CString>, p: CString): seq<CString> {
    if p in recent then [p] + Without(recent, p)
    else if |recent| == CACHE_FOLDERS then [p] + recent[..CACHE_FOLDERS - 1]
    else [p] + recent
  }

  predicate Distinct<T(==)>(s: seq<T>) {
    forall i, j :: 0 <= i < j < |s| ==> s[i] != s[j]
  }

  lemma {:induction false} WithoutAt(paths: seq<CString>, k: nat)
    requires k < |paths| && Distinct(paths)
    ensures Without(paths, paths[k]) == paths[..k] + paths[k + 1..]
    decreases |paths|
  {
    var n := |paths| - 1;
    if k < n {
      WithoutAt(paths[..n], k);
      assert paths[..n][..k] == paths[..k];
      assert paths[k + 1..] == paths[..n][k + 1..] + [paths[n]];
    } else {
      WithoutAbsent(paths[..n], paths[n]);
      assert paths[n + 1..] == [];
    }
  }

  lemma {:induction false} WithoutAbsent(paths: seq<CString>, p: CString)
    requires p !in paths
    ensures Without(paths, p) == paths
  {
    if paths != [] {
      WithoutAbsent(paths[..|paths| - 1], p);
    }
  }

  // ---------------------------------------------------------------- slots

  datatype Folder = Folder(path: CString, names: seq<CString>, used: nat)

  /** `order` lists the filled slots, the most recently used first. */
  ghost predicate Ordered(slots: seq<Option<Folder>>, order: seq<nat>) {
    && Distinct(order)
    && (forall k :: 0 <= k < |order| ==> order[k] < |slots| && slots[order[k]].Some?)
    && (forall i :: 0 <= i < |slots| && slots[i].Some? ==> i in order)
    && (forall j, k :: 0 <= j < k < |order| ==> slots[order[j]].value.used > slots[order[k]].value.used)
  }

  function Paths(slots: seq<Option<Folder>>, order: seq<nat>): (r: seq<CString>)
    requires forall k :: 0 <= k < |order| ==> order[k] < |slots| && slots[order[k]].Some?
    ensures |r| == |order|
  {
    seq(|order|, k requires 0 <= k < |order| => slots[order[k]].value.path)
  }

  /** Every cached folder is a complete snapshot, and no path is cached twice. */
  ghost predicate Faithful(disk: Disk, slots: seq<Option<Folder>>, serial: nat) {
    && |slots| == CACHE_FOLDERS
    && (forall i :: 0 <= i < |slots| && slots[i].Some? ==>
          Snapshot(disk, slots[i].value.path) == Some(slots[i].value.names) && slots[i].value.used <= serial)
    && (forall i, j :: 0 <= i < j < |slots| && slots[i].Some? && slots[j].Some? ==>
          slots[i].value.path != slots[j].value.path)
  }

  lemma MovedIndex(order: seq<nat>, k: nat)
    requires k < |order| && Distinct(order)
    ensures var moved := Moved(order, k);
            Distinct(moved) && |moved| == |order| && moved[0] == order[k] &&
            (forall p :: 0 < p <= k ==> moved[p] == order[p - 1]) &&
            forall p :: k < p < |order| ==> moved[p] == order[p]
    ensures forall i :: i in order ==> i in Moved(order, k)
  {
    var moved := Moved(order, k);
    forall i | i in order
      ensures i in moved
    {
      var p :| 0 <= p < |order| && order[p] == i;
      assert p < k ==> moved[p + 1] == i;
      assert p > k ==> moved[p] == i;
      assert moved[0] == order[k];
    }
  }

  /** The order with its `k`-th slot moved to the front. */
  function Moved(order: seq<nat>, k: nat): seq<nat>
    requires k < |order|
  {
    [order[k]] + order[..k] + order[k + 1..]
  }

  lemma {:induction false} Pigeonhole(order: seq<nat>, n: nat)
    requires Distinct(order) && forall k :: 0 <= k < |order| ==> order[k] < n
    ensures |order| <= n
    ensures |order| == n ==> forall i :: 0 <= i < n ==> i in order
    decreases n
  {
    assert |order| > 0 ==> order[0] < n;
    if n > 0 {
      if k :| 0 <= k < |order| && order[k] == n - 1 {
        MovedIndex(order, k);
        var rest := Moved(order, k)[1..];
        assert forall p :: 0 <= p < |rest| ==> rest[p] == Moved(order, k)[p + 1];
        Pigeonhole(rest, n - 1);
        forall i | |order| == n && 0 <= i < n
          ensures i in order
        {
          if i < n - 1 {
            assert i in rest;
          }
        }
      } else {
        Pigeonhole(order, n - 1);
      }
    }
  }

  function Used(slots: seq<Option<Folder>>, i: nat, serial: nat): (r: seq<Option<Folder>>)
    requires i < |slots| && slots[i].Some?
    ensures |r| == |slots|
  {
    slots[i := Some(slots[i].value.(used := serial + 1))]
  }

  lemma TouchOrdered(disk: Disk, slots: seq<Option<Folder>>, order: seq<nat>, serial: nat, k: nat)
    requires Faithful(disk, slots, serial) && Ordered(slots, order) && k < |order|
    ensures Ordered(Used(slots, order[k], serial), Moved(order, k))
  {
    var next, moved := Used(slots, order[k], serial), Moved(order, k);
    MovedIndex(order, k);
    hide Moved;
    forall p | 0 <= p < |moved|
      ensures moved[p] < |next| && next[moved[p]].Some?
      ensures p > 0 ==> next[moved[p]] == slots[order[if p <= k then p - 1 else p]]
    {
      assert p > 0 ==> moved[p] != moved[0];
    }
  }

  predicate Filled(slots: seq<Option<Folder>>, order: seq<nat>) {
    forall k :: 0 <= k < |order| ==> order[k] < |slots| && slots[order[k]].Some?
  }

  lemma UsedPaths(slots: seq<Option<Folder>>, order: seq<nat>, i: nat, serial: nat)
    requires Filled(slots, order) && i < |slots| && slots[i].Some?
    ensures Filled(Used(slots, i, serial), order) && Paths(Used(slots, i, serial), order) == Paths(slots, order)
  {
  }

  lemma MovedPaths(slots: seq<Option<Folder>>, order: seq<nat>, k: nat)
    requires Filled(slots, order) && k < |order|
    ensures Filled(slots, Moved(order, k))
    ensures var paths := Paths(slots, order);
            Paths(slots, Moved(order, k)) == [paths[k]] + (paths[..k] + paths[k + 1..])
  {
  }

  lemma TouchPaths(disk: Disk, slots: seq<Option<Folder>>, order: seq<nat>, serial: nat, k: nat)
    requires Faithful(disk, slots, serial) && Ordered(slots, order) && k < |order|
    requires Filled(Used(slots, order[k], serial), Moved(order, k))
    ensures Paths(Used(slots, order[k], serial), Moved(order, k)) ==
            Access(Paths(slots, order), slots[order[k]].value.path)
  {
    var paths := Paths(slots, order);
    assert paths[k] == slots[order[k]].value.path;
    PathsDistinct(disk, slots, order, serial);
    hide Faithful, Ordered, Moved, Used, Distinct, Without;
    WithoutAt(paths, k);
    MovedPaths(slots, order, k);
    UsedPaths(slots, Moved(order, k), order[k], serial);
  }

  /** Using a filled slot. */
  lemma TouchKeeps(disk: Disk, slots: seq<Option<Folder>>, order: seq<nat>, serial: nat, k: nat)
    requires Faithful(disk, slots, serial) && Ordered(slots, order) && k < |order|
    ensures var next, moved := Used(slots, order[k], serial), Moved(order, k);
            && Faithful(disk, next, serial + 1) && Ordered(next, moved)
            && Paths(next, moved) == Access(Paths(slots, order), slots[order[k]].value.path)
  {
    TouchOrdered(disk, slots, order, serial, k);
    TouchPaths(disk, slots, order, serial, k);
    hide Ordered, Moved, Paths, Access;
  }

  lemma PathsDistinct(disk: Disk, slots: seq<Option<Folder>>, order: seq<nat>, serial: nat)
    requires Faithful(disk, slots, serial) && Ordered(slots, order)
    ensures Distinct(Paths(slots, order))
  {
  }

  lemma OrderFits(slots: seq<Option<Folder>>, order: seq<nat>)
    requires Ordered(slots, order) && |slots| == CACHE_FOLDERS
    ensures |Paths(slots, order)| <= CACHE_FOLDERS
  {
    Pigeonhole(order, CACHE_FOLDERS);
  }

  /** Filling an empty slot with a path that is not cached. */
  lemma FillKeeps(disk: Disk, slots: seq<Option<Folder>>, order: seq<nat>, serial: nat, i: nat, f: Folder)
    requires Faithful(disk, slots, serial) && Ordered(slots, order) && i < |slots| && slots[i].None?
    requires Snapshot(disk, f.path) == Some(f.names) && f.path !in Paths(slots, order)
    ensures var next, more := slots[i := Some(f.(used := serial + 1))], [i] + order;
            && Faithful(disk, next, serial + 1) && Ordered(next, more)
            && Paths(next, more) == Access(Paths(slots, order), f.path)
  {
    var next, more := slots[i := Some(f.(used := serial + 1))], [i] + order;
    NotCached(slots, order, f.path);
    assert i !in order;
    forall p | 0 < p < |more|
      ensures more[p] == order[p - 1] && next[more[p]] == slots[order[p - 1]]
    {
    }
    Pigeonhole(order, CACHE_FOLDERS);
    assert Paths(next, more) == [f.path] + Paths(slots, order);
  }

  lemma NotCached(slots: seq<Option<Folder>>, order: seq<nat>, path: CString)
    requires Ordered(slots, order) && path !in Paths(slots, order)
    ensures forall i :: 0 <= i < |slots| && slots[i].Some? ==> slots[i].value.path != path
  {
    forall i | 0 <= i < |slots| && slots[i].Some?
      ensures slots[i].value.path != path
    {
      var k :| 0 <= k < |order| && order[k] == i;
      assert Paths(slots, order)[k] == slots[i].value.path;
    }
  }

  /** With every slot filled, the least recently used one makes room. */
  lemma EvictKeeps(disk: Disk, slots: seq<Option<Folder>>, order: seq<nat>, serial: nat, f: Folder)
    requires Faithful(disk, slots, serial) && Ordered(slots, order) && |order| == CACHE_FOLDERS
    requires Snapshot(disk, f.path) == Some(f.names) && f.path !in Paths(slots, order)
    ensures var i := order[|order| - 1];
            var next, more := slots[i := Some(f.(used := serial + 1))], [i] + order[..|order| - 1];
            && Faithful(disk, next, serial + 1) && Ordered(next, more)
            && Paths(next, more) == Access(Paths(slots, order), f.path)
  {
    var n := |order| - 1;
    var i := order[n];
    var emptied := slots[i := None];
    var rest := order[..n];
    assert Ordered(emptied, rest) by {
      forall j | 0 <= j < |emptied| && emptied[j].Some?
        ensures j in rest
      {
        var k :| 0 <= k < |order| && order[k] == j;
        assert k < n && rest[k] == j;
      }
    }
    assert Paths(emptied, rest) == Paths(slots, order)[..n];
    FillKeeps(disk, emptied, rest, serial, i, f);
    assert emptied[i := Some(f.(used := serial + 1))] == slots[i := Some(f.(used := serial + 1))];
    assert f.path !in Paths(slots, order)[..n];
  }

  lemma {:induction false} Covers(order: seq<nat>, n: nat)
    requires Distinct(order) && forall i :: 0 <= i < n ==> i in order
    ensures |order| >= n
    decreases n
  {
    if n > 0 {
      assert n - 1 in order;
      var k :| 0 <= k < |order| && order[k] == n - 1;
      MovedIndex(order, k);
      var moved := Moved(order, k);
      var rest := moved[1..];
      forall i | 0 <= i < n - 1
        ensures i in rest
      {
        assert i in moved;
        var p :| 0 <= p < |moved| && moved[p] == i;
        assert rest[p - 1] == i;
      }
      Covers(rest, n - 1);
    }
  }

  /** With every slot filled, the last slot of the order is the one with the least serial. */
  lemma OldestIsLast(slots: seq<Option<Folder>>, order: seq<nat>)
    requires |slots| == CACHE_FOLDERS && Ordered(slots, order) && forall i :: 0 <= i < |slots| ==> slots[i].Some?
    ensures |order| == CACHE_FOLDERS
    ensures forall i :: 0 <= i < |slots| && i != order[|order| - 1] ==>
                          slots[i].value.used > slots[order[|order| - 1]].value.used
  {
    Covers(order, CACHE_FOLDERS);
    Pigeonhole(order, CACHE_FOLDERS);
    forall i | 0 <= i < |slots| && i != order[|order| - 1]
      ensures slots[i].value.used > slots[order[|order| - 1]].value.used
    {
      assert slots[i].Some? && i in order;
      var k :| 0 <= k < |order| && order[k] == i;
    }
  }

  /** Where a slot stands in the order. */
  ghost function Where(order: seq<nat>, slot: nat): (k: nat)
    requires slot in order
    ensures k < |order| && order[k] == slot
  {
    var k :| 0 <= k < |order| && order[k] == slot;
    k
  }

  lemma FilledSlots(disk: Disk, slots: seq<Option<Folder>>, order: seq<nat>, serial: nat)
    requires Faithful(disk, slots, serial) && Ordered(slots, order)
    ensures |slots| == CACHE_FOLDERS && Filled(slots, order)
  {
  }

  /** A path no slot holds is not cached. */
  lemma NotFound(slots: seq<Option<Folder>>, order: seq<nat>, path: CString)
    requires Ordered(slots, order)
    requires forall i :: 0 <= i < |slots| && slots[i].Some? ==> slots[i].value.path != path
    ensures path !in Paths(slots, order)
  {
  }

  /** A slot that was found is used, and holds a snapshot. */
  lemma FoundKeeps(disk: Disk, slots: seq<Option<Folder>>, order: seq<nat>, serial: nat, i: nat)
    requires Faithful(disk, slots, serial) && Ordered(slots, order) && i < |slots| && slots[i].Some?
    ensures i in order && slots[i].value.path in Paths(slots, order)
    ensures Snapshot(disk, slots[i].value.path) == Some(slots[i].value.names)
    ensures var next, moved := Used(slots, i, serial), Moved(order, Where(order, i));
            && Faithful(disk, next, serial + 1) && Ordered(next, moved)
            && Paths(next, moved) == Access(Paths(slots, order), slots[i].value.path)
  {
    var k := Where(order, i);
    assert Paths(slots, order)[k] == slots[i].value.path;
    TouchKeeps(disk, slots, order, serial, k);
    hide Access, Moved, Used;
  }

  lemma InstallKeeps(disk: Disk, slots: seq<Option<Folder>>, order: seq<nat>, serial: nat, i: nat, f: Folder)
    requires Faithful(disk, slots, serial) && Ordered(slots, order) && i < |slots| == CACHE_FOLDERS
    requires Snapshot(disk, f.path) == Some(f.names) && f.path !in Paths(slots, order)
    requires slots[i].Some? ==>
               forall j :: 0 <= j < |slots| ==> slots[j].Some? && slots[i].value.used <= slots[j].value.used
    ensures slots[i].Some? ==> |order| > 0
    ensures var next := slots[i := Some(f.(used := serial + 1))];
            var more := [i] + if slots[i].None? then order else order[..|order| - 1];
            && Faithful(disk, next, serial + 1) && Ordered(next, more)
            && Paths(next, more) == Access(Paths(slots, order), f.path)
  {
    if slots[i].None? {
      FillKeeps(disk, slots, order, serial, i, f);
    } else {
      OldestIsLast(slots, order);
      EvictKeeps(disk, slots, order, serial, f);
      assert i == order[|order| - 1];
    }
    hide Faithful, Access;
  }

  // ---------------------------------------------------------------- the code

  function Bytes(names: seq<CString>): nat {
    if names == [] then 0 else Bytes(names[..|names| - 1]) + |names[|names| - 1]| + 1
  }

  /** A directory small enough to be cached. */
  predicate Fits(names: seq<CString>) {
    |names| <= CACHE_NAMES && Bytes(names) <= CACHE_BYTES
  }

  lemma {:induction false} BytesGrow(names: seq<CString>, n: nat)
    requires n <= |names|
    ensures Proper(names[..n]) <= Proper(names) && Bytes(Proper(names[..n])) <= Bytes(Proper(names))
    decreases |names|
  {
    if n < |names| {
      BytesGrow(names[..|names| - 1], n);
      assert names[..|names| - 1][..n] == names[..n];
      var p := Proper(names[..|names| - 1]);
      assert (p + [names[|names| - 1]])[..|p|] == p;
    } else {
      assert names[..n] == names;
    }
  }

  lemma NothingRead(names: seq<CString>)
    ensures Proper(names[..0]) == [] && Bytes([]) == 0
  {
  }

  lemma OneMoreName(names: seq<CString>, n: nat)
    requires n < |names|
    ensures var p, name := Proper(names[..n]), names[n];
            && Proper(names[..n + 1]) == (if Dots(name) then p else p + [name])
            && Bytes(p + [name]) == Bytes(p) + |name| + 1
            && (!Dots(name) && (|p| == CACHE_NAMES || Bytes(p) + |name| + 1 > CACHE_BYTES) ==> !Fits(Proper(names)))
  {
    var p, name := Proper(names[..n]), names[n];
    assert names[..n + 1][..n] == names[..n];
    assert (p + [name])[..|p|] == p;
    BytesGrow(names, n + 1);
  }

  /** The parent directory and the name, when the path has both and the parent is short enough. */
  function Split(path: CString): Option<(CString, CString)> {
    var k := LastSlash(path);
    if k == |path| || k + 1 == |path| || k == 0 || k >= PATH_LIMIT then None
    else Some((path[..k], path[k + 1..]))
  }

  /** `strrchr(path, '/')`, or the length of the path. */
  function LastSlash(path: CString): (k: nat)
    ensures k <= |path|
    ensures k < |path| ==> path[k] == '/' && forall i :: k < i < |path| ==> path[i] != '/'
    ensures k == |path| ==> '/' !in path
  {
    if path == "" then 0
    else if path[|path| - 1] == '/' then |path| - 1
    else
      var rest: CString := path[..|path| - 1];
      var k := LastSlash(rest);
      assert path == rest + [path[|path| - 1]];
      if k == |rest| then |path| else k
  }

  // ---------------------------------------------------------------- many callers

  /** A critical section of some thread: the first of a call, the second one of a call that found no folder, with the
      directory read in between, or a clearing. */
  datatype Turn = Begin(thread: nat, path: CString) | Finish(thread: nat, memory: bool) | Flush

  /** What was cached most recently, and the parent and name of every call between its sections. */
  datatype Progress = Progress(recent: seq<CString>, waiting: map<nat, (CString, CString)>)

  /** A thread is in one call at a time, and finishes only a call that waits. */
  predicate Enabled(p: Progress, turn: Turn) {
    match turn
    case Begin(t, _) => t !in p.waiting
    case Finish(t, _) => t in p.waiting
    case Flush => true
  }

  predicate Loadable(disk: Disk, path: CString, memory: bool) {
    memory && Snapshot(disk, path).Some? && Fits(Snapshot(disk, path).value)
  }

  function Next(disk: Disk, p: Progress, turn: Turn): Progress
    requires Enabled(p, turn)
  {
    match turn
    case Begin(t, path) =>
      if Split(path).None? then p
      else if Split(path).value.0 in p.recent then p.(recent := Access(p.recent, Split(path).value.0))
      else p.(waiting := p.waiting[t := Split(path).value])
    case Finish(t, memory) =>
      var recent := if Loadable(disk, p.waiting[t].0, memory) then Access(p.recent, p.waiting[t].0) else p.recent;
      Progress(recent, p.waiting - {t})
    case Flush => p.(recent := [])
  }

  /** The question a turn answers, if it does: a path without a parent or a name is one of its own. */
  function Asks(p: Progress, turn: Turn): Option<(CString, CString)>
    requires Enabled(p, turn)
  {
    match turn
    case Begin(_, path) =>
      if Split(path).None? then Some((path, ""))
      else if Split(path).value.0 in p.recent then Split(path)
      else None
    case Finish(t, _) => Some(p.waiting[t])
    case Flush => None
  }

  predicate AllEnabled(disk: Disk, p: Progress, turns: seq<Turn>)
    decreases |turns|
  {
    turns == [] || (Enabled(p, turns[0]) && AllEnabled(disk, Next(disk, p, turns[0]), turns[1..]))
  }

  function After(disk: Disk, p: Progress, turns: seq<Turn>): Progress
    requires AllEnabled(disk, p, turns)
    decreases |turns|
  {
    if turns == [] then p else After(disk, Next(disk, p, turns[0]), turns[1..])
  }

  function Questions(disk: Disk, p: Progress, turns: seq<Turn>): (r: seq<Option<(CString, CString)>>)
    requires AllEnabled(disk, p, turns)
    ensures |r| == |turns|
    decreases |turns|
  {
    if turns == [] then [] else [Asks(p, turns[0])] + Questions(disk, Next(disk, p, turns[0]), turns[1..])
  }

  /** An answer to a question, from a folder or without one. */
  datatype Answer = Answer(parent: CString, name: CString, folder: bool, found: bool)

  /** With a folder the answer is the directory's own, and without one nothing is ruled out. */
  ghost predicate Truthful(disk: Disk, a: Answer) {
    if a.folder then Snapshot(disk, a.parent).Some? && a.found == HasName(disk, Snapshot(disk, a.parent).value, a.name)
    else a.found
  }

  /** A turn that answers a question does so truthfully. */
  ghost predicate Answers(disk: Disk, question: Option<(CString, CString)>, answer: Option<Answer>) {
    && (question.Some? <==> answer.Some?)
    && (answer.Some? ==> (answer.value.parent, answer.value.name) == question.value && Truthful(disk, answer.value))
  }

  class Cache {
    const disk: Disk
    var slots: array<Option<Folder>>
    var serial: nat
    ghost var order: seq<nat>

    ghost predicate Valid()
      reads this, slots
    {
      Faithful(disk, slots[..], serial) && Ordered(slots[..], order)
    }

    /** The cached paths, most recently used first. */
    ghost function Recent(): seq<CString>
      reads this, slots
      requires Valid()
    {
      Paths(slots[..], order)
    }

    constructor (d: Disk)
      ensures Valid() && disk == d && Recent() == [] && fresh(slots)
    {
      disk := d;
      slots := new Option<Folder>[CACHE_FOLDERS](_ => None);
      serial, order := 0, [];
    }

    /** The reading loop of `__load` with `__append` (lines 105-122): no names when a limit is passed. */
    method ReadNames(entries: seq<CString>) returns (names: Option<seq<CString>>)
      ensures names == if Fits(Proper(entries)) then Some(Proper(entries)) else None
    {
      hide Proper, Bytes;
      var list: seq<CString>, bytes: nat, i := [], 0, 0;
      NothingRead(entries);
      while i < |entries|
        invariant 0 <= i <= |entries|
        invariant list == Proper(entries[..i]) && bytes == Bytes(list) && |list| <= CACHE_NAMES && bytes <= CACHE_BYTES
      {
        OneMoreName(entries, i);
        var name := entries[i];
        if !Dots(name) {
          if |list| == CACHE_NAMES || |name| + 1 > CACHE_BYTES - bytes {
            return None;
          }
          list := list + [name];
          bytes := bytes + |name| + 1;
        }
        i := i + 1;
      }
      assert entries[..i] == entries;
      names := Some(list);
    }

    /** `__load`, without the lock: a folder only when the whole directory was read. */
    method Load(path: CString, memory: bool) returns (folder: Option<Folder>)
      ensures folder.Some? ==> folder.value.path == path && Snapshot(disk, path) == Some(folder.value.names)
      ensures folder.Some? <==> memory && Snapshot(disk, path).Some? && Fits(Snapshot(disk, path).value)
    {
      hide Proper;
      if !memory {
        return None;
      }
      match disk.list(path)
      case Missing => return Some(Folder(path, [], 0));
      case Unreadable => return None;
      case Entries(entries) =>
        var names := ReadNames(entries);
        folder := if names.Some? then Some(Folder(path, names.value, 0)) else None;
    }

    /** `__find`. */
    method Find(path: CString) returns (slot: nat)
      requires slots.Length == CACHE_FOLDERS
      ensures slot <= CACHE_FOLDERS
      ensures slot < CACHE_FOLDERS ==> slots[slot].Some? && slots[slot].value.path == path
      ensures slot == CACHE_FOLDERS ==>
                forall i :: 0 <= i < CACHE_FOLDERS && slots[i].Some? ==> slots[i].value.path != path
    {
      slot := 0;
      while slot < CACHE_FOLDERS
        invariant 0 <= slot <= CACHE_FOLDERS
        invariant forall i :: 0 <= i < slot && slots[i].Some? ==> slots[i].value.path != path
      {
        if slots[slot].Some? && slots[slot].value.path == path {
          return;
        }
        slot := slot + 1;
      }
    }

    /** `__slot`: the first empty slot, or the one used longest ago. */
    method Slot() returns (slot: nat)
      requires slots.Length == CACHE_FOLDERS
      ensures slot < CACHE_FOLDERS
      ensures slots[slot].Some? ==>
                forall i :: 0 <= i < CACHE_FOLDERS ==> slots[i].Some? && slots[slot].value.used <= slots[i].value.used
    {
      slot := 0;
      var index := 0;
      while index < CACHE_FOLDERS
        invariant 0 <= index <= CACHE_FOLDERS && slot < CACHE_FOLDERS && (if index > 0 then slot < index else slot == 0)
        invariant index > 0 ==> slots[slot].Some?
        invariant forall i :: 0 <= i < index ==> slots[i].Some? && slots[slot].value.used <= slots[i].value.used
      {
        if slots[index].None? {
          return index;
        }
        if slots[index].value.used < slots[slot].value.used {
          slot := index;
        }
        index := index + 1;
      }
    }

    /** `__contains`: the folder becomes the most recently used; the search of its sorted names finds what is there. */
    method Contains(slot: nat, name: CString) returns (found: bool)
      requires slots.Length == CACHE_FOLDERS && slot < CACHE_FOLDERS && slots[slot].Some?
      modifies slots, this`serial
      ensures serial == old(serial) + 1 && slots[..] == Used(old(slots[..]), slot, old(serial))
      ensures found == HasName(disk, old(slots[slot]).value.names, name)
    {
      serial := serial + 1;
      var folder := slots[slot].value;
      slots[slot] := Some(folder.(used := serial));
      found := HasName(disk, folder.names, name);
    }

    /** The first critical section of `a_asset_cached` (lines 193-201). */
    method Lookup(parent: CString, name: CString) returns (known: bool, found: bool)
      requires Valid()
      modifies this, slots
      ensures Valid() && slots == old(slots)
      ensures known == (parent in old(Recent()))
      ensures Recent() == if known then Access(old(Recent()), parent) else old(Recent())
      ensures known ==> Snapshot(disk, parent).Some? && found == HasName(disk, Snapshot(disk, parent).value, name)
    {
      hide Faithful, Ordered, Paths, Access, Moved, Used, Snapshot, HasName;
      FilledSlots(disk, slots[..], order, serial);
      var slot := Find(parent);
      if slot == CACHE_FOLDERS {
        NotFound(slots[..], order, parent);
        return false, false;
      }
      FoundKeeps(disk, slots[..], order, serial, slot);
      order := Moved(order, Where(order, slot));
      found := Contains(slot, name);
      known := true;
    }

    /** Lines 213-216: the loaded folder takes an empty slot or the oldest one, and is used at once. */
    method Install(loaded: Folder, name: CString) returns (found: bool)
      requires Valid() && loaded.path !in Recent() && Snapshot(disk, loaded.path) == Some(loaded.names)
      modifies this, slots
      ensures Valid() && slots == old(slots)
      ensures Recent() == Access(old(Recent()), loaded.path)
      ensures found == HasName(disk, loaded.names, name)
    {
      assert slots.Length == CACHE_FOLDERS;
      hide Faithful, Ordered, Paths, Access, HasName, Snapshot;
      var slot := Slot();
      ghost var before := slots[..];
      InstallKeeps(disk, before, order, serial, slot, loaded);
      order := [slot] + if before[slot].None? then order else order[..|order| - 1];
      slots[slot] := Some(loaded);
      found := Contains(slot, name);
      assert slots[..] == before[slot := Some(loaded.(used := serial))];
    }

    /** The second critical section (lines 210-220): publish the loaded folder, or use the one another caller
        published meanwhile. */
    method Publish(parent: CString, loaded: Folder, name: CString) returns (found: bool)
      requires Valid() && loaded.path == parent && Snapshot(disk, parent) == Some(loaded.names)
      modifies this, slots
      ensures Valid() && slots == old(slots)
      ensures Recent() == Access(old(Recent()), parent)
      ensures found == HasName(disk, Snapshot(disk, parent).value, name)
    {
      var known;
      known, found := Lookup(parent, name);
      if !known {
        found := Install(loaded, name);
      }
    }

    /** `a_asset_cached`, with no other call between its two sections. The answer is false only when a complete
        snapshot of the parent lacks the name. */
    method Cached(path: CString, memory: bool) returns (found: bool)
      requires Valid()
      modifies this, slots
      ensures Valid() && slots == old(slots)
      ensures !found ==> Split(path).Some? &&
                         var (parent, name) := Split(path).value;
                         Snapshot(disk, parent).Some? && !HasName(disk, Snapshot(disk, parent).value, name)
      ensures Split(path).Some? && Split(path).value.0 in Recent() ==>
                var (parent, name) := Split(path).value;
                Snapshot(disk, parent).Some? && found == HasName(disk, Snapshot(disk, parent).value, name)
    {
      var parts := Split(path);
      if parts.None? {
        return true;
      }
      hide Faithful, Ordered, Paths, HasName;
      var (parent, name) := parts.value;
      var known;
      known, found := Lookup(parent, name);
      if known {
        return;
      }
      var loaded := Load(parent, memory);
      if loaded.None? {
        return true;
      }
      found := Publish(parent, loaded.value, name);
    }

    /** `a_asset_cache_clear`. */
    method Clear()
      requires Valid()
      modifies this, slots
      ensures Valid() && slots == old(slots) && Recent() == []
    {
      for index := 0 to CACHE_FOLDERS
        modifies slots
        invariant forall i :: 0 <= i < index ==> slots[i].None?
      {
        slots[index] := None;
      }
      serial := 0;
      order := [];
    }

    /** One critical section, with the reading of the directory that precedes it. */
    method Take(turn: Turn, waiting: map<nat, (CString, CString)>)
      returns (after: map<nat, (CString, CString)>, answer: Option<Answer>)
      requires Valid() && Enabled(Progress(Recent(), waiting), turn)
      modifies this, slots
      ensures Valid() && slots == old(slots)
      ensures Progress(Recent(), after) == Next(disk, old(Progress(Recent(), waiting)), turn)
      ensures Answers(disk, Asks(old(Progress(Recent(), waiting)), turn), answer)
    {
      hide Faithful, Ordered, Paths, HasName, Access;
      after, answer := waiting, None;
      match turn
      case Flush => Clear();
      case Begin(t, path) =>
        var parts := Split(path);
        if parts.None? {
          return after, Some(Answer(path, "", false, true));
        }
        var (parent, name) := parts.value;
        var known, found := Lookup(parent, name);
        if known {
          answer := Some(Answer(parent, name, true, found));
        } else {
          after := waiting[t := (parent, name)];
        }
      case Finish(t, memory) =>
        var (parent, name) := waiting[t];
        after := waiting - {t};
        var loaded := Load(parent, memory);
        if loaded.None? {
          return after, Some(Answer(parent, name, false, true));
        }
        var found := Publish(parent, loaded.value, name);
        answer := Some(Answer(parent, name, true, found));
    }

    /** Any number of calls by any threads, their sections in any order: no path is ever cached twice, what is cached is
        what a least-recently-used cache of sixteen keeps, and every answer is truthful. */
    method Serve(turns: seq<Turn>) returns (waiting: map<nat, (CString, CString)>, answers: seq<Option<Answer>>)
      requires Valid() && AllEnabled(disk, Progress(Recent(), map[]), turns)
      modifies this, slots
      ensures Valid() && slots == old(slots)
      ensures Progress(Recent(), waiting) == After(disk, old(Progress(Recent(), map[])), turns)
      ensures Distinct(Recent()) && |Recent()| <= CACHE_FOLDERS
      ensures |answers| == |turns|
      ensures var asked := Questions(disk, old(Progress(Recent(), map[])), turns);
              forall k :: 0 <= k < |turns| ==> Answers(disk, asked[k], answers[k])
    {
      hide Faithful, Ordered, Paths, Answers, Next, Enabled, Asks;
      waiting, answers := map[], [];
      ghost var first, asked := Progress(Recent(), map[]), [];
      var i := 0;
      assert turns[0..] == turns;
      while i < |turns|
        invariant 0 <= i <= |turns| && Valid() && slots == old(slots)
        invariant AllEnabled(disk, Progress(Recent(), waiting), turns[i..])
        invariant After(disk, Progress(Recent(), waiting), turns[i..]) == After(disk, first, turns)
        invariant asked + Questions(disk, Progress(Recent(), waiting), turns[i..]) == Questions(disk, first, turns)
        invariant |answers| == |asked| == i && forall k :: 0 <= k < i ==> Answers(disk, asked[k], answers[k])
      {
        assert turns[i..][1..] == turns[i + 1..];
        asked := asked + [Asks(Progress(Recent(), waiting), turns[i])];
        var answer;
        waiting, answer := Take(turns[i], waiting);
        answers := answers + [answer];
        i := i + 1;
      }
      assert asked == Questions(disk, first, turns);
      FilledSlots(disk, slots[..], order, serial);
      PathsDistinct(disk, slots[..], order, serial);
      OrderFits(slots[..], order);
    }
  }
}
