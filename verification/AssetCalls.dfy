/** What is cached and what is asked (src/bridges/android/asset_cache.c:45-71, 178-238): which paths have a parent,
    which directories are cached, what a call does to the cache, and which folders sixteen slots keep. */
module AssetCalls {
  import opened Common
  import opened AssetCache

  // ---------------------------------------------------------------- paths and names

  /** A path is asked about exactly if it is a parent of 1 to 1023 bytes, a slash and a name without one. */
  lemma SplitExactly(path: CString, parent: CString, name: CString)
    ensures Split(path) == Some((parent, name)) <==>
            path == parent + "/" + name && name != "" && '/' !in name && 0 < |parent| <= 1023
  {
    var k := LastSlash(path);
    if k < |path| {
      assert path == path[..k] + "/" + path[k + 1..];
    }
    if path == parent + "/" + name && '/' !in name {
      assert path[|parent|] == '/';
      assert forall i :: |parent| < i < |path| ==> path[i] == name[i - |parent| - 1];
      assert k == |parent|;
      assert path[..k] == parent && path[k + 1..] == name;
    }
  }

  /** A directory has a name exactly if one of its entries, other than itself and its parent, compares equal. */
  lemma NamesExactly(disk: Disk, path: CString, name: CString)
    ensures disk.list(path).Entries? ==>
              (HasName(disk, Snapshot(disk, path).value, name) <==>
               exists n :: n in disk.list(path).names && n != "." && n != ".." && disk.fold(n) == disk.fold(name))
    ensures disk.list(path).Missing? ==>
              Snapshot(disk, path).Some? && !HasName(disk, Snapshot(disk, path).value, name)
    ensures disk.list(path).Unreadable? ==> Snapshot(disk, path).None?
  {
    if disk.list(path).Entries? {
      var names := disk.list(path).names;
      var kept := Proper(names);
      assert forall n :: n in kept <==> n in names && n != "." && n != "..";
      if HasName(disk, kept, name) {
        var k :| 0 <= k < |kept| && disk.fold(kept[k]) == disk.fold(name);
        assert kept[k] in names;
      }
      if n :| n in names && n != "." && n != ".." && disk.fold(n) == disk.fold(name) {
        var k :| 0 <= k < |kept| && kept[k] == n;
      }
    }
  }

  /** The names as they lie in memory, each with its terminator. */
  function InMemory(names: seq<CString>): string {
    if names == [] then "" else InMemory(names[..|names| - 1]) + names[|names| - 1] + "\0"
  }

  lemma {:induction false} BytesExactly(names: seq<CString>)
    ensures Bytes(names) == |InMemory(names)|
  {
    if names != [] {
      BytesExactly(names[..|names| - 1]);
    }
  }

  /** A folder is cached exactly if there is memory and its directory is missing, or can be read and has at most 4096
      names in at most 64 KB. */
  lemma LoadableExactly(disk: Disk, path: CString, memory: bool)
    ensures Loadable(disk, path, memory) <==>
            memory &&
            match disk.list(path)
            case Missing => true
            case Unreadable => false
            case Entries(names) => |Proper(names)| <= 4096 && |InMemory(Proper(names))| <= 65536
  {
    if Snapshot(disk, path).Some? {
      BytesExactly(Snapshot(disk, path).value);
    }
  }

  // ---------------------------------------------------------------- one call

  /** A call that no other interrupts: the question is the path's own; its parent is used if it is cached or can be, and
      nothing else changes. */
  lemma CallAlone(disk: Disk, p: Progress, t: nat, path: CString, memory: bool)
    requires t !in p.waiting
    ensures var begin, finish := Begin(t, path), Finish(t, memory);
            var q := Next(disk, p, begin);
            match Split(path)
            case None => q == p && Asks(p, begin) == Some((path, ""))
            case Some((parent, name)) =>
              if parent in p.recent then
                q == p.(recent := Access(p.recent, parent)) && Asks(p, begin) == Some((parent, name))
              else
                && Asks(p, begin) == None && q.recent == p.recent && Enabled(q, finish)
                && Asks(q, finish) == Some((parent, name))
                && Next(disk, q, finish) ==
                   p.(recent := if Loadable(disk, parent, memory) then Access(p.recent, parent) else p.recent)
    ensures Enabled(p, Flush) && Next(disk, p, Flush) == p.(recent := [])
  {
    hide Split, Access, Loadable;
    if Split(path).Some? {
      assert p.waiting[t := Split(path).value] - {t} == p.waiting;
    }
  }

  // ---------------------------------------------------------------- least recently used

  /** The cache after folders were used one after the other. */
  function Using(uses: seq<CString>): seq<CString> {
    if uses == [] then [] else Access(Using(uses[..|uses| - 1]), uses[|uses| - 1])
  }

  function Among(s: seq<CString>): set<CString> {
    set x | x in s
  }

  lemma AccessIsDistinct(recent: seq<CString>, p: CString)
    requires Distinct(recent) && |recent| <= 16
    ensures Distinct(Access(recent, p)) && |Access(recent, p)| <= 16
  {
    if p in recent {
      var k :| 0 <= k < |recent| && recent[k] == p;
      WithoutAt(recent, k);
      var rest := recent[..k] + recent[k + 1..];
      forall i | 0 <= i < |rest|
        ensures rest[i] == recent[if i < k then i else i + 1]
      {
      }
      PrependIsDistinct(rest, p);
    } else {
      PrependIsDistinct(recent[..if |recent| == 16 then 15 else |recent|], p);
    }
    hide Without, Distinct;
  }

  lemma PrependIsDistinct(rest: seq<CString>, p: CString)
    requires Distinct(rest) && p !in rest
    ensures Distinct([p] + rest)
  {
  }

  lemma {:induction false} UsingIsDistinct(uses: seq<CString>)
    ensures Distinct(Using(uses)) && |Using(uses)| <= 16
  {
    if uses != [] {
      UsingIsDistinct(uses[..|uses| - 1]);
      AccessIsDistinct(Using(uses[..|uses| - 1]), uses[|uses| - 1]);
    }
  }

  /** The first places after a use hold it and what was first before, up to where it was or to the end. */
  lemma AccessFirst(recent: seq<CString>, p: CString, m: nat)
    requires Distinct(recent) && m <= |recent| <= 16
    ensures var r := Access(recent, p);
            if p in recent[..m] then m <= |r| && Among(r[..m]) == Among(recent[..m])
            else m < 16 ==> m < |r| && Among(r[..m + 1]) == Among(recent[..m]) + {p}
  {
    hide Among, Distinct, Without;
    OneMember(recent[..m], p);
    if p in recent {
      var k :| 0 <= k < |recent| && recent[k] == p;
      WithoutAt(recent, k);
      if k < m {
        assert recent[..m][k] == p;
        MovedFirst(recent, k, m);
      } else {
        NotBefore(recent, k, m);
        assert ([p] + (recent[..k] + recent[k + 1..]))[..m + 1] == [p] + recent[..m];
      }
    } else if m < 16 {
      assert Access(recent, p)[..m + 1] == [p] + recent[..m];
    }
  }

  lemma MovedFirst(recent: seq<CString>, k: nat, m: nat)
    requires k < m <= |recent|
    ensures Among(([recent[k]] + (recent[..k] + recent[k + 1..]))[..m]) == Among(recent[..m])
  {
    hide Among;
    assert ([recent[k]] + (recent[..k] + recent[k + 1..]))[..m] == [recent[k]] + recent[..k] + recent[k + 1..m];
    assert recent[..m] == recent[..k] + [recent[k]] + recent[k + 1..m];
    SameMembers(recent[..k], recent[k], recent[k + 1..m]);
  }

  lemma NotBefore(recent: seq<CString>, k: nat, m: nat)
    requires Distinct(recent) && m <= k < |recent|
    ensures recent[k] !in recent[..m]
  {
  }

  lemma SameMembers(a: seq<CString>, p: CString, b: seq<CString>)
    ensures Among([p] + a + b) == Among(a + [p] + b)
  {
  }

  lemma OneMember(a: seq<CString>, p: CString)
    ensures Among([p] + a) == Among(a) + {p} && Among(a + [p]) == Among(a) + {p}
  {
  }

  lemma {:induction false} AmongDistinct(s: seq<CString>)
    requires Distinct(s)
    ensures |Among(s)| == |s|
  {
    if s != [] {
      var n := |s| - 1;
      AmongDistinct(s[..n]);
      assert s == s[..n] + [s[n]];
      OneMember(s[..n], s[n]);
      assert s[n] !in Among(s[..n]);
    }
  }

  /** What was used since some moment, if it is at most sixteen folders, stands first. */
  lemma {:induction false} UsedSince(uses: seq<CString>, k: nat)
    requires k <= |uses| && |Among(uses[k..])| <= 16
    ensures var n := |Among(uses[k..])|; n <= |Using(uses)| && Among(Using(uses)[..n]) == Among(uses[k..])
    decreases |uses|
  {
    hide Access, Distinct, Among;
    if k < |uses| {
      var last := |uses| - 1;
      var earlier, p := uses[..last], uses[last];
      var before := Among(earlier[k..]);
      assert uses[k..] == earlier[k..] + [p];
      OneMember(earlier[k..], p);
      if p in before {
        assert before + {p} == before;
      }
      UsedSince(earlier, k);
      UsingIsDistinct(earlier);
      AccessFirst(Using(earlier), p, |before|);
      AmongHas(Using(earlier)[..|before|], p);
    } else {
      AmongNothing(uses[k..]);
      AmongNothing(Using(uses)[..0]);
    }
  }

  lemma AmongHas(s: seq<CString>, p: CString)
    ensures p in Among(s) <==> p in s
  {
  }

  lemma AmongNothing(s: seq<CString>)
    requires s == []
    ensures Among(s) == {}
  {
  }

  /** And whatever stands somewhere was used since everything before it. */
  lemma {:induction false} StandsSince(uses: seq<CString>, i: nat) returns (k: nat)
    requires i < |Using(uses)|
    ensures k < |uses| && uses[k] == Using(uses)[i] && Among(uses[k..]) == Among(Using(uses)[..i + 1])
    decreases |uses|
  {
    var last := |uses| - 1;
    var earlier, p := uses[..last], uses[last];
    var recent, r := Using(earlier), Using(uses);
    UsingIsDistinct(earlier);
    if i == 0 {
      k := last;
      assert r[..1] == [p] && uses[last..] == [p];
    } else {
      var j := Shifted(recent, p, i);
      k := StandsSince(earlier, j);
      assert uses[k..] == earlier[k..] + [p];
      OneMember(earlier[k..], p);
    }
  }

  lemma Shifted(recent: seq<CString>, p: CString, i: nat) returns (j: nat)
    requires Distinct(recent) && |recent| <= 16 && 0 < i < |Access(recent, p)|
    ensures var r := Access(recent, p);
            && r[0] == p && j < |recent| && recent[j] == r[i] && Among(r[..i + 1]) == Among(recent[..j + 1]) + {p}
  {
    hide Among, Distinct, Without;
    if p in recent {
      var k :| 0 <= k < |recent| && recent[k] == p;
      WithoutAt(recent, k);
      if k < i {
        j := i;
        assert recent[..i + 1][k] == p && recent[..i][k] == p;
        AccessFirst(recent, p, i + 1);
        AmongHas(recent[..i + 1], p);
        assert Among(recent[..i + 1]) + {p} == Among(recent[..i + 1]);
      } else {
        j := i - 1;
        NotBefore(recent, k, i);
        AccessFirst(recent, p, i);
      }
    } else {
      j := i - 1;
      AccessFirst(recent, p, i);
    }
  }

  /** Sixteen slots keep exactly the folders since whose last use at most sixteen, with itself, were used. */
  lemma LeastRecentlyUsed(uses: seq<CString>, p: CString)
    ensures p in Using(uses) <==> exists k :: 0 <= k < |uses| && uses[k] == p && |Among(uses[k..])| <= 16
  {
    UsingIsDistinct(uses);
    if p in Using(uses) {
      var i :| 0 <= i < |Using(uses)| && Using(uses)[i] == p;
      var k := StandsSince(uses, i);
      AmongDistinct(Using(uses)[..i + 1]);
    }
    if k :| 0 <= k < |uses| && uses[k] == p && |Among(uses[k..])| <= 16 {
      UsedSince(uses, k);
      assert uses[k..][0] == p;
      assert p in Among(uses[k..]);
      assert p in Using(uses)[..|Among(uses[k..])|];
    }
  }
}
