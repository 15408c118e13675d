/** Getting, setting and deleting preferences over the file (src/bridges/jni/preferences.c:122-424).
    Whatever happens, the file keeps a map, and only a completed save changes it. */
module Preferences {
  import opened Common
  import opened PreferencesCodec
  import opened Words

  type Contents = map<CString, (char, CString)>

  /** The map a list of entries stands for. */
  function ToMap(list: seq<Entry>): (m: Contents) {
    if list == [] then map[] else ToMap(list[1..])[list[0].key := (list[0].kind, list[0].value)]
  }

  /** What the bounded file holds: nothing when absent, no answer when unreadable. */
  function Loaded(file: Option<Blob>): Option<seq<Entry>> {
    if file.None? then Some([])
    else if |file.value| < 12 || |file.value| > LIMIT then None
    else Decode(file.value)
  }

  function Size(list: seq<Entry>): nat {
    if list == [] then 12 else Size(list[1..]) + 9 + |list[0].key| + |list[0].value|
  }

  predicate Storable(list: seq<Entry>) {
    Size(list) <= LIMIT && |list| <= MAX_ENTRIES
  }

  /** Where writing the temporary file and renaming it may fail. */
  datatype SaveIo = SaveIo(directory: bool, open: bool, write: bool, flush: bool, close: bool, rename: bool)

  predicate Succeeds(io: SaveIo) {
    io.directory && io.open && io.write && io.flush && io.close && io.rename
  }

  // ---------------------------------------------------------------- lists as maps

  lemma {:induction false} ToMapKeys(list: seq<Entry>)
    ensures forall k :: k in ToMap(list) <==> HasKey(list, k)
  {
    if list != [] {
      ToMapKeys(list[1..]);
      forall k
        ensures k in ToMap(list) <==> HasKey(list, k)
      {
        HasKeyCons(list, k);
      }
    }
  }

  lemma HasKeyCons(list: seq<Entry>, k: CString)
    requires list != []
    ensures HasKey(list, k) <==> list[0].key == k || HasKey(list[1..], k)
  {
    if HasKey(list[1..], k) {
      var i :| 0 <= i < |list[1..]| && list[1..][i].key == k;
      assert list[i + 1].key == k;
    }
    if HasKey(list, k) && list[0].key != k {
      var i :| 0 <= i < |list| && list[i].key == k;
      assert list[1..][i - 1].key == k;
    }
  }

  lemma {:induction false} ToMapAt(list: seq<Entry>, i: nat)
    requires Proper(list) && i < |list|
    ensures list[i].key in ToMap(list) && ToMap(list)[list[i].key] == (list[i].kind, list[i].value)
  {
    if i > 0 {
      ToMapAt(list[1..], i - 1);
    }
  }

  /** Two proper lists of the same entries are the same map. */
  lemma SameMap(p: seq<Entry>, q: seq<Entry>)
    requires Proper(p) && Proper(q)
    requires forall i :: 0 <= i < |p| ==> p[i] in q
    requires forall i :: 0 <= i < |q| ==> q[i] in p
    ensures ToMap(p) == ToMap(q)
  {
    ToMapKeys(p);
    ToMapKeys(q);
    forall k | k in ToMap(p)
      ensures k in ToMap(q) && ToMap(q)[k] == ToMap(p)[k]
    {
      var i :| 0 <= i < |p| && p[i].key == k;
      ToMapAt(p, i);
      var j :| 0 <= j < |q| && q[j] == p[i];
      ToMapAt(q, j);
    }
    forall k | k in ToMap(q)
      ensures k in ToMap(p)
    {
      var j :| 0 <= j < |q| && q[j].key == k;
      var i :| 0 <= i < |p| && p[i] == q[j];
      ToMapAt(p, i);
    }
  }

  lemma ReverseMap(list: seq<Entry>)
    requires Proper(list)
    ensures Proper(Reverse(list)) && ToMap(Reverse(list)) == ToMap(list)
  {
    ProperReverse(list);
    ReverseTwice(list);
    var r := Reverse(list);
    forall i | 0 <= i < |list|
      ensures list[i] in r
    {
      assert r[|list| - 1 - i] == list[i];
    }
    SameMap(r, list);
  }

  /** The map a proper list stands for is the one that holds its entries and nothing else. */
  lemma MapIs(list: seq<Entry>, m: Contents)
    requires Proper(list)
    requires forall i :: 0 <= i < |list| ==> list[i].key in m && m[list[i].key] == (list[i].kind, list[i].value)
    requires forall k :: k in m ==> HasKey(list, k)
    ensures ToMap(list) == m
  {
    ToMapKeys(list);
    forall k | k in ToMap(list)
      ensures k in m && m[k] == ToMap(list)[k]
    {
      var i :| 0 <= i < |list| && list[i].key == k;
      ToMapAt(list, i);
    }
  }

  lemma MapHolds(list: seq<Entry>)
    requires Proper(list)
    ensures forall i :: 0 <= i < |list| ==>
              list[i].key in ToMap(list) && ToMap(list)[list[i].key] == (list[i].kind, list[i].value)
    ensures forall k :: k in ToMap(list) ==> HasKey(list, k)
  {
    ToMapKeys(list);
    forall i | 0 <= i < |list| {
      ToMapAt(list, i);
    }
  }

  /** Storing over an existing key. */
  lemma ReplaceMap(list: seq<Entry>, i: nat, e: Entry)
    requires Proper(list) && i < |list| && e.key == list[i].key && KindOkay(e.kind) && |e.value| < 0x1_0000_0000
    ensures Proper(list[i := e]) && ToMap(list[i := e]) == ToMap(list)[e.key := (e.kind, e.value)]
  {
    var next := list[i := e];
    var m := ToMap(list)[e.key := (e.kind, e.value)];
    MapHolds(list);
    hide ToMap;
    forall j | 0 <= j < |next|
      ensures next[j].key in m && m[next[j].key] == (next[j].kind, next[j].value)
    {
      assert j != i ==> list[j].key != list[i].key;
    }
    forall k | k in m
      ensures HasKey(next, k)
    {
      if k != e.key {
        var j :| 0 <= j < |list| && list[j].key == k;
        assert next[j].key == k;
      } else {
        assert next[i].key == k;
      }
    }
    MapIs(next, m);
  }

  lemma InsertMap(list: seq<Entry>, e: Entry)
    requires Proper(list) && !HasKey(list, e.key) && KindOkay(e.kind)
    requires |e.key| < 0x1_0000_0000 && |e.value| < 0x1_0000_0000
    ensures Proper([e] + list) && ToMap([e] + list) == ToMap(list)[e.key := (e.kind, e.value)]
  {
    ProperCons(e, list);
    assert ([e] + list)[1..] == list;
  }

  lemma ProperRemove(list: seq<Entry>, i: nat)
    requires Proper(list) && i < |list|
    ensures Proper(list[..i] + list[i + 1..])
    ensures forall j :: 0 <= j < |list| && j != i ==> list[j] in list[..i] + list[i + 1..] && list[j].key != list[i].key
    ensures forall e :: e in list[..i] + list[i + 1..] ==> e in list && e.key != list[i].key
  {
    var next := list[..i] + list[i + 1..];
    assert forall j :: 0 <= j < |next| ==> next[j] == list[if j < i then j else j + 1];
    forall j | 0 <= j < |list| && j != i
      ensures list[j] in next
    {
      assert next[if j < i then j else j - 1] == list[j];
    }
  }

  lemma RemoveMap(list: seq<Entry>, i: nat)
    requires Proper(list) && i < |list|
    ensures Proper(list[..i] + list[i + 1..]) && ToMap(list[..i] + list[i + 1..]) == ToMap(list) - {list[i].key}
  {
    var next := list[..i] + list[i + 1..];
    var m := ToMap(list) - {list[i].key};
    MapHolds(list);
    ProperRemove(list, i);
    hide ToMap, Proper;
    forall j | 0 <= j < |next|
      ensures next[j].key in m && m[next[j].key] == (next[j].kind, next[j].value)
    {
      assert next[j] in next;
      assert next[j] in list;
    }
    forall k | k in m
      ensures HasKey(next, k)
    {
      var h :| 0 <= h < |list| && list[h].key == k;
      assert list[h] in next;
    }
    MapIs(next, m);
  }

  // ---------------------------------------------------------------- sizes

  lemma {:induction false} SizeBounds(list: seq<Entry>)
    ensures Size(list) >= 12
    ensures Size(list) <= LIMIT ==> Fits(list)
    ensures Fits(list) ==> |Records(list)| == Size(list) - 12
  {
    if list != [] {
      SizeBounds(list[1..]);
      if Size(list) <= LIMIT {
        forall i | 0 <= i < |list|
          ensures |list[i].key| < 0x1_0000_0000 && |list[i].value| < 0x1_0000_0000
        {
          if i > 0 {
            assert list[i] == list[1..][i - 1];
          }
        }
      }
    }
  }

  lemma {:induction false} SizeRemove(list: seq<Entry>, i: nat)
    requires i < |list|
    ensures Size(list) == Size(list[..i] + list[i + 1..]) + 9 + |list[i].key| + |list[i].value|
  {
    var next := list[..i] + list[i + 1..];
    if i == 0 {
      assert next == list[1..];
    } else {
      assert next[1..] == list[1..][..i - 1] + list[1..][i..];
      SizeRemove(list[1..], i - 1);
    }
  }

  /** Lists of the same map take the same room in the file. */
  lemma {:induction false} SameSize(a: seq<Entry>, b: seq<Entry>)
    requires Proper(a) && Proper(b) && ToMap(a) == ToMap(b)
    ensures Size(a) == Size(b) && |a| == |b|
    decreases |a|
  {
    hide ToMap, Proper, Size;
    if a == [] {
      EmptyMap(b);
    } else {
      var j := Counterpart(a, b);
      var p, q := a[..0] + a[1..], b[..j] + b[j + 1..];
      RemoveMap(a, 0);
      RemoveMap(b, j);
      SameSize(p, q);
      SizeRemove(a, 0);
      SizeRemove(b, j);
    }
  }

  lemma EmptyMap(list: seq<Entry>)
    requires Proper(list) && ToMap(list) == ToMap([])
    ensures list == []
  {
    if list != [] {
      ToMapAt(list, 0);
    }
  }

  lemma Counterpart(a: seq<Entry>, b: seq<Entry>) returns (j: nat)
    requires Proper(a) && Proper(b) && ToMap(a) == ToMap(b) && a != []
    ensures j < |b| && b[j] == a[0]
  {
    MapHolds(a);
    MapHolds(b);
    hide ToMap;
    var k :| 0 <= k < |b| && b[k].key == a[0].key;
    j := k;
  }

  /** The map fits the file; any list of it does then. */
  ghost predicate MapFits(m: Contents) {
    exists list :: Proper(list) && ToMap(list) == m && Storable(list)
  }

  lemma FitsByMap(list: seq<Entry>)
    requires Proper(list)
    ensures MapFits(ToMap(list)) <==> Storable(list)
  {
    hide Proper, ToMap, Size;
    if other :| Proper(other) && ToMap(other) == ToMap(list) && Storable(other) {
      SameSize(list, other);
    }
  }

  /** Every file a save writes is read back as the same map. */
  lemma SavedFilesReload(list: seq<Entry>)
    requires Proper(list) && Storable(list)
    ensures var loaded := Loaded(Some(Encode(list)));
            loaded == Some(Reverse(list)) && Proper(loaded.value) && ToMap(loaded.value) == ToMap(list)
  {
    SizeBounds(list);
    DecodeEncode(list);
    ReverseMap(list);
  }

  // ---------------------------------------------------------------- the store

  datatype Found = Found(kind: char, value: CString)

  /** How reading the file goes: opening it, measuring it, the buffer, reading it, and the memory for each record. */
  datatype LoadIo = LoadIo(open: bool, seek: bool, buffer: bool, read: bool, record: nat -> bool)

  /** What can be read of a file: everything, when nothing fails. */
  ghost function Reads(file: Option<Blob>, io: LoadIo): (entries: Option<seq<Entry>>)
    ensures entries.Some? ==> entries == Loaded(file)
  {
    if !io.open then None
    else if file.None? then Loaded(file)
    else if !io.seek || !io.buffer || !io.read || Loaded(file).None? then None
    else if forall k: nat :: k < |Loaded(file).value| ==> io.record(k) then Loaded(file)
    else None
  }

  lemma {:induction false} ParsedCount(b: Blob, offset: nat, count: nat, entries: seq<Entry>)
    requires offset <= |b| && ParseRecords(b, offset, count, entries).Some?
    ensures |ParseRecords(b, offset, count, entries).value| == |entries| + count
    decreases count
  {
    if count > 0 {
      var (e, next) := ParseRecord(b, offset).value;
      ParsedCount(b, next, count - 1, [e] + entries);
    }
  }

  class Store {
    var file: Option<Blob>

    /** The stored map, when the file can be read. */
    function Stored(): (m: Option<Contents>)
      reads this
    {
      var loaded := Loaded(file);
      if loaded.None? then None else Some(ToMap(loaded.value))
    }

    /** `__read_record` over the list read so far (lines 133-186). */
    method ReadRecord(b: Blob, offset: nat, entries: seq<Entry>, memory: bool)
      returns (ok: bool, next: nat, more: seq<Entry>)
      requires offset <= |b|
      ensures next <= |b|
      ensures ok <==> memory && ParseRecord(b, offset).Some? && !HasKey(entries, ParseRecord(b, offset).value.0.key)
      ensures ok ==> next == ParseRecord(b, offset).value.1 && more == [ParseRecord(b, offset).value.0] + entries
    {
      next, more := offset, entries;
      if |b| - offset < 9 {
        return false, next, more;
      }
      var kind := b[offset];
      if !KindOkay(kind) {
        return false, next, more;
      }
      var key_length, value_length := ReadWord(b, offset + 1), ReadWord(b, offset + 5);
      var body := offset + 9;
      if key_length > |b| - body || value_length > |b| - body - key_length {
        return false, next, more;
      }
      if exists i :: body <= i < body + key_length + value_length && b[i] == '\0' {
        return false, next, more;
      }
      if !memory {
        return false, next, more;
      }
      hide ReadWord;
      assert NoNul(b, body, body + key_length + value_length);
      var key: CString := b[body..body + key_length];
      var value: CString := b[body + key_length..body + key_length + value_length];
      var at := FindEntry(entries, key);
      if at.Some? {
        return false, next, more;
      }
      return true, body + key_length + value_length, [Entry(key, value, kind)] + entries;
    }

    /** `__find_entry`. */
    method FindEntry(entries: seq<Entry>, key: CString) returns (at: Option<nat>)
      ensures at.Some? ==> at.value < |entries| && entries[at.value].key == key
      ensures at.None? <==> !HasKey(entries, key)
    {
      var i := 0;
      while i < |entries|
        invariant i <= |entries| && forall j :: 0 <= j < i ==> entries[j].key != key
      {
        if entries[i].key == key {
          return Some(i);
        }
        i := i + 1;
      }
      at := None;
    }

    /** The record loop of `__decode_entries` (lines 195-201). */
    method ReadRecords(b: Blob, count: nat, memory: nat -> bool) returns (entries: Option<seq<Entry>>)
      requires |b| >= 12
      ensures entries == if forall k: nat :: k < count ==> memory(k) then ParseRecords(b, 12, count, []) else None
    {
      hide ReadWord, ParseRecord, HasKey;
      var offset: nat, list: seq<Entry>, index: nat := 12, [], 0;
      var ok := true;
      while index < count && ok
        invariant 0 <= index <= count && offset <= |b|
        invariant ok ==> ParseRecords(b, 12, count, []) == ParseRecords(b, offset, count - index, list)
        invariant ok ==> forall k: nat :: k < index ==> memory(k)
        invariant !ok ==> ParseRecords(b, 12, count, []).None? || (index > 0 && !memory(index - 1))
        decreases count - index
      {
        ok, offset, list := ReadRecord(b, offset, list, memory(index));
        index := index + 1;
      }
      entries := if ok && offset == |b| then Some(list) else None;
    }

    /** `__decode_entries`. */
    method DecodeEntries(b: Blob, memory: nat -> bool) returns (entries: Option<seq<Entry>>)
      requires |b| >= 12
      ensures entries ==
              if Decode(b).Some? && (forall k: nat :: k < |Decode(b).value| ==> memory(k)) then Decode(b) else None
    {
      if b[..8] != MAGIC {
        return None;
      }
      var count := ReadWord(b, 8);
      if count > MAX_ENTRIES {
        return None;
      }
      if Decode(b).Some? { ParsedCount(b, 12, count, []); }
      hide ReadWord, ParseRecords;
      entries := ReadRecords(b, count, memory);
    }

    /** `__load_entries`: nothing is exposed unless the whole file could be read and decoded. */
    method Load(io: LoadIo) returns (entries: Option<seq<Entry>>)
      ensures entries == Reads(file, io)
      ensures entries.Some? ==> Proper(entries.value)
    {
      if !io.open {
        return None;
      }
      if file.None? {
        return Some([]);
      }
      if !io.seek || |file.value| < 12 || |file.value| > LIMIT || !io.buffer || !io.read {
        return None;
      }
      entries := DecodeEntries(file.value, io.record);
      if entries.Some? {
        EncodeDecode(file.value);
      }
    }

    /** The measuring loop of `__save_entries` (lines 266-274). */
    method Measure(entries: seq<Entry>) returns (ok: bool)
      ensures ok <==> Storable(entries)
    {
      var size: nat, count: nat := 12, 0;
      assert entries[0..] == entries;
      while count < |entries|
        invariant 0 <= count <= |entries| && Size(entries) == size + Size(entries[count..]) - 12
        invariant size <= LIMIT && count <= MAX_ENTRIES
      {
        assert entries[count..][1..] == entries[count + 1..];
        SizeBounds(entries[count + 1..]);
        size := size + 9 + |entries[count].key| + |entries[count].value|;
        count := count + 1;
        if size > LIMIT || count > MAX_ENTRIES {
          return false;
        }
      }
      ok := true;
    }

    /** The writing loop of `__save_entries` (lines 286-302): the header, then record by record. */
    method WriteAll(entries: seq<Entry>, write: bool) returns (bytes: Blob)
      requires Proper(entries) && Fits(entries) && |entries| <= MAX_ENTRIES
      ensures write ==> bytes == Encode(entries)
    {
      bytes := MAGIC + Word(|entries|);
      var index := 0;
      assert entries[0..] == entries;
      hide Word, Record, Proper;
      while index < |entries| && write
        invariant 0 <= index <= |entries| && bytes + Records(entries[index..]) == Encode(entries)
      {
        assert entries[index..][1..] == entries[index + 1..];
        assert bytes + Records(entries[index..]) == (bytes + Record(entries[index])) + Records(entries[index + 1..]);
        bytes := bytes + Record(entries[index]);
        index := index + 1;
      }
      assert write ==> bytes + Records(entries[|entries|..]) == bytes;
    }

    /** `__save_entries`: measure, write a temporary file record by record, rename it. */
    method Save(entries: seq<Entry>, io: SaveIo) returns (ok: bool)
      requires Proper(entries)
      modifies this
      ensures ok <==> Storable(entries) && Succeeds(io)
      ensures ok ==> file == Some(Encode(entries)) && Stored() == Some(ToMap(entries))
      ensures !ok ==> file == old(file)
    {
      hide Proper, Size, Encode, ToMap, Loaded;
      var fits := Measure(entries);
      if !fits || !io.directory || !io.open {
        return false;
      }
      SizeBounds(entries);
      var bytes := WriteAll(entries, io.write);
      if io.write && io.flush && io.close && io.rename {
        SavedFilesReload(entries);
        file := Some(bytes);
        return true;
      }
      ok := false;
    }

    /** `cocos_preferences_get`: the stored value, unless the file cannot be read or `copy` the value not copied. */
    method Get(key: CString, io: LoadIo, copy: bool) returns (found: Option<Found>)
      ensures found.Some? <==> Reads(file, io).Some? && key in Stored().value && copy
      ensures found.Some? ==> found.value == Found(Stored().value[key].0, Stored().value[key].1)
    {
      var entries := Load(io);
      if entries.None? {
        return None;
      }
      ToMapKeys(entries.value);
      var at := FindEntry(entries.value, key);
      if at.None? || !copy {
        return None;
      }
      ToMapAt(entries.value, at.value);
      found := Some(Found(entries.value[at.value].kind, entries.value[at.value].value));
    }

    /** `cocos_preferences_set`: the map with the key updated, or no change at all. */
    method Set(key: CString, kind: char, value: CString, load: LoadIo, memory: bool, io: SaveIo) returns (ok: bool)
      modifies this
      ensures ok ==> old(Stored()).Some? && Stored() == Some(old(Stored()).value[key := (kind, value)])
      ensures !ok ==> file == old(file)
      ensures ok <==>
                && KindOkay(kind) && |key| <= LIMIT && |value| <= LIMIT
                && Reads(old(file), load).Some? && memory && Succeeds(io)
                && MapFits(old(Stored()).value[key := (kind, value)])
    {
      if !KindOkay(kind) || |key| > LIMIT || |value| > LIMIT {
        return false;
      }
      var entries := Load(load);
      if entries.None? || !memory {
        return false;
      }
      var list := entries.value;
      var at := FindEntry(list, key);
      var e := Entry(key, value, kind);
      if at.Some? {
        ReplaceMap(list, at.value, e);
        list := list[at.value := e];
      } else {
        InsertMap(list, e);
        list := [e] + list;
      }
      FitsByMap(list);
      hide MapFits;
      ok := Save(list, io);
    }

    /** `cocos_preferences_delete`: the map without the key; a missing key changes nothing. */
    method Delete(key: CString, load: LoadIo, io: SaveIo) returns (ok: bool)
      modifies this
      ensures ok ==> old(Stored()).Some? && Stored() == Some(old(Stored()).value - {key})
      ensures !ok ==> file == old(file)
      ensures ok <==> Reads(old(file), load).Some? && (key !in old(Stored()).value || Succeeds(io))
      ensures ok && key !in old(Stored()).value ==> file == old(file)
    {
      var entries := Load(load);
      if entries.None? {
        return false;
      }
      var list := entries.value;
      ToMapKeys(list);
      var at := FindEntry(list, key);
      if at.None? {
        assert ToMap(list) - {key} == ToMap(list);
        return true;
      }
      RemoveMap(list, at.value);
      ToMapAt(list, at.value);
      var next := list[..at.value] + list[at.value + 1..];
      RemovedFits(file, list, at.value);
      ok := Save(next, io);
    }
  }

  // ---------------------------------------------------------------- runs of calls

  /** A call, with what the system answers it. */
  datatype Call =
    | SetCall(key: CString, kind: char, value: CString, load: LoadIo, memory: bool, save: SaveIo)
    | DeleteCall(key: CString, load: LoadIo, save: SaveIo)
    | GetCall(key: CString, load: LoadIo, copy: bool)

  datatype Answer = Done(ok: bool) | Value(found: Option<Found>)

  /** The file can be read, whatever it holds. */
  ghost predicate Reading(io: LoadIo) {
    io.open && io.seek && io.buffer && io.read && forall k: nat :: io.record(k)
  }

  /** The map after a call that was answered; an unreadable file stays one. */
  function After(m: Option<Contents>, call: Call, answer: Answer): Option<Contents> {
    if m.None? || answer.Value? || !answer.ok then m
    else match call
      case SetCall(key, kind, value, _, _, _) => Some(m.value[key := (kind, value)])
      case DeleteCall(key, _, _) => Some(m.value - {key})
      case GetCall(_, _, _) => m
  }

  /** An answer the map allows: what is got is what is there, success needs a readable file, and only a failing system,
      a value too large or an unreadable file refuses. */
  ghost predicate Right(m: Option<Contents>, call: Call, answer: Answer) {
    match call
    case SetCall(key, kind, value, load, memory, save) =>
      && answer.Done? && (answer.ok ==> m.Some?)
      && (m.Some? ==>
           var may := KindOkay(kind) && |key| <= LIMIT && |value| <= LIMIT && memory && Succeeds(save) &&
                      MapFits(m.value[key := (kind, value)]);
           (answer.ok ==> may) && (may && Reading(load) ==> answer.ok))
    case DeleteCall(key, load, save) =>
      && answer.Done? && (answer.ok ==> m.Some?)
      && (m.Some? && Reading(load) && (key !in m.value || Succeeds(save)) ==> answer.ok)
    case GetCall(key, load, copy) =>
      && answer.Value?
      && (answer.found.Some? ==>
           m.Some? && key in m.value && answer.found.value == Found(m.value[key].0, m.value[key].1))
      && (m.Some? && key in m.value && Reading(load) && copy ==> answer.found.Some?)
  }

  function AfterAll(m: Option<Contents>, calls: seq<Call>, answers: seq<Answer>): Option<Contents>
    requires |calls| == |answers|
  {
    if calls == [] then m
    else
      var n := |calls| - 1;
      After(AfterAll(m, calls[..n], answers[..n]), calls[n], answers[n])
  }

  ghost predicate AllRight(m: Option<Contents>, calls: seq<Call>, answers: seq<Answer>)
    requires |calls| == |answers|
  {
    forall k :: 0 <= k < |calls| ==> Right(AfterAll(m, calls[..k], answers[..k]), calls[k], answers[k])
  }

  /** Any calls one after the other: the store is the map the successful ones make of it, and every answer is right for
      the map at its moment. */
  method Serve(store: Store, calls: seq<Call>) returns (answers: seq<Answer>)
    modifies store
    ensures |answers| == |calls| && AllRight(old(store.Stored()), calls, answers)
    ensures store.Stored() == AfterAll(old(store.Stored()), calls, answers)
  {
    answers := [];
    var i := 0;
    while i < |calls|
      invariant 0 <= i <= |calls| && |answers| == i
      invariant store.Stored() == AfterAll(old(store.Stored()), calls[..i], answers)
      invariant AllRight(old(store.Stored()), calls[..i], answers)
    {
      ghost var before := store.Stored();
      var answer := One(store, calls[i]);
      RightMore(old(store.Stored()), calls, i, answers, answer);
      answers := answers + [answer];
      i := i + 1;
    }
    assert calls[..i] == calls;
  }

  lemma RightMore(m: Option<Contents>, calls: seq<Call>, i: nat, answers: seq<Answer>, answer: Answer)
    requires i < |calls| && |answers| == i && AllRight(m, calls[..i], answers)
    requires Right(AfterAll(m, calls[..i], answers), calls[i], answer)
    ensures AllRight(m, calls[..i + 1], answers + [answer])
    ensures AfterAll(m, calls[..i + 1], answers + [answer]) == After(AfterAll(m, calls[..i], answers), calls[i], answer)
  {
    var c, a := calls[..i + 1], answers + [answer];
    hide Right, After;
    assert c[..i] == calls[..i] && a[..i] == answers;
    forall k | 0 <= k < i + 1
      ensures Right(AfterAll(m, c[..k], a[..k]), c[k], a[k])
    {
      assert c[..k] == calls[..i][..k] && a[..k] == answers[..k];
    }
  }

  method One(store: Store, call: Call) returns (answer: Answer)
    modifies store
    ensures Right(old(store.Stored()), call, answer) && store.Stored() == After(old(store.Stored()), call, answer)
  {
    hide Loaded, ToMap, Proper, Storable;
    match call
    case SetCall(key, kind, value, load, memory, save) =>
      var ok := store.Set(key, kind, value, load, memory, save);
      answer := Done(ok);
    case DeleteCall(key, load, save) =>
      var ok := store.Delete(key, load, save);
      answer := Done(ok);
    case GetCall(key, load, copy) =>
      var found := store.Get(key, load, copy);
      answer := Value(found);
  }

  /** What the last successful call on a key left there. */
  function Last(m: Contents, calls: seq<Call>, answers: seq<Answer>, key: CString): Option<(char, CString)>
    requires |calls| == |answers|
  {
    if calls == [] then if key in m then Some(m[key]) else None
    else
      var n := |calls| - 1;
      if calls[n].key == key && answers[n] == Done(true) && calls[n].SetCall? then Some((calls[n].kind, calls[n].value))
      else if calls[n].key == key && answers[n] == Done(true) && calls[n].DeleteCall? then None
      else Last(m, calls[..n], answers[..n], key)
  }

  /** The last successful write of a key is what is there, whatever happened to other keys or failed. */
  lemma {:induction false} LastWriteWins(m: Contents, calls: seq<Call>, answers: seq<Answer>, key: CString)
    requires |calls| == |answers|
    ensures var r := AfterAll(Some(m), calls, answers);
            r.Some? && Last(m, calls, answers, key) == if key in r.value then Some(r.value[key]) else None
  {
    if calls != [] {
      var n := |calls| - 1;
      LastWriteWins(m, calls[..n], answers[..n], key);
    }
  }

  // ---------------------------------------------------------------- sizes

  lemma {:induction false} SizeAppend(list: seq<Entry>, e: Entry)
    ensures Size(list + [e]) == Size(list) + 9 + |e.key| + |e.value|
  {
    if list == [] {
      assert ([] + [e])[1..] == [];
    } else {
      assert (list + [e])[1..] == list[1..] + [e];
      SizeAppend(list[1..], e);
    }
  }

  lemma {:induction false} SizeReverse(list: seq<Entry>)
    ensures Size(Reverse(list)) == Size(list)
  {
    if list != [] {
      SizeReverse(list[1..]);
      SizeAppend(Reverse(list[1..]), list[0]);
    }
  }

  /** A loaded list with one entry less always fits the file again. */
  lemma RemovedFits(file: Option<Blob>, list: seq<Entry>, i: nat)
    requires Loaded(file) == Some(list) && i < |list|
    ensures Storable(list[..i] + list[i + 1..])
  {
    EncodeDecode(file.value);
    SizeBounds(Reverse(list));
    SizeReverse(list);
    SizeRemove(list, i);
  }
}
