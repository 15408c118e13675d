/** The preferences file format (src/bridges/jni/preferences.c:110-207, 265-299): the accepted
    byte strings are exactly the encodings of duplicate-free record lists. */
module PreferencesCodec {
  import opened Common
  import opened Words

  const LIMIT := 1024 * 1024
  const MAX_ENTRIES := 4096

  const MAGIC: Blob := "VARCPR1\0"

  datatype Entry = Entry(key: CString, value: CString, kind: char)

  predicate KindOkay(kind: char) {
    kind == 'Z' || kind == 'I' || kind == 'F' || kind == 'S'
  }

  // ---------------------------------------------------------------- encoding

  function Record(e: Entry): (b: Blob)
    requires |e.key| < 0x1_0000_0000 && |e.value| < 0x1_0000_0000
    ensures |b| == 9 + |e.key| + |e.value|
  {
    var body: Blob := e.key + e.value;
    var head: Blob := [if e.kind as int < 256 then e.kind else '\0'];
    head + Word(|e.key|) + Word(|e.value|) + body
  }

  predicate Fits(list: seq<Entry>) {
    forall i :: 0 <= i < |list| ==> |list[i].key| < 0x1_0000_0000 && |list[i].value| < 0x1_0000_0000
  }

  function Records(list: seq<Entry>): (b: Blob)
    requires Fits(list)
  {
    if list == [] then [] else Record(list[0]) + Records(list[1..])
  }

  function Encode(list: seq<Entry>): (b: Blob)
    requires Fits(list) && |list| < 0x1_0000_0000
    ensures |b| == 12 + |Records(list)|
  {
    MAGIC + Word(|list|) + Records(list)
  }

  /** What the file may hold: known kinds, no key twice. */
  ghost predicate Proper(list: seq<Entry>) {
    && Fits(list)
    && (forall i :: 0 <= i < |list| ==> KindOkay(list[i].kind))
    && (forall i, j :: 0 <= i < j < |list| ==> list[i].key != list[j].key)
  }

  function Reverse(list: seq<Entry>): (r: seq<Entry>)
    ensures |r| == |list|
  {
    if list == [] then [] else Reverse(list[1..]) + [list[0]]
  }

  // ---------------------------------------------------------------- decoding

  predicate HasKey(list: seq<Entry>, key: CString) {
    exists i :: 0 <= i < |list| && list[i].key == key
  }

  predicate NoNul(b: Blob, at: nat, end: nat)
    requires at <= end <= |b|
  {
    forall i :: at <= i < end ==> b[i] != '\0'
  }

  /** One record at an offset, and the offset after it: lengths inside the file, a known kind
      and no NUL in the text. */
  function ParseRecord(b: Blob, at: nat): (r: Option<(Entry, nat)>)
    requires at <= |b|
    ensures r.Some? ==> at + 9 <= r.value.1 <= |b|
  {
    if |b| - at < 9 || !KindOkay(b[at]) then None
    else
      var key_length, value_length := ReadWord(b, at + 1), ReadWord(b, at + 5);
      var body := at + 9;
      if key_length > |b| - body || value_length > |b| - body - key_length then None
      else if !NoNul(b, body, body + key_length + value_length) then None
      else
        var key: CString := b[body..body + key_length];
        var value: CString := b[body + key_length..body + key_length + value_length];
        Some((Entry(key, value, b[at]), body + key_length + value_length))
  }

  /** `count` records from `at` on, each put before the ones already read. */
  function ParseRecords(b: Blob, at: nat, count: nat, entries: seq<Entry>): Option<seq<Entry>>
    requires at <= |b|
    decreases count
  {
    if count == 0 then if at == |b| then Some(entries) else None
    else
      var r := ParseRecord(b, at);
      if r.None? || HasKey(entries, r.value.0.key) then None
      else ParseRecords(b, r.value.1, count - 1, [r.value.0] + entries)
  }

  function Decode(b: Blob): Option<seq<Entry>> {
    if |b| < 12 || b[..8] != MAGIC || ReadWord(b, 8) > MAX_ENTRIES then None
    else ParseRecords(b, 12, ReadWord(b, 8), [])
  }

  // ---------------------------------------------------------------- they are inverse

  /** Where the parts of a record stand in the file. */
  lemma RecordParts(before: Blob, e: Entry, after: Blob)
    requires |e.key| < 0x1_0000_0000 && |e.value| < 0x1_0000_0000 && KindOkay(e.kind)
    ensures var b: Blob, at := before + Record(e) + after, |before|; var body := at + 9;
            && |Record(e)| == 9 + |e.key| + |e.value| && at + |Record(e)| <= |b|
            && b[at] == e.kind && b[at + 1..at + 5] == Word(|e.key|) && b[at + 5..at + 9] == Word(|e.value|)
            && b[body..body + |e.key|] == e.key
            && b[body + |e.key|..body + |e.key| + |e.value|] == e.value
  {
    hide Word, ReadWord;
    var b: Blob, at := before + Record(e) + after, |before|;
    var body := at + 9;
    assert b[at..at + |Record(e)|] == Record(e);
    assert forall k :: 0 <= k < |Record(e)| ==> b[at + k] == Record(e)[k];
    assert b[at] == e.kind;
    assert b[at + 1..at + 5] == Word(|e.key|);
    assert b[at + 5..at + 9] == Word(|e.value|);
    assert b[body..body + |e.key|] == e.key;
    assert b[body + |e.key|..body + |e.key| + |e.value|] == e.value;
  }

  /** Parsing at the start of an encoded record yields that record and nothing more. */
  lemma ParseWritten(before: Blob, e: Entry, after: Blob)
    requires |e.key| < 0x1_0000_0000 && |e.value| < 0x1_0000_0000 && KindOkay(e.kind)
    ensures ParseRecord(before + Record(e) + after, |before|) == Some((e, |before| + |Record(e)|))
  {
    hide Word, ReadWord, Record;
    RecordParts(before, e, after);
    var b: Blob, at := before + Record(e) + after, |before|;
    var body := at + 9;
    WordRoundTrip(|e.key|, b, at + 1);
    WordRoundTrip(|e.value|, b, at + 5);
    assert b[body..body + |e.key| + |e.value|] == e.key + e.value;
    forall i | body <= i < body + |e.key| + |e.value|
      ensures b[i] != '\0'
    {
      assert b[i] == (e.key + e.value)[i - body];
    }
  }

  lemma Cut(b: Blob, from: nat, at: nat, to: nat)
    requires from <= at <= to <= |b|
    ensures b[from..at] + b[at..to] == b[from..to]
  {
  }

  /** A parsed record re-encodes to the bytes it was parsed from. */
  lemma WriteParsed(b: Blob, at: nat)
    requires at <= |b| && ParseRecord(b, at).Some?
    ensures var (e, next) := ParseRecord(b, at).value;
            && |e.key| < 0x1_0000_0000 && |e.value| < 0x1_0000_0000 && KindOkay(e.kind)
            && b[at..next] == Record(e)
  {
    hide Word, ReadWord;
    var (e, next) := ParseRecord(b, at).value;
    var body := at + 9;
    WordRoundTrip(0, b, at + 1);
    WordRoundTrip(0, b, at + 5);
    assert Word(|e.key|) == b[at + 1..at + 5] && Word(|e.value|) == b[at + 5..at + 9];
    assert e.key == b[body..body + |e.key|] && e.value == b[body + |e.key|..next];
    Cut(b, at, at + 1, at + 5);
    Cut(b, at, at + 5, body);
    Cut(b, at, body, next);
    Cut(b, body, body + |e.key|, next);
    assert b[at..at + 1] == [b[at]];
  }

  lemma OtherKeys(list: seq<Entry>, entries: seq<Entry>)
    requires Proper(list) && list != []
    requires forall i :: 0 <= i < |list| ==> !HasKey(entries, list[i].key)
    ensures Proper(list[1..])
    ensures forall i :: 0 <= i < |list[1..]| ==> !HasKey([list[0]] + entries, list[1..][i].key)
  {
    var more := [list[0]] + entries;
    forall i | 0 <= i < |list[1..]|
      ensures !HasKey(more, list[1..][i].key)
    {
      assert list[1..][i] == list[i + 1];
      forall k | 0 <= k < |more|
        ensures more[k].key != list[i + 1].key
      {
        if k > 0 {
          assert entries[k - 1].key != list[i + 1].key;
        }
      }
    }
  }

  lemma {:induction false} DecodeFrom(before: Blob, list: seq<Entry>, entries: seq<Entry>)
    requires Proper(list)
    requires forall i :: 0 <= i < |list| ==> !HasKey(entries, list[i].key)
    ensures ParseRecords(before + Records(list), |before|, |list|, entries) == Some(Reverse(list) + entries)
    decreases |list|
  {
    hide ParseRecord, Record, Word, ReadWord;
    if list == [] {
      assert before + Records(list) == before;
      assert Reverse(list) + entries == entries;
    } else {
      var e := list[0];
      var b: Blob := before + Records(list);
      assert b == before + Record(e) + Records(list[1..]);
      ParseWritten(before, e, Records(list[1..]));
      var longer: Blob := before + Record(e);
      assert b == longer + Records(list[1..]);
      OtherKeys(list, entries);
      DecodeFrom(longer, list[1..], [e] + entries);
      assert Reverse(list[1..]) + ([e] + entries) == Reverse(list) + entries;
    }
  }

  /** Decoding an encoded list gives it back in reverse order. */
  lemma DecodeEncode(list: seq<Entry>)
    requires Proper(list) && |list| <= MAX_ENTRIES
    ensures Decode(Encode(list)) == Some(Reverse(list))
  {
    hide Word, ReadWord, ParseRecords, Records, Reverse;
    var before: Blob := MAGIC + Word(|list|);
    var b := Encode(list);
    assert b == before + Records(list);
    assert b[..8] == MAGIC;
    assert b[8..12] == Word(|list|);
    WordRoundTrip(|list|, b, 8);
    DecodeFrom(before, list, []);
    assert Reverse(list) + [] == Reverse(list);
  }

  lemma ProperCons(e: Entry, entries: seq<Entry>)
    requires Proper(entries) && !HasKey(entries, e.key) && KindOkay(e.kind)
    requires |e.key| < 0x1_0000_0000 && |e.value| < 0x1_0000_0000
    ensures Proper([e] + entries)
  {
    var more := [e] + entries;
    forall i, j | 0 <= i < j < |more|
      ensures more[i].key != more[j].key
    {
      if i == 0 {
        assert entries[j - 1].key != e.key;
      }
    }
  }

  lemma {:induction false} EncodeFrom(b: Blob, at: nat, count: nat, entries: seq<Entry>) returns (list: seq<Entry>)
    requires at <= |b| && ParseRecords(b, at, count, entries).Some? && Proper(entries)
    ensures |list| == count && Fits(list) && b[at..] == Records(list)
    ensures ParseRecords(b, at, count, entries).value == Reverse(list) + entries
    ensures Proper(Reverse(list) + entries)
    decreases count
  {
    hide ParseRecord, Record, Word, ReadWord;
    if count == 0 {
      list := [];
      assert Reverse(list) + entries == entries;
    } else {
      WriteParsed(b, at);
      var (e, next) := ParseRecord(b, at).value;
      var more := [e] + entries;
      ProperCons(e, entries);
      var rest := EncodeFrom(b, next, count - 1, more);
      list := [e] + rest;
      assert list[1..] == rest;
      assert b[at..] == b[at..next] + b[next..];
      assert Reverse(rest) + more == Reverse(list) + entries;
    }
  }

  lemma {:induction false} ReverseTwice(list: seq<Entry>)
    ensures Reverse(Reverse(list)) == list
    ensures forall i :: 0 <= i < |list| ==> Reverse(list)[i] == list[|list| - 1 - i]
  {
    if list != [] {
      ReverseTwice(list[1..]);
      ReverseAppend(Reverse(list[1..]), list[0]);
    }
  }

  lemma {:induction false} ReverseAppend(list: seq<Entry>, e: Entry)
    ensures Reverse(list + [e]) == [e] + Reverse(list)
  {
    if list != [] {
      assert (list + [e])[1..] == list[1..] + [e];
      ReverseAppend(list[1..], e);
    }
  }

  lemma ProperReverse(list: seq<Entry>)
    requires Proper(list)
    ensures Proper(Reverse(list))
  {
    ReverseTwice(list);
  }

  /** Whatever decodes is the encoding of what it decodes to, reversed: nothing else is accepted. */
  lemma EncodeDecode(b: Blob)
    requires Decode(b).Some?
    ensures var entries := Decode(b).value;
            Proper(entries) && |entries| <= MAX_ENTRIES && Fits(Reverse(entries)) && b == Encode(Reverse(entries))
  {
    hide Word, ReadWord, ParseRecords, Records, Reverse;
    var list := EncodeFrom(b, 12, ReadWord(b, 8), []);
    assert Reverse(list) + [] == Reverse(list);
    ReverseTwice(list);
    WordRoundTrip(0, b, 8);
    assert b == b[..8] + b[8..12] + b[12..];
  }

  /** The accepted byte strings are exactly the encodings of proper lists within the limit. */
  lemma AcceptedExactly(b: Blob)
    ensures Decode(b).Some? <==> exists list :: Proper(list) && |list| <= MAX_ENTRIES && b == Encode(list)
  {
    if Decode(b).Some? {
      EncodeDecode(b);
      ProperReverse(Decode(b).value);
    }
    if list :| Proper(list) && |list| <= MAX_ENTRIES && b == Encode(list) {
      DecodeEncode(list);
    }
  }
}
