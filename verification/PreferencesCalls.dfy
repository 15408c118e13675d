/** When the preferences can be read, kept and saved (src/bridges/jni/preferences.c:110-317), told by the bytes of the
    file and the calls that may fail. */
module PreferencesCalls {
  import opened Common
  import opened PreferencesCodec
  import opened Words
  import opened Preferences

  /** The kinds are the four of the Java types that preferences hold: a value of one is kept, of another refused. */
  lemma KindsExactly(key: CString, value: CString, kind: char)
    requires |key| < 0x1_0000_0000 && |value| < 0x1_0000_0000
    ensures KindOkay(kind) <==> kind in "ZIFS"
    ensures Decode(Encode([Entry(key, value, kind)])).Some? <==> kind in "ZIFS"
  {
    var e := Entry(key, value, kind);
    KindsAre(kind);
    if KindOkay(kind) {
      DecodeEncode([e]);
    } else {
      OtherKind(e);
    }
  }

  lemma KindsAre(kind: char)
    ensures KindOkay(kind) <==> kind in "ZIFS"
  {
    assert "ZIFS"[0] == 'Z' && "ZIFS"[1] == 'I' && "ZIFS"[2] == 'F' && "ZIFS"[3] == 'S';
  }

  lemma OtherKind(e: Entry)
    requires |e.key| < 0x1_0000_0000 && |e.value| < 0x1_0000_0000 && !KindOkay(e.kind)
    ensures Decode(Encode([e])).None?
  {
    hide Word, ReadWord;
    var b := Encode([e]);
    assert Records([e]) == Record(e) + Records([e][1..]) == Record(e);
    assert b == MAGIC + Word(1) + Record(e);
    assert b[8..12] == Word(1);
    WordRoundTrip(1, b, 8);
    assert b[12] == Record(e)[0];
    assert ParseRecord(b, 12).None?;
  }

  /** A list can be saved exactly if its file has at most a megabyte and it has at most 4096 entries. */
  lemma StorableExactly(list: seq<Entry>)
    requires Fits(list) && |list| < 0x1_0000_0000
    ensures Storable(list) <==> |Encode(list)| <= 1048576 && |list| <= 4096
  {
    SizeBounds(list);
  }

  /** Saving works exactly if every one of its steps does. */
  lemma SucceedsExactly(io: SaveIo)
    ensures Succeeds(io) <==> io == SaveIo(true, true, true, true, true, true)
  {
  }

  /** The steps of reading that work before the records are made. */
  predicate Opens(io: LoadIo) {
    io.open && io.seek && io.buffer && io.read
  }

  /** The file holds the list, which is within the limits. */
  ghost predicate Keeps(b: Blob, list: seq<Entry>) {
    Proper(list) && |list| <= 4096 && b == Encode(list) && |b| <= 1048576
  }

  lemma LoadedIs(b: Blob) returns (list: seq<Entry>)
    requires Loaded(Some(b)).Some?
    ensures Keeps(b, list) && Loaded(Some(b)) == Some(Reverse(list))
  {
    EncodeDecode(b);
    hide Encode, Decode, Proper, Reverse;
    ProperReverse(Decode(b).value);
    list := Reverse(Decode(b).value);
    ReverseTwice(Decode(b).value);
  }

  lemma KeptIsLoaded(b: Blob, list: seq<Entry>)
    requires Keeps(b, list)
    ensures Loaded(Some(b)) == Some(Reverse(list))
  {
    DecodeEncode(list);
    hide Decode, Proper, Reverse, Records;
  }

  /** The preferences can be read exactly if the file is not there, or if it holds a list and no step fails that reading
      it takes. An absent file only needs to be found absent. */
  lemma ReadsExactly(file: Option<Blob>, io: LoadIo)
    ensures Reads(file, io).Some? <==>
            if file.None? then io.open
            else Opens(io) && exists list :: Keeps(file.value, list) && forall k: nat :: k < |list| ==> io.record(k)
  {
    hide Loaded, Keeps;
    if file.None? {
      NothingKept();
    } else {
      if Loaded(file).Some? {
        var list := LoadedIs(file.value);
      }
      if list :| Keeps(file.value, list) && forall k: nat :: k < |list| ==> io.record(k) {
        KeptIsLoaded(file.value, list);
      }
    }
  }

  lemma NothingKept()
    ensures Loaded(None) == Some([])
  {
  }
}
