/** Parsing of type and method descriptors (src/bridges/jni/descriptor.c).  The grammar is that of
    sections 4.3.2 and 4.3.3 of the Java Virtual Machine Specification, with the class names the code allows. */
module Descriptor {
  import opened Common

  const MAX_CALL_ARGS := 255

  // ---------------------------------------------------------------- the grammar

  datatype Type = Base(code: char) | Class(name: CString) | Array(element: Type)

  datatype Return = Void | Value(value: Type)

  datatype Signature = Signature(args: seq<Type>, ret: Return)

  predicate BaseCode(c: char) {
    c in {'Z', 'B', 'C', 'S', 'I', 'J', 'F', 'D'}
  }

  predicate NameChar(c: char) {
    c !in {'\0', '.', '(', '[', ')', ';'}
  }

  function Depth(t: Type): nat {
    if t.Array? then 1 + Depth(t.element) else 0
  }

  predicate LeafOkay(t: Type) {
    match t
    case Base(c) => BaseCode(c)
    case Class(name) => name != [] && forall k :: 0 <= k < |name| ==> NameChar(name[k])
    case Array(e) => LeafOkay(e)
  }

  predicate WellFormed(t: Type) {
    LeafOkay(t) && Depth(t) <= 255
  }

  predicate Allowed(r: Return, allowVoid: bool) {
    if r.Void? then allowVoid else WellFormed(r.value)
  }

  function Print(t: Type): (s: string)
    ensures |s| > 0
  {
    match t
    case Base(c) => [c]
    case Class(name) => "L" + name + ";"
    case Array(e) => "[" + Print(e)
  }

  function PrintReturn(r: Return): (s: string)
    ensures |s| > 0
  {
    if r.Void? then "V" else Print(r.value)
  }

  function PrintAll(ts: seq<Type>): string {
    if ts == [] then "" else Print(ts[0]) + PrintAll(ts[1..])
  }

  function PrintSignature(s: Signature): string {
    "(" + PrintAll(s.args) + ")" + PrintReturn(s.ret)
  }

  /** The slots an argument takes: two for `long` and `double` (section 4.3.3). */
  function Slots(t: Type): nat {
    if t == Base('J') || t == Base('D') then 2 else 1
  }

  function TotalSlots(ts: seq<Type>): nat {
    if ts == [] then 0 else Slots(ts[0]) + TotalSlots(ts[1..])
  }

  /** How a call sees a type: every reference is an `L`. */
  function Erase(t: Type): char {
    if t.Base? then t.code else 'L'
  }

  function EraseReturn(r: Return): char {
    if r.Void? then 'V' else Erase(r.value)
  }

  predicate SignatureOkay(s: Signature) {
    && (forall k :: 0 <= k < |s.args| ==> WellFormed(s.args[k]))
    && TotalSlots(s.args) <= 255
    && Allowed(s.ret, true)
  }

  /** `text` is the descriptor of the method signature `s`. */
  predicate Denotes(text: string, s: Signature) {
    SignatureOkay(s) && text == PrintSignature(s)
  }

  // ---------------------------------------------------------------- occurrences

  predicate Occurs(r: Return, text: string, i: nat, n: nat) {
    i < n <= |text| && text[i..n] == PrintReturn(r)
  }

  lemma OccursArray(e: Type, text: string, i: nat, n: nat)
    ensures Occurs(Value(Array(e)), text, i, n) <==> i < |text| && text[i] == '[' && Occurs(Value(e), text, i + 1, n)
  {
    if i + 1 < n <= |text| {
      assert text[i..n] == [text[i]] + text[i + 1..n];
      if text[i..n] == "[" + Print(e) {
        assert text[i] == ("[" + Print(e))[0];
        assert text[i + 1..n] == ("[" + Print(e))[1..];
      }
    }
  }

  function Dimensions(r: Return): nat {
    if r.Value? then Depth(r.value) else 0
  }

  /** The leaf under an array's dimensions. */
  function Leaf(r: Return): Return
    decreases Dimensions(r)
  {
    if r.Value? && r.value.Array? then Leaf(Value(r.value.element)) else r
  }

  function Wrap(t: Type, k: nat): (r: Type)
    ensures Depth(r) == k + Depth(t) && (LeafOkay(t) ==> LeafOkay(r))
  {
    if k == 0 then t else Array(Wrap(t, k - 1))
  }

  lemma FirstChar(r: Return, text: string, i: nat, n: nat)
    requires Occurs(r, text, i, n)
    ensures text[i] == match r
      case Void => 'V'
      case Value(t) => match t case Base(c) => c case Class(_) => 'L' case Array(_) => '['
  {
    assert text[i] == text[i..n][0];
  }

  /** Whatever type stands at `i`, its dimensions are the brackets there and its leaf follows them. */
  lemma {:induction false} BracketsAreDimensions(r: Return, text: string, i: nat, j: nat, n: nat)
    requires Occurs(r, text, i, n) && i <= j <= |text| && At(text, j) != '['
    requires r.Value? ==> LeafOkay(r.value)
    requires forall k :: i <= k < j ==> text[k] == '['
    ensures Dimensions(r) == j - i && Occurs(Leaf(r), text, j, n)
    decreases j - i
  {
    FirstChar(r, text, i, n);
    if i < j {
      OccursArray(r.value.element, text, i, n);
      BracketsAreDimensions(Value(r.value.element), text, i + 1, j, n);
    }
  }

  lemma {:induction false} WrappedOccurs(t: Type, text: string, i: nat, j: nat, n: nat)
    requires i <= j && Occurs(Value(t), text, j, n)
    requires forall k :: i <= k < j ==> text[k] == '['
    ensures Occurs(Value(Wrap(t, j - i)), text, i, n)
    decreases j - i
  {
    if i < j {
      WrappedOccurs(t, text, i + 1, j, n);
      OccursArray(Wrap(t, j - i - 1), text, i, n);
    }
  }

  /** The name of a class that stands at `j` ends at the first character no name has. */
  lemma ClassEnd(name: CString, text: string, j: nat, end: nat, n: nat)
    requires Occurs(Value(Class(name)), text, j, n) && LeafOkay(Class(name))
    requires j < end <= |text| && !NameChar(At(text, end))
    requires forall k :: j < k < end ==> NameChar(text[k])
    ensures end + 1 == n && text[end] == ';' && name == text[j + 1..end]
  {
    var s := "L" + name + ";";
    assert forall k :: 0 <= k < |s| ==> text[j + k] == s[k];
    assert text[n - 1] == ';';
    forall k | j < k < n - 1
      ensures NameChar(text[k])
    {
      assert text[k] == name[k - j - 1];
    }
    assert name == s[1..|s| - 1];
    assert text[j + 1..end] == text[j..n][1..|s| - 1];
  }

  /** A text starts with at most one type. */
  lemma {:induction false} OneTypeOnly(p: Return, q: Return, text: string, i: nat, m: nat, n: nat)
    requires Occurs(p, text, i, m) && Occurs(q, text, i, n)
    requires p.Value? ==> LeafOkay(p.value)
    requires q.Value? ==> LeafOkay(q.value)
    ensures p == q && m == n
    decreases Dimensions(p)
  {
    FirstChar(p, text, i, m);
    FirstChar(q, text, i, n);
    assert |text[i..m]| == |PrintReturn(p)| && |text[i..n]| == |PrintReturn(q)|;
    if p.Value? && p.value.Array? {
      OccursArray(p.value.element, text, i, m);
      OccursArray(q.value.element, text, i, n);
      OneTypeOnly(Value(p.value.element), Value(q.value.element), text, i + 1, m, n);
    } else if p.Value? && p.value.Class? {
      var name := p.value.name;
      var s := "L" + name + ";";
      assert forall k :: 0 <= k < |s| ==> text[i + k] == s[k];
      assert text[m - 1] == ';';
      forall k | i < k < m - 1
        ensures NameChar(text[k])
      {
        assert text[k] == name[k - i - 1];
      }
      ClassEnd(name, text, i, m - 1, m);
      ClassEnd(q.value.name, text, i, m - 1, n);
    }
  }

  /** No type that is allowed here stands at `i`. */
  ghost predicate NothingAt(text: string, i: nat, allowVoid: bool) {
    forall r, n: nat :: Allowed(r, allowVoid) ==> !Occurs(r, text, i, n)
  }

  // ---------------------------------------------------------------- the parser

  /** `__parse_type`: succeeds exactly when an allowed type stands at the cursor. */
  method ParseType(text: CString, cursor: nat, allowVoid: bool)
      returns (ok: bool, next: nat, kind: char, ghost found: Return)
    requires cursor <= |text|
    ensures ok ==> Allowed(found, allowVoid) && Occurs(found, text, cursor, next) && kind == EraseReturn(found)
    ensures !ok ==> next == cursor
    ensures !ok ==> NothingAt(text, cursor, allowVoid)
  {
    hide NothingAt, Leaf, Dimensions;
    ok, next, found := false, cursor, Void;
    var at, dimensions := cursor, 0;
    while At(text, at) == '['
      invariant cursor <= at <= |text| && dimensions == at - cursor
      invariant forall k :: cursor <= k < at ==> text[k] == '['
      decreases |text| - at
    {
      dimensions := dimensions + 1;
      at := at + 1;
    }
    ghost var leaf := at;
    if dimensions > 255 || At(text, at) == '\0' {
      NoType(text, cursor, leaf, allowVoid);
      return false, cursor, '\0', Void;
    }
    kind := text[at];
    at := at + 1;
    ghost var t: Type;
    if kind == 'L' {
      var name := at;
      while At(text, at) != '\0' && At(text, at) != ';'
        invariant name <= at <= |text|
        invariant forall k :: name <= k < at ==> NameChar(text[k])
        decreases |text| - at
      {
        if text[at] in ".([)" {
          NoClass(text, cursor, leaf, at, allowVoid);
          return false, cursor, kind, Void;
        }
        at := at + 1;
      }
      if at == name || At(text, at) != ';' {
        NoClass(text, cursor, leaf, at, allowVoid);
        return false, cursor, kind, Void;
      }
      t := Class(text[name..at]);
      assert text[leaf..at + 1] == "L" + text[name..at] + ";";
      at := at + 1;
    } else if kind == 'V' {
      if !allowVoid || dimensions > 0 {
        NoType(text, cursor, leaf, allowVoid);
        return false, cursor, kind, Void;
      }
      assert text[leaf..at] == "V";
      return true, at, kind, Void;
    } else {
      if kind !in "ZBCSIJFD" {
        NoType(text, cursor, leaf, allowVoid);
        return false, cursor, kind, Void;
      }
      t := Base(kind);
      assert text[leaf..at] == [kind];
    }
    WrappedOccurs(t, text, cursor, leaf, at);
    if dimensions > 0 {
      kind := 'L';
    }
    return true, at, kind, Value(Wrap(t, dimensions));
  }

  /** Too many dimensions, or a character no type starts with: no type stands there. */
  lemma NoType(text: CString, cursor: nat, leaf: nat, allowVoid: bool)
    requires cursor <= leaf <= |text| && At(text, leaf) != '['
    requires forall k :: cursor <= k < leaf ==> text[k] == '['
    requires var c := At(text, leaf);
             leaf - cursor > 255 || !(c == 'L' || BaseCode(c) || (c == 'V' && allowVoid && leaf == cursor))
    ensures NothingAt(text, cursor, allowVoid)
  {
    forall r, n: nat | Allowed(r, allowVoid) && Occurs(r, text, cursor, n)
      ensures false
    {
      BracketsAreDimensions(r, text, cursor, leaf, n);
      FirstChar(Leaf(r), text, leaf, n);
      LeafAllowed(r);
    }
  }

  lemma {:induction false} LeafAllowed(r: Return)
    requires r.Value? ==> LeafOkay(r.value)
    ensures Leaf(r).Void? <==> r.Void?
    ensures Leaf(r).Value? ==> !Leaf(r).value.Array? && LeafOkay(Leaf(r).value)
    decreases Dimensions(r)
  {
    if r.Value? && r.value.Array? {
      LeafAllowed(Value(r.value.element));
    }
  }

  /** A class name that is empty, has a refused character or no end is no type. */
  lemma NoClass(text: CString, cursor: nat, leaf: nat, end: nat, allowVoid: bool)
    requires cursor <= leaf < end <= |text| && text[leaf] == 'L'
    requires forall k :: cursor <= k < leaf ==> text[k] == '['
    requires forall k :: leaf < k < end ==> NameChar(text[k])
    requires !NameChar(At(text, end)) && (end == leaf + 1 || At(text, end) != ';')
    ensures NothingAt(text, cursor, allowVoid)
  {
    forall r, n: nat | Allowed(r, allowVoid) && Occurs(r, text, cursor, n)
      ensures false
    {
      BracketsAreDimensions(r, text, cursor, leaf, n);
      FirstChar(Leaf(r), text, leaf, n);
      LeafAllowed(r);
      ClassEnd(Leaf(r).value.name, text, leaf, end, n);
    }
  }

  datatype Parsed = Parsed(args: string, slots: nat, ret: char)

  function EraseAll(ts: seq<Type>): string {
    seq(|ts|, k requires 0 <= k < |ts| => Erase(ts[k]))
  }

  lemma {:induction false} SlotsAppend(ts: seq<Type>, t: Type)
    ensures TotalSlots(ts + [t]) == TotalSlots(ts) + Slots(t)
  {
    if ts == [] {
      assert ([] + [t])[1..] == [];
    } else {
      assert (ts + [t])[1..] == ts[1..] + [t];
      SlotsAppend(ts[1..], t);
    }
  }

  lemma {:induction false} PrintAppend(ts: seq<Type>, t: Type)
    ensures PrintAll(ts + [t]) == PrintAll(ts) + Print(t)
  {
    if ts == [] {
      assert ([] + [t])[1..] == [];
    } else {
      assert (ts + [t])[1..] == ts[1..] + [t];
      PrintAppend(ts[1..], t);
    }
  }

  lemma {:induction false} SlotsMonotone(ts: seq<Type>, k: nat)
    requires k <= |ts|
    ensures k <= TotalSlots(ts[..k]) <= TotalSlots(ts)
  {
    if k > 0 {
      assert ts[..k][1..] == ts[1..][..k - 1];
      SlotsMonotone(ts[1..], k - 1);
    }
  }

  /** What is left to print of `s` at `cursor`, once its first arguments have been read. */
  predicate Remains(s: Signature, args: seq<Type>, text: string, cursor: nat) {
    && cursor <= |text|
    && args <= s.args
    && text[cursor..] == PrintAll(s.args[|args|..]) + ")" + PrintReturn(s.ret)
  }

  /** At the cursor stands either the closing parenthesis or the next argument. */
  lemma NextArgument(s: Signature, args: seq<Type>, text: string, cursor: nat)
    requires SignatureOkay(s) && Remains(s, args, text, cursor)
    ensures cursor < |text|
    ensures text[cursor] == ')' <==> |args| == |s.args|
    ensures |args| < |s.args| ==>
              var t := s.args[|args|];
              Occurs(Value(t), text, cursor, cursor + |Print(t)|) && Remains(s, args + [t], text, cursor + |Print(t)|)
    ensures |args| == |s.args| ==> text[cursor..] == ")" + PrintReturn(s.ret)
  {
    if |args| == |s.args| {
      NoArgument(s, args, text, cursor);
    } else {
      AnArgument(s, args, text, cursor);
      var t := s.args[|args|];
      hide SignatureOkay, Remains, Occurs, TotalSlots;
      StartsNoEnd(s, |args|);
      FirstChar(Value(t), text, cursor, cursor + |Print(t)|);
    }
  }

  lemma NoArgument(s: Signature, args: seq<Type>, text: string, cursor: nat)
    requires Remains(s, args, text, cursor) && |args| == |s.args|
    ensures cursor < |text| && text[cursor] == ')' && text[cursor..] == ")" + PrintReturn(s.ret)
  {
    hide PrintReturn;
    assert s.args[|args|..] == [];
    assert text[cursor] == text[cursor..][0];
  }

  lemma StartsNoEnd(s: Signature, k: nat)
    requires SignatureOkay(s) && k < |s.args|
    ensures match s.args[k] case Base(c) => c != ')' case Class(_) => true case Array(_) => true
  {
    assert WellFormed(s.args[k]);
  }

  lemma AnArgument(s: Signature, args: seq<Type>, text: string, cursor: nat)
    requires Remains(s, args, text, cursor) && |args| < |s.args|
    ensures var t := s.args[|args|];
            && cursor < |text| && Occurs(Value(t), text, cursor, cursor + |Print(t)|)
            && Remains(s, args + [t], text, cursor + |Print(t)|)
  {
    hide Print, PrintReturn;
    var t, rest := s.args[|args|], s.args[|args|..];
    assert rest[1..] == s.args[|args + [t]|..];
    assert PrintAll(rest) == Print(t) + PrintAll(rest[1..]);
    PrintedIs(t);
    Cut(text, cursor, Print(t), PrintAll(rest[1..]), ")" + PrintReturn(s.ret));
  }

  lemma PrintedIs(t: Type)
    ensures PrintReturn(Value(t)) == Print(t)
  {
  }

  lemma Cut(text: string, cursor: nat, a: string, b: string, c: string)
    requires cursor <= |text| && a != "" && (text[cursor..] == a + b + c || text[cursor..] == a + (b + c))
    ensures cursor < cursor + |a| <= |text|
    ensures text[cursor..cursor + |a|] == a && text[cursor + |a|..] == b + c
  {
    assert |text[cursor..]| == |a| + |b| + |c|;
    assert text[cursor..cursor + |a|] == text[cursor..][..|a|];
    assert text[cursor + |a|..] == text[cursor..][|a|..];
  }

  /** `read` are the first arguments of every signature `t` may denote, and the rest stands at `cursor`. */
  ghost predicate Leads(t: string, read: seq<Type>, cursor: nat) {
    forall s :: Denotes(t, s) ==> Remains(s, read, t, cursor)
  }

  /** Behind the opening parenthesis everything remains. */
  lemma StartOf(t: string, s: Signature)
    requires Denotes(t, s)
    ensures t != "" && Remains(s, [], t, 1)
  {
    hide SignatureOkay, PrintAll, PrintReturn;
    assert s.args[0..] == s.args;
    var rest := PrintAll(s.args) + ")" + PrintReturn(s.ret);
    assert t == "(" + rest;
    assert t[1..] == rest;
  }

  lemma LeadsStart(t: CString)
    requires At(t, 0) == '('
    ensures Leads(t, [], 1)
  {
    hide Denotes, Remains;
    forall s | Denotes(t, s)
      ensures Remains(s, [], t, 1)
    {
      StartOf(t, s);
    }
  }

  lemma RoomFor(s: Signature, t: string, read: seq<Type>, cursor: nat)
    requires SignatureOkay(s) && Remains(s, read, t, cursor) && At(t, cursor) != ')'
    ensures |read| < |s.args| && |read| < TotalSlots(read + [s.args[|read|]]) <= 255
  {
    hide SignatureOkay, Remains, Occurs, TotalSlots;
    NextArgument(s, read, t, cursor);
    ReadSoFar(s, read, t, cursor);
    SlotsMonotone(s.args, |read| + 1);
    assert s.args[..|read| + 1] == read + [s.args[|read|]];
  }

  lemma ReadSoFar(s: Signature, read: seq<Type>, t: string, cursor: nat)
    requires SignatureOkay(s) && Remains(s, read, t, cursor)
    ensures |read| <= |s.args| && read == s.args[..|read|] && TotalSlots(s.args) <= 255
  {
  }

  /** Before another argument there is still room for it. */
  lemma LeadsRoom(t: string, read: seq<Type>, cursor: nat)
    requires Leads(t, read, cursor) && At(t, cursor) != ')'
    ensures |read| <= TotalSlots(read)
    ensures forall s :: Denotes(t, s) ==> |read| < |s.args| && |read| < TotalSlots(read + [s.args[|read|]]) <= 255
  {
    hide TotalSlots, PrintSignature, SignatureOkay, Remains;
    assert read[..|read|] == read;
    SlotsMonotone(read, |read|);
    forall s | Denotes(t, s)
      ensures |read| < |s.args| && |read| < TotalSlots(read + [s.args[|read|]]) <= 255
    {
      RoomFor(s, t, read, cursor);
    }
  }

  /** Reading one more argument, or finding none. */
  lemma LeadsNext(t: CString, read: seq<Type>, cursor: nat, good: bool, found: Return, next: nat)
    requires Leads(t, read, cursor) && At(t, cursor) != ')'
    requires good ==> Allowed(found, false) && Occurs(found, t, cursor, next)
    requires !good ==> NothingAt(t, cursor, false)
    ensures good ==> Leads(t, read + [found.value], next)
    ensures !good ==> forall s :: !Denotes(t, s)
    ensures good ==> forall s :: Denotes(t, s) ==> |read| < |s.args| && s.args[|read|] == found.value
  {
    forall s | Denotes(t, s)
      ensures good && |read| < |s.args| && s.args[|read|] == found.value
      ensures Remains(s, read + [found.value], t, next)
    {
      NextArgument(s, read, t, cursor);
      var a := s.args[|read|];
      if good {
        OneTypeOnly(Value(a), found, t, cursor, cursor + |Print(a)|, next);
      }
    }
  }

  lemma EndOf(s: Signature, t: string, read: seq<Type>, cursor: nat)
    requires SignatureOkay(s) && Remains(s, read, t, cursor) && cursor < |t| && t[cursor] == ')'
    ensures s.args == read && Occurs(s.ret, t, cursor + 1, |t|) && Allowed(s.ret, true)
  {
    hide WellFormed;
    NextArgument(s, read, t, cursor);
    assert t[cursor + 1..|t|] == t[cursor..][1..];
  }

  /** After the last argument: the parenthesis, the result, and nothing more. */
  lemma LeadsEnd(t: CString, read: seq<Type>, cursor: nat, good: bool, found: Return, next: nat)
    requires Leads(t, read, cursor) && cursor < |t| && t[cursor] == ')'
    requires good ==> Allowed(found, true) && Occurs(found, t, cursor + 1, next)
    requires !good ==> NothingAt(t, cursor + 1, true)
    ensures forall s :: Denotes(t, s) ==> good && s == Signature(read, found) && next == |t|
  {
    hide TotalSlots, PrintSignature, SignatureOkay, Remains, Occurs, LeafOkay;
    forall s | Denotes(t, s)
      ensures good && s == Signature(read, found) && next == |t|
    {
      EndOf(s, t, read, cursor);
      if good {
        OneTypeOnly(s.ret, found, t, cursor + 1, |t|, next);
      }
    }
  }

  lemma WholeSignature(t: string, read: seq<Type>, cursor: nat, found: Return)
    requires SignatureOkay(Signature(read, found))
    requires cursor < |t| && t[cursor] == ')' && t[..cursor] == "(" + PrintAll(read)
    requires Occurs(found, t, cursor + 1, |t|)
    ensures Denotes(t, Signature(read, found))
  {
    hide SignatureOkay, PrintAll, PrintReturn;
    assert t[cursor + 1..] == t[cursor + 1..|t|];
    Join(t, cursor, PrintAll(read), PrintReturn(found));
  }

  lemma Join(t: string, cursor: nat, head: string, tail: string)
    requires cursor < |t| && t[cursor] == ')' && t[..cursor] == "(" + head && t[cursor + 1..] == tail
    ensures t == "(" + head + ")" + tail
  {
    assert t == t[..cursor] + [t[cursor]] + t[cursor + 1..];
  }

  lemma ReadOneMore(t: CString, read: seq<Type>, a: Type, from: nat, cursor: nat)
    requires Occurs(Value(a), t, from, cursor) && t[..from] == "(" + PrintAll(read)
    ensures t[..cursor] == "(" + PrintAll(read + [a])
    requires LeafOkay(a)
    ensures TotalSlots(read + [a]) == TotalSlots(read) + if Erase(a) == 'J' || Erase(a) == 'D' then 2 else 1
    ensures EraseAll(read + [a]) == EraseAll(read) + [Erase(a)]
  {
    SlotsAppend(read, a);
    PrintAppend(read, a);
    assert t[..cursor] == t[..from] + t[from..cursor];
  }

  /** `jni_sig_parse`: the accepted texts are exactly the descriptors of signatures within the limits,
      and the fields filled in are those of the one signature the text denotes. */
  method SigParse(text: Option<CString>, into: bool) returns (ok: bool, sig: Parsed)
    ensures ok <==> into && text.Some? && exists s :: Denotes(text.value, s)
    ensures ok ==> forall s :: Denotes(text.value, s) ==>
                                 sig == Parsed(EraseAll(s.args), TotalSlots(s.args), EraseReturn(s.ret))
  {
    hide Denotes, Remains, Leads, Occurs, PrintAll, TotalSlots, EraseAll;
    sig := Parsed("", 0, '\0');
    if text.None? || !into {
      return false, sig;
    }
    var t := text.value;
    if At(t, 0) != '(' {
      NoSignature(t);
      return false, sig;
    }
    ghost var read: seq<Type> := [];
    var cursor: nat := 1;
    LeadsStart(t);
    Nothing(t);
    while At(t, cursor) != ')'
      invariant cursor <= |t| && t[..cursor] == "(" + PrintAll(read)
      invariant forall k :: 0 <= k < |read| ==> WellFormed(read[k])
      invariant sig == Parsed(EraseAll(read), TotalSlots(read), '\0') && sig.slots <= 255
      invariant |sig.args| == |read|
      invariant Leads(t, read, cursor)
      decreases |t| - cursor
    {
      LeadsRoom(t, read, cursor);
      if |sig.args| == MAX_CALL_ARGS {
        return false, sig;
      }
      ghost var from := cursor;
      var good, kind; ghost var found;
      good, cursor, kind, found := ParseType(t, cursor, false);
      LeadsNext(t, read, from, good, found, cursor);
      if !good {
        return false, sig;
      }
      ReadOneMore(t, read, found.value, from, cursor);
      OccursForward(found, t, from, cursor);
      sig := sig.(args := sig.args + [kind], slots := sig.slots + if kind == 'J' || kind == 'D' then 2 else 1);
      read := read + [found.value];
      if sig.slots > 255 {
        return false, sig;
      }
    }
    ghost var close := cursor;
    cursor := cursor + 1;
    var good, kind; ghost var found;
    good, cursor, kind, found := ParseType(t, cursor, true);
    LeadsEnd(t, read, close, good, found, cursor);
    if !good {
      return false, sig;
    }
    OccursForward(found, t, close + 1, cursor);
    sig := sig.(ret := kind);
    ok := At(t, cursor) == '\0';
    if ok {
      WholeSignature(t, read, close, found);
    }
  }

  lemma OccursForward(r: Return, text: string, i: nat, n: nat)
    requires Occurs(r, text, i, n)
    ensures i < n <= |text|
  {
  }

  lemma Nothing(t: CString)
    requires At(t, 0) == '('
    ensures t[..1] == "(" + PrintAll([]) && TotalSlots([]) == 0 && EraseAll([]) == ""
  {
  }

  lemma NoSignature(text: CString)
    requires At(text, 0) != '('
    ensures forall s :: !Denotes(text, s)
  {
    forall s
      ensures At(PrintSignature(s), 0) == '('
    {
    }
  }

  /** `jni_type_parse`: the accepted texts are exactly the field types. */
  method TypeParse(text: Option<CString>, into: bool) returns (ok: bool, kind: char)
    ensures ok <==> into && text.Some? && exists t :: WellFormed(t) && text.value == Print(t)
    ensures ok ==> forall t :: WellFormed(t) && text.value == Print(t) ==> kind == Erase(t)
  {
    if text.None? || !into {
      return false, '\0';
    }
    var s := text.value;
    var good, next; ghost var found;
    good, next, kind, found := ParseType(s, 0, false);
    forall t | WellFormed(t) && s == Print(t)
      ensures good && found == Value(t) && next == |s|
    {
      assert s[0..|s|] == s;
      assert Occurs(Value(t), s, 0, |s|);
      if good {
        OneTypeOnly(Value(t), found, s, 0, |s|, next);
      }
    }
    ok := good && At(s, next) == '\0';
    if ok {
      assert s[0..|s|] == s == Print(found.value);
    }
  }

  /** A method descriptor denotes one signature only. */
  lemma DenotesOne(text: CString, p: Signature, q: Signature)
    requires Denotes(text, p) && Denotes(text, q)
    ensures p == q
  {
    hide SignatureOkay, PrintSignature, Remains;
    StartOf(text, p);
    StartOf(text, q);
    SameFrom(text, p, q, [], 1);
  }

  lemma {:induction false} SameFrom(text: string, p: Signature, q: Signature, args: seq<Type>, cursor: nat)
    requires SignatureOkay(p) && SignatureOkay(q)
    requires Remains(p, args, text, cursor) && Remains(q, args, text, cursor)
    ensures p == q
    decreases |p.args| - |args|
  {
    hide SignatureOkay, Remains, Print;
    RemainsWithin(p, args, text, cursor);
    if |args| < |p.args| {
      var s := p.args[|args|];
      SameNext(text, p, q, args, cursor);
      SameFrom(text, p, q, args + [s], cursor + |Print(s)|);
    } else {
      SameEnd(text, p, q, args, cursor);
    }
  }

  lemma RemainsWithin(s: Signature, args: seq<Type>, text: string, cursor: nat)
    requires Remains(s, args, text, cursor)
    ensures cursor <= |text| && |args| <= |s.args|
    ensures |args| == |s.args| ==> args == s.args
  {
  }

  lemma ArgumentOkay(s: Signature, k: nat)
    requires SignatureOkay(s) && k < |s.args|
    ensures LeafOkay(s.args[k])
  {
    assert WellFormed(s.args[k]);
  }

  lemma SameNext(text: string, p: Signature, q: Signature, args: seq<Type>, cursor: nat)
    requires SignatureOkay(p) && SignatureOkay(q) && |args| < |p.args|
    requires Remains(p, args, text, cursor) && Remains(q, args, text, cursor)
    ensures |args| < |q.args| && p.args[|args|] == q.args[|args|]
    ensures var s := p.args[|args|]; var next := cursor + |Print(s)|;
            Remains(p, args + [s], text, next) && Remains(q, args + [s], text, next)
  {
    hide SignatureOkay, Remains, Print, Occurs, LeafOkay;
    NextArgument(p, args, text, cursor);
    NextArgument(q, args, text, cursor);
    RemainsWithin(q, args, text, cursor);
    ArgumentOkay(p, |args|);
    ArgumentOkay(q, |args|);
    var s, t := p.args[|args|], q.args[|args|];
    OneTypeOnly(Value(s), Value(t), text, cursor, cursor + |Print(s)|, cursor + |Print(t)|);
  }

  lemma ResultOkay(s: Signature)
    requires SignatureOkay(s)
    ensures s.ret.Value? ==> LeafOkay(s.ret.value)
  {
  }

  lemma SameEnd(text: string, p: Signature, q: Signature, args: seq<Type>, cursor: nat)
    requires SignatureOkay(p) && SignatureOkay(q) && |args| == |p.args|
    requires Remains(p, args, text, cursor) && Remains(q, args, text, cursor)
    ensures p == q
  {
    hide SignatureOkay, Remains, PrintReturn, LeafOkay;
    NextArgument(p, args, text, cursor);
    NextArgument(q, args, text, cursor);
    RemainsWithin(p, args, text, cursor);
    RemainsWithin(q, args, text, cursor);
    ResultOkay(p);
    ResultOkay(q);
    var rest := text[cursor..];
    assert rest[1..] == PrintReturn(p.ret) == PrintReturn(q.ret);
    assert rest[1..][0..|rest| - 1] == rest[1..];
    OneTypeOnly(p.ret, q.ret, rest[1..], 0, |rest| - 1, |rest| - 1);
  }
}
