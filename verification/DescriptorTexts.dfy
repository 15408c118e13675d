/** The texts the descriptor parser accepts (src/bridges/jni/descriptor.c:5-121), letter by letter. */
module DescriptorTexts {
  import opened Common
  import opened Descriptor

  /** One of the eight base types, or a class: an L, a name and a semicolon. */
  predicate LeafText(s: string) {
    || s in {"B", "C", "D", "F", "I", "J", "S", "Z"}
    || (|s| > 2 && s[0] == 'L' && s[|s| - 1] == ';' && forall k :: 0 < k < |s| - 1 ==> s[k] !in "\0.([);")
  }

  function Brackets(n: nat): (s: string)
    ensures |s| == n
  {
    if n == 0 then "" else "[" + Brackets(n - 1)
  }

  /** At most 255 brackets before such a leaf. */
  predicate FieldText(s: string) {
    exists n: nat :: n <= 255 && n <= |s| && s[..n] == Brackets(n) && LeafText(s[n..])
  }

  lemma LeafIs(t: Type)
    requires LeafOkay(t) && !t.Array?
    ensures LeafText(Print(t))
  {
    if t.Class? {
      var s := Print(t);
      assert forall k :: 0 < k < |s| - 1 ==> s[k] == t.name[k - 1];
    }
  }

  lemma LeafOf(s: CString) returns (t: Type)
    requires LeafText(s)
    ensures LeafOkay(t) && !t.Array? && Print(t) == s
  {
    if |s| > 2 && s[0] == 'L' && s[|s| - 1] == ';' {
      t := Class(s[1..|s| - 1]);
      assert s == "L" + s[1..|s| - 1] + ";";
    } else {
      t := Base(s[0]);
    }
  }

  lemma {:induction false} FieldIs(t: Type)
    requires LeafOkay(t)
    ensures var n := Depth(t); n <= |Print(t)| && Print(t)[..n] == Brackets(n) && LeafText(Print(t)[n..])
  {
    if t.Array? {
      FieldIs(t.element);
      var n, s := Depth(t), Print(t);
      assert s[..n] == "[" + Print(t.element)[..n - 1];
      assert s[n..] == Print(t.element)[n - 1..];
    } else {
      LeafIs(t);
      assert Print(t)[0..] == Print(t) && Print(t)[..0] == "";
    }
  }

  lemma {:induction false} FieldOf(s: CString, n: nat) returns (t: Type)
    requires n <= |s| && s[..n] == Brackets(n) && LeafText(s[n..])
    ensures LeafOkay(t) && Depth(t) == n && Print(t) == s
  {
    if n == 0 {
      assert s[0..] == s;
      t := LeafOf(s);
    } else {
      var rest: CString := s[1..];
      assert s[0] == s[..n][0] == '[';
      assert rest[..n - 1] == s[..n][1..] == Brackets(n - 1);
      assert rest[n - 1..] == s[n..];
      var e := FieldOf(rest, n - 1);
      t := Array(e);
      assert s == "[" + rest;
    }
  }

  /** A text is a field descriptor exactly if it is at most 255 brackets, and a base type or a class. */
  lemma FieldsExactly(s: CString)
    ensures (exists t :: WellFormed(t) && s == Print(t)) <==> FieldText(s)
  {
    hide LeafText, LeafOkay;
    if t :| WellFormed(t) && s == Print(t) {
      FieldIs(t);
    }
    if n: nat :| n <= 255 && n <= |s| && s[..n] == Brackets(n) && LeafText(s[n..]) {
      var t := FieldOf(s, n);
      assert WellFormed(t);
    }
  }

  /** A call sees a base type as its letter, and every reference as L. */
  lemma ErasedByText(t: Type)
    requires LeafOkay(t)
    ensures Erase(t) == (if Print(t)[0] == '[' then 'L' else Print(t)[0])
    ensures Slots(t) == (if Print(t) == "J" || Print(t) == "D" then 2 else 1)
  {
  }

  // ---------------------------------------------------------------- methods

  function Joined(args: seq<CString>): string {
    if args == [] then "" else args[0] + Joined(args[1..])
  }

  /** A long and a double take two of the slots of a call. */
  function SlotsOf(args: seq<CString>): nat {
    if args == [] then 0 else (if args[0] == "J" || args[0] == "D" then 2 else 1) + SlotsOf(args[1..])
  }

  predicate MethodText(s: string, args: seq<CString>, ret: CString) {
    && (forall k :: 0 <= k < |args| ==> FieldText(args[k]))
    && SlotsOf(args) <= 255 && (ret == "V" || FieldText(ret))
    && s == "(" + Joined(args) + ")" + ret
  }

  lemma OneOf(s: CString) returns (t: Type)
    requires FieldText(s)
    ensures WellFormed(t) && Print(t) == s
  {
    FieldsExactly(s);
    t :| WellFormed(t) && s == Print(t);
  }

  lemma {:induction false} AllOf(args: seq<CString>) returns (ts: seq<Type>)
    requires forall k :: 0 <= k < |args| ==> FieldText(args[k])
    ensures |ts| == |args| && forall k :: 0 <= k < |ts| ==> WellFormed(ts[k])
    ensures PrintAll(ts) == Joined(args) && TotalSlots(ts) == SlotsOf(args)
  {
    hide FieldText, LeafOkay, Print, Slots;
    if args == [] {
      ts := [];
    } else {
      var t := OneOf(args[0]);
      var rest := AllOf(args[1..]);
      ErasedByText(t);
      ts := [t] + rest;
      assert ts[1..] == rest;
    }
  }

  /** What is printed of a type that stands in a C string is one. */
  lemma PieceOf(s: CString, a: string, p: string, b: string) returns (c: CString)
    requires s == a + p + b
    ensures c == p
  {
    forall i | 0 <= i < |p|
      ensures 0 < p[i] as int < 256
    {
      assert s[|a| + i] == p[i];
    }
    c := p;
  }

  lemma {:induction false} TextsOf(ts: seq<Type>, s: CString) returns (args: seq<CString>)
    requires s == PrintAll(ts) && forall k :: 0 <= k < |ts| ==> WellFormed(ts[k])
    ensures |args| == |ts| && forall k :: 0 <= k < |args| ==> FieldText(args[k])
    ensures Joined(args) == PrintAll(ts) && SlotsOf(args) == TotalSlots(ts)
  {
    hide FieldText, LeafOkay, Print, Slots;
    if ts == [] {
      args := [];
    } else {
      var t, tail := ts[0], PrintAll(ts[1..]);
      assert s == "" + Print(t) + tail == Print(t) + tail + "";
      var first := PieceOf(s, "", Print(t), tail);
      var last := PieceOf(s, Print(t), tail, "");
      FieldsExactly(first);
      ErasedByText(t);
      var rest := TextsOf(ts[1..], last);
      args := [first] + rest;
      assert args[1..] == rest;
    }
  }

  /** A text is a method descriptor exactly if it is field descriptors of at most 255 slots in parentheses, and a field
      descriptor or a V behind them. */
  lemma MethodsExactly(s: CString)
    ensures (exists m :: Denotes(s, m)) <==> exists args, ret :: MethodText(s, args, ret)
  {
    hide Denotes, MethodText;
    if m :| Denotes(s, m) {
      var args, ret := MethodIs(s, m);
    }
    if args, ret :| MethodText(s, args, ret) {
      var m := MethodOf(s, args, ret);
    }
  }

  lemma MethodOf(s: CString, args: seq<CString>, ret: CString) returns (m: Signature)
    requires MethodText(s, args, ret)
    ensures Denotes(s, m)
  {
    hide FieldText, LeafOkay, Joined, SlotsOf, PrintAll, TotalSlots, Print;
    var ts := AllOf(args);
    if ret == "V" {
      m := Signature(ts, Void);
    } else {
      var t := OneOf(ret);
      m := Signature(ts, Value(t));
    }
  }

  lemma MethodIs(s: CString, m: Signature) returns (args: seq<CString>, ret: CString)
    requires Denotes(s, m)
    ensures MethodText(s, args, ret)
  {
    hide FieldText, LeafOkay, Joined, SlotsOf, PrintAll, TotalSlots, Print;
    var all, end := PrintAll(m.args), PrintReturn(m.ret);
    assert s == "(" + all + (")" + end) == ("(" + all + ")") + end + "";
    var inner := PieceOf(s, "(", all, ")" + end);
    ret := PieceOf(s, "(" + all + ")", end, "");
    args := TextsOf(m.args, inner);
    if m.ret.Value? {
      FieldsExactly(ret);
    }
  }
}
