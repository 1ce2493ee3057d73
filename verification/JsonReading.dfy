/** The canonical text is JSON for its value: the reader of the grammar gives the value back, members in sorted order. */
module JsonReading {
  import opened Basics
  import opened CanonicalJson
  import opened JsonNumbers
  import opened JsonIdentity
  import opened JsonReader

  // ---- The value a canonical text stands for ----

  /** The value with the members of every object in the program's order. */
  function Arranged(d: Dialect, v: Json): Json
    decreases v, 1
  {
    match v
    case JArr(items) => JArr(ArrangedItems(d, v, items))
    case JObj(members) => JObj(ArrangedMembers(d, v, SortMembers(d, members)))
    case _ => v
  }

  function ArrangedItems(d: Dialect, parent: Json, items: seq<Json>): (r: seq<Json>)
    requires forall x :: x in items ==> x < parent
    ensures |r| == |items| && forall i :: 0 <= i < |items| ==> items[i] in items && r[i] == Arranged(d, items[i])
    decreases parent, 0, |items|
  {
    if items == [] then []
    else
      assert items[0] in items && forall x :: x in items[1..] ==> x in items;
      [Arranged(d, items[0])] + ArrangedItems(d, parent, items[1..])
  }

  function ArrangedMembers(d: Dialect, parent: Json, members: seq<Member>): (r: seq<Member>)
    requires forall m :: m in members ==> m.value < parent
    ensures |r| == |members|
    ensures forall i :: 0 <= i < |members| ==> r[i].key == members[i].key && r[i].value == Arranged(d, members[i].value)
    decreases parent, 0, |members|
  {
    if members == [] then []
    else
      assert members[0] in members && forall m :: m in members[1..] ==> m in members;
      [Member(members[0].key, Arranged(d, members[0].value))] + ArrangedMembers(d, parent, members[1..])
  }

  /** It is the same value. */
  lemma {:induction false} ArrangedSame(d: Dialect, v: Json)
    ensures Same(Arranged(d, v), v)
  {
    match v
    case JArr(items) =>
      forall i | 0 <= i < |items| ensures Same(Arranged(d, items[i]), items[i]) {
        assert items[i] in items;
        ArrangedSame(d, items[i]);
      }
    case JObj(ms) =>
      var s := SortMembers(d, ms);
      var a := ArrangedMembers(d, v, s);
      forall i | 0 <= i < |s| ensures Same(a[i].value, s[i].value) {
        assert s[i] in s;
        ArrangedSame(d, s[i].value);
      }
      SameMembers(Arranged(d, v), a, v, s);
    case _ =>
  }

  // ---- Scalars ----

  lemma {:induction false} DigitsRead(m: nat, y: string)
    ensures ReadDigits(NatText(m) + y, 0) == ReadDigits(y, m)
    decreases m
  {
    if m < 10 {
      assert NatText(m) + y == [Digit(m)] + y;
      DigitStep(m, y, 0);
    } else {
      assert NatText(m) + y == NatText(m / 10) + ([Digit(m % 10)] + y);
      DigitsRead(m / 10, [Digit(m % 10)] + y);
      DigitStep(m % 10, y, m / 10);
    }
  }

  lemma DigitStep(c: nat, y: string, n: nat)
    requires c < 10
    ensures ReadDigits([Digit(c)] + y, n) == ReadDigits(y, 10 * n + c)
  {
    assert ([Digit(c)] + y)[0] == Digit(c) && ([Digit(c)] + y)[1..] == y;
  }

  /** Only zero is written with a leading zero. */
  lemma {:induction false} LeadingDigit(m: nat)
    ensures NatText(m) != "" && IsDigit(NatText(m)[0]) && (NatText(m)[0] == '0' <==> m == 0)
  {
    if m >= 10 { LeadingDigit(m / 10); }
  }

  lemma NaturalReads(m: nat, x: string)
    requires Ends(x)
    ensures ReadNatural(NatText(m) + x) == Some((m, x))
  {
    LeadingDigit(m);
    var s := NatText(m) + x;
    assert s[0] == NatText(m)[0];
    if m == 0 {
      assert NatText(0) == "0" && s[1..] == x;
    } else {
      DigitsRead(m, x);
      assert ReadDigits(s, 0) == ReadDigits(s[1..], DigitOf(s[0]));
    }
  }

  lemma NumberReads(n: int, x: string)
    requires Ends(x)
    ensures ReadNumber(NumText(n) + x) == Some((n, x))
  {
    hide NatText, ReadNatural;
    FirstOfNumber(n);
    var s := NumText(n) + x;
    assert s[0] == NumText(n)[0];
    if n < 0 {
      NaturalReads(-n, x);
      assert s[1..] == NatText(-n) + x;
    } else {
      NaturalReads(n, x);
    }
  }

  lemma EscapeReads(c: char, y: string)
    requires PythonQuote(c) != [c]
    ensures ReadEscape(PythonQuote(c) + y) == Some((c, y))
  {
    var q := PythonQuote(c);
    var s := q + y;
    if |q| == 2 {
      assert s[0] == q[0] && s[1] == q[1] && s[2..] == y;
    } else {
      UnitReads(c, y);
      assert s[1] == 'u' && s[6..] == y;
    }
  }

  lemma UnitReads(c: char, y: string)
    requires c < ' '
    ensures ReadUnit(UnicodeEscape(c) + y) == Some(c as int)
  {
    var s := UnicodeEscape(c) + y;
    assert s[0] == '\\' && s[1] == 'u' && s[2] == '0' && s[3] == '0';
    assert s[4] == HexDigit(c as int / 16) && s[5] == HexDigit(c as int % 16);
    HexReads(c as int / 16);
    HexReads(c as int % 16);
  }

  lemma HexReads(n: nat)
    requires n < 16
    ensures HexOf(HexDigit(n)) == Some(n)
  {
  }

  lemma CharReads(c: char, y: string)
    ensures ReadChar(PythonQuote(c) + y) == Some((c, y))
  {
    hide ReadEscape;
    var s := PythonQuote(c) + y;
    assert s[0] == PythonQuote(c)[0];
    if PythonQuote(c) == [c] {
      assert s[1..] == y;
    } else {
      EscapeReads(c, y);
    }
  }

  lemma {:induction false} CharsRead(s: string, x: string)
    ensures ReadChars(QuoteAll(Python, s) + "\"" + x) == Some((s, x))
  {
    hide PythonQuote, ReadChar;
    var t := QuoteAll(Python, s) + "\"" + x;
    if s == "" {
      assert t[0] == '"' && t[1..] == x;
    } else {
      var y := QuoteAll(Python, s[1..]) + "\"" + x;
      assert t == PythonQuote(s[0]) + y;
      QuoteStarts(Python, s[0]);
      assert t[0] == PythonQuote(s[0])[0];
      CharReads(s[0], y);
      CharsRead(s[1..], x);
      assert s == [s[0]] + s[1..];
    }
  }

  lemma StringReadsBack(d: Dialect, s: string, x: string)
    ensures ReadString(StringText(d, s) + x) == Some((s, x))
  {
    hide ReadChars;
    QuotesAgree(d, s);
    CharsRead(s, x);
    assert (StringText(d, s) + x)[1..] == QuoteAll(Python, s) + "\"" + x;
  }

  lemma NoWhite(s: string)
    requires s == "" || !IsWhite(s[0])
    ensures SkipWhite(s) == s
  {
  }

  lemma ScalarReadsBack(d: Dialect, v: Json, x: string)
    requires Scalar(v) && Readable(d, v) && Ends(x)
    ensures ReadValue(Text(d, v) + x) == Some((v, x))
  {
    hide NumText, JavaScriptNumber, ReadNumber;
    var s := Text(d, v) + x;
    match v
    case JNull => assert s[..4] == "null" && s[4..] == x;
    case JBool(b) =>
      if b { assert s[..4] == "true" && s[4..] == x; } else { assert s[..5] == "false" && s[5..] == x; }
      assert s[0] == if b then 't' else 'f';
    case JNum(n) =>
      SafeText(d, v);
      NumberReads(n, x);
      NumberOpens(n);
      assert s[0] == NumText(n)[0];
  }

  lemma NumberOpens(n: int)
    ensures NumText(n) != "" && (NumText(n)[0] == '-' || IsDigit(NumText(n)[0]))
  {
    hide NatText;
    LeadingDigit(if n < 0 then -n else n);
  }

  // ---- Arrays and objects ----

  /** A value's text neither starts with white space nor closes anything. */
  lemma TextOpensValue(d: Dialect, v: Json)
    requires Readable(d, v)
    ensures Text(d, v) != "" && !IsWhite(Text(d, v)[0]) && Text(d, v)[0] != ']' && Text(d, v)[0] != '}'
  {
    hide NumText, JavaScriptNumber;
    if v.JNum? {
      SafeText(d, v);
      NumberOpens(v.n);
    }
  }

  lemma NoLiteral(s: string)
    requires s != "" && (s[0] == '[' || s[0] == '{')
    ensures !StartsWith(s, "null") && !StartsWith(s, "true") && !StartsWith(s, "false") && SkipWhite(s) == s
  {
  }

  lemma ArrayReads(items: seq<Json>, t: string, x: string)
    requires t != "" && !IsWhite(t[0]) && t[0] != ']' && ReadItems(t) == Some((items, x))
    ensures ReadValue("[" + t) == Some((JArr(items), x))
  {
    hide ReadItems, ReadMembers, ReadNumber, ReadString, StartsWith, SkipWhite, IsWhite;
    var s := "[" + t;
    NoLiteral(s);
    assert s[0] == '[' && s[1..] == t;
    NoWhite(t);
  }

  lemma ObjectReads(members: seq<Member>, t: string, x: string)
    requires t != "" && !IsWhite(t[0]) && t[0] != '}' && ReadMembers(t) == Some((members, x))
    ensures ReadValue("{" + t) == Some((JObj(members), x))
  {
    hide ReadItems, ReadMembers, ReadNumber, ReadString, StartsWith, SkipWhite, IsWhite;
    var s := "{" + t;
    NoLiteral(s);
    assert s[0] == '{' && s[1..] == t;
    NoWhite(t);
  }

  lemma EmptyReads(x: string)
    ensures ReadValue("[]" + x) == Some((JArr([]), x)) && ReadValue("{}" + x) == Some((JObj([]), x))
  {
    hide ReadItems, ReadMembers, ReadNumber, ReadString, StartsWith, SkipWhite;
    NoLiteral("[]" + x);
    NoLiteral("{}" + x);
    NoWhite("]" + x);
    NoWhite("}" + x);
    assert ("[]" + x)[1..] == "]" + x && ("]" + x)[1..] == x;
    assert ("{}" + x)[1..] == "}" + x && ("}" + x)[1..] == x;
  }

  /** One item and what follows it. */
  lemma ItemStep(v: Json, t: string, rest: string)
    requires ReadValue(t) == Some((v, rest)) && rest != "" && (rest[0] == ']' || rest[0] == ',')
    ensures rest[0] == ']' ==> ReadItems(t) == Some(([v], rest[1..]))
    ensures rest[0] == ',' && ReadItems(rest[1..]).Some? ==>
            ReadItems(t) == Some(([v] + ReadItems(rest[1..]).value.0, ReadItems(rest[1..]).value.1))
  {
    hide ReadValue;
    NoWhite(rest);
  }

  lemma MemberStep(m: Member, t: string, mid: string, rest: string)
    requires ReadName(t) == Some((m.key, mid)) && ReadValue(mid) == Some((m.value, rest))
    requires rest != "" && (rest[0] == '}' || rest[0] == ',')
    ensures rest[0] == '}' ==> ReadMembers(t) == Some(([m], rest[1..]))
    ensures rest[0] == ',' && ReadMembers(rest[1..]).Some? ==>
            ReadMembers(t) == Some(([m] + ReadMembers(rest[1..]).value.0, ReadMembers(rest[1..]).value.1))
  {
    hide ReadValue, ReadName;
    NoWhite(rest);
  }

  lemma NameReads(d: Dialect, key: string, rest: string)
    ensures ReadName(StringText(d, key) + (":" + rest)) == Some((key, rest))
  {
    hide ReadString;
    StringReadsBack(d, key, ":" + rest);
    NoWhite(StringText(d, key) + (":" + rest));
    NoWhite(":" + rest);
    assert (":" + rest)[1..] == rest;
  }

  /** Whatever may follow, the text is read as the value. */
  ghost predicate ReadsAs(p: string, v: Json) {
    forall x :: Ends(x) ==> ReadValue(p + x) == Some((v, x))
  }

  ghost predicate MemberReadsAs(d: Dialect, p: string, m: Member) {
    exists t :: p == MemberText(d, m.key, t) && ReadsAs(t, m.value)
  }

  lemma {:induction false} ItemsRead(ps: seq<string>, items: seq<Json>, x: string)
    requires |ps| == |items| > 0 && forall i :: 0 <= i < |ps| ==> ReadsAs(ps[i], items[i])
    ensures ReadItems(Join(ps, ",") + "]" + x) == Some((items, x))
    decreases |ps|
  {
    hide ReadValue, ReadItems;
    var t := Join(ps, ",") + "]" + x;
    var rest := AfterFirst(ps, ']', x);
    JoinSplitsFirst(ps, ']', x);
    assert ReadsAs(ps[0], items[0]) && ReadValue(ps[0] + rest) == Some((items[0], rest));
    ItemStep(items[0], t, rest);
    if |ps| > 1 {
      ItemsRead(ps[1..], items[1..], x);
      assert items == [items[0]] + items[1..];
    } else {
      assert items == [items[0]];
    }
  }

  lemma {:induction false} MembersRead(d: Dialect, ps: seq<string>, ms: seq<Member>, x: string)
    requires |ps| == |ms| > 0 && forall i :: 0 <= i < |ps| ==> MemberReadsAs(d, ps[i], ms[i])
    ensures ReadMembers(Join(ps, ",") + "}" + x) == Some((ms, x))
    decreases |ps|
  {
    hide ReadValue, ReadMembers, ReadName, StringText;
    var whole := Join(ps, ",") + "}" + x;
    var rest := AfterFirst(ps, '}', x);
    JoinSplitsFirst(ps, '}', x);
    assert MemberReadsAs(d, ps[0], ms[0]);
    var t :| ps[0] == MemberText(d, ms[0].key, t) && ReadsAs(t, ms[0].value);
    assert ReadValue(t + rest) == Some((ms[0].value, rest));
    assert whole == StringText(d, ms[0].key) + (":" + (t + rest));
    NameReads(d, ms[0].key, t + rest);
    MemberStep(ms[0], whole, t + rest, rest);
    if |ps| > 1 {
      MembersRead(d, ps[1..], ms[1..], x);
      assert ms == [ms[0]] + ms[1..];
    } else {
      assert ms == [ms[0]];
    }
  }

  lemma StringValueReads(d: Dialect, s: string, x: string)
    ensures ReadValue(StringText(d, s) + x) == Some((JStr(s), x))
  {
    hide ReadString;
    StringReadsBack(d, s, x);
    NoWhite(StringText(d, s) + x);
  }

  /** Reading the canonical text of a value in any surroundings gives the arranged value and what follows. */
  lemma {:induction false} ValueReads(d: Dialect, v: Json, x: string)
    requires Readable(d, v) && Ends(x)
    ensures ReadValue(Text(d, v) + x) == Some((Arranged(d, v), x))
    decreases v, 2
  {
    hide NumberText, ReadValue, StringText, SortMembers;
    match v
    case JStr(s) => StringValueReads(d, s, x);
    case JArr(items) => ArrayValueReads(d, v, x);
    case JObj(ms) => ObjectValueReads(d, v, x);
    case _ => ScalarReadsBack(d, v, x);
  }

  lemma ValueReadsAs(d: Dialect, v: Json)
    requires Readable(d, v)
    ensures ReadsAs(Text(d, v), Arranged(d, v))
    decreases v, 3
  {
    hide Text, Arranged, Readable;
    forall x | Ends(x) ensures ReadValue(Text(d, v) + x) == Some((Arranged(d, v), x)) {
      ValueReads(d, v, x);
    }
  }

  lemma ArrayTexts(d: Dialect, v: Json)
    requires v.JArr? && Readable(d, v)
    ensures var ps, out := ItemTexts(d, v, v.items), ArrangedItems(d, v, v.items);
            forall i :: 0 <= i < |ps| ==> ReadsAs(ps[i], out[i])
    decreases v, 0
  {
    hide Text, Arranged, Readable, ReadsAs;
    var ps, out := ItemTexts(d, v, v.items), ArrangedItems(d, v, v.items);
    forall i | 0 <= i < |ps| ensures ReadsAs(ps[i], out[i]) {
      assert v.items[i] in v.items;
      ItemReadable(d, v, v.items[i]);
      ValueReadsAs(d, v.items[i]);
    }
  }

  lemma ObjectTexts(d: Dialect, v: Json, s: seq<Member>, ps: seq<string>, out: seq<Member>)
    requires v.JObj? && s == SortMembers(d, v.members) && Readable(d, v)
    requires ps == MemberTexts(d, v, s) && out == ArrangedMembers(d, v, s)
    ensures |ps| == |out| && forall i :: 0 <= i < |ps| ==> MemberReadsAs(d, ps[i], out[i])
    decreases v, 0
  {
    hide Text, Arranged, Readable, ReadsAs, MemberText;
    forall i | 0 <= i < |ps| ensures MemberReadsAs(d, ps[i], out[i]) {
      assert s[i] in s;
      MemberReadable(d, v, s[i]);
      ValueReadsAs(d, s[i].value);
      assert ps[i] == MemberText(d, out[i].key, Text(d, s[i].value));
    }
  }

  lemma ArrayJoined(ps: seq<string>, items: seq<Json>, x: string)
    requires |ps| == |items| && forall i :: 0 <= i < |ps| ==> ReadsAs(ps[i], items[i])
    requires ps != [] ==> ps[0] != "" && !IsWhite(ps[0][0]) && ps[0][0] != ']'
    ensures ReadValue(("[" + Join(ps, ",") + "]") + x) == Some((JArr(items), x))
  {
    hide ReadValue, ReadItems, ReadsAs;
    if ps == [] {
      EmptyReads(x);
      assert "[" + Join(ps, ",") + "]" == "[]" && items == [];
    } else {
      var t := Join(ps, ",") + "]" + x;
      ItemsRead(ps, items, x);
      JoinSplitsFirst(ps, ']', x);
      assert t[0] == ps[0][0];
      assert ("[" + Join(ps, ",") + "]") + x == "[" + t;
      ArrayReads(items, t, x);
    }
  }

  lemma ObjectJoined(d: Dialect, ps: seq<string>, ms: seq<Member>, x: string)
    requires |ps| == |ms| && forall i :: 0 <= i < |ps| ==> MemberReadsAs(d, ps[i], ms[i])
    ensures ReadValue(("{" + Join(ps, ",") + "}") + x) == Some((JObj(ms), x))
  {
    hide ReadValue, ReadMembers, MemberReadsAs;
    if ps == [] {
      EmptyReads(x);
      assert "{" + Join(ps, ",") + "}" == "{}" && ms == [];
    } else {
      var t := Join(ps, ",") + "}" + x;
      MembersRead(d, ps, ms, x);
      JoinSplitsFirst(ps, '}', x);
      MemberOpens(d, ps[0], ms[0]);
      assert t[0] == ps[0][0];
      assert ("{" + Join(ps, ",") + "}") + x == "{" + t;
      ObjectReads(ms, t, x);
    }
  }

  lemma MemberOpens(d: Dialect, p: string, m: Member)
    requires MemberReadsAs(d, p, m)
    ensures p != "" && p[0] == '"'
  {
  }

  lemma ArrayValueReads(d: Dialect, v: Json, x: string)
    requires v.JArr? && Readable(d, v)
    ensures ReadValue(Text(d, v) + x) == Some((Arranged(d, v), x))
    decreases v, 1
  {
    var ps, out := ItemTexts(d, v, v.items), ArrangedItems(d, v, v.items);
    assert Text(d, v) == "[" + Join(ps, ",") + "]" && Arranged(d, v) == JArr(out);
    hide Text, Arranged, Join, ReadValue, Readable, ReadsAs;
    ArrayTexts(d, v);
    if v.items != [] { FirstOpens(d, v); }
    ArrayJoined(ps, out, x);
  }

  lemma FirstOpens(d: Dialect, v: Json)
    requires v.JArr? && v.items != [] && Readable(d, v)
    ensures var p := ItemTexts(d, v, v.items)[0]; p != "" && !IsWhite(p[0]) && p[0] != ']'
  {
    hide Text, Readable;
    assert v.items[0] in v.items;
    ItemReadable(d, v, v.items[0]);
    TextOpensValue(d, v.items[0]);
  }

  lemma ObjectUnfolded(d: Dialect, v: Json, s: seq<Member>)
    requires v.JObj? && s == SortMembers(d, v.members)
    ensures Text(d, v) == "{" + Join(MemberTexts(d, v, s), ",") + "}" && Arranged(d, v) == JObj(ArrangedMembers(d, v, s))
  {
    hide SortMembers, Join;
  }

  lemma ObjectValueReads(d: Dialect, v: Json, x: string)
    requires v.JObj? && Readable(d, v)
    ensures ReadValue(Text(d, v) + x) == Some((Arranged(d, v), x))
    decreases v, 1
  {
    var s := SortMembers(d, v.members);
    var ps, out := MemberTexts(d, v, s), ArrangedMembers(d, v, s);
    ObjectUnfolded(d, v, s);
    hide Text, Arranged, Join, ReadValue, Readable, MemberReadsAs, SortMembers, MemberTexts, ArrangedMembers;
    ObjectTexts(d, v, s, ps, out);
    ObjectJoined(d, ps, out, x);
  }

  lemma ItemReadable(d: Dialect, v: Json, item: Json)
    requires v.JArr? && item in v.items && Readable(d, v)
    ensures Readable(d, item)
  {
  }

  /** A canonical text is JSON text, and what the grammar reads from it is the value it was printed from. */
  lemma TextReadsBack(d: Dialect, v: Json)
    requires Readable(d, v)
    ensures ReadText(Text(d, v)) == Some(Arranged(d, v)) && Same(Arranged(d, v), v)
  {
    hide Text, Arranged, Same, ReadValue, Readable;
    ValueReads(d, v, "");
    assert Text(d, v) + "" == Text(d, v);
    NoWhite("");
    ArrangedSame(d, v);
  }
}
