/** Canonical text identifies JSON values, and the two printers agree. */
module JsonIdentity {
  import opened Basics
  import opened CanonicalJson
  import opened JsonNumbers

  // ---- Scalars read back ----

  lemma QuoteStarts(d: Dialect, c: char)
    ensures Quote(d, c) != "" && Quote(d, c)[0] != '"'
  {
  }

  lemma QuoteAgree(c: char)
    ensures PythonQuote(c) == JavaScriptQuote(c)
  {
  }

  lemma HexInjective(a: nat, b: nat)
    requires a < 16 && b < 16 && HexDigit(a) == HexDigit(b)
    ensures a == b
  {
  }

  predicate ShortForm(c: char) {
    c == '\\' || c == '"' || c == '\U{8}' || c == '\U{C}' || c == '\n' || c == '\r' || c == '\t'
  }

  /** The quoted form of one character is never a prefix of another's. */
  lemma QuotePrefixFree(d: Dialect, c: char, e: char, x: string, y: string)
    requires Quote(d, c) + x == Quote(d, e) + y
    ensures c == e && x == y
  {
    QuoteAgree(c);
    QuoteAgree(e);
    var p, q := PythonQuote(c), PythonQuote(e);
    assert (p + x)[0] == p[0] && (q + y)[0] == q[0];
    if p[0] == '\\' {
      assert (p + x)[1] == p[1] && (q + y)[1] == q[1];
      if !ShortForm(c) && !ShortForm(e) {
        assert (p + x)[4] == p[4] && (q + y)[4] == q[4];
        assert (p + x)[5] == p[5] && (q + y)[5] == q[5];
        HexInjective(c as int / 16, e as int / 16);
        HexInjective(c as int % 16, e as int % 16);
        assert c as int == e as int;
      }
    }
    assert x == (p + x)[|p|..] && y == (q + y)[|q|..];
  }

  lemma {:induction false} StringReads(d: Dialect, s: string, t: string, x: string, y: string)
    requires QuoteAll(d, s) + "\"" + x == QuoteAll(d, t) + "\"" + y
    ensures s == t && x == y
  {
    hide Quote;
    var left, right := QuoteAll(d, s) + "\"" + x, QuoteAll(d, t) + "\"" + y;
    if s != "" { QuoteStarts(d, s[0]); assert left[0] == Quote(d, s[0])[0]; }
    if t != "" { QuoteStarts(d, t[0]); assert right[0] == Quote(d, t[0])[0]; }
    if s == "" || t == "" {
      assert s == t == "";
      assert x == left[1..] && y == right[1..];
    } else {
      var a, b := QuoteAll(d, s[1..]) + "\"" + x, QuoteAll(d, t[1..]) + "\"" + y;
      assert left == Quote(d, s[0]) + a && right == Quote(d, t[0]) + b;
      QuotePrefixFree(d, s[0], t[0], a, b);
      StringReads(d, s[1..], t[1..], x, y);
      assert s == [s[0]] + s[1..] && t == [t[0]] + t[1..];
    }
  }

  predicate Scalar(v: Json) { v.JNull? || v.JBool? || v.JNum? }

  /** The first character of a text names the kind of value. */
  function Kind(v: Json): char {
    match v
    case JStr(_) => '"'
    case JArr(_) => '['
    case JObj(_) => '{'
    case _ => '0'
  }

  lemma TextStarts(d: Dialect, v: Json)
    ensures Text(d, v) != ""
    ensures Scalar(v) ==> Token(Text(d, v))
    ensures !Scalar(v) ==> Text(d, v)[0] == Kind(v)
  {
    if v.JNum? { NumberToken(d, v.n); }
  }

  lemma SameKind(d: Dialect, e: Dialect, v: Json, w: Json, x: string, y: string)
    requires Text(d, v) + x == Text(e, w) + y
    ensures Kind(v) == Kind(w)
  {
    hide Text;
    TextStarts(d, v);
    TextStarts(e, w);
    assert (Text(d, v) + x)[0] == Text(d, v)[0];
    assert (Text(e, w) + y)[0] == Text(e, w)[0];
    assert Scalar(v) ==> TokenChar(Text(d, v)[0]);
    assert Scalar(w) ==> TokenChar(Text(e, w)[0]);
  }

  /** What a program prints can be read back: JavaScript's numbers only while they are safe. */
  predicate Readable(d: Dialect, v: Json) { d.Python? || SafeNumbers(v) }

  /** Whatever the second program, equal texts of readable scalars stand for the same scalar. */
  lemma ScalarReads(d: Dialect, e: Dialect, v: Json, w: Json)
    requires Scalar(v) && Scalar(w) && Readable(d, v) && Readable(e, w) && Text(d, v) == Text(e, w)
    ensures v == w
  {
    hide NatText, JavaScriptNumber;
    if v.JNum? { SafeText(d, v); FirstOfNumber(v.n); NumberStarts(v.n); }
    if w.JNum? { SafeText(e, w); FirstOfNumber(w.n); NumberStarts(w.n); }
    if v.JNum? && w.JNum? { NumTextInjective(v.n, w.n); }
  }

  lemma SafeText(d: Dialect, v: Json)
    requires v.JNum? && Readable(d, v)
    ensures Text(d, v) == NumText(v.n)
  {
    if d.JavaScript? { SafePrinted(v.n); }
  }

  // ---- Unique reading of comma-separated pieces ----

  /** Whatever may follow, text that starts with either piece starts with the same piece. */
  ghost predicate Delimited(p: string, q: string) {
    forall x, y :: Ends(x) && Ends(y) && p + x == q + y ==> p == q
  }

  lemma Cancel(p: string, x: string, y: string)
    requires p + x == p + y
    ensures x == y
  {
    assert x == (p + x)[|p|..] && y == (p + y)[|p|..];
  }

  predicate Pieces(ps: seq<string>, close: char) {
    forall i :: 0 <= i < |ps| ==> ps[i] != "" && ps[i][0] != close
  }

  function AfterFirst(ps: seq<string>, close: char, x: string): string
    requires ps != []
  {
    (if |ps| == 1 then "" else "," + Join(ps[1..], ",")) + [close] + x
  }

  lemma JoinSplitsFirst(ps: seq<string>, close: char, x: string)
    requires ps != []
    ensures Join(ps, ",") + [close] + x == ps[0] + AfterFirst(ps, close, x)
    ensures AfterFirst(ps, close, x)[0] == if |ps| == 1 then close else ','
    ensures AfterFirst(ps, close, x)[1..] == if |ps| == 1 then x else Join(ps[1..], ",") + [close] + x
  {
    if |ps| == 1 {
      assert "" + [close] + x == [close] + x;
      assert ps[0] + [close] + x == ps[0] + ([close] + x);
    } else {
      Regroup(ps[0], Join(ps[1..], ","), [close], x);
    }
  }

  lemma Regroup(a: string, b: string, c: string, d: string)
    ensures a + "," + b + c + d == a + ("," + b + c + d)
    ensures ("," + b + c + d)[1..] == b + c + d
  {
  }

  lemma {:induction false} JoinReads(ps: seq<string>, qs: seq<string>, close: char, x: string, y: string)
    requires close == ']' || close == '}'
    requires Pieces(ps, close) && Pieces(qs, close)
    requires forall i :: 0 <= i < |ps| && i < |qs| ==> Delimited(ps[i], qs[i])
    requires Join(ps, ",") + [close] + x == Join(qs, ",") + [close] + y
    ensures ps == qs && x == y
    decreases |ps|
  {
    var left, right := Join(ps, ",") + [close] + x, Join(qs, ",") + [close] + y;
    FirstSign(ps, close, x);
    FirstSign(qs, close, y);
    if ps != [] && qs != [] {
      JoinSplitsFirst(ps, close, x);
      JoinSplitsFirst(qs, close, y);
      var a, b := AfterFirst(ps, close, x), AfterFirst(qs, close, y);
      assert Delimited(ps[0], qs[0]) && Ends(a) && Ends(b);
      Cancel(ps[0], a, b);
      if |ps| > 1 {
        forall i | 0 <= i < |ps| - 1 && i < |qs| - 1 ensures Delimited(ps[1..][i], qs[1..][i]) {
          assert Delimited(ps[i + 1], qs[i + 1]);
        }
        JoinReads(ps[1..], qs[1..], close, x, y);
        assert ps == [ps[0]] + ps[1..] && qs == [qs[0]] + qs[1..];
      }
    }
  }

  lemma FirstSign(ps: seq<string>, close: char, x: string)
    requires Pieces(ps, close)
    ensures var s := Join(ps, ",") + [close] + x;
            (s[0] == close <==> ps == []) && (ps == [] ==> s[1..] == x)
  {
    if ps != [] {
      JoinSplitsFirst(ps, close, x);
      assert (ps[0] + AfterFirst(ps, close, x))[0] == ps[0][0];
    } else {
      assert "" + [close] + x == [close] + x;
    }
  }

  // ---- Unique reading of whole values ----

  lemma Inside(open: char, p: string, q: string, close: char, x: string, y: string)
    requires ([open] + p + [close]) + x == ([open] + q + [close]) + y
    ensures p + [close] + x == q + [close] + y
  {
    assert (([open] + p + [close]) + x)[1..] == p + [close] + x;
    assert (([open] + q + [close]) + y)[1..] == q + [close] + y;
  }

  /**
   * Whichever program printed either text: texts that agree up to what may follow agree altogether, and stand for equal
   * values unless JavaScript had to print a number that is not a safe integer.
   */
  lemma {:induction false} Unambiguous(d: Dialect, e: Dialect, v: Json, w: Json, x: string, y: string)
    requires Ends(x) && Ends(y) && Text(d, v) + x == Text(e, w) + y
    ensures x == y && (Readable(d, v) && Readable(e, w) ==> Same(v, w))
    decreases v, 1
  {
    hide NumberText;
    SameKind(d, e, v, w, x, y);
    match v
    case JStr(s) =>
      Inside('"', QuoteAll(d, s), QuoteAll(e, w.s), '"', x, y);
      QuotesAgree(d, s);
      QuotesAgree(e, w.s);
      StringReads(Python, s, w.s, x, y);
    case JArr(items) =>
      Inside('[', Join(ItemTexts(d, v, items), ","), Join(ItemTexts(e, w, w.items), ","), ']', x, y);
      UnambiguousItems(d, e, v, w, x, y);
    case JObj(ms) =>
      Inside('{', Join(MemberTexts(d, v, SortMembers(d, ms)), ","),
             Join(MemberTexts(e, w, SortMembers(e, w.members)), ","), '}', x, y);
      UnambiguousMembers(d, e, v, w, x, y);
    case _ => UnambiguousScalar(d, e, v, w, x, y);
  }

  lemma UnambiguousScalar(d: Dialect, e: Dialect, v: Json, w: Json, x: string, y: string)
    requires Scalar(v) && Scalar(w) && Ends(x) && Ends(y) && Text(d, v) + x == Text(e, w) + y
    ensures x == y && (Readable(d, v) && Readable(e, w) ==> Same(v, w))
  {
    hide Text, Readable, Token;
    TextStarts(d, v);
    TextStarts(e, w);
    TokenRun(Text(d, v), Text(e, w), x, y);
    if Readable(d, v) && Readable(e, w) { ScalarReads(d, e, v, w); }
  }

  lemma UnambiguousItems(d: Dialect, e: Dialect, v: Json, w: Json, x: string, y: string)
    requires v.JArr? && w.JArr?
    requires Join(ItemTexts(d, v, v.items), ",") + "]" + x == Join(ItemTexts(e, w, w.items), ",") + "]" + y
    ensures x == y && (Readable(d, v) && Readable(e, w) ==> Same(v, w))
    decreases v, 0
  {
    hide Text, Same;
    var ps, qs := ItemTexts(d, v, v.items), ItemTexts(e, w, w.items);
    forall i | 0 <= i < |ps| ensures ps[i] != "" && ps[i][0] != ']' { TextOpens(d, v.items[i]); }
    forall i | 0 <= i < |qs| ensures qs[i] != "" && qs[i][0] != ']' { TextOpens(e, w.items[i]); }
    forall i | 0 <= i < |ps| && i < |qs| ensures Delimited(ps[i], qs[i]) {
      TextsDelimited(d, e, v.items[i], w.items[i]);
    }
    JoinReads(ps, qs, ']', x, y);
    if Readable(d, v) && Readable(e, w) {
      forall i | 0 <= i < |v.items| ensures Same(v.items[i], w.items[i]) {
        assert ps[i] == qs[i] && v.items[i] in v.items && w.items[i] in w.items;
        Unambiguous(d, e, v.items[i], w.items[i], "", "");
      }
      ItemsAreSame(v, w);
    }
  }

  lemma TextOpens(d: Dialect, v: Json)
    ensures Text(d, v) != "" && Text(d, v)[0] != ']'
  {
    TextStarts(d, v);
  }

  lemma ItemsAreSame(v: Json, w: Json)
    requires v.JArr? && w.JArr? && |v.items| == |w.items| && forall i :: 0 <= i < |v.items| ==> Same(v.items[i], w.items[i])
    ensures Same(v, w)
  {
  }

  lemma TextsDelimited(d: Dialect, e: Dialect, v: Json, w: Json)
    ensures Delimited(Text(d, v), Text(e, w))
    decreases v, 2
  {
    forall x, y | Ends(x) && Ends(y) && Text(d, v) + x == Text(e, w) + y ensures Text(d, v) == Text(e, w) {
      Unambiguous(d, e, v, w, x, y);
      SameTail(Text(d, v), Text(e, w), x);
    }
  }

  lemma SameTail(p: string, q: string, x: string)
    requires p + x == q + x
    ensures p == q
  {
    assert p == (p + x)[..|p|] && q == (q + x)[..|q|];
  }

  lemma {:induction false} QuotesAgree(d: Dialect, s: string)
    ensures QuoteAll(d, s) == QuoteAll(Python, s)
  {
    if s != "" {
      QuoteAgree(s[0]);
      QuotesAgree(d, s[1..]);
    }
  }

  lemma KeyReads(d: Dialect, e: Dialect, key: string, key': string, text: string, text': string)
    requires MemberText(d, key, text) == MemberText(e, key', text')
    ensures key == key' && text == text'
  {
    hide QuoteAll;
    assert MemberText(d, key, text)[1..] == QuoteAll(d, key) + "\"" + (":" + text);
    assert MemberText(e, key', text')[1..] == QuoteAll(e, key') + "\"" + (":" + text');
    QuotesAgree(d, key);
    QuotesAgree(e, key');
    StringReads(Python, key, key', ":" + text, ":" + text');
    Cancel(":", text, text');
  }

  lemma MemberReads(d: Dialect, e: Dialect, m: Member, n: Member, x: string, y: string)
    requires MemberText(d, m.key, Text(d, m.value)) + x == MemberText(e, n.key, Text(e, n.value)) + y
    ensures m.key == n.key && Text(d, m.value) + x == Text(e, n.value) + y
  {
    MemberTail(d, m.key, Text(d, m.value), x);
    MemberTail(e, n.key, Text(e, n.value), y);
    KeyReads(d, e, m.key, n.key, Text(d, m.value) + x, Text(e, n.value) + y);
  }

  lemma MemberTail(d: Dialect, key: string, text: string, x: string)
    ensures MemberText(d, key, text) + x == MemberText(d, key, text + x)
  {
  }

  lemma MembersDelimited(d: Dialect, e: Dialect, m: Member, n: Member)
    ensures Delimited(MemberText(d, m.key, Text(d, m.value)), MemberText(e, n.key, Text(e, n.value)))
    decreases m.value, 2
  {
    hide MemberText, Text;
    var p, q := MemberText(d, m.key, Text(d, m.value)), MemberText(e, n.key, Text(e, n.value));
    forall x, y | Ends(x) && Ends(y) && p + x == q + y ensures p == q {
      MemberReads(d, e, m, n, x, y);
      Unambiguous(d, e, m.value, n.value, x, y);
      SameTail(p, q, x);
    }
  }

  /** The members' texts agree one by one. */
  lemma MemberTextsAgree(d: Dialect, e: Dialect, v: Json, w: Json, x: string, y: string)
    requires v.JObj? && w.JObj?
    requires Join(MemberTexts(d, v, SortMembers(d, v.members)), ",") + "}" + x ==
             Join(MemberTexts(e, w, SortMembers(e, w.members)), ",") + "}" + y
    ensures MemberTexts(d, v, SortMembers(d, v.members)) == MemberTexts(e, w, SortMembers(e, w.members)) && x == y
    decreases v, 0, 0
  {
    hide Text, Same;
    var ms, ns := SortMembers(d, v.members), SortMembers(e, w.members);
    var ps, qs := MemberTexts(d, v, ms), MemberTexts(e, w, ns);
    forall i | 0 <= i < |ps| && i < |qs| ensures Delimited(ps[i], qs[i]) {
      assert ms[i] in ms;
      MembersDelimited(d, e, ms[i], ns[i]);
    }
    JoinReads(ps, qs, '}', x, y);
  }

  lemma UnambiguousMembers(d: Dialect, e: Dialect, v: Json, w: Json, x: string, y: string)
    requires v.JObj? && w.JObj?
    requires Join(MemberTexts(d, v, SortMembers(d, v.members)), ",") + "}" + x ==
             Join(MemberTexts(e, w, SortMembers(e, w.members)), ",") + "}" + y
    ensures x == y && (Readable(d, v) && Readable(e, w) ==> Same(v, w))
    decreases v, 0, 1
  {
    hide Text, Same, MemberText, Readable, SortMembers, MemberTexts;
    var ms, ns := SortMembers(d, v.members), SortMembers(e, w.members);
    var ps, qs := MemberTexts(d, v, ms), MemberTexts(e, w, ns);
    MemberTextsAgree(d, e, v, w, x, y);
    assert |ms| == |ps| == |qs| == |ns|;
    if Readable(d, v) && Readable(e, w) {
      forall i | 0 <= i < |ms| ensures ms[i].key == ns[i].key && Same(ms[i].value, ns[i].value) {
        assert ms[i] in ms && ns[i] in ns && ps[i] == qs[i];
        MemberReadable(d, v, ms[i]);
        MemberReadable(e, w, ns[i]);
        assert ps[i] + "" == qs[i] + "";
        MemberReads(d, e, ms[i], ns[i], "", "");
        Unambiguous(d, e, ms[i].value, ns[i].value, "", "");
      }
      SameMembers(v, ms, w, ns);
    }
  }

  lemma MemberReadable(d: Dialect, v: Json, m: Member)
    requires v.JObj? && m in v.members && Readable(d, v)
    ensures Readable(d, m.value)
  {
  }

  lemma SameMembers(v: Json, ms: seq<Member>, w: Json, ns: seq<Member>)
    requires v.JObj? && w.JObj? && |v.members| == |ms| == |ns| == |w.members|
    requires (forall m :: m in ms <==> m in v.members) && (forall m :: m in ns <==> m in w.members)
    requires forall i :: 0 <= i < |ms| ==> ms[i].key == ns[i].key && Same(ms[i].value, ns[i].value)
    ensures Same(v, w)
  {
    hide Same;
    forall i | 0 <= i < |v.members| ensures Partnered(v.members[i], w.members) {
      assert v.members[i] in ms;
      var k :| 0 <= k < |ms| && ms[k] == v.members[i];
      assert ns[k] in w.members;
      var j :| 0 <= j < |w.members| && w.members[j] == ns[k];
      assert v.members[i].key == w.members[j].key && Same(v.members[i].value, w.members[j].value);
    }
    PartnersAreSame(v, w);
  }

  lemma PartnersAreSame(v: Json, w: Json)
    requires v.JObj? && w.JObj? && |v.members| == |w.members|
    requires forall i :: 0 <= i < |v.members| ==> Partnered(v.members[i], w.members)
    ensures Same(v, w)
  {
  }
}
