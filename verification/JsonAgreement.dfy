/** Key order never changes canonical text, and exactly when the two programs print the same text. */
module JsonAgreement {
  import opened Basics
  import TextOrder
  import opened CanonicalJson
  import opened JsonIdentity
  import opened JsonNumbers

  // ---- Both key orders agree inside the basic plane ----

  lemma {:induction false} BasicOrder(a: string, b: string)
    requires Basic(a) && Basic(b)
    ensures UnitsLeq(AllUnits(a), AllUnits(b)) <==> TextOrder.Leq(a, b)
  {
    if a != "" {
      assert AllUnits(a)[1..] == AllUnits(a[1..]) && AllUnits(a)[0] == a[0] as int;
    }
    if b != "" {
      assert AllUnits(b)[1..] == AllUnits(b[1..]) && AllUnits(b)[0] == b[0] as int;
    }
    if a != "" && b != "" && a[0] == b[0] {
      BasicOrder(a[1..], b[1..]);
    }
  }

  predicate BasicKeys(ms: seq<Member>) {
    forall i :: 0 <= i < |ms| ==> Basic(ms[i].key)
  }

  function Keys(ms: seq<Member>): (r: seq<string>)
    ensures |r| == |ms| && forall i :: 0 <= i < |ms| ==> r[i] == ms[i].key
  {
    if ms == [] then [] else [ms[0].key] + Keys(ms[1..])
  }

  lemma {:induction false} InsertAgrees(d: Dialect, m: Member, ms: seq<Member>)
    requires Basic(m.key) && BasicKeys(ms)
    ensures InsertMember(d, m, ms) == InsertMember(Python, m, ms)
  {
    if ms != [] {
      BasicOrder(m.key, ms[0].key);
      if !KeyLeq(Python, m.key, ms[0].key) {
        InsertAgrees(d, m, ms[1..]);
      }
    }
  }

  lemma {:induction false} InsertKeys(m: Member, ms: seq<Member>)
    ensures Keys(InsertMember(Python, m, ms)) == TextOrder.Insert(m.key, Keys(ms))
  {
    if ms == [] || KeyLeq(Python, m.key, ms[0].key) {
      KeysCons(m, ms);
    } else {
      InsertKeys(m, ms[1..]);
      KeysCons(ms[0], InsertMember(Python, m, ms[1..]));
      assert Keys(ms)[1..] == Keys(ms[1..]);
    }
  }

  lemma KeysCons(m: Member, ms: seq<Member>)
    ensures Keys([m] + ms) == [m.key] + Keys(ms)
  {
    assert ([m] + ms)[1..] == ms;
  }

  lemma {:induction false} SortAgrees(d: Dialect, ms: seq<Member>)
    requires BasicKeys(ms)
    ensures SortMembers(d, ms) == SortMembers(Python, ms)
    ensures Keys(SortMembers(d, ms)) == TextOrder.Sort(Keys(ms))
  {
    if ms != [] {
      SortAgrees(d, ms[1..]);
      var rest := SortMembers(d, ms[1..]);
      forall i | 0 <= i < |rest| ensures Basic(rest[i].key) {
        assert rest[i] in rest;
      }
      InsertAgrees(d, ms[0], rest);
      InsertKeys(ms[0], rest);
    }
  }

  lemma MemberKeysBasic(ms: seq<Member>)
    requires WellFormed(JObj(ms))
    ensures BasicKeys(ms)
  {
    forall i | 0 <= i < |ms| ensures Basic(ms[i].key) { assert ms[i] in ms; }
  }

  // ---- Exactly when the two texts are equal ----

  /** Objects have pairwise distinct keys, as every parsed document has. */
  predicate DistinctEverywhere(v: Json) {
    match v
    case JArr(items) => forall x :: x in items ==> DistinctEverywhere(x)
    case JObj(ms) => DistinctKeys(ms) && forall m :: m in ms ==> DistinctEverywhere(m.value)
    case _ => true
  }

  /** In every object the two programs sort the members alike. */
  predicate SortsAlike(v: Json) {
    match v
    case JArr(items) => forall x :: x in items ==> SortsAlike(x)
    case JObj(ms) => SortMembers(JavaScript, ms) == SortMembers(Python, ms) && forall m :: m in ms ==> SortsAlike(m.value)
    case _ => true
  }

  /** Every number keeps its digits in JavaScript. */
  predicate NumbersAlike(v: Json) {
    match v
    case JNum(n) => KeepsDigits(n)
    case JArr(items) => forall x :: x in items ==> NumbersAlike(x)
    case JObj(ms) => forall m :: m in ms ==> NumbersAlike(m.value)
    case _ => true
  }

  lemma {:induction false} AlikeAgree(v: Json)
    requires SortsAlike(v) && NumbersAlike(v)
    ensures Text(JavaScript, v) == Text(Python, v)
  {
    hide JavaScriptNumber, NumText, KeepsDigits;
    match v
    case JNum(n) => NumberPrintedExactly(n);
    case JStr(s) => QuotesAgree(JavaScript, s);
    case JArr(items) =>
      forall i | 0 <= i < |items| ensures Text(JavaScript, items[i]) == Text(Python, items[i]) {
        assert items[i] in items;
        AlikeAgree(items[i]);
      }
      assert ItemTexts(JavaScript, v, items) == ItemTexts(Python, v, items);
    case JObj(ms) =>
      var s := SortMembers(Python, ms);
      forall i | 0 <= i < |s|
        ensures MemberText(JavaScript, s[i].key, Text(JavaScript, s[i].value)) ==
                MemberText(Python, s[i].key, Text(Python, s[i].value))
      {
        assert s[i] in s;
        QuotesAgree(JavaScript, s[i].key);
        AlikeAgree(s[i].value);
      }
      assert MemberTexts(JavaScript, v, s) == MemberTexts(Python, v, s);
    case _ =>
  }

  lemma ItemsAgree(v: Json, i: nat)
    requires v.JArr? && i < |v.items| && Text(JavaScript, v) == Text(Python, v)
    ensures Text(JavaScript, v.items[i]) == Text(Python, v.items[i])
  {
    var ps, qs := ItemTexts(JavaScript, v, v.items), ItemTexts(Python, v, v.items);
    Bracketed('[', ']', Join(ps, ","), Join(qs, ","));
    forall k | 0 <= k < |ps| ensures ps[k] != "" && ps[k][0] != ']' && qs[k] != "" && qs[k][0] != ']' && Delimited(ps[k], qs[k]) {
      TextOpens(JavaScript, v.items[k]);
      TextOpens(Python, v.items[k]);
      TextsDelimited(JavaScript, Python, v.items[k], v.items[k]);
    }
    hide Text;
    JoinReads(ps, qs, ']', "", "");
    assert ps[i] == qs[i];
  }

  lemma Bracketed(open: char, close: char, p: string, q: string)
    requires [open] + p + [close] == [open] + q + [close]
    ensures p + [close] + "" == q + [close] + ""
  {
    assert ([open] + p + [close])[1..] == p + [close] && ([open] + q + [close])[1..] == q + [close];
  }

  lemma MembersAgree(v: Json, i: nat)
    requires v.JObj? && i < |v.members| && Text(JavaScript, v) == Text(Python, v)
    ensures var s, t := SortMembers(JavaScript, v.members), SortMembers(Python, v.members);
            s[i].key == t[i].key && Text(JavaScript, s[i].value) == Text(Python, t[i].value)
  {
    var s, t := SortMembers(JavaScript, v.members), SortMembers(Python, v.members);
    var ps, qs := MemberTexts(JavaScript, v, s), MemberTexts(Python, v, t);
    Bracketed('{', '}', Join(ps, ","), Join(qs, ","));
    hide Text, MemberText;
    MemberTextsAgree(JavaScript, Python, v, v, "", "");
    assert ps[i] + "" == qs[i] + "";
    MemberReads(JavaScript, Python, s[i], t[i], "", "");
    assert Text(JavaScript, s[i].value) == Text(JavaScript, s[i].value) + "" && Text(Python, t[i].value) == Text(Python, t[i].value) + "";
  }

  lemma SameKeySameMember(ms: seq<Member>, m: Member, n: Member)
    requires DistinctKeys(ms) && m in ms && n in ms && m.key == n.key
    ensures m == n
  {
    var p :| 0 <= p < |ms| && ms[p] == m;
    var q :| 0 <= q < |ms| && ms[q] == n;
  }

  lemma {:induction false} AgreeAlike(v: Json)
    requires DistinctEverywhere(v) && Text(JavaScript, v) == Text(Python, v)
    ensures SortsAlike(v) && NumbersAlike(v)
  {
    hide JavaScriptNumber, NumText, KeepsDigits;
    match v
    case JNum(n) => NumberPrintedExactly(n);
    case JArr(items) =>
      forall x | x in items ensures SortsAlike(x) && NumbersAlike(x) {
        var i :| 0 <= i < |items| && items[i] == x;
        ItemsAgree(v, i);
        AgreeAlike(x);
      }
    case JObj(ms) =>
      var s, t := SortMembers(JavaScript, ms), SortMembers(Python, ms);
      forall i | 0 <= i < |s| ensures s[i] == t[i] && SortsAlike(s[i].value) && NumbersAlike(s[i].value) {
        assert s[i] in s && t[i] in t;
        MembersAgree(v, i);
        SameKeySameMember(ms, s[i], t[i]);
        AgreeAlike(s[i].value);
      }
      assert s == t;
      forall m | m in ms ensures SortsAlike(m.value) && NumbersAlike(m.value) {
        assert m in s;
        var i :| 0 <= i < |s| && s[i] == m;
      }
    case _ =>
  }

  /**
   * The two programs print the same text exactly when they sort the members of every object alike and every number is below
   * 10^21 and has no shorter number that reads as the same double.
   */
  lemma PrintersAgreeExactly(v: Json)
    requires DistinctEverywhere(v)
    ensures Text(JavaScript, v) == Text(Python, v) <==> SortsAlike(v) && NumbersAlike(v)
  {
    hide Text, SortsAlike, NumbersAlike, DistinctEverywhere;
    if SortsAlike(v) && NumbersAlike(v) { AlikeAgree(v); }
    if Text(JavaScript, v) == Text(Python, v) { AgreeAlike(v); }
  }

  lemma {:induction false} SafeNumbersAlike(v: Json)
    requires SafeNumbers(v)
    ensures NumbersAlike(v)
  {
    hide JavaScriptNumber, NumText, KeepsDigits;
    match v
    case JNum(n) =>
      SafePrinted(n);
      NumberPrintedExactly(n);
    case JArr(items) => forall x | x in items ensures NumbersAlike(x) { SafeNumbersAlike(x); }
    case JObj(ms) => forall m | m in ms ensures NumbersAlike(m.value) { SafeNumbersAlike(m.value); }
    case _ =>
  }

  lemma {:induction false} WellFormedSortsAlike(v: Json)
    requires WellFormed(v)
    ensures SortsAlike(v) && DistinctEverywhere(v)
  {
    match v
    case JArr(items) =>
      forall x | x in items ensures SortsAlike(x) && DistinctEverywhere(x) { WellFormedSortsAlike(x); }
    case JObj(ms) =>
      MemberKeysBasic(ms);
      SortAgrees(JavaScript, ms);
      forall m | m in ms ensures SortsAlike(m.value) && DistinctEverywhere(m.value) { WellFormedSortsAlike(m.value); }
    case _ =>
  }

  /** They do for distinct keys from the basic plane and safe integers: the daemon's and the extension's texts are equal. */
  lemma PrintersAgree(v: Json)
    requires WellFormed(v) && SafeNumbers(v)
    ensures Text(JavaScript, v) == Text(Python, v)
  {
    WellFormedSortsAlike(v);
    SafeNumbersAlike(v);
    AlikeAgree(v);
  }

  /** With supplementary characters in keys they may not: the two key orders differ. */
  lemma SupplementaryKeysDisagree()
    ensures exists v :: DistinctEverywhere(v) && Text(JavaScript, v) != Text(Python, v)
  {
    var a := Member("\U{FFFF}", JNull);
    var b := Member("\U{10000}", JNull);
    var v := JObj([a, b]);
    assert AllUnits("\U{FFFF}") == [0xFFFF] + AllUnits("") == [0xFFFF];
    assert AllUnits("\U{10000}") == [0xD800, 0xDC00] + AllUnits("");
    assert !KeyLeq(JavaScript, a.key, b.key) && KeyLeq(Python, a.key, b.key);
    assert [b][1..] == [] && [a, b][1..] == [b] && [a][1..] == [];
    assert SortMembers(JavaScript, [b]) == [b] && SortMembers(Python, [b]) == [b];
    assert InsertMember(JavaScript, a, []) == [a];
    assert InsertMember(JavaScript, a, [b]) == [b, a];
    assert SortMembers(JavaScript, [a, b]) == [b, a];
    assert SortMembers(Python, [a, b]) == [a, b];
    assert a.key[0] != b.key[0];
    assert [b, a][0] != [a, b][0];
    assert !SortsAlike(v) && DistinctEverywhere(v);
    PrintersAgreeExactly(v);
  }

  /** With numbers beyond the safe integers they may not either: JavaScript writes 2^60 as 1152921504606847000. */
  lemma LargeNumbersDisagree()
    ensures Text(Python, JNum(TWO_60)) == NumText(1152921504606846976)
    ensures Text(JavaScript, JNum(TWO_60)) == NumText(1152921504606847000)
    ensures Text(JavaScript, JNum(TWO_60)) != Text(Python, JNum(TWO_60))
  {
    hide NatText, JavaScriptNumber, KeepsDigits;
    LargePowerChanges();
    NumberPrintedExactly(TWO_60);
  }

  // ---- Key order never matters ----

  lemma SameKeys(a: seq<string>, b: seq<string>)
    requires Distinct(a) && Distinct(b) && |a| == |b|
    requires forall x :: x in a ==> x in b
    ensures multiset(a) == multiset(b)
  {
    DistinctIsSet(a);
    DistinctIsSet(b);
    SubsetSize(SetOf(a), SetOf(b));
  }

  lemma SameKeyMultiset(v: Json, w: Json)
    requires v.JObj? && w.JObj? && Same(v, w) && DistinctKeys(v.members) && DistinctKeys(w.members)
    ensures multiset(Keys(v.members)) == multiset(Keys(w.members))
  {
    var ms, ns := v.members, w.members;
    forall k | k in Keys(ms) ensures k in Keys(ns) {
      var p :| 0 <= p < |ms| && Keys(ms)[p] == k;
      assert Partnered(ms[p], ns);
      var q :| 0 <= q < |ns| && ms[p].key == ns[q].key && Same(ms[p].value, ns[q].value);
      assert Keys(ns)[q] == k;
    }
    SameKeys(Keys(ms), Keys(ns));
  }

  lemma SortedKeysEqual(v: Json, w: Json)
    requires v.JObj? && w.JObj? && Same(v, w) && WellFormed(v) && WellFormed(w)
    ensures Keys(SortMembers(Python, v.members)) == Keys(SortMembers(Python, w.members))
  {
    MemberKeysBasic(v.members);
    MemberKeysBasic(w.members);
    SortAgrees(Python, v.members);
    SortAgrees(Python, w.members);
    SameKeyMultiset(v, w);
    TextOrder.SortCanonical(Keys(v.members), Keys(w.members));
  }

  lemma Partner(v: Json, w: Json, m: Member, n: Member)
    requires v.JObj? && w.JObj? && Same(v, w) && DistinctKeys(w.members)
    requires m in v.members && n in w.members && m.key == n.key
    ensures Same(m.value, n.value)
  {
    var ns := w.members;
    var p :| 0 <= p < |v.members| && v.members[p] == m;
    assert Partnered(v.members[p], ns);
    var q :| 0 <= q < |ns| && v.members[p].key == ns[q].key && Same(v.members[p].value, ns[q].value);
    var r :| 0 <= r < |ns| && ns[r] == n;
    assert q == r;
  }

  /** Matching members meet at the same place once both lists are sorted. */
  lemma SortedPartners(v: Json, w: Json, i: nat)
    requires v.JObj? && w.JObj? && Same(v, w) && WellFormed(v) && WellFormed(w)
    requires i < |v.members|
    ensures var s, t := SortMembers(Python, v.members), SortMembers(Python, w.members);
            s[i].key == t[i].key && Same(s[i].value, t[i].value)
  {
    var s, t := SortMembers(Python, v.members), SortMembers(Python, w.members);
    SortedKeysEqual(v, w);
    assert Keys(s)[i] == Keys(t)[i];
    assert s[i] in s && t[i] in t;
    Partner(v, w, s[i], t[i]);
  }

  lemma {:induction false} SameValuesSameText(v: Json, w: Json)
    requires WellFormed(v) && WellFormed(w) && Same(v, w)
    ensures Text(Python, v) == Text(Python, w)
    decreases v
  {
    match v
    case JArr(items) =>
      forall i | 0 <= i < |items| ensures Text(Python, items[i]) == Text(Python, w.items[i]) {
        assert items[i] in items && w.items[i] in w.items;
        SameValuesSameText(items[i], w.items[i]);
      }
      assert ItemTexts(Python, v, items) == ItemTexts(Python, w, w.items);
    case JObj(ms) =>
      var s, t := SortMembers(Python, ms), SortMembers(Python, w.members);
      forall i | 0 <= i < |s|
        ensures MemberText(Python, s[i].key, Text(Python, s[i].value)) ==
                MemberText(Python, t[i].key, Text(Python, t[i].value))
      {
        SortedPartners(v, w, i);
        assert s[i] in s && t[i] in t;
        SameValuesSameText(s[i].value, t[i].value);
      }
      assert MemberTexts(Python, v, s) == MemberTexts(Python, w, t);
    case _ =>
  }

  /**
   * Text equality never identifies different values, whatever the keys and whichever program printed either text, as long
   * as JavaScript prints safe integers only.
   */
  lemma EqualTextSameValue(d: Dialect, e: Dialect, v: Json, w: Json)
    requires Text(d, v) == Text(e, w) && Readable(d, v) && Readable(e, w)
    ensures Same(v, w)
  {
    hide Text, Same, Readable;
    assert Text(d, v) + "" == Text(e, w) + "";
    Unambiguous(d, e, v, w, "", "");
  }

  /** Beyond them it does: JavaScript reads 2^53 and 2^53 + 1 as the same number. */
  lemma RoundedNumbersCollide()
    ensures Text(JavaScript, JNum(TWO_53)) == Text(JavaScript, JNum(TWO_53 + 1))
  {
    assert Ulp(TWO_53 / 2) == 1 && Ulp(TWO_53) == 2 && Ulp(TWO_53 + 1) == 2;
    hide DoubleText;
    assert Double(TWO_53) == TWO_53 == Double(TWO_53 + 1);
  }

  /** Equal canonical text means equal values, and the other way round; for a text from JavaScript with safe integers. */
  lemma CanonicalTextIsIdentity(v: Json, w: Json)
    requires WellFormed(v) && WellFormed(w)
    ensures Text(Python, v) == Text(Python, w) <==> Same(v, w)
    ensures SafeNumbers(w) ==> (Text(Python, v) == Text(JavaScript, w) <==> Same(v, w))
    ensures SafeNumbers(v) && SafeNumbers(w) ==> (Text(JavaScript, v) == Text(JavaScript, w) <==> Same(v, w))
  {
    hide Text, Same, WellFormed, SafeNumbers;
    if SafeNumbers(v) { PrintersAgree(v); }
    if SafeNumbers(w) { PrintersAgree(w); }
    if Same(v, w) {
      SameValuesSameText(v, w);
    }
    if Text(Python, v) == Text(Python, w) {
      EqualTextSameValue(Python, Python, v, w);
    }
  }
}
