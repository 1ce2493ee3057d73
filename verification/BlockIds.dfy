/** Technical block ids made from block names. */
module BlockIds {
  import opened Basics
  import opened CanonicalJson
  import JsonNumbers
  import opened Validation

  const MAX_ID := 64
  const FIRST_NUMBER := 2
  const LAST_NUMBER := 10_000

  // ---- From a lower-cased, decomposed name to a base ----

  /** `s` without its leading characters other than lower-case letters and digits. */
  function SkipOthers(s: string): (r: string)
    ensures |r| <= |s| && (r != "" ==> IsAlnum(r[0]))
  {
    if s != "" && !IsAlnum(s[0]) then SkipOthers(s[1..]) else s
  }

  /** Every run of other characters becomes one hyphen. */
  function Collapse(s: string): string
    decreases |s|
  {
    if s == "" then ""
    else if IsAlnum(s[0]) then [s[0]] + Collapse(s[1..])
    else "-" + Collapse(SkipOthers(s[1..]))
  }

  function TrimFront(s: string): string {
    if s != "" && s[0] == '-' then TrimFront(s[1..]) else s
  }

  function TrimBack(s: string): string {
    if s != "" && s[|s| - 1] == '-' then TrimBack(s[..|s| - 1]) else s
  }

  function Cut(s: string, n: nat): string { if |s| <= n then s else s[..n] }

  function Named(s: string): string {
    if s != "" && IsLower(s[0]) then s else "block-" + if s == "" then "neu" else s
  }

  /** `text` is the name after lower-casing, spelling out sharp s, decomposition and dropping combining marks. */
  function Base(text: string): string {
    TrimBack(Cut(Named(TrimBack(TrimFront(Collapse(text)))), MAX_ID))
  }

  function Suffix(number: nat): string { "-" + NatText(number) }

  function Candidate(base: string, number: nat): string {
    var suffix := Suffix(number);
    TrimBack(Cut(base, if |suffix| <= MAX_ID then MAX_ID - |suffix| else 0)) + suffix
  }

  function Search(base: string, number: nat, existing: set<string>): Option<string>
    decreases LAST_NUMBER - number
  {
    if number >= LAST_NUMBER then None
    else if Candidate(base, number) !in existing then Some(Candidate(base, number))
    else Search(base, number + 1, existing)
  }

  function IdSpec(text: string, existing: set<string>): Option<string> {
    if Base(text) !in existing then Some(Base(text)) else Search(Base(text), FIRST_NUMBER, existing)
  }

  /** The base itself, or the first free numbered candidate; None where the search runs out. */
  method BlockIdFromName(text: string, ids: seq<string>) returns (id: Option<string>)
    ensures id == IdSpec(text, set x | x in ids)
  {
    var base := Base(text);
    var existing := set x | x in ids;
    if base !in existing { return Some(base); }
    var number := FIRST_NUMBER;
    while number < LAST_NUMBER
      invariant FIRST_NUMBER <= number <= LAST_NUMBER
      invariant Search(base, FIRST_NUMBER, existing) == Search(base, number, existing)
    {
      var candidate := Candidate(base, number);
      if candidate !in existing { return Some(candidate); }
      number := number + 1;
    }
    return None;
  }

  // ---- Slugs ----

  /** Lower-case letters, digits and hyphens, no two hyphens in a row. */
  predicate Clean(s: string) {
    && (forall i :: 0 <= i < |s| ==> IsAlnum(s[i]) || s[i] == '-')
    && forall i :: 0 <= i < |s| - 1 ==> s[i] != '-' || s[i + 1] != '-'
  }

  predicate Slug(s: string) {
    Clean(s) && s != "" && IsLower(s[0]) && s[|s| - 1] != '-'
  }

  /** Groups of letters and digits between hyphens; the first one may be empty only for a leading hyphen. */
  lemma {:induction false} CleanParts(s: string)
    requires Clean(s) && s != "" && s[|s| - 1] != '-'
    ensures var parts := SplitOn(s, '-');
            && (forall i :: 1 <= i < |parts| ==> parts[i] != "" && AllAlnum(parts[i]))
            && AllAlnum(parts[0]) && (s[0] != '-' ==> parts[0] != "")
  {
    if |s| == 1 {
      assert s[1..] == "" && SplitOn(s[1..], '-') == [""];
    } else {
      forall i | 0 <= i < |s| - 1 ensures s[1..][i] == s[i + 1] {}
      CleanParts(s[1..]);
      var rest := SplitOn(s[1..], '-');
      var parts := SplitOn(s, '-');
      if s[0] == '-' {
        assert s[1..][0] != '-';
        forall i | 1 <= i < |parts| ensures parts[i] == rest[i - 1] {}
      } else {
        forall i | 1 <= i < |parts| ensures parts[i] == rest[i] {}
      }
    }
  }

  /** Conversely, such groups make a clean text. */
  lemma {:induction false} PartsClean(s: string)
    requires s != ""
    requires var parts := SplitOn(s, '-');
             AllAlnum(parts[0]) && forall i :: 1 <= i < |parts| ==> parts[i] != "" && AllAlnum(parts[i])
    ensures Clean(s) && s[|s| - 1] != '-'
  {
    var parts := SplitOn(s, '-');
    var rest := SplitOn(s[1..], '-');
    if s[0] == '-' {
      assert parts == [""] + rest;
      forall i | 0 <= i < |rest| ensures rest[i] == parts[i + 1] {}
      assert s[1..] != "" && s[1] != '-';
    } else {
      assert parts == [[s[0]] + rest[0]] + rest[1..];
      forall i | 0 <= i < |rest[0]| ensures IsAlnum(rest[0][i]) { assert parts[0][i + 1] == rest[0][i]; }
      forall i | 1 <= i < |rest| ensures rest[i] == parts[i] {}
      assert parts[0][0] == s[0];
    }
    if s[1..] != "" {
      PartsClean(s[1..]);
      assert s == [s[0]] + s[1..];
      ConsClean(s[0], s[1..]);
    }
  }

  /** The validator's groups are exactly the texts without a doubled or closing hyphen. */
  lemma BlockIdIsSlug(s: string)
    ensures BlockIdText(s) <==> Slug(s)
  {
    if Slug(s) { CleanParts(s); }
    if BlockIdText(s) { PartsClean(s); }
  }

  lemma {:induction false} CollapseClean(s: string)
    ensures Clean(Collapse(s))
    ensures Collapse(s) != "" && s != "" && IsAlnum(s[0]) ==> Collapse(s)[0] != '-'
    decreases |s|
  {
    if s != "" {
      if IsAlnum(s[0]) {
        CollapseClean(s[1..]);
        ConsClean(s[0], Collapse(s[1..]));
      } else {
        var rest := SkipOthers(s[1..]);
        CollapseClean(rest);
        ConsClean('-', Collapse(rest));
      }
    }
  }

  lemma ConsClean(c: char, s: string)
    requires Clean(s) && (IsAlnum(c) || c == '-') && (c == '-' && s != "" ==> s[0] != '-')
    ensures Clean([c] + s)
  {
    var r := [c] + s;
    forall i | 0 <= i < |r| - 1 ensures r[i] != '-' || r[i + 1] != '-' {
      if i > 0 { assert r[i] == s[i - 1] && r[i + 1] == s[i]; }
    }
  }

  lemma {:induction false} TrimFrontClean(s: string)
    requires Clean(s)
    ensures Clean(TrimFront(s)) && (TrimFront(s) != "" ==> TrimFront(s)[0] != '-')
  {
    if s != "" && s[0] == '-' {
      forall i | 0 <= i < |s| - 1 ensures s[1..][i] == s[i + 1] {}
      TrimFrontClean(s[1..]);
    }
  }

  lemma {:induction false} TrimBackClean(s: string)
    requires Clean(s)
    ensures Clean(TrimBack(s)) && |TrimBack(s)| <= |s| && TrimBack(s) == s[..|TrimBack(s)|]
    ensures TrimBack(s) != "" ==> TrimBack(s)[|TrimBack(s)| - 1] != '-'
    ensures s != "" && s[0] != '-' ==> TrimBack(s) != ""
  {
    if s != "" && s[|s| - 1] == '-' { TrimBackClean(s[..|s| - 1]); }
  }

  lemma CutClean(s: string, n: nat)
    requires Clean(s)
    ensures Clean(Cut(s, n)) && |Cut(s, n)| <= n
  {
  }

  lemma NamedSlug(s: string)
    requires Clean(s) && (s != "" ==> s[0] != '-' && s[|s| - 1] != '-')
    ensures Slug(Named(s))
  {
    if s == "" || !IsLower(s[0]) {
      var tail := if s == "" then "neu" else s;
      assert Clean("block-") && Clean(tail);
      var r := "block-" + tail;
      forall i | 0 <= i < |r| - 1 ensures r[i] != '-' || r[i + 1] != '-' {
        if i >= 6 { assert r[i] == tail[i - 6] && r[i + 1] == tail[i - 5]; }
      }
    }
  }

  /** A prefix of a slug without trailing hyphens is a slug. */
  lemma PrefixSlug(s: string, n: nat)
    requires Slug(s) && n >= 1
    ensures Slug(TrimBack(Cut(s, n))) && |TrimBack(Cut(s, n))| <= n
  {
    CutClean(s, n);
    TrimBackClean(Cut(s, n));
  }

  lemma BaseSlug(text: string)
    ensures Slug(Base(text)) && |Base(text)| <= MAX_ID
  {
    CollapseClean(text);
    TrimFrontClean(Collapse(text));
    TrimBackClean(TrimFront(Collapse(text)));
    NamedSlug(TrimBack(TrimFront(Collapse(text))));
    PrefixSlug(Named(TrimBack(TrimFront(Collapse(text)))), MAX_ID);
  }

  // ---- Candidates ----

  lemma NumberText(number: nat)
    requires FIRST_NUMBER <= number < LAST_NUMBER
    ensures 1 <= |NatText(number)| <= 4
    ensures forall i :: 0 <= i < |NatText(number)| ==> IsDigit(NatText(number)[i])
  {
    JsonNumbers.NatReads(number);
    assert |NatText(number / 1000)| == 1;
    assert |NatText(number / 100)| <= 2;
    assert |NatText(number / 10)| <= 3;
  }

  lemma CandidateSlug(base: string, number: nat)
    requires Slug(base) && FIRST_NUMBER <= number < LAST_NUMBER
    ensures Slug(Candidate(base, number)) && |Candidate(base, number)| <= MAX_ID
  {
    NumberText(number);
    var suffix := Suffix(number);
    PrefixSlug(base, MAX_ID - |suffix|);
    var p := TrimBack(Cut(base, MAX_ID - |suffix|));
    var r := p + suffix;
    forall i | 0 <= i < |r| - 1 ensures r[i] != '-' || r[i + 1] != '-' {
      if i >= |p| { assert r[i + 1] == NatText(number)[i - |p|]; }
    }
  }

  /** After the last hyphen there is none. */
  lemma HyphenBound(p: string, d: string, j: nat)
    requires '-' !in d && j < |p + "-" + d| && (p + "-" + d)[j] == '-'
    ensures j <= |p|
  {
  }

  /** What follows the last hyphen is determined by the text. */
  lemma LastGroup(p: string, d: string, q: string, e: string)
    requires '-' !in d && '-' !in e && p + "-" + d == q + "-" + e
    ensures d == e
  {
    var s := p + "-" + d;
    assert s[|p|] == '-' && s[|q|] == (q + "-" + e)[|q|] == '-';
    HyphenBound(p, d, |q|);
    HyphenBound(q, e, |p|);
    assert d == s[|p| + 1..] && e == (q + "-" + e)[|q| + 1..];
  }

  lemma CandidatesDiffer(base: string, a: nat, b: nat)
    requires FIRST_NUMBER <= a < LAST_NUMBER && FIRST_NUMBER <= b < LAST_NUMBER
    requires Candidate(base, a) == Candidate(base, b)
    ensures a == b
  {
    NumberText(a);
    NumberText(b);
    var p := TrimBack(Cut(base, MAX_ID - |Suffix(a)|));
    var q := TrimBack(Cut(base, MAX_ID - |Suffix(b)|));
    assert Candidate(base, a) == p + "-" + NatText(a) && Candidate(base, b) == q + "-" + NatText(b);
    LastGroup(p, NatText(a), q, NatText(b));
    JsonNumbers.NatReads(a);
    JsonNumbers.NatReads(b);
  }

  lemma {:induction false} SearchMeans(base: string, number: nat, existing: set<string>)
    requires FIRST_NUMBER <= number <= LAST_NUMBER
    ensures var r := Search(base, number, existing);
            && (r.Some? ==> r.value !in existing && exists k :: number <= k < LAST_NUMBER && r.value == Candidate(base, k))
            && (r.None? <==> forall k :: number <= k < LAST_NUMBER ==> Candidate(base, k) in existing)
    decreases LAST_NUMBER - number
  {
    if number < LAST_NUMBER { SearchMeans(base, number + 1, existing); }
  }

  // ---- The results ----

  /** A generated id is valid, at most 64 characters long and new. */
  lemma GeneratedIdIsValidAndFresh(text: string, existing: set<string>)
    requires IdSpec(text, existing).Some?
    ensures var id := IdSpec(text, existing).value;
            ValidBlockId(id) && id !in existing
  {
    BaseSlug(text);
    BlockIdIsSlug(Base(text));
    if Base(text) in existing {
      SearchMeans(Base(text), FIRST_NUMBER, existing);
      var k :| FIRST_NUMBER <= k < LAST_NUMBER && IdSpec(text, existing).value == Candidate(Base(text), k);
      CandidateSlug(Base(text), k);
      BlockIdIsSlug(Candidate(Base(text), k));
    }
  }

  function Candidates(base: string): (s: seq<string>)
    ensures |s| == LAST_NUMBER - FIRST_NUMBER
    ensures forall i :: 0 <= i < |s| ==> s[i] == Candidate(base, i + FIRST_NUMBER)
  {
    seq(LAST_NUMBER - FIRST_NUMBER, i requires 0 <= i < LAST_NUMBER - FIRST_NUMBER => Candidate(base, i + FIRST_NUMBER))
  }

  lemma CandidatesDistinct(base: string)
    ensures Distinct(Candidates(base))
  {
    var s := Candidates(base);
    forall i, j | 0 <= i < j < |s| ensures s[i] != s[j] {
      if s[i] == s[j] { CandidatesDiffer(base, i + FIRST_NUMBER, j + FIRST_NUMBER); }
    }
  }

  /** The search runs out exactly when the base and all 9998 candidates are taken. */
  lemma RunsOutExactly(text: string, existing: set<string>)
    ensures IdSpec(text, existing).None? <==>
            Base(text) in existing && forall x :: x in Candidates(Base(text)) ==> x in existing
  {
    var base := Base(text);
    var all := Candidates(base);
    SearchMeans(base, FIRST_NUMBER, existing);
    if forall k :: FIRST_NUMBER <= k < LAST_NUMBER ==> Candidate(base, k) in existing {
      forall x | x in all ensures x in existing {
        var i :| 0 <= i < |all| && all[i] == x;
      }
    }
    if forall x :: x in all ==> x in existing {
      forall k | FIRST_NUMBER <= k < LAST_NUMBER ensures Candidate(base, k) in existing {
        assert all[k - FIRST_NUMBER] == Candidate(base, k);
      }
    }
  }

  /** So it needs 9998 different ids, or 9999 where the base is not itself one of the candidates. */
  lemma RunsOutOnlyWithManyIds(text: string, existing: set<string>)
    requires IdSpec(text, existing).None?
    ensures |existing| >= (if SelfNumbered(text) then 9998 else 9999)
  {
    RunsOutExactly(text, existing);
    var all := Candidates(Base(text));
    CandidatesDistinct(Base(text));
    if SelfNumbered(text) {
      DistinctFits(all, existing);
    } else {
      var more := all + [Base(text)];
      forall i, j | 0 <= i < j < |more| ensures more[i] != more[j] {
        assert more[i] == all[i];
        if j < |all| { assert more[j] == all[j]; }
      }
      DistinctFits(more, existing);
    }
  }

  // ---- Names that are ids already ----

  lemma {:induction false} CollapseSlug(s: string)
    requires Clean(s)
    ensures Collapse(s) == s
    decreases |s|
  {
    if s != "" {
      forall i | 0 <= i < |s| - 1 ensures s[1..][i] == s[i + 1] {}
      CollapseSlug(s[1..]);
      assert s == [s[0]] + s[1..];
      if !IsAlnum(s[0]) {
        assert |s| > 1 ==> s[1..][0] != '-';
        assert SkipOthers(s[1..]) == s[1..];
      }
    }
  }

  /** A valid id is its own base. */
  lemma BaseOfValidId(s: string)
    requires ValidBlockId(s)
    ensures Base(s) == s
  {
    BlockIdIsSlug(s);
    CollapseSlug(s);
  }

  function Row(n: nat): (s: string)
    ensures |s| == n && forall i :: 0 <= i < n ==> s[i] == 'y'
  {
    seq(n, i => 'y')
  }

  /** The base is itself one of its numbered candidates. */
  predicate SelfNumbered(text: string) { Base(text) in Candidates(Base(text)) }

  /** That happens: a name of 64 characters ending like its own second candidate. */
  lemma SelfNumberedName()
    ensures exists text :: SelfNumbered(text)
  {
    var text := Row(62) + "-2";
    assert Slug(text);
    BlockIdIsSlug(text);
    BaseOfValidId(text);
    assert NatText(2) == "2" && Suffix(2) == "-2";
    assert Cut(text, 62) == Row(62);
    assert Candidate(text, 2) == text;
    assert Candidates(text)[0] == text;
    assert SelfNumbered(text);
  }

  /** For every name there is a list of exactly that many different ids for which the search runs out. */
  lemma RunsOutAtTheBound(text: string) returns (ids: seq<string>)
    ensures |ids| == (if SelfNumbered(text) then 9998 else 9999) && Distinct(ids)
    ensures IdSpec(text, set x | x in ids).None?
  {
    var all := Candidates(Base(text));
    CandidatesDistinct(Base(text));
    ids := if SelfNumbered(text) then all else all + [Base(text)];
    if !SelfNumbered(text) {
      forall i, j | 0 <= i < j < |ids| ensures ids[i] != ids[j] {
        assert ids[i] == all[i];
        if j < |all| { assert ids[j] == all[j]; }
      }
    }
    forall x | x in all ensures x in ids {}
    assert Base(text) in ids;
    RunsOutExactly(text, set x | x in ids);
  }

  // ---- What a base is made of ----

  /** The longest runs of lower-case letters and digits. */
  function Words(s: string): (r: seq<string>)
    ensures forall i :: 0 <= i < |r| ==> r[i] != "" && AllAlnum(r[i])
    ensures s != "" && IsAlnum(s[0]) ==> r != []
  {
    if s == "" then []
    else if !IsAlnum(s[0]) then Words(s[1..])
    else
      var rest := Words(s[1..]);
      if |s| > 1 && IsAlnum(s[1]) then [[s[0]] + rest[0]] + rest[1..] else [[s[0]]] + rest
  }

  function ClosingHyphen(s: string): string { if s != "" && !IsAlnum(s[|s| - 1]) then "-" else "" }

  lemma {:induction false} WordsSkip(s: string)
    ensures Words(SkipOthers(s)) == Words(s) && ClosingHyphen(SkipOthers(s)) == (if SkipOthers(s) == "" then "" else ClosingHyphen(s))
  {
    if s != "" && !IsAlnum(s[0]) { WordsSkip(s[1..]); }
  }

  lemma JoinFirst(c: char, w: string, rest: seq<string>)
    ensures Join([[c] + w] + rest, "-") == [c] + Join([w] + rest, "-")
  {
    assert ([[c] + w] + rest)[1..] == rest && ([w] + rest)[1..] == rest;
  }

  /** A run goes on: the first word grows by one character. */
  lemma WordGrows(s: string)
    requires |s| > 1 && IsAlnum(s[0]) && IsAlnum(s[1])
    ensures Join(Words(s), "-") == [s[0]] + Join(Words(s[1..]), "-") && ClosingHyphen(s) == ClosingHyphen(s[1..])
  {
    var w := Words(s[1..]);
    JoinFirst(s[0], w[0], w[1..]);
    assert [w[0]] + w[1..] == w;
    assert s[|s| - 1] == s[1..][|s| - 2];
  }

  /** A run ends: the other characters behind it become one hyphen. */
  lemma WordEnds(s: string)
    requires |s| > 1 && IsAlnum(s[0]) && !IsAlnum(s[1])
    ensures var r := SkipOthers(s[2..]);
            Join(Words(s), "-") + ClosingHyphen(s) == [s[0]] + "-" + if r == "" then "" else Join(Words(r), "-") + ClosingHyphen(r)
  {
    hide Words, Join;
    var t := s[1..];
    var r := SkipOthers(s[2..]);
    assert t[1..] == s[2..];
    WordsSkip(s[2..]);
    OneWord(s, r);
    if r == "" {
      AllSkipped(t);
      assert s[|s| - 1] == t[|t| - 1];
    } else {
      SkippedTail(s[2..]);
      assert s[|s| - 1] == s[2..][|s| - 3];
    }
  }

  lemma {:induction false} SkippedTail(s: string)
    requires SkipOthers(s) != ""
    ensures s != "" && ClosingHyphen(SkipOthers(s)) == ClosingHyphen(s)
  {
    WordsSkip(s);
  }

  lemma OneWord(s: string, r: string)
    requires |s| > 1 && IsAlnum(s[0]) && !IsAlnum(s[1]) && Words(s[2..]) == Words(r)
    requires r != "" ==> IsAlnum(r[0])
    ensures Join(Words(s), "-") == if r == "" then [s[0]] else [s[0]] + "-" + Join(Words(r), "-")
  {
    assert s[1..][1..] == s[2..];
    assert Words(s[1..]) == Words(r);
    assert Words(s) == [[s[0]]] + Words(r);
    assert ([[s[0]]] + Words(r))[1..] == Words(r);
  }

  lemma {:induction false} CollapseWords(s: string)
    requires s != "" && IsAlnum(s[0])
    ensures Collapse(s) == Join(Words(s), "-") + ClosingHyphen(s)
    decreases |s|
  {
    hide Words, Join;
    assert Collapse(s) == [s[0]] + Collapse(s[1..]);
    if |s| == 1 {
      LoneWord(s);
    } else if IsAlnum(s[1]) {
      CollapseWords(s[1..]);
      WordGrows(s);
    } else {
      var r := SkipOthers(s[2..]);
      assert s[1..][1..] == s[2..];
      assert Collapse(s[1..]) == "-" + Collapse(r);
      WordEnds(s);
      if r != "" { CollapseWords(r); }
    }
  }

  lemma LoneWord(s: string)
    requires |s| == 1 && IsAlnum(s[0])
    ensures Collapse(s) == Join(Words(s), "-") == s
  {
    assert s[1..] == "" && s == [s[0]];
  }

  /** Where skipping leaves nothing, the last character is another one. */
  lemma AllSkipped(t: string)
    requires t != "" && !IsAlnum(t[0]) && SkipOthers(t[1..]) == ""
    ensures ClosingHyphen(t) == "-" && Words(t) == []
  {
    WordsSkip(t[1..]);
    SkippedOthers(t[1..]);
    if |t| > 1 { assert t[|t| - 1] == t[1..][|t| - 2]; }
  }

  lemma {:induction false} SkippedOthers(s: string)
    requires SkipOthers(s) == ""
    ensures forall i :: 0 <= i < |s| ==> !IsAlnum(s[i])
  {
    if s != "" {
      SkippedOthers(s[1..]);
      forall i | 0 <= i < |s| ensures !IsAlnum(s[i]) { if i > 0 { assert s[i] == s[1..][i - 1]; } }
    }
  }

  lemma {:induction false} JoinedEnds(ws: seq<string>)
    requires ws != [] && forall i :: 0 <= i < |ws| ==> ws[i] != "" && AllAlnum(ws[i])
    ensures var j := Join(ws, "-"); j != "" && IsAlnum(j[0]) && IsAlnum(j[|j| - 1])
  {
    if |ws| > 1 {
      JoinedEnds(ws[1..]);
      var rest := Join(ws[1..], "-");
      var j := ws[0] + "-" + rest;
      assert j[0] == ws[0][0] && j[|j| - 1] == rest[|rest| - 1];
    }
  }

  lemma TrimmedIsJoined(text: string)
    ensures TrimBack(TrimFront(Collapse(text))) == Join(Words(text), "-")
  {
    var r := SkipOthers(text);
    WordsSkip(text);
    if r == "" {
      SkippedOthers(text);
      if text != "" { WordsSkip(text[1..]); assert Collapse(text) == "-" + Collapse(SkipOthers(text[1..])); }
      assert Words(r) == [];
      assert TrimFront(Collapse(text)) == "" by { if text != "" { assert SkipOthers(text[1..]) == ""; assert Collapse(text) == "-"; assert "-"[1..] == ""; } }
    } else {
      CollapseWords(r);
      var j := Join(Words(r), "-");
      JoinedEnds(Words(r));
      if IsAlnum(text[0]) {
        assert r == text;
      } else {
        assert SkipOthers(text[1..]) == r;
        assert Collapse(text) == "-" + Collapse(r);
        assert Collapse(text)[1..] == Collapse(r);
      }
      assert Collapse(r)[0] == j[0];
      assert TrimFront(Collapse(text)) == Collapse(r);
      HyphenTrimmed(j, Collapse(r));
    }
  }

  lemma HyphenTrimmed(j: string, s: string)
    requires j != "" && j[|j| - 1] != '-' && (s == j + "-" || s == j + "")
    ensures TrimBack(s) == j
  {
    if s == j + "-" { assert s[..|s| - 1] == j; }
  }

  /** The words joined by hyphens; where that is empty or starts with a digit, behind a fixed beginning. */
  function Spelled(text: string): string {
    var joined := Join(Words(text), "-");
    if joined == "" then "block-neu" else if IsLower(joined[0]) then joined else "block-" + joined
  }

  /** A base spells the words of the name, at most 64 characters of it, and does not end in a hyphen. */
  lemma BaseSpellsWords(text: string)
    ensures Base(text) ==
            if |Spelled(text)| <= 64 then Spelled(text)
            else if Spelled(text)[63] == '-' then Spelled(text)[..63] else Spelled(text)[..64]
  {
    hide Words, TrimFront, Collapse, Join;
    var full := Spelled(text);
    BaseSlug(text);
    CollapseClean(text);
    TrimFrontClean(Collapse(text));
    TrimBackClean(TrimFront(Collapse(text)));
    NamedSlug(TrimBack(TrimFront(Collapse(text))));
    TrimmedIsJoined(text);
    assert full == Named(Join(Words(text), "-")) && Slug(full);
    if |full| > 64 {
      if full[63] == '-' {
        assert full[62] != '-' && full[..64] == full[..63] + "-";
        HyphenTrimmed(full[..63], full[..64]);
      } else {
        HyphenTrimmed(full[..64], full[..64]);
      }
    }
  }

  /** A candidate is the base, or as much of it as leaves room, a hyphen and its number. */
  lemma CandidateSpells(base: string, number: nat) returns (room: nat)
    requires Slug(base) && |base| <= MAX_ID && FIRST_NUMBER <= number < LAST_NUMBER
    ensures 59 <= room == MAX_ID - 1 - |NatText(number)|
    ensures var keep := if |base| <= room then |base| else if base[room - 1] == '-' then room - 1 else room;
            Candidate(base, number) == base[..keep] + "-" + NatText(number)
  {
    NumberText(number);
    room := MAX_ID - 1 - |NatText(number)|;
    assert |Suffix(number)| == |NatText(number)| + 1;
    if |base| <= room {
      HyphenTrimmed(base, base);
      assert base[..|base|] == base;
    } else if base[room - 1] == '-' {
      assert base[room - 2] != '-' && base[..room] == base[..room - 1] + "-";
      HyphenTrimmed(base[..room - 1], base[..room]);
    } else {
      HyphenTrimmed(base[..room], base[..room]);
    }
  }

  lemma {:induction false} SearchIsFirst(base: string, number: nat, existing: set<string>, k: nat)
    requires FIRST_NUMBER <= number <= k < LAST_NUMBER && Candidate(base, k) !in existing
    requires forall j :: number <= j < k ==> Candidate(base, j) in existing
    ensures Search(base, number, existing) == Some(Candidate(base, k))
    decreases k - number
  {
    hide Candidate;
    if number < k { SearchIsFirst(base, number + 1, existing, k); }
  }

  /** The id is the base where that is new, otherwise the candidate with the smallest number that is. */
  lemma IdIsFirstFree(text: string, existing: set<string>, k: nat)
    requires FIRST_NUMBER <= k < LAST_NUMBER
    ensures Base(text) !in existing ==> IdSpec(text, existing) == Some(Base(text))
    ensures Base(text) in existing && Candidate(Base(text), k) !in existing
            && (forall j :: FIRST_NUMBER <= j < k ==> Candidate(Base(text), j) in existing) ==>
              IdSpec(text, existing) == Some(Candidate(Base(text), k))
  {
    hide Candidate, Base, Search;
    if Candidate(Base(text), k) !in existing && forall j :: FIRST_NUMBER <= j < k ==> Candidate(Base(text), j) in existing {
      SearchIsFirst(Base(text), FIRST_NUMBER, existing, k);
    }
  }
}
