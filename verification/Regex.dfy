/** The regular-expression subset the extension emits: reading its text and what the text matches. */
module Regex {
  import opened Basics

  datatype Re =
    | Eps
    | Lit(c: char)
    | Dot                       // any character but a line feed
    | NoneOf(cs: string)        // [^...]
    | Span(lo: char, hi: char)  // [lo-hi]
    | Cat(first: Re, rest: Re)
    | Opt(e: Re)
    | Star(e: Re)
    | Plus(e: Re)

  /** `re` matches the whole of `s`. */
  predicate Matches(re: Re, s: string)
    decreases re, |s|
  {
    match re
    case Eps => s == ""
    case Lit(c) => s == [c]
    case Dot => |s| == 1 && s[0] != '\n'
    case NoneOf(cs) => |s| == 1 && s[0] !in cs
    case Span(lo, hi) => |s| == 1 && lo <= s[0] <= hi
    case Cat(a, b) => exists k :: 0 <= k <= |s| && Matches(a, s[..k]) && Matches(b, s[k..])
    case Opt(e) => s == "" || Matches(e, s)
    case Star(e) => s == "" || exists k :: 0 < k <= |s| && Matches(e, s[..k]) && Matches(re, s[k..])
    case Plus(e) => Matches(e, s) || exists k :: 0 < k <= |s| && Matches(e, s[..k]) && Matches(re, s[k..])
  }

  // ---- Reading regex text ----

  type Reading = Option<(Re, string)>

  function IndexOf(s: string, c: char): (i: nat)
    ensures i <= |s|
    ensures i < |s| ==> s[i] == c
    ensures c !in s[..i]
  {
    if s == "" then 0
    else if s[0] == c then 0
    else
      var i := 1 + IndexOf(s[1..], c);
      assert s[..i] == [s[0]] + s[1..][..i - 1];
      i
  }

  predicate IsWordChar(c: char) {
    IsDigit(c) || IsLower(c) || 'A' <= c <= 'Z' || c == '_'
  }

  function ReadClass(t: string): (r: Reading)
    requires t != ""
    ensures r.Some? ==> |r.value.1| < |t|
  {
    var close := IndexOf(t, ']');
    if close == |t| || close == 0 then None
    else
      var body := t[1..close];
      if body != "" && body[0] == '^' then
        var cs := body[1..];
        if cs == "" || '\\' in cs || '[' in cs || '-' in cs || '^' in cs then None
        else Some((NoneOf(cs), t[close + 1..]))
      else if |body| == 3 && body[1] == '-' && body[0] <= body[2] then
        Some((Span(body[0], body[2]), t[close + 1..]))
      else None
  }

  function ReadAtom(t: string): (r: Reading)
    requires t != ""
    ensures r.Some? ==> |r.value.1| < |t|
    decreases |t|, 0
  {
    if t[0] == '\\' then
      if |t| >= 2 && !IsWordChar(t[1]) then Some((Lit(t[1]), t[2..])) else None
    else if t[0] == '.' then Some((Dot, t[1..]))
    else if t[0] == '[' then ReadClass(t)
    else if t[0] == '(' then
      if !StartsWith(t, "(?:") then None
      else
        match ReadItems(t[3..])
        case None => None
        case Some((inner, rest)) =>
          if rest != "" && rest[0] == ')' then Some((inner, rest[1..])) else None
    else if t[0] in "*+?)]{}|^$" then None
    else Some((Lit(t[0]), t[1..]))
  }

  function Quantify(a: Re, t: string): (r: (Re, string))
    ensures |r.1| <= |t|
  {
    if t == "" then (a, t)
    else if t[0] == '*' then (Star(a), t[1..])
    else if t[0] == '+' then (Plus(a), t[1..])
    else if t[0] == '?' then (Opt(a), t[1..])
    else (a, t)
  }

  /** Reads quantified atoms up to the end, a closing parenthesis or a final `$`. */
  function ReadItems(t: string): (r: Reading)
    ensures r.Some? ==> |r.value.1| <= |t|
    decreases |t|, 1
  {
    if t == "" || t[0] == ')' || t == "$" then Some((Eps, t))
    else
      match ReadAtom(t)
      case None => None
      case Some((a, rest)) =>
        var (q, after) := Quantify(a, rest);
        match ReadItems(after)
        case None => None
        case Some((tail, end)) => Some((Cat(q, tail), end))
  }

  datatype Filter = Filter(re: Re, toEnd: bool)

  /** A filter text: anchored at the start by `^`, and at the end when it closes with `$`. */
  function ReadFilter(text: string): Option<Filter> {
    if text == "" || text[0] != '^' then None
    else
      match ReadItems(text[1..])
      case Some((re, "")) => Some(Filter(re, false))
      case Some((re, "$")) => Some(Filter(re, true))
      case _ => None
  }

  predicate FilterMatches(f: Filter, url: string) {
    if f.toEnd then Matches(f.re, url)
    else exists k :: 0 <= k <= |url| && Matches(f.re, url[..k])
  }

  // ---- Escaped text reads back as itself ----

  const METACHARACTERS := ".*+?^${}()|[]\\"

  function EscapeChar(c: char): string {
    if c in METACHARACTERS then ['\\', c] else [c]
  }

  function Escape(text: string): string {
    if text == "" then "" else EscapeChar(text[0]) + Escape(text[1..])
  }

  function Literals(text: string, tail: Re): Re {
    if text == "" then tail else Cat(Lit(text[0]), Literals(text[1..], tail))
  }

  predicate Unquantified(t: string) {
    t == "" || t[0] !in "*+?"
  }

  predicate Reads(t: string, re: Re, end: string) {
    ReadItems(t) == Some((re, end))
  }

  /** One quantified atom, then the rest. */
  lemma ReadsNext(t: string, a: Re, rest: string, q: Re, after: string, tail: Re, end: string)
    requires t != "" && t[0] != ')' && t != "$"
    requires ReadAtom(t) == Some((a, rest)) && Quantify(a, rest) == (q, after) && Reads(after, tail, end)
    ensures Reads(t, Cat(q, tail), end)
  {
  }

  lemma ReadsEscapedChar(c: char, t: string, re: Re, end: string)
    requires Unquantified(t) && Reads(t, re, end)
    ensures Reads(EscapeChar(c) + t, Cat(Lit(c), re), end)
    ensures Unquantified(EscapeChar(c) + t)
  {
    var all := EscapeChar(c) + t;
    if c in METACHARACTERS {
      assert all[0] == '\\' && all[1] == c && all[2..] == t;
      assert ReadAtom(all) == Some((Lit(c), t));
    } else {
      assert all[0] == c && all[1..] == t;
      assert ReadAtom(all) == Some((Lit(c), t));
    }
    assert Quantify(Lit(c), t) == (Lit(c), t);
    hide Reads, ReadAtom, Quantify;
    ReadsNext(all, Lit(c), t, Lit(c), t, re, end);
  }

  lemma {:induction false} ReadsEscaped(text: string, t: string, re: Re, end: string)
    requires Unquantified(t) && Reads(t, re, end)
    ensures Reads(Escape(text) + t, Literals(text, re), end)
    ensures Unquantified(Escape(text) + t)
  {
    hide ReadItems, EscapeChar;
    if text == "" {
      assert Escape(text) + t == t;
    } else {
      ReadsEscaped(text[1..], t, re, end);
      ReadsEscapedChar(text[0], Escape(text[1..]) + t, Literals(text[1..], re), end);
      assert Escape(text) + t == EscapeChar(text[0]) + (Escape(text[1..]) + t);
    }
  }

  // ---- What the emitted pieces match ----

  lemma LiteralFirst(c: char, tail: Re, s: string)
    ensures Matches(Cat(Lit(c), tail), s) <==> s != "" && s[0] == c && Matches(tail, s[1..])
  {
    if Matches(Cat(Lit(c), tail), s) {
      var k :| 0 <= k <= |s| && Matches(Lit(c), s[..k]) && Matches(tail, s[k..]);
      assert k == 1 && s[..1][0] == s[0];
    }
    if s != "" && s[0] == c && Matches(tail, s[1..]) {
      assert s[..1] == [c];
      assert Matches(Lit(c), s[..1]);
    }
  }

  lemma PrefixStep(s: string, text: string)
    requires text != ""
    ensures StartsWith(s, text) <==> s != "" && s[0] == text[0] && StartsWith(s[1..], text[1..])
  {
    assert text == [text[0]] + text[1..];
    if |text| <= |s| {
      assert s[..|text|] == [s[0]] + s[1..][..|text| - 1];
      assert s[..|text|][1..] == s[1..][..|text| - 1];
    }
  }

  lemma {:induction false} LiteralsMatch(text: string, tail: Re, s: string)
    ensures Matches(Literals(text, tail), s) <==>
            StartsWith(s, text) && Matches(tail, s[|text|..])
  {
    if text == "" {
      assert s[0..] == s && s[..0] == "";
    } else {
      LiteralFirst(text[0], Literals(text[1..], tail), s);
      PrefixStep(s, text);
      if s != "" {
        LiteralsMatch(text[1..], tail, s[1..]);
        assert |text| <= |s| ==> s[1..][|text| - 1..] == s[|text|..];
      }
    }
  }

  lemma {:induction false} StarDotMatches(s: string)
    ensures Matches(Star(Dot), s) <==> '\n' !in s
    decreases |s|
  {
    if s != "" {
      StarDotMatches(s[1..]);
      assert s == [s[0]] + s[1..];
      if '\n' !in s {
        assert Matches(Dot, s[..1]) && Matches(Star(Dot), s[1..]);
      }
      if Matches(Star(Dot), s) {
        var k :| 0 < k <= |s| && Matches(Dot, s[..k]) && Matches(Star(Dot), s[k..]);
        assert k == 1;
      }
    }
  }

  /** `+` over a single-character expression: nonempty, and every character fits. */
  lemma {:induction false} PlusOfChars(e: Re, s: string)
    requires e.NoneOf? || e.Span?
    ensures Matches(Plus(e), s) <==> s != "" && forall i :: 0 <= i < |s| ==> Matches(e, [s[i]])
    decreases |s|
  {
    if s == "" {
    } else if |s| == 1 {
      assert s == [s[0]] && forall k :: 0 < k <= |s| ==> s[..k] == s;
    } else {
      PlusOfChars(e, s[1..]);
      assert s[..1] == [s[0]];
      assert !Matches(e, s);
      if Matches(Plus(e), s) {
        var k :| 0 < k <= |s| && Matches(e, s[..k]) && Matches(Plus(e), s[k..]);
        assert k == 1;
        forall i | 0 <= i < |s| ensures Matches(e, [s[i]]) {
          if i > 0 { assert s[i] == s[1..][i - 1]; }
        }
      }
      if forall i :: 0 <= i < |s| ==> Matches(e, [s[i]]) {
        forall i | 0 <= i < |s| - 1 ensures Matches(e, [s[1..][i]]) {
          assert s[1..][i] == s[i + 1];
        }
        assert Matches(e, s[..1]) && Matches(Plus(e), s[1..]);
      }
    }
  }
}
