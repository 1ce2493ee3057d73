/** The regex text made from a match pattern matches exactly the URLs the pattern describes. */
module PatternMeaning {
  import opened Basics
  import opened Regex
  import opened MatchPattern

  lemma {:induction false} PathPart(path: string, s: string)
    ensures Matches(PathRe(path), s) <==> LineGlob(path, s)
    decreases path
  {
    if path != "" {
      var tail := PathRe(path[1..]);
      if path[0] == '*' {
        forall k | 0 <= k <= |s|
          ensures Matches(Star(Dot), s[..k]) && Matches(tail, s[k..]) <==>
                  '\n' !in s[..k] && LineGlob(path[1..], s[k..])
        {
          StarDotMatches(s[..k]);
          PathPart(path[1..], s[k..]);
        }
      } else {
        LiteralFirst(path[0], tail, s);
        if s != "" { PathPart(path[1..], s[1..]); }
      }
    }
  }

  predicate PortOk(s: string) {
    s == "" || (|s| > 1 && s[0] == ':' && AllDigits(s[1..]))
  }

  lemma CatEps(e: Re, s: string)
    ensures Matches(Cat(e, Eps), s) <==> Matches(e, s)
  {
    assert s[..|s|] == s && s[|s|..] == "";
    if Matches(Cat(e, Eps), s) {
      var k :| 0 <= k <= |s| && Matches(e, s[..k]) && Matches(Eps, s[k..]);
      assert k == |s|;
    }
    if Matches(e, s) {
      assert Matches(e, s[..|s|]) && Matches(Eps, s[|s|..]);
    }
  }

  lemma PortText(s: string)
    ensures Matches(PORT, s) <==> PortOk(s)
  {
    var digits := Plus(Span('0', '9'));
    LiteralFirst(':', Cat(digits, Eps), s);
    if s != "" {
      CatEps(digits, s[1..]);
      PlusOfChars(Span('0', '9'), s[1..]);
      var rest := s[1..];
      assert (forall i :: 0 <= i < |rest| ==> Matches(Span('0', '9'), [rest[i]])) <==> AllDigits(rest) by {
        forall i | 0 <= i < |rest| ensures Matches(Span('0', '9'), [rest[i]]) <==> IsDigit(rest[i]) {}
      }
    }
  }

  // ---- The host part ----

  predicate IsLabel(s: string) {
    s != "" && '.' !in s && '/' !in s && ':' !in s
  }

  lemma PlusNoneOf(cs: string, s: string)
    ensures Matches(Plus(NoneOf(cs)), s) <==> s != "" && forall c :: c in cs ==> c !in s
  {
    PlusOfChars(NoneOf(cs), s);
    assert (forall i :: 0 <= i < |s| ==> Matches(NoneOf(cs), [s[i]])) <==> (forall c :: c in cs ==> c !in s) by {
      forall i | 0 <= i < |s| ensures Matches(NoneOf(cs), [s[i]]) <==> s[i] !in cs {}
      if forall i :: 0 <= i < |s| ==> s[i] !in cs {
        forall c | c in cs ensures c !in s {}
      }
    }
  }

  lemma NothingLeft(s: string)
    ensures Matches(Eps, s) <==> s == ""
  {
  }

  lemma LabelText(s: string)
    ensures Matches(LABEL, s) <==> |s| > 1 && s[|s| - 1] == '.' && IsLabel(s[..|s| - 1])
  {
    hide Matches;
    var chars := Plus(NoneOf("./:"));
    CatCut(chars, Cat(Lit('.'), Eps), s);
    assert LABEL == Cat(chars, Cat(Lit('.'), Eps));
    if Matches(LABEL, s) {
      var k :| 0 <= k <= |s| && Matches(chars, s[..k]) && Matches(Cat(Lit('.'), Eps), s[k..]);
      PlusNoneOf("./:", s[..k]);
      LiteralFirst('.', Eps, s[k..]);
      NothingLeft(s[k..][1..]);
      assert k == |s| - 1;
      assert '.' in "./:" && '/' in "./:" && ':' in "./:";
    }
    if |s| > 1 && s[|s| - 1] == '.' && IsLabel(s[..|s| - 1]) {
      var k := |s| - 1;
      PlusNoneOf("./:", s[..k]);
      LiteralFirst('.', Eps, s[k..]);
      NothingLeft(s[k..][1..]);
      assert s[k..] == ".";
    }
  }

  lemma LabelsCons(name: string, rest: string)
    requires IsLabel(name)
    ensures LabelsOk(name) && (LabelsOk(name + "." + rest) <==> LabelsOk(rest))
  {
    SplitOfClean(name, '.');
    SplitOfCons(name, rest, '.');
    var more := SplitOn(rest, '.');
    var all := [name] + more;
    assert SplitOn(name + "." + rest, '.') == all;
    if LabelsOk(name + "." + rest) {
      forall i | 0 <= i < |more| ensures more[i] != "" && '/' !in more[i] && ':' !in more[i] {
        assert more[i] == all[i + 1];
      }
    }
  }

  /** Text before the registered domain: empty, or labels each closed by a dot. */
  predicate LabelPrefix(s: string) {
    s == "" || (s[|s| - 1] == '.' && LabelsOk(s[..|s| - 1]))
  }

  lemma {:induction false} StarLabels(s: string)
    ensures Matches(Star(LABEL), s) <==> LabelPrefix(s)
    decreases |s|
  {
    if s != "" {
      if Matches(Star(LABEL), s) {
        var k :| 0 < k <= |s| && Matches(LABEL, s[..k]) && Matches(Star(LABEL), s[k..]);
        LabelText(s[..k]);
        StarLabels(s[k..]);
        LabelPrefixExtend(s, k);
      }
      if LabelPrefix(s) {
        var k := LabelPrefixSplit(s);
        LabelText(s[..k]);
        StarLabels(s[k..]);
      }
    }
  }

  lemma LabelPrefixExtend(s: string, k: nat)
    requires 1 < k <= |s| && s[k - 1] == '.' && IsLabel(s[..k - 1]) && LabelPrefix(s[k..])
    ensures LabelPrefix(s)
  {
    var name := s[..k - 1];
    LabelsCons(name, "");
    if k < |s| {
      var rest := s[k..][..|s| - k - 1];
      LabelsCons(name, rest);
      assert s[..|s| - 1] == name + "." + rest;
    }
  }

  lemma LabelPrefixSplit(s: string) returns (k: nat)
    requires s != "" && LabelPrefix(s)
    ensures 1 < k <= |s| && s[..k][k - 1] == '.' && IsLabel(s[..k][..k - 1]) && LabelPrefix(s[k..])
  {
    var body := s[..|s| - 1];
    k := IndexOf(s, '.') + 1;
    var name := s[..k - 1];
    assert s[..k][..k - 1] == name;
    if k - 1 == |body| {
      assert name == body;
      SplitOfClean(body, '.');
      assert SplitOn(body, '.')[0] == name;
    } else {
      var rest := body[k..];
      assert body == name + "." + rest;
      SplitOfCons(name, rest, '.');
      assert SplitOn(body, '.')[0] == name;
      LabelsCons(name, rest);
      assert s[k..][..|s| - k - 1] == rest;
    }
  }

  lemma HostStart(h: HostPattern, tail: Re, t: string)
    ensures Matches(HostRe(h, tail), t) <==>
            exists i :: 0 <= i <= |t| && HostPrefix(h, t[..i]) && Matches(tail, t[i..])
  {
    match h
    case AnyHost =>
      forall i | 0 <= i <= |t| ensures Matches(Plus(NoneOf("/:")), t[..i]) <==> HostPrefix(h, t[..i]) {
        PlusNoneOf("/:", t[..i]);
        assert '/' in "/:" && ':' in "/:";
      }
    case Subdomains(d) =>
      SubdomainStart(d, tail, t);
    case ExactHost(e) =>
      LiteralsMatch(e, tail, t);
      if StartsWith(t, e) && Matches(tail, t[|e|..]) {
        assert HostPrefix(h, t[..|e|]);
      }
  }

  /** The text in front of the port: a host the pattern covers, in the spelling the regex reads. */
  predicate HostPrefix(h: HostPattern, s: string) {
    match h
    case AnyHost => s != "" && '/' !in s && ':' !in s
    case Subdomains(d) => EndsWith(s, d) && LabelPrefix(s[..|s| - |d|])
    case ExactHost(e) => s == e
  }

  /** A concatenation matches where the text can be cut between its parts. */
  lemma CatCut(a: Re, b: Re, t: string)
    ensures Matches(Cat(a, b), t) <==> exists k :: 0 <= k <= |t| && Matches(a, t[..k]) && Matches(b, t[k..])
  {
  }

  lemma HostPrefixLong(d: string, s: string)
    requires HostPrefix(Subdomains(d), s)
    ensures |d| <= |s|
  {
  }

  lemma SubdomainStart(d: string, tail: Re, t: string)
    ensures Matches(HostRe(Subdomains(d), tail), t) <==>
            exists i :: 0 <= i <= |t| && HostPrefix(Subdomains(d), t[..i]) && Matches(tail, t[i..])
  {
    hide Matches, HostPrefix, Literals;
    CatCut(Star(LABEL), Literals(d, tail), t);
    if Matches(HostRe(Subdomains(d), tail), t) {
      var k :| 0 <= k <= |t| && Matches(Star(LABEL), t[..k]) && Matches(Literals(d, tail), t[k..]);
      LiteralsMatch(d, tail, t[k..]);
      SubdomainCut(d, tail, t, k, k + |d|);
    }
    if exists i :: 0 <= i <= |t| && HostPrefix(Subdomains(d), t[..i]) && Matches(tail, t[i..]) {
      var i :| 0 <= i <= |t| && HostPrefix(Subdomains(d), t[..i]) && Matches(tail, t[i..]);
      HostPrefixLong(d, t[..i]);
      SubdomainCut(d, tail, t, i - |d|, i);
      assert Matches(Star(LABEL), t[..i - |d|]);
    }
  }

  lemma SubdomainCut(d: string, tail: Re, t: string, k: nat, i: nat)
    requires i <= |t| && i == k + |d|
    ensures Matches(Star(LABEL), t[..k]) && Matches(Literals(d, tail), t[k..]) <==>
            HostPrefix(Subdomains(d), t[..i]) && Matches(tail, t[i..])
  {
    StarLabels(t[..k]);
    LiteralsMatch(d, tail, t[k..]);
    assert t[k..][..|d|] == t[..i][k..] && t[k..][|d|..] == t[i..];
    assert t[..i][..k] == t[..k];
  }

  lemma SubdomainSpelling(d: string, s: string)
    ensures HostPrefix(Subdomains(d), s) <==> HostRead(Subdomains(d), s)
  {
    if HostPrefix(Subdomains(d), s) {
      var cut := |s| - |d|;
      if cut > 0 {
        assert s[cut - 1..] == [s[cut - 1]] + s[cut..];
        assert s[..cut][cut - 1] == s[cut - 1];
        assert s[..cut][..cut - 1] == s[..cut - 1];
      } else {
        assert s == d;
      }
    }
    if HostRead(Subdomains(d), s) && s != d {
      var cut := |s| - |d|;
      assert s[cut - 1..] == "." + d;
      assert s[cut..] == s[cut - 1..][1..] == d;
      assert s[..cut][cut - 1] == s[cut - 1] == s[cut - 1..][0];
      assert s[..cut][..cut - 1] == s[..cut - 1];
    }
    if s == d {
      assert s[0..] == d && s[..0] == "";
    }
  }

  // ---- One URL splits in only one way ----

  lemma UrlShape(u: Url)
    requires WellFormedUrl(u)
    ensures var t := AfterScheme(u); var n := |u.host| + |PortSuffix(u)|;
            && n < |t| && t[n] == '/' && (forall q :: 0 <= q < n ==> t[q] != '/')
            && (forall q :: 0 <= q < |u.host| ==> t[q] == u.host[q])
            && (PortSuffix(u) != "" ==> t[|u.host|] == ':')
  {
    var t := AfterScheme(u);
    var port := PortSuffix(u);
    var n := |u.host| + |port|;
    forall q | 0 <= q < n ensures t[q] != '/' {
      if q < |u.host| { assert t[q] == u.host[q]; }
      else {
        assert t[q] == port[q - |u.host|];
        if q > |u.host| { assert port[q - |u.host|] == u.port.value[q - |u.host| - 1]; }
      }
    }
  }

  lemma CutShape(t: string, i: nat, j: nat)
    requires i <= j < |t| && '/' !in t[..i] && ':' !in t[..i] && PortOk(t[i..j])
    ensures forall q :: 0 <= q < j ==> t[q] != '/'
    ensures forall q :: 0 <= q < i ==> t[q] != ':'
    ensures i < j ==> t[i] == ':'
    ensures forall q :: i < q < j ==> IsDigit(t[q])
  {
    forall q | i < q < j ensures IsDigit(t[q]) {
      assert t[q] == t[i..j][1..][q - i - 1];
    }
    assert i < j ==> t[i] == t[i..j][0];
    forall q | 0 <= q < i ensures t[q] != ':' && t[q] != '/' {
      assert t[q] == t[..i][q];
    }
  }

  /** Host, port and path are cut where the regex can only cut them. */
  lemma UniqueCut(u: Url, i: nat, j: nat)
    requires WellFormedUrl(u)
    requires i <= j < |AfterScheme(u)|
    requires '/' !in AfterScheme(u)[..i] && ':' !in AfterScheme(u)[..i]
    requires PortOk(AfterScheme(u)[i..j]) && AfterScheme(u)[j] == '/'
    ensures ':' !in u.host && i == |u.host| && j == |u.host| + |PortSuffix(u)|
  {
    var t := AfterScheme(u);
    UrlShape(u);
    CutShape(t, i, j);
    assert j == |u.host| + |PortSuffix(u)|;
    assert t[|u.host| - 1] == u.host[|u.host| - 1];
    forall c | 0 <= c < |u.host| ensures u.host[c] != ':' {
      assert t[c] == u.host[c];
    }
  }

  lemma UrlPieces(u: Url)
    ensures var t := AfterScheme(u); var h := |u.host|; var n := h + |PortSuffix(u)|;
            t[..h] == u.host && t[h..][..|PortSuffix(u)|] == PortSuffix(u)
            && t[h..][|PortSuffix(u)|..] == u.path && t[n..] == u.path
  {
  }

  lemma MatchingRest(h: HostPattern, path: string, u: Url)
    requires WellFormedUrl(u) && HostRead(h, u.host) && LineGlob(path, u.path)
    ensures Matches(HostRe(h, Cat(PORT, PathRe(path))), AfterScheme(u))
  {
    var rest := Cat(PORT, PathRe(path));
    HostStart(h, rest, AfterScheme(u));
    UrlPieces(u);
    PathPart(path, u.path);
    HostSpelling(h, u.host);
    PortText(PortSuffix(u));
    PortSuffixOk(u);
    assert Matches(rest, AfterScheme(u)[|u.host|..]);
    assert HostPrefix(h, AfterScheme(u)[..|u.host|]);
  }

  lemma MatchedRest(h: HostPattern, path: string, u: Url)
    requires WellFormedUrl(u) && path != "" && path[0] == '/'
    requires h.ExactHost? ==> HostChars(h.host)
    requires h.Subdomains? ==> HostChars(h.domain)
    requires Matches(HostRe(h, Cat(PORT, PathRe(path))), AfterScheme(u))
    ensures HostRead(h, u.host) && LineGlob(path, u.path)
  {
    hide Matches, HostPrefix, HostRead, LineGlob, PathRe, PortOk, HostRe, WellFormedUrl, HostChars;
    var t := AfterScheme(u);
    var rest := Cat(PORT, PathRe(path));
    HostStart(h, rest, t);
    var i :| 0 <= i <= |t| && HostPrefix(h, t[..i]) && Matches(rest, t[i..]);
    CatCut(PORT, PathRe(path), t[i..]);
    var k :| 0 <= k <= |t[i..]| && Matches(PORT, t[i..][..k]) && Matches(PathRe(path), t[i..][k..]);
    var j := i + k;
    assert t[i..][..k] == t[i..j] && t[i..][k..] == t[j..];
    PortText(t[i..j]);
    PathPart(path, t[j..]);
    GlobStarts(path, t[j..]);
    HostPrefixPlain(h, t[..i]);
    UniqueCut(u, i, j);
    UrlPieces(u);
    HostSpelling(h, u.host);
  }

  lemma GlobStarts(path: string, s: string)
    requires path != "" && path[0] == '/' && LineGlob(path, s)
    ensures s != "" && s[0] == '/'
  {
  }

  lemma PortSuffixOk(u: Url)
    requires WellFormedUrl(u)
    ensures PortOk(PortSuffix(u))
  {
    if u.port.Some? {
      assert PortSuffix(u)[1..] == u.port.value;
    }
  }

  lemma HostSpelling(h: HostPattern, s: string)
    ensures HostPrefix(h, s) <==> HostRead(h, s)
  {
    if h.Subdomains? { SubdomainSpelling(h.domain, s); }
  }

  lemma {:induction false} LabelsPlain(t: string)
    requires LabelsOk(t)
    ensures '/' !in t && ':' !in t
    decreases |t|
  {
    var k := IndexOf(t, '.');
    var name := t[..k];
    if k == |t| {
      assert name == t;
      SplitOfClean(t, '.');
      assert SplitOn(t, '.')[0] == t;
    } else {
      var rest := t[k + 1..];
      assert t == name + "." + rest;
      SplitOfCons(name, rest, '.');
      assert SplitOn(t, '.')[0] == name;
      LabelsCons(name, rest);
      LabelsPlain(rest);
    }
  }

  lemma HostPrefixPlain(h: HostPattern, s: string)
    requires HostPrefix(h, s)
    requires h.ExactHost? ==> HostChars(h.host)
    requires h.Subdomains? ==> HostChars(h.domain)
    ensures '/' !in s && ':' !in s
  {
    hide LabelsOk;
    match h
    case AnyHost =>
    case ExactHost(e) => HostCharsPlain(e);
    case Subdomains(d) =>
      var front := s[..|s| - |d|];
      HostCharsPlain(d);
      FrontPlain(front);
      assert s == front + d;
  }

  lemma HostCharsPlain(d: string)
    requires HostChars(d)
    ensures '/' !in d && ':' !in d
  {
  }

  lemma FrontPlain(front: string)
    requires LabelPrefix(front)
    ensures '/' !in front && ':' !in front
  {
    hide LabelsOk;
    if front != "" {
      LabelsPlain(front[..|front| - 1]);
      assert front == front[..|front| - 1] + ".";
    }
  }

  lemma CatIsCut(a: Re, b: Re, s: string, cut: nat)
    requires cut <= |s|
    requires forall k :: 0 <= k <= |s| && Matches(a, s[..k]) && Matches(b, s[k..]) ==> k == cut
    requires Matches(a, s[..cut])
    ensures Matches(Cat(a, b), s) <==> Matches(b, s[cut..])
  {
  }

  lemma OptSkip(b: Re, s: string, cut: nat)
    requires cut <= 1 && cut < |s| && s[cut] == ':' && (cut == 1 ==> s[0] == 's')
    requires forall k :: 0 <= k <= |s| && Matches(b, s[k..]) ==> k < |s| && s[k] == ':'
    ensures Matches(Cat(Opt(Lit('s')), b), s) <==> Matches(b, s[cut..])
  {
    assert s[..cut] == if cut == 1 then "s" else "";
    forall k | 0 <= k <= |s| && Matches(Opt(Lit('s')), s[..k]) && Matches(b, s[k..]) ensures k == cut {
      assert s[..k] == "" || Matches(Lit('s'), s[..k]);
      assert k == |s[..k]| && (k == 1 ==> s[..k][0] == s[0]);
    }
    CatIsCut(Opt(Lit('s')), b, s, cut);
  }

  lemma SeparatorFirst(tail: Re, s: string)
    requires Matches(Literals("://", tail), s)
    ensures s != "" && s[0] == ':'
  {
    LiteralFirst(':', Literals("://"[1..], tail), s);
  }

  lemma OptionalS(tail: Re, secure: bool, rest: string)
    ensures Matches(Cat(Opt(Lit('s')), Literals("://", tail)), (if secure then "s" else "") + "://" + rest)
            <==> Matches(tail, rest)
  {
    var x := (if secure then "s" else "") + "://" + rest;
    var cut := if secure then 1 else 0;
    assert x[cut..] == "://" + rest;
    AfterSeparator(tail, rest);
    forall k | 0 <= k <= |x| && Matches(Literals("://", tail), x[k..]) ensures k < |x| && x[k] == ':' {
      SeparatorFirst(tail, x[k..]);
    }
    OptSkip(Literals("://", tail), x, cut);
  }

  lemma AfterSeparator(tail: Re, rest: string)
    ensures Matches(Literals("://", tail), "://" + rest) <==> Matches(tail, rest)
  {
    LiteralsMatch("://", tail, "://" + rest);
    assert ("://" + rest)[..3] == "://" && ("://" + rest)[3..] == rest;
  }

  lemma SchemePart(s: Scheme, tail: Re, secure: bool, rest: string)
    ensures Matches(SchemeRe(s, Literals("://", tail)), (if secure then "https" else "http") + "://" + rest)
            <==> SchemeOk(s, secure) && Matches(tail, rest)
  {
    hide Matches, Literals;
    var text := (if secure then "https" else "http") + "://" + rest;
    var sep := Literals("://", tail);
    var x := (if secure then "s" else "") + "://" + rest;
    assert text[..4] == "http" && text[4..] == x;
    match s
    case AnyScheme =>
      LiteralsMatch("http", Cat(Opt(Lit('s')), sep), text);
      OptionalS(tail, secure, rest);
    case HttpOnly =>
      LiteralsMatch("http", sep, text);
      AfterSeparator(tail, rest);
      LiteralsMatch("://", tail, x);
      PrefixStep(x, "://");
    case HttpsOnly =>
      LiteralsMatch("https", sep, text);
      AfterSeparator(tail, rest);
      if secure {
        assert text[..5] == "https" && text[5..] == "://" + rest;
      } else {
        assert text[4] == ':' && "https"[4] == 's';
      }
  }

  predicate ValidPattern(p: Pattern) {
    && p.path != "" && p.path[0] == '/' && OneLine(p.path)
    && (p.host.Subdomains? ==> HostChars(p.host.domain))
    && (p.host.ExactHost? ==> HostChars(p.host.host))
  }

  lemma ReadPatternValid(text: string)
    requires ReadPattern(text).Some?
    ensures ValidPattern(ReadPattern(text).value)
  {
    hide ReadHost;
    if StartsWith(text, "*://") { SplitValid(AnyScheme, text[4..]); }
    else if StartsWith(text, "http://") { SplitValid(HttpOnly, text[7..]); }
    else { SplitValid(HttpsOnly, text[8..]); }
  }

  lemma SplitValid(scheme: Scheme, rest: string)
    requires SplitAfterScheme(scheme, rest).Some?
    ensures var p := SplitAfterScheme(scheme, rest).value;
            && p.path != "" && p.path[0] == '/'
            && (p.host.Subdomains? ==> HostChars(p.host.domain)) && (p.host.ExactHost? ==> HostChars(p.host.host))
  {
  }

  function SchemeName(s: Scheme): string {
    match s case AnyScheme => "*" case HttpOnly => "http" case HttpsOnly => "https"
  }

  function HostName(h: HostPattern): string {
    match h
    case AnyHost => "*"
    case Subdomains(d) => "*." + d
    case ExactHost(e) => e
  }

  /** The one spelling of a pattern. */
  function PatternText(p: Pattern): string {
    SchemeName(p.scheme) + "://" + (HostName(p.host) + p.path)
  }

  lemma HostReads(h: HostPattern)
    requires h.Subdomains? ==> HostChars(h.domain)
    requires h.ExactHost? ==> HostChars(h.host)
    ensures ReadHost(HostName(h)) == Some(h) && '/' !in HostName(h)
  {
    match h
    case AnyHost =>
    case Subdomains(d) =>
      assert ("*." + d)[2..] == d && ("*." + d)[..2] == "*.";
    case ExactHost(e) =>
      assert e[0] != '*';
      assert |e| >= 2 ==> e[..2][0] == e[0];
  }

  lemma ReadHostSpells(text: string)
    requires ReadHost(text).Some?
    ensures HostName(ReadHost(text).value) == text
  {
    if text != "*" && StartsWith(text, "*.") && HostChars(text[2..]) { assert text == text[..2] + text[2..]; }
  }

  lemma RestReads(p: Pattern)
    requires ValidPattern(p)
    ensures SplitAfterScheme(p.scheme, HostName(p.host) + p.path) == Some(p)
  {
    HostReads(p.host);
    var host := HostName(p.host);
    var rest := host + p.path;
    FirstSlash(host, p.path);
    assert rest[..|host|] == host && rest[|host|..] == p.path;
  }

  lemma {:induction false} FirstSlash(host: string, path: string)
    requires '/' !in host && path != "" && path[0] == '/'
    ensures IndexOf(host + path, '/') == |host|
  {
    if host == "" {
      assert host + path == path;
    } else {
      FirstSlash(host[1..], path);
      assert (host + path)[1..] == host[1..] + path;
    }
  }

  lemma RestSpells(scheme: Scheme, rest: string)
    requires SplitAfterScheme(scheme, rest).Some?
    ensures var p := SplitAfterScheme(scheme, rest).value; p.scheme == scheme && rest == HostName(p.host) + p.path
  {
    var slash := IndexOf(rest, '/');
    ReadHostSpells(rest[..slash]);
    assert rest == rest[..slash] + rest[slash..];
  }

  lemma SpelledReads(p: Pattern)
    requires ValidPattern(p)
    ensures ReadPattern(PatternText(p)) == Some(p)
  {
    hide SplitAfterScheme, HostName;
    RestReads(p);
    var rest := HostName(p.host) + p.path;
    var head := SchemeName(p.scheme) + "://";
    var text := head + rest;
    assert text == PatternText(p);
    assert text[|head|..] == rest && text[..|head|] == head;
    match p.scheme
    case AnyScheme => assert text[..4] == "*://";
    case HttpOnly => assert text[0] == 'h' && text[..7] == "http://";
    case HttpsOnly => assert text[0] == 'h' && text[4] == 's' && text[..8] == "https://";
  }

  lemma ReadSpells(text: string)
    requires ReadPattern(text).Some?
    ensures text == PatternText(ReadPattern(text).value)
  {
    hide SplitAfterScheme, HostName;
    if StartsWith(text, "*://") {
      RestSpells(AnyScheme, text[4..]);
      assert text == "*://" + text[4..];
    } else if StartsWith(text, "http://") {
      RestSpells(HttpOnly, text[7..]);
      assert text == "http://" + text[7..];
    } else {
      RestSpells(HttpsOnly, text[8..]);
      assert text == "https://" + text[8..];
    }
  }

  /** Reading accepts exactly the spellings of valid patterns, each as the pattern it spells. */
  lemma ReadPatternExactly(text: string, p: Pattern)
    ensures ReadPattern(text) == Some(p) <==> ValidPattern(p) && text == PatternText(p)
  {
    hide ReadPattern, ValidPattern, PatternText;
    if ReadPattern(text) == Some(p) {
      ReadPatternValid(text);
      ReadSpells(text);
    }
    if ValidPattern(p) { SpelledReads(p); }
  }

  // ---- Which hosts the expression reaches ----

  /** Every label of the text is nonempty. */
  predicate NonemptyLabels(t: string) {
    var labels := SplitOn(t, '.');
    forall i :: 0 <= i < |labels| ==> labels[i] != ""
  }

  /** The expression emitted for `p` misses no host like this one: no colon under `*`, no empty label in front of the domain. */
  predicate HostReached(p: HostPattern, host: string) {
    match p
    case AnyHost => ':' !in host
    case Subdomains(d) => host == d || !EndsWith(host, "." + d) || NonemptyLabels(host[..|host| - |d| - 1])
    case ExactHost(_) => true
  }

  lemma {:induction false} PartsWithin(t: string, c: char)
    requires c !in t
    ensures forall i :: 0 <= i < |SplitOn(t, '.')| ==> c !in SplitOn(t, '.')[i]
  {
    if t != "" {
      PartsWithin(t[1..], c);
      var rest := SplitOn(t[1..], '.');
      var parts := SplitOn(t, '.');
      assert t[0] in t;
      forall i | 0 <= i < |parts| ensures c !in parts[i] {
        if t[0] == '.' {
          if i > 0 { assert parts[i] == rest[i - 1]; }
        } else if i > 0 {
          assert parts[i] == rest[i];
        }
      }
    }
  }

  lemma NonemptyLabelsOk(t: string)
    requires '/' !in t && ':' !in t
    ensures LabelsOk(t) <==> NonemptyLabels(t)
  {
    PartsWithin(t, '/');
    PartsWithin(t, ':');
  }

  /** A host that ends in domain characters has no colon. */
  lemma NoColon(u: Url, d: string)
    requires WellFormedUrl(u) && HostChars(d) && EndsWith(u.host, "." + d)
    ensures ':' !in u.host
  {
    assert u.host[|u.host| - 1] == ("." + d)[|d|] == d[|d| - 1];
  }

  lemma HostReadExactly(h: HostPattern, u: Url)
    requires WellFormedUrl(u) && (h.Subdomains? ==> HostChars(h.domain))
    ensures HostRead(h, u.host) <==> HostCovers(h, u.host) && HostReached(h, u.host)
  {
    if h.Subdomains? && u.host != h.domain && EndsWith(u.host, "." + h.domain) {
      NoColon(u, h.domain);
      NonemptyLabelsOk(u.host[..|u.host| - |h.domain| - 1]);
    }
  }

  lemma {:induction false} LineGlobIsGlob(pattern: string, s: string)
    requires '\n' !in s
    ensures LineGlob(pattern, s) <==> Glob(pattern, s)
    decreases pattern
  {
    if pattern != "" {
      if pattern[0] == '*' {
        forall k | 0 <= k <= |s| ensures '\n' !in s[..k] && (LineGlob(pattern[1..], s[k..]) <==> Glob(pattern[1..], s[k..])) {
          LineGlobIsGlob(pattern[1..], s[k..]);
        }
      } else if s != "" {
        LineGlobIsGlob(pattern[1..], s[1..]);
      }
    }
  }

  /** What the emitted expression reads, in its own terms. */
  lemma EmittedReads(text: string, u: Url)
    requires WellFormedUrl(u) && ReadPattern(text).Some?
    ensures PatternToRegex(text).Some?
    ensures var filter := ReadFilter(PatternToRegex(text).value);
            var p := ReadPattern(text).value;
            filter.Some? && (FilterMatches(filter.value, UrlText(u)) <==>
              SchemeOk(p.scheme, u.secure) && HostRead(p.host, u.host) && LineGlob(p.path, u.path))
  {
    var p := ReadPattern(text).value;
    ReadPatternValid(text);
    RegexTextReads(p);
    var tail := HostRe(p.host, Cat(PORT, PathRe(p.path)));
    SchemePart(p.scheme, tail, u.secure, AfterScheme(u));
    if HostRead(p.host, u.host) && LineGlob(p.path, u.path) { MatchingRest(p.host, p.path, u); }
    if Matches(tail, AfterScheme(u)) { MatchedRest(p.host, p.path, u); }
  }

  /**
   * For every pattern and every URL the emitted expression matches exactly when the pattern does and its host is one the
   * expression reaches.
   */
  lemma PatternTranslatesExactly(text: string, u: Url)
    requires WellFormedUrl(u) && ReadPattern(text).Some?
    ensures PatternToRegex(text).Some?
    ensures var filter := ReadFilter(PatternToRegex(text).value);
            var p := ReadPattern(text).value;
            filter.Some? && (FilterMatches(filter.value, UrlText(u)) <==> PatternMatches(p, u) && HostReached(p.host, u.host))
  {
    hide ReadPattern, PatternToRegex, ReadFilter, FilterMatches, HostRead, HostReached, HostCovers, LineGlob, Glob;
    EmittedReads(text, u);
    ReadPatternValid(text);
    var p := ReadPattern(text).value;
    HostReadExactly(p.host, u);
    LineGlobIsGlob(p.path, u.path);
  }

  /** The pattern text reaches the URL's host; texts that are no patterns match nothing anyway. */
  predicate Reached(text: string, u: Url) {
    ReadPattern(text).Some? ==> HostReached(ReadPattern(text).value.host, u.host)
  }

  // ---- Hosts every pattern reaches ----

  /** No colon, and wherever a dot starts a domain the labels in front of it are nonempty. */
  predicate PlainHost(host: string) {
    ':' !in host && forall k :: 0 <= k < |host| && DomainAfter(host, k) ==> NonemptyLabels(host[..k])
  }

  predicate DomainAfter(host: string, k: nat)
    requires k < |host|
  {
    host[k] == '.' && HostChars(host[k + 1..])
  }

  lemma PlainReached(text: string, u: Url)
    requires PlainHost(u.host)
    ensures Reached(text, u)
  {
    if ReadPattern(text).Some? {
      ReadPatternValid(text);
      var h := ReadPattern(text).value.host;
      if h.Subdomains? && EndsWith(u.host, "." + h.domain) {
        var k := |u.host| - |h.domain| - 1;
        assert u.host[k..] == "." + h.domain;
        assert u.host[k] == u.host[k..][0] && u.host[k + 1..] == u.host[k..][1..] == h.domain;
        assert DomainAfter(u.host, k);
      }
    }
  }

  lemma {:induction false} PrefixLabels(host: string, k: nat)
    requires k < |host| && host[k] == '.' && NonemptyLabels(host)
    ensures NonemptyLabels(host[..k])
  {
    var parts, front := SplitOn(host, '.'), SplitOn(host[..k], '.');
    SplitAt(host, k);
    forall i | 0 <= i < |front| ensures front[i] != "" { assert parts[i] == front[i]; }
  }

  lemma {:induction false} SplitAt(s: string, k: nat)
    requires k < |s| && s[k] == '.'
    ensures SplitOn(s, '.') == SplitOn(s[..k], '.') + SplitOn(s[k + 1..], '.')
  {
    if k == 0 {
      assert s[..0] == "" && s[1..] == s[0 + 1..];
    } else {
      SplitAt(s[1..], k - 1);
      assert s[1..][..k - 1] == s[..k][1..] && s[1..][k - 1 + 1..] == s[k + 1..];
      var a, b := SplitOn(s[..k][1..], '.'), SplitOn(s[k + 1..], '.');
      SplitHead(s, a, b);
      SplitTake(s, k);
    }
  }

  lemma SplitHead(s: string, a: seq<string>, b: seq<string>)
    requires s != "" && a != [] && SplitOn(s[1..], '.') == a + b
    ensures SplitOn(s, '.') == (if s[0] == '.' then [""] + a else [[s[0]] + a[0]] + a[1..]) + b
  {
    assert (a + b)[0] == a[0] && (a + b)[1..] == a[1..] + b;
    if s[0] == '.' {
      assert [""] + (a + b) == [""] + a + b;
    } else {
      assert [[s[0]] + a[0]] + (a[1..] + b) == [[s[0]] + a[0]] + a[1..] + b;
    }
  }

  lemma SplitTake(s: string, k: nat)
    requires 0 < k <= |s|
    ensures var a := SplitOn(s[..k][1..], '.'); SplitOn(s[..k], '.') == if s[0] == '.' then [""] + a else [[s[0]] + a[0]] + a[1..]
  {
    assert s[..k][0] == s[0];
  }

  /** Host names without colons and empty labels are plain. */
  lemma OrdinaryHostsArePlain(host: string)
    requires ':' !in host && NonemptyLabels(host)
    ensures PlainHost(host)
  {
    forall k | 0 <= k < |host| && DomainAfter(host, k) ensures NonemptyLabels(host[..k]) {
      PrefixLabels(host, k);
    }
  }

  /** A pattern text that covers any path on the hosts of `h`. */
  function EveryPath(h: HostPattern): string {
    PatternText(Pattern(AnyScheme, h, "/*"))
  }

  lemma EveryPathMatches(h: HostPattern, u: Url)
    requires WellFormedUrl(u) && (h.Subdomains? ==> HostChars(h.domain)) && !h.ExactHost?
    ensures ReadPattern(EveryPath(h)) == Some(Pattern(AnyScheme, h, "/*"))
    ensures PatternMatches(Pattern(AnyScheme, h, "/*"), u) <==> HostCovers(h, u.host)
  {
    ReadPatternExactly(EveryPath(h), Pattern(AnyScheme, h, "/*"));
    assert "/*"[1..] == "*" && "*"[1..] == "";
    var rest := u.path[1..];
    assert rest[|rest|..] == "";
    assert Glob("", rest[|rest|..]);
    assert Glob("*", rest);
    assert Glob("/*", u.path);
  }

  /** Every other host is missed by some pattern that covers it. */
  lemma OtherHostsMissed(u: Url) returns (h: HostPattern)
    requires WellFormedUrl(u) && !PlainHost(u.host)
    ensures !h.ExactHost? && (h.Subdomains? ==> HostChars(h.domain))
    ensures HostCovers(h, u.host) && !HostReached(h, u.host)
  {
    if ':' in u.host {
      h := AnyHost;
    } else {
      var k :| 0 <= k < |u.host| && DomainAfter(u.host, k) && !NonemptyLabels(u.host[..k]);
      var d := u.host[k + 1..];
      h := Subdomains(d);
      assert u.host[k..] == "." + d;
      assert |u.host| - |d| - 1 == k;
      assert |u.host| != |d|;
    }
  }
}
