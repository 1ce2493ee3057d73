/** WebExtension match patterns: reading them, their URL meaning, and the regex text made from them. */
module MatchPattern {
  import opened Basics
  import opened Regex

  datatype Scheme = AnyScheme | HttpOnly | HttpsOnly
  datatype HostPattern = AnyHost | Subdomains(domain: string) | ExactHost(host: string)
  datatype Pattern = Pattern(scheme: Scheme, host: HostPattern, path: string)

  /** An http(s) URL as the browser hands it to the filter; `path` includes query and fragment. */
  datatype Url = Url(secure: bool, host: string, port: Option<string>, path: string)

  predicate AllDigits(s: string) {
    forall i :: 0 <= i < |s| ==> IsDigit(s[i])
  }

  /** Host without a slash, with colons only inside a bracketed address; path from its first slash, without a line feed. */
  predicate WellFormedUrl(u: Url) {
    && u.host != "" && '/' !in u.host
    && (':' in u.host ==> u.host[|u.host| - 1] == ']')
    && (u.port.Some? ==> u.port.value != "" && AllDigits(u.port.value))
    && u.path != "" && u.path[0] == '/' && '\n' !in u.path
  }

  function PortSuffix(u: Url): string {
    match u.port case None => "" case Some(p) => ":" + p
  }

  function AfterScheme(u: Url): string {
    u.host + PortSuffix(u) + u.path
  }

  function UrlText(u: Url): string {
    (if u.secure then "https" else "http") + "://" + AfterScheme(u)
  }

  // ---- Pattern text ----

  predicate IsHostChar(c: char) { IsLower(c) || IsDigit(c) || c == '.' || c == '-' }

  predicate HostChars(s: string) {
    s != "" && forall i :: 0 <= i < |s| ==> IsHostChar(s[i])
  }

  predicate IsLineEnd(c: char) { c == '\n' || c == '\r' || c == '\U{2028}' || c == '\U{2029}' }

  predicate OneLine(s: string) {
    forall i :: 0 <= i < |s| ==> !IsLineEnd(s[i])
  }

  function ReadHost(h: string): Option<HostPattern> {
    if h == "*" then Some(AnyHost)
    else if StartsWith(h, "*.") && HostChars(h[2..]) then Some(Subdomains(h[2..]))
    else if HostChars(h) then Some(ExactHost(h))
    else None
  }

  function SplitAfterScheme(scheme: Scheme, rest: string): Option<Pattern> {
    var slash := IndexOf(rest, '/');
    if slash == |rest| then None
    else
      match ReadHost(rest[..slash])
      case None => None
      case Some(host) => Some(Pattern(scheme, host, rest[slash..]))
  }

  /** Scheme, host and path of a pattern text, the part both validators read alike; the path starts with a slash. */
  function SplitPattern(text: string): Option<Pattern> {
    if StartsWith(text, "*://") then SplitAfterScheme(AnyScheme, text[4..])
    else if StartsWith(text, "http://") then SplitAfterScheme(HttpOnly, text[7..])
    else if StartsWith(text, "https://") then SplitAfterScheme(HttpsOnly, text[8..])
    else None
  }

  /** The extension's reading: `.` in its expression keeps the path on one line. */
  function ReadPattern(text: string): Option<Pattern> {
    match SplitPattern(text)
    case None => None
    case Some(p) => if OneLine(p.path) then Some(p) else None
  }

  // ---- What a pattern means ----

  predicate SchemeOk(s: Scheme, secure: bool) {
    s.AnyScheme? || (s.HttpsOnly? <==> secure)
  }

  /** One or more labels separated by dots, each nonempty and free of `/` and `:`. */
  predicate LabelsOk(t: string) {
    var labels := SplitOn(t, '.');
    forall i :: 0 <= i < |labels| ==> labels[i] != "" && '/' !in labels[i] && ':' !in labels[i]
  }

  predicate EndsWith(s: string, suffix: string) {
    |suffix| <= |s| && s[|s| - |suffix|..] == suffix
  }

  /** `*` is any host, `*.d` is d and its subdomains. */
  predicate HostCovers(p: HostPattern, host: string) {
    match p
    case AnyHost => true
    case Subdomains(d) => host == d || EndsWith(host, "." + d)
    case ExactHost(h) => host == h
  }

  /** `*` stands for any run of characters; every other character for itself. */
  predicate Glob(pattern: string, s: string)
    decreases pattern
  {
    if pattern == "" then s == ""
    else if pattern[0] == '*' then exists k :: 0 <= k <= |s| && Glob(pattern[1..], s[k..])
    else s != "" && s[0] == pattern[0] && Glob(pattern[1..], s[1..])
  }

  /** The meaning of a WebExtension match pattern. */
  predicate PatternMatches(p: Pattern, u: Url) {
    SchemeOk(p.scheme, u.secure) && HostCovers(p.host, u.host) && Glob(p.path, u.path)
  }

  // ---- What the emitted expression reads ----

  /** The hosts the emitted expression reads: no colon for `*`, nonempty labels in front of the domain for `*.d`. */
  predicate HostRead(p: HostPattern, host: string) {
    match p
    case AnyHost => host != "" && '/' !in host && ':' !in host
    case Subdomains(d) => host == d || (EndsWith(host, "." + d) && LabelsOk(host[..|host| - |d| - 1]))
    case ExactHost(h) => host == h
  }

  /** The paths it reads: `*` stays within one line. */
  predicate LineGlob(pattern: string, s: string)
    decreases pattern
  {
    if pattern == "" then s == ""
    else if pattern[0] == '*' then
      exists k :: 0 <= k <= |s| && '\n' !in s[..k] && LineGlob(pattern[1..], s[k..])
    else s != "" && s[0] == pattern[0] && LineGlob(pattern[1..], s[1..])
  }

  // ---- The regex text ----

  function EscapeAll(parts: seq<string>): (r: seq<string>)
    ensures |r| == |parts|
  {
    if parts == [] then [] else [Escape(parts[0])] + EscapeAll(parts[1..])
  }

  function WildcardPathRegex(path: string): string {
    Join(EscapeAll(SplitOn(path, '*')), ".*")
  }

  function SchemeText(s: Scheme): string {
    match s case AnyScheme => "https?" case HttpOnly => "http" case HttpsOnly => "https"
  }

  function HostText(h: HostPattern): string {
    match h
    case AnyHost => "[^/:]+"
    case Subdomains(d) => "(?:[^./:]+\\.)*" + Escape(d)
    case ExactHost(e) => Escape(e)
  }

  const PORT_TEXT := "(?::[0-9]+)?"
  const SEPARATOR_TEXT := ":\\/\\/"

  function RegexText(p: Pattern): string {
    "^" + SchemeText(p.scheme) + SEPARATOR_TEXT + HostText(p.host) + PORT_TEXT + WildcardPathRegex(p.path) + "$"
  }

  function PatternToRegex(text: string): Option<string> {
    match ReadPattern(text)
    case None => None
    case Some(p) => Some(RegexText(p))
  }

  // ---- Reading the regex text back ----

  const LABEL: Re := Cat(Plus(NoneOf("./:")), Cat(Lit('.'), Eps))
  const PORT: Re := Opt(Cat(Lit(':'), Cat(Plus(Span('0', '9')), Eps)))

  function PathRe(path: string): Re {
    if path == "" then Eps
    else Cat(if path[0] == '*' then Star(Dot) else Lit(path[0]), PathRe(path[1..]))
  }

  function HostRe(h: HostPattern, tail: Re): Re {
    match h
    case AnyHost => Cat(Plus(NoneOf("/:")), tail)
    case Subdomains(d) => Cat(Star(LABEL), Literals(d, tail))
    case ExactHost(e) => Literals(e, tail)
  }

  function SchemeRe(s: Scheme, tail: Re): Re {
    match s
    case AnyScheme => Literals("http", Cat(Opt(Lit('s')), tail))
    case HttpOnly => Literals("http", tail)
    case HttpsOnly => Literals("https", tail)
  }

  function PatternRe(p: Pattern): Re {
    SchemeRe(p.scheme, Literals("://", HostRe(p.host, Cat(PORT, PathRe(p.path)))))
  }

  function GlobText(path: string): string {
    if path == "" then ""
    else (if path[0] == '*' then ".*" else EscapeChar(path[0])) + GlobText(path[1..])
  }

  /** Splitting at stars, escaping and joining is the same as rewriting character by character. */
  lemma {:induction false} WildcardCharwise(path: string)
    ensures WildcardPathRegex(path) == GlobText(path)
  {
    if path != "" {
      WildcardCharwise(path[1..]);
      var rest := SplitOn(path[1..], '*');
      var tail := EscapeAll(rest);
      if path[0] == '*' {
        assert EscapeAll([""] + rest) == [""] + tail by {
          assert ([""] + rest)[1..] == rest;
        }
        assert ([""] + tail)[1..] == tail;
        assert WildcardPathRegex(path) == "" + ".*" + Join(tail, ".*");
      } else {
        var first := [path[0]] + rest[0];
        assert ([first] + rest[1..])[1..] == rest[1..];
        assert first[1..] == rest[0];
        assert Escape(first) == EscapeChar(path[0]) + Escape(rest[0]);
        assert tail == [Escape(rest[0])] + EscapeAll(rest[1..]);
        JoinHead(EscapeChar(path[0]), tail, ".*");
      }
    }
  }

  lemma JoinHead(p: string, parts: seq<string>, sep: string)
    requires |parts| >= 1
    ensures Join([p + parts[0]] + parts[1..], sep) == p + Join(parts, sep)
  {
    assert ([p + parts[0]] + parts[1..])[1..] == parts[1..];
    if |parts| > 1 {
      assert p + parts[0] + sep + Join(parts[1..], sep) == p + (parts[0] + sep + Join(parts[1..], sep));
    }
  }

  lemma {:induction false} ReadsPath(path: string)
    ensures Reads(GlobText(path) + "$", PathRe(path), "$")
    ensures Unquantified(GlobText(path) + "$")
  {
    if path != "" {
      var t := GlobText(path[1..]) + "$";
      ReadsPath(path[1..]);
      if path[0] == '*' {
        var all := ".*" + t;
        assert GlobText(path) + "$" == all;
        assert all[1..] == "*" + t && ("*" + t)[1..] == t;
        assert ReadAtom(all) == Some((Dot, "*" + t));
      } else {
        assert GlobText(path) + "$" == EscapeChar(path[0]) + t;
        ReadsEscapedChar(path[0], t, PathRe(path[1..]), "$");
      }
    }
  }

  lemma ReadsPort(t: string, re: Re, end: string)
    requires Unquantified(t) && Reads(t, re, end)
    ensures Reads(PORT_TEXT + t, Cat(PORT, re), end)
  {
    var close := ")?" + t;
    var inner := ":" + ("[0-9]+" + close);
    var all := PORT_TEXT + t;
    assert all[3..] == inner && StartsWith(all, "(?:");
    assert Reads(close, Eps, close);
    ReadsColonDigits(close);
    assert close[1..] == "?" + t && ("?" + t)[1..] == t;
    ReadsGroup(all, PORT.e, close);
    assert Quantify(PORT.e, "?" + t) == (PORT, t);
  }

  lemma ReadsDigits(close: string)
    requires Reads(close, Eps, close) && Unquantified(close)
    ensures Reads("[0-9]+" + close, Cat(Plus(Span('0', '9')), Eps), close)
  {
    var digits := "[0-9]+" + close;
    assert digits[..4] == "[0-9";
    assert digits[4] == ']' && digits[5..] == "+" + close;
    IndexIs(digits, ']', 4);
    assert digits[1..4] == "0-9";
    assert digits[1..4][0] == '0' && digits[1..4][1] == '-' && digits[1..4][2] == '9';
    assert ReadClass(digits) == Some((Span('0', '9'), "+" + close));
    assert ("+" + close)[1..] == close;
  }

  lemma ReadsColonDigits(close: string)
    requires Reads(close, Eps, close) && Unquantified(close)
    ensures Reads(":" + ("[0-9]+" + close), Cat(Lit(':'), Cat(Plus(Span('0', '9')), Eps)), close)
  {
    hide ReadClass;
    ReadsDigits(close);
    var digits := "[0-9]+" + close;
    var inner := ":" + digits;
    assert inner[1..] == digits;
    assert ReadAtom(inner) == Some((Lit(':'), digits));
    assert Quantify(Lit(':'), digits) == (Lit(':'), digits);
  }

  lemma {:induction false} IndexIs(s: string, c: char, i: nat)
    requires i < |s| && s[i] == c && c !in s[..i]
    ensures IndexOf(s, c) == i
  {
    if i > 0 {
      assert s[0] == s[..i][0];
      assert s[1..][..i - 1] == s[..i][1..];
      IndexIs(s[1..], c, i - 1);
    }
  }

  lemma ReadsLabelDot(close: string)
    requires Reads(close, Eps, close) && Unquantified(close)
    ensures Reads("\\." + close, Cat(Lit('.'), Eps), close)
  {
    var dot := "\\." + close;
    assert dot[2..] == close;
    assert ReadAtom(dot) == Some((Lit('.'), close));
  }

  lemma ReadsLabel(close: string)
    requires Reads(close, Eps, close) && Unquantified(close)
    ensures Reads("[^./:]+" + ("\\." + close), LABEL, close)
  {
    hide Reads;
    var dot := "\\." + close;
    var inner := "[^./:]+" + dot;
    ReadsLabelDot(close);
    assert inner[..5] == "[^./:";
    assert inner[5] == ']' && inner[6..] == "+" + dot;
    IndexIs(inner, ']', 5);
    assert inner[1..5] == "^./:" && "^./:"[1..] == "./:";
    assert ReadAtom(inner) == Some((NoneOf("./:"), "+" + dot));
    assert ("+" + dot)[1..] == dot;
    ReadsNext(inner, NoneOf("./:"), "+" + dot, Plus(NoneOf("./:")), dot, Cat(Lit('.'), Eps), close);
  }

  lemma ReadsLabels(t: string, re: Re, end: string)
    requires Unquantified(t) && Reads(t, re, end)
    ensures Reads("(?:[^./:]+\\.)*" + t, Cat(Star(LABEL), re), end)
  {
    var close := ")*" + t;
    var inner := "[^./:]+" + ("\\." + close);
    var all := "(?:[^./:]+\\.)*" + t;
    ReadsLabel(close);
    assert all[3..] == inner && StartsWith(all, "(?:");
    assert close[1..] == "*" + t && ("*" + t)[1..] == t;
    ReadsGroup(all, LABEL, close);
    assert Quantify(LABEL, "*" + t) == (Star(LABEL), t);
  }

  lemma ReadsGroup(all: string, inner: Re, close: string)
    requires StartsWith(all, "(?:") && Reads(all[3..], inner, close)
    requires close != "" && close[0] == ')'
    ensures ReadAtom(all) == Some((inner, close[1..]))
  {
    assert all[0] == all[..3][0];
  }

  lemma ReadsAnyHost(t: string, re: Re, end: string)
    requires Unquantified(t) && Reads(t, re, end)
    ensures Reads("[^/:]+" + t, Cat(Plus(NoneOf("/:")), re), end)
  {
    hide Reads;
    var all := "[^/:]+" + t;
    assert all[..4] == "[^/:";
    assert all[4] == ']' && all[5..] == "+" + t && ("+" + t)[1..] == t;
    IndexIs(all, ']', 4);
    assert all[1..4] == "^/:" && "^/:"[1..] == "/:";
    assert ReadAtom(all) == Some((NoneOf("/:"), "+" + t));
    ReadsNext(all, NoneOf("/:"), "+" + t, Plus(NoneOf("/:")), t, re, end);
  }

  lemma ReadsHost(h: HostPattern, t: string, re: Re, end: string)
    requires Unquantified(t) && Reads(t, re, end)
    requires h.ExactHost? ==> h.host != ""
    ensures Reads(HostText(h) + t, HostRe(h, re), end)
    ensures Unquantified(HostText(h) + t)
  {
    hide ReadClass, Reads;
    match h
    case AnyHost => ReadsAnyHost(t, re, end);
    case Subdomains(d) =>
      ReadsEscaped(d, t, re, end);
      ReadsLabels(Escape(d) + t, Literals(d, re), end);
      assert HostText(h) + t == "(?:[^./:]+\\.)*" + (Escape(d) + t);
    case ExactHost(e) =>
      ReadsEscaped(e, t, re, end);
  }

  lemma ReadsEscapedSlash(t: string, re: Re, end: string)
    requires Unquantified(t) && Reads(t, re, end)
    ensures Reads("\\/" + t, Cat(Lit('/'), re), end) && Unquantified("\\/" + t)
  {
    var all := "\\/" + t;
    assert all[2..] == t;
    assert ReadAtom(all) == Some((Lit('/'), t));
    hide Reads;
    ReadsNext(all, Lit('/'), t, Lit('/'), t, re, end);
  }

  lemma ReadsSeparator(t: string, re: Re, end: string)
    requires Unquantified(t) && Reads(t, re, end)
    ensures Reads(SEPARATOR_TEXT + t, Literals("://", re), end)
  {
    hide Reads;
    var two := "\\/" + ("\\/" + t);
    var all := ":" + two;
    assert SEPARATOR_TEXT + t == all;
    assert "://"[1..] == "//" && "//"[1..] == "/" && "/"[1..] == "";
    assert Literals("/", re) == Cat(Lit('/'), re) && Literals("//", re) == Cat(Lit('/'), Literals("/", re));
    ReadsEscapedSlash(t, re, end);
    ReadsEscapedSlash("\\/" + t, Cat(Lit('/'), re), end);
    assert all[1..] == two && ReadAtom(all) == Some((Lit(':'), two));
    ReadsNext(all, Lit(':'), two, Lit(':'), two, Cat(Lit('/'), Cat(Lit('/'), re)), end);
  }

  lemma ReadsOptionalS(t: string, re: Re, end: string)
    requires Unquantified(t) && Reads(t, re, end)
    ensures Reads("s?" + t, Cat(Opt(Lit('s')), re), end)
  {
    var rest := "s?" + t;
    assert rest[1..] == "?" + t && ("?" + t)[1..] == t;
    assert ReadAtom(rest) == Some((Lit('s'), "?" + t));
  }

  lemma ReadsPlain(s: string, t: string, re: Re, end: string)
    requires Unquantified(t) && Reads(t, re, end)
    requires forall i :: 0 <= i < |s| ==> s[i] !in METACHARACTERS
    ensures Reads(s + t, Literals(s, re), end)
  {
    ReadsEscaped(s, t, re, end);
    PlainEscape(s);
  }

  lemma ReadsScheme(s: Scheme, t: string, re: Re, end: string)
    requires Unquantified(t) && Reads(t, re, end)
    ensures Reads(SchemeText(s) + t, SchemeRe(s, re), end)
  {
    hide Reads;
    match s
    case AnyScheme =>
      ReadsOptionalS(t, re, end);
      ReadsPlain("http", "s?" + t, Cat(Opt(Lit('s')), re), end);
      assert "https?" + t == "http" + ("s?" + t);
    case HttpOnly => ReadsPlain("http", t, re, end);
    case HttpsOnly => ReadsPlain("https", t, re, end);
  }

  lemma {:induction false} PlainEscape(s: string)
    requires forall i :: 0 <= i < |s| ==> s[i] !in METACHARACTERS
    ensures Escape(s) == s
  {
    if s != "" { PlainEscape(s[1..]); }
  }

  lemma ReadsBody(p: Pattern)
    requires p.host.ExactHost? ==> p.host.host != ""
    ensures Reads(SchemeText(p.scheme) + (SEPARATOR_TEXT + (HostText(p.host) + (PORT_TEXT + (GlobText(p.path) + "$")))),
                  PatternRe(p), "$")
  {
    ReadsPath(p.path);
    var path := GlobText(p.path) + "$";
    ReadsPort(path, PathRe(p.path), "$");
    var port := PORT_TEXT + path;
    ReadsHost(p.host, port, Cat(PORT, PathRe(p.path)), "$");
    var host := HostText(p.host) + port;
    ReadsSeparator(host, HostRe(p.host, Cat(PORT, PathRe(p.path))), "$");
    ReadsScheme(p.scheme, SEPARATOR_TEXT + host, Literals("://", HostRe(p.host, Cat(PORT, PathRe(p.path)))), "$");
  }

  lemma Regroup(a: string, b: string, c: string, d: string, e: string)
    ensures ("^" + a + b + c + d + e + "$")[1..] == a + (b + (c + (d + (e + "$"))))
  {
  }

  /** The emitted text is regex text for exactly the expression built from the pattern's parts. */
  lemma RegexTextReads(p: Pattern)
    requires p.host.ExactHost? ==> p.host.host != ""
    ensures ReadFilter(RegexText(p)) == Some(Filter(PatternRe(p), true))
  {
    WildcardCharwise(p.path);
    ReadsBody(p);
    Regroup(SchemeText(p.scheme), SEPARATOR_TEXT, HostText(p.host), PORT_TEXT, GlobText(p.path));
    FilterFromItems(RegexText(p), PatternRe(p));
  }

  lemma FilterFromItems(text: string, re: Re)
    requires text != "" && text[0] == '^' && Reads(text[1..], re, "$")
    ensures ReadFilter(text) == Some(Filter(re, true))
  {
  }
}
