/** Reading JSON text after the grammar of RFC 8259; numbers are whole, members keep their order. */
module JsonReader {
  import opened Basics
  import opened CanonicalJson

  // ---- Section 2: insignificant white space ----

  predicate IsWhite(c: char) { c == ' ' || c == '\t' || c == '\n' || c == '\r' }

  function SkipWhite(s: string): (r: string)
    ensures |r| <= |s|
  {
    if s != "" && IsWhite(s[0]) then SkipWhite(s[1..]) else s
  }

  // ---- Section 6: numbers ----

  function DigitOf(c: char): nat
    requires IsDigit(c)
  {
    c as int - '0' as int
  }

  /** The digits at the start, continuing the number `n`. */
  function ReadDigits(s: string, n: nat): (r: (nat, string))
    ensures |r.1| <= |s|
    decreases |s|
  {
    if s != "" && IsDigit(s[0]) then ReadDigits(s[1..], 10 * n + DigitOf(s[0])) else (n, s)
  }

  /** A zero, or digits that do not start with one; a fraction or an exponent is not read. */
  function ReadNatural(s: string): (r: Option<(nat, string)>)
    ensures r.Some? ==> |r.value.1| < |s|
  {
    if s == "" || !IsDigit(s[0]) then None
    else
      var r := if s[0] == '0' then (0, s[1..]) else ReadDigits(s[1..], DigitOf(s[0]));
      if r.1 != "" && r.1[0] in ".eE" then None else Some(r)
  }

  function ReadNumber(s: string): (r: Option<(int, string)>)
    ensures r.Some? ==> |r.value.1| < |s|
  {
    if s != "" && s[0] == '-' then
      var r :- ReadNatural(s[1..]);
      var n: int := r.0;
      Some((-n, r.1))
    else
      var r :- ReadNatural(s);
      var n: int := r.0;
      Some((n, r.1))
  }

  // ---- Section 7: strings ----

  function HexOf(c: char): Option<nat> {
    if '0' <= c <= '9' then Some(c as int - '0' as int)
    else if 'a' <= c <= 'f' then Some(c as int - 'a' as int + 10)
    else if 'A' <= c <= 'F' then Some(c as int - 'A' as int + 10)
    else None
  }

  function ReadPair(high: char, low: char): (r: Option<nat>)
    ensures r.Some? ==> r.value < 0x100
  {
    var a :- HexOf(high);
    var b :- HexOf(low);
    Some(0x10 * a + b)
  }

  /** The UTF-16 code unit behind a backslash and a `u`. */
  function ReadUnit(s: string): (r: Option<nat>)
    ensures r.Some? ==> |s| >= 6 && r.value < 0x10000
  {
    if |s| < 6 || s[0] != '\\' || s[1] != 'u' then None
    else
      var high :- ReadPair(s[2], s[3]);
      var low :- ReadPair(s[4], s[5]);
      Some(0x100 * high + low)
  }

  /** An escaped character; two surrogates stand for one character beyond the basic plane. */
  function ReadEscape(s: string): (r: Option<(char, string)>)
    ensures r.Some? ==> |r.value.1| < |s|
  {
    if |s| < 2 || s[0] != '\\' then None
    else if s[1] == 'u' then
      var high :- ReadUnit(s);
      if high < 0xD800 || high >= 0xE000 then Some((high as char, s[6..]))
      else
        var low :- ReadUnit(s[6..]);
        if high < 0xDC00 && 0xDC00 <= low < 0xE000 then
          Some(((0x10000 + (high - 0xD800) * 0x400 + (low - 0xDC00)) as char, s[12..]))
        else None
    else
      var c :-
        match s[1]
        case '"' => Some('"')
        case '\\' => Some('\\')
        case '/' => Some('/')
        case 'b' => Some('\U{8}')
        case 'f' => Some('\U{C}')
        case 'n' => Some('\n')
        case 'r' => Some('\r')
        case 't' => Some('\t')
        case _ => None;
      Some((c, s[2..]))
  }

  /** One character of a string; control characters must be escaped. */
  function ReadChar(s: string): (r: Option<(char, string)>)
    ensures r.Some? ==> |r.value.1| < |s|
  {
    if s == "" || s[0] < ' ' || s[0] == '"' then None
    else if s[0] == '\\' then ReadEscape(s)
    else Some((s[0], s[1..]))
  }

  /** The characters up to and including the closing quotation mark. */
  function ReadChars(s: string): (r: Option<(string, string)>)
    ensures r.Some? ==> |r.value.1| < |s|
    decreases |s|
  {
    if s == "" then None
    else if s[0] == '"' then Some(("", s[1..]))
    else
      var c :- ReadChar(s);
      var rest :- ReadChars(c.1);
      Some(([c.0] + rest.0, rest.1))
  }

  function ReadString(s: string): (r: Option<(string, string)>)
    ensures r.Some? ==> |r.value.1| < |s|
  {
    if s == "" || s[0] != '"' then None else ReadChars(s[1..])
  }

  // ---- Sections 3 to 5: values, objects, arrays ----

  /** A name and its colon, with white space around both. */
  function ReadName(t: string): (r: Option<(string, string)>)
    ensures r.Some? ==> |r.value.1| < |t|
  {
    var name :- ReadString(SkipWhite(t));
    var rest := SkipWhite(name.1);
    if rest == "" || rest[0] != ':' then None else Some((name.0, rest[1..]))
  }

  /** White space and one value. */
  function ReadValue(t: string): (r: Option<(Json, string)>)
    ensures r.Some? ==> |r.value.1| < |t|
    decreases |t|, 0
  {
    var s := SkipWhite(t);
    if StartsWith(s, "null") then Some((JNull, s[4..]))
    else if StartsWith(s, "true") then Some((JBool(true), s[4..]))
    else if StartsWith(s, "false") then Some((JBool(false), s[5..]))
    else if s != "" && s[0] == '"' then
      var r :- ReadString(s);
      Some((JStr(r.0), r.1))
    else if s != "" && s[0] == '[' then
      var inner := SkipWhite(s[1..]);
      if inner != "" && inner[0] == ']' then Some((JArr([]), inner[1..]))
      else
        var r :- ReadItems(inner);
        Some((JArr(r.0), r.1))
    else if s != "" && s[0] == '{' then
      var inner := SkipWhite(s[1..]);
      if inner != "" && inner[0] == '}' then Some((JObj([]), inner[1..]))
      else
        var r :- ReadMembers(inner);
        Some((JObj(r.0), r.1))
    else
      var r :- ReadNumber(s);
      Some((JNum(r.0), r.1))
  }

  /** The values of an array, up to and including the closing bracket. */
  function ReadItems(t: string): (r: Option<(seq<Json>, string)>)
    ensures r.Some? ==> |r.value.1| < |t|
    decreases |t|, 1
  {
    var v :- ReadValue(t);
    var rest := SkipWhite(v.1);
    if rest != "" && rest[0] == ']' then Some(([v.0], rest[1..]))
    else if rest != "" && rest[0] == ',' then
      var more :- ReadItems(rest[1..]);
      Some(([v.0] + more.0, more.1))
    else None
  }

  /** The members of an object, up to and including the closing brace. */
  function ReadMembers(t: string): (r: Option<(seq<Member>, string)>)
    ensures r.Some? ==> |r.value.1| < |t|
    decreases |t|, 1
  {
    var name :- ReadName(t);
    var v :- ReadValue(name.1);
    var rest := SkipWhite(v.1);
    if rest != "" && rest[0] == '}' then Some(([Member(name.0, v.0)], rest[1..]))
    else if rest != "" && rest[0] == ',' then
      var more :- ReadMembers(rest[1..]);
      Some(([Member(name.0, v.0)] + more.0, more.1))
    else None
  }

  /** A whole text: one value between white space. */
  function ReadText(s: string): Option<Json> {
    var r :- ReadValue(s);
    if SkipWhite(r.1) == "" then Some(r.0) else None
  }
}
