/** Canonical JSON text as the daemon (Python) and the extension (JavaScript) print it. */
module CanonicalJson {
  import opened Basics
  import TextOrder

  datatype Json =
    | JNull
    | JBool(b: bool)
    | JNum(n: int)
    | JStr(s: string)
    | JArr(items: seq<Json>)
    | JObj(members: seq<Member>)

  /** Members in insertion order. */
  datatype Member = Member(key: string, value: Json)

  datatype Dialect = Python | JavaScript

  // ---- Text pieces ----

  function HexDigit(n: nat): char
    requires n < 16
  {
    if n < 10 then ('0' as int + n) as char else ('a' as int + n - 10) as char
  }

  /** The control-character form with four lower-case hexadecimal digits. */
  function UnicodeEscape(c: char): string
    requires c < ' '
  {
    "\\u00" + [HexDigit(c as int / 16), HexDigit(c as int % 16)]
  }

  /** Python's replacement table: short forms first, the rest of the control range by number. */
  function PythonQuote(c: char): string {
    if c == '\\' then "\\\\"
    else if c == '"' then "\\\""
    else if c == '\U{8}' then "\\b"
    else if c == '\U{C}' then "\\f"
    else if c == '\n' then "\\n"
    else if c == '\r' then "\\r"
    else if c == '\t' then "\\t"
    else if c < ' ' then UnicodeEscape(c)
    else [c]
  }

  /** ECMAScript's QuoteJSONString on one code point of a well-formed string. */
  function JavaScriptQuote(c: char): string {
    match c
    case '\U{8}' => "\\b"
    case '\t' => "\\t"
    case '\n' => "\\n"
    case '\U{C}' => "\\f"
    case '\r' => "\\r"
    case '"' => "\\\""
    case '\\' => "\\\\"
    case _ => if c < ' ' then UnicodeEscape(c) else [c]
  }

  function Quote(d: Dialect, c: char): string {
    if d.Python? then PythonQuote(c) else JavaScriptQuote(c)
  }

  function QuoteAll(d: Dialect, s: string): string {
    if s == "" then "" else Quote(d, s[0]) + QuoteAll(d, s[1..])
  }

  function StringText(d: Dialect, s: string): string {
    "\"" + QuoteAll(d, s) + "\""
  }

  function Digit(n: nat): char
    requires n < 10
  {
    ('0' as int + n) as char
  }

  function NatText(n: nat): string {
    if n < 10 then [Digit(n)] else NatText(n / 10) + [Digit(n % 10)]
  }

  function NumText(n: int): string {
    if n < 0 then "-" + NatText(-n) else NatText(n)
  }

  // ---- JavaScript's numbers ----

  function Pow10(d: nat): nat { if d == 0 then 1 else 10 * Pow10(d - 1) }

  const TWO_53 := 0x20_0000_0000_0000
  const TWO_64 := 0x1_0000_0000_0000_0000
  const TWO_256 := TWO_64 * TWO_64 * TWO_64 * TWO_64
  const TWO_1024 := TWO_256 * TWO_256 * TWO_256 * TWO_256

  const MAX_SAFE_INTEGER := TWO_53 - 1

  predicate SafeInteger(n: int) { -MAX_SAFE_INTEGER <= n <= MAX_SAFE_INTEGER }

  /** The distance between neighbouring doubles around `m`, for whole numbers. */
  function Ulp(m: nat): (u: nat)
    ensures u >= 1
  {
    if m < TWO_53 then 1 else 2 * Ulp(m / 2)
  }

  /** The nearest multiple of `unit`; of two, the even one. */
  function Nearest(m: nat, unit: nat): nat
    requires unit >= 1
  {
    var q, r := m / unit, m % unit;
    if 2 * r < unit || (2 * r == unit && q % 2 == 0) then q * unit else (q + 1) * unit
  }

  /** The double that `JSON.parse` reads; from 2^1024 on it is infinite. */
  function Double(m: nat): nat { Nearest(m, Ulp(m)) }

  /** A multiple of `unit` that reads as `x`, the nearest such. */
  function Rounded(x: nat, unit: nat): Option<nat>
    requires unit >= 1
  {
    var low: nat := x - x % unit;
    if Double(Nearest(x, unit)) == x then Some(Nearest(x, unit))
    else if Double(low) == x then Some(low)
    else if Double(low + unit) == x then Some(low + unit)
    else None
  }

  lemma PowPositive(d: nat)
    ensures Pow10(d) >= 1
  {
  }

  /** The number with the fewest significant digits that reads as `x`, ending in at most `d` zeros. */
  function Shortest(x: nat, d: nat): nat {
    PowPositive(d);
    match Rounded(x, Pow10(d))
    case Some(v) => v
    case None => if d == 0 then x else Shortest(x, d - 1)
  }

  function StripZeros(s: string): string {
    if s != "" && s[|s| - 1] == '0' then StripZeros(s[..|s| - 1]) else s
  }

  /** Digits with an exponent. */
  function Exponential(digits: string): string {
    var s := StripZeros(digits);
    var exponent := "e+" + NatText(if digits == "" then 0 else |digits| - 1);
    if |s| <= 1 then s + exponent else [s[0]] + "." + s[1..] + exponent
  }

  /** ECMAScript's Number::toString of a whole double: all digits below 10^21, an exponent from there on. */
  function DoubleText(x: nat): string {
    var v := Shortest(x, |NatText(x)|);
    if v < Pow10(21) then NatText(v) else Exponential(NatText(v))
  }

  /** What `JSON.stringify` writes for the number `JSON.parse` made of `n`; infinity becomes null. */
  function JavaScriptNumber(n: int): string {
    var x := Double(if n < 0 then -n else n);
    if x >= TWO_1024 then "null"
    else if n < 0 then "-" + DoubleText(x)
    else DoubleText(x)
  }

  function NumberText(d: Dialect, n: int): string {
    if d.Python? then NumText(n) else JavaScriptNumber(n)
  }

  /** UTF-16 code units of a code point. */
  function Units(c: char): seq<int> {
    var n := c as int;
    if n < 0x10000 then [n] else [0xD800 + (n - 0x10000) / 0x400, 0xDC00 + (n - 0x10000) % 0x400]
  }

  function AllUnits(s: string): seq<int> {
    if s == "" then [] else Units(s[0]) + AllUnits(s[1..])
  }

  predicate UnitsLeq(a: seq<int>, b: seq<int>) {
    a == [] || (b != [] && (a[0] < b[0] || (a[0] == b[0] && UnitsLeq(a[1..], b[1..]))))
  }

  /** Python compares keys by code point, JavaScript's `sort` by UTF-16 code unit. */
  predicate KeyLeq(d: Dialect, a: string, b: string) {
    if d.Python? then TextOrder.Leq(a, b) else UnitsLeq(AllUnits(a), AllUnits(b))
  }

  function InsertMember(d: Dialect, m: Member, ms: seq<Member>): (r: seq<Member>)
    ensures |r| == |ms| + 1
    ensures forall x :: x in r <==> x == m || x in ms
  {
    if ms == [] || KeyLeq(d, m.key, ms[0].key) then [m] + ms
    else
      assert forall x :: x in ms <==> x == ms[0] || x in ms[1..];
      [ms[0]] + InsertMember(d, m, ms[1..])
  }

  function SortMembers(d: Dialect, ms: seq<Member>): (r: seq<Member>)
    ensures |r| == |ms|
    ensures forall x :: x in r <==> x in ms
  {
    if ms == [] then []
    else
      assert forall x :: x in ms <==> x == ms[0] || x in ms[1..];
      InsertMember(d, ms[0], SortMembers(d, ms[1..]))
  }

  // ---- The printers ----

  function Text(d: Dialect, v: Json): string
    decreases v, 1
  {
    match v
    case JNull => "null"
    case JBool(b) => if b then "true" else "false"
    case JNum(n) => NumberText(d, n)
    case JStr(s) => StringText(d, s)
    case JArr(items) => "[" + Join(ItemTexts(d, v, items), ",") + "]"
    case JObj(members) => "{" + Join(MemberTexts(d, v, SortMembers(d, members)), ",") + "}"
  }

  /** The texts of the items of `parent`. */
  function ItemTexts(d: Dialect, parent: Json, items: seq<Json>): (r: seq<string>)
    requires forall x :: x in items ==> x < parent
    ensures |r| == |items| && forall i :: 0 <= i < |items| ==> items[i] in items && r[i] == Text(d, items[i])
    decreases parent, 0, |items|
  {
    if items == [] then []
    else
      assert items[0] in items && forall x :: x in items[1..] ==> x in items;
      [Text(d, items[0])] + ItemTexts(d, parent, items[1..])
  }

  function MemberText(d: Dialect, key: string, valueText: string): string {
    StringText(d, key) + ":" + valueText
  }

  function MemberTexts(d: Dialect, parent: Json, members: seq<Member>): (r: seq<string>)
    requires forall m :: m in members ==> m.value < parent
    ensures |r| == |members|
    ensures forall i :: 0 <= i < |members| ==> r[i] == MemberText(d, members[i].key, Text(d, members[i].value))
    decreases parent, 0, |members|
  {
    if members == [] then []
    else
      assert members[0] in members && forall m :: m in members[1..] ==> m in members;
      [MemberText(d, members[0].key, Text(d, members[0].value))] + MemberTexts(d, parent, members[1..])
  }

  // ---- Which values are the same ----

  predicate Ascii(s: string) {
    forall i :: 0 <= i < |s| ==> s[i] < '\U{80}'
  }

  /** No character outside the basic multilingual plane, so that code points and UTF-16 units order alike. */
  predicate Basic(s: string) {
    forall i :: 0 <= i < |s| ==> s[i] <= '\U{FFFF}'
  }

  predicate DistinctKeys(ms: seq<Member>) {
    forall i, j :: 0 <= i < j < |ms| ==> ms[i].key != ms[j].key
  }

  /** Objects have pairwise distinct keys from the basic plane. */
  predicate WellFormed(v: Json) {
    match v
    case JArr(items) => forall x :: x in items ==> WellFormed(x)
    case JObj(ms) => DistinctKeys(ms) && forall m :: m in ms ==> Basic(m.key) && WellFormed(m.value)
    case _ => true
  }

  /** Every number is one that JavaScript represents exactly, as are both its neighbours. */
  predicate SafeNumbers(v: Json) {
    match v
    case JNum(n) => SafeInteger(n)
    case JArr(items) => forall x :: x in items ==> SafeNumbers(x)
    case JObj(ms) => forall m :: m in ms ==> SafeNumbers(m.value)
    case _ => true
  }

  /** Equal as JSON values: member order does not count. */
  predicate Same(v: Json, w: Json) {
    match v
    case JArr(items) =>
      w.JArr? && |items| == |w.items| && forall i :: 0 <= i < |items| ==> Same(items[i], w.items[i])
    case JObj(ms) =>
      w.JObj? && |ms| == |w.members| && forall i :: 0 <= i < |ms| ==> Partnered(ms[i], w.members)
    case _ => v == w
  }

  /** Some member has the key and an equal value. */
  predicate Partnered(m: Member, ns: seq<Member>) {
    exists j :: 0 <= j < |ns| && m.key == ns[j].key && Same(m.value, ns[j].value)
  }
}
