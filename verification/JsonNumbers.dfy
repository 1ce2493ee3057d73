/** How the two programs print whole numbers, and when they print the same. */
module JsonNumbers {
  import opened Basics
  import opened CanonicalJson

  // ---- Digits read back ----

  predicate Digits(s: string) {
    s != "" && forall i :: 0 <= i < |s| ==> IsDigit(s[i])
  }

  function NatValue(s: string): int {
    if s == "" then 0 else NatValue(s[..|s| - 1]) * 10 + (s[|s| - 1] as int - '0' as int)
  }

  lemma {:induction false} NatReads(n: nat)
    ensures Digits(NatText(n)) && NatValue(NatText(n)) == n
  {
    if n >= 10 {
      NatReads(n / 10);
      var s := NatText(n);
      assert s[..|s| - 1] == NatText(n / 10);
    } else {
      assert NatText(n)[..0] == "";
    }
  }

  lemma {:induction false} NatTextInjective(n: nat, m: nat)
    requires NatText(n) == NatText(m)
    ensures n == m
  {
    NatReads(n);
    NatReads(m);
  }

  lemma NumTextInjective(n: int, m: int)
    requires NumText(n) == NumText(m)
    ensures n == m
  {
    hide NatText, Digits, NatValue;
    FirstOfNumber(n);
    FirstOfNumber(m);
    if n < 0 { NatTextInjective(-n, -m); } else { NatTextInjective(n, m); }
  }

  lemma FirstOfNumber(n: int)
    ensures NumText(n) != "" && (NumText(n)[0] == '-' <==> n < 0)
    ensures n < 0 ==> NumText(n)[1..] == NatText(-n)
  {
    hide NatText;
    NatReads(if n < 0 then -n else n);
  }

  lemma NumberStarts(n: int)
    ensures NumText(n) != "null" && NumText(n) != "true" && NumText(n) != "false"
  {
    hide NatText;
    NatReads(if n < 0 then -n else n);
    assert NumText(n)[0] == '-' || IsDigit(NumText(n)[0]);
    assert "null"[0] == 'n' && "true"[0] == 't' && "false"[0] == 'f';
  }

  // ---- Scalars inside a text ----

  /** What may follow a value inside a text: nothing, or a closing or separating sign. */
  predicate Ends(x: string) {
    x == "" || x[0] == ',' || x[0] == ']' || x[0] == '}'
  }

  predicate TokenChar(c: char) { c != ',' && c != ']' && c != '}' && c != '"' && c != '[' && c != '{' }

  /** The text of a number, truth value or null has no sign that opens, closes or separates. */
  predicate Token(t: string) {
    t != "" && forall i :: 0 <= i < |t| ==> TokenChar(t[i])
  }

  lemma TokenRun(p: string, q: string, x: string, y: string)
    requires Token(p) && Token(q) && Ends(x) && Ends(y) && p + x == q + y
    ensures p == q && x == y
  {
    forall i | 0 <= i < |p| && i < |p + x| ensures (p + x)[i] == p[i] {}
    forall i | 0 <= i < |q| && i < |q + y| ensures (q + y)[i] == q[i] {}
    assert x != "" ==> (p + x)[|p|] == x[0];
    assert y != "" ==> (q + y)[|q|] == y[0];
    assert p == (p + x)[..|p|] && q == (q + y)[..|q|];
    assert x == (p + x)[|p|..] && y == (q + y)[|q|..];
  }

  lemma DigitsToken(n: nat)
    ensures Token(NatText(n))
  {
    NatReads(n);
  }

  lemma {:induction false} StrippedDigits(s: string)
    ensures |StripZeros(s)| <= |s| && StripZeros(s) == s[..|StripZeros(s)|]
  {
    if s != "" && s[|s| - 1] == '0' { StrippedDigits(s[..|s| - 1]); }
  }

  predicate TokenChars(t: string) {
    forall i :: 0 <= i < |t| ==> TokenChar(t[i])
  }

  lemma TokenCharsJoin(a: string, b: string)
    requires TokenChars(a) && TokenChars(b)
    ensures TokenChars(a + b)
  {
  }

  lemma DigitsAreTokenChars(s: string)
    requires forall i :: 0 <= i < |s| ==> IsDigit(s[i])
    ensures TokenChars(s)
  {
  }

  lemma PointAndExponent()
    ensures TokenChars("e+") && TokenChars(".")
  {
  }

  /** An exponent shows: the text is still a token, but not one of digits alone. */
  lemma ExponentialToken(v: nat)
    ensures Token(Exponential(NatText(v))) && !Digits(Exponential(NatText(v)))
  {
    hide NatText, StripZeros, TokenChars, Token;
    var digits := NatText(v);
    var s := StripZeros(digits);
    NatReads(v);
    StrippedDigits(digits);
    NatReads(|digits| - 1);
    var power := NatText(|digits| - 1);
    DigitsAreTokenChars(s);
    DigitsAreTokenChars(power);
    PointAndExponent();
    TokenCharsJoin("e+", power);
    if |s| <= 1 {
      TokenCharsJoin(s, "e+" + power);
      CharsToken(Exponential(digits));
      assert Exponential(digits)[|s|] == 'e';
    } else {
      DigitsAreTokenChars(s[1..]);
      DigitsAreTokenChars([s[0]]);
      TokenCharsJoin([s[0]], ".");
      TokenCharsJoin([s[0]] + ".", s[1..]);
      TokenCharsJoin([s[0]] + "." + s[1..], "e+" + power);
      CharsToken(Exponential(digits));
      assert Exponential(digits)[1] == '.';
    }
  }

  lemma CharsToken(t: string)
    requires t != "" && TokenChars(t)
    ensures Token(t)
  {
  }

  lemma DoubleTextToken(x: nat)
    ensures Token(DoubleText(x))
  {
    hide NatText, Shortest, Exponential, Token;
    var v := Shortest(x, |NatText(x)|);
    DigitsToken(v);
    ExponentialToken(v);
  }

  lemma NumberToken(d: Dialect, n: int)
    ensures Token(NumberText(d, n))
  {
    hide NatText, DoubleText, Double;
    var m := if n < 0 then -n else n;
    DigitsToken(m);
    DoubleTextToken(Double(m));
  }

  // ---- Safe integers ----

  /** Euclidean division by two factors, one after the other. */
  lemma DivTwice(m: nat, u: nat)
    requires u >= 1
    ensures m / 2 / u == m / (2 * u)
  {
    var q, r := m / 2 / u, m / 2 % u;
    assert m == 2 * (m / 2) + m % 2 && m / 2 == q * u + r;
    assert m == q * (2 * u) + (2 * r + m % 2) && 0 <= 2 * r + m % 2 < 2 * u;
    Quotient(m, 2 * u, q, 2 * r + m % 2);
  }

  lemma Quotient(m: int, d: nat, q: int, r: int)
    requires d >= 1 && m == q * d + r && 0 <= r < d
    ensures m / d == q && m % d == r
  {
    SameQuotient(d, q, r, m / d, m % d);
  }

  lemma SameQuotient(d: nat, q: int, r: int, q': int, r': int)
    requires q * d + r == q' * d + r' && 0 <= r < d && 0 <= r' < d
    ensures q == q' && r == r'
  {
    if q > q' { Farther(d, q, q'); }
    if q < q' { Farther(d, q', q); }
  }

  lemma {:induction false} Farther(d: nat, q: int, q': int)
    requires q > q'
    ensures q * d >= q' * d + d
    decreases q - q'
  {
    NextMultiple(d, q');
    if q > q' + 1 { Farther(d, q, q' + 1); }
  }

  lemma NextMultiple(d: int, q: int)
    ensures (q + 1) * d == q * d + d
  {
  }

  /** A double has 53 significant bits. */
  lemma {:induction false} UlpBits(m: nat)
    requires m >= TWO_53
    ensures Ulp(m) >= 2 && TWO_53 / 2 <= m / Ulp(m) < TWO_53
  {
    var u := Ulp(m / 2);
    if m / 2 < TWO_53 {
      assert u == 1 && Ulp(m) == 2;
    } else {
      UlpBits(m / 2);
      DivTwice(m, u);
    }
  }

  lemma DoubleLarge(m: nat)
    requires m >= TWO_53
    ensures Double(m) >= TWO_53
  {
    UlpBits(m);
    var u := Ulp(m);
    var q := m / u;
    assert q * u >= (TWO_53 / 2) * 2 by { MulMono(q, u, TWO_53 / 2, 2); }
    assert (q + 1) * u == q * u + u;
  }

  lemma MulMono(a: nat, b: nat, c: nat, d: nat)
    requires a >= c && b >= d
    ensures a * b >= c * d
  {
  }

  lemma DoubleExact(m: nat)
    requires m < TWO_53
    ensures Double(m) == m
  {
    assert Ulp(m) == 1;
    assert m / 1 == m && m % 1 == 0;
  }

  /** No other number reads as a safe integer. */
  lemma SafeIsAlone(x: nat, m: nat)
    requires x < TWO_53 && Double(m) == x
    ensures m == x
  {
    if m < TWO_53 { DoubleExact(m); } else { DoubleLarge(m); }
  }

  lemma {:induction false} SafeShortest(x: nat, d: nat)
    requires x < TWO_53
    ensures Shortest(x, d) == x
  {
    hide Double, Nearest;
    PowPositive(d);
    match Rounded(x, Pow10(d))
    case Some(v) => SafeIsAlone(x, v);
    case None => if d > 0 { SafeShortest(x, d - 1); }
  }

  /** Safe integers are printed alike. */
  lemma SafePrinted(n: int)
    requires SafeInteger(n)
    ensures JavaScriptNumber(n) == NumText(n)
  {
    hide Double, Shortest;
    var m := if n < 0 then -n else n;
    DoubleExact(m);
    SafeShortest(m, |NatText(m)|);
    assert Pow10(21) >= TWO_53 by { TenTo21(); }
    TwoTo1024();
  }

  lemma TenTo21()
    ensures Pow10(21) == 1_000_000_000_000_000_000_000
  {
    assert Pow10(4) == 10000;
    assert Pow10(8) == 10000 * Pow10(4);
    assert Pow10(12) == 10000 * Pow10(8);
    assert Pow10(16) == 10000 * Pow10(12);
    assert Pow10(20) == 10000 * Pow10(16);
  }

  lemma TwoTo1024()
    ensures TWO_1024 >= TWO_64 * TWO_64
  {
  }

  // ---- The shortest number that reads as a double ----

  lemma {:induction false} UlpMonotone(a: nat, b: nat)
    requires a <= b
    ensures Ulp(b) == Ulp(a) || Ulp(b) >= 2 * Ulp(a)
  {
    if a >= TWO_53 {
      UlpMonotone(a / 2, b / 2);
    } else if b >= TWO_53 {
      UlpBits(b);
    }
  }

  lemma QuotientMonotone(a: nat, b: nat, unit: nat)
    requires a <= b && unit >= 1
    ensures a / unit <= b / unit
  {
    if a / unit > b / unit { Farther(unit, a / unit, b / unit); }
  }

  lemma NearestBetween(m: nat, unit: nat)
    requires unit >= 1
    ensures m / unit * unit <= Nearest(m, unit) <= m / unit * unit + unit
  {
    NextMultiple(unit, m / unit);
  }

  lemma NearestMonotone(a: nat, b: nat, unit: nat)
    requires a <= b && unit >= 1
    ensures Nearest(a, unit) <= Nearest(b, unit)
  {
    QuotientMonotone(a, b, unit);
    if a / unit == b / unit {
      NearestInOrder(a, b, unit);
    } else {
      NearestBetween(a, unit);
      NearestBetween(b, unit);
      hide Nearest;
      Farther(unit, b / unit, a / unit);
    }
  }

  lemma NearestInOrder(a: nat, b: nat, unit: nat)
    requires a <= b && unit >= 1 && a / unit == b / unit
    ensures Nearest(a, unit) <= Nearest(b, unit)
  {
    SameQuotientOrder(a, b, unit, a / unit);
    NextMultiple(unit, a / unit);
  }

  lemma SameQuotientOrder(a: nat, b: nat, unit: nat, q: nat)
    requires a <= b && unit >= 1 && a / unit == q == b / unit
    ensures a % unit <= b % unit
  {
    assert a == q * unit + a % unit && b == q * unit + b % unit;
  }

  /** Reading keeps the order of numbers. */
  lemma DoubleMonotone(a: nat, b: nat)
    requires a <= b
    ensures Double(a) <= Double(b)
  {
    var u, t := Ulp(a), Ulp(b);
    UlpMonotone(a, b);
    if u == t {
      NearestMonotone(a, b, u);
    } else {
      assert b >= TWO_53;
      UlpBits(b);
      TopOfBinade(a);
      NextMultiple(t, b / t);
      MulMono(b / t, t, TWO_53 / 2, 2 * u);
    }
  }

  lemma TopOfBinade(m: nat)
    ensures Double(m) <= TWO_53 * Ulp(m)
  {
    var u := Ulp(m);
    if m >= TWO_53 { UlpBits(m); }
    assert m / u < TWO_53;
    NextMultiple(u, m / u);
    MulMono(TWO_53, u, m / u + 1, u);
  }

  function Pow2(e: nat): nat { if e == 0 then 1 else 2 * Pow2(e - 1) }

  lemma PowTwoPositive(e: nat)
    ensures Pow2(e) >= 1
  {
  }

  lemma {:induction false} UlpIsPower(m: nat) returns (e: nat)
    ensures Ulp(m) == Pow2(e)
  {
    e := 0;
    if m >= TWO_53 {
      var f := UlpIsPower(m / 2);
      e := f + 1;
    }
  }

  /** 53 bits fix the distance. */
  lemma {:induction false} UlpUnique(k: nat, e: nat)
    requires TWO_53 / 2 <= k < TWO_53 && e >= 1
    ensures Ulp(k * Pow2(e)) == Pow2(e)
  {
    PowTwoPositive(e - 1);
    var half := k * Pow2(e - 1);
    assert k * Pow2(e) == 2 * half;
    assert k * Pow2(e) >= k * 2 by { MulMono(k, Pow2(e), k, 2); }
    if e > 1 { UlpUnique(k, e - 1); } else { assert half == k; }
  }

  lemma ExactMultiple(k: nat, unit: nat)
    requires unit >= 1
    ensures Nearest(k * unit, unit) == k * unit
  {
    Quotient(k * unit, unit, k, 0);
  }

  lemma WholeDouble(k: nat, e: nat)
    requires TWO_53 / 2 <= k <= TWO_53 && e >= 1
    ensures Double(k * Pow2(e)) == k * Pow2(e)
  {
    hide Nearest, Ulp;
    PowTwoPositive(e);
    if k < TWO_53 {
      UlpUnique(k, e);
      ExactMultiple(k, Pow2(e));
    } else {
      PowTwoPositive(e + 1);
      assert k * Pow2(e) == TWO_53 / 2 * Pow2(e + 1);
      UlpUnique(TWO_53 / 2, e + 1);
      ExactMultiple(TWO_53 / 2, Pow2(e + 1));
    }
  }

  /** What was read once is a double. */
  lemma DoubleTwice(m: nat)
    ensures Double(Double(m)) == Double(m)
  {
    if m < TWO_53 {
      DoubleExact(m);
    } else {
      var e := UlpIsPower(m);
      UlpBits(m);
      var q := m / Pow2(e);
      assert Double(m) == q * Pow2(e) || Double(m) == (q + 1) * Pow2(e);
      hide Double;
      WholeDouble(q, e);
      WholeDouble(q + 1, e);
    }
  }

  function Distance(a: int, b: int): nat { if a < b then b - a else a - b }

  /** The nearest multiple of the unit among those that read as the double. */
  ghost predicate ReadsNearest(x: nat, unit: nat, v: nat) {
    && (exists q: nat :: v == q * unit) && Double(v) == x
    && forall q: nat :: Double(q * unit) == x ==> Distance(v, x) <= Distance(q * unit, x)
  }

  lemma MultipleOutside(x: nat, unit: nat, q: nat)
    requires unit >= 1
    ensures q * unit <= x / unit * unit || x / unit * unit + unit <= q * unit
  {
    if q < x / unit { Farther(unit, x / unit, q); }
    if q > x / unit { Farther(unit, q, x / unit); }
  }

  /** What reads as the double lies beyond one of its two neighbouring multiples, which then reads the same. */
  lemma NeighboursRead(x: nat, unit: nat, low: nat, q: nat)
    requires unit >= 1 && low == x - x % unit && Double(x) == x && Double(q * unit) == x
    ensures (q * unit <= low && Double(low) == x) || (low + unit <= q * unit && Double(low + unit) == x)
  {
    hide Double;
    assert low == x / unit * unit;
    NextMultiple(unit, x / unit);
    MultipleOutside(x, unit, q);
    if q * unit <= low {
      DoubleMonotone(q * unit, low);
      DoubleMonotone(low, x);
    } else {
      DoubleMonotone(x, low + unit);
      DoubleMonotone(low + unit, q * unit);
    }
  }

  /** The nearest multiple is the one just below or the one just above, whichever is not farther. */
  lemma NearestIsNeighbour(x: nat, unit: nat, q: nat, low: nat)
    requires unit >= 1 && q == x / unit && low == x - x % unit
    ensures Nearest(x, unit) == low || Nearest(x, unit) == low + unit
    ensures Distance(Nearest(x, unit), x) <= Distance(low, x) && Distance(Nearest(x, unit), x) <= Distance(low + unit, x)
  {
    assert low == q * unit;
    NextMultiple(unit, q);
  }

  lemma RoundedChoice(x: nat, unit: nat, low: nat)
    requires unit >= 1 && low == x - x % unit
    ensures && low <= x < low + unit
            && match Rounded(x, unit)
               case Some(v) =>
                 && (v == low || v == low + unit) && Double(v) == x
                 && (Double(low) == x ==> Distance(v, x) <= Distance(low, x))
                 && (Double(low + unit) == x ==> Distance(v, x) <= Distance(low + unit, x))
               case None => Double(low) != x && Double(low + unit) != x
  {
    hide Double, Nearest;
    NearestIsNeighbour(x, unit, x / unit, low);
  }

  lemma RoundedMeans(x: nat, unit: nat)
    requires unit >= 1 && Double(x) == x
    ensures match Rounded(x, unit)
            case Some(v) => ReadsNearest(x, unit, v)
            case None => forall q: nat :: Double(q * unit) != x
  {
    hide Double, Rounded;
    var low: nat := x - x % unit;
    RoundedChoice(x, unit, low);
    forall q: nat | Double(q * unit) == x
      ensures Rounded(x, unit).Some? && Distance(Rounded(x, unit).value, x) <= Distance(q * unit, x)
    {
      NeighboursRead(x, unit, low, q);
    }
    if Rounded(x, unit).Some? { MultipleFound(x, unit, Rounded(x, unit).value); }
  }

  lemma MultipleFound(x: nat, unit: nat, v: nat)
    requires unit >= 1 && (v == x - x % unit || v == x - x % unit + unit)
    ensures exists q: nat :: v == q * unit
  {
    NextMultiple(unit, x / unit);
    assert x - x % unit == x / unit * unit;
    if v == x - x % unit { assert v == x / unit * unit; } else { assert v == (x / unit + 1) * unit; }
  }

  lemma UnitRounded(x: nat)
    requires Double(x) == x
    ensures Rounded(x, Pow10(0)) == Some(x)
  {
    hide Double;
    assert x / 1 == x && x % 1 == 0;
  }

  /** The result reads as the double, nothing that ends in more zeros does, and of what ends in as many it is the nearest. */
  lemma {:induction false} ShortestMeans(x: nat, d: nat) returns (j: nat)
    requires Double(x) == x
    ensures j <= d && ReadsNearest(x, Pow10(j), Shortest(x, d))
    ensures forall k, q: nat :: j < k <= d ==> Double(q * Pow10(k)) != x
  {
    hide Double, ReadsNearest, Rounded;
    PowPositive(d);
    RoundedMeans(x, Pow10(d));
    UnitRounded(x);
    if Rounded(x, Pow10(d)).Some? {
      j := d;
    } else {
      j := ShortestMeans(x, d - 1);
    }
  }

  /**
   * As ECMAScript's Number::toString demands: the number v that JavaScript writes for m reads as the same double, it ends in
   * j zeros, nothing that ends in more zeros reads as that double, and among what ends in j zeros v is the nearest to it.
   */
  lemma WrittenNumberMeans(m: nat, v: nat) returns (j: nat)
    requires v == Shortest(Double(m), |NatText(Double(m))|)
    ensures ReadsNearest(Double(m), Pow10(j), v) && Double(v) == Double(m)
    ensures forall k, q: nat :: j < k <= |NatText(Double(m))| ==> Double(q * Pow10(k)) != Double(m)
  {
    hide Double, Shortest;
    DoubleTwice(m);
    j := ShortestMeans(Double(m), |NatText(Double(m))|);
  }

  // ---- Exactly which numbers are printed alike ----

  /** Below 10^21, and no shorter number reads as the same double. */
  predicate KeepsDigits(n: int) {
    var m := if n < 0 then -n else n;
    m < Pow10(21) && Shortest(Double(m), |NatText(Double(m))|) == m
  }

  lemma {:induction false} UlpSmall(m: nat)
    requires m >= 1
    ensures Ulp(m) <= m
  {
    if m >= TWO_53 { UlpSmall(m / 2); }
  }

  lemma NearestBound(m: nat, unit: nat)
    requires unit >= 1
    ensures Nearest(m, unit) <= m + unit
  {
    NextMultiple(unit, m / unit);
  }

  lemma DoubleBound(m: nat)
    ensures Double(m) <= 2 * m
  {
    hide Nearest, Ulp;
    if m == 0 {
      DoubleExact(m);
    } else {
      UlpSmall(m);
      NearestBound(m, Ulp(m));
    }
  }

  lemma NumberPrintedExactly(n: int)
    ensures JavaScriptNumber(n) == NumText(n) <==> KeepsDigits(n)
  {
    hide NatText, Shortest, Double, Exponential, Digits, NatValue;
    var m := if n < 0 then -n else n;
    var x := Double(m);
    FirstOfNumber(n);
    if x >= TWO_1024 {
      DoubleBound(m);
      TenTo21();
      TwoTo1024();
      NumberStarts(n);
    } else {
      MagnitudePrintedExactly(m);
      assert n < 0 ==> ("-" + DoubleText(x))[1..] == DoubleText(x) && ("-" + NatText(m))[1..] == NatText(m);
    }
  }

  lemma MagnitudePrintedExactly(m: nat)
    ensures DoubleText(Double(m)) == NatText(m) <==> KeepsDigits(m)
  {
    hide NatText, Shortest, Double, Exponential, Digits;
    var v := Shortest(Double(m), |NatText(Double(m))|);
    NatReads(m);
    if v < Pow10(21) {
      if NatText(v) == NatText(m) { NatTextInjective(v, m); }
    } else {
      ExponentialToken(v);
    }
  }

  // ---- An example ----

  const TWO_60 := 0x1000_0000_0000_0000

  predicate InThousands(v: nat) { v % 1000 == 0 }

  lemma {:induction false} Thousands(d: nat)
    requires d >= 3
    ensures InThousands(Pow10(d))
  {
    if d > 3 { Thousands(d - 1); } else { assert Pow10(3) == 1000; }
  }

  lemma MultipleInThousands(q: nat, unit: nat, v: nat)
    requires InThousands(unit) && v == q * unit
    ensures InThousands(v)
  {
    var k := unit / 1000;
    assert unit == 1000 * k;
    assert q * (1000 * k) == 1000 * (q * k);
  }

  lemma SumInThousands(a: nat, b: nat)
    requires InThousands(a) && InThousands(b)
    ensures InThousands(a + b)
  {
  }

  lemma RoundedMultiple(x: nat, unit: nat)
    requires unit >= 1 && InThousands(unit) && Rounded(x, unit).Some?
    ensures InThousands(Rounded(x, unit).value)
  {
    hide Rounded, InThousands;
    var low: nat := x - x % unit;
    MultipleInThousands(x / unit, unit, low);
    SumInThousands(low, unit);
    RoundedNeighbour(x, unit, low);
  }

  lemma RoundedNeighbour(x: nat, unit: nat, low: nat)
    requires unit >= 1 && low == x - x % unit && Rounded(x, unit).Some?
    ensures Rounded(x, unit).value == low || Rounded(x, unit).value == low + unit
  {
    hide Double, Nearest;
    NearestIsNeighbour(x, unit, x / unit, low);
  }

  lemma {:induction false} EndsInZeros(x: nat, d: nat)
    requires d >= 3 && Rounded(x, 1000).Some?
    ensures InThousands(Shortest(x, d))
  {
    hide Rounded, InThousands;
    Thousands(d);
    PowPositive(d);
    match Rounded(x, Pow10(d))
    case Some(v) => RoundedMultiple(x, Pow10(d));
    case None =>
      assert d == 3 ==> Pow10(d) == 1000;
      EndsInZeros(x, d - 1);
  }

  /** 2^60 is a double, but JavaScript writes the shorter 1152921504606847000 that reads as the same double. */
  lemma LargePowerChanges()
    ensures Double(TWO_60) == TWO_60 && !KeepsDigits(TWO_60)
    ensures JavaScriptNumber(TWO_60) == NumText(1152921504606847000)
  {
    hide Double, Nearest, Shortest;
    LargePowerRounds();
    var d := |NatText(TWO_60)|;
    assert d >= 3;
    EndsInZeros(TWO_60, d);
    var j := ShortestMeans(TWO_60, d);
    var v := Shortest(TWO_60, d);
    OnlyOneInThousands(v);
    TenTo21();
    TwoTo1024();
  }

  lemma OnlyOneInThousands(v: nat)
    requires Double(v) == TWO_60 && InThousands(v)
    ensures v == 1152921504606847000
  {
    hide Double;
    NeighbouringThousands();
    if v <= 1152921504606846000 { DoubleMonotone(v, 1152921504606846000); }
    if v >= 1152921504606848000 { DoubleMonotone(1152921504606848000, v); }
  }

  lemma NeighbouringThousands()
    ensures Double(1152921504606846000) < TWO_60 < Double(1152921504606848000)
  {
    UlpAt(1152921504606848000);
    UlpAt(2 * 1152921504606846000);
    assert Ulp(1152921504606846000) == 128;
  }

  lemma LargePowerRounds()
    ensures Double(TWO_60) == TWO_60 && Rounded(TWO_60, 1000).Some?
  {
    UlpAt(TWO_60);
    UlpAt(1152921504606847000);
    assert Double(1152921504606847000) == TWO_60;
    assert Nearest(TWO_60, 1000) == 1152921504606847000;
  }

  lemma UlpAt(m: nat)
    requires TWO_60 <= m < 2 * TWO_60
    ensures Ulp(m) == 256
  {
    assert Ulp(m / 256) == 1;
    assert m / 2 / 2 / 2 / 2 / 2 / 2 / 2 / 2 == m / 256;
    assert Ulp(m / 2 / 2 / 2 / 2 / 2 / 2 / 2) == 2;
    assert Ulp(m / 2 / 2 / 2 / 2 / 2 / 2) == 4;
    assert Ulp(m / 2 / 2 / 2 / 2 / 2) == 8;
    assert Ulp(m / 2 / 2 / 2 / 2) == 16;
    assert Ulp(m / 2 / 2 / 2) == 32;
    assert Ulp(m / 2 / 2) == 64;
    assert Ulp(m / 2) == 128;
  }
}
