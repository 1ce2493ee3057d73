/** Decoding an ECDSA signature (RFC 3279, section 2.2.3) into the 64 raw bytes WebCrypto expects. */
module DerSignature {
  import opened Basics

  type Byte = b: int | 0 <= b < 256

  datatype DerError = Truncated | BadLength | NotASequence | WrongSequenceLength | NotAnInteger | IntegerTooLarge | TrailingData

  // ---- Big-endian numbers ----

  function Pow256(k: nat): (p: nat)
    ensures p >= 1
  {
    if k == 0 then 1 else 256 * Pow256(k - 1)
  }

  /** The unsigned value of a byte string. */
  function Unsigned(s: seq<Byte>): nat {
    if s == [] then 0 else Unsigned(s[..|s| - 1]) * 256 + s[|s| - 1]
  }

  /** The value in exactly `width` bytes. */
  function Fixed(n: nat, width: nat): (s: seq<Byte>)
    ensures |s| == width
  {
    if width == 0 then [] else Fixed(n / 256, width - 1) + [n % 256]
  }

  function Zeros(k: nat): (s: seq<Byte>)
    ensures |s| == k
  {
    seq(k, i => 0)
  }

  /** `lstrip` of zero bytes. */
  function StripZeros(s: seq<Byte>): (r: seq<Byte>)
    ensures |r| <= |s| && (r != [] ==> r[0] != 0)
  {
    if s != [] && s[0] == 0 then StripZeros(s[1..]) else s
  }

  /** `rjust` to 32 bytes. */
  function Padded(s: seq<Byte>): (r: seq<Byte>)
    requires |s| <= 32
    ensures |r| == 32
  {
    Zeros(32 - |s|) + s
  }

  // ---- The parser ----

  /** A length field at `offset`: its value and the offset after it; short form or one or two length bytes. */
  function DerLength(data: seq<Byte>, offset: nat): (r: Result<(nat, nat), DerError>)
    ensures r.Ok? ==> offset < r.value.1 <= |data|
  {
    if offset >= |data| then Err(Truncated)
    else
      var first := data[offset];
      if first < 0x80 then Ok((first, offset + 1))
      else
        var count := first - 0x80;
        if count == 0 || count > 2 || offset + 1 + count > |data| then Err(BadLength)
        else Ok((Unsigned(data[offset + 1..offset + 1 + count]), offset + 1 + count))
  }

  /** One integer at `offset`: its 32 bytes and the offset after it. */
  function ReadInteger(data: seq<Byte>, offset: nat): (r: Result<(seq<Byte>, nat), DerError>)
    ensures r.Ok? ==> |r.value.0| == 32 && offset < r.value.1 <= |data|
  {
    if offset >= |data| || data[offset] != 0x02 then Err(NotAnInteger)
    else
      match DerLength(data, offset + 1)
      case Err(e) => Err(e)
      case Ok((length, start)) =>
        if start + length > |data| then Err(Truncated)
        else
          var value := StripZeros(data[start..start + length]);
          if |value| > 32 then Err(IntegerTooLarge) else Ok((Padded(value), start + length))
  }

  function DecodeSpec(data: seq<Byte>): Result<seq<Byte>, DerError> {
    if data == [] || data[0] != 0x30 then Err(NotASequence)
    else
      match DerLength(data, 1)
      case Err(e) => Err(e)
      case Ok((length, start)) =>
        if start + length != |data| then Err(WrongSequenceLength)
        else
          match ReadInteger(data, start)
          case Err(e) => Err(e)
          case Ok((r, middle)) =>
            match ReadInteger(data, middle)
            case Err(e) => Err(e)
            case Ok((s, end)) => if end != |data| then Err(TrailingData) else Ok(r + s)
  }

  /** The parser's loop over both integers; whatever the input, it fails or yields exactly 64 bytes. */
  method EcdsaDerToRaw(signature: seq<Byte>) returns (r: Result<seq<Byte>, DerError>)
    ensures r == DecodeSpec(signature)
    ensures r.Ok? ==> |r.value| == 64
  {
    if signature == [] || signature[0] != 0x30 { return Err(NotASequence); }
    var header := DerLength(signature, 1);
    if header.Err? { return Err(header.error); }
    var offset := header.value.1;
    if offset + header.value.0 != |signature| { return Err(WrongSequenceLength); }
    ghost var start := offset;
    var values: seq<Byte> := [];
    for index := 0 to 2
      invariant |values| == 32 * index && offset <= |signature|
      invariant index == 0 ==> offset == start
      invariant index == 1 ==> ReadInteger(signature, start) == Ok((values, offset))
      invariant index == 2 ==>
        && ReadInteger(signature, start).Ok?
        && ReadInteger(signature, ReadInteger(signature, start).value.1).Ok?
        && values == ReadInteger(signature, start).value.0 + ReadInteger(signature, ReadInteger(signature, start).value.1).value.0
        && offset == ReadInteger(signature, ReadInteger(signature, start).value.1).value.1
    {
      if offset >= |signature| || signature[offset] != 0x02 { return Err(NotAnInteger); }
      var field := DerLength(signature, offset + 1);
      if field.Err? { return Err(field.error); }
      var (length, valueOffset) := field.value;
      if valueOffset + length > |signature| { return Err(Truncated); }
      var value := StripZeros(signature[valueOffset..valueOffset + length]);
      if |value| > 32 { return Err(IntegerTooLarge); }
      assert ReadInteger(signature, offset) == Ok((Padded(value), valueOffset + length));
      assert [] + Padded(value) == Padded(value);
      values := values + Padded(value);
      offset := valueOffset + length;
    }
    if offset != |signature| { return Err(TrailingData); }
    return Ok(values);
  }

  // ---- Values ----

  lemma {:induction false} UnsignedBound(s: seq<Byte>)
    ensures Unsigned(s) < Pow256(|s|)
  {
    if s != [] { UnsignedBound(s[..|s| - 1]); }
  }

  lemma {:induction false} UnsignedLarge(s: seq<Byte>)
    requires s != [] && s[0] != 0
    ensures Unsigned(s) >= Pow256(|s| - 1)
  {
    if |s| > 1 {
      UnsignedLarge(s[..|s| - 1]);
      assert Pow256(|s| - 1) == 256 * Pow256(|s| - 2);
    } else {
      assert s[..0] == [];
    }
  }

  lemma {:induction false} UnsignedDropZero(s: seq<Byte>)
    requires s != [] && s[0] == 0
    ensures Unsigned(s) == Unsigned(s[1..])
  {
    if |s| == 1 {
      assert s[..0] == [];
    } else {
      UnsignedDropZero(s[..|s| - 1]);
      assert s[..|s| - 1][1..] == s[1..][..|s| - 2];
    }
  }

  lemma {:induction false} StripKeepsValue(s: seq<Byte>)
    ensures Unsigned(StripZeros(s)) == Unsigned(s)
  {
    if s != [] && s[0] == 0 {
      UnsignedDropZero(s);
      StripKeepsValue(s[1..]);
    }
  }

  lemma {:induction false} PowMonotone(a: nat, b: nat)
    requires a <= b
    ensures Pow256(a) <= Pow256(b)
  {
    if a < b { PowMonotone(a, b - 1); }
  }

  /** A stripped value fits 32 bytes exactly when its number is below 256 to the 32nd. */
  lemma FitsExactly(s: seq<Byte>)
    ensures |StripZeros(s)| <= 32 <==> Unsigned(s) < Pow256(32)
  {
    hide Pow256, Unsigned, StripZeros;
    var v := StripZeros(s);
    StripKeepsValue(s);
    UnsignedBound(v);
    if |v| <= 32 {
      PowMonotone(|v|, 32);
    } else {
      UnsignedLarge(v);
      PowMonotone(32, |v| - 1);
    }
  }

  lemma {:induction false} FixedOf(s: seq<Byte>, width: nat)
    requires |s| <= width
    ensures Fixed(Unsigned(s), width) == Zeros(width - |s|) + s
  {
    if width > 0 {
      if s == [] {
        FixedOf([], width - 1);
        assert Zeros(width) == Zeros(width - 1) + [0];
        assert Zeros(width - 1) + [] == Zeros(width - 1) && Zeros(width) + [] == Zeros(width);
      } else {
        FixedOf(s[..|s| - 1], width - 1);
        assert s == s[..|s| - 1] + [s[|s| - 1]];
      }
    }
  }

  // ---- What is accepted ----

  /** The spellings of a length the parser takes: short form, or long form with one or two bytes. */
  predicate LengthField(field: seq<Byte>, n: nat) {
    || (n < 0x80 && field == [n])
    || (n < 0x100 && field == [0x81, n])
    || (n < 0x10000 && field == [0x82, n / 256, n % 256])
  }

  lemma TwoBytes(a: Byte, b: Byte)
    ensures Unsigned([a]) == a && Unsigned([a, b]) == a * 256 + b
  {
    assert [a][..0] == [] && [a, b][..1] == [a];
  }

  /** Reading a length field inside any surrounding bytes. */
  lemma LengthReads(before: seq<Byte>, field: seq<Byte>, after: seq<Byte>, n: nat)
    requires LengthField(field, n)
    ensures DerLength(before + field + after, |before|) == Ok((n, |before| + |field|))
  {
    var data := before + field + after;
    var at := |before|;
    assert data[at] == field[0];
    if field[0] >= 0x80 {
      var count := field[0] - 0x80;
      assert data[at + 1..at + 1 + count] == field[1..];
      if count == 1 { assert field[1..] == [n]; TwoBytes(n, 0); } else { assert field[1..] == [n / 256, n % 256]; TwoBytes(n / 256, n % 256); }
    }
  }

  /** One integer field: tag, length, content. */
  function IntegerField(field: seq<Byte>, content: seq<Byte>): seq<Byte> {
    [0x02] + field + content
  }

  lemma IntegerReads(before: seq<Byte>, field: seq<Byte>, content: seq<Byte>, after: seq<Byte>)
    requires LengthField(field, |content|) && Unsigned(content) < Pow256(32)
    ensures ReadInteger(before + IntegerField(field, content) + after, |before|) ==
            Ok((Fixed(Unsigned(content), 32), |before| + |IntegerField(field, content)|))
  {
    hide Pow256, Unsigned, StripZeros, DerLength, Fixed, LengthField;
    var data := before + IntegerField(field, content) + after;
    assert data[|before|] == 0x02;
    assert data == (before + [0x02]) + field + (content + after);
    LengthReads(before + [0x02], field, content + after, |content|);
    var start := |before| + 1 + |field|;
    assert data[start..start + |content|] == content;
    FitsExactly(content);
    StripKeepsValue(content);
    FixedOf(StripZeros(content), 32);
  }

  function Signature(outer: seq<Byte>, rField: seq<Byte>, r: seq<Byte>, sField: seq<Byte>, s: seq<Byte>): seq<Byte> {
    [0x30] + outer + (IntegerField(rField, r) + IntegerField(sField, s))
  }

  /** The length fields fit their contents and both numbers are below 256 to the 32nd. */
  predicate WellFormed(outer: seq<Byte>, rField: seq<Byte>, r: seq<Byte>, sField: seq<Byte>, s: seq<Byte>) {
    && LengthField(rField, |r|) && LengthField(sField, |s|)
    && LengthField(outer, |IntegerField(rField, r)| + |IntegerField(sField, s)|)
    && Unsigned(r) < Pow256(32) && Unsigned(s) < Pow256(32)
  }

  /** Every well-formed signature decodes to its two numbers in 32 bytes each. */
  lemma WellFormedDecodes(outer: seq<Byte>, rField: seq<Byte>, r: seq<Byte>, sField: seq<Byte>, s: seq<Byte>)
    requires WellFormed(outer, rField, r, sField, s)
    ensures DecodeSpec(Signature(outer, rField, r, sField, s)) == Ok(Fixed(Unsigned(r), 32) + Fixed(Unsigned(s), 32))
  {
    hide IntegerField, ReadInteger, DerLength, LengthField, Unsigned, Pow256, Fixed;
    var data := Signature(outer, rField, r, sField, s);
    var first, second := IntegerField(rField, r), IntegerField(sField, s);
    LengthReads([0x30], outer, first + second, |first| + |second|);
    var head := [0x30] + outer;
    assert data == head + first + second && data == (head + first) + second + [];
    IntegerReads(head, rField, r, second);
    IntegerReads(head + first, sField, s, []);
  }

  // ---- The converse ----

  lemma LengthIs(data: seq<Byte>, offset: nat)
    requires DerLength(data, offset).Ok?
    ensures var (n, next) := DerLength(data, offset).value; LengthField(data[offset..next], n)
  {
    var (n, next) := DerLength(data, offset).value;
    var field := data[offset..next];
    if data[offset] == 0x81 {
      assert data[offset + 1..offset + 2] == [data[offset + 1]];
      TwoBytes(data[offset + 1], 0);
      assert field == [0x81, n];
    } else if data[offset] == 0x82 {
      assert data[offset + 1..offset + 3] == [data[offset + 1], data[offset + 2]];
      TwoBytes(data[offset + 1], data[offset + 2]);
      assert field == [0x82, n / 256, n % 256];
    } else {
      assert field == [n];
    }
  }

  lemma IntegerIs(data: seq<Byte>, offset: nat) returns (field: seq<Byte>, content: seq<Byte>)
    requires ReadInteger(data, offset).Ok?
    ensures LengthField(field, |content|) && Unsigned(content) < Pow256(32)
    ensures data[offset..ReadInteger(data, offset).value.1] == IntegerField(field, content)
  {
    hide Pow256, Unsigned, StripZeros, DerLength, LengthField;
    LengthIs(data, offset + 1);
    var (length, start) := DerLength(data, offset + 1).value;
    field, content := data[offset + 1..start], data[start..start + length];
    FitsExactly(content);
    assert data[offset..start + length] == [data[offset]] + field + content;
  }

  /** Whatever the parser accepts is a well-formed signature, so acceptance is exactly well-formedness. */
  lemma AcceptedIsWellFormed(data: seq<Byte>)
    returns (outer: seq<Byte>, rField: seq<Byte>, r: seq<Byte>, sField: seq<Byte>, s: seq<Byte>)
    requires DecodeSpec(data).Ok?
    ensures WellFormed(outer, rField, r, sField, s) && data == Signature(outer, rField, r, sField, s)
    ensures DecodeSpec(data) == Ok(Fixed(Unsigned(r), 32) + Fixed(Unsigned(s), 32))
  {
    hide Pow256, Unsigned, DerLength, LengthField, ReadInteger, IntegerField, Fixed;
    LengthIs(data, 1);
    var (length, start) := DerLength(data, 1).value;
    outer := data[1..start];
    rField, r := IntegerIs(data, start);
    var middle := ReadInteger(data, start).value.1;
    sField, s := IntegerIs(data, middle);
    Cut(data, start, middle);
    assert data[middle..|data|] == data[middle..];
    WellFormedDecodes(outer, rField, r, sField, s);
  }

  lemma Cut(data: seq<Byte>, start: nat, middle: nat)
    requires 1 <= start <= middle <= |data|
    ensures data == [data[0]] + data[1..start] + (data[start..middle] + data[middle..])
    ensures |data[start..middle]| + |data[middle..]| == |data| - start
  {
  }

  // ---- DER itself ----

  /** Minimal big-endian bytes of a number, at least one. */
  function BigEndian(n: nat): (s: seq<Byte>)
    ensures s != [] && (n > 0 ==> s[0] != 0)
  {
    if n < 256 then [n] else BigEndian(n / 256) + [n % 256]
  }

  /** The content of a DER INTEGER: a zero byte in front where the sign bit would be set. */
  function DerContent(n: nat): seq<Byte> {
    var s := BigEndian(n);
    if s[0] >= 0x80 then [0] + s else s
  }

  function DerSignatureOf(r: nat, s: nat): seq<Byte>
    requires r < Pow256(32) && s < Pow256(32)
  {
    ContentShort(r);
    ContentShort(s);
    var (a, b) := (DerContent(r), DerContent(s));
    Signature([|a| + |b| + 4], [|a|], a, [|b|], b)
  }

  lemma {:induction false} BigEndianValue(n: nat)
    ensures Unsigned(BigEndian(n)) == n
  {
    if n >= 256 {
      BigEndianValue(n / 256);
      var s := BigEndian(n);
      assert s[..|s| - 1] == BigEndian(n / 256);
    } else {
      assert BigEndian(n)[..0] == [];
    }
  }

  lemma {:induction false} BigEndianShort(n: nat, k: nat)
    requires k >= 1 && n < Pow256(k)
    ensures |BigEndian(n)| <= k
  {
    if n >= 256 {
      assert Pow256(1) == 256 * Pow256(0);
      BigEndianShort(n / 256, k - 1);
    }
  }

  lemma ContentShort(n: nat)
    requires n < Pow256(32)
    ensures 1 <= |DerContent(n)| <= 33 && Unsigned(DerContent(n)) == n
  {
    BigEndianShort(n, 32);
    BigEndianValue(n);
    var s := BigEndian(n);
    if s[0] >= 0x80 {
      UnsignedDropZero([0] + s);
      assert ([0] + s)[1..] == s;
    }
  }

  /** The fixed-width bytes stand for the number again. */
  lemma {:induction false} FixedValue(n: nat, width: nat)
    requires n < Pow256(width)
    ensures Unsigned(Fixed(n, width)) == n
  {
    if width > 0 {
      FixedValue(n / 256, width - 1);
      var s := Fixed(n, width);
      assert s[..|s| - 1] == Fixed(n / 256, width - 1);
    }
  }

  /** Every DER signature of two integers below 2 to the 256th decodes to their 32-byte values, whose halves are the numbers again. */
  lemma DerRoundTrip(r: nat, s: nat)
    requires r < Pow256(32) && s < Pow256(32)
    ensures DecodeSpec(DerSignatureOf(r, s)) == Ok(Fixed(r, 32) + Fixed(s, 32))
    ensures Unsigned(Fixed(r, 32)) == r && Unsigned(Fixed(s, 32)) == s
  {
    hide Pow256, Fixed, Unsigned, DecodeSpec, DerContent;
    FixedValue(r, 32);
    FixedValue(s, 32);
    ContentShort(r);
    ContentShort(s);
    var a, b := DerContent(r), DerContent(s);
    WellFormedDecodes([|a| + |b| + 4], [|a|], a, [|b|], b);
  }
}
