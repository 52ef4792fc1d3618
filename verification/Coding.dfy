/** Byte encodings of src/coding.cc: fixed-width and varint integers, length-prefixed strings. */
module Coding {
  import opened Arithmetic

  type byte = b: int | 0 <= b < 256

  type Bytes = seq<byte>

  datatype Parsed<T> = Fail | Ok(value: T, rest: Bytes)

  const TWO32 := 0x1_0000_0000
  const TWO64 := 0x1_0000_0000_0000_0000

  function ZeroBytes(n: nat): (z: Bytes)
    ensures |z| == n
  {
    seq(n, i => 0)
  }

  // --------------------------------------------------------------- fixed width

  /** The n low bytes of v, least significant first: EncodeFixed16, 32 and 64. */
  function Fixed(v: nat, n: nat): (r: Bytes)
    ensures |r| == n
  {
    if n == 0 then [] else [v % 256] + Fixed(v / 256, n - 1)
  }

  function FixedValue(s: Bytes): nat {
    if s == [] then 0 else s[0] + 256 * FixedValue(s[1..])
  }

  function Pow256(n: nat): (p: nat)
    ensures p >= 1
  {
    if n == 0 then 1 else 256 * Pow256(n - 1)
  }

  lemma {:induction false} FixedRoundTrip(v: nat, n: nat)
    requires v < Pow256(n)
    ensures FixedValue(Fixed(v, n)) == v
  {
    if n > 0 {
      FixedRoundTrip(v / 256, n - 1);
      assert Fixed(v, n)[1..] == Fixed(v / 256, n - 1);
    }
  }

  /** Byte i of a fixed-width number is the one of weight 256^i. */
  lemma {:induction false} FixedByte(v: nat, n: nat, i: nat)
    requires i < n
    ensures Fixed(v, n)[i] == v / Pow256(i) % 256
  {
    if i > 0 {
      FixedByte(v / 256, n - 1, i - 1);
      QuotientOfQuotient(v, 256, Pow256(i - 1));
    }
  }

  lemma FixedWidths()
    ensures Pow256(2) == 0x1_0000 && Pow256(4) == TWO32 && Pow256(8) == TWO64
  {
    assert Pow256(3) == 256 * Pow256(2);
    assert Pow256(5) == 256 * Pow256(4) && Pow256(6) == 256 * Pow256(5) && Pow256(7) == 256 * Pow256(6);
  }

  lemma Fixed32RoundTrip(v: nat)
    requires v < TWO32
    ensures FixedValue(Fixed(v, 4)) == v
  {
    FixedWidths();
    FixedRoundTrip(v, 4);
  }

  /** An array of 32-bit numbers. */
  function Fixed32s(points: seq<nat>): (r: Bytes)
    ensures |r| == 4 * |points|
  {
    if points == [] then [] else Fixed32s(points[..|points| - 1]) + Fixed(points[|points| - 1], 4)
  }

  lemma {:induction false} Fixed32At(points: seq<nat>, j: nat)
    requires j < |points|
    ensures Fixed32s(points)[4 * j..4 * j + 4] == Fixed(points[j], 4)
  {
    var n := |points| - 1;
    var front := points[..n];
    var r := Fixed32s(points);
    if j < n {
      Fixed32At(front, j);
      assert r[4 * j..4 * j + 4] == Fixed32s(front)[4 * j..4 * j + 4];
    }
  }

  // -------------------------------------------------------------------- varint

  /** Base-128 digits, least significant first, every digit but the last marked with bit 7. */
  function Varint(v: nat): (r: Bytes)
    ensures |r| >= 1
    decreases v
  {
    if v < 128 then [v] else [v % 128 + 128] + Varint(v / 128)
  }

  /** EncodeVarint32, branch by branch. */
  function EncodeVarint32(v: nat): Bytes
    requires v < TWO32
  {
    if v < 0x80 then [v]
    else if v < 0x4000 then [v % 128 + 128, v / 128]
    else if v < 0x20_0000 then [v % 128 + 128, v / 128 % 128 + 128, v / 0x4000]
    else if v < 0x1000_0000 then [v % 128 + 128, v / 128 % 128 + 128, v / 0x4000 % 128 + 128, v / 0x20_0000]
    else [v % 128 + 128, v / 128 % 128 + 128, v / 0x4000 % 128 + 128, v / 0x20_0000 % 128 + 128, v / 0x1000_0000]
  }

  lemma NestedDivision(v: nat)
    ensures v / 128 / 128 == v / 0x4000
    ensures v / 128 / 128 / 128 == v / 0x20_0000
    ensures v / 128 / 128 / 128 / 128 == v / 0x1000_0000
  {
  }

  lemma TwoDigits(v: nat)
    requires 0x80 <= v < 0x4000
    ensures Varint(v) == [v % 128 + 128, v / 128]
  {
    assert Varint(v / 128) == [v / 128];
  }

  lemma ThreeDigits(v: nat)
    requires 0x4000 <= v < 0x20_0000
    ensures Varint(v) == [v % 128 + 128, v / 128 % 128 + 128, v / 128 / 128]
  {
    TwoDigits(v / 128);
  }

  lemma FourDigits(v: nat)
    requires 0x20_0000 <= v < 0x1000_0000
    ensures Varint(v) == [v % 128 + 128, v / 128 % 128 + 128, v / 128 / 128 % 128 + 128, v / 128 / 128 / 128]
  {
    ThreeDigits(v / 128);
  }

  /** The unrolled encoder writes exactly the base-128 digits. */
  lemma EncodeVarint32IsVarint(v: nat)
    requires v < TWO32
    ensures EncodeVarint32(v) == Varint(v)
  {
    NestedDivision(v);
    if 0x80 <= v < 0x4000 {
      TwoDigits(v);
    } else if 0x4000 <= v < 0x20_0000 {
      ThreeDigits(v);
    } else if 0x20_0000 <= v < 0x1000_0000 {
      FourDigits(v);
    } else if 0x1000_0000 <= v {
      FourDigits(v / 128);
    }
  }

  /** EncodeVarint64. */
  method EncodeVarint64(v: nat) returns (r: Bytes)
    ensures r == Varint(v)
  {
    var rest := v;
    r := [];
    while rest >= 128
      invariant r + Varint(rest) == Varint(v)
    {
      r := r + [rest % 128 + 128];
      rest := rest / 128;
    }
    r := r + [rest];
  }

  /** What a decoder computes from digit number k on; digits beyond number last are an error. */
  function VarintDigits(s: Bytes, k: nat, last: nat): Parsed<nat>
    decreases |s|
  {
    if k > last || s == [] then Fail
    else if s[0] < 128 then Ok(s[0], s[1..])
    else
      match VarintDigits(s[1..], k + 1, last)
      case Fail => Fail
      case Ok(high, rest) => Ok(s[0] - 128 + 128 * high, rest)
  }

  /** Five digits at most, and the shifted fifth is cut to 32 bits. */
  function ParseVarint32(s: Bytes): Parsed<nat> {
    match VarintDigits(s, 0, 4)
    case Fail => Fail
    case Ok(v, rest) => Ok(v % TWO32, rest)
  }

  /** Ten digits at most, and the shifted tenth is cut to 64 bits. */
  function ParseVarint64(s: Bytes): Parsed<nat> {
    match VarintDigits(s, 0, 9)
    case Fail => Fail
    case Ok(v, rest) => Ok(v % TWO64, rest)
  }

  function Pow128(k: nat): nat {
    if k == 0 then 1 else 128 * Pow128(k - 1)
  }

  /** After k digits: the digits read so far, in words of the given size, and those to come make up the number. */
  ghost predicate Reading(input: Bytes, last: nat, word: nat, k: nat, result: nat, unit: nat)
    requires k <= |input| && word > 0
  {
    var all, rest := VarintDigits(input, 0, last), VarintDigits(input[k..], k, last);
    && unit == Pow128(k) && (all.Ok? <==> rest.Ok?)
    && (all.Ok? ==> all.rest == rest.rest && all.value % word == (result + unit * rest.value) % word)
  }

  lemma FirstDigit(input: Bytes, k: nat, last: nat)
    requires k <= last && k < |input| && input[k] >= 128
    ensures var digits := VarintDigits(input[k + 1..], k + 1, last);
      VarintDigits(input[k..], k, last) == if digits.Ok? then Ok(input[k] - 128 + 128 * digits.value, digits.rest)
        else Fail
  {
    assert input[k..][1..] == input[k + 1..];
  }

  /** GetVarint32PtrFallback: accumulate shifted digits, in 32-bit arithmetic. */
  method GetVarint32(input: Bytes) returns (r: Parsed<nat>)
    ensures r == ParseVarint32(input)
  {
    var result: nat, k: nat, unit: nat := 0, 0, 1;
    while k <= 4 && k < |input|
      invariant k <= 5 && k <= |input| && Reading(input, 4, TWO32, k, result, unit)
    {
      var b := input[k];
      if b < 128 {
        assert input[k..][1..] == input[k + 1..];
        return Ok((result + unit * b) % TWO32, input[k + 1..]);
      }
      Digit32(input, k, result, unit);
      result := (result + unit * (b - 128)) % TWO32;
      unit := unit * 128;
      k := k + 1;
    }
    return Fail;
  }

  lemma Digit32(input: Bytes, k: nat, result: nat, unit: nat)
    requires k <= 4 && k < |input| && input[k] >= 128 && Reading(input, 4, TWO32, k, result, unit)
    ensures Reading(input, 4, TWO32, k + 1, (result + unit * (input[k] - 128)) % TWO32, unit * 128)
  {
    FirstDigit(input, k, 4);
    var digits := VarintDigits(input[k + 1..], k + 1, 4);
    if digits.Ok? { Accumulate(result, unit, input[k] - 128, digits.value); }
  }

  lemma Accumulate(result: nat, unit: nat, low: nat, high: nat)
    ensures (result + unit * (low + 128 * high)) % TWO32 == ((result + unit * low) % TWO32 + unit * 128 * high) % TWO32
  {
    var a, b := result + unit * low, unit * 128 * high;
    assert result + unit * (low + 128 * high) == a + b;
    assert (a + b) % TWO32 == (a % TWO32 + b) % TWO32;
  }

  /** GetVarint64Ptr: the same in 64 bits. */
  method GetVarint64(input: Bytes) returns (r: Parsed<nat>)
    ensures r == ParseVarint64(input)
  {
    var result: nat, k: nat, unit: nat := 0, 0, 1;
    while k <= 9 && k < |input|
      invariant k <= 10 && k <= |input| && Reading(input, 9, TWO64, k, result, unit)
    {
      var b := input[k];
      if b < 128 {
        assert input[k..][1..] == input[k + 1..];
        return Ok((result + unit * b) % TWO64, input[k + 1..]);
      }
      Digit64(input, k, result, unit);
      result := (result + unit * (b - 128)) % TWO64;
      unit := unit * 128;
      k := k + 1;
    }
    return Fail;
  }

  lemma Digit64(input: Bytes, k: nat, result: nat, unit: nat)
    requires k <= 9 && k < |input| && input[k] >= 128 && Reading(input, 9, TWO64, k, result, unit)
    ensures Reading(input, 9, TWO64, k + 1, (result + unit * (input[k] - 128)) % TWO64, unit * 128)
  {
    FirstDigit(input, k, 9);
    var digits := VarintDigits(input[k + 1..], k + 1, 9);
    if digits.Ok? { Accumulate64(result, unit, input[k] - 128, digits.value); }
  }

  lemma Accumulate64(result: nat, unit: nat, low: nat, high: nat)
    ensures (result + unit * (low + 128 * high)) % TWO64 == ((result + unit * low) % TWO64 + unit * 128 * high) % TWO64
  {
    var a, b := result + unit * low, unit * 128 * high;
    assert result + unit * (low + 128 * high) == a + b;
    assert (a + b) % TWO64 == (a % TWO64 + b) % TWO64;
  }

  lemma {:induction false} VarintDigitsRoundTrip(v: nat, k: nat, last: nat, rest: Bytes)
    requires k <= last && v < Pow128(last + 1 - k)
    ensures VarintDigits(Varint(v) + rest, k, last) == Ok(v, rest)
    decreases last - k
  {
    var s := Varint(v) + rest;
    if v < 128 {
      assert s[1..] == rest;
    } else {
      assert Pow128(1) == 128;
      assert k < last;
      VarintDigitsRoundTrip(v / 128, k + 1, last, rest);
      assert s[1..] == Varint(v / 128) + rest;
    }
  }

  lemma PowersOf128()
    ensures Pow128(5) == 0x8_0000_0000 && Pow128(10) == 0x40_0000_0000_0000_0000
  {
    assert Pow128(2) == 0x4000 && Pow128(3) == 128 * Pow128(2) && Pow128(4) == 128 * Pow128(3);
    assert Pow128(5) == 128 * Pow128(4) && Pow128(6) == 128 * Pow128(5) && Pow128(7) == 128 * Pow128(6);
    assert Pow128(8) == 128 * Pow128(7) && Pow128(9) == 128 * Pow128(8);
  }

  lemma Varint32RoundTrip(v: nat, rest: Bytes)
    requires v < TWO32
    ensures ParseVarint32(EncodeVarint32(v) + rest) == Ok(v, rest)
  {
    EncodeVarint32IsVarint(v);
    PowersOf128();
    VarintDigitsRoundTrip(v, 0, 4, rest);
  }

  lemma Varint64RoundTrip(v: nat, rest: Bytes)
    requires v < TWO64
    ensures ParseVarint64(Varint(v) + rest) == Ok(v, rest)
  {
    PowersOf128();
    VarintDigitsRoundTrip(v, 0, 9, rest);
  }

  // ----------------------------------------------------- length-prefixed strings

  function LengthPrefixed(s: Bytes): Bytes
    requires |s| < TWO32
  {
    EncodeVarint32(|s|) + s
  }

  /** GetLengthPrefixedSlice. */
  function ParseLengthPrefixed(s: Bytes): Parsed<Bytes> {
    match ParseVarint32(s)
    case Fail => Fail
    case Ok(n, rest) => if |rest| >= n then Ok(rest[..n], rest[n..]) else Fail
  }

  lemma LengthPrefixedRoundTrip(s: Bytes, rest: Bytes)
    requires |s| < TWO32
    ensures ParseLengthPrefixed(LengthPrefixed(s) + rest) == Ok(s, rest)
  {
    assert LengthPrefixed(s) + rest == EncodeVarint32(|s|) + (s + rest);
    Varint32RoundTrip(|s|, s + rest);
  }
}
