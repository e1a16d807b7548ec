/**
 The descriptors u(n), ue(v) and se(v) of sections 7.2, 9.1 and 9.1.1 of ITU-T H.264 over a plain bit string,
 and the encoder they invert.
 */
module Golomb {
  import opened Bits

  const MAX_CODE_NUM := 0xFFFF_FFFE

  /** What one read gives: the value and the bits after it, the end of the string, or no legal code. */
  datatype Read = Read(value: int, rest: seq<bool>) | EndOfBits | NoCode

  function ReadU(s: seq<bool>, n: nat): Read {
    if n <= |s| then Read(ToNat(s[..n]), s[n..]) else EndOfBits
  }

  /** Section 9.1: a run of at most 31 zeros, a one, and as many bits again. */
  function ReadUe(s: seq<bool>): (r: Read)
    ensures r.Read? ==> 0 <= r.value <= MAX_CODE_NUM
  {
    var z := LeadingZeros(s);
    if z == |s| then EndOfBits
    else if z > 31 then NoCode
    else if 2 * z + 1 > |s| then EndOfBits
    else
      CodeNumRange(z, s[z + 1..2 * z + 1]);
      Read(Pow2(z) - 1 + ToNat(s[z + 1..2 * z + 1]), s[2 * z + 1..])
  }

  /** Table 9-3: code numbers 0, 1, 2, 3, 4 stand for 0, 1, -1, 2, -2. */
  function SignedOf(codeNum: nat): int {
    if codeNum % 2 == 1 then (codeNum + 1) / 2 else -(codeNum / 2)
  }

  function ReadSe(s: seq<bool>): Read {
    match ReadUe(s)
    case Read(v, rest) => Read(SignedOf(v), rest)
    case EndOfBits => EndOfBits
    case NoCode => NoCode
  }

  /** The first lines of tables 9-2 and 9-3. */
  lemma FirstCodes(rest: seq<bool>)
    ensures ReadUe([true] + rest) == Read(0, rest)
    ensures ReadUe([false, true, false] + rest) == Read(1, rest) && ReadUe([false, true, true] + rest) == Read(2, rest)
    ensures SignedOf(0) == 0 && SignedOf(1) == 1 && SignedOf(2) == -1 && SignedOf(3) == 2 && SignedOf(4) == -2
  {
    hide ReadUe;
    assert Zeros(0) + [true] + ([] + rest) == [true] + rest && Zeros(1) == [false];
    FieldReads(0, [], rest, [true] + rest);
    assert [false] + [true] + ([false] + rest) == [false, true, false] + rest;
    FieldReads(1, [false], rest, [false, true, false] + rest);
    assert [false] + [true] + ([true] + rest) == [false, true, true] + rest;
    FieldReads(1, [true], rest, [false, true, true] + rest);
    assert ToNat([false]) == 0 && ToNat([true]) == 1;
  }

  function EncodeUe(codeNum: nat): seq<bool> {
    var len := BitLength(codeNum + 1);
    Zeros(len - 1) + FromNat(codeNum + 1, len)
  }

  function CodeNumOf(v: int): nat {
    if v > 0 then 2 * v - 1 else -2 * v
  }

  lemma Pow2Of31()
    ensures Pow2(31) == 0x8000_0000 && Pow2(32) == 0x1_0000_0000
  {
    assert Pow2(8) == 0x100;
    Pow2Add(8, 8);
    Pow2Add(16, 15);
    Pow2Add(8, 7);
  }

  lemma CodeNumRange(z: nat, s: seq<bool>)
    requires z == |s| <= 31
    ensures 0 <= Pow2(z) - 1 + ToNat(s) <= MAX_CODE_NUM
  {
    ToNatBound(s);
    Pow2Of31();
    Pow2Monotone(z, 31);
  }

  lemma BigPower(z: nat)
    ensures z > 31 ==> Pow2(z) >= 0x1_0000_0000
  {
    Pow2Of31();
    if z > 31 {
      Pow2Monotone(32, z);
    }
  }

  /** A code is read by its field. */
  lemma FieldReads(z: nat, field: seq<bool>, tail: seq<bool>, s: seq<bool>)
    requires |field| == z <= 31 && s == Zeros(z) + [true] + (field + tail)
    ensures ReadUe(s) == Read(Pow2(z) - 1 + ToNat(field), tail)
  {
    hide Pow2, ToNat, FirstOne, Zeros;
    LeadingZerosOf(z, field + tail);
    assert s[z + 1..2 * z + 1] == field;
    assert s[2 * z + 1..] == tail;
  }

  /** Decoding inverts encoding and stops on the next bit. */
  lemma UeRoundTrip(codeNum: nat, tail: seq<bool>)
    requires codeNum <= MAX_CODE_NUM
    ensures ReadUe(EncodeUe(codeNum) + tail) == Read(codeNum, tail)
  {
    hide Pow2, ReadUe, FromNat, ToNat;
    var n := codeNum + 1;
    BitLengthBounds(n);
    var z: nat := BitLength(n) - 1;
    BigPower(z);
    var low: nat := n - Pow2(z);
    var field := FromNat(low, z);
    LeadingOne(n, z);
    PowDoubles(z);
    FromNatToNat(low, z);
    var s := EncodeUe(codeNum) + tail;
    assert s == Zeros(z) + [true] + (field + tail);
    FieldReads(z, field, tail, s);
  }

  lemma PowDoubles(z: nat)
    ensures Pow2(z + 1) == 2 * Pow2(z)
  {
  }

  /** The binary form of a number of z+1 bits is a one and the rest. */
  lemma {:induction false} LeadingOne(n: nat, z: nat)
    requires Pow2(z) <= n < Pow2(z + 1)
    ensures FromNat(n, z + 1) == [true] + FromNat(n - Pow2(z), z)
  {
    if z == 0 {
      assert FromNat(1, 1) == FromNat(0, 0) + [true];
    } else {
      LeadingOne(n / 2, z - 1);
      assert (n - Pow2(z)) / 2 == n / 2 - Pow2(z - 1);
      assert (n - Pow2(z)) % 2 == n % 2;
    }
  }

  /** Conversely, every code the decoder accepts is the encoding of its value. */
  lemma UeIsEncoding(s: seq<bool>)
    requires ReadUe(s).Read?
    ensures s == EncodeUe(ReadUe(s).value) + ReadUe(s).rest
  {
    var z := LeadingZeros(s);
    var field := s[z + 1..2 * z + 1];
    assert ToNat(field) < Pow2(z) by { ToNatBound(field); }
    EncodeOfLength(ReadUe(s).value, z, ToNat(field));
    assert FromNat(ToNat(field), z) == field by { ToNatFromNat(field); }
    CodeSplit(s, z);
  }

  lemma CodeSplit(s: seq<bool>, z: nat)
    requires 2 * z + 1 <= |s| && s[..z] == Zeros(z) && s[z]
    ensures s == Zeros(z) + ([true] + s[z + 1..2 * z + 1]) + s[2 * z + 1..]
  {
    assert s == s[..z] + ([s[z]] + s[z + 1..2 * z + 1]) + s[2 * z + 1..];
  }

  lemma EncodeOfLength(codeNum: nat, z: nat, low: nat)
    requires codeNum + 1 == Pow2(z) + low && low < Pow2(z)
    ensures EncodeUe(codeNum) == Zeros(z) + ([true] + FromNat(low, z))
  {
    assert Pow2(z + 1) == 2 * Pow2(z);
    BitLengthOf(codeNum + 1, z);
    LeadingOne(codeNum + 1, z);
  }

  lemma SeRoundTrip(v: int, tail: seq<bool>)
    requires -0x7FFF_FFFF <= v <= 0x7FFF_FFFF
    ensures ReadSe(EncodeUe(CodeNumOf(v)) + tail) == Read(v, tail)
  {
    UeRoundTrip(CodeNumOf(v), tail);
  }
}
