/** Bit strings, most significant bit first, and the numbers they denote. */
module Bits {

  type Byte = b: int | 0 <= b < 256

  function Pow2(n: nat): (p: nat)
    ensures p >= 1
  {
    if n == 0 then 1 else 2 * Pow2(n - 1)
  }

  function BitValue(b: bool): nat {
    if b then 1 else 0
  }

  /** The unsigned number a bit string denotes. */
  function ToNat(s: seq<bool>): nat {
    if s == [] then 0 else 2 * ToNat(s[..|s| - 1]) + BitValue(s[|s| - 1])
  }

  /** The `len` low-order bits of `n`. */
  function FromNat(n: nat, len: nat): (s: seq<bool>)
    ensures |s| == len
  {
    if len == 0 then [] else FromNat(n / 2, len - 1) + [n % 2 == 1]
  }

  function Zeros(n: nat): (s: seq<bool>)
    ensures |s| == n && forall i :: 0 <= i < n ==> !s[i]
  {
    seq(n, _ => false)
  }

  /** The position of the first one bit from `i` on (the length of `s` when there is none). */
  function FirstOne(s: seq<bool>, i: nat): (z: nat)
    requires i <= |s|
    ensures i <= z <= |s|
    ensures forall j :: i <= j < z ==> !s[j]
    ensures z < |s| ==> s[z]
    decreases |s| - i
  {
    if i == |s| || s[i] then i else FirstOne(s, i + 1)
  }

  /** The number of zero bits in front of the first one bit (all of `s` when there is none). */
  function LeadingZeros(s: seq<bool>): (z: nat)
    ensures z <= |s|
    ensures forall i :: 0 <= i < z ==> !s[i]
    ensures z < |s| ==> s[z]
  {
    FirstOne(s, 0)
  }

  function BitLength(n: nat): (k: nat)
    ensures k == 0 <==> n == 0
  {
    if n == 0 then 0 else 1 + BitLength(n / 2)
  }

  /** The eight bits of a byte. */
  ghost function ByteBits(b: Byte): (s: seq<bool>)
    ensures |s| == 8
  {
    FromNatToNat(b, 8);
    assert Pow2(8) == 256;
    var s: seq<bool> :| |s| == 8 && ToNat(s) == b;
    s
  }

  lemma ByteValue(b: Byte)
    ensures ToNat(ByteBits(b)) == b && ByteBits(b) == FromNat(b, 8)
  {
    ToNatFromNat(ByteBits(b));
  }

  /** The bits of a byte sequence, byte by byte. */
  ghost function BytesToBits(bytes: seq<Byte>): (s: seq<bool>)
    ensures |s| == 8 * |bytes|
  {
    if bytes == [] then [] else ByteBits(bytes[0]) + BytesToBits(bytes[1..])
  }

  /** The bytes a bit string of whole bytes packs into. */
  function BitsToBytes(s: seq<bool>): (bytes: seq<Byte>)
    requires |s| % 8 == 0
    ensures 8 * |bytes| == |s|
  {
    if s == [] then [] else
      ToNatBound(s[..8]);
      assert Pow2(8) == 256;
      [ToNat(s[..8])] + BitsToBytes(s[8..])
  }

  lemma Pow2Add(a: nat, b: nat)
    ensures Pow2(a + b) == Pow2(a) * Pow2(b)
  {
    if a == 0 {
    } else {
      Pow2Add(a - 1, b);
    }
  }

  lemma Pow2Monotone(a: nat, b: nat)
    requires a <= b
    ensures Pow2(a) <= Pow2(b)
  {
    if a >= b {
    } else {
      Pow2Monotone(a, b - 1);
    }
  }

  lemma {:induction false} ToNatBound(s: seq<bool>)
    ensures ToNat(s) < Pow2(|s|)
  {
    if s == [] {
    } else {
      ToNatBound(s[..|s| - 1]);
    }
  }

  lemma {:induction false} ToNatConcat(a: seq<bool>, b: seq<bool>)
    ensures ToNat(a + b) == ToNat(a) * Pow2(|b|) + ToNat(b)
  {
    if b == [] {
      assert a + b == a;
    } else {
      var n := |b| - 1;
      ToNatConcat(a, b[..n]);
      assert (a + b)[..|a + b| - 1] == a + b[..n];
      assert ToNat(a) * Pow2(|b|) == 2 * (ToNat(a) * Pow2(n));
    }
  }

  lemma {:induction false} ToNatZeros(n: nat)
    ensures ToNat(Zeros(n)) == 0
  {
    if n == 0 {
    } else {
      assert Zeros(n)[..n - 1] == Zeros(n - 1);
      ToNatZeros(n - 1);
    }
  }

  lemma {:induction false} FromNatToNat(n: nat, len: nat)
    requires n < Pow2(len)
    ensures ToNat(FromNat(n, len)) == n
  {
    if len == 0 {
    } else {
      FromNatToNat(n / 2, len - 1);
      assert FromNat(n, len)[..len - 1] == FromNat(n / 2, len - 1);
    }
  }

  lemma {:induction false} ToNatFromNat(s: seq<bool>)
    ensures FromNat(ToNat(s), |s|) == s
  {
    if s == [] {
    } else {
      var t := s[..|s| - 1];
      ToNatFromNat(t);
      assert ToNat(s) / 2 == ToNat(t);
      assert s == t + [s[|s| - 1]];
    }
  }

  lemma {:induction false} BytesToBitsConcat(a: seq<Byte>, b: seq<Byte>)
    ensures BytesToBits(a + b) == BytesToBits(a) + BytesToBits(b)
  {
    if a == [] {
      assert a + b == b;
    } else {
      BytesToBitsConcat(a[1..], b);
      assert (a + b)[1..] == a[1..] + b;
    }
  }

  lemma {:induction false} PackRoundTrip(s: seq<bool>)
    requires |s| % 8 == 0
    ensures BytesToBits(BitsToBytes(s)) == s
  {
    if s == [] {
    } else {
      assert Pow2(8) == 256;
      ToNatBound(s[..8]);
      ToNatFromNat(s[..8]);
      ByteValue(ToNat(s[..8]));
      PackRoundTrip(s[8..]);
      assert s == s[..8] + s[8..];
    }
  }

  function ShiftLeft(n: nat, k: nat): nat {
    if k == 0 then n else 2 * ShiftLeft(n, k - 1)
  }

  function ShiftRight(n: nat, k: nat): nat {
    if k == 0 then n else ShiftRight(n / 2, k - 1)
  }

  /** `n` masked to its `k` low-order bits. */
  function LowBits(n: nat, k: nat): nat {
    if k == 0 then 0 else 2 * LowBits(n / 2, k - 1) + n % 2
  }

  lemma {:induction false} ShiftLeftAdd(a: nat, b: nat, k: nat)
    ensures ShiftLeft(a, k) + ShiftLeft(b, k) == ShiftLeft(a + b, k)
  {
    if k == 0 {
    } else {
      ShiftLeftAdd(a, b, k - 1);
    }
  }

  lemma {:induction false} ShiftLeftZero(k: nat)
    ensures ShiftLeft(0, k) == 0
  {
    if k == 0 {
    } else {
      ShiftLeftZero(k - 1);
    }
  }

  lemma {:induction false} ShiftLeftByte(a: nat, k: nat)
    ensures ShiftLeft(a, k + 8) == ShiftLeft(256 * a, k)
  {
    if k > 0 {
      ShiftLeftByte(a, k - 1);
    } else {
      assert ShiftLeft(a, 0) == a;
      assert ShiftLeft(a, 1) == 2 * a;
      assert ShiftLeft(a, 2) == 4 * a;
      assert ShiftLeft(a, 3) == 8 * a;
      assert ShiftLeft(a, 4) == 16 * a;
      assert ShiftLeft(a, 6) == 64 * a;
    }
  }

  lemma {:induction false} ShiftRightDrops(s: seq<bool>, k: nat)
    requires k <= |s|
    ensures ShiftRight(ToNat(s), k) == ToNat(s[..|s| - k])
  {
    if k == 0 {
      assert s[..|s|] == s;
    } else {
      var t := s[..|s| - 1];
      assert ToNat(s) / 2 == ToNat(t);
      ShiftRightDrops(t, k - 1);
      assert t[..|t| - (k - 1)] == s[..|s| - k];
    }
  }

  lemma {:induction false} MaskKeeps(s: seq<bool>, k: nat)
    requires k <= |s|
    ensures LowBits(ToNat(s), k) == ToNat(s[|s| - k..])
  {
    if k == 0 {
    } else {
      var t, u := s[..|s| - 1], s[|s| - k..];
      MaskKeeps(t, k - 1);
      assert u[..k - 1] == t[|t| - (k - 1)..] && u[k - 1] == s[|s| - 1];
      assert ToNat(s) / 2 == ToNat(t) && ToNat(s) % 2 == BitValue(s[|s| - 1]);
    }
  }

  /** Shifting right and masking picks a field out of the middle of a bit string. */
  lemma ExtractField(s: seq<bool>, skip: nat, n: nat, rshift: nat)
    requires skip + n + rshift == |s|
    ensures LowBits(ShiftRight(ToNat(s), rshift), n) == ToNat(s[skip..skip + n])
  {
    ShiftRightDrops(s, rshift);
    var t := s[..skip + n];
    assert s[..|s| - rshift] == t;
    MaskKeeps(t, n);
    assert t[|t| - n..] == s[skip..skip + n];
  }

  lemma {:induction false} BitLengthOf(n: nat, k: nat)
    requires Pow2(k) <= n < Pow2(k + 1)
    ensures BitLength(n) == k + 1
  {
    if k > 0 {
      BitLengthOf(n / 2, k - 1);
    } else {
      assert n == 1;
      assert BitLength(1) == 1 + BitLength(0);
    }
  }

  lemma {:induction false} BitLengthBounds(n: nat)
    requires n > 0
    ensures BitLength(n) > 0 && Pow2(BitLength(n) - 1) <= n < Pow2(BitLength(n))
  {
    if n == 1 {
      assert BitLength(1) == 1 + BitLength(0);
      assert Pow2(1) == 2 * Pow2(0);
    } else {
      BitLengthBounds(n / 2);
    }
  }

  lemma OneAfterZeros(z: nat, w: seq<bool>)
    requires w == Zeros(z) + [true]
    ensures ToNat(w) == 1
  {
    assert w[..z] == Zeros(z);
    ToNatZeros(z);
  }

  /** Zeros in front do not change the number, a one bit in front of `t` adds its weight. */
  lemma ToNatOneAfterZeros(z: nat, t: seq<bool>)
    ensures ToNat(Zeros(z) + [true] + t) == Pow2(|t|) + ToNat(t)
  {
    hide ToNat, Pow2, Zeros;
    var w := Zeros(z) + [true];
    OneAfterZeros(z, w);
    ToNatConcat(w, t);
  }

  /** A count-leading-zeros instruction on the number finds the first one bit of the string. */
  lemma LeadingZerosByLength(s: seq<bool>)
    ensures ToNat(s) == 0 <==> LeadingZeros(s) == |s|
    ensures LeadingZeros(s) == |s| - BitLength(ToNat(s))
  {
    var z := LeadingZeros(s);
    SplitAtOne(s);
    if z == |s| {
      ToNatZeros(z);
    } else {
      BitLengthAfterZeros(z, s[z + 1..]);
    }
  }

  lemma SplitAtOne(s: seq<bool>)
    ensures var z := LeadingZeros(s); s == if z == |s| then Zeros(z) else Zeros(z) + [true] + s[z + 1..]
  {
    var z := LeadingZeros(s);
    assert s[..z] == Zeros(z);
    assert z < |s| ==> s == s[..z] + [s[z]] + s[z + 1..];
  }

  lemma BitLengthAfterZeros(z: nat, t: seq<bool>)
    ensures ToNat(Zeros(z) + [true] + t) > 0
    ensures BitLength(ToNat(Zeros(z) + [true] + t)) == |t| + 1
  {
    ToNatOneAfterZeros(z, t);
    ToNatBound(t);
    assert Pow2(|t| + 1) == 2 * Pow2(|t|);
    var n := ToNat(Zeros(z) + [true] + t);
    BitLengthOf(n, |t|);
  }

  ghost predicate ZeroRun(s: seq<bool>, n: nat) {
    n <= |s| && forall i :: 0 <= i < n ==> !s[i]
  }

  lemma RunEnds(s: seq<bool>, n: nat)
    requires ZeroRun(s, n) && n < |s| && s[n]
    ensures LeadingZeros(s) == n
  {
  }

  lemma LeadingZerosOf(z: nat, t: seq<bool>)
    ensures LeadingZeros(Zeros(z) + [true] + t) == z
  {
    RunEnds(Zeros(z) + [true] + t, z);
  }
}
