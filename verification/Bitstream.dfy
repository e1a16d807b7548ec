/**
 The NAL bit reader: u(n), ue(v) and se(v) read straight from escaped bytes, with one cursor that three
 code paths share. Every method is specified on the bits that remain once the emulation prevention bytes
 are dropped.
 */
module Bitstream {
  import opened Bits
  import opened Nal
  import G = Golomb

  /** What a call gives: a value, or the end of the process with an exit status. */
  datatype Outcome = Value(v: int) | Exit(status: nat)

  /** Bytes of readable memory behind the data: the range check does not count escape bytes. */
  const SLACK := 8

  function CountLeadingZeros8(b: Byte): (z: nat)
    ensures z <= 8
  {
    ByteLength(b);
    8 - BitLength(b)
  }

  lemma ByteLength(b: Byte)
    ensures BitLength(b) <= 8
  {
    ByteValue(b);
    LeadingZerosByLength(ByteBits(b));
  }

  class Reader {
    const data: seq<Byte>
    const bitstreamEnd: nat
    var dataOffset: nat
    var bitShift: nat

    ghost predicate Valid()
      reads this
    {
      && bitstreamEnd + SLACK <= |data| < 0xFFFF_FFF0
      && bitShift < 8
      && dataOffset <= bitstreamEnd + 5
      && (bitShift != 0 ==> dataOffset <= bitstreamEnd + 4 && !Escaped(data, bitstreamEnd, dataOffset))
    }

    /** The RBSP bits still to be read, those in the memory behind the data included. */
    ghost function Pending(): seq<bool>
      requires Valid()
      reads this
    {
      PendingAt(data, bitstreamEnd, dataOffset, bitShift)
    }

    /** The RBSP bits of the data itself still to be read. */
    ghost function Inside(): seq<bool>
      requires Valid()
      reads this
    {
      WithoutLast(Pending(), |BitsFrom(data, bitstreamEnd, bitstreamEnd)|)
    }

    constructor (memory: seq<Byte>, size: nat)
      requires size + SLACK <= |memory| < 0xFFFF_FFF0
      ensures Valid() && data == memory && bitstreamEnd == size && dataOffset == 0 && bitShift == 0
    {
      data := memory;
      bitstreamEnd := size;
      dataOffset, bitShift := 0, 0;
    }

    /** The start-code scan skips the bytes in front of the RBSP. */
    method IncOffset(delta: nat)
      requires Valid() && bitShift == 0 && dataOffset + delta <= bitstreamEnd
      modifies this`dataOffset
      ensures Valid() && dataOffset == old(dataOffset) + delta
    {
      dataOffset := dataOffset + delta;
    }

    method IncOffsetBits(bits: nat)
      modifies this`dataOffset, this`bitShift
      ensures dataOffset == NextOffset(old(dataOffset), old(bitShift), bits)
      ensures bitShift == NextShift(old(bitShift), bits)
    {
      dataOffset := dataOffset + (bitShift + bits) / 8;
      bitShift := (bitShift + bits) % 8;
    }

    method EmulationEscape(offset: nat, byte: Byte, incOffset: bool) returns (b: Byte, escaped: bool)
      requires offset + 1 < |data| && byte == data[offset]
      modifies this`dataOffset
      ensures FirstKept(data, bitstreamEnd, offset) == if escaped then offset + 1 else offset
      ensures escaped <==> byte == 3 && 2 <= offset != bitstreamEnd && data[offset - 2] == 0 && data[offset - 1] == 0
                           && data[offset + 1] <= 3
      ensures b == data[FirstKept(data, bitstreamEnd, offset)]
      ensures dataOffset == old(dataOffset) + if escaped && incOffset then 1 else 0
    {
      if byte != 3 || offset < 2 || offset == bitstreamEnd {
        return byte, false;
      }
      if data[offset - 2] == 0 && data[offset - 1] == 0 && data[offset + 1] <= 3 {
        if incOffset {
          dataOffset := dataOffset + 1;
        }
        return data[offset + 1], true;
      }
      return byte, false;
    }

    method ReadU8NoInc() returns (r: Outcome)
      requires Valid() && bitShift == 0
      modifies this`dataOffset
      ensures r.Value? <==> old(dataOffset) < bitstreamEnd
      ensures r.Exit? ==> r.status == 0
      ensures r.Value? ==> Valid() && dataOffset == FirstKept(data, bitstreamEnd, old(dataOffset))
                           && !Escaped(data, bitstreamEnd, dataOffset)
      ensures r.Value? ==> 0 <= r.v < 256 && Pending() == old(Pending())
                           && Pending() == ByteBits(r.v) + PendingAt(data, bitstreamEnd, dataOffset + 1, 0)
    {
      if dataOffset >= bitstreamEnd {
        return Exit(0);
      }
      AlignedByte(data, bitstreamEnd, dataOffset);
      var b, _ := EmulationEscape(dataOffset, data[dataOffset], true);
      r := Value(b);
    }

    /** One byte of a field read: escape bytes are skipped, and counted by the cursor when asked to. */
    method CollectByte(offset: nat, left: nat, ret: nat, incOffset: bool, ghost start: nat, ghost k: nat)
      returns (offset': nat, ret': nat)
      requires Gathered(data, bitstreamEnd, start, k, left + 1, offset, ret) && offset + 1 < |data|
      modifies this`dataOffset
      ensures offset' == FirstKept(data, bitstreamEnd, offset) + 1
      ensures Gathered(data, bitstreamEnd, start, k + 1, left, offset', ret')
      ensures dataOffset == old(dataOffset) + if incOffset then offset' - offset - 1 else 0
    {
      var byte, escaped := EmulationEscape(offset, data[offset], incOffset);
      offset' := offset + if escaped then 2 else 1;
      ret' := ret + ShiftLeft(byte, 8 * left);
      GatherStep(data, bitstreamEnd, start, k, left, offset, ret, k + 1, offset', ret');
    }

    /** The byte loop of a field read: big-endian, escape bytes skipped, the cursor moved over those it counts. */
    method CollectBytes(count: nat, incOffset: bool) returns (ret: nat)
      requires Valid() && 1 <= count && dataOffset + 2 * count < |data|
      modifies this`dataOffset
      ensures var p := PositionAfter(data, bitstreamEnd, old(dataOffset), count);
              && Gathered(data, bitstreamEnd, old(dataOffset), count, 0, p, ret)
              && dataOffset == if incOffset then p - count else FirstKept(data, bitstreamEnd, old(dataOffset))
    {
      hide ShiftLeft, Collected, ToNat, BitsFrom, Escaped;
      ghost var start, k: nat := dataOffset, 0;
      var offset: nat, escapeIncOffset, left: nat := dataOffset, false, count;
      ret := 0;
      CollectStart(data, bitstreamEnd, 8 * left, start);
      while left > 0
        invariant left + k == count && escapeIncOffset == (k > 0)
        invariant Gathered(data, bitstreamEnd, start, k, left, offset, ret)
        invariant incOffset ==> dataOffset == offset - k
        invariant !incOffset ==> dataOffset == if k > 0 then FirstKept(data, bitstreamEnd, start) else start
      {
        left := left - 1;
        offset, ret := CollectByte(offset, left, ret, !escapeIncOffset || incOffset, start, k);
        escapeIncOffset := true;
        k := k + 1;
      }
    }

    /** Collects the bytes the field lies in, then shifts and masks. */
    method ExtractBits(bits: nat, bytesToRead: nat, rshift: nat, incOffset: bool, ghost k: nat, ghost q: nat)
      returns (v: nat)
      requires Valid() && 1 <= bits <= 32 && k == bytesToRead + 1 && k == FieldBytes(bitShift, bits)
      requires rshift == 8 * k - (bitShift + bits) && dataOffset + 2 * k < |data|
      requires q == PositionAfter(data, bitstreamEnd, dataOffset, k)
      modifies this`dataOffset
      ensures bits <= |old(Pending())| && v == ToNat(old(Pending())[..bits])
      ensures old(dataOffset) + k <= q <= old(dataOffset) + 2 * k
      ensures dataOffset == if incOffset then q - k else FirstKept(data, bitstreamEnd, old(dataOffset))
      ensures FieldEnd(data, bitstreamEnd, q - k, bitShift, bits, old(Pending()))
    {
      hide LowBits, ShiftRight, ToNat, FieldEnd, Collected;
      ghost var start := dataOffset;
      var ret := CollectBytes(bytesToRead + 1, incOffset);
      ghost var p: nat := q - k;
      FieldRead(data, bitstreamEnd, start, k, p, q, ret, bitShift, bits, rshift);
      v := LowBits(ShiftRight(ret, rshift), bits);
    }

    /** A field of up to 32 bits at any place in a byte. */
    method ReadBits(bits: nat, incOffset: bool) returns (r: Outcome)
      requires Valid() && 1 <= bits <= 32
      requires !incOffset ==> dataOffset + 2 * FieldBytes(bitShift, bits) < |data|
      modifies this`dataOffset
      ensures r.Value? <==> (incOffset ==> old(dataOffset) + FieldBytes(bitShift, bits) <= bitstreamEnd)
      ensures r.Exit? ==> r.status == 0
      ensures r.Value? ==> bits <= |old(Pending())| && r.v == ToNat(old(Pending())[..bits])
      ensures r.Value? && incOffset ==>
                && FieldEnd(data, bitstreamEnd, dataOffset, bitShift, bits, old(Pending()))
                && dataOffset <= old(dataOffset) + FieldBytes(bitShift, bits)
      ensures r.Value? && !incOffset ==> dataOffset == FirstKept(data, bitstreamEnd, old(dataOffset))
    {
      ghost var start, k := dataOffset, FieldBytes(bitShift, bits);
      var bytesToRead := (bits + bitShift - 1) / 8;
      RoundUp(bits + bitShift, bytesToRead, k);
      var rshift: nat := 8 * (bytesToRead + 1) - (bitShift + bits);
      if incOffset && dataOffset + bytesToRead >= bitstreamEnd {
        return Exit(0);
      }
      var v := ExtractBits(bits, bytesToRead, rshift, incOffset, k, PositionAfter(data, bitstreamEnd, start, k));
      r := Value(v);
    }

    /** Table 7.2: u(n). It refuses exactly when the raw bytes left are fewer than the field needs. */
    method ReadU(bits: nat) returns (r: Outcome)
      requires Valid() && 1 <= bits <= 32
      modifies this`dataOffset, this`bitShift
      ensures r.Value? <==> old(dataOffset) + FieldBytes(old(bitShift), bits) <= bitstreamEnd
      ensures r.Exit? ==> r.status == 0
      ensures r.Value? ==> Valid() && bits <= |old(Pending())| && r.v == ToNat(old(Pending())[..bits])
      ensures r.Value? ==> Pending() == old(Pending())[bits..]
      ensures r.Value? ==> bitShift == NextShift(old(bitShift), bits)
    {
      ghost var before := Pending();
      if bitShift == 0 && bits == 8 {
        r := ReadU8NoInc();
        if r.Exit? {
          return;
        }
        TakeByte(r.v, before[8..]);
        assert before[8..] == PendingAt(data, bitstreamEnd, dataOffset + 1, 0);
        dataOffset := dataOffset + 1;
      } else {
        r := ReadBits(bits, true);
        if r.Exit? {
          return;
        }
        assert NextOffset(0, bitShift, bits) <= 4;
        IncOffsetBits(bits);
        assert CursorAt(data, bitstreamEnd, dataOffset, bitShift, bits, before);
      }
    }

    /**
     * A peek. Only that of an aligned byte checks the range; any other one reads on behind the data, as far as memory
     * can be read. The cursor may come to stand behind an escape byte, in front of the same bits.
     */
    method ReadUNoInc(bits: nat) returns (r: Outcome)
      requires Valid() && 1 <= bits <= 32 && dataOffset + 2 * FieldBytes(bitShift, bits) < |data|
      modifies this`dataOffset
      ensures r.Value? <==> !(bitShift == 0 && bits == 8) || old(dataOffset) < bitstreamEnd
      ensures r.Exit? ==> r.status == 0
      ensures r.Value? ==> bits <= |old(Pending())| && r.v == ToNat(old(Pending())[..bits])
      ensures r.Value? ==> dataOffset == FirstKept(data, bitstreamEnd, old(dataOffset))
      ensures r.Value? && old(dataOffset) <= bitstreamEnd + 4 ==> Valid() && Pending() == old(Pending())
    {
      ByteAtHand(data, bitstreamEnd, dataOffset, bitShift);
      if bitShift == 0 && bits == 8 {
        r := ReadU8NoInc();
        if r.Value? {
          TakeByte(r.v, PendingAt(data, bitstreamEnd, dataOffset + 1, 0));
        }
      } else {
        r := ReadBits(bits, false);
      }
    }

    /** Moves to the next byte of the RBSP. */
    method ReadRbspAlign() returns (r: Outcome)
      requires Valid()
      modifies this`dataOffset, this`bitShift
      ensures old(bitShift) == 0 ==> r == Value(0) && dataOffset == old(dataOffset)
      ensures old(bitShift) != 0 ==> (r.Value? <==> old(dataOffset) < bitstreamEnd)
      ensures r.Value? ==> Valid() && bitShift == 0
      ensures var n := if old(bitShift) == 0 then 0 else 8 - old(bitShift);
              r.Value? ==>
                n <= |old(Pending())| && r.v == ToNat(old(Pending())[..n]) && Pending() == old(Pending())[n..]
    {
      if bitShift == 0 {
        TakeNone(Pending());
        return Value(0);
      }
      r := ReadU(8 - bitShift);
    }

    /** Passes `zeros` bits of the byte at hand and the one bit behind them. */
    method PassOneBit(zeros: nat)
      requires Valid() && bitShift + zeros < 8
      requires dataOffset <= bitstreamEnd + 4 && !Escaped(data, bitstreamEnd, dataOffset)
      modifies this`dataOffset, this`bitShift
      ensures Valid() && CursorAt(data, bitstreamEnd, dataOffset, bitShift, zeros + 1, old(Pending()))
    {
      ghost var off, shift := dataOffset, bitShift;
      bitShift := bitShift + zeros;
      IncOffsetBits(1);
      PassBits(data, bitstreamEnd, off, shift, zeros + 1, dataOffset, bitShift);
    }

    /** The scan of the bits left in a byte that is partly read. */
    method SkipZerosInByte() returns (zeros: nat, found: bool)
      requires Valid() && bitShift != 0
      modifies this`dataOffset, this`bitShift
      ensures Valid() && zeros <= 8 - old(bitShift)
      ensures found ==>
                && LeadingZeros(old(Pending())) == zeros < |old(Pending())|
                && Pending() == old(Pending())[zeros + 1..]
      ensures !found ==>
                && bitShift == 0 && ZeroRun(old(Pending()), zeros) && Pending() == old(Pending())[zeros..]
    {
      ghost var before, off, shift := Pending(), dataOffset, bitShift;
      ByteAtHand(data, bitstreamEnd, dataOffset, bitShift);
      var head := ReadBits(8 - bitShift, false);
      ZerosOfField(before, 8 - bitShift, bitShift, head.v);
      if head.v != 0 {
        zeros := CountLeadingZeros8(head.v) - bitShift;
        PassOneBit(zeros);
        return zeros, true;
      }
      zeros := 8 - bitShift;
      IncOffsetBits(zeros);
      PassBits(data, bitstreamEnd, off, shift, zeros, dataOffset, bitShift);
      return zeros, false;
    }

    /** One byte of the scan: `count` zeros of whole bytes are counted so far. */
    method ScanByte(count: nat, ghost bytes: nat) returns (r: Outcome, zeros: nat)
      requires Valid() && bitShift == 0 && count == 8 * bytes && bytes < 32
      modifies this`dataOffset, this`bitShift
      ensures r.Exit? ==> r.status == 0 && |old(Pending())| <= |BitsFrom(data, bitstreamEnd, bitstreamEnd)|
      ensures r.Value? ==> Valid() && zeros <= 8 && r.v == (count + zeros) % 256
      ensures r.Value? && zeros == 8 ==>
                && bitShift == 0 && ZeroRun(old(Pending()), 8) && Pending() == old(Pending())[8..]
                && dataOffset > old(dataOffset)
      ensures r.Value? && zeros < 8 ==>
                && LeadingZeros(old(Pending())) == zeros < |old(Pending())| && Pending() == old(Pending())[zeros + 1..]
    {
      hide LeadingZeros, CountLeadingZeros8, BitsFrom, ByteBits, Escaped;
      BehindData(data, bitstreamEnd, dataOffset);
      ghost var before := Pending();
      var next := ReadU8NoInc();
      if next.Exit? {
        return next, 0;
      }
      zeros := if next.v != 0 then CountLeadingZeros8(next.v) else 8;
      ByteZeros(before, next.v, PendingAt(data, bitstreamEnd, dataOffset + 1, 0));
      var leadingZeros := AddU8(count, zeros);
      if next.v != 0 {
        LowThree(bytes, zeros, leadingZeros);
        PassOneBit(leadingZeros % 8);
      } else {
        dataOffset := dataOffset + 1;
      }
      r := Value(leadingZeros);
    }

    /** The byte-wise scan; `align` zeros are already counted, and the count is eight bits wide. */
    method SkipZeroBytes(align: nat) returns (r: Outcome)
      requires Valid() && bitShift == 0 && align < 8
      modifies this`dataOffset, this`bitShift
      ensures r.Value? ==>
                && Valid() && LeadingZeros(old(Pending())) < |old(Pending())|
                && r.v == (LeadingZeros(old(Pending())) + align) % 256
                && Pending() == old(Pending())[LeadingZeros(old(Pending())) + 1..]
      ensures r.Exit? ==> r.status == 0 && LeadingZeros(old(Inside())) == |old(Inside())|
    {
      hide LeadingZeros, BitsFrom, PendingAt, Escaped, WithoutLast;
      ghost var before, skipped: nat, beyond := Pending(), 0, |BitsFrom(data, bitstreamEnd, bitstreamEnd)|;
      ghost var bytes: nat, wraps: nat := 0, 0;
      var leadingZeros: nat := 0;
      assert before[0..] == before;
      while true
        invariant Valid() && bitShift == 0 && Scanned(before, Pending(), skipped, leadingZeros, bytes, wraps)
        decreases bitstreamEnd + 6 - dataOffset
      {
        ghost var pending := Pending();
        var next, zeros := ScanByte(leadingZeros, bytes);
        if next.Exit? {
          AllZeros(before, skipped, beyond);
          return next;
        }
        if zeros < 8 {
          ZerosInFront(before, skipped, pending);
          leadingZeros := AddAlign(next.v, align, LeadingZeros(before) + align, wraps);
          return Value(leadingZeros);
        }
        skipped, bytes, wraps := ScannedMore(before, pending, Pending(), skipped, leadingZeros, next.v, bytes, wraps);
        leadingZeros := next.v;
      }
    }

    /** Counts zero bits up to and past the first one bit; the count is eight bits wide. */
    method SkipLeadingZeros() returns (r: Outcome)
      requires Valid()
      modifies this`dataOffset, this`bitShift
      ensures r.Value? ==>
                && Valid() && LeadingZeros(old(Pending())) < |old(Pending())|
                && r.v == LeadingZeros(old(Pending())) % 256
                && Pending() == old(Pending())[LeadingZeros(old(Pending())) + 1..]
      ensures r.Exit? ==> r.status == 0 && LeadingZeros(old(Inside())) == |old(Inside())|
    {
      hide LeadingZeros, BitsFrom, PendingAt, Escaped, WithoutLast;
      ghost var before, beyond := Pending(), |BitsFrom(data, bitstreamEnd, bitstreamEnd)|;
      var leadingZerosAlign: nat := 0;
      if bitShift != 0 {
        var found;
        leadingZerosAlign, found := SkipZerosInByte();
        if found {
          assert leadingZerosAlign % 256 == leadingZerosAlign;
          return Value(leadingZerosAlign);
        }
      } else {
        assert before[0..] == before;
      }
      ghost var z, tail := leadingZerosAlign, Pending();
      r := SkipZeroBytes(leadingZerosAlign);
      if r.Value? {
        ZerosInFront(before, z, tail);
      } else {
        ZerosThroughout(before, z, tail, beyond);
      }
    }

    /** The field behind the zeros and the one of a ue(v) code; it may be empty. */
    method ReadSuffix(bits: nat) returns (r: Outcome)
      requires Valid() && bits <= 31
      modifies this`dataOffset, this`bitShift
      ensures r.Value? ==> Valid() && bits <= |old(Pending())| && r.v == ToNat(old(Pending())[..bits])
      ensures r.Value? ==> Pending() == old(Pending())[bits..]
      ensures r.Exit? ==> r.status == 0 && bits > |old(Inside())|
    {
      if bits == 0 {
        TakeNone(Pending());
        return Value(0);
      }
      InsideIsRaw(data, bitstreamEnd, dataOffset, bitShift, bits);
      r := ReadU(bits);
    }

    /** Section 9.1: ue(v), with the count of leading zeros cut to eight bits. */
    method ReadUe() returns (r: Outcome)
      requires Valid()
      modifies this`dataOffset, this`bitShift
      ensures r.Value? ==> Valid() && NarrowUe(old(Pending())) == G.Read(r.v, Pending())
      ensures r.Exit? && r.status != 0 ==> NarrowUe(old(Pending())) == G.NoCode
      ensures r.Exit? ==> !G.ReadUe(old(Inside())).Read?
    {
      ghost var before, m := Pending(), |BitsFrom(data, bitstreamEnd, bitstreamEnd)|;
      ZerosInside(before, m);
      var leadingZeros := SkipLeadingZeros();
      if leadingZeros.Exit? {
        return leadingZeros;
      }
      if leadingZeros.v > 31 {
        return Exit(1);
      }
      ghost var tail := Pending();
      r := ReadSuffix(leadingZeros.v);
      if r.Value? {
        UeFields(before, leadingZeros.v, tail, r.v, Pending());
        r := Value(Pow2(leadingZeros.v) - 1 + r.v);
      }
    }

    /** Section 9.1.1: se(v). */
    method ReadSe() returns (r: Outcome)
      requires Valid()
      modifies this`dataOffset, this`bitShift
      ensures r.Value? ==> Valid() && NarrowSe(old(Pending())) == G.Read(r.v, Pending())
      ensures r.Exit? && r.status != 0 ==> NarrowSe(old(Pending())) == G.NoCode
      ensures r.Exit? ==> !G.ReadSe(old(Inside())).Read?
    {
      r := ReadUe();
      if r.Value? {
        var val := if r.v > 1 then r.v / 2 + r.v % 2 else r.v;
        r := Value(if r.v % 2 == 1 then val else -val);
      }
    }
  }

  lemma LowThree(bytes: nat, zeros: nat, n: nat)
    requires zeros < 8 && n == 8 * bytes + zeros
    ensures n % 8 == zeros
  {
  }

  lemma ZerosInFront(s: seq<bool>, z: nat, tail: seq<bool>)
    requires ZeroRun(s, z) && tail == s[z..] && LeadingZeros(tail) < |tail|
    ensures LeadingZeros(s) == z + LeadingZeros(tail) < |s|
    ensures tail[LeadingZeros(tail) + 1..] == s[LeadingZeros(s) + 1..]
  {
    var k := LeadingZeros(tail);
    forall i | z <= i < z + k ensures !s[i] {
      assert s[i] == tail[i - z];
    }
    assert s[z + k] == tail[k];
    RunEnds(s, z + k);
    DropTwice(s, z, LeadingZeros(tail) + 1, LeadingZeros(s) + 1);
  }

  lemma ZerosThroughout(s: seq<bool>, z: nat, tail: seq<bool>, m: nat)
    requires ZeroRun(s, z) && tail == s[z..] && LeadingZeros(WithoutLast(tail, m)) == |WithoutLast(tail, m)|
    ensures LeadingZeros(WithoutLast(s, m)) == |WithoutLast(s, m)|
  {
    var a, b := WithoutLast(s, m), WithoutLast(tail, m);
    forall i | 0 <= i < |a| ensures !a[i] {
      if i >= z {
        assert a[i] == tail[i - z] == b[i - z];
      }
    }
  }

  /** The sum of two eight-bit numbers, as C truncates it. */
  method AddU8(a: nat, b: nat) returns (c: nat)
    requires a < 256 && b < 256
    ensures c == (a + b) % 256 == if a + b < 256 then a + b else a + b - 256
  {
    c := (a + b) % 256;
  }

  /** The eight-bit sum of `n` and `m` is short of the sum by a multiple of 256. */
  lemma EightBitSum(n: nat, m: nat, sum: nat, q: int)
    requires sum == n + m + 256 * q
    ensures sum % 256 == (n + m) % 256
  {
  }

  /** The scan has passed whole bytes of zeros, and has counted them in eight bits. */
  ghost predicate Scanned(before: seq<bool>, pending: seq<bool>, skipped: nat, count: nat, bytes: nat, wraps: nat) {
    && ZeroRun(before, skipped) && pending == before[skipped..]
    && count == 8 * bytes && bytes < 32 && skipped == count + 256 * wraps
  }

  lemma ScannedMore(before: seq<bool>, pending: seq<bool>, rest: seq<bool>, skipped: nat, count: nat, count': nat,
                    bytes: nat, wraps: nat)
    returns (skipped': nat, bytes': nat, wraps': nat)
    requires Scanned(before, pending, skipped, count, bytes, wraps) && ZeroRun(pending, 8) && rest == pending[8..]
    requires count' == (count + 8) % 256
    ensures Scanned(before, rest, skipped', count', bytes', wraps')
  {
    RunOn(before, skipped, pending);
    skipped' := skipped + 8;
    bytes', wraps' := if bytes == 31 then 0 else bytes + 1, if bytes == 31 then wraps + 1 else wraps;
  }

  method AddAlign(count: nat, align: nat, ghost total: nat, ghost wraps: nat) returns (c: nat)
    requires count < 256 && align < 256 && total == count + align + 256 * wraps
    ensures c == total % 256
  {
    EightBitSum(count, align, total, wraps);
    c := AddU8(count, align);
  }

  lemma AllZeros(s: seq<bool>, n: nat, m: nat)
    requires ZeroRun(s, n) && |s| - n <= m
    ensures LeadingZeros(WithoutLast(s, m)) == |WithoutLast(s, m)|
  {
  }

  lemma TakeNone(s: seq<bool>)
    ensures ToNat(s[..0]) == 0 && s[0..] == s
  {
  }

  /** The zeros in front of a field, by a count-leading-zeros instruction on its value. */
  lemma ZerosOfField(s: seq<bool>, n: nat, shift: nat, value: int)
    requires n <= |s| && n + shift == 8 && value == ToNat(s[..n])
    ensures 0 <= value < 256
    ensures value == 0 ==> ZeroRun(s, n)
    ensures value != 0 ==> shift <= CountLeadingZeros8(value) < 8
                           && LeadingZeros(s) == CountLeadingZeros8(value) - shift
  {
    var t := s[..n];
    LeadingZerosByLength(t);
    ToNatBound(t);
    Pow2Monotone(n, 8);
    assert Pow2(8) == 256;
    assert forall i :: 0 <= i < n ==> t[i] == s[i];
    if value != 0 {
      RunEnds(s, LeadingZeros(t));
    }
  }

  /** ue(v) as read with an eight-bit count of leading zeros. */
  function NarrowUe(s: seq<bool>): G.Read {
    var z := LeadingZeros(s);
    var c := z % 256;
    if z == |s| then G.EndOfBits
    else if c > 31 then G.NoCode
    else if z + 1 + c > |s| then G.EndOfBits
    else G.Read(Pow2(c) - 1 + ToNat(s[z + 1..][..c]), s[z + 1..][c..])
  }

  /** The narrow count reads what section 9.1 reads exactly when it does not wrap to a legal length. */
  lemma NarrowUeIsUe(s: seq<bool>)
    ensures NarrowUe(s) == G.ReadUe(s)
            <==> LeadingZeros(s) == |s| || LeadingZeros(s) < 256 || LeadingZeros(s) % 256 > 31
  {
    var z := LeadingZeros(s);
    if z < 32 && 2 * z + 1 <= |s| {
      UeSlices(s, |s|, z + 1, 2 * z + 1, z);
      assert s[..|s|] == s && s[z + 1..][z..][..|s| - (2 * z + 1)] == s[z + 1..][z..];
    }
  }

  /** 256 zero bits and a one are read as the code number 0, where section 9.1 has no code. */
  lemma WrappedCount()
    ensures var s := Zeros(256) + [true]; G.ReadUe(s) == G.NoCode && NarrowUe(s) == G.Read(0, [])
  {
    var s := Zeros(256) + [true];
    assert s + [] == s;
    LeadingZerosOf(256, []);
    assert s[257..] == [] && ToNat([]) == 0;
  }

  function NarrowSe(s: seq<bool>): G.Read {
    match NarrowUe(s)
    case Read(v, rest) => G.Read(if v >= 0 then G.SignedOf(v) else 0, rest)
    case EndOfBits => G.EndOfBits
    case NoCode => G.NoCode
  }

  lemma UeFields(s: seq<bool>, c: nat, tail: seq<bool>, val: nat, rest: seq<bool>)
    requires LeadingZeros(s) < |s| && c == LeadingZeros(s) % 256 <= 31 && tail == s[LeadingZeros(s) + 1..]
    requires c <= |tail| && val == ToNat(tail[..c]) && rest == tail[c..]
    ensures NarrowUe(s) == G.Read(Pow2(c) - 1 + val, rest)
  {
  }

  /** A code inside the data has its zeros, its one and room for its field inside the data. */
  lemma ZerosInside(s: seq<bool>, m: nat)
    ensures var t, z := WithoutLast(s, m), LeadingZeros(s);
            G.ReadUe(t).Read? ==> z == LeadingZeros(t) <= 31 && 2 * z + 1 <= |t| && z <= |WithoutLast(s[z + 1..], m)|
  {
    var t := WithoutLast(s, m);
    if LeadingZeros(t) < |t| {
      RunEnds(s, LeadingZeros(t));
    }
  }

  /** What section 9.1 reads from the data is what the reader reads from the data and the memory behind it. */
  lemma UeInside(s: seq<bool>, m: nat)
    requires G.ReadUe(WithoutLast(s, m)).Read?
    ensures NarrowUe(s).Read? && G.ReadUe(WithoutLast(s, m))
            == G.Read(NarrowUe(s).value, WithoutLast(NarrowUe(s).rest, m))
    ensures |NarrowUe(s).rest| >= m
  {
    ZerosInside(s, m);
    var t, z := WithoutLast(s, m), LeadingZeros(s);
    UeSlices(s, |t|, z + 1, 2 * z + 1, z);
    UeFields(s, z, s[z + 1..], ToNat(s[z + 1..][..z]), s[z + 1..][z..]);
  }

  lemma UeSlices(s: seq<bool>, n: nat, a: nat, b: nat, k: nat)
    requires a + k == b <= n <= |s|
    ensures s[a..][..k] == s[..n][a..b] && |s[a..][k..]| >= |s| - n
    ensures s[a..][k..][..n - b] == s[..n][b..]
  {
  }

  /** One byte of zeros, or the one bit in it. */
  lemma ByteZeros(s: seq<bool>, byte: Byte, rest: seq<bool>)
    requires s == ByteBits(byte) + rest
    ensures byte == 0 ==> ZeroRun(s, 8) && s[8..] == rest
    ensures byte != 0 ==> CountLeadingZeros8(byte) < 8 && LeadingZeros(s) == CountLeadingZeros8(byte)
  {
    var b := ByteBits(byte);
    ByteValue(byte);
    LeadingZerosByLength(b);
    assert s[..8] == b;
    assert forall i :: 0 <= i < 8 ==> s[i] == s[..8][i];
    if byte != 0 {
      RunEnds(s, CountLeadingZeros8(byte));
    }
  }

  lemma RunOn(s: seq<bool>, n: nat, tail: seq<bool>)
    requires ZeroRun(s, n) && tail == s[n..] && ZeroRun(tail, 8)
    ensures ZeroRun(s, n + 8) && tail[8..] == s[n + 8..]
  {
    forall i | n <= i < n + 8 ensures !s[i] {
      assert s[i] == tail[i - n];
    }
    DropTwice(s, n, 8, n + 8);
  }

  lemma RoundUp(n: nat, q: nat, k: nat)
    requires n > 0 && q == (n - 1) / 8 && k == (n + 7) / 8
    ensures k == q + 1 && n <= 8 * k
  {
  }

  /** The number of bytes a field of `bits` bits lies in when it starts at bit `shift` of a byte. */
  function FieldBytes(shift: nat, bits: nat): nat {
    (shift + bits + 7) / 8
  }

  function WithoutLast(s: seq<bool>, n: nat): seq<bool> {
    if n <= |s| then s[..|s| - n] else []
  }

  /** The bits of the bytes from `p` on that are not escape bytes. */
  ghost function BitsFrom(mem: seq<Byte>, end: nat, p: nat): seq<bool>
    decreases |mem| - p
  {
    if p >= |mem| then []
    else if Escaped(mem, end, p) then BitsFrom(mem, end, p + 1)
    else ByteBits(mem[p]) + BitsFrom(mem, end, p + 1)
  }

  /** The bits to be read from byte offset `off` and bit `shift` on. */
  ghost function PendingAt(mem: seq<Byte>, end: nat, off: nat, shift: nat): seq<bool> {
    var s := BitsFrom(mem, end, off);
    if shift <= |s| then s[shift..] else []
  }

  /** The cursor `off`, `shift` is where reading `bits` bits of `before` leads. */
  ghost predicate CursorAt(mem: seq<Byte>, end: nat, off: nat, shift: nat, bits: nat, before: seq<bool>) {
    && bits <= |before|
    && PendingAt(mem, end, off, shift) == before[bits..]
    && (shift != 0 ==> !Escaped(mem, end, off))
  }

  /** Adding `bits` to the bit position `off`, `shift` is such a move. */
  ghost predicate FieldEnd(mem: seq<Byte>, end: nat, off: nat, shift: nat, bits: nat, before: seq<bool>) {
    CursorAt(mem, end, NextOffset(off, shift, bits), NextShift(shift, bits), bits, before)
  }

  /** The bit position `off`, `shift` and `bits` bits on. */
  function NextOffset(off: nat, shift: nat, bits: nat): nat {
    off + (shift + bits) / 8
  }

  function NextShift(shift: nat, bits: nat): nat {
    (shift + bits) % 8
  }

  /** The raw position of the first byte from `p` on that is not an escape byte. */
  function FirstKept(mem: seq<Byte>, end: nat, p: nat): nat {
    if Escaped(mem, end, p) then p + 1 else p
  }

  /** The raw position behind `k` such bytes. */
  function PositionAfter(mem: seq<Byte>, end: nat, p: nat, k: nat): nat {
    if k == 0 then p else FirstKept(mem, end, PositionAfter(mem, end, p, k - 1)) + 1
  }

  /** `p` is the raw position behind `n` bits, whole bytes, of the bits `all`. */
  ghost predicate AfterBits(mem: seq<Byte>, end: nat, all: seq<bool>, p: nat, n: nat) {
    && n <= |all| && BitsFrom(mem, end, p) == all[n..]
    && (n > 0 ==> n >= 8 && p > 0 && !Escaped(mem, end, p - 1) && BitsFrom(mem, end, p - 1) == all[n - 8..])
  }

  /** `ret` holds the first `n` bits from `start` on, shifted up by the `left` bits still to come. */
  ghost predicate Collected(mem: seq<Byte>, end: nat, start: nat, n: nat, left: nat, p: nat, ret: nat) {
    var all := BitsFrom(mem, end, start);
    AfterBits(mem, end, all, p, n) && ret == ShiftLeft(ToNat(all[..n]), left)
  }

  /** `k` bytes from `start` on are read, up to `p`, and `left` are still to come. */
  ghost predicate Gathered(mem: seq<Byte>, end: nat, start: nat, k: nat, left: nat, p: nat, ret: nat) {
    && p == PositionAfter(mem, end, start, k) && start + k <= p <= start + 2 * k
    && Collected(mem, end, start, 8 * k, 8 * left, p, ret)
  }

  lemma GatherStep(mem: seq<Byte>, end: nat, start: nat, k: nat, left: nat, p: nat, ret: nat, k': nat, p': nat,
                   ret': nat)
    requires Gathered(mem, end, start, k, left + 1, p, ret) && p + 1 < |mem|
    requires k' == k + 1 && p' == FirstKept(mem, end, p) + 1
    requires ret' == ret + ShiftLeft(mem[FirstKept(mem, end, p)], 8 * left)
    ensures Gathered(mem, end, start, k', left, p', ret')
  {
    PositionStep(mem, end, start, k, p, k', p');
    var n, n', l, l' := 8 * k, 8 * k', 8 * (left + 1), 8 * left;
    CollectStep(mem, end, start, n, l, p, ret, n', l', p', ret');
  }

  lemma PositionStep(mem: seq<Byte>, end: nat, start: nat, k: nat, p: nat, k': nat, p': nat)
    requires p == PositionAfter(mem, end, start, k) && start + k <= p <= start + 2 * k
    requires k' == k + 1 && p' == FirstKept(mem, end, p) + 1
    ensures p' == PositionAfter(mem, end, start, k') && start + k' <= p' <= start + 2 * k'
  {
  }

  lemma CollectStart(mem: seq<Byte>, end: nat, left: nat, p: nat)
    ensures Collected(mem, end, p, 0, left, p, 0)
  {
    var all := BitsFrom(mem, end, p);
    assert all[..0] == [] && all[0..] == all;
    ShiftLeftZero(left);
  }

  lemma CollectStep(mem: seq<Byte>, end: nat, start: nat, n: nat, left: nat, p: nat, ret: nat,
                    n': nat, left': nat, p': nat, ret': nat)
    requires Collected(mem, end, start, n, left, p, ret) && p + 1 < |mem|
    requires n' == n + 8 && left == left' + 8 && p' == FirstKept(mem, end, p) + 1
    requires ret' == ret + ShiftLeft(mem[FirstKept(mem, end, p)], left')
    ensures Collected(mem, end, start, n', left', p', ret')
  {
    var q := FirstKept(mem, end, p);
    var all := BitsFrom(mem, end, start);
    FirstByte(mem, end, p);
    NextEight(all, n, n', ByteBits(mem[q]), BitsFrom(mem, end, p'));
    AppendByte(all[..n], mem[q], left', left);
  }

  lemma NextEight(all: seq<bool>, n: nat, n': nat, b: seq<bool>, rest: seq<bool>)
    requires n <= |all| && n' == n + 8 && |b| == 8 && all[n..] == b + rest
    ensures n' <= |all| && rest == all[n'..] && all[..n'] == all[..n] + b
  {
    assert all == all[..n] + (b + rest);
  }

  /** One byte: the byte at `p`, or the one behind it when that is an escape byte. */
  lemma FirstByte(mem: seq<Byte>, end: nat, p: nat)
    requires p + 1 < |mem|
    ensures var q := FirstKept(mem, end, p);
            && !Escaped(mem, end, q) && BitsFrom(mem, end, q) == BitsFrom(mem, end, p)
            && BitsFrom(mem, end, p) == ByteBits(mem[q]) + BitsFrom(mem, end, q + 1)
  {
  }

  lemma ToNatWithByte(s: seq<bool>, b: Byte)
    ensures ToNat(s + ByteBits(b)) == 256 * ToNat(s) + b
  {
    ToNatConcat(s, ByteBits(b));
    ByteValue(b);
    assert Pow2(8) == 256;
  }

  lemma AppendByte(s: seq<bool>, b: Byte, left: nat, left': nat)
    requires left' == left + 8
    ensures ShiftLeft(ToNat(s + ByteBits(b)), left) == ShiftLeft(ToNat(s), left') + ShiftLeft(b, left)
  {
    hide ShiftLeft, ToNat, ByteBits;
    ToNatWithByte(s, b);
    ShiftLeftByte(ToNat(s), left);
    ShiftLeftAdd(256 * ToNat(s), b, left);
  }

  /** What the collected bytes hold, and where the cursor moves. */
  lemma FieldRead(mem: seq<Byte>, end: nat, start: nat, k: nat, p: nat, q: nat, ret: nat, shift: nat, bits: nat,
                  rshift: nat)
    requires Gathered(mem, end, start, k, 0, q, ret) && q == p + k
    requires shift < 8 && 1 <= bits && k == FieldBytes(shift, bits) && rshift == 8 * k - (shift + bits)
    ensures FieldEnd(mem, end, p, shift, bits, PendingAt(mem, end, start, shift))
    ensures bits <= |PendingAt(mem, end, start, shift)|
    ensures LowBits(ShiftRight(ret, rshift), bits) == ToNat(PendingAt(mem, end, start, shift)[..bits])
  {
    var all := BitsFrom(mem, end, start);
    var before := PendingAt(mem, end, start, shift);
    var off, shift' := NextOffset(p, shift, bits), NextShift(shift, bits);
    assert off == if shift' == 0 then p + k else p + k - 1;
    assert before == all[shift..];
    ExtractOf(all, 8 * k, shift, bits, rshift, before);
    MoveBy(mem, end, all, shift, bits, p + k, 8 * k, off, shift', before);
  }

  /** `p` is behind the bytes the field lies in; its last byte stays at hand when bits of it are left. */
  lemma MoveBy(mem: seq<Byte>, end: nat, all: seq<bool>, shift: nat, bits: nat, p: nat, n: nat,
               off: nat, shift': nat, before: seq<bool>)
    requires shift <= |all| && before == all[shift..] && AfterBits(mem, end, all, p, n)
    requires if shift' == 0 then shift + bits == n && off == p else shift + bits == n - 8 + shift' && off == p - 1
    requires shift' < 8
    ensures CursorAt(mem, end, off, shift', bits, before)
  {
    var m := if shift' == 0 then n else n - 8;
    assert BitsFrom(mem, end, off) == all[m..];
    DropTwice(all, m, shift', shift + bits);
    DropTwice(all, shift, bits, shift + bits);
  }

  lemma ExtractOf(s: seq<bool>, n: nat, shift: nat, bits: nat, rshift: nat, before: seq<bool>)
    requires n == shift + bits + rshift <= |s| && before == s[shift..]
    ensures LowBits(ShiftRight(ToNat(s[..n]), rshift), bits) == ToNat(before[..bits])
  {
    ExtractField(s[..n], shift, bits, rshift);
    assert s[..n][shift..shift + bits] == before[..bits];
  }

  lemma DropTwice(s: seq<bool>, a: nat, b: nat, c: nat)
    requires c == a + b <= |s|
    ensures s[a..][b..] == s[c..]
  {
  }

  lemma ByteAtHand(mem: seq<Byte>, end: nat, p: nat, shift: nat)
    requires p + 1 < |mem| && shift < 8
    ensures PendingAt(mem, end, FirstKept(mem, end, p), shift) == PendingAt(mem, end, p, shift)
    ensures !Escaped(mem, end, FirstKept(mem, end, p))
    ensures |PendingAt(mem, end, p, shift)| >= 8 - shift
  {
    FirstByte(mem, end, p);
  }

  lemma AlignedByte(mem: seq<Byte>, end: nat, p: nat)
    requires p + 1 < |mem|
    ensures var q := FirstKept(mem, end, p);
            PendingAt(mem, end, p, 0) == ByteBits(mem[q]) + PendingAt(mem, end, q + 1, 0)
  {
    FirstByte(mem, end, p);
    Aligned(mem, end, p);
    Aligned(mem, end, FirstKept(mem, end, p) + 1);
  }

  lemma Aligned(mem: seq<Byte>, end: nat, p: nat)
    ensures PendingAt(mem, end, p, 0) == BitsFrom(mem, end, p)
  {
    assert BitsFrom(mem, end, p)[0..] == BitsFrom(mem, end, p);
  }

  lemma TakeByte(b: Byte, rest: seq<bool>)
    ensures ToNat((ByteBits(b) + rest)[..8]) == b && (ByteBits(b) + rest)[8..] == rest
  {
    assert (ByteBits(b) + rest)[..8] == ByteBits(b);
    ByteValue(b);
  }

  /** Moving within the byte at hand, or onto the next one. */
  lemma PassBits(mem: seq<Byte>, end: nat, off: nat, shift: nat, n: nat, off': nat, shift': nat)
    requires off + 1 < |mem| && !Escaped(mem, end, off)
    requires if shift + n == 8 then off' == off + 1 && shift' == 0
             else shift + n < 8 && off' == off && shift' == shift + n
    ensures CursorAt(mem, end, off', shift', n, PendingAt(mem, end, off, shift))
  {
    var all := BitsFrom(mem, end, off);
    var before := PendingAt(mem, end, off, shift);
    FirstByte(mem, end, off);
    assert before == all[shift..];
    if shift' == 0 && n == 0 {
    } else {
      assert all[0..] == all && all[8..] == BitsFrom(mem, end, off + 1);
      MoveBy(mem, end, all, shift, n, off + 1, 8, off', shift', before);
    }
  }

  lemma TruncateAdvance(s: seq<bool>, n: nat, m: nat)
    requires n <= |WithoutLast(s, m)|
    ensures n <= |s| && WithoutLast(s, m)[..n] == s[..n] && WithoutLast(s[n..], m) == WithoutLast(s, m)[n..]
  {
  }

  lemma {:induction false} BitsFromShrinks(mem: seq<Byte>, end: nat, p: nat, q: nat)
    requires p <= q
    ensures |BitsFrom(mem, end, q)| <= |BitsFrom(mem, end, p)| <= |BitsFrom(mem, end, q)| + 8 * (q - p)
    decreases q - p
  {
    if p >= q {
    } else {
      BitsFromShrinks(mem, end, p + 1, q);
    }
  }

  /** A field inside the data passes the range check. */
  lemma InsideIsRaw(mem: seq<Byte>, end: nat, off: nat, shift: nat, bits: nat)
    requires 1 <= bits
    ensures bits <= |WithoutLast(PendingAt(mem, end, off, shift), |BitsFrom(mem, end, end)|)|
            ==> off + FieldBytes(shift, bits) <= end
  {
    if off <= end {
      BitsFromShrinks(mem, end, off, end);
    } else {
      BitsFromShrinks(mem, end, end, off);
    }
  }

  /** A byte cursor at or behind the end of the data has none of its bits left. */
  lemma BehindData(mem: seq<Byte>, end: nat, off: nat)
    ensures off >= end ==> |PendingAt(mem, end, off, 0)| <= |BitsFrom(mem, end, end)|
  {
    if off >= end {
      BitsFromShrinks(mem, end, end, off);
    }
  }
}
