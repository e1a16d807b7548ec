/**
 Whole runs of reads from a NAL unit: every run the grammar accepts on the RBSP is what the reader reads
 from the escaped bytes, and what an encoder wrote is read back.
 */
module NalParse {
  import opened Bits
  import opened Nal
  import opened Bitstream
  import G = Golomb

  datatype Op = U(n: nat) | UNoInc(n: nat) | Ue | Se | Align

  datatype Parse = Parse(values: seq<int>, rest: seq<bool>) | Stuck

  predicate ValidOp(op: Op) {
    (op.U? || op.UNoInc?) ==> 1 <= op.n <= 32
  }

  /** One read by a plain bit cursor; the string ends on a byte boundary, so its length gives the alignment. */
  function SpecStep(s: seq<bool>, op: Op): G.Read {
    match op
    case U(n) => G.ReadU(s, n)
    case UNoInc(n) => if n <= |s| then G.Read(ToNat(s[..n]), s) else G.EndOfBits
    case Ue => G.ReadUe(s)
    case Se => G.ReadSe(s)
    case Align => G.ReadU(s, |s| % 8)
  }

  function SpecRun(s: seq<bool>, ops: seq<Op>): Parse {
    if ops == [] then Parse([], s)
    else
      match SpecStep(s, ops[0])
      case Read(v, rest) => (match SpecRun(rest, ops[1..])
                             case Parse(vs, end) => Parse([v] + vs, end)
                             case Stuck => Stuck)
      case _ => Stuck
  }

  /** The cursor has not run past the end of the data. */
  ghost predicate InData(reader: Reader)
    reads reader
  {
    reader.Valid() && |reader.Pending()| >= |BitsFrom(reader.data, reader.bitstreamEnd, reader.bitstreamEnd)|
  }

  /** A read that stays inside the data gives the value and the rest a bit cursor over the RBSP gives. */
  method Step(reader: Reader, op: Op) returns (r: Outcome)
    requires InData(reader) && ValidOp(op) && SpecStep(reader.Inside(), op).Read?
    modifies reader
    ensures r.Value? && InData(reader)
    ensures SpecStep(old(reader.Inside()), op) == G.Read(r.v, reader.Inside())
  {
    ghost var before, m := reader.Pending(), |BitsFrom(reader.data, reader.bitstreamEnd, reader.bitstreamEnd)|;
    match op {
      case U(n) =>
        InsideIsRaw(reader.data, reader.bitstreamEnd, reader.dataOffset, reader.bitShift, n);
        r := reader.ReadU(n);
        TruncateAdvance(before, n, m);
      case UNoInc(n) =>
        InsideIsRaw(reader.data, reader.bitstreamEnd, reader.dataOffset, reader.bitShift, n);
        r := reader.ReadUNoInc(n);
        TruncateAdvance(before, n, m);
      case Ue =>
        UeInside(before, m);
        r := reader.ReadUe();
      case Se =>
        UeInside(before, m);
        r := reader.ReadSe();
      case Align =>
        ghost var n := |reader.Inside()| % 8;
        AlignedLength(reader.data, reader.bitstreamEnd, reader.dataOffset, reader.bitShift);
        TruncateAdvance(before, n, m);
        if reader.bitShift == 0 {
          TakeNone(reader.Inside());
        } else {
          InsideIsRaw(reader.data, reader.bitstreamEnd, reader.dataOffset, reader.bitShift, 8 - reader.bitShift);
        }
        r := reader.ReadRbspAlign();
    }
  }

  lemma {:induction false} WholeBytes(mem: seq<Byte>, end: nat, p: nat)
    ensures |BitsFrom(mem, end, p)| % 8 == 0
    decreases |mem| - p
  {
    if p >= |mem| {
    } else {
      WholeBytes(mem, end, p + 1);
      SameRemainder(|BitsFrom(mem, end, p + 1)|, 8);
    }
  }

  /** The bits left in the byte at hand. */
  lemma AlignedLength(mem: seq<Byte>, end: nat, off: nat, shift: nat)
    requires shift < 8 && |PendingAt(mem, end, off, shift)| >= |BitsFrom(mem, end, end)|
    requires shift != 0 ==> |PendingAt(mem, end, off, shift)| > 0
    ensures |WithoutLast(PendingAt(mem, end, off, shift), |BitsFrom(mem, end, end)|)| % 8
            == if shift == 0 then 0 else 8 - shift
  {
    WholeBytes(mem, end, off);
    WholeBytes(mem, end, end);
    ModOfDifference(|BitsFrom(mem, end, off)|, |BitsFrom(mem, end, end)|, shift);
  }

  lemma ModOfDifference(a: nat, b: nat, shift: nat)
    requires a % 8 == 0 && b % 8 == 0 && shift < 8 && a >= b + shift
    ensures (a - shift - b) % 8 == if shift == 0 then 0 else 8 - shift
  {
  }

  /** Section 7.3.1 over escaped bytes: a whole run of reads. */
  method Run(reader: Reader, ops: seq<Op>) returns (values: seq<int>)
    requires InData(reader) && (forall i :: 0 <= i < |ops| ==> ValidOp(ops[i]))
    requires SpecRun(reader.Inside(), ops).Parse?
    modifies reader
    ensures InData(reader) && SpecRun(old(reader.Inside()), ops) == Parse(values, reader.Inside())
  {
    values := [];
    ghost var start := SpecRun(reader.Inside(), ops);
    assert ops[0..] == ops;
    for i := 0 to |ops|
      invariant InData(reader) && SpecRun(reader.Inside(), ops[i..]).Parse?
      invariant start == After(values, SpecRun(reader.Inside(), ops[i..]))
    {
      assert ops[i..][0] == ops[i] && ops[i..][1..] == ops[i + 1..];
      ghost var inside := reader.Inside();
      var r := Step(reader, ops[i]);
      AfterOne(values, r.v, SpecRun(reader.Inside(), ops[i + 1..]));
      values := values + [r.v];
    }
  }

  ghost function After(values: seq<int>, p: Parse): Parse
    requires p.Parse?
  {
    Parse(values + p.values, p.rest)
  }

  lemma AfterOne(values: seq<int>, v: int, p: Parse)
    requires p.Parse?
    ensures After(values + [v], p) == After(values, Parse([v] + p.values, p.rest))
  {
    assert values + [v] + p.values == values + ([v] + p.values);
  }

  /** Between a byte boundary and the end of the data lie the bytes the reader's test keeps. */
  lemma {:induction false} InsideIsKept(mem: seq<Byte>, end: nat, p: nat)
    requires p <= end <= |mem|
    ensures BitsFrom(mem, end, p) == BytesToBits(Kept(mem, end, p, end)) + BitsFrom(mem, end, end)
    decreases end - p
  {
    if p == end {
    } else {
      InsideIsKept(mem, end, p + 1);
      if !Escaped(mem, end, p) {
        assert ([mem[p]] + Kept(mem, end, p + 1, end))[1..] == Kept(mem, end, p + 1, end);
        BitsAssoc(ByteBits(mem[p]), BytesToBits(Kept(mem, end, p + 1, end)), BitsFrom(mem, end, end));
      }
    }
  }

  lemma BitsAssoc(a: seq<bool>, b: seq<bool>, c: seq<bool>)
    ensures a + (b + c) == a + b + c
  {
  }

  /** At a boundary of the grammar of section 7.3.1 the bits to be read start with the RBSP. */
  lemma InsideIsRbsp(mem: seq<Byte>, end: nat, off: nat)
    requires off <= end < |mem| && Conforming(mem[off..end]) && Boundary(mem, off)
    ensures var m := |BitsFrom(mem, end, end)|;
            && |PendingAt(mem, end, off, 0)| >= m
            && WithoutLast(PendingAt(mem, end, off, 0), m)
               == BytesToBits(Unescape(mem[off..end])) + BytesToBits(Leftover(mem, end, off))
  {
    InsideIsKept(mem, end, off);
    Aligned(mem, end, off);
    KeptIsUnescaped(mem, end, off);
    BytesToBitsConcat(Unescape(mem[off..end]), Leftover(mem, end, off));
    var a, b := BytesToBits(Kept(mem, end, off, end)), BitsFrom(mem, end, end);
    assert (a + b)[..|a + b| - |b|] == a;
  }

  /**
   The reader behind a start code and the NAL unit header byte. The bytes of the start code are looked at in
   the order of the source; only a missing 01 is an error.
   */
  method OpenNal(memory: seq<Byte>, size: nat) returns (reader: Reader?)
    requires 5 < size && size + SLACK <= |memory| < 0xFFFF_FFF0
    ensures reader == null <==> memory[2] != 1 && memory[3] != 1
    ensures reader != null ==>
              && fresh(reader) && reader.Valid() && reader.data == memory && reader.bitstreamEnd == size
              && reader.bitShift == 0 && reader.dataOffset == if memory[2] == 1 then 4 else 5
  {
    var r := new Reader(memory, size);
    if memory[2] == 1 {
      r.IncOffset(4);
      return r;
    }
    if memory[3] == 1 {
      r.IncOffset(5);
      return r;
    }
    return null;
  }

  /** The payload behind start code and header is read as its RBSP, unless an escape starts in front of it. */
  lemma OpenedAtPayload(memory: seq<Byte>, size: nat, off: nat)
    requires 5 < size && size + SLACK <= |memory|
    requires off == (if memory[2] == 1 then 4 else 5) && (memory[2] == 1 || memory[3] == 1)
    requires Boundary(memory, off) && Conforming(memory[off..size])
    ensures BytesToBits(Unescape(memory[off..size]))
            <= WithoutLast(PendingAt(memory, size, off, 0), |BitsFrom(memory, size, size)|)
  {
    InsideIsRbsp(memory, size, off);
    var a, b := BytesToBits(Unescape(memory[off..size])), BytesToBits(Leftover(memory, size, off));
    assert (a + b)[..|a|] == a;
  }

  lemma AppendSlices(s: seq<bool>, t: seq<bool>, a: nat, b: nat)
    requires a <= b <= |s|
    ensures (s + t)[a..b] == s[a..b] && (s + t)[b..] == s[b..] + t
  {
  }

  /** A field in front of further bits. */
  lemma FieldAppend(s: seq<bool>, t: seq<bool>, n: nat)
    requires n <= |s|
    ensures (s + t)[..n] == s[..n] && (s + t)[n..] == s[n..] + t
  {
  }

  /** A code in front of further bits. */
  lemma UeAppend(s: seq<bool>, t: seq<bool>)
    requires G.ReadUe(s).Read?
    ensures G.ReadUe(s + t) == G.Read(G.ReadUe(s).value, G.ReadUe(s).rest + t)
  {
    var z := LeadingZeros(s);
    assert forall i :: 0 <= i < |s| ==> (s + t)[i] == s[i];
    RunEnds(s + t, z);
    AppendSlices(s, t, z + 1, 2 * z + 1);
  }

  /** A read that succeeds is not changed by whole bytes behind the bits. */
  lemma StepAppend(s: seq<bool>, t: seq<bool>, op: Op)
    requires |t| % 8 == 0 && SpecStep(s, op).Read?
    ensures SpecStep(s + t, op) == G.Read(SpecStep(s, op).value, SpecStep(s, op).rest + t)
  {
    match op
    case U(n) => FieldAppend(s, t, n);
    case UNoInc(n) => FieldAppend(s, t, n);
    case Ue => UeAppend(s, t);
    case Se => UeAppend(s, t);
    case Align =>
      SameRemainder(|s|, |t|);
      FieldAppend(s, t, |s| % 8);
  }

  lemma SameRemainder(a: nat, b: nat)
    requires b % 8 == 0
    ensures (a + b) % 8 == a % 8
  {
  }

  /** A run that succeeds is not changed by whole bytes behind the bits. */
  lemma {:induction false} RunAppend(s: seq<bool>, t: seq<bool>, ops: seq<Op>)
    requires |t| % 8 == 0 && SpecRun(s, ops).Parse?
    ensures SpecRun(s + t, ops) == Parse(SpecRun(s, ops).values, SpecRun(s, ops).rest + t)
  {
    if ops == [] {
    } else {
      StepAppend(s, t, ops[0]);
      RunAppend(SpecStep(s, ops[0]).rest, t, ops[1..]);
    }
  }

  /** Where the payload starts behind either length of start code. */
  function PayloadAt(memory: seq<Byte>): nat
    requires |memory| > 2
  {
    if memory[2] == 1 then 4 else 5
  }

  /** The bits of the RBSP of section 7.3.1. */
  ghost function Rbsp(memory: seq<Byte>, off: nat, size: nat): (s: seq<bool>)
    requires off <= size <= |memory|
  {
    BytesToBits(Unescape(memory[off..size]))
  }

  /** A run over the RBSP is a run over what the reader sees. */
  lemma RbspRun(memory: seq<Byte>, off: nat, size: nat, ops: seq<Op>)
    requires off <= size < |memory| && Conforming(memory[off..size]) && Boundary(memory, off)
    requires SpecRun(Rbsp(memory, off, size), ops).Parse?
    ensures var m := |BitsFrom(memory, size, size)|;
            var run := SpecRun(WithoutLast(PendingAt(memory, size, off, 0), m), ops);
            |PendingAt(memory, size, off, 0)| >= m && run.Parse?
              && run.values == SpecRun(Rbsp(memory, off, size), ops).values
  {
    hide SpecRun, Unescape, Conforming;
    InsideIsRbsp(memory, size, off);
    RunAppend(Rbsp(memory, off, size), BytesToBits(Leftover(memory, size, off)), ops);
  }

  /**
   From the bytes in memory to the values: on a NAL unit that section 7.4.1 allows, any run of reads that a bit
   cursor can do over the RBSP of section 7.3.1 gives that cursor's values, whatever lies behind the data.
   */
  method ParseNal(memory: seq<Byte>, size: nat, ops: seq<Op>) returns (values: seq<int>)
    requires 5 < size && size + SLACK <= |memory| < 0xFFFF_FFF0 && (memory[2] == 1 || memory[3] == 1)
    requires Boundary(memory, PayloadAt(memory)) && Conforming(memory[PayloadAt(memory)..size])
    requires (forall i :: 0 <= i < |ops| ==> ValidOp(ops[i]))
             && SpecRun(Rbsp(memory, PayloadAt(memory), size), ops).Parse?
    ensures values == SpecRun(Rbsp(memory, PayloadAt(memory), size), ops).values
  {
    hide SpecRun, Rbsp, Conforming;
    RbspRun(memory, PayloadAt(memory), size, ops);
    var reader := OpenNal(memory, size);
    values := Run(reader, ops);
  }

  /**
   The slice type is the second ue(v) of the slice header, as the reader reads such codes. When both codes lie
   in the data it is that of section 7.3.3, and the process ends only if they do not.
   */
  method GetSliceType(reader: Reader) returns (r: Outcome)
    requires reader.Valid()
    modifies reader
    ensures r.Value? ==>
              && reader.Valid() && NarrowUe(old(reader.Pending())).Read?
              && NarrowUe(NarrowUe(old(reader.Pending())).rest) == G.Read(r.v, reader.Pending())
    ensures r.Exit? ==> SpecRun(old(reader.Inside()), [Ue, Ue]).Stuck?
    ensures SpecRun(old(reader.Inside()), [Ue, Ue]).Parse? ==>
              && InData(reader)
              && SpecRun(old(reader.Inside()), [Ue, Ue]) == Parse([FirstOf(old(reader.Inside())), r.v], reader.Inside())
  {
    ghost var inside, m := reader.Inside(), |BitsFrom(reader.data, reader.bitstreamEnd, reader.bitstreamEnd)|;
    TwoCodes(inside);
    ghost var before := reader.Pending();
    r := reader.ReadUe();
    if r.Value? {
      ghost var between, rest := reader.Pending(), reader.Inside();
      if G.ReadUe(inside).Read? {
        UeInside(before, m);
      }
      r := reader.ReadUe();
      if r.Value? && G.ReadUe(inside).Read? && G.ReadUe(rest).Read? {
        UeInside(between, m);
      }
    }
  }

  /** Reading two codes. */
  lemma TwoCodes(s: seq<bool>)
    ensures var first := G.ReadUe(s);
            if first.Read? && G.ReadUe(first.rest).Read? then
              SpecRun(s, [Ue, Ue]) == Parse([first.value, G.ReadUe(first.rest).value], G.ReadUe(first.rest).rest)
            else SpecRun(s, [Ue, Ue]).Stuck?
  {
    assert [Ue, Ue][1..] == [Ue] && [Ue][1..] == [];
    var first := G.ReadUe(s);
    if first.Read? {
      var second := G.ReadUe(first.rest);
      if second.Read? {
        assert SpecRun(second.rest, []) == Parse([], second.rest);
        assert SpecRun(first.rest, [Ue]) == Parse([second.value] + [], second.rest);
        assert [first.value] + ([second.value] + []) == [first.value, second.value];
      }
    }
  }

  function FirstOf(s: seq<bool>): int {
    var r := G.ReadUe(s);
    if r.Read? then r.value else 0
  }

  /** A value an encoder writes with ue(v) or se(v). */
  datatype Code = Unsigned(n: nat) | Signed(v: int) {
    predicate Valid() {
      match this
      case Unsigned(n) => n <= G.MAX_CODE_NUM
      case Signed(v) => -0x7FFF_FFFF <= v <= 0x7FFF_FFFF
    }

    function Bits(): seq<bool> {
      G.EncodeUe(if Unsigned? then n else G.CodeNumOf(v))
    }

    function Read(): Op {
      if Unsigned? then Ue else Se
    }

    function Value(): int {
      if Unsigned? then n else v
    }
  }

  function EncodeAll(codes: seq<Code>): seq<bool> {
    if codes == [] then [] else codes[0].Bits() + EncodeAll(codes[1..])
  }

  function ReadAll(codes: seq<Code>): (ops: seq<Op>)
    ensures |ops| == |codes| && forall i :: 0 <= i < |ops| ==> ValidOp(ops[i])
  {
    seq(|codes|, i requires 0 <= i < |codes| => codes[i].Read())
  }

  function ValuesOf(codes: seq<Code>): (values: seq<int>)
    ensures |values| == |codes| && forall i :: 0 <= i < |values| ==> values[i] == codes[i].Value()
  {
    seq(|codes|, i requires 0 <= i < |codes| => codes[i].Value())
  }

  lemma ReadsCode(code: Code, tail: seq<bool>)
    requires code.Valid()
    ensures SpecStep(code.Bits() + tail, code.Read()) == G.Read(code.Value(), tail)
  {
    match code
    case Unsigned(n) => G.UeRoundTrip(n, tail);
    case Signed(v) => G.SeRoundTrip(v, tail);
  }

  lemma HeadAndRest(codes: seq<Code>)
    requires codes != []
    ensures ReadAll(codes)[0] == codes[0].Read() && ReadAll(codes)[1..] == ReadAll(codes[1..])
    ensures ValuesOf(codes) == [codes[0].Value()] + ValuesOf(codes[1..])
  {
  }

  /** Reading the codes that were written gives their values back and stops on the next bit. */
  lemma {:induction false} ReadsEncoded(codes: seq<Code>, tail: seq<bool>)
    requires forall i :: 0 <= i < |codes| ==> codes[i].Valid()
    ensures SpecRun(EncodeAll(codes) + tail, ReadAll(codes)) == Parse(ValuesOf(codes), tail)
  {
    if codes == [] {
      assert EncodeAll(codes) + tail == tail;
    } else {
      var rest := EncodeAll(codes[1..]);
      HeadAndRest(codes);
      BitsAssoc(codes[0].Bits(), rest, tail);
      ReadsCode(codes[0], rest + tail);
      ReadsEncoded(codes[1..], tail);
    }
  }

  /** Passes any number of bits, in fields of at most 32. */
  method SkipBits(reader: Reader, n: nat, ghost rest: seq<bool>)
    requires InData(reader) && n <= |reader.Inside()| && rest == reader.Inside()[n..]
    modifies reader
    ensures InData(reader) && reader.Inside() == rest
  {
    var left: nat := n;
    while left > 0
      invariant InData(reader) && left <= |reader.Inside()| && rest == reader.Inside()[left..]
      decreases left
    {
      ghost var before, all := reader.Inside(), left;
      var k: nat := if left < 32 then left else 32;
      var _ := Step(reader, U(k));
      left := left - k;
      DropTwice(before, k, left, all);
    }
    TakeNone(reader.Inside());
  }

  /**
   The round trip through the encoder: `prefix` bits, the codes, further bits up to a whole number of bytes,
   packed and escaped, come back from the reader once the prefix is passed.
   */
  method ReadBack(prefix: seq<bool>, codes: seq<Code>, tail: seq<bool>, behind: seq<Byte>) returns (values: seq<int>)
    requires forall i :: 0 <= i < |codes| ==> codes[i].Valid()
    requires |prefix + EncodeAll(codes) + tail| % 8 == 0 && |behind| == SLACK
    requires |Escape(BitsToBytes(prefix + EncodeAll(codes) + tail), 0)| + SLACK < 0xFFFF_FFF0
    ensures values == ValuesOf(codes)
  {
    ghost var bits := prefix + EncodeAll(codes) + tail;
    var nal := Escape(BitsToBytes(prefix + EncodeAll(codes) + tail), 0);
    var memory := nal + behind;
    var reader := new Reader(memory, |nal|);
    ghost var left := BytesToBits(Leftover(memory, |nal|, 0));
    Written(bits, nal, memory);
    assert reader.Inside() == prefix + (EncodeAll(codes) + (tail + left)) by {
      BitsAssoc(prefix + EncodeAll(codes), tail, left);
      BitsAssoc(prefix, EncodeAll(codes), tail + left);
    }
    assert (prefix + (EncodeAll(codes) + (tail + left)))[|prefix|..] == EncodeAll(codes) + (tail + left);
    SkipBits(reader, |prefix|, EncodeAll(codes) + (tail + left));
    ReadsEncoded(codes, tail + left);
    values := Run(reader, ReadAll(codes));
  }

  /** Packed, escaped and put in front of other memory, bits are found again from the first byte on. */
  lemma Written(bits: seq<bool>, nal: seq<Byte>, memory: seq<Byte>)
    requires |bits| % 8 == 0 && nal == Escape(BitsToBytes(bits), 0) && |nal| < |memory| && memory[..|nal|] == nal
    ensures |PendingAt(memory, |nal|, 0, 0)| >= |BitsFrom(memory, |nal|, |nal|)|
    ensures WithoutLast(PendingAt(memory, |nal|, 0, 0), |BitsFrom(memory, |nal|, |nal|)|)
            == bits + BytesToBits(Leftover(memory, |nal|, 0))
  {
    assert memory[0..|nal|] == nal;
    EscapeConforms(BitsToBytes(bits), 0);
    assert ZeroBytes(0) + nal == nal;
    EscapeRoundTrip(BitsToBytes(bits));
    PackRoundTrip(bits);
    InsideIsRbsp(memory, |nal|, 0);
  }

  /**
   The range check counts raw bytes: it lets through a field that leaves the data exactly when escape bytes
   make up the difference.
   */
  lemma RangeCheckExact(mem: seq<Byte>, end: nat, off: nat, shift: nat, bits: nat)
    requires off <= end <= |mem| && shift < 8 && 1 <= bits
    requires |PendingAt(mem, end, off, shift)| >= |BitsFrom(mem, end, end)|
             && (shift != 0 ==> off < end && !Escaped(mem, end, off))
    ensures var inside := WithoutLast(PendingAt(mem, end, off, shift), |BitsFrom(mem, end, end)|);
            off + FieldBytes(shift, bits) <= end && bits > |inside|
            <==> |Kept(mem, end, off, end)| < FieldBytes(shift, bits) <= end - off
  {
    InsideIsKept(mem, end, off);
    var kept := |Kept(mem, end, off, end)|;
    assert shift != 0 ==> kept >= 1;
    assert |BitsFrom(mem, end, off)| == 8 * kept + |BitsFrom(mem, end, end)|;
  }

  /** A field of four bytes passes the check for data of four, one of which is an escape byte. */
  lemma RangeCheckExample(mem: seq<Byte>)
    requires |mem| >= 4 && mem[..4] == [0, 0, 3, 0]
    ensures FieldBytes(0, 32) <= 4 && 32 > |WithoutLast(PendingAt(mem, 4, 0, 0), |BitsFrom(mem, 4, 4)|)|
  {
    assert mem[0] == mem[..4][0] && mem[1] == mem[..4][1] && mem[2] == mem[..4][2] && mem[3] == mem[..4][3];
    assert Escaped(mem, 4, 2);
    InsideIsKept(mem, 4, 0);
    assert |Kept(mem, 4, 3, 4)| <= 1;
    assert |Kept(mem, 4, 2, 4)| <= 1;
    assert |Kept(mem, 4, 1, 4)| <= 2;
    assert |Kept(mem, 4, 0, 4)| <= 3;
  }
}
