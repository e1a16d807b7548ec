/**
 Emulation prevention in NAL units: the grammar of section 7.3.1 of ITU-T H.264, an encoder that follows
 section 7.4.1, and the test the bit reader applies at a byte position, which looks at raw bytes around it.
 */
module Nal {
  import opened Bits

  predicate StartsEscape(s: seq<Byte>) {
    |s| >= 3 && s[0] == 0 && s[1] == 0 && s[2] == 3
  }

  /** RBSP bytes of a NAL unit payload, scanned as in section 7.3.1. */
  function Unescape(s: seq<Byte>): seq<Byte> {
    if s == [] then []
    else if StartsEscape(s) then [0, 0] + Unescape(s[3..])
    else [s[0]] + Unescape(s[1..])
  }

  /** The encoder of section 7.4.1: `zeros` is the number of zero bytes just written. */
  function Escape(s: seq<Byte>, zeros: nat): seq<Byte> {
    if s == [] then []
    else if zeros >= 2 && s[0] <= 3 then
      [3, s[0]] + Escape(s[1..], if s[0] == 0 then 1 else 0)
    else
      [s[0]] + Escape(s[1..], if s[0] == 0 then zeros + 1 else 0)
  }

  /** Section 7.4.1: a 00 00 03 is the end of the NAL unit or is followed by a byte of at most 3. */
  ghost predicate Conforming(s: seq<Byte>) {
    forall i :: 0 <= i < |s| - 3 && StartsEscape(s[i..]) ==> s[i + 3] <= 3
  }

  /** The reader's test: the byte at `p` of the memory `mem` is an emulation prevention byte. */
  predicate Escaped(mem: seq<Byte>, end: nat, p: nat) {
    2 <= p && p != end && p + 1 < |mem| &&
    mem[p - 2] == 0 && mem[p - 1] == 0 && mem[p] == 3 && mem[p + 1] <= 3
  }

  /** The bytes from `p` up to `q` the reader's test does not drop. */
  function Kept(mem: seq<Byte>, end: nat, p: nat, q: nat): (r: seq<Byte>)
    requires q <= |mem|
    ensures |r| <= if p <= q then q - p else 0
    decreases q - p
  {
    if p >= q then []
    else if Escaped(mem, end, p) then Kept(mem, end, p + 1, q)
    else [mem[p]] + Kept(mem, end, p + 1, q)
  }

  predicate EscapeAt(mem: seq<Byte>, p: int) {
    0 <= p && p + 2 < |mem| && mem[p] == 0 && mem[p + 1] == 0 && mem[p + 2] == 3
  }

  /** No escape sequence starts at the two positions before `p`: the grammar can be at `p`. */
  ghost predicate Boundary(mem: seq<Byte>, p: nat) {
    !EscapeAt(mem, p - 1) && !EscapeAt(mem, p - 2)
  }

  /** At a boundary the reader's test never drops the byte at hand. */
  lemma KeptPlain(mem: seq<Byte>, end: nat, p: nat)
    requires p < end <= |mem| && !EscapeAt(mem, p - 2)
    ensures Kept(mem, end, p, end) == [mem[p]] + Kept(mem, end, p + 1, end)
  {
    assert Escaped(mem, end, p) ==> EscapeAt(mem, p - 2);
  }

  /** An escape sequence leaves its two zeros, and its last byte only if the byte after it is above 3. */
  lemma KeptEscape(mem: seq<Byte>, end: nat, p: nat)
    requires p + 3 <= end < |mem| && EscapeAt(mem, p) && Boundary(mem, p)
    ensures Kept(mem, end, p, end) == [0, 0] + (if mem[p + 3] <= 3 then [] else [3]) + Kept(mem, end, p + 3, end)
  {
    KeptPlain(mem, end, p);
    KeptPlain(mem, end, p + 1);
    KeptLast(mem, end, p + 2);
    AppendTwo(mem[p], mem[p + 1], if mem[p + 3] <= 3 then [] else [3], Kept(mem, end, p + 3, end));
  }

  lemma KeptLast(mem: seq<Byte>, end: nat, p: nat)
    requires 2 <= p < end < |mem| && EscapeAt(mem, p - 2)
    ensures Kept(mem, end, p, end) == (if mem[p + 1] <= 3 then [] else [3]) + Kept(mem, end, p + 1, end)
  {
    assert Escaped(mem, end, p) <==> mem[p + 1] <= 3;
  }

  lemma AppendTwo(a: Byte, b: Byte, c: seq<Byte>, d: seq<Byte>)
    ensures [a] + ([b] + (c + d)) == [a, b] + c + d
  {
  }

  lemma ConformingTail(s: seq<Byte>, k: nat)
    requires k <= |s| && Conforming(s)
    ensures Conforming(s[k..])
  {
    forall i | 0 <= i < |s[k..]| - 3 && StartsEscape(s[k..][i..]) ensures s[k..][i + 3] <= 3 {
      assert s[k..][i..] == s[k + i..];
    }
  }

  /**
   The reader's test and the grammar agree; only a 00 00 03 at the very end may keep its last byte, when
   the byte of memory behind the data is above 3.
   */
  lemma {:induction false} KeptIsUnescaped(mem: seq<Byte>, end: nat, p: nat)
    requires p <= end < |mem| && Conforming(mem[p..end]) && Boundary(mem, p)
    ensures Kept(mem, end, p, end) == Unescape(mem[p..end]) + Leftover(mem, end, p)
    decreases end - p
  {
    var s := mem[p..end];
    if s == [] {
    } else if StartsEscape(s) {
      ConformingAfterEscape(mem, end, p);
      KeptIsUnescaped(mem, end, p + 3);
      BehindEscape(mem, end, p);
    } else if EscapeAt(mem, p) {
      UnescapePlain(mem, end, p);
      KeptPlain(mem, end, p);
      CutOffEscape(mem, end, p);
    } else {
      ConformingAfterPlain(mem, end, p);
      KeptIsUnescaped(mem, end, p + 1);
      BehindPlain(mem, end, p);
    }
  }

  lemma BehindEscape(mem: seq<Byte>, end: nat, p: nat)
    requires p < end < |mem| && Conforming(mem[p..end]) && Boundary(mem, p) && StartsEscape(mem[p..end])
    requires Kept(mem, end, p + 3, end) == Unescape(mem[p + 3..end]) + Leftover(mem, end, p + 3)
    ensures Kept(mem, end, p, end) == Unescape(mem[p..end]) + Leftover(mem, end, p)
  {
    KeptEscape(mem, end, p);
    UnescapeAfterEscape(mem, end, p);
    ConformingAfterEscape(mem, end, p);
  }

  lemma BehindPlain(mem: seq<Byte>, end: nat, p: nat)
    requires p < end < |mem| && Boundary(mem, p) && !StartsEscape(mem[p..end]) && !EscapeAt(mem, p)
    requires Kept(mem, end, p + 1, end) == Unescape(mem[p + 1..end]) + Leftover(mem, end, p + 1)
    ensures Kept(mem, end, p, end) == Unescape(mem[p..end]) + Leftover(mem, end, p)
  {
    UnescapePlain(mem, end, p);
    KeptPlain(mem, end, p);
  }

  lemma ConformingAfterPlain(mem: seq<Byte>, end: nat, p: nat)
    requires p < end <= |mem| && Conforming(mem[p..end])
    ensures Conforming(mem[p + 1..end])
  {
    ConformingTail(mem[p..end], 1);
    assert mem[p..end][1..] == mem[p + 1..end];
  }

  /** On a NAL unit that is not conforming the reader keeps bytes the grammar drops. */
  lemma {:induction false} KeptIsMore(mem: seq<Byte>, end: nat, p: nat)
    requires p <= end < |mem| && Boundary(mem, p)
    ensures |Kept(mem, end, p, end)| >= |Unescape(mem[p..end])| + |Leftover(mem, end, p)|
    ensures !Conforming(mem[p..end]) ==> |Kept(mem, end, p, end)| > |Unescape(mem[p..end])| + |Leftover(mem, end, p)|
    decreases end - p
  {
    var s := mem[p..end];
    if s == [] {
    } else if StartsEscape(s) {
      KeptEscape(mem, end, p);
      UnescapeAfterEscape(mem, end, p);
      KeptIsMore(mem, end, p + 3);
      if Conforming(mem[p + 3..end]) && (p + 3 < end ==> mem[p + 3] <= 3) {
        NonconformingTail(mem, end, p, 3);
      }
    } else {
      UnescapePlain(mem, end, p);
      KeptPlain(mem, end, p);
      if EscapeAt(mem, p) {
        CutOffEscape(mem, end, p);
      } else {
        KeptIsMore(mem, end, p + 1);
        if Conforming(mem[p + 1..end]) {
          NonconformingTail(mem, end, p, 1);
        }
      }
    }
  }

  lemma NonconformingTail(mem: seq<Byte>, end: nat, p: nat, k: nat)
    requires p + k <= end <= |mem| && k == (if StartsEscape(mem[p..end]) then 3 else 1)
    requires Conforming(mem[p + k..end]) && (k == 3 && p + 3 < end ==> mem[p + 3] <= 3)
    ensures Conforming(mem[p..end])
  {
    var s := mem[p..end];
    forall i | 0 <= i < |s| - 3 && StartsEscape(s[i..]) ensures s[i + 3] <= 3 {
      if i >= k {
        assert s[i..] == mem[p + k..end][i - k..];
        assert s[i + 3] == mem[p + k..end][i - k + 3];
      } else {
        assert s[i..][0] == s[i] && s[i..][1] == s[i + 1] && s[i..][2] == s[i + 2];
        assert i == 0 ==> s[0..] == s;
      }
    }
  }

  /** The reader sees the RBSP of section 7.3.1 exactly on the NAL units section 7.4.1 allows. */
  lemma ReaderSeesRbsp(mem: seq<Byte>, end: nat, p: nat)
    requires p <= end < |mem| && Boundary(mem, p)
    ensures Kept(mem, end, p, end) == Unescape(mem[p..end]) + Leftover(mem, end, p) <==> Conforming(mem[p..end])
  {
    if Conforming(mem[p..end]) {
      KeptIsUnescaped(mem, end, p);
    } else {
      KeptIsMore(mem, end, p);
    }
  }

  /** A byte above 3 behind a 00 00 03: the grammar drops the 03, the reader keeps it. */
  lemma NonconformingExample(mem: seq<Byte>, b: Byte, behind: Byte)
    requires b > 3 && mem == [0, 0, 3, b, behind]
    ensures !Conforming(mem[..4]) && Unescape(mem[..4]) == [0, 0, b] && Kept(mem, 4, 0, 4) == [0, 0, 3, b]
  {
    var s := mem[..4];
    assert StartsEscape(s[0..]) && s[0 + 3] > 3;
    assert s[3..] == [b] && [b][1..] == [];
    assert Unescape(s[3..]) == [b] + Unescape([]);
    assert Kept(mem, 4, 3, 4) == [b];
    KeptEscape(mem, 4, 0);
  }

  lemma ConformingAfterEscape(mem: seq<Byte>, end: nat, p: nat)
    requires p + 3 <= end < |mem| && StartsEscape(mem[p..end]) && Conforming(mem[p..end])
    ensures p + 3 < end ==> mem[p + 3] <= 3
    ensures Conforming(mem[p + 3..end])
  {
    var s := mem[p..end];
    assert s[0..] == s;
    assert p + 3 < end ==> s[0 + 3] <= 3;
    ConformingTail(s, 3);
    assert s[3..] == mem[p + 3..end];
  }

  /** An escape sequence that the end of the data cuts off is not looked at. */
  lemma CutOffEscape(mem: seq<Byte>, end: nat, p: nat)
    requires p < end < |mem| && EscapeAt(mem, p) && end < p + 3 && Boundary(mem, p)
    ensures Kept(mem, end, p + 1, end) == Unescape(mem[p + 1..end])
  {
    if end == p + 2 {
      KeptPlain(mem, end, p + 1);
      UnescapePlain(mem, end, p + 1);
    }
  }

  lemma UnescapePlain(mem: seq<Byte>, end: nat, p: nat)
    requires p < end <= |mem| && !StartsEscape(mem[p..end])
    ensures Unescape(mem[p..end]) == [mem[p]] + Unescape(mem[p + 1..end])
  {
    assert mem[p..end][1..] == mem[p + 1..end];
  }

  /** The 03 the reader keeps at the end of the data when the memory behind it is above 3. */
  function Leftover(mem: seq<Byte>, end: nat, p: nat): seq<Byte> {
    if p + 3 <= end < |mem| && EscapeAt(mem, end - 3) && mem[end] > 3 then [3] else []
  }

  lemma UnescapeAfterEscape(mem: seq<Byte>, end: nat, p: nat)
    requires p + 3 <= end <= |mem| && StartsEscape(mem[p..end])
    ensures Unescape(mem[p..end]) == [0, 0] + Unescape(mem[p + 3..end])
  {
    assert mem[p..end][3..] == mem[p + 3..end];
  }

  /** Escaping loses nothing. */
  lemma {:induction false} EscapeRoundTrip(s: seq<Byte>)
    ensures Unescape(Escape(s, 0)) == s
  {
    EscapeScan(s, 0);
    assert ZeroBytes(0) + Escape(s, 0) == Escape(s, 0);
    assert ZeroBytes(0) + s == s;
  }

  /** With `zeros` zero bytes already written and not yet scanned, scanning gives them back and then `s`. */
  lemma {:induction false} EscapeScan(s: seq<Byte>, zeros: nat)
    requires zeros <= 2
    ensures Unescape(ZeroBytes(zeros) + Escape(s, zeros)) == ZeroBytes(zeros) + s
    decreases |s|
  {
    if s == [] {
      assert ZeroBytes(zeros) + Escape(s, zeros) == ZeroBytes(zeros) == ZeroBytes(zeros) + s;
      UnescapeZeros(zeros);
    } else {
      assert s == [s[0]] + s[1..];
      if zeros == 2 && s[0] <= 3 {
        var next := if s[0] == 0 then 1 else 0;
        EscapeScan(s[1..], next);
        ScanEscaped(s[0], Escape(s[1..], next), s[1..]);
        assert Escape(s, 2) == [3, s[0]] + Escape(s[1..], next);
      } else {
        var next := if s[0] == 0 then zeros + 1 else 0;
        EscapeScan(s[1..], next);
        ScanPlain(zeros, s[0], Escape(s[1..], next), s[1..]);
        assert Escape(s, zeros) == [s[0]] + Escape(s[1..], next);
      }
    }
  }

  lemma UnescapeTriple(rest: seq<Byte>)
    ensures Unescape([0, 0, 3] + rest) == [0, 0] + Unescape(rest)
  {
    assert ([0, 0, 3] + rest)[3..] == rest;
  }

  /** After an inserted 03 the scan starts afresh. */
  lemma ScanEscaped(b: Byte, tail: seq<Byte>, t: seq<Byte>)
    requires b <= 3
    requires var z := ZeroBytes(if b == 0 then 1 else 0); Unescape(z + tail) == z + t
    ensures Unescape(ZeroBytes(2) + ([3, b] + tail)) == ZeroBytes(2) + ([b] + t)
  {
    var x := [b] + tail;
    assert Unescape(x) == [b] + t by {
      if b == 0 {
        assert x == ZeroBytes(1) + tail;
      } else {
        assert ZeroBytes(0) + tail == tail && ZeroBytes(0) + t == t;
        UnescapeNonzero(0, b, tail);
        assert ZeroBytes(0) + [b] + tail == x;
        assert ZeroBytes(0) + [b] + t == [b] + t;
      }
    }
    UnescapeTriple(x);
    assert ZeroBytes(2) + ([3, b] + tail) == [0, 0, 3] + x;
  }

  lemma ScanPlain(zeros: nat, b: Byte, tail: seq<Byte>, t: seq<Byte>)
    requires zeros <= 2 && (zeros == 2 ==> b > 3)
    requires var z := ZeroBytes(if b == 0 then zeros + 1 else 0); Unescape(z + tail) == z + t
    ensures Unescape(ZeroBytes(zeros) + ([b] + tail)) == ZeroBytes(zeros) + ([b] + t)
  {
    AppendAssoc(ZeroBytes(zeros), [b], tail);
    AppendAssoc(ZeroBytes(zeros), [b], t);
    if b == 0 {
      assert ZeroBytes(zeros) + [b] == ZeroBytes(zeros + 1);
    } else {
      assert ZeroBytes(0) + tail == tail && ZeroBytes(0) + t == t;
      UnescapeNonzero(zeros, b, tail);
    }
  }

  lemma AppendAssoc(a: seq<Byte>, b: seq<Byte>, c: seq<Byte>)
    ensures a + (b + c) == a + b + c
  {
  }

  /** `n` zero bytes, at most two. */
  function ZeroBytes(n: nat): seq<Byte> {
    if n == 0 then [] else if n == 1 then [0] else [0, 0]
  }

  lemma UnescapeZeros(n: nat)
    requires n <= 2
    ensures Unescape(ZeroBytes(n)) == ZeroBytes(n)
  {
    assert [0][1..] == [] && [0, 0][1..] == [0];
    assert Unescape([0]) == [0] + Unescape([]);
  }

  /** A byte that cannot complete an escape sequence ends a run of zeros. */
  lemma UnescapeNonzero(n: nat, b: Byte, tail: seq<Byte>)
    requires n <= 2 && b != 0 && (n == 2 ==> b > 3)
    ensures Unescape(ZeroBytes(n) + [b] + tail) == ZeroBytes(n) + [b] + Unescape(tail)
  {
    var s := ZeroBytes(n) + [b] + tail;
    if n == 0 {
      assert s[1..] == tail;
    } else {
      assert s[1..] == ZeroBytes(n - 1) + [b] + tail;
      assert n == 1 ==> s[1] == b;
      assert n == 2 ==> s[2] == b;
      UnescapeNonzero(n - 1, b, tail);
    }
  }

  /** What the encoder writes is conforming, whatever zero bytes stand in front of it. */
  lemma {:induction false} EscapeConforms(s: seq<Byte>, zeros: nat)
    requires zeros <= 2
    ensures Conforming(ZeroBytes(zeros) + Escape(s, zeros))
    decreases |s|
  {
    if s == [] {
    } else if zeros == 2 && s[0] <= 3 {
      var next := if s[0] == 0 then 1 else 0;
      EscapeConforms(s[1..], next);
      ConformsEscaped(s[0], Escape(s[1..], next));
      assert Escape(s, 2) == [3, s[0]] + Escape(s[1..], next);
    } else {
      var next := if s[0] == 0 then zeros + 1 else 0;
      EscapeConforms(s[1..], next);
      ConformsPlain(zeros, s[0], Escape(s[1..], next));
      assert Escape(s, zeros) == [s[0]] + Escape(s[1..], next);
    }
  }

  lemma ConformsEscaped(b: Byte, tail: seq<Byte>)
    requires b <= 3 && Conforming(ZeroBytes(if b == 0 then 1 else 0) + tail)
    ensures Conforming(ZeroBytes(2) + ([3, b] + tail))
  {
    hide Conforming;
    var x := [b] + tail;
    if b == 0 {
      assert ZeroBytes(1) + tail == x;
    } else {
      assert ZeroBytes(0) + tail == tail;
      ConformingCons(b, tail);
    }
    var y := [3] + x;
    ConformingCons(3, x);
    ConformingCons(0, y);
    ConformingCons(0, [0] + y);
    assert ZeroBytes(2) + ([3, b] + tail) == [0] + ([0] + y);
  }

  lemma ConformsPlain(zeros: nat, b: Byte, tail: seq<Byte>)
    requires zeros <= 2 && (zeros == 2 ==> b > 3)
    requires Conforming(ZeroBytes(if b == 0 then zeros + 1 else 0) + tail)
    ensures Conforming(ZeroBytes(zeros) + ([b] + tail))
  {
    hide Conforming;
    var x := [b] + tail;
    if b == 0 {
      assert ZeroBytes(zeros) + x == ZeroBytes(zeros + 1) + tail;
    } else {
      assert ZeroBytes(0) + tail == tail && ZeroBytes(0) + x == x;
      ConformingCons(b, tail);
      if zeros > 0 {
        ConformingCons(0, x);
      }
      if zeros == 2 {
        ConformingCons(0, [0] + x);
        assert ZeroBytes(2) + x == [0] + ([0] + x);
      }
    }
  }

  lemma ConformingCons(b: Byte, s: seq<Byte>)
    requires Conforming(s) && (b == 0 && |s| >= 3 && s[0] == 0 && s[1] == 3 ==> s[2] <= 3)
    ensures Conforming([b] + s)
  {
    var x := [b] + s;
    forall i | 0 <= i < |x| - 3 && StartsEscape(x[i..]) ensures x[i + 3] <= 3 {
      if i == 0 {
        assert x[0..] == x;
      } else {
        assert x[i..] == s[i - 1..];
        assert s[i - 1 + 3] == x[i + 3];
      }
    }
  }
}
