/**
 The order in which reference frames go into the decoder's frame table: insertion by picture order count
 (POC) around a delimiter. Orders are sequences of entries, an entry naming a slot of the reference list.
 */
module RefOrder {

  datatype Entry = Entry(slot: nat, poc: int)

  /** Whether a frame of POC `p` goes in front of one of POC `q`. */
  predicate GoesBefore(p: int, q: int, delim: int) {
    if p < delim then p > q || q > delim else p < q
  }

  /** The first place from `k` on in front of which `p` goes. */
  function Position(order: seq<Entry>, p: int, delim: int, k: nat): (pos: nat)
    requires k <= |order|
    ensures k <= pos <= |order|
    ensures forall i :: k <= i < pos ==> !GoesBefore(p, order[i].poc, delim)
    ensures pos < |order| ==> GoesBefore(p, order[pos].poc, delim)
    decreases |order| - k
  {
    if k == |order| || GoesBefore(p, order[k].poc, delim) then k else Position(order, p, delim, k + 1)
  }

  lemma PositionIs(order: seq<Entry>, p: int, delim: int, k: nat)
    requires k <= |order| && forall i :: 0 <= i < k ==> !GoesBefore(p, order[i].poc, delim)
    requires k < |order| ==> GoesBefore(p, order[k].poc, delim)
    ensures Position(order, p, delim, 0) == k
  {
  }

  function InsertAt(order: seq<Entry>, e: Entry, k: nat): (r: seq<Entry>)
    requires k <= |order|
  {
    order[..k] + [e] + order[k..]
  }

  function Insert(order: seq<Entry>, e: Entry, delim: int): seq<Entry> {
    InsertAt(order, e, Position(order, e.poc, delim, 0))
  }

  function InsertAll(refs: seq<Entry>, delim: int): (order: seq<Entry>)
    ensures |order| == |refs|
  {
    if refs == [] then [] else Insert(InsertAll(refs[..|refs| - 1], delim), refs[|refs| - 1], delim)
  }

  function Earlier(order: seq<Entry>, delim: int): (n: nat)
    ensures n <= |order|
  {
    if order == [] then 0
    else Earlier(order[..|order| - 1], delim) + if order[|order| - 1].poc < delim then 1 else 0
  }

  /** Section 8.2.4.2.3 of ITU-T H.264: POCs below the delimiter descend, the others come behind and ascend. */
  predicate InOrder(p: int, q: int, delim: int) {
    if p < delim then q >= delim || p >= q else q >= delim && p <= q
  }

  ghost predicate Ordered(order: seq<Entry>, delim: int) {
    forall i, j :: 0 <= i < j < |order| ==> InOrder(order[i].poc, order[j].poc, delim)
  }

  /** What insertion keeps whatever the input: only a frame at the delimiter can stand before an earlier one. */
  predicate NearlyInOrder(p: int, q: int, delim: int) {
    InOrder(p, q, delim) || (p == delim && q < delim)
  }

  ghost predicate NearlyOrdered(order: seq<Entry>, delim: int) {
    forall i, j :: 0 <= i < j < |order| ==> NearlyInOrder(order[i].poc, order[j].poc, delim)
  }

  /** Frames of equal POC keep the order of the reference list. */
  ghost predicate Stable(order: seq<Entry>) {
    forall i, j :: 0 <= i < j < |order| && order[i].poc == order[j].poc ==> order[i].slot < order[j].slot
  }

  ghost predicate SlotsAscend(refs: seq<Entry>) {
    forall i, j :: 0 <= i < j < |refs| ==> refs[i].slot < refs[j].slot
  }

  /**
   Every earlier frame behind a frame at the delimiter also has a still earlier frame in front of it.
   It holds when no POC is at the delimiter.
   */
  ghost predicate NoStray(refs: seq<Entry>, delim: int) {
    forall j :: 0 <= j < |refs| && refs[j].poc < delim && HasDelimiter(refs[..j], delim) ==>
        HasBelow(refs[..j], refs[j].poc)
  }

  ghost predicate HasDelimiter(s: seq<Entry>, delim: int) {
    exists e :: e in s && e.poc == delim
  }

  ghost predicate HasBelow(s: seq<Entry>, p: int) {
    exists e :: e in s && e.poc < p
  }

  lemma InsertAtElements(order: seq<Entry>, e: Entry, k: nat)
    requires k <= |order|
    ensures multiset(InsertAt(order, e, k)) == multiset(order) + multiset{e}
    ensures |InsertAt(order, e, k)| == |order| + 1
    ensures forall i :: 0 <= i <= |order| ==>
              InsertAt(order, e, k)[i] == if i < k then order[i] else if i == k then e else order[i - 1]
  {
    assert order == order[..k] + order[k..];
  }

  /** The order is a permutation of the references. */
  lemma {:induction false} IsPermutation(refs: seq<Entry>, delim: int)
    ensures multiset(InsertAll(refs, delim)) == multiset(refs)
  {
    if refs == [] {
    } else {
      var init, last := refs[..|refs| - 1], refs[|refs| - 1];
      IsPermutation(init, delim);
      var order := InsertAll(init, delim);
      InsertAtElements(order, last, Position(order, last.poc, delim, 0));
      assert refs == init + [last];
    }
  }

  /** The frames in front of the place of insertion, and those behind it. */
  lemma PlaceFacts(order: seq<Entry>, e: Entry, delim: int)
    requires NearlyOrdered(order, delim)
    ensures var k := Position(order, e.poc, delim, 0);
            && (forall i :: 0 <= i < k ==> NearlyInOrder(order[i].poc, e.poc, delim))
            && (forall i :: k <= i < |order| ==> InOrder(e.poc, order[i].poc, delim) && order[i].poc != e.poc)
  {
    var k := Position(order, e.poc, delim, 0);
    forall i | k <= i < |order| ensures InOrder(e.poc, order[i].poc, delim) && order[i].poc != e.poc {
      if i > k {
        assert NearlyInOrder(order[k].poc, order[i].poc, delim);
      }
    }
  }

  lemma {:induction false} AlwaysNearlyOrdered(refs: seq<Entry>, delim: int)
    ensures NearlyOrdered(InsertAll(refs, delim), delim)
  {
    if refs == [] {
    } else {
      var init, last := refs[..|refs| - 1], refs[|refs| - 1];
      AlwaysNearlyOrdered(init, delim);
      InsertNearly(InsertAll(init, delim), last, delim);
    }
  }

  lemma InsertNearly(order: seq<Entry>, e: Entry, delim: int)
    requires NearlyOrdered(order, delim)
    ensures NearlyOrdered(Insert(order, e, delim), delim)
  {
    var k := Position(order, e.poc, delim, 0);
    var r := InsertAt(order, e, k);
    PlaceFacts(order, e, delim);
    InsertAtElements(order, e, k);
    forall i, j | 0 <= i < j < |r| ensures NearlyInOrder(r[i].poc, r[j].poc, delim) {
      if i != k && j != k {
        assert NearlyInOrder(order[if i < k then i else i - 1].poc, order[if j < k then j else j - 1].poc, delim);
      }
    }
  }

  lemma {:induction false} IsStable(refs: seq<Entry>, delim: int)
    requires SlotsAscend(refs)
    ensures Stable(InsertAll(refs, delim))
  {
    if refs == [] {
    } else {
      var init, last := refs[..|refs| - 1], refs[|refs| - 1];
      IsStable(init, delim);
      AlwaysNearlyOrdered(init, delim);
      var order := InsertAll(init, delim);
      forall i | 0 <= i < |order| ensures order[i].slot < last.slot {
        SameElements(init, delim, order[i]);
      }
      InsertStable(order, last, delim);
    }
  }

  lemma InsertStable(order: seq<Entry>, e: Entry, delim: int)
    requires NearlyOrdered(order, delim) && Stable(order)
    requires forall i :: 0 <= i < |order| ==> order[i].slot < e.slot
    ensures Stable(Insert(order, e, delim))
  {
    var k := Position(order, e.poc, delim, 0);
    var r := InsertAt(order, e, k);
    PlaceFacts(order, e, delim);
    InsertAtElements(order, e, k);
    forall i, j | 0 <= i < j < |r| ensures r[i].poc == r[j].poc ==> r[i].slot < r[j].slot {
      if i == k {
        assert r[j] == order[j - 1];
      }
    }
  }

  lemma SameElements(refs: seq<Entry>, delim: int, e: Entry)
    ensures e in InsertAll(refs, delim) <==> e in refs
  {
    IsPermutation(refs, delim);
    assert e in InsertAll(refs, delim) <==> e in multiset(InsertAll(refs, delim));
    assert e in refs <==> e in multiset(refs);
  }

  /** One insertion into an ordered list leaves it ordered unless the frame is a stray. */
  lemma InsertOrdered(order: seq<Entry>, e: Entry, delim: int)
    requires NearlyOrdered(order, delim)
    ensures Ordered(Insert(order, e, delim), delim) <==>
            Ordered(order, delim) && (e.poc < delim && HasDelimiter(order, delim) ==> HasBelow(order, e.poc))
  {
    if !Ordered(order, delim) {
      StaysUnordered(order, e, Position(order, e.poc, delim, 0), delim);
    } else if e.poc < delim && HasDelimiter(order, delim) && !HasBelow(order, e.poc) {
      StrayGoesBehind(order, e, delim);
    } else {
      StaysOrdered(order, e, delim);
    }
  }

  lemma StaysUnordered(order: seq<Entry>, e: Entry, k: nat, delim: int)
    requires k <= |order| && !Ordered(order, delim)
    ensures !Ordered(InsertAt(order, e, k), delim)
  {
    InsertAtElements(order, e, k);
    var r := InsertAt(order, e, k);
    var i, j :| 0 <= i < j < |order| && !InOrder(order[i].poc, order[j].poc, delim);
    var i', j' := if i < k then i else i + 1, if j < k then j else j + 1;
    assert r[i'] == order[i] && r[j'] == order[j];
    assert !InOrder(r[i'].poc, r[j'].poc, delim);
  }

  lemma StaysOrdered(order: seq<Entry>, e: Entry, delim: int)
    requires Ordered(order, delim)
    requires e.poc < delim && HasDelimiter(order, delim) ==> HasBelow(order, e.poc)
    ensures Ordered(Insert(order, e, delim), delim)
  {
    var k := Position(order, e.poc, delim, 0);
    var r := InsertAt(order, e, k);
    PlaceFacts(order, e, delim);
    InsertAtElements(order, e, k);
    forall i, j | 0 <= i < j < |r| ensures InOrder(r[i].poc, r[j].poc, delim) {
      if i != k && j != k {
        assert InOrder(order[if i < k then i else i - 1].poc, order[if j < k then j else j - 1].poc, delim);
      } else if j == k && e.poc < delim {
        NotBehindDelimiter(order, e, delim, i);
      }
    }
  }

  lemma NotBehindDelimiter(order: seq<Entry>, e: Entry, delim: int, i: nat)
    requires Ordered(order, delim) && e.poc < delim && (HasDelimiter(order, delim) ==> HasBelow(order, e.poc))
    requires i < Position(order, e.poc, delim, 0)
    ensures order[i].poc != delim
  {
    assert order[i] in order;
    if HasDelimiter(order, delim) {
      var b :| b in order && b.poc < e.poc;
      var m :| 0 <= m < |order| && order[m] == b;
      assert InOrder(order[i].poc, order[m].poc, delim);
    }
  }

  /** With nothing below it in the list an earlier frame goes behind everything at the delimiter. */
  lemma StrayGoesBehind(order: seq<Entry>, e: Entry, delim: int)
    requires NearlyOrdered(order, delim)
    requires e.poc < delim && HasDelimiter(order, delim) && !HasBelow(order, e.poc)
    ensures !Ordered(Insert(order, e, delim), delim)
  {
    var k := Position(order, e.poc, delim, 0);
    InsertAtElements(order, e, k);
    forall i | k <= i < |order| ensures order[i].poc > delim {
      assert order[k] in order;
      assert i > k ==> NearlyInOrder(order[k].poc, order[i].poc, delim);
    }
    var d :| d in order && d.poc == delim;
    var i :| 0 <= i < |order| && order[i] == d;
    assert i < k && !InOrder(InsertAt(order, e, k)[i].poc, InsertAt(order, e, k)[k].poc, delim);
  }

  lemma NoStraySnoc(init: seq<Entry>, last: Entry, delim: int)
    ensures NoStray(init + [last], delim) <==>
            NoStray(init, delim) && (last.poc < delim && HasDelimiter(init, delim) ==> HasBelow(init, last.poc))
  {
    var refs := init + [last];
    assert refs[..|init|] == init && refs[|init|] == last;
    forall j | 0 <= j < |init| ensures refs[..j] == init[..j] && refs[j] == init[j] {
    }
    if NoStray(refs, delim) {
      forall j | 0 <= j < |init| && init[j].poc < delim && HasDelimiter(init[..j], delim)
        ensures HasBelow(init[..j], init[j].poc)
      {
        assert refs[..j] == init[..j] && refs[j] == init[j];
      }
    }
  }

  /** The output is in the order of section 8.2.4.2.3 exactly when the input has no stray. */
  lemma {:induction false} OrderedExactly(refs: seq<Entry>, delim: int)
    ensures Ordered(InsertAll(refs, delim), delim) <==> NoStray(refs, delim)
  {
    if refs == [] {
    } else {
      var init, last := refs[..|refs| - 1], refs[|refs| - 1];
      assert refs == init + [last];
      OrderedExactly(init, delim);
      AlwaysNearlyOrdered(init, delim);
      InsertOrdered(InsertAll(init, delim), last, delim);
      SameWitnesses(init, last.poc, delim);
      NoStraySnoc(init, last, delim);
    }
  }

  lemma SameWitnesses(refs: seq<Entry>, p: int, delim: int)
    ensures HasDelimiter(InsertAll(refs, delim), delim) <==> HasDelimiter(refs, delim)
    ensures HasBelow(InsertAll(refs, delim), p) <==> HasBelow(refs, p)
  {
    forall e: Entry ensures e in InsertAll(refs, delim) <==> e in refs {
      SameElements(refs, delim, e);
    }
  }

  lemma NoDelimiterNoStray(refs: seq<Entry>, delim: int)
    requires forall i :: 0 <= i < |refs| ==> refs[i].poc != delim
    ensures NoStray(refs, delim)
  {
  }

  /** A frame at the delimiter, then an earlier one: they come out the wrong way round. */
  lemma StrayExample()
    ensures InsertAll([Entry(0, 5), Entry(1, 3)], 5) == [Entry(0, 5), Entry(1, 3)]
    ensures !Ordered([Entry(0, 5), Entry(1, 3)], 5)
  {
    var refs := [Entry(0, 5), Entry(1, 3)];
    assert refs[..1] == [Entry(0, 5)] && [Entry(0, 5)][..0] == [];
    assert InsertAll([Entry(0, 5)], 5) == [Entry(0, 5)];
    assert !InOrder(refs[0].poc, refs[1].poc, 5);
  }

  lemma {:induction false} EarlierSum(a: seq<Entry>, b: seq<Entry>, delim: int)
    ensures Earlier(a + b, delim) == Earlier(a, delim) + Earlier(b, delim)
  {
    if b == [] {
      assert a + b == a;
    } else {
      EarlierSum(a, b[..|b| - 1], delim);
      assert (a + b)[..|a + b| - 1] == a + b[..|b| - 1];
    }
  }

  /** The order has as many frames before the delimiter as the input. */
  lemma {:induction false} EarlierKept(refs: seq<Entry>, delim: int)
    ensures Earlier(InsertAll(refs, delim), delim) == Earlier(refs, delim)
  {
    if refs == [] {
    } else {
      var init, last := refs[..|refs| - 1], refs[|refs| - 1];
      EarlierKept(init, delim);
      var order := InsertAll(init, delim);
      var k := Position(order, last.poc, delim, 0);
      assert order == order[..k] + order[k..];
      EarlierSum(order[..k], order[k..], delim);
      EarlierSum(order[..k] + [last], order[k..], delim);
      EarlierSum(order[..k], [last], delim);
      assert [last][..0] == [];
      assert Earlier([last], delim) == Earlier([], delim) + if last.poc < delim then 1 else 0;
    }
  }

  /** In an ordered list the frames before the delimiter are exactly the first ones, as many as counted. */
  lemma {:induction false} EarlierComeFirst(order: seq<Entry>, delim: int)
    requires Ordered(order, delim)
    ensures forall i :: 0 <= i < |order| ==> (i < Earlier(order, delim) <==> order[i].poc < delim)
  {
    if order == [] {
    } else {
      var n := |order| - 1;
      var init := order[..n];
      assert forall i :: 0 <= i < n ==> init[i] == order[i];
      EarlierComeFirst(init, delim);
      assert forall i :: 0 <= i < n ==> InOrder(order[i].poc, order[n].poc, delim);
    }
  }

  /**
   What the frame table gets: a stable permutation of the references in the order of section 8.2.4.2.3, and
   the count is the length of its first part, exactly when the input has no stray.
   */
  lemma SortedRefs(refs: seq<Entry>, delim: int)
    requires SlotsAscend(refs)
    ensures var order := InsertAll(refs, delim);
            && multiset(order) == multiset(refs) && Stable(order) && Earlier(order, delim) == Earlier(refs, delim)
            && (NoStray(refs, delim) <==> Ordered(order, delim))
            && (NoStray(refs, delim) ==>
                  forall i :: 0 <= i < |order| ==> (i < Earlier(order, delim) <==> order[i].poc < delim))
  {
    IsPermutation(refs, delim);
    IsStable(refs, delim);
    EarlierKept(refs, delim);
    OrderedExactly(refs, delim);
    if NoStray(refs, delim) {
      EarlierComeFirst(InsertAll(refs, delim), delim);
    }
  }
}
