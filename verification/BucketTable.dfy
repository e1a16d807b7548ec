/** The size classes of the buffer cache, and the bucket that serves a request. */
module BucketTable {
  import opened Bits

  const PAGE: nat := 4096
  const MAX_SIZE: nat := 64 * 1024 * 1024
  const TABLE_ROOM: nat := 14 * 4 * 2

  datatype Class = Class(size: nat, sparse: bool)

  /** The sizes from a power of two on: it and the three quarters above it, then the same for its double. */
  function Rungs(size: nat, max: nat, coarse: bool): (s: seq<nat>)
    requires size > 0
    decreases max + 1 - size
  {
    if size > max then []
    else
      (if coarse then [size] else [size, size + size * 1 / 4, size + size * 2 / 4, size + size * 3 / 4])
      + Rungs(size * 2, max, coarse)
  }

  function Sizes(max: nat, coarse: bool): (s: seq<nat>) {
    [PAGE, PAGE * 2] + (if coarse then [] else [PAGE * 3]) + Rungs(PAGE * 4, max, coarse)
  }

  ghost predicate Increasing(s: seq<nat>) {
    forall i, j :: 0 <= i < j < |s| ==> s[i] < s[j]
  }

  lemma {:induction false} RungsIncrease(size: nat, max: nat, coarse: bool)
    requires size > 0 && size % 4 == 0
    ensures Increasing(Rungs(size, max, coarse)) && forall i :: 0 <= i < |Rungs(size, max, coarse)| ==>
              size <= Rungs(size, max, coarse)[i]
    decreases max + 1 - size
  {
    if size > max {
    } else {
      RungsIncrease(size * 2, max, coarse);
    }
  }

  /** Sizes strictly increase, whatever the greatest size is. */
  lemma SizesIncrease(max: nat, coarse: bool)
    ensures Increasing(Sizes(max, coarse))
  {
    RungsIncrease(PAGE * 4, max, coarse);
  }

  lemma Quarters(size: nat, q: nat)
    requires size == 4 * q
    ensures size * 1 / 4 == q && size * 2 / 4 == 2 * q && size * 3 / 4 == 3 * q
  {
  }

  /** Neighbouring rungs of the fine table are at most a quarter apart. */
  lemma {:induction false} RungGaps(size: nat, q: nat, max: nat, k: nat)
    requires size > 0 && size == 4 * q && k + 1 < |Rungs(size, max, false)|
    ensures var s := Rungs(size, max, false); s[k] < s[k + 1] && 4 * (s[k + 1] - s[k]) <= s[k]
    decreases max + 1 - size
  {
    Quarters(size, q);
    var upper := Rungs(size * 2, max, false);
    assert Rungs(size, max, false) == [size, size + q, size + 2 * q, size + 3 * q] + upper;
    if k >= 4 {
      RungGaps(size * 2, 2 * q, max, k - 4);
    } else if k == 3 {
      assert upper[0] == size * 2;
    }
  }

  lemma Doubled(q: nat, p: nat, m: nat)
    ensures 2 * q * p * m == q * (2 * p) * m
  {
    assert 2 * q * p == q * (2 * p);
  }

  /** The rungs in numbers: every fourth one doubles, and the three behind it add a quarter of it each. */
  lemma {:induction false} RungIs(size: nat, q: nat, max: nat, k: nat, d: nat, m: nat)
    requires size > 0 && size == 4 * q && k == 4 * d + m && m < 4 && k < |Rungs(size, max, false)|
    ensures Rungs(size, max, false)[k] == q * Pow2(d) * (4 + m)
    decreases d
  {
    Quarters(size, q);
    var upper := Rungs(size * 2, max, false);
    assert Rungs(size, max, false) == [size, size + q, size + 2 * q, size + 3 * q] + upper;
    if d == 0 {
      assert q * Pow2(d) == q;
    } else {
      RungIs(size * 2, 2 * q, max, k - 4, d - 1, m);
      Doubled(q, Pow2(d - 1), 4 + m);
    }
  }

  /** With powers of two only, the rungs are just those. */
  lemma {:induction false} CoarseRungIs(size: nat, max: nat, k: nat)
    requires size > 0 && k < |Rungs(size, max, true)|
    ensures Rungs(size, max, true)[k] == size * Pow2(k)
    decreases k
  {
    if k == 0 {
    } else {
      CoarseRungIs(size * 2, max, k - 1);
      Doubled(size, Pow2(k - 1), 1);
    }
  }

  /** The sizes of the fine table: three by whole pages, then four to each doubling. */
  lemma SizeIs(max: nat, k: nat, d: nat, m: nat)
    requires k < |Sizes(max, false)|
    ensures k < 3 ==> Sizes(max, false)[k] == 4096 * (k + 1)
    ensures k == 3 + 4 * d + m && m < 4 ==> Sizes(max, false)[k] == 4096 * Pow2(d) * (4 + m)
  {
    assert Sizes(max, false) == [PAGE, PAGE * 2, PAGE * 3] + Rungs(PAGE * 4, max, false);
    if k == 3 + 4 * d + m && m < 4 {
      RungIs(PAGE * 4, PAGE, max, k - 3, d, m);
    }
  }

  /** The sizes of the coarse table: one page and its doublings. */
  lemma CoarseSizeIs(max: nat, k: nat)
    requires k < |Sizes(max, true)|
    ensures Sizes(max, true)[k] == 4096 * Pow2(k)
  {
    assert Sizes(max, true) == [PAGE, PAGE * 2] + Rungs(PAGE * 4, max, true);
    if k >= 2 {
      CoarseRungIs(PAGE * 4, max, k - 2);
      assert Pow2(k) == 2 * Pow2(k - 1) == 4 * Pow2(k - 2);
    } else {
      assert Pow2(k) == k + 1;
    }
  }

  function Classes(sizes: seq<nat>, sparse: bool): (c: seq<Class>)
    ensures |c| == |sizes| && forall i :: 0 <= i < |c| ==> c[i] == Class(sizes[i], sparse)
  {
    seq(|sizes|, i requires 0 <= i < |sizes| => Class(sizes[i], sparse))
  }

  /** All contiguous classes, then all sparse ones. */
  function Table(max: nat): (t: seq<Class>) {
    Classes(Sizes(max, false), false) + Classes(Sizes(max, false), true)
  }

  /** The first class from `from` on that is big enough, or the end of the table. */
  function FirstFit(table: seq<Class>, from: nat, size: nat, sparse: bool): (i: nat)
    requires from <= |table|
    ensures from <= i <= |table|
    decreases |table| - from
  {
    if from == |table| || (table[from].size >= size && table[from].sparse == sparse) then from
    else FirstFit(table, from + 1, size, sparse)
  }

  lemma {:induction false} FirstFitIs(table: seq<Class>, from: nat, size: nat, sparse: bool, i: nat)
    requires from <= |table| && i == FirstFit(table, from, size, sparse)
    ensures i < |table| ==> table[i].size >= size && table[i].sparse == sparse
    ensures forall k :: from <= k < i ==> !(table[k].size >= size && table[k].sparse == sparse)
    decreases |table| - from
  {
    if from >= i {
    } else {
      FirstFitIs(table, from + 1, size, sparse, i);
    }
  }

  /** The bucket of a request: of its own class, or a contiguous one instead of a sparse one; or none. */
  function BucketOf(table: seq<Class>, size: nat, sparse: bool): (i: nat)
    ensures i <= |table|
  {
    var own := if sparse then FirstFit(table, 0, size, true) else |table|;
    if own < |table| then own else FirstFit(table, 0, size, false)
  }

  /** The bucket found is big enough, and the first such one of its kind. */
  lemma BucketFits(table: seq<Class>, size: nat, sparse: bool, i: nat)
    requires i == BucketOf(table, size, sparse) && i < |table|
    ensures table[i].size >= size && (table[i].sparse ==> sparse) && i == FirstFit(table, 0, size, table[i].sparse)
    ensures forall k :: 0 <= k < i && table[k].sparse == table[i].sparse ==> table[k].size < size
  {
    FirstFitIs(table, 0, size, true, FirstFit(table, 0, size, true));
    FirstFitIs(table, 0, size, false, FirstFit(table, 0, size, false));
  }

  /**
   * There is no bucket exactly when no contiguous class is big enough, nor a sparse one for a sparse request; and a
   * sparse request gets a contiguous one only when no sparse class is big enough.
   */
  lemma NoBucketExactly(table: seq<Class>, size: nat, sparse: bool, i: nat)
    requires i == BucketOf(table, size, sparse)
    ensures i == |table| <==> forall k :: 0 <= k < |table| ==> table[k].size < size || (table[k].sparse && !sparse)
    ensures i < |table| && sparse && !table[i].sparse ==>
              forall k :: 0 <= k < |table| && table[k].sparse ==> table[k].size < size
  {
    FirstFitIs(table, 0, size, true, FirstFit(table, 0, size, true));
    FirstFitIs(table, 0, size, false, FirstFit(table, 0, size, false));
  }

  /** Within each class the table is strictly increasing. */
  ghost predicate Sorted(table: seq<Class>) {
    forall i, j :: 0 <= i < j < |table| && table[i].sparse == table[j].sparse ==> table[i].size < table[j].size
  }

  lemma TableSorted(max: nat)
    ensures Sorted(Table(max))
  {
    SizesIncrease(max, false);
  }

  lemma FitIs(table: seq<Class>, size: nat, sparse: bool, i: nat)
    requires Sorted(table) && i < |table| && table[i] == Class(size, sparse)
    ensures FirstFit(table, 0, size, sparse) == i
  {
    FirstFitIs(table, 0, size, sparse, FirstFit(table, 0, size, sparse));
    assert forall k :: 0 <= k < i && table[k].sparse == sparse ==> table[k].size < size;
  }

  /** The bucket is the least one of its class that is big enough, and it is its own bucket. */
  lemma BucketIsLeast(table: seq<Class>, size: nat, sparse: bool, i: nat)
    requires Sorted(table) && i == BucketOf(table, size, sparse) && i < |table|
    ensures size <= table[i].size && (table[i].sparse ==> sparse)
    ensures forall k :: 0 <= k < |table| && table[k].sparse == table[i].sparse && size <= table[k].size ==>
              table[i].size <= table[k].size
    ensures table[i].sparse == sparse ==> BucketOf(table, table[i].size, sparse) == i
  {
    BucketFits(table, size, sparse, i);
    FitIs(table, table[i].size, table[i].sparse, i);
  }

  lemma FitInSparseHalf(sizes: seq<nat>, table: seq<Class>, size: nat, k: nat)
    requires Increasing(sizes) && table == Classes(sizes, false) + Classes(sizes, true)
    requires k < |sizes| && size <= sizes[k]
    ensures FirstFit(table, 0, size, true) <= |sizes| + k && FirstFit(table, 0, size, false) <= k
  {
    FirstFitIs(table, 0, size, true, FirstFit(table, 0, size, true));
    FirstFitIs(table, 0, size, false, FirstFit(table, 0, size, false));
    assert table[|sizes| + k] == Class(sizes[k], true) && table[k] == Class(sizes[k], false);
  }

  /**
   * In the whole table both classes have the same sizes, so a request of either kind finds a bucket of its own kind.
   */
  lemma OwnKind(max: nat, size: nat, sparse: bool, i: nat)
    requires i == BucketOf(Table(max), size, sparse) && i < |Table(max)|
    ensures Table(max)[i].sparse == sparse
  {
    var sizes, table := Sizes(max, false), Table(max);
    SizesIncrease(max, false);
    BucketFits(table, size, sparse, i);
    FirstFitIs(table, 0, size, true, FirstFit(table, 0, size, true));
    if sparse && !table[i].sparse {
      assert table[i] == Class(sizes[i], false);
      FitInSparseHalf(sizes, table, size, i);
    }
  }

  /** Looking up the size of a bucket finds the bucket again. */
  lemma BucketIsStable(max: nat, size: nat, sparse: bool, i: nat)
    requires i == BucketOf(Table(max), size, sparse) && i < |Table(max)|
    ensures size <= Table(max)[i].size && BucketOf(Table(max), Table(max)[i].size, sparse) == i
  {
    TableSorted(max);
    OwnKind(max, size, sparse, i);
    BucketIsLeast(Table(max), size, sparse, i);
  }

  lemma FineSizes(max: nat, k: nat)
    requires k + 1 < |Sizes(max, false)|
    ensures var s := Sizes(max, false);
            s[k] < s[k + 1] && (if k < 3 then s[k + 1] == s[k] + PAGE && s[k] == (k + 1) * PAGE
                                else 4 * (s[k + 1] - s[k]) <= s[k])
  {
    var s, rungs := Sizes(max, false), Rungs(PAGE * 4, max, false);
    assert s == [PAGE, PAGE * 2, PAGE * 3] + rungs;
    if k >= 3 {
      RungGaps(PAGE * 4, PAGE, max, k - 3);
    } else if k == 2 {
      assert rungs[0] == PAGE * 4;
    }
  }

  /** A request of whole pages that some bucket can hold wastes at most a quarter of its size. */
  lemma WasteIsBounded(max: nat, size: nat, sparse: bool, i: nat)
    requires 0 < size && size % PAGE == 0
    requires i == BucketOf(Table(max), size, sparse) && i < |Table(max)|
    ensures 4 * (Table(max)[i].size - size) <= size
  {
    var sizes, table := Sizes(max, false), Table(max);
    OwnKind(max, size, sparse, i);
    BucketFits(table, size, sparse, i);
    var k := if sparse then i - |sizes| else i;
    assert table[i].size == sizes[k];
    if k > 0 {
      FineSizes(max, k - 1);
      assert table[i - 1] == Class(sizes[k - 1], sparse);
      assert sizes[k - 1] < size;
    }
  }

  /** The loop that finds the first fitting class. */
  method FindFit(table: seq<Class>, size: nat, sparse: bool) returns (i: nat)
    ensures i == FirstFit(table, 0, size, sparse)
  {
    i := 0;
    while i < |table| && !(table[i].size >= size && table[i].sparse == sparse)
      invariant i <= |table| && FirstFit(table, i, size, sparse) == FirstFit(table, 0, size, sparse)
    {
      i := i + 1;
    }
  }

  method GetBucket(table: seq<Class>, size: nat, sparse: bool) returns (i: nat)
    ensures i == BucketOf(table, size, sparse)
  {
    if sparse {
      i := FindFit(table, size, true);
      if i < |table| {
        return;
      }
    }
    i := FindFit(table, size, false);
  }

  /** Adds the classes of one kind to the table. */
  method AddClasses(table: seq<Class>, coarse: bool, sparse: bool, max: nat) returns (t: seq<Class>)
    ensures t == table + Classes(Sizes(max, coarse), sparse)
  {
    t := table + [Class(PAGE, sparse), Class(PAGE * 2, sparse)];
    if !coarse {
      t := t + [Class(PAGE * 3, sparse)];
    }
    ghost var sizes: seq<nat> := [PAGE, PAGE * 2] + if coarse then [] else [PAGE * 3];
    var size := PAGE * 4;
    while size <= max
      invariant size > 0 && t == table + Classes(sizes, sparse)
                && sizes + Rungs(size, max, coarse) == Sizes(max, coarse)
      decreases max + 1 - size
    {
      t := t + [Class(size, sparse)];
      ghost var more: seq<nat> := [size];
      if !coarse {
        t := t + [Class(size + size * 1 / 4, sparse), Class(size + size * 2 / 4, sparse),
                  Class(size + size * 3 / 4, sparse)];
        more := [size, size + size * 1 / 4, size + size * 2 / 4, size + size * 3 / 4];
      }
      assert Rungs(size, max, coarse) == more + Rungs(size * 2, max, coarse);
      assert sizes + (more + Rungs(size * 2, max, coarse)) == sizes + more + Rungs(size * 2, max, coarse);
      sizes := sizes + more;
      size := size * 2;
    }
    assert sizes + [] == sizes;
  }

  method BuildTable() returns (t: seq<Class>)
    ensures t == Table(MAX_SIZE)
  {
    t := AddClasses([], false, false, MAX_SIZE);
    assert [] + Classes(Sizes(MAX_SIZE, false), false) == Classes(Sizes(MAX_SIZE, false), false);
    t := AddClasses(t, false, true, MAX_SIZE);
  }

  lemma Halved(size: nat, h: nat, top: nat)
    requires top == size * (2 * h) && h >= 1
    ensures top == size * 2 * h && top >= size * 2
  {
    assert size * (2 * h) == size * 2 * h;
  }

  /** The rungs: four for every doubling that stays within the greatest size, up to seven quarters of the last one. */
  lemma {:induction false} RungCount(size: nat, q: nat, max: nat, doublings: nat, p: nat, top: nat)
    requires size > 0 && size == 4 * q && p == Pow2(doublings) && top == size * p && top <= max < 2 * top
    ensures var s := Rungs(size, max, false); |s| == 4 * (doublings + 1) && 4 * s[|s| - 1] == 7 * top
    decreases doublings
  {
    Quarters(size, q);
    var upper := Rungs(size * 2, max, false);
    if doublings == 0 {
      assert upper == [];
      assert Rungs(size, max, false) == [size, size + q, size + 2 * q, size + 3 * q];
    } else {
      var h := Pow2(doublings - 1);
      Halved(size, h, top);
      RungCount(size * 2, 2 * q, max, doublings - 1, h, top);
      assert Rungs(size, max, false) == [size, size + q, size + 2 * q, size + 3 * q] + upper;
    }
  }

  const TOP: nat := 112 * 1024 * 1024

  /** The array of buckets has room for both kinds, and the greatest bucket is of 112 MiB. */
  lemma TableFits()
    ensures |Table(MAX_SIZE)| == 110 <= TABLE_ROOM && |Sizes(MAX_SIZE, false)| == 55
            && Sizes(MAX_SIZE, false)[54] == TOP
  {
    assert Pow2(12) == 4096;
    RungCount(PAGE * 4, PAGE, MAX_SIZE, 12, 4096, MAX_SIZE);
    var s, rungs := Sizes(MAX_SIZE, false), Rungs(PAGE * 4, MAX_SIZE, false);
    assert s == [PAGE, PAGE * 2, PAGE * 3] + rungs;
  }

  /** No bucket is of more than 112 MiB. */
  lemma TableIsBounded()
    ensures forall i :: 0 <= i < |Table(MAX_SIZE)| ==> Table(MAX_SIZE)[i].size <= TOP
  {
    var s, table := Sizes(MAX_SIZE, false), Table(MAX_SIZE);
    TableFits();
    SizesIncrease(MAX_SIZE, false);
    ClassesAreBounded(s, table);
  }

  lemma ClassesAreBounded(s: seq<nat>, table: seq<Class>)
    requires |s| == 55 && s[54] == TOP && Increasing(s) && table == Classes(s, false) + Classes(s, true)
    ensures forall i :: 0 <= i < |table| ==> table[i].size <= TOP
  {
    forall i | 0 <= i < |table| ensures table[i].size <= TOP {
      assert table[i].size == s[if i < 55 then i else i - 55];
    }
  }

  /** A request finds a bucket exactly when it is for no more than 112 MiB. */
  lemma HasBucketExactly(size: nat, sparse: bool)
    ensures BucketOf(Table(MAX_SIZE), size, sparse) < |Table(MAX_SIZE)| <==> size <= TOP
  {
    var s, table := Sizes(MAX_SIZE, false), Table(MAX_SIZE);
    TableFits();
    SizesIncrease(MAX_SIZE, false);
    TopOfTable(s, table, size, sparse);
  }

  lemma TopOfTable(s: seq<nat>, table: seq<Class>, size: nat, sparse: bool)
    requires |s| == 55 && s[54] == TOP && Increasing(s) && table == Classes(s, false) + Classes(s, true)
    ensures BucketOf(table, size, sparse) < |table| <==> size <= TOP
  {
    assert table[54] == Class(TOP, false) && table[109] == Class(TOP, true);
    ClassesAreBounded(s, table);
    FirstFitIs(table, 0, size, true, FirstFit(table, 0, size, true));
    FirstFitIs(table, 0, size, false, FirstFit(table, 0, size, false));
  }
}
