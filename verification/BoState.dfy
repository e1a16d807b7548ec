/** The state of the buffer-object cache: what holds of buckets, mappings, handles and reference counts. */
module BoState {
  import opened BucketTable

  type Addr = int

  /**
   * A buffer object. `bucketed` says that its bucket link is on a list; a mapping is a number other than 0, held in
   * `mapping` while the object is mapped and in `mapCached` while the mapping waits to be used again.
   */
  datatype Bo = Bo(handle: int, sparse: bool, size: nat, ref: nat, mmapRef: nat, mapping: int, reuse: bool,
                   freeTime: int, unmapTime: int, mapCached: int, bucketed: bool)

  /** The objects that exist, by address. A freed object is not in it. */
  type Heap = map<Addr, Bo>

  function Home(table: seq<Class>, bo: Bo): (i: nat)
    ensures i <= |table|
  {
    BucketOf(table, bo.size, bo.sparse)
  }

  /**
   * Every request finds a bucket of its own kind that is big enough, and looking up that bucket's size finds it again;
   * or none. No bucket is of more than 112 MiB.
   */
  ghost predicate Stable(table: seq<Class>) {
    (forall i :: 0 <= i < |table| ==> table[i].size <= TOP)
    && forall size: nat, sparse: bool :: BucketOf(table, size, sparse) < |table| ==>
      var i := BucketOf(table, size, sparse);
      size <= table[i].size && table[i].sparse == sparse && BucketOf(table, table[i].size, sparse) == i
  }

  lemma TableIsStable()
    ensures Stable(Table(MAX_SIZE))
  {
    var table := Table(MAX_SIZE);
    TableIsBounded();
    forall size: nat, sparse: bool | BucketOf(table, size, sparse) < |table|
      ensures var i := BucketOf(table, size, sparse);
              size <= table[i].size && table[i].sparse == sparse && BucketOf(table, table[i].size, sparse) == i
    {
      OwnKind(MAX_SIZE, size, sparse, BucketOf(table, size, sparse));
      BucketIsStable(MAX_SIZE, size, sparse, BucketOf(table, size, sparse));
    }
  }

  ghost predicate Distinct(list: seq<Addr>) {
    forall i, j :: 0 <= i < j < |list| ==> list[i] != list[j]
  }

  /** The list without its element at `k`. */
  function Cut(list: seq<Addr>, k: nat): (r: seq<Addr>)
    requires k < |list|
    ensures |r| == |list| - 1
    ensures forall i :: 0 <= i < |r| ==> r[i] == if i < k then list[i] else list[i + 1]
  {
    list[..k] + list[k + 1..]
  }

  function Elements(list: seq<Addr>): (s: set<Addr>) {
    set x | x in list
  }

  /** A clean-up that has freed `n` objects of a bucket. */
  ghost predicate Cleaning(heap0: Heap, heap: Heap, list0: seq<Addr>, list: seq<Addr>, n: nat) {
    n <= |list0| && list == list0[n..] && heap == heap0 - Elements(list0[..n])
  }

  lemma CleaningNone(heap: Heap, list: seq<Addr>)
    ensures Cleaning(heap, heap, list, list, 0)
  {
    assert heap - Elements(list[..0]) == heap;
  }

  lemma CleaningMore(heap0: Heap, heap: Heap, heap': Heap, list0: seq<Addr>, list: seq<Addr>, n: nat)
    requires Cleaning(heap0, heap, list0, list, n) && list != [] && heap' == heap - {list[0]}
    ensures Cleaning(heap0, heap', list0, Cut(list, 0), n + 1)
  {
    assert Elements(list0[..n + 1]) == Elements(list0[..n]) + {list0[n]} by {
      assert list0[..n + 1] == list0[..n] + [list0[n]];
    }
  }

  lemma CutIs(list: seq<Addr>, k: nat)
    requires Distinct(list) && k < |list|
    ensures Distinct(Cut(list, k)) && forall c :: c in Cut(list, k) <==> c in list && c != list[k]
  {
    var rest := Cut(list, k);
    forall c | c in list && c != list[k] ensures c in rest {
      var m :| 0 <= m < |list| && list[m] == c;
      assert rest[if m < k then m else m - 1] == c;
    }
  }

  // Buckets

  ghost predicate ByFreeTime(heap: Heap, list: seq<Addr>)
    requires forall k :: 0 <= k < |list| ==> list[k] in heap
  {
    forall j, k :: 0 <= j < k < |list| ==> heap[list[j]].freeTime <= heap[list[k]].freeTime
  }

  ghost predicate ByUnmapTime(heap: Heap, list: seq<Addr>)
    requires forall k :: 0 <= k < |list| ==> list[k] in heap
  {
    forall j, k :: 0 <= j < k < |list| ==> heap[list[j]].unmapTime <= heap[list[k]].unmapTime
  }

  ghost predicate InBucket(table: seq<Class>, bo: Bo, i: nat)
    requires i < |table|
  {
    bo.bucketed && Home(table, bo) == i && bo.size == table[i].size
  }

  /** A bucket holds idle objects of its own size, the oldest first. */
  ghost predicate BucketOk(table: seq<Class>, heap: Heap, list: seq<Addr>, i: nat)
    requires i < |table|
  {
    && Distinct(list)
    && (forall k :: 0 <= k < |list| ==> list[k] in heap && InBucket(table, heap[list[k]], i))
    && ByFreeTime(heap, list)
  }

  ghost predicate BucketsOk(table: seq<Class>, heap: Heap, lists: seq<seq<Addr>>, numEntries: seq<nat>) {
    && |lists| == |numEntries| == |table|
    && (forall i :: 0 <= i < |table| ==> BucketOk(table, heap, lists[i], i) && numEntries[i] == |lists[i]|)
    && forall b :: b in heap && heap[b].bucketed ==> Home(table, heap[b]) < |table| && b in lists[Home(table, heap[b])]
  }

  /** The parts of an object the buckets depend on. */
  predicate SameInBucket(a: Bo, b: Bo) {
    a.bucketed == b.bucketed && a.size == b.size && a.sparse == b.sparse && a.freeTime == b.freeTime
  }

  lemma BucketsKeep(table: seq<Class>, heap: Heap, heap': Heap, lists: seq<seq<Addr>>, numEntries: seq<nat>)
    requires BucketsOk(table, heap, lists, numEntries)
    requires forall b :: b in heap && heap[b].bucketed ==> b in heap'
    requires forall b :: b in heap' ==> if b in heap then SameInBucket(heap[b], heap'[b]) else !heap'[b].bucketed
    ensures BucketsOk(table, heap', lists, numEntries)
  {
    forall i | 0 <= i < |table| ensures BucketOk(table, heap', lists[i], i) {
      assert BucketOk(table, heap, lists[i], i);
      forall k | 0 <= k < |lists[i]| ensures lists[i][k] in heap' && InBucket(table, heap'[lists[i][k]], i) {
        var b := lists[i][k];
        assert b in heap && heap[b].bucketed;
        assert b in heap';
      }
    }
  }

  lemma BucketsTake(table: seq<Class>, heap: Heap, lists: seq<seq<Addr>>, numEntries: seq<nat>, i: nat, k: nat, b: Addr)
    requires BucketsOk(table, heap, lists, numEntries) && i < |table| && k < |lists[i]| && b == lists[i][k]
    ensures b in heap && Home(table, heap[b]) == i && numEntries[i] > 0
    ensures BucketsOk(table, heap[b := heap[b].(bucketed := false)], lists[i := Cut(lists[i], k)],
                      numEntries[i := numEntries[i] - 1])
  {
    assert BucketOk(table, heap, lists[i], i);
    var heap', list := heap[b := heap[b].(bucketed := false)], Cut(lists[i], k);
    CutIs(lists[i], k);
    forall j | 0 <= j < |list| ensures list[j] in heap' && InBucket(table, heap'[list[j]], i) {
      assert list[j] in list;
    }
    assert BucketOk(table, heap', list, i);
    forall j | 0 <= j < |table| && j != i ensures BucketOk(table, heap', lists[j], j) {
      assert BucketOk(table, heap, lists[j], j);
    }
  }

  lemma BucketsPut(table: seq<Class>, heap: Heap, heap': Heap, lists: seq<seq<Addr>>, numEntries: seq<nat>, i: nat,
                   b: Addr, bo: Bo)
    requires BucketsOk(table, heap, lists, numEntries) && b in heap && !heap[b].bucketed && heap' == heap[b := bo]
    requires i < |table| && InBucket(table, bo, i)
    requires forall k :: 0 <= k < |lists[i]| ==> lists[i][k] in heap && heap[lists[i][k]].freeTime <= bo.freeTime
    ensures BucketsOk(table, heap', lists[i := lists[i] + [b]], numEntries[i := numEntries[i] + 1])
  {
    var list := lists[i] + [b];
    assert BucketOk(table, heap, lists[i], i);
    forall k | 0 <= k < |lists[i]| ensures lists[i][k] != b {
      assert InBucket(table, heap[lists[i][k]], i);
    }
    assert BucketOk(table, heap', list, i);
    forall j | 0 <= j < |table| && j != i ensures BucketOk(table, heap', lists[j], j) {
      assert BucketOk(table, heap, lists[j], j);
      forall k | 0 <= k < |lists[j]| ensures lists[j][k] != b {
        assert InBucket(table, heap[lists[j][k]], j);
      }
    }
    assert list[|lists[i]|] == b;
    forall c | c in heap' && heap'[c].bucketed && Home(table, heap'[c]) == i ensures c in list {
      if c != b {
        var m :| 0 <= m < |lists[i]| && lists[i][m] == c;
        assert list[m] == c;
      }
    }
  }

  // Ageing

  const KEEP_BYTES: nat := 4 * 1024 * 1024

  /** A clean-up leaves small buckets with little in them alone. */
  predicate FreeUp(size: nat, num: nat) {
    size > 16384 || size * num > 65536
  }

  /** A clean-up stops at an object of this age, with this many left in the bucket. */
  predicate Stops(size: nat, num: nat, age: int) {
    age <= 30 || (age < 60 && num < 5) || (age < 300 && size * num < KEEP_BYTES)
  }

  /** Where a clean-up at `time` stops that has come to place `n` of a bucket. At time 0 everything goes. */
  function StopsAt(heap: Heap, list: seq<Addr>, size: nat, time: int, n: nat): (k: nat)
    requires n <= |list| && forall j :: 0 <= j < |list| ==> list[j] in heap
    ensures n <= k <= |list|
    decreases |list| - n
  {
    if n == |list| || (time != 0 && Stops(size, |list| - n, time - heap[list[n]].freeTime)) then n
    else StopsAt(heap, list, size, time, n + 1)
  }

  /** How many objects a clean-up of a bucket frees. */
  function NumFreed(heap: Heap, list: seq<Addr>, size: nat, time: int): (k: nat)
    requires forall j :: 0 <= j < |list| ==> list[j] in heap
    ensures k <= |list|
  {
    if time != 0 && !FreeUp(size, |list|) then 0 else StopsAt(heap, list, size, time, 0)
  }

  ghost predicate StopsFrom(heap: Heap, list: seq<Addr>, size: nat, time: int, n: nat) {
    (forall j :: 0 <= j < |list| ==> list[j] in heap) && n <= |list|
    && StopsAt(heap, list, size, time, n) == StopsAt(heap, list, size, time, 0)
  }

  /** It stops at the first object that may stay. */
  lemma {:induction false} StopsWhere(heap: Heap, list: seq<Addr>, size: nat, time: int, n: nat)
    requires n <= |list| && forall j :: 0 <= j < |list| ==> list[j] in heap
    ensures var k := StopsAt(heap, list, size, time, n);
            && (time == 0 ==> k == |list|)
            && (time != 0 && k < |list| ==> Stops(size, |list| - k, time - heap[list[k]].freeTime))
            && forall j :: n <= j < k && time != 0 ==> !Stops(size, |list| - j, time - heap[list[j]].freeTime)
    decreases |list| - n
  {
    if n == |list| || (time != 0 && Stops(size, |list| - n, time - heap[list[n]].freeTime)) {
    } else {
      StopsWhere(heap, list, size, time, n + 1);
    }
  }

  /** What a clean-up leaves of a bucket. */
  ghost predicate BucketCleaned(heap: Heap, list: seq<Addr>, list': seq<Addr>, size: nat, time: int) {
    (forall j :: 0 <= j < |list| ==> list[j] in heap) && list' == list[NumFreed(heap, list, size, time)..]
  }

  /**
   * A clean-up of a bucket at a time that is not 0, in numbers. A bucket of more than 16 KiB, or with more than 64 KiB
   * in it, has no object of 300 seconds left; any other one loses none. Each object freed was older than 30 seconds,
   * not below 60 seconds among fewer than five, and not below 300 seconds with less than 4 MiB in the bucket; the
   * first one kept in a bucket that is cleaned up fails one of these three.
   */
  ghost predicate AgedOut(heap: Heap, list: seq<Addr>, list': seq<Addr>, size: nat, time: int) {
    && (forall j :: 0 <= j < |list| ==> list[j] in heap) && |list'| <= |list|
    && var k := |list| - |list'|;
    && list' == list[k..]
    && (forall j :: 0 <= j < k ==>
          var age, left := time - heap[list[j]].freeTime, |list| - j;
          age > 30 && !(age < 60 && left < 5) && !(age < 300 && size * left < 0x40_0000))
    && if size > 16384 || size * |list| > 65536 then
         && (forall j :: k <= j < |list| ==> time - heap[list[j]].freeTime < 300)
         && (k < |list| ==>
               var age, left := time - heap[list[k]].freeTime, |list| - k;
               age <= 30 || (age < 60 && left < 5) || (age < 300 && size * left < 0x40_0000))
       else k == 0
  }

  /** As a bucket is ordered by age, stopping at the first object that may stay is complete. */
  lemma CleanupIsComplete(heap: Heap, list: seq<Addr>, list': seq<Addr>, size: nat, time: int)
    requires BucketCleaned(heap, list, list', size, time) && ByFreeTime(heap, list)
    ensures if time == 0 then list' == [] else AgedOut(heap, list, list', size, time)
  {
    StopsWhere(heap, list, size, time, 0);
    var k := NumFreed(heap, list, size, time);
    assert |list'| == |list| - k;
    if k < |list| && time != 0 && FreeUp(size, |list|) {
      forall j | k <= j < |list| ensures time - heap[list[j]].freeTime < 300 {
        assert k < j ==> heap[list[k]].freeTime <= heap[list[j]].freeTime;
      }
    }
  }

  lemma AllAgedOut(table: seq<Class>, heap: Heap, lists: seq<seq<Addr>>, numEntries: seq<nat>, lists': seq<seq<Addr>>,
                   time: int)
    requires BucketsOk(table, heap, lists, numEntries) && |lists'| == |table|
    requires forall i :: 0 <= i < |table| ==> BucketCleaned(heap, lists[i], lists'[i], table[i].size, time)
    ensures forall i :: 0 <= i < |table| ==>
              if time == 0 then lists'[i] == [] else AgedOut(heap, lists[i], lists'[i], table[i].size, time)
  {
    forall i | 0 <= i < |table|
      ensures if time == 0 then lists'[i] == [] else AgedOut(heap, lists[i], lists'[i], table[i].size, time)
    {
      assert BucketOk(table, heap, lists[i], i);
      CleanupIsComplete(heap, lists[i], lists'[i], table[i].size, time);
    }
  }

  lemma {:induction false} StopsAtKeeps(heap: Heap, heap': Heap, list: seq<Addr>, size: nat, time: int, n: nat)
    requires n <= |list| && forall j :: 0 <= j < |list| ==>
               list[j] in heap && list[j] in heap' && heap[list[j]].freeTime == heap'[list[j]].freeTime
    ensures StopsAt(heap, list, size, time, n) == StopsAt(heap', list, size, time, n)
    decreases |list| - n
  {
    if n >= |list| {
    } else {
      StopsAtKeeps(heap, heap', list, size, time, n + 1);
    }
  }

  /** Objects have gone, all of them from buckets; the others are as they were. */
  ghost predicate Evicted(heap: Heap, heap': Heap, owners: map<Addr, nat>, owners': map<Addr, nat>) {
    && (forall b :: b in heap' ==> b in heap && heap'[b] == heap[b])
    && (forall b :: b in heap && b !in heap' ==> heap[b].bucketed)
    && (forall b :: b in owners' ==> b in owners && owners'[b] == owners[b])
  }

  /** The same, but for one object that has changed. */
  ghost predicate EvictedBut(heap: Heap, heap': Heap, owners: map<Addr, nat>, owners': map<Addr, nat>, but: Addr) {
    && (forall b :: b in heap' && b != but ==> b in heap && heap'[b] == heap[b])
    && (forall b :: b in heap && b !in heap' && b != but ==> heap[b].bucketed)
    && (forall b :: b in owners' && b != but ==> b in owners && owners'[b] == owners[b])
  }

  lemma EvictedSet(heap: Heap, heap1: Heap, heap2: Heap, owners: map<Addr, nat>, owners1: map<Addr, nat>,
                   owners2: map<Addr, nat>, b: Addr, bo: Bo, n: nat)
    requires Evicted(heap, heap1, owners, owners1) && heap2 == heap1[b := bo] && owners2 == owners1[b := n]
    ensures EvictedBut(heap, heap2, owners, owners2, b)
  {
  }

  lemma EvictedBoth(a: Heap, b: Heap, c: Heap, ownersA: map<Addr, nat>, ownersB: map<Addr, nat>,
                    ownersC: map<Addr, nat>)
    requires Evicted(a, b, ownersA, ownersB) && Evicted(b, c, ownersB, ownersC)
    ensures Evicted(a, c, ownersA, ownersC)
  {
    forall x | x in a && x !in c ensures a[x].bucketed {
      if x in b {
        assert b[x] == a[x];
      }
    }
  }

  /** A bucket's clean-up is the same whether or not other buckets have been cleaned up before. */
  lemma CleanedLater(table: seq<Class>, heap0: Heap, heap1: Heap, i: nat, list: seq<Addr>, list': seq<Addr>, time: int)
    requires i < |table| && BucketOk(table, heap1, list, i) && BucketCleaned(heap1, list, list', table[i].size, time)
    requires forall b :: b in heap1 ==> b in heap0 && heap1[b] == heap0[b]
    ensures BucketCleaned(heap0, list, list', table[i].size, time)
  {
    forall j | 0 <= j < |list| ensures list[j] in heap0 && heap0[list[j]].freeTime == heap1[list[j]].freeTime {
      var b := list[j];
      assert b in heap1;
    }
    StopsAtKeeps(heap0, heap1, list, table[i].size, time, 0);
  }

  lemma EvictedAll(table: seq<Class>, heap: Heap, heap': Heap, owners: map<Addr, nat>, owners': map<Addr, nat>,
                   list: seq<Addr>, list': seq<Addr>, i: nat, n: nat)
    requires i < |table| && BucketOk(table, heap, list, i) && Cleaning(heap, heap', list, list', n)
    requires forall b :: b in owners' ==> b in owners && owners'[b] == owners[b]
    ensures Evicted(heap, heap', owners, owners')
  {
    forall b | b in heap && b !in heap' ensures heap[b].bucketed {
      assert b in list[..n];
      var k :| 0 <= k < n && list[..n][k] == b;
      assert InBucket(table, heap[list[k]], i);
    }
  }

  // The cache of mappings

  /** How many of the first `n` objects of the list belong to bucket `i`. */
  function Count(table: seq<Class>, heap: Heap, list: seq<Addr>, n: nat, i: nat): (c: nat)
    requires n <= |list|
  {
    if n == 0 then 0
    else
      Count(table, heap, list, n - 1, i)
      + if list[n - 1] in heap && Home(table, heap[list[n - 1]]) == i then 1 else 0
  }

  /** The list holds exactly the objects with a parked mapping, the oldest first. */
  ghost predicate ParkedOk(heap: Heap, list: seq<Addr>) {
    && Distinct(list)
    && (forall k :: 0 <= k < |list| ==> list[k] in heap && heap[list[k]].mapCached != 0)
    && ByUnmapTime(heap, list)
    && forall b :: b in heap && heap[b].mapCached != 0 ==> b in list
  }

  /** The buckets count the objects on the list. */
  ghost predicate CountsOk(table: seq<Class>, heap: Heap, list: seq<Addr>, numMmap: seq<nat>) {
    |numMmap| == |table| && forall i :: 0 <= i < |table| ==> numMmap[i] == Count(table, heap, list, |list|, i)
  }

  ghost predicate MmapOk(table: seq<Class>, heap: Heap, list: seq<Addr>, numMmap: seq<nat>) {
    ParkedOk(heap, list) && CountsOk(table, heap, list, numMmap)
  }

  /** The parts of an object the cache of mappings depends on. */
  predicate SameMmap(a: Bo, b: Bo) {
    a.mapCached == b.mapCached && a.unmapTime == b.unmapTime && a.size == b.size && a.sparse == b.sparse
  }

  lemma {:induction false} CountKeeps(table: seq<Class>, heap: Heap, heap': Heap, a: seq<Addr>, b: seq<Addr>, n: nat,
                                      i: nat)
    requires n <= |a| && n <= |b| && forall k :: 0 <= k < n ==> a[k] == b[k]
    requires forall k :: 0 <= k < n ==>
               a[k] in heap && a[k] in heap' && heap[a[k]].size == heap'[a[k]].size
                 && heap[a[k]].sparse == heap'[a[k]].sparse
    ensures Count(table, heap, a, n, i) == Count(table, heap', b, n, i)
  {
    if n == 0 {
    } else {
      CountKeeps(table, heap, heap', a, b, n - 1, i);
    }
  }

  lemma {:induction false} CountCut(table: seq<Class>, heap: Heap, list: seq<Addr>, rest: seq<Addr>, m: nat, n: nat,
                                    k: nat, i: nat)
    requires k < n <= |list| && list[k] in heap && rest == Cut(list, k) && n == m + 1
    ensures Count(table, heap, list, n, i)
            == Count(table, heap, rest, m, i) + if Home(table, heap[list[k]]) == i then 1 else 0
  {
    if m == k {
      CountSame(table, heap, list, rest, k, i);
    } else {
      CountCut(table, heap, list, rest, m - 1, m, k, i);
    }
  }

  lemma {:induction false} CountSame(table: seq<Class>, heap: Heap, a: seq<Addr>, b: seq<Addr>, n: nat, i: nat)
    requires n <= |a| && n <= |b| && forall k :: 0 <= k < n ==> a[k] == b[k]
    ensures Count(table, heap, a, n, i) == Count(table, heap, b, n, i)
  {
    if n == 0 {
    } else {
      CountSame(table, heap, a, b, n - 1, i);
    }
  }

  lemma MmapKeep(table: seq<Class>, heap: Heap, heap': Heap, list: seq<Addr>, numMmap: seq<nat>)
    requires MmapOk(table, heap, list, numMmap)
    requires forall b :: b in heap && heap[b].mapCached != 0 ==> b in heap'
    requires forall b :: b in heap' ==> if b in heap then SameMmap(heap[b], heap'[b]) else heap'[b].mapCached == 0
    ensures MmapOk(table, heap', list, numMmap)
  {
    forall k | 0 <= k < |list| ensures list[k] in heap' && SameMmap(heap[list[k]], heap'[list[k]]) {
      var b := list[k];
      assert b in heap && heap[b].mapCached != 0;
      assert b in heap';
    }
    forall i | 0 <= i < |table| ensures numMmap[i] == Count(table, heap', list, |list|, i) {
      CountKeeps(table, heap, heap', list, list, |list|, i);
    }
  }

  /** The counters once an object of bucket `i` is gone; `i` may be past the end. */
  function Less(num: seq<nat>, i: nat): (r: seq<nat>)
    ensures |r| == |num| && forall j :: 0 <= j < |r| ==> r[j] == if j == i && num[j] > 0 then num[j] - 1 else num[j]
  {
    if i < |num| && num[i] > 0 then num[i := num[i] - 1] else num
  }

  function More(num: seq<nat>, i: nat): (r: seq<nat>)
    ensures |r| == |num| && forall j :: 0 <= j < |r| ==> r[j] == if j == i then num[j] + 1 else num[j]
  {
    if i < |num| then num[i := num[i] + 1] else num
  }

  lemma CountsTake(table: seq<Class>, heap: Heap, heap': Heap, list: seq<Addr>, rest: seq<Addr>, k: nat, b: Addr,
                   i: nat)
    requires Distinct(list) && k < |list| && b == list[k] && forall j :: 0 <= j < |list| ==> list[j] in heap
    requires heap' == heap[b := heap[b].(mapCached := 0)] && rest == Cut(list, k)
    ensures Count(table, heap, list, |list|, i)
            == Count(table, heap', rest, |rest|, i) + if Home(table, heap[b]) == i then 1 else 0
  {
    CountCut(table, heap, list, rest, |rest|, |list|, k, i);
    CountKeeps(table, heap, heap', rest, rest, |rest|, i);
  }

  lemma ParkedTake(heap: Heap, heap': Heap, list: seq<Addr>, k: nat, b: Addr)
    requires ParkedOk(heap, list) && k < |list| && b == list[k]
    requires b in heap && heap' == heap[b := heap[b].(mapCached := 0)]
    ensures ParkedOk(heap', Cut(list, k))
  {
    CutIs(list, k);
    var rest := Cut(list, k);
    forall j | 0 <= j < |rest| ensures rest[j] in heap' && heap'[rest[j]].mapCached != 0 {
      assert rest[j] in rest;
    }
  }

  lemma MmapTake(table: seq<Class>, heap: Heap, heap': Heap, list: seq<Addr>, numMmap: seq<nat>, k: nat, b: Addr)
    requires MmapOk(table, heap, list, numMmap) && k < |list| && b == list[k]
    requires b in heap && heap' == heap[b := heap[b].(mapCached := 0)]
    ensures Home(table, heap[b]) < |table| ==> numMmap[Home(table, heap[b])] > 0
    ensures MmapOk(table, heap', Cut(list, k), Less(numMmap, Home(table, heap[b])))
  {
    var rest, home := Cut(list, k), Home(table, heap[b]);
    if home < |table| {
      CountsTake(table, heap, heap', list, rest, k, b, home);
    }
    var less := Less(numMmap, home);
    forall i | 0 <= i < |table| ensures less[i] == Count(table, heap', rest, |rest|, i) {
      CountsTake(table, heap, heap', list, rest, k, b, i);
    }
    ParkedTake(heap, heap', list, k, b);
  }

  lemma MmapPut(table: seq<Class>, heap: Heap, heap': Heap, list: seq<Addr>, numMmap: seq<nat>, b: Addr, bo: Bo)
    requires MmapOk(table, heap, list, numMmap) && b in heap && heap[b].mapCached == 0 && heap' == heap[b := bo]
    requires bo.mapCached != 0 && bo.size == heap[b].size && bo.sparse == heap[b].sparse
    requires forall k :: 0 <= k < |list| ==> list[k] in heap && heap[list[k]].unmapTime <= bo.unmapTime
    ensures MmapOk(table, heap', list + [b], More(numMmap, Home(table, bo)))
  {
    var more := list + [b];
    assert forall k :: 0 <= k < |list| ==> list[k] != b;
    var counts := More(numMmap, Home(table, bo));
    forall i | 0 <= i < |table| ensures counts[i] == Count(table, heap', more, |more|, i) {
      CountKeeps(table, heap, heap', list, more, |list|, i);
    }
    assert more[|list|] == b;
    forall c | c in heap' && heap'[c].mapCached != 0 ensures c in more {
      if c != b {
        var m :| 0 <= m < |list| && list[m] == c;
        assert more[m] == c;
      }
    }
  }

  /** Only parked mappings of more than 30 seconds have gone. */
  ghost predicate Unparked(heap: Heap, heap': Heap, now: int) {
    && heap'.Keys == heap.Keys
    && forall b :: b in heap ==>
         heap'[b] == heap[b]
         || (heap[b].mapCached != 0 && heap'[b] == heap[b].(mapCached := 0) && now - heap[b].unmapTime > 30)
  }

  lemma SomeParked(heap: Heap, list: seq<Addr>) returns (b: Addr)
    requires ParkedOk(heap, list) && list != []
    ensures b in heap && heap[b].mapCached != 0
  {
    b := list[0];
  }

  /** The same, but for one object that has changed. */
  ghost predicate UnparkedBut(heap: Heap, heap': Heap, now: int, but: Addr) {
    && heap'.Keys == heap.Keys
    && forall b :: b in heap && b != but ==>
         heap'[b] == heap[b] || (heap'[b] == heap[b].(mapCached := 0) && now - heap[b].unmapTime > 30)
  }

  /** An object whose mapping is parked at `now`. */
  function Parked(bo: Bo, now: int): (r: Bo)
    ensures Held(r) == Held(bo) || bo.mapping == 0
  {
    bo.(unmapTime := now, mapCached := bo.mapping, mapping := 0, mmapRef := 0)
  }

  /** A clean-up of the mappings passes over this one: its bucket has few of them. */
  predicate Passes(table: seq<Class>, bo: Bo, num: seq<nat>, now: int)
    requires |num| == |table|
  {
    var i := Home(table, bo);
    i < |table| && (!FreeUp(table[i].size, num[i]) || (now - bo.unmapTime < 60 && num[i] < 5))
  }

  /** What a clean-up of the mappings keeps from place `n` on, with the counters as they are by then. */
  function StillParked(table: seq<Class>, heap: Heap, list: seq<Addr>, num: seq<nat>, now: int, n: nat): (r: seq<Addr>)
    requires n <= |list| && |num| == |table| && forall j :: 0 <= j < |list| ==> list[j] in heap
    decreases |list| - n
  {
    if n == |list| || now - heap[list[n]].unmapTime <= 30 then list[n..]
    else if Passes(table, heap[list[n]], num, now) then [list[n]] + StillParked(table, heap, list, num, now, n + 1)
    else StillParked(table, heap, list, Less(num, Home(table, heap[list[n]])), now, n + 1)
  }

  /** The counters once the clean-up is through. */
  function FinalCounts(table: seq<Class>, heap: Heap, list: seq<Addr>, num: seq<nat>, now: int, n: nat): (r: seq<nat>)
    requires n <= |list| && |num| == |table| && forall j :: 0 <= j < |list| ==> list[j] in heap
    ensures |r| == |num|
    decreases |list| - n
  {
    if n == |list| || now - heap[list[n]].unmapTime <= 30 then num
    else if Passes(table, heap[list[n]], num, now) then FinalCounts(table, heap, list, num, now, n + 1)
    else FinalCounts(table, heap, list, Less(num, Home(table, heap[list[n]])), now, n + 1)
  }

  /** No counter has grown. */
  predicate NoMore(num: seq<nat>, num': seq<nat>) {
    |num'| == |num| && forall i :: 0 <= i < |num| ==> num'[i] <= num[i]
  }

  /** Who is passed over with some counters is passed over with smaller ones. */
  lemma PassesWithFewer(table: seq<Class>, bo: Bo, num: seq<nat>, num': seq<nat>, now: int)
    requires |num| == |table| && NoMore(num, num') && Passes(table, bo, num, now)
    ensures Passes(table, bo, num', now)
  {
    var i := Home(table, bo);
    Fewer(table[i].size, num[i], num'[i]);
  }

  lemma Fewer(size: nat, a: nat, b: nat)
    requires b <= a
    ensures FreeUp(size, b) ==> FreeUp(size, a)
  {
    assert size * b <= size * a;
  }

  lemma {:induction false} CountsFall(table: seq<Class>, heap: Heap, list: seq<Addr>, num: seq<nat>, now: int, n: nat)
    requires n <= |list| && |num| == |table| && forall j :: 0 <= j < |list| ==> list[j] in heap
    ensures NoMore(num, FinalCounts(table, heap, list, num, now, n))
    decreases |list| - n
  {
    if n == |list| || now - heap[list[n]].unmapTime <= 30 {
    } else if Passes(table, heap[list[n]], num, now) {
      CountsFall(table, heap, list, num, now, n + 1);
    } else {
      CountsFall(table, heap, list, Less(num, Home(table, heap[list[n]])), now, n + 1);
    }
  }

  /**
   * Only an object of a bucket with few mappings keeps one that is older than 30 seconds: few by the final counters.
   */
  lemma {:induction false} KeptPass(table: seq<Class>, heap: Heap, list: seq<Addr>, num: seq<nat>, now: int, n: nat,
                                    b: Addr)
    requires n <= |list| && |num| == |table| && forall j :: 0 <= j < |list| ==> list[j] in heap
    requires ByUnmapTime(heap, list) && b in StillParked(table, heap, list, num, now, n)
    ensures b in list && b in heap
    ensures now - heap[b].unmapTime > 30 ==> Passes(table, heap[b], FinalCounts(table, heap, list, num, now, n), now)
    decreases |list| - n
  {
    if n == |list| || now - heap[list[n]].unmapTime <= 30 {
      var j :| n <= j < |list| && list[j] == b;
    } else if !Passes(table, heap[list[n]], num, now) {
      KeptPass(table, heap, list, Less(num, Home(table, heap[list[n]])), now, n + 1, b);
    } else if b != list[n] {
      KeptPass(table, heap, list, num, now, n + 1, b);
    } else {
      CountsFall(table, heap, list, num, now, n + 1);
      PassesWithFewer(table, heap[b], num, FinalCounts(table, heap, list, num, now, n + 1), now);
    }
  }

  lemma InRest(list: seq<Addr>, n: nat, j: nat)
    requires n <= j < |list|
    ensures list[j] in list[n..]
  {
    assert list[n..][j - n] == list[j];
  }

  /** An object that lost its mapping was old, and not one to pass over by the counters at the start. */
  lemma {:induction false} GoneDidNotPass(table: seq<Class>, heap: Heap, list: seq<Addr>, num: seq<nat>, now: int,
                                          n: nat, j: nat)
    requires n <= j < |list| && |num| == |table| && forall i :: 0 <= i < |list| ==> list[i] in heap
    requires list[j] !in StillParked(table, heap, list, num, now, n)
    ensures !Passes(table, heap[list[j]], num, now) && now - heap[list[j]].unmapTime > 30
    decreases |list| - n
  {
    InRest(list, n, j);
    if n == |list| || now - heap[list[n]].unmapTime <= 30 {
      assert false;
    } else if n < j && Passes(table, heap[list[n]], num, now) {
      GoneDidNotPass(table, heap, list, num, now, n + 1, j);
    } else if n < j {
      var less := Less(num, Home(table, heap[list[n]]));
      GoneDidNotPass(table, heap, list, less, now, n + 1, j);
      if Passes(table, heap[list[j]], num, now) {
        PassesWithFewer(table, heap[list[j]], num, less, now);
      }
    }
  }

  /** A clean-up that has come to place `n` has kept `kept`, and goes on as one from the start would. */
  ghost predicate ParkedUpTo(table: seq<Class>, heap: Heap, list: seq<Addr>, num0: seq<nat>, kept: seq<Addr>,
                             num: seq<nat>, now: int, n: nat) {
    && n <= |list| && |num0| == |num| == |table| && (forall j :: 0 <= j < |list| ==> list[j] in heap)
    && StillParked(table, heap, list, num0, now, 0) == kept + StillParked(table, heap, list, num, now, n)
    && FinalCounts(table, heap, list, num0, now, 0) == FinalCounts(table, heap, list, num, now, n)
  }

  lemma ParkedMore(table: seq<Class>, heap: Heap, list: seq<Addr>, num0: seq<nat>, kept: seq<Addr>, num: seq<nat>,
                   now: int, n: nat)
    requires ParkedUpTo(table, heap, list, num0, kept, num, now, n) && n < |list| && now - heap[list[n]].unmapTime > 30
    ensures if Passes(table, heap[list[n]], num, now)
            then ParkedUpTo(table, heap, list, num0, kept + [list[n]], num, now, n + 1)
            else ParkedUpTo(table, heap, list, num0, kept, Less(num, Home(table, heap[list[n]])), now, n + 1)
  {
  }

  /** Of the first `n` on the list, exactly the kept ones have a parked mapping. */
  ghost predicate KeptSoFar(heap: Heap, list: seq<Addr>, kept: seq<Addr>, n: nat) {
    && n <= |list|
    && (forall j :: 0 <= j < n ==> list[j] in heap && (heap[list[j]].mapCached != 0 <==> list[j] in kept))
    && forall j :: 0 <= j < |kept| ==> kept[j] in list[..n]
  }

  lemma KeptMore(heap: Heap, list: seq<Addr>, kept: seq<Addr>, n: nat)
    requires KeptSoFar(heap, list, kept, n) && n < |list| && list[n] in heap && heap[list[n]].mapCached != 0
    ensures KeptSoFar(heap, list, kept + [list[n]], n + 1)
  {
    assert list[..n + 1] == list[..n] + [list[n]];
  }

  lemma DroppedMore(heap: Heap, list: seq<Addr>, kept: seq<Addr>, n: nat)
    requires KeptSoFar(heap, list, kept, n) && n < |list| && list[n] in heap && Distinct(list)
    ensures KeptSoFar(heap[list[n] := heap[list[n]].(mapCached := 0)], list, kept, n + 1)
  {
    assert list[..n + 1] == list[..n] + [list[n]];
    assert list[n] !in list[..n];
    assert forall j :: 0 <= j < |kept| ==> kept[j] in list[..n];
    var heap' := heap[list[n] := heap[list[n]].(mapCached := 0)];
    forall j | 0 <= j < n + 1 ensures list[j] in heap' && (heap'[list[j]].mapCached != 0 <==> list[j] in kept) {
      if j < n {
        assert list[j] != list[n];
      }
    }
  }

  /** The mappings that are still parked are those a clean-up keeps, and the counters are those it ends with. */
  ghost predicate MmapCleaned(table: seq<Class>, heap: Heap, list: seq<Addr>, num: seq<nat>, heap': Heap,
                              num': seq<nat>, now: int) {
    && |num| == |table| && (forall j :: 0 <= j < |list| ==> list[j] in heap)
    && num' == FinalCounts(table, heap, list, num, now, 0)
    && forall b :: b in list ==> b in heap' && (heap'[b].mapCached != 0 <==>
                                                b in StillParked(table, heap, list, num, now, 0))
  }

  /**
   * An object whose bucket has few parked mappings: it is of at most 16 KiB with at most 64 KiB mapped, or the mapping
   * is below 60 seconds among fewer than five.
   */
  predicate FewParked(table: seq<Class>, bo: Bo, num: seq<nat>, now: int)
    requires |num| == |table|
  {
    var i := BucketOf(table, bo.size, bo.sparse);
    && i < |table|
    && ((table[i].size <= 16384 && table[i].size * num[i] <= 65536) || (now - bo.unmapTime < 60 && num[i] < 5))
  }

  /**
   * What a clean-up comes to: a mapping of more than 30 seconds that is still parked belongs to a bucket that has few
   * of them by the final counters; one that has gone was of more than 30 seconds and did not belong to such a bucket by
   * the counters at the start.
   */
  ghost predicate Settled(table: seq<Class>, heap: Heap, list: seq<Addr>, num: seq<nat>, heap': Heap, num': seq<nat>,
                          now: int) {
    && |num| == |num'| == |table|
    && forall b :: b in list && b in heap && b in heap' ==>
         if heap'[b].mapCached != 0 then now - heap[b].unmapTime <= 30 || FewParked(table, heap[b], num', now)
         else now - heap[b].unmapTime > 30 && !FewParked(table, heap[b], num, now)
  }

  lemma CleanedIsSettled(table: seq<Class>, heap: Heap, list: seq<Addr>, num: seq<nat>, heap': Heap, num': seq<nat>,
                         now: int)
    requires MmapCleaned(table, heap, list, num, heap', num', now) && ByUnmapTime(heap, list)
    ensures Settled(table, heap, list, num, heap', num', now)
  {
    CountsFall(table, heap, list, num, now, 0);
    forall b | b in list && b in heap && b in heap'
      ensures if heap'[b].mapCached != 0 then now - heap[b].unmapTime <= 30 || FewParked(table, heap[b], num', now)
              else now - heap[b].unmapTime > 30 && !FewParked(table, heap[b], num, now)
    {
      if b in StillParked(table, heap, list, num, now, 0) {
        KeptPass(table, heap, list, num, now, 0, b);
      } else {
        var j :| 0 <= j < |list| && list[j] == b;
        GoneDidNotPass(table, heap, list, num, now, 0, j);
      }
    }
  }

  /** Parking another mapping behind a clean-up does not undo it. */
  lemma ParkedAfterwards(table: seq<Class>, heap: Heap, list: seq<Addr>, num: seq<nat>, heap': Heap, heap'': Heap,
                         num': seq<nat>, now: int, b: Addr)
    requires MmapCleaned(table, heap, list, num, heap', num', now) && Settled(table, heap, list, num, heap', num', now)
    requires b in heap'' && heap'' == heap'[b := heap''[b]] && b !in list
    ensures MmapCleaned(table, heap, list, num, heap'', num', now) && Settled(table, heap, list, num, heap'', num', now)
  {
  }

  /** At its end, or at a young mapping, the clean-up has kept what it should. */
  lemma CleanedAll(table: seq<Class>, heap: Heap, heap': Heap, list: seq<Addr>, num0: seq<nat>, kept: seq<Addr>,
                   num: seq<nat>, now: int, n: nat)
    requires ParkedUpTo(table, heap, list, num0, kept, num, now, n) && KeptSoFar(heap', list, kept, n) && Distinct(list)
    requires n < |list| ==> now - heap[list[n]].unmapTime <= 30
    requires forall j :: n <= j < |list| ==> list[j] in heap' && heap'[list[j]].mapCached != 0
    ensures MmapCleaned(table, heap, list, num0, heap', num, now)
  {
    var all := StillParked(table, heap, list, num0, now, 0);
    assert all == kept + list[n..];
    forall j | 0 <= j < |list| ensures list[j] in heap' && (heap'[list[j]].mapCached != 0 <==> list[j] in all) {
      if j < n {
        assert list[j] !in list[n..];
      } else {
        assert list[j] == list[n..][j - n];
      }
    }
  }

  /** The counter that would be read does not exist. */
  predicate Faults(table: seq<Class>, bo: Bo, now: int) {
    Home(table, bo) >= |table| && 30 < now - bo.unmapTime < 60
  }

  /** Some mapping on the list, of an object of no bucket, has been parked for 31 to 59 seconds. */
  predicate AnyFaults(table: seq<Class>, heap: Heap, list: seq<Addr>, now: int) {
    exists i :: 0 <= i < |list| && list[i] in heap && 30 < now - heap[list[i]].unmapTime < 60
                && BucketOf(table, heap[list[i]].size, heap[list[i]].sparse) == |table|
  }

  /** A mapping parked between 31 and 59 seconds, of an object that has no bucket. */
  lemma FaultsAt(table: seq<Class>, heap: Heap, list: seq<Addr>, i: nat, now: int)
    requires i < |list| && list[i] in heap && Faults(table, heap[list[i]], now)
    ensures AnyFaults(table, heap, list, now)
  {
  }

  /** An object of a page more than 112 MiB, whose mapping was parked 40 seconds ago. */
  lemma FaultExample(heap: Heap)
    requires heap == map[7 := Bo(5, false, TOP + PAGE, 1, 0, 0, true, 0, 1, 99, false)]
    ensures AnyFaults(Table(MAX_SIZE), heap, [7], 41)
  {
    HasBucketExactly(TOP + PAGE, false);
    FaultsAt(Table(MAX_SIZE), heap, [7], 0, 41);
  }

  // Mappings

  /** The mapping an object holds, in use or parked; or 0. */
  function Held(bo: Bo): (m: int) {
    if bo.mapping != 0 then bo.mapping else bo.mapCached
  }

  predicate MapOk(bo: Bo) {
    (bo.mapping == 0 || bo.mapCached == 0) && (bo.mapping != 0 <==> bo.mmapRef > 0)
  }

  /** Every live mapping is held by one object, in one way, and every object holds at most one. */
  ghost predicate MapsOk(heap: Heap, live: map<int, Addr>) {
    && (forall b :: b in heap ==> MapOk(heap[b]) && (Held(heap[b]) != 0 ==>
                                                     Held(heap[b]) in live && live[Held(heap[b])] == b))
    && forall m :: m in live ==> m != 0 && live[m] in heap && Held(heap[live[m]]) == m
  }

  lemma MapIsOk(heap: Heap, live: map<int, Addr>, b: Addr)
    requires MapsOk(heap, live) && b in heap
    ensures MapOk(heap[b])
  {
  }

  lemma MapsSet(heap: Heap, heap': Heap, live: map<int, Addr>, b: Addr, bo: Bo)
    requires MapsOk(heap, live) && MapOk(bo) && heap' == heap[b := bo]
    requires if b in heap then Held(bo) == Held(heap[b]) else Held(bo) == 0
    ensures MapsOk(heap', live)
  {
  }

  /** A new mapping for an object that has none. */
  lemma MapsGain(heap: Heap, heap': Heap, live: map<int, Addr>, live': map<int, Addr>, b: Addr, bo: Bo, m: int)
    requires MapsOk(heap, live) && MapOk(bo) && b in heap && heap' == heap[b := bo] && live' == live[m := b]
    requires Held(heap[b]) == 0 && m != 0 && m !in live && Held(bo) == m
    ensures MapsOk(heap', live')
  {
  }

  /** An object loses its mapping. */
  lemma MapsLose(heap: Heap, heap': Heap, live: map<int, Addr>, live': map<int, Addr>, b: Addr, bo: Bo)
    requires MapsOk(heap, live) && MapOk(bo) && b in heap && heap' == heap[b := bo] && live' == live - {Held(heap[b])}
    requires Held(bo) == 0
    ensures MapsOk(heap', live')
  {
  }

  lemma MapsFree(heap: Heap, heap': Heap, live: map<int, Addr>, b: Addr)
    requires MapsOk(heap, live) && b in heap && Held(heap[b]) == 0 && heap' == heap - {b}
    ensures MapsOk(heap', live)
  {
  }

  function Holders(heap: Heap): (s: set<Addr>) {
    set b | b in heap && Held(heap[b]) != 0
  }

  lemma Any<T>(s: set<T>) returns (x: T)
    requires s != {}
    ensures x in s
  {
    x :| x in s;
  }

  lemma SomeHeld(heap: Heap, live: map<int, Addr>) returns (b: Addr)
    requires MapsOk(heap, live) && live != map[]
    ensures b in heap && Held(heap[b]) != 0
  {
    assert live.Keys != {};
    var m := Any(live.Keys);
    b := live[m];
  }

  /** Sets that map to each other are of one size. */
  lemma {:induction false} SameNumber(keys: set<int>, holders: set<Addr>, heap: Heap, live: map<int, Addr>)
    requires forall m :: m in keys ==> m in live && live[m] in holders && live[m] in heap && Held(heap[live[m]]) == m
    requires forall b :: b in holders ==>
               b in heap && Held(heap[b]) in keys && Held(heap[b]) in live && live[Held(heap[b])] == b
    ensures |keys| == |holders|
    decreases keys
  {
    if keys != {} {
      var m := Any(keys);
      SameNumber(keys - {m}, holders - {live[m]}, heap, live);
    } else if holders != {} {
      var b := Any(holders);
      assert false;
    }
  }

  /** As many mappings are live as there are objects that hold one. */
  lemma MappingsCounted(heap: Heap, live: map<int, Addr>)
    requires MapsOk(heap, live)
    ensures |live.Keys| == |Holders(heap)|
  {
    SameNumber(live.Keys, Holders(heap), heap, live);
  }

  // Handles

  /** The handle table names exactly the objects that exist, each by its own handle. */
  ghost predicate HandlesOk(heap: Heap, handles: map<int, Addr>) {
    && (forall b :: b in heap ==> heap[b].handle in handles && handles[heap[b].handle] == b)
    && forall h :: h in handles ==> handles[h] in heap && heap[handles[h]].handle == h
  }

  // References

  /**
   * The references handed out are no more than counted; an object is in a bucket exactly when none is counted; and one
   * that may be cached has the size of its bucket.
   */
  predicate OwnerOk(table: seq<Class>, bo: Bo, owners: nat) {
    && owners <= bo.ref && (bo.bucketed <==> bo.ref == 0)
    && (bo.reuse && Home(table, bo) < |table| ==> bo.size == table[Home(table, bo)].size)
  }

  ghost predicate OwnersOk(table: seq<Class>, heap: Heap, owners: map<Addr, nat>) {
    heap.Keys == owners.Keys && forall b :: b in heap ==> OwnerOk(table, heap[b], owners[b])
  }

  ghost predicate TimesOk(heap: Heap, clock: int) {
    forall b :: b in heap ==> heap[b].freeTime <= clock && heap[b].unmapTime <= clock
  }

  lemma TimesPass(heap: Heap, clock: int, now: int)
    requires TimesOk(heap, clock) && clock <= now
    ensures TimesOk(heap, now)
  {
  }

  lemma TimesSet(heap: Heap, clock: int, b: Addr, bo: Bo)
    requires TimesOk(heap, clock) && bo.freeTime <= clock && bo.unmapTime <= clock
    ensures TimesOk(heap[b := bo], clock)
  {
  }

  lemma OwnersSet(table: seq<Class>, heap: Heap, owners: map<Addr, nat>, b: Addr, bo: Bo, n: nat)
    requires OwnersOk(table, heap, owners) && OwnerOk(table, bo, n)
    ensures OwnersOk(table, heap[b := bo], owners[b := n])
  {
  }

  lemma HandlesAdd(heap: Heap, handles: map<int, Addr>, b: Addr, bo: Bo)
    requires HandlesOk(heap, handles) && b !in heap && bo.handle !in handles
    ensures HandlesOk(heap[b := bo], handles[bo.handle := b])
  {
  }

  /** What makes an object the one it is. */
  predicate SameObject(a: Bo, b: Bo) {
    a.handle == b.handle && a.size == b.size && a.sparse == b.sparse
  }

  /** A new object with one reference, on no list. */
  predicate IsNew(table: seq<Class>, bo: Bo) {
    && bo.ref == 1 && bo.mmapRef == 0 && bo.mapping == 0 && bo.mapCached == 0 && !bo.bucketed
    && bo.freeTime == 0 && bo.unmapTime == 0
    && (bo.reuse && Home(table, bo) < |table| ==> bo.size == table[Home(table, bo)].size)
  }

  lemma HandlesSet(heap: Heap, handles: map<int, Addr>, b: Addr, bo: Bo)
    requires HandlesOk(heap, handles) && b in heap && bo.handle == heap[b].handle
    ensures HandlesOk(heap[b := bo], handles)
  {
  }

  /**
   * What a call on one object does to the others: only idle ones have gone, none is new, and nothing has changed but
   * that parked mappings have gone. None has changed owners.
   */
  ghost predicate Others(heap: Heap, heap': Heap, owners: map<Addr, nat>, owners': map<Addr, nat>, but: Addr) {
    && (forall b :: b in heap' && b != but ==>
          b in heap && (heap'[b] == heap[b] || heap'[b] == heap[b].(mapCached := 0)))
    && (forall b :: b in heap && b !in heap' && b != but ==> heap[b].bucketed)
    && (forall b :: b in owners' && b != but ==> b in owners && owners'[b] == owners[b])
  }

  /**
   * An object with owners is not destroyed, keeps them, and stays the same one in no bucket, whatever is done to
   * others; and no other object gains owners.
   */
  lemma OwnedSurvives(table: seq<Class>, heap: Heap, heap': Heap, owners: map<Addr, nat>, owners': map<Addr, nat>,
                      but: Addr, b: Addr)
    requires Others(heap, heap', owners, owners', but) && OwnersOk(table, heap, owners)
             && OwnersOk(table, heap', owners')
    requires b in heap && b != but
    ensures owners[b] > 0 ==> b in heap' && !heap'[b].bucketed
    ensures if b in heap' then owners'[b] == owners[b] && SameObject(heap[b], heap'[b]) else owners[b] == 0
  {
    assert OwnerOk(table, heap[b], owners[b]);
  }

  /** The handle of an idle object is free once nothing is idle. */
  lemma HandleFreed(heap: Heap, handles: map<int, Addr>, heap': Heap, handles': map<int, Addr>, owners: map<Addr, nat>,
                    owners': map<Addr, nat>, h: int)
    requires HandlesOk(heap, handles) && HandlesOk(heap', handles') && Evicted(heap, heap', owners, owners')
    requires forall b :: b in heap' ==> !heap'[b].bucketed
    requires h in handles ==> handles[h] in heap && heap[handles[h]].bucketed
    ensures h !in handles'
  {
    forall g | g in handles' ensures g in handles && handles[g] in heap && !heap[handles[g]].bucketed {
      var b := handles'[g];
      assert b in heap' && heap'[b] == heap[b];
    }
  }

  lemma OthersOfEvicted(heap: Heap, heap': Heap, owners: map<Addr, nat>, owners': map<Addr, nat>, but: Addr)
    requires EvictedBut(heap, heap', owners, owners', but)
    ensures Others(heap, heap', owners, owners', but)
  {
  }

  lemma OthersOfUnparked(heap: Heap, heap': Heap, owners: map<Addr, nat>, owners': map<Addr, nat>, now: int, but: Addr,
                         n: nat)
    requires UnparkedBut(heap, heap', now, but) && owners' == owners[but := n]
    ensures Others(heap, heap', owners, owners', but)
  {
    forall b | b in heap' && b != but
      ensures b in heap && (heap'[b] == heap[b] || heap'[b] == heap[b].(mapCached := 0))
    {
      assert b in heap.Keys;
    }
  }

  /** Counts are exact: every counted reference is one that was handed out. */
  ghost predicate Exact(heap: Heap, owners: map<Addr, nat>) {
    forall b :: b in heap && b in owners ==> heap[b].ref == owners[b]
  }

  /** The references to an object that are counted but not held. */
  function Leak(heap: Heap, owners: map<Addr, nat>, b: Addr): (n: int) {
    if b in heap && b in owners then heap[b].ref - owners[b] else 0
  }

  /**
   * A call on one object that does not change how many of its references nobody holds keeps counts exact or inexact.
   */
  lemma ExactKeeps(table: seq<Class>, heap: Heap, heap': Heap, owners: map<Addr, nat>, owners': map<Addr, nat>,
                   but: Addr)
    requires OwnersOk(table, heap, owners) && OwnersOk(table, heap', owners')
             && Others(heap, heap', owners, owners', but)
    requires Leak(heap, owners, but) == Leak(heap', owners', but)
    ensures Exact(heap, owners) <==> Exact(heap', owners')
  {
    forall b ensures Leak(heap, owners, b) == Leak(heap', owners', b) {
      if b in heap && b !in heap' && b != but {
        assert OwnerOk(table, heap[b], owners[b]);
      }
    }
    if !Exact(heap, owners) {
      var b :| b in heap && b in owners && heap[b].ref != owners[b];
      assert Leak(heap, owners, b) != 0;
      assert Leak(heap', owners', b) != 0;
    } else {
      forall b | b in heap' && b in owners' ensures heap'[b].ref == owners'[b] {
        assert Leak(heap, owners, b) == 0;
        assert Leak(heap', owners', b) == 0;
      }
    }
  }

  /** What does not concern mappings is kept when only an object's mapping or its counts change. */
  lemma RestKeeps(table: seq<Class>, heap: Heap, heap': Heap, lists: seq<seq<Addr>>, numEntries: seq<nat>,
                  handles: map<int, Addr>, owners: map<Addr, nat>, owners': map<Addr, nat>, clock: int, b: Addr, bo: Bo)
    requires BucketsOk(table, heap, lists, numEntries) && HandlesOk(heap, handles) && OwnersOk(table, heap, owners)
    requires TimesOk(heap, clock) && b in heap && heap' == heap[b := bo] && bo.handle == heap[b].handle
    requires SameInBucket(heap[b], bo) && (bo.unmapTime == heap[b].unmapTime || bo.unmapTime <= clock)
    requires b in owners' && owners' == owners[b := owners'[b]] && OwnerOk(table, bo, owners'[b])
    ensures BucketsOk(table, heap', lists, numEntries) && HandlesOk(heap', handles) && OwnersOk(table, heap', owners')
    ensures TimesOk(heap', clock)
  {
    BucketsKeep(table, heap, heap', lists, numEntries);
  }
}
