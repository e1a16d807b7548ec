/** The buffer-object cache of a device: buckets of idle objects, a cache of mappings, handles and references. */
module BoCache {
  import opened BucketTable
  import opened BoState
  import opened Options
  import opened Words

  class Drm {
    const table: seq<Class>
    var heap: Heap
    var lists: seq<seq<Addr>>      // the bucket lists, by bucket
    var numEntries: seq<nat>
    var numMmap: seq<nat>
    var mmapList: seq<Addr>        // objects with a parked mapping
    var cacheTime: int             // of the last clean-up of the buckets
    var mmapTime: int              // of the last clean-up of the mappings
    var handles: map<int, Addr>
    var owners: map<Addr, nat>    // references handed out, as the callers know
    var live: map<int, Addr>      // mappings that exist, as the kernel knows
    var clock: int                // of the latest call

    ghost predicate Mapped()
      reads this
    {
      MmapOk(table, heap, mmapList, numMmap) && MapsOk(heap, live) && HandlesOk(heap, handles)
    }

    ghost predicate Valid()
      reads this
    {
      && Stable(table)
      && BucketsOk(table, heap, lists, numEntries) && Mapped()
      && OwnersOk(table, heap, owners) && TimesOk(heap, clock)
      && 0 <= clock
      && (cacheTime == 0 ==> forall i :: 0 <= i < |lists| ==> lists[i] == [])
    }

    constructor ()
      ensures Valid() && heap == map[] && table == Table(MAX_SIZE)
    {
      var t := BuildTable();
      TableIsStable();
      table := t;
      heap, handles, owners, live := map[], map[], map[], map[];
      lists := seq(|t|, _ => []);
      numEntries, numMmap := seq(|t|, _ => 0), seq(|t|, _ => 0);
      mmapList, cacheTime, mmapTime, clock := [], 0, 0, 0;
    }

    /** What the invariants say of one object. */
    lemma ObjectIsOk(b: Addr)
      requires Valid() && b in heap
      ensures MapOk(heap[b]) && b in owners && OwnerOk(table, heap[b], owners[b])
      ensures heap[b].freeTime <= clock && heap[b].unmapTime <= clock
      ensures if heap[b].mapCached == 0 then b !in mmapList else exists k :: 0 <= k < |mmapList| && mmapList[k] == b
    {
    }

    /** Takes the parked mapping at place `k` of the list. */
    method TakeParked(b: Addr, k: nat) returns (m: int)
      requires MmapOk(table, heap, mmapList, numMmap) && k < |mmapList| && mmapList[k] == b && b in heap
      modifies this`heap, this`mmapList, this`numMmap
      ensures MmapOk(table, heap, mmapList, numMmap)
      ensures m == old(heap[b].mapCached) != 0 && heap == old(heap)[b := old(heap[b]).(mapCached := 0)]
      ensures numMmap == Less(old(numMmap), Home(table, old(heap[b])))
    {
      m := heap[b].mapCached;
      MmapTake(table, heap, heap[b := heap[b].(mapCached := 0)], mmapList, numMmap, k, b);
      mmapList := Cut(mmapList, k);
      numMmap := Less(numMmap, Home(table, heap[b]));
      heap := heap[b := heap[b].(mapCached := 0)];
    }

    /** Takes the parked mapping of an object, if it has one. */
    method CacheMap(b: Addr) returns (m: int)
      requires MmapOk(table, heap, mmapList, numMmap) && b in heap
      modifies this`heap, this`mmapList, this`numMmap
      ensures MmapOk(table, heap, mmapList, numMmap)
      ensures m == old(heap[b].mapCached) && heap == old(heap)[b := old(heap[b]).(mapCached := 0)]
    {
      m := heap[b].mapCached;
      if m != 0 {
        var k :| 0 <= k < |mmapList| && mmapList[k] == b;
        m := TakeParked(b, k);
      } else {
        assert heap[b := heap[b].(mapCached := 0)] == heap;
      }
    }

    method Munmap(m: int)
      modifies this`live
      ensures live == old(live) - {m}
    {
      live := live - {m};
    }

    /** Gives up an object's mapping, in use or parked. */
    method DropMapping(b: Addr)
      requires MmapOk(table, heap, mmapList, numMmap) && MapsOk(heap, live) && b in heap
      modifies this`heap, this`mmapList, this`numMmap, this`live
      ensures MmapOk(table, heap, mmapList, numMmap) && MapsOk(heap, live)
      ensures heap == old(heap)[b := old(heap[b]).(mapCached := 0, mapping := 0, mmapRef := 0)]
      ensures live == old(live) - {Held(old(heap[b]))}
    {
      hide MmapOk, MapsOk;
      MapIsOk(heap, live, b);
      ghost var heap0, live0 := heap, live;
      if heap[b].mapping != 0 {
        Munmap(heap[b].mapping);
      } else if heap[b].mapCached != 0 {
        var m := CacheMap(b);
        Munmap(m);
      }
      ghost var heap1 := heap;
      heap := heap[b := heap[b].(mapping := 0, mmapRef := 0)];
      MmapKeep(table, heap1, heap, mmapList, numMmap);
      if Held(heap0[b]) != 0 {
        MapsLose(heap0, heap, live0, live, b, heap[b]);
      } else {
        MapsSet(heap0, heap, live0, b, heap[b]);
        assert live == live0;
      }
    }

    /** Destroys an object that is on no bucket list: its mapping, its handle and its memory go. */
    method BoFree(b: Addr)
      requires Mapped() && b in heap
      modifies this`heap, this`mmapList, this`numMmap, this`live, this`handles, this`owners
      ensures Mapped() && heap == old(heap) - {b} && owners == old(owners) - {b}
      ensures handles == old(handles) - {old(heap[b]).handle} && live == old(live) - {Held(old(heap[b]))}
    {
      DropMapping(b);
      ghost var heap1 := heap;
      handles := handles - {heap[b].handle};
      heap := heap - {b};
      owners := owners - {b};
      MmapKeep(table, heap1, heap, mmapList, numMmap);
      MapsFree(heap1, heap, live, b);
    }

    /** Takes an object off its bucket list. It is then counted by no bucket, and by no owner either. */
    method TakeFromBucket(i: nat, k: nat) returns (b: Addr)
      requires BucketsOk(table, heap, lists, numEntries) && Mapped() && i < |table| && k < |lists[i]|
      modifies this`heap, this`lists, this`numEntries
      ensures BucketsOk(table, heap, lists, numEntries) && Mapped()
      ensures b == old(lists)[i][k] && b in old(heap) && InBucket(table, old(heap)[b], i)
      ensures heap == old(heap)[b := old(heap)[b].(bucketed := false)]
      ensures lists == old(lists)[i := Cut(old(lists)[i], k)]
    {
      b := lists[i][k];
      assert BucketOk(table, heap, lists[i], i);
      BucketsTake(table, heap, lists, numEntries, i, k, b);
      ghost var heap0 := heap;
      lists := lists[i := Cut(lists[i], k)];
      numEntries := numEntries[i := numEntries[i] - 1];
      heap := heap[b := heap[b].(bucketed := false)];
      MmapKeep(table, heap0, heap, mmapList, numMmap);
      MapsSet(heap0, heap, live, b, heap[b]);
    }

    /** Frees the oldest object of a bucket. */
    method FreeHead(i: nat) returns (b: Addr)
      requires Valid() && i < |table| && lists[i] != []
      modifies this`heap, this`lists, this`numEntries, this`numMmap, this`mmapList, this`handles, this`owners, this`live
      ensures Valid()
      ensures b == old(lists)[i][0] && lists == old(lists)[i := Cut(old(lists)[i], 0)]
      ensures b in old(heap) && old(heap)[b].bucketed && heap == old(heap) - {b} && owners == old(owners) - {b}
    {
      b := TakeFromBucket(i, 0);
      ghost var heap1 := heap;
      BoFree(b);
      BucketsKeep(table, heap1, heap, lists, numEntries);
    }

    /** Whether a clean-up at `time` stops at the oldest object of the bucket. */
    method StopsHere(i: nat, time: int) returns (stop: bool)
      requires i < |table| == |lists| == |numEntries| && lists[i] != [] && lists[i][0] in heap
               && numEntries[i] == |lists[i]|
      ensures stop == (time != 0 && Stops(table[i].size, |lists[i]|, time - heap[lists[i][0]].freeTime))
    {
      var delta := time - heap[lists[i][0]].freeTime;
      if time != 0 && delta <= 30 {
        return true;
      }
      if time != 0 && delta < 60 && numEntries[i] < 5 {
        return true;
      }
      if time != 0 && delta < 300 && table[i].size * numEntries[i] < KEEP_BYTES {
        return true;
      }
      return false;
    }

    /** A clean-up of bucket `i` that has come to place `n`. */
    ghost predicate FreeingOld(i: nat, time: int, heap0: Heap, lists0: seq<seq<Addr>>, owners0: map<Addr, nat>, n: nat)
      reads this
    {
      && Valid() && i < |table| == |lists0|
      && (forall j :: 0 <= j < |table| && j != i ==> lists[j] == lists0[j])
      && (forall b :: b in owners ==> b in owners0 && owners[b] == owners0[b])
      && Cleaning(heap0, heap, lists0[i], lists[i], n) && StopsFrom(heap0, lists0[i], table[i].size, time, n)
    }

    /** One turn of the inner loop of a clean-up. */
    method FreeNext(i: nat, time: int, ghost heap0: Heap, ghost lists0: seq<seq<Addr>>,
                    ghost owners0: map<Addr, nat>, ghost n: nat)
      returns (stop: bool, ghost n': nat)
      requires FreeingOld(i, time, heap0, lists0, owners0, n) && lists[i] != []
      modifies this`heap, this`lists, this`numEntries, this`numMmap, this`mmapList, this`handles, this`owners, this`live
      ensures FreeingOld(i, time, heap0, lists0, owners0, n')
      ensures stop ==> n' == StopsAt(heap0, lists0[i], table[i].size, time, 0)
      ensures !stop ==> |lists[i]| == old(|lists[i]|) - 1
    {
      assert BucketOk(table, heap, lists[i], i);
      n' := n;
      stop := StopsHere(i, time);
      if !stop {
        ghost var heap1, list1 := heap, lists[i];
        assert lists0[i][n] == list1[0] && heap1[list1[0]] == heap0[list1[0]];
        var b := FreeHead(i);
        CleaningMore(heap0, heap1, heap, lists0[i], list1, n);
        n' := n + 1;
      }
    }

    /** The inner loop of a clean-up. */
    method FreeOld(i: nat, time: int, ghost heap0: Heap, ghost lists0: seq<seq<Addr>>, ghost owners0: map<Addr, nat>)
      returns (ghost n: nat)
      requires FreeingOld(i, time, heap0, lists0, owners0, 0)
      modifies this`heap, this`lists, this`numEntries, this`numMmap, this`mmapList, this`handles, this`owners, this`live
      ensures FreeingOld(i, time, heap0, lists0, owners0, n) && n == StopsAt(heap0, lists0[i], table[i].size, time, 0)
    {
      n := 0;
      while lists[i] != []
        invariant FreeingOld(i, time, heap0, lists0, owners0, n)
        decreases |lists[i]|
      {
        var stop;
        stop, n := FreeNext(i, time, heap0, lists0, owners0, n);
        if stop {
          break;
        }
      }
    }

    /** Cleans up one bucket. */
    method CleanBucket(i: nat, time: int)
      requires Valid() && i < |table|
      modifies this`heap, this`lists, this`numEntries, this`numMmap, this`mmapList, this`handles, this`owners, this`live
      ensures Valid() && Evicted(old(heap), heap, old(owners), owners)
      ensures forall j :: 0 <= j < |table| && j != i ==> lists[j] == old(lists)[j]
      ensures BucketCleaned(old(heap), old(lists)[i], lists[i], table[i].size, time)
      ensures time != 0 ==> AgedOut(old(heap), old(lists)[i], lists[i], table[i].size, time)
    {
      ghost var heap0, list0, owners0, n := heap, lists[i], owners, 0;
      assert BucketOk(table, heap, lists[i], i);
      CleaningNone(heap, lists[i]);
      if time == 0 || FreeUp(table[i].size, numEntries[i]) {
        n := FreeOld(i, time, heap, lists, owners);
      }
      EvictedAll(table, heap0, heap, owners0, owners, list0, lists[i], i, n);
      CleanupIsComplete(heap0, list0, lists[i], table[i].size, time);
    }

    /** The buckets in front of `i` have been cleaned up. */
    ghost predicate CleaningUp(i: nat, time: int, heap0: Heap, lists0: seq<seq<Addr>>, owners0: map<Addr, nat>)
      reads this
    {
      && Valid() && i <= |table| == |lists0| && Evicted(heap0, heap, owners0, owners)
      && (forall j :: 0 <= j < i ==> BucketCleaned(heap0, lists0[j], lists[j], table[j].size, time))
      && forall j :: i <= j < |table| ==> lists[j] == lists0[j]
    }

    method CleanNext(i: nat, time: int, ghost heap0: Heap, ghost lists0: seq<seq<Addr>>, ghost owners0: map<Addr, nat>)
      requires CleaningUp(i, time, heap0, lists0, owners0) && i < |table|
      modifies this`heap, this`lists, this`numEntries, this`numMmap, this`mmapList, this`handles, this`owners, this`live
      ensures CleaningUp(i + 1, time, heap0, lists0, owners0)
    {
      ghost var heap1, list1, owners1 := heap, lists[i], owners;
      assert BucketOk(table, heap, list1, i);
      CleanBucket(i, time);
      CleanedLater(table, heap0, heap1, i, list1, lists[i], time);
      EvictedBoth(heap0, heap1, heap, owners0, owners1, owners);
    }

    /** Cleans up all buckets at `time`, or empties them at time 0; but does nothing a second time in a row. */
    method Cleanup(time: int)
      requires Valid()
      modifies this`heap, this`lists, this`numEntries, this`numMmap, this`mmapList, this`handles, this`owners,
               this`live, this`cacheTime
      ensures Valid() && cacheTime == time && Evicted(old(heap), heap, old(owners), owners)
      ensures old(cacheTime) == time ==> heap == old(heap) && lists == old(lists)
      ensures old(cacheTime) != time ==> forall i :: 0 <= i < |table| ==>
                BucketCleaned(old(heap), old(lists)[i], lists[i], table[i].size, time)
      ensures old(cacheTime) != time && time != 0 ==> forall i :: 0 <= i < |table| ==>
                AgedOut(old(heap), old(lists)[i], lists[i], table[i].size, time)
      ensures time == 0 ==> forall i :: 0 <= i < |table| ==> lists[i] == []
    {
      if cacheTime == time {
        return;
      }
      ghost var heap0, lists0, owners0, num0 := heap, lists, owners, numEntries;
      for i := 0 to |table|
        invariant CleaningUp(i, time, heap0, lists0, owners0)
      {
        CleanNext(i, time, heap0, lists0, owners0);
      }
      AllAgedOut(table, heap0, lists0, num0, lists, time);
      cacheTime := time;
    }

    /** Puts an object that nobody refers to at the end of its bucket. */
    method PutInBucket(b: Addr, i: nat, now: int)
      requires BucketsOk(table, heap, lists, numEntries) && Mapped() && TimesOk(heap, now)
      requires b in heap && !heap[b].bucketed && i < |table| && i == Home(table, heap[b])
               && heap[b].size == table[i].size
      modifies this`heap, this`lists, this`numEntries
      ensures BucketsOk(table, heap, lists, numEntries) && Mapped() && TimesOk(heap, now)
      ensures heap == old(heap)[b := old(heap)[b].(freeTime := now, bucketed := true, ref := 0)]
      ensures lists == old(lists)[i := old(lists)[i] + [b]]
    {
      ghost var heap0 := heap;
      var bo := heap[b].(freeTime := now, bucketed := true, ref := 0);
      assert BucketOk(table, heap, lists[i], i);
      forall k | 0 <= k < |lists[i]| ensures lists[i][k] in heap && heap[lists[i][k]].freeTime <= now {
        var c := lists[i][k];
        assert c in heap;
      }
      heap := heap[b := bo];
      BucketsPut(table, heap0, heap, lists, numEntries, i, b, bo);
      MmapKeep(table, heap0, heap, mmapList, numMmap);
      MapsSet(heap0, heap, live, b, bo);
      lists := lists[i := lists[i] + [b]];
      numEntries := numEntries[i := numEntries[i] + 1];
    }

    /** The object is cached: nobody owns it any more. */
    method Retire(b: Addr, i: nat, now: int)
      requires Valid() && clock <= now && cacheTime == now != 0
      requires b in heap && !heap[b].bucketed && i < |table| && i == Home(table, heap[b])
               && heap[b].size == table[i].size
      modifies this`heap, this`lists, this`numEntries, this`owners, this`clock
      ensures Valid() && clock == now && owners == old(owners)[b := 0]
      ensures heap == old(heap)[b := old(heap)[b].(freeTime := now, bucketed := true, ref := 0)]
      ensures lists == old(lists)[i := old(lists)[i] + [b]]
    {
      PutInBucket(b, i, now);
      owners := owners[b := 0];
      clock := now;
    }

    /** The last reference of an object goes, and the object joins its bucket, if there is one of its size. */
    method CacheFree(b: Addr, now: int) returns (ok: bool)
      requires Valid() && 0 < now && clock <= now
      requires b in heap && heap[b].ref == 1 && heap[b].reuse
      modifies this`heap, this`lists, this`numEntries, this`numMmap, this`mmapList, this`handles, this`owners,
               this`live, this`cacheTime, this`clock
      ensures Valid() && ok == (Home(table, old(heap)[b]) < |table|)
      ensures !ok ==> heap == old(heap) && lists == old(lists) && owners == old(owners) && clock == old(clock)
      ensures ok ==> clock == now && b in heap && heap[b] == old(heap)[b].(freeTime := now, bucketed := true, ref := 0)
                     && owners[b] == 0 && EvictedBut(old(heap), heap, old(owners), owners, b)
      ensures ok && old(cacheTime) != now ==> forall j :: 0 <= j < |table| ==>
                if j == Home(table, old(heap)[b])
                then |lists[j]| > 0 && lists[j][|lists[j]| - 1] == b
                     && BucketCleaned(old(heap), old(lists)[j], lists[j][..|lists[j]| - 1], table[j].size, now)
                else BucketCleaned(old(heap), old(lists)[j], lists[j], table[j].size, now)
      ensures ok && old(cacheTime) != now ==> forall j :: 0 <= j < |table| ==>
                if j == Home(table, old(heap)[b])
                then |lists[j]| > 0
                     && AgedOut(old(heap), old(lists)[j], lists[j][..|lists[j]| - 1], table[j].size, now)
                else AgedOut(old(heap), old(lists)[j], lists[j], table[j].size, now)
    {
      hide MmapOk, MapsOk, HandlesOk, TimesOk, OwnersOk, Stable, BucketCleaned, AgedOut;
      ObjectIsOk(b);
      var i := GetBucket(table, heap[b].size, heap[b].sparse);
      ok := i < |table|;
      if ok {
        ghost var heap0, owners0 := heap, owners;
        Cleanup(now);
        assert b in heap;
        ghost var heap1, owners1, list1 := heap, owners, lists[i];
        Retire(b, i, now);
        assert lists[i][..|lists[i]| - 1] == list1;
        EvictedSet(heap0, heap1, heap, owners0, owners1, owners, b, heap[b], 0);
      }
    }

    /** Gives up a parked mapping. */
    method DropParked(b: Addr)
      requires Valid() && b in heap && heap[b].mapCached != 0
      modifies this`heap, this`mmapList, this`numMmap, this`live
      ensures Valid() && heap == old(heap)[b := old(heap)[b].(mapCached := 0)]
              && live == old(live) - {old(heap)[b].mapCached}
      ensures numMmap == Less(old(numMmap), Home(table, old(heap)[b]))
    {
      hide BucketsOk, MmapOk, MapsOk, HandlesOk, OwnersOk, TimesOk, Stable;
      ObjectIsOk(b);
      ghost var heap0, live0 := heap, live;
      var k :| 0 <= k < |mmapList| && mmapList[k] == b;
      var m := TakeParked(b, k);
      Munmap(m);
      RestKeeps(table, heap0, heap, lists, numEntries, handles, owners, owners, clock, b, heap[b]);
      MapsLose(heap0, heap, live0, live, b, heap[b]);
    }

    /** The clean-up of the mappings has looked at the first `i` of `list0` and goes on. */
    ghost predicate Unparking(list0: seq<Addr>, i: nat, now: int, heap0: Heap)
      reads this
    {
      && Valid() && i <= |list0| && Unparked(heap0, heap, now)
      && (forall j :: 0 <= j < |list0| ==> list0[j] in heap0 && heap0[list0[j]].mapCached != 0)
      && (forall j :: i <= j < |list0| ==> heap[list0[j]] == heap0[list0[j]])
      && Distinct(list0) && ByUnmapTime(heap0, list0)
      && forall j :: 0 <= j < i ==> !Faults(table, heap0[list0[j]], now) && now - heap0[list0[j]].unmapTime > 30
    }

    /** It has kept `kept` of the first `i`, as the rules of age and number want it. */
    ghost predicate Keeping(list0: seq<Addr>, i: nat, now: int, heap0: Heap, num0: seq<nat>, kept: seq<Addr>)
      reads this
    {
      ParkedUpTo(table, heap0, list0, num0, kept, numMmap, now, i) && KeptSoFar(heap, list0, kept, i)
    }

    /** One turn of the clean-up, for a mapping of more than 30 seconds that does not fault. */
    method UnparkNext(b: Addr, now: int, ghost list0: seq<Addr>, ghost i: nat, ghost heap0: Heap, ghost num0: seq<nat>,
                      ghost kept: seq<Addr>)
      returns (ghost kept': seq<Addr>)
      requires Unparking(list0, i, now, heap0) && i < |list0| && b == list0[i]
               && Keeping(list0, i, now, heap0, num0, kept)
      requires now - heap[b].unmapTime > 30 && !Faults(table, heap[b], now)
      modifies this`heap, this`mmapList, this`numMmap, this`live
      ensures Unparking(list0, i + 1, now, heap0) && Keeping(list0, i + 1, now, heap0, num0, kept')
    {
      hide BucketsOk, MmapOk, MapsOk, HandlesOk, OwnersOk, TimesOk, Stable;
      ParkedMore(table, heap0, list0, num0, kept, numMmap, now, i);
      KeptMore(heap, list0, kept, i);
      DroppedMore(heap, list0, kept, i);
      kept' := kept + [b];
      var home := GetBucket(table, heap[b].size, heap[b].sparse);
      if home < |table| && !FreeUp(table[home].size, numMmap[home]) {
        return;
      }
      if now - heap[b].unmapTime < 60 && numMmap[home] < 5 {
        return;
      }
      kept' := kept;
      DropParked(b);
    }

    /**
     * Cleans up the parked mappings, from the oldest on. Reading the counter of a missing bucket would be the end of
     * the process; that is the result `fault`, and it is exactly when an object of no bucket has had its mapping parked
     * for 31 to 59 seconds.
     */
    method MmapCleanup(now: int) returns (fault: bool)
      requires Valid() && 0 < now
      modifies this`heap, this`mmapList, this`numMmap, this`live, this`mmapTime
      ensures Valid() && Unparked(old(heap), heap, now)
      ensures forall b :: b in heap && old(heap)[b].mapCached == 0 ==> heap[b] == old(heap)[b]
      ensures fault <==> old(mmapTime) != now && AnyFaults(table, old(heap), old(mmapList), now)
      ensures !fault ==> mmapTime == now
      ensures !fault && old(mmapTime) != now ==>
                && MmapCleaned(table, old(heap), old(mmapList), old(numMmap), heap, numMmap, now)
                && Settled(table, old(heap), old(mmapList), old(numMmap), heap, numMmap, now)
      ensures old(mmapTime) == now ==> heap == old(heap) && mmapList == old(mmapList) && numMmap == old(numMmap)
    {
      fault := false;
      if mmapTime != now {
        fault := UnparkAll(mmapList, now);
        if !fault {
          mmapTime := now;
        }
      }
    }

    /** The loop of the clean-up, to its end or to a fault. */
    method UnparkAll(list: seq<Addr>, now: int) returns (fault: bool)
      requires Valid() && 0 < now && list == mmapList
      modifies this`heap, this`mmapList, this`numMmap, this`live
      ensures Valid() && Unparked(old(heap), heap, now)
      ensures fault <==> AnyFaults(table, old(heap), list, now)
      ensures !fault ==> MmapCleaned(table, old(heap), list, old(numMmap), heap, numMmap, now)
                         && Settled(table, old(heap), list, old(numMmap), heap, numMmap, now)
    {
      ghost var heap0, num0, kept := heap, numMmap, [];
      for i := 0 to |list|
        invariant Unparking(list, i, now, heap0) && Keeping(list, i, now, heap0, num0, kept)
      {
        var b := list[i];
        if now - heap[b].unmapTime <= 30 {
          UnparkEnd(list, i, now, heap0, num0, kept);
          return false;
        }
        if Faults(table, heap[b], now) {
          FaultsAt(table, heap0, list, i, now);
          return true;
        }
        kept := UnparkNext(b, now, list, i, heap0, num0, kept);
      }
      UnparkEnd(list, |list|, now, heap0, num0, kept);
      fault := false;
    }

    /** At its end, or at a young mapping, the loop has done what it should, and there was none to fault over. */
    lemma UnparkEnd(list0: seq<Addr>, i: nat, now: int, heap0: Heap, num0: seq<nat>, kept: seq<Addr>)
      requires Unparking(list0, i, now, heap0) && Keeping(list0, i, now, heap0, num0, kept)
      requires i < |list0| ==> now - heap0[list0[i]].unmapTime <= 30
      ensures !AnyFaults(table, heap0, list0, now)
      ensures MmapCleaned(table, heap0, list0, num0, heap, numMmap, now)
      ensures Settled(table, heap0, list0, num0, heap, numMmap, now)
    {
      NoneFaults(list0, i, now, heap0);
      CleanedAll(table, heap0, heap, list0, num0, kept, numMmap, now, i);
      CleanedIsSettled(table, heap0, list0, num0, heap, numMmap, now);
    }

    /** Behind a young mapping all are young, so none was there to fault over. */
    lemma NoneFaults(list0: seq<Addr>, i: nat, now: int, heap0: Heap)
      requires Unparking(list0, i, now, heap0) && (i < |list0| ==> now - heap0[list0[i]].unmapTime <= 30)
      ensures !AnyFaults(table, heap0, list0, now)
    {
      forall j | 0 <= j < |list0| ensures !Faults(table, heap0[list0[j]], now) {
        if j > i {
          assert heap0[list0[i]].unmapTime <= heap0[list0[j]].unmapTime;
        }
      }
    }

    /** The clean-up of the mappings at `now` does not fault. */
    predicate Safe(now: int)
      reads this
    {
      mmapTime == now || !AnyFaults(table, heap, mmapList, now)
    }

    /** With no mapping parked there is nothing to fault over. */
    lemma NothingParked(now: int)
      requires Valid() && forall b :: b in heap ==> heap[b].mapCached == 0
      ensures Safe(now)
    {
      if mmapList != [] {
        var b := SomeParked(heap, mmapList);
      }
    }

    /** When no object holds a mapping, there is none. */
    lemma NothingHeld()
      requires Valid() && forall b :: b in heap ==> Held(heap[b]) == 0
      ensures live == map[]
    {
      if live != map[] {
        var b := SomeHeld(heap, live);
      }
    }

    /** Taking an object into use parks its mapping if it idles with one, so that the mappings are cleaned up. */
    predicate SafeToTake(b: Addr, now: int)
      reads this
    {
      b in heap && heap[b].bucketed && heap[b].mapping != 0 ==> Safe(now)
    }

    /** The idle object a request takes: the oldest one of its bucket, if that has one that is idle. */
    function IdleFor(size: uint32, sparse: bool, idle: bool): (b: Option<Addr>)
      reads this`lists
    {
      var i := BucketOf(table, Aligned(size), sparse);
      if 0 < size && i < |table| && i < |lists| && lists[i] != [] && idle then Some(lists[i][0]) else None
    }

    /** With no object beyond the greatest bucket there is nothing to fault over. */
    lemma SmallIsSafe(now: int)
      requires table == Table(MAX_SIZE) && forall b :: b in heap ==> heap[b].size <= TOP
      ensures Safe(now)
    {
      forall i | 0 <= i < |mmapList| && mmapList[i] in heap ensures !Faults(table, heap[mmapList[i]], now) {
        var b := mmapList[i];
        assert b in heap && heap[b].size <= TOP;
        HasBucketExactly(heap[b].size, heap[b].sparse);
      }
    }

    /** Puts the mapping of an object at the end of the list of parked ones. */
    method ParkLast(b: Addr, now: int)
      requires Mapped() && TimesOk(heap, now) && b in heap && heap[b].mapping != 0
      modifies this`heap, this`mmapList, this`numMmap
      ensures Mapped() && heap == old(heap)[b := Parked(old(heap)[b], now)]
      ensures mmapList == old(mmapList) + [b] && numMmap == More(old(numMmap), Home(table, old(heap)[b]))
    {
      ghost var heap0 := heap;
      var bo := Parked(heap[b], now);
      forall k | 0 <= k < |mmapList| ensures mmapList[k] in heap && heap[mmapList[k]].unmapTime <= now {
        var c := mmapList[k];
        assert c in heap;
      }
      heap := heap[b := bo];
      MmapPut(table, heap0, heap, mmapList, numMmap, b, bo);
      MapsSet(heap0, heap, live, b, bo);
      mmapList := mmapList + [b];
      numMmap := More(numMmap, Home(table, bo));
    }

    method ParkNow(b: Addr, now: int)
      requires Valid() && clock <= now && b in heap && heap[b].mapping != 0
      modifies this`heap, this`mmapList, this`numMmap, this`clock
      ensures Valid() && clock == now && heap == old(heap)[b := Parked(old(heap)[b], now)]
      ensures mmapList == old(mmapList) + [b] && numMmap == More(old(numMmap), Home(table, old(heap)[b]))
    {
      hide MmapOk, MapsOk, HandlesOk;
      ghost var heap0 := heap;
      TimesPass(heap, clock, now);
      ParkLast(b, now);
      clock := now;
      BucketsKeep(table, heap0, heap, lists, numEntries);
      OwnersSet(table, heap0, owners, b, heap[b], owners[b]);
      TimesSet(heap0, now, b, heap[b]);
    }

    /** Parks the mapping of an object that is no longer mapped. */
    method Park(b: Addr, now: int)
      requires Valid() && 0 < now && clock <= now && b in heap && heap[b].mapping != 0 && Safe(now)
      modifies this`heap, this`mmapList, this`numMmap, this`live, this`mmapTime, this`clock
      ensures Valid() && clock == now && b in heap && heap[b] == Parked(old(heap)[b], now)
      ensures UnparkedBut(old(heap), heap, now, b)
      ensures |mmapList| > 0 && mmapList[|mmapList| - 1] == b && mmapTime == now
      ensures old(mmapTime) != now ==>
                exists num :: numMmap == More(num, Home(table, old(heap)[b]))
                              && MmapCleaned(table, old(heap), old(mmapList), old(numMmap), heap, num, now)
                              && Settled(table, old(heap), old(mmapList), old(numMmap), heap, num, now)
    {
      hide BucketsOk, MmapOk, MapsOk, HandlesOk, OwnersOk, TimesOk, Stable, MmapCleaned, Settled;
      ObjectIsOk(b);
      var fault := MmapCleanup(now);
      ghost var num := numMmap;
      ghost var heap1, was := heap, old(mmapTime) == now;
      ParkNow(b, now);
      if !was {
        ParkedAfterwards(table, old(heap), old(mmapList), old(numMmap), heap1, heap, num, now, b);
      }
    }

    method FirstRef(b: Addr)
      requires BucketsOk(table, heap, lists, numEntries) && Mapped() && b in heap
      modifies this`heap
      ensures BucketsOk(table, heap, lists, numEntries) && Mapped() && heap == old(heap)[b := old(heap)[b].(ref := 1)]
    {
      ghost var bo := heap[b].(ref := 1);
      BucketsKeep(table, heap, heap[b := bo], lists, numEntries);
      MmapKeep(table, heap, heap[b := bo], mmapList, numMmap);
      MapsSet(heap, heap[b := bo], live, b, bo);
      HandlesSet(heap, handles, b, bo);
      heap := heap[b := heap[b].(ref := 1)];
    }

    /** Takes an idle object off its bucket, with one reference. */
    method Acquire(i: nat, k: nat) returns (b: Addr)
      requires Valid() && i < |table| && k < |lists[i]|
      modifies this`heap, this`lists, this`numEntries
      ensures Valid() && b == old(lists)[i][k] && b in old(heap) && InBucket(table, old(heap)[b], i)
      ensures heap == old(heap)[b := old(heap)[b].(bucketed := false, ref := 1)]
    {
      ghost var heap0 := heap;
      b := TakeFromBucket(i, k);
      FirstRef(b);
      assert heap == heap0[b := heap[b]] && owners == owners[b := owners[b]];
      OwnersSet(table, heap0, owners, b, heap[b], owners[b]);
      TimesSet(heap0, clock, b, heap[b]);
    }

    /** Takes an idle object back into use, with one reference and unmapped. */
    method Revive(i: nat, k: nat, now: int) returns (b: Addr)
      requires Valid() && 0 < now && clock <= now && i < |table| && k < |lists[i]| && SafeToTake(lists[i][k], now)
      modifies this`heap, this`lists, this`numEntries, this`mmapList, this`numMmap, this`live, this`mmapTime, this`clock
      ensures Valid() && b == old(lists)[i][k] && b in old(heap) && InBucket(table, old(heap)[b], i)
      ensures UnparkedBut(old(heap), heap, now, b) && b in heap && old(clock) <= clock <= now
      ensures heap[b].ref == 1 && heap[b].mapping == 0 && heap[b].mapCached == Held(old(heap)[b]) && !heap[b].bucketed
              && heap[b].size == table[i].size && SameObject(old(heap)[b], heap[b])
    {
      hide MmapOk, MapsOk, HandlesOk, OwnersOk, TimesOk, Stable;
      b := Acquire(i, k);
      if heap[b].mapping != 0 {
        Park(b, now);
      }
    }

    /** Looks for an object in the cache; the request is rounded up to pages and to the size of its bucket. */
    method CacheAlloc(size: uint32, sparse: bool, idle: bool, now: int) returns (found: Option<Addr>, size': nat)
      requires Valid() && 0 < now && clock <= now && size > 0
      requires IdleFor(size, sparse, idle).Some? ==> SafeToTake(IdleFor(size, sparse, idle).value, now)
      modifies this`heap, this`lists, this`numEntries, this`mmapList, this`numMmap, this`live, this`mmapTime, this`clock
      ensures Valid() && old(clock) <= clock <= now
      ensures size' == Rounded(table, size, sparse) && (size <= size' <==> size <= MAX_REQUEST)
      ensures found == old(IdleFor(size, sparse, idle))
      ensures var i := BucketOf(table, Aligned(size), sparse);
              if i < |table| && idle && old(lists)[i] != [] then found == Some(old(lists)[i][0]) else found.None?
      ensures found.Some? ==>
                Revived(old(heap), heap, found.value, size', now) && heap[found.value].sparse == sparse
      ensures found.None? ==> heap == old(heap) && lists == old(lists)
    {
      RoundedExact(table, size, sparse);
      found, size' := None, Aligned(size);
      var i := GetBucket(table, size', sparse);
      if i < |table| {
        size' := table[i].size;
        if lists[i] != [] && idle {
          var b := Revive(i, 0, now);
          found := Some(b);
        }
      }
    }

    /** Enters a new object, which its creator owns. */
    method AddBo(b: Addr, bo: Bo)
      requires Valid() && b !in heap && bo.handle !in handles && IsNew(table, bo)
      modifies this`heap, this`handles, this`owners
      ensures Valid() && heap == old(heap)[b := bo] && owners == old(owners)[b := 1]
    {
      BucketsKeep(table, heap, heap[b := bo], lists, numEntries);
      MmapKeep(table, heap, heap[b := bo], mmapList, numMmap);
      MapsSet(heap, heap[b := bo], live, b, bo);
      HandlesAdd(heap, handles, b, bo);
      OwnersSet(table, heap, owners, b, bo, 1);
      TimesSet(heap, clock, b, bo);
      heap := heap[b := bo];
      handles := handles[bo.handle := b];
      owners := owners[b := 1];
    }

    /** Changes an object where neither lists nor mappings are concerned. */
    method SetBo(b: Addr, bo: Bo, n: nat)
      requires Valid() && b in heap && SameInBucket(heap[b], bo) && SameMmap(heap[b], bo) && bo.handle == heap[b].handle
      requires MapOk(bo) && bo.mapping == heap[b].mapping && OwnerOk(table, bo, n)
      modifies this`heap, this`owners
      ensures Valid() && heap == old(heap)[b := bo] && owners == old(owners)[b := n]
    {
      hide BucketsOk, MmapOk, MapsOk, HandlesOk, OwnersOk, TimesOk, Stable;
      ObjectIsOk(b);
      RestKeeps(table, heap, heap[b := bo], lists, numEntries, handles, owners, owners[b := n], clock, b, bo);
      MmapKeep(table, heap, heap[b := bo], mmapList, numMmap);
      MapsSet(heap, heap[b := bo], live, b, bo);
      heap := heap[b := bo];
      owners := owners[b := n];
    }

    /** Hands out one more reference. */
    method Ref(b: Addr)
      requires Valid() && b in heap && !heap[b].bucketed
      modifies this`heap, this`owners
      ensures Valid() && heap == old(heap)[b := old(heap)[b].(ref := old(heap)[b].ref + 1)]
      ensures owners == old(owners)[b := old(owners)[b] + 1]
    {
      SetBo(b, heap[b].(ref := heap[b].ref + 1), owners[b] + 1);
    }

    /** The object must not be cached from now on. */
    method ForbidCaching(b: Addr)
      requires Valid() && b in heap && owners[b] > 0
      modifies this`heap, this`owners
      ensures Valid() && heap == old(heap)[b := old(heap)[b].(reuse := false)] && owners == old(owners)
    {
      assert owners[b := owners[b]] == owners;
      SetBo(b, heap[b].(reuse := false), owners[b]);
    }

    /** Destroys an object that is in use, or was until now. */
    method Destroy(b: Addr)
      requires Valid() && b in heap && !heap[b].bucketed
      modifies this`heap, this`mmapList, this`numMmap, this`live, this`handles, this`owners
      ensures Valid() && heap == old(heap) - {b} && owners == old(owners) - {b}
      ensures b !in mmapList && forall h :: h in handles ==> handles[h] != b
    {
      BucketsKeep(table, heap, heap - {b}, lists, numEntries);
      BoFree(b);
    }

    /** Gives back a reference. With the last one counted, the object is cached or destroyed. */
    method Unref(b: Addr, now: int)
      requires Valid() && 0 < now && clock <= now && b in heap && owners[b] > 0
      modifies this`heap, this`lists, this`numEntries, this`numMmap, this`mmapList, this`handles, this`owners,
               this`live, this`cacheTime, this`clock
      ensures Valid() && old(clock) <= clock <= now && EvictedBut(old(heap), heap, old(owners), owners, b)
      ensures var bo := old(heap)[b];
              if bo.ref > 1 then b in heap && heap[b] == bo.(ref := bo.ref - 1) && owners[b] == old(owners)[b] - 1
              else if bo.reuse && Home(table, bo) < |table| then
                b in heap && heap[b] == bo.(freeTime := now, bucketed := true, ref := 0) && owners[b] == 0
              else b !in heap
    {
      if heap[b].ref > 1 {
        SetBo(b, heap[b].(ref := heap[b].ref - 1), owners[b] - 1);
        return;
      }
      var ok := false;
      if heap[b].reuse {
        ok := CacheFree(b, now);
      }
      if !ok {
        Destroy(b);
      }
    }

    /** Maps an object: by its own mapping, by the parked one, or by a new one, which may be refused. */
    method Map(b: Addr, mmap: Option<int>) returns (ok: bool)
      requires Valid() && b in heap && owners[b] > 0
      requires mmap.Some? ==> mmap.value != 0 && mmap.value !in live
      modifies this`heap, this`owners, this`mmapList, this`numMmap, this`live
      ensures Valid() && owners == old(owners)
      ensures ok <==> Held(old(heap)[b]) != 0 || mmap.Some?
      ensures heap == if ok then old(heap)[b := heap[b]] else old(heap)
      ensures var bo := old(heap)[b];
              ok ==> b in heap && heap[b] == bo.(mapping := if Held(bo) != 0 then Held(bo) else mmap.value,
                                                 mmapRef := bo.mmapRef + 1, mapCached := 0)
    {
      if heap[b].mapping != 0 {
        assert owners[b := owners[b]] == owners;
        SetBo(b, heap[b].(mmapRef := heap[b].mmapRef + 1), owners[b]);
        return true;
      }
      assert OwnerOk(table, heap[b], owners[b]);
      if heap[b].mapCached != 0 {
        UseParked(b);
        return true;
      }
      ok := mmap.Some?;
      if ok {
        MapNew(b, mmap.value);
      }
    }

    /** Maps an object by its parked mapping. */
    method UseParked(b: Addr)
      requires Valid() && b in heap && heap[b].mapCached != 0
      modifies this`heap, this`mmapList, this`numMmap
      ensures Valid()
      ensures var bo := old(heap)[b]; heap == old(heap)[b := bo.(mapping := bo.mapCached, mmapRef := 1, mapCached := 0)]
    {
      hide BucketsOk, MmapOk, MapsOk, HandlesOk, OwnersOk, TimesOk, Stable;
      ObjectIsOk(b);
      ghost var heap0 := heap;
      var m := CacheMap(b);
      ghost var heap1 := heap;
      heap := heap[b := heap[b].(mapping := m, mmapRef := 1)];
      MmapKeep(table, heap1, heap, mmapList, numMmap);
      RestKeeps(table, heap0, heap, lists, numEntries, handles, owners, owners, clock, b, heap[b]);
      MapsSet(heap0, heap, live, b, heap[b]);
    }

    /** Maps an object by a new mapping. */
    method MapNew(b: Addr, m: int)
      requires Valid() && b in heap && Held(heap[b]) == 0 && m != 0 && m !in live
      modifies this`heap, this`live
      ensures Valid() && heap == old(heap)[b := old(heap)[b].(mapping := m, mmapRef := 1)] && live == old(live)[m := b]
    {
      hide BucketsOk, MmapOk, MapsOk, HandlesOk, OwnersOk, TimesOk, Stable;
      ObjectIsOk(b);
      ghost var bo := heap[b].(mapping := m, mmapRef := 1);
      MmapKeep(table, heap, heap[b := bo], mmapList, numMmap);
      RestKeeps(table, heap, heap[b := bo], lists, numEntries, handles, owners, owners, clock, b, bo);
      MapsGain(heap, heap[b := bo], live, live[m := b], b, bo, m);
      heap := heap[b := heap[b].(mapping := m, mmapRef := 1)];
      live := live[m := b];
    }

    /** Unmaps an object once; its mapping is parked when that was the last time. */
    method Unmap(b: Addr, now: int)
      requires Valid() && 0 < now && clock <= now && b in heap && owners[b] > 0 && (heap[b].mmapRef == 1 ==> Safe(now))
      modifies this`heap, this`owners, this`mmapList, this`numMmap, this`live, this`mmapTime, this`clock
      ensures Valid() && old(clock) <= clock <= now && owners == old(owners) && UnparkedBut(old(heap), heap, now, b)
      ensures var bo := old(heap)[b];
              heap[b] ==
              if bo.mmapRef == 0 then bo
              else if bo.mmapRef > 1 then bo.(mmapRef := bo.mmapRef - 1)
              else bo.(mmapRef := 0, mapping := 0, mapCached := bo.mapping, unmapTime := now)
      ensures mmapTime == if old(heap)[b].mmapRef == 1 then now else old(mmapTime)
    {
      if heap[b].mmapRef == 0 {
        return;
      }
      if heap[b].mmapRef > 1 {
        assert owners[b := owners[b]] == owners;
        SetBo(b, heap[b].(mmapRef := heap[b].mmapRef - 1), owners[b]);
        return;
      }
      Park(b, now);
    }

    /** A cached object is handed out again. */
    method Rehand(b: Addr)
      requires Valid() && b in heap && heap[b].ref == 1 && owners[b] == 0 && !heap[b].bucketed
      modifies this`heap, this`owners
      ensures Valid() && heap == old(heap) && owners == old(owners)[b := 1]
    {
      assert heap[b := heap[b]] == heap;
      SetBo(b, heap[b], 1);
    }

    /** Asks the kernel for an object, and once more after all idle objects are gone. */
    method Create(bo: Bo, addr: Addr, first: Option<int>, second: Option<int>) returns (ok: bool)
      requires Valid() && addr !in heap && IsNew(table, bo)
      requires first.Some? ==> first.value !in handles
      requires second.Some? && second.value in handles ==>
                 handles[second.value] in heap && heap[handles[second.value]].bucketed
      modifies this`heap, this`lists, this`numEntries, this`numMmap, this`mmapList, this`handles, this`owners,
               this`live, this`cacheTime
      ensures Valid() && ok == (first.Some? || second.Some?)
      ensures first.Some? ==> heap == old(heap)[addr := bo.(handle := first.value)] && owners == old(owners)[addr := 1]
      ensures ok ==>
                && addr in heap && owners[addr] == 1
                && heap[addr] == bo.(handle := if first.Some? then first.value else second.value)
      ensures EvictedBut(old(heap), heap, old(owners), owners, addr) && (!ok ==> addr !in heap)
      ensures first.None? ==> forall b :: b in heap ==> !heap[b].bucketed
    {
      hide BucketsOk, MmapOk, MapsOk, HandlesOk, TimesOk, OwnersOk, Stable;
      ok := true;
      if first.Some? {
        AddBo(addr, bo.(handle := first.value));
        return;
      }
      ghost var heap0, owners0, handles0 := heap, owners, handles;
      Cleanup(0);
      NoneIsBucketed();
      ok := second.Some?;
      if ok {
        HandleFreed(heap0, handles0, heap, handles, owners0, owners, second.value);
        ghost var heap1, owners1 := heap, owners;
        AddBo(addr, bo.(handle := second.value));
        EvictedSet(heap0, heap1, heap, owners0, owners1, owners, addr, heap[addr], 1);
      }
    }

    /** When all buckets are empty nothing is idle. */
    lemma NoneIsBucketed()
      requires BucketsOk(table, heap, lists, numEntries) && forall i :: 0 <= i < |table| ==> lists[i] == []
      ensures forall b :: b in heap ==> !heap[b].bucketed
    {
    }

    /** A cached object is taken, and handed out, if one fits. */
    method NewCached(size: uint32, sparse: bool, idle: bool, now: int) returns (found: Option<Addr>, size': nat)
      requires Valid() && 0 < now && clock <= now && size > 0
      requires IdleFor(size, sparse, idle).Some? ==> SafeToTake(IdleFor(size, sparse, idle).value, now)
      modifies this`heap, this`lists, this`numEntries, this`mmapList, this`numMmap, this`live, this`mmapTime,
               this`clock, this`owners
      ensures Valid() && old(clock) <= clock <= now
      ensures size' == Rounded(table, size, sparse) && (size <= size' <==> size <= MAX_REQUEST)
      ensures found == old(IdleFor(size, sparse, idle))
      ensures var i := BucketOf(table, Aligned(size), sparse);
              if i < |table| && idle && old(lists)[i] != [] then found == Some(old(lists)[i][0]) else found.None?
      ensures found.Some? ==>
                Revived(old(heap), heap, found.value, size', now) && heap[found.value].sparse == sparse
                && owners == old(owners)[found.value := 1]
      ensures found.None? ==> heap == old(heap) && owners == old(owners) && handles == old(handles)
    {
      found, size' := CacheAlloc(size, sparse, idle, now);
      if found.Some? {
        Rehand(found.value);
      }
    }

    /**
     * A new object, from the cache if possible. The caller owns it, and nobody did before. It is at least as big as
     * asked for exactly when the request can be rounded up to pages within 32 bits.
     */
    method BoNew(size: uint32, sparse: bool, idle: bool, now: int, addr: Addr, first: Option<int>, second: Option<int>)
      returns (r: Option<Addr>)
      requires Valid() && 0 < now && clock <= now && addr !in heap
      requires IdleFor(size, sparse, idle).Some? ==> SafeToTake(IdleFor(size, sparse, idle).value, now)
      requires first.Some? ==> first.value !in handles
      requires second.Some? && second.value in handles ==>
                 handles[second.value] in heap && heap[handles[second.value]].bucketed
      modifies this`heap, this`lists, this`numEntries, this`numMmap, this`mmapList, this`handles, this`owners,
               this`live, this`cacheTime, this`mmapTime, this`clock
      ensures Valid() && old(clock) <= clock <= now
      ensures r.Some? ==>
                && r.value in heap && owners[r.value] == 1 && heap[r.value].ref == 1 && heap[r.value].mapping == 0
                && heap[r.value].size == Rounded(table, size, sparse) && size > 0 && heap[r.value].sparse == sparse
                && (size <= heap[r.value].size <==> size <= MAX_REQUEST)
                && (r.value == addr || (r.value in old(heap) && old(heap)[r.value].bucketed
                                        && old(owners)[r.value] == 0))
                && Others(old(heap), heap, old(owners), owners, r.value)
      ensures r.None? ==> Others(old(heap), heap, old(owners), owners, addr) && addr !in heap
      ensures var i := BucketOf(table, Aligned(size), sparse);
              size > 0 ==>
                if i < |table| && idle && old(lists)[i] != [] then r == Some(old(lists)[i][0])
                else
                  && (r.Some? <==> first.Some? || second.Some?)
                  && (first.None? ==> forall b :: b in heap ==> !heap[b].bucketed)
                  && (r.Some? ==>
                        && r.value == addr && heap[addr].reuse && Held(heap[addr]) == 0
                        && heap[addr].handle == if first.Some? then first.value else second.value)
    {
      hide BucketsOk, MmapOk, MapsOk, HandlesOk, TimesOk, AnyFaults;
      if size == 0 {
        return None;
      }
      ghost var heap0, owners0 := heap, owners;
      var size';
      r, size' := NewCached(size, sparse, idle, now);
      if r.Some? {
        OthersOfUnparked(heap0, heap, owners0, owners, now, r.value, 1);
        return;
      }
      var bo := Bo(0, sparse, size', 1, 0, 0, true, 0, 0, 0, false);
      SizeIsOwn(size, sparse, size', bo);
      var ok := Create(bo, addr, first, second);
      OthersOfEvicted(heap0, heap, owners0, owners, addr);
      if ok {
        r := Some(addr);
      }
    }

    /** A size rounded up to its bucket is the size of its own bucket. */
    lemma SizeIsOwn(size: uint32, sparse: bool, size': nat, bo: Bo)
      requires Stable(table) && size' == Rounded(table, size, sparse) && bo.size == size' && bo.sparse == sparse
      ensures Home(table, bo) < |table| ==> table[Home(table, bo)].size == size'
    {
    }

    /** An object that exists is found by its handle. One from the cache comes with a reference that nobody holds. */
    method Lookup(handle: int, now: int) returns (b: Addr)
      requires Valid() && 0 < now && clock <= now && handle in handles && SafeToTake(handles[handle], now)
      modifies this`heap, this`lists, this`numEntries, this`mmapList, this`numMmap, this`live, this`mmapTime,
               this`clock, this`owners
      ensures Valid() && old(clock) <= clock <= now
      ensures b == old(handles)[handle] && b in old(heap) && b in heap && heap[b].handle == handle && !heap[b].bucketed
      ensures heap[b].ref == (if old(heap)[b].bucketed then 2 else old(heap)[b].ref + 1)
              && owners[b] == old(owners)[b] + 1
      ensures SameObject(old(heap)[b], heap[b])
      ensures Others(old(heap), heap, old(owners), owners, b)
    {
      hide BucketsOk, MmapOk, MapsOk, TimesOk, OwnersOk, Stable;
      ghost var heap0, owners0 := heap, owners;
      b := handles[handle];
      if heap[b].bucketed {
        b := ReviveByAddress(b, now);
      }
      ghost var heap1 := heap;
      Ref(b);
      forall c | c in heap && c != b
        ensures c in heap0 && (heap[c] == heap0[c] || heap[c] == heap0[c].(mapCached := 0))
      {
        assert c in heap1.Keys;
      }
    }

    method ReviveByAddress(b: Addr, now: int) returns (b': Addr)
      requires Valid() && 0 < now && clock <= now && b in heap && heap[b].bucketed && SafeToTake(b, now)
      modifies this`heap, this`lists, this`numEntries, this`mmapList, this`numMmap, this`live, this`mmapTime, this`clock
      ensures Valid() && b' == b && UnparkedBut(old(heap), heap, now, b) && b in heap && old(clock) <= clock <= now
      ensures heap[b].ref == 1 && !heap[b].bucketed && SameObject(old(heap)[b], heap[b])
    {
      var i := GetBucket(table, heap[b].size, heap[b].sparse);
      var k :| 0 <= k < |lists[i]| && lists[i][k] == b;
      b' := Revive(i, k, now);
    }

    /** An object for a handle: the one that exists, or a new one, which is never cached. */
    method Wrap(handle: int, sparse: bool, size: uint32, now: int, addr: Addr) returns (b: Addr)
      requires Valid() && 0 < now && clock <= now && addr !in heap
      requires handle in handles ==> SafeToTake(handles[handle], now)
      modifies this`heap, this`lists, this`numEntries, this`numMmap, this`mmapList, this`handles, this`owners,
               this`live, this`mmapTime, this`clock
      ensures Valid() && old(clock) <= clock <= now && b in heap && heap[b].handle == handle && !heap[b].bucketed
      ensures if handle in old(handles) then b == old(handles)[handle] && owners[b] == old(owners)[b] + 1
              else b == addr && owners[b] == 1 && heap[b].ref == 1 && !heap[b].reuse
                   && heap[b].size == size && heap[b].sparse == sparse && Held(heap[b]) == 0
      ensures handle in old(handles) ==>
                b in old(heap) && SameObject(old(heap)[b], heap[b])
                && heap[b].ref == if old(heap)[b].bucketed then 2 else old(heap)[b].ref + 1
      ensures Others(old(heap), heap, old(owners), owners, b)
    {
      if handle in handles {
        b := Lookup(handle, now);
      } else {
        b := addr;
        AddBo(b, Bo(handle, sparse, size, 1, 0, 0, false, 0, 0, 0, false));
      }
    }

    /** The end: nothing idle is left over. */
    method Close()
      requires Valid()
      modifies this`heap, this`lists, this`numEntries, this`numMmap, this`mmapList, this`handles, this`owners,
               this`live, this`cacheTime
      ensures Valid() && Evicted(old(heap), heap, old(owners), owners)
      ensures forall b :: b in heap ==> heap[b].ref > 0
    {
      Cleanup(0);
      NoneIsBucketed();
    }
  }

  const MAX_REQUEST: nat := 0xFFFF_F000   // the most bytes whose whole pages are fewer than 2^32 bytes

  /** A number of bytes rounded up to whole pages, in 32 bits. */
  function Aligned(size: uint32): (n: nat) {
    (size + PAGE - 1) % WORD / PAGE * PAGE
  }

  /** Rounding up wraps to nothing exactly for more than `MAX_REQUEST` bytes. */
  lemma AlignedExact(size: uint32)
    ensures size <= Aligned(size) <==> size <= MAX_REQUEST
    ensures if size <= MAX_REQUEST then Aligned(size) % 4096 == 0 && Aligned(size) < size + 4096 else Aligned(size) == 0
  {
  }

  /** The size a request is rounded up to: that of its bucket, if it has one. */
  function Rounded(table: seq<Class>, size: uint32, sparse: bool): (n: nat) {
    var i := BucketOf(table, Aligned(size), sparse);
    if i < |table| then table[i].size else Aligned(size)
  }

  /** It is enough exactly when rounding up to pages does not wrap. */
  lemma RoundedExact(table: seq<Class>, size: uint32, sparse: bool)
    requires Stable(table)
    ensures size <= Rounded(table, size, sparse) <==> size <= MAX_REQUEST
  {
    AlignedExact(size);
  }

  /** A request of one byte too many for 32 bits is rounded to a single page, of either kind. */
  lemma HugeRequest(sparse: bool)
    ensures Rounded(Table(MAX_SIZE), 0xFFFF_F001, sparse) == PAGE
  {
    var size, table := 0xFFFF_F001, Table(MAX_SIZE);
    AlignedExact(size);
    FirstClasses(table);
    FirstFitIs(table, 0, 0, sparse, FirstFit(table, 0, 0, sparse));
  }

  /** The first class of either kind is of one page. */
  lemma FirstClasses(table: seq<Class>)
    requires table == Table(MAX_SIZE)
    ensures |table| == 110 && table[0] == Class(PAGE, false) && table[55] == Class(PAGE, true)
    ensures forall i :: 0 <= i < 110 ==> table[i].sparse == (i >= 55)
  {
    TableFits();
    var sizes := Sizes(MAX_SIZE, false);
    assert sizes[0] == PAGE;
  }

  /** An idle object of the cache is in use again. */
  ghost predicate Revived(heap: Heap, heap': Heap, b: Addr, size: nat, now: int) {
    && b in heap && b in heap' && heap[b].bucketed && UnparkedBut(heap, heap', now, b)
    && heap'[b].ref == 1 && heap'[b].mapping == 0 && heap'[b].mapCached == Held(heap[b]) && !heap'[b].bucketed
    && heap'[b].size == size && SameObject(heap[b], heap'[b])
  }

  datatype Op =
    | New(size: uint32, sparse: bool, idle: bool, now: int, addr: Addr, first: Option<int>, second: Option<int>)
    | WrapHandle(handle: int, sparse: bool, size: uint32, now: int, addr: Addr)
    | Reference(bo: Addr)
    | Unreference(bo: Addr, now: int)
    | MapBo(bo: Addr, mmap: Option<int>)
    | UnmapBo(bo: Addr, now: int)
    | Forbid(bo: Addr)

  /** The caller owns the objects it names, the clock goes on, and kernel and allocator hand out only what is free. */
  predicate Permitted(drm: Drm, op: Op)
    reads drm
  {
    match op
    case New(size, sparse, idle, now, addr, first, second) =>
      0 < now && drm.clock <= now && addr !in drm.heap
      && (drm.IdleFor(size, sparse, idle).Some? ==> drm.SafeToTake(drm.IdleFor(size, sparse, idle).value, now))
      && (first.Some? ==> first.value !in drm.handles)
      && (second.Some? && second.value in drm.handles ==>
            drm.handles[second.value] in drm.heap && drm.heap[drm.handles[second.value]].bucketed)
    case WrapHandle(handle, _, _, now, addr) =>
      0 < now && drm.clock <= now && addr !in drm.heap
      && (handle in drm.handles ==> drm.SafeToTake(drm.handles[handle], now))
    case Reference(bo) => Owned(drm, bo)
    case Unreference(bo, now) => 0 < now && drm.clock <= now && Owned(drm, bo)
    case MapBo(bo, mmap) => Owned(drm, bo) && (mmap.Some? ==> mmap.value != 0 && mmap.value !in drm.live)
    case UnmapBo(bo, now) =>
      0 < now && drm.clock <= now && Owned(drm, bo) && (drm.heap[bo].mmapRef == 1 ==> drm.Safe(now))
    case Forbid(bo) => Owned(drm, bo)
  }

  predicate Owned(drm: Drm, bo: Addr)
    reads drm
  {
    bo in drm.heap && bo in drm.owners && drm.owners[bo] > 0
  }

  /** The call looks up an object that idles in the cache, which leaves it with a reference that nobody holds. */
  predicate Reawakens(drm: Drm, op: Op)
    reads drm
  {
    op.WrapHandle? && op.handle in drm.handles && drm.handles[op.handle] in drm.heap
      && drm.heap[drm.handles[op.handle]].bucketed
  }

  /** How many references to an object its callers hold. */
  function OwnsOf(owners: map<Addr, nat>, x: Addr): (n: nat) {
    if x in owners then owners[x] else 0
  }

  /** A call, and the object it handed out. */
  datatype Entry = Entry(op: Op, handed: Option<Addr>)

  /**
   * A wrap hands out an object, a request for a new one does when it is not empty and the kernel has one; others do
   * not.
   */
  predicate Answered(e: Entry) {
    match e.op
    case New(size, _, _, _, _, first, second) =>
      (size == 0 ==> e.handed.None?) && (size > 0 && (first.Some? || second.Some?) ==> e.handed.Some?)
    case WrapHandle(_, _, _, _, _) => e.handed.Some?
    case _ => e.handed.None?
  }

  /** The references to an object that a call hands out, less those it gives back. */
  function Change(e: Entry, x: Addr): (d: int) {
    match e.op
    case New(_, _, _, _, _, _, _) => if e.handed == Some(x) then 1 else 0
    case WrapHandle(_, _, _, _, _) => if e.handed == Some(x) then 1 else 0
    case Reference(bo) => if bo == x then 1 else 0
    case Unreference(bo, _) => if bo == x then -1 else 0
    case _ => 0
  }

  /** The balance of an object after the first `n` calls, from the references there were at first. */
  function Balance(log: seq<Entry>, n: nat, x: Addr, first: map<Addr, nat>): (b: int)
    requires n <= |log|
  {
    if n == 0 then OwnsOf(first, x) else Balance(log, n - 1, x, first) + Change(log[n - 1], x)
  }

  lemma {:induction false} BalancePrefix(log: seq<Entry>, more: seq<Entry>, n: nat, x: Addr, first: map<Addr, nat>)
    requires n <= |log| && log <= more
    ensures Balance(log, n, x, first) == Balance(more, n, x, first)
  {
    if n == 0 {
    } else {
      BalancePrefix(log, more, n - 1, x, first);
    }
  }

  /** Every object has the references its balance says. */
  ghost predicate IsLedger(log: seq<Entry>, first: map<Addr, nat>, owners: map<Addr, nat>) {
    forall x :: OwnsOf(owners, x) == Balance(log, |log|, x, first)
  }

  /** Every object's references have changed as the call says. */
  ghost predicate Changed(owners: map<Addr, nat>, e: Entry, owners': map<Addr, nat>) {
    forall x :: OwnsOf(owners', x) == OwnsOf(owners, x) + Change(e, x)
  }

  /** The object has an owner from the start and after each call. */
  ghost predicate OwnedThroughout(log: seq<Entry>, x: Addr, first: map<Addr, nat>) {
    forall n :: 0 <= n <= |log| ==> Balance(log, n, x, first) > 0
  }

  /** An object is handed out as a new one only while nobody owns it. */
  ghost predicate NewOnlyUnowned(log: seq<Entry>, first: map<Addr, nat>) {
    forall n :: 0 <= n < |log| && log[n].op.New? && log[n].handed.Some? ==>
        Balance(log, n, log[n].handed.value, first) == 0
  }

  /** A wrap that hands out an object that is known and that nobody owns. */
  predicate Unowned(e: Entry, owned: int) {
    e.op.WrapHandle? && e.handed.Some? && e.handed.value != e.op.addr && owned == 0
  }

  predicate WakesAt(log: seq<Entry>, n: nat, first: map<Addr, nat>)
    requires n < |log|
  {
    log[n].handed.Some? && Unowned(log[n], Balance(log, n, log[n].handed.value, first))
  }

  /** No wrap has found an object that nobody owned. */
  ghost predicate WakesNone(log: seq<Entry>, first: map<Addr, nat>) {
    forall n :: 0 <= n < |log| ==> !WakesAt(log, n, first)
  }

  /** Objects owned throughout are the same ones. */
  ghost predicate KeptSame(log: seq<Entry>, first: map<Addr, nat>, heap: Heap, heap': Heap) {
    forall x :: OwnedThroughout(log, x, first) ==> x in heap && x in heap' && SameObject(heap[x], heap'[x])
  }

  lemma LedgerMore(log: seq<Entry>, e: Entry, more: seq<Entry>, first: map<Addr, nat>, owners: map<Addr, nat>,
                   owners': map<Addr, nat>)
    requires IsLedger(log, first, owners) && Changed(owners, e, owners') && more == log + [e]
    ensures IsLedger(more, first, owners')
  {
    forall x ensures OwnsOf(owners', x) == Balance(more, |more|, x, first) {
      BalancePrefix(log, more, |log|, x, first);
    }
  }

  lemma NewMore(log: seq<Entry>, e: Entry, more: seq<Entry>, first: map<Addr, nat>, owners: map<Addr, nat>)
    requires IsLedger(log, first, owners) && NewOnlyUnowned(log, first) && more == log + [e]
    requires e.op.New? && e.handed.Some? ==> OwnsOf(owners, e.handed.value) == 0
    ensures NewOnlyUnowned(more, first)
  {
    forall n | 0 <= n < |more| && more[n].op.New? && more[n].handed.Some?
      ensures Balance(more, n, more[n].handed.value, first) == 0
    {
      BalancePrefix(log, more, n, more[n].handed.value, first);
    }
  }

  lemma WakesMore(log: seq<Entry>, e: Entry, more: seq<Entry>, first: map<Addr, nat>, owners: map<Addr, nat>)
    requires IsLedger(log, first, owners) && more == log + [e]
    ensures WakesNone(more, first)
            <==> WakesNone(log, first) && !(e.handed.Some? && Unowned(e, OwnsOf(owners, e.handed.value)))
  {
    forall n | 0 <= n < |log| ensures WakesAt(more, n, first) == WakesAt(log, n, first) {
      if log[n].handed.Some? {
        BalancePrefix(log, more, n, log[n].handed.value, first);
      }
    }
    if e.handed.Some? {
      BalancePrefix(log, more, |log|, e.handed.value, first);
    }
    assert WakesAt(more, |log|, first) == (e.handed.Some? && Unowned(e, OwnsOf(owners, e.handed.value)));
    assert WakesNone(more, first) ==> !WakesAt(more, |log|, first);
  }

  /** Who is owned throughout a longer run was so before, and is at the last call and behind it. */
  lemma ThroughoutMore(log: seq<Entry>, e: Entry, more: seq<Entry>, x: Addr, first: map<Addr, nat>)
    requires more == log + [e] && OwnedThroughout(more, x, first)
    ensures OwnedThroughout(log, x, first) && Balance(log, |log|, x, first) > 0 && Balance(more, |more|, x, first) > 0
  {
    forall n | 0 <= n <= |log| ensures Balance(log, n, x, first) > 0 {
      BalancePrefix(log, more, n, x, first);
      assert Balance(more, n, x, first) > 0;
    }
  }

  /** Objects owned before and behind a call are the same ones. */
  ghost predicate SameOwned(heap: Heap, owners: map<Addr, nat>, heap': Heap, owners': map<Addr, nat>) {
    forall x :: OwnsOf(owners, x) > 0 && OwnsOf(owners', x) > 0 ==>
        x in heap && x in heap' && SameObject(heap[x], heap'[x])
  }

  lemma SameMore(log: seq<Entry>, e: Entry, more: seq<Entry>, first: map<Addr, nat>, heap0: Heap, heap: Heap,
                 heap': Heap, owners: map<Addr, nat>, owners': map<Addr, nat>)
    requires IsLedger(log, first, owners) && IsLedger(more, first, owners') && more == log + [e]
    requires KeptSame(log, first, heap0, heap) && SameOwned(heap, owners, heap', owners')
    ensures KeptSame(more, first, heap0, heap')
  {
    forall x | OwnedThroughout(more, x, first) ensures x in heap0 && x in heap' && SameObject(heap0[x], heap'[x]) {
      ThroughoutMore(log, e, more, x, first);
      assert OwnsOf(owners, x) == Balance(log, |log|, x, first);
      assert OwnsOf(owners', x) == Balance(more, |more|, x, first);
    }
  }

  /** The objects and their owners at one time. */
  datatype State = State(heap: Heap, owners: map<Addr, nat>)

  function StateOf(drm: Drm): (s: State)
    reads drm
  {
    State(drm.heap, drm.owners)
  }

  /** An object that is handed out, with one reference by its new owner when nobody had it, and all others let be. */
  ghost predicate HandedOut(a: State, x: Addr, b: State) {
    && Others(a.heap, b.heap, a.owners, b.owners, x) && x in b.heap && !b.heap[x].bucketed
    && OwnsOf(b.owners, x) == OwnsOf(a.owners, x) + 1
    && b.heap[x].ref == if x !in a.heap then 1 else if a.heap[x].bucketed then 2 else a.heap[x].ref + 1
  }

  /** A new object, unmapped, of the kind asked for and the size rounded up. */
  ghost predicate HandedOutNew(table: seq<Class>, a: State, op: Op, x: Addr, b: State)
    requires op.New?
  {
    && Others(a.heap, b.heap, a.owners, b.owners, x) && x in b.heap && !b.heap[x].bucketed
    && OwnsOf(a.owners, x) == 0 && OwnsOf(b.owners, x) == 1 && (x == op.addr || (x in a.heap && a.heap[x].bucketed))
    && b.heap[x].ref == 1 && b.heap[x].mapping == 0 && b.heap[x].sparse == op.sparse
    && b.heap[x].size == Rounded(table, op.size, op.sparse)
  }

  /** A reference given back. */
  ghost predicate GivenBack(table: seq<Class>, a: State, x: Addr, now: int, b: State) {
    && x in a.heap && EvictedBut(a.heap, b.heap, a.owners, b.owners, x)
    && var bo := a.heap[x];
       if bo.ref > 1 then x in b.heap && b.heap[x] == bo.(ref := bo.ref - 1)
       else if bo.reuse && Home(table, bo) < |table| then
         x in b.heap && b.heap[x] == bo.(freeTime := now, bucketed := true, ref := 0)
       else x !in b.heap
  }

  /** What a call does to the objects. */
  ghost predicate Effect(table: seq<Class>, a: State, e: Entry, b: State) {
    match e.op
    case New(_, _, _, _, addr, _, _) =>
      if e.handed.Some? then HandedOutNew(table, a, e.op, e.handed.value, b)
      else
        && Others(a.heap, b.heap, a.owners, b.owners, addr) && addr !in b.heap
        && (e.op.size > 0 ==> forall x :: x in b.heap ==> !b.heap[x].bucketed)
    case WrapHandle(handle, sparse, size, _, addr) =>
      && e.handed.Some? && HandedOut(a, e.handed.value, b) && b.heap[e.handed.value].handle == handle
      && if e.handed.value in a.heap then SameObject(a.heap[e.handed.value], b.heap[e.handed.value])
         else
           && e.handed.value == addr && !b.heap[addr].reuse
           && b.heap[addr].size == size && b.heap[addr].sparse == sparse
    case Reference(x) =>
      x in a.heap && b.heap == a.heap[x := a.heap[x].(ref := a.heap[x].ref + 1)]
    case Unreference(x, now) => GivenBack(table, a, x, now, b)
    case MapBo(x, mmap) =>
      && x in a.heap && b.owners == a.owners
      && var bo := a.heap[x];
         if Held(bo) == 0 && mmap.None? then b.heap == a.heap
         else
           var m := if Held(bo) != 0 then Held(bo) else mmap.value;
           b.heap == a.heap[x := bo.(mapping := m, mmapRef := bo.mmapRef + 1, mapCached := 0)]
    case UnmapBo(x, now) =>
      && x in a.heap && x in b.heap && b.owners == a.owners && UnparkedBut(a.heap, b.heap, now, x)
      && var bo := a.heap[x];
         b.heap[x] ==
         if bo.mmapRef == 0 then bo
         else if bo.mmapRef > 1 then bo.(mmapRef := bo.mmapRef - 1)
         else bo.(mmapRef := 0, mapping := 0, mapCached := bo.mapping, unmapTime := now)
    case Forbid(x) =>
      x in a.heap && b.owners == a.owners && b.heap == a.heap[x := a.heap[x].(reuse := false)]
  }

  /** A call that names an object: it, and the others by what becomes of them. */
  method PerformOn(drm: Drm, op: Op)
    requires drm.Valid() && Permitted(drm, op) && !op.New? && !op.WrapHandle?
    modifies drm
    ensures drm.Valid() && Others(old(drm.heap), drm.heap, old(drm.owners), drm.owners, op.bo)
    ensures OwnsOf(drm.owners, op.bo) == old(OwnsOf(drm.owners, op.bo)) + Change(Entry(op, None), op.bo)
    ensures Owned(drm, op.bo) ==> SameObject(old(drm.heap)[op.bo], drm.heap[op.bo])
    ensures Leak(old(drm.heap), old(drm.owners), op.bo) == Leak(drm.heap, drm.owners, op.bo)
    ensures Effect(drm.table, old(StateOf(drm)), Entry(op, None), StateOf(drm))
  {
    hide BucketsOk, MmapOk, MapsOk, HandlesOk, TimesOk, Stable, AnyFaults, Home, HandedOut, HandedOutNew, EvictedBut;
    hide UnparkedBut;
    ghost var heap, owners := drm.heap, drm.owners;
    drm.ObjectIsOk(op.bo);
    match op
    case Reference(bo) =>
      drm.Ref(bo);
    case Unreference(bo, now) =>
      drm.Unref(bo, now);
      OthersOfEvicted(heap, drm.heap, owners, drm.owners, bo);
    case MapBo(bo, mmap) =>
      var ok := drm.Map(bo, mmap);
    case UnmapBo(bo, now) =>
      drm.Unmap(bo, now);
      OthersOfUnparked(heap, drm.heap, owners, drm.owners, now, bo, owners[bo]);
    case Forbid(bo) =>
      drm.ForbidCaching(bo);
  }

  /** When one object's references change as the call says and others are let be, all change as it says. */
  lemma AllChanged(table: seq<Class>, heap: Heap, heap': Heap, owners: map<Addr, nat>, owners': map<Addr, nat>,
                   but: Addr, e: Entry)
    requires OwnersOk(table, heap, owners) && OwnersOk(table, heap', owners')
    requires Others(heap, heap', owners, owners', but)
    requires OwnsOf(owners', but) == OwnsOf(owners, but) + Change(e, but)
    requires OwnsOf(owners, but) > 0 && OwnsOf(owners', but) > 0 ==> SameObject(heap[but], heap'[but])
    requires forall x :: x != but ==> Change(e, x) == 0
    ensures Changed(owners, e, owners') && SameOwned(heap, owners, heap', owners')
  {
    forall x ensures OwnsOf(owners', x) == OwnsOf(owners, x) + Change(e, x)
                     && (OwnsOf(owners, x) > 0 && OwnsOf(owners', x) > 0 ==>
                           x in heap && x in heap' && SameObject(heap[x], heap'[x]))
    {
      if x != but && x in heap {
        OwnedSurvives(table, heap, heap', owners, owners', but, x);
      }
    }
  }

  /**
   * One call: the references of all objects change by what the call hands out or takes back, so an owned object stays
   * the same one while references are left, and none is handed out as new. Counts are exact after it exactly when they
   * were and no idle object was looked up; and such a lookup is one that hands out a known object that nobody owned.
   */
  method Perform(drm: Drm, op: Op) returns (r: Option<Addr>)
    requires drm.Valid() && Permitted(drm, op)
    modifies drm
    ensures drm.Valid() && Answered(Entry(op, r)) && Effect(drm.table, old(StateOf(drm)), Entry(op, r), StateOf(drm))
    ensures Changed(old(drm.owners), Entry(op, r), drm.owners)
    ensures SameOwned(old(drm.heap), old(drm.owners), drm.heap, drm.owners)
    ensures op.New? && r.Some? ==> OwnsOf(old(drm.owners), r.value) == 0
    ensures Exact(drm.heap, drm.owners) <==> old(Exact(drm.heap, drm.owners)) && !old(Reawakens(drm, op))
    ensures old(Exact(drm.heap, drm.owners)) ==>
              (old(Reawakens(drm, op)) <==> r.Some? && Unowned(Entry(op, r), OwnsOf(old(drm.owners), r.value)))
  {
    hide BucketsOk, MmapOk, MapsOk, TimesOk, Stable, AnyFaults, Changed, SameOwned;
    r := None;
    ghost var heap, owners := drm.heap, drm.owners;
    ghost var but;
    if op.New? {
      r := drm.BoNew(op.size, op.sparse, op.idle, op.now, op.addr, op.first, op.second);
      but := if r.Some? then r.value else op.addr;
    } else if op.WrapHandle? {
      var b := drm.Wrap(op.handle, op.sparse, op.size, op.now, op.addr);
      r, but := Some(b), b;
    } else {
      PerformOn(drm, op);
      but := op.bo;
    }
    if Leak(heap, owners, but) == Leak(drm.heap, drm.owners, but) {
      ExactKeeps(drm.table, heap, drm.heap, owners, drm.owners, but);
    }
    AllChanged(drm.table, heap, drm.heap, owners, drm.owners, but, Entry(op, r));
  }

  /** An owned object is in no bucket and is found by its handle. */
  lemma OwnedIsThere(drm: Drm, x: Addr)
    requires drm.Valid() && OwnsOf(drm.owners, x) > 0
    ensures x in drm.heap && !drm.heap[x].bucketed
    ensures drm.heap[x].handle in drm.handles && drm.handles[drm.heap[x].handle] == x
    ensures forall i :: 0 <= i < |drm.lists| ==> x !in drm.lists[i]
  {
  }

  /** The states between the calls of a log, each made of the one before by what its call does. */
  ghost predicate Chain(table: seq<Class>, states: seq<State>, log: seq<Entry>) {
    |states| == |log| + 1 && forall i :: 0 <= i < |log| ==> Effect(table, states[i], log[i], states[i + 1])
  }

  lemma ChainMore(table: seq<Class>, states: seq<State>, log: seq<Entry>, e: Entry, next: State)
    requires Chain(table, states, log) && Effect(table, states[|log|], e, next)
    ensures Chain(table, states + [next], log + [e])
  {
  }

  /** A run of the first calls of a list, as the log tells it. */
  ghost predicate Ran(drm: Drm, ops: seq<Op>, log: seq<Entry>, heap: Heap, first: map<Addr, nat>, states: seq<State>)
    reads drm
  {
    && Chain(drm.table, states, log) && states[0] == State(heap, first) && states[|log|] == StateOf(drm)
    && drm.Valid() && |log| <= |ops| && (forall i :: 0 <= i < |log| ==> log[i].op == ops[i] && Answered(log[i]))
    && IsLedger(log, first, drm.owners) && NewOnlyUnowned(log, first) && KeptSame(log, first, heap, drm.heap)
    && (Exact(drm.heap, drm.owners) <==> Exact(heap, first) && WakesNone(log, first))
  }

  lemma RanStart(drm: Drm, ops: seq<Op>)
    requires drm.Valid()
    ensures Ran(drm, ops, [], drm.heap, drm.owners, [StateOf(drm)])
  {
    forall x | OwnedThroughout([], x, drm.owners) ensures x in drm.heap {
      assert Balance([], 0, x, drm.owners) > 0;
    }
  }

  method PerformNext(drm: Drm, ops: seq<Op>, log: seq<Entry>, ghost heap: Heap, ghost first: map<Addr, nat>,
                     ghost states: seq<State>)
    returns (more: seq<Entry>, ghost states': seq<State>)
    requires Ran(drm, ops, log, heap, first, states) && |log| < |ops| && Permitted(drm, ops[|log|])
    modifies drm
    ensures Ran(drm, ops, more, heap, first, states') && |more| == |log| + 1
  {
    hide Balance, Change, OwnsOf, Exact, IsLedger, NewOnlyUnowned, KeptSame, WakesNone, Changed, SameOwned, Unowned;
    hide Effect, Chain;
    ghost var heap1, owners1 := drm.heap, drm.owners;
    var op := ops[|log|];
    var r := Perform(drm, op);
    ghost var e := Entry(op, r);
    more := log + [Entry(op, r)];
    LedgerMore(log, e, more, first, owners1, drm.owners);
    NewMore(log, e, more, first, owners1);
    WakesMore(log, e, more, first, owners1);
    SameMore(log, e, more, first, heap, heap1, drm.heap, owners1, drm.owners);
    ChainMore(drm.table, states, log, e, StateOf(drm));
    states' := states + [StateOf(drm)];
  }

  /**
   * Any run of calls, up to the first that is not permitted, does one by one what its calls do. It is a ledger: in the
   * end every object has the references handed out less those given back, so it exists, in no bucket and found by its
   * handle, while one is left, and is never handed out as new meanwhile. An object owned throughout is the same one in
   * the end. Counts stay exact exactly over runs in which no wrap hands out a known object that nobody owns.
   */
  method Run(drm: Drm, ops: seq<Op>) returns (log: seq<Entry>, ghost states: seq<State>)
    requires drm.Valid()
    modifies drm
    ensures drm.Valid() && |log| <= |ops| && (|log| < |ops| ==> !Permitted(drm, ops[|log|]))
    ensures forall i :: 0 <= i < |log| ==> log[i].op == ops[i] && Answered(log[i])
    ensures Chain(drm.table, states, log) && states[0] == old(StateOf(drm)) && states[|log|] == StateOf(drm)
    ensures forall x :: OwnsOf(drm.owners, x) == Balance(log, |log|, x, old(drm.owners))
    ensures forall x :: Balance(log, |log|, x, old(drm.owners)) > 0 ==>
              && x in drm.heap && !drm.heap[x].bucketed && (forall i :: 0 <= i < |drm.lists| ==> x !in drm.lists[i])
              && drm.heap[x].handle in drm.handles && drm.handles[drm.heap[x].handle] == x
    ensures forall x :: OwnedThroughout(log, x, old(drm.owners)) ==>
              x in old(drm.heap) && x in drm.heap && SameObject(old(drm.heap)[x], drm.heap[x])
    ensures NewOnlyUnowned(log, old(drm.owners))
    ensures Exact(drm.heap, drm.owners) <==> old(Exact(drm.heap, drm.owners)) && WakesNone(log, old(drm.owners))
  {
    hide BucketsOk, MmapOk, MapsOk, HandlesOk, OwnersOk, TimesOk, Stable, AnyFaults, Exact, Balance, Change, Effect;
    ghost var heap, first := drm.heap, drm.owners;
    RanStart(drm, ops);
    log, states := [], [StateOf(drm)];
    while |log| < |ops| && Permitted(drm, ops[|log|])
      invariant Ran(drm, ops, log, heap, first, states)
      decreases |ops| - |log|
    {
      log, states := PerformNext(drm, ops, log, heap, first, states);
    }
    forall x | Balance(log, |log|, x, first) > 0
      ensures x in drm.heap && !drm.heap[x].bucketed && (forall i :: 0 <= i < |drm.lists| ==> x !in drm.lists[i])
              && drm.heap[x].handle in drm.handles && drm.handles[drm.heap[x].handle] == x
    {
      assert OwnsOf(drm.owners, x) > 0;
      OwnedIsThere(drm, x);
    }
  }

  /** An object that is created, given back and looked up by its handle is counted twice and owned once. */
  method ReawakenedTwice(drm: Drm, addr: Addr, other: Addr, handle: int, size: uint32)
    requires drm.Valid() && drm.table == Table(MAX_SIZE) && drm.heap == map[] && drm.clock <= 1
    requires addr != other && 0 < size <= TOP - PAGE
    modifies drm
    ensures drm.Valid() && addr in drm.heap && drm.heap[addr].ref == 2 && drm.owners[addr] == 1
    ensures !Exact(drm.heap, drm.owners)
  {
    AlignedExact(size);
    HasBucketExactly(Aligned(size), false);
    var r := drm.BoNew(size, false, false, 1, addr, Some(handle), None);
    assert Home(drm.table, drm.heap[addr]) < |drm.table|;
    drm.Unref(addr, 1);
    drm.SmallIsSafe(1);
    var b := drm.Wrap(handle, false, size, 1, other);
  }

  /**
   * An object beyond 112 MiB that is created, mapped and unmapped makes a clean-up of the mappings 40 seconds later
   * fault.
   */
  method FaultReached(drm: Drm, addr: Addr, handle: int, mapping: int) returns (fault: bool)
    requires drm.Valid() && drm.table == Table(MAX_SIZE) && drm.heap == map[] && drm.clock <= 1 && mapping != 0
    modifies drm
    ensures fault
  {
    var size := TOP + PAGE;
    AlignedExact(size);
    HasBucketExactly(Aligned(size), false);
    HasBucketExactly(size, false);
    var r := drm.BoNew(size, false, false, 1, addr, Some(handle), None);
    drm.NothingHeld();
    var ok := drm.Map(addr, Some(mapping));
    drm.NothingParked(1);
    drm.Unmap(addr, 1);
    drm.ObjectIsOk(addr);
    ghost var k :| 0 <= k < |drm.mmapList| && drm.mmapList[k] == addr;
    FaultsAt(drm.table, drm.heap, drm.mmapList, k, 41);
    fault := drm.MmapCleanup(41);
  }
}
