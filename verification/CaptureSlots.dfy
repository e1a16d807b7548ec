/** The capture-buffer slots of the V4L2 decoder: which slot a picture gets, and which references the kernel is told. */
module CaptureSlots {
  class Surface {
    var bufIdx: int      // negative: holds no capture buffer
    var timestamp: int   // 0: never decoded
    var poc: int
    var frameNum: int
    var cached: bool     // listed in the decoder's surface cache

    constructor ()
      ensures bufIdx == -1 && timestamp == 0 && !cached
    {
      bufIdx, timestamp, poc, frameNum, cached := -1, 0, 0, 0, false;
    }

    method Destroy()
      modifies this`bufIdx
      ensures bufIdx == -1
    {
      bufIdx := -1;
    }
  }

  const MIN_BUFFERS: nat := 17
  const NUM_REFS: nat := 16

  datatype DpbEntry = Unused | Active(poc: int, referenceTs: int)

  datatype Status = Ok | NoImplementation | Error

  /** What the kernel makes of a request: a failing call before completion, or a picture with or without errors. */
  datatype Kernel = Rejected | Completed(decodeError: bool)

  datatype Picture = Picture(refs: seq<Surface?>, weightedPred: bool, weightedBipredIdc: int, entropyCoding: bool,
                             poc: int, frameNum: int)

  predicate Supported(pic: Picture, sliceType: nat) {
    var m := sliceType % 5;
    !((pic.weightedPred && (m == 0 || m == 3)) || (pic.weightedBipredIdc == 1 && m == 1)) && !pic.entropyCoding
  }

  /** No two slots hold the same timestamp, unless it is the unset one. */
  ghost predicate Distinct(ts: seq<int>) {
    forall i, j :: 0 <= i < j < |ts| && ts[i] != 0 ==> ts[i] != ts[j]
  }

  ghost predicate Referenced(t: int, refs: seq<Surface?>)
    reads refs`timestamp
  {
    exists i :: 0 <= i < |refs| && refs[i] != null && refs[i].timestamp == t
  }

  ghost function TimesOf(refs: seq<Surface?>): (s: seq<int>)
    reads refs
    ensures |s| == |refs| && forall i :: 0 <= i < |refs| && refs[i] != null ==> s[i] == refs[i].timestamp
  {
    if refs == [] then []
    else
      assert refs[|refs| - 1] in refs && forall r :: r in refs[..|refs| - 1] ==> r in refs;
      TimesOf(refs[..|refs| - 1]) + [if refs[|refs| - 1] == null then 0 else refs[|refs| - 1].timestamp]
  }

  lemma {:induction false} ElementsBound(s: seq<int>)
    ensures |set x | x in s| <= |s|
  {
    if s == [] {
    } else {
      var rest := s[..|s| - 1];
      ElementsBound(rest);
      assert (set x | x in s) == (set x | x in rest) + {s[|s| - 1]};
    }
  }

  lemma {:induction false} ElementsOfDistinct(s: seq<int>)
    requires Distinct(s) && 0 !in s
    ensures |set x | x in s| == |s|
  {
    if s == [] {
    } else {
      var rest := s[..|s| - 1];
      assert forall x :: x in rest ==> x in s;
      ElementsOfDistinct(rest);
      assert (set x | x in s) == (set x | x in rest) + {s[|s| - 1]};
      assert s[|s| - 1] !in rest;
    }
  }

  /** Pigeonhole: distinct timestamps that all belong to references are no more than the references. */
  lemma {:induction false} BusySlotsBound(ts: seq<int>, refs: seq<Surface?>)
    requires Distinct(ts) && 0 !in ts
    requires forall k :: 0 <= k < |ts| ==> Referenced(ts[k], refs)
    ensures |ts| <= |refs|
  {
    var times := TimesOf(refs);
    ElementsOfDistinct(ts);
    ElementsBound(times);
    var a, b := set x | x in ts, set x | x in times;
    assert a <= b;
    SubsetBound(a, b);
  }

  lemma {:induction false} SubsetBound(a: set<int>, b: set<int>)
    requires a <= b
    ensures |a| <= |b|
  {
    assert b == a + (b - a);
  }

  /** The slot timestamps after a request that took `slot`, or none when `slot` is past the end. */
  function Stored(ts: seq<int>, slot: nat, now: int): (r: seq<int>)
    ensures |r| == |ts|
  {
    if slot < |ts| then ts[slot := now] else ts
  }

  class Decoder {
    const timestamps: array<int>
    const surfaces: array<Surface?>
    ghost var clock: int

    ghost predicate Valid()
      reads this, timestamps
    {
      && timestamps.Length == surfaces.Length
      && Distinct(timestamps[..])
      && 0 <= clock
      && forall k :: 0 <= k < timestamps.Length ==> 0 <= timestamps[k] <= clock
    }

    constructor (numBuffers: nat)
      ensures Valid() && fresh(timestamps) && fresh(surfaces)
      ensures timestamps.Length == numBuffers && forall k :: 0 <= k < numBuffers ==> timestamps[k] == 0
    {
      timestamps := new int[numBuffers](_ => 0);
      surfaces := new Surface?[numBuffers](_ => null);
      clock := 0;
    }

    /** The surface owns its slot, and the slot's timestamp is that of the surface's own decoding. */
    ghost predicate Bound(s: Surface)
      reads this, timestamps, surfaces, s
    {
      && 0 <= s.bufIdx < timestamps.Length == surfaces.Length
      && surfaces[s.bufIdx] == s
      && timestamps[s.bufIdx] == s.timestamp != 0
    }

    /** The slot rule: the surface's own slot, else an unset one, else one no reference holds, else none. */
    ghost predicate Chosen(surf: Surface, refs: seq<Surface?>, b: nat)
      requires Valid()
      reads this, timestamps, surfaces, surf`bufIdx, surf`timestamp, refs`timestamp
    {
      var n := timestamps.Length;
      && b <= n
      && ((b < n && surf.bufIdx >= 0 && surfaces[b] == surf && timestamps[b] == surf.timestamp)
          || ((forall k :: 0 <= k < n && surf.bufIdx >= 0 && surfaces[k] == surf ==> timestamps[k] != surf.timestamp)
              && ((b < n && timestamps[b] == 0)
                  || ((forall k :: 0 <= k < n ==> timestamps[k] != 0)
                      && (b < n ==> !Referenced(timestamps[b], refs))
                      && forall k :: 0 <= k < b ==> Referenced(timestamps[k], refs)))))
    }

    method FindOwn(surf: Surface) returns (b: nat)
      requires Valid()
      ensures b <= timestamps.Length
      ensures b < timestamps.Length ==>
                surf.bufIdx >= 0 && surfaces[b] == surf && timestamps[b] == surf.timestamp
      ensures forall k :: 0 <= k < b && surf.bufIdx >= 0 && surfaces[k] == surf ==> timestamps[k] != surf.timestamp
    {
      b := 0;
      if surf.bufIdx < 0 {
        return timestamps.Length;
      }
      while b < timestamps.Length
        invariant b <= timestamps.Length
        invariant forall k :: 0 <= k < b && surfaces[k] == surf ==> timestamps[k] != surf.timestamp
      {
        if surfaces[b] == surf && timestamps[b] == surf.timestamp {
          return;
        }
        b := b + 1;
      }
    }

    method FindUnset() returns (b: nat)
      requires Valid()
      ensures b <= timestamps.Length && (b < timestamps.Length ==> timestamps[b] == 0)
      ensures forall k :: 0 <= k < b ==> timestamps[k] != 0
    {
      b := 0;
      while b < timestamps.Length && timestamps[b] != 0
        invariant b <= timestamps.Length && forall k :: 0 <= k < b ==> timestamps[k] != 0
      {
        b := b + 1;
      }
    }

    static method IsReferenced(t: int, refs: seq<Surface?>) returns (busy: bool)
      ensures busy == Referenced(t, refs)
    {
      var i := 0;
      while i < |refs|
        invariant i <= |refs| && forall k :: 0 <= k < i && refs[k] != null ==> refs[k].timestamp != t
      {
        if refs[i] != null && refs[i].timestamp == t {
          return true;
        }
        i := i + 1;
      }
      return false;
    }

    method FindUnreferenced(refs: seq<Surface?>) returns (b: nat)
      requires Valid()
      ensures b <= timestamps.Length && (b < timestamps.Length ==> !Referenced(timestamps[b], refs))
      ensures forall k :: 0 <= k < b ==> Referenced(timestamps[k], refs)
    {
      b := 0;
      while b < timestamps.Length
        invariant b <= timestamps.Length && forall k :: 0 <= k < b ==> Referenced(timestamps[k], refs)
      {
        var busy := IsReferenced(timestamps[b], refs);
        if !busy {
          return;
        }
        b := b + 1;
      }
    }

    method ChooseSlot(surf: Surface, refs: seq<Surface?>) returns (b: nat)
      requires Valid()
      ensures Chosen(surf, refs, b)
      ensures |refs| < timestamps.Length ==> b < timestamps.Length
      ensures forall k :: 0 <= k < timestamps.Length ==>
                && (surf.bufIdx >= 0 && surfaces[k] == surf && timestamps[k] == surf.timestamp ==>
                      b < timestamps.Length && surfaces[b] == surf && timestamps[b] == surf.timestamp)
                && (timestamps[k] == 0 ==>
                      b < timestamps.Length
                      && (timestamps[b] == 0
                          || (surf.bufIdx >= 0 && surfaces[b] == surf && timestamps[b] == surf.timestamp)))
      ensures b < timestamps.Length && timestamps[b] != 0 ==>
                (surf.bufIdx >= 0 && surfaces[b] == surf && timestamps[b] == surf.timestamp)
                || forall i :: 0 <= i < |refs| && refs[i] != null ==> refs[i].timestamp != timestamps[b]
    {
      b := FindOwn(surf);
      if b < timestamps.Length {
        return;
      }
      b := FindUnset();
      if b < timestamps.Length {
        return;
      }
      b := FindUnreferenced(refs);
      if b == timestamps.Length {
        BusySlotsBound(timestamps[..], refs);
      }
    }

    /**
     * The list sent: no entry for no reference, one without a buffer, one out of the cache, or one whose slot has
     * another surface; else the reference's POC and the timestamp of its slot.
     */
    method FillDpb(refs: seq<Surface?>) returns (dpb: seq<DpbEntry>)
      requires Valid() && forall r | r in refs && r != null :: r.bufIdx < timestamps.Length
      ensures |dpb| == |refs| && forall i :: 0 <= i < |refs| ==>
                var r := refs[i];
                dpb[i] == if r == null || r.bufIdx < 0 || !r.cached || surfaces[r.bufIdx] != r then Unused
                          else Active(r.poc, timestamps[r.bufIdx])
    {
      dpb := [];
      for i := 0 to |refs|
        invariant |dpb| == i && forall k :: 0 <= k < i ==>
                    var r := refs[k];
                    dpb[k] == if r == null || r.bufIdx < 0 || !r.cached || surfaces[r.bufIdx] != r then Unused
                              else Active(r.poc, timestamps[r.bufIdx])
      {
        var ref, entry := refs[i], Unused;
        if ref != null && ref.bufIdx >= 0 && ref.cached && surfaces[ref.bufIdx] == ref {
          entry := Active(ref.poc, timestamps[ref.bufIdx]);
        }
        dpb := dpb + [entry];
      }
    }

    /** The surface takes the slot. */
    method Commit(surf: Surface, slot: nat)
      requires timestamps.Length == surfaces.Length && slot < timestamps.Length
      modifies timestamps, surfaces, surf`bufIdx
      ensures surf.bufIdx == slot && timestamps[..] == old(timestamps[..])[slot := surf.timestamp]
      ensures surfaces[..] == old(surfaces[..])[slot := surf]
    {
      surf.bufIdx := slot;
      surfaces[slot] := surf;
      timestamps[slot] := surf.timestamp;
    }

    /** One decoding request at time `now`. `slot` is the slot used; it is past the end when none is. */
    method Decode(surf: Surface, pic: Picture, sliceType: nat, now: int, kernel: Kernel)
      returns (status: Status, slot: nat, dpb: seq<DpbEntry>)
      requires Valid() && clock < now && surf.bufIdx < timestamps.Length && !surf.cached
      requires forall r | r in pic.refs && r != null :: r.bufIdx < timestamps.Length
      modifies this`clock, timestamps, surfaces, surf
      ensures Valid() && clock == now && surf.bufIdx < timestamps.Length && !surf.cached
      ensures Supported(pic, sliceType) ==> old(Chosen(surf, pic.refs, slot))
      ensures |pic.refs| < timestamps.Length ==> (slot < timestamps.Length <==> Supported(pic, sliceType))
      ensures status == NoImplementation <==> !Supported(pic, sliceType)
      ensures status == NoImplementation <==>
                pic.entropyCoding || (pic.weightedPred && sliceType % 5 in {0, 3})
                || (pic.weightedBipredIdc == 1 && sliceType % 5 == 1)
      ensures var took := kernel.Completed? && slot < timestamps.Length;
              && timestamps[..] == old(Stored(timestamps[..], if took then slot else timestamps.Length, now))
              && surfaces[..] == (if took then old(surfaces[..])[slot := surf] else old(surfaces[..]))
              && (status == Ok <==> took && !kernel.decodeError)
              && surf.bufIdx == if took then slot else old(surf.bufIdx)
      ensures if slot < timestamps.Length
              then surf.timestamp == now && surf.poc == pic.poc && surf.frameNum == pic.frameNum && |dpb| == |pic.refs|
              else surf.timestamp == old(surf.timestamp) && surf.poc == old(surf.poc)
                   && surf.frameNum == old(surf.frameNum) && dpb == []
      ensures forall i :: 0 <= i < |dpb| ==>
                var r := pic.refs[i];
                var unused := r == null || old(r.bufIdx) < 0 || !old(r.cached) || old(surfaces[r.bufIdx]) != r;
                dpb[i] == if unused then Unused else Active(old(r.poc), old(timestamps[r.bufIdx]))
    {
      slot, dpb, status := timestamps.Length, [], NoImplementation;
      if Supported(pic, sliceType) {
        slot := ChooseSlot(surf, pic.refs);
        status := Error;
        if slot < timestamps.Length {
          surf.timestamp, surf.poc, surf.frameNum := now, pic.poc, pic.frameNum;
          dpb := FillDpb(pic.refs);
          if kernel.Completed? {
            Commit(surf, slot);
            status := if kernel.decodeError then Error else Ok;
          }
        }
      }
      clock := now;
    }

    /** A rendering request: the surface leaves the cache while it is decoded, and joins it again afterwards. */
    method Render(surf: Surface, pic: Picture, sliceType: nat, now: int, kernel: Kernel, ghost kept: set<Surface>)
      returns (status: Status, slot: nat, dpb: seq<DpbEntry>)
      requires Valid() && clock < now && surf.bufIdx < timestamps.Length && |pic.refs| == NUM_REFS < timestamps.Length
      requires forall r | r in pic.refs && r != null :: r.bufIdx < timestamps.Length
      requires forall s | s in kept :: s != surf && s in pic.refs && Bound(s)
      modifies this`clock, timestamps, surfaces, surf
      ensures Valid() && clock == now && surf.bufIdx < timestamps.Length && surf.cached
      ensures slot < timestamps.Length <==> Supported(pic, sliceType)
      ensures forall s | s in kept :: Bound(s) && s.bufIdx != slot
      ensures Supported(pic, sliceType) ==>
                |dpb| == NUM_REFS && surf.poc == pic.poc && surf.frameNum == pic.frameNum && surf.timestamp == now
                && (Bound(surf) <==> kernel.Completed?)
      ensures !Supported(pic, sliceType) ==>
                status == NoImplementation && dpb == [] && (Bound(surf) <==> old(Bound(surf)))
      ensures forall i :: 0 <= i < |dpb| ==>
                var r := pic.refs[i];
                var unused := r == null || r == surf || old(r.bufIdx) < 0 || !old(r.cached)
                              || old(surfaces[r.bufIdx]) != r;
                dpb[i] == if unused then Unused else Active(old(r.poc), old(timestamps[r.bufIdx]))
      ensures forall i, s | 0 <= i < |dpb| && s in kept && pic.refs[i] == s && s.cached ::
                dpb[i] == Active(s.poc, s.timestamp)
    {
      hide Supported;
      surf.cached := false;
      assert forall s | s in kept :: s.timestamp == timestamps[s.bufIdx] && Referenced(timestamps[s.bufIdx], pic.refs);
      status, slot, dpb := Decode(surf, pic, sliceType, now, kernel);
      surf.cached := true;
    }
  }

  /** A surface is decoded, and decoded again, which the kernel rejects: then it does not own its slot any more. */
  method SecondDecodingRejected(dec: Decoder, surf: Surface, pic: Picture, sliceType: nat, now: int)
    requires dec.Valid() && dec.clock < now && surf.bufIdx < dec.timestamps.Length
    requires |pic.refs| == NUM_REFS < dec.timestamps.Length && Supported(pic, sliceType)
    requires forall r | r in pic.refs && r != null :: r.bufIdx < dec.timestamps.Length
    modifies dec`clock, dec.timestamps, dec.surfaces, surf
    ensures dec.Valid() && surf.cached && surf.timestamp == now + 1 && !dec.Bound(surf)
  {
    var status, slot, dpb := dec.Render(surf, pic, sliceType, now, Completed(false), {});
    status, slot, dpb := dec.Render(surf, pic, sliceType, now + 1, Rejected, {});
  }

  datatype Request = Rendering(surf: Surface, pic: Picture, sliceType: nat, now: int, kernel: Kernel)
                   | Destruction(surf: Surface)

  /** A request that keeps `s` in use: it decodes `s` to completion, lists `s`, or destroys something else. */
  predicate Uses(q: Request, s: Surface) {
    match q
    case Rendering(surf, pic, sliceType, now, kernel) =>
      |pic.refs| == NUM_REFS && if surf == s then Supported(pic, sliceType) && kernel.Completed? else s in pic.refs
    case Destruction(surf) => surf != s
  }

  ghost predicate Within(q: Request, all: set<Surface>) {
    q.surf in all && (q.Rendering? ==> forall r :: r in q.pic.refs && r != null ==> r in all)
  }

  /** The requests come at ever later times. */
  predicate Scheduled(requests: seq<Request>) {
    forall i, j :: 0 <= i < j < |requests| && requests[i].Rendering? && requests[j].Rendering? ==>
      requests[i].now < requests[j].now
  }

  /** How `s` should be named after the request: by its new decoding, or as before. */
  function Renamed(q: Request, s: Surface, before: DpbEntry): DpbEntry {
    if q.Rendering? && q.surf == s then Active(q.pic.poc, q.now) else before
  }

  /** How `s` should be named after `n` requests, when it was `first` before them: by its latest decoding. */
  function LatestDecoding(requests: seq<Request>, n: nat, s: Surface, first: DpbEntry): (r: DpbEntry)
    requires n <= |requests|
  {
    if n == 0 then first else Renamed(requests[n - 1], s, LatestDecoding(requests, n - 1, s, first))
  }

  /**
   * The list sent with a request names `s` by `entry` wherever the picture refers to it, and nothing where the picture
   * refers to nothing or to itself.
   */
  predicate Names(q: Request, dpb: seq<DpbEntry>, s: Surface, entry: DpbEntry) {
    q.Rendering? && |dpb| > 0 ==>
      |dpb| == |q.pic.refs| && forall i :: 0 <= i < |dpb| ==>
        && (q.pic.refs[i] == s && q.surf != s ==> dpb[i] == entry)
        && (q.pic.refs[i] == null || q.pic.refs[i] == q.surf ==> dpb[i] == Unused)
  }

  /** The lists sent so far are complete, and name `s` by its latest decoding. */
  predicate AllName(requests: seq<Request>, sent: seq<seq<DpbEntry>>, s: Surface, first: DpbEntry) {
    |sent| <= |requests| && forall j :: 0 <= j < |sent| ==>
      && (requests[j].Rendering? && Supported(requests[j].pic, requests[j].sliceType) ==> |sent[j]| == NUM_REFS)
      && Names(requests[j], sent[j], s, LatestDecoding(requests, j, s, first))
  }

  /** The decoder and its surfaces between requests that keep `s` in use. */
  ghost predicate Ready(dec: Decoder, s: Surface, all: set<Surface>)
    reads dec, dec.timestamps, dec.surfaces, s, all
  {
    dec.Valid() && dec.Bound(s) && s.cached && MIN_BUFFERS <= dec.timestamps.Length
    && forall r | r in all :: r.bufIdx < dec.timestamps.Length
  }

  lemma AllNameMore(requests: seq<Request>, sent: seq<seq<DpbEntry>>, dpb: seq<DpbEntry>, s: Surface, first: DpbEntry)
    requires AllName(requests, sent, s, first) && |sent| < |requests|
    requires var q := requests[|sent|];
             && (q.Rendering? && Supported(q.pic, q.sliceType) ==> |dpb| == NUM_REFS)
             && Names(q, dpb, s, LatestDecoding(requests, |sent|, s, first))
    ensures AllName(requests, sent + [dpb], s, first)
  {
  }

  /** Carries out one request that keeps `s` in use. */
  method Serve(dec: Decoder, q: Request, s: Surface, ghost all: set<Surface>) returns (dpb: seq<DpbEntry>)
    requires Ready(dec, s, all) && Uses(q, s) && Within(q, all) && (q.Rendering? ==> dec.clock < q.now)
    modifies dec`clock, dec.timestamps, dec.surfaces, all
    ensures Ready(dec, s, all)
    ensures dec.clock == if q.Rendering? then q.now else old(dec.clock)
    ensures Names(q, dpb, s, old(Active(s.poc, s.timestamp)))
    ensures Active(s.poc, s.timestamp) == Renamed(q, s, old(Active(s.poc, s.timestamp)))
    ensures q.Rendering? && Supported(q.pic, q.sliceType) ==> |dpb| == NUM_REFS
  {
    match q
    case Rendering(surf, pic, sliceType, now, kernel) =>
      var status, slot;
      status, slot, dpb := dec.Render(surf, pic, sliceType, now, kernel, if surf == s then {} else {s});
    case Destruction(surf) =>
      surf.Destroy();
      dpb := [];
  }

  /** Over a whole run, every list that names `s` names the slot of its latest decoding. */
  method Run(dec: Decoder, requests: seq<Request>, s: Surface, ghost all: set<Surface>)
    returns (sent: seq<seq<DpbEntry>>)
    requires Ready(dec, s, all) && Scheduled(requests)
    requires forall i :: 0 <= i < |requests| ==>
               Uses(requests[i], s) && Within(requests[i], all)
                 && (requests[i].Rendering? ==> dec.clock < requests[i].now)
    modifies dec`clock, dec.timestamps, dec.surfaces, all
    ensures Ready(dec, s, all) && |sent| == |requests|
    ensures Active(s.poc, s.timestamp) == LatestDecoding(requests, |requests|, s, old(Active(s.poc, s.timestamp)))
    ensures AllName(requests, sent, s, old(Active(s.poc, s.timestamp)))
  {
    sent := [];
    ghost var first := Active(s.poc, s.timestamp);
    for n := 0 to |requests|
      invariant Ready(dec, s, all) && |sent| == n
      invariant forall j :: n <= j < |requests| && requests[j].Rendering? ==> dec.clock < requests[j].now
      invariant Active(s.poc, s.timestamp) == LatestDecoding(requests, n, s, first)
      invariant AllName(requests, sent, s, first)
    {
      var q := requests[n];
      var dpb := Serve(dec, q, s, all);
      AllNameMore(requests, sent, dpb, s, first);
      sent := sent + [dpb];
    }
  }
}
