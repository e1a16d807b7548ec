/** Filling the decoder's frame table with the references of a picture: linked insertion around a POC. */
module RefSort {
  import opened RefOrder

  datatype Frame = Frame(id: int, frameNum: int)

  class Surface {
    var poc: int
    var frame: Frame

    constructor (p: int, f: Frame)
      ensures poc == p && frame == f
    {
      poc, frame := p, f;
    }
  }

  /** One slot of the reference list: no surface, or a surface and its frame index. */
  datatype Reference = Absent | Present(surface: Surface, frameIdx: int)

  class Node {
    var next: Node?
    const ref: Surface

    constructor (s: Surface)
      ensures next == null && ref == s
    {
      next, ref := null, s;
    }
  }

  ghost function Surfaces(refs: seq<Reference>): set<Surface> {
    set r | r in refs && r.Present? :: r.surface
  }

  /** `pocs` holds the POCs of the references. */
  ghost predicate PocsAre(refs: seq<Reference>, pocs: seq<int>)
    reads Surfaces(refs)`poc
  {
    |pocs| == |refs| && forall i :: 0 <= i < |refs| && refs[i].Present? ==> refs[i].surface.poc == pocs[i]
  }

  /** The references among the first `n` slots, in slot order. */
  ghost function EntriesOf(refs: seq<Reference>, pocs: seq<int>, n: nat): (s: seq<Entry>)
    requires n <= |refs| == |pocs|
    ensures forall k :: 0 <= k < |s| ==> s[k].slot < n && refs[s[k].slot].Present? && s[k].poc == pocs[s[k].slot]
  {
    if n == 0 then []
    else EntriesOf(refs, pocs, n - 1) + if refs[n - 1].Present? then [Entry(n - 1, pocs[n - 1])] else []
  }

  lemma {:induction false} EntriesAscend(refs: seq<Reference>, pocs: seq<int>, n: nat)
    requires n <= |refs| == |pocs|
    ensures SlotsAscend(EntriesOf(refs, pocs, n))
  {
    if n == 0 {
    } else {
      EntriesAscend(refs, pocs, n - 1);
    }
  }

  ghost predicate IsList(head: Node?, nodes: seq<Node>)
    reads nodes
  {
    && head == (if nodes == [] then null else nodes[0])
    && (forall i, j :: 0 <= i < j < |nodes| ==> nodes[i] != nodes[j])
    && forall i {:trigger Behind(nodes, i)} :: 0 <= i < |nodes| ==> nodes[i].next == Behind(nodes, i)
  }

  function Behind(nodes: seq<Node>, i: nat): Node? {
    if i + 1 < |nodes| then nodes[i + 1] else null
  }

  /** The nodes hold the surfaces of the entries, in order. */
  ghost predicate Holds(nodes: seq<Node>, order: seq<Entry>, refs: seq<Reference>)
    reads set n | n in nodes :: n.ref`poc
  {
    |nodes| == |order| &&
    forall k :: 0 <= k < |order| ==>
      order[k].slot < |refs| && refs[order[k].slot].Present? && nodes[k].ref == refs[order[k].slot].surface
      && order[k].poc == nodes[k].ref.poc
  }

  /** The relinking of a node in front of `itr`, whose predecessor is `prev`. */
  method LinkBefore(listHead: Node, prev: Node?, itr: Node, node: Node, ghost nodes: seq<Node>, ghost k: nat)
    returns (head: Node)
    requires IsList(listHead, nodes) && node !in nodes && k < |nodes| && itr == nodes[k]
    requires prev == if k == 0 then null else nodes[k - 1]
    modifies nodes, node
    ensures IsList(head, nodes[..k] + [node] + nodes[k..])
  {
    head := listHead;
    if prev != null {
      prev.next := node;
    } else {
      head := node;
    }
    node.next := itr;
    ghost var after := nodes[..k] + [node] + nodes[k..];
    assert |after| == |nodes| + 1;
    assert forall i :: 0 <= i < |after| ==>
             after[i] == if i < k then nodes[i] else if i == k then node else nodes[i - 1];
    forall i, j | 0 <= i < j < |after| ensures after[i] != after[j] {
      assert node == after[k];
    }
    forall i | 0 <= i < |after| ensures after[i].next == Behind(after, i) {
      if i > k {
        assert old(nodes[i - 1].next) == Behind(nodes, i - 1);
        assert nodes[i - 1] != prev;
      } else if i + 1 < k {
        assert old(nodes[i].next) == Behind(nodes, i);
        assert nodes[i] != prev;
      }
    }
  }

  method LinkLast(listHead: Node, itr: Node, node: Node, ghost nodes: seq<Node>)
    requires IsList(listHead, nodes) && node !in nodes && node.next == null
    requires nodes != [] && itr == nodes[|nodes| - 1]
    modifies nodes
    ensures IsList(listHead, nodes + [node])
  {
    itr.next := node;
    ghost var after := nodes + [node];
    forall i | 0 <= i < |after| ensures after[i].next == Behind(after, i) {
      if i + 1 < |nodes| {
        assert old(nodes[i].next) == Behind(nodes, i);
      }
    }
  }

  /** Puts a node in front of the first one its POC goes before, or at the end. */
  method InsertNode(listHead: Node, node: Node, delim: int, ghost nodes: seq<Node>, ghost order: seq<Entry>)
    returns (head: Node, ghost k: nat)
    requires IsList(listHead, nodes) && node !in nodes && node.next == null && |order| == |nodes|
    requires forall i :: 0 <= i < |nodes| ==> nodes[i].ref.poc == order[i].poc
    modifies nodes, node
    ensures k == Position(order, node.ref.poc, delim, 0) <= |nodes|
    ensures IsList(head, nodes[..k] + [node] + nodes[k..])
  {
    head := listHead;
    k := 0;
    var itr: Node, prev: Node? := listHead, null;
    while true
      invariant k < |nodes| && itr == nodes[k] && head == listHead
      invariant prev == if k == 0 then null else nodes[k - 1]
      invariant forall i :: 0 <= i < k ==> !GoesBefore(node.ref.poc, order[i].poc, delim)
      invariant IsList(listHead, nodes) && node.next == null
      decreases |nodes| - k
    {
      assert itr.next == Behind(nodes, k);
      var goesBefore;
      if node.ref.poc < delim {
        goesBefore := node.ref.poc > itr.ref.poc || itr.ref.poc > delim;
      } else {
        goesBefore := node.ref.poc < itr.ref.poc;
      }
      if goesBefore {
        PositionIs(order, node.ref.poc, delim, k);
        head := LinkBefore(listHead, prev, itr, node, nodes, k);
        return;
      }
      if itr.next == null {
        assert k + 1 == |nodes|;
        k := k + 1;
        PositionIs(order, node.ref.poc, delim, k);
        assert nodes[..k] + [node] + nodes[k..] == nodes + [node];
        LinkLast(listHead, itr, node, nodes);
        return;
      }
      prev := itr;
      itr := itr.next;
      k := k + 1;
    }
  }

  function WrappedFrameNum(frameIdx: int, maxFrameNum: int): int {
    (frameIdx - maxFrameNum) % 0x80_0000
  }

  /** A node goes where the order wants it, in a list that may be empty. */
  method LinkIn(listHead: Node?, node: Node, delim: int, ghost nodes: seq<Node>, ghost order: seq<Entry>)
    returns (head: Node, ghost k: nat)
    requires IsList(listHead, nodes) && node !in nodes && node.next == null && |order| == |nodes|
    requires forall i :: 0 <= i < |nodes| ==> nodes[i].ref.poc == order[i].poc
    modifies nodes, node
    ensures k == Position(order, node.ref.poc, delim, 0) <= |nodes|
    ensures IsList(head, nodes[..k] + [node] + nodes[k..])
  {
    if listHead == null {
      head, k := node, 0;
      assert nodes == [] && order == [];
      assert nodes[..k] + [node] + nodes[k..] == [node];
    } else {
      head, k := InsertNode(listHead, node, delim, nodes, order);
    }
  }

  /** Links a node for the surface of one reference into the list. */
  method AddReference(listHead: Node?, surf: Surface, slot: nat, delim: int, ghost refs: seq<Reference>,
                      ghost nodes: seq<Node>, ghost order: seq<Entry>, ghost e: Entry)
    returns (head: Node, ghost nodes': seq<Node>)
    requires IsList(listHead, nodes) && Holds(nodes, order, refs)
    requires slot < |refs| && refs[slot].Present? && refs[slot].surface == surf && e == Entry(slot, surf.poc)
    modifies nodes
    ensures IsList(head, nodes') && fresh(set n | n in nodes' && n !in nodes)
    ensures Holds(nodes', Insert(order, e, delim), refs)
  {
    var node := new Node(surf);
    ghost var k;
    head, k := LinkIn(listHead, node, delim, nodes, order);
    nodes' := nodes[..k] + [node] + nodes[k..];
    assert forall n :: n in nodes' ==> n in nodes || n == node;
    HoldsInserted(nodes, node, order, refs, e, k);
  }

  lemma HoldsInserted(nodes: seq<Node>, node: Node, order: seq<Entry>, refs: seq<Reference>, e: Entry, k: nat)
    requires Holds(nodes, order, refs) && k <= |nodes|
    requires e.slot < |refs| && refs[e.slot].Present? && refs[e.slot].surface == node.ref && e.poc == node.ref.poc
    ensures Holds(nodes[..k] + [node] + nodes[k..], InsertAt(order, e, k), refs)
  {
    InsertAtElements(order, e, k);
    var nodes' := nodes[..k] + [node] + nodes[k..];
    assert forall i :: 0 <= i < |nodes'| ==>
             nodes'[i] == if i < k then nodes[i] else if i == k then node else nodes[i - 1];
  }

  /** The table holds, from its second entry on, the frames of the ordered surfaces. */
  ghost predicate InTable(dpbFrames: array<Frame>, order: seq<Entry>, refs: seq<Reference>)
    reads dpbFrames, Surfaces(refs)`frame
  {
    |order| < dpbFrames.Length &&
    forall k :: 0 <= k < |order| ==>
      (order[k].slot < |refs| && refs[order[k].slot].Present?
       && dpbFrames[1 + k] == refs[order[k].slot].surface.frame)
  }

  /** The frames of the first `i` nodes are copied behind the first entry; the rest is as it was. */
  ghost predicate Copied(dpbFrames: array<Frame>, nodes: seq<Node>, i: nat, was: seq<Frame>)
    reads dpbFrames, set n | n in nodes :: n.ref`frame
  {
    && |was| == dpbFrames.Length && i <= |nodes| < dpbFrames.Length
    && forall k :: 0 <= k < dpbFrames.Length ==>
         dpbFrames[k] == if 1 <= k <= i then nodes[k - 1].ref.frame else was[k]
  }

  /** Copies the frames of the listed surfaces behind the first table entry, and counts the earlier ones. */
  method CopyFrames(dpbFrames: array<Frame>, head: Node?, earlierBefore: nat, delim: int,
                    ghost nodes: seq<Node>, ghost order: seq<Entry>, ghost refs: seq<Reference>, ghost was: seq<Frame>)
    returns (earlier: nat)
    requires IsList(head, nodes) && Holds(nodes, order, refs) && |nodes| < dpbFrames.Length && was == dpbFrames[..]
    modifies dpbFrames
    ensures earlier == earlierBefore + Earlier(order, delim)
    ensures InTable(dpbFrames, order, refs) && Copied(dpbFrames, nodes, |nodes|, was)
  {
    earlier := earlierBefore;
    var itr, i := head, 0;
    while itr != null
      invariant i <= |nodes| && itr == (if i < |nodes| then nodes[i] else null)
      invariant Copied(dpbFrames, nodes, i, was)
      invariant earlier == earlierBefore + Earlier(order[..i], delim)
      decreases |nodes| - i
    {
      dpbFrames[1 + i] := itr.ref.frame;
      EarlierStep(order, i, delim);
      if itr.ref.poc < delim {
        earlier := earlier + 1;
      }
      assert itr.next == Behind(nodes, i);
      itr, i := itr.next, i + 1;
    }
    assert order[..i] == order;
  }

  /** Frame numbers of the surfaces after the first `n` slots: the last slot of a surface decides. */
  function FrameAfter(refs: seq<Reference>, n: nat, wrap: bool, maxFrameNum: int, s: Surface, f: Frame): (r: Frame)
    requires n <= |refs|
    ensures r == f.(frameNum := r.frameNum)
  {
    if n == 0 || !wrap then f
    else if refs[n - 1].Present? && refs[n - 1].surface == s then
      f.(frameNum := WrappedFrameNum(refs[n - 1].frameIdx, maxFrameNum))
    else FrameAfter(refs, n - 1, wrap, maxFrameNum, s, f)
  }

  /** The surfaces' frames after the first `n` slots, when they were `was` before. */
  ghost predicate FramesAre(refs: seq<Reference>, n: nat, wrap: bool, maxFrameNum: int, was: seq<Frame>)
    requires n <= |refs|
    reads Surfaces(refs)`frame
  {
    |was| == |refs| &&
    forall k :: 0 <= k < |refs| && refs[k].Present? ==>
      refs[k].surface.frame == FrameAfter(refs, n, wrap, maxFrameNum, refs[k].surface, was[k])
  }

  lemma WrappedIs(frameIdx: int, maxFrameNum: int, n: int)
    requires n == WrappedFrameNum(frameIdx, maxFrameNum)
    ensures 0 <= n < 0x80_0000 && (n - (frameIdx - maxFrameNum)) % 0x80_0000 == 0
  {
  }

  lemma {:induction false} LastDecides(refs: seq<Reference>, n: nat, maxFrameNum: int, k: nat, f: Frame)
    requires k < n <= |refs| && refs[k].Present?
    requires forall j :: k < j < n && refs[j].Present? ==> refs[j].surface != refs[k].surface
    ensures FrameAfter(refs, n, true, maxFrameNum, refs[k].surface, f).frameNum
            == WrappedFrameNum(refs[k].frameIdx, maxFrameNum)
  {
    if n == k + 1 {
    } else {
      LastDecides(refs, n - 1, maxFrameNum, k, f);
    }
  }

  /**
   * The frame numbers of the surfaces, when their frames were `was` before. Without a wrap all is as it was; with one,
   * a surface has the index of the last slot that names it less the greatest number, in 23 bits.
   */
  ghost predicate Numbered(refs: seq<Reference>, wrap: bool, maxFrameNum: int, was: seq<Frame>)
    reads Surfaces(refs)`frame
  {
    && |was| == |refs|
    && forall k :: 0 <= k < |refs| && refs[k].Present? ==>
         var f := refs[k].surface.frame;
         && f.id == was[k].id
         && (!wrap ==> f == was[k])
         && (wrap && (forall j :: k < j < |refs| && refs[j].Present? ==> refs[j].surface != refs[k].surface) ==>
               0 <= f.frameNum < 0x80_0000 && (f.frameNum - (refs[k].frameIdx - maxFrameNum)) % 0x80_0000 == 0)
  }

  lemma FramesAreNumbered(refs: seq<Reference>, wrap: bool, maxFrameNum: int, was: seq<Frame>)
    requires FramesAre(refs, |refs|, wrap, maxFrameNum, was)
    ensures Numbered(refs, wrap, maxFrameNum, was)
  {
    forall k | 0 <= k < |refs| && refs[k].Present? && wrap
               && forall j :: k < j < |refs| && refs[j].Present? ==> refs[j].surface != refs[k].surface
      ensures var n := refs[k].surface.frame.frameNum;
              0 <= n < 0x80_0000 && (n - (refs[k].frameIdx - maxFrameNum)) % 0x80_0000 == 0
    {
      LastDecides(refs, |refs|, maxFrameNum, k, was[k]);
      WrappedIs(refs[k].frameIdx, maxFrameNum, refs[k].surface.frame.frameNum);
    }
  }

  method SetFrameNum(refs: seq<Reference>, i: nat, frameNumWrap: bool, maxFrameNum: int, ghost was: seq<Frame>)
    requires i < |refs| && refs[i].Present? && FramesAre(refs, i, frameNumWrap, maxFrameNum, was)
    modifies refs[i].surface`frame
    ensures FramesAre(refs, i + 1, frameNumWrap, maxFrameNum, was)
  {
    if frameNumWrap {
      var surf := refs[i].surface;
      surf.frame := surf.frame.(frameNum := WrappedFrameNum(refs[i].frameIdx, maxFrameNum));
    }
  }

  /** The list holds the references of the first `i` slots, sorted in. */
  ghost predicate Sorting(refs: seq<Reference>, pocs: seq<int>, i: nat, delim: int, head: Node?, nodes: seq<Node>,
                          order: seq<Entry>)
    reads nodes, set n | n in nodes :: n.ref`poc
  {
    && i <= |refs| == |pocs|
    && IsList(head, nodes) && Holds(nodes, order, refs) && order == InsertAll(EntriesOf(refs, pocs, i), delim)
  }

  method SortIn(refs: seq<Reference>, ghost pocs: seq<int>, i: nat, delim: int, listHead: Node?, ghost nodes: seq<Node>,
                ghost order: seq<Entry>)
    returns (head: Node, ghost nodes': seq<Node>, ghost order': seq<Entry>)
    requires i < |refs| && refs[i].Present? && PocsAre(refs, pocs)
             && Sorting(refs, pocs, i, delim, listHead, nodes, order)
    modifies nodes
    ensures Sorting(refs, pocs, i + 1, delim, head, nodes', order') && |order'| == |order| + 1
    ensures fresh(set n | n in nodes' && n !in nodes)
  {
    ghost var e := Entry(i, pocs[i]);
    head, nodes' := AddReference(listHead, refs[i].surface, i, delim, refs, nodes, order, e);
    order' := Insert(order, e, delim);
    InsertAllSnoc(EntriesOf(refs, pocs, i), e, delim);
    InsertAtElements(order, e, Position(order, e.poc, delim, 0));
  }

  method NumberAndSortIn(refs: seq<Reference>, ghost pocs: seq<int>, i: nat, frameNumWrap: bool, maxFrameNum: int,
                         delim: int, listHead: Node?, ghost nodes: seq<Node>, ghost order: seq<Entry>,
                         ghost was: seq<Frame>)
    returns (head: Node, ghost nodes': seq<Node>, ghost order': seq<Entry>)
    requires i < |refs| && refs[i].Present? && PocsAre(refs, pocs)
             && Sorting(refs, pocs, i, delim, listHead, nodes, order)
    requires FramesAre(refs, i, frameNumWrap, maxFrameNum, was)
    modifies nodes, refs[i].surface`frame
    ensures Sorting(refs, pocs, i + 1, delim, head, nodes', order') && |order'| == |order| + 1
    ensures fresh(set n | n in nodes' && n !in nodes) && FramesAre(refs, i + 1, frameNumWrap, maxFrameNum, was)
  {
    SetFrameNum(refs, i, frameNumWrap, maxFrameNum, was);
    head, nodes', order' := SortIn(refs, pocs, i, delim, listHead, nodes, order);
  }

  lemma SortingStart(refs: seq<Reference>, pocs: seq<int>, delim: int)
    requires |refs| == |pocs|
    ensures Sorting(refs, pocs, 0, delim, null, [], [])
  {
  }

  /** One turn of the first loop: a slot that is not empty is numbered and sorted in. */
  method TakeSlot(refs: seq<Reference>, ghost pocs: seq<int>, i: nat, frameNumWrap: bool, maxFrameNum: int, delim: int,
                  listHead: Node?, num: nat, ghost nodes: seq<Node>, ghost order: seq<Entry>, ghost was: seq<Frame>)
    returns (head: Node?, num': nat, ghost nodes': seq<Node>, ghost order': seq<Entry>)
    requires i < |refs| && PocsAre(refs, pocs) && Sorting(refs, pocs, i, delim, listHead, nodes, order)
             && num == |order| <= i
    requires FramesAre(refs, i, frameNumWrap, maxFrameNum, was)
    modifies nodes, Surfaces(refs)`frame
    ensures Sorting(refs, pocs, i + 1, delim, head, nodes', order') && num' == |order'| <= i + 1 && PocsAre(refs, pocs)
    ensures fresh(set n | n in nodes' && n !in nodes) && FramesAre(refs, i + 1, frameNumWrap, maxFrameNum, was)
  {
    if refs[i].Present? {
      num' := num + 1;
      assert refs[i] in refs && refs[i].surface in Surfaces(refs);
      head, nodes', order' := NumberAndSortIn(refs, pocs, i, frameNumWrap, maxFrameNum, delim, listHead, nodes, order,
                                              was);
    } else {
      head, num', nodes', order' := listHead, num, nodes, order;
      assert EntriesOf(refs, pocs, i) + [] == EntriesOf(refs, pocs, i);
    }
  }

  /** The first loop: every reference is numbered and sorted in. */
  method SortReferences(refs: seq<Reference>, frameNumWrap: bool, maxFrameNum: int, delim: int,
                        ghost pocs: seq<int>, ghost was: seq<Frame>)
    returns (head: Node?, refsNum: nat, ghost nodes: seq<Node>, ghost order: seq<Entry>)
    requires PocsAre(refs, pocs) && FramesAre(refs, 0, frameNumWrap, maxFrameNum, was)
    modifies Surfaces(refs)`frame
    ensures Sorting(refs, pocs, |refs|, delim, head, nodes, order) && refsNum == |order| == |nodes| <= |refs|
    ensures fresh(set n | n in nodes) && FramesAre(refs, |refs|, frameNumWrap, maxFrameNum, was)
    ensures Numbered(refs, frameNumWrap, maxFrameNum, was)
  {
    head, nodes, order, refsNum := null, [], [], 0;
    SortingStart(refs, pocs, delim);
    for i := 0 to |refs|
      invariant Sorting(refs, pocs, i, delim, head, nodes, order) && fresh(set n | n in nodes)
                && refsNum == |order| <= i
      invariant FramesAre(refs, i, frameNumWrap, maxFrameNum, was) && PocsAre(refs, pocs)
    {
      head, refsNum, nodes, order := TakeSlot(refs, pocs, i, frameNumWrap, maxFrameNum, delim, head, refsNum, nodes,
                                              order, was);
    }
    FramesAreNumbered(refs, frameNumWrap, maxFrameNum, was);
  }

  /**
   * The order holds each of the references once, in slot order where POCs are equal; exactly without a stray the
   * earlier ones descend in front of the later ones, which ascend, and then the earlier ones are the first of the
   * order, by their number.
   */
  ghost predicate SortedIn(refs: seq<Entry>, order: seq<Entry>, delim: int) {
    && multiset(order) == multiset(refs) && |order| == |refs| && Stable(order) && NearlyOrdered(order, delim)
    && (NoStray(refs, delim) <==> Ordered(order, delim))
    && (NoStray(refs, delim) ==>
          forall i :: 0 <= i < |order| ==> (i < Earlier(order, delim) <==> order[i].poc < delim))
  }

  /** That is what insertion makes of the references of a picture. */
  lemma OrderIs(refs: seq<Reference>, pocs: seq<int>, delim: int, order: seq<Entry>)
    requires |refs| == |pocs| && order == InsertAll(EntriesOf(refs, pocs, |refs|), delim)
    ensures SortedIn(EntriesOf(refs, pocs, |refs|), order, delim)
  {
    var entries := EntriesOf(refs, pocs, |refs|);
    EntriesAscend(refs, pocs, |refs|);
    SortedRefs(entries, delim);
    AlwaysNearlyOrdered(entries, delim);
    assert |order| == |multiset(order)| == |entries|;
  }

  /**
   * The references of a picture in the frame table. `pocs` and `was` name the POCs and frames the surfaces have before
   * the call, and `order` the references as they stand in the table from its second entry on.
   */
  method GetRefsSorted(dpbFrames: array<Frame>, refs: seq<Reference>, frameNumWrap: bool, maxFrameNum: int,
                       earlierBefore: nat, delim: int, ghost pocs: seq<int>, ghost was: seq<Frame>)
    returns (refsNum: nat, earlier: nat, ghost order: seq<Entry>)
    requires |refs| == 16 && dpbFrames.Length == 17
    requires PocsAre(refs, pocs) && FramesAre(refs, 0, frameNumWrap, maxFrameNum, was)
    modifies Surfaces(refs)`frame, dpbFrames
    ensures InTable(dpbFrames, order, refs) && FramesAre(refs, |refs|, frameNumWrap, maxFrameNum, was)
    ensures Numbered(refs, frameNumWrap, maxFrameNum, was)
    ensures forall k :: 0 <= k < 17 && !(1 <= k <= refsNum) ==> dpbFrames[k] == old(dpbFrames[k])
    ensures SortedIn(EntriesOf(refs, pocs, |refs|), order, delim) && refsNum == |order| <= 16
    ensures earlier == earlierBefore + Earlier(order, delim)
  {
    var head;
    ghost var nodes;
    hide IsList, Holds, InsertAll, SortedIn, Earlier, EntriesOf;
    head, refsNum, nodes, order := SortReferences(refs, frameNumWrap, maxFrameNum, delim, pocs, was);
    earlier := CopyFrames(dpbFrames, head, earlierBefore, delim, nodes, order, refs, dpbFrames[..]);
    OrderIs(refs, pocs, delim, order);
  }

  lemma EarlierStep(order: seq<Entry>, i: nat, delim: int)
    requires i < |order|
    ensures Earlier(order[..i + 1], delim) == Earlier(order[..i], delim) + if order[i].poc < delim then 1 else 0
  {
    assert order[..i + 1][..i] == order[..i];
  }

  lemma InsertAllSnoc(entries: seq<Entry>, e: Entry, delim: int)
    ensures InsertAll(entries + [e], delim) == Insert(InsertAll(entries, delim), e, delim)
  {
    assert (entries + [e])[..|entries|] == entries;
  }
}
