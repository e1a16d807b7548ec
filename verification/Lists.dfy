/** Circular doubly linked lists, threaded through the items themselves. */
module Lists {
  class Link {
    var prev: Link
    var next: Link

    constructor ()
      ensures Alone(this)
    {
      prev, next := this, this;
    }
  }

  /** The link is on no list, or the head of an empty one. */
  ghost predicate Alone(l: Link)
    reads l
  {
    l.next == l && l.prev == l
  }

  ghost predicate Distinct(s: seq<Link>) {
    forall i, j :: 0 <= i < j < |s| ==> s[i] != s[j]
  }

  /** The link at a place of the circle: item `i`, or the head in front of the first and behind the last item. */
  function At(head: Link, items: seq<Link>, i: int): (l: Link) {
    if 0 <= i < |items| then items[i] else head
  }

  ghost predicate Linked(head: Link, items: seq<Link>, i: nat)
    requires i < |items|
    reads items
  {
    items[i].next == At(head, items, i + 1) && items[i].prev == At(head, items, i - 1)
  }

  /** The list with this head holds the items, in order. */
  ghost predicate IsList(head: Link, items: seq<Link>)
    reads head, items
  {
    && head !in items && Distinct(items)
    && head.next == At(head, items, 0) && head.prev == At(head, items, |items| - 1)
    && forall i :: 0 <= i < |items| ==> Linked(head, items, i)
  }

  method Add(item: Link, head: Link, ghost items: seq<Link>)
    requires IsList(head, items) && item != head && item !in items
    modifies item, head, items
    ensures IsList(head, [item] + items)
  {
    item.prev := head;
    item.next := head.next;
    head.next.prev := item;
    head.next := item;
    ghost var now := [item] + items;
    forall i | 0 <= i < |now| ensures Linked(head, now, i) {
      if i > 0 {
        assert old(Linked(head, items, i - 1)) && now[i] == items[i - 1];
      }
    }
  }

  method AddTail(item: Link, head: Link, ghost items: seq<Link>)
    requires IsList(head, items) && item != head && item !in items
    modifies item, head, items
    ensures IsList(head, items + [item])
  {
    item.next := head;
    item.prev := head.prev;
    head.prev.next := item;
    head.prev := item;
    ghost var now := items + [item];
    forall i | 0 <= i < |now| ensures Linked(head, now, i) {
      if i < |items| {
        assert old(Linked(head, items, i)) && now[i] == items[i];
      }
    }
  }

  /** The items without the one at place `k`, and the places of the circle around them. */
  lemma CutOut(head: Link, items: seq<Link>, k: nat, now: seq<Link>)
    requires Distinct(items) && head !in items && k < |items| && now == items[..k] + items[k + 1..]
    ensures |now| == |items| - 1 && Distinct(now) && head !in now
    ensures forall i {:trigger now[i]} :: 0 <= i < |now| ==>
              now[i] == items[if i < k then i else i + 1] && now[i] != items[k]
    ensures forall i {:trigger At(head, now, i)} :: At(head, now, i) == At(head, items, if i < k then i else i + 1)
  {
  }

  /** Takes an item off its list; its own pointers stay as they are. */
  method Del(item: Link, ghost head: Link, ghost items: seq<Link>, ghost k: nat)
    requires IsList(head, items) && k < |items| && item == items[k]
    modifies head, items
    ensures IsList(head, items[..k] + items[k + 1..])
    ensures item.next == old(item.next) && item.prev == old(item.prev)
  {
    ghost var now := items[..k] + items[k + 1..];
    CutOut(head, items, k, now);
    assert Linked(head, items, k);
    item.prev.next := item.next;
    item.next.prev := item.prev;
    forall i | 0 <= i < |now| ensures Linked(head, now, i) {
      ghost var j := if i < k then i else i + 1;
      assert old(Linked(head, items, j)) && now[i] == items[j];
    }
    assert head.next == At(head, now, 0) && head.prev == At(head, now, |now| - 1);
  }

  /** Takes an item off its list and leaves it alone, so that it can be told to be on no list. */
  method DelInit(item: Link, ghost head: Link, ghost items: seq<Link>, ghost k: nat)
    requires IsList(head, items) && k < |items| && item == items[k]
    modifies head, items
    ensures IsList(head, items[..k] + items[k + 1..]) && Alone(item)
  {
    ghost var now := items[..k] + items[k + 1..];
    CutOut(head, items, k, now);
    Del(item, head, items, k);
    item.next := item;
    item.prev := item;
    forall i | 0 <= i < |now| ensures Linked(head, now, i) {
      assert item != now[i];
    }
  }

  /** The test for an empty list. */
  method Empty(head: Link, ghost items: seq<Link>) returns (empty: bool)
    requires IsList(head, items)
    ensures empty == (items == [])
  {
    empty := head.next == head;
  }

  /** The test for being on no list: no item of a list passes it. */
  lemma ItemsAreNotAlone(head: Link, items: seq<Link>)
    requires IsList(head, items)
    ensures forall i :: 0 <= i < |items| ==> items[i].next != items[i]
  {
    forall i | 0 <= i < |items| ensures items[i].next != items[i] {
      assert Linked(head, items, i);
    }
  }

  /** The items that are not to be dropped. */
  function Kept(items: seq<Link>, drop: set<Link>): (r: seq<Link>) {
    if items == [] then []
    else
      var n := |items| - 1;
      Kept(items[..n], drop) + if items[n] in drop then [] else [items[n]]
  }

  /** Exactly those are kept. */
  lemma {:induction false} KeptIs(items: seq<Link>, drop: set<Link>)
    ensures forall l :: l in Kept(items, drop) <==> l in items && l !in drop
  {
    if items == [] {
    } else {
      var n := |items| - 1;
      KeptIs(items[..n], drop);
      assert items == items[..n] + [items[n]];
    }
  }

  /** What is kept of the later items comes behind what is kept of the earlier ones. */
  lemma {:induction false} KeptInOrder(a: seq<Link>, b: seq<Link>, drop: set<Link>)
    ensures Kept(a + b, drop) == Kept(a, drop) + Kept(b, drop)
  {
    if b == [] {
      assert a + b == a && Kept(a, drop) + [] == Kept(a, drop);
    } else {
      var n := |b| - 1;
      KeptInOrder(a, b[..n], drop);
      assert (a + b)[..|a + b| - 1] == a + b[..n];
    }
  }

  lemma SweepStep(items: seq<Link>, i: nat, drop: set<Link>, kept: seq<Link>, now: seq<Link>)
    requires i < |items| && kept == Kept(items[..i], drop) && now == kept + items[i..]
    ensures now == kept + [items[i]] + items[i + 1..] && now[..|kept|] + now[|kept| + 1..] == kept + items[i + 1..]
    ensures forall j :: 0 <= j < |now| ==> now[j] in items
    ensures Kept(items[..i + 1], drop) == if items[i] in drop then kept else kept + [items[i]]
  {
    KeptIs(items[..i], drop);
    assert items[..i + 1][..i] == items[..i];
    assert kept + [] == kept;
    forall j | 0 <= j < |now| ensures now[j] in items {
      if j < |kept| {
        assert kept[j] in kept && kept[j] in items[..i];
      }
    }
  }

  /** One turn of a walk over the list that may delete the item it is at. */
  method Visit(item: Link, drop: set<Link>, ghost head: Link, ghost items: seq<Link>, ghost i: nat,
               ghost kept: seq<Link>)
    returns (temp: Link)
    requires i < |items| && item == items[i] && kept == Kept(items[..i], drop) && IsList(head, kept + items[i..])
    modifies head, items
    ensures IsList(head, Kept(items[..i + 1], drop) + items[i + 1..]) && temp == At(head, items, i + 1)
  {
    ghost var now, k := kept + items[i..], |kept|;
    SweepStep(items, i, drop, kept, now);
    assert Linked(head, now, k) && At(head, now, k + 1) == At(head, items, i + 1);
    temp := item.next;
    if item in drop {
      Del(item, head, now, k);
    }
  }

  /** The safe walk: the next item is noted before the current one may go. */
  method Sweep(head: Link, drop: set<Link>, ghost items: seq<Link>)
    requires IsList(head, items)
    modifies head, items
    ensures IsList(head, Kept(items, drop))
  {
    var item := head.next;
    ghost var i := 0;
    assert Kept(items[..0], drop) + items[0..] == items;
    while item != head
      invariant i <= |items| && item == At(head, items, i) && head !in items
      invariant IsList(head, Kept(items[..i], drop) + items[i..])
      decreases |items| - i
    {
      item := Visit(item, drop, head, items, i, Kept(items[..i], drop));
      i := i + 1;
    }
    assert i == |items| && items[..i] == items && Kept(items, drop) + items[i..] == Kept(items, drop);
  }
}
