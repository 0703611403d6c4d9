/**
 list.c: the circular, intrusive, doubly linked list. A ring is described by the
 sequence of its nodes starting at the list head; every operation matches an
 insertion into or a removal from that sequence.
 */
module Ring {
  import opened Common

  class Node {
    var next: Node?
    var prev: Node?

    /** `list_init_item` */
    constructor ()
      ensures next == null && prev == null
    {
      next, prev := null, null;
    }
  }

  function Succ(i: nat, n: nat): (j: nat)
    requires i < n
    ensures j < n
  {
    if i + 1 == n then 0 else i + 1
  }

  /** The nodes of c, in this order, form a ring: next and prev are inverse. */
  ghost predicate IsRing(c: seq<Node>)
    reads c
  {
    && |c| > 0 && Distinct(c)
    && (forall i, j :: 0 <= i < |c| && 0 <= j < |c| && Succ(i, |c|) == j ==> c[i].next == c[j] && c[j].prev == c[i])
  }

  /** Sequence c with x inserted before position k; k == |c| means at the back. */
  ghost function Inserted(c: seq<Node>, k: nat, x: Node): (r: seq<Node>)
    requires k <= |c|
  {
    c[..k] + [x] + c[k..]
  }

  ghost function Removed(c: seq<Node>, k: nat): (r: seq<Node>)
    requires k < |c|
  {
    c[..k] + c[k + 1..]
  }

  ghost function Neighbours(x: Node): (r: set<Node>)
    reads x
  {
    (if x.next == null then {} else {x.next}) + (if x.prev == null then {} else {x.prev})
  }

  lemma RingAt(c: seq<Node>, i: nat)
    requires IsRing(c) && i < |c|
    ensures c[i].next == c[Succ(i, |c|)] && c[Succ(i, |c|)].prev == c[i]
  {
  }

  lemma RingNeighbours(c: seq<Node>, i: nat)
    requires IsRing(c) && i < |c|
    ensures forall n :: n in Neighbours(c[i]) ==> n in c
  {
    RingAt(c, i);
    RingAt(c, if i == 0 then |c| - 1 else i - 1);
  }

  /** Links that lead from node k - 1 over x to its successor make the longer ring. */
  lemma InsertedIsRing(c: seq<Node>, k: nat, x: Node)
    requires Distinct(c) && x !in c && 1 <= k <= |c|
    requires forall i, j :: 0 <= i < |c| && 0 <= j < |c| && Succ(i, |c|) == j && i != k - 1 ==>
               c[i].next == c[j] && c[j].prev == c[i]
    requires c[k - 1].next == x && x.prev == c[k - 1]
    requires c[Succ(k - 1, |c|)].prev == x && x.next == c[Succ(k - 1, |c|)]
    ensures IsRing(Inserted(c, k, x))
  {
    var r := Inserted(c, k, x);
    InsertedIsDistinct(c, k, x);
    forall i, j | 0 <= i < |r| && 0 <= j < |r| && Succ(i, |r|) == j ensures r[i].next == r[j] && r[j].prev == r[i] {
      InsertedAt(c, k, x, i);
      InsertedAt(c, k, x, j);
    }
  }

  lemma InsertedAt(c: seq<Node>, k: nat, x: Node, i: nat)
    requires k <= |c| && i <= |c|
    ensures Inserted(c, k, x)[i] == if i < k then c[i] else if i == k then x else c[i - 1]
  {
  }

  lemma InsertedIsDistinct(c: seq<Node>, k: nat, x: Node)
    requires Distinct(c) && x !in c && k <= |c|
    ensures Distinct(Inserted(c, k, x))
  {
    var r := Inserted(c, k, x);
    forall i, j | 0 <= i < j < |r| ensures r[i] != r[j] {
      InsertedAt(c, k, x, i);
      InsertedAt(c, k, x, j);
    }
  }

  /** Links that bypass node k make the shorter ring. */
  lemma RemovedIsRing(c: seq<Node>, k: nat)
    requires Distinct(c) && 1 <= k < |c|
    requires forall i, j :: 0 <= i < |c| && 0 <= j < |c| && Succ(i, |c|) == j && i != k && j != k ==>
               c[i].next == c[j] && c[j].prev == c[i]
    requires c[k - 1].next == c[Succ(k, |c|)] && c[Succ(k, |c|)].prev == c[k - 1]
    ensures IsRing(Removed(c, k))
  {
    var r := Removed(c, k);
    forall i, j | 0 <= i < |r| && 0 <= j < |r| && Succ(i, |r|) == j ensures r[i].next == r[j] && r[j].prev == r[i] {
      RemovedAt(c, k, i);
      RemovedAt(c, k, j);
    }
    forall i, j | 0 <= i < j < |r| ensures r[i] != r[j] {
      RemovedAt(c, k, i);
      RemovedAt(c, k, j);
    }
  }

  lemma RemovedAt(c: seq<Node>, k: nat, i: nat)
    requires k < |c| && i < |c| - 1
    ensures Removed(c, k)[i] == c[if i < k then i else i + 1]
  {
  }

  /** `list_init_head` */
  method InitHead(head: Node)
    modifies head
    ensures IsRing([head])
  {
    head.next := head;
    head.prev := head;
  }

  /** `list_enqueue_before`: `item` is node k of the ring, or the head for k == |c|. */
  method EnqueueBefore(item: Node, newitem: Node, ghost c: seq<Node>, ghost k: nat)
    requires IsRing(c) && newitem !in c
    requires 1 <= k <= |c| && item == c[if k == |c| then 0 else k]
    modifies item, Neighbours(item), newitem
    ensures IsRing(Inserted(c, k, newitem))
    ensures newitem.next == item && newitem.prev == old(item.prev)
  {
    RingAt(c, k - 1);
    newitem.prev := item.prev;
    newitem.next := item;
    if item.prev != null {
      item.prev.next := newitem;
    }
    item.prev := newitem;
    forall i, j | 0 <= i < |c| && 0 <= j < |c| && Succ(i, |c|) == j && i != k - 1
      ensures c[i].next == c[j] && c[j].prev == c[i]
    {
      assert old(c[i].next) == c[j] && old(c[j].prev) == c[i];
      assert c[i] != c[k - 1] && c[j] != item;
    }
    InsertedIsRing(c, k, newitem);
  }

  /** `list_enqueue_after`: `item` is node k of the ring. */
  method EnqueueAfter(item: Node, newitem: Node, ghost c: seq<Node>, ghost k: nat)
    requires IsRing(c) && newitem !in c
    requires k < |c| && item == c[k]
    modifies item, Neighbours(item), newitem
    ensures IsRing(Inserted(c, k + 1, newitem))
  {
    RingAt(c, k);
    newitem.prev := item;
    newitem.next := item.next;
    if item.next != null {
      item.next.prev := newitem;
    }
    item.next := newitem;
    forall i, j | 0 <= i < |c| && 0 <= j < |c| && Succ(i, |c|) == j && i != k
      ensures c[i].next == c[j] && c[j].prev == c[i]
    {
      assert old(c[i].next) == c[j] && old(c[j].prev) == c[i];
      assert c[i] != item && c[j] != c[Succ(k, |c|)];
    }
    InsertedIsRing(c, k + 1, newitem);
  }

  /** `list_enqueue_front` */
  method EnqueueFront(head: Node, newitem: Node, ghost items: seq<Node>)
    requires IsRing([head] + items) && newitem != head && newitem !in items
    modifies head, Neighbours(head), newitem
    ensures IsRing([head] + ([newitem] + items))
  {
    ghost var c := [head] + items;
    EnqueueAfter(head, newitem, c, 0);
    assert Inserted(c, 1, newitem) == [head] + ([newitem] + items);
  }

  /** `list_enqueue_back` */
  method EnqueueBack(head: Node, newitem: Node, ghost items: seq<Node>)
    requires IsRing([head] + items) && newitem != head && newitem !in items
    modifies head, Neighbours(head), newitem
    ensures IsRing([head] + (items + [newitem]))
  {
    ghost var c := [head] + items;
    EnqueueBefore(head, newitem, c, |c|);
    assert Inserted(c, |c|, newitem) == [head] + (items + [newitem]);
  }

  /** `list_dequeue`: removes a linked node, and is harmless on an unlinked one. */
  method Dequeue(item: Node, ghost c: seq<Node>, ghost k: nat)
    requires (item.next == null && item.prev == null) || (IsRing(c) && 1 <= k < |c| && item == c[k])
    modifies item, Neighbours(item)
    ensures item.next == null && item.prev == null
    ensures old(item.next) != null ==> IsRing(Removed(c, k))
    ensures old(item.next) == null ==> forall i :: 0 <= i < |c| ==> unchanged(c[i])
  {
    ghost var linked := !(item.next == null && item.prev == null);
    if linked {
      RingAt(c, k);
      RingAt(c, k - 1);
    }
    if item.next != null {
      item.next.prev := item.prev;
    }
    if item.prev != null {
      item.prev.next := item.next;
    }
    item.prev := null;
    item.next := null;
    if linked {
      forall i, j | 0 <= i < |c| && 0 <= j < |c| && Succ(i, |c|) == j && i != k && j != k
        ensures c[i].next == c[j] && c[j].prev == c[i]
      {
        assert old(c[i].next) == c[j] && old(c[j].prev) == c[i];
        assert c[i] != c[k - 1] && c[i] != item && c[j] != item && c[j] != c[Succ(k, |c|)];
      }
      RemovedIsRing(c, k);
    }
  }

  // ---- sorted insertion --------------------------------------------------------------------

  /** The sign conventions of a comparator over a total preorder. */
  ghost predicate TotalPreorder(cmp: (Node, Node) -> int, nodes: set<Node>) {
    && (forall a, b :: a in nodes && b in nodes ==> (cmp(a, b) > 0 <==> cmp(b, a) < 0))
    && (forall a, b, c :: a in nodes && b in nodes && c in nodes ==>
          cmp(a, b) <= 0 ==> cmp(b, c) <= 0 ==> cmp(a, c) <= 0)
  }

  lemma Flips(cmp: (Node, Node) -> int, nodes: set<Node>, a: Node, b: Node)
    requires TotalPreorder(cmp, nodes) && a in nodes && b in nodes
    ensures cmp(a, b) > 0 <==> cmp(b, a) < 0
  {
  }

  lemma Chains(cmp: (Node, Node) -> int, nodes: set<Node>, a: Node, b: Node, c: Node)
    requires TotalPreorder(cmp, nodes) && a in nodes && b in nodes && c in nodes
    requires cmp(a, b) <= 0 && cmp(b, c) <= 0
    ensures cmp(a, c) <= 0
  {
  }

  /** No item compares greater than one before it. */
  ghost predicate Descending(cmp: (Node, Node) -> int, items: seq<Node>) {
    forall i, j :: 0 <= i < j < |items| ==> cmp(items[j], items[i]) <= 0
  }

  /** The first position whose item the new one exceeds, or the length. */
  ghost function Slot(cmp: (Node, Node) -> int, items: seq<Node>, x: Node): (k: nat)
    ensures k <= |items|
    ensures forall i :: 0 <= i < k ==> cmp(x, items[i]) <= 0
    ensures k < |items| ==> cmp(x, items[k]) > 0
  {
    if items == [] then 0 else if cmp(x, items[0]) > 0 then 0 else 1 + Slot(cmp, items[1..], x)
  }

  /** All items from the slot on are strictly smaller than the new one, so it is
      placed behind every item that compares equal. */
  lemma SlotIsBehindEquals(cmp: (Node, Node) -> int, items: seq<Node>, x: Node, nodes: set<Node>, i: nat)
    requires TotalPreorder(cmp, nodes) && x in nodes && forall n :: n in items ==> n in nodes
    requires Descending(cmp, items) && Slot(cmp, items, x) <= i < |items|
    ensures cmp(items[i], x) < 0
  {
    hide TotalPreorder;
    var k := Slot(cmp, items, x);
    var a, b := items[i], items[k];
    assert a in nodes && b in nodes;
    Flips(cmp, nodes, x, a);
    Flips(cmp, nodes, b, b);
    assert cmp(a, b) <= 0;
    if cmp(x, a) <= 0 {
      Chains(cmp, nodes, x, a, b);
    }
  }

  /** Inserting at the slot keeps the list descending. */
  lemma SlotKeepsOrder(cmp: (Node, Node) -> int, items: seq<Node>, x: Node, nodes: set<Node>)
    requires TotalPreorder(cmp, nodes) && x in nodes && forall n :: n in items ==> n in nodes
    requires Descending(cmp, items)
    ensures Descending(cmp, Inserted(items, Slot(cmp, items, x), x))
  {
    var k := Slot(cmp, items, x);
    var r := Inserted(items, k, x);
    forall i, j | 0 <= i < j < |r| ensures cmp(r[j], r[i]) <= 0 {
      InsertedAt(items, k, x, i);
      InsertedAt(items, k, x, j);
      if i == k {
        SlotIsBehindEquals(cmp, items, x, nodes, j - 1);
      }
    }
  }

  /** The walk of `list_enqueue_sorted` to the node to insert before. */
  method FindSlot(head: Node, newitem: Node, cmp: (Node, Node) -> int, ghost items: seq<Node>)
    returns (item: Node, ghost k: nat)
    requires IsRing([head] + items)
    ensures k == Slot(cmp, items, newitem) + 1
    ensures var slot := Slot(cmp, items, newitem);
            item == if slot == |items| then head else items[slot]
  {
    hide IsRing;
    ghost var c := [head] + items;
    RingAt(c, 0);
    item := head.next;
    k := 1;
    while item != head
      invariant 1 <= k <= |c| && item == c[if k == |c| then 0 else k]
      invariant k - 1 <= Slot(cmp, items, newitem)
      decreases |c| - k
    {
      assert item == items[k - 1];
      if cmp(newitem, item) > 0 {
        return;
      }
      RingAt(c, k);
      item := item.next;
      k := k + 1;
    }
    assert k == |c| by {
      HeadOnce(c, if k == |c| then 0 else k);
    }
  }

  lemma HeadOnce(c: seq<Node>, i: nat)
    requires IsRing(c) && i < |c| && c[i] == c[0]
    ensures i == 0
  {
  }

  /** A descending list of nodes on which the comparator is a total preorder. */
  ghost predicate Ordered(cmp: (Node, Node) -> int, items: seq<Node>, nodes: set<Node>) {
    TotalPreorder(cmp, nodes) && (forall n :: n in items ==> n in nodes) && Descending(cmp, items)
  }

  /** `list_enqueue_sorted`: a descending list stays descending, equal items staying
      in arrival order. */
  method EnqueueSorted(head: Node, newitem: Node, cmp: (Node, Node) -> int, ghost items: seq<Node>,
                       ghost nodes: set<Node>)
    requires IsRing([head] + items) && newitem != head && newitem !in items
    modifies head, items, newitem
    ensures IsRing([head] + Inserted(items, Slot(cmp, items, newitem), newitem))
    ensures Ordered(cmp, items, nodes) && newitem in nodes ==>
      Ordered(cmp, Inserted(items, Slot(cmp, items, newitem), newitem), nodes)
  {
    hide IsRing;
    ghost var c := [head] + items;
    var item, k := FindSlot(head, newitem, cmp, items);
    RingNeighbours(c, if k == |c| then 0 else k);
    EnqueueBefore(item, newitem, c, k);
    assert Inserted(c, k, newitem) == [head] + Inserted(items, k - 1, newitem);
    if Ordered(cmp, items, nodes) && newitem in nodes {
      SlotKeepsOrder(cmp, items, newitem, nodes);
    }
  }
}
