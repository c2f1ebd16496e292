/** utils/list.c: the circular doubly linked intrusive list.  A list seen from any of its
    nodes is a sequence of distinct nodes whose `next` and `prev` fields follow it both ways. */
module Lists {
  import opened Common

  /** A list node.  `addr` is the address of the memory the node lives in. */
  class Node {
    const addr: nat
    var next: Node
    var prev: Node

    constructor (addr: nat)
      ensures this.addr == addr && next == this && prev == this
    {
      this.addr := addr;
      next := this;
      prev := this;
    }
  }

  /** The nodes of `ring`, in this order, form one circular list. */
  ghost predicate Ring(ring: seq<Node>)
    reads ring
  {
    && |ring| > 0
    && Distinct(ring)
    && ring[|ring| - 1].next == ring[0]
    && ring[0].prev == ring[|ring| - 1]
    && (forall i :: 0 <= i < |ring| - 1 ==> ring[i].next == ring[i + 1])
    && (forall i :: 0 < i < |ring| ==> ring[i].prev == ring[i - 1])
  }

  method ListEmpty(node: Node, ghost ring: seq<Node>) returns (empty: bool)
    requires Ring(ring) && node == ring[0]
    ensures empty <==> |ring| == 1
  {
    empty := node.next == node;
    assert |ring| > 1 ==> ring[0].next == ring[1];
  }

  method ListInit(node: Node)
    modifies node
    ensures Ring([node])
  {
    node.next := node;
    node.prev := node;
  }

  method ListInsertAfter(node: Node, fresh_: Node, ghost ring: seq<Node>, ghost i: nat)
    requires Ring(ring) && i < |ring| && node == ring[i] && fresh_ !in ring
    modifies node`next, fresh_, node.next`prev
    ensures Ring(Inserted(ring, i, fresh_))
  {
    ghost var grown := Inserted(ring, i, fresh_);
    assert forall k :: 0 <= k < |grown| ==>
      grown[k] == if k <= i then ring[k] else if k == i + 1 then fresh_ else ring[k - 1];
    var oldNext := node.next;
    node.next := fresh_;
    fresh_.prev := node;
    fresh_.next := oldNext;
    oldNext.prev := fresh_;
    assert oldNext == if i + 1 < |ring| then ring[i + 1] else ring[0];
    assert Distinct(grown);
    forall k | 0 <= k < |grown| - 1
      ensures grown[k].next == grown[k + 1]
    {
      if k < i { assert ring[k].next == ring[k + 1]; }
      if i + 1 < k { assert ring[k - 1].next == ring[k]; }
    }
    forall k | 0 < k < |grown|
      ensures grown[k].prev == grown[k - 1]
    {
      if k <= i { assert ring[k].prev == ring[k - 1]; }
    }
  }

  method ListExtract(node: Node, ghost ring: seq<Node>, ghost i: nat)
    requires Ring(ring) && |ring| > 1 && i < |ring| && node == ring[i]
    modifies node.prev`next, node.next`prev
    ensures Ring(Removed(ring, i))
    ensures node.next == old(node.next) && node.prev == old(node.prev)
  {
    ghost var shrunk := Removed(ring, i);
    assert forall k :: 0 <= k < |shrunk| ==> shrunk[k] == if k < i then ring[k] else ring[k + 1];
    var prevElem := node.prev;
    var nextElem := node.next;
    prevElem.next := nextElem;
    nextElem.prev := prevElem;
    assert prevElem == ring[if i > 0 then i - 1 else |ring| - 1];
    assert nextElem == ring[if i + 1 < |ring| then i + 1 else 0];
    assert Distinct(shrunk);
    forall k | 0 <= k < |shrunk| - 1
      ensures shrunk[k].next == shrunk[k + 1]
    {
      if k < i { assert ring[k + 1].prev == ring[k]; } else { assert ring[k + 1].next == ring[k + 2]; }
    }
    forall k | 0 < k < |shrunk|
      ensures shrunk[k].prev == shrunk[k - 1]
    {
      if k < i { assert ring[k].prev == ring[k - 1]; } else { assert ring[k].next == ring[k + 1]; }
    }
  }

  // ---- Several lists over one memory

  /** Lists with no node in common, all in the memory `mem`. */
  ghost predicate Table(rings: seq<seq<Node>>, mem: set<Node>)
    reads mem
  {
    && InMemory(rings, mem) && Apart(rings)
    && (forall o :: 0 <= o < |rings| ==> Ring(rings[o]))
  }

  ghost predicate Apart(rings: seq<seq<Node>>) {
    forall o, k, o', k' :: 0 <= o < o' < |rings| && 0 <= k < |rings[o]| && 0 <= k' < |rings[o']| ==>
      rings[o][k] != rings[o'][k']
  }

  ghost predicate InMemory(rings: seq<seq<Node>>, mem: set<Node>) {
    forall o, k :: 0 <= o < |rings| && 0 <= k < |rings[o]| ==> rings[o][k] in mem
  }

  /** A node of no list put into one of them leaves the lists apart. */
  lemma InsertedApart(rings: seq<seq<Node>>, o: nat, i: nat, x: Node, mem: set<Node>)
    requires Apart(rings) && InMemory(rings, mem) && o < |rings| && i < |rings[o]| && x in mem
    requires forall o', k :: 0 <= o' < |rings| && 0 <= k < |rings[o']| ==> rings[o'][k] != x
    ensures Apart(rings[o := Inserted(rings[o], i, x)]) && InMemory(rings[o := Inserted(rings[o], i, x)], mem)
  {
    var rings' := rings[o := Inserted(rings[o], i, x)];
    forall k | 0 <= k < |rings'[o]|
      ensures rings'[o][k] == x || rings'[o][k] == rings[o][if k <= i then k else k - 1]
    {
    }
  }

  lemma RemovedApart(rings: seq<seq<Node>>, o: nat, i: nat, mem: set<Node>)
    requires Apart(rings) && InMemory(rings, mem) && o < |rings| && i < |rings[o]|
    ensures Apart(rings[o := Removed(rings[o], i)]) && InMemory(rings[o := Removed(rings[o], i)], mem)
  {
    var rings' := rings[o := Removed(rings[o], i)];
    forall k | 0 <= k < |rings'[o]| ensures rings'[o][k] == rings[o][if k < i then k else k + 1] {
    }
  }

  /** list_init and list_insert_after on one list leave the others alone. */
  method InsertInTable(node: Node, fresh_: Node, ghost rings: seq<seq<Node>>, ghost o: nat, ghost i: nat,
                       ghost mem: set<Node>)
    requires Table(rings, mem) && o < |rings| && i < |rings[o]| && node == rings[o][i] && fresh_ in mem
    requires forall o', k :: 0 <= o' < |rings| && 0 <= k < |rings[o']| ==> rings[o'][k] != fresh_
    modifies mem
    ensures Table(rings[o := Inserted(rings[o], i, fresh_)], mem)
  {
    ghost var ring := rings[o];
    assert node.next == ring[if i + 1 < |ring| then i + 1 else 0];
    ListInit(fresh_);
    ListInsertAfter(node, fresh_, ring, i);
    InsertedApart(rings, o, i, fresh_, mem);
    ghost var rings' := rings[o := Inserted(ring, i, fresh_)];
    forall o' | 0 <= o' < |rings'| ensures Ring(rings'[o']) {
      if o' != o { assert forall k :: 0 <= k < |rings[o']| ==> rings[o'][k] !in ring; }
    }
  }

  method ExtractFromTable(node: Node, ghost rings: seq<seq<Node>>, ghost o: nat, ghost i: nat, ghost mem: set<Node>)
    requires Table(rings, mem) && o < |rings| && i < |rings[o]| && node == rings[o][i] && |rings[o]| > 1
    modifies mem
    ensures Table(rings[o := Removed(rings[o], i)], mem)
  {
    ghost var ring := rings[o];
    assert node.next == ring[if i + 1 < |ring| then i + 1 else 0];
    assert node.prev == ring[if i > 0 then i - 1 else |ring| - 1];
    ListExtract(node, ring, i);
    RemovedApart(rings, o, i, mem);
    ghost var rings' := rings[o := Removed(ring, i)];
    forall o' | 0 <= o' < |rings'| ensures Ring(rings'[o']) {
      if o' != o { assert forall k :: 0 <= k < |rings[o']| ==> rings[o'][k] !in ring; }
    }
  }
}
