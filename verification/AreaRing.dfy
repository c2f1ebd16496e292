/** The list of areas as mm/vmem.c keeps it: a head and one node for each area, the node being the
    first field of the area.  Every loop over the list computes what module Areas says about the
    sequence of its areas. */
module AreaRing {
  import opened Common
  import opened Lists
  import opened Areas
  import opened Paging
  import Slab

  ghost predicate Filled(ring: seq<Node>, fields: map<Node, Area>) {
    ring != [] && forall k :: 0 < k < |ring| ==> ring[k] in fields
  }

  /** The areas behind the head, in list order. */
  ghost function AreasOn(ring: seq<Node>, fields: map<Node, Area>): (areas: seq<Area>)
    requires Filled(ring, fields)
    ensures |areas| == |ring| - 1 && forall k :: 0 <= k < |areas| ==> areas[k] == fields[ring[k + 1]]
  {
    seq(|ring| - 1, k requires 0 <= k < |ring| - 1 => fields[ring[k + 1]])
  }

  lemma AreasPushed(ring: seq<Node>, fields: map<Node, Area>, node: Node, a: Area)
    requires Filled(ring, fields) && node !in ring
    ensures Filled(Inserted(ring, 0, node), fields[node := a])
    ensures AreasOn(Inserted(ring, 0, node), fields[node := a]) == [a] + AreasOn(ring, fields)
  {
    var ring' := Inserted(ring, 0, node);
    assert forall k :: 0 <= k < |ring'| ==>
      ring'[k] == if k == 0 then ring[0] else if k == 1 then node else ring[k - 1];
  }

  lemma AreasRemoved(ring: seq<Node>, fields: map<Node, Area>, i: nat)
    requires Filled(ring, fields) && i < |ring| - 1
    ensures Filled(Removed(ring, i + 1), fields)
    ensures AreasOn(Removed(ring, i + 1), fields) == Removed(AreasOn(ring, fields), i)
  {
    var ring' := Removed(ring, i + 1);
    assert forall k :: 0 <= k < |ring'| ==> ring'[k] == ring[if k <= i then k else k + 1];
  }

  // ---- The objects of a list

  function Addrs(nodes: seq<Node>): set<nat> {
    set n | n in nodes :: n.addr
  }

  /** The nodes are objects in use, each its own. */
  ghost predicate Objects(ring: seq<Node>, live: set<nat>) {
    && (forall i :: 0 <= i < |ring| ==> ring[i].addr in live)
    && (forall i, j :: 0 <= i < j < |ring| ==> ring[i].addr != ring[j].addr)
  }

  /** What object_alloc and object_free know: objects in use, free objects and lost ones. */
  datatype Stock = Stock(live: set<nat>, chain: seq<nat>, lost: set<nat>)

  ghost function StockOf(alloc: Slab.ObjAlloc): Stock
    reads alloc
  {
    Stock(alloc.live, alloc.chain, alloc.lost)
  }

  /** The nodes from place 1 to place `n` have been freed, one after the other: the last one is the
      free chain, and what was free before is lost with all the others. */
  function Freed(s: Stock, all: seq<Node>, n: nat): Stock
    requires n < |all|
  {
    if n == 0 then s
    else Stock(s.live - Addrs(all[1..n + 1]), [all[n].addr], s.lost + (set a | a in s.chain) + Addrs(all[1..n]))
  }

  lemma FreedNext(s: Stock, t: Stock, all: seq<Node>, n: nat, x: nat)
    requires Objects(all, s.live) && n + 1 < |all| && x == all[n + 1].addr && t == Freed(s, all, n)
    ensures x in t.live && all[0].addr in t.live - {x}
    ensures Freed(s, all, n + 1) == Stock(t.live - {x}, [x], t.lost + (set a | a in t.chain))
  {
    assert all[1..n + 2] == all[1..n + 1] + [all[n + 1]];
    if n > 0 { assert all[1..n + 1] == all[1..n] + [all[n]]; }
  }

  lemma RingNext(all: seq<Node>, n: nat)
    requires n + 1 < |all|
    ensures var ring := [all[0]] + all[n + 1..]; ring[1] == all[n + 1] && Removed(ring, 1) == [all[0]] + all[n + 2..]
  {
  }

  /** At last the head is freed, too. */
  lemma FreedAll(s: Stock, all: seq<Node>)
    requires Objects(all, s.live) && all != []
    ensures var t, x := Freed(s, all, |all| - 1), all[0].addr;
      && x in t.live && t.live - {x} == s.live - Addrs(all)
      && t.lost + (set a | a in t.chain) == s.lost + (set a | a in s.chain) + Addrs(all[1..])
  {
    var n := |all| - 1;
    assert all == [all[0]] + all[1..];
    if n > 0 { assert all[1..] == all[1..n] + [all[n]] && all[1..n + 1] == all[1..]; }
  }

  class AreaList {
    const head: Node
    /** The other fields of the areas. */
    var fields: map<Node, Area>
    ghost var ring: seq<Node>

    ghost predicate Valid()
      reads this, ring
    {
      Ring(ring) && ring[0] == head && Filled(ring, fields)
    }

    ghost function Contents(): seq<Area>
      requires Filled(ring, fields)
      reads this
    {
      AreasOn(ring, fields)
    }

    /** The end of vmem_init */
    constructor (head: Node)
      modifies head
      ensures Valid() && this.head == head && ring == [head] && Contents() == []
    {
      this.head := head;
      fields, ring := map[], [head];
      new;
      ListInit(head);
    }

    /** The end of vmem_alloc_pages: the new area goes to the front. */
    method Push(node: Node, a: Area)
      requires Valid() && node !in ring
      modifies this, ring, node
      ensures Valid() && ring == Inserted(old(ring), 0, node) && Contents() == [a] + old(Contents())
    {
      AreasPushed(ring, fields, node, a);
      fields := fields[node := a];
      ListInit(node);
      assert head.next == ring[if |ring| > 1 then 1 else 0];
      ListInsertAfter(head, node, ring, 0);
      ring := Inserted(ring, 0, node);
    }

    /** The node after place `i` of the list. */
    lemma After(i: nat)
      requires Valid() && i < |ring|
      ensures ring[i].next == if i + 1 < |ring| then ring[i + 1] else head
      ensures i + 1 < |ring| ==> ring[i + 1] != head
    {
      assert i + 1 < |ring| ==> ring[0] != ring[i + 1];
    }

    /** vmem_is_mapped */
    method Find(addr: nat) returns (area: Option<Area>)
      requires Valid()
      ensures area == Lookup(Contents(), addr)
    {
      ghost var i := 0;
      After(0);
      var node := head.next;
      while node != head
        invariant i < |ring| && node == if i + 1 < |ring| then ring[i + 1] else head
        invariant forall j :: 0 <= j < i ==> !Covers(Contents()[j], addr)
        decreases |ring| - i
      {
        if Covers(fields[node], addr) {
          LookupFirst(Contents(), addr, i);
          return Some(fields[node]);
        }
        After(i + 1);
        node, i := node.next, i + 1;
      }
      After(i);
      LookupNone(Contents(), addr);
      return None;
    }

    /** vmem_intersects */
    method Intersects(start: nat, pgcnt: nat) returns (found: bool)
      requires Valid()
      ensures found == Meets(Contents(), start, pgcnt)
    {
      var end := (start + pgcnt) % WORD;
      ghost var i := 0;
      After(0);
      var node := head.next;
      while node != head
        invariant i < |ring| && node == if i + 1 < |ring| then ring[i + 1] else head
        invariant forall j :: 0 <= j < i ==>
          end <= Contents()[j].start || EndOf(Contents()[j].start, Contents()[j].size) <= start
        decreases |ring| - i
      {
        if !(end <= fields[node].start || EndOf(fields[node].start, fields[node].size) <= start) {
          assert Contents()[i] == fields[node];
          return true;
        }
        After(i + 1);
        node, i := node.next, i + 1;
      }
      After(i);
      return false;
    }

    /** The list part of vmem_free_pages: the first area with these bounds leaves the list. */
    method Extract(start: nat, end: nat) returns (found: Option<Node>, ghost i: nat)
      requires Valid()
      modifies this`ring, ring
      ensures Valid() && i <= |old(Contents())| && forall j :: 0 <= j < i ==> !Matches(old(Contents())[j], start, end)
      ensures found.None? ==> i == |old(Contents())| && ring == old(ring) && Contents() == old(Contents())
      ensures found.Some? ==> i < |old(Contents())| && Matches(old(Contents())[i], start, end)
      ensures found.Some? ==> ring == Removed(old(ring), i + 1) && found.value == old(ring)[i + 1]
      ensures found.Some? ==> Contents() == Removed(old(Contents()), i)
    {
      i := 0;
      After(0);
      var node := head.next;
      while node != head
        invariant unchanged(this) && unchanged(ring)
        invariant i < |ring| && node == if i + 1 < |ring| then ring[i + 1] else head
        invariant forall j :: 0 <= j < i ==> !Matches(Contents()[j], start, end)
        decreases |ring| - i
      {
        if start == fields[node].start && EndOf(fields[node].start, fields[node].size) == end {
          Unlink(node, i + 1);
          return Some(node), i;
        }
        After(i + 1);
        node, i := node.next, i + 1;
      }
      After(i);
      found := None;
    }

    /** list_extract of the node at place `i` */
    method Unlink(node: Node, ghost i: nat)
      requires Valid() && 0 < i < |ring| && node == ring[i]
      modifies this`ring, ring
      ensures Valid() && ring == Removed(old(ring), i) && Contents() == Removed(old(Contents()), i - 1)
    {
      AreasRemoved(ring, fields, i - 1);
      assert node.next == ring[if i + 1 < |ring| then i + 1 else 0] && node.prev == ring[i - 1];
      ListExtract(node, ring, i);
      ring := Removed(ring, i);
    }

    /** The two lists have no node in common, and the objects from `i` on are in neither. */
    ghost predicate Spare(src: AreaList, objects: seq<Node>, i: nat)
      reads this, src
    {
      && src != this && (forall n :: n in src.ring ==> n !in ring && n !in objects)
      && (forall k :: i <= k < |objects| ==> objects[k] !in ring)
      && (forall n :: n in ring ==> n == head || n in objects)
    }

    /** One round of the loop of vmem_clone over the areas. */
    method CopyOne(src: AreaList, node: Node, objects: seq<Node>, i: nat)
      requires Valid() && src.Valid() && Distinct(objects) && Spare(src, objects, i) && i < |objects|
      requires i < |src.Contents()| && node == src.ring[i + 1] && Contents() == Reversed(src.Contents()[..i])
      modifies this, head, objects
      ensures Valid() && Contents() == Reversed(src.Contents()[..i + 1]) && Spare(src, objects, i + 1)
      ensures src.Valid() && src.ring == old(src.ring) && src.Contents() == old(src.Contents())
    {
      ReversedPush(src.Contents(), i);
      assert objects[i] in objects && forall k :: 0 <= k < |ring| ==> ring[k] == head || ring[k] in objects;
      assert forall k :: 0 <= k < |src.ring| ==> src.ring[k] !in ring && src.ring[k] != objects[i];
      Push(objects[i], src.fields[node]);
    }

    /** The loop of vmem_clone over the areas.  `objects` is what object_alloc has to give; if it is
        not enough, the rest is not copied. */
    method Copy(src: AreaList, objects: seq<Node>) returns (ok: bool)
      requires Valid() && ring == [head] && src.Valid() && Distinct(objects) && Spare(src, objects, 0)
      modifies this, head, objects
      ensures Valid() && src.Valid() && src.Contents() == old(src.Contents())
      ensures ok <==> |src.Contents()| <= |objects|
      ensures ok ==> Contents() == Reversed(src.Contents())
    {
      ghost var all, areas := src.ring, src.Contents();
      var i := 0;
      src.After(0);
      var node := src.head.next;
      while node != src.head
        invariant src.Valid() && src.ring == all && src.Contents() == areas
        invariant i < |all| && i <= |objects| && node == if i + 1 < |all| then all[i + 1] else src.head
        invariant Valid() && Contents() == Reversed(areas[..i]) && Spare(src, objects, i)
        decreases |all| - i
      {
        if i == |objects| {
          return false;
        }
        CopyOne(src, node, objects, i);
        src.After(i + 1);
        node, i := node.next, i + 1;
      }
      src.After(i);
      assert areas[..i] == areas;
      ok := true;
    }

    /** One round of the loop of vmem_destroy. */
    method DrainOne(alloc: Slab.ObjAlloc, ghost s: Stock, ghost all: seq<Node>, ghost n: nat)
      requires Valid() && alloc.Valid() && Objects(all, s.live) && n + 1 < |all|
      requires ring == [all[0]] + all[n + 1..] && StockOf(alloc) == Freed(s, all, n)
      modifies this`ring, ring, alloc
      ensures Valid() && alloc.Valid() && ring == [all[0]] + all[n + 2..] && StockOf(alloc) == Freed(s, all, n + 1)
    {
      var pop := head.next;
      After(0);
      RingNext(all, n);
      FreedNext(s, StockOf(alloc), all, n, pop.addr);
      Unlink(pop, 1);
      alloc.ObjectFree(pop.addr);
    }

    /** The loop of vmem_destroy over the areas. */
    method DrainAreas(alloc: Slab.ObjAlloc)
      requires Valid() && alloc.Valid() && Objects(ring, alloc.live)
      modifies this`ring, ring, alloc
      ensures Valid() && alloc.Valid() && ring == [head]
      ensures StockOf(alloc) == Freed(old(StockOf(alloc)), old(ring), |old(ring)| - 1)
    {
      ghost var all, s, n := ring, StockOf(alloc), 0;
      var empty := ListEmpty(head, ring);
      while !empty
        invariant Valid() && alloc.Valid() && empty == (|ring| == 1)
        invariant n < |all| && ring == [all[0]] + all[n + 1..] && StockOf(alloc) == Freed(s, all, n)
        decreases |all| - n
      {
        DrainOne(alloc, s, all, n);
        n := n + 1;
        empty := ListEmpty(head, ring);
      }
    }

    /** The list part of vmem_destroy: every area leaves the list and is freed, then the head.  Of
        all these objects only the head is ever found again. */
    method Drain(alloc: Slab.ObjAlloc)
      requires Valid() && alloc.Valid() && Objects(ring, alloc.live)
      modifies this`ring, ring, alloc
      ensures Valid() && alloc.Valid() && ring == [head]
      ensures alloc.chain == [head.addr] && alloc.live == old(alloc.live) - Addrs(old(ring))
      ensures alloc.lost == old(alloc.lost) + (set a | a in old(alloc.chain)) + Addrs(old(ring)[1..])
    {
      FreedAll(StockOf(alloc), ring);
      DrainAreas(alloc);
      alloc.ObjectFree(head.addr);
    }
  }
}
