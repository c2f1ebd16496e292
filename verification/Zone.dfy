/** One zone of the frame allocator (mm/frame_alloc.c): the free lists, the bitmap of buddy pairs
    and the memory itself, changed in place by zone_alloc and zone_dealloc. */
module Zones {
  import opened Common
  import opened Bits
  import opened Buddy
  import opened ListOrder
  import opened Lists
  import opened ZoneAddr
  import opened ZoneLayout

  /** What zone_alloc does.  `NullBitmap` is the store through the NULL bitmap of the largest order. */
  datatype AllocResult = Taken(addr: nat) | NoBlock | NullBitmap

  /** The loop of zone_add that places the bitmaps one after the other. */
  method PlaceBitmaps(top: nat, sizing: Sizing) returns (base: seq<nat>)
    ensures base == Bases(sizing, top)
  {
    ghost var all := Bases(sizing, top);
    base := [];
    var ptr := 0;
    for i := 0 to MAX_ORDER
      invariant base == all[..i] && ptr == BitmapBase(sizing, top, i)
    {
      BaseAt(sizing, top, i);
      base := base + [ptr];
      ptr := ptr + BitmapSize(sizing, top, i);
    }
  }

  /** The first half of zone_add: where the zone starts, how many of the largest blocks it
      holds and where each bitmap starts. */
  method PlanZone(addr: nat, pageCount: nat, sizing: Sizing) returns (start: nat, top: nat, base: seq<nat>)
    requires pageCount > 1024
    ensures start == ZoneStart(addr, pageCount) && top == ZoneTop(addr, pageCount) && base == Bases(sizing, top)
  {
    var required := 0;
    for i := 0 to MAX_ORDER + 1
      invariant required == if i == 0 then 0 else Reserved(pageCount, i - 1)
    {
      required := required + SizeFor(pageCount, i);
    }
    var bitmapPages := (required + PAGE_SIZE - 1) / PAGE_SIZE;
    start := RoundUp(addr + PAGE_SIZE * bitmapPages, BLOCK_BYTES);
    var end := (start + (pageCount - bitmapPages) * PAGE_SIZE) / BLOCK_BYTES * BLOCK_BYTES;
    ZoneShape(addr, pageCount);
    top := (end - start) / BLOCK_BYTES;
    base := PlaceBitmaps(top, sizing);
  }

  lemma InsertedAt(s: seq<Node>, x: Node)
    requires s != []
    ensures |Inserted(s, 0, x)| == |s| + 1
    ensures forall m :: 0 <= m <= |s| ==>
      Inserted(s, 0, x)[m] == if m == 0 then s[0] else if m == 1 then x else s[m - 1]
  {
  }

  class Zone {
    const start: nat
    const top: nat
    /** The zone's memory, one page after the other, as the list nodes written at page starts. */
    const pages: seq<Node>
    const heads: seq<Node>
    const bitmap: array<bv8>
    const base: seq<nat>
    /** What the pages hold, one number for the 4096 bytes of a page. */
    const content: array<nat>
    ghost const nodes: set<Node>

    ghost var lists: FreeLists
    ghost var s: State

    ghost predicate Static() {
      && StartAligned(start)
      && |pages| == Count(top, 0) == content.Length
      && |heads| == MAX_ORDER + 1
      && (forall p :: 0 <= p < |pages| ==> pages[p] in nodes && pages[p].addr == start + PAGE_SIZE * p)
      && (forall o, p :: 0 <= o <= MAX_ORDER && 0 <= p < |pages| ==> heads[o] != pages[p])
      && |base| == MAX_ORDER
      && bitmap as object != content
    }

    /** zone_add for the `pageCount` pages at `addr`.  `memory` and `data` are the pages of the
        managed range, `bytes` the reserved pages before it; none of it is cleared. */
    constructor (addr: nat, pageCount: nat, sizing: Sizing,
                 memory: seq<Node>, heads: seq<Node>, bytes: array<bv8>, data: array<nat>)
      requires pageCount > 1024 && addr % PAGE_SIZE == 0 && 0 <= ZoneTop(addr, pageCount)
      requires |memory| == Count(ZoneTop(addr, pageCount), 0) == data.Length && |heads| == MAX_ORDER + 1
      requires forall p :: 0 <= p < |memory| ==> memory[p].addr == ZoneStart(addr, pageCount) + PAGE_SIZE * p
      requires forall o, p :: 0 <= o <= MAX_ORDER && 0 <= p < |memory| ==> heads[o] != memory[p]
      requires Distinct(heads)
      requires bytes.Length == BitmapPages(pageCount) * PAGE_SIZE && bytes as object != data
      modifies memory, heads
      ensures start == ZoneStart(addr, pageCount) && top == ZoneTop(addr, pageCount) && base == Bases(sizing, top)
      ensures pages == memory && this.heads == heads && bitmap == bytes && content == data
      ensures nodes == (set n | n in memory) + (set n | n in heads)
      ensures s == Initial(top) && Static() && ListsMatch(lists) && Holds(lists, s.free) && Inv(s, top)
      ensures lists == FreshLists(top)
      ensures Valid() <==>
        && Layout(base, top, bitmap.Length)
        && forall o, pair :: 0 <= o < MAX_ORDER && 0 <= pair < Pairs(top, o) ==> !PairBit(o, pair)
    {
      var start', top', base' := PlanZone(addr, pageCount, sizing);
      ZoneShape(addr, pageCount);
      start, top, base := start', top', base';
      pages, this.heads, bitmap, content := memory, heads, bytes, data;
      nodes := (set n | n in memory) + (set n | n in heads);
      lists := seq(MAX_ORDER + 1, _ => []);
      s := State({}, {});
      new;
      InitHeads();
      FillLists();
      FreshBits();
    }

    /** With only largest blocks free, the bitmaps are right if they are laid out well and clear. */
    lemma FreshBits()
      requires Static() && s == Initial(top)
      ensures BitsMatch(s.free) <==>
        && Layout(base, top, bitmap.Length)
        && forall o, pair :: 0 <= o < MAX_ORDER && 0 <= pair < Pairs(top, o) ==> !PairBit(o, pair)
    {
    }

    /** list_init of the head of every order. */
    method InitHeads()
      requires Static() && Distinct(heads) && lists == seq(MAX_ORDER + 1, _ => [])
      requires nodes == (set n | n in pages) + (set n | n in heads)
      modifies heads
      ensures ListsMatch(lists)
    {
      for o := 0 to MAX_ORDER + 1
        invariant forall o' :: 0 <= o' < o ==> Ring([heads[o']])
      {
        ListInit(heads[o]);
      }
      forall o | 0 <= o <= MAX_ORDER ensures RingsOf(lists)[o] == [heads[o]] {
        assert RingOf(lists, o) == [heads[o]];
      }
    }

    /** Put every block of the largest order on its list. */
    method FillLists()
      requires Static() && ListsMatch(lists) && Holds(lists, {}) && s == State({}, {})
      requires lists == seq(MAX_ORDER + 1, _ => [])
      modifies this`lists, this`s, nodes
      ensures s == Initial(top) && ListsMatch(lists) && Holds(lists, s.free) && Inv(s, top)
      ensures lists == FreshLists(top)
    {
      InitialInv(top);
      NoneListed();
      for i := 0 to top
        invariant Static() && ListsMatch(lists) && Holds(lists, s.free) && lists == FreshLists(i)
        invariant s == State(set j | 0 <= j < i :: Block(MAX_ORDER, j), {})
      {
        FillOne(i);
        PushedFresh(i);
      }
      assert s == Initial(top);
    }

    method FillOne(i: nat)
      requires Static() && ListsMatch(lists) && Holds(lists, s.free) && i < top
      requires s == State(set j | 0 <= j < i :: Block(MAX_ORDER, j), {})
      modifies this`lists, this`s, nodes
      ensures Static() && ListsMatch(lists) && Holds(lists, s.free)
      ensures lists == Pushed(old(lists), Block(MAX_ORDER, i))
      ensures s == State(set j | 0 <= j < i + 1 :: Block(MAX_ORDER, j), {})
    {
      var b := Block(MAX_ORDER, i);
      DownInZone(b, top);
      BlockOffset(i);
      UpDown(i, MAX_ORDER);
      PushFront(MAX_ORDER, pages[1024 * i], b);
      s := State(s.free + {b}, {});
    }

    /** The list of order `o`: its head, then the first page of each listed block. */
    ghost function RingOf(ls: FreeLists, o: nat): seq<Node>
      requires o <= MAX_ORDER && o < |heads|
      requires forall k :: 0 <= k < |ls[o]| ==> Down(ls[o][k], o) < |pages|
    {
      [heads[o]] + seq(|ls[o]|, k requires 0 <= k < |ls[o]| => pages[Down(ls[o][k], o)])
    }

    ghost predicate InRange(ls: FreeLists) {
      forall o, k :: 0 <= o <= MAX_ORDER && 0 <= k < |ls[o]| ==> Down(ls[o][k], o) < |pages|
    }

    ghost function RingsOf(ls: FreeLists): (rings: seq<seq<Node>>)
      requires Static() && InRange(ls)
    {
      seq(MAX_ORDER + 1, o requires 0 <= o <= MAX_ORDER => RingOf(ls, o))
    }

    predicate PairBit(o: nat, pair: nat)
      requires o < |base| && base[o] + pair / 8 < bitmap.Length
      reads bitmap
    {
      GetBit(bitmap[base[o] + pair / 8], pair % 8)
    }

    /** A pair's bit is set exactly when one of its two blocks is free. */
    ghost predicate BitsMatch(free: set<Block>)
      requires Static()
      reads bitmap
    {
      && Layout(base, top, bitmap.Length)
      && forall o, pair :: 0 <= o < MAX_ORDER && 0 <= pair < Pairs(top, o) ==>
        (PairBit(o, pair) <==> (Block(o, 2 * pair) in free) != (Block(o, 2 * pair + 1) in free))
    }

    /** In cleared bitmaps no pair's bit is set. */
    lemma ClearBits()
      requires Static() && Layout(base, top, bitmap.Length) && forall i :: 0 <= i < bitmap.Length ==> bitmap[i] == 0
      ensures forall o, pair :: 0 <= o < MAX_ORDER && 0 <= pair < Pairs(top, o) ==> !PairBit(o, pair)
    {
    }

    ghost predicate ListsMatch(ls: FreeLists)
      requires Static()
      reads nodes
    {
      InRange(ls) && Table(RingsOf(ls), nodes)
    }

    ghost predicate Valid()
      reads this, nodes, bitmap
    {
      Static() && ListsMatch(lists) && Holds(lists, s.free) && BitsMatch(s.free) && Inv(s, top)
    }

    /** A list names no block twice. */
    lemma NoDuplicates(ls: FreeLists, o: nat, k: nat, k': nat)
      requires Static() && ListsMatch(ls) && o <= MAX_ORDER && k < k' < |ls[o]|
      ensures ls[o][k] != ls[o][k']
    {
      var rings := RingsOf(ls);
      assert rings[o] == RingOf(ls, o);
      assert rings[o][k + 1] != rings[o][k' + 1];
    }

    method PushFront(o: nat, node: Node, ghost b: Block)
      requires Static() && ListsMatch(lists) && Holds(lists, s.free)
      requires b.order == o <= MAX_ORDER && Down(b.index, o) < |pages| && node == pages[Down(b.index, o)]
      requires forall c :: c in s.free ==> !Contains(c, Down(b.index, o))
      modifies this`lists, nodes
      ensures lists == Pushed(old(lists), b)
      ensures ListsMatch(lists) && Holds(lists, s.free + {b})
    {
      ghost var rings := RingsOf(lists);
      ghost var ls: FreeLists := lists[o := [b.index] + lists[o]];
      forall o', k | 0 <= o' <= MAX_ORDER && 0 <= k < |rings[o']|
        ensures rings[o'][k] != node
      {
        if k > 0 { UpDown(lists[o'][k - 1], o'); }
      }
      InsertInTable(heads[o], node, rings, o, 0, nodes);
      lists := ls;
      RingsWith(old(lists), ls, o, b.index);
      HoldsWith(old(lists), ls, s.free, b);
    }

    /** The ring of a list depends on that list only. */
    lemma SameRing(ls: FreeLists, ls': FreeLists, o: nat)
      requires Static() && InRange(ls) && InRange(ls') && o <= MAX_ORDER && ls'[o] == ls[o]
      ensures RingOf(ls', o) == RingOf(ls, o)
    {
    }

    lemma RingPushed(ls: FreeLists, ls': FreeLists, o: nat, index: nat)
      requires Static() && InRange(ls) && InRange(ls') && o <= MAX_ORDER && Down(index, o) < |pages|
      requires ls'[o] == [index] + ls[o]
      ensures RingOf(ls', o) == Inserted(RingOf(ls, o), 0, pages[Down(index, o)])
    {
      var was, now, x := RingOf(ls, o), RingOf(ls', o), pages[Down(index, o)];
      forall m | 0 <= m < |now| ensures now[m] == if m == 0 then was[0] else if m == 1 then x else was[m - 1] {
        if m > 1 { assert ls'[o][m - 1] == ls[o][m - 2]; }
      }
      InsertedAt(was, x);
    }

    lemma RingCut(ls: FreeLists, ls': FreeLists, o: nat, k: nat)
      requires Static() && InRange(ls) && InRange(ls') && o <= MAX_ORDER && k < |ls[o]| && ls'[o] == Removed(ls[o], k)
      ensures RingOf(ls', o) == Removed(RingOf(ls, o), k + 1)
    {
      var was, now := RingOf(ls, o), RingOf(ls', o);
      forall m | 0 <= m < |now| ensures now[m] == Removed(was, k + 1)[m] {
        if m > 0 { assert ls'[o][m - 1] == ls[o][if m - 1 < k then m - 1 else m]; }
      }
    }

    /** A list with one more block, as rings of nodes. */
    lemma RingsWith(ls: FreeLists, ls': FreeLists, o: nat, index: nat)
      requires Static() && InRange(ls) && o <= MAX_ORDER && Down(index, o) < |pages| && ls' == ls[o := [index] + ls[o]]
      ensures InRange(ls') && RingsOf(ls') == RingsOf(ls)[o := Inserted(RingsOf(ls)[o], 0, pages[Down(index, o)])]
    {
      RingPushed(ls, ls', o, index);
      forall o' | 0 <= o' <= MAX_ORDER && o' != o ensures RingOf(ls', o') == RingOf(ls, o') {
        SameRing(ls, ls', o');
      }
    }

    /** A list with one block less, as rings of nodes. */
    lemma RingsWithout(ls: FreeLists, ls': FreeLists, o: nat, k: nat)
      requires Static() && InRange(ls) && o <= MAX_ORDER && k < |ls[o]| && ls' == ls[o := Removed(ls[o], k)]
      ensures InRange(ls') && RingsOf(ls') == RingsOf(ls)[o := Removed(RingsOf(ls)[o], k + 1)]
    {
      RingCut(ls, ls', o, k);
      forall o' | 0 <= o' <= MAX_ORDER && o' != o ensures RingOf(ls', o') == RingOf(ls, o') {
        SameRing(ls, ls', o');
      }
    }

    /** A listed block is at one place of its list only. */
    lemma OnlyPlace(ls: FreeLists, o: nat, k: nat)
      requires Static() && ListsMatch(ls) && o <= MAX_ORDER && k < |ls[o]|
      ensures forall j :: 0 <= j < |ls[o]| && j != k ==> ls[o][j] != ls[o][k]
      ensures ls[o := Removed(ls[o], k)] == Unlisted(ls, Block(o, ls[o][k]))
    {
      forall j | 0 <= j < |ls[o]| && j != k ensures ls[o][j] != ls[o][k] {
        if j < k { NoDuplicates(ls, o, j, k); } else { NoDuplicates(ls, o, k, j); }
      }
      WithoutAt(ls[o], k);
    }

    method Extract(o: nat, node: Node, ghost k: nat)
      requires Static() && ListsMatch(lists) && Holds(lists, s.free)
      requires o <= MAX_ORDER && k < |lists[o]| && node == pages[Down(lists[o][k], o)]
      modifies this`lists, nodes
      ensures lists == Unlisted(old(lists), Block(o, old(lists[o][k])))
      ensures ListsMatch(lists) && Holds(lists, s.free - {Block(o, old(lists[o][k]))})
    {
      OnlyPlace(lists, o, k);
      ghost var rings := RingsOf(lists);
      ghost var ls: FreeLists := lists[o := Removed(lists[o], k)];
      ExtractFromTable(node, rings, o, k + 1, nodes);
      lists := ls;
      HoldsWithout(old(lists), ls, s.free, o, k);
      RingsWithout(old(lists), ls, o, k);
    }

    method WritePair(o: nat, pair: nat, op: BitOp)
      requires Static() && Layout(base, top, bitmap.Length) && o < MAX_ORDER && pair < Pairs(top, o)
      modifies bitmap
      ensures forall o', pair' :: 0 <= o' < MAX_ORDER && 0 <= pair' < Pairs(top, o') ==>
        (PairBit(o', pair') <==>
          if o == o' && pair == pair' then NewBit(op, old(PairBit(o, pair))) else old(PairBit(o', pair')))
    {
      var at := base[o] + pair / 8;
      bitmap[at] := Bits.WriteBit(op, bitmap[at], pair % 8);
      forall o', pair' | 0 <= o' < MAX_ORDER && 0 <= pair' < Pairs(top, o')
        ensures PairBit(o', pair') <==>
          if o == o' && pair == pair' then NewBit(op, old(PairBit(o, pair))) else old(PairBit(o', pair'))
      {
        WriteBitExact(op, old(bitmap[at]), pair % 8, pair' % 8);
      }
    }

    /** Bring the bit of a block's pair in line with a change of the free blocks within that pair. */
    method UpdateBit(b: Block, op: BitOp, ghost free: set<Block>, ghost free': set<Block>)
      requires Static() && BitsMatch(free) && b.order < MAX_ORDER && b.index / 2 < Pairs(top, b.order)
      requires forall c :: c !in {b, BuddyOf(b)} ==> (c in free <==> c in free')
      requires NewBit(op, (b in free) != (BuddyOf(b) in free)) <==> (b in free') != (BuddyOf(b) in free')
      modifies bitmap
      ensures BitsMatch(free')
    {
      WritePair(b.order, b.index / 2, op);
      forall o, pair | 0 <= o < MAX_ORDER && 0 <= pair < Pairs(top, o)
        ensures PairBit(o, pair) <==> (Block(o, 2 * pair) in free') != (Block(o, 2 * pair + 1) in free')
      {
        if o == b.order && pair == b.index / 2 {
          assert {Block(o, 2 * pair), Block(o, 2 * pair + 1)} == {b, BuddyOf(b)};
        } else {
          assert Block(o, 2 * pair) !in {b, BuddyOf(b)} && Block(o, 2 * pair + 1) !in {b, BuddyOf(b)};
        }
      }
    }

    /** The page whose memory starts at `addr`. */
    function PageAt(addr: int): int {
      (addr - start) / PAGE_SIZE
    }

    ghost predicate IsBlock(node: Node, b: Block)
      requires Static()
    {
      b.order <= MAX_ORDER && Down(b.index, b.order) < |pages| && node == pages[Down(b.index, b.order)]
    }

    lemma BlockPlace(b: Block)
      requires Static() && InZone(b, top)
      ensures Down(b.index, b.order) < |pages| && IsBlock(pages[Down(b.index, b.order)], b)
      ensures pages[Down(b.index, b.order)].addr == AddrOf(start, b)
      ensures PageAt(AddrOf(start, b)) == Down(b.index, b.order)
    {
      DownInZone(b, top);
    }

    /** `(addr - start) / ((1 << order) * PAGE_SIZE)`: the index of the block at `addr`. */
    method BlockIndex(addr: nat, order: nat, ghost b: Block) returns (index: nat)
      requires Static() && InZone(b, top) && b.order == order && addr == AddrOf(start, b)
      ensures index == b.index && (order < MAX_ORDER ==> index / 2 < Pairs(top, order))
    {
      IndexOfAddr(start, b);
      if order < MAX_ORDER { PairInZone(b, top); }
      index := IndexOf(start, addr, order);
    }

    /** FLIP_BIT(addr, 12 + order): the address of the buddy of the block at `addr`. */
    method BuddyOfAddr(addr: nat, order: nat, ghost b: Block) returns (buddyAddr: nat)
      requires Static() && InZone(b, top) && b.order == order < MAX_ORDER && addr == AddrOf(start, b)
      ensures buddyAddr == AddrOf(start, BuddyOf(b))
    {
      BuddyAddr(start, b);
      buddyAddr := FlipAddrBit(addr, 12 + order);
    }

    /** The address of a block taken for a pointer to its list node. */
    method NodeAt(addr: nat, ghost b: Block) returns (node: Node)
      requires Static() && InZone(b, top) && addr == AddrOf(start, b)
      ensures IsBlock(node, b)
    {
      BlockPlace(b);
      node := pages[PageAt(addr)];
    }

    lemma FirstNode(o: nat)
      requires Static() && ListsMatch(lists) && o <= MAX_ORDER && lists[o] != []
      ensures heads[o].next == pages[Down(lists[o][0], o)]
    {
      var ring := RingsOf(lists)[o];
      assert ring == RingOf(lists, o) && Ring(ring);
      assert ring[0].next == ring[1];
    }

    /** Take the first block of list `i` off the list. */
    method TakeFirst(i: nat) returns (block: Node)
      requires Static() && ListsMatch(lists) && Holds(lists, s.free) && i <= MAX_ORDER && lists[i] != []
      modifies this`lists, nodes
      ensures lists == Unlisted(old(lists), Block(i, old(lists)[i][0]))
      ensures ListsMatch(lists) && Holds(lists, s.free - {Block(i, old(lists)[i][0])})
      ensures block == pages[Down(old(lists)[i][0], i)]
    {
      FirstNode(i);
      block := heads[i].next;
      Extract(i, block, 0);
    }

    /** Flip the bit of the block `b` taken off its list. */
    method FlipTaken(block: Node, i: nat, ghost b: Block)
      requires Static() && BitsMatch(s.free) && Inv(s, top) && i < MAX_ORDER
      requires b in s.free && b.order == i && IsBlock(block, b)
      modifies bitmap
      ensures BitsMatch(s.free - {b})
    {
      BlockPlace(b);
      var blockIndex := BlockIndex(block.addr, i, b);
      UpdateBit(Block(i, blockIndex), Flip, s.free, s.free - {b});
    }

    /** The memory handed out for block `b` is cleared and all other memory is left alone. */
    twostate predicate Cleared(b: Block)
      reads content
    {
      forall p :: 0 <= p < content.Length ==> content[p] == if Contains(b, p) then 0 else old(content[p])
    }

    /** memset of the `1 << order` pages of a block. */
    method ClearPages(block: Node, order: nat, ghost b: Block)
      requires Valid() && InZone(b, top) && b.order == order && IsBlock(block, b)
      modifies content
      ensures Valid() && Cleared(b)
    {
      BlockPlace(b);
      var first := PageAt(block.addr);
      var n := Pow2(order);
      forall p: nat ensures Contains(b, p) <==> first <= p < first + n { PagesOfBlock(b, p); }
      PageInZone(b, first + n - 1, top);
      for p := first to first + n
        invariant Valid()
        invariant forall q :: 0 <= q < content.Length ==> content[q] == if first <= q < p then 0 else old(content[q])
      {
        content[p] := 0;
      }
    }

    /** Split the block at `block`, of order `i` and already taken, down to `order`: the second
        half goes to the list of its order and the first half is split further. */
    method SplitDown(block: Node, i: nat, order: nat, ghost b: Block)
      requires Valid() && order <= i == b.order && b in s.live && IsBlock(block, b)
      modifies this`lists, this`s, nodes, bitmap
      ensures Valid() && s == SplitTo(old(s), b, order) && lists == SplitLists(old(lists), b, order)
      ensures IsBlock(block, FirstOf(b, order)) && FirstOf(b, order) in s.live
    {
      var curr := block;
      ghost var c := b;
      var j := i;
      while j > order
        invariant order <= j == c.order <= i
        invariant Valid() && c in s.live && IsBlock(curr, c) && curr == block
        invariant SplitTo(s, c, order) == SplitTo(old(s), b, order)
        invariant SplitLists(lists, c, order) == SplitLists(old(lists), b, order)
        invariant FirstOf(c, order) == FirstOf(b, order)
      {
        j := j - 1;
        SplitRound(curr, j, order, c);
        c := Left(c);
      }
    }

    /** One round of the split loop brings the state no further from its goal. */
    method SplitRound(curr: Node, j: nat, order: nat, ghost c: Block)
      requires Valid() && c in s.live && order <= j && c.order == j + 1 <= MAX_ORDER && IsBlock(curr, c)
      modifies this`lists, this`s, nodes, bitmap
      ensures Valid() && Left(c) in s.live && IsBlock(curr, Left(c))
      ensures SplitTo(s, Left(c), order) == SplitTo(old(s), c, order) && FirstOf(Left(c), order) == FirstOf(c, order)
      ensures SplitLists(lists, Left(c), order) == SplitLists(old(lists), c, order)
    {
      DownShift(c.index, c.order - order);
      SplitOnce(curr, j, c);
    }

    method SplitOnce(curr: Node, j: nat, ghost c: Block)
      requires Valid() && c in s.live && c.order == j + 1 <= MAX_ORDER && IsBlock(curr, c)
      modifies this`lists, this`s, nodes, bitmap
      ensures Valid() && s == Split(old(s), c) && Left(c) in s.live && IsBlock(curr, Left(c))
      ensures lists == Pushed(old(lists), Right(c))
    {
      SplitKeeps(s, c, top);
      HalvesPlace(curr, c);
      MarkHalf(curr, j, c);
      var buddyAddr := BuddyOfAddr(curr.addr, j, Left(c));
      PutHalf(buddyAddr, j, c);
    }

    /** Set the bit of the halves of `c`. */
    method MarkHalf(curr: Node, j: nat, ghost c: Block)
      requires Valid() && c in s.live && c.order == j + 1 <= MAX_ORDER
      requires InZone(Left(c), top) && BuddyOf(Left(c)) == Right(c) && curr.addr == AddrOf(start, Left(c))
      modifies bitmap
      ensures BitsMatch(s.free + {Right(c)})
    {
      RightIsTaken(c);
      var blockIndex := BlockIndex(curr.addr, j, Left(c));
      UpdateBit(Block(j, blockIndex), Set, s.free, s.free + {Right(c)});
    }

    /** The second half of `c`, at `addr`, goes to the front of its list. */
    method PutHalf(addr: nat, j: nat, ghost c: Block)
      requires c.order == j + 1 <= MAX_ORDER && Static() && ListsMatch(lists)
      requires Holds(lists, s.free) && Inv(s, top) && BitsMatch(s.free + {Right(c)})
      requires c in s.live && InZone(Right(c), top) && addr == AddrOf(start, Right(c))
      modifies this`lists, this`s, nodes
      ensures Valid() && s == Split(old(s), c) && lists == Pushed(old(lists), Right(c))
    {
      var secondHalf := NodeAt(addr, Right(c));
      RightIsTaken(c);
      SplitKeeps(s, c, top);
      PushFront(j, secondHalf, Right(c));
      s := Split(s, c);
    }

    lemma HalvesPlace(curr: Node, c: Block)
      requires Static() && Inv(s, top) && c in s.live && c.order > 0 && IsBlock(curr, c)
      ensures InZone(Left(c), top) && InZone(Right(c), top) && BuddyOf(Left(c)) == Right(c)
      ensures IsBlock(curr, Left(c)) && curr.addr == AddrOf(start, Left(c))
    {
      LeftAddr(start, c);
      BlockPlace(Left(c));
      HalvesInZone(c, top);
    }

    lemma RightIsTaken(c: Block)
      requires Inv(s, top) && c in s.live && c.order > 0
      ensures Left(c) !in s.free && Right(c) !in s.free
      ensures forall d :: d in s.free ==> !Contains(d, Down(Right(c).index, c.order - 1))
    {
      HalvesAreNew(s, c, top);
      FirstPage(Right(c), top);
      HalvesCover(c, Down(Right(c).index, c.order - 1));
    }

    /** Take the head of list `i`, with its bit if the order has a bitmap. */
    method TakeHead(i: nat) returns (block: Node)
      requires Valid() && i <= MAX_ORDER && lists[i] != []
      modifies this`lists, this`s, nodes, bitmap
      ensures Valid() && Block(i, old(lists)[i][0]) in old(s).free && s == Take(old(s), Block(i, old(lists)[i][0]))
      ensures IsBlock(block, Block(i, old(lists)[i][0])) && lists == Unlisted(old(lists), Block(i, old(lists)[i][0]))
    {
      ghost var b := Block(i, lists[i][0]);
      BlockPlace(b);
      block := TakeFirst(i);
      ClearBit(block, i, b);
      NoteTaken(b);
    }

    ghost method NoteTaken(b: Block)
      requires Static() && ListsMatch(lists) && Holds(lists, s.free - {b})
      requires BitsMatch(s.free - {b}) && Inv(s, top) && b in s.free
      modifies this`s
      ensures Valid() && s == Take(old(s), b)
    {
      TakeKeeps(s, b, top);
      s := Take(s, b);
    }

    /** The bit of the block `b` taken off its list, if the order has a bitmap. */
    method ClearBit(block: Node, i: nat, ghost b: Block)
      requires Static() && BitsMatch(s.free) && Inv(s, top) && b in s.free && b.order == i && IsBlock(block, b)
      modifies bitmap
      ensures BitsMatch(s.free - {b})
    {
      if i < MAX_ORDER {
        FlipTaken(block, i, b);
      }
    }

    /** The exact fit of zone_alloc: nothing to split. */
    method ExactFit(order: nat) returns (r: AllocResult)
      requires Valid() && order <= MAX_ORDER && lists[order] != []
      modifies this`lists, this`s, nodes, bitmap, content
      ensures r == if order == MAX_ORDER then NullBitmap else Taken(AddrOf(start, Block(order, old(lists)[order][0])))
      ensures Valid() && Block(order, old(lists)[order][0]) in old(s).free
      ensures s == Take(old(s), Block(order, old(lists)[order][0]))
      ensures lists == Unlisted(old(lists), Block(order, old(lists)[order][0]))
      ensures r.Taken? ==> Cleared(Block(order, old(lists)[order][0]))
    {
      ghost var b := Block(order, lists[order][0]);
      var block := TakeHead(order);
      BlockPlace(b);
      if order == MAX_ORDER {
        return NullBitmap;
      }
      ClearPages(block, order, b);
      r := Taken(block.addr);
    }

    /** The other branch of zone_alloc: the head of list `i` is split down to `order`. */
    method LargerFit(i: nat, order: nat) returns (addr: nat)
      requires Valid() && order <= i <= MAX_ORDER && lists[i] != []
      modifies this`lists, this`s, nodes, bitmap, content
      ensures Valid() && Block(i, old(lists)[i][0]) in old(s).free
      ensures s == AllocFrom(old(s), Block(i, old(lists)[i][0]), order)
      ensures lists == AllocLists(old(lists), Block(i, old(lists)[i][0]), order)
      ensures addr == AddrOf(start, FirstOf(Block(i, old(lists)[i][0]), order))
      ensures Cleared(FirstOf(Block(i, old(lists)[i][0]), order))
    {
      ghost var b := Block(i, lists[i][0]);
      var curr := TakeHead(i);
      SplitDown(curr, i, order, b);
      BlockPlace(FirstOf(b, order));
      ClearPages(curr, order, FirstOf(b, order));
      addr := curr.addr;
    }

    /** zone_alloc.  A request is served from the head of the first list, from its own order up,
        that is not empty; except that an exact fit of the largest order goes through a NULL bitmap. */
    method ZoneAlloc(order: nat) returns (r: AllocResult)
      requires Valid() && order <= MAX_ORDER
      modifies this`lists, this`s, nodes, bitmap, content
      ensures r.NoBlock? <==> forall o :: order <= o <= MAX_ORDER ==> old(lists)[o] == []
      ensures r.NoBlock? ==> Valid() && unchanged(this`lists, this`s, nodes, bitmap, content)
      ensures r.NullBitmap? <==> order == MAX_ORDER && old(lists)[MAX_ORDER] != []
      ensures r.NullBitmap? ==> s == Take(old(s), Block(MAX_ORDER, old(lists)[MAX_ORDER][0]))
      ensures r.NullBitmap? ==> lists == Unlisted(old(lists), Block(MAX_ORDER, old(lists)[MAX_ORDER][0]))
      ensures r.Taken? ==>
        var b := BestFit(old(lists), order);
        && Valid() && b in old(s).free && s == AllocFrom(old(s), b, order)
        && lists == AllocLists(old(lists), b, order)
        && r.addr == AddrOf(start, FirstOf(b, order)) && Cleared(FirstOf(b, order))
    {
      assert RingsOf(lists)[order] == RingOf(lists, order);
      var empty := ListEmpty(heads[order], RingOf(lists, order));
      if !empty {
        r := ExactFit(order);
        return;
      }
      var i := FirstList(order);
      if i > MAX_ORDER {
        return NoBlock;
      }
      BestFitIs(lists, order, i);
      var addr := LargerFit(i, order);
      r := Taken(addr);
    }

    /** The search of zone_alloc for a list that is not empty. */
    method FirstList(order: nat) returns (i: nat)
      requires Valid() && order <= MAX_ORDER
      ensures order <= i <= MAX_ORDER + 1 && (i <= MAX_ORDER ==> lists[i] != [])
      ensures forall o :: order <= o < i ==> lists[o] == []
    {
      i := order;
      while i <= MAX_ORDER
        invariant order <= i <= MAX_ORDER + 1 && forall o :: order <= o < i ==> lists[o] == []
      {
        assert RingsOf(lists)[i] == RingOf(lists, i);
        var empty := ListEmpty(heads[i], RingOf(lists, i));
        if !empty {
          return;
        }
        i := i + 1;
      }
    }

    /** The next step of a deallocation is to put `c` on its list: its bit already says so. */
    ghost predicate Settled(c: Block)
      reads this, nodes, bitmap
    {
      && Static() && ListsMatch(lists) && Holds(lists, s.free) && Inv(s, top)
      && c in s.live && (c.order < MAX_ORDER ==> BuddyOf(c) !in s.free)
      && BitsMatch(s.free + {c})
    }

    /** One round of the coalescing loop for the live block `c` at `addr`: either its buddy is
        busy and its bit is set, or the buddy leaves its list and the two become one live block. */
    method Coalesce(addr: nat, order: nat, ghost c: Block) returns (merged: bool, addr': nat)
      requires Valid() && c in s.live && c.order == order < MAX_ORDER && addr == AddrOf(start, c)
      modifies this`lists, this`s, nodes, bitmap
      ensures merged <==> BuddyOf(c) in old(s).free
      ensures merged ==> Valid() && s == Merge(old(s), c) && Parent(c) in s.live && addr' == AddrOf(start, Parent(c))
      ensures merged ==> lists == Unlisted(old(lists), BuddyOf(c))
      ensures !merged ==> Settled(c) && s == old(s) && lists == old(lists) && addr' == addr
    {
      var buddyAddr := BuddyOfAddr(addr, order, c);
      var blockIndex := BlockIndex(addr, order, c);
      PairOf(c);
      var bit := PairBit(order, blockIndex / 2);
      if !bit {
        UpdateBit(Block(order, blockIndex), Set, s.free, s.free + {c});
        return false, addr;
      }
      Join(blockIndex, buddyAddr, order, c);
      ParentAddr(start, c);
      merged, addr' := true, if buddyAddr < addr then buddyAddr else addr;
    }

    /** Clear the bit of a pair and take the buddy, at `buddyAddr`, off its list. */
    method Join(blockIndex: nat, buddyAddr: nat, order: nat, ghost c: Block)
      requires Valid() && c in s.live && c.order == order < MAX_ORDER && BuddyOf(c) in s.free
      requires blockIndex == c.index && blockIndex / 2 < Pairs(top, order) && buddyAddr == AddrOf(start, BuddyOf(c))
      modifies this`lists, this`s, nodes, bitmap
      ensures Valid() && s == Merge(old(s), c) && lists == Unlisted(old(lists), BuddyOf(c))
    {
      UpdateBit(Block(order, blockIndex), Clear, s.free, s.free - {BuddyOf(c)});
      var buddy := NodeAt(buddyAddr, BuddyOf(c));
      TakeBuddy(order, buddy, c);
    }

    /** The buddy leaves its list: the two are one live block. */
    method TakeBuddy(order: nat, buddy: Node, ghost c: Block)
      requires Static() && ListsMatch(lists) && Holds(lists, s.free) && Inv(s, top) && BitsMatch(s.free - {BuddyOf(c)})
      requires c in s.live && c.order == order < MAX_ORDER && BuddyOf(c) in s.free && IsBlock(buddy, BuddyOf(c))
      modifies this`lists, this`s, nodes
      ensures Valid() && s == Merge(old(s), c) && lists == Unlisted(old(lists), BuddyOf(c))
    {
      ghost var k :| 0 <= k < |lists[order]| && lists[order][k] == BuddyOf(c).index;
      Extract(order, buddy, k);
      MergeKeeps(s, c, top);
      s := Merge(s, c);
    }

    lemma PairOf(c: Block)
      requires Static() && Inv(s, top) && BitsMatch(s.free) && c in s.live && c.order < MAX_ORDER
      ensures c.index / 2 < Pairs(top, c.order) && (PairBit(c.order, c.index / 2) <==> BuddyOf(c) in s.free)
    {
      var pair := c.index / 2;
      PairInZone(c, top);
      assert {Block(c.order, 2 * pair), Block(c.order, 2 * pair + 1)} == {c, BuddyOf(c)};
    }

    /** The coalescing loop of zone_dealloc: the live block `b` grows until its buddy is busy. */
    method CoalesceUp(addr: nat, order: nat, ghost b: Block) returns (freeAddr: nat, freeOrder: nat, ghost c: Block)
      requires Valid() && b in s.live && b.order == order && addr == AddrOf(start, b)
      modifies this`lists, this`s, nodes, bitmap
      ensures Settled(c) && c.order == freeOrder <= MAX_ORDER && freeAddr == AddrOf(start, c)
      ensures Release(s, c) == Free(old(s), b) && Contains(c, Down(b.index, b.order))
      ensures Pushed(lists, c) == FreedLists(old(lists), old(s), b)
    {
      freeAddr, freeOrder, c := addr, order, b;
      UpDown(b.index, b.order);
      assert InZone(b, top);
      while freeOrder < MAX_ORDER
        invariant Valid() && c in s.live && c.order == freeOrder <= MAX_ORDER && freeAddr == AddrOf(start, c)
        invariant Free(s, c) == Free(old(s), b) && Contains(c, Down(b.index, b.order))
        invariant FreedLists(lists, s, c) == FreedLists(old(lists), old(s), b)
      {
        HalvesCover(c, Down(b.index, b.order));
        var merged: bool;
        merged, freeAddr := Coalesce(freeAddr, freeOrder, c);
        if !merged {
          return;
        }
        c := Parent(c);
        freeOrder := freeOrder + 1;
      }
    }

    /** zone_dealloc of the live block `b`. */
    method ZoneDealloc(addr: nat, order: nat, ghost b: Block)
      requires Valid() && b in s.live && b.order == order && addr == AddrOf(start, b)
      modifies this`lists, this`s, nodes, bitmap
      ensures Valid() && s == Free(old(s), b) && lists == FreedLists(old(lists), old(s), b)
    {
      ghost var c;
      var freeAddr, freeOrder;
      freeAddr, freeOrder, c := CoalesceUp(addr, order, b);
      KeepsPlace(addr, freeAddr, freeOrder, c, b);
      assert Down(Up(addr, 12 + freeOrder), 12 + freeOrder) == freeAddr;
      PutBack(freeAddr, freeOrder, c);
    }

    /** The kassert after the loop of zone_dealloc holds. */
    lemma KeepsPlace(addr: nat, freeAddr: nat, freeOrder: nat, c: Block, b: Block)
      requires Static() && c.order == freeOrder <= MAX_ORDER && Contains(c, Down(b.index, b.order))
      requires addr == AddrOf(start, b) && freeAddr == AddrOf(start, c)
      ensures Down(Up(addr, 12 + freeOrder), 12 + freeOrder) == freeAddr
    {
      RoundedDown(start, c, b);
    }

    /** The end of zone_dealloc: the coalesced block goes to the front of its list. */
    method PutBack(addr: nat, order: nat, ghost c: Block)
      requires Settled(c) && c.order == order && addr == AddrOf(start, c)
      modifies this`lists, this`s, nodes
      ensures Valid() && s == Release(old(s), c) && lists == Pushed(old(lists), c)
    {
      ReleaseKeeps(s, c, top);
      FirstPage(c, top);
      var node := NodeAt(addr, c);
      PushFront(order, node, c);
      s := Release(s, c);
    }
  }

  // ---- The store through the NULL bitmap can happen

  method NewNodes(start: nat, n: nat) returns (row: seq<Node>)
    ensures |row| == n && Distinct(row)
    ensures forall i :: 0 <= i < n ==> fresh(row[i]) && row[i].addr == start + PAGE_SIZE * i
  {
    row := [];
    for i := 0 to n
      invariant |row| == i && Distinct(row)
      invariant forall j :: 0 <= j < i ==> fresh(row[j]) && row[j].addr == start + PAGE_SIZE * j
    {
      var node := new Node(start + PAGE_SIZE * i);
      row := row + [node];
    }
  }

  method NewMemory(addr: nat, pageCount: nat)
    returns (memory: seq<Node>, heads: seq<Node>, bytes: array<bv8>, data: array<nat>)
    requires pageCount > 1024 && 0 <= ZoneTop(addr, pageCount)
    ensures |memory| == Count(ZoneTop(addr, pageCount), 0) == data.Length && |heads| == MAX_ORDER + 1
    ensures forall p :: 0 <= p < |memory| ==>
      fresh(memory[p]) && memory[p].addr == ZoneStart(addr, pageCount) + PAGE_SIZE * p
    ensures forall o, p :: 0 <= o <= MAX_ORDER && 0 <= p < |memory| ==> heads[o] != memory[p]
    ensures Distinct(heads) && forall o :: 0 <= o <= MAX_ORDER ==> fresh(heads[o])
    ensures bytes.Length == BitmapPages(pageCount) * PAGE_SIZE && bytes as object != data
    ensures fresh(bytes) && fresh(data) && forall i :: 0 <= i < bytes.Length ==> bytes[i] == 0
  {
    var n, reserved := Count(ZoneTop(addr, pageCount), 0), BitmapPages(pageCount) * PAGE_SIZE;
    memory := NewNodes(ZoneStart(addr, pageCount), n);
    heads := NewNodes(0, MAX_ORDER + 1);
    bytes := new bv8[reserved](_ => 0);
    data := new nat[n];
  }

  method NewZone(addr: nat, pageCount: nat) returns (zone: Zone)
    requires pageCount > 1024 && addr % PAGE_SIZE == 0
    ensures fresh(zone) && fresh(zone.nodes) && fresh(zone.bitmap) && fresh(zone.content)
    ensures zone.Valid() && zone.top == ZoneTop(addr, pageCount) >= 1 && zone.s == Initial(zone.top)
    ensures zone.start == ZoneStart(addr, pageCount) && zone.lists == FreshLists(zone.top)
  {
    EveryRegion(addr, pageCount);
    var memory, heads, bytes, data := NewMemory(addr, pageCount);
    zone := new Zone(addr, pageCount, PerOrder, memory, heads, bytes, data);
    zone.ClearBits();
  }

  /** In every region zone_add accepts, even with the bitmaps laid out well and cleared, the first
      request for a largest block stores through the NULL bitmap. */
  method LargestRequest(addr: nat, pageCount: nat) returns (r: AllocResult)
    requires pageCount > 1024 && addr % PAGE_SIZE == 0
    ensures r == NullBitmap
  {
    var zone := NewZone(addr, pageCount);
    assert Block(MAX_ORDER, 0) in zone.s.free;
    r := zone.ZoneAlloc(MAX_ORDER);
  }

  lemma LastFirst(start: nat, top: nat, order: nat)
    requires top > 0 && order < MAX_ORDER
    ensures exists o :: order <= o <= MAX_ORDER && FreshLists(top)[o] != []
    ensures AddrOf(start, FirstOf(BestFit(FreshLists(top), order), order)) == start + (top - 1) * 0x40_0000
  {
    var ls := FreshLists(top);
    assert ls[MAX_ORDER][0] == top - 1;
    BestFitIs(ls, order, MAX_ORDER);
    BlockOffset(top - 1);
    FirstOfAddr(start, Block(MAX_ORDER, top - 1), order);
  }

  /** The first request for less is served from the last 4 MB of the zone, at their start. */
  method FirstRequest(addr: nat, pageCount: nat, order: nat) returns (r: AllocResult)
    requires pageCount > 1024 && addr % PAGE_SIZE == 0 && order < MAX_ORDER
    ensures r == Taken(ZoneStart(addr, pageCount) + (ZoneTop(addr, pageCount) - 1) * 0x40_0000)
  {
    var zone := NewZone(addr, pageCount);
    LastFirst(zone.start, zone.top, order);
    r := zone.ZoneAlloc(order);
  }
}
