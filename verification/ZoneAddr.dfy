/** Where a block of a zone lies in memory (mm/frame_alloc.c), and why flipping one bit of its
    address reaches its buddy. */
module ZoneAddr {
  import opened Common
  import opened Bits
  import opened Buddy

  /** Zones start at a multiple of the largest block. */
  ghost predicate StartAligned(start: nat) {
    start % (PAGE_SIZE * 1024) == 0
  }

  function AddrOf(start: nat, b: Block): nat {
    start + PAGE_SIZE * Down(b.index, b.order)
  }

  /** FLIP_BIT of common.h on an address: exclusive or with `1 << k`. */
  function FlipAddrBit(a: nat, k: nat): int {
    if Up(a, k) % 2 == 0 then a + Pow2(k) else a - Pow2(k)
  }

  /** Bit `j` of an address */
  predicate AddrBit(a: nat, j: nat) {
    Up(a, j) % 2 == 1
  }

  /** A set bit may be taken away. */
  lemma {:induction false} BitBelow(a: nat, k: nat)
    ensures AddrBit(a, k) ==> Pow2(k) <= a
  {
    if k > 0 {
      UpHalf(a, k);
      BitBelow(a / 2, k - 1);
    }
  }

  lemma FlipHalves(a: nat, k: nat)
    requires k > 0
    ensures FlipAddrBit(a, k) == 2 * FlipAddrBit(a / 2, k - 1) + a % 2
  {
    UpHalf(a, k);
  }

  /** FLIP_BIT changes bit `k` and no other. */
  lemma {:induction false} FlipIsXor(a: nat, k: nat, j: nat)
    ensures FlipAddrBit(a, k) >= 0 && (AddrBit(FlipAddrBit(a, k), j) <==> AddrBit(a, j) != (j == k))
    decreases k
  {
    BitBelow(a, k);
    var f: nat := FlipAddrBit(a, k);
    if k == 0 {
      FlipLowBit(a, f, j);
    } else {
      FlipHalves(a, k);
      if j > 0 {
        FlipIsXor(a / 2, k - 1, j - 1);
        BitHalf(f, j);
        BitHalf(a, j);
        assert f / 2 == FlipAddrBit(a / 2, k - 1);
      }
    }
  }

  lemma BitHalf(a: nat, j: nat)
    requires j > 0
    ensures AddrBit(a, j) == AddrBit(a / 2, j - 1)
  {
    UpHalf(a, j);
  }

  lemma FlipLowBit(a: nat, f: nat, j: nat)
    requires f == if a % 2 == 0 then a + 1 else a - 1
    ensures AddrBit(f, j) <==> AddrBit(a, j) != (j == 0)
  {
    assert f / 2 == a / 2;
    if j > 0 {
      BitHalf(f, j);
      BitHalf(a, j);
    }
  }

  /** The block index the allocator computes from an address. */
  function IndexOf(start: nat, addr: int, order: nat): int {
    (addr - start) / (Pow2(order) * PAGE_SIZE)
  }

  lemma {:induction false} DownIsShift(x: nat, k: nat)
    ensures Down(x, k) == x * Pow2(k)
  {
    if k > 0 {
      DownIsShift(x, k - 1);
      assert 2 * (x * Pow2(k - 1)) == x * (2 * Pow2(k - 1));
    }
  }

  lemma IndexOfAddr(start: nat, b: Block)
    ensures IndexOf(start, AddrOf(start, b), b.order) == b.index
  {
    DownIsShift(b.index, b.order);
    var d := Pow2(b.order) * PAGE_SIZE;
    assert PAGE_SIZE * (b.index * Pow2(b.order)) == b.index * d;
    DivExact(b.index, d);
  }

  lemma {:induction false} DownPlus(x: nat, y: nat, k: nat)
    ensures Down(x + y, k) == Down(x, k) + Down(y, k)
  {
    if k > 0 { DownPlus(x, y, k - 1); }
  }

  lemma {:induction false} DownAdd(x: nat, j: nat, k: nat)
    ensures Down(x, j + k) == Down(Down(x, j), k)
  {
    if k > 0 { DownAdd(x, j, k - 1); }
  }

  lemma PageShift(x: nat)
    ensures Down(x, 12) == PAGE_SIZE * x && Down(x, 22) == PAGE_SIZE * 1024 * x
  {
    DownIsShift(x, 12);
    DownIsShift(x, 22);
    Pow2Add(12, 10);
    assert Pow2(10) == 1024 && Pow2(12) == PAGE_SIZE;
  }

  lemma BlockOffset(i: nat)
    ensures Down(i, MAX_ORDER) == 1024 * i
  {
    DownIsShift(i, MAX_ORDER);
    assert Pow2(10) == 1024;
  }

  /** In an aligned zone the address of a block, shifted by its size, is its index plus an even number. */
  lemma AddrShifted(start: nat, b: Block) returns (half: nat)
    requires StartAligned(start) && b.order < MAX_ORDER
    ensures AddrOf(start, b) == Down(2 * half + b.index, 12 + b.order)
    ensures half == Down(start / (PAGE_SIZE * 1024), 9 - b.order)
  {
    var s, o := start / (PAGE_SIZE * 1024), b.order;
    half := Down(s, 9 - o);
    PageShift(s);
    DownAdd(s, 10 - o, 12 + o);
    PageShift(Down(b.index, o));
    DownAdd(b.index, o, 12);
    DownPlus(2 * half, b.index, 12 + o);
  }

  /** For an aligned zone, flipping bit 12 + order of a block's address gives its buddy's address. */
  lemma BuddyAddr(start: nat, b: Block)
    requires StartAligned(start) && b.order < MAX_ORDER
    ensures FlipAddrBit(AddrOf(start, b), 12 + b.order) == AddrOf(start, BuddyOf(b))
  {
    var k := 12 + b.order;
    var half := AddrShifted(start, b);
    var half' := AddrShifted(start, BuddyOf(b));
    FlipLowest(2 * half + b.index, k);
  }

  /** Flipping the lowest bit that is not zero by position. */
  lemma FlipLowest(x: nat, k: nat)
    ensures FlipAddrBit(Down(x, k), k) == Down(if x % 2 == 0 then x + 1 else x - 1, k)
  {
    UpDown(x, k);
    DownNext(x, k);
    if x > 0 { DownNext(x - 1, k); }
  }

  /** The lower of a block and its buddy is where the block of both starts. */
  lemma ParentAddr(start: nat, c: Block)
    requires StartAligned(start) && c.order < MAX_ORDER
    ensures AddrOf(start, Parent(c)) ==
      if AddrOf(start, BuddyOf(c)) < AddrOf(start, c) then AddrOf(start, BuddyOf(c)) else AddrOf(start, c)
  {
    DownShift(c.index / 2, c.order + 1);
    if c.index % 2 == 0 { DownNext(c.index, c.order); } else { DownNext(c.index - 1, c.order); }
  }

  /** The first half of a block starts where the block starts. */
  lemma LeftAddr(start: nat, c: Block)
    requires c.order > 0
    ensures AddrOf(start, Left(c)) == AddrOf(start, c)
  {
    DownShift(c.index, c.order);
  }

  /** So does the part that is kept when a block is split down. */
  lemma {:induction false} FirstOfAddr(start: nat, c: Block, order: nat)
    requires order <= c.order
    ensures AddrOf(start, FirstOf(c, order)) == AddrOf(start, c)
    decreases c.order - order
  {
    if order < c.order {
      LeftAddr(start, c);
      FirstOfAddr(start, Left(c), order);
      DownShift(c.index, c.order - order);
    }
  }

  lemma {:induction false} DownNext(x: nat, k: nat)
    ensures Down(x + 1, k) == Down(x, k) + Pow2(k)
  {
    if k > 0 { DownNext(x, k - 1); }
  }

  /** A block's pages are consecutive. */
  lemma {:induction false} PagesOfBlock(b: Block, p: nat)
    ensures Contains(b, p) <==> Down(b.index, b.order) <= p < Down(b.index, b.order) + Pow2(b.order)
    decreases b.order
  {
    if b.order > 0 {
      HalvesCover(b, p);
      PagesOfBlock(Left(b), p);
      PagesOfBlock(Right(b), p);
      DownShift(b.index, b.order);
      DownNext(2 * b.index, b.order - 1);
    }
  }

  /** The address of a block, rounded down to the size of a block `c` around it, is that of `c`. */
  lemma RoundedDown(start: nat, c: Block, b: Block)
    requires StartAligned(start) && c.order <= MAX_ORDER && Contains(c, Down(b.index, b.order))
    ensures Down(Up(AddrOf(start, b), 12 + c.order), 12 + c.order) == AddrOf(start, c)
  {
    var k, p := 12 + c.order, Down(b.index, b.order);
    var z := ShiftedStart(start, c);
    PagesOfBlock(c, p);
    Pow2Add(12, c.order);
    assert Pow2(12) == PAGE_SIZE;
    InsideBytes(p, Down(c.index, c.order), Pow2(c.order), Pow2(k));
    PagesOfBlock(Block(k, z), AddrOf(start, b));
  }

  /** The address of a block is a multiple of its size. */
  lemma ShiftedStart(start: nat, c: Block) returns (z: nat)
    requires StartAligned(start) && c.order <= MAX_ORDER
    ensures AddrOf(start, c) == Down(z, 12 + c.order)
  {
    var s, k := start / (PAGE_SIZE * 1024), 12 + c.order;
    PageShift(s);
    DownAdd(s, 10 - c.order, k);
    PageShift(Down(c.index, c.order));
    DownAdd(c.index, c.order, 12);
    z := Down(s, 10 - c.order) + c.index;
    DownPlus(Down(s, 10 - c.order), c.index, k);
  }

  lemma InsideBytes(p: nat, first: nat, n: nat, bytes: nat)
    requires first <= p < first + n && bytes == PAGE_SIZE * n
    ensures PAGE_SIZE * first <= PAGE_SIZE * p < PAGE_SIZE * first + bytes
  {
  }
}
