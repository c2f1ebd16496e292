/** The arithmetic of zone_add (mm/frame_alloc.c): how much memory is set aside for the bitmaps,
    where each order's bitmap starts, and which pages the zone manages. */
module ZoneLayout {
  import opened Common
  import opened Bits
  import opened Buddy
  import opened ZoneAddr

  /** Line 160 of zone_add sizes every bitmap for the largest order; line 140, which reserves the
      memory, sizes each for its own order. */
  datatype Sizing = AsWritten | PerOrder

  /** Pairs of buddies of order `o`, and the bytes that hold one bit for each. */
  function Pairs(top: nat, o: nat): nat {
    Count(top, o + 1)
  }

  lemma PairInZone(b: Block, top: nat)
    requires InZone(b, top) && b.order < MAX_ORDER
    ensures b.index / 2 < Pairs(top, b.order)
  {
  }

  function PairBytes(top: nat, o: nat): nat {
    (Pairs(top, o) + 7) / 8
  }

  /** DIV_ROUNDUP(pages / (1 << order) / 2, 8) */
  function SizeFor(pages: nat, order: nat): nat {
    (Up(pages, order) / 2 + 7) / 8
  }

  function SizedAs(sizing: Sizing, o: nat): nat {
    if sizing.PerOrder? then o else MAX_ORDER
  }

  function BitmapSize(sizing: Sizing, top: nat, o: nat): nat {
    SizeFor(Count(top, 0), SizedAs(sizing, o))
  }

  /** Where the bitmap of order `o` starts: after those of the lower orders. */
  function BitmapBase(sizing: Sizing, top: nat, o: nat): nat {
    if o == 0 then 0 else BitmapBase(sizing, top, o - 1) + BitmapSize(sizing, top, o - 1)
  }

  /** The bitmaps of the orders below the largest are pairwise disjoint and inside their memory. */
  ghost predicate Layout(base: seq<nat>, top: nat, length: nat) {
    && |base| == MAX_ORDER
    && (forall o :: 0 <= o < MAX_ORDER ==> base[o] + PairBytes(top, o) <= length)
    && (forall o, o' :: 0 <= o < o' < MAX_ORDER ==>
          base[o] + PairBytes(top, o) <= base[o'] || base[o'] + PairBytes(top, o') <= base[o])
  }

  function Bases(sizing: Sizing, top: nat): seq<nat> {
    seq(MAX_ORDER, o requires 0 <= o < MAX_ORDER => BitmapBase(sizing, top, o))
  }

  lemma BaseAt(sizing: Sizing, top: nat, i: nat)
    requires i < MAX_ORDER
    ensures Bases(sizing, top)[i] == BitmapBase(sizing, top, i)
    ensures BitmapBase(sizing, top, i + 1) == BitmapBase(sizing, top, i) + BitmapSize(sizing, top, i)
  {
  }

  /** The bytes zone_add reserves for `pages` pages: orders 0 to `o`, each sized for itself. */
  function Reserved(pages: nat, o: nat): nat {
    SizeFor(pages, o) + if o == 0 then 0 else Reserved(pages, o - 1)
  }

  function BitmapPages(pages: nat): nat {
    (Reserved(pages, MAX_ORDER) + PAGE_SIZE - 1) / PAGE_SIZE
  }

  // ---- Bitmaps sized for their own order

  lemma {:induction false} UpOfCount(top: nat, o: nat)
    requires o <= MAX_ORDER
    ensures Up(Count(top, 0), o) == Count(top, o)
  {
    if o > 0 { UpOfCount(top, o - 1); }
  }

  lemma {:induction false} UpMonotone(x: nat, y: nat, k: nat)
    requires x <= y
    ensures Up(x, k) <= Up(y, k)
  {
    if k > 0 { UpMonotone(x, y, k - 1); }
  }

  lemma {:induction false} BasesGrow(top: nat, o: nat, o': nat)
    requires o < o' <= MAX_ORDER
    ensures BitmapBase(PerOrder, top, o) + PairBytes(top, o) <= BitmapBase(PerOrder, top, o')
  {
    UpOfCount(top, o' - 1);
    if o + 1 < o' { BasesGrow(top, o, o' - 1); }
  }

  lemma {:induction false} BasesFit(top: nat, pages: nat, o: nat)
    requires Count(top, 0) <= pages && o <= MAX_ORDER
    ensures BitmapBase(PerOrder, top, o) + SizeFor(pages, o) <= Reserved(pages, o)
  {
    if o > 0 {
      UpMonotone(Count(top, 0), pages, o - 1);
      BasesFit(top, pages, o - 1);
    }
  }

  /** Sized for their own order, the bitmaps are disjoint, hold every pair and fit in the reserved pages. */
  lemma PerOrderFits(top: nat, pages: nat)
    requires Count(top, 0) <= pages
    ensures Layout(Bases(PerOrder, top), top, BitmapPages(pages) * PAGE_SIZE)
  {
    BasesFit(top, pages, MAX_ORDER);
    forall o | 0 <= o < MAX_ORDER
      ensures BitmapBase(PerOrder, top, o) + PairBytes(top, o) <= Reserved(pages, MAX_ORDER)
    {
      BasesGrow(top, o, MAX_ORDER);
    }
    forall o, o' | 0 <= o < o' < MAX_ORDER
      ensures BitmapBase(PerOrder, top, o) + PairBytes(top, o) <= BitmapBase(PerOrder, top, o')
    {
      BasesGrow(top, o, o');
    }
  }

  // ---- Bitmaps sized as the code sizes them

  lemma SecondBase(top: nat)
    ensures BitmapBase(AsWritten, top, 1) == (top / 2 + 7) / 8
  {
    UpOfCount(top, MAX_ORDER);
    assert BitmapBase(AsWritten, top, 0) == 0;
  }

  lemma {:induction false} EmptyBase(o: nat)
    ensures BitmapBase(AsWritten, 0, o) == 0
  {
    UpOfCount(0, MAX_ORDER);
    if o > 0 { EmptyBase(o - 1); }
  }

  /** Sized as line 160 does, the bitmaps are disjoint only in a zone that manages nothing. */
  lemma AsWrittenFitsIffEmpty(top: nat, length: nat)
    ensures Layout(Bases(AsWritten, top), top, length) <==> top == 0
  {
    if top == 0 {
      forall o | 0 <= o < MAX_ORDER ensures BitmapBase(AsWritten, top, o) == 0 && PairBytes(top, o) == 0 {
        EmptyBase(o);
        EmptyCount(o + 1);
      }
    } else {
      FirstTwoMeet(top);
      Overlapping(Bases(AsWritten, top), top, length);
    }
  }

  /** The bitmaps of orders 0 and 1 share a byte. */
  ghost predicate FirstTwo(base: seq<nat>, top: nat) {
    |base| == MAX_ORDER && base[0] == 0 && base[1] < PairBytes(top, 0) && 0 < PairBytes(top, 1)
  }

  lemma FirstTwoMeet(top: nat)
    requires top > 0
    ensures FirstTwo(Bases(AsWritten, top), top)
  {
    SecondBase(top);
    SmallOrders(top);
    SecondInside(top, BitmapBase(AsWritten, top, 1), PairBytes(top, 0), PairBytes(top, 1));
    assert Bases(AsWritten, top)[1] == BitmapBase(AsWritten, top, 1);
  }

  lemma Overlapping(base: seq<nat>, top: nat, length: nat)
    requires FirstTwo(base, top)
    ensures !Layout(base, top, length)
  {
  }

  lemma SecondInside(top: nat, base: nat, bytes0: nat, bytes1: nat)
    requires top > 0 && base == (top / 2 + 7) / 8 && bytes0 == (512 * top + 7) / 8 && bytes1 == (256 * top + 7) / 8
    ensures base < bytes0 && 0 < bytes1
  {
  }

  lemma {:induction false} EmptyCount(o: nat)
    ensures Count(0, o) == 0
    decreases MAX_ORDER - o
  {
    if o < MAX_ORDER { EmptyCount(o + 1); }
  }

  lemma SmallOrders(top: nat)
    ensures Count(top, 2) == 256 * top && Count(top, 1) == 512 * top && Count(top, 0) == 1024 * top
  {
    assert Count(top, 8) == 4 * top;
    assert Count(top, 6) == 16 * top;
    assert Count(top, 4) == 64 * top;
  }

  /** What splitting leaves: blocks no smaller than the request, and the buddy of the block served. */
  lemma {:induction false} SplitToFree(s: State, b: Block, order: nat)
    requires order <= b.order
    ensures forall c :: c in SplitTo(s, b, order).free ==> c in s.free || order <= c.order
    ensures s.free <= SplitTo(s, b, order).free
    ensures order < b.order ==> Block(order, FirstOf(b, order).index + 1) in SplitTo(s, b, order).free
    decreases b.order
  {
    if order < b.order {
      SplitToFree(Split(s, b), Left(b), order);
      DownShift(b.index, b.order - order);
    }
  }

  /** A bit for each pair, at the place the layout gives it. */
  ghost predicate Describes(bit: (nat, nat) -> bool, sizing: Sizing, top: nat, free: set<Block>) {
    forall o: nat, pair: nat :: o < MAX_ORDER && pair < Pairs(top, o) ==> PairDescribed(bit, sizing, top, free, o, pair)
  }

  ghost predicate PairDescribed(bit: (nat, nat) -> bool, sizing: Sizing, top: nat, free: set<Block>, o: nat,
                                pair: nat) {
    bit(BitmapBase(sizing, top, o) + pair / 8, pair % 8) <==>
    (Block(o, 2 * pair) in free) != (Block(o, 2 * pair + 1) in free)
  }

  lemma FirstSplit(top: nat) returns (free: set<Block>)
    requires top > 0
    ensures free == AllocFrom(Initial(top), Block(MAX_ORDER, 0), 1).free
    ensures Block(1, 0) !in free && Block(1, 1) in free && forall c :: c in free ==> c.order > 0
  {
    var b := Block(MAX_ORDER, 0);
    DownIsShift(0, 9);
    assert FirstOf(b, 1) == Block(1, 0);
    InitialInv(top);
    AllocKeeps(Initial(top), b, 1, top);
    SplitToFree(Take(Initial(top), b), b, 1);
    free := AllocFrom(Initial(top), b, 1).free;
  }

  lemma SharedBit(top: nat, bit: (nat, nat) -> bool, free: set<Block>)
    requires top > 0 && Block(1, 0) !in free && Block(1, 1) in free && forall c :: c in free ==> c.order > 0
    ensures !Describes(bit, AsWritten, top, free)
  {
    SecondBase(top);
    SmallOrders(top);
    var at := BitmapBase(AsWritten, top, 1);
    var pair := 8 * at;
    assert pair < Pairs(top, 0) && pair / 8 == at && pair % 8 == 0;
    assert PairDescribed(bit, AsWritten, top, free, 0, pair) ==> !bit(at, 0);
    assert PairDescribed(bit, AsWritten, top, free, 1, 0) ==> bit(at, 0);
  }

  /** With the bitmaps of line 160, one request of order 1 in a fresh zone that manages anything
      reaches a state that no contents of the bitmap memory can describe. */
  lemma AsWrittenCannotDescribe(top: nat, bit: (nat, nat) -> bool)
    requires top > 0
    ensures !Describes(bit, AsWritten, top, AllocFrom(Initial(top), Block(MAX_ORDER, 0), 1).free)
  {
    var free := FirstSplit(top);
    SharedBit(top, bit, free);
  }

  // ---- The pages a zone manages

  const BLOCK_BYTES: nat := PAGE_SIZE * 1024

  function RoundUp(a: nat, n: nat): nat
    requires n > 0
  {
    (a + n - 1) / n * n
  }

  /** start_addr, end_addr and the number of largest blocks, for a region of `pages` pages at `addr`. */
  function ZoneStart(addr: nat, pages: nat): nat {
    RoundUp(addr + PAGE_SIZE * BitmapPages(pages), BLOCK_BYTES)
  }

  function ZoneEnd(addr: nat, pages: nat): int {
    (ZoneStart(addr, pages) + (pages - BitmapPages(pages)) * PAGE_SIZE) / BLOCK_BYTES * BLOCK_BYTES
  }

  function ZoneTop(addr: nat, pages: nat): int {
    (ZoneEnd(addr, pages) - ZoneStart(addr, pages)) / BLOCK_BYTES
  }

  lemma {:induction false} ReservedBound(pages: nat, o: nat)
    ensures SizeFor(pages, 0) <= Reserved(pages, o)
    ensures 16 * Reserved(pages, o) <= 2 * pages - Up(pages, o) + 15 * (o + 1) + o
  {
    if o > 0 { ReservedBound(pages, o - 1); }
  }

  lemma BitmapSmall(pages: nat)
    requires pages > 1024
    ensures BitmapPages(pages) < pages
  {
    ReservedBound(pages, MAX_ORDER);
  }

  /** The zone starts aligned after the bitmaps and holds whole blocks, no more pages than are left. */
  lemma ZoneShape(addr: nat, pages: nat)
    requires pages > 1024
    ensures StartAligned(ZoneStart(addr, pages)) && addr + PAGE_SIZE * BitmapPages(pages) <= ZoneStart(addr, pages)
    ensures ZoneTop(addr, pages) == (pages - BitmapPages(pages)) / 1024
    ensures ZoneEnd(addr, pages) == ZoneStart(addr, pages) + BLOCK_BYTES * ZoneTop(addr, pages)
    ensures 0 <= 1024 * ZoneTop(addr, pages) <= pages
  {
    BitmapSmall(pages);
    var a := addr + PAGE_SIZE * BitmapPages(pages);
    var q := (a + BLOCK_BYTES - 1) / BLOCK_BYTES;
    assert ZoneStart(addr, pages) == q * BLOCK_BYTES;
    var left := pages - BitmapPages(pages);
    assert (q * BLOCK_BYTES + left * PAGE_SIZE) / BLOCK_BYTES == q + left / 1024;
  }

  lemma LeavesBlock(pages: nat, reserved: nat, bitmap: nat)
    requires pages > 1024 && 16 * reserved <= 2 * pages + 15 * (MAX_ORDER + 1) + MAX_ORDER
    requires bitmap == (reserved + PAGE_SIZE - 1) / PAGE_SIZE
    ensures bitmap + 1024 <= pages
  {
    assert PAGE_SIZE * bitmap <= reserved + PAGE_SIZE - 1;
  }

  /** Every region that zone_add is given manages at least one largest block. */
  lemma NeverEmpty(addr: nat, pages: nat)
    requires pages > 1024
    ensures ZoneTop(addr, pages) >= 1
  {
    ReservedBound(pages, MAX_ORDER);
    LeavesBlock(pages, Reserved(pages, MAX_ORDER), BitmapPages(pages));
    ZoneShape(addr, pages);
  }

  /** In every region, the bitmaps of a zone fit as line 140 sizes them and meet as line 160 does. */
  lemma EveryRegion(addr: nat, pages: nat)
    requires pages > 1024
    ensures ZoneTop(addr, pages) >= 1
    ensures Layout(Bases(PerOrder, ZoneTop(addr, pages)), ZoneTop(addr, pages), BitmapPages(pages) * PAGE_SIZE)
    ensures !Layout(Bases(AsWritten, ZoneTop(addr, pages)), ZoneTop(addr, pages), BitmapPages(pages) * PAGE_SIZE)
  {
    NeverEmpty(addr, pages);
    ZoneShape(addr, pages);
    var top: nat := ZoneTop(addr, pages);
    SmallOrders(top);
    PerOrderFits(top, pages);
    AsWrittenFitsIffEmpty(top, BitmapPages(pages) * PAGE_SIZE);
  }

  /** The zone stays inside its region exactly when the pages lost to alignment would not have
      filled another block anyway: the end is measured from the aligned start, not from `addr`. */
  lemma ZoneInsideRegion(addr: nat, pages: nat)
    requires pages > 1024 && addr % PAGE_SIZE == 0
    ensures ZoneEnd(addr, pages) <= addr + pages * PAGE_SIZE <==>
            (ZoneStart(addr, pages) - addr) / PAGE_SIZE - BitmapPages(pages) <= (pages - BitmapPages(pages)) % 1024
  {
    ZoneShape(addr, pages);
    EndsInside(addr, pages, ZoneStart(addr, pages), ZoneEnd(addr, pages), BitmapPages(pages), ZoneTop(addr, pages));
  }

  lemma EndsInside(addr: nat, pages: nat, start: nat, end: int, bitmap: nat, top: int)
    requires addr % PAGE_SIZE == 0 && StartAligned(start) && addr <= start && bitmap <= pages
    requires top == (pages - bitmap) / 1024 && end == start + BLOCK_BYTES * top
    ensures end <= addr + pages * PAGE_SIZE <==> (start - addr) / PAGE_SIZE - bitmap <= (pages - bitmap) % 1024
  {
    var lost := (start - addr) / PAGE_SIZE;
    AlignedStart(start);
    LostPages(addr, start, lost);
    Balance(lost, bitmap, pages, top, (pages - bitmap) % 1024);
  }

  lemma AlignedStart(start: nat)
    requires StartAligned(start)
    ensures start % PAGE_SIZE == 0
  {
  }

  lemma Balance(lost: int, bitmap: nat, pages: nat, top: int, rest: int)
    requires bitmap <= pages && top == (pages - bitmap) / 1024 && rest == (pages - bitmap) % 1024
    ensures lost * PAGE_SIZE + BLOCK_BYTES * top <= pages * PAGE_SIZE <==> lost - bitmap <= rest
  {
    assert pages - bitmap == 1024 * top + rest;
  }

  lemma LostPages(addr: nat, start: nat, lost: int)
    requires addr % PAGE_SIZE == 0 && start % PAGE_SIZE == 0 && lost == (start - addr) / PAGE_SIZE
    ensures start == addr + lost * PAGE_SIZE
  {
  }

  lemma OneBitmapPage(pages: nat)
    requires 2 <= pages <= 0x7000
    ensures BitmapPages(pages) == 1
  {
    ReservedBound(pages, MAX_ORDER);
    OnePage(pages, SizeFor(pages, 0), Reserved(pages, MAX_ORDER), Up(pages, MAX_ORDER));
  }

  lemma OnePage(pages: nat, size: nat, reserved: nat, up: nat)
    requires 2 <= pages <= 0x7000 && size == (pages / 2 + 7) / 8 && size <= reserved
    requires 16 * reserved <= 2 * pages - up + 15 * (MAX_ORDER + 1) + MAX_ORDER
    ensures (reserved + PAGE_SIZE - 1) / PAGE_SIZE == 1
  {
  }

  lemma RoundUpOnce(a: nat)
    requires 0 < a <= BLOCK_BYTES
    ensures RoundUp(0 + a, BLOCK_BYTES) == BLOCK_BYTES
  {
    DivUnique(a + BLOCK_BYTES - 1, BLOCK_BYTES, 1, a - 1);
  }

  lemma WholeBlocks(left: nat, top: nat, start: nat, end: nat)
    requires left == 2048 && top == left / 1024 && end == start + BLOCK_BYTES * top
    ensures end == start + 2 * BLOCK_BYTES
  {
  }

  lemma TwoBlocks(pages: nat)
    requires pages == 2049
    ensures ZoneEnd(0, pages) == ZoneStart(0, pages) + 2 * BLOCK_BYTES
  {
    OneBitmapPage(pages);
    ZoneShape(0, pages);
    WholeBlocks(pages - BitmapPages(pages), ZoneTop(0, pages), ZoneStart(0, pages), ZoneEnd(0, pages));
  }

  /** A 4 MB aligned region of 2049 pages gets a zone that ends 1023 pages past the region. */
  lemma ZoneOutsideRegion(pages: nat)
    requires pages == 2049
    ensures ZoneStart(0, pages) == BLOCK_BYTES && ZoneEnd(0, pages) == pages * PAGE_SIZE + 1023 * PAGE_SIZE
  {
    TwoBlocks(pages);
    OneBitmapPage(pages);
    RoundUpOnce(PAGE_SIZE * BitmapPages(pages));
  }

  // ---- The zones of several regions

  lemma SomeBitmap(pages: nat)
    requires pages > 1024
    ensures BitmapPages(pages) >= 1
  {
    ReservedBound(pages, MAX_ORDER);
  }

  lemma EndBelow(addr: nat, pages: nat, bitmap: nat, a: nat, start: nat, end: nat)
    requires bitmap <= pages && a == addr + PAGE_SIZE * bitmap && start < a + BLOCK_BYTES
    requires end <= start + (pages - bitmap) * PAGE_SIZE
    ensures end < addr + pages * PAGE_SIZE + BLOCK_BYTES
  {
  }

  lemma NoBlockBetween(x: nat, y: nat, limit: nat)
    requires x % BLOCK_BYTES == 0 && y % BLOCK_BYTES == 0 && x < limit + BLOCK_BYTES && limit <= y
    ensures x <= y
  {
  }

  /** A zone ends less than one block after its region. */
  lemma EndsSoon(addr: nat, pages: nat)
    requires pages > 1024
    ensures 0 <= ZoneEnd(addr, pages) < addr + pages * PAGE_SIZE + BLOCK_BYTES
    ensures ZoneEnd(addr, pages) % BLOCK_BYTES == 0
  {
    BitmapSmall(pages);
    ZoneShape(addr, pages);
    var a, start := addr + PAGE_SIZE * BitmapPages(pages), ZoneStart(addr, pages);
    RoundedUp(a);
    RoundedEnd(start + (pages - BitmapPages(pages)) * PAGE_SIZE);
    EndBelow(addr, pages, BitmapPages(pages), a, start, ZoneEnd(addr, pages));
  }

  lemma RoundedUp(a: nat)
    ensures RoundUp(a, BLOCK_BYTES) < a + BLOCK_BYTES && RoundUp(a, BLOCK_BYTES) >= a
    ensures RoundUp(a, BLOCK_BYTES) % BLOCK_BYTES == 0
  {
  }

  lemma RoundedEnd(x: nat)
    ensures x / BLOCK_BYTES * BLOCK_BYTES <= x && x / BLOCK_BYTES * BLOCK_BYTES % BLOCK_BYTES == 0
  {
  }

  /** The zones of disjoint regions never meet, although a zone may leave its region. */
  lemma ZonesApart(addr: nat, pages: nat, addr': nat, pages': nat)
    requires pages > 1024 && pages' > 1024 && addr + pages * PAGE_SIZE <= addr'
    ensures ZoneEnd(addr, pages) <= ZoneStart(addr', pages')
  {
    EndsSoon(addr, pages);
    RoundedUp(addr' + PAGE_SIZE * BitmapPages(pages'));
    NoBlockBetween(ZoneEnd(addr, pages), ZoneStart(addr', pages'), addr');
  }

  /** Byte `x` is in the zone of the region, in the pages set aside for its bitmaps. */
  predicate InZoneBytes(addr: nat, pages: nat, x: nat) {
    ZoneStart(addr, pages) <= x < ZoneEnd(addr, pages)
  }

  predicate InBitmapBytes(addr: nat, pages: nat, x: nat) {
    addr <= x < addr + PAGE_SIZE * BitmapPages(pages)
  }

  /** Of two regions one after the other, the first one's zone holds bitmap bytes of the second if and
      only if it leaves its region. */
  lemma BitmapsInZone(addr: nat, pages: nat, pages': nat)
    requires pages > 1024 && pages' > 1024
    ensures var addr' := addr + pages * PAGE_SIZE;
      (exists x :: InZoneBytes(addr, pages, x) && InBitmapBytes(addr', pages', x)) <==> ZoneEnd(addr, pages) > addr'
  {
    var addr' := addr + pages * PAGE_SIZE;
    SomeBitmap(pages');
    NeverEmpty(addr, pages);
    ZoneShape(addr, pages);
    if ZoneEnd(addr, pages) > addr' {
      var x := if addr' < ZoneStart(addr, pages) then ZoneStart(addr, pages) else addr';
      StartsBefore(addr, pages);
      assert InZoneBytes(addr, pages, x) && InBitmapBytes(addr', pages', x);
    }
  }

  lemma StartsBefore(addr: nat, pages: nat)
    requires pages > 1024 && ZoneEnd(addr, pages) > addr + pages * PAGE_SIZE
    ensures ZoneStart(addr, pages) <= addr + pages * PAGE_SIZE
  {
    BitmapSmall(pages);
    RoundedUp(addr + PAGE_SIZE * BitmapPages(pages));
    SmallBitmap(pages);
  }

  lemma SmallBitmap(pages: nat)
    requires pages > 1024
    ensures BitmapPages(pages) + 1024 <= pages
  {
    ReservedBound(pages, MAX_ORDER);
    LeavesBlock(pages, Reserved(pages, MAX_ORDER), BitmapPages(pages));
  }

  /** The zone of 2049 pages at address 0 holds the bitmaps of a region right behind it. */
  lemma BitmapsOverrun(pages: nat)
    requires 1024 < pages <= 0x7000
    ensures forall x :: InBitmapBytes(2049 * PAGE_SIZE, pages, x) ==> InZoneBytes(0, 2049, x)
  {
    ZoneOutsideRegion(2049);
    OneBitmapPage(pages);
  }
}
