/** The buddy system of mm/frame_alloc.c as a state of blocks.  A zone of `top` blocks of the
    largest order is cut into blocks; each is free or live.  Pages are numbered from the zone's
    start, and a block is named by its order and its index among the blocks of that order. */
module Buddy {

  const MAX_ORDER: nat := 10

  datatype Block = Block(order: nat, index: nat)

  datatype State = State(free: set<Block>, live: set<Block>)

  /** `x` without its `k` low bits. */
  function Up(x: nat, k: nat): nat {
    if k == 0 then x else Up(x, k - 1) / 2
  }

  /** `x` with `k` zero bits appended. */
  function Down(x: nat, k: nat): nat {
    if k == 0 then x else 2 * Down(x, k - 1)
  }

  /** How many blocks of order `o` fit in a zone. */
  function Count(top: nat, o: nat): nat
    decreases MAX_ORDER - o
  {
    if o >= MAX_ORDER then top else 2 * Count(top, o + 1)
  }

  function BuddyOf(b: Block): Block {
    Block(b.order, if b.index % 2 == 0 then b.index + 1 else b.index - 1)
  }

  function Parent(b: Block): Block {
    Block(b.order + 1, b.index / 2)
  }

  function Left(b: Block): Block
    requires b.order > 0
  {
    Block(b.order - 1, 2 * b.index)
  }

  function Right(b: Block): Block
    requires b.order > 0
  {
    Block(b.order - 1, 2 * b.index + 1)
  }

  ghost predicate Contains(b: Block, p: nat) {
    Up(p, b.order) == b.index
  }

  ghost predicate InZone(b: Block, top: nat) {
    b.order <= MAX_ORDER && b.index < Count(top, b.order)
  }

  ghost predicate Mapped(s: State, p: nat) {
    exists b :: b in s.free + s.live && Contains(b, p)
  }

  /** Page `p` lies in a free block. */
  ghost predicate FreePage(s: State, p: nat) {
    exists b :: b in s.free && Contains(b, p)
  }

  ghost predicate AllFree(s: State, b: Block) {
    forall p: nat :: Contains(b, p) ==> FreePage(s, p)
  }

  ghost predicate NoOverlap(s: State) {
    forall b, c, p: nat :: b in s.free + s.live && c in s.free + s.live && Contains(b, p) && Contains(c, p) ==> b == c
  }

  /** Free and live blocks tile the zone and no two buddies are both free. */
  ghost predicate Inv(s: State, top: nat) {
    && s.free !! s.live
    && (forall b :: b in s.free + s.live ==> InZone(b, top))
    && (forall p: nat :: p < Count(top, 0) ==> Mapped(s, p))
    && NoOverlap(s)
    && (forall b :: b in s.free && b.order < MAX_ORDER ==> BuddyOf(b) !in s.free)
  }

  // The four elementary moves of the allocator.

  function Take(s: State, b: Block): State {
    State(s.free - {b}, s.live + {b})
  }

  function Release(s: State, b: Block): State {
    State(s.free + {b}, s.live - {b})
  }

  function Split(s: State, b: Block): State
    requires b.order > 0
  {
    State(s.free + {Right(b)}, s.live - {b} + {Left(b)})
  }

  function Merge(s: State, b: Block): State {
    State(s.free - {BuddyOf(b)}, s.live - {b} + {Parent(b)})
  }

  /** Cut the live block `b` down to `order`, always keeping the first half. */
  function SplitTo(s: State, b: Block, order: nat): State
    requires order <= b.order
    decreases b.order
  {
    if b.order == order then s else SplitTo(Split(s, b), Left(b), order)
  }

  function FirstOf(b: Block, order: nat): Block
    requires order <= b.order
  {
    Block(order, Down(b.index, b.order - order))
  }

  /** Serve an allocation of `order` from the free block `b`. */
  function AllocFrom(s: State, b: Block, order: nat): State
    requires order <= b.order
  {
    SplitTo(Take(s, b), b, order)
  }

  /** Free the live block `b`, merging with free buddies as far up as they go. */
  function Free(s: State, b: Block): State
    decreases MAX_ORDER - b.order
  {
    if b.order < MAX_ORDER && BuddyOf(b) in s.free then Free(Merge(s, b), Parent(b)) else Release(s, b)
  }

  /** A zone in which nothing has been allocated. */
  function Initial(top: nat): State {
    State(set i | 0 <= i < top :: Block(MAX_ORDER, i), {})
  }

  // ---- Each move keeps the invariant

  lemma HalvesCover(b: Block, p: nat)
    ensures Contains(Parent(b), p) <==> Contains(b, p) || Contains(BuddyOf(b), p)
    ensures b.order > 0 ==> (Contains(b, p) <==> Contains(Left(b), p) || Contains(Right(b), p))
  {
    assert Up(p, b.order + 1) == Up(p, b.order) / 2;
  }

  lemma FirstPage(b: Block, top: nat)
    requires InZone(b, top)
    ensures Contains(b, Down(b.index, b.order)) && Down(b.index, b.order) < Count(top, 0)
  {
    UpDown(b.index, b.order);
    DownInZone(b, top);
  }

  lemma {:induction false} UpDown(x: nat, k: nat)
    ensures Up(Down(x, k), k) == x
  {
    if k > 0 {
      UpHalf(Down(x, k), k);
      UpDown(x, k - 1);
    }
  }

  lemma {:induction false} UpHalf(x: nat, k: nat)
    requires k > 0
    ensures Up(x, k) == Up(x / 2, k - 1)
  {
    if k > 1 { UpHalf(x, k - 1); }
  }

  lemma {:induction false} DownInZone(b: Block, top: nat)
    requires InZone(b, top)
    ensures Down(b.index, b.order) < Count(top, 0)
    decreases b.order
  {
    if b.order > 0 {
      DownShift(b.index, b.order);
      DownInZone(Left(b), top);
    }
  }

  lemma HalvesInZone(b: Block, top: nat)
    requires InZone(b, top) && b.order > 0
    ensures InZone(Left(b), top) && InZone(Right(b), top) && BuddyOf(Left(b)) == Right(b)
  {
    CountBelow(top, b.order - 1);
    EvenAndOdd(b.index);
  }

  lemma CountBelow(top: nat, o: nat)
    requires o < MAX_ORDER
    ensures Count(top, o) == 2 * Count(top, o + 1)
  {
  }

  lemma EvenAndOdd(i: nat)
    ensures 2 * i % 2 == 0 && (2 * i + 1) % 2 == 1
  {
  }

  lemma {:induction false} DownShift(x: nat, k: nat)
    requires k > 0
    ensures Down(x, k) == Down(2 * x, k - 1)
  {
    if k > 1 { DownShift(x, k - 1); }
  }

  lemma TakeKeeps(s: State, b: Block, top: nat)
    requires Inv(s, top) && b in s.free
    ensures Inv(Take(s, b), top)
  {
    assert Take(s, b).free + Take(s, b).live == s.free + s.live;
    forall p: nat | p < Count(top, 0)
      ensures Mapped(Take(s, b), p)
    {
      assert Mapped(s, p);
    }
  }

  lemma ReleaseKeeps(s: State, b: Block, top: nat)
    requires Inv(s, top) && b in s.live
    requires b.order < MAX_ORDER ==> BuddyOf(b) !in s.free
    ensures Inv(Release(s, b), top)
  {
    assert Release(s, b).free + Release(s, b).live == s.free + s.live;
    forall p: nat | p < Count(top, 0)
      ensures Mapped(Release(s, b), p)
    {
      assert Mapped(s, p);
    }
  }

  lemma SplitKeeps(s: State, b: Block, top: nat)
    requires Inv(s, top) && b in s.live && b.order > 0
    ensures Inv(Split(s, b), top)
  {
    HalvesAreNew(s, b, top);
    assert Split(s, b).free !! Split(s, b).live;
    SplitCovers(s, b, top);
    SplitNoOverlap(s, b, top);
    assert BuddyOf(Right(b)) == Left(b);
  }

  lemma SplitCovers(s: State, b: Block, top: nat)
    requires Inv(s, top) && b in s.live && b.order > 0
    ensures forall p: nat :: p < Count(top, 0) ==> Mapped(Split(s, b), p)
  {
    var t := Split(s, b);
    forall p: nat | p < Count(top, 0)
      ensures Mapped(t, p)
    {
      assert Mapped(s, p);
      var c :| c in s.free + s.live && Contains(c, p);
      HalvesCover(b, p);
      var d := if c != b then c else if Contains(Left(b), p) then Left(b) else Right(b);
      assert d in t.free + t.live;
    }
  }

  lemma HalvesAreNew(s: State, b: Block, top: nat)
    requires Inv(s, top) && b in s.live && b.order > 0
    ensures Left(b) !in s.free + s.live && Right(b) !in s.free + s.live
  {
    FirstPage(Left(b), top);
    HalvesCover(b, Down(Left(b).index, b.order - 1));
    FirstPage(Right(b), top);
    HalvesCover(b, Down(Right(b).index, b.order - 1));
  }

  lemma SplitNoOverlap(s: State, b: Block, top: nat)
    requires Inv(s, top) && b in s.live && b.order > 0
    ensures NoOverlap(Split(s, b))
  {
    var t := Split(s, b);
    forall c, d, p: nat | c in t.free + t.live && d in t.free + t.live && Contains(c, p) && Contains(d, p)
      ensures c == d
    {
      HalvesCover(b, p);
    }
  }

  lemma MergeKeeps(s: State, b: Block, top: nat)
    requires Inv(s, top) && b in s.live && b.order < MAX_ORDER && BuddyOf(b) in s.free
    ensures Inv(Merge(s, b), top)
  {
    var t := Merge(s, b);
    forall p: nat
      ensures Contains(Parent(b), p) <==> Contains(b, p) || Contains(BuddyOf(b), p)
    {
      HalvesCover(b, p);
    }
    forall p: nat | p < Count(top, 0)
      ensures Mapped(t, p)
    {
      assert Mapped(s, p);
      assert Parent(b) in t.live;
    }
    FirstPage(b, top);
    MergeNoOverlap(s, b, top);
    NothingAbove(s, b, Parent(b), top);
  }

  /** No block that strictly contains the block `b` of the state is in it too. */
  lemma NothingAbove(s: State, b: Block, c: Block, top: nat)
    requires Inv(s, top) && b in s.free + s.live && c == Parent(b)
    ensures c !in s.free + s.live
  {
    FirstPage(b, top);
    HalvesCover(b, Down(b.index, b.order));
  }

  lemma MergeNoOverlap(s: State, b: Block, top: nat)
    requires Inv(s, top) && b in s.live && b.order < MAX_ORDER && BuddyOf(b) in s.free
    ensures NoOverlap(Merge(s, b))
  {
    var t := Merge(s, b);
    forall c, d, p: nat | c in t.free + t.live && d in t.free + t.live && Contains(c, p) && Contains(d, p)
      ensures c == d
    {
      HalvesCover(b, p);
      FirstPage(b, top);
      FirstPage(BuddyOf(b), top);
    }
  }

  // ---- A whole allocation and a whole deallocation

  lemma {:induction false} SplitToKeeps(s: State, b: Block, order: nat, top: nat)
    requires Inv(s, top) && b in s.live && order <= b.order
    ensures Inv(SplitTo(s, b, order), top)
    ensures SplitTo(s, b, order).live == s.live - {b} + {FirstOf(b, order)}
    decreases b.order
  {
    if b.order > order {
      SplitKeeps(s, b, top);
      SplitToKeeps(Split(s, b), Left(b), order, top);
      FirstOfLeft(b, order);
      HalvesAreNew(s, b, top);
      assert Split(s, b).live - {Left(b)} == s.live - {b};
    }
  }

  lemma FirstOfLeft(b: Block, order: nat)
    requires order < b.order
    ensures FirstOf(b, order) == FirstOf(Left(b), order)
  {
    DownShift(b.index, b.order - order);
  }

  /** An allocation turns part of one free block into exactly one more live block. */
  lemma AllocKeeps(s: State, b: Block, order: nat, top: nat)
    requires Inv(s, top) && b in s.free && order <= b.order
    ensures Inv(AllocFrom(s, b, order), top)
    ensures FirstOf(b, order) !in s.live
    ensures AllocFrom(s, b, order).live == s.live + {FirstOf(b, order)}
  {
    TakeKeeps(s, b, top);
    SplitToKeeps(Take(s, b), b, order, top);
    FirstOfInside(b, order);
    FirstPage(b, top);
  }

  lemma {:induction false} FirstOfInside(b: Block, order: nat)
    requires order <= b.order
    ensures Contains(FirstOf(b, order), Down(b.index, b.order))
    ensures Contains(b, Down(b.index, b.order))
    decreases b.order - order
  {
    UpDown(b.index, b.order);
    if order < b.order {
      FirstOfInside(Left(b), order);
      DownShift(b.index, b.order - order);
      DownShift(b.index, b.order);
    }
  }

  /** A deallocation removes exactly one live block. */
  lemma {:induction false} FreeKeeps(s: State, b: Block, top: nat)
    requires Inv(s, top) && b in s.live
    ensures Inv(Free(s, b), top)
    ensures Free(s, b).live == s.live - {b}
    decreases MAX_ORDER - b.order
  {
    if b.order < MAX_ORDER && BuddyOf(b) in s.free {
      MergeKeeps(s, b, top);
      NothingAbove(s, b, Parent(b), top);
      FreeKeeps(Merge(s, b), Parent(b), top);
    } else {
      ReleaseKeeps(s, b, top);
    }
  }

  // ---- Canonical form

  /** Every aligned run of free pages lies inside one free block. */
  lemma {:induction false} RunInsideFreeBlock(s: State, b: Block, top: nat) returns (c: Block)
    requires Inv(s, top) && InZone(b, top) && AllFree(s, b)
    ensures c in s.free && b.order <= c.order
    ensures forall p: nat :: Contains(b, p) ==> Contains(c, p)
    decreases b.order
  {
    if b.order == 0 {
      assert FreePage(s, b.index);
      c :| c in s.free && Contains(c, b.index);
    } else {
      HalvesFree(s, b, top);
      c := RunInsideFreeBlock(s, Left(b), top);
      var d := RunInsideFreeBlock(s, Right(b), top);
      LiftInside(Left(b), c, top);
      LiftInside(Right(b), d, top);
      assert Parent(Left(b)) == b && Parent(Right(b)) == b && BuddyOf(Left(b)) == Right(b);
      if c == Left(b) {
        c := d;
      }
    }
  }

  lemma HalvesFree(s: State, b: Block, top: nat)
    requires InZone(b, top) && AllFree(s, b) && b.order > 0
    ensures InZone(Left(b), top) && AllFree(s, Left(b)) && InZone(Right(b), top) && AllFree(s, Right(b))
  {
    forall p: nat
      ensures Contains(b, p) <==> Contains(Left(b), p) || Contains(Right(b), p)
    {
      HalvesCover(b, p);
    }
  }

  /** A block that covers `b` is `b` or covers its parent. */
  lemma LiftInside(b: Block, c: Block, top: nat)
    requires InZone(b, top) && b.order <= c.order
    requires forall p: nat :: Contains(b, p) ==> Contains(c, p)
    ensures c == b || (b.order < c.order && forall p: nat :: Contains(Parent(b), p) ==> Contains(c, p))
  {
    var q := Down(b.index, b.order);
    FirstPage(b, top);
    if b.order == c.order {
      assert Contains(c, q);
    } else {
      forall p: nat | Contains(Parent(b), p)
        ensures Contains(c, p)
      {
        UpAdd(p, b.order + 1, c.order);
        UpAdd(q, b.order + 1, c.order);
        HalvesCover(b, q);
      }
    }
  }

  lemma {:induction false} UpAdd(x: nat, j: nat, k: nat)
    requires j <= k
    ensures Up(x, k) == Up(Up(x, j), k - j)
  {
    if j < k { UpAdd(x, j, k - 1); }
  }

  /** The free blocks are exactly the maximal aligned runs of free pages. */
  lemma Canonical(s: State, b: Block, top: nat)
    requires Inv(s, top)
    ensures b in s.free <==>
            InZone(b, top) && AllFree(s, b) && (b.order < MAX_ORDER ==> !AllFree(s, Parent(b)))
  {
    if b in s.free {
      if b.order < MAX_ORDER && AllFree(s, Parent(b)) {
        var c := RunInsideFreeBlock(s, Parent(b), top);
        FirstPage(b, top);
        HalvesCover(b, Down(b.index, b.order));
      }
    } else if InZone(b, top) && AllFree(s, b) {
      var c := RunInsideFreeBlock(s, b, top);
      LiftInside(b, c, top);
      assert InZone(c, top);
      assert AllFree(s, Parent(b)) by {
        forall p: nat | Contains(Parent(b), p) ensures FreePage(s, p) { assert Contains(c, p); }
      }
    }
  }

  /** The whole state is a function of the live blocks. */
  lemma LiveDeterminesState(s: State, t: State, top: nat)
    requires Inv(s, top) && Inv(t, top) && s.live == t.live
    ensures s == t
  {
    forall p: nat
      ensures FreePage(s, p) <==> FreePage(t, p)
    {
      FreeIsNotLive(s, p, top);
      FreeIsNotLive(t, p, top);
    }
    forall b
      ensures b in s.free <==> b in t.free
    {
      Canonical(s, b, top);
      Canonical(t, b, top);
    }
  }

  lemma FreeIsNotLive(s: State, p: nat, top: nat)
    requires Inv(s, top)
    ensures FreePage(s, p) <==> p < Count(top, 0) && !exists b :: b in s.live && Contains(b, p)
  {
    if p < Count(top, 0) {
      assert Mapped(s, p);
    } else if FreePage(s, p) {
      var b :| b in s.free && Contains(b, p);
      PageInZone(b, p, top);
    }
  }

  lemma {:induction false} PageInZone(b: Block, p: nat, top: nat)
    requires InZone(b, top) && Contains(b, p)
    ensures p < Count(top, 0)
    decreases b.order
  {
    if b.order > 0 {
      HalvesCover(b, p);
      PageInZone(if Contains(Left(b), p) then Left(b) else Right(b), p, top);
    }
  }

  // ---- Results over whole runs

  /** Freeing a block just allocated restores every free list. */
  lemma AllocFreeRoundTrip(s: State, b: Block, order: nat, top: nat)
    requires Inv(s, top) && b in s.free && order <= b.order
    ensures Free(AllocFrom(s, b, order), FirstOf(b, order)) == s
  {
    AllocKeeps(s, b, order, top);
    FreeKeeps(AllocFrom(s, b, order), FirstOf(b, order), top);
    LiveDeterminesState(Free(AllocFrom(s, b, order), FirstOf(b, order)), s, top);
  }

  /** A block large enough exists on some list exactly when an aligned free run of that order does. */
  lemma AllocCompleteness(s: State, order: nat, top: nat)
    requires Inv(s, top) && order <= MAX_ORDER
    ensures (exists b :: b in s.free && order <= b.order) <==>
            (exists r: Block :: r.order == order && InZone(r, top) && AllFree(s, r))
  {
    if b :| b in s.free && order <= b.order {
      var r := FirstOf(b, order);
      FirstOfRun(b, order, top);
      assert AllFree(s, r);
    } else if r: Block :| r.order == order && InZone(r, top) && AllFree(s, r) {
      var c := RunInsideFreeBlock(s, r, top);
    }
  }

  lemma {:induction false} FirstOfRun(b: Block, order: nat, top: nat)
    requires InZone(b, top) && order <= b.order
    ensures InZone(FirstOf(b, order), top)
    ensures forall p: nat :: Contains(FirstOf(b, order), p) ==> Contains(b, p)
    decreases b.order - order
  {
    if order < b.order {
      FirstOfRun(Left(b), order, top);
      DownShift(b.index, b.order - order);
      forall p: nat | Contains(FirstOf(b, order), p)
        ensures Contains(b, p)
      {
        HalvesCover(b, p);
      }
    }
  }

  /** Allocating one page takes one free page and leaves all others free. */
  lemma OnePageAlloc(s: State, b: Block, top: nat)
    requires Inv(s, top) && b in s.free
    ensures FreePage(s, FirstOf(b, 0).index)
    ensures forall p: nat :: FreePage(AllocFrom(s, b, 0), p) <==> FreePage(s, p) && p != FirstOf(b, 0).index
  {
    var f := FirstOf(b, 0);
    AllocKeeps(s, b, 0, top);
    FirstOfRun(b, 0, top);
    assert Contains(f, f.index) && Contains(b, f.index);
    forall p: nat ensures FreePage(AllocFrom(s, b, 0), p) <==> FreePage(s, p) && p != f.index {
      FreeIsNotLive(s, p, top);
      FreeIsNotLive(AllocFrom(s, b, 0), p, top);
      assert Contains(f, p) <==> p == f.index;
    }
  }

  /** Freeing one page makes it free and leaves all others as they are. */
  lemma OnePageFree(s: State, b: Block, top: nat)
    requires Inv(s, top) && b in s.live && b.order == 0
    ensures !FreePage(s, b.index)
    ensures forall p: nat :: FreePage(Free(s, b), p) <==> FreePage(s, p) || p == b.index
  {
    FreeKeeps(s, b, top);
    forall p: nat ensures Contains(b, p) <==> p == b.index { }
    forall p: nat
      ensures FreePage(Free(s, b), p) <==> FreePage(s, p) || p == b.index
      ensures p == b.index ==> !FreePage(s, p)
    {
      OnePageBack(s, b, top, p);
    }
  }

  lemma OnePageBack(s: State, b: Block, top: nat, p: nat)
    requires Inv(s, top) && b in s.live && b.order == 0
    ensures FreePage(Free(s, b), p) <==> FreePage(s, p) || p == b.index
    ensures p == b.index ==> !FreePage(s, p)
  {
    FreeKeeps(s, b, top);
    FreeIsNotLive(s, p, top);
    FreeIsNotLive(Free(s, b), p, top);
    assert Contains(b, p) <==> p == b.index;
    if p == b.index {
      PageInZone(b, p, top);
      forall c | c in s.live && Contains(c, p) ensures c == b {
        assert NoOverlap(s);
      }
    }
  }

  datatype Op = AllocOp(from: Block, order: nat) | FreeOp(block: Block)

  ghost predicate Legal(s: State, op: Op) {
    match op
    case AllocOp(b, order) => b in s.free && order <= b.order
    case FreeOp(b) => b in s.live
  }

  function Apply(s: State, op: Op): State
    requires op.AllocOp? ==> op.order <= op.from.order
  {
    match op
    case AllocOp(b, order) => AllocFrom(s, b, order)
    case FreeOp(b) => Free(s, b)
  }

  /** `run` is a run of matching allocations and deallocations from a fresh zone. */
  ghost predicate Run(run: seq<State>, ops: seq<Op>, top: nat) {
    && |run| == |ops| + 1
    && run[0] == Initial(top)
    && (forall i :: 0 <= i < |ops| ==> Legal(run[i], ops[i]) && run[i + 1] == Apply(run[i], ops[i]))
  }

  lemma InitialInv(top: nat)
    ensures Inv(Initial(top), top)
  {
    var s := Initial(top);
    forall p: nat | p < Count(top, 0)
      ensures Mapped(s, p)
    {
      UpBelow(p, MAX_ORDER, top);
      var b := Block(MAX_ORDER, Up(p, MAX_ORDER));
      assert b in s.free + s.live && Contains(b, p);
    }
  }

  lemma {:induction false} UpBelow(p: nat, o: nat, top: nat)
    requires p < Count(top, 0) && o <= MAX_ORDER
    ensures Up(p, o) < Count(top, o)
  {
    if o > 0 { UpBelow(p, o - 1, top); }
  }

  lemma {:induction false} RunKeeps(run: seq<State>, ops: seq<Op>, top: nat)
    requires Run(run, ops, top)
    ensures Inv(run[|ops|], top)
  {
    if ops == [] {
      InitialInv(top);
    } else {
      var n := |ops| - 1;
      assert Run(run[..n + 1], ops[..n], top);
      RunKeeps(run[..n + 1], ops[..n], top);
      match ops[n]
      case AllocOp(b, order) => AllocKeeps(run[n], b, order, top);
      case FreeOp(b) => FreeKeeps(run[n], b, top);
    }
  }

  /** Whatever was allocated and in whatever order it was freed, an empty zone is a fresh zone. */
  lemma RunToEmptyIsInitial(run: seq<State>, ops: seq<Op>, top: nat)
    requires Run(run, ops, top) && run[|ops|].live == {}
    ensures run[|ops|] == Initial(top)
  {
    RunKeeps(run, ops, top);
    InitialInv(top);
    LiveDeterminesState(run[|ops|], Initial(top), top);
  }

  /** Two runs, of any lengths, that leave the same blocks live leave the same free lists. */
  lemma RunsAgree(run: seq<State>, ops: seq<Op>, run': seq<State>, ops': seq<Op>, top: nat)
    requires Run(run, ops, top) && Run(run', ops', top) && run[|ops|].live == run'[|ops'|].live
    ensures run[|ops|].free == run'[|ops'|].free
  {
    RunKeeps(run, ops, top);
    RunKeeps(run', ops', top);
    LiveDeterminesState(run[|ops|], run'[|ops'|], top);
  }
}
