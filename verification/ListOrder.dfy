/** The free lists of a zone in list order (mm/frame_alloc.c): which block a request is served from,
    and how the lists look after an allocation and after a deallocation. */
module ListOrder {
  import opened Common
  import opened Buddy

  /** The blocks of each list, by index and in list order. */
  type FreeLists = s: seq<seq<nat>> | |s| == MAX_ORDER + 1 witness seq(MAX_ORDER + 1, _ => [])

  /** The lists hold exactly the free blocks, each once. */
  ghost predicate Holds(ls: FreeLists, free: set<Block>) {
    && (forall o, k :: 0 <= o <= MAX_ORDER && 0 <= k < |ls[o]| ==> Block(o, ls[o][k]) in free)
    && (forall b :: b in free ==> b.order <= MAX_ORDER && b.index in ls[b.order])
  }

  /** The block zone_alloc serves an order from: the head of the first list that is not empty. */
  ghost function BestFit(ls: FreeLists, order: nat): (b: Block)
    requires order <= MAX_ORDER && exists o :: order <= o <= MAX_ORDER && ls[o] != []
    ensures order <= b.order <= MAX_ORDER && ls[b.order] != [] && b.index == ls[b.order][0]
    ensures forall o :: order <= o < b.order ==> ls[o] == []
    decreases MAX_ORDER - order
  {
    if ls[order] != [] then Block(order, ls[order][0]) else BestFit(ls, order + 1)
  }

  lemma {:induction false} BestFitIs(ls: FreeLists, order: nat, i: nat)
    requires order <= i <= MAX_ORDER && ls[i] != [] && forall o :: order <= o < i ==> ls[o] == []
    ensures BestFit(ls, order) == Block(i, ls[i][0])
    decreases i - order
  {
    if order < i { BestFitIs(ls, order + 1, i); }
  }

  lemma ListWithout(l: seq<nat>, k: nat)
    requires k < |l| && forall j :: 0 <= j < |l| && j != k ==> l[j] != l[k]
    ensures forall i :: i in Removed(l, k) <==> i != l[k] && i in l
  {
    forall i | i != l[k] && i in l ensures i in Removed(l, k) {
      var j :| 0 <= j < |l| && l[j] == i;
      assert Removed(l, k)[if j < k then j else j - 1] == i;
    }
  }

  lemma HoldsWith(ls: FreeLists, ls': FreeLists, free: set<Block>, b: Block)
    requires Holds(ls, free) && b.order <= MAX_ORDER && ls' == ls[b.order := [b.index] + ls[b.order]]
    ensures Holds(ls', free + {b})
  {
  }

  lemma HoldsWithout(ls: FreeLists, ls': FreeLists, free: set<Block>, o: nat, k: nat)
    requires Holds(ls, free) && o <= MAX_ORDER && k < |ls[o]| && ls' == ls[o := Removed(ls[o], k)]
    requires forall j :: 0 <= j < |ls[o]| && j != k ==> ls[o][j] != ls[o][k]
    ensures Holds(ls', free - {Block(o, ls[o][k])})
  {
    ListWithout(ls[o], k);
    forall o', j | 0 <= o' <= MAX_ORDER && 0 <= j < |ls'[o']|
      ensures Block(o', ls'[o'][j]) in free - {Block(o, ls[o][k])}
    {
      if o' == o { assert ls'[o][j] in Removed(ls[o], k); }
    }
  }

  // ---- The lists after each step

  /** The block is put at the front of its list. */
  function Pushed(ls: FreeLists, b: Block): FreeLists
    requires b.order <= MAX_ORDER
  {
    ls[b.order := [b.index] + ls[b.order]]
  }

  function Without(l: seq<nat>, x: nat): seq<nat> {
    if l == [] then [] else if l[0] == x then l[1..] else [l[0]] + Without(l[1..], x)
  }

  /** The block is taken out of its list, wherever it is. */
  function Unlisted(ls: FreeLists, b: Block): FreeLists
    requires b.order <= MAX_ORDER
  {
    ls[b.order := Without(ls[b.order], b.index)]
  }

  lemma {:induction false} WithoutAt(l: seq<nat>, k: nat)
    requires k < |l| && forall j :: 0 <= j < k ==> l[j] != l[k]
    ensures Without(l, l[k]) == Removed(l, k)
  {
    if k > 0 { WithoutAt(l[1..], k - 1); }
  }

  /** The lists of a zone in which nothing has been allocated: the last block is first. */
  function FreshLists(top: nat): FreeLists {
    seq(MAX_ORDER + 1, o => if o == MAX_ORDER then seq(top, k requires 0 <= k < top => top - 1 - k) else [])
  }

  lemma NoneListed()
    ensures FreshLists(0) == seq(MAX_ORDER + 1, _ => [])
  {
    forall o | 0 <= o <= MAX_ORDER ensures FreshLists(0)[o] == [] {
    }
  }

  lemma PushedFresh(i: nat)
    ensures Pushed(FreshLists(i), Block(MAX_ORDER, i)) == FreshLists(i + 1)
  {
    assert [i] + FreshLists(i)[MAX_ORDER] == FreshLists(i + 1)[MAX_ORDER];
  }

  /** Splitting the taken block `b` down to `order`: each second half goes to the front of its list. */
  function SplitLists(ls: FreeLists, b: Block, order: nat): FreeLists
    requires order <= b.order <= MAX_ORDER
    decreases b.order
  {
    if b.order == order then ls else SplitLists(Pushed(ls, Right(b)), Left(b), order)
  }

  /** Serving a request of `order` from the block `b` */
  function AllocLists(ls: FreeLists, b: Block, order: nat): FreeLists
    requires order <= b.order <= MAX_ORDER
  {
    SplitLists(Unlisted(ls, b), b, order)
  }

  /** Freeing the block `b`: each free buddy leaves its list, and the whole goes to the front of its. */
  function FreedLists(ls: FreeLists, s: State, b: Block): FreeLists
    requires b.order <= MAX_ORDER
    decreases MAX_ORDER - b.order
  {
    if b.order < MAX_ORDER && BuddyOf(b) in s.free then FreedLists(Unlisted(ls, BuddyOf(b)), Merge(s, b), Parent(b))
    else Pushed(ls, b)
  }

  // ---- Freeing what was just allocated restores the lists, and their order

  lemma PushedOff(ls: FreeLists, b: Block)
    requires b.order <= MAX_ORDER
    ensures Unlisted(Pushed(ls, b), b) == ls
  {
    assert ([b.index] + ls[b.order])[1..] == ls[b.order];
  }

  lemma HeadBack(ls: FreeLists, b: Block)
    requires b.order <= MAX_ORDER && ls[b.order] != [] && ls[b.order][0] == b.index
    ensures Pushed(Unlisted(ls, b), b) == ls
  {
    assert [b.index] + ls[b.order][1..] == ls[b.order];
  }

  /** Merging undoes a split. */
  lemma MergeSplit(s: State, b: Block, top: nat)
    requires Inv(s, top) && b in s.live && b.order > 0
    ensures BuddyOf(Left(b)) == Right(b) && Parent(Left(b)) == b && Merge(Split(s, b), Left(b)) == s
  {
    HalvesAreNew(s, b, top);
    HalvesInZone(b, top);
  }

  lemma {:induction false} SplitRoundTrip(ls: FreeLists, s: State, b: Block, order: nat, top: nat)
    requires Inv(s, top) && b in s.live && order <= b.order <= MAX_ORDER
    ensures FreedLists(SplitLists(ls, b, order), SplitTo(s, b, order), FirstOf(b, order)) == FreedLists(ls, s, b)
    decreases b.order
  {
    if b.order > order {
      SplitKeeps(s, b, top);
      MergeSplit(s, b, top);
      PushedOff(ls, Right(b));
      SplitRoundTrip(Pushed(ls, Right(b)), Split(s, b), Left(b), order, top);
      DownShift(b.index, b.order - order);
    }
  }

  /** Freeing a block just allocated restores the lists with their order. */
  lemma ListsRoundTrip(ls: FreeLists, s: State, order: nat, top: nat)
    requires Inv(s, top) && Holds(ls, s.free) && exists o :: order <= o <= MAX_ORDER && ls[o] != []
    ensures var b := BestFit(ls, order);
      FreedLists(AllocLists(ls, b, order), AllocFrom(s, b, order), FirstOf(b, order)) == ls
  {
    var b := BestFit(ls, order);
    TakeKeeps(s, b, top);
    HeadBack(ls, b);
    SplitRoundTrip(Unlisted(ls, b), Take(s, b), b, order, top);
  }
}
