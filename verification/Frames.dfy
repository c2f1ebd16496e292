/** frames_alloc and frames_free (mm/frame_alloc.c): requests by number of pages over all zones. */
module Frames {
  import opened Common
  import opened Bits
  import opened Buddy
  import opened ZoneAddr
  import opened ZoneLayout
  import opened ListOrder
  import opened Zones

  /** pages2order: the least order whose blocks hold `pages` pages. */
  method Pages2Order(pages: nat) returns (order: nat)
    requires pages <= 1024
    ensures order <= MAX_ORDER && pages <= Pow2(order) && (order > 0 ==> Pow2(order - 1) < pages)
  {
    assert Pow2(MAX_ORDER) == 1024;
    order := 0;
    while Pow2(order) < pages
      invariant order <= MAX_ORDER && (order > 0 ==> Pow2(order - 1) < pages)
      decreases MAX_ORDER - order
    {
      order := order + 1;
    }
  }

  /** No list of the zone, from `order` up, has a block. */
  ghost predicate Exhausted(ls: FreeLists, order: nat) {
    forall o :: order <= o <= MAX_ORDER ==> ls[o] == []
  }

  /** The lists have no block of an order exactly when the zone has no aligned free run of that size. */
  lemma ExhaustedMeansNoRun(ls: FreeLists, s: State, order: nat, top: nat)
    requires Inv(s, top) && Holds(ls, s.free) && order <= MAX_ORDER
    ensures Exhausted(ls, order) <==> !exists r: Block :: r.order == order && InZone(r, top) && AllFree(s, r)
  {
    AllocCompleteness(s, order, top);
    if o :| order <= o <= MAX_ORDER && ls[o] != [] {
      assert Block(o, ls[o][0]) in s.free;
    }
  }

  lemma FirstOrder(order: nat)
    requires order > 0 ==> Pow2(order - 1) < 1
    ensures order == 0
  {
  }

  // ---- The free pages of all zones, by address

  /** A zone of `top` largest blocks from `start` on. */
  datatype Range = Range(start: nat, top: nat)

  function Pages(r: Range): nat {
    Count(r.top, 0)
  }

  function AddrAt(r: Range, p: nat): nat {
    r.start + PAGE_SIZE * p
  }

  ghost predicate Apart(rs: seq<Range>) {
    forall i, j :: 0 <= i < j < |rs| ==>
      AddrAt(rs[i], Pages(rs[i])) <= rs[j].start || AddrAt(rs[j], Pages(rs[j])) <= rs[i].start
  }

  ghost predicate ZonesOk(rs: seq<Range>, ss: seq<State>) {
    Apart(rs) && |rs| == |ss| && forall i :: 0 <= i < |rs| ==> Inv(ss[i], rs[i].top)
  }

  ghost predicate FreeAt(rs: seq<Range>, ss: seq<State>, i: nat, p: nat)
    requires |rs| == |ss|
  {
    i < |rs| && p < Pages(rs[i]) && FreePage(ss[i], p)
  }

  ghost function PagesOf(rs: seq<Range>, ss: seq<State>): set<nat>
    requires |rs| == |ss|
  {
    set i, p | 0 <= i < |rs| && 0 <= p < Pages(rs[i]) && FreeAt(rs, ss, i, p) :: AddrAt(rs[i], p)
  }

  /** An address belongs to one page of one zone. */
  lemma AddrUnique(rs: seq<Range>, i: nat, p: nat, j: nat, q: nat)
    requires Apart(rs) && i < |rs| && j < |rs| && p < Pages(rs[i]) && q < Pages(rs[j])
    ensures AddrAt(rs[i], p) == AddrAt(rs[j], q) <==> i == j && p == q
  {
    assert AddrAt(rs[i], p) < AddrAt(rs[i], Pages(rs[i])) && AddrAt(rs[j], q) < AddrAt(rs[j], Pages(rs[j]));
  }

  /** Which pages are free in `tt` and in `ss` differs at page `f` of zone `at` only. */
  ghost predicate OneLess(rs: seq<Range>, ss: seq<State>, tt: seq<State>, at: nat, f: nat)
    requires |rs| == |ss| == |tt|
  {
    && FreeAt(rs, ss, at, f)
    && forall i: nat, p: nat :: FreeAt(rs, tt, i, p) <==> FreeAt(rs, ss, i, p) && !(i == at && p == f)
  }

  /** Then the sets of free addresses differ at the address of that page only. */
  lemma AddrLess(rs: seq<Range>, ss: seq<State>, tt: seq<State>, at: nat, f: nat)
    requires Apart(rs) && |rs| == |ss| == |tt| && OneLess(rs, ss, tt, at, f)
    ensures AddrAt(rs[at], f) in PagesOf(rs, ss)
    ensures PagesOf(rs, tt) == PagesOf(rs, ss) - {AddrAt(rs[at], f)}
  {
    var gone := AddrAt(rs[at], f);
    forall a | a in PagesOf(rs, tt) ensures a in PagesOf(rs, ss) && a != gone {
      var i: nat, p: nat :| FreeAt(rs, tt, i, p) && a == AddrAt(rs[i], p);
      AddrUnique(rs, i, p, at, f);
      assert FreeAt(rs, ss, i, p);
    }
    forall a | a in PagesOf(rs, ss) && a != gone ensures a in PagesOf(rs, tt) {
      var i: nat, p: nat :| FreeAt(rs, ss, i, p) && a == AddrAt(rs[i], p);
      assert FreeAt(rs, tt, i, p);
    }
  }

  /** One page of one zone is taken: its address leaves the set, no other does. */
  lemma PageTaken(rs: seq<Range>, ss: seq<State>, at: nat, b: Block)
    requires ZonesOk(rs, ss) && at < |rs| && b in ss[at].free
    ensures AddrOf(rs[at].start, FirstOf(b, 0)) in PagesOf(rs, ss)
    ensures PagesOf(rs, ss[at := AllocFrom(ss[at], b, 0)]) == PagesOf(rs, ss) - {AddrOf(rs[at].start, FirstOf(b, 0))}
  {
    var f := FirstOf(b, 0).index;
    var tt := ss[at := AllocFrom(ss[at], b, 0)];
    OnePageAlloc(ss[at], b, rs[at].top);
    FreeIsNotLive(ss[at], f, rs[at].top);
    assert OneLess(rs, ss, tt, at, f) by {
      forall i: nat, p: nat
        ensures FreeAt(rs, tt, i, p) <==> FreeAt(rs, ss, i, p) && !(i == at && p == f)
      {
        if i < |rs| && i != at { assert tt[i] == ss[i]; }
      }
    }
    assert AddrAt(rs[at], f) == AddrOf(rs[at].start, FirstOf(b, 0));
    AddrLess(rs, ss, tt, at, f);
  }

  /** One page of one zone is freed: its address joins the set, no other does. */
  lemma PageReturned(rs: seq<Range>, ss: seq<State>, at: nat, b: Block)
    requires ZonesOk(rs, ss) && at < |rs| && b in ss[at].live && b.order == 0
    ensures AddrOf(rs[at].start, b) !in PagesOf(rs, ss)
    ensures PagesOf(rs, ss[at := Free(ss[at], b)]) == PagesOf(rs, ss) + {AddrOf(rs[at].start, b)}
  {
    var tt := ss[at := Free(ss[at], b)];
    OnePageFree(ss[at], b, rs[at].top);
    PageInZone(b, b.index, rs[at].top);
    assert OneLess(rs, tt, ss, at, b.index) by {
      forall i: nat, p: nat
        ensures FreeAt(rs, ss, i, p) <==> FreeAt(rs, tt, i, p) && !(i == at && p == b.index)
      {
        if i < |rs| && i != at { assert tt[i] == ss[i]; }
      }
    }
    assert AddrAt(rs[at], b.index) == AddrOf(rs[at].start, b);
    AddrLess(rs, tt, ss, at, b.index);
  }

  // ---- What the zones hold

  /** What a zone holds: its blocks, its lists and the contents of its pages. */
  datatype Image = Image(s: State, lists: FreeLists, content: seq<nat>)

  ghost function ImageOf(z: Zone): Image
    reads z, z.content
  {
    Image(z.s, z.lists, z.content[..])
  }

  /** The zone at `start` has served a request of `order` with the block at `addr`, whose pages are zero. */
  ghost predicate Served(before: Image, after: Image, order: nat, start: nat, addr: nat)
    requires order <= MAX_ORDER
  {
    && !Exhausted(before.lists, order)
    && var b := BestFit(before.lists, order);
       && b in before.s.free && after.s == AllocFrom(before.s, b, order) && addr == AddrOf(start, FirstOf(b, order))
       && after.lists == AllocLists(before.lists, b, order) && |after.content| == |before.content|
       && forall p :: 0 <= p < |after.content| ==>
            after.content[p] == if Contains(FirstOf(b, order), p) then 0 else before.content[p]
  }

  ghost function StatesOf(images: seq<Image>): seq<State> {
    seq(|images|, i requires 0 <= i < |images| => images[i].s)
  }

  lemma StatesAt(images: seq<Image>, at: nat, image: Image)
    requires at < |images|
    ensures StatesOf(images[at := image]) == StatesOf(images)[at := image.s]
  {
  }

  class FrameAllocator {
    const zones: seq<Zone>
    ghost const memory: set<object>

    constructor (zones: seq<Zone>)
      ensures this.zones == zones && memory == Footprints(zones)
    {
      this.zones := zones;
      memory := Footprints(zones);
    }

    ghost predicate Separate() {
      && (forall i :: 0 <= i < |zones| ==> Footprint(zones[i]) <= memory)
      && (forall i, j :: 0 <= i < j < |zones| ==> Footprint(zones[i]) !! Footprint(zones[j]))
      && (forall i, j :: 0 <= i < j < |zones| ==> End(zones[i]) <= zones[j].start || End(zones[j]) <= zones[i].start)
    }

    ghost predicate Valid()
      reads memory
    {
      Separate() && forall i :: 0 <= i < |zones| ==> zones[i].Valid()
    }

    ghost function Images(): seq<Image>
      requires Separate()
      reads memory
    {
      seq(|zones|, i requires 0 <= i < |zones| reads memory => ImageOf(zones[i]))
    }

    /** A zone none of whose memory was written is as it was. */
    twostate lemma ZoneStays(j: nat)
      requires j < |zones| && old(zones[j].Valid()) && unchanged(Footprint(zones[j]))
      ensures zones[j].Valid() && ImageOf(zones[j]) == old(ImageOf(zones[j]))
    {
    }

    /** Only the memory of zone `i` was written. */
    twostate lemma OthersStay(i: nat)
      requires old(Valid()) && i < |zones| && unchanged(memory - Footprint(zones[i]))
      ensures forall j :: 0 <= j < |zones| && j != i ==> zones[j].Valid()
      ensures Images() == old(Images())[i := ImageOf(zones[i])]
    {
      forall j | 0 <= j < |zones| && j != i
        ensures zones[j].Valid() && ImageOf(zones[j]) == old(ImageOf(zones[j]))
      {
        assert Footprint(zones[j]) <= memory - Footprint(zones[i]);
        ZoneStays(j);
      }
    }

    /** frames_alloc: the first zone with a large enough block serves the request. */
    method FramesAlloc(n: nat) returns (r: AllocResult, ghost at: nat, ghost order: nat)
      requires Valid() && n <= 1024
      modifies memory
      ensures order <= MAX_ORDER && n <= Pow2(order) && (order > 0 ==> Pow2(order - 1) < n)
      ensures at <= |zones| && (r.NoBlock? <==> at == |zones|)
      ensures forall i :: 0 <= i < at ==> Exhausted(old(Images())[i].lists, order)
      ensures forall i :: 0 <= i < |zones| && i != at ==> zones[i].Valid()
      ensures Images() == if r.NoBlock? then old(Images()) else old(Images())[at := ImageOf(zones[at])]
      ensures r.NullBitmap? ==> order == MAX_ORDER && !Exhausted(old(Images())[at].lists, order)
      ensures r.Taken? ==> Valid() && Served(old(Images())[at], Images()[at], order, zones[at].start, r.addr)
    {
      var ord := Pages2Order(n);
      order := ord;
      for i := 0 to |zones|
        invariant Valid() && Images() == old(Images())
        invariant forall j :: 0 <= j < i ==> Exhausted(Images()[j].lists, order)
      {
        at := i;
        r := AllocIn(i, ord);
        if !r.NoBlock? {
          return;
        }
      }
      at, r := |zones|, NoBlock;
    }

    /** zone_alloc in one zone leaves the others alone. */
    method AllocIn(i: nat, order: nat) returns (r: AllocResult)
      requires Valid() && i < |zones| && order <= MAX_ORDER
      modifies memory
      ensures forall j :: 0 <= j < |zones| && j != i ==> zones[j].Valid()
      ensures Images() == old(Images())[i := ImageOf(zones[i])]
      ensures r.NoBlock? <==> Exhausted(old(Images())[i].lists, order)
      ensures r.NoBlock? ==> Valid() && Images() == old(Images())
      ensures r.NullBitmap? ==> order == MAX_ORDER
      ensures r.Taken? ==> Valid() && Served(old(Images())[i], Images()[i], order, zones[i].start, r.addr)
    {
      assert Footprint(zones[i]) <= memory;
      r := zones[i].ZoneAlloc(order);
      OthersStay(i);
      if r.NoBlock? {
        assert ImageOf(zones[i]) == old(ImageOf(zones[i]));
      }
    }

    ghost function Ranges(): seq<Range> {
      seq(|zones|, i requires 0 <= i < |zones| => Range(zones[i].start, zones[i].top))
    }

    /** The addresses of the free pages of all zones. */
    ghost function FreePages(): set<nat>
      requires Separate()
      reads memory
    {
      PagesOf(Ranges(), StatesOf(Images()))
    }

    lemma StatesOk()
      requires Valid()
      ensures ZonesOk(Ranges(), StatesOf(Images()))
    {
    }

    /** If no zone has a block of any order, no page is free. */
    lemma NoPages()
      requires Valid() && forall i :: 0 <= i < |zones| ==> Exhausted(Images()[i].lists, 0)
      ensures FreePages() == {}
    {
      forall i: nat, p: nat ensures !FreeAt(Ranges(), StatesOf(Images()), i, p) {
        if i < |zones| {
          assert Exhausted(Images()[i].lists, 0) && StatesOf(Images())[i] == zones[i].s;
          ExhaustedMeansNoPage(zones[i].lists, zones[i].s, zones[i].top);
        }
      }
    }

    /** The address of a block lies in the block's zone and in no other. */
    lemma OnlyZone(addr: nat, at: nat, b: Block)
      requires Valid() && at < |zones| && b in zones[at].s.live && b.order == 0 && addr == AddrOf(zones[at].start, b)
      ensures Around(at, addr) && forall i :: 0 <= i < |zones| && Around(i, addr) ==> i == at
    {
      PageInZone(b, b.index, zones[at].top);
      forall i | 0 <= i < |zones| && i != at ensures !Around(i, addr) {
        assert End(zones[i]) <= zones[at].start || End(zones[at]) <= zones[i].start;
      }
    }

    /** frame_alloc: some free page, and all others as free as before; NULL exactly if no page is free. */
    method FrameAlloc() returns (addr: Option<nat>)
      requires Valid()
      modifies memory
      ensures Valid()
      ensures addr.None? <==> old(FreePages()) == {}
      ensures addr.None? ==> FreePages() == {}
      ensures addr.Some? ==> addr.value in old(FreePages()) && FreePages() == old(FreePages()) - {addr.value}
    {
      ghost var ss := StatesOf(Images());
      StatesOk();
      var r;
      ghost var at, order;
      r, at, order := FramesAlloc(1);
      FirstOrder(order);
      if r.NoBlock? {
        assert forall i :: 0 <= i < |zones| ==> Exhausted(Images()[i].lists, 0);
        NoPages();
        return None;
      }
      ghost var b := BestFit(old(Images())[at].lists, 0);
      PageTaken(Ranges(), ss, at, b);
      StatesAt(old(Images()), at, Images()[at]);
      return Some(r.addr);
    }

    /** frame_free of the allocated page `b`: it is free, and all others are as free as before. */
    method FrameFree(addr: nat, ghost at: nat, ghost b: Block)
      requires Valid() && at < |zones| && b in zones[at].s.live && b.order == 0 && addr == AddrOf(zones[at].start, b)
      modifies memory
      ensures Valid() && addr !in old(FreePages()) && FreePages() == old(FreePages()) + {addr}
    {
      ghost var ss := StatesOf(Images());
      StatesOk();
      OnlyZone(addr, at, b);
      var known := FramesFree(addr, 1, at, b);
      PageReturned(Ranges(), ss, at, b);
      StatesAt(old(Images()), at, Images()[at]);
    }

    ghost predicate Around(i: nat, addr: nat)
      requires i < |zones|
    {
      zones[i].start <= addr < End(zones[i])
    }

    /** `b` is live in zone `i`, is the block at `addr` and has the order for `n` pages. */
    ghost predicate IsBlock(i: nat, addr: nat, n: nat, b: Block)
      requires i < |zones|
      reads zones[i]
    {
      && b in zones[i].s.live && addr == AddrOf(zones[i].start, b)
      && n <= Pow2(b.order) && (b.order > 0 ==> Pow2(b.order - 1) < n)
    }

    /** frames_free: the zone around the address takes its block back.  An address in no zone is a panic. */
    method FramesFree(addr: nat, n: nat, ghost at: nat, ghost b: Block) returns (known: bool)
      requires Valid() && n <= 1024
      requires forall i :: 0 <= i < |zones| && Around(i, addr) ==> i == at && IsBlock(i, addr, n, b)
      modifies memory
      ensures Valid()
      ensures known <==> exists i :: 0 <= i < |zones| && Around(i, addr)
      ensures known ==> at < |zones| && Images() == old(Images())[at := ImageOf(zones[at])]
      ensures known ==> zones[at].s == Free(old(zones[at].s), b)
      ensures known ==> zones[at].lists == FreedLists(old(zones[at].lists), old(zones[at].s), b)
      ensures !known ==> unchanged(memory)
    {
      var order := Pages2Order(n);
      for i := 0 to |zones|
        invariant unchanged(memory)
        invariant forall j :: 0 <= j < i ==> !Around(j, addr)
      {
        if zones[i].start <= addr < End(zones[i]) {
          assert Around(i, addr);
          FreeIn(i, addr, n, order, b);
          return true;
        }
      }
      return false;
    }

    /** zone_dealloc in one zone leaves the others alone. */
    method FreeIn(i: nat, addr: nat, ghost n: nat, order: nat, ghost b: Block)
      requires Valid() && i < |zones| && IsBlock(i, addr, n, b)
      requires n <= Pow2(order) && (order > 0 ==> Pow2(order - 1) < n)
      modifies memory
      ensures Valid() && zones[i].s == Free(old(zones[i].s), b)
      ensures zones[i].lists == FreedLists(old(zones[i].lists), old(zones[i].s), b)
      ensures Images() == old(Images())[i := ImageOf(zones[i])]
    {
      OrderUnique(n, order, b.order);
      assert Footprint(zones[i]) <= memory;
      zones[i].ZoneDealloc(addr, order, b);
      OthersStay(i);
    }
  }

  // ---- An allocator of the zones of several regions

  datatype Region = Region(addr: nat, pages: nat)

  ghost predicate RegionsOk(rs: seq<Region>) {
    && (forall i :: 0 <= i < |rs| ==> rs[i].pages > 1024 && rs[i].addr % PAGE_SIZE == 0)
    && (forall i, j :: 0 <= i < j < |rs| ==> Behind(rs[i], rs[j]) || Behind(rs[j], rs[i]))
  }

  predicate Behind(r: Region, r': Region) {
    r.addr + r.pages * PAGE_SIZE <= r'.addr
  }

  /** The zone is what zone_add makes of the region. */
  ghost predicate ZoneOf(z: Zone, r: Region) {
    z.start == ZoneStart(r.addr, r.pages) && z.top == ZoneTop(r.addr, r.pages)
  }

  lemma ZoneOfApart(z: Zone, r: Region, z': Zone, r': Region)
    requires r.pages > 1024 && r'.pages > 1024 && ZoneOf(z, r) && ZoneOf(z', r') && Behind(r, r')
    ensures End(z) <= z'.start
  {
    ZoneShape(r.addr, r.pages);
    SmallOrders(z.top);
    ZonesApart(r.addr, r.pages, r'.addr, r'.pages);
  }

  ghost predicate NewOf(z: Zone, r: Region)
    reads z, z.nodes, z.bitmap
  {
    ZoneOf(z, r) && z.Valid() && z.s == Initial(z.top)
  }

  ghost predicate Disjoint(zones: seq<Zone>) {
    forall i, j :: 0 <= i < j < |zones| ==> Footprint(zones[i]) !! Footprint(zones[j])
  }

  ghost predicate Inside(zones: seq<Zone>, memory: set<object>) {
    forall i :: 0 <= i < |zones| ==> Footprint(zones[i]) <= memory
  }

  /** zone_add for one region, with the bitmaps laid out well and cleared. */
  method AddZone(zones: seq<Zone>, r: Region, ghost used: set<object>) returns (zone: Zone)
    requires r.pages > 1024 && r.addr % PAGE_SIZE == 0 && Disjoint(zones) && Inside(zones, used)
    ensures NewOf(zone, r) && fresh(Footprint(zone)) && Disjoint(zones + [zone])
  {
    zone := NewZone(r.addr, r.pages);
    assert Footprint(zone) !! used;
  }

  /** zone_add for each region */
  method NewZones(rs: seq<Region>) returns (zones: seq<Zone>, ghost used: set<object>)
    requires RegionsOk(rs)
    ensures |zones| == |rs| && forall i :: 0 <= i < |rs| ==> NewOf(zones[i], rs[i])
    ensures fresh(used) && Inside(zones, used) && Disjoint(zones)
  {
    zones, used := [], {};
    for k := 0 to |rs|
      invariant |zones| == k && forall i :: 0 <= i < k ==> NewOf(zones[i], rs[i])
      invariant fresh(used) && Inside(zones, used) && Disjoint(zones)
    {
      var zone := AddZone(zones, rs[k], used);
      used := used + Footprint(zone);
      zones := zones + [zone];
    }
  }

  lemma ZonesOfApart(zones: seq<Zone>, rs: seq<Region>)
    requires RegionsOk(rs) && |zones| == |rs| && forall i :: 0 <= i < |rs| ==> ZoneOf(zones[i], rs[i])
    ensures forall i, j :: 0 <= i < j < |zones| ==> End(zones[i]) <= zones[j].start || End(zones[j]) <= zones[i].start
  {
    forall i, j | 0 <= i < j < |rs| ensures End(zones[i]) <= zones[j].start || End(zones[j]) <= zones[i].start {
      if Behind(rs[i], rs[j]) {
        ZoneOfApart(zones[i], rs[i], zones[j], rs[j]);
      } else {
        ZoneOfApart(zones[j], rs[j], zones[i], rs[i]);
      }
    }
  }

  /** The zones of disjoint regions make an allocator in which every page is free. */
  method NewAllocator(rs: seq<Region>) returns (alloc: FrameAllocator)
    requires RegionsOk(rs)
    ensures fresh(alloc) && fresh(alloc.memory) && alloc.Valid() && |alloc.zones| == |rs|
    ensures forall i :: 0 <= i < |rs| ==> NewOf(alloc.zones[i], rs[i])
  {
    var zones;
    ghost var used;
    zones, used := NewZones(rs);
    ZonesOfApart(zones, rs);
    alloc := new FrameAllocator(zones);
    FootprintsInside(zones, used);
  }

  /** For one page: the lists are empty exactly if the zone has no free page. */
  lemma ExhaustedMeansNoPage(ls: FreeLists, s: State, top: nat)
    requires Inv(s, top) && Holds(ls, s.free)
    ensures Exhausted(ls, 0) <==> forall p: nat :: !FreePage(s, p)
  {
    ExhaustedMeansNoRun(ls, s, 0, top);
    forall p: nat ensures AllFree(s, Block(0, p)) == FreePage(s, p) {
      assert Contains(Block(0, p), p);
    }
    if r: Block :| r.order == 0 && InZone(r, top) && AllFree(s, r) {
      assert r == Block(0, r.index);
    } else if p: nat :| FreePage(s, p) {
      FreeIsNotLive(s, p, top);
      assert InZone(Block(0, p), top);
    }
  }

  lemma {:induction false} Pow2Grows(a: nat, b: nat)
    requires a <= b
    ensures Pow2(a) <= Pow2(b)
  {
    if a < b { Pow2Grows(a, b - 1); }
  }

  lemma OrderUnique(n: nat, a: nat, b: nat)
    requires n <= Pow2(a) && (a > 0 ==> Pow2(a - 1) < n) && n <= Pow2(b) && (b > 0 ==> Pow2(b - 1) < n)
    ensures a == b
  {
    if a < b { Pow2Grows(a, b - 1); }
    if b < a { Pow2Grows(b, a - 1); }
  }

  function End(z: Zone): nat {
    z.start + PAGE_SIZE * Count(z.top, 0)
  }

  /** The memory of all zones */
  ghost function Footprints(zones: seq<Zone>): (memory: set<object>)
    ensures forall i :: 0 <= i < |zones| ==> Footprint(zones[i]) <= memory
  {
    if zones == [] then {} else Footprints(zones[..|zones| - 1]) + Footprint(zones[|zones| - 1])
  }

  lemma {:induction false} FootprintsInside(zones: seq<Zone>, memory: set<object>)
    requires forall i :: 0 <= i < |zones| ==> Footprint(zones[i]) <= memory
    ensures Footprints(zones) <= memory
  {
    if zones != [] { FootprintsInside(zones[..|zones| - 1], memory); }
  }

  ghost function Footprint(z: Zone): set<object> {
    {z, z.bitmap, z.content} + z.nodes
  }
}
