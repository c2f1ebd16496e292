/** Address spaces with their areas (mm/vmem.c): allocation on demand, release, copy and end. */
module Spaces {
  import opened Common
  import opened Tables
  import opened TableSteps
  import opened Paging
  import opened Vmem
  import opened Areas
  import Clone
  import Destroy
  import Unmap

  /** What a page of the space may translate to: in an area, an allocated page with the flags of the
      area, or nothing so far; elsewhere anything but an allocated page. */
  ghost predicate Fits(s: Snap, r: Frame, areas: seq<Area>, va: Path)
    requires va.P4?
  {
    var w := Walk(s.mem, r, va);
    match Lookup(areas, PageAddr(va))
    case None => !(w.Mapped? && w.size.Size4K? && w.alloc)
    case Some(a) => w.Absent? || (w.size.Size4K? && w.alloc && w.user == a.flags.user && w.write == a.flags.write)
  }

  ghost predicate PagesFit(s: Snap, r: Frame, areas: seq<Area>) {
    forall va: Path :: va.P4? && InBounds(va) ==> Fits(s, r, areas, va)
  }

  /** The flags a page fault maps a page with. */
  function FaultFlags(a: Area): Flags {
    Flags(a.flags.user, a.flags.write, true)
  }

  datatype PfResult = Segfault | Served | PanicNoMemory | PanicPresent | BogusFrame
  datatype AreaResult = Placed | Overlap | Freed | Mismatch

  /** The frame number that the NULL of frame_alloc becomes. */
  const BOGUS: Frame := 0x7_7800_0000

  lemma BogusIsNull()
    ensures VirtToPhys(0) == BOGUS * PAGE_SIZE
  {
    Conversions(0);
  }

  function BogusLeaf(flags: Flags): Translation {
    Leaf(Size4K, MakeEntry(BOGUS, false, flags))
  }

  /** Where nothing is mapped, the mapping functions have nothing to object to. */
  lemma AbsentMappable(s: Snap, r: Frame, va: Path)
    requires Sound(s) && IsRoot(s.owner, r) && va.P4? && InBounds(va)
    ensures Walk(s.mem, r, va).Absent? ==> !LargeOnWay(s.mem, r, va) && !EntryAt(s.mem, r, va).present
    ensures LargeOnWay(s.mem, r, va) ==> Walk(s.mem, r, va).Mapped? && !Walk(s.mem, r, va).size.Size4K?
    ensures !LargeOnWay(s.mem, r, va) ==> EntryAt(s.mem, r, va).present == Walk(s.mem, r, va).Mapped?
    ensures !LargeOnWay(s.mem, r, va) && EntryAt(s.mem, r, va).present ==>
      Walk(s.mem, r, va) == Leaf(Size4K, EntryAt(s.mem, r, va))
    ensures !LargeOnWay(s.mem, r, va) && !EntryAt(s.mem, r, va).present ==> EntryAt(s.mem, r, va) == ZERO
  {
    WayDown(s.mem, s.owner, r, va);
    assert EntryOk(s.mem, s.owner, r, va.m);
    var e1 := Read(s.mem, r, va.m);
    if e1.present {
      assert EntryOk(s.mem, s.owner, e1.frame, va.p);
      var e2 := Read(s.mem, e1.frame, va.p);
      if e2.present && !e2.large {
        assert EntryOk(s.mem, s.owner, e2.frame, va.d);
        var e3 := Read(s.mem, e2.frame, va.d);
        if e3.present && !e3.large { assert EntryOk(s.mem, s.owner, e3.frame, va.t); }
      }
    }
  }

  /** A new area does no harm exactly if nothing is mapped in it yet. */
  lemma PlacedFits(s: Snap, r: Frame, areas: seq<Area>, area: Area)
    requires AreasOk([area] + areas) && PagesFit(s, r, areas)
    ensures PagesFit(s, r, [area] + areas) <==>
      forall va: Path :: va.P4? && InBounds(va) && Covers(area, PageAddr(va)) ==> Walk(s.mem, r, va).Absent?
  {
    var all := [area] + areas;
    assert all[1..] == areas;
    forall va: Path | va.P4? && InBounds(va)
      ensures Fits(s, r, all, va) <==> (Covers(area, PageAddr(va)) ==> Walk(s.mem, r, va).Absent?)
    {
      assert Fits(s, r, areas, va);
      if Covers(area, PageAddr(va)) { LookupElsewhere(area, areas, PageAddr(va)); }
    }
  }

  /** A page mapped for a fault fits, and so does every other page as before. */
  lemma ServedFits(a: Snap, b: Snap, r: Frame, areas: seq<Area>, va: Path, area: Area, f: Frame)
    requires IsRoot(a.owner, r) && va.P4? && InBounds(va) && PagesFit(a, r, areas)
    requires Lookup(areas, PageAddr(va)) == Some(area) && Remapped(a, b, r, va, f, FaultFlags(area))
    ensures PagesFit(b, r, areas)
  {
    forall v: Path | v.P4? && InBounds(v) ensures Fits(b, r, areas, v) {
      assert Fits(a, r, areas, v);
    }
  }

  /** How a fault on the page `va` ends when no frame is left. */
  function Starved(mem: Memory, r: Frame, va: Path): PfResult
    requires va.P4?
  {
    if Walk(mem, r, va).Mapped? then PanicPresent
    else if EntryAt(mem, r, P3(va.m, va.p, va.d)).present then BogusFrame
    else PanicNoMemory
  }

  /** All that a fault on the page `va` takes is the frame `frame` and tables on the way to the page. */
  ghost predicate Spent(a: Snap, b: Snap, r: Frame, va: Path, frame: Frame) {
    forall g :: g in b.owner && g !in a.owner && g != frame ==>
      !b.owner[g].Other? && b.owner[g].root == r && !b.owner[g].at.P0? && Prefix(b.owner[g].at, va)
  }

  lemma SpentOnWay(a: Snap, h: Snap, b: Snap, r: Frame, va: Path, f: Frame)
    requires h == Held(a, f, ZeroPage()) && Grown(h, b, r, va) && NoStray(h, b)
    ensures Spent(a, b, r, va, f)
  {
  }

  /** How a fault on the page `va` of an area ends, in all cases. */
  ghost predicate FaultServed(a: Snap, b: Snap, free: set<Frame>, free': set<Frame>, r: Frame, va: Path, area: Area,
                              res: PfResult, frame: Frame)
    requires va.P4?
  {
    && (res.PanicPresent? <==> Walk(a.mem, r, va).Mapped?)
    && (free == {} ==> res == Starved(a.mem, r, va))
    && (res.BogusFrame? ==> free == {}) && (res.PanicNoMemory? ==> free' == {}) && !res.Segfault?
    && Spent(a, b, r, va, frame) && KeepsOthers(a, b, {})
    && (res.Served? ==>
          && frame in free && frame in b.owner && b.owner[frame].Data?
          && b.owner[frame].root == r && b.owner[frame].at == va
          && frame in b.mem && b.mem[frame] == ZeroPage()
          && Remapped(a, b, r, va, frame, FaultFlags(area)) && Clone.BelongsTo(a, b, r))
    && (res.BogusFrame? ==> Becomes(a, b, r, va, BogusLeaf(FaultFlags(area))) && !Sound(b))
    && (res.PanicNoMemory? || res.PanicPresent? ==> SameWalks(a, b))
  }

  lemma SameFits(a: Snap, b: Snap, r: Frame, areas: seq<Area>)
    requires IsRoot(a.owner, r) && PagesFit(a, r, areas) && SameWalks(a, b)
    ensures PagesFit(b, r, areas)
  {
    forall va: Path | va.P4? && InBounds(va) ensures Fits(b, r, areas, va) {
      assert Fits(a, r, areas, va);
    }
  }

  /** A fault in one space, however it ends, is nothing to the others. */
  lemma FaultSpares(a: Snap, b: Snap, free: set<Frame>, free': set<Frame>, r: Frame, va: Path, area: Area,
                    res: PfResult, frame: Frame, r': Frame, areas: seq<Area>)
    requires IsRoot(a.owner, r') && r' != r && va.P4? && PagesFit(a, r', areas)
    requires FaultServed(a, b, free, free', r, va, area, res, frame)
    ensures IsRoot(b.owner, r') && PagesFit(b, r', areas)
    ensures forall v: Path :: v.P4? && InBounds(v) ==> Walk(b.mem, r', v) == Walk(a.mem, r', v)
  {
    forall v: Path | v.P4? && InBounds(v) ensures Walk(b.mem, r', v) == Walk(a.mem, r', v) && Fits(b, r', areas, v) {
      assert Fits(a, r', areas, v);
      assert res.Served? || res.BogusFrame? || res.PanicNoMemory? || res.PanicPresent?;
    }
  }

  lemma RemappedFrom(a: Snap, h: Snap, b: Snap, r: Frame, va: Path, f: Frame, flags: Flags)
    requires va.P4? && SameWalks(a, h) && Remapped(h, b, r, va, f, flags)
    requires forall r' :: IsRoot(a.owner, r') ==> IsRoot(h.owner, r')
    ensures Remapped(a, b, r, va, f, flags)
  {
  }

  /** Whether the mapping functions object to a small page depends on its translation. */
  lemma Verdict(a: Snap, h: Snap, r: Frame, va: Path)
    requires Sound(h) && IsRoot(a.owner, r) && IsRoot(h.owner, r) && va.P4? && InBounds(va) && SameWalks(a, h)
    requires Walk(a.mem, r, va).Mapped? ==> Walk(a.mem, r, va).size.Size4K?
    ensures !LargeOnWay(h.mem, r, va) && EntryAt(h.mem, r, va).present == Walk(a.mem, r, va).Mapped?
  {
    AbsentMappable(h, r, va);
  }

  lemma NotMapped(a: Snap, h: Snap, b: Snap, free: set<Frame>, free': set<Frame>,
                  r: Frame, va: Path, area: Area, f: Frame, status: MapResult)
    requires va.P4? && f in free && f !in a.owner && h == Held(a, f, ZeroPage()) && SameWalks(a, h) && SameWalks(h, b)
    requires Grown(h, b, r, va) && NoStray(h, b) && KeepsOthers(h, b, {f}) && (status.Panic? || status.NoMemory?)
    requires (status.Panic? <==> Walk(a.mem, r, va).Mapped?) && (status.NoMemory? ==> free' == {})
    ensures FaultServed(a, b, free, free', r, va, area, if status.NoMemory? then PanicNoMemory else PanicPresent, f)
  {
    SpentOnWay(a, h, b, r, va, f);
  }

  lemma FreshMapped(a: Snap, h: Snap, b: Snap, free: set<Frame>, free': set<Frame>, r: Frame, va: Path, area: Area,
                    f: Frame)
    requires Sound(a) && IsRoot(a.owner, r) && va.P4? && InBounds(va) && Walk(a.mem, r, va).Absent?
    requires f !in a.owner && f in free && h == Held(a, f, ZeroPage()) && SameWalks(a, h)
    requires Grown(h, b, r, va) && NoStray(h, b) && KeepsOthers(h, b, {f}) && Remapped(h, b, r, va, f, FaultFlags(area))
    requires f in b.owner && b.owner[f].Data? && b.owner[f].root == r && b.owner[f].at == va
    ensures FaultServed(a, b, free, free', r, va, area, Served, f)
  {
    SpentOnWay(a, h, b, r, va, f);
    RemappedFrom(a, h, b, r, va, f, FaultFlags(area));
    FreshOwned(a, h, b, r, va, f);
  }

  lemma FreshOwned(a: Snap, h: Snap, b: Snap, r: Frame, va: Path, f: Frame)
    requires f !in a.owner && h == Held(a, f, ZeroPage())
    requires Grown(h, b, r, va) && NoStray(h, b) && KeepsOthers(h, b, {f})
    requires f in b.owner && b.owner[f].Data? && b.owner[f].root == r
    ensures f in b.mem && b.mem[f] == ZeroPage() && KeepsOthers(a, b, {}) && Clone.BelongsTo(a, b, r)
  {
    assert h.owner[f].Other?;
    FreshBelongs(a, h.owner, b, r, va, f);
  }

  lemma FreshBelongs(a: Snap, held: Owners, b: Snap, r: Frame, va: Path, f: Frame)
    requires f !in a.owner && held == a.owner[f := Other]
    requires forall g :: g in b.owner && !(g in held && b.owner[g] == held[g]) ==> NewOwner(b.owner[g], r, va, false)
    requires forall g :: g in b.owner && b.owner[g].Other? ==> g in held && held[g].Other?
    requires f in b.owner && b.owner[f].Data? && b.owner[f].root == r
    ensures Clone.BelongsTo(a, b, r)
  {
  }

  // ---- The entry with the frame that does not exist

  function WithBogus(s: Snap, f: Frame, i: nat, flags: Flags): Snap
    requires f in s.mem && i < 512
  {
    s.(mem := WriteEntry(s.mem, f, i, MakeEntry(BOGUS, false, flags)))
  }

  predicate MayBogus(s: Snap, f: Frame, i: nat) {
    f in s.mem && f in s.owner && s.owner[f].Table? && s.owner[f].at.P3? && i < 512 && !Read(s.mem, f, i).present
  }

  /** No frame number makes the new entry right: the page of an entry that was absent has no owner. */
  lemma BogusUnsound(s: Snap, f: Frame, i: nat, flags: Flags)
    requires Sound(s) && MayBogus(s, f, i) && flags.alloc
    ensures !Sound(WithBogus(s, f, i, flags))
  {
    var s' := WithBogus(s, f, i, flags);
    assert BOGUS in s.owner ==> OwnerOk(s.mem, s.owner, BOGUS);
    assert Read(s'.mem, f, i) == MakeEntry(BOGUS, false, flags);
    assert !EntryOk(s'.mem, s'.owner, f, i);
  }

  lemma BogusBecomes(s: Snap, f: Frame, i: nat, flags: Flags)
    requires Sound(s) && MayBogus(s, f, i)
    ensures Becomes(s, WithBogus(s, f, i, flags), s.owner[f].root, Child(s.owner[f].at, i), BogusLeaf(flags))
  {
    var s', q := WithBogus(s, f, i, flags), Child(s.owner[f].at, i);
    forall r: Frame, va: Path | IsRoot(s.owner, r) && va.P4? && InBounds(va)
      ensures Walk(s'.mem, r, va) ==
        if r == s.owner[f].root && OnWay(q, va) then BogusLeaf(flags) else Walk(s.mem, r, va)
    {
      if r == s.owner[f].root && OnWay(q, va) {
        WayAcross(s, s'.mem, f, i, va);
        assert Read(s'.mem, f, i) == MakeEntry(BOGUS, false, flags);
      } else {
        BogusQuiet(s, f, i, flags, r, va);
        QuietWalk(s, s', r, va);
      }
    }
  }

  lemma BogusQuiet(s: Snap, f: Frame, i: nat, flags: Flags, r: Frame, va: Path)
    requires MayBogus(s, f, i) && va.P4? && !(r == s.owner[f].root && OnWay(Child(s.owner[f].at, i), va))
    ensures QuietWay(s, WithBogus(s, f, i, flags), r, va)
  {
  }

  lemma BecomesFrom(a: Snap, h: Snap, b: Snap, r: Frame, q: Path, w: Translation)
    requires SameWalks(a, h) && KeepsOwners(a, h) && Becomes(h, b, r, q, w)
    ensures Becomes(a, b, r, q, w)
  {
    assert forall r' :: IsRoot(a.owner, r') ==> IsRoot(h.owner, r');
  }

  /** A page mapped to the bogus frame suits its area all the same. */
  lemma BogusFits(a: Snap, b: Snap, r: Frame, areas: seq<Area>, va: Path, area: Area)
    requires IsRoot(a.owner, r) && va.P4? && InBounds(va) && PagesFit(a, r, areas)
    requires Lookup(areas, PageAddr(va)) == Some(area) && Becomes(a, b, r, va, BogusLeaf(FaultFlags(area)))
    ensures PagesFit(b, r, areas)
  {
    forall v: Path | v.P4? && InBounds(v) ensures Fits(b, r, areas, v) {
      assert Fits(a, r, areas, v);
    }
  }

  /** How mapping the bogus frame ends, in all cases. */
  ghost predicate StarvedOutcome(a: Snap, b: Snap, r: Frame, va: Path, flags: Flags, res: PfResult)
    requires va.P4?
  {
    && IsRoot(b.owner, r) && KeepsOthers(a, b, {}) && res == Starved(a.mem, r, va)
    && (res.BogusFrame? ==> Becomes(a, b, r, va, BogusLeaf(flags)) && !Sound(b))
    && (!res.BogusFrame? ==> Sound(b) && SameWalks(a, b))
  }

  lemma StarvedAbove(a: Snap, b: Snap, free: set<Frame>, r: Frame, va: Path, flags: Flags, why: MapResult)
    requires Sound(a) && Sound(b) && IsRoot(a.owner, r) && va.P4? && InBounds(va) && !LargeOnWay(a.mem, r, va)
    requires Arrived(a, b, free, r, P3(va.m, va.p, va.d), Failed(why), flags)
    ensures StarvedOutcome(a, b, r, va, flags, PanicNoMemory)
  {
    AbsentMappable(a, r, va);
  }

  /** With a page table for the page, the fault ends in a panic only if the page is present. */
  lemma StarvedThere(a: Snap, b: Snap, free: set<Frame>, r: Frame, va: Path, flags: Flags, f: Frame)
    requires Sound(a) && Sound(b) && IsRoot(a.owner, r) && va.P4? && InBounds(va) && !LargeOnWay(a.mem, r, va)
    requires Arrived(a, b, free, r, P3(va.m, va.p, va.d), At(f), flags) && b.owner.Keys <= a.owner.Keys
    ensures IsTable(b.owner, r, P3(va.m, va.p, va.d), f) && IsRoot(b.owner, r) && SameWalks(a, b) && KeepsOwners(a, b)
    ensures Starved(a.mem, r, va) == if Read(b.mem, f, va.t).present then PanicPresent else BogusFrame
  {
    AbsentMappable(a, r, va);
    TableWasThere(a, b, r, va, f);
  }

  /** With no frame left, a page table that is found was there before. */
  lemma TableWasThere(a: Snap, b: Snap, r: Frame, va: Path, f: Frame)
    requires Sound(a) && va.P4? && b.owner.Keys <= a.owner.Keys && KeepsOwners(a, b)
    requires IsTable(b.owner, r, P3(va.m, va.p, va.d), f)
    ensures EntryAt(a.mem, r, P3(va.m, va.p, va.d)).present
  {
    assert f in a.owner && b.owner[f] == a.owner[f];
    WayUp(a, f, va);
  }

  // ---- Releasing an area

  /** The data pages of space `r` at the addresses from `lo` to `hi`. */
  function AreaFrames(owner: Owners, r: Frame, lo: nat, hi: nat): set<Frame> {
    set f | f in owner && owner[f].Data? && owner[f].root == r && owner[f].at.P4? && lo <= PageAddr(owner[f].at) < hi
  }

  /** The frames `g` are still allocated, but no space has them. */
  function Orphaned(owner: Owners, g: set<Frame>): Owners {
    map f | f in owner :: if f in g then Other else owner[f]
  }

  /** The pages of space `r` from `lo` to `hi` are unmapped, and no other page of any space is.
      Their frames are free again if they were user pages, and lost otherwise. */
  ghost predicate Released(a: Snap, b: Snap, free: set<Frame>, free': set<Frame>, r: Frame, lo: nat, hi: nat,
                           user: bool) {
    && ReleasedWalks(a, b, r, lo, hi) && Unmap.SamePages(a, b)
    && ReleasedFrames(a.owner, b.owner, free, free', AreaFrames(a.owner, r, lo, hi), user)
  }

  ghost predicate ReleasedWalks(a: Snap, b: Snap, r: Frame, lo: nat, hi: nat) {
    forall r': Frame, va: Path :: IsRoot(a.owner, r') && va.P4? && InBounds(va) ==>
      Walk(b.mem, r', va) == if r' == r && lo <= PageAddr(va) < hi then Absent else Walk(a.mem, r', va)
  }

  ghost predicate ReleasedFrames(owner: Owners, owner': Owners, free: set<Frame>, free': set<Frame>, g: set<Frame>,
                                 user: bool) {
    && free' == (if user then free + g else free)
    && owner' == (if user then owner - g else Orphaned(owner, g))
  }

  /** The release gives back exactly the frames of the area if and only if it is a user area, or
      no page of it was ever touched. */
  lemma ReleaseIsRight(a: Snap, b: Snap, free: set<Frame>, free': set<Frame>, r: Frame, lo: nat, hi: nat, user: bool)
    requires Released(a, b, free, free', r, lo, hi, user) && free !! a.owner.Keys
    ensures var g := AreaFrames(a.owner, r, lo, hi);
      free' == free + g && b.owner == a.owner - g <==> user || g == {}
  {
    var g := AreaFrames(a.owner, r, lo, hi);
    if !user && g != {} {
      var f :| f in g;
      assert f in b.owner;
    } else if g == {} {
      assert free + g == free && a.owner - g == a.owner && Orphaned(a.owner, g) == a.owner;
    }
  }

  /** A data page is what its path translates to. */
  lemma DataWalk(s: Snap, r: Frame, f: Frame)
    requires Sound(s) && f in s.owner && s.owner[f].Data? && s.owner[f].root == r
    ensures s.owner[f].at.P4? && InBounds(s.owner[f].at)
    ensures var w := Walk(s.mem, r, s.owner[f].at); w.Mapped? && w.size.Size4K? && w.alloc && w.frame == f
  {
    assert OwnerOk(s.mem, s.owner, f);
    Clone.EntryWalk(s, r, Parent(s.owner[f].at), s.owner[f].up, Last(s.owner[f].at), s.owner[f].at);
  }

  /** The page at `addr` is the one that the range up to the next page has in addition. */
  lemma RangeNext(va: Path, lo: nat, addr: nat)
    requires va.P4? && InBounds(va) && lo <= addr && Canonical(addr) && addr % PAGE_SIZE == 0
    ensures lo <= PageAddr(va) < addr + PAGE_SIZE <==> lo <= PageAddr(va) < addr || va == PathOf(addr)
    ensures addr <= PageAddr(va) < addr + PAGE_SIZE <==> va == PathOf(addr)
  {
    PageAt(va, addr);
    AlignedApart(PageAddr(va), addr);
  }

  lemma PageAt(va: Path, addr: nat)
    requires va.P4? && InBounds(va) && Canonical(addr) && addr % PAGE_SIZE == 0
    ensures PageAddr(va) % PAGE_SIZE == 0 && (PageAddr(va) == addr <==> va == PathOf(addr))
  {
    IndicesOfMadeAddr(va, 0);
    MadeAddrOfIndices(addr);
  }

  lemma AlignedApart(x: nat, addr: nat)
    requires x % PAGE_SIZE == 0 && addr % PAGE_SIZE == 0
    ensures x < addr + PAGE_SIZE <==> x <= addr
  {
  }

  /** `v` is what the range up to `hi'` has in addition to that up to `hi`. */
  ghost predicate Extends(lo: nat, hi: nat, hi': nat, v: Path) {
    && (forall va: Path :: va.P4? && InBounds(va) ==>
          (lo <= PageAddr(va) < hi' <==> lo <= PageAddr(va) < hi || va == v))
    && (forall va: Path :: va.P4? && InBounds(va) ==> (hi <= PageAddr(va) < hi' <==> va == v))
  }

  lemma RangesNext(lo: nat, addr: nat)
    requires lo <= addr && Canonical(addr) && addr % PAGE_SIZE == 0
    ensures Extends(lo, addr, addr + PAGE_SIZE, PathOf(addr))
  {
    forall va: Path | va.P4? && InBounds(va)
      ensures lo <= PageAddr(va) < addr + PAGE_SIZE <==> lo <= PageAddr(va) < addr || va == PathOf(addr)
      ensures addr <= PageAddr(va) < addr + PAGE_SIZE <==> va == PathOf(addr)
    {
      RangeNext(va, lo, addr);
    }
  }

  /** The data pages at one address: the page it translates to, if that is an allocated one. */
  lemma OneAreaFrame(s: Snap, r: Frame, areas: seq<Area>, lo: nat, hi: nat, hi': nat, v: Path)
    requires Sound(s) && IsRoot(s.owner, r) && Extends(lo, hi, hi', v) && v.P4? && InBounds(v)
    requires Fits(s, r, areas, v) && Lookup(areas, PageAddr(v)).Some?
    ensures var w := Walk(s.mem, r, v); AreaFrames(s.owner, r, hi, hi') == if w.Mapped? then {w.frame} else {}
  {
    var w := Walk(s.mem, r, v);
    Clone.SourceData(s, r, v);
    var g := AreaFrames(s.owner, r, hi, hi');
    forall f | f in g ensures w.Mapped? && f == w.frame {
      DataWalk(s, r, f);
    }
  }

  lemma FramesNext(s: Snap, r: Frame, lo: nat, hi: nat, hi': nat)
    requires lo <= hi <= hi'
    ensures AreaFrames(s.owner, r, lo, hi') == AreaFrames(s.owner, r, lo, hi) + AreaFrames(s.owner, r, hi, hi')
  {
  }

  lemma WalksNext(a: Snap, b: Snap, c: Snap, r: Frame, lo: nat, hi: nat, hi': nat, v: Path)
    requires Extends(lo, hi, hi', v) && ReleasedWalks(a, b, r, lo, hi) && Unmap.Unmapped(b, c, r, v)
    requires forall r' :: IsRoot(a.owner, r') ==> IsRoot(b.owner, r')
    ensures ReleasedWalks(a, c, r, lo, hi')
  {
  }

  /** The frames released up to here and the one of the next page. */
  lemma ReleaseOne(o: Owners, o1: Owners, o2: Owners, free: set<Frame>, free1: set<Frame>, free2: set<Frame>,
                   g: set<Frame>, h: set<Frame>, user: bool, e: Pte)
    requires ReleasedFrames(o, o1, free, free1, g, user) && h == (if e.alloc then {e.frame} else {})
    requires (e.alloc ==> e.user == user && e.frame in o1)
    requires free2 == (if e.alloc && e.user then free1 + {e.frame} else free1)
    requires o2 == (if !e.alloc then o1 else if e.user then o1 - {e.frame} else o1[e.frame := Other])
    ensures ReleasedFrames(o, o2, free, free2, g + h, user)
  {
    if e.alloc {
      assert o - (g + h) == o - g - h;
      assert free + (g + h) == free + g + h;
    } else {
      assert g + h == g;
    }
  }

  /** One page more. */
  lemma ReleaseNext(a: Snap, b: Snap, c: Snap, free: set<Frame>, free1: set<Frame>, free2: set<Frame>,
                    r: Frame, areas: seq<Area>, area: Area, lo: nat, hi: nat, hi': nat, v: Path, e: Pte)
    requires Sound(a) && IsRoot(a.owner, r) && lo <= hi <= hi' && Extends(lo, hi, hi', v) && v.P4? && InBounds(v)
    requires Fits(a, r, areas, v) && Lookup(areas, PageAddr(v)) == Some(area)
    requires Released(a, b, free, free1, r, lo, hi, area.flags.user) && Unmap.AfterClear(b, c, free1, free2, r, v, e)
    requires var w := Walk(a.mem, r, v); if w.Mapped? then w == Leaf(Size4K, e) && e.frame in b.owner else e == ZERO
    requires forall r' :: IsRoot(a.owner, r') ==> IsRoot(b.owner, r')
    ensures Released(a, c, free, free2, r, lo, hi', area.flags.user)
  {
    WalksNext(a, b, c, r, lo, hi, hi', v);
    OneAreaFrame(a, r, areas, lo, hi, hi', v);
    FramesNext(a, r, lo, hi, hi');
    var g, h := AreaFrames(a.owner, r, lo, hi), AreaFrames(a.owner, r, hi, hi');
    ReleaseOne(a.owner, b.owner, c.owner, free, free1, free2, g, h, area.flags.user, e);
  }

  /** After the release the remaining areas are in order. */
  lemma ReleasedFits(a: Snap, b: Snap, r: Frame, areas: seq<Area>, i: nat)
    requires IsRoot(a.owner, r) && AreasOk(areas) && PagesFit(a, r, areas) && i < |areas|
    requires ReleasedWalks(a, b, r, areas[i].start, areas[i].start + areas[i].size * PAGE_SIZE)
    ensures AreasOk(Removed(areas, i)) && PagesFit(b, r, Removed(areas, i))
  {
    WithoutLookup(areas, i, 0);
    forall va: Path | va.P4? && InBounds(va) ensures Fits(b, r, Removed(areas, i), va) {
      WithoutLookup(areas, i, PageAddr(va));
      assert Fits(a, r, areas, va);
    }
  }

  predicate WithinArea(areas: seq<Area>, area: Area, addr: nat, end: nat) {
    Lookup(areas, addr) == Some(area) && Canonical(addr) && addr + PAGE_SIZE <= end
  }

  /** Every page from `start` to `end` lies in the area. */
  ghost predicate AllWithin(areas: seq<Area>, area: Area, start: nat, end: nat) {
    forall addr :: start <= addr < end && addr % PAGE_SIZE == 0 ==> WithinArea(areas, area, addr, end)
  }

  lemma EndOfProper(area: Area, end: nat)
    requires Proper(area) && EndOf(area.start, area.size) == end
    ensures end == area.start + area.size * PAGE_SIZE && area.start <= end
  {
  }

  lemma PagesInArea(areas: seq<Area>, k: nat, start: nat, end: nat)
    requires AreasOk(areas) && k < |areas| && start == areas[k].start && end == start + areas[k].size * PAGE_SIZE
    ensures AllWithin(areas, areas[k], start, end)
  {
    forall addr | start <= addr < end && addr % PAGE_SIZE == 0 ensures WithinArea(areas, areas[k], addr, end) {
      PageInArea(areas, k, addr);
    }
  }

  lemma NothingReleased(a: Snap, free: set<Frame>, r: Frame, lo: nat, user: bool)
    requires Sound(a)
    ensures Released(a, a, free, free, r, lo, lo, user)
  {
    assert AreaFrames(a.owner, r, lo, lo) == {};
    assert Orphaned(a.owner, {}) == a.owner;
  }

  /** The copy of a space in order is in order. */
  lemma CloneFits(a: Snap, b: Snap, src: Frame, dst: Frame, areas: seq<Area>, list: seq<Area>)
    requires PagesFit(a, src, areas) && forall addr :: Lookup(list, addr) == Lookup(areas, addr)
    requires forall va: Path :: va.P4? && InBounds(va) ==> Clone.CloneOf(a, b, src, dst, va)
    ensures PagesFit(b, dst, list)
  {
    forall va: Path | va.P4? && InBounds(va) ensures Fits(b, dst, list, va) {
      assert Fits(a, src, areas, va) && Clone.CloneOf(a, b, src, dst, va);
    }
  }

  lemma NextPage(lo: nat, addr: nat)
    requires lo <= addr && Canonical(addr) && addr % PAGE_SIZE == 0
    ensures var v := PathOf(addr); InBounds(v) && PageAddr(v) == addr && Extends(lo, addr, addr + PAGE_SIZE, v)
  {
    MadeAddrOfIndices(addr);
    RangesNext(lo, addr);
  }

  /** One vmem_unmap_page of vmem_free_pages */
  method ReleasePage(pm: PhysMem, root: Frame, v: Path, ghost a: Snap, ghost free: set<Frame>, ghost all: seq<Area>,
                     ghost area: Area, ghost lo: nat, ghost hi: nat, ghost hi': nat)
    requires pm.Valid() && Sound(a) && IsRoot(a.owner, root) && IsRoot(pm.owner, root) && v.P4? && InBounds(v)
    requires PagesFit(a, root, all) && Lookup(all, PageAddr(v)) == Some(area)
    requires lo <= hi <= hi' && Extends(lo, hi, hi', v) && PageAddr(v) == hi
    requires Released(a, pm.Now(), free, pm.free, root, lo, hi, area.flags.user)
    modifies pm
    ensures pm.Valid() && IsRoot(pm.owner, root)
    ensures Released(a, pm.Now(), free, pm.free, root, lo, hi', area.flags.user)
  {
    ghost var b, free1 := pm.Now(), pm.free;
    var res := Unmap.UnmapPage(pm, root, v);
    PageReleased(a, b, pm.Now(), free, free1, pm.free, root, all, area, lo, hi, hi', v, res);
  }

  lemma PageReleased(a: Snap, b: Snap, c: Snap, free: set<Frame>, free1: set<Frame>, free2: set<Frame>, r: Frame,
                     all: seq<Area>, area: Area, lo: nat, hi: nat, hi': nat, v: Path, res: Unmap.UnmapResult)
    requires Sound(a) && Sound(b) && IsRoot(a.owner, r) && IsRoot(b.owner, r) && v.P4? && InBounds(v)
    requires PagesFit(a, r, all) && Lookup(all, PageAddr(v)) == Some(area) && lo <= hi <= hi' && Extends(lo, hi, hi', v)
    requires !(lo <= PageAddr(v) < hi) && Released(a, b, free, free1, r, lo, hi, area.flags.user)
    requires Unmap.UnmapOutcome(b, c, free1, free2, r, v, res)
    ensures IsRoot(c.owner, r) && Released(a, c, free, free2, r, lo, hi', area.flags.user)
  {
    assert Fits(a, r, all, v) && Walk(b.mem, r, v) == Walk(a.mem, r, v);
    ReleaseReady(a, b, r, all, v);
    ReleaseNext(a, b, c, free, free1, free2, r, all, area, lo, hi, hi', v, EntryAt(b.mem, r, v));
  }

  /** What vmem_unmap_page finds for a page of an area: nothing, or an allocated page. */
  lemma ReleaseReady(a: Snap, b: Snap, r: Frame, areas: seq<Area>, v: Path)
    requires Sound(b) && IsRoot(b.owner, r) && v.P4? && InBounds(v)
    requires Fits(a, r, areas, v) && Lookup(areas, PageAddr(v)).Some? && Walk(b.mem, r, v) == Walk(a.mem, r, v)
    ensures !LargeOnWay(b.mem, r, v)
    ensures var w, e := Walk(a.mem, r, v), EntryAt(b.mem, r, v);
      if w.Mapped? then w == Leaf(Size4K, e) && e.alloc && e.frame in b.owner else e == ZERO
  {
    AbsentMappable(b, r, v);
    Clone.SourceData(b, r, v);
  }

  /** The second loop of vmem_free_pages */
  method ReleaseAll(pm: PhysMem, root: Frame, start: nat, end: nat, ghost all: seq<Area>, ghost area: Area)
    requires pm.Valid() && IsRoot(pm.owner, root) && PagesFit(pm.Now(), root, all)
    requires start <= end && start % PAGE_SIZE == 0 && AllWithin(all, area, start, end)
    modifies pm
    ensures pm.Valid() && IsRoot(pm.owner, root)
    ensures Released(old(pm.Now()), pm.Now(), old(pm.free), pm.free, root, start, end, area.flags.user)
  {
    ghost var a, free := pm.Now(), pm.free;
    var addr := start;
    NothingReleased(a, free, root, start, area.flags.user);
    while addr < end
      invariant start <= addr <= end && addr % PAGE_SIZE == 0
      invariant pm.Valid() && IsRoot(pm.owner, root)
      invariant Released(a, pm.Now(), free, pm.free, root, start, addr, area.flags.user)
    {
      assert WithinArea(all, area, addr, end);
      NextPage(start, addr);
      ReleasePage(pm, root, PathOf(addr), a, free, all, area, start, addr, addr + PAGE_SIZE);
      AlignedNext(addr);
      addr := addr + PAGE_SIZE;
    }
  }

  /** vmem_init: a space without areas and without pages */
  method Create(pm: PhysMem) returns (space: Option<Space>)
    requires pm.Valid()
    modifies pm
    ensures pm.Valid() && (space.None? <==> old(pm.free) == {}) && SameWalks(old(pm.Now()), pm.Now())
    ensures space.None? ==> pm.Now() == old(pm.Now()) && pm.free == old(pm.free)
    ensures space.Some? ==> fresh(space.value) && space.value.pm == pm && space.value.Valid() && space.value.areas == []
    ensures space.Some? ==> pm.free == old(pm.free) - {space.value.root} && space.value.root in old(pm.free)
    ensures space.Some? ==>
      KeepsOthers(old(pm.Now()), pm.Now(), {}) && Clone.BelongsTo(old(pm.Now()), pm.Now(), space.value.root)
    ensures space.Some? ==> forall i :: 0 <= i < 512 ==> Read(pm.mem, space.value.root, i) == ZERO
    ensures space.Some? ==> forall va: Path :: va.P4? && InBounds(va) ==> Walk(pm.mem, space.value.root, va).Absent?
  {
    ghost var s := pm.Now();
    var root := Clone.InitSpace(pm);
    if root.None? {
      return None;
    }
    forall va: Path | va.P4? && InBounds(va) ensures Fits(pm.Now(), root.value, [], va) {
      assert Walk(pm.mem, root.value, va).Absent?;
    }
    var v := new Space(pm, root.value, []);
    space := Some(v);
  }

  /** An address is in the page that begins at the address rounded down. */
  lemma FaultAddress(areas: seq<Area>, addr: nat, page: nat)
    requires AreasOk(areas) && Canonical(addr) && page == addr - addr % PAGE_SIZE
    ensures PathOf(page) == PathOf(addr) && InBounds(PathOf(addr)) && PageAddr(PathOf(addr)) == page
    ensures Lookup(areas, page) == Lookup(areas, addr)
  {
    MadeAddrOfIndices(addr);
    PagesApart(addr, page);
    LookupPage(areas, addr);
  }

  class Space {
    const pm: PhysMem
    var root: Frame
    var areas: seq<Area>

    /** The space has a PML4, its areas are in order and its pages suit them. */
    ghost predicate Sane()
      reads this, pm
    {
      IsRoot(pm.owner, root) && AreasOk(areas) && PagesFit(pm.Now(), root, areas)
    }

    ghost predicate Valid()
      reads this, pm
    {
      pm.Valid() && Sane()
    }

    constructor (pm: PhysMem, root: Frame, areas: seq<Area>)
      ensures this.pm == pm && this.root == root && this.areas == areas
    {
      this.pm := pm;
      this.root := root;
      this.areas := areas;
    }

    /** vmem_is_mapped */
    method IsMapped(addr: nat) returns (area: Option<Area>)
      ensures area == Lookup(areas, addr)
    {
      var i := 0;
      while i < |areas|
        invariant i <= |areas| && forall j :: 0 <= j < i ==> !Covers(areas[j], addr)
      {
        if Covers(areas[i], addr) {
          LookupFirst(areas, addr, i);
          return Some(areas[i]);
        }
        i := i + 1;
      }
      LookupNone(areas, addr);
      return None;
    }

    /** vmem_intersects */
    method Intersects(start: nat, pgcnt: nat) returns (found: bool)
      ensures found == Meets(areas, start, pgcnt)
    {
      var end := (start + pgcnt) % WORD;
      var i := 0;
      while i < |areas|
        invariant i <= |areas|
        invariant forall j :: 0 <= j < i ==> end <= areas[j].start || EndOf(areas[j].start, areas[j].size) <= start
      {
        if !(end <= areas[i].start || EndOf(areas[i].start, areas[i].size) <= start) {
          return true;
        }
        i := i + 1;
      }
      return false;
    }

    /** vmem_alloc_pages */
    method AllocPages(start: nat, pgcnt: nat, flags: Flags) returns (res: AreaResult)
      requires AreasOk(areas) && start % PAGE_SIZE == 0
      modifies this`areas
      ensures res == if Meets(old(areas), start, pgcnt) then Overlap else Placed
      ensures res.Overlap? ==> areas == old(areas)
      ensures res.Placed? ==> areas == [Area(start, pgcnt, flags)] + old(areas)
      ensures res.Placed? ==>
        (AreasOk(areas) <==> Proper(Area(start, pgcnt, flags)) && !StartsInside(old(areas), start, pgcnt))
      ensures Clear(old(areas), Area(start, pgcnt, flags)) ==> res.Placed? && AreasOk(areas)
    {
      if Clear(areas, Area(start, pgcnt, flags)) {
        ClearAccepted(areas, Area(start, pgcnt, flags));
      }
      var meets := Intersects(start, pgcnt);
      if meets {
        return Overlap;
      }
      PlacedOk(areas, start, pgcnt, flags);
      areas := [Area(start, pgcnt, flags)] + areas;
      return Placed;
    }

    /** vmem_map_page as vmem_handle_pf calls it when there is no frame left: what frame_alloc
        returned, NULL, has become the physical address 0x778000000000 and is not recognised. */
    method MapBogus(va: Path, flags: Flags) returns (res: PfResult)
      requires Valid() && va.P4? && InBounds(va) && Lookup(areas, PageAddr(va)).Some? && pm.free == {} && flags.alloc
      modifies pm
      ensures pm.Accounted() && pm.free == {}
      ensures StarvedOutcome(old(pm.Now()), pm.Now(), root, va, flags, res)
    {
      ghost var s := pm.Now();
      assert Fits(s, root, areas, va);
      AbsentMappable(s, root, va);
      var tbl := pm.EnsureTable(root, va.m, va.p, va.d, flags);
      if tbl.Failed? {
        StarvedAbove(s, pm.Now(), pm.free, root, va, flags, tbl.why);
        return PanicNoMemory;
      }
      StarvedThere(s, pm.Now(), pm.free, root, va, flags, tbl.frame);
      res := BogusInTable(tbl.frame, va, flags, s);
    }

    /** The end of vmem_map_page for the bogus frame */
    method BogusInTable(tbl: Frame, va: Path, flags: Flags, ghost s: Snap) returns (res: PfResult)
      requires pm.Valid() && va.P4? && InBounds(va) && IsTable(pm.owner, root, P3(va.m, va.p, va.d), tbl)
      requires flags.alloc && SameWalks(s, pm.Now()) && KeepsOwners(s, pm.Now()) && IsRoot(pm.owner, root)
      requires Starved(s.mem, root, va) == if Read(pm.mem, tbl, va.t).present then PanicPresent else BogusFrame
      modifies pm`mem
      ensures pm.Accounted() && StarvedOutcome(s, pm.Now(), root, va, flags, res)
    {
      if Read(pm.mem, tbl, va.t).present {
        return PanicPresent;
      }
      PutBogus(tbl, va, flags, s);
      res := BogusFrame;
    }

    /** The assignment of the entry */
    method PutBogus(tbl: Frame, va: Path, flags: Flags, ghost s: Snap)
      requires pm.Valid() && va.P4? && InBounds(va) && IsTable(pm.owner, root, P3(va.m, va.p, va.d), tbl)
      requires !Read(pm.mem, tbl, va.t).present && flags.alloc && SameWalks(s, pm.Now()) && KeepsOwners(s, pm.Now())
      modifies pm`mem
      ensures pm.Accounted() && !Sound(pm.Now()) && Becomes(s, pm.Now(), root, va, BogusLeaf(flags))
    {
      ghost var h := pm.Now();
      BogusUnsound(h, tbl, va.t, flags);
      BogusBecomes(h, tbl, va.t, flags);
      pm.mem := WriteEntry(pm.mem, tbl, va.t, MakeEntry(BOGUS, false, flags));
      BecomesFrom(s, h, pm.Now(), root, va, BogusLeaf(flags));
    }

    /** vmem_map_page of the frame that vmem_handle_pf has got */
    method MapFresh(va: Path, area: Area, f: Frame, ghost s: Snap, ghost free: set<Frame>) returns (res: PfResult)
      requires pm.Valid() && Sound(s) && IsRoot(s.owner, root) && va.P4? && InBounds(va) && f !in s.owner && f in free
      requires pm.Now() == Held(s, f, ZeroPage()) && SameWalks(s, pm.Now())
      requires Walk(s.mem, root, va).Mapped? ==> Walk(s.mem, root, va).size.Size4K?
      modifies pm
      ensures pm.Valid() && IsRoot(pm.owner, root) && FaultServed(s, pm.Now(), free, pm.free, root, va, area, res, f)
    {
      ghost var h := pm.Now();
      Verdict(s, h, root, va);
      var status := pm.MapPage(root, va, f, FaultFlags(area));
      if status.Done? {
        FreshMapped(s, h, pm.Now(), free, pm.free, root, va, area, f);
        res := Served;
      } else {
        NotMapped(s, h, pm.Now(), free, pm.free, root, va, area, f, status);
        res := if status.NoMemory? then PanicNoMemory else PanicPresent;
      }
    }

    /** vmem_handle_pf for a page in the area `area` */
    method FaultPage(va: Path, area: Area) returns (res: PfResult, ghost frame: Frame)
      requires Valid() && va.P4? && InBounds(va) && Lookup(areas, PageAddr(va)) == Some(area)
      modifies pm
      ensures pm.Accounted() && Sane() && (!res.BogusFrame? ==> Valid())
      ensures FaultServed(old(pm.Now()), pm.Now(), old(pm.free), pm.free, root, va, area, res, frame)
    {
      ghost var s := pm.Now();
      frame := 0;
      assert Fits(s, root, areas, va);
      var f := pm.FrameAlloc();
      if f.None? {
        res := MapBogus(va, FaultFlags(area));
      } else {
        frame := f.value;
        res := MapFresh(va, area, f.value, s, old(pm.free));
      }
      if res.Served? {
        ServedFits(s, pm.Now(), root, areas, va, area, frame);
      } else if res.BogusFrame? {
        BogusFits(s, pm.Now(), root, areas, va, area);
      } else {
        SameFits(s, pm.Now(), root, areas);
      }
    }

    /** vmem_handle_pf, in the space in use.  The tables stay sound unless a bogus frame is mapped. */
    method HandlePf(addr: nat) returns (res: PfResult, ghost frame: Frame)
      requires Valid() && Canonical(addr)
      modifies pm
      ensures pm.Accounted() && Sane() && (Valid() <==> !res.BogusFrame?)
      ensures res.Segfault? <==> Lookup(areas, addr).None?
      ensures res.Segfault? ==> pm.Now() == old(pm.Now()) && pm.free == old(pm.free)
      ensures !res.Segfault? ==>
        FaultServed(old(pm.Now()), pm.Now(), old(pm.free), pm.free, root, PathOf(addr), Lookup(areas, addr).value,
                    res, frame)
    {
      var page := addr - addr % PAGE_SIZE;
      FaultAddress(areas, addr, page);
      frame := 0;
      var area := IsMapped(addr);
      if area.None? {
        return Segfault, 0;
      }
      res, frame := FaultPage(PathOf(page), area.value);
    }

    /** The loop of vmem_free_pages over the list */
    method FindArea(start: nat, end: nat) returns (i: nat)
      ensures i <= |areas|
      ensures i < |areas| ==> Matches(areas[i], start, end)
      ensures forall j :: 0 <= j < i ==> !Matches(areas[j], start, end)
    {
      i := 0;
      while i < |areas|
        invariant i <= |areas|
        invariant forall j :: 0 <= j < i ==> !Matches(areas[j], start, end)
      {
        if start == areas[i].start && EndOf(areas[i].start, areas[i].size) == end {
          return;
        }
        i := i + 1;
      }
    }

    /** vmem_free_pages: the area is gone and so are its pages; what becomes of their frames depends
        on the user flag of the area. */
    method FreePages(start: nat, pgcnt: nat) returns (res: AreaResult, ghost i: nat)
      requires Valid() && start % PAGE_SIZE == 0
      modifies this`areas, pm
      ensures Valid()
      ensures res.Mismatch? || res.Freed?
      ensures res.Mismatch? <==>
        forall j :: 0 <= j < |old(areas)| ==> !Matches(old(areas)[j], start, EndOf(start, pgcnt))
      ensures res.Mismatch? ==> areas == old(areas) && pm.Now() == old(pm.Now()) && pm.free == old(pm.free)
      ensures res.Freed? ==>
        i < |old(areas)| && areas == Removed(old(areas), i) && Matches(old(areas)[i], start, EndOf(start, pgcnt))
      ensures res.Freed? ==>
        Released(old(pm.Now()), pm.Now(), old(pm.free), pm.free, root, start, EndOf(start, pgcnt),
                 old(areas)[i].flags.user)
    {
      ghost var a, all := pm.Now(), areas;
      var end := EndOf(start, pgcnt);
      var k := FindArea(start, end);
      i := k;
      if k == |areas| {
        return Mismatch, k;
      }
      EndOfProper(all[k], end);
      PagesInArea(all, k, start, end);
      areas := Removed(areas, k);
      ReleaseAll(pm, root, start, end, all, all[k]);
      ReleasedFits(a, pm.Now(), root, all, k);
      return Freed, k;
    }

    /** vmem_clone: the copy has the areas in the opposite order, answers every lookup as the
        original, and its pages mean what the pages of the original mean. */
    method CloneInto() returns (dst: Option<Space>)
      requires Valid()
      modifies pm
      ensures Valid() && SameWalks(old(pm.Now()), pm.Now())
      ensures forall r :: IsRoot(old(pm.owner), r) ==> Clone.Intact(old(pm.Now()), pm.Now(), r)
      ensures KeepsOthers(old(pm.Now()), pm.Now(), {}) && Clone.SparesSpaces(old(pm.Now()), pm.Now())
      ensures dst.None? ==> pm.free == {} && pm.owner.Keys == old(pm.owner.Keys) + old(pm.free)
      ensures dst.Some? ==> Clone.BelongsTo(old(pm.Now()), pm.Now(), dst.value.root)
      ensures dst.Some? ==>
        fresh(dst.value) && dst.value.pm == pm && dst.value.Valid() && dst.value.root in old(pm.free)
      ensures dst.Some? ==>
        dst.value.areas == Reversed(areas) && forall addr :: Lookup(dst.value.areas, addr) == Lookup(areas, addr)
      ensures dst.Some? ==> forall va: Path :: va.P4? && InBounds(va) ==>
        Clone.CloneOf(old(pm.Now()), pm.Now(), root, dst.value.root, va)
    {
      ghost var s := pm.Now();
      var list: seq<Area> := [];
      var i := 0;
      while i < |areas|
        invariant i <= |areas| && list == Reversed(areas[..i])
        modifies {}
      {
        ReversedPush(areas, i);
        list := [areas[i]] + list;
        i := i + 1;
      }
      assert areas[..|areas|] == areas;
      ReversedSame(areas);
      var r := Clone.CloneSpace(pm, root);
      SameFits(s, pm.Now(), root, areas);
      if r.None? {
        return None;
      }
      CloneFits(s, pm.Now(), root, r.value, areas, list);
      var space := new Space(pm, r.value, list);
      dst := Some(space);
    }

    /** vmem_destroy: all areas and all frames of the space are given back, unless it is in use. */
    method TearDown(current: Option<Space>) returns (ok: bool)
      requires Valid() && (current.Some? && current.value != this ==> current.value.root != root)
      modifies this`areas, pm
      ensures pm.Valid() && ok == (current != Some(this))
      ensures !ok ==> areas == old(areas) && pm.Now() == old(pm.Now()) && pm.free == old(pm.free)
      ensures ok ==> areas == [] && pm.free == old(pm.free) + Destroy.Belonging(old(pm.owner), root)
      ensures ok ==> Destroy.Destroyed(old(pm.Now()), pm.Now(), root)
      ensures ok ==> forall r :: r != root && IsRoot(old(pm.owner), r) ==> Clone.Intact(old(pm.Now()), pm.Now(), r)
    {
      if current == Some(this) {
        return false;
      }
      while areas != []
        modifies this`areas
        decreases |areas|
      {
        areas := areas[1..];
      }
      ok := Destroy.DestroySpace(pm, root, None);
    }
  }

  /** A task's whole use of memory: a space is created, gets an area, takes page faults at any
      addresses, and is destroyed.  Every frame comes back, whatever the faults were. */
  method Lifetime(pm: PhysMem, start: nat, pgcnt: nat, flags: Flags, faults: seq<nat>) returns (ok: bool)
    requires pm.Valid() && forall k :: 0 <= k < |faults| ==> Canonical(faults[k])
    requires start % PAGE_SIZE == 0 && Proper(Area(start, pgcnt, flags))
    modifies pm
    ensures pm.Accounted() && (pm.Valid() || pm.free == {})
    ensures ok ==> pm.Valid() && pm.free == old(pm.free) && pm.owner == old(pm.owner)
    ensures !ok ==> old(pm.free) == {} || faults != []
  {
    ghost var a := pm.Now();
    var space := Create(pm);
    if space.None? {
      return false;
    }
    var v := space.value;
    var res := v.AllocPages(start, pgcnt, flags);
    OneAreaFits(pm.Now(), v.root, v.areas);
    var k := 0;
    while k < |faults|
      invariant k <= |faults| && v.Valid() && v.pm == pm
      invariant KeepsOthers(a, pm.Now(), {}) && Clone.BelongsTo(a, pm.Now(), v.root) && v.root !in a.owner
    {
      ghost var b := pm.Now();
      var pf, frame := v.HandlePf(faults[k]);
      if !pf.Served? && !pf.Segfault? {
        return false;
      }
      if pf.Served? { Clone.TookThen(a, b, pm.Now(), v.root); }
      k := k + 1;
    }
    ghost var b := pm.Now();
    ok := v.TearDown(None);
    Destroy.SpaceLifetime(pm.frames, a, old(pm.free), b, pm.Now(), pm.free, v.root);
  }

  lemma OneAreaFits(s: Snap, r: Frame, areas: seq<Area>)
    requires |areas| == 1 && Proper(areas[0]) && forall va: Path :: va.P4? && InBounds(va) ==>
      Walk(s.mem, r, va).Absent?
    ensures AreasOk(areas) && PagesFit(s, r, areas)
  {
  }
}
