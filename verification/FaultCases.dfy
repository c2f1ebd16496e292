/** When page faults of mm/vmem.c are served, and inputs on which the release of an area loses a
    frame and on which a page is mapped to a frame that does not exist. */
module FaultCases {
  import opened Common
  import opened Tables
  import opened TableSteps
  import opened Paging
  import opened Vmem
  import opened Areas
  import opened Spaces
  import Destroy

  lemma {:induction false} SubsetSize(a: set<Frame>, b: set<Frame>)
    requires a <= b
    ensures |a| <= |b|
  {
    if a != {} {
      var x :| x in a;
      SubsetSize(a - {x}, b - {x});
    }
  }

  lemma FourFrames(g: set<Frame>, w: Frame, x: Frame, y: Frame, z: Frame)
    requires g <= {w, x, y, z}
    ensures |g| <= 4
  {
    SubsetSize(g, {w, x, y, z});
    assert |{w, x, y, z}| <= 4;
  }

  /** The table of the space at a path, or `other`. */
  ghost function TableAt(owner: Owners, r: Frame, q: Path, other: Frame): (f: Frame)
    ensures forall g: Frame :: IsTable(owner, r, q, g) ==> IsTable(owner, r, q, f)
  {
    if g: Frame :| IsTable(owner, r, q, g) then g else other
  }

  lemma IsTableAt(s: Snap, r: Frame, q: Path, f: Frame, other: Frame)
    requires Sound(s) && IsTable(s.owner, r, q, f)
    ensures f == TableAt(s.owner, r, q, other)
  {
    Destroy.OneTable(s, r, q, f, TableAt(s.owner, r, q, other));
  }

  /** Of the frames a failing fault has taken, one that is not for the page is a table on the way. */
  lemma SpentTable(a: Snap, b: Snap, r: Frame, va: Path, frame: Frame, f: Frame)
    requires Sound(b) && va.P4? && Walk(b.mem, r, va).Absent? && Spent(a, b, r, va, frame)
    requires f in b.owner && f !in a.owner && f != frame
    ensures f == TableAt(b.owner, r, P1(va.m), frame) || f == TableAt(b.owner, r, P2(va.m, va.p), frame)
      || f == TableAt(b.owner, r, P3(va.m, va.p, va.d), frame)
  {
    assert OwnerOk(b.mem, b.owner, f);
    if b.owner[f].Data? {
      DataWalk(b, r, f);
    } else {
      IsTableAt(b, r, b.owner[f].at, f, frame);
    }
  }

  /** What a failing fault has taken is the frame for the page and at most three tables. */
  lemma SpentFrames(a: Snap, b: Snap, r: Frame, va: Path, frame: Frame, g: set<Frame>)
    requires Sound(b) && va.P4? && Walk(b.mem, r, va).Absent? && Spent(a, b, r, va, frame)
    requires g <= b.owner.Keys && g !! a.owner.Keys
    ensures |g| <= 4
  {
    var t1 := TableAt(b.owner, r, P1(va.m), frame);
    var t2 := TableAt(b.owner, r, P2(va.m, va.p), frame);
    var t3 := TableAt(b.owner, r, P3(va.m, va.p, va.d), frame);
    forall f | f in g ensures f in {frame, t1, t2, t3} {
      if f != frame { SpentTable(a, b, r, va, frame, f); }
    }
    FourFrames(g, frame, t1, t2, t3);
  }

  /** A fault on a page of an area that is not mapped yet is served while five frames are free. */
  lemma EnoughFrames(a: Snap, b: Snap, free: set<Frame>, free': set<Frame>, r: Frame, va: Path, area: Area,
                     res: PfResult, frame: Frame)
    requires (!res.BogusFrame? ==> Sound(b)) && IsRoot(a.owner, r) && IsRoot(b.owner, r) && va.P4? && InBounds(va)
    requires free !! a.owner.Keys && free + a.owner.Keys == free' + b.owner.Keys
    requires FaultServed(a, b, free, free', r, va, area, res, frame)
    ensures Walk(a.mem, r, va).Absent? && |free| >= 5 ==> res.Served?
  {
    if Walk(a.mem, r, va).Absent? && res.PanicNoMemory? {
      SpentFrames(a, b, r, va, frame, free);
    }
  }

  // ---- Inputs on which the code loses a frame, and maps one that does not exist

  const FIRST: Path := P4(0, 0, 0, 1)
  const SECOND: Path := P4(0, 0, 0, 2)

  lemma TwoPages()
    ensures PathOf(0x1000) == FIRST && PageAddr(FIRST) == 0x1000
    ensures PathOf(0x2000) == SECOND && PageAddr(SECOND) == 0x2000
    ensures EndOf(0x1000, 1) == 0x2000 && Canonical(0x1000) && Canonical(0x2000)
  {
  }

  /** The one area of the space, of one or two pages at 0x1000. */
  lemma OneArea(areas: seq<Area>, pgcnt: nat, flags: Flags)
    requires areas == [Area(0x1000, pgcnt, flags)] && 0 < pgcnt <= 2
    ensures Proper(areas[0]) && Lookup(areas, 0x1000) == Some(areas[0])
    ensures pgcnt == 2 ==> Lookup(areas, 0x2000) == Some(areas[0])
  {
    assert Covers(areas[0], 0x1000) && (pgcnt == 2 ==> Covers(areas[0], 0x2000));
  }

  /** Exactly the first page is mapped, to `frame`. */
  ghost predicate OnlyFirst(s: Snap, r: Frame, frame: Frame) {
    && frame in s.owner && s.owner[frame].Data? && s.owner[frame].root == r && s.owner[frame].at == FIRST
    && forall va: Path :: va.P4? && InBounds(va) ==> (Walk(s.mem, r, va).Mapped? <==> va == FIRST)
  }

  ghost predicate Unused(s: Snap, r: Frame) {
    IsRoot(s.owner, r) && forall va: Path :: va.P4? && InBounds(va) ==> Walk(s.mem, r, va).Absent?
  }

  lemma FirstServed(a: Snap, b: Snap, free: set<Frame>, free': set<Frame>, r: Frame, area: Area, res: PfResult,
                    frame: Frame)
    requires (!res.BogusFrame? ==> Sound(b)) && Unused(a, r) && IsRoot(b.owner, r) && |free| >= 5
    requires free !! a.owner.Keys && free + a.owner.Keys == free' + b.owner.Keys
    requires FaultServed(a, b, free, free', r, FIRST, area, res, frame)
    ensures res.Served? && OnlyFirst(b, r, frame)
  {
    EnoughFrames(a, b, free, free', r, FIRST, area, res, frame);
  }

  method EmptySpace(frames: set<Frame>) returns (space: Space)
    requires |frames| >= 6
    ensures fresh(space) && fresh(space.pm) && space.pm.frames == frames && |space.pm.free| >= 5
    ensures space.Valid() && space.areas == [] && Unused(space.pm.Now(), space.root)
    ensures forall i :: 0 <= i < 512 ==> Read(space.pm.mem, space.root, i) == ZERO
  {
    var pm := new PhysMem(frames);
    var created := Create(pm);
    space := created.value;
  }

  /** A new space with one area. */
  method OneAreaSpace(frames: set<Frame>, pgcnt: nat, flags: Flags) returns (space: Space)
    requires |frames| >= 6 && 0 < pgcnt <= 2
    ensures fresh(space) && fresh(space.pm) && space.pm.frames == frames && |space.pm.free| >= 5
    ensures space.Valid() && space.areas == [Area(0x1000, pgcnt, flags)] && Unused(space.pm.Now(), space.root)
  {
    space := EmptySpace(frames);
    var placed := space.AllocPages(0x1000, pgcnt, flags);
    OneArea(space.areas, pgcnt, flags);
    OneAreaFits(space.pm.Now(), space.root, space.areas);
  }

  /** A new space with one area, the first page of which has been touched. */
  method FirstFault(frames: set<Frame>, pgcnt: nat, flags: Flags) returns (space: Space, ghost frame: Frame)
    requires |frames| >= 6 && 0 < pgcnt <= 2
    ensures fresh(space) && fresh(space.pm) && space.pm.frames == frames
    ensures space.Valid() && space.areas == [Area(0x1000, pgcnt, flags)]
    ensures OnlyFirst(space.pm.Now(), space.root, frame)
  {
    space := OneAreaSpace(frames, pgcnt, flags);
    ghost var a, free := space.pm.Now(), space.pm.free;
    TwoPages();
    OneArea(space.areas, pgcnt, flags);
    var res;
    res, frame := space.HandlePf(0x1000);
    FirstServed(a, space.pm.Now(), free, space.pm.free, space.root, space.areas[0], res, frame);
  }

  lemma FirstLost(a: Snap, b: Snap, free: set<Frame>, free': set<Frame>, r: Frame, frame: Frame)
    requires OnlyFirst(a, r, frame) && free !! a.owner.Keys && Released(a, b, free, free', r, 0x1000, 0x2000, false)
    ensures frame !in free' && frame in b.owner && b.owner[frame].Other?
  {
    TwoPages();
    assert frame in AreaFrames(a.owner, r, 0x1000, 0x2000);
  }

  method ReleaseFirst(space: Space, flags: Flags, ghost frame: Frame)
    requires space.Valid() && space.areas == [Area(0x1000, 1, flags)] && !flags.user
    requires OnlyFirst(space.pm.Now(), space.root, frame)
    modifies space, space.pm
    ensures space.pm.Valid() && frame !in space.pm.free && frame in space.pm.owner && space.pm.owner[frame].Other?
  {
    TwoPages();
    ghost var a, free := space.pm.Now(), space.pm.free;
    var res;
    ghost var i;
    res, i := space.FreePages(0x1000, 1);
    assert res.Freed? && i == 0;
    assert Released(a, space.pm.Now(), free, space.pm.free, space.root, 0x1000, 0x2000, false);
    FirstLost(a, space.pm.Now(), free, space.pm.free, space.root, frame);
  }

  /** Releasing an area without the user flag whose page was touched loses the page's frame: it is
      not free and belongs to no space. */
  method KernelPageLost(frames: set<Frame>) returns (pm: PhysMem, ghost frame: Frame)
    requires |frames| >= 6
    ensures fresh(pm) && pm.Valid() && pm.frames == frames
    ensures frame in frames && frame !in pm.free && pm.owner[frame].Other?
  {
    var space;
    space, frame := FirstFault(frames, 1, Flags(false, true, false));
    pm := space.pm;
    ReleaseFirst(space, Flags(false, true, false), frame);
  }

  lemma StillFirst(a: Snap, b: Snap, r: Frame, frame: Frame)
    requires IsRoot(a.owner, r) && OnlyFirst(a, r, frame) && SameWalks(a, b)
    ensures Walk(b.mem, r, FIRST).Mapped? && Walk(b.mem, r, SECOND).Absent?
  {
    assert Walk(b.mem, r, FIRST) == Walk(a.mem, r, FIRST) && Walk(b.mem, r, SECOND) == Walk(a.mem, r, SECOND);
  }

  /** A fault on the second page, with no frame left, finds the table of the first. */
  lemma NextToFirst(s: Snap, r: Frame, areas: seq<Area>)
    requires PagesFit(s, r, areas) && Lookup(areas, PageAddr(FIRST)).Some?
    requires Walk(s.mem, r, FIRST).Mapped? && Walk(s.mem, r, SECOND).Absent?
    ensures Starved(s.mem, r, SECOND) == BogusFrame
  {
    assert Fits(s, r, areas, FIRST);
  }

  /** The frames that are left go elsewhere. */
  method UseUp(space: Space)
    requires space.Valid()
    modifies space.pm
    ensures space.Valid() && space.pm.free == {} && SameWalks(old(space.pm.Now()), space.pm.Now())
    ensures forall f :: f in old(space.pm.owner) ==> f in space.pm.owner && space.pm.owner[f] == old(space.pm.owner)[f]
  {
    ghost var a := space.pm.Now();
    while space.pm.free != {}
      invariant space.Valid() && SameWalks(a, space.pm.Now()) && KeepsOwners(a, space.pm.Now())
      decreases |space.pm.free|
    {
      ghost var b := space.pm.Now();
      var f := space.pm.FrameAlloc();
      SameFits(b, space.pm.Now(), space.root, space.areas);
    }
  }

  method TouchSecond(space: Space, flags: Flags) returns (res: PfResult)
    requires space.Valid() && space.areas == [Area(0x1000, 2, flags)] && space.pm.free == {}
    requires Walk(space.pm.mem, space.root, FIRST).Mapped? && Walk(space.pm.mem, space.root, SECOND).Absent?
    modifies space.pm
    ensures res == BogusFrame && !space.pm.Valid()
    ensures Walk(space.pm.mem, space.root, SECOND) == BogusLeaf(Flags(flags.user, flags.write, true))
  {
    TwoPages();
    OneArea(space.areas, 2, flags);
    NextToFirst(space.pm.Now(), space.root, space.areas);
    ghost var frame;
    res, frame := space.HandlePf(0x2000);
  }

  /** With no frame left, a fault next to a page that is present maps a frame that does not exist,
      and the tables are not sound any more. */
  method BogusPage(frames: set<Frame>, flags: Flags) returns (space: Space, res: PfResult)
    requires |frames| >= 6
    ensures fresh(space) && fresh(space.pm) && space.pm.frames == frames && res == BogusFrame && !space.pm.Valid()
    ensures Walk(space.pm.mem, space.root, SECOND) == BogusLeaf(Flags(flags.user, flags.write, true))
  {
    ghost var frame;
    space, frame := FirstFault(frames, 2, flags);
    ghost var a := space.pm.Now();
    UseUp(space);
    StillFirst(a, space.pm.Now(), space.root, frame);
    res := TouchSecond(space, flags);
  }
}
