/** What becomes of large pages that mm/vmem.c takes for tables, and of pages that are not its to free:
    inputs that reach these cases, and what the direct mapping of the kernel turns into. */
module LargePages {
  import opened Common
  import opened Tables
  import opened TableSteps
  import opened Paging
  import opened Vmem
  import opened Boot
  import opened Spaces
  import opened FaultCases
  import Unmap

  // ---- The first task's space

  /** Mapping any small page in the direct mapping takes a large page for a table, and gives the new
      page's flags to the whole gigabyte: what was for the kernel only is then open to users. */
  lemma DirectOpened(a: Snap, b: Snap, free: set<Frame>, r: Frame, n: nat, first: Frame, user: Option<Frame>,
                     q: Path, frame: Frame, flags: Flags, res: MapResult)
    requires IsRoot(a.owner, r) && Means(a, r, 0x10000, n, first, user)
    requires q.P4? && InBounds(q) && IsDirect(0x10000, q) && MapOutcome(a, b, free, r, q, frame, flags, res)
    ensures res.Wild?
    ensures forall va: Path :: va.P4? && InBounds(va) && OnWay(P2(q.m, q.p), va) ==>
      Walk(a.mem, r, va) == Meaning(0x10000, n, first, user, va) &&
      Walk(b.mem, r, va) == Mapped(Size1G, Walk(a.mem, r, va).frame, flags.user, true, flags.alloc)
  {
    LargeThere(a, r, q, Size1G);
    forall va: Path | va.P4? && InBounds(va) && OnWay(P2(q.m, q.p), va)
      ensures Walk(a.mem, r, va) == Meaning(0x10000, n, first, user, va)
      ensures Walk(b.mem, r, va) == Mapped(Size1G, Walk(a.mem, r, va).frame, flags.user, true, flags.alloc)
    {
      LargeThere(a, r, va, Size1G);
    }
  }

  /** A page with a large translation has the large page on its way. */
  lemma LargeThere(s: Snap, r: Frame, va: Path, size: PageSize)
    requires va.P4? && Walk(s.mem, r, va).Mapped? && Walk(s.mem, r, va).size == size && !size.Size4K?
    ensures LargeOnWay(s.mem, r, va)
    ensures size.Size1G? ==> LargePath(s.mem, r, va) == P2(va.m, va.p)
    ensures Walk(s.mem, r, va) == Leaf(size, EntryAt(s.mem, r, LargePath(s.mem, r, va)))
  {
  }

  /** Unmapping the first task's code page frees a frame that no space owns. */
  lemma CodeStolen(a: Snap, b: Snap, free: set<Frame>, free': set<Frame>, r: Frame, n: nat, first: Frame, user: Frame,
                   res: Unmap.UnmapResult)
    requires Sound(a) && IsRoot(a.owner, r) && Means(a, r, 0x10000, n, first, Some(user))
    requires Unmap.UnmapOutcome(a, b, free, free', r, USER_PATH, res)
    ensures res.Stolen?
  {
    AbsentMappable(a, r, USER_PATH);
  }

  // ---- Any six frames suffice

  const LARGE: Path := P2(273, 0)
  const INSIDE: Path := P4(273, 0, 0, 0)

  /** In an empty space with five free frames a mapping function that is given no allocated page
      finds the frames for its tables. */
  lemma EnoughToMap(a: Snap, b: Snap, free: set<Frame>, free': set<Frame>, r: Frame, q: Path, va: Path,
                    frame: Frame, flags: Flags, res: MapResult)
    requires Sound(b) && Unused(a, r) && va.P4? && InBounds(va) && Prefix(q, va)
    requires (q.P2? || q.P3? || q.P4?) && forall i :: 0 <= i < 512 ==> Read(a.mem, r, i) == ZERO
    requires free !! a.owner.Keys && free + a.owner.Keys == free' + b.owner.Keys && |free| >= 5
    requires MapOutcome(a, b, free', r, q, frame, flags, res)
    ensures res.Done?
  {
    NothingThere(a.mem, r, q);
    if res.NoMemory? {
      SpentToMap(a, b, r, q, va, frame);
      SpentFrames(a, b, r, va, frame, free);
    }
  }

  lemma NothingThere(mem: Memory, r: Frame, q: Path)
    requires (q.P2? || q.P3? || q.P4?) && forall i :: 0 <= i < 512 ==> Read(mem, r, i) == ZERO
    ensures EntryAt(mem, r, q) == ZERO && !LargeOnWay(mem, r, q)
  {
    assert Read(mem, r, q.m) == ZERO;
  }

  lemma SpentToMap(a: Snap, b: Snap, r: Frame, q: Path, va: Path, frame: Frame)
    requires Grown(a, b, r, q) && NoStray(a, b) && va.P4? && Prefix(q, va)
    ensures Spent(a, b, r, va, frame)
  {
  }

  /** So the page is mapped. */
  lemma FirstMapped(a: Snap, b: Snap, free: set<Frame>, free': set<Frame>, r: Frame, q: Path, va: Path,
                    frame: Frame, flags: Flags, res: MapResult)
    requires Sound(b) && Unused(a, r) && va.P4? && InBounds(va) && Prefix(q, va)
    requires (q.P2? || q.P3? || q.P4?) && forall i :: 0 <= i < 512 ==> Read(a.mem, r, i) == ZERO
    requires free !! a.owner.Keys && free + a.owner.Keys == free' + b.owner.Keys && |free| >= 5
    requires MapOutcome(a, b, free', r, q, frame, flags, res)
    ensures IsRoot(b.owner, r) && Walk(b.mem, r, va) == Leaf(SizeAt(q), MakeEntry(frame, !q.P4?, flags))
  {
    EnoughToMap(a, b, free, free', r, q, va, frame, flags, res);
    assert OnWay(q, va);
  }

  /** A space with one large page, for the kernel to read and write. */
  method LargeSpace(frames: set<Frame>) returns (space: Space)
    requires |frames| >= 6
    ensures fresh(space) && fresh(space.pm) && space.pm.Valid() && space.pm.frames == frames
    ensures IsRoot(space.pm.owner, space.root)
    ensures Walk(space.pm.mem, space.root, INSIDE) == Mapped(Size1G, 0, false, true, false)
  {
    space := EmptySpace(frames);
    ghost var a, free := space.pm.Now(), space.pm.free;
    var res := space.pm.MapPage1G(space.root, LARGE, 0, Flags(false, true, false));
    FirstMapped(a, space.pm.Now(), free, space.pm.free, space.root, LARGE, INSIDE, 0, Flags(false, true, false), res);
  }

  /** A user page is mapped where the large page is: the large page is a user page then. */
  method MapInside(frames: set<Frame>, frame: Frame) returns (space: Space, res: MapResult)
    requires |frames| >= 6
    ensures res == MapResult.Wild
    ensures Walk(space.pm.mem, space.root, INSIDE) == Mapped(Size1G, 0, true, true, false)
  {
    space := LargeSpace(frames);
    LargeThere(space.pm.Now(), space.root, INSIDE, Size1G);
    ghost var root := space.root;
    assert IsRoot(space.pm.owner, root);
    res := space.pm.MapPage(space.root, INSIDE, frame, Flags(true, false, false));
  }

  /** A page is unmapped where the large page is. */
  method UnmapInside(frames: set<Frame>) returns (res: Unmap.UnmapResult)
    requires |frames| >= 6
    ensures res == Unmap.UnmapResult.Wild
  {
    var space := LargeSpace(frames);
    LargeThere(space.pm.Now(), space.root, INSIDE, Size1G);
    res := Unmap.UnmapPage(space.pm, space.root, INSIDE);
  }

  /** A space with one user page that is not an allocated one. */
  method ForeignSpace(frames: set<Frame>, frame: Frame) returns (space: Space)
    requires |frames| >= 6
    ensures fresh(space) && fresh(space.pm) && space.pm.Valid() && IsRoot(space.pm.owner, space.root)
    ensures Walk(space.pm.mem, space.root, INSIDE) == Mapped(Size4K, frame, true, false, false)
  {
    space := EmptySpace(frames);
    ghost var a, free := space.pm.Now(), space.pm.free;
    var res := space.pm.MapPage(space.root, INSIDE, frame, Flags(true, false, false));
    ghost var b, flags := space.pm.Now(), Flags(true, false, false);
    FirstMapped(a, b, free, space.pm.free, space.root, INSIDE, INSIDE, frame, flags, res);
  }

  /** It is unmapped: a frame is freed that the space does not own. */
  method UnmapForeign(frames: set<Frame>, frame: Frame) returns (res: Unmap.UnmapResult)
    requires |frames| >= 6
    ensures res == Unmap.UnmapResult.Stolen
  {
    var space := ForeignSpace(frames, frame);
    AbsentMappable(space.pm.Now(), space.root, INSIDE);
    res := Unmap.UnmapPage(space.pm, space.root, INSIDE);
  }
}
