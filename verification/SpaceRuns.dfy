/** Several address spaces over one physical memory (mm/vmem.c): runs of creation, new areas, page
    faults, releases, copies and ends, and what they do to the spaces and to the frames. */
module SpaceRuns {
  import opened Common
  import opened Tables
  import opened TableSteps
  import opened Paging
  import opened Vmem
  import opened Areas
  import opened Spaces
  import opened FaultCases
  import Clone
  import Destroy
  import Unmap

  // ---- The spaces as values

  datatype Shape = Shape(root: Frame, areas: seq<Area>)

  /** Addresses below the kernel's, and above the first task's code. */
  predicate Low(addr: nat) {
    0x20000 <= addr < 0x8000_0000_0000
  }

  /** At low addresses only areas have pages. */
  ghost predicate Tidy(s: Snap, r: Frame, areas: seq<Area>) {
    forall va: Path :: va.P4? && InBounds(va) && Low(PageAddr(va)) && Lookup(areas, PageAddr(va)).None? ==>
      Walk(s.mem, r, va).Absent?
  }

  ghost predicate SpaceOk(s: Snap, sh: Shape) {
    IsRoot(s.owner, sh.root) && AreasOk(sh.areas) && PagesFit(s, sh.root, sh.areas) && Tidy(s, sh.root, sh.areas)
  }

  ghost predicate Apart(shapes: seq<Shape>) {
    forall i, j :: 0 <= i < j < |shapes| ==> shapes[i].root != shapes[j].root
  }

  ghost predicate AllOk(s: Snap, shapes: seq<Shape>) {
    Apart(shapes) && forall i :: 0 <= i < |shapes| ==> SpaceOk(s, shapes[i])
  }

  function Roots(shapes: seq<Shape>): set<Frame> {
    set i | 0 <= i < |shapes| :: shapes[i].root
  }

  /** The frames that are allocated and belong to none of the spaces. */
  function LostFrames(owner: Owners, roots: set<Frame>): set<Frame> {
    set f | f in owner && (owner[f].Other? || owner[f].root !in roots)
  }

  ghost predicate SameIn(a: Snap, b: Snap, r: Frame) {
    IsRoot(b.owner, r) && forall va: Path :: va.P4? && InBounds(va) ==> Walk(b.mem, r, va) == Walk(a.mem, r, va)
  }

  lemma SpaceStays(a: Snap, b: Snap, sh: Shape)
    requires SpaceOk(a, sh) && SameIn(a, b, sh.root)
    ensures SpaceOk(b, sh)
  {
    forall va: Path | va.P4? && InBounds(va) ensures Fits(b, sh.root, sh.areas, va) {
      assert Fits(a, sh.root, sh.areas, va);
    }
  }

  /** All spaces but one are as they were. */
  lemma OthersStay(a: Snap, b: Snap, shapes: seq<Shape>, i: nat, sh: Shape)
    requires AllOk(a, shapes) && i < |shapes| && sh.root == shapes[i].root && SpaceOk(b, sh)
    requires forall j :: 0 <= j < |shapes| && j != i ==> SameIn(a, b, shapes[j].root)
    ensures AllOk(b, shapes[i := sh])
  {
    var shapes' := shapes[i := sh];
    forall j | 0 <= j < |shapes'| ensures SpaceOk(b, shapes'[j]) {
      if j != i { SpaceStays(a, b, shapes[j]); }
    }
  }

  lemma AllStay(a: Snap, b: Snap, shapes: seq<Shape>)
    requires AllOk(a, shapes) && forall j :: 0 <= j < |shapes| ==> SameIn(a, b, shapes[j].root)
    ensures AllOk(b, shapes)
  {
    forall j | 0 <= j < |shapes| ensures SpaceOk(b, shapes[j]) {
      SpaceStays(a, b, shapes[j]);
    }
  }

  // ---- A new space

  lemma OneMore(a: Snap, b: Snap, shapes: seq<Shape>, sh: Shape)
    requires AllOk(a, shapes) && sh.root !in a.owner && SpaceOk(b, sh) && SameWalks(a, b) && KeepsOthers(a, b, {})
    ensures AllOk(b, shapes + [sh])
  {
    var shapes' := shapes + [sh];
    forall j | 0 <= j < |shapes| ensures SameIn(a, b, shapes[j].root) && shapes[j].root != sh.root {
      assert SpaceOk(a, shapes[j]);
    }
    AllStay(a, b, shapes);
    forall j | 0 <= j < |shapes'| ensures SpaceOk(b, shapes'[j]) {
      if j < |shapes| { assert shapes'[j] == shapes[j] && SpaceOk(b, shapes[j]); }
    }
    forall j, k | 0 <= j < k < |shapes'| ensures shapes'[j].root != shapes'[k].root {
      assert shapes'[j] == shapes[j] && (k < |shapes| ==> shapes'[k] == shapes[k]);
    }
  }

  /** Frames that a new space took are not lost. */
  lemma NoneLostNew(a: Snap, b: Snap, roots: set<Frame>, r: Frame)
    requires Sound(a) && r !in a.owner && KeepsOthers(a, b, {}) && Clone.BelongsTo(a, b, r)
    ensures LostFrames(b.owner, roots + {r}) == LostFrames(a.owner, roots)
  {
    forall f | f in b.owner ensures f in LostFrames(b.owner, roots + {r}) <==> f in LostFrames(a.owner, roots) {
      if f in a.owner { SoundAt(a, f, 0); }
    }
  }

  /** Frames that one of the spaces took are not lost. */
  lemma NoneLost(a: Snap, b: Snap, roots: set<Frame>, r: Frame)
    requires r in roots && KeepsOthers(a, b, {}) && Clone.BelongsTo(a, b, r)
    ensures LostFrames(b.owner, roots) == LostFrames(a.owner, roots)
  {
  }

  lemma RootsMore(shapes: seq<Shape>, sh: Shape)
    ensures Roots(shapes + [sh]) == Roots(shapes) + {sh.root}
  {
    var all := shapes + [sh];
    forall r | r in Roots(shapes) + {sh.root} ensures r in Roots(all) {
      if r != sh.root {
        var i :| 0 <= i < |shapes| && shapes[i].root == r;
        assert all[i].root == r;
      } else {
        assert all[|shapes|].root == r;
      }
    }
  }

  lemma RootsSame(shapes: seq<Shape>, i: nat, sh: Shape)
    requires i < |shapes| && sh.root == shapes[i].root
    ensures Roots(shapes[i := sh]) == Roots(shapes) && sh.root in Roots(shapes)
  {
    var all := shapes[i := sh];
    forall r | r in Roots(shapes) ensures r in Roots(all) {
      var j :| 0 <= j < |shapes| && shapes[j].root == r;
      assert all[j].root == r;
    }
  }

  lemma RootsLess(shapes: seq<Shape>, i: nat)
    requires Apart(shapes) && i < |shapes|
    ensures Roots(Removed(shapes, i)) == Roots(shapes) - {shapes[i].root}
  {
    var rest := Removed(shapes, i);
    forall k | 0 <= k < |rest| ensures rest[k] == shapes[if k < i then k else k + 1] { }
    forall r | r in Roots(shapes) - {shapes[i].root} ensures r in Roots(rest) {
      var j :| 0 <= j < |shapes| && shapes[j].root == r;
      assert rest[if j < i then j else j - 1].root == r;
    }
  }

  // ---- A new area

  /** The region lies in the low addresses, and no area starts in it where the test does not look. */
  predicate MayPlace(areas: seq<Area>, start: nat, pgcnt: nat) {
    && start % PAGE_SIZE == 0 && 0x20000 <= start && start + pgcnt * PAGE_SIZE <= 0x8000_0000_0000
    && !StartsInside(areas, start, pgcnt)
  }

  lemma PlacedSpace(s: Snap, sh: Shape, area: Area)
    requires SpaceOk(s, sh) && MayPlace(sh.areas, area.start, area.size) && !Meets(sh.areas, area.start, area.size)
    ensures SpaceOk(s, Shape(sh.root, [area] + sh.areas))
  {
    PlacedOk(sh.areas, area.start, area.size, area.flags);
    var all := [area] + sh.areas;
    assert all[1..] == sh.areas;
    forall va: Path | va.P4? && InBounds(va) && Covers(area, PageAddr(va)) ensures Walk(s.mem, sh.root, va).Absent? {
      LookupElsewhere(area, sh.areas, PageAddr(va));
    }
    PlacedFits(s, sh.root, sh.areas, area);
  }

  // ---- A page fault

  lemma FaultedSpace(a: Snap, b: Snap, free: set<Frame>, free': set<Frame>, sh: Shape, va: Path, area: Area,
                     res: PfResult, frame: Frame)
    requires SpaceOk(a, sh) && va.P4? && InBounds(va) && Lookup(sh.areas, PageAddr(va)) == Some(area)
    requires FaultServed(a, b, free, free', sh.root, va, area, res, frame)
    requires IsRoot(b.owner, sh.root) && PagesFit(b, sh.root, sh.areas)
    ensures SpaceOk(b, sh)
  {
    forall v: Path | v.P4? && InBounds(v) && Low(PageAddr(v)) && Lookup(sh.areas, PageAddr(v)).None?
      ensures Walk(b.mem, sh.root, v).Absent?
    {
      assert v != va && Walk(a.mem, sh.root, v).Absent?;
      assert res.Served? || res.BogusFrame? || res.PanicNoMemory? || res.PanicPresent?;
    }
  }

  lemma FaultedAll(a: Snap, b: Snap, free: set<Frame>, free': set<Frame>, shapes: seq<Shape>, i: nat, va: Path,
                   area: Area, res: PfResult, frame: Frame)
    requires AllOk(a, shapes) && i < |shapes| && va.P4? && InBounds(va)
    requires Lookup(shapes[i].areas, PageAddr(va)) == Some(area)
    requires FaultServed(a, b, free, free', shapes[i].root, va, area, res, frame)
    requires IsRoot(b.owner, shapes[i].root) && PagesFit(b, shapes[i].root, shapes[i].areas)
    ensures AllOk(b, shapes)
  {
    assert SpaceOk(a, shapes[i]);
    FaultedSpace(a, b, free, free', shapes[i], va, area, res, frame);
    forall j | 0 <= j < |shapes| && j != i ensures SameIn(a, b, shapes[j].root) {
      assert SpaceOk(a, shapes[j]) && shapes[j].root != shapes[i].root;
      FaultSpares(a, b, free, free', shapes[i].root, va, area, res, frame, shapes[j].root, shapes[j].areas);
    }
    OthersStay(a, b, shapes, i, shapes[i]);
    assert shapes[i := shapes[i]] == shapes;
  }

  // ---- A release

  lemma ReleasedSpace(a: Snap, b: Snap, sh: Shape, k: nat, lo: nat, hi: nat)
    requires SpaceOk(a, sh) && k < |sh.areas| && lo == sh.areas[k].start && hi == EndOf(lo, sh.areas[k].size)
    requires ReleasedWalks(a, b, sh.root, lo, hi) && IsRoot(b.owner, sh.root)
    requires PagesFit(b, sh.root, Removed(sh.areas, k))
    ensures SpaceOk(b, Shape(sh.root, Removed(sh.areas, k)))
  {
    WithoutLookup(sh.areas, k, 0);
    forall va: Path | va.P4? && InBounds(va) && Low(PageAddr(va)) && Lookup(Removed(sh.areas, k), PageAddr(va)).None?
      ensures Walk(b.mem, sh.root, va).Absent?
    {
      WithoutLookup(sh.areas, k, PageAddr(va));
    }
  }

  /** What a release loses: nothing for a user area, its pages otherwise. */
  lemma LostReleased(a: Snap, b: Snap, free: set<Frame>, free': set<Frame>, roots: set<Frame>, r: Frame, lo: nat,
                     hi: nat, user: bool)
    requires r in roots && Released(a, b, free, free', r, lo, hi, user)
    ensures LostFrames(b.owner, roots) ==
      LostFrames(a.owner, roots) + if user then {} else AreaFrames(a.owner, r, lo, hi)
  {
  }

  lemma ReleasedOthers(a: Snap, b: Snap, free: set<Frame>, free': set<Frame>, r: Frame, lo: nat, hi: nat, user: bool,
                       r': Frame)
    requires Released(a, b, free, free', r, lo, hi, user) && IsRoot(a.owner, r') && r' != r
    ensures SameIn(a, b, r')
  {
  }

  // ---- The end of a space

  /** A space all of whose tables are as before translates as before. */
  lemma IntactWalks(a: Snap, b: Snap, r: Frame)
    requires Sound(a) && IsRoot(a.owner, r) && Clone.Intact(a, b, r)
    ensures SameIn(a, b, r)
  {
    forall va: Path | va.P4? && InBounds(va) ensures Walk(b.mem, r, va) == Walk(a.mem, r, va) {
      assert QuietWay(a, b, r, va);
      QuietWalk(a, b, r, va);
    }
  }

  lemma EndedAll(a: Snap, b: Snap, shapes: seq<Shape>, i: nat)
    requires Sound(a) && AllOk(a, shapes) && i < |shapes|
    requires forall r :: r != shapes[i].root && IsRoot(a.owner, r) ==> Clone.Intact(a, b, r)
    ensures AllOk(b, Removed(shapes, i))
  {
    var rest := Removed(shapes, i);
    forall k | 0 <= k < |rest| ensures rest[k] == shapes[if k < i then k else k + 1] && SpaceOk(b, rest[k]) {
      var j := if k < i then k else k + 1;
      assert SpaceOk(a, shapes[j]) && shapes[j].root != shapes[i].root;
      IntactWalks(a, b, shapes[j].root);
      SpaceStays(a, b, shapes[j]);
    }
  }

  lemma OthersIntact(a: Snap, b: Snap, shapes: seq<Shape>, i: nat)
    requires Sound(a) && AllOk(a, shapes) && i < |shapes|
    requires forall r :: r != shapes[i].root && IsRoot(a.owner, r) ==> Clone.Intact(a, b, r)
    ensures forall k :: 0 <= k < |shapes| && k != i ==> SameIn(a, b, shapes[k].root)
  {
    forall k | 0 <= k < |shapes| && k != i ensures SameIn(a, b, shapes[k].root) {
      assert SpaceOk(a, shapes[k]) && shapes[k].root != shapes[i].root;
      IntactWalks(a, b, shapes[k].root);
    }
  }

  lemma LostEnded(a: Snap, b: Snap, roots: set<Frame>, r: Frame)
    requires r in roots && Destroy.Destroyed(a, b, r)
    ensures LostFrames(b.owner, roots - {r}) == LostFrames(a.owner, roots)
  {
  }

  // ---- A copy

  lemma CopiedSpace(a: Snap, b: Snap, src: Shape, dst: Frame)
    requires SpaceOk(a, src) && IsRoot(b.owner, dst) && AreasOk(Reversed(src.areas))
    requires PagesFit(b, dst, Reversed(src.areas))
    requires forall addr :: Lookup(Reversed(src.areas), addr) == Lookup(src.areas, addr)
    requires forall va: Path :: va.P4? && InBounds(va) ==> Clone.CloneOf(a, b, src.root, dst, va)
    ensures SpaceOk(b, Shape(dst, Reversed(src.areas)))
  {
    forall va: Path | va.P4? && InBounds(va) && Low(PageAddr(va)) && Lookup(Reversed(src.areas), PageAddr(va)).None?
      ensures Walk(b.mem, dst, va).Absent?
    {
      assert Clone.CloneOf(a, b, src.root, dst, va) && Walk(a.mem, src.root, va).Absent?;
    }
  }

  /** A copy that fails loses all frames that were free. */
  lemma LostCopy(a: Snap, b: Snap, free: set<Frame>, shapes: seq<Shape>)
    requires AllOk(a, shapes) && KeepsOthers(a, b, {}) && Clone.SparesSpaces(a, b)
    requires b.owner.Keys == a.owner.Keys + free && free !! a.owner.Keys
    ensures LostFrames(b.owner, Roots(shapes)) == LostFrames(a.owner, Roots(shapes)) + free
  {
    forall r | r in Roots(shapes) ensures r in a.owner {
      var i :| 0 <= i < |shapes| && shapes[i].root == r;
      assert SpaceOk(a, shapes[i]);
    }
  }

  // ---- The spaces in memory

  function WithArea(sh: Shape, a: Area): Shape {
    Shape(sh.root, [a] + sh.areas)
  }

  function WithoutArea(sh: Shape, k: nat): Shape
    requires k < |sh.areas|
  {
    Shape(sh.root, Removed(sh.areas, k))
  }

  lemma ReleasedAll(a: Snap, b: Snap, free: set<Frame>, free': set<Frame>, shapes: seq<Shape>, i: nat, k: nat,
                    lo: nat, hi: nat)
    requires AllOk(a, shapes) && i < |shapes| && k < |shapes[i].areas|
    requires lo == shapes[i].areas[k].start && hi == EndOf(lo, shapes[i].areas[k].size)
    requires Released(a, b, free, free', shapes[i].root, lo, hi, shapes[i].areas[k].flags.user)
    requires IsRoot(b.owner, shapes[i].root) && PagesFit(b, shapes[i].root, Removed(shapes[i].areas, k))
    ensures AllOk(b, shapes[i := WithoutArea(shapes[i], k)])
  {
    assert SpaceOk(a, shapes[i]);
    ReleasedSpace(a, b, shapes[i], k, lo, hi);
    forall j | 0 <= j < |shapes| && j != i ensures SameIn(a, b, shapes[j].root) {
      assert SpaceOk(a, shapes[j]) && shapes[j].root != shapes[i].root;
      ReleasedOthers(a, b, free, free', shapes[i].root, lo, hi, shapes[i].areas[k].flags.user, shapes[j].root);
    }
    OthersStay(a, b, shapes, i, WithoutArea(shapes[i], k));
  }

  /** One more space, new or copied, takes frames but loses none. */
  lemma Joined(a: Snap, b: Snap, shapes: seq<Shape>, sh: Shape)
    requires Sound(a) && AllOk(a, shapes) && sh.root !in a.owner && SpaceOk(b, sh) && SameWalks(a, b)
    requires KeepsOthers(a, b, {}) && Clone.BelongsTo(a, b, sh.root)
    ensures AllOk(b, shapes + [sh])
    ensures LostFrames(b.owner, Roots(shapes + [sh])) == LostFrames(a.owner, Roots(shapes))
  {
    OneMore(a, b, shapes, sh);
    NoneLostNew(a, b, Roots(shapes), sh.root);
    RootsMore(shapes, sh);
  }

  /** What a fault leaves behind: all spaces in order, and unless it ends in a panic no frame lost. */
  lemma FaultedOne(a: Snap, b: Snap, free: set<Frame>, free': set<Frame>, shapes: seq<Shape>, i: nat, va: Path,
                   area: Area, res: PfResult, frame: Frame)
    requires AllOk(a, shapes) && i < |shapes| && va.P4? && InBounds(va)
    requires Lookup(shapes[i].areas, PageAddr(va)) == Some(area)
    requires FaultServed(a, b, free, free', shapes[i].root, va, area, res, frame)
    requires IsRoot(b.owner, shapes[i].root) && PagesFit(b, shapes[i].root, shapes[i].areas)
    ensures AllOk(b, shapes)
    ensures res.Served? ==> LostFrames(b.owner, Roots(shapes)) == LostFrames(a.owner, Roots(shapes))
  {
    FaultedAll(a, b, free, free', shapes, i, va, area, res, frame);
    RootsSame(shapes, i, shapes[i]);
    if res.Served? { NoneLost(a, b, Roots(shapes), shapes[i].root); }
  }

  /** What a release leaves behind, and what it loses. */
  lemma ReleasedOne(a: Snap, b: Snap, free: set<Frame>, free': set<Frame>, shapes: seq<Shape>, i: nat, k: nat,
                    lo: nat, hi: nat, gone: set<Frame>)
    requires AllOk(a, shapes) && i < |shapes| && k < |shapes[i].areas|
    requires lo == shapes[i].areas[k].start && hi == EndOf(lo, shapes[i].areas[k].size)
    requires Released(a, b, free, free', shapes[i].root, lo, hi, shapes[i].areas[k].flags.user)
    requires IsRoot(b.owner, shapes[i].root) && PagesFit(b, shapes[i].root, Removed(shapes[i].areas, k))
    requires gone == if shapes[i].areas[k].flags.user then {} else AreaFrames(a.owner, shapes[i].root, lo, hi)
    ensures AllOk(b, shapes[i := WithoutArea(shapes[i], k)])
    ensures LostFrames(b.owner, Roots(shapes[i := WithoutArea(shapes[i], k)])) ==
      LostFrames(a.owner, Roots(shapes)) + gone
  {
    ReleasedAll(a, b, free, free', shapes, i, k, lo, hi);
    RootsSame(shapes, i, WithoutArea(shapes[i], k));
    LostReleased(a, b, free, free', Roots(shapes), shapes[i].root, lo, hi, shapes[i].areas[k].flags.user);
  }

  /** What a new area leaves behind */
  lemma PlacedOne(s: Snap, shapes: seq<Shape>, i: nat, area: Area)
    requires AllOk(s, shapes) && i < |shapes| && MayPlace(shapes[i].areas, area.start, area.size)
    requires !Meets(shapes[i].areas, area.start, area.size)
    ensures AllOk(s, shapes[i := WithArea(shapes[i], area)])
    ensures Roots(shapes[i := WithArea(shapes[i], area)]) == Roots(shapes)
  {
    assert forall j :: 0 <= j < |shapes| ==> SpaceOk(s, shapes[j]);
    PlacedSpace(s, shapes[i], area);
    OthersStay(s, s, shapes, i, WithArea(shapes[i], area));
    RootsSame(shapes, i, WithArea(shapes[i], area));
  }

  /** What the end of a space leaves behind */
  lemma EndedOne(a: Snap, b: Snap, shapes: seq<Shape>, i: nat)
    requires Sound(a) && AllOk(a, shapes) && i < |shapes| && Destroy.Destroyed(a, b, shapes[i].root)
    requires forall r :: r != shapes[i].root && IsRoot(a.owner, r) ==> Clone.Intact(a, b, r)
    ensures AllOk(b, Removed(shapes, i))
    ensures LostFrames(b.owner, Roots(Removed(shapes, i))) == LostFrames(a.owner, Roots(shapes))
  {
    EndedAll(a, b, shapes, i);
    RootsSame(shapes, i, shapes[i]);
    RootsLess(shapes, i);
    LostEnded(a, b, Roots(shapes), shapes[i].root);
  }

  lemma AllIntact(a: Snap, b: Snap, shapes: seq<Shape>)
    requires AllOk(a, shapes) && SameWalks(a, b) && KeepsOthers(a, b, {})
    ensures AllOk(b, shapes)
  {
    forall j | 0 <= j < |shapes| ensures SameIn(a, b, shapes[j].root) {
      assert SpaceOk(a, shapes[j]);
    }
    AllStay(a, b, shapes);
  }

  datatype Op =
    | NewSpace
    | Place(i: nat, start: nat, pgcnt: nat, flags: Flags)
    | Touch(i: nat, addr: nat)
    | Release(i: nat, start: nat, pgcnt: nat)
    | Copy(i: nat)
    | End(i: nat)

  /** No area has these bounds. */
  predicate NoMatch(areas: seq<Area>, start: nat, pgcnt: nat) {
    forall k :: 0 <= k < |areas| ==> !Matches(areas[k], start, EndOf(start, pgcnt))
  }

  /** The operation may end the run: a region outside the low addresses or over an area, a fault on a page
      that is present or with few frames left, a release of what is not an area. */
  ghost predicate MayStop(s: Snap, free: set<Frame>, shapes: seq<Shape>, op: Op) {
    match op
    case Place(i, start, pgcnt, _) =>
      i < |shapes| && (!MayPlace(shapes[i].areas, start, pgcnt) || Meets(shapes[i].areas, start, pgcnt))
    case Touch(i, addr) =>
      && i < |shapes| && Canonical(addr) && Lookup(shapes[i].areas, addr).Some?
      && (Walk(s.mem, shapes[i].root, PathOf(addr)).Mapped? || |free| < 5)
    case Release(i, start, pgcnt) =>
      i < |shapes| && (start % PAGE_SIZE != 0 || NoMatch(shapes[i].areas, start, pgcnt))
    case _ => false
  }

  ghost predicate CanEnd(ops: seq<Op>) {
    exists k :: 0 <= k < |ops| && (ops[k].Place? || ops[k].Touch? || ops[k].Release?)
  }

  /** All areas of all spaces are user areas. */
  ghost predicate AllUser(shapes: seq<Shape>) {
    forall i :: 0 <= i < |shapes| ==> UserOnly(shapes[i].areas)
  }

  ghost predicate UserOnly(areas: seq<Area>) {
    forall k :: 0 <= k < |areas| ==> areas[k].flags.user
  }

  ghost predicate UserAreas(ops: seq<Op>) {
    forall k :: 0 <= k < |ops| && ops[k].Place? ==> ops[k].flags.user
  }

  lemma UserReversed(areas: seq<Area>)
    ensures UserOnly(areas) ==> UserOnly(Reversed(areas))
  {
    forall k | 0 <= k < |areas| ensures Reversed(areas)[k] == areas[|areas| - 1 - k] {
      ReversedAt(areas, k);
    }
  }

  lemma UserRemoved(areas: seq<Area>, k: nat)
    requires k < |areas|
    ensures UserOnly(areas) ==> UserOnly(Removed(areas, k))
  {
    var rest := Removed(areas, k);
    forall j | 0 <= j < |rest| ensures rest[j] == areas[if j < k then j else j + 1] { }
  }

  lemma OneRoot(shapes: seq<Shape>)
    requires |shapes| == 1
    ensures Roots(shapes) == {shapes[0].root}
  {
    RootsMore([], shapes[0]);
    assert [] + [shapes[0]] == shapes && Roots([]) == {};
  }

  /** Without spaces all that is allocated is lost. */
  lemma AllOwnedLost(owner: Owners)
    ensures LostFrames(owner, Roots([])) == owner.Keys
  {
    assert Roots([]) == {};
  }

  class System {
    const pm: PhysMem
    var spaces: seq<Space>
    ghost var shapes: seq<Shape>

    ghost predicate Is(v: Space, sh: Shape)
      reads v
    {
      v.pm == pm && v.root == sh.root && v.areas == sh.areas
    }

    /** `shapes` says what the spaces are. */
    ghost predicate Known()
      reads this, spaces
    {
      |shapes| == |spaces| && forall i :: 0 <= i < |spaces| ==> Is(spaces[i], shapes[i])
    }

    /** The same of all spaces but one. */
    ghost predicate KnownBut(i: nat)
      reads this, spaces
    {
      |shapes| == |spaces| && forall j :: 0 <= j < |spaces| && j != i ==> Is(spaces[j], shapes[j])
    }

    ghost predicate Valid()
      reads this, pm, spaces
    {
      pm.Valid() && Known() && AllOk(pm.Now(), shapes)
    }

    /** The frames that are allocated and belong to no space. */
    ghost function Lost(): set<Frame>
      reads this, pm
    {
      LostFrames(pm.owner, Roots(shapes))
    }

    constructor (pm: PhysMem)
      requires pm.Valid()
      ensures this.pm == pm && spaces == [] && Valid() && Lost() == pm.owner.Keys
    {
      this.pm := pm;
      spaces, shapes := [], [];
    }

    /** A system with one space. */
    constructor From(pm: PhysMem, v: Space)
      requires pm.Valid() && v.pm == pm && SpaceOk(pm.Now(), Shape(v.root, v.areas))
      ensures this.pm == pm && spaces == [v] && shapes == [Shape(v.root, v.areas)] && Valid()
      ensures Lost() == LostFrames(pm.owner, {v.root})
    {
      this.pm := pm;
      spaces, shapes := [v], [Shape(v.root, v.areas)];
      new;
      OneRoot(shapes);
    }

    lemma SpaceAt(i: nat)
      requires Valid() && i < |spaces|
      ensures spaces[i].Valid() && SpaceOk(pm.Now(), shapes[i])
      ensures forall j :: 0 <= j < |spaces| && j != i ==> spaces[j] != spaces[i]
    {
      assert SpaceOk(pm.Now(), shapes[i]);
      forall j | 0 <= j < |spaces| && j != i ensures spaces[j] != spaces[i] {
        assert shapes[j].root != shapes[i].root;
      }
    }

    /** One more space. */
    method Add(v: Space, ghost sh: Shape)
      requires pm.Valid() && Known() && Is(v, sh) && AllOk(pm.Now(), shapes + [sh])
      modifies this
      ensures Valid() && shapes == old(shapes) + [sh] && spaces == old(spaces) + [v]
    {
      spaces, shapes := spaces + [v], shapes + [sh];
    }

    /** One space less. */
    method Drop(i: nat)
      requires pm.Valid() && i < |spaces| && KnownBut(i) && AllOk(pm.Now(), Removed(shapes, i))
      modifies this
      ensures Valid() && shapes == Removed(old(shapes), i) && spaces == Removed(old(spaces), i)
    {
      spaces, shapes := Removed(spaces, i), Removed(shapes, i);
      forall k | 0 <= k < |spaces| ensures Is(spaces[k], shapes[k]) {
        var j := if k < i then k else k + 1;
        assert spaces[k] == old(spaces)[j] && shapes[k] == old(shapes)[j];
      }
    }

    /** One space has changed. */
    ghost method Note(i: nat, sh: Shape)
      requires pm.Valid() && i < |spaces| && KnownBut(i) && Is(spaces[i], sh) && AllOk(pm.Now(), shapes[i := sh])
      modifies this`shapes
      ensures Valid() && shapes == old(shapes)[i := sh]
    {
      shapes := shapes[i := sh];
    }

    /** vmem_init */
    method DoNew() returns (ok: bool)
      requires Valid()
      modifies this, pm
      ensures Valid() && Lost() == old(Lost())
      ensures (ok <==> old(pm.free) != {}) && SameWalks(old(pm.Now()), pm.Now())
      ensures ok ==> exists r ::
        && shapes == old(shapes) + [Shape(r, [])]
        && forall va: Path :: va.P4? && InBounds(va) ==> Walk(pm.mem, r, va).Absent?
      ensures ok ==> exists v :: fresh(v) && spaces == old(spaces) + [v]
      ensures !ok ==> shapes == old(shapes) && spaces == old(spaces) && pm.free == {}
    {
      ghost var a := pm.Now();
      var v := Create(pm);
      if v.None? {
        return false;
      }
      ghost var sh := Shape(v.value.root, []);
      Joined(a, pm.Now(), shapes, sh);
      Add(v.value, sh);
      ok := true;
    }

    /** vmem_alloc_pages for one space */
    method DoPlace(i: nat, start: nat, pgcnt: nat, flags: Flags) returns (res: AreaResult)
      requires Valid() && i < |spaces| && MayPlace(spaces[i].areas, start, pgcnt)
      modifies spaces[i], this`shapes
      ensures Valid() && Lost() == old(Lost()) && (res.Placed? || res.Overlap?)
      ensures res.Overlap? <==> Meets(old(shapes)[i].areas, start, pgcnt)
      ensures shapes ==
        if res.Placed? then old(shapes)[i := WithArea(old(shapes)[i], Area(start, pgcnt, flags))] else old(shapes)
    {
      SpaceAt(i);
      res := spaces[i].AllocPages(start, pgcnt, flags);
      if res.Placed? {
        PlacedOne(pm.Now(), shapes, i, Area(start, pgcnt, flags));
        Note(i, WithArea(shapes[i], Area(start, pgcnt, flags)));
      }
    }

    /** vmem_handle_pf in one space.  However it ends, all other spaces are in order. */
    method DoTouch(i: nat, addr: nat) returns (res: PfResult, ghost frame: Frame)
      requires Valid() && i < |spaces| && Canonical(addr)
      modifies pm
      ensures Known() && AllOk(pm.Now(), shapes) && (Valid() <==> !res.BogusFrame?) && pm.Accounted()
      ensures res.Served? || res.Segfault? ==> Lost() == old(Lost())
      ensures res.Segfault? <==> Lookup(shapes[i].areas, addr).None?
      ensures res.Segfault? ==> pm.Now() == old(pm.Now()) && pm.free == old(pm.free)
      ensures !res.Segfault? ==>
        FaultServed(old(pm.Now()), pm.Now(), old(pm.free), pm.free, shapes[i].root, PathOf(addr),
                    Lookup(shapes[i].areas, addr).value, res, frame)
    {
      ghost var a, free := pm.Now(), pm.free;
      SpaceAt(i);
      FaultAddress(spaces[i].areas, addr, addr - addr % PAGE_SIZE);
      res, frame := spaces[i].HandlePf(addr);
      if !res.Segfault? {
        ghost var area := Lookup(shapes[i].areas, addr).value;
        FaultedOne(a, pm.Now(), free, pm.free, shapes, i, PathOf(addr), area, res, frame);
      }
    }

    /** vmem_free_pages in one space */
    method DoRelease(i: nat, start: nat, pgcnt: nat) returns (res: AreaResult, ghost k: nat, ghost gone: set<Frame>)
      requires Valid() && i < |spaces| && start % PAGE_SIZE == 0
      modifies spaces[i], pm, this`shapes
      ensures Valid() && Lost() == old(Lost()) + gone
      ensures res.Freed? || res.Mismatch?
      ensures res.Mismatch? <==> NoMatch(old(shapes)[i].areas, start, pgcnt)
      ensures res.Mismatch? ==> pm.Now() == old(pm.Now()) && pm.free == old(pm.free)
      ensures res.Freed? ==>
        k < |old(shapes)[i].areas| && Matches(old(shapes)[i].areas[k], start, EndOf(start, pgcnt))
      ensures res.Freed? ==>
        ReleasedWalks(old(pm.Now()), pm.Now(), old(shapes)[i].root, start, EndOf(start, pgcnt))
      ensures shapes == if res.Freed? then old(shapes)[i := WithoutArea(old(shapes)[i], k)] else old(shapes)
      ensures gone == if res.Freed? && !old(shapes)[i].areas[k].flags.user
        then AreaFrames(old(pm.owner), old(shapes)[i].root, start, EndOf(start, pgcnt)) else {}
    {
      ghost var a, free := pm.Now(), pm.free;
      SpaceAt(i);
      gone := {};
      res, k := spaces[i].FreePages(start, pgcnt);
      if res.Freed? {
        ghost var end := EndOf(start, pgcnt);
        gone := if shapes[i].areas[k].flags.user then {} else AreaFrames(a.owner, shapes[i].root, start, end);
        ReleasedOne(a, pm.Now(), free, pm.free, shapes, i, k, start, end, gone);
        Note(i, WithoutArea(shapes[i], k));
      }
    }

    /** vmem_clone of one space */
    method DoCopy(i: nat) returns (ok: bool)
      requires Valid() && i < |spaces|
      modifies this, pm
      ensures Valid() && Lost() == old(Lost()) + if ok then {} else old(pm.free)
      ensures SameWalks(old(pm.Now()), pm.Now())
      ensures ok ==> exists r ::
        && shapes == old(shapes) + [Shape(r, Reversed(old(shapes)[i].areas))]
        && forall va: Path :: va.P4? && InBounds(va) ==>
          Clone.CloneOf(old(pm.Now()), pm.Now(), old(shapes)[i].root, r, va)
      ensures ok ==> exists v :: fresh(v) && spaces == old(spaces) + [v]
      ensures !ok ==> shapes == old(shapes) && spaces == old(spaces) && pm.free == {}
    {
      ghost var a, free := pm.Now(), pm.free;
      SpaceAt(i);
      var v := spaces[i].CloneInto();
      if v.None? {
        AllIntact(a, pm.Now(), shapes);
        LostCopy(a, pm.Now(), free, shapes);
        return false;
      }
      ghost var sh := Shape(v.value.root, v.value.areas);
      CopiedSpace(a, pm.Now(), shapes[i], sh.root);
      Joined(a, pm.Now(), shapes, sh);
      Add(v.value, sh);
      ok := true;
    }

    /** vmem_destroy of one space, not in use */
    method DoEnd(i: nat)
      requires Valid() && i < |spaces|
      modifies this, pm, spaces[i]
      ensures Valid() && Lost() == old(Lost()) && shapes == Removed(old(shapes), i)
      ensures spaces == Removed(old(spaces), i)
      ensures pm.free == old(pm.free) + Destroy.Belonging(old(pm.owner), old(shapes)[i].root)
      ensures forall k :: 0 <= k < |old(shapes)| && k != i ==>
        SameIn(old(pm.Now()), pm.Now(), old(shapes)[k].root)
    {
      ghost var a := pm.Now();
      SpaceAt(i);
      var ok := spaces[i].TearDown(None);
      EndedOne(a, pm.Now(), shapes, i);
      OthersIntact(a, pm.Now(), shapes, i);
      Drop(i);
    }

    /** No space has come from elsewhere. */
    twostate predicate OldOrNew()
      reads this
    {
      forall i :: 0 <= i < |spaces| ==> spaces[i] in old(spaces) || fresh(spaces[i])
    }

    method TryPlace(i: nat, start: nat, pgcnt: nat, flags: Flags) returns (go: bool)
      requires Valid()
      modifies this, spaces
      ensures spaces == old(spaces) && (go ==> Valid() && Lost() == old(Lost()))
      ensures !go ==> MayStop(old(pm.Now()), old(pm.free), old(shapes), Place(i, start, pgcnt, flags))
      ensures go && flags.user && AllUser(old(shapes)) ==> AllUser(shapes)
    {
      if i >= |spaces| {
        return true;
      }
      go := MayPlace(spaces[i].areas, start, pgcnt);
      if go {
        var res := DoPlace(i, start, pgcnt, flags);
        go := res.Placed?;
      }
    }

    method TryTouch(i: nat, addr: nat) returns (go: bool)
      requires Valid()
      modifies pm
      ensures go ==> Valid() && Lost() == old(Lost())
      ensures !go ==> MayStop(old(pm.Now()), old(pm.free), old(shapes), Touch(i, addr))
    {
      if i >= |spaces| || !Canonical(addr) {
        return true;
      }
      ghost var a, free := pm.Now(), pm.free;
      SpaceAt(i);
      MadeAddrOfIndices(addr);
      var res;
      ghost var frame;
      res, frame := DoTouch(i, addr);
      go := res.Served? || res.Segfault?;
      if !go {
        assert SpaceOk(pm.Now(), shapes[i]);
        EnoughFrames(a, pm.Now(), free, pm.free, shapes[i].root, PathOf(addr), Lookup(shapes[i].areas, addr).value,
                     res, frame);
      }
    }

    method TryRelease(i: nat, start: nat, pgcnt: nat) returns (go: bool, ghost gone: set<Frame>)
      requires Valid()
      modifies this, pm, spaces
      ensures spaces == old(spaces) && (go ==> Valid() && Lost() == old(Lost()) + gone)
      ensures !go ==> MayStop(old(pm.Now()), old(pm.free), old(shapes), Release(i, start, pgcnt))
      ensures go && AllUser(old(shapes)) ==> AllUser(shapes) && gone == {}
    {
      gone := {};
      if i >= |spaces| {
        return true, {};
      }
      go := start % PAGE_SIZE == 0;
      if go {
        ghost var was := shapes[i];
        var res;
        ghost var k;
        res, k, gone := DoRelease(i, start, pgcnt);
        go := res.Freed?;
        if go { UserRemoved(was.areas, k); }
      }
    }

    method TryCopy(i: nat) returns (copied: bool, ghost gone: set<Frame>)
      requires Valid()
      modifies this, pm
      ensures Valid() && Lost() == old(Lost()) + gone && OldOrNew() && (!copied ==> gone == old(pm.free))
      ensures copied && AllUser(old(shapes)) ==> AllUser(shapes) && gone == {}
    {
      if i >= |spaces| {
        return true, {};
      }
      gone := pm.free;
      UserReversed(shapes[i].areas);
      copied := DoCopy(i);
      gone := if copied then {} else gone;
    }

    method TryEnd(i: nat)
      requires Valid()
      modifies this, pm, spaces
      ensures Valid() && Lost() == old(Lost()) && OldOrNew()
      ensures AllUser(old(shapes)) ==> AllUser(shapes)
    {
      if i < |spaces| {
        ghost var was := shapes;
        DoEnd(i);
        forall k | 0 <= k < |shapes| ensures shapes[k] == was[if k < i then k else k + 1] { }
      }
    }

    method TryNew()
      requires Valid()
      modifies this, pm
      ensures Valid() && Lost() == old(Lost()) && OldOrNew()
      ensures AllUser(old(shapes)) ==> AllUser(shapes)
    {
      var ok := DoNew();
    }

    /** One operation.  `go` is false where the kernel stops, or would map a frame that does not exist,
        and for an area outside the low addresses or in one the test does not see; an operation on a
        space that is not there is none.  `gone` is what is lost. */
    method Do(op: Op) returns (go: bool, copied: bool, ghost gone: set<Frame>)
      requires Valid()
      modifies this, pm, spaces
      ensures OldOrNew()
      ensures go ==> Valid() && Lost() == old(Lost()) + gone
      ensures !go ==> MayStop(old(pm.Now()), old(pm.free), old(shapes), op)
      ensures !copied ==> op.Copy? && gone == old(pm.free)
      ensures go && copied && AllUser(old(shapes)) && (op.Place? ==> op.flags.user) ==> AllUser(shapes) && gone == {}
    {
      go, copied, gone := true, true, {};
      match op
      case NewSpace => TryNew();
      case Place(i, start, pgcnt, flags) => go := TryPlace(i, start, pgcnt, flags);
      case Touch(i, addr) => go := TryTouch(i, addr);
      case Release(i, start, pgcnt) => go, gone := TryRelease(i, start, pgcnt);
      case Copy(i) => copied, gone := TryCopy(i);
      case End(i) => TryEnd(i);
    }

    /** Operations one after the other.  As long as the kernel does not stop, memory and spaces stay in
        order; what is lost stays lost, and when no space is left all else is free.  If all areas are user
        areas and no copy fails, nothing is lost. */
    method Run(ops: seq<Op>) returns (ok: bool, copied: bool)
      requires Valid()
      modifies this, pm, spaces
      ensures ok ==> Valid() && old(Lost()) <= Lost()
      ensures !ok ==> CanEnd(ops)
      ensures ok && spaces == [] ==> pm.free == pm.frames - Lost() && Lost() == pm.owner.Keys
      ensures ok && copied && AllUser(old(shapes)) && UserAreas(ops) ==> Lost() == old(Lost())
    {
      ok, copied := true, true;
      var k := 0;
      while k < |ops|
        invariant k <= |ops| && Valid() && OldOrNew() && old(Lost()) <= Lost()
        invariant copied && AllUser(old(shapes)) && UserAreas(ops) ==> AllUser(shapes) && Lost() == old(Lost())
      {
        var one;
        ghost var gone;
        ok, one, gone := Do(ops[k]);
        if !ok {
          return;
        }
        copied := copied && one;
        k := k + 1;
      }
      AllBack();
    }

    /** With no space left, what is not lost is free. */
    lemma AllBack()
      requires Valid()
      ensures spaces == [] ==> pm.free == pm.frames - Lost() && Lost() == pm.owner.Keys
    {
      if spaces == [] { AllOwnedLost(pm.owner); }
    }
  }

  /** From the first space to the last: if all areas are user areas and no copy fails, all frames are
      free again at the end, whatever was created, touched, released, copied and ended in between. */
  method WholeRun(frames: set<Frame>, ops: seq<Op>) returns (sys: System, ok: bool, copied: bool)
    ensures ok ==> sys.Valid() && sys.pm.frames == frames
    ensures !ok ==> CanEnd(ops)
    ensures ok && copied && UserAreas(ops) && sys.spaces == [] ==> sys.pm.free == frames && sys.pm.owner == map[]
  {
    var pm := new PhysMem(frames);
    sys := new System(pm);
    ok, copied := sys.Run(ops);
  }
}
