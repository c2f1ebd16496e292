/** vmem_init, vmem_clone_pages and the page part of vmem_clone (mm/vmem.c): a new address space
    that means the same as an existing one. */
module Clone {
  import opened Common
  import opened Tables
  import opened TableSteps
  import opened Vmem

  /** The page `va` of `dst` after cloning is the page of `src` before: absent, or of the same size
      with the same flags; a shared page keeps its frame, an allocated page gets a frame of its own
      with the same contents. */
  ghost predicate CloneOf(a: Snap, b: Snap, src: Frame, dst: Frame, va: Path)
    requires va.P4?
  {
    match Walk(a.mem, src, va)
    case Absent => Walk(b.mem, dst, va).Absent?
    case Mapped(size, f, user, write, alloc) =>
      var w := Walk(b.mem, dst, va);
      && w.Mapped? && w.size == size && w.user == user && w.write == write && w.alloc == alloc
      && if size.Size4K? && alloc
         then w.frame !in a.owner && w.frame in b.owner && b.owner[w.frame].Data? && b.owner[w.frame].root == dst
              && f in a.mem && w.frame in b.mem && b.mem[w.frame] == a.mem[f]
         else w.frame == f
  }

  /** All pages but those of space `r` below `q` translate as before. */
  ghost predicate OutsideSame(a: Snap, b: Snap, r: Frame, q: Path) {
    forall r': Frame, va: Path :: IsRoot(a.owner, r') && va.P4? && InBounds(va) && !(r' == r && OnWay(q, va)) ==>
      Walk(b.mem, r', va) == Walk(a.mem, r', va)
  }

  /** Only the space `r` changed, at and below `q` and on the way there, and it only grew. */
  ghost predicate Touched(a: Snap, b: Snap, r: Frame, q: Path) {
    Grown(a, b, r, q, true) && OutsideSame(a, b, r, q) && KeepsOthers(a, b, {})
  }

  /** The subtree of `src` at path `q` has been cloned into `dst`. */
  ghost predicate Cloned(a: Snap, b: Snap, src: Frame, dst: Frame, q: Path) {
    && Touched(a, b, dst, q) && NoStray(a, b)
    && forall va: Path :: va.P4? && InBounds(va) && OnWay(q, va) ==> CloneOf(a, b, src, dst, va)
  }

  /** The space `dst` has no entry at the path `q`. */
  ghost predicate Vacant(s: Snap, dst: Frame, q: Path)
    requires !q.P0?
  {
    forall f :: IsTable(s.owner, dst, Parent(q), f) ==> Read(s.mem, f, Last(q)) == ZERO
  }

  /** The space `dst` has nothing at, above or below the path `q`. */
  ghost predicate Empty(s: Snap, dst: Frame, q: Path)
    requires !q.P0?
  {
    Vacant(s, dst, q) && forall va: Path :: va.P4? && InBounds(va) && OnWay(q, va) ==> Walk(s.mem, dst, va).Absent?
  }

  predicate Idx(q: Path, va: Path, j: nat)
    requires !q.P4? && va.P4?
  {
    match q
    case P0 => va.m < j
    case P1(_) => va.p < j
    case P2(_, _) => va.d < j
    case P3(_, _, _) => va.t < j
  }

  ghost predicate Cloning(a: Snap, s: Snap, src: Frame, dst: Frame, q: Path) {
    && Sound(a) && Sound(s) && IsRoot(a.owner, src) && IsRoot(a.owner, dst) && src != dst && InBounds(q)
    && Touched(a, s, dst, q)
  }

  /** Cloning the subtree at `q` from state `a` has come to the child `j`. */
  ghost predicate Progress(a: Snap, s: Snap, src: Frame, dst: Frame, q: Path, j: nat)
    requires !q.P4?
  {
    && j <= 512 && Cloning(a, s, src, dst, q) && NoStray(a, s)
    && (forall va: Path :: va.P4? && InBounds(va) && OnWay(q, va) && Idx(q, va, j) ==> CloneOf(a, s, src, dst, va))
    && (forall k :: j <= k < 512 ==> Empty(s, dst, Child(q, k)))
  }

  /** An entry decides the translation of the pages below it unless it points to a table. */
  lemma EntryWalk(s: Snap, r: Frame, pre: Path, f: Frame, i: nat, va: Path)
    requires Sound(s) && IsTable(s.owner, r, pre, f) && !pre.P4? && i < 512 && va.P4? && OnWay(Child(pre, i), va)
    ensures !Read(s.mem, f, i).present ==> Walk(s.mem, r, va).Absent?
    ensures Read(s.mem, f, i).present && (Read(s.mem, f, i).large || pre.P3?) ==>
              !pre.P0? && Walk(s.mem, r, va) == Leaf(SizeAt(Child(pre, i)), Read(s.mem, f, i))
  {
    WayUp(s, f, va);
    assert EntryOk(s.mem, s.owner, f, i);
  }

  /** The first page at or below a path. */
  function FirstPage(q: Path): Path {
    match q
    case P0 => P4(0, 0, 0, 0)
    case P1(m) => P4(m, 0, 0, 0)
    case P2(m, p) => P4(m, p, 0, 0)
    case P3(m, p, d) => P4(m, p, d, 0)
    case P4(m, p, d, t) => q
  }

  /** The kasserts of the mapping functions hold for an empty path. */
  lemma EmptyMappable(s: Snap, dst: Frame, q: Path)
    requires Sound(s) && IsRoot(s.owner, dst) && (q.P2? || q.P3? || q.P4?) && InBounds(q) && Empty(s, dst, q)
    ensures !LargeOnWay(s.mem, dst, q) && !EntryAt(s.mem, dst, q).present
  {
    WayDown(s.mem, s.owner, dst, FirstPage(q));
    var va := FirstPage(q);
    assert EntryOk(s.mem, s.owner, dst, va.m);
    var e1 := Read(s.mem, dst, va.m);
    if e1.present {
      assert EntryOk(s.mem, s.owner, e1.frame, va.p);
      var e2 := Read(s.mem, e1.frame, va.p);
      if e2.present && !e2.large { assert EntryOk(s.mem, s.owner, e2.frame, va.d); }
    }
  }

  // ---- The loop over the entries of one table

  lemma ProgressStart(a: Snap, src: Frame, dst: Frame, q: Path)
    requires Sound(a) && IsRoot(a.owner, src) && IsRoot(a.owner, dst) && src != dst && !q.P4? && InBounds(q)
    requires if q.P0? then forall k :: 0 <= k < 512 ==> Read(a.mem, dst, k) == ZERO else Empty(a, dst, q)
    ensures Progress(a, a, src, dst, q, 0)
  {
    forall k | 0 <= k < 512 ensures Empty(a, dst, Child(q, k)) {
      if q.P0? {
        forall va: Path | va.P4? && InBounds(va) && OnWay(P1(k), va) ensures Walk(a.mem, dst, va).Absent? { }
      } else {
        forall f ensures !IsTable(a.owner, dst, q, f) {
          assert IsTable(a.owner, dst, q, f) ==> OwnerOk(a.mem, a.owner, f);
        }
      }
    }
  }

  /** Nothing to do for an absent entry. */
  lemma ProgressSkip(a: Snap, s: Snap, src: Frame, dst: Frame, q: Path, j: nat, f: Frame)
    requires !q.P4? && Progress(a, s, src, dst, q, j) && j < 512
    requires IsTable(a.owner, src, q, f) && !Read(a.mem, f, j).present
    ensures Progress(a, s, src, dst, q, j + 1)
  {
    forall va: Path | va.P4? && InBounds(va) && OnWay(q, va) && Idx(q, va, j + 1) ensures CloneOf(a, s, src, dst, va) {
      if !Idx(q, va, j) {
        assert OnWay(Child(q, j), va) && Empty(s, dst, Child(q, j));
        EntryWalk(a, src, q, f, j, va);
      }
    }
  }

  /** One child cloned. */
  lemma ProgressStep(a: Snap, s: Snap, s': Snap, src: Frame, dst: Frame, q: Path, j: nat)
    requires !q.P4? && Progress(a, s, src, dst, q, j) && j < 512 && Sound(s') && Cloned(s, s', src, dst, Child(q, j))
    ensures Progress(a, s', src, dst, q, j + 1)
  {
    CloningStep(a, s, s', src, dst, q, j);
    ClonedUpTo(a, s, s', src, dst, q, j);
    StayEmpty(a, s, s', src, dst, q, j);
  }

  lemma ClonedUpTo(a: Snap, s: Snap, s': Snap, src: Frame, dst: Frame, q: Path, j: nat)
    requires !q.P4? && Progress(a, s, src, dst, q, j) && j < 512 && Cloned(s, s', src, dst, Child(q, j))
    ensures forall va: Path :: va.P4? && InBounds(va) && OnWay(q, va) && Idx(q, va, j + 1) ==>
      CloneOf(a, s', src, dst, va)
  {
    forall va: Path | va.P4? && InBounds(va) && OnWay(q, va) && Idx(q, va, j + 1) ensures CloneOf(a, s', src, dst, va) {
      CloneCarries(a, s, s', src, dst, q, j, va);
    }
  }

  lemma StayEmpty(a: Snap, s: Snap, s': Snap, src: Frame, dst: Frame, q: Path, j: nat)
    requires !q.P4? && Progress(a, s, src, dst, q, j) && j < 512 && Cloned(s, s', src, dst, Child(q, j))
    ensures forall k :: j + 1 <= k < 512 ==> Empty(s', dst, Child(q, k))
  {
    forall k | j + 1 <= k < 512 ensures Empty(s', dst, Child(q, k)) {
      StillEmpty(s, s', dst, q, j, k);
    }
  }

  lemma CloningStep(a: Snap, s: Snap, s': Snap, src: Frame, dst: Frame, q: Path, j: nat)
    requires !q.P4? && Cloning(a, s, src, dst, q) && Sound(s') && Touched(s, s', dst, Child(q, j))
    ensures Cloning(a, s', src, dst, q)
  {
    ParentOfChild(q, j);
    TouchedStep(a, s, s', dst, q, Child(q, j));
  }

  lemma TouchedStep(a: Snap, s: Snap, s': Snap, dst: Frame, q: Path, c: Path)
    requires Touched(a, s, dst, q) && Touched(s, s', dst, c) && !c.P0? && q == Parent(c)
    ensures Touched(a, s', dst, q)
  {
    GrownStep(a, s, s', dst, q, c);
    OutsideStep(a, s, s', dst, q, c);
  }

  lemma GrownStep(a: Snap, s: Snap, s': Snap, dst: Frame, q: Path, c: Path)
    requires Grown(a, s, dst, q, true) && Grown(s, s', dst, c, true) && !c.P0? && q == Parent(c)
    ensures Grown(a, s', dst, q, true)
  {
    GrownWider(s, s', dst, c, true, q, true);
    GrownTransitive(a, s, s', dst, q, true);
  }

  lemma OutsideStep(a: Snap, s: Snap, s': Snap, dst: Frame, q: Path, c: Path)
    requires Grown(a, s, dst, q, true) && OutsideSame(a, s, dst, q)
    requires OutsideSame(s, s', dst, c) && !c.P0? && q == Parent(c)
    ensures OutsideSame(a, s', dst, q)
  {
  }

  lemma CloneCarries(a: Snap, s: Snap, s': Snap, src: Frame, dst: Frame, q: Path, j: nat, va: Path)
    requires !q.P4? && Progress(a, s, src, dst, q, j) && j < 512 && Cloned(s, s', src, dst, Child(q, j))
    requires va.P4? && InBounds(va) && OnWay(q, va) && Idx(q, va, j + 1)
    ensures CloneOf(a, s', src, dst, va)
  {
    if Idx(q, va, j) {
      assert !OnWay(Child(q, j), va);
      CloneStays(a, s, s', src, dst, Child(q, j), va);
    } else {
      assert OnWay(Child(q, j), va);
      CloneFromStart(a, s, s', src, dst, q, va);
    }
  }

  lemma CloneStays(a: Snap, s: Snap, s': Snap, src: Frame, dst: Frame, c: Path, va: Path)
    requires va.P4? && CloneOf(a, s, src, dst, va) && Grown(s, s', dst, c, true)
    requires Walk(s'.mem, dst, va) == Walk(s.mem, dst, va)
    ensures CloneOf(a, s', src, dst, va)
  {
  }

  lemma CloneFromStart(a: Snap, s: Snap, s': Snap, src: Frame, dst: Frame, q: Path, va: Path)
    requires va.P4? && InBounds(va) && Sound(a) && IsRoot(a.owner, src) && Grown(a, s, dst, q, true)
    requires Walk(s.mem, src, va) == Walk(a.mem, src, va) && CloneOf(s, s', src, dst, va)
    ensures CloneOf(a, s', src, dst, va)
  {
    SourceData(a, src, va);
  }

  /** The frame of an allocated page belongs to the page. */
  lemma SourceData(s: Snap, r: Frame, va: Path)
    requires Sound(s) && IsRoot(s.owner, r) && va.P4? && InBounds(va)
    ensures var w := Walk(s.mem, r, va); w.Mapped? && w.size.Size4K? && w.alloc ==>
      w.frame in s.owner && s.owner[w.frame].Data? && s.owner[w.frame].root == r && s.owner[w.frame].at == va
  {
    WayDown(s.mem, s.owner, r, va);
    var w := Walk(s.mem, r, va);
    if w.Mapped? && w.size.Size4K? {
      var e1 := Read(s.mem, r, va.m);
      var e2 := Read(s.mem, e1.frame, va.p);
      var e3 := Read(s.mem, e2.frame, va.d);
      assert EntryOk(s.mem, s.owner, e3.frame, va.t);
    }
  }

  lemma StillEmpty(s: Snap, s': Snap, dst: Frame, q: Path, j: nat, k: nat)
    requires !q.P4? && j < k < 512 && IsRoot(s.owner, dst) && Empty(s, dst, Child(q, k))
    requires Grown(s, s', dst, Child(q, j), true) && OutsideSame(s, s', dst, Child(q, j))
    ensures Empty(s', dst, Child(q, k))
  {
    assert !Near(Child(q, k), Child(q, j), true);
    forall f | IsTable(s'.owner, dst, q, f) ensures Read(s'.mem, f, k) == ZERO {
      assert EntryGrown(s, s', dst, Child(q, j), true, f, k);
      assert f in s.owner ==> IsTable(s.owner, dst, Parent(Child(q, k)), f) && Last(Child(q, k)) == k;
    }
  }

  lemma ProgressDone(a: Snap, s: Snap, src: Frame, dst: Frame, q: Path)
    requires !q.P4? && Progress(a, s, src, dst, q, 512)
    ensures Cloned(a, s, src, dst, q)
  {
  }

  // ---- One entry

  /** vmem_unconvert_flags followed by vmem_convert_flags */
  function FlagsOf(e: Pte): Flags {
    Flags(e.user, e.write, e.alloc)
  }

  /** `e` is a leaf of the space `src` at path `c`. */
  ghost predicate LeafOf(s: Snap, src: Frame, c: Path, f: Frame, e: Pte) {
    && (c.P2? || c.P3? || c.P4?) && InBounds(c)
    && Sound(s) && IsRoot(s.owner, src) && IsTable(s.owner, src, Parent(c), f)
    && e == Read(s.mem, f, Last(c)) && e.present && (e.large || c.P4?)
  }

  /** A leaf mapped to the same frame is cloned. */
  lemma SharedLeaf(s: Snap, s': Snap, src: Frame, dst: Frame, c: Path, f: Frame, e: Pte)
    requires LeafOf(s, src, c, f, e) && !(c.P4? && e.alloc)
    requires Grown(s, s', dst, c, false) && Remapped(s, s', dst, c, e.frame, FlagsOf(e))
    requires IsRoot(s.owner, dst) && NoStray(s, s') && KeepsOthers(s, s', {})
    ensures Cloned(s, s', src, dst, c)
  {
    GrownWider(s, s', dst, c, false, c, true);
    forall va: Path | va.P4? && InBounds(va) && OnWay(c, va) ensures CloneOf(s, s', src, dst, va) {
      ParentAndLast(c);
      EntryWalk(s, src, Parent(c), f, Last(c), va);
      assert Walk(s.mem, src, va) == Leaf(SizeAt(c), e);
    }
  }

  /** An allocated leaf mapped to a fresh copy is cloned. */
  lemma CopiedLeaf(s: Snap, h: Snap, s': Snap, src: Frame, dst: Frame, c: Path, f: Frame, e: Pte, g: Frame)
    requires LeafOf(s, src, c, f, e) && c.P4? && e.alloc && IsRoot(s.owner, dst) && src != dst
    requires e.frame in s.mem && g !in s.owner && h == Held(s, g, s.mem[e.frame])
    requires Grown(h, s', dst, c, false) && Remapped(h, s', dst, c, g, FlagsOf(e))
    requires g in s'.owner && s'.owner[g].Data? && s'.owner[g].root == dst
    requires s'.owner[g].at == c && NoStray(h, s') && KeepsOthers(h, s', {g})
    ensures Cloned(s, s', src, dst, c)
  {
    CopiedPage(s, h, s', src, dst, c, f, e, g);
    CopiedTouched(s, h, s', dst, c, g, s.mem[e.frame], FlagsOf(e));
    forall va: Path | va.P4? && InBounds(va) && OnWay(c, va) ensures CloneOf(s, s', src, dst, va) {
      assert va == c;
    }
  }

  lemma CopiedTouched(s: Snap, h: Snap, s': Snap, dst: Frame, c: Path, g: Frame, page: Page, flags: Flags)
    requires Sound(s) && c.P4? && g !in s.owner && h == Held(s, g, page)
    requires Grown(h, s', dst, c, false) && Remapped(h, s', dst, c, g, flags)
    requires g in s'.owner && s'.owner[g].Data? && NoStray(h, s') && KeepsOthers(h, s', {g})
    ensures Touched(s, s', dst, c) && NoStray(s, s')
  {
    HoldFrame(s, g, page);
    HeldOutside(s, h, s', dst, c, g, flags);
    HeldKept(s, h, s', dst, c, g, page);
  }

  lemma CopyFailed(s: Snap, h: Snap, s': Snap, dst: Frame, c: Path, g: Frame, page: Page)
    requires Sound(s) && g !in s.owner && h == Held(s, g, page)
    requires Grown(h, s', dst, c, false) && SameWalks(h, s') && KeepsOthers(h, s', {g})
    ensures Touched(s, s', dst, c)
  {
    HoldFrame(s, g, page);
    HeldKept(s, h, s', dst, c, g, page);
    SameWalksTransitive(s, h, s');
  }

  /** What a page held for a while and then mapped does to the rest. */
  lemma HeldKept(s: Snap, h: Snap, s': Snap, dst: Frame, c: Path, g: Frame, page: Page)
    requires g !in s.owner && h == Held(s, g, page) && Grown(h, s', dst, c, false) && KeepsOthers(h, s', {g})
    ensures Grown(s, s', dst, c, true) && KeepsOthers(s, s', {})
  {
    HeldGrown(s, h, s', dst, c, g, page);
    GrownWider(s, s', dst, c, false, c, true);
  }

  lemma CopiedPage(s: Snap, h: Snap, s': Snap, src: Frame, dst: Frame, c: Path, f: Frame, e: Pte, g: Frame)
    requires LeafOf(s, src, c, f, e) && c.P4? && e.alloc && IsRoot(s.owner, dst)
    requires e.frame in s.mem && g !in s.owner && h == Held(s, g, s.mem[e.frame])
    requires Grown(h, s', dst, c, false) && Remapped(h, s', dst, c, g, FlagsOf(e))
    requires g in s'.owner && s'.owner[g].Data? && s'.owner[g].root == dst
    ensures CloneOf(s, s', src, dst, c)
  {
    EntryWalk(s, src, Parent(c), f, Last(c), c);
    assert h.owner[g].Other? && IsRoot(h.owner, dst);
    CopiedValue(s, s', src, dst, c, e, g);
  }

  lemma CopiedValue(s: Snap, s': Snap, src: Frame, dst: Frame, c: Path, e: Pte, g: Frame)
    requires c.P4? && e.alloc && Walk(s.mem, src, c) == Leaf(Size4K, e)
    requires Walk(s'.mem, dst, c) == Leaf(Size4K, MakeEntry(g, false, FlagsOf(e)))
    requires g !in s.owner && g in s'.owner && s'.owner[g].Data? && s'.owner[g].root == dst
    requires e.frame in s.mem && g in s'.mem && s'.mem[g] == s.mem[e.frame]
    ensures CloneOf(s, s', src, dst, c)
  {
  }

  lemma HeldOutside(s: Snap, h: Snap, s': Snap, dst: Frame, c: Path, g: Frame, flags: Flags)
    requires SameWalks(s, h) && (forall r :: IsRoot(s.owner, r) ==> IsRoot(h.owner, r))
    requires c.P4? && Remapped(h, s', dst, c, g, flags)
    ensures OutsideSame(s, s', dst, c)
  {
  }

  lemma HeldGrown(s: Snap, h: Snap, s': Snap, dst: Frame, c: Path, g: Frame, page: Page)
    requires g !in s.owner && h == Held(s, g, page) && Grown(h, s', dst, c, false)
    ensures Grown(s, s', dst, c, false)
  {
    HeldOwners(s, h, s', dst, c, g, page);
    forall x, i | x in s'.owner && 0 <= i < 512 && s'.owner[x].Table? ensures EntryGrown(s, s', dst, c, false, x, i) {
      HeldEntry(s, h, s', dst, c, g, page, x, i);
    }
  }

  lemma HeldEntry(s: Snap, h: Snap, s': Snap, dst: Frame, c: Path, g: Frame, page: Page, x: Frame, i: nat)
    requires g !in s.owner && h == Held(s, g, page) && x in s'.owner && s'.owner[x].Table? && i < 512
    requires g in s'.owner && !s'.owner[g].Table? && EntryGrown(h, s', dst, c, false, x, i)
    ensures EntryGrown(s, s', dst, c, false, x, i)
  {
  }

  lemma HeldOwners(s: Snap, h: Snap, s': Snap, dst: Frame, c: Path, g: Frame, page: Page)
    requires g !in s.owner && h == Held(s, g, page) && Grown(h, s', dst, c, false)
    ensures g in s'.owner && !s'.owner[g].Table?
    ensures forall f :: f in s.owner ==>
      f in s'.owner && (s'.owner[f] == s.owner[f] || (s.owner[f].Other? && s'.owner[f].Data?))
    ensures forall f :: f in s'.owner && !(f in s.owner && s'.owner[f] == s.owner[f]) ==>
      NewOwner(s'.owner[f], dst, c, false)
    ensures forall f :: f in s.owner && !s.owner[f].Table? ==> f in s.mem && f in s'.mem && s'.mem[f] == s.mem[f]
  {
  }

  /** frame_alloc and memcpy: a frame of its own for the contents of `from`. */
  method CopyFrame(pm: PhysMem, from: Frame) returns (g: Option<Frame>)
    requires pm.Valid() && from in pm.owner
    modifies pm
    ensures pm.Valid()
    ensures g.None? ==> pm.free == {} && pm.Now() == old(pm.Now())
    ensures g.Some? ==> g.value !in old(pm.owner) && pm.Now() == Held(old(pm.Now()), g.value, old(pm.mem)[from])
  {
    ghost var s := pm.Now();
    g := pm.FrameAlloc();
    if g.Some? {
      pm.mem := pm.mem[g.value := pm.mem[from]];
      HoldFrame(s, g.value, s.mem[from]);
      assert pm.mem == s.mem[g.value := s.mem[from]];
    }
  }

  /** A page that could not be mapped leaves the translations alone. */
  lemma LeafTouched(s: Snap, s': Snap, dst: Frame, c: Path)
    requires Grown(s, s', dst, c, false) && SameWalks(s, s') && KeepsOthers(s, s', {})
    ensures Touched(s, s', dst, c)
  {
    GrownWider(s, s', dst, c, false, c, true);
  }

  ghost predicate CanClone(s: Snap, src: Frame, dst: Frame, q: Path) {
    && Sound(s) && IsRoot(s.owner, src) && IsRoot(s.owner, dst) && src != dst && InBounds(q)
    && if q.P0? then forall k :: 0 <= k < 512 ==> Read(s.mem, dst, k) == ZERO else Empty(s, dst, q)
  }

  /** vmem_map_page of the copy `g`. */
  method MapCopy(pm: PhysMem, src: Frame, dst: Frame, c: Path, e: Pte, g: Frame, ghost f: Frame, ghost s: Snap)
    returns (ok: bool)
    requires pm.Valid() && CanClone(s, src, dst, c) && LeafOf(s, src, c, f, e) && c.P4? && e.alloc
    requires e.frame in s.mem && g !in s.owner && pm.Now() == Held(s, g, s.mem[e.frame])
    modifies pm
    ensures pm.Valid() && Touched(s, pm.Now(), dst, c)
    ensures if ok then Cloned(s, pm.Now(), src, dst, c) else pm.free == {}
  {
    ghost var h := pm.Now();
    HeldMappable(s, dst, c, g, s.mem[e.frame]);
    var res := pm.MapPage(dst, c, g, FlagsOf(e));
    ok := res.Done?;
    if ok {
      CopiedLeaf(s, h, pm.Now(), src, dst, c, f, e, g);
    } else {
      CopyFailed(s, h, pm.Now(), dst, c, g, s.mem[e.frame]);
    }
  }

  lemma SameWalksTransitive(a: Snap, b: Snap, c: Snap)
    requires SameWalks(a, b) && SameWalks(b, c) && forall r :: IsRoot(a.owner, r) ==> IsRoot(b.owner, r)
    ensures SameWalks(a, c)
  {
  }

  /** The case of an allocated 4 KB page in vmem_clone_pages. */
  method CloneAllocPage(pm: PhysMem, src: Frame, dst: Frame, c: Path, e: Pte, ghost f: Frame) returns (ok: bool)
    requires pm.Valid() && CanClone(pm.Now(), src, dst, c) && LeafOf(pm.Now(), src, c, f, e) && c.P4? && e.alloc
    modifies pm
    ensures pm.Valid() && Touched(old(pm.Now()), pm.Now(), dst, c)
    ensures if ok then Cloned(old(pm.Now()), pm.Now(), src, dst, c) else pm.free == {}
  {
    ghost var s := pm.Now();
    assert EntryOk(pm.mem, pm.owner, f, Last(c));
    var copy := CopyFrame(pm, e.frame);
    if copy.None? {
      LeafTouched(s, pm.Now(), dst, c);
      return false;
    }
    ok := MapCopy(pm, src, dst, c, e, copy.value, f, s);
  }

  /** The leaf case of vmem_clone_pages for a 4 KB page. */
  method ClonePage(pm: PhysMem, src: Frame, dst: Frame, c: Path, e: Pte, ghost f: Frame) returns (ok: bool)
    requires pm.Valid() && CanClone(pm.Now(), src, dst, c) && LeafOf(pm.Now(), src, c, f, e) && c.P4?
    modifies pm
    ensures pm.Valid() && Touched(old(pm.Now()), pm.Now(), dst, c)
    ensures if ok then Cloned(old(pm.Now()), pm.Now(), src, dst, c) else pm.free == {}
  {
    if e.alloc {
      ok := CloneAllocPage(pm, src, dst, c, e, f);
    } else {
      ghost var s := pm.Now();
      EmptyMappable(s, dst, c);
      var res := pm.MapPage(dst, c, e.frame, FlagsOf(e));
      if res.Done? { SharedLeaf(s, pm.Now(), src, dst, c, f, e); } else { LeafTouched(s, pm.Now(), dst, c); }
      return res.Done?;
    }
  }

  /** The leaf case of vmem_clone_pages for a 2 MB or a 1 GB page. */
  method CloneLargePage(pm: PhysMem, src: Frame, dst: Frame, c: Path, e: Pte, ghost f: Frame) returns (ok: bool)
    requires pm.Valid() && CanClone(pm.Now(), src, dst, c) && LeafOf(pm.Now(), src, c, f, e) && !c.P4?
    modifies pm
    ensures pm.Valid() && Touched(old(pm.Now()), pm.Now(), dst, c)
    ensures if ok then Cloned(old(pm.Now()), pm.Now(), src, dst, c) else pm.free == {}
  {
    ghost var s := pm.Now();
    EmptyMappable(s, dst, c);
    var res: MapResult;
    if c.P3? {
      res := pm.MapPage2M(dst, c, e.frame, FlagsOf(e));
    } else {
      res := pm.MapPage1G(dst, c, e.frame, FlagsOf(e));
    }
    if res.Done? { SharedLeaf(s, pm.Now(), src, dst, c, f, e); } else { LeafTouched(s, pm.Now(), dst, c); }
    return res.Done?;
  }

  /** The tables of the source do not change while `dst` grows. */
  lemma SourceStays(a: Snap, s: Snap, src: Frame, dst: Frame, q: Path, f: Frame)
    requires Cloning(a, s, src, dst, q) && IsTable(a.owner, src, q, f)
    ensures IsTable(s.owner, src, q, f) && IsRoot(s.owner, src) && IsRoot(s.owner, dst)
    ensures forall i :: 0 <= i < 512 ==> Read(s.mem, f, i) == Read(a.mem, f, i)
  {
    forall i | 0 <= i < 512 ensures Read(s.mem, f, i) == Read(a.mem, f, i) {
      assert EntryGrown(a, s, dst, q, true, f, i);
    }
  }

  /** The loop of vmem_clone_pages over a page table. */
  method CloneTable(pm: PhysMem, src: Frame, dst: Frame, q: Path, pt: Frame) returns (ok: bool)
    requires pm.Valid() && CanClone(pm.Now(), src, dst, q) && IsTable(pm.owner, src, q, pt) && q.P3?
    modifies pm
    ensures pm.Valid() && Touched(old(pm.Now()), pm.Now(), dst, q)
    ensures if ok then Cloned(old(pm.Now()), pm.Now(), src, dst, q) else pm.free == {}
  {
    ghost var a := pm.Now();
    ProgressStart(a, src, dst, q);
    var t := 0;
    while t < 512
      invariant t <= 512 && pm.Valid() && Progress(a, pm.Now(), src, dst, q, t)
    {
      ghost var s := pm.Now();
      SourceStays(a, s, src, dst, q, pt);
      var pte := Read(pm.mem, pt, t);
      if !pte.present {
        ProgressSkip(a, s, src, dst, q, t, pt);
      } else {
        assert Empty(s, dst, Child(q, t));
        ok := ClonePage(pm, src, dst, Child(q, t), pte, pt);
        if !ok {
          CloningStep(a, s, pm.Now(), src, dst, q, t);
          return;
        }
        ProgressStep(a, s, pm.Now(), src, dst, q, t);
      }
      t := t + 1;
    }
    ProgressDone(a, pm.Now(), src, dst, q);
    ok := true;
  }

  /** The loop of vmem_clone_pages over a page directory. */
  method CloneDir(pm: PhysMem, src: Frame, dst: Frame, q: Path, pd: Frame) returns (ok: bool)
    requires pm.Valid() && CanClone(pm.Now(), src, dst, q) && IsTable(pm.owner, src, q, pd) && q.P2?
    modifies pm
    ensures pm.Valid() && Touched(old(pm.Now()), pm.Now(), dst, q)
    ensures if ok then Cloned(old(pm.Now()), pm.Now(), src, dst, q) else pm.free == {}
  {
    ghost var a := pm.Now();
    ProgressStart(a, src, dst, q);
    var d := 0;
    while d < 512
      invariant d <= 512 && pm.Valid() && Progress(a, pm.Now(), src, dst, q, d)
    {
      ghost var s := pm.Now();
      SourceStays(a, s, src, dst, q, pd);
      var pde := Read(pm.mem, pd, d);
      if !pde.present {
        ProgressSkip(a, s, src, dst, q, d, pd);
      } else {
        assert Empty(s, dst, Child(q, d)) && EntryOk(pm.mem, pm.owner, pd, d);
        if pde.large {
          ok := CloneLargePage(pm, src, dst, Child(q, d), pde, pd);
        } else {
          ok := CloneTable(pm, src, dst, Child(q, d), pde.frame);
        }
        if !ok {
          CloningStep(a, s, pm.Now(), src, dst, q, d);
          return;
        }
        ProgressStep(a, s, pm.Now(), src, dst, q, d);
      }
      d := d + 1;
    }
    ProgressDone(a, pm.Now(), src, dst, q);
    ok := true;
  }

  /** The loop of vmem_clone_pages over a page directory pointer table. */
  method ClonePdpt(pm: PhysMem, src: Frame, dst: Frame, q: Path, pdpt: Frame) returns (ok: bool)
    requires pm.Valid() && CanClone(pm.Now(), src, dst, q) && IsTable(pm.owner, src, q, pdpt) && q.P1?
    modifies pm
    ensures pm.Valid() && Touched(old(pm.Now()), pm.Now(), dst, q)
    ensures if ok then Cloned(old(pm.Now()), pm.Now(), src, dst, q) else pm.free == {}
  {
    ghost var a := pm.Now();
    ProgressStart(a, src, dst, q);
    var p := 0;
    while p < 512
      invariant p <= 512 && pm.Valid() && Progress(a, pm.Now(), src, dst, q, p)
    {
      ghost var s := pm.Now();
      SourceStays(a, s, src, dst, q, pdpt);
      var pdpte := Read(pm.mem, pdpt, p);
      if !pdpte.present {
        ProgressSkip(a, s, src, dst, q, p, pdpt);
      } else {
        assert Empty(s, dst, Child(q, p)) && EntryOk(pm.mem, pm.owner, pdpt, p);
        if pdpte.large {
          ok := CloneLargePage(pm, src, dst, Child(q, p), pdpte, pdpt);
        } else {
          ok := CloneDir(pm, src, dst, Child(q, p), pdpte.frame);
        }
        if !ok {
          CloningStep(a, s, pm.Now(), src, dst, q, p);
          return;
        }
        ProgressStep(a, s, pm.Now(), src, dst, q, p);
      }
      p := p + 1;
    }
    ProgressDone(a, pm.Now(), src, dst, q);
    ok := true;
  }

  /** vmem_clone_pages: the loop over the PML4. */
  method ClonePages(pm: PhysMem, src: Frame, dst: Frame) returns (ok: bool)
    requires pm.Valid() && CanClone(pm.Now(), src, dst, P0)
    modifies pm
    ensures pm.Valid() && Touched(old(pm.Now()), pm.Now(), dst, P0)
    ensures if ok then Cloned(old(pm.Now()), pm.Now(), src, dst, P0) else pm.free == {}
  {
    ghost var a := pm.Now();
    ProgressStart(a, src, dst, P0);
    var m := 0;
    while m < 512
      invariant m <= 512 && pm.Valid() && Progress(a, pm.Now(), src, dst, P0, m)
    {
      ghost var s := pm.Now();
      SourceStays(a, s, src, dst, P0, src);
      var pml4e := Read(pm.mem, src, m);
      if !pml4e.present {
        ProgressSkip(a, s, src, dst, P0, m, src);
      } else {
        assert Empty(s, dst, Child(P0, m)) && EntryOk(pm.mem, pm.owner, src, m);
        ok := ClonePdpt(pm, src, dst, P1(m), pml4e.frame);
        if !ok {
          CloningStep(a, s, pm.Now(), src, dst, P0, m);
          return;
        }
        ProgressStep(a, s, pm.Now(), src, dst, P0, m);
      }
      m := m + 1;
    }
    ProgressDone(a, pm.Now(), src, dst, P0);
    ok := true;
  }

  // ---- vmem_init and vmem_clone

  /** A held, cleared frame made the PML4 of a new space. */
  function Rooted(s: Snap, r: Frame): Snap {
    s.(owner := s.owner[r := Table(r, P0, r)])
  }

  lemma RootedSound(s: Snap, r: Frame)
    requires Sound(s) && r in s.owner && s.owner[r].Other? && r in s.mem && s.mem[r] == ZeroPage()
    ensures Sound(Rooted(s, r)) && SameWalks(s, Rooted(s, r)) && IsRoot(Rooted(s, r).owner, r)
  {
    var s' := Rooted(s, r);
    forall f, i: nat | f in s'.owner && i < 512 ensures PlaceOk(s', f, i) {
      SoundAt(s, f, i);
    }
    SoundFrom(s');
  }

  /** The space `r` of `a` is the same in `b`, table for table and page for page. */
  ghost predicate Intact(a: Snap, b: Snap, r: Frame) {
    forall f :: f in a.owner && !a.owner[f].Other? && a.owner[f].root == r ==>
      f in b.owner && b.owner[f] == a.owner[f] && f in a.mem && f in b.mem && b.mem[f] == a.mem[f]
  }

  /** Every frame allocated on the way belongs to the space `r`. */
  ghost predicate BelongsTo(a: Snap, b: Snap, r: Frame) {
    forall f :: f in b.owner && f !in a.owner ==> !b.owner[f].Other? && b.owner[f].root == r
  }

  /** All that happened to the owners is that space `r` took frames that were free. */
  ghost predicate Took(a: Snap, b: Snap, r: Frame) {
    KeepsOthers(a, b, {}) && BelongsTo(a, b, r)
  }

  lemma TookThen(a: Snap, b: Snap, c: Snap, r: Frame)
    requires Took(a, b, r) && Took(b, c, r)
    ensures Took(a, c, r)
  {
  }

  lemma MapTook(a: Snap, b: Snap, r: Frame, q: Path)
    requires Grown(a, b, r, q) && NoStray(a, b) && KeepsOthers(a, b, {})
    ensures Took(a, b, r)
  {
  }

  /** What was allocated on the way belongs to no space that was there before. */
  ghost predicate SparesSpaces(a: Snap, b: Snap) {
    forall f :: f in b.owner && f !in a.owner ==> b.owner[f].Other? || b.owner[f].root !in a.owner
  }

  /** vmem_init without the areas list: a new space with nothing mapped. */
  method InitSpace(pm: PhysMem) returns (root: Option<Frame>)
    requires pm.Valid()
    modifies pm
    ensures pm.Valid()
    ensures root.None? <==> old(pm.free) == {}
    ensures root.None? ==> pm.Now() == old(pm.Now()) && pm.free == old(pm.free)
    ensures root.Some? ==> root.value in old(pm.free) && pm.free == old(pm.free) - {root.value}
    ensures root.Some? ==> pm.Now() == Rooted(Held(old(pm.Now()), root.value, ZeroPage()), root.value)
    ensures root.Some? ==> SameWalks(old(pm.Now()), pm.Now())
  {
    root := pm.FrameAlloc();
    if root.Some? {
      RootedSound(pm.Now(), root.value);
      pm.owner := pm.owner[root.value := Table(root.value, P0, root.value)];
    }
  }

  /** The page part of vmem_clone: on success the new space means what `src` means; in any case no
      other space changes in meaning, and none in content.  A failure loses all frames that were free. */
  method CloneSpace(pm: PhysMem, src: Frame) returns (dst: Option<Frame>)
    requires pm.Valid() && IsRoot(pm.owner, src)
    modifies pm
    ensures pm.Valid() && SameWalks(old(pm.Now()), pm.Now())
    ensures forall r :: IsRoot(old(pm.owner), r) ==> Intact(old(pm.Now()), pm.Now(), r)
    ensures dst.Some? ==> dst.value in old(pm.free) && IsRoot(pm.owner, dst.value)
    ensures dst.Some? ==>
      forall va: Path :: va.P4? && InBounds(va) ==> CloneOf(old(pm.Now()), pm.Now(), src, dst.value, va)
    ensures KeepsOthers(old(pm.Now()), pm.Now(), {}) && (dst.Some? ==> BelongsTo(old(pm.Now()), pm.Now(), dst.value))
    ensures dst.None? ==> pm.free == {} && pm.owner.Keys == old(pm.owner.Keys) + old(pm.free)
    ensures SparesSpaces(old(pm.Now()), pm.Now())
  {
    ghost var s := pm.Now();
    dst := InitSpace(pm);
    if dst.Some? {
      ghost var a := pm.Now();
      var ok := ClonePages(pm, src, dst.value);
      CloneOthers(s, a, pm.Now(), dst.value);
      if ok {
        CloneMeaning(s, a, pm.Now(), src, dst.value);
      } else {
        dst := None;
      }
    }
  }

  lemma CloneOthers(s: Snap, a: Snap, b: Snap, dst: Frame)
    requires Sound(s) && dst !in s.owner && a == Rooted(Held(s, dst, ZeroPage()), dst) && SameWalks(s, a)
    requires Sound(b) && Touched(a, b, dst, P0)
    ensures KeepsOthers(s, b, {}) && SameWalks(s, b) && IsRoot(b.owner, dst)
    ensures SparesSpaces(s, b) && forall r :: IsRoot(s.owner, r) ==> Intact(s, b, r)
  {
    CloneKeeps(s.owner, a.owner, b.owner, dst);
    CloneWalks(s, a, b, dst);
    CloneIntact(s, a, b, dst);
  }

  lemma CloneKeeps(s: Owners, a: Owners, b: Owners, dst: Frame)
    requires dst !in s && a == s[dst := Other][dst := Table(dst, P0, dst)]
    requires forall f :: f in a ==> f in b && b[f] == a[f]
    requires forall f :: f in b && !(f in a && b[f] == a[f]) ==> NewOwner(b[f], dst, P0, true)
    ensures IsRoot(b, dst) && forall f :: f in s ==> f in b && b[f] == s[f]
    ensures forall f :: f in b && f !in s ==> b[f].Other? || b[f].root !in s
  {
    assert a[dst] == Table(dst, P0, dst);
  }

  lemma CloneWalks(s: Snap, a: Snap, b: Snap, dst: Frame)
    requires dst !in s.owner && a.owner == s.owner[dst := Table(dst, P0, dst)]
    requires SameWalks(s, a) && OutsideSame(a, b, dst, P0)
    ensures SameWalks(s, b)
  {
    forall r: Frame, va: Path | IsRoot(s.owner, r) && va.P4? && InBounds(va)
      ensures Walk(b.mem, r, va) == Walk(s.mem, r, va)
    {
      assert r != dst && IsRoot(a.owner, r);
    }
  }

  lemma CloneIntact(s: Snap, a: Snap, b: Snap, dst: Frame)
    requires Sound(s) && dst !in s.owner && a == Rooted(Held(s, dst, ZeroPage()), dst)
    requires Grown(a, b, dst, P0, true) && KeepsOthers(a, b, {}) && b.owner.Keys <= b.mem.Keys
    ensures forall r :: IsRoot(s.owner, r) ==> Intact(s, b, r)
  {
    forall r, f | IsRoot(s.owner, r) && f in s.owner && !s.owner[f].Other? && s.owner[f].root == r
      ensures f in b.owner && b.owner[f] == s.owner[f] && f in s.mem && f in b.mem && b.mem[f] == s.mem[f]
    {
      if s.owner[f].Table? {
        forall i | 0 <= i < 512 ensures b.mem[f][i] == s.mem[f][i] {
          assert EntryGrown(a, b, dst, P0, true, f, i);
        }
      }
    }
  }

  lemma CloneMeaning(s: Snap, a: Snap, b: Snap, src: Frame, dst: Frame)
    requires Sound(s) && dst !in s.owner && a == Rooted(Held(s, dst, ZeroPage()), dst) && SameWalks(s, a)
    requires IsRoot(s.owner, src) && Cloned(a, b, src, dst, P0)
    ensures forall va: Path :: va.P4? && InBounds(va) ==> CloneOf(s, b, src, dst, va)
    ensures BelongsTo(s, b, dst)
  {
    forall va: Path | va.P4? && InBounds(va) ensures CloneOf(s, b, src, dst, va) {
      SourceData(s, src, va);
      assert CloneOf(a, b, src, dst, va);
    }
  }

  lemma HeldMappable(s: Snap, dst: Frame, c: Path, g: Frame, page: Page)
    requires Sound(s) && g !in s.owner && IsRoot(s.owner, dst) && InBounds(c) && c.P4? && Empty(s, dst, c)
    ensures !LargeOnWay(Held(s, g, page).mem, dst, c) && !EntryAt(Held(s, g, page).mem, dst, c).present
  {
    HoldFrame(s, g, page);
    HeldEmpty(s, dst, c, g, page);
    EmptyMappable(Held(s, g, page), dst, c);
  }

  lemma HeldEmpty(s: Snap, dst: Frame, c: Path, g: Frame, page: Page)
    requires Sound(s) && g !in s.owner && IsRoot(s.owner, dst) && !c.P0?
    requires Empty(s, dst, c) && SameWalks(s, Held(s, g, page))
    ensures Empty(Held(s, g, page), dst, c)
  {
    var h := Held(s, g, page);
    forall f | IsTable(h.owner, dst, Parent(c), f) ensures Read(h.mem, f, Last(c)) == ZERO {
      assert f != g && IsTable(s.owner, dst, Parent(c), f);
    }
  }
}
