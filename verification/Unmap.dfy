/** vmem_unmap_page (mm/vmem.c).  It decides whether to free the frame by the user bit of the entry,
    where the bit that marks allocated pages is meant. */
module Unmap {
  import opened Common
  import opened Tables
  import opened TableSteps
  import opened Vmem

  /** `Stolen` is the free of a frame that the space does not own. */
  datatype UnmapResult = Nothing | Cleared | Wild | Stolen

  /** The page `q` of space `r` is absent; every other page of every space translates as before. */
  ghost predicate Unmapped(a: Snap, b: Snap, r: Frame, q: Path) {
    forall r': Frame, va: Path :: IsRoot(a.owner, r') && va.P4? && InBounds(va) ==>
      Walk(b.mem, r', va) == if r' == r && va == q then Absent else Walk(a.mem, r', va)
  }

  /** Data pages keep their contents. */
  ghost predicate SamePages(a: Snap, b: Snap) {
    forall f :: f in b.owner && b.owner[f].Data? ==>
      f in a.owner && a.owner[f] == b.owner[f] && f in a.mem && f in b.mem && b.mem[f] == a.mem[f]
  }

  /** The entry is zero and the frame of an allocated page has no place in the space any more. */
  function WithoutLeaf(s: Snap, f: Frame, i: nat): Snap
    requires f in s.mem && i < 512
  {
    var e := s.mem[f][i];
    Snap(WriteEntry(s.mem, f, i, ZERO), if e.alloc then s.owner[e.frame := Other] else s.owner)
  }

  predicate MayClear(s: Snap, f: Frame, i: nat) {
    f in s.mem && f in s.owner && s.owner[f].Table? && s.owner[f].at.P3? && i < 512
  }

  lemma WithoutLeafEntry(s: Snap, f: Frame, i: nat, h: Frame, j: nat)
    requires MayClear(s, f, i) && PlaceOk(s, f, i) && PlaceOk(s, h, j)
    ensures EntryOk(WithoutLeaf(s, f, i).mem, WithoutLeaf(s, f, i).owner, h, j)
  {
  }

  lemma WithoutLeafOwner(s: Snap, f: Frame, i: nat, h: Frame, j: nat)
    requires MayClear(s, f, i) && PlaceOk(s, f, i) && PlaceOk(s, h, j)
    ensures OwnerOk(WithoutLeaf(s, f, i).mem, WithoutLeaf(s, f, i).owner, h)
  {
  }

  lemma WithoutLeafRight(s: Snap, f: Frame, i: nat, h: Frame, j: nat)
    requires MayClear(s, f, i) && PlaceOk(s, f, i) && PlaceOk(s, h, j) && h in s.owner
    requires s.owner[h].Table? && !s.owner[h].at.P0? ==> PlaceOk(s, s.owner[h].up, Last(s.owner[h].at))
    ensures RightOk(WithoutLeaf(s, f, i).mem, WithoutLeaf(s, f, i).owner, h, j)
  {
    if s.owner[h].Table? && !s.owner[h].at.P0? { UpDiffers(s, h); }
  }

  lemma WithoutLeafAt(s: Snap, f: Frame, i: nat, h: Frame, j: nat)
    requires Sound(s) && MayClear(s, f, i) && h in s.owner && j < 512
    ensures PlaceOk(WithoutLeaf(s, f, i), h, j)
  {
    SoundAt(s, f, i);
    SoundAt(s, h, j);
    if s.owner[h].Table? && !s.owner[h].at.P0? { SoundAt(s, s.owner[h].up, Last(s.owner[h].at)); }
    WithoutLeafEntry(s, f, i, h, j);
    WithoutLeafOwner(s, f, i, h, j);
    WithoutLeafRight(s, f, i, h, j);
  }

  lemma WithoutLeafSound(s: Snap, f: Frame, i: nat)
    requires Sound(s) && MayClear(s, f, i)
    ensures Sound(WithoutLeaf(s, f, i)) && WithoutLeaf(s, f, i).owner.Keys == s.owner.Keys
  {
    var s' := WithoutLeaf(s, f, i);
    SoundAt(s, f, i);
    assert s'.owner.Keys == s.owner.Keys;
    forall h, j: nat | h in s'.owner && j < 512 ensures PlaceOk(s', h, j) {
      WithoutLeafAt(s, f, i, h, j);
    }
    SoundFrom(s');
  }

  lemma WithoutLeafUnmaps(s: Snap, f: Frame, i: nat)
    requires Sound(s) && MayClear(s, f, i)
    ensures Unmapped(s, WithoutLeaf(s, f, i), s.owner[f].root, Child(s.owner[f].at, i))
  {
    var s' := WithoutLeaf(s, f, i);
    var q := Child(s.owner[f].at, i);
    forall r: Frame, va: Path | IsRoot(s.owner, r) && va.P4? && InBounds(va)
      ensures Walk(s'.mem, r, va) == if r == s.owner[f].root && va == q then Absent else Walk(s.mem, r, va)
    {
      if r == s.owner[f].root && va == q {
        WithoutLeafWalk(s, f, i);
      } else {
        QuietWalk(s, s', r, va);
      }
    }
  }

  lemma WithoutLeafWalk(s: Snap, f: Frame, i: nat)
    requires Sound(s) && MayClear(s, f, i)
    ensures Walk(WithoutLeaf(s, f, i).mem, s.owner[f].root, Child(s.owner[f].at, i)).Absent?
  {
    var va := Child(s.owner[f].at, i);
    WayAcross(s, WithoutLeaf(s, f, i).mem, f, i, va);
  }

  /** The page table for `va`, if the way down does not end before. */
  method FindTable(pm: PhysMem, root: Frame, va: Path) returns (res: UnmapResult, pgtbl: Frame)
    requires pm.Valid() && IsRoot(pm.owner, root) && va.P4? && InBounds(va)
    ensures res.Wild? <==> LargeOnWay(pm.mem, root, va)
    ensures res.Nothing? ==> EntryAt(pm.mem, root, va) == ZERO && Walk(pm.mem, root, va).Absent?
    ensures res.Cleared? ==>
      IsTable(pm.owner, root, P3(va.m, va.p, va.d), pgtbl) && Read(pm.mem, pgtbl, va.t) == EntryAt(pm.mem, root, va)
    ensures !res.Stolen?
  {
    WayDown(pm.mem, pm.owner, root, va);
    assert EntryOk(pm.mem, pm.owner, root, va.m);
    pgtbl := 0;
    var pml4e := pm.mem[root][va.m];
    if !pml4e.present {
      return Nothing, 0;
    }
    assert EntryOk(pm.mem, pm.owner, pml4e.frame, va.p);
    var pdpe := pm.mem[pml4e.frame][va.p];
    if !pdpe.present {
      return Nothing, 0;
    }
    if pdpe.large {
      return UnmapResult.Wild, 0;
    }
    assert EntryOk(pm.mem, pm.owner, pdpe.frame, va.d);
    var pde := pm.mem[pdpe.frame][va.d];
    if !pde.present {
      return Nothing, 0;
    }
    if pde.large {
      return UnmapResult.Wild, 0;
    }
    return Cleared, pde.frame;
  }

  /** What the space looks like when the entry `e` of page `va` has been cleared. */
  ghost predicate AfterClear(a: Snap, b: Snap, free: set<Frame>, free': set<Frame>, r: Frame, va: Path, e: Pte) {
    && Unmapped(a, b, r, va) && SamePages(a, b)
    && free' == (if e.alloc && e.user then free + {e.frame} else free)
    && b.owner == (if !e.alloc then a.owner else if e.user then a.owner - {e.frame} else a.owner[e.frame := Other])
  }

  /** `pgtbl->entries[...] = 0` */
  method ZeroEntry(pm: PhysMem, pgtbl: Frame, t: nat)
    requires pm.Valid() && pgtbl in pm.owner && pm.owner[pgtbl].Table? && pm.owner[pgtbl].at.P3? && t < 512
    modifies pm`mem, pm`owner
    ensures pm.Valid() && pm.Now() == WithoutLeaf(old(pm.Now()), pgtbl, t)
    ensures Unmapped(old(pm.Now()), pm.Now(), old(pm.owner)[pgtbl].root, Child(old(pm.owner)[pgtbl].at, t))
  {
    ghost var s := pm.Now();
    var pte := pm.mem[pgtbl][t];
    WithoutLeafSound(s, pgtbl, t);
    WithoutLeafUnmaps(s, pgtbl, t);
    pm.mem := WriteEntry(pm.mem, pgtbl, t, ZERO);
    if pte.alloc {
      pm.owner := pm.owner[pte.frame := Other];
    }
    assert pm.Now() == WithoutLeaf(s, pgtbl, t);
  }

  /** The three states of the end of vmem_unmap_page: before, with the entry cleared, with the frame
      freed. */
  ghost predicate Clearing(a: Snap, b: Snap, c: Snap, free: set<Frame>, free': set<Frame>, f: Frame, i: nat, r: Frame,
                           va: Path) {
    && MayClear(a, f, i) && b == WithoutLeaf(a, f, i) && va.P4? && Unmapped(a, b, r, va)
    && var e := a.mem[f][i];
       && (e.user ==> e.alloc)
       && (if e.user then c.owner == b.owner - {e.frame} && free' == free + {e.frame} else c == b && free' == free)
       && SameWalks(b, c) && forall g :: g in c.owner ==> g in b.mem && g in c.mem && c.mem[g] == b.mem[g]
  }

  lemma Freed(a: Snap, b: Snap, c: Snap, free: set<Frame>, free': set<Frame>, f: Frame, i: nat, r: Frame, va: Path)
    requires Sound(a) && Clearing(a, b, c, free, free', f, i, r, va)
    ensures AfterClear(a, c, free, free', r, va, a.mem[f][i])
  {
    SoundAt(a, f, i);
    FreedWalks(a, b, c, free, free', f, i, r, va);
    FreedPages(a, b, c, free, free', f, i, r, va);
  }

  lemma FreedWalks(a: Snap, b: Snap, c: Snap, free: set<Frame>, free': set<Frame>, f: Frame, i: nat, r: Frame, va: Path)
    requires Clearing(a, b, c, free, free', f, i, r, va) && EntryOk(a.mem, a.owner, f, i)
    ensures Unmapped(a, c, r, va)
  {
    assert forall r' :: IsRoot(a.owner, r') ==> IsRoot(b.owner, r');
  }

  lemma FreedPages(a: Snap, b: Snap, c: Snap, free: set<Frame>, free': set<Frame>, f: Frame, i: nat, r: Frame, va: Path)
    requires Clearing(a, b, c, free, free', f, i, r, va) && EntryOk(a.mem, a.owner, f, i) && a.owner.Keys <= a.mem.Keys
    ensures SamePages(a, c)
  {
  }

  /** The end of vmem_unmap_page.  The entry is cleared first here; the two steps touch different
      frames. */
  method ClearEntry(pm: PhysMem, root: Frame, va: Path, pgtbl: Frame)
    requires pm.Valid() && va.P4? && InBounds(va) && IsTable(pm.owner, root, P3(va.m, va.p, va.d), pgtbl)
    requires var e := Read(pm.mem, pgtbl, va.t); e.user ==> e.alloc
    modifies pm
    ensures pm.Valid()
    ensures AfterClear(old(pm.Now()), pm.Now(), old(pm.free), pm.free, root, va, old(Read(pm.mem, pgtbl, va.t)))
  {
    ghost var s := pm.Now();
    SoundAt(s, pgtbl, va.t);
    var pte := pm.mem[pgtbl][va.t];
    ZeroEntry(pm, pgtbl, va.t);
    FreeIf(pm, pte, s, pgtbl, va.t, root, va);
  }

  /** frame_free of the page behind the entry, if the test says so. */
  method FreeIf(pm: PhysMem, pte: Pte, ghost s: Snap, ghost pgtbl: Frame, ghost t: nat, ghost root: Frame,
                ghost va: Path)
    requires pm.Valid() && Sound(s) && MayClear(s, pgtbl, t) && pm.Now() == WithoutLeaf(s, pgtbl, t) && va.P4?
    requires pte == s.mem[pgtbl][t] && (pte.user ==> pte.alloc) && Unmapped(s, pm.Now(), root, va)
    modifies pm
    ensures pm.Valid() && AfterClear(s, pm.Now(), old(pm.free), pm.free, root, va, pte)
  {
    ghost var z := pm.Now();
    if pte.user {
      pm.FrameFree(pte.frame);
    }
    Freed(s, z, pm.Now(), old(pm.free), pm.free, pgtbl, t, root, va);
  }

  /** How vmem_unmap_page ends, in each case. */
  ghost predicate UnmapOutcome(a: Snap, b: Snap, free: set<Frame>, free': set<Frame>, r: Frame, va: Path,
                               res: UnmapResult)
    requires va.P4?
  {
    var e := EntryAt(a.mem, r, va);
    && (res.Wild? <==> LargeOnWay(a.mem, r, va))
    && (res.Stolen? <==> !res.Wild? && e.user && !e.alloc)
    && (res.Wild? || res.Stolen? ==> b == a && free' == free)
    && (res.Nothing? || res.Cleared? ==> AfterClear(a, b, free, free', r, va, e))
  }

  /** vmem_unmap_page. */
  method UnmapPage(pm: PhysMem, root: Frame, va: Path) returns (res: UnmapResult)
    requires pm.Valid() && IsRoot(pm.owner, root) && va.P4? && InBounds(va)
    modifies pm
    ensures pm.Valid() && UnmapOutcome(old(pm.Now()), pm.Now(), old(pm.free), pm.free, root, va, res)
  {
    var pgtbl;
    res, pgtbl := FindTable(pm, root, va);
    if res.Cleared? {
      if pm.mem[pgtbl][va.t].user && !pm.mem[pgtbl][va.t].alloc {
        return Stolen;
      }
      ClearEntry(pm, root, va, pgtbl);
    }
  }

  /** The entry of a page that is marked as allocated has a data page behind it. */
  lemma AllocatedEntry(s: Snap, r: Frame, va: Path)
    requires Sound(s) && IsRoot(s.owner, r) && va.P4? && InBounds(va) && !LargeOnWay(s.mem, r, va)
    ensures var e := EntryAt(s.mem, r, va); e.alloc ==> e.frame in s.owner && s.owner[e.frame].Data?
  {
    WayDown(s.mem, s.owner, r, va);
    assert EntryOk(s.mem, s.owner, r, va.m);
    var e1 := Read(s.mem, r, va.m);
    if e1.present {
      assert EntryOk(s.mem, s.owner, e1.frame, va.p);
      var e2 := Read(s.mem, e1.frame, va.p);
      if e2.present {
        assert EntryOk(s.mem, s.owner, e2.frame, va.d);
        var e3 := Read(s.mem, e2.frame, va.d);
        if e3.present { assert EntryOk(s.mem, s.owner, e3.frame, va.t); }
      }
    }
  }

  /** A page is unmapped as it should be: no frame of another is freed, the frame of the page is freed
      if and only if it was allocated for it, and nothing is lost. */
  ghost predicate UnmappedRight(a: Snap, b: Snap, free: set<Frame>, free': set<Frame>, e: Pte, res: UnmapResult) {
    !res.Stolen? && free' == free + (if e.alloc then {e.frame} else {}) && NoStray(a, b)
  }

  /** Unless a large page is in the way, a page is unmapped as it should be if and only if its user bit
      agrees with its allocation bit. */
  lemma UnmapIsRight(a: Snap, b: Snap, free: set<Frame>, free': set<Frame>, r: Frame, va: Path, res: UnmapResult)
    requires Sound(a) && IsRoot(a.owner, r) && va.P4? && InBounds(va) && free !! a.owner.Keys
    requires UnmapOutcome(a, b, free, free', r, va, res) && !LargeOnWay(a.mem, r, va)
    ensures var e := EntryAt(a.mem, r, va); UnmappedRight(a, b, free, free', e, res) <==> e.user == e.alloc
  {
    var e := EntryAt(a.mem, r, va);
    AllocatedEntry(a, r, va);
    if e.alloc && !e.user {
      assert b.owner[e.frame].Other? && !a.owner[e.frame].Other?;
    }
  }
}
