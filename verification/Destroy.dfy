/** The page part of vmem_destroy (mm/vmem.c): every frame of the space is freed, once, and nothing
    else. */
module Destroy {
  import opened Common
  import opened Tables
  import opened TableSteps
  import opened Vmem
  import opened Clone

  predicate OfSpace(o: Owner, r: Frame) {
    !o.Other? && o.root == r
  }

  /** The tables and data pages of the space `r`. */
  function Belonging(owner: Owners, r: Frame): set<Frame> {
    set f | f in owner && OfSpace(owner[f], r)
  }

  /** Those at or below the path `q`. */
  function Subtree(owner: Owners, r: Frame, q: Path): set<Frame> {
    set f | f in owner && OfSpace(owner[f], r) && Prefix(q, owner[f].at)
  }

  /** The index by which the way to `x` leaves the table at path `q`. */
  function Branch(q: Path, x: Path): nat
    requires Prefix(q, x) && x != q
  {
    match q
    case P0 => x.m
    case P1(_) => x.p
    case P2(_, _) => x.d
    case P3(_, _, _) => x.t
  }

  /** Those below the first `j` entries of the table at path `q`. */
  function Branches(owner: Owners, r: Frame, q: Path, j: nat): set<Frame> {
    set f | f in owner && OfSpace(owner[f], r) &&
      Prefix(q, owner[f].at) && owner[f].at != q && Branch(q, owner[f].at) < j
  }

  lemma BranchesNext(owner: Owners, r: Frame, q: Path, j: nat)
    requires !q.P4?
    ensures Branches(owner, r, q, j + 1) == Branches(owner, r, q, j) + Subtree(owner, r, Child(q, j))
    ensures Branches(owner, r, q, j) !! Subtree(owner, r, Child(q, j))
    ensures Branches(owner, r, q, 0) == {}
  {
  }

  /** There is one table at a path. */
  lemma OneTable(s: Snap, r: Frame, q: Path, f: Frame, g: Frame)
    requires Sound(s) && IsTable(s.owner, r, q, f) && IsTable(s.owner, r, q, g)
    ensures f == g
  {
    assert OwnerOk(s.mem, s.owner, f);
    WayUp(s, f, FirstPage(q));
    WayUp(s, g, FirstPage(q));
  }

  /** Only what the entry says is below an entry. */
  lemma {:induction false} BelowEntry(s: Snap, r: Frame, q: Path, tbl: Frame, j: nat, f: Frame)
    requires Sound(s) && IsTable(s.owner, r, q, tbl) && !q.P4? && f in Subtree(s.owner, r, Child(q, j))
    ensures var e := Read(s.mem, tbl, j); e.present && !e.large && (q.P3? ==> e.alloc && e.frame == f)
    decreases !s.owner[f].at.P1?, !s.owner[f].at.P2?, !s.owner[f].at.P3?
  {
    assert OwnerOk(s.mem, s.owner, f);
    var o := s.owner[f];
    if o.at == Child(q, j) {
      OneTable(s, r, q, tbl, o.up);
    } else {
      BelowEntry(s, r, q, tbl, j, o.up);
    }
  }

  lemma WholeSubtree(s: Snap, r: Frame, q: Path, tbl: Frame)
    requires Sound(s) && IsTable(s.owner, r, q, tbl) && !q.P4?
    ensures Subtree(s.owner, r, q) == Branches(s.owner, r, q, 512) + {tbl} && tbl !in Branches(s.owner, r, q, 512)
  {
    forall f | f in Subtree(s.owner, r, q) ensures f in Branches(s.owner, r, q, 512) || f == tbl {
      assert OwnerOk(s.mem, s.owner, f);
      if s.owner[f].at == q { OneTable(s, r, q, f, tbl); }
    }
  }

  /** The space `r` is given up: its frames are still allocated, but mean nothing. */
  function Condemned(s: Snap, r: Frame): Snap {
    Snap(s.mem, map f | f in s.owner :: if OfSpace(s.owner[f], r) then Other else s.owner[f])
  }

  lemma CondemnedSound(s: Snap, r: Frame)
    requires Sound(s)
    ensures Sound(Condemned(s, r))
  {
    var s' := Condemned(s, r);
    forall f, i: nat | f in s'.owner && i < 512 ensures PlaceOk(s', f, i) {
      SoundAt(s, f, i);
    }
    SoundFrom(s');
  }

  /** Of the space `r` as it was in `s`, the frames `done` have been freed so far, and no others. */
  ghost predicate Dying(s: Snap, now: Snap, free: set<Frame>, free0: set<Frame>, r: Frame, done: set<Frame>) {
    && Sound(s) && done <= Belonging(s.owner, r) && free == free0 + done
    && now.owner == Condemned(s, r).owner - done
    && forall f :: f in now.owner ==> f in s.mem && f in now.mem && now.mem[f] == s.mem[f]
  }

  /** One frame_free of vmem_destroy. */
  method FreeOne(pm: PhysMem, f: Frame, ghost s: Snap, ghost free0: set<Frame>, ghost r: Frame, ghost done: set<Frame>)
    requires pm.Valid() && Dying(s, pm.Now(), pm.free, free0, r, done) && f in Belonging(s.owner, r) && f !in done
    modifies pm
    ensures pm.Valid() && Dying(s, pm.Now(), pm.free, free0, r, done + {f})
  {
    ghost var b, free1 := pm.Now(), pm.free;
    pm.FrameFree(f);
    DyingNext(s, b, pm.Now(), free1, pm.free, free0, r, done, f);
  }

  lemma DyingNext(s: Snap, b: Snap, c: Snap, free1: set<Frame>, free2: set<Frame>, free0: set<Frame>, r: Frame,
                  done: set<Frame>, f: Frame)
    requires Dying(s, b, free1, free0, r, done) && f in Belonging(s.owner, r)
    requires free2 == free1 + {f} && c.owner == b.owner - {f}
    requires forall g :: g in c.owner ==> g in c.mem && g in b.mem && c.mem[g] == b.mem[g]
    ensures Dying(s, c, free2, free0, r, done + {f})
  {
    assert Condemned(s, r).owner - (done + {f}) == Condemned(s, r).owner - done - {f};
  }

  // ---- The frames freed by a loop over the entries of a table

  ghost predicate Gone(owner: Owners, r: Frame, q: Path, j: nat, done: set<Frame>, gone: set<Frame>) {
    done !! Subtree(owner, r, q) && gone == done + Branches(owner, r, q, j)
  }

  lemma GoneFirst(owner: Owners, r: Frame, q: Path, done: set<Frame>)
    requires !q.P4? && done !! Subtree(owner, r, q)
    ensures Gone(owner, r, q, 0, done, done)
  {
    BranchesNext(owner, r, q, 0);
  }

  lemma GoneNext(s: Snap, r: Frame, q: Path, tbl: Frame, j: nat, done: set<Frame>, gone: set<Frame>)
    requires !q.P4? && Gone(s.owner, r, q, j, done, gone) && IsTable(s.owner, r, q, tbl)
    ensures Gone(s.owner, r, q, j + 1, done, gone + Subtree(s.owner, r, Child(q, j)))
    ensures gone !! Subtree(s.owner, r, Child(q, j)) && tbl !in gone
  {
    BranchesNext(s.owner, r, q, j);
    assert Subtree(s.owner, r, Child(q, j)) <= Subtree(s.owner, r, q);
    assert tbl in Subtree(s.owner, r, q);
  }

  lemma GoneAll(s: Snap, r: Frame, q: Path, tbl: Frame, done: set<Frame>, gone: set<Frame>)
    requires Sound(s) && IsTable(s.owner, r, q, tbl) && !q.P4? && Gone(s.owner, r, q, 512, done, gone)
    ensures tbl !in gone && gone + {tbl} == done + Subtree(s.owner, r, q) && tbl in Belonging(s.owner, r)
  {
    WholeSubtree(s, r, q, tbl);
    assert tbl in Subtree(s.owner, r, q);
  }

  /** A table that has not been freed is still there to be read. */
  lemma TableStands(s: Snap, now: Snap, free: set<Frame>, free0: set<Frame>, r: Frame, q: Path, tbl: Frame,
                    done: set<Frame>)
    requires Dying(s, now, free, free0, r, done) && IsTable(s.owner, r, q, tbl) && tbl !in done
    ensures tbl in s.mem && tbl in now.mem && now.mem[tbl] == s.mem[tbl]
  {
    assert tbl in now.owner;
  }

  /** Below an entry of a page table is its own page, if it is allocated. */
  lemma OnlyPage(s: Snap, r: Frame, q: Path, pt: Frame, t: nat, done: set<Frame>)
    requires Sound(s) && IsTable(s.owner, r, q, pt) && q.P3? && t < 512 && done !! Subtree(s.owner, r, Child(q, t))
    ensures var e := Read(s.mem, pt, t);
      if e.present && e.alloc
      then Subtree(s.owner, r, Child(q, t)) == {e.frame} && e.frame in Belonging(s.owner, r) && e.frame !in done
      else Subtree(s.owner, r, Child(q, t)) == {} && done + Subtree(s.owner, r, Child(q, t)) == done
  {
    var e := Read(s.mem, pt, t);
    assert EntryOk(s.mem, s.owner, pt, t);
    forall f | f in Subtree(s.owner, r, Child(q, t)) ensures e.present && e.alloc && f == e.frame {
      BelowEntry(s, r, q, pt, t, f);
    }
  }

  lemma NothingBelow(s: Snap, r: Frame, q: Path, tbl: Frame, j: nat)
    requires Sound(s) && IsTable(s.owner, r, q, tbl) && !q.P4? && !q.P3? && j < 512
    ensures var e := Read(s.mem, tbl, j); !e.present || e.large ==> Subtree(s.owner, r, Child(q, j)) == {}
    ensures var e := Read(s.mem, tbl, j); e.present && !e.large ==> IsTable(s.owner, r, Child(q, j), e.frame)
  {
    assert EntryOk(s.mem, s.owner, tbl, j);
    forall f | f in Subtree(s.owner, r, Child(q, j)) ensures Read(s.mem, tbl, j).present && !Read(s.mem, tbl, j).large {
      BelowEntry(s, r, q, tbl, j, f);
    }
  }

  /** One entry of a page table in vmem_destroy. */
  method DestroyTableEntry(pm: PhysMem, pt: Frame, t: nat, ghost s: Snap, ghost free0: set<Frame>,
      ghost r: Frame, ghost q: Path, ghost done: set<Frame>)
    requires pm.Valid() && Dying(s, pm.Now(), pm.free, free0, r, done) && IsTable(s.owner, r, q, pt) && q.P3? && t < 512
    requires pt !in done && done !! Subtree(s.owner, r, Child(q, t))
    modifies pm
    ensures pm.Valid() && Dying(s, pm.Now(), pm.free, free0, r, done + Subtree(s.owner, r, Child(q, t)))
  {
    TableStands(s, pm.Now(), pm.free, free0, r, q, pt, done);
    OnlyPage(s, r, q, pt, t, done);
    var pte := pm.mem[pt][t];
    if pte.present {
      if pte.alloc {
        FreeOne(pm, pte.frame, s, free0, r, done);
      }
    }
  }

  /** The loop of vmem_destroy over a page table, and the free of it. */
  method DestroyTable(pm: PhysMem, pt: Frame, ghost s: Snap, ghost free0: set<Frame>, ghost r: Frame, ghost q: Path,
                      ghost done: set<Frame>)
    requires pm.Valid() && Dying(s, pm.Now(), pm.free, free0, r, done) && IsTable(s.owner, r, q, pt) && q.P3?
    requires done !! Subtree(s.owner, r, q)
    modifies pm
    ensures pm.Valid() && Dying(s, pm.Now(), pm.free, free0, r, done + Subtree(s.owner, r, q))
  {
    ghost var gone := done;
    GoneFirst(s.owner, r, q, done);
    for t := 0 to 512
      invariant pm.Valid() && Dying(s, pm.Now(), pm.free, free0, r, gone) && Gone(s.owner, r, q, t, done, gone)
    {
      GoneNext(s, r, q, pt, t, done, gone);
      DestroyTableEntry(pm, pt, t, s, free0, r, q, gone);
      gone := gone + Subtree(s.owner, r, Child(q, t));
    }
    GoneAll(s, r, q, pt, done, gone);
    FreeOne(pm, pt, s, free0, r, gone);
  }

  /** One entry of a page directory in vmem_destroy. */
  method DestroyDirEntry(pm: PhysMem, pd: Frame, d: nat, ghost s: Snap, ghost free0: set<Frame>,
      ghost r: Frame, ghost q: Path, ghost done: set<Frame>)
    requires pm.Valid() && Dying(s, pm.Now(), pm.free, free0, r, done) && IsTable(s.owner, r, q, pd) && q.P2? && d < 512
    requires pd !in done && done !! Subtree(s.owner, r, Child(q, d))
    modifies pm
    ensures pm.Valid() && Dying(s, pm.Now(), pm.free, free0, r, done + Subtree(s.owner, r, Child(q, d)))
  {
    TableStands(s, pm.Now(), pm.free, free0, r, q, pd, done);
    NothingBelow(s, r, q, pd, d);
    var pde := pm.mem[pd][d];
    if pde.present && !pde.large {
      DestroyTable(pm, pde.frame, s, free0, r, Child(q, d), done);
    }
  }

  /** The loop of vmem_destroy over a page directory, and the free of it. */
  method DestroyDir(pm: PhysMem, pd: Frame, ghost s: Snap, ghost free0: set<Frame>, ghost r: Frame, ghost q: Path,
                    ghost done: set<Frame>)
    requires pm.Valid() && Dying(s, pm.Now(), pm.free, free0, r, done) && IsTable(s.owner, r, q, pd) && q.P2?
    requires done !! Subtree(s.owner, r, q)
    modifies pm
    ensures pm.Valid() && Dying(s, pm.Now(), pm.free, free0, r, done + Subtree(s.owner, r, q))
  {
    ghost var gone := done;
    GoneFirst(s.owner, r, q, done);
    for d := 0 to 512
      invariant pm.Valid() && Dying(s, pm.Now(), pm.free, free0, r, gone) && Gone(s.owner, r, q, d, done, gone)
    {
      GoneNext(s, r, q, pd, d, done, gone);
      DestroyDirEntry(pm, pd, d, s, free0, r, q, gone);
      gone := gone + Subtree(s.owner, r, Child(q, d));
    }
    GoneAll(s, r, q, pd, done, gone);
    FreeOne(pm, pd, s, free0, r, gone);
  }

  /** One entry of a page directory pointer table in vmem_destroy. */
  method DestroyPdptEntry(pm: PhysMem, pdpt: Frame, p: nat, ghost s: Snap, ghost free0: set<Frame>,
      ghost r: Frame, ghost q: Path, ghost done: set<Frame>)
    requires pm.Valid() && Dying(s, pm.Now(), pm.free, free0, r, done)
    requires IsTable(s.owner, r, q, pdpt) && q.P1? && p < 512
    requires pdpt !in done && done !! Subtree(s.owner, r, Child(q, p))
    modifies pm
    ensures pm.Valid() && Dying(s, pm.Now(), pm.free, free0, r, done + Subtree(s.owner, r, Child(q, p)))
  {
    TableStands(s, pm.Now(), pm.free, free0, r, q, pdpt, done);
    NothingBelow(s, r, q, pdpt, p);
    var pdpte := pm.mem[pdpt][p];
    if pdpte.present && !pdpte.large {
      DestroyDir(pm, pdpte.frame, s, free0, r, Child(q, p), done);
    }
  }

  /** The loop of vmem_destroy over a page directory pointer table, and the free of it. */
  method DestroyPdpt(pm: PhysMem, pdpt: Frame, ghost s: Snap, ghost free0: set<Frame>, ghost r: Frame, ghost q: Path,
                     ghost done: set<Frame>)
    requires pm.Valid() && Dying(s, pm.Now(), pm.free, free0, r, done) && IsTable(s.owner, r, q, pdpt) && q.P1?
    requires done !! Subtree(s.owner, r, q)
    modifies pm
    ensures pm.Valid() && Dying(s, pm.Now(), pm.free, free0, r, done + Subtree(s.owner, r, q))
  {
    ghost var gone := done;
    GoneFirst(s.owner, r, q, done);
    for p := 0 to 512
      invariant pm.Valid() && Dying(s, pm.Now(), pm.free, free0, r, gone) && Gone(s.owner, r, q, p, done, gone)
    {
      GoneNext(s, r, q, pdpt, p, done, gone);
      DestroyPdptEntry(pm, pdpt, p, s, free0, r, q, gone);
      gone := gone + Subtree(s.owner, r, Child(q, p));
    }
    GoneAll(s, r, q, pdpt, done, gone);
    FreeOne(pm, pdpt, s, free0, r, gone);
  }

  /** One entry of the PML4 in vmem_destroy. */
  method DestroyRootEntry(pm: PhysMem, root: Frame, m: nat, ghost s: Snap, ghost free0: set<Frame>,
      ghost r: Frame, ghost q: Path, ghost done: set<Frame>)
    requires pm.Valid() && Dying(s, pm.Now(), pm.free, free0, r, done)
    requires IsTable(s.owner, r, q, root) && q.P0? && m < 512
    requires root !in done && done !! Subtree(s.owner, r, Child(q, m))
    modifies pm
    ensures pm.Valid() && Dying(s, pm.Now(), pm.free, free0, r, done + Subtree(s.owner, r, Child(q, m)))
  {
    assert EntryOk(s.mem, s.owner, root, m);
    TableStands(s, pm.Now(), pm.free, free0, r, q, root, done);
    NothingBelow(s, r, q, root, m);
    var pml4e := pm.mem[root][m];
    if pml4e.present {
      DestroyPdpt(pm, pml4e.frame, s, free0, r, Child(q, m), done);
    } else {
      assert done + Subtree(s.owner, r, Child(q, m)) == done;
    }
  }

  /** The loop of vmem_destroy over the PML4, and the free of the PML4. */
  method DestroyTables(pm: PhysMem, root: Frame)
    requires pm.Valid() && IsRoot(pm.owner, root)
    modifies pm
    ensures pm.Valid() && Dying(old(pm.Now()), pm.Now(), pm.free, old(pm.free), root, Belonging(old(pm.owner), root))
  {
    ghost var s, free0, gone := pm.Now(), pm.free, {};
    Condemn(pm, root);
    GoneFirst(s.owner, root, P0, {});
    for m := 0 to 512
      invariant pm.Valid() && Dying(s, pm.Now(), pm.free, free0, root, gone) && Gone(s.owner, root, P0, m, {}, gone)
    {
      GoneNext(s, root, P0, root, m, {}, gone);
      DestroyRootEntry(pm, root, m, s, free0, root, P0, gone);
      gone := gone + Subtree(s.owner, root, Child(P0, m));
    }
    GoneAll(s, root, P0, root, {}, gone);
    FreeOne(pm, root, s, free0, root, gone);
    WholeSpace(s.owner, root, gone + {root});
  }

  lemma WholeSpace(owner: Owners, r: Frame, all: set<Frame>)
    requires all == {} + Subtree(owner, r, P0)
    ensures all == Belonging(owner, r)
  {
  }

  /** From here on the frames of the space mean nothing. */
  ghost method Condemn(pm: PhysMem, root: Frame)
    requires pm.Valid()
    modifies pm`owner
    ensures pm.Valid() && Dying(old(pm.Now()), pm.Now(), pm.free, pm.free, root, {})
  {
    CondemnedSound(pm.Now(), root);
    pm.owner := Condemned(pm.Now(), root).owner;
  }

  /** The frames of one space are free again, and every other frame keeps owner and contents. */
  ghost predicate Destroyed(a: Snap, b: Snap, r: Frame) {
    && b.owner == a.owner - Belonging(a.owner, r)
    && forall f :: f in b.owner ==> f in a.mem && f in b.mem && b.mem[f] == a.mem[f]
  }

  /** From before the creation of a space to after its destruction: if in between only the space took
      frames, all of them are free again. */
  lemma SpaceLifetime(frames: set<Frame>, a: Snap, freeA: set<Frame>, b: Snap, c: Snap, freeC: set<Frame>, r: Frame)
    requires Sound(a) && freeA !! a.owner.Keys && freeA + a.owner.Keys == frames
    requires freeC !! c.owner.Keys && freeC + c.owner.Keys == frames
    requires r !in a.owner && KeepsOthers(a, b, {}) && BelongsTo(a, b, r) && Destroyed(b, c, r)
    ensures c.owner == a.owner && freeC == freeA
  {
    SameOwnersLeft(a, b, c, r);
    SameFree(frames, a.owner.Keys, freeA, freeC);
  }

  lemma SameOwnersLeft(a: Snap, b: Snap, c: Snap, r: Frame)
    requires Sound(a) && r !in a.owner && KeepsOthers(a, b, {}) && BelongsTo(a, b, r) && Destroyed(b, c, r)
    ensures c.owner == a.owner
  {
    forall f ensures f in c.owner <==> f in a.owner {
      if f in a.owner {
        SoundAt(a, f, 0);
        assert f !in Belonging(b.owner, r);
      } else if f in b.owner {
        assert f in Belonging(b.owner, r);
      }
    }
  }

  lemma SameFree(frames: set<Frame>, owned: set<Frame>, free: set<Frame>, free': set<Frame>)
    requires free !! owned && free + owned == frames && free' !! owned && free' + owned == frames
    ensures free' == free
  {
    assert free == frames - owned && free' == frames - owned;
  }

  /** vmem_destroy without the areas list.  It refuses to destroy the space in use. */
  method DestroySpace(pm: PhysMem, root: Frame, current: Option<Frame>) returns (ok: bool)
    requires pm.Valid() && IsRoot(pm.owner, root)
    modifies pm
    ensures pm.Valid() && ok == (current != Some(root))
    ensures !ok ==> pm.Now() == old(pm.Now()) && pm.free == old(pm.free)
    ensures ok ==> pm.free == old(pm.free) + Belonging(old(pm.owner), root) && Destroyed(old(pm.Now()), pm.Now(), root)
    ensures ok ==> forall r :: r != root && IsRoot(old(pm.owner), r) ==> Intact(old(pm.Now()), pm.Now(), r)
  {
    if current == Some(root) {
      return false;
    }
    DestroyTables(pm, root);
    ok := true;
  }

  /** Cloning a space and destroying the copy gives every frame back, and leaves every space as it
      was. */
  method CloneThenDestroy(pm: PhysMem, src: Frame, current: Option<Frame>) returns (dst: Option<Frame>)
    requires pm.Valid() && IsRoot(pm.owner, src) && (current.Some? ==> IsRoot(pm.owner, current.value))
    modifies pm
    ensures dst.Some? ==> pm.free == old(pm.free) && pm.owner == old(pm.owner)
    ensures forall r :: IsRoot(old(pm.owner), r) ==> Intact(old(pm.Now()), pm.Now(), r)
  {
    ghost var s := pm.Now();
    dst := CloneSpace(pm, src);
    if dst.Some? {
      ghost var c := pm.Now();
      var ok := DestroySpace(pm, dst.value, current);
    }
  }
}
