/** mm/vmem.c: address spaces as trees of tables in physical memory, changed in place. */
module Vmem {
  import opened Common
  import opened Tables
  import opened TableSteps

  /** `Panic` is a kassert of a mapping function that fails.  `Wild` is the use of a large page's
      frame as if it were a table: the code does not look at the page size bit on the way down.  The
      state then is the one in which it is used first. */
  datatype MapResult = Done | NoMemory | Panic | Wild

  datatype Next = At(frame: Frame) | Failed(why: MapResult)

  /** A large page lies on the way to the path `q`. */
  predicate LargeOnWay(mem: Memory, root: Frame, q: Path) {
    match q
    case P0 => false
    case P1(_) => false
    case P2(_, _) => false
    case P3(m, p, _) => EntryAt(mem, root, P2(m, p)).large
    case P4(m, p, d, _) => EntryAt(mem, root, P2(m, p)).large || EntryAt(mem, root, P3(m, p, d)).large
  }

  /** The entry the mapping functions find at a path: they go down through every present entry. */
  function EntryAt(mem: Memory, root: Frame, q: Path): Pte
    requires !q.P0?
  {
    match q
    case P1(m) => Read(mem, root, m)
    case P2(m, p) => Below(mem, Read(mem, root, m), p)
    case P3(m, p, d) => Below(mem, Below(mem, Read(mem, root, m), p), d)
    case P4(m, p, d, t) => Below(mem, Below(mem, Below(mem, Read(mem, root, m), p), d), t)
  }

  function Below(mem: Memory, e: Pte, i: nat): Pte {
    if e.present then Read(mem, e.frame, i) else ZERO
  }

  /** The first large page on the way to `q` or at `q`, if there is one. */
  function LargePath(mem: Memory, root: Frame, q: Path): Path {
    match q
    case P0 => q
    case P1(_) => q
    case P2(_, _) => q
    case P3(m, p, _) => if EntryAt(mem, root, P2(m, p)).large then P2(m, p) else q
    case P4(m, p, d, _) => if EntryAt(mem, root, P2(m, p)).large then P2(m, p) else P3(m, p, d)
  }

  /** Only entry `idx` of table `tbl` differs, apart from new tables, which are empty. */
  ghost predicate OnlyEntry(a: Snap, b: Snap, tbl: Frame, idx: nat) {
    forall f, i :: f in b.owner && b.owner[f].Table? && 0 <= i < 512 && (f != tbl || i != idx) ==>
      Read(b.mem, f, i) == if f in a.owner then Read(a.mem, f, i) else ZERO
  }

  ghost predicate KeepsOwners(a: Snap, b: Snap) {
    forall f :: f in a.owner ==> f in b.owner && b.owner[f] == a.owner[f]
  }

  /** Every frame allocated on the way has gone to an address space. */
  ghost predicate NoStray(a: Snap, b: Snap) {
    forall f :: f in b.owner && b.owner[f].Other? ==> f in a.owner && a.owner[f].Other?
  }

  /** All frames but those in `but` keep their owners. */
  ghost predicate KeepsOthers(a: Snap, b: Snap, but: set<Frame>) {
    forall f :: f in a.owner && f !in but ==> f in b.owner && b.owner[f] == a.owner[f]
  }

  /** What vmem_ensure_next_table achieves for entry `idx` of the table `tbl` at path `pre`. */
  ghost predicate Descended(a: Snap, b: Snap, r: Frame, pre: Path, tbl: Frame, idx: nat, next: Frame, flags: Flags)
    requires !pre.P4?
  {
    && SameWalks(a, b) && Grown(a, b, r, Child(pre, idx))
    && OnlyEntry(a, b, tbl, idx) && KeepsOwners(a, b) && NoStray(a, b)
    && next in b.owner && b.owner[next] == Table(r, Child(pre, idx), tbl)
    && var e, e' := Read(a.mem, tbl, idx), Read(b.mem, tbl, idx);
       if e.present then e' == OrFlags(e, flags) && next == e.frame && next in a.owner
       else e' == MakeEntry(next, false, flags) && next !in a.owner
  }

  /** The mapping functions have come from `a` to `b` and stand at the table `f` at path `q`. */
  ghost predicate Reached(a: Snap, b: Snap, r: Frame, q: Path, f: Frame, flags: Flags)
    requires !q.P4?
  {
    && SameWalks(a, b) && Grown(a, b, r, q) && KeepsOwners(a, b) && NoStray(a, b) && IsTable(b.owner, r, q, f)
    && (!q.P0? ==> Allows(Read(b.mem, b.owner[f].up, Last(q)), flags))
    && forall i :: 0 <= i < 512 ==> Read(b.mem, f, i) == EntryAt(a.mem, r, Child(q, i))
  }

  /** vmem_ensure_next_table has raised the flags of a large page, the first one on the way to `q`: its
      whole range has them now, and nothing else has changed. */
  ghost predicate Opened(a: Snap, b: Snap, r: Frame, q: Path, flags: Flags) {
    && Grown(a, b, r, q) && NoStray(a, b) && KeepsOthers(a, b, {})
    && var x := LargePath(a.mem, r, q);
       && (x.P2? || x.P3?)
       && Becomes(a, b, r, x, Leaf(SizeAt(x), OrFlags(EntryAt(a.mem, r, x), flags)))
  }

  /** What vmem_ensure_next_table does to a large page: it takes its frame for a table. */
  ghost predicate Mistaken(a: Snap, b: Snap, r: Frame, pre: Path, tbl: Frame, idx: nat, next: Frame, flags: Flags)
    requires !pre.P4?
  {
    && (pre.P1? || pre.P2?) && next == Read(a.mem, tbl, idx).frame && b.owner == a.owner
    && Grown(a, b, r, Child(pre, idx)) && OnlyEntry(a, b, tbl, idx)
    && var q, e := Child(pre, idx), Read(a.mem, tbl, idx);
       Becomes(a, b, r, q, Leaf(SizeAt(q), OrFlags(e, flags)))
  }

  lemma LinkDescends(s: Snap, r: Frame, pre: Path, tbl: Frame, idx: nat, g: Frame, flags: Flags)
    requires CanLink(s, tbl, idx, g, flags) && IsTable(s.owner, r, pre, tbl)
    ensures Sound(Linked(s, tbl, idx, g, flags))
    ensures Descended(s, Linked(s, tbl, idx, g, flags), r, pre, tbl, idx, g, flags)
  {
    LinkKeeps(s, tbl, idx, g, flags);
    LinkOnly(s, tbl, idx, g, flags);
  }

  lemma LinkOnly(s: Snap, tbl: Frame, idx: nat, g: Frame, flags: Flags)
    requires MayLink(s, tbl, idx, g, flags)
    ensures var s' := Linked(s, tbl, idx, g, flags); OnlyEntry(s, s', tbl, idx) && KeepsOwners(s, s') && NoStray(s, s')
  {
  }

  lemma RaiseDescends(s: Snap, r: Frame, pre: Path, tbl: Frame, idx: nat, flags: Flags)
    requires Sound(s) && CanRaise(s, tbl, idx, flags) && IsTable(s.owner, r, pre, tbl) && !pre.P4?
    ensures var s', next := Raised(s, tbl, idx, flags), Read(s.mem, tbl, idx).frame;
      && Sound(s')
      && if Read(s.mem, tbl, idx).large then Mistaken(s, s', r, pre, tbl, idx, next, flags)
         else Descended(s, s', r, pre, tbl, idx, next, flags)
  {
    SoundAt(s, tbl, idx);
    OrKeeps(s, tbl, idx, flags);
    RaiseOnly(s, tbl, idx, flags);
  }

  lemma RaiseOnly(s: Snap, tbl: Frame, idx: nat, flags: Flags)
    requires CanRaise(s, tbl, idx, flags)
    ensures var s' := Raised(s, tbl, idx, flags); OnlyEntry(s, s', tbl, idx) && KeepsOwners(s, s') && NoStray(s, s')
  {
  }

  lemma ReachNext(a: Snap, b: Snap, c: Snap, r: Frame, q: Path, f: Frame, idx: nat, next: Frame, flags: Flags)
    requires q.P0? || q.P1? || q.P2?
    requires Sound(a) && IsRoot(a.owner, r) && idx < 512
    requires Reached(a, b, r, q, f, flags) && Descended(b, c, r, q, f, idx, next, flags)
    ensures Reached(a, c, r, Child(q, idx), next, flags)
  {
    ReachGrows(a, b, c, r, q, Child(q, idx));
    ReachReads(a, b, c, r, q, f, idx, next, flags);
    ReachWalks(a, b, c);
    ReachOwners(a, b, c);
    assert Allows(Read(c.mem, f, idx), flags);
  }

  /** The large page at `q` has been taken for a table. */
  ghost predicate Mishap(a: Snap, b: Snap, r: Frame, q: Path, flags: Flags) {
    && (q.P2? || q.P3?) && EntryAt(a.mem, r, q).large
    && Grown(a, b, r, q) && NoStray(a, b) && KeepsOthers(a, b, {})
    && Becomes(a, b, r, q, Leaf(SizeAt(q), OrFlags(EntryAt(a.mem, r, q), flags)))
  }

  lemma ReachMistaken(a: Snap, b: Snap, c: Snap, r: Frame, q: Path, f: Frame, idx: nat, next: Frame, flags: Flags)
    requires q.P0? || q.P1? || q.P2?
    requires Sound(a) && IsRoot(a.owner, r) && idx < 512 && Reached(a, b, r, q, f, flags) && Read(b.mem, f, idx).large
    requires Mistaken(b, c, r, q, f, idx, next, flags)
    ensures Mishap(a, c, r, Child(q, idx), flags)
  {
    ReachGrows(a, b, c, r, q, Child(q, idx));
    assert Read(b.mem, f, idx) == EntryAt(a.mem, r, Child(q, idx));
    assert forall r' :: IsRoot(a.owner, r') ==> IsRoot(b.owner, r');
  }

  lemma ReachOwners(a: Snap, b: Snap, c: Snap)
    requires KeepsOwners(a, b) && NoStray(a, b) && KeepsOwners(b, c) && NoStray(b, c)
    ensures KeepsOwners(a, c) && NoStray(a, c)
  {
  }

  lemma ReachGrows(a: Snap, b: Snap, c: Snap, r: Frame, q: Path, q': Path)
    requires Grown(a, b, r, q) && Grown(b, c, r, q') && Prefix(q, q')
    ensures Grown(a, c, r, q')
  {
    GrownWider(a, b, r, q, false, q', false);
    GrownTransitive(a, b, c, r, q', false);
  }

  lemma ReachReads(a: Snap, b: Snap, c: Snap, r: Frame, q: Path, f: Frame, idx: nat, next: Frame, flags: Flags)
    requires q.P0? || q.P1? || q.P2?
    requires Sound(a) && IsRoot(a.owner, r) && idx < 512
    requires Reached(a, b, r, q, f, flags) && Descended(b, c, r, q, f, idx, next, flags)
    ensures forall i :: 0 <= i < 512 ==> Read(c.mem, next, i) == EntryAt(a.mem, r, Child(Child(q, idx), i))
  {
    forall i | 0 <= i < 512 ensures Read(c.mem, next, i) == EntryAt(a.mem, r, Child(Child(q, idx), i)) {
      ReachRead(a, b, c, r, q, f, idx, next, flags, i);
    }
  }

  lemma ReachRead(a: Snap, b: Snap, c: Snap, r: Frame, q: Path, f: Frame, idx: nat, next: Frame, flags: Flags, i: nat)
    requires (q.P0? || q.P1? || q.P2?) && idx < 512 && i < 512
    requires Grown(a, b, r, q) && KeepsOwners(a, b) && IsTable(b.owner, r, q, f)
    requires Read(b.mem, f, idx) == EntryAt(a.mem, r, Child(q, idx))
    requires Descended(b, c, r, q, f, idx, next, flags)
    ensures Read(c.mem, next, i) == EntryAt(a.mem, r, Child(Child(q, idx), i))
  {
    var e := Read(b.mem, f, idx);
    EntryBelow(a.mem, r, Child(q, idx), i);
    assert next != f;
    assert Read(c.mem, next, i) == if next in b.owner then Read(b.mem, next, i) else ZERO;
    if e.present {
      assert EntryGrown(a, b, r, q, false, next, i);
    }
  }

  lemma EntryBelow(mem: Memory, r: Frame, q: Path, i: nat)
    requires q.P1? || q.P2? || q.P3?
    ensures EntryAt(mem, r, Child(q, i)) == Below(mem, EntryAt(mem, r, q), i)
  {
  }

  lemma ReachWalks(a: Snap, b: Snap, c: Snap)
    requires SameWalks(a, b) && SameWalks(b, c) && KeepsOwners(a, b)
    ensures SameWalks(a, c)
  {
  }

  /** Physical memory: what the frames hold and which of the managed ones are free. */
  class PhysMem {
    var mem: Memory
    var free: set<Frame>
    ghost var owner: Owners
    ghost const frames: set<Frame>

    /** All frames free. */
    constructor (frames: set<Frame>)
      ensures Valid() && this.frames == free == frames && owner == map[]
    {
      mem := map f | f in frames :: ZeroPage();
      free, owner, this.frames := frames, map[], frames;
    }

    ghost function Now(): Snap
      reads this
    {
      Snap(mem, owner)
    }

    ghost predicate Valid()
      reads this
    {
      Accounted() && Sound(Now())
    }

    /** Every managed frame is either free or has an owner. */
    ghost predicate Accounted()
      reads this
    {
      free !! owner.Keys && free + owner.Keys == frames && frames <= mem.Keys
    }

    /** frame_alloc: some free frame, cleared. */
    method FrameAlloc() returns (f: Option<Frame>)
      requires Valid()
      modifies this
      ensures Valid()
      ensures f.None? <==> old(free) == {}
      ensures f.None? ==> mem == old(mem) && owner == old(owner) && free == old(free)
      ensures f.Some? ==>
        f.value in old(free) && free == old(free) - {f.value} && Now() == Held(old(Now()), f.value, ZeroPage())
      ensures f.Some? ==> SameWalks(old(Now()), Now())
    {
      if free == {} {
        return None;
      }
      var g :| g in free;
      HoldFrame(Now(), g, ZeroPage());
      free := free - {g};
      mem := mem[g := ZeroPage()];
      owner := owner[g := Other];
      f := Some(g);
    }

    /** frame_free: the frame is free again, and the allocator may write to it. */
    method FrameFree(f: Frame)
      requires Valid() && f in owner && owner[f].Other?
      modifies this
      ensures Valid() && free == old(free) + {f} && owner == old(owner) - {f}
      ensures mem.Keys == old(mem.Keys) && forall g :: g in owner ==> mem[g] == old(mem[g])
      ensures SameWalks(old(Now()), Now())
    {
      var page: Page := *;
      DropFrame(Now(), f, page);
      free := free + {f};
      mem := mem[f := page];
      owner := owner - {f};
    }

    ghost predicate CanDescend(tbl: Frame, idx: nat, flags: Flags, r: Frame, pre: Path)
      reads this
    {
      && Valid() && IsTable(owner, r, pre, tbl) && idx < 512 && !pre.P3? && !pre.P4?
      && (!pre.P0? ==> Allows(Read(mem, owner[tbl].up, Last(pre)), flags))
    }

    /** The present case of vmem_ensure_next_table, for tables and large pages alike. */
    method RaiseEntry(tbl: Frame, idx: nat, flags: Flags, ghost r: Frame, ghost pre: Path) returns (next: Frame)
      requires CanDescend(tbl, idx, flags, r, pre) && Read(mem, tbl, idx).present
      modifies this`mem
      ensures Valid()
      ensures !old(Read(mem, tbl, idx)).large ==> Descended(old(Now()), Now(), r, pre, tbl, idx, next, flags)
      ensures old(Read(mem, tbl, idx)).large ==> Mistaken(old(Now()), Now(), r, pre, tbl, idx, next, flags)
    {
      var pte := mem[tbl][idx];
      RaiseDescends(Now(), r, pre, tbl, idx, flags);
      next := pte.frame;
      mem := WriteEntry(mem, tbl, idx, OrFlags(pte, flags));
    }

    /** The absent case of vmem_ensure_next_table. */
    method NewTable(tbl: Frame, idx: nat, flags: Flags, ghost r: Frame, ghost pre: Path) returns (next: Option<Frame>)
      requires CanDescend(tbl, idx, flags, r, pre) && !Read(mem, tbl, idx).present
      modifies this
      ensures Valid()
      ensures next.None? ==> old(free) == {} && Now() == old(Now()) && free == old(free)
      ensures next.Some? ==>
        Descended(old(Now()), Now(), r, pre, tbl, idx, next.value, flags) && free == old(free) - {next.value}
    {
      ghost var before := Now();
      next := FrameAlloc();
      if next.Some? {
        mem := WriteEntry(mem, tbl, idx, MakeEntry(next.value, false, flags));
        owner := owner[next.value := Table(r, Child(pre, idx), tbl)];
        assert owner == before.owner[next.value := Table(r, Child(pre, idx), tbl)];
        assert Now() == Linked(before, tbl, idx, next.value, flags);
        LinkDescends(before, r, pre, tbl, idx, next.value, flags);
      }
    }

    /** vmem_ensure_next_table for the table `tbl` at path `pre` of the space `r`. */
    method EnsureNextTable(tbl: Frame, idx: nat, flags: Flags, ghost r: Frame, ghost pre: Path)
      returns (next: Option<Frame>)
      requires CanDescend(tbl, idx, flags, r, pre)
      modifies this
      ensures Valid()
      ensures next.None? ==>
        old(free) == {} && Now() == old(Now()) && free == old(free) && !old(Read(mem, tbl, idx)).present
      ensures next.Some? && !old(Read(mem, tbl, idx)).large ==>
        Descended(old(Now()), Now(), r, pre, tbl, idx, next.value, flags) && old(free) - {next.value} <= free
      ensures next.Some? && old(Read(mem, tbl, idx)).large ==>
        Mistaken(old(Now()), Now(), r, pre, tbl, idx, next.value, flags) && free == old(free)
    {
      var pte := mem[tbl][idx];
      assert EntryOk(mem, owner, tbl, idx);
      if pte.present {
        var f := RaiseEntry(tbl, idx, flags, r, pre);
        next := Some(f);
      } else {
        next := NewTable(tbl, idx, flags, r, pre);
      }
    }

    /** One more vmem_ensure_next_table on the way down from `a`. */
    method Descend(f: Frame, idx: nat, flags: Flags, ghost a: Snap, ghost r: Frame, ghost q: Path) returns (next: Next)
      requires Valid() && Sound(a) && IsRoot(a.owner, r) && idx < 512 && (q.P0? || q.P1? || q.P2?)
      requires Reached(a, Now(), r, q, f, flags)
      modifies this
      ensures Valid()
      ensures next.At? ==>
        Reached(a, Now(), r, Child(q, idx), next.frame, flags) && !EntryAt(a.mem, r, Child(q, idx)).large
      ensures next.Failed? ==> next.why.Wild? || next.why.NoMemory?
      ensures next.Failed? && next.why.Wild? ==> Mishap(a, Now(), r, Child(q, idx), flags)
      ensures next.Failed? && next.why.NoMemory? ==>
        Stopped(a, Now(), r, q) && free == {} && EntryAt(a.mem, r, Child(q, idx)) == ZERO
    {
      ghost var b := Now();
      assert Read(mem, f, idx) == EntryAt(a.mem, r, Child(q, idx)) && EntryOk(mem, owner, f, idx);
      var large := mem[f][idx].large;
      var tbl := EnsureNextTable(f, idx, flags, r, q);
      if tbl.None? {
        return Failed(NoMemory);
      }
      if large {
        ReachMistaken(a, b, Now(), r, q, f, idx, tbl.value, flags);
        return Failed(Wild);
      }
      ReachNext(a, b, Now(), r, q, f, idx, tbl.value, flags);
      next := At(tbl.value);
    }

    /** The last step of the mapping functions: the leaf entry is written. */
    method WriteLeaf(f: Frame, idx: nat, frame: Frame, large: bool, flags: Flags, ghost a: Snap, ghost r: Frame,
                     ghost q: Path)
      requires (q.P1? || q.P2? || q.P3?) && large == !q.P3?
      requires Valid() && MayWriteLeaf(a, Now(), r, q, f, idx, frame, flags)
      modifies this`mem, this`owner
      ensures Valid() && Grown(a, Now(), r, Child(q, idx)) && Remapped(a, Now(), r, Child(q, idx), frame, flags)
      ensures NoStray(a, Now()) && KeepsOthers(a, Now(), if q.P3? && flags.alloc then {frame} else {})
      ensures q.P3? && flags.alloc ==> frame in owner && owner[frame] == Data(r, Child(q, idx), f)
    {
      ghost var b := Now();
      LeafIn(a, b, r, q, f, idx, frame, flags);
      PutLeaf(f, idx, frame, large, flags);
      LeafReached(a, b, Now(), r, q, f, idx, frame, flags);
    }

    /** The assignment of the leaf entry. */
    method PutLeaf(f: Frame, idx: nat, frame: Frame, large: bool, flags: Flags)
      requires f in mem && idx < 512 && f in owner && owner[f].Table? && !owner[f].at.P4? && large == !owner[f].at.P3?
      requires Accounted() && (!large && flags.alloc ==> frame in owner)
      modifies this`mem, this`owner
      ensures Accounted() && Now() == WithLeaf(old(Now()), f, idx, frame, flags)
    {
      mem := WriteEntry(mem, f, idx, MakeEntry(frame, large, flags));
      if !large && flags.alloc {
        owner := owner[frame := Data(owner[f].root, Child(owner[f].at, idx), f)];
      }
    }

    /** The way of all mapping functions to the PDPT of `root` for index `m`. */
    method EnsurePdpt(root: Frame, m: nat, flags: Flags) returns (pdpt: Next)
      requires Valid() && IsRoot(owner, root) && m < 512
      modifies this
      ensures Valid() && Arrived(old(Now()), Now(), free, root, P1(m), pdpt, flags)
    {
      assert EntryOk(mem, owner, root, m);
      pdpt := Descend(root, m, flags, Now(), root, P0);
      if pdpt.Failed? && pdpt.why.NoMemory? {
        GrownWider(old(Now()), Now(), root, P0, false, P1(m), false);
      }
    }

    /** The way of the 4 KB and 2 MB mapping functions to the page directory. */
    method EnsureDir(root: Frame, m: nat, p: nat, flags: Flags) returns (dir: Next)
      requires Valid() && IsRoot(owner, root) && m < 512 && p < 512
      modifies this
      ensures Valid() && Arrived(old(Now()), Now(), free, root, P2(m, p), dir, flags)
    {
      assert EntryOk(mem, owner, root, m);
      dir := EnsurePdpt(root, m, flags);
      if dir.Failed? {
        FailedBelow(old(Now()), Now(), free, root, P1(m), p, dir.why, flags);
        return;
      }
      dir := Descend(dir.frame, p, flags, old(Now()), root, P1(m));
      if dir.Failed? {
        FailedHere(old(Now()), Now(), free, root, P1(m), p, dir.why, flags);
      }
    }

    /** The way of the 4 KB mapping function to the page table. */
    method EnsureTable(root: Frame, m: nat, p: nat, d: nat, flags: Flags) returns (tbl: Next)
      requires Valid() && IsRoot(owner, root) && m < 512 && p < 512 && d < 512
      modifies this
      ensures Valid() && Arrived(old(Now()), Now(), free, root, P3(m, p, d), tbl, flags)
    {
      tbl := EnsureDir(root, m, p, flags);
      if tbl.Failed? {
        FailedBelow(old(Now()), Now(), free, root, P2(m, p), d, tbl.why, flags);
        return;
      }
      tbl := Descend(tbl.frame, d, flags, old(Now()), root, P2(m, p));
      if tbl.Failed? {
        FailedHere(old(Now()), Now(), free, root, P2(m, p), d, tbl.why, flags);
      }
    }

    /** vmem_map_page for the page `va` of the space `root`. */
    method MapPage(root: Frame, va: Path, frame: Frame, flags: Flags) returns (res: MapResult)
      requires Valid() && IsRoot(owner, root) && va.P4? && InBounds(va)
      requires flags.alloc ==> frame in owner && owner[frame].Other?
      modifies this
      ensures Valid() && MapOutcome(old(Now()), Now(), free, root, va, frame, flags, res)
    {
      var pgtbl := EnsureTable(root, va.m, va.p, va.d, flags);
      if pgtbl.Failed? {
        OutcomeFailed(old(Now()), Now(), free, root, P3(va.m, va.p, va.d), va.t, frame, pgtbl.why, flags);
        return pgtbl.why;
      }
      ghost var b := Now();
      var pte := Read(mem, pgtbl.frame, va.t);
      if pte.present {
        OutcomePanic(old(Now()), b, free, root, P3(va.m, va.p, va.d), va.t, pgtbl.frame, frame, flags);
        return Panic;
      }
      WriteLeaf(pgtbl.frame, va.t, frame, false, flags, old(Now()), root, P3(va.m, va.p, va.d));
      OutcomeDone(old(Now()), b, Now(), free, root, P3(va.m, va.p, va.d), va.t, pgtbl.frame, frame, flags);
      return Done;
    }

    /** vmem_map_page_2mb for the 2 MB page at path `q`. */
    method MapPage2M(root: Frame, q: Path, frame: Frame, flags: Flags) returns (res: MapResult)
      requires Valid() && IsRoot(owner, root) && q.P3? && InBounds(q)
      modifies this
      ensures Valid() && MapOutcome(old(Now()), Now(), free, root, q, frame, flags, res)
    {
      var pgdir := EnsureDir(root, q.m, q.p, flags);
      if pgdir.Failed? {
        OutcomeFailed(old(Now()), Now(), free, root, P2(q.m, q.p), q.d, frame, pgdir.why, flags);
        return pgdir.why;
      }
      ghost var b := Now();
      var pde := Read(mem, pgdir.frame, q.d);
      assert EntryOk(mem, owner, pgdir.frame, q.d);
      if pde.present || pde.large {
        OutcomePanic(old(Now()), b, free, root, P2(q.m, q.p), q.d, pgdir.frame, frame, flags);
        return Panic;
      }
      WriteLeaf(pgdir.frame, q.d, frame, true, flags, old(Now()), root, P2(q.m, q.p));
      OutcomeDone(old(Now()), b, Now(), free, root, P2(q.m, q.p), q.d, pgdir.frame, frame, flags);
      return Done;
    }

    /** vmem_map_page_1gb for the 1 GB page at path `q`.  A 1 GB page already there is replaced. */
    method MapPage1G(root: Frame, q: Path, frame: Frame, flags: Flags) returns (res: MapResult)
      requires Valid() && IsRoot(owner, root) && q.P2? && InBounds(q)
      modifies this
      ensures Valid() && MapOutcome(old(Now()), Now(), free, root, q, frame, flags, res)
    {
      assert EntryOk(mem, owner, root, q.m);
      var pdpt := EnsurePdpt(root, q.m, flags);
      if pdpt.Failed? {
        OutcomeFailed(old(Now()), Now(), free, root, P1(q.m), q.p, frame, pdpt.why, flags);
        return pdpt.why;
      }
      ghost var b := Now();
      var pdpe := Read(mem, pdpt.frame, q.p);
      if pdpe.present && !pdpe.large {
        OutcomePanic(old(Now()), b, free, root, P1(q.m), q.p, pdpt.frame, frame, flags);
        return Panic;
      }
      WriteLeaf(pdpt.frame, q.p, frame, true, flags, old(Now()), root, P1(q.m));
      OutcomeDone(old(Now()), b, Now(), free, root, P1(q.m), q.p, pdpt.frame, frame, flags);
      return Done;
    }
  }

  /** The kassert of the mapping functions fails: the entry is present - but a 1 GB page may replace
      another. */
  predicate Refused(mem: Memory, root: Frame, q: Path)
    requires q.P2? || q.P3? || q.P4?
  {
    EntryAt(mem, root, q).present && (q.P2? ==> !EntryAt(mem, root, q).large)
  }

  /** How mapping `frame` at the path `q` of the space `root` ends, in each case: on success exactly
      the range of `q` is remapped; with a large page on the way exactly its range gets the flags of
      the new page; otherwise no translation changes. */
  ghost predicate MapOutcome(a: Snap, b: Snap, free: set<Frame>, root: Frame, q: Path, frame: Frame, flags: Flags,
                             res: MapResult)
    requires q.P2? || q.P3? || q.P4?
  {
    && Grown(a, b, root, q) && NoStray(a, b) && KeepsOthers(a, b, if q.P4? && flags.alloc then {frame} else {})
    && (res.Wild? <==> LargeOnWay(a.mem, root, q))
    && (res.Panic? <==> !res.Wild? && Refused(a.mem, root, q))
    && (res.Done? ==> Remapped(a, b, root, q, frame, flags))
    && (res.Wild? ==> Opened(a, b, root, q, flags))
    && (res.NoMemory? || res.Panic? ==> SameWalks(a, b))
    && (res.NoMemory? ==> free == {})
    && (res.Done? && q.P4? && flags.alloc ==>
          frame in b.owner && b.owner[frame].Data? && b.owner[frame].root == root && b.owner[frame].at == q)
  }

  lemma OutcomeFailed(a: Snap, b: Snap, free: set<Frame>, r: Frame, q: Path, i: nat, frame: Frame, why: MapResult,
                      flags: Flags)
    requires (q.P1? || q.P2? || q.P3?) && Arrived(a, b, free, r, q, Failed(why), flags)
    requires q.P1? ==> !EntryAt(a.mem, r, q).large
    ensures MapOutcome(a, b, free, r, Child(q, i), frame, flags, why)
  {
    GrownWider(a, b, r, q, false, Child(q, i), false);
    if q.P2? || q.P3? { EntryBelow(a.mem, r, q, i); }
  }

  lemma OutcomePanic(a: Snap, b: Snap, free: set<Frame>, r: Frame, q: Path, i: nat, f: Frame, frame: Frame,
                     flags: Flags)
    requires (q.P1? || q.P2? || q.P3?) && i < 512 && Arrived(a, b, free, r, q, At(f), flags)
    requires Read(b.mem, f, i).present && (q.P1? ==> !Read(b.mem, f, i).large)
    ensures MapOutcome(a, b, free, r, Child(q, i), frame, flags, Panic)
  {
    GrownWider(a, b, r, q, false, Child(q, i), false);
  }

  lemma OutcomeDone(a: Snap, b: Snap, c: Snap, free: set<Frame>, r: Frame, q: Path, i: nat, f: Frame, frame: Frame,
                    flags: Flags)
    requires (q.P1? || q.P2? || q.P3?) && i < 512 && Arrived(a, b, free, r, q, At(f), flags)
    requires !Read(b.mem, f, i).present || (q.P1? && Read(b.mem, f, i).large)
    requires Grown(a, c, r, Child(q, i)) && Remapped(a, c, r, Child(q, i), frame, flags) && NoStray(a, c)
    requires KeepsOthers(a, c, if q.P3? && flags.alloc then {frame} else {})
    requires q.P3? && flags.alloc ==> frame in c.owner && c.owner[frame] == Data(r, Child(q, i), f)
    ensures MapOutcome(a, c, free, r, Child(q, i), frame, flags, Done)
  {
  }

  /** A mapping function gave up somewhere on the way to the path `q`. */
  ghost predicate Stopped(a: Snap, b: Snap, r: Frame, q: Path) {
    SameWalks(a, b) && Grown(a, b, r, q) && NoStray(a, b) && KeepsOthers(a, b, {})
  }

  /** How the way down to the table at path `q` ends. */
  ghost predicate Arrived(a: Snap, b: Snap, free: set<Frame>, r: Frame, q: Path, res: Next, flags: Flags)
    requires q.P1? || q.P2? || q.P3?
  {
    match res
    case At(f) => Reached(a, b, r, q, f, flags) && !EntryAt(a.mem, r, q).large && !LargeOnWay(a.mem, r, q)
    case Failed(why) =>
      && (why.Wild? || why.NoMemory?)
      && (why.Wild? <==> EntryAt(a.mem, r, q).large || LargeOnWay(a.mem, r, q))
      && (why.Wild? ==> Opened(a, b, r, q, flags))
      && (why.NoMemory? ==> Stopped(a, b, r, q) && free == {} && !EntryAt(a.mem, r, q).present)
  }

  /** A mapping function that fails above a table fails for every entry of it. */
  lemma FailedBelow(a: Snap, b: Snap, free: set<Frame>, r: Frame, q: Path, i: nat, why: MapResult, flags: Flags)
    requires (q.P1? || q.P2?) && Arrived(a, b, free, r, q, Failed(why), flags)
    requires q.P1? ==> !EntryAt(a.mem, r, q).large
    ensures Arrived(a, b, free, r, Child(q, i), Failed(why), flags)
  {
    GrownWider(a, b, r, q, false, Child(q, i), false);
  }

  /** A mapping function that fails at the entry `i` of the table at `q`. */
  lemma FailedHere(a: Snap, b: Snap, free: set<Frame>, r: Frame, q: Path, i: nat, why: MapResult, flags: Flags)
    requires (q.P1? || q.P2?) && !EntryAt(a.mem, r, q).large && !LargeOnWay(a.mem, r, q)
    requires
      if why.Wild? then Mishap(a, b, r, Child(q, i), flags)
      else why.NoMemory? && Stopped(a, b, r, q) && free == {} && EntryAt(a.mem, r, Child(q, i)) == ZERO
    ensures Arrived(a, b, free, r, Child(q, i), Failed(why), flags)
  {
    if why.NoMemory? { GrownWider(a, b, r, q, false, Child(q, i), false); }
  }

  /** Writing a leaf gives no frame away but the one it maps. */
  lemma LeafKept(a: Snap, b: Snap, r: Frame, q: Path, f: Frame, idx: nat, frame: Frame, flags: Flags)
    requires MayWriteLeaf(a, b, r, q, f, idx, frame, flags) && f in b.mem
    ensures var c := WithLeaf(b, f, idx, frame, flags);
      NoStray(a, c) && KeepsOthers(a, c, if q.P3? && flags.alloc then {frame} else {})
  {
  }

  ghost predicate MayWriteLeaf(a: Snap, b: Snap, r: Frame, q: Path, f: Frame, idx: nat, frame: Frame, flags: Flags) {
    && Sound(a) && Sound(b) && IsRoot(a.owner, r) && idx < 512 && (q.P1? || q.P2? || q.P3?)
    && Reached(a, b, r, q, f, flags)
    && (var e := EntryAt(a.mem, r, Child(q, idx)); !e.present || (e.large && !q.P3?))
    && (q.P3? && flags.alloc ==> frame in b.owner && b.owner[frame].Other?)
  }

  lemma LeafIn(a: Snap, b: Snap, r: Frame, q: Path, f: Frame, idx: nat, frame: Frame, flags: Flags)
    requires MayWriteLeaf(a, b, r, q, f, idx, frame, flags)
    ensures f in b.mem && (q.P3? && flags.alloc ==> frame in b.owner)
  {
    LeafAllowed(a, b, r, q, f, idx, frame, flags);
  }

  lemma LeafReached(a: Snap, b: Snap, c: Snap, r: Frame, q: Path, f: Frame, idx: nat, frame: Frame, flags: Flags)
    requires MayWriteLeaf(a, b, r, q, f, idx, frame, flags) && f in b.mem && c == WithLeaf(b, f, idx, frame, flags)
    ensures Sound(c) && Grown(a, c, r, Child(q, idx)) && Remapped(a, c, r, Child(q, idx), frame, flags)
    ensures NoStray(a, c) && KeepsOthers(a, c, if q.P3? && flags.alloc then {frame} else {})
  {
    LeafAllowed(a, b, r, q, f, idx, frame, flags);
    LeafSound(b, f, idx, frame, flags);
    LeafGrown(a, b, c, r, q, f, idx, frame, flags);
    LeafKept(a, b, r, q, f, idx, frame, flags);
    RemapFrom(a, b, r, q, f, idx, frame, flags);
  }

  lemma LeafGrown(a: Snap, b: Snap, c: Snap, r: Frame, q: Path, f: Frame, idx: nat, frame: Frame, flags: Flags)
    requires CanSetLeaf(b, f, idx, frame, flags) && IsTable(b.owner, r, q, f) && c == WithLeaf(b, f, idx, frame, flags)
    requires (q.P1? || q.P2? || q.P3?) && Grown(a, b, r, q)
    ensures Grown(a, c, r, Child(q, idx))
  {
    LeafGrows(b, f, idx, frame, flags);
    GrownWider(a, b, r, q, false, Child(q, idx), false);
    GrownTransitive(a, b, c, r, Child(q, idx), false);
  }

  lemma LeafAllowed(a: Snap, b: Snap, r: Frame, q: Path, f: Frame, idx: nat, frame: Frame, flags: Flags)
    requires MayWriteLeaf(a, b, r, q, f, idx, frame, flags)
    ensures CanSetLeaf(b, f, idx, frame, flags)
  {
    assert Read(b.mem, f, idx) == EntryAt(a.mem, r, Child(q, idx));
  }

  lemma RemapFrom(a: Snap, b: Snap, r: Frame, q: Path, f: Frame, idx: nat, frame: Frame, flags: Flags)
    requires MayWriteLeaf(a, b, r, q, f, idx, frame, flags) && CanSetLeaf(b, f, idx, frame, flags)
    ensures Remapped(a, WithLeaf(b, f, idx, frame, flags), r, Child(q, idx), frame, flags)
  {
    LeafRemaps(b, f, idx, frame, flags);
    assert forall r' :: IsRoot(a.owner, r') ==> IsRoot(b.owner, r');
  }

  /** Frame `g` is allocated, holds `page` and belongs to no address space. */
  function Held(s: Snap, g: Frame, page: Page): Snap {
    Snap(s.mem[g := page], s.owner[g := Other])
  }

  /** A free frame may be taken and written without any address space noticing. */
  lemma HoldFrame(s: Snap, g: Frame, page: Page)
    requires Sound(s) && g !in s.owner
    ensures Sound(Held(s, g, page)) && SameWalks(s, Held(s, g, page))
  {
    assert SameSpaces(s, Held(s, g, page));
    SpacesSound(s, Held(s, g, page));
    SpacesWalks(s, Held(s, g, page));
  }

  function Dropped(s: Snap, f: Frame, page: Page): Snap {
    Snap(s.mem[f := page], s.owner - {f})
  }

  /** A frame outside the address spaces may be freed without any of them noticing. */
  lemma DropFrame(s: Snap, f: Frame, page: Page)
    requires Sound(s) && f in s.owner && s.owner[f].Other?
    ensures Sound(Dropped(s, f, page)) && SameWalks(s, Dropped(s, f, page))
  {
    assert SameSpaces(s, Dropped(s, f, page));
    SpacesSound(s, Dropped(s, f, page));
    SpacesWalks(s, Dropped(s, f, page));
  }
}
