/** setup_init_task (sched/sched.c): the address space of the first task, from an empty PML4 to the
    mappings of the kernel and the area of the user stack. */
module InitTask {
  import opened Common
  import opened Tables
  import opened TableSteps
  import opened Paging
  import opened Vmem
  import opened Areas
  import opened Spaces
  import opened Boot
  import opened SpaceRuns
  import opened FaultCases
  import Clone

  const STACK: nat := 0x7000_0000
  const STACK_PAGES: nat := 4

  function StackArea(): Area {
    Area(STACK, STACK_PAGES, Flags(true, true, false))
  }

  /** The user stack: users may read and write from 0x70000000 to 0x70003fff, and nowhere else. */
  ghost predicate IsStack(areas: seq<Area>) {
    forall addr: nat ::
      if 0x7000_0000 <= addr < 0x7000_4000
      then Lookup(areas, addr).Some? && Lookup(areas, addr).value.flags.user && Lookup(areas, addr).value.flags.write
      else Lookup(areas, addr).None?
  }

  lemma StackBytes()
    ensures IsStack([StackArea()])
  {
    forall addr: nat
      ensures Lookup([StackArea()], addr) == if Covers(StackArea(), addr) then Some(StackArea()) else None
    {
      assert [StackArea()][1..] == [];
    }
  }

  /** None of the mappings of setup_vmem is an allocated page, so they suit a space without areas. */
  lemma BootFits(s: Snap, r: Frame, sections: nat, first: Frame, user: Option<Frame>)
    requires Means(s, r, 0x10000, sections, first, user)
    ensures PagesFit(s, r, [])
  {
    forall va: Path | va.P4? && InBounds(va) ensures Fits(s, r, [], va) {
      assert Walk(s.mem, r, va) == Meaning(0x10000, sections, first, user, va);
    }
  }

  lemma StackPage(va: Path)
    requires va.P4? && InBounds(va) && Covers(StackArea(), PageAddr(va))
    ensures va.m == 0 && va != USER_PATH
  {
    var a := PageAddr(va);
    IndicesOfMadeAddr(va, 0);
    assert STACK <= a < STACK + STACK_PAGES * PAGE_SIZE;
    assert PageAddr(USER_PATH) == USER_CODE;
  }

  /** The stack lies clear of the mappings of setup_vmem. */
  lemma StackFits(s: Snap, r: Frame, sections: nat, first: Frame, user: Option<Frame>)
    requires Means(s, r, 0x10000, sections, first, user)
    ensures AreasOk([StackArea()]) && PagesFit(s, r, [StackArea()])
  {
    BootFits(s, r, sections, first, user);
    assert [StackArea()] + [] == [StackArea()];
    forall va: Path | va.P4? && InBounds(va) && Covers(StackArea(), PageAddr(va)) ensures Walk(s.mem, r, va).Absent? {
      StackPage(va);
      assert Walk(s.mem, r, va) == Meaning(0x10000, sections, first, user, va);
    }
    PlacedFits(s, r, [], StackArea());
  }

  lemma LowPage(va: Path)
    requires va.P4? && InBounds(va) && Low(PageAddr(va))
    ensures va.m < 256 && va != USER_PATH
  {
    assert PageAddr(USER_PATH) == USER_CODE;
  }

  /** At low addresses the first task has its stack and nothing else. */
  lemma StackOnly(s: Snap, r: Frame, sections: nat, first: Frame, user: Option<Frame>)
    requires IsRoot(s.owner, r) && Means(s, r, 0x10000, sections, first, user)
    ensures SpaceOk(s, Shape(r, [StackArea()]))
  {
    StackFits(s, r, sections, first, user);
    forall va: Path | va.P4? && InBounds(va) && Low(PageAddr(va)) ensures Walk(s.mem, r, va).Absent? {
      LowPage(va);
      assert Walk(s.mem, r, va) == Meaning(0x10000, sections, first, user, va);
    }
  }

  /** What setup_vmem leaves behind: `n` pages of 2 MB for the kernel's sections. */
  ghost predicate Booted(s: Snap, r: Frame, n: nat, physStart: nat, physEnd: nat, physUser: nat) {
    && IsRoot(s.owner, r) && n <= 1024 && physEnd <= physStart + n * MB2 < physEnd + MB2
    && Means(s, r, 0x10000, n, physStart / PAGE_SIZE, Some(physUser / PAGE_SIZE))
  }

  /** vmem_init and setup_vmem */
  method BootSpace(pm: PhysMem, physStart: nat, physEnd: nat, physUser: nat)
    returns (space: Option<Space>, ghost n: nat)
    requires pm.Valid() && physStart % MB2 == 0 && physStart <= physEnd <= physStart + KERNEL_SECTIONS_SIZE
    modifies pm
    ensures pm.Valid() && (space.None? ==> pm.free == {})
    ensures space.Some? ==> fresh(space.value) && space.value.pm == pm && space.value.areas == []
    ensures space.Some? ==> Booted(pm.Now(), space.value.root, n, physStart, physEnd, physUser)
    ensures space.Some? ==> Clone.Took(old(pm.Now()), pm.Now(), space.value.root)
  {
    ghost var a := pm.Now();
    n := 0;
    space := Create(pm);
    if space.Some? {
      ghost var b := pm.Now();
      var ok;
      ok, n := SetupVmem(pm, space.value.root, physStart, physEnd, physUser);
      Clone.TookThen(a, b, pm.Now(), space.value.root);
      if !ok {
        space := None;
      }
    }
  }

  /** The memory part of setup_init_task: it fails only if no frame is left; otherwise the space is
      in order, has the stack as its only area and the mappings of setup_vmem as its only pages. */
  method SetupSpace(pm: PhysMem, physStart: nat, physEnd: nat, physUser: nat)
    returns (space: Option<Space>, ghost n: nat)
    requires pm.Valid() && physStart % MB2 == 0 && physStart <= physEnd <= physStart + KERNEL_SECTIONS_SIZE
    modifies pm
    ensures pm.Valid() && (space.None? ==> pm.free == {})
    ensures space.Some? ==> fresh(space.value) && space.value.pm == pm && space.value.Valid()
    ensures space.Some? ==> space.value.areas == [StackArea()] && IsStack(space.value.areas)
    ensures space.Some? ==> Booted(pm.Now(), space.value.root, n, physStart, physEnd, physUser)
    ensures space.Some? ==> SpaceOk(pm.Now(), Shape(space.value.root, space.value.areas))
    ensures space.Some? ==> Clone.Took(old(pm.Now()), pm.Now(), space.value.root)
  {
    space, n := BootSpace(pm, physStart, physEnd, physUser);
    if space.Some? {
      var placed := space.value.AllocPages(STACK, STACK_PAGES, Flags(true, true, false));
      assert space.value.areas == [StackArea()];
      StackBytes();
      StackOnly(pm.Now(), space.value.root, n, physStart / PAGE_SIZE, Some(physUser / PAGE_SIZE));
    }
  }

  /** A fault on the stack finds nothing mapped. */
  lemma StackUntouched(s: Snap, r: Frame, areas: seq<Area>, n: nat, physStart: nat, physEnd: nat, physUser: nat,
                       addr: nat)
    requires Booted(s, r, n, physStart, physEnd, physUser) && areas == [StackArea()]
    requires 0x7000_0000 <= addr < 0x7000_4000
    ensures Canonical(addr) && InBounds(PathOf(addr)) && Walk(s.mem, r, PathOf(addr)).Absent?
    ensures Lookup(areas, addr) == Some(StackArea())
  {
    StackBytes();
    AreasOkOne(StackArea());
    FaultAddress(areas, addr, addr - addr % PAGE_SIZE);
    var va := PathOf(addr);
    var i := LookupFinds(areas, PageAddr(va));
    StackPage(va);
    assert Walk(s.mem, r, va) == Meaning(0x10000, n, physStart / PAGE_SIZE, Some(physUser / PAGE_SIZE), va);
  }

  lemma AreasOkOne(a: Area)
    requires Proper(a)
    ensures AreasOk([a])
  {
  }

  /** What a touched page of the stack translates to. */
  ghost predicate StackTouched(s: Snap, r: Frame, addr: nat, frame: Frame) {
    && Walk(s.mem, r, PathOf(addr)) == Mapped(Size4K, frame, true, true, true)
    && Effective(s.mem, r, PathOf(addr), (e: Pte) => e.user) && Effective(s.mem, r, PathOf(addr), (e: Pte) => e.write)
    && frame in s.mem && s.mem[frame] == ZeroPage()
  }

  /** The first task touches its stack in the space that SetupSpace has left: with five frames to be had a
      page of zeros is there afterwards, for users to read and to write. */
  method TouchStack(space: Space, ghost n: nat, physStart: nat, physEnd: nat, physUser: nat, addr: nat)
    returns (res: PfResult, ghost frame: Frame)
    requires space.Valid() && space.areas == [StackArea()]
    requires Booted(space.pm.Now(), space.root, n, physStart, physEnd, physUser)
    requires 0x7000_0000 <= addr < 0x7000_4000
    modifies space.pm
    ensures |old(space.pm.free)| >= 5 ==> res.Served?
    ensures res.Served? ==> space.Valid() && StackTouched(space.pm.Now(), space.root, addr, frame)
  {
    ghost var pm, r := space.pm, space.root;
    ghost var a, free := pm.Now(), pm.free;
    StackUntouched(a, r, space.areas, n, physStart, physEnd, physUser, addr);
    res, frame := space.HandlePf(addr);
    EnoughFrames(a, pm.Now(), free, pm.free, r, PathOf(addr), StackArea(), res, frame);
    if res.Served? { EffectiveRights(pm.mem, pm.owner, r, PathOf(addr)); }
  }

  /** The spaces of the kernel from its start on: the first task's, and whatever the operations make of
      it and of its copies.  As long as the kernel does not stop, all of them stay in order. */
  method KernelRun(frames: set<Frame>, physStart: nat, physEnd: nat, physUser: nat, ops: seq<Op>)
    returns (pm: PhysMem, sys: Option<System>, ok: bool, copied: bool)
    requires physStart % MB2 == 0 && physStart <= physEnd <= physStart + KERNEL_SECTIONS_SIZE
    ensures pm.frames == frames && (sys.None? ==> pm.free == {})
    ensures sys.Some? && !ok ==> CanEnd(ops)
    ensures sys.Some? && ok ==> sys.value.Valid() && sys.value.pm.frames == frames
    ensures sys.Some? && ok && copied && UserAreas(ops) ==> sys.value.Lost() == {}
    ensures sys.Some? && ok && copied && UserAreas(ops) && sys.value.spaces == [] ==> sys.value.pm.free == frames
  {
    pm := new PhysMem(frames);
    var space;
    ghost var n;
    space, n := SetupSpace(pm, physStart, physEnd, physUser);
    if space.None? {
      return pm, None, false, false;
    }
    var s := new System.From(pm, space.value);
    ok, copied := s.Run(ops);
    sys := Some(s);
  }
}
