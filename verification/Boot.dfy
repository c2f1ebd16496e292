/** setup_vmem (sched/sched.c): the address space of the first task.  The three loops never meet a
    page that is already mapped, and afterwards every address means what the layout promises. */
module Boot {
  import opened Common
  import opened Tables
  import opened TableSteps
  import opened Paging
  import opened Vmem
  import Clone
  import Destroy

  const GB: nat := 0x4000_0000
  const MB2: nat := 0x20_0000
  const KERNEL_DIRECT_PHYS_MAPPING_SIZE: nat := 0x4000_0000_0000
  const KERNEL_SECTIONS_START: nat := 0xffff_ffff_8000_0000
  const KERNEL_SECTIONS_SIZE: nat := 0x8000_0000
  const USER_CODE: nat := 0x10000

  /** Where the mapping functions put a large page. */
  function PathOf1G(addr: nat): Path {
    P2(addr / 0x80_0000_0000 % 512, addr / 0x4000_0000 % 512)
  }

  function PathOf2M(addr: nat): Path {
    P3(addr / 0x80_0000_0000 % 512, addr / 0x4000_0000 % 512, addr / 0x20_0000 % 512)
  }

  /** The `k`-th page of the direct mapping and of the kernel sections, and the user page. */
  function DirectPath(k: nat): Path {
    P2(273 + k / 512, k % 512)
  }

  function SectionPath(k: nat): Path {
    P3(511, 510 + k / 512, k % 512)
  }

  const USER_PATH: Path := P4(0, 0, 0, 16)

  lemma DirectIndices(k: nat)
    requires k < 0x10000
    ensures PathOf1G(KERNEL_DIRECT_PHYS_MAPPING_START + k * GB) == DirectPath(k) && InBounds(DirectPath(k))
  {
    var a := KERNEL_DIRECT_PHYS_MAPPING_START + k * GB;
    assert a / 0x4000_0000 == 0x3_fffe_2200 + k;
    Levels(a);
  }

  lemma SectionIndices(k: nat)
    requires k < 1024
    ensures PathOf2M(KERNEL_SECTIONS_START + k * MB2) == SectionPath(k) && InBounds(SectionPath(k))
  {
    var a := KERNEL_SECTIONS_START + k * MB2;
    SectionStart(a, k);
    Levels(a);
    SectionDigits(a / 0x20_0000, k);
  }

  lemma SectionStart(a: nat, k: nat)
    requires a == KERNEL_SECTIONS_START + k * MB2
    ensures a / 0x20_0000 == 0x7ff_ffff_fc00 + k
  {
    assert a == (0x7ff_ffff_fc00 + k) * 0x20_0000;
  }

  lemma SectionDigits(x: nat, k: nat)
    requires k < 1024 && x == 0x7ff_ffff_fc00 + k
    ensures x % 512 == k % 512 && x / 512 % 512 == 510 + k / 512 && x / 512 / 512 % 512 == 511
  {
    assert x / 512 == 0x3_ffff_fffe + k / 512;
  }

  // ---- What the space is to mean

  predicate IsDirect(n: nat, va: Path)
    requires va.P4?
  {
    273 <= va.m && (va.m - 273) * 512 + va.p < n
  }

  predicate IsSection(n: nat, va: Path)
    requires va.P4?
  {
    va.m == 511 && 510 <= va.p && (va.p - 510) * 512 + va.d < n
  }

  /** `direct` pages of 1 GB, `sections` pages of 2 MB from the frame `first` on, and the user page. */
  function Meaning(direct: nat, sections: nat, first: Frame, user: Option<Frame>, va: Path): Translation
    requires va.P4?
  {
    if IsDirect(direct, va) then Mapped(Size1G, ((va.m - 273) * 512 + va.p) * 0x40000, false, true, false)
    else if IsSection(sections, va) then Mapped(Size2M, first + ((va.p - 510) * 512 + va.d) * 512, false, true, false)
    else if va == USER_PATH && user.Some? then Mapped(Size4K, user.value, true, false, false)
    else Absent
  }

  ghost predicate Means(s: Snap, r: Frame, direct: nat, sections: nat, first: Frame, user: Option<Frame>) {
    forall va: Path :: va.P4? && InBounds(va) ==> Walk(s.mem, r, va) == Meaning(direct, sections, first, user, va)
  }

  /** The parts that are still to be mapped are empty. */
  ghost predicate Ahead(s: Snap, r: Frame, direct: nat, sections: nat) {
    && (forall k :: direct <= k < 0x10000 ==> Clone.Empty(s, r, DirectPath(k)))
    && (forall k :: sections <= k < 1024 ==> Clone.Empty(s, r, SectionPath(k)))
    && Clone.Empty(s, r, USER_PATH)
  }

  // ---- Empty paths stay empty

  /** A page mapped elsewhere leaves a path empty. */
  lemma EmptyStays(s: Snap, s': Snap, r: Frame, c: Path, q: Path, g: Frame, flags: Flags)
    requires c.P2? || c.P3? || c.P4?
    requires !q.P0? && !Prefix(c, q) && !Prefix(q, c) && InBounds(q) && IsRoot(s.owner, r)
    requires Grown(s, s', r, c) && Remapped(s, s', r, c, g, flags) && Clone.Empty(s, r, q)
    ensures Clone.Empty(s', r, q)
  {
    forall f | IsTable(s'.owner, r, Parent(q), f) ensures Read(s'.mem, f, Last(q)) == ZERO {
      assert EntryGrown(s, s', r, c, false, f, Last(q));
      assert f in s.owner ==> IsTable(s.owner, r, Parent(q), f);
    }
    forall va: Path | va.P4? && InBounds(va) && OnWay(q, va) ensures Walk(s'.mem, r, va).Absent? {
      assert !OnWay(c, va);
    }
  }

  /** In a new space every path is empty. */
  lemma NewIsEmpty(s: Snap, r: Frame, q: Path)
    requires Sound(s) && IsRoot(s.owner, r) && !q.P0? && InBounds(q) && forall i :: 0 <= i < 512 ==>
      Read(s.mem, r, i) == ZERO
    ensures Clone.Empty(s, r, q)
  {
    forall f | IsTable(s.owner, r, Parent(q), f) ensures Read(s.mem, f, Last(q)) == ZERO {
      assert OwnerOk(s.mem, s.owner, f);
      if f != r {
        Destroy.BelowEntry(s, r, P0, r, s.owner[f].at.m, f);
      }
    }
  }

  // ---- The loops

  ghost predicate Booting(s: Snap, r: Frame, direct: nat, sections: nat, first: Frame) {
    Sound(s) && IsRoot(s.owner, r) && Means(s, r, direct, sections, first, None) && Ahead(s, r, direct, sections)
  }

  lemma DirectNext(s: Snap, s': Snap, r: Frame, k: nat, first: Frame)
    requires k < 0x10000 && Booting(s, r, k, 0, first) && Sound(s')
    requires Grown(s, s', r, DirectPath(k)) && Remapped(s, s', r, DirectPath(k), k * 0x40000, Flags(false, true, false))
    ensures Booting(s', r, k + 1, 0, first)
  {
    var c, flags := DirectPath(k), Flags(false, true, false);
    forall j | k + 1 <= j < 0x10000 ensures Clone.Empty(s', r, DirectPath(j)) {
      EmptyStays(s, s', r, c, DirectPath(j), k * 0x40000, flags);
    }
    forall j | 0 <= j < 1024 ensures Clone.Empty(s', r, SectionPath(j)) {
      EmptyStays(s, s', r, c, SectionPath(j), k * 0x40000, flags);
    }
    EmptyStays(s, s', r, c, USER_PATH, k * 0x40000, flags);
    DirectMeans(s, s', r, k, first);
  }

  lemma DirectMeans(s: Snap, s': Snap, r: Frame, k: nat, first: Frame)
    requires k < 0x10000 && IsRoot(s.owner, r) && Means(s, r, k, 0, first, None)
    requires Remapped(s, s', r, DirectPath(k), k * 0x40000, Flags(false, true, false))
    ensures Means(s', r, k + 1, 0, first, None)
  {
    forall va: Path | va.P4? && InBounds(va) ensures Walk(s'.mem, r, va) == Meaning(k + 1, 0, first, None, va) {
      assert OnWay(DirectPath(k), va) <==> 273 <= va.m && (va.m - 273) * 512 + va.p == k;
    }
  }

  lemma SectionNext(s: Snap, s': Snap, r: Frame, k: nat, first: Frame)
    requires k < 1024 && Booting(s, r, 0x10000, k, first) && Sound(s')
    requires Grown(s, s', r, SectionPath(k))
    requires Remapped(s, s', r, SectionPath(k), first + k * 512, Flags(false, true, false))
    ensures Booting(s', r, 0x10000, k + 1, first)
  {
    var c, flags := SectionPath(k), Flags(false, true, false);
    forall j | k + 1 <= j < 1024 ensures Clone.Empty(s', r, SectionPath(j)) {
      EmptyStays(s, s', r, c, SectionPath(j), first + k * 512, flags);
    }
    EmptyStays(s, s', r, c, USER_PATH, first + k * 512, flags);
    SectionMeans(s, s', r, k, first);
  }

  lemma SectionMeans(s: Snap, s': Snap, r: Frame, k: nat, first: Frame)
    requires k < 1024 && IsRoot(s.owner, r) && Means(s, r, 0x10000, k, first, None)
    requires Remapped(s, s', r, SectionPath(k), first + k * 512, Flags(false, true, false))
    ensures Means(s', r, 0x10000, k + 1, first, None)
  {
    forall va: Path | va.P4? && InBounds(va) ensures Walk(s'.mem, r, va) == Meaning(0x10000, k + 1, first, None, va) {
      assert OnWay(SectionPath(k), va) <==> va.m == 511 && 510 <= va.p && (va.p - 510) * 512 + va.d == k;
    }
  }

  /** One page of the direct mapping. */
  method MapDirectPage(pm: PhysMem, root: Frame, c: Path, frame: Frame, ghost k: nat, ghost first: Frame)
    returns (ok: bool)
    requires pm.Valid() && k < 0x10000 && Booting(pm.Now(), root, k, 0, first)
    requires c == DirectPath(k) && InBounds(c) && frame == k * 0x40000
    modifies pm
    ensures pm.Valid() && Clone.Took(old(pm.Now()), pm.Now(), root)
    ensures if ok then Booting(pm.Now(), root, k + 1, 0, first) else pm.free == {}
  {
    ghost var s := pm.Now();
    Clone.EmptyMappable(s, root, c);
    var res := pm.MapPage1G(root, c, frame, Flags(false, true, false));
    ok := res.Done?;
    Clone.MapTook(s, pm.Now(), root, c);
    if ok { DirectNext(s, pm.Now(), root, k, first); }
  }

  lemma DirectFrame(phys: nat, i: nat)
    requires phys == i * GB
    ensures phys / PAGE_SIZE == i * 0x40000
  {
  }

  /** The loop over the direct mapping. */
  method MapDirect(pm: PhysMem, root: Frame, ghost first: Frame) returns (ok: bool)
    requires pm.Valid() && Booting(pm.Now(), root, 0, 0, first)
    modifies pm
    ensures pm.Valid() && Clone.Took(old(pm.Now()), pm.Now(), root)
    ensures if ok then Booting(pm.Now(), root, 0x10000, 0, first) else pm.free == {}
  {
    ghost var a := pm.Now();
    var virt, phys := KERNEL_DIRECT_PHYS_MAPPING_START, 0;
    var n := KERNEL_DIRECT_PHYS_MAPPING_SIZE / GB;
    assert n == 0x10000;
    for i := 0 to n
      invariant virt == KERNEL_DIRECT_PHYS_MAPPING_START + i * GB && phys == i * GB
      invariant pm.Valid() && Booting(pm.Now(), root, i, 0, first) && Clone.Took(a, pm.Now(), root)
    {
      ghost var b := pm.Now();
      DirectIndices(i);
      DirectFrame(phys, i);
      ok := MapDirectPage(pm, root, PathOf1G(virt), phys / PAGE_SIZE, i, first);
      Clone.TookThen(a, b, pm.Now(), root);
      if !ok {
        return;
      }
      virt, phys := virt + GB, phys + GB;
    }
    ok := true;
  }

  /** One page of the kernel sections. */
  method MapSectionPage(pm: PhysMem, root: Frame, c: Path, frame: Frame, ghost k: nat, ghost first: Frame)
    returns (ok: bool)
    requires pm.Valid() && k < 1024 && Booting(pm.Now(), root, 0x10000, k, first)
    requires c == SectionPath(k) && InBounds(c) && frame == first + k * 512
    modifies pm
    ensures pm.Valid() && Clone.Took(old(pm.Now()), pm.Now(), root)
    ensures if ok then Booting(pm.Now(), root, 0x10000, k + 1, first) else pm.free == {}
  {
    ghost var s := pm.Now();
    SectionReady(s, root, c, k, first);
    var res := pm.MapPage2M(root, c, frame, Flags(false, true, false));
    ok := res.Done?;
    Clone.MapTook(s, pm.Now(), root, c);
    SectionDone(s, pm.Now(), pm.free, root, c, k, frame, first, res);
  }

  lemma SectionDone(s: Snap, s': Snap, free: set<Frame>, r: Frame, c: Path, k: nat, frame: Frame, first: Frame,
                    res: MapResult)
    requires k < 1024 && Booting(s, r, 0x10000, k, first)
    requires c == SectionPath(k) && frame == first + k * 512 && Sound(s')
    requires MapOutcome(s, s', free, r, c, frame, Flags(false, true, false), res) && !res.Wild? && !res.Panic?
    ensures if res.Done? then Booting(s', r, 0x10000, k + 1, first) else free == {}
  {
    if res.Done? { SectionNext(s, s', r, k, first); }
  }

  lemma SectionReady(s: Snap, r: Frame, c: Path, k: nat, first: Frame)
    requires k < 1024 && Booting(s, r, 0x10000, k, first) && c == SectionPath(k) && InBounds(c)
    ensures IsRoot(s.owner, r) && !LargeOnWay(s.mem, r, c) && !Refused(s.mem, r, c)
  {
    Clone.EmptyMappable(s, r, c);
  }

  lemma SectionFrame(physStart: nat, phys: nat, k: nat)
    requires phys == physStart + k * MB2
    ensures phys / PAGE_SIZE == physStart / PAGE_SIZE + k * 512
  {
  }

  /** The loop over the kernel sections. */
  method MapSections(pm: PhysMem, root: Frame, physStart: nat, physEnd: nat) returns (ok: bool, ghost n: nat)
    requires physStart % MB2 == 0 && physStart <= physEnd <= physStart + KERNEL_SECTIONS_SIZE
    requires pm.Valid() && Booting(pm.Now(), root, 0x10000, 0, physStart / PAGE_SIZE)
    modifies pm
    ensures pm.Valid() && n <= 1024 && Clone.Took(old(pm.Now()), pm.Now(), root)
    ensures if ok then Booting(pm.Now(), root, 0x10000, n, physStart / PAGE_SIZE) else pm.free == {}
    ensures ok ==> physEnd <= physStart + n * MB2 < physEnd + MB2
  {
    ghost var a := pm.Now();
    var virt, phys := KERNEL_SECTIONS_START, physStart;
    n := 0;
    while phys < physEnd
      invariant n <= 1024 && virt == KERNEL_SECTIONS_START + n * MB2 && phys == physStart + n * MB2 < physEnd + MB2
      invariant pm.Valid() && Booting(pm.Now(), root, 0x10000, n, physStart / PAGE_SIZE)
      invariant Clone.Took(a, pm.Now(), root)
    {
      ghost var b := pm.Now();
      SectionIndices(n);
      SectionFrame(physStart, phys, n);
      ok := MapSectionPage(pm, root, PathOf2M(virt), phys / PAGE_SIZE, n, physStart / PAGE_SIZE);
      Clone.TookThen(a, b, pm.Now(), root);
      if !ok {
        return;
      }
      virt, phys, n := virt + MB2, phys + MB2, n + 1;
    }
    ok := true;
  }

  /** The user page. */
  method MapUser(pm: PhysMem, root: Frame, frame: Frame, ghost n: nat, ghost first: Frame) returns (ok: bool)
    requires pm.Valid() && n <= 1024 && Booting(pm.Now(), root, 0x10000, n, first)
    modifies pm
    ensures pm.Valid() && IsRoot(pm.owner, root) && Clone.Took(old(pm.Now()), pm.Now(), root)
    ensures if ok then Means(pm.Now(), root, 0x10000, n, first, Some(frame)) else pm.free == {}
  {
    ghost var s := pm.Now();
    assert PathOf(USER_CODE) == USER_PATH;
    Clone.EmptyMappable(s, root, USER_PATH);
    var res := pm.MapPage(root, PathOf(USER_CODE), frame, Flags(true, false, false));
    ok := res.Done?;
    Clone.MapTook(s, pm.Now(), root, USER_PATH);
    if ok { UserMeans(s, pm.Now(), root, n, first, frame); }
  }

  lemma UserMeans(s: Snap, s': Snap, r: Frame, n: nat, first: Frame, frame: Frame)
    requires IsRoot(s.owner, r) && Means(s, r, 0x10000, n, first, None)
    requires Remapped(s, s', r, USER_PATH, frame, Flags(true, false, false))
    ensures Means(s', r, 0x10000, n, first, Some(frame))
  {
    forall va: Path | va.P4? && InBounds(va)
      ensures Walk(s'.mem, r, va) == Meaning(0x10000, n, first, Some(frame), va)
    {
      assert Walk(s.mem, r, va) == Meaning(0x10000, n, first, None, va);
    }
  }

  /** setup_vmem on a new space: it fails only for lack of memory, and otherwise the space has the
      direct mapping, the kernel sections and the user page, and nothing else. */
  method SetupVmem(pm: PhysMem, root: Frame, physStart: nat, physEnd: nat, physUser: nat)
    returns (ok: bool, ghost n: nat)
    requires physStart % MB2 == 0 && physStart <= physEnd <= physStart + KERNEL_SECTIONS_SIZE
    requires pm.Valid() && IsRoot(pm.owner, root) && forall i :: 0 <= i < 512 ==> Read(pm.mem, root, i) == ZERO
    modifies pm
    ensures pm.Valid() && (!ok ==> pm.free == {}) && Clone.Took(old(pm.Now()), pm.Now(), root)
    ensures ok ==> IsRoot(pm.owner, root) && n <= 1024 && physEnd <= physStart + n * MB2 < physEnd + MB2
    ensures ok ==> Means(pm.Now(), root, 0x10000, n, physStart / PAGE_SIZE, Some(physUser / PAGE_SIZE))
  {
    ghost var a := pm.Now();
    NewBoots(a, root, physStart / PAGE_SIZE);
    n := 0;
    ok := MapDirect(pm, root, physStart / PAGE_SIZE);
    if !ok {
      return;
    }
    ghost var b := pm.Now();
    ok, n := MapSections(pm, root, physStart, physEnd);
    Clone.TookThen(a, b, pm.Now(), root);
    if !ok {
      return;
    }
    ghost var c := pm.Now();
    ok := MapUser(pm, root, physUser / PAGE_SIZE, n, physStart / PAGE_SIZE);
    Clone.TookThen(a, c, pm.Now(), root);
  }

  lemma NewBoots(s: Snap, r: Frame, first: Frame)
    requires Sound(s) && IsRoot(s.owner, r) && forall i :: 0 <= i < 512 ==> Read(s.mem, r, i) == ZERO
    ensures Booting(s, r, 0, 0, first)
  {
    forall k | 0 <= k < 0x10000 ensures Clone.Empty(s, r, DirectPath(k)) {
      NewIsEmpty(s, r, DirectPath(k));
    }
    forall k | 0 <= k < 1024 ensures Clone.Empty(s, r, SectionPath(k)) {
      NewIsEmpty(s, r, SectionPath(k));
    }
    NewIsEmpty(s, r, USER_PATH);
  }

  // ---- What addresses mean

  function Bytes(size: PageSize): nat {
    match size
    case Size4K => PAGE_SIZE
    case Size2M => MB2
    case Size1G => GB
  }

  /** The physical address of a virtual one. */
  function PhysOf(mem: Memory, r: Frame, addr: nat): Option<nat> {
    match Walk(mem, r, PathOf(addr))
    case Absent => None
    case Mapped(size, f, _, _, _) => Some(f * PAGE_SIZE + addr % Bytes(size))
  }

  /** Every physical address below 64 TB is at its place in the direct mapping, for the kernel to
      read and write. */
  lemma DirectMapping(s: Snap, r: Frame, sections: nat, first: Frame, user: Option<Frame>, x: nat)
    requires Means(s, r, 0x10000, sections, first, user) && x < 0x4000_0000_0000
    ensures PhysToVirt(x) == 0xffff_8880_0000_0000 + x && PhysOf(s.mem, r, PhysToVirt(x)) == Some(x)
    ensures var w := Walk(s.mem, r, PathOf(PhysToVirt(x))); w.write && !w.user
  {
    DirectAddress(x, x / GB);
    var va := PathOf(PhysToVirt(x));
    assert IsDirect(0x10000, va) && (va.m - 273) * 512 + va.p == x / GB;
  }

  lemma DirectAddress(x: nat, k: nat)
    requires x < KERNEL_DIRECT_PHYS_MAPPING_SIZE && k == x / GB
    ensures var a := PhysToVirt(x);
      && a % GB == x % GB && InBounds(PathOf(a))
      && PathOf(a).m == 273 + k / 512 && PathOf(a).p == k % 512
  {
    var a := KERNEL_DIRECT_PHYS_MAPPING_START + x;
    MadeAddrOfIndices(a);
    Levels(a);
    assert a / 0x4000_0000 == 0x3_fffe_2200 + k;
  }

  /** Every byte of the kernel's sections is where the kernel was linked to find it, for the kernel to read
      and write. */
  lemma SectionMapping(s: Snap, r: Frame, sections: nat, physStart: nat, user: Option<Frame>, x: nat)
    requires Means(s, r, 0x10000, sections, physStart / PAGE_SIZE, user) && physStart % MB2 == 0
    requires sections <= 1024 && x < sections * 0x20_0000
    ensures PhysOf(s.mem, r, 0xffff_ffff_8000_0000 + x) == Some(physStart + x)
    ensures var w := Walk(s.mem, r, PathOf(0xffff_ffff_8000_0000 + x)); w.write && !w.user
  {
    SectionAddress(x, x / MB2);
    var va := PathOf(KERNEL_SECTIONS_START + x);
    assert IsSection(sections, va) && (va.p - 510) * 512 + va.d == x / MB2;
    SectionByte(physStart, physStart / PAGE_SIZE, x, x / MB2);
  }

  /** Every byte of the first task's code is at 0x10000, for users to read. */
  lemma UserMapping(s: Snap, r: Frame, sections: nat, first: Frame, physUser: nat, x: nat)
    requires Means(s, r, 0x10000, sections, first, Some(physUser / PAGE_SIZE)) && physUser % PAGE_SIZE == 0
    requires x < 0x1000
    ensures PhysOf(s.mem, r, 0x10000 + x) == Some(physUser + x)
    ensures var w := Walk(s.mem, r, PathOf(0x10000 + x)); w.user && !w.write && !w.alloc
  {
    UserAddress(x);
  }

  lemma UserAddress(x: nat)
    requires x < 0x1000
    ensures PathOf(0x10000 + x) == USER_PATH && (0x10000 + x) % PAGE_SIZE == x
  {
  }

  lemma SectionByte(physStart: nat, first: nat, x: nat, k: nat)
    requires physStart % MB2 == 0 && first == physStart / PAGE_SIZE && k == x / MB2
    ensures (first + k * 512) * PAGE_SIZE + x % MB2 == physStart + x
  {
    StartFrame(physStart, physStart / MB2);
    assert x == k * MB2 + x % MB2;
  }

  lemma StartFrame(physStart: nat, b: nat)
    requires physStart % MB2 == 0 && b == physStart / MB2
    ensures physStart == b * MB2 && physStart / PAGE_SIZE == b * 512
  {
  }

  lemma SectionAddress(x: nat, k: nat)
    requires x < KERNEL_SECTIONS_SIZE && k == x / MB2
    ensures var a := KERNEL_SECTIONS_START + x;
      && a % MB2 == x % MB2 && InBounds(PathOf(a))
      && PathOf(a).m == 511 && PathOf(a).p == 510 + k / 512 && PathOf(a).d == k % 512
  {
    var a := KERNEL_SECTIONS_START + x;
    MadeAddrOfIndices(a);
    Levels(a);
    assert a / 0x20_0000 == 0x7ff_ffff_fc00 + k;
  }
}
