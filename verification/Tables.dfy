/** Page tables in physical memory (mm/paging.h, mm/vmem.c) and what they mean: the walk of the
    Intel SDM, volume 3A, section 4.5, and the access rights of section 4.6. */
module Tables {

  /** A 64-bit word seen as a page table entry.  `frame` is the physical frame number in bits 12
      to 47 and `rest` holds the bits the kernel gives no meaning to. */
  datatype Entry<F> = Entry(present: bool, write: bool, user: bool, large: bool, alloc: bool, frame: F, rest: bv64)

  /** Frames are named by number. */
  type Frame = nat
  type Pte = Entry<Frame>
  type Page = p: seq<Pte> | |p| == 512 witness seq(512, _ => ZERO)

  const ZERO: Pte := Entry(false, false, false, false, false, 0, 0)
  function ZeroPage(): Page {
    seq(512, _ => ZERO)
  }

  type Memory = map<Frame, Page>

  /** A place in the tree of tables of one address space, by the indices that lead to it. */
  datatype Path = P0 | P1(m: nat) | P2(m: nat, p: nat) | P3(m: nat, p: nat, d: nat) | P4(m: nat, p: nat, d: nat, t: nat)

  function Child(q: Path, i: nat): Path
    requires !q.P4?
  {
    match q
    case P0 => P1(i)
    case P1(m) => P2(m, i)
    case P2(m, p) => P3(m, p, i)
    case P3(m, p, d) => P4(m, p, d, i)
  }

  function Parent(q: Path): Path
    requires !q.P0?
  {
    match q
    case P1(_) => P0
    case P2(m, _) => P1(m)
    case P3(m, p, _) => P2(m, p)
    case P4(m, p, d, _) => P3(m, p, d)
  }

  function Last(q: Path): nat
    requires !q.P0?
  {
    match q
    case P1(m) => m
    case P2(_, p) => p
    case P3(_, _, d) => d
    case P4(_, _, _, t) => t
  }

  lemma ParentOfChild(q: Path, i: nat)
    requires !q.P4?
    ensures !Child(q, i).P0? && Parent(Child(q, i)) == q && Last(Child(q, i)) == i
  {
  }

  lemma ParentAndLast(q: Path)
    requires !q.P0?
    ensures !Parent(q).P4? && Child(Parent(q), Last(q)) == q && (InBounds(q) ==> Last(q) < 512)
  {
  }

  predicate InBounds(q: Path) {
    match q
    case P0 => true
    case P1(m) => m < 512
    case P2(m, p) => m < 512 && p < 512
    case P3(m, p, d) => m < 512 && p < 512 && d < 512
    case P4(m, p, d, t) => m < 512 && p < 512 && d < 512 && t < 512
  }

  /** `q` lies on the way to the page `va`. */
  predicate OnWay(q: Path, va: Path)
    requires va.P4?
  {
    match q
    case P0 => true
    case P1(m) => m == va.m
    case P2(m, p) => m == va.m && p == va.p
    case P3(m, p, d) => m == va.m && p == va.p && d == va.d
    case P4(_, _, _, _) => q == va
  }

  // ---- What the tables mean

  datatype PageSize = Size4K | Size2M | Size1G

  /** What the processor makes of a page: the leaf entry's frame and its own flags. */
  datatype Translation = Absent | Mapped(size: PageSize, frame: Frame, user: bool, write: bool, alloc: bool)

  function Leaf(size: PageSize, e: Pte): Translation {
    Mapped(size, e.frame, e.user, e.write, e.alloc)
  }

  function Read(mem: Memory, f: Frame, i: nat): Pte {
    if f in mem && i < 512 then mem[f][i] else ZERO
  }

  function Walk(mem: Memory, root: Frame, va: Path): Translation
    requires va.P4?
  {
    var e1 := Read(mem, root, va.m);
    if !e1.present then Absent else WalkPdpt(mem, e1.frame, va)
  }

  function WalkPdpt(mem: Memory, pdpt: Frame, va: Path): Translation
    requires va.P4?
  {
    var e2 := Read(mem, pdpt, va.p);
    if !e2.present then Absent else if e2.large then Leaf(Size1G, e2) else WalkDir(mem, e2.frame, va)
  }

  function WalkDir(mem: Memory, dir: Frame, va: Path): Translation
    requires va.P4?
  {
    var e3 := Read(mem, dir, va.d);
    if !e3.present then Absent else if e3.large then Leaf(Size2M, e3) else WalkTable(mem, e3.frame, va)
  }

  function WalkTable(mem: Memory, table: Frame, va: Path): Translation
    requires va.P4?
  {
    var e4 := Read(mem, table, va.t);
    if !e4.present then Absent else Leaf(Size4K, e4)
  }

  /** The rights of section 4.6: a bit counts only if every entry on the way has it. */
  function Effective(mem: Memory, root: Frame, va: Path, right: Pte -> bool): bool
    requires va.P4?
  {
    var e1 := Read(mem, root, va.m);
    var e2 := Read(mem, e1.frame, va.p);
    var e3 := Read(mem, e2.frame, va.d);
    var e4 := Read(mem, e3.frame, va.t);
    && e1.present && right(e1) && e2.present && right(e2)
    && (e2.large || (e3.present && right(e3) && (e3.large || (e4.present && right(e4)))))
  }

  // ---- Which frame is what

  /** What an allocated frame is used for: a table or a data page of the space with PML4 `root`, at
      a path and entered in the table `up`; or something outside the address spaces. */
  datatype Owner = Table(root: Frame, at: Path, up: Frame) | Data(root: Frame, at: Path, up: Frame) | Other

  type Owners = map<Frame, Owner>

  predicate IsTable(owner: Owners, root: Frame, at: Path, f: Frame) {
    f in owner && owner[f].Table? && owner[f].root == root && owner[f].at == at
  }

  /** An entry of a table points where the owners say. */
  ghost predicate EntryOk(mem: Memory, owner: Owners, f: Frame, i: nat) {
    f in owner && owner[f].Table? && !owner[f].at.P4? ==>
      var e := Read(mem, f, i);
      var o := owner[f];
      if !e.present then e == ZERO
      else if o.at.P3? then
        !e.large && (e.alloc ==> e.frame in owner && owner[e.frame] == Data(o.root, Child(o.at, i), f))
      else if e.large then !o.at.P0?
      else e.frame in owner && owner[e.frame] == Table(o.root, Child(o.at, i), f)
  }

  /** A table or data page is entered where its owner says. */
  ghost predicate OwnerOk(mem: Memory, owner: Owners, g: Frame) {
    g in owner && !owner[g].Other? ==>
      var o := owner[g];
      && InBounds(o.at)
      && o.root in owner && owner[o.root] == Table(o.root, P0, o.root)
      && (o.at.P0? ==> o.Table? && g == o.root)
      && (!o.at.P0? ==>
            && o.at.P4? == o.Data?
            && IsTable(owner, o.root, Parent(o.at), o.up)
            && var e := Read(mem, o.up, Last(o.at)); e.present && !e.large && e.frame == g && (o.Data? ==> e.alloc))
  }

  /** An entry allows nothing the entry above it does not. */
  predicate Within(e: Pte, above: Pte) {
    (e.user ==> above.user) && (e.write ==> above.write)
  }

  ghost predicate RightOk(mem: Memory, owner: Owners, g: Frame, j: nat) {
    g in owner && owner[g].Table? && !owner[g].at.P0? ==>
      Within(Read(mem, g, j), Read(mem, owner[g].up, Last(owner[g].at)))
  }

  ghost predicate RightsOk(mem: Memory, owner: Owners, g: Frame) {
    forall j: nat :: j < 512 ==> RightOk(mem, owner, g, j)
  }

  /** The tables in memory form one tree for each address space, with no frame in two places, and
      rights only shrink on the way down. */
  ghost predicate Trees(mem: Memory, owner: Owners) {
    && owner.Keys <= mem.Keys
    && (forall f, i: nat :: f in owner && i < 512 ==> EntryOk(mem, owner, f, i))
    && (forall g :: g in owner ==> OwnerOk(mem, owner, g))
    && (forall g :: g in owner ==> RightsOk(mem, owner, g))
  }

  predicate IsRoot(owner: Owners, r: Frame) {
    IsTable(owner, r, P0, r)
  }

  /** The tables on the way to a page, as far as they go. */
  lemma WayDown(mem: Memory, owner: Owners, r: Frame, va: Path)
    requires Trees(mem, owner) && IsRoot(owner, r) && va.P4? && InBounds(va)
    ensures var e1 := Read(mem, r, va.m); e1.present ==>
      && IsTable(owner, r, P1(va.m), e1.frame)
      && var e2 := Read(mem, e1.frame, va.p); e2.present && !e2.large ==>
        && IsTable(owner, r, P2(va.m, va.p), e2.frame)
        && var e3 := Read(mem, e2.frame, va.d); e3.present && !e3.large ==>
          && IsTable(owner, r, P3(va.m, va.p, va.d), e3.frame)
          && !Read(mem, e3.frame, va.t).large
  {
    assert EntryOk(mem, owner, r, va.m);
    var e1 := Read(mem, r, va.m);
    if e1.present {
      assert EntryOk(mem, owner, e1.frame, va.p);
      var e2 := Read(mem, e1.frame, va.p);
      if e2.present && !e2.large {
        assert EntryOk(mem, owner, e2.frame, va.d);
        var e3 := Read(mem, e2.frame, va.d);
        if e3.present && !e3.large {
          assert EntryOk(mem, owner, e3.frame, va.t);
        }
      }
    }
  }

  /** The rights the processor grants for a mapped page are those of its leaf entry. */
  lemma EffectiveRights(mem: Memory, owner: Owners, r: Frame, va: Path)
    requires Trees(mem, owner) && IsRoot(owner, r) && va.P4? && InBounds(va) && Walk(mem, r, va).Mapped?
    ensures Effective(mem, r, va, (e: Pte) => e.user) == Walk(mem, r, va).user
    ensures Effective(mem, r, va, (e: Pte) => e.write) == Walk(mem, r, va).write
  {
    WayDown(mem, owner, r, va);
    var e1 := Read(mem, r, va.m);
    assert EntryOk(mem, owner, r, va.m) && RightsOk(mem, owner, e1.frame) && RightOk(mem, owner, e1.frame, va.p);
    var e2 := Read(mem, e1.frame, va.p);
    assert Within(e2, e1);
    if !e2.large {
      assert EntryOk(mem, owner, e1.frame, va.p);
      assert RightsOk(mem, owner, e2.frame) && RightOk(mem, owner, e2.frame, va.d);
      var e3 := Read(mem, e2.frame, va.d);
      assert Within(e3, e2);
      if !e3.large {
        assert EntryOk(mem, owner, e2.frame, va.d);
        assert RightsOk(mem, owner, e3.frame) && RightOk(mem, owner, e3.frame, va.t);
        assert Within(Read(mem, e3.frame, va.t), e3);
      }
    }
  }
}
