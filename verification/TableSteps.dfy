/** What one write to a page table does to the tree of tables and to the translations. */
module TableSteps {
  import opened Tables

  /** The PTE bits vmem_convert_flags produces. */
  datatype Flags = Flags(user: bool, write: bool, alloc: bool)

  /** `tbl[idx] |= raw_flags` */
  function OrFlags<F>(e: Entry<F>, flags: Flags): Entry<F> {
    e.(user := e.user || flags.user, write := e.write || flags.write, alloc := e.alloc || flags.alloc)
  }

  /** `frame | PTE_PRESENT | flags`, with PTE_PAGE_SIZE for a large page */
  function MakeEntry<F>(frame: F, large: bool, flags: Flags): Entry<F> {
    Entry(true, flags.write, flags.user, large, flags.alloc, frame, 0)
  }

  predicate Allows(e: Pte, flags: Flags) {
    (flags.user ==> e.user) && (flags.write ==> e.write)
  }

  datatype Snap = Snap(mem: Memory, owner: Owners)

  ghost predicate Sound(s: Snap) {
    Trees(s.mem, s.owner)
  }

  function WriteEntry(mem: Memory, f: Frame, i: nat, e: Pte): (mem': Memory)
    requires f in mem && i < 512
  {
    mem[f := mem[f][i := e]]
  }

  /** `x` is on the way to `y`. */
  predicate Prefix(x: Path, y: Path) {
    x.P0? || (!y.P0? && x.m == y.m &&
    (x.P1? || (!y.P1? && x.p == y.p &&
    (x.P2? || (!y.P2? && x.d == y.d &&
    (x.P3? || (!y.P3? && x.t == y.t)))))))
  }

  /** `x` is on the way to `y`, or below it if `deep`. */
  predicate Near(x: Path, y: Path, deep: bool) {
    Prefix(x, y) || (deep && Prefix(y, x))
  }

  /** From `a` to `b`, the space `r` got new tables and new entries only on the way to the path
      `q`, or also below it if `deep`; nothing else changed. */
  ghost predicate Grown(a: Snap, b: Snap, r: Frame, q: Path, deep: bool := false) {
    && (forall f :: f in a.owner ==>
          f in b.owner && (b.owner[f] == a.owner[f] || (a.owner[f].Other? && b.owner[f].Data?)))
    && (forall f :: f in b.owner && !(f in a.owner && b.owner[f] == a.owner[f]) ==> NewOwner(b.owner[f], r, q, deep))
    && (forall f, i :: f in b.owner && 0 <= i < 512 && b.owner[f].Table? ==> EntryGrown(a, b, r, q, deep, f, i))
    && (forall f :: f in a.owner && !a.owner[f].Table? ==> f in a.mem && f in b.mem && b.mem[f] == a.mem[f])
  }

  predicate NewOwner(o: Owner, r: Frame, q: Path, deep: bool) {
    o.Other? || (o.root == r && !o.at.P0? && Near(o.at, q, deep))
  }

  ghost predicate EntryGrown(a: Snap, b: Snap, r: Frame, q: Path, deep: bool, f: Frame, i: nat)
    requires f in b.owner && b.owner[f].Table?
  {
    || (b.owner[f].root == r && !b.owner[f].at.P4? && Near(Child(b.owner[f].at, i), q, deep))
    || Read(b.mem, f, i) == if f in a.owner then Read(a.mem, f, i) else ZERO
  }

  lemma GrownTransitive(a: Snap, b: Snap, c: Snap, r: Frame, q: Path, deep: bool)
    requires Grown(a, b, r, q, deep) && Grown(b, c, r, q, deep)
    ensures Grown(a, c, r, q, deep)
  {
    forall f, i | f in c.owner && 0 <= i < 512 && c.owner[f].Table?
      ensures EntryGrown(a, c, r, q, deep, f, i)
    {
      assert EntryGrown(b, c, r, q, deep, f, i);
      if f in b.owner && b.owner[f].Table? { assert EntryGrown(a, b, r, q, deep, f, i); }
    }
  }

  lemma GrownWider(a: Snap, b: Snap, r: Frame, q: Path, deep: bool, q': Path, deep': bool)
    requires Grown(a, b, r, q, deep) && forall x :: Near(x, q, deep) ==> Near(x, q', deep')
    ensures Grown(a, b, r, q', deep')
  {
    forall f, i | f in b.owner && 0 <= i < 512 && b.owner[f].Table?
      ensures EntryGrown(a, b, r, q', deep', f, i)
    {
      assert EntryGrown(a, b, r, q, deep, f, i);
    }
  }

  // ---- Translations that a step leaves alone

  /** The entry means the same before and after: it is unchanged, or points to the same table, or
      was absent and now points to an empty table. */
  ghost predicate Quiet(a: Snap, b: Snap, f: Frame, i: nat)
    requires f in a.owner && a.owner[f].Table?
  {
    var e, e' := Read(a.mem, f, i), Read(b.mem, f, i);
    || e == e'
    || (!a.owner[f].at.P3? && e'.present && !e'.large &&
        ((e.present && !e.large && e'.frame == e.frame) ||
         (!e.present && forall j: nat :: j < 512 ==> !Read(b.mem, e'.frame, j).present)))
  }

  ghost predicate QuietWay(a: Snap, b: Snap, r: Frame, va: Path)
    requires va.P4?
  {
    forall f, i ::
      f in a.owner && 0 <= i < 512 && a.owner[f].Table? && a.owner[f].root == r && !a.owner[f].at.P4? &&
      OnWay(Child(a.owner[f].at, i), va) ==>
        Quiet(a, b, f, i)
  }

  lemma QuietWalk(a: Snap, b: Snap, r: Frame, va: Path)
    requires Sound(a) && IsRoot(a.owner, r) && va.P4? && InBounds(va) && QuietWay(a, b, r, va)
    ensures Walk(b.mem, r, va) == Walk(a.mem, r, va)
  {
    WayDown(a.mem, a.owner, r, va);
    assert Quiet(a, b, r, va.m);
    var e1 := Read(a.mem, r, va.m);
    if e1.present {
      assert Quiet(a, b, e1.frame, va.p);
      var e2 := Read(a.mem, e1.frame, va.p);
      if e2.present && !e2.large {
        assert Quiet(a, b, e2.frame, va.d);
        var e3 := Read(a.mem, e2.frame, va.d);
        if e3.present && !e3.large {
          assert Quiet(a, b, e3.frame, va.t);
        }
      }
    }
  }

  /** No page of any address space translates differently. */
  ghost predicate SameWalks(a: Snap, b: Snap) {
    forall r: Frame, va: Path :: IsRoot(a.owner, r) && va.P4? && InBounds(va) ==>
      Walk(b.mem, r, va) == Walk(a.mem, r, va)
  }

  // ---- What one entry, one owner and one right need

  ghost predicate PlaceOk(s: Snap, h: Frame, j: nat) {
    EntryOk(s.mem, s.owner, h, j) && OwnerOk(s.mem, s.owner, h) && RightOk(s.mem, s.owner, h, j)
  }

  /** The entry, the owner and the rights of the frame `h`, taken out of the trees. */
  lemma SoundAt(s: Snap, h: Frame, j: nat)
    requires Sound(s) && h in s.owner && j < 512
    ensures PlaceOk(s, h, j) && h in s.mem
  {
    assert RightsOk(s.mem, s.owner, h);
  }

  /** A table is not the one it is entered in. */
  lemma UpDiffers(s: Snap, h: Frame)
    requires h in s.owner && OwnerOk(s.mem, s.owner, h) && !s.owner[h].Other? && !s.owner[h].at.P0?
    ensures s.owner[h].up != h
  {
  }

  /** The spaces have the same tables, with the same entries, and the same data pages. */
  ghost predicate SameSpaces(a: Snap, b: Snap) {
    && (forall f :: f in a.owner && !a.owner[f].Other? ==> f in b.owner && b.owner[f] == a.owner[f])
    && (forall f :: f in b.owner && !b.owner[f].Other? ==> f in a.owner && b.owner[f] == a.owner[f])
    && (forall f, i: nat :: f in a.owner && a.owner[f].Table? && i < 512 ==> Read(b.mem, f, i) == Read(a.mem, f, i))
  }

  lemma SpacesAt(a: Snap, b: Snap, h: Frame, j: nat)
    requires Sound(a) && SameSpaces(a, b) && h in b.owner && j < 512
    ensures PlaceOk(b, h, j)
  {
    if !b.owner[h].Other? {
      SoundAt(a, h, j);
      if !a.owner[h].at.P0? { SoundAt(a, a.owner[h].up, Last(a.owner[h].at)); }
    }
  }

  /** What happens to frames outside the spaces is nothing to the spaces. */
  lemma SpacesSound(a: Snap, b: Snap)
    requires Sound(a) && SameSpaces(a, b) && b.owner.Keys <= b.mem.Keys
    ensures Sound(b)
  {
    forall h, j: nat | h in b.owner && j < 512 ensures PlaceOk(b, h, j) {
      SpacesAt(a, b, h, j);
    }
    SoundFrom(b);
  }

  lemma SpacesWalks(a: Snap, b: Snap)
    requires Sound(a) && SameSpaces(a, b)
    ensures SameWalks(a, b)
  {
    forall r: Frame, va: Path | IsRoot(a.owner, r) && va.P4? && InBounds(va)
      ensures Walk(b.mem, r, va) == Walk(a.mem, r, va)
    {
      QuietWalk(a, b, r, va);
    }
  }

  // ---- vmem_ensure_next_table on a present entry

  function Raised(s: Snap, f: Frame, i: nat, flags: Flags): Snap
    requires f in s.mem && i < 512
  {
    s.(mem := WriteEntry(s.mem, f, i, OrFlags(s.mem[f][i], flags)))
  }

  /** Entry `i` of table `f` is present, above the page tables, and the flags are allowed there. */
  predicate CanRaise(s: Snap, f: Frame, i: nat, flags: Flags) {
    && f in s.mem && f in s.owner && s.owner[f].Table? && i < 512
    && !s.owner[f].at.P3? && Read(s.mem, f, i).present
    && (!s.owner[f].at.P0? ==> Allows(Read(s.mem, s.owner[f].up, Last(s.owner[f].at)), flags))
  }

  lemma OrEntry(s: Snap, f: Frame, i: nat, flags: Flags, g: Frame, j: nat)
    requires CanRaise(s, f, i, flags) && EntryOk(s.mem, s.owner, g, j)
    ensures EntryOk(Raised(s, f, i, flags).mem, s.owner, g, j)
  {
  }

  lemma OrOwner(s: Snap, f: Frame, i: nat, flags: Flags, g: Frame)
    requires CanRaise(s, f, i, flags) && OwnerOk(s.mem, s.owner, g)
    ensures OwnerOk(Raised(s, f, i, flags).mem, s.owner, g)
  {
  }

  lemma OrRight(s: Snap, f: Frame, i: nat, flags: Flags, g: Frame, j: nat)
    requires CanRaise(s, f, i, flags) && OwnerOk(s.mem, s.owner, g) && RightOk(s.mem, s.owner, g, j)
    ensures RightOk(Raised(s, f, i, flags).mem, s.owner, g, j)
  {
    if g in s.owner && s.owner[g].Table? && !s.owner[g].at.P0? { UpDiffers(s, g); }
  }

  lemma OrSound(s: Snap, f: Frame, i: nat, flags: Flags)
    requires Sound(s) && CanRaise(s, f, i, flags)
    ensures Sound(Raised(s, f, i, flags))
  {
    forall g, j: nat | g in s.owner && j < 512 ensures PlaceOk(Raised(s, f, i, flags), g, j) {
      SoundAt(s, g, j);
      OrEntry(s, f, i, flags, g, j);
      OrOwner(s, f, i, flags, g);
      OrRight(s, f, i, flags, g, j);
    }
    SoundFrom(Raised(s, f, i, flags));
  }

  /** The trees put together again. */
  lemma SoundFrom(s: Snap)
    requires s.owner.Keys <= s.mem.Keys
    requires forall g, j: nat :: g in s.owner && j < 512 ==> PlaceOk(s, g, j)
    ensures Sound(s)
  {
    forall g, j: nat | g in s.owner && j < 512 ensures EntryOk(s.mem, s.owner, g, j) {
      assert PlaceOk(s, g, j);
    }
    forall g | g in s.owner ensures OwnerOk(s.mem, s.owner, g) {
      assert PlaceOk(s, g, 0);
    }
    forall g, j: nat | g in s.owner && j < 512 ensures RightOk(s.mem, s.owner, g, j) {
      assert PlaceOk(s, g, j);
    }
    assert forall g :: g in s.owner ==> RightsOk(s.mem, s.owner, g);
  }

  lemma OrWalks(s: Snap, f: Frame, i: nat, flags: Flags)
    requires Sound(s) && CanRaise(s, f, i, flags) && !Read(s.mem, f, i).large
    ensures SameWalks(s, Raised(s, f, i, flags))
  {
    var s' := Raised(s, f, i, flags);
    forall r: Frame, va: Path | IsRoot(s.owner, r) && va.P4? && InBounds(va)
      ensures Walk(s'.mem, r, va) == Walk(s.mem, r, va)
    {
      SoundAt(s, f, i);
      OrQuiet(s, f, i, flags, r, va);
      QuietWalk(s, s', r, va);
    }
  }

  lemma OrQuiet(s: Snap, f: Frame, i: nat, flags: Flags, r: Frame, va: Path)
    requires CanRaise(s, f, i, flags) && va.P4? && !s.owner[f].at.P4?
    requires Read(s.mem, f, i).large ==> !(r == s.owner[f].root && OnWay(Child(s.owner[f].at, i), va))
    ensures QuietWay(s, Raised(s, f, i, flags), r, va)
  {
  }

  function SizeAt(q: Path): PageSize
    requires q.P2? || q.P3? || q.P4?
  {
    if q.P2? then Size1G else if q.P3? then Size2M else Size4K
  }

  /** The pages of space `r` below the path `q` translate to `w`, and all others as before. */
  ghost predicate Becomes(a: Snap, b: Snap, r: Frame, q: Path, w: Translation) {
    forall r': Frame, va: Path :: IsRoot(a.owner, r') && va.P4? && InBounds(va) ==>
      Walk(b.mem, r', va) == if r' == r && OnWay(q, va) then w else Walk(a.mem, r', va)
  }

  /** Raising the flags of a large page changes the rights of its whole range, and of nothing else. */
  lemma OrLarge(s: Snap, f: Frame, i: nat, flags: Flags)
    requires Sound(s) && CanRaise(s, f, i, flags) && Read(s.mem, f, i).large
    ensures s.owner[f].at.P1? || s.owner[f].at.P2?
    ensures var q := Child(s.owner[f].at, i);
      Becomes(s, Raised(s, f, i, flags), s.owner[f].root, q, Leaf(SizeAt(q), OrFlags(Read(s.mem, f, i), flags)))
  {
    SoundAt(s, f, i);
    var s', q := Raised(s, f, i, flags), Child(s.owner[f].at, i);
    forall r: Frame, va: Path | IsRoot(s.owner, r) && va.P4? && InBounds(va)
      ensures Walk(s'.mem, r, va) ==
        if r == s.owner[f].root && OnWay(q, va) then Leaf(SizeAt(q), OrFlags(Read(s.mem, f, i), flags))
        else Walk(s.mem, r, va)
    {
      if r == s.owner[f].root && OnWay(q, va) {
        OrLargeWalk(s, f, i, flags, va);
      } else {
        OrQuiet(s, f, i, flags, r, va);
        QuietWalk(s, s', r, va);
      }
    }
  }

  lemma OrLargeWalk(s: Snap, f: Frame, i: nat, flags: Flags, va: Path)
    requires Sound(s) && CanRaise(s, f, i, flags) && Read(s.mem, f, i).large && va.P4?
    requires (s.owner[f].at.P1? || s.owner[f].at.P2?) && OnWay(Child(s.owner[f].at, i), va)
    ensures Walk(Raised(s, f, i, flags).mem, s.owner[f].root, va) ==
            Leaf(SizeAt(Child(s.owner[f].at, i)), OrFlags(Read(s.mem, f, i), flags))
  {
    var s' := Raised(s, f, i, flags);
    WayAcross(s, s'.mem, f, i, va);
    assert Read(s'.mem, f, i) == OrFlags(Read(s.mem, f, i), flags);
  }

  lemma OrGrows(s: Snap, f: Frame, i: nat, flags: Flags)
    requires CanRaise(s, f, i, flags) && !s.owner[f].at.P4? && s.owner.Keys <= s.mem.Keys
    ensures Grown(s, Raised(s, f, i, flags), s.owner[f].root, Child(s.owner[f].at, i))
  {
  }

  /** Raising the flags of an entry keeps the trees.  All translations stay if the entry points to a
      table; if it is a large page, exactly its range gets the flags. */
  lemma OrKeeps(s: Snap, f: Frame, i: nat, flags: Flags)
    requires Sound(s) && CanRaise(s, f, i, flags)
    ensures !s.owner[f].at.P4? && !(Read(s.mem, f, i).large && s.owner[f].at.P0?)
    ensures var s' := Raised(s, f, i, flags); Sound(s') && Grown(s, s', s.owner[f].root, Child(s.owner[f].at, i))
    ensures var s', q, e := Raised(s, f, i, flags), Child(s.owner[f].at, i), Read(s.mem, f, i);
      if e.large then Becomes(s, s', s.owner[f].root, q, Leaf(SizeAt(q), OrFlags(e, flags))) else SameWalks(s, s')
  {
    SoundAt(s, f, i);
    OrSound(s, f, i, flags);
    if Read(s.mem, f, i).large { OrLarge(s, f, i, flags); } else { OrWalks(s, f, i, flags); }
    OrGrows(s, f, i, flags);
  }

  // ---- vmem_ensure_next_table on an absent entry

  function Linked(s: Snap, f: Frame, i: nat, g: Frame, flags: Flags): Snap
    requires f in s.mem && f in s.owner && s.owner[f].Table? && !s.owner[f].at.P4? && i < 512
  {
    Snap(WriteEntry(s.mem[g := ZeroPage()], f, i, MakeEntry(g, false, flags)),
         s.owner[g := Table(s.owner[f].root, Child(s.owner[f].at, i), f)])
  }

  /** Entry `i` of table `f` is absent, `g` is a new frame, and the flags are allowed there. */
  predicate MayLink(s: Snap, f: Frame, i: nat, g: Frame, flags: Flags) {
    && f in s.mem && f in s.owner && s.owner[f].Table? && i < 512 && g !in s.owner
    && !s.owner[f].at.P3? && !s.owner[f].at.P4? && !Read(s.mem, f, i).present
    && (!s.owner[f].at.P0? ==> Allows(Read(s.mem, s.owner[f].up, Last(s.owner[f].at)), flags))
  }

  ghost predicate CanLink(s: Snap, f: Frame, i: nat, g: Frame, flags: Flags) {
    Sound(s) && MayLink(s, f, i, g, flags)
  }

  lemma LinkEntry(s: Snap, f: Frame, i: nat, g: Frame, flags: Flags, h: Frame, j: nat)
    requires MayLink(s, f, i, g, flags) && (h != g ==> EntryOk(s.mem, s.owner, h, j)) && j < 512
    ensures EntryOk(Linked(s, f, i, g, flags).mem, Linked(s, f, i, g, flags).owner, h, j)
  {
  }

  lemma LinkOwner(s: Snap, f: Frame, i: nat, g: Frame, flags: Flags, h: Frame)
    requires MayLink(s, f, i, g, flags) && OwnerOk(s.mem, s.owner, f) && (h != g ==> OwnerOk(s.mem, s.owner, h))
    ensures OwnerOk(Linked(s, f, i, g, flags).mem, Linked(s, f, i, g, flags).owner, h)
  {
  }

  lemma LinkRight(s: Snap, f: Frame, i: nat, g: Frame, flags: Flags, h: Frame, j: nat)
    requires MayLink(s, f, i, g, flags) && j < 512
    requires h != g ==> OwnerOk(s.mem, s.owner, h) && RightOk(s.mem, s.owner, h, j)
    ensures RightOk(Linked(s, f, i, g, flags).mem, Linked(s, f, i, g, flags).owner, h, j)
  {
    if h != g && h in s.owner && s.owner[h].Table? && !s.owner[h].at.P0? {
      UpDiffers(s, h);
    }
  }

  lemma LinkSound(s: Snap, f: Frame, i: nat, g: Frame, flags: Flags)
    requires CanLink(s, f, i, g, flags)
    ensures Sound(Linked(s, f, i, g, flags))
  {
    var s' := Linked(s, f, i, g, flags);
    forall h, j: nat | h in s'.owner && j < 512 ensures PlaceOk(s', h, j) {
      LinkAt(s, f, i, g, flags, h, j);
    }
    SoundFrom(s');
  }

  lemma LinkAt(s: Snap, f: Frame, i: nat, g: Frame, flags: Flags, h: Frame, j: nat)
    requires CanLink(s, f, i, g, flags) && h in Linked(s, f, i, g, flags).owner && j < 512
    ensures PlaceOk(Linked(s, f, i, g, flags), h, j)
  {
    SoundAt(s, f, i);
    if h != g { SoundAt(s, h, j); }
    LinkEntry(s, f, i, g, flags, h, j);
    LinkOwner(s, f, i, g, flags, h);
    LinkRight(s, f, i, g, flags, h, j);
  }

  lemma LinkWalks(s: Snap, f: Frame, i: nat, g: Frame, flags: Flags)
    requires CanLink(s, f, i, g, flags)
    ensures SameWalks(s, Linked(s, f, i, g, flags))
  {
    var s' := Linked(s, f, i, g, flags);
    forall r: Frame, va: Path | IsRoot(s.owner, r) && va.P4? && InBounds(va)
      ensures Walk(s'.mem, r, va) == Walk(s.mem, r, va)
    {
      LinkQuiet(s, f, i, g, flags, r, va);
      QuietWalk(s, s', r, va);
    }
  }

  lemma LinkQuiet(s: Snap, f: Frame, i: nat, g: Frame, flags: Flags, r: Frame, va: Path)
    requires MayLink(s, f, i, g, flags) && va.P4?
    ensures QuietWay(s, Linked(s, f, i, g, flags), r, va)
  {
  }

  lemma LinkGrows(s: Snap, f: Frame, i: nat, g: Frame, flags: Flags)
    requires MayLink(s, f, i, g, flags) && s.owner.Keys <= s.mem.Keys
    ensures Grown(s, Linked(s, f, i, g, flags), s.owner[f].root, Child(s.owner[f].at, i))
  {
  }

  /** Entering a new, cleared table keeps the trees and all translations. */
  lemma LinkKeeps(s: Snap, f: Frame, i: nat, g: Frame, flags: Flags)
    requires CanLink(s, f, i, g, flags)
    ensures var s' := Linked(s, f, i, g, flags);
      Sound(s') && SameWalks(s, s') && Grown(s, s', s.owner[f].root, Child(s.owner[f].at, i))
  {
    LinkSound(s, f, i, g, flags);
    LinkWalks(s, f, i, g, flags);
    LinkGrows(s, f, i, g, flags);
  }

  // ---- Writing a leaf entry

  /** Write the leaf for path `q` = Child(at, i) of table `f`; a frame marked as allocated becomes a
      data page of the space. */
  function WithLeaf(s: Snap, f: Frame, i: nat, g: Frame, flags: Flags): Snap
    requires f in s.mem && f in s.owner && s.owner[f].Table? && !s.owner[f].at.P4? && i < 512
  {
    var o := s.owner[f];
    Snap(WriteEntry(s.mem, f, i, MakeEntry(g, !o.at.P3?, flags)),
         if o.at.P3? && flags.alloc then s.owner[g := Data(o.root, Child(o.at, i), f)] else s.owner)
  }

  /** Entry `i` of table `f` may become a leaf for frame `g` with these flags. */
  predicate MaySetLeaf(s: Snap, f: Frame, i: nat, g: Frame, flags: Flags) {
    && f in s.mem && f in s.owner && s.owner[f].Table? && i < 512
    && (s.owner[f].at.P1? || s.owner[f].at.P2? || s.owner[f].at.P3?)
    && (!Read(s.mem, f, i).present || (Read(s.mem, f, i).large && !s.owner[f].at.P3?))
    && Allows(Read(s.mem, s.owner[f].up, Last(s.owner[f].at)), flags)
    && (s.owner[f].at.P3? && flags.alloc ==> g in s.owner && s.owner[g].Other?)
  }

  ghost predicate CanSetLeaf(s: Snap, f: Frame, i: nat, g: Frame, flags: Flags) {
    Sound(s) && MaySetLeaf(s, f, i, g, flags)
  }

  lemma LeafEntry(s: Snap, f: Frame, i: nat, g: Frame, flags: Flags, h: Frame, j: nat)
    requires MaySetLeaf(s, f, i, g, flags) && EntryOk(s.mem, s.owner, h, j) && j < 512
    ensures EntryOk(WithLeaf(s, f, i, g, flags).mem, WithLeaf(s, f, i, g, flags).owner, h, j)
  {
  }

  lemma LeafOwner(s: Snap, f: Frame, i: nat, g: Frame, flags: Flags, h: Frame)
    requires MaySetLeaf(s, f, i, g, flags) && OwnerOk(s.mem, s.owner, f) && OwnerOk(s.mem, s.owner, h)
    ensures OwnerOk(WithLeaf(s, f, i, g, flags).mem, WithLeaf(s, f, i, g, flags).owner, h)
  {
  }

  lemma LeafRight(s: Snap, f: Frame, i: nat, g: Frame, flags: Flags, h: Frame, j: nat)
    requires MaySetLeaf(s, f, i, g, flags) && OwnerOk(s.mem, s.owner, h) && RightOk(s.mem, s.owner, h, j) && j < 512
    ensures RightOk(WithLeaf(s, f, i, g, flags).mem, WithLeaf(s, f, i, g, flags).owner, h, j)
  {
    if h in s.owner && s.owner[h].Table? && !s.owner[h].at.P0? {
      UpDiffers(s, h);
    }
  }

  /** The range at path `q` of space `r` translates to frame `g` with these flags; every other page
      of every space translates as before. */
  ghost predicate Remapped(a: Snap, b: Snap, r: Frame, q: Path, g: Frame, flags: Flags)
    requires q.P2? || q.P3? || q.P4?
  {
    forall r': Frame, va: Path :: IsRoot(a.owner, r') && va.P4? && InBounds(va) ==>
      Walk(b.mem, r', va) ==
        if r' == r && OnWay(q, va) then Leaf(SizeAt(q), MakeEntry(g, !q.P4?, flags)) else Walk(a.mem, r', va)
  }

  lemma LeafSoundAt(s: Snap, f: Frame, i: nat, g: Frame, flags: Flags, h: Frame, j: nat)
    requires CanSetLeaf(s, f, i, g, flags) && h in s.owner && j < 512
    ensures PlaceOk(WithLeaf(s, f, i, g, flags), h, j)
  {
    SoundAt(s, f, i);
    SoundAt(s, h, j);
    LeafEntry(s, f, i, g, flags, h, j);
    LeafOwner(s, f, i, g, flags, h);
    LeafRight(s, f, i, g, flags, h, j);
  }

  /** Writing a leaf keeps the trees. */
  lemma LeafSound(s: Snap, f: Frame, i: nat, g: Frame, flags: Flags)
    requires CanSetLeaf(s, f, i, g, flags)
    ensures Sound(WithLeaf(s, f, i, g, flags))
  {
    var s' := WithLeaf(s, f, i, g, flags);
    LeafKeys(s, f, i, g, flags);
    forall h, j: nat | h in s'.owner && j < 512 ensures PlaceOk(s', h, j) {
      LeafSoundAt(s, f, i, g, flags, h, j);
    }
    SoundFrom(s');
  }

  lemma LeafKeys(s: Snap, f: Frame, i: nat, g: Frame, flags: Flags)
    requires MaySetLeaf(s, f, i, g, flags)
    ensures var s' := WithLeaf(s, f, i, g, flags); s'.owner.Keys == s.owner.Keys && s'.mem.Keys == s.mem.Keys
  {
  }

  lemma LeafGrows(s: Snap, f: Frame, i: nat, g: Frame, flags: Flags)
    requires MaySetLeaf(s, f, i, g, flags) && s.owner.Keys <= s.mem.Keys
    ensures Grown(s, WithLeaf(s, f, i, g, flags), s.owner[f].root, Child(s.owner[f].at, i))
  {
  }

  /** Writing a leaf changes the translations of its own range, in its own space, and no other. */
  lemma LeafRemaps(s: Snap, f: Frame, i: nat, g: Frame, flags: Flags)
    requires CanSetLeaf(s, f, i, g, flags)
    ensures Remapped(s, WithLeaf(s, f, i, g, flags), s.owner[f].root, Child(s.owner[f].at, i), g, flags)
  {
    var s' := WithLeaf(s, f, i, g, flags);
    var q := Child(s.owner[f].at, i);
    forall r: Frame, va: Path | IsRoot(s.owner, r) && va.P4? && InBounds(va)
      ensures Walk(s'.mem, r, va) ==
        if r == s.owner[f].root && OnWay(q, va) then Leaf(SizeAt(q), MakeEntry(g, !q.P4?, flags))
        else Walk(s.mem, r, va)
    {
      if r == s.owner[f].root && OnWay(q, va) {
        LeafWalk(s, f, i, g, flags, va);
      } else {
        LeafQuiet(s, f, i, g, flags, r, va);
        QuietWalk(s, s', r, va);
      }
    }
  }

  lemma LeafQuiet(s: Snap, f: Frame, i: nat, g: Frame, flags: Flags, r: Frame, va: Path)
    requires MaySetLeaf(s, f, i, g, flags) && va.P4? && !(r == s.owner[f].root && OnWay(Child(s.owner[f].at, i), va))
    ensures QuietWay(s, WithLeaf(s, f, i, g, flags), r, va)
  {
  }

  /** The tables above a table are the ones the processor passes on the way to it. */
  lemma WayUp(s: Snap, f: Frame, va: Path)
    requires Sound(s) && f in s.owner && s.owner[f].Table? && va.P4? && OnWay(s.owner[f].at, va)
    ensures var r := s.owner[f].root; var e1 := Read(s.mem, r, va.m);
      && (s.owner[f].at.P0? ==> f == r)
      && (!s.owner[f].at.P0? ==> e1.present && (s.owner[f].at.P1? ==> f == e1.frame))
      && var e2 := Read(s.mem, e1.frame, va.p);
      && (s.owner[f].at.P2? || s.owner[f].at.P3? ==> e2.present && !e2.large && (s.owner[f].at.P2? ==> f == e2.frame))
      && var e3 := Read(s.mem, e2.frame, va.d);
      && (s.owner[f].at.P3? ==> e3.present && !e3.large && f == e3.frame)
      && !s.owner[f].at.P4?
  {
    assert OwnerOk(s.mem, s.owner, f);
    if !s.owner[f].at.P0? {
      var f1 := s.owner[f].up;
      assert OwnerOk(s.mem, s.owner, f1);
      if !s.owner[f1].at.P0? {
        var f2 := s.owner[f1].up;
        assert OwnerOk(s.mem, s.owner, f2);
        if !s.owner[f2].at.P0? {
          assert OwnerOk(s.mem, s.owner, s.owner[f2].up);
        }
      }
    }
  }

  lemma LeafWalk(s: Snap, f: Frame, i: nat, g: Frame, flags: Flags, va: Path)
    requires CanSetLeaf(s, f, i, g, flags) && va.P4? && OnWay(Child(s.owner[f].at, i), va)
    ensures Walk(WithLeaf(s, f, i, g, flags).mem, s.owner[f].root, va) ==
            Leaf(SizeAt(Child(s.owner[f].at, i)), MakeEntry(g, !s.owner[f].at.P3?, flags))
  {
    var s' := WithLeaf(s, f, i, g, flags);
    WayUp(s, f, va);
    SoundAt(s, f, i);
    WayAcross(s, s'.mem, f, i, va);
    assert Read(s'.mem, f, i) == MakeEntry(g, !s.owner[f].at.P3?, flags);
  }

  /** Down to the table `f` the walk passes the same entries in a memory that differs from `s` in
      one entry of `f`; the rest is up to that entry. */
  lemma WayAcross(s: Snap, mem': Memory, f: Frame, i: nat, va: Path)
    requires Sound(s) && f in s.owner && s.owner[f].Table? && va.P4? && i < 512 && OnWay(s.owner[f].at, va)
    requires (s.owner[f].at.P1? && i == va.p) || (s.owner[f].at.P2? && i == va.d) || (s.owner[f].at.P3? && i == va.t)
    requires forall h, j: nat :: (h != f || j != i) ==> Read(mem', h, j) == Read(s.mem, h, j)
    ensures var e := Read(mem', f, i);
      Walk(mem', s.owner[f].root, va) ==
        if !e.present then Absent
        else if s.owner[f].at.P1? then (if e.large then Leaf(Size1G, e) else WalkDir(mem', e.frame, va))
        else if s.owner[f].at.P2? then (if e.large then Leaf(Size2M, e) else WalkTable(mem', e.frame, va))
        else Leaf(Size4K, e)
  {
    WayUp(s, f, va);
    var r := s.owner[f].root;
    SoundAt(s, f, i);
    SoundAt(s, r, va.m);
    var f1 := Read(s.mem, r, va.m).frame;
    SoundAt(s, f1, va.p);
  }
}
