/** The areas of an address space (mm/vmem.c): what page faults may be served where. */
module Areas {
  import opened Common
  import opened TableSteps
  import opened Paging

  /** struct vmem_area: `size` pages from the address `start` on. */
  datatype Area = Area(start: nat, size: nat, flags: Flags)

  /** `start + pages * PAGE_SIZE` in 64-bit arithmetic */
  function EndOf(start: nat, pages: nat): nat {
    (start + pages * PAGE_SIZE) % WORD
  }

  /** The test of vmem_is_mapped. */
  predicate Covers(a: Area, addr: nat) {
    a.start <= addr && addr < EndOf(a.start, a.size)
  }

  /** Whole pages at canonical addresses, without wrap-around. */
  predicate Proper(a: Area) {
    && a.start % PAGE_SIZE == 0 && a.start + a.size * PAGE_SIZE < WORD
    && (a.start + a.size * PAGE_SIZE <= 0x8000_0000_0000 || 0xffff_8000_0000_0000 <= a.start)
  }

  ghost predicate Share(a: Area, b: Area) {
    exists addr :: Covers(a, addr) && Covers(b, addr)
  }

  /** The areas are proper and no address is in two of them. */
  ghost predicate AreasOk(areas: seq<Area>) {
    && (forall i :: 0 <= i < |areas| ==> Proper(areas[i]))
    && (forall i, j :: 0 <= i < j < |areas| ==> !Share(areas[i], areas[j]))
  }

  lemma ShareBytes(a: Area, b: Area)
    requires Proper(a) && Proper(b)
    ensures Share(a, b) <==>
      a.size > 0 && b.size > 0 && a.start < b.start + b.size * PAGE_SIZE && b.start < a.start + a.size * PAGE_SIZE
  {
    if a.size > 0 && b.size > 0 && a.start < b.start + b.size * PAGE_SIZE && b.start < a.start + a.size * PAGE_SIZE {
      var addr := if a.start < b.start then b.start else a.start;
      assert Covers(a, addr) && Covers(b, addr);
    }
  }

  // ---- Looking up an address

  /** The first area of the list that covers the address. */
  function Lookup(areas: seq<Area>, addr: nat): Option<Area> {
    if areas == [] then None else if Covers(areas[0], addr) then Some(areas[0]) else Lookup(areas[1..], addr)
  }

  lemma {:induction false} LookupFirst(areas: seq<Area>, addr: nat, i: nat)
    requires i < |areas| && Covers(areas[i], addr) && forall j :: 0 <= j < i ==> !Covers(areas[j], addr)
    ensures Lookup(areas, addr) == Some(areas[i])
  {
    if i > 0 { LookupFirst(areas[1..], addr, i - 1); }
  }

  lemma {:induction false} LookupNone(areas: seq<Area>, addr: nat)
    requires forall j :: 0 <= j < |areas| ==> !Covers(areas[j], addr)
    ensures Lookup(areas, addr) == None
  {
    if areas != [] { LookupNone(areas[1..], addr); }
  }

  lemma {:induction false} LookupFinds(areas: seq<Area>, addr: nat) returns (i: nat)
    ensures Lookup(areas, addr).None? ==> forall j :: 0 <= j < |areas| ==> !Covers(areas[j], addr)
    ensures Lookup(areas, addr).Some? ==> i < |areas| && areas[i] == Lookup(areas, addr).value && Covers(areas[i], addr)
  {
    i := 0;
    if areas != [] && !Covers(areas[0], addr) {
      i := LookupFinds(areas[1..], addr);
      i := i + 1;
      assert forall j :: 1 <= j < |areas| ==> areas[j] == areas[1..][j - 1];
    }
  }

  /** Of disjoint areas, the one that covers the address is found, wherever it is in the list. */
  lemma LookupUnique(areas: seq<Area>, addr: nat, i: nat)
    requires AreasOk(areas) && i < |areas| && Covers(areas[i], addr)
    ensures Lookup(areas, addr) == Some(areas[i])
  {
    forall j | 0 <= j < i ensures !Covers(areas[j], addr) {
      assert !Share(areas[j], areas[i]);
    }
    LookupFirst(areas, addr, i);
  }

  lemma LookupElsewhere(area: Area, areas: seq<Area>, addr: nat)
    requires AreasOk([area] + areas) && Covers(area, addr)
    ensures Lookup(areas, addr).None?
  {
    var all := [area] + areas;
    forall j | 0 <= j < |areas| ensures !Covers(areas[j], addr) {
      assert all[j + 1] == areas[j] && !Share(all[0], all[j + 1]);
    }
    LookupNone(areas, addr);
  }

  /** An area covers a page or it does not. */
  lemma CoversPage(a: Area, addr: nat)
    requires Proper(a)
    ensures Covers(a, addr) <==> Covers(a, addr - addr % PAGE_SIZE)
  {
    PageBounds(a.start / PAGE_SIZE, a.start / PAGE_SIZE + a.size, addr / PAGE_SIZE, addr % PAGE_SIZE);
  }

  lemma PageBounds(first: nat, last: nat, page: nat, offset: nat)
    requires offset < PAGE_SIZE
    ensures first * PAGE_SIZE <= page * PAGE_SIZE + offset < last * PAGE_SIZE <==>
            first * PAGE_SIZE <= page * PAGE_SIZE < last * PAGE_SIZE
  {
  }

  lemma {:induction false} LookupPage(areas: seq<Area>, addr: nat)
    requires forall i :: 0 <= i < |areas| ==> Proper(areas[i])
    ensures Lookup(areas, addr) == Lookup(areas, addr - addr % PAGE_SIZE)
  {
    if areas != [] {
      CoversPage(areas[0], addr);
      LookupPage(areas[1..], addr);
    }
  }

  /** A page that begins in an area lies in it. */
  lemma PageInArea(areas: seq<Area>, k: nat, addr: nat)
    requires AreasOk(areas) && k < |areas| && addr % PAGE_SIZE == 0
    requires areas[k].start <= addr < areas[k].start + areas[k].size * PAGE_SIZE
    ensures Lookup(areas, addr) == Some(areas[k]) && Canonical(addr)
    ensures addr + PAGE_SIZE <= areas[k].start + areas[k].size * PAGE_SIZE
  {
    LookupUnique(areas, addr, k);
  }

  // ---- Adding an area

  /** The test of vmem_intersects: the end of the new region is its start plus a number of pages. */
  predicate Meets(areas: seq<Area>, start: nat, pgcnt: nat) {
    exists i :: 0 <= i < |areas| &&
      !((start + pgcnt) % WORD <= areas[i].start || EndOf(areas[i].start, areas[i].size) <= start)
  }

  /** Some area starts in the part of the new region that the test does not look at. */
  predicate StartsInside(areas: seq<Area>, start: nat, pgcnt: nat) {
    exists i :: 0 <= i < |areas| && areas[i].size > 0 && start + pgcnt <= areas[i].start < start + pgcnt * PAGE_SIZE
  }

  /** A region that passes the test keeps the areas in order exactly if it is proper and no area
      starts in its unexamined part. */
  lemma PlacedOk(areas: seq<Area>, start: nat, pgcnt: nat, flags: Flags)
    requires AreasOk(areas) && !Meets(areas, start, pgcnt)
    ensures AreasOk([Area(start, pgcnt, flags)] + areas) <==>
      Proper(Area(start, pgcnt, flags)) && !StartsInside(areas, start, pgcnt)
  {
    var a := Area(start, pgcnt, flags);
    if !Proper(a) {
      assert ([a] + areas)[0] == a;
    } else if StartsInside(areas, start, pgcnt) {
      PlacedMeets(areas, a);
    } else {
      PlacedApart(areas, a);
    }
  }

  lemma PlacedMeets(areas: seq<Area>, a: Area)
    requires AreasOk(areas) && Proper(a) && StartsInside(areas, a.start, a.size)
    ensures !AreasOk([a] + areas)
  {
    var all := [a] + areas;
    var i :| 0 <= i < |areas| && areas[i].size > 0 && a.start + a.size <= areas[i].start < a.start + a.size * PAGE_SIZE;
    ShareBytes(a, areas[i]);
    assert all[0] == a && all[i + 1] == areas[i] && Share(all[0], all[i + 1]);
  }

  lemma PlacedApart(areas: seq<Area>, a: Area)
    requires AreasOk(areas) && Proper(a) && !Meets(areas, a.start, a.size) && !StartsInside(areas, a.start, a.size)
    ensures AreasOk([a] + areas)
  {
    var all := [a] + areas;
    assert all[0] == a && forall i :: 0 < i < |all| ==> all[i] == areas[i - 1];
    forall j | 0 <= j < |areas| ensures !Share(a, areas[j]) {
      ClearOf(areas, a, j);
    }
    forall i, j | 0 <= i < j < |all| ensures !Share(all[i], all[j]) {
      if i > 0 { assert !Share(areas[i - 1], areas[j - 1]); }
    }
  }

  lemma ClearOf(areas: seq<Area>, a: Area, j: nat)
    requires j < |areas| && Proper(areas[j]) && Proper(a)
    requires !Meets(areas, a.start, a.size) && !StartsInside(areas, a.start, a.size)
    ensures !Share(a, areas[j])
  {
    ShareBytes(a, areas[j]);
    assert (a.start + a.size) % WORD <= areas[j].start || EndOf(areas[j].start, areas[j].size) <= a.start;
  }

  /** The test, without its 64-bit arithmetic: the new region is taken for `pgcnt` bytes, and if these
      go past the last address it is taken to end where they would go on from 0. */
  lemma MeetsExactly(areas: seq<Area>, start: nat, pgcnt: nat)
    requires AreasOk(areas) && start < WORD && pgcnt < WORD
    ensures Meets(areas, start, pgcnt) <==>
      exists i :: 0 <= i < |areas| && start < areas[i].start + areas[i].size * 4096 &&
        areas[i].start < if start + pgcnt < WORD then start + pgcnt else start + pgcnt - WORD
  {
    forall i | 0 <= i < |areas|
      ensures EndOf(areas[i].start, areas[i].size) == areas[i].start + areas[i].size * 4096
    {
      assert Proper(areas[i]);
    }
  }

  /** Some area has one of the first `pgcnt` bytes of the new region. */
  ghost predicate FirstBytesTaken(areas: seq<Area>, start: nat, pgcnt: nat) {
    exists addr :: start <= addr < start + pgcnt && Lookup(areas, addr).Some?
  }

  /** An area without pages lies among these bytes. */
  predicate EmptyInside(areas: seq<Area>, start: nat, pgcnt: nat) {
    exists i :: 0 <= i < |areas| && areas[i].size == 0 && start < areas[i].start < start + pgcnt
  }

  lemma TakenBy(areas: seq<Area>, start: nat, pgcnt: nat, i: nat)
    requires AreasOk(areas) && i < |areas| && areas[i].size > 0 && pgcnt > 0
    requires start < areas[i].start + areas[i].size * 4096 && areas[i].start < start + pgcnt
    ensures FirstBytesTaken(areas, start, pgcnt)
  {
    var addr := if areas[i].start < start then start else areas[i].start;
    LookupUnique(areas, addr, i);
    assert Lookup(areas, addr).Some?;
  }

  lemma TakenFrom(areas: seq<Area>, start: nat, pgcnt: nat) returns (i: nat, addr: nat)
    requires AreasOk(areas) && FirstBytesTaken(areas, start, pgcnt)
    ensures start <= addr < start + pgcnt && i < |areas| && Covers(areas[i], addr)
  {
    addr :| start <= addr < start + pgcnt && Lookup(areas, addr).Some?;
    i := LookupFinds(areas, addr);
  }

  /** The test sees the areas that have one of these bytes, and areas without pages among them. */
  lemma MeetsBytes(areas: seq<Area>, start: nat, pgcnt: nat)
    requires AreasOk(areas) && start + pgcnt < WORD && pgcnt > 0
    ensures Meets(areas, start, pgcnt) <==> FirstBytesTaken(areas, start, pgcnt) || EmptyInside(areas, start, pgcnt)
  {
    MeetsExactly(areas, start, pgcnt);
    if Meets(areas, start, pgcnt) {
      var i :| 0 <= i < |areas| && start < areas[i].start + areas[i].size * 4096 && areas[i].start < start + pgcnt;
      if areas[i].size > 0 { TakenBy(areas, start, pgcnt, i); }
    } else if FirstBytesTaken(areas, start, pgcnt) {
      var i, addr := TakenFrom(areas, start, pgcnt);
    }
  }

  /** Some area has a byte of the new region. */
  ghost predicate Overlaps(areas: seq<Area>, a: Area) {
    exists i :: 0 <= i < |areas| && Share(areas[i], a)
  }

  lemma OverlapsBytes(areas: seq<Area>, a: Area)
    requires AreasOk(areas) && Proper(a) && a.size > 0
    ensures Overlaps(areas, a) <==>
      FirstBytesTaken(areas, a.start, a.size) || StartsInside(areas, a.start, a.size)
  {
    if FirstBytesTaken(areas, a.start, a.size) {
      var i, addr := TakenFrom(areas, a.start, a.size);
      assert Covers(a, addr) && Share(areas[i], a);
    } else if StartsInside(areas, a.start, a.size) {
      var i :| 0 <= i < |areas| && areas[i].size > 0 &&
        a.start + a.size <= areas[i].start < a.start + a.size * PAGE_SIZE;
      ShareBytes(areas[i], a);
    } else if Overlaps(areas, a) {
      var i :| 0 <= i < |areas| && Share(areas[i], a);
      ShareBytes(areas[i], a);
      TakenBy(areas, a.start, a.size, i);
    }
  }

  /** The test finds an overlap just if there is one - if and only if one of the first bytes is taken,
      or neither an area without pages lies among them nor any other area starts after them. */
  lemma TestIsRight(areas: seq<Area>, a: Area)
    requires AreasOk(areas) && Proper(a) && a.size > 0
    ensures (Meets(areas, a.start, a.size) <==> Overlaps(areas, a)) <==>
      || FirstBytesTaken(areas, a.start, a.size)
      || (EmptyInside(areas, a.start, a.size) <==> StartsInside(areas, a.start, a.size))
  {
    MeetsBytes(areas, a.start, a.size);
    OverlapsBytes(areas, a);
  }

  /** The new region has pages, and so has every area, and no byte of it is in one. */
  ghost predicate Clear(areas: seq<Area>, a: Area) {
    Proper(a) && a.size > 0 && !Overlaps(areas, a) && forall i :: 0 <= i < |areas| ==> areas[i].size > 0
  }

  /** Such a region is accepted. */
  lemma ClearAccepted(areas: seq<Area>, a: Area)
    requires AreasOk(areas) && Clear(areas, a)
    ensures !Meets(areas, a.start, a.size) && AreasOk([a] + areas)
  {
    TestIsRight(areas, a);
    OverlapsBytes(areas, a);
    PlacedOk(areas, a.start, a.size, a.flags);
  }

  /** Two pages at 0x1000 are accepted although the second is an area already. */
  lemma OverlapAccepted(flags: Flags)
    ensures AreasOk([Area(0x2000, 1, flags)]) && !Meets([Area(0x2000, 1, flags)], 0x1000, 2)
    ensures !AreasOk([Area(0x1000, 2, flags), Area(0x2000, 1, flags)])
  {
    var areas := [Area(0x2000, 1, flags)];
    PlacedOk(areas, 0x1000, 2, flags);
    assert StartsInside(areas, 0x1000, 2) by { assert areas[0].size > 0; }
    assert [Area(0x1000, 2, flags)] + areas == [Area(0x1000, 2, flags), Area(0x2000, 1, flags)];
  }

  // ---- The copy of a list

  function Reversed(s: seq<Area>): (r: seq<Area>)
    ensures |r| == |s|
  {
    if s == [] then [] else Reversed(s[1..]) + [s[0]]
  }

  lemma {:induction false} ReversedAt(s: seq<Area>, k: nat)
    requires k < |s|
    ensures Reversed(s)[k] == s[|s| - 1 - k]
  {
    if k < |s| - 1 { ReversedAt(s[1..], k); }
  }

  lemma ReversedPush(s: seq<Area>, i: nat)
    requires i < |s|
    ensures Reversed(s[..i + 1]) == [s[i]] + Reversed(s[..i])
  {
    forall k | 0 <= k < i + 1 ensures Reversed(s[..i + 1])[k] == ([s[i]] + Reversed(s[..i]))[k] {
      ReversedAt(s[..i + 1], k);
      if k > 0 { ReversedAt(s[..i], k - 1); }
    }
  }

  /** The reversed list that vmem_clone builds answers every lookup as the original does. */
  lemma ReversedSame(areas: seq<Area>)
    requires AreasOk(areas)
    ensures AreasOk(Reversed(areas))
    ensures forall addr :: Lookup(Reversed(areas), addr) == Lookup(areas, addr)
  {
    var n, rev := |areas|, Reversed(areas);
    forall k | 0 <= k < n ensures rev[k] == areas[n - 1 - k] {
      ReversedAt(areas, k);
    }
    forall i, j | 0 <= i < j < n ensures !Share(rev[i], rev[j]) {
      assert !Share(areas[n - 1 - j], areas[n - 1 - i]);
    }
    forall addr ensures Lookup(rev, addr) == Lookup(areas, addr) {
      var i := LookupFinds(areas, addr);
      if Lookup(areas, addr).Some? {
        LookupUnique(rev, addr, n - 1 - i);
      } else {
        LookupNone(rev, addr);
      }
    }
  }

  /** If two areas cover an address the copy finds the other one. */
  lemma ReversedDiffers(a: Area, b: Area, addr: nat)
    requires Covers(a, addr) && Covers(b, addr)
    ensures Lookup([a, b], addr) == Some(a) && Lookup(Reversed([a, b]), addr) == Some(b)
  {
    ReversedAt([a, b], 0);
    LookupFirst(Reversed([a, b]), addr, 0);
  }

  // ---- Removing an area

  /** The test of vmem_free_pages for an area from `start` to `end`. */
  predicate Matches(a: Area, start: nat, end: nat) {
    a.start == start && EndOf(a.start, a.size) == end
  }

  /** It finds areas with this start and this number of pages - but the number counts in 52 bits only. */
  lemma MatchesExactly(a: Area, start: nat, pgcnt: nat)
    requires Proper(a)
    ensures Matches(a, start, EndOf(start, pgcnt)) <==> a.start == start && a.size == pgcnt % 0x10_0000_0000_0000
  {
    var q, n := pgcnt / 0x10_0000_0000_0000, pgcnt % 0x10_0000_0000_0000;
    assert start + pgcnt * 4096 == start + n * 4096 + q * WORD;
    EndAgain(start + n * 4096, q);
  }

  lemma EndAgain(x: nat, q: nat)
    ensures (x + q * WORD) % WORD == x % WORD
  {
  }

  /** Without the area its addresses are not found any more, and all others as before. */
  lemma WithoutLookup(areas: seq<Area>, i: nat, addr: nat)
    requires AreasOk(areas) && i < |areas|
    ensures AreasOk(Removed(areas, i))
    ensures Lookup(Removed(areas, i), addr) == if Covers(areas[i], addr) then None else Lookup(areas, addr)
  {
    var w := Removed(areas, i);
    assert forall k :: 0 <= k < |w| ==> w[k] == areas[if k < i then k else k + 1];
    forall k, l | 0 <= k < l < |w| ensures !Share(w[k], w[l]) {
      assert !Share(areas[if k < i then k else k + 1], areas[if l < i then l else l + 1]);
    }
    var j := LookupFinds(areas, addr);
    if Covers(areas[i], addr) {
      forall k | 0 <= k < |w| ensures !Covers(w[k], addr) {
        var k' := if k < i then k else k + 1;
        assert !Share(areas[if k' < i then k' else i], areas[if k' < i then i else k']);
      }
      LookupNone(w, addr);
    } else if Lookup(areas, addr).Some? {
      LookupUnique(w, addr, if j < i then j else j - 1);
    } else {
      LookupNone(w, addr);
    }
  }
}
