/** mm/obj.c: small objects carved out of page frames and chained, while free, through their own
    first words. */
module Slab {
  import opened Common

  const CACHE_LINE: nat := 64

  /** ROUNDUP(size, CACHE_LINE_SIZE_BYTES) */
  function Stride(size: nat): nat {
    (size + CACHE_LINE - 1) / CACHE_LINE * CACHE_LINE
  }

  /** `i` times `d` */
  function Times(d: nat, i: nat): nat {
    if i == 0 then 0 else Times(d, i - 1) + d
  }

  lemma {:induction false} TimesIsMul(d: nat, i: nat)
    ensures Times(d, i) == i * d
  {
    if i > 0 {
      TimesIsMul(d, i - 1);
      assert i * d == (i - 1) * d + d;
    }
  }

  lemma {:induction false} TimesGrows(d: nat, i: nat, j: nat)
    requires i < j
    ensures Times(d, i) + d <= Times(d, j)
  {
    if i + 1 < j { TimesGrows(d, i, j - 1); }
  }

  lemma AlignedSum(x: nat, y: nat)
    requires x % CACHE_LINE == 0 && y % CACHE_LINE == 0
    ensures (x + y) % CACHE_LINE == 0
  {
  }

  lemma {:induction false} TimesAligned(d: nat, i: nat)
    requires d % CACHE_LINE == 0
    ensures Times(d, i) % CACHE_LINE == 0
  {
    if i > 0 {
      TimesAligned(d, i - 1);
      AlignedSum(d, Times(d, i - 1));
    }
  }

  /** The `i`-th object of a page lies inside the page. */
  predicate Fits(size: nat, i: nat) {
    Times(Stride(size), i) + size <= PAGE_SIZE
  }

  ghost predicate IsSlot(pages: set<nat>, size: nat, a: nat) {
    exists p, i: nat :: p in pages && Fits(size, i) && a == p + Times(Stride(size), i)
  }

  /** From one object to the next it is the size rounded up to whole cache lines of 64 bytes. */
  lemma StrideFits(size: nat)
    requires 0 < size
    ensures size <= Stride(size) < size + 64 && Stride(size) % 64 == 0
  {
  }

  lemma FitsBelow(size: nat, i: nat, j: nat)
    requires i <= j && Fits(size, j)
    ensures Fits(size, i)
  {
    if i < j { TimesGrows(Stride(size), i, j); }
  }

  /** Exactly the first (4096 - size) / stride + 1 objects fit in a page. */
  lemma PerPage(size: nat, i: nat)
    requires 0 < size <= PAGE_SIZE
    ensures Fits(size, i) <==> i < (4096 - size) / Stride(size) + 1
  {
    StrideFits(size);
    Quotient(PAGE_SIZE - size, Stride(size), i);
  }

  lemma Quotient(x: nat, d: nat, i: nat)
    requires d > 0
    ensures Times(d, i) <= x <==> i < x / d + 1
  {
    QuotientIs(x, d, x / d, i);
  }

  lemma QuotientIs(x: nat, d: nat, q: nat, i: nat)
    requires d > 0 && q == x / d
    ensures Times(d, i) <= x <==> i < q + 1
  {
    TimesIsMul(d, q);
    assert x == q * d + x % d;
    if i < q {
      TimesGrows(d, i, q);
    } else if i > q {
      TimesGrows(d, q, i);
    }
  }

  /** Objects are cache-line aligned, inside their page, and do not overlap. */
  lemma SlotsApart(pages: set<nat>, size: nat, a: nat, b: nat)
    requires 0 < size <= PAGE_SIZE && (forall p :: p in pages ==> p % PAGE_SIZE == 0)
    requires IsSlot(pages, size, a) && IsSlot(pages, size, b)
    ensures a % 64 == 0
    ensures exists p :: p in pages && p <= a && a + size <= p + PAGE_SIZE
    ensures a == b || a + size <= b || b + size <= a
  {
    var p, i: nat :| p in pages && Fits(size, i) && a == p + Times(Stride(size), i);
    var p', j: nat :| p' in pages && Fits(size, j) && b == p' + Times(Stride(size), j);
    StrideFits(size);
    TimesAligned(Stride(size), i);
    WholeLines(p);
    AlignedSum(p, Times(Stride(size), i));
    if p != p' {
      PagesApart(p, p');
    } else if i < j {
      TimesGrows(Stride(size), i, j);
    } else if j < i {
      TimesGrows(Stride(size), j, i);
    }
  }

  lemma WholeLines(p: nat)
    requires p % PAGE_SIZE == 0
    ensures p % CACHE_LINE == 0
  {
  }

  lemma PagesApart(p: nat, q: nat)
    requires p % PAGE_SIZE == 0 && q % PAGE_SIZE == 0 && p != q
    ensures p + PAGE_SIZE <= q || q + PAGE_SIZE <= p
  {
  }

  /** The slots of a page are none of those of other pages. */
  lemma SlotElsewhere(pages: set<nat>, page: nat, size: nat, a: nat)
    requires 0 < size && page % PAGE_SIZE == 0 && page !in pages && IsSlot({page}, size, a)
    requires forall p :: p in pages ==> p % PAGE_SIZE == 0
    ensures !IsSlot(pages, size, a)
  {
    forall p, j: nat | p in pages && Fits(size, j) ensures a != p + Times(Stride(size), j) {
      PagesApart(page, p);
    }
  }

  lemma SlotsOfBoth(pages: set<nat>, page: nat, size: nat, a: nat)
    ensures IsSlot(pages + {page}, size, a) <==> IsSlot(pages, size, a) || IsSlot({page}, size, a)
  {
    if IsSlot(pages, size, a) {
      var p, i: nat :| p in pages && Fits(size, i) && a == p + Times(Stride(size), i);
      assert p in pages + {page};
    }
    if IsSlot({page}, size, a) {
      var p, i: nat :| p in {page} && Fits(size, i) && a == p + Times(Stride(size), i);
      assert p in pages + {page};
    }
  }

  // ---- The allocator

  /** `Fault` is the write to the page at NULL that follows when frame_alloc has failed. */
  datatype AllocResult = Object(addr: nat) | Fault

  /** The chain `c`, from the first free object on, is written in the first words of the objects. */
  predicate Linked(word: map<nat, nat>, c: seq<nat>) {
    forall k :: 0 <= k < |c| ==> LinkAt(word, c, k)
  }

  predicate LinkAt(word: map<nat, nat>, c: seq<nat>, k: nat)
    requires k < |c|
  {
    c[k] in word && c[k] != 0 && word[c[k]] == Next(c, k)
  }

  function Next(c: seq<nat>, k: nat): nat {
    if k + 1 < |c| then c[k + 1] else 0
  }

  function First(c: seq<nat>): nat {
    if c == [] then 0 else c[0]
  }

  /** The first `n` objects of a page, `d` apart, the last one first. */
  function Carved(page: nat, d: nat, n: nat): (c: seq<nat>)
    ensures |c| == n
  {
    if n == 0 then [] else [page + Times(d, n - 1)] + Carved(page, d, n - 1)
  }

  lemma {:induction false} CarvedAt(page: nat, d: nat, n: nat, k: nat)
    requires k < n
    ensures Carved(page, d, n)[k] == page + Times(d, n - 1 - k)
  {
    if k > 0 { CarvedAt(page, d, n - 1, k - 1); }
  }

  lemma CarvedDistinct(page: nat, d: nat, n: nat)
    requires 0 < d
    ensures Distinct(Carved(page, d, n))
  {
    var c := Carved(page, d, n);
    forall i, j | 0 <= i < j < n ensures c[i] != c[j] {
      CarvedFalls(page, d, n, i, j);
    }
  }

  lemma CarvedFalls(page: nat, d: nat, n: nat, i: nat, j: nat)
    requires 0 < d && i < j < n
    ensures Carved(page, d, n)[j] < Carved(page, d, n)[i]
  {
    CarvedAt(page, d, n, i);
    CarvedAt(page, d, n, j);
    TimesGrows(d, n - 1 - j, n - 1 - i);
  }

  lemma CarvedBelow(page: nat, d: nat, n: nat)
    requires 0 < d
    ensures forall a :: a in Carved(page, d, n) ==> a < page + Times(d, n)
  {
    forall k | 0 <= k < n ensures Carved(page, d, n)[k] < page + Times(d, n) {
      CarvedAt(page, d, n, k);
      TimesGrows(d, n - 1 - k, n);
    }
  }

  /** Carving a page until nothing more fits gives exactly its slots. */
  lemma CarvedSlots(page: nat, size: nat, n: nat)
    requires !Fits(size, n) && (n > 0 ==> Fits(size, n - 1))
    ensures forall a :: a in Carved(page, Stride(size), n) <==> IsSlot({page}, size, a)
  {
    var d := Stride(size);
    var c := Carved(page, d, n);
    forall a | a in c ensures IsSlot({page}, size, a) {
      var k :| 0 <= k < n && c[k] == a;
      CarvedAt(page, d, n, k);
      FitsBelow(size, n - 1 - k, n - 1);
      assert page in {page};
    }
    forall a | IsSlot({page}, size, a) ensures a in c {
      var p, i: nat :| p in {page} && Fits(size, i) && a == p + Times(Stride(size), i);
      if i >= n { FitsBelow(size, n, i); }
      CarvedAt(page, d, n, n - 1 - i);
    }
  }

  lemma LinkedPush(word: map<nat, nat>, c: seq<nat>, a: nat)
    requires Linked(word, c) && a !in c && a != 0
    ensures Linked(word[a := First(c)], [a] + c)
  {
    var d, word' := [a] + c, word[a := First(c)];
    forall k | 0 <= k < |d| ensures LinkAt(word', d, k) {
      if k > 0 { assert LinkAt(word, c, k - 1) && d[k] == c[k - 1] && Next(d, k) == Next(c, k - 1); }
    }
  }

  lemma FirstIsNull(word: map<nat, nat>, c: seq<nat>)
    requires Linked(word, c)
    ensures First(c) == 0 <==> c == []
  {
    assert c != [] ==> LinkAt(word, c, 0);
  }

  lemma LinkedElsewhere(word: map<nat, nat>, c: seq<nat>, a: nat, x: nat)
    requires Linked(word, c) && a !in c
    ensures Linked(word[a := x], c)
  {
    var word' := word[a := x];
    forall k | 0 <= k < |c| ensures LinkAt(word', c, k) {
      assert LinkAt(word, c, k);
    }
  }

  lemma LinkedPop(word: map<nat, nat>, c: seq<nat>)
    requires Linked(word, c) && c != []
    ensures c[0] in word && Linked(word, c[1..]) && word[c[0]] == First(c[1..])
  {
    var t := c[1..];
    forall k | 0 <= k < |t| ensures LinkAt(word, t, k) {
      assert LinkAt(word, c, k + 1) && t[k] == c[k + 1] && Next(t, k) == Next(c, k + 1);
    }
    assert LinkAt(word, c, 0);
  }

  lemma RestDistinct(c: seq<nat>)
    requires Distinct(c) && c != []
    ensures Distinct(c[1..]) && c[0] !in c[1..] && forall a :: a in c <==> a == c[0] || a in c[1..]
  {
    forall a | a in c ensures a == c[0] || a in c[1..] {
      var i :| 0 <= i < |c| && c[i] == a;
      if i > 0 { assert c[1..][i - 1] == a; }
    }
  }

  class ObjAlloc {
    const size: nat
    var nextFree: nat
    /** The first words of the objects. */
    var word: map<nat, nat>

    ghost var pages: set<nat>
    ghost var chain: seq<nat>
    ghost var live: set<nat>
    /** Objects that are neither in use nor ever found again. */
    ghost var lost: set<nat>

    /** Every carved object is free, in use or lost, and only one of these. */
    ghost predicate Accounted()
      reads this
    {
      && Distinct(chain)
      && (forall a :: a in chain ==> a !in live && a !in lost)
      && live !! lost
      && (forall a :: a in chain || a in live || a in lost <==> IsSlot(pages, size, a))
    }

    ghost predicate Valid()
      reads this
    {
      && 0 < size <= PAGE_SIZE
      && (forall p :: p in pages ==> p % PAGE_SIZE == 0 && p != 0)
      && Linked(word, chain) && nextFree == First(chain)
      && Accounted()
    }

    /** OBJ_ALLOC_DEFINE */
    constructor (size: nat)
      requires 0 < size <= PAGE_SIZE
      ensures Valid() && this.size == size && pages == {} && chain == [] && live == {} && lost == {}
    {
      this.size := size;
      nextFree := 0;
      word := map[];
      pages, chain, live, lost := {}, [], {}, {};
    }

    /** The carving loop of object_alloc, for objects `stride` apart. */
    method CarveLoop(page: nat, stride: nat) returns (prev: nat, ghost n: nat)
      requires 0 < size <= PAGE_SIZE && page != 0 && 0 < stride
      modifies this`word
      ensures n > 0 && Times(stride, n - 1) + size <= PAGE_SIZE < Times(stride, n) + size
      ensures Linked(word, Carved(page, stride, n)) && prev == First(Carved(page, stride, n))
      ensures forall a :: a in old(word) && a !in Carved(page, stride, n) ==> a in word && word[a] == old(word)[a]
    {
      var curr, end := page, page + PAGE_SIZE;
      prev, n := 0, 0;
      while curr + size <= end
        invariant curr == page + Times(stride, n) && (n > 0 ==> Times(stride, n - 1) + size <= PAGE_SIZE)
        invariant Linked(word, Carved(page, stride, n)) && prev == First(Carved(page, stride, n))
        invariant forall a :: a in old(word) && a !in Carved(page, stride, n) ==> a in word && word[a] == old(word)[a]
        decreases end - curr
      {
        CarvedBelow(page, stride, n);
        LinkedPush(word, Carved(page, stride, n), curr);
        word := word[curr := prev];
        prev := curr;
        curr := curr + stride;
        n := n + 1;
      }
    }

    /** The first half of object_alloc: another page of objects. */
    method Carve(page: nat)
      requires Valid() && chain == [] && page % PAGE_SIZE == 0 && page != 0 && page !in pages
      modifies this
      ensures Valid() && pages == old(pages) + {page} && live == old(live) && lost == old(lost)
      ensures |chain| == (PAGE_SIZE - size) / Stride(size) + 1
      ensures forall a :: a in old(word) && a in live ==> a in word && word[a] == old(word)[a]
    {
      var prev;
      ghost var n;
      StrideFits(size);
      prev, n := CarveLoop(page, Stride(size));
      nextFree := prev;
      CarvedSlots(page, size, n);
      CarvedDistinct(page, Stride(size), n);
      forall a ensures IsSlot(pages + {page}, size, a) <==> IsSlot(pages, size, a) || IsSlot({page}, size, a) {
        SlotsOfBoth(pages, page, size, a);
      }
      forall a | IsSlot({page}, size, a) ensures !IsSlot(pages, size, a) {
        SlotElsewhere(pages, page, size, a);
      }
      PerPage(size, n);
      PerPage(size, n - 1);
      pages, chain := pages + {page}, Carved(page, Stride(size), n);
    }

    /** The second half of object_alloc: the first free object leaves the chain. */
    method Pop() returns (obj: nat)
      requires Valid() && chain != []
      modifies this
      ensures Valid() && obj == old(chain)[0] && chain == old(chain)[1..]
      ensures live == old(live) + {obj} && lost == old(lost) && pages == old(pages) && word == old(word)
    {
      obj := nextFree;
      LinkedPop(word, chain);
      RestDistinct(chain);
      nextFree := word[nextFree];
      live, chain := live + {obj}, chain[1..];
    }

    /** object_alloc.  `page` is what frame_alloc returns if it is asked. */
    method ObjectAlloc(page: nat) returns (r: AllocResult)
      requires Valid() && (page != 0 ==> page % PAGE_SIZE == 0 && page !in pages)
      modifies this
      ensures r.Fault? <==> old(chain) == [] && page == 0
      ensures r.Object? ==> Valid() && r.addr !in old(live) && r.addr !in old(lost) && IsSlot(pages, size, r.addr)
      ensures r.Object? ==> r.addr != 0
      ensures r.Object? ==> live == old(live) + {r.addr} && lost == old(lost)
      ensures r.Object? && old(chain) != [] ==>
        r.addr == old(chain)[0] && chain == old(chain)[1..] && pages == old(pages)
      ensures r.Object? && old(chain) == [] ==>
        pages == old(pages) + {page} && |chain| == (PAGE_SIZE - size) / Stride(size)
      ensures forall a :: a in old(live) && a in old(word) ==> a in word && word[a] == old(word)[a]
    {
      FirstIsNull(word, chain);
      if nextFree == 0 {
        if page == 0 {
          return Fault;
        }
        Carve(page);
      }
      var obj := Pop();
      r := Object(obj);
    }

    /** object_free: the object becomes the whole free chain; what was in it is lost. */
    method ObjectFree(obj: nat)
      requires Valid() && obj in live
      modifies this
      ensures Valid() && pages == old(pages) && live == old(live) - {obj} && chain == [obj]
      ensures lost == old(lost) + (set a | a in old(chain))
      ensures lost == old(lost) <==> old(nextFree) == 0
      ensures word == old(word)[obj := 0]
    {
      FirstIsNull(word, chain);
      assert chain != [] ==> chain[0] in chain;
      word := word[obj := 0];
      nextFree := obj;
      lost, live, chain := lost + (set a | a in chain), live - {obj}, [obj];
    }

    /** The owner of a live object may write to it. */
    method Use(obj: nat, value: nat)
      requires Valid() && obj in live
      modifies this`word
      ensures Valid() && word == old(word)[obj := value]
    {
      LinkedElsewhere(word, chain, obj, value);
      word := word[obj := value];
    }
  }

  /** Of two objects that are freed one after the other the first is lost. */
  method FreeTwo(size: nat, page: nat, page': nat) returns (alloc: ObjAlloc, first: nat)
    requires 0 < size <= PAGE_SIZE && page != 0 && page' != 0 && page != page'
    requires page % PAGE_SIZE == 0 && page' % PAGE_SIZE == 0
    ensures fresh(alloc) && alloc.Valid() && first in alloc.lost && first !in alloc.live
  {
    alloc := new ObjAlloc(size);
    var a := alloc.ObjectAlloc(page);
    var b := alloc.ObjectAlloc(page');
    alloc.ObjectFree(a.addr);
    alloc.ObjectFree(b.addr);
    first := a.addr;
  }
}
