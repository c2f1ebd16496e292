/** mm/paging.h: entries as 64-bit words, and addresses as indices into the tables. */
module Paging {
  import opened Common
  import opened Tables
  import opened TableSteps

  // ---- Page table entries

  const PTE_PRESENT: bv64 := 1
  const PTE_WRITEABLE: bv64 := 2
  const PTE_USER: bv64 := 4
  const PTE_PAGE_SIZE: bv64 := 0x80
  const PTE_ALLOC: bv64 := 0x400
  const PTE_FLAGS_MASK: bv64 := 0xfff
  const PTE_ADDR_MASK: bv64 := 0xffff_ffff_ffff
  const VMEM_USER: bv64 := 1
  const VMEM_WRITE: bv64 := 2
  const VMEM_ALLOC: bv64 := 4

  /** The bits the kernel gives a meaning to. */
  const FIELDS: bv64 := 0xffff_ffff_f487

  function PteAddr(pte: bv64): bv64 {
    (pte & PTE_ADDR_MASK) & !PTE_FLAGS_MASK
  }

  /** The frame of an entry, by its physical address. */
  function Decode(w: bv64): Entry<bv64> {
    Entry(w & PTE_PRESENT != 0, w & PTE_WRITEABLE != 0, w & PTE_USER != 0, w & PTE_PAGE_SIZE != 0, w & PTE_ALLOC != 0,
          PteAddr(w), w & !FIELDS)
  }

  /** The formats of the Intel SDM, volume 3A, section 4.5: bit 0 makes an entry present, bit 1 writable,
      bit 2 a user's, bit 7 a page where there could be a table, and bits 12 to 47 are the address; bit 10
      is left to software and marks allocated pages. */
  lemma BitNumbers(w: bv64)
    ensures Decode(w).present == ((w >> 0) & 1 == 1) && Decode(w).write == ((w >> 1) & 1 == 1)
    ensures Decode(w).user == ((w >> 2) & 1 == 1) && Decode(w).large == ((w >> 7) & 1 == 1)
    ensures Decode(w).alloc == ((w >> 10) & 1 == 1) && Decode(w).frame == ((w >> 12) & 0xf_ffff_ffff) << 12
  {
  }

  function Bit(b: bool, mask: bv64): bv64 {
    if b then mask else 0
  }

  /** The single bits of an entry. */
  function OneBits(e: Entry<bv64>): bv64 {
    Bit(e.present, PTE_PRESENT) | Bit(e.write, PTE_WRITEABLE) | Bit(e.user, PTE_USER) | Bit(e.large, PTE_PAGE_SIZE) |
    Bit(e.alloc, PTE_ALLOC)
  }

  function Encode(e: Entry<bv64>): bv64 {
    OneBits(e) | e.frame | e.rest
  }

  predicate Encodable(e: Entry<bv64>) {
    PteAddr(e.frame) == e.frame && e.rest & FIELDS == 0
  }

  /** The fields of an entry do not overlap: every word is one entry and every entry one word. */
  lemma DecodeEncode(e: Entry<bv64>)
    requires Encodable(e)
    ensures Decode(Encode(e)) == e
  {
    Placed(e, Bit(e.present, PTE_PRESENT), Bit(e.write, PTE_WRITEABLE), Bit(e.user, PTE_USER),
           Bit(e.large, PTE_PAGE_SIZE), Bit(e.alloc, PTE_ALLOC));
  }

  lemma Placed(e: Entry<bv64>, p: bv64, w: bv64, u: bv64, l: bv64, a: bv64)
    requires Encodable(e)
    requires p == Bit(e.present, PTE_PRESENT) && w == Bit(e.write, PTE_WRITEABLE) && u == Bit(e.user, PTE_USER)
    requires l == Bit(e.large, PTE_PAGE_SIZE) && a == Bit(e.alloc, PTE_ALLOC)
    ensures Decode(p | w | u | l | a | e.frame | e.rest) == e
  {
    BitWithin(e.present, PTE_PRESENT);
    BitWithin(e.write, PTE_WRITEABLE);
    BitWithin(e.user, PTE_USER);
    BitWithin(e.large, PTE_PAGE_SIZE);
    BitWithin(e.alloc, PTE_ALLOC);
    Fields(p, w, u, l, a, e.frame, e.rest);
    Parts(p | w | u | l | a | e.frame | e.rest, e);
  }

  lemma BitWithin(b: bool, mask: bv64)
    ensures Bit(b, mask) & !mask == 0 && (mask != 0 ==> (Bit(b, mask) != 0) == b)
  {
  }

  lemma Fields(p: bv64, w: bv64, u: bv64, l: bv64, a: bv64, frame: bv64, rest: bv64)
    requires p & !PTE_PRESENT == 0 && w & !PTE_WRITEABLE == 0 && u & !PTE_USER == 0
    requires l & !PTE_PAGE_SIZE == 0 && a & !PTE_ALLOC == 0
    requires PteAddr(frame) == frame && rest & FIELDS == 0
    ensures var x := p | w | u | l | a | frame | rest;
      && x & PTE_PRESENT == p && x & PTE_WRITEABLE == w && x & PTE_USER == u
      && x & PTE_PAGE_SIZE == l && x & PTE_ALLOC == a
      && PteAddr(x) == frame && x & !FIELDS == rest
  {
  }

  lemma Parts(x: bv64, e: Entry<bv64>)
    requires (x & PTE_PRESENT != 0) == e.present && (x & PTE_WRITEABLE != 0) == e.write && (x & PTE_USER != 0) == e.user
    requires (x & PTE_PAGE_SIZE != 0) == e.large && (x & PTE_ALLOC != 0) == e.alloc
    requires PteAddr(x) == e.frame && x & !FIELDS == e.rest
    ensures Decode(x) == e
  {
  }

  lemma EncodeDecode(w: bv64)
    ensures Encodable(Decode(w)) && Encode(Decode(w)) == w
  {
    BitsOfWord(w);
    Gathered(w, PteAddr(w), w & !FIELDS);
  }

  lemma BitsOfWord(w: bv64)
    ensures OneBits(Decode(w)) == w & 0x487
  {
  }

  lemma Gathered(x: bv64, frame: bv64, rest: bv64)
    requires frame == PteAddr(x) && rest == x & !FIELDS
    ensures PteAddr(frame) == frame && rest & FIELDS == 0 && (x & 0x487) | frame | rest == x
  {
  }

  // ---- Flags

  function ConvertFlags(flags: bv64): bv64 {
    Bit(flags & VMEM_USER != 0, PTE_USER) | Bit(flags & VMEM_WRITE != 0, PTE_WRITEABLE) |
    Bit(flags & VMEM_ALLOC != 0, PTE_ALLOC)
  }

  function UnconvertFlags(flags: bv64): bv64 {
    Bit(flags & PTE_USER != 0, VMEM_USER) | Bit(flags & PTE_WRITEABLE != 0, VMEM_WRITE) |
    Bit(flags & PTE_ALLOC != 0, VMEM_ALLOC)
  }

  /** What a caller of the mapping functions asks for. */
  function FlagsOfVmem(flags: bv64): Flags {
    Flags(flags & VMEM_USER != 0, flags & VMEM_WRITE != 0, flags & VMEM_ALLOC != 0)
  }

  /** The flags of an entry survive the way through vmem_unconvert_flags and vmem_convert_flags. */
  lemma FlagsRoundTrip(w: bv64)
    ensures FlagsOfVmem(UnconvertFlags(w & PTE_FLAGS_MASK)) == Flags(Decode(w).user, Decode(w).write, Decode(w).alloc)
    ensures ConvertFlags(UnconvertFlags(w & PTE_FLAGS_MASK)) == w & (PTE_USER | PTE_WRITEABLE | PTE_ALLOC)
  {
  }

  /** What a caller asks for: VMEM_USER is 1, VMEM_WRITE 2 and VMEM_ALLOC 4. */
  lemma FlagNumbers(user: bool, write: bool, alloc: bool)
    ensures FlagsOfVmem(Bit(user, 1) | Bit(write, 2) | Bit(alloc, 4)) == Flags(user, write, alloc)
  {
  }

  /** The words the mapping functions write are the entries of the model. */
  lemma LeafWord(frame: bv64, flags: bv64)
    requires frame == PteAddr(frame)
    ensures Decode(frame | PTE_PRESENT | ConvertFlags(flags)) == MakeEntry(frame, false, FlagsOfVmem(flags))
    ensures Decode(frame | PTE_PRESENT | PTE_PAGE_SIZE | ConvertFlags(flags)) ==
      MakeEntry(frame, true, FlagsOfVmem(flags))
  {
  }

  lemma OrWord(w: bv64, flags: bv64)
    ensures Decode(w | ConvertFlags(flags)) == OrFlags(Decode(w), FlagsOfVmem(flags))
  {
    ConvertedBits(flags);
    OrEntry(w, ConvertFlags(flags), FlagsOfVmem(flags));
  }

  lemma OrEntry(w: bv64, c: bv64, flags: Flags)
    requires c & !(PTE_USER | PTE_WRITEABLE | PTE_ALLOC) == 0
    requires flags == Flags(c & PTE_USER != 0, c & PTE_WRITEABLE != 0, c & PTE_ALLOC != 0)
    ensures Decode(w | c) == OrFlags(Decode(w), flags)
  {
    OrKeepsRest(w, c);
    OrBits(w, c);
    OrParts(w | c, w, c, flags);
  }

  lemma OrParts(v: bv64, w: bv64, c: bv64, flags: Flags)
    requires flags == Flags(c & PTE_USER != 0, c & PTE_WRITEABLE != 0, c & PTE_ALLOC != 0)
    requires PteAddr(v) == PteAddr(w) && v & !FIELDS == w & !FIELDS
    requires v & PTE_PRESENT == w & PTE_PRESENT && v & PTE_PAGE_SIZE == w & PTE_PAGE_SIZE
    requires (v & PTE_USER != 0) == (w & PTE_USER != 0 || c & PTE_USER != 0)
    requires (v & PTE_WRITEABLE != 0) == (w & PTE_WRITEABLE != 0 || c & PTE_WRITEABLE != 0)
    requires (v & PTE_ALLOC != 0) == (w & PTE_ALLOC != 0 || c & PTE_ALLOC != 0)
    ensures Decode(v) == OrFlags(Decode(w), flags)
  {
  }

  lemma ConvertedBits(flags: bv64)
    ensures var c := ConvertFlags(flags);
      && c & !(PTE_USER | PTE_WRITEABLE | PTE_ALLOC) == 0
      && FlagsOfVmem(flags) == Flags(c & PTE_USER != 0, c & PTE_WRITEABLE != 0, c & PTE_ALLOC != 0)
  {
  }

  lemma OrKeepsRest(w: bv64, c: bv64)
    requires c & !(PTE_USER | PTE_WRITEABLE | PTE_ALLOC) == 0
    ensures PteAddr(w | c) == PteAddr(w) && (w | c) & !FIELDS == w & !FIELDS
    ensures (w | c) & PTE_PRESENT == w & PTE_PRESENT && (w | c) & PTE_PAGE_SIZE == w & PTE_PAGE_SIZE
  {
  }

  lemma OrBits(w: bv64, c: bv64)
    ensures ((w | c) & PTE_USER != 0) == (w & PTE_USER != 0 || c & PTE_USER != 0)
    ensures ((w | c) & PTE_WRITEABLE != 0) == (w & PTE_WRITEABLE != 0 || c & PTE_WRITEABLE != 0)
    ensures ((w | c) & PTE_ALLOC != 0) == (w & PTE_ALLOC != 0 || c & PTE_ALLOC != 0)
  {
  }

  /** The test of vmem_unmap_page looks at the user bit, not at the bit that marks allocated pages. */
  lemma UnmapTest(w: bv64)
    ensures (w & VMEM_ALLOC != 0) == Decode(w).user
  {
  }

  // ---- Addresses: a shift is written as a division, a mask of low bits as a remainder

  const WORD: nat := 0x1_0000_0000_0000_0000
  const KERNEL_DIRECT_PHYS_MAPPING_START: nat := 0xffff_8880_0000_0000

  /** PML4E_FROM_ADDR, PDPE_FROM_ADDR, PDE_FROM_ADDR and PTE_FROM_ADDR */
  function PathOf(addr: nat): Path {
    P4(addr / 0x80_0000_0000 % 512, addr / 0x4000_0000 % 512, addr / 0x20_0000 % 512, addr / 0x1000 % 512)
  }

  /** The shifts and masks of these macros are divisions and remainders. */
  lemma IndexBits(addr: bv64)
    ensures (addr >> 39) & 0x1ff == addr / 0x80_0000_0000 % 512 && (addr >> 30) & 0x1ff == addr / 0x4000_0000 % 512
    ensures (addr >> 21) & 0x1ff == addr / 0x20_0000 % 512 && (addr >> 12) & 0x1ff == addr / 0x1000 % 512
  {
  }

  /** The fields of MAKE_ADDR do not overlap, so that `|` is a sum. */
  lemma FieldsApart(m: bv64, p: bv64, d: bv64, t: bv64, o: bv64, sign: bv64)
    requires m < 512 && p < 512 && d < 512 && t < 512 && o < 0x1000
    requires sign == if (m >> 8) & 1 != 0 then ((1 << 16) - 1) << 48 else 0
    ensures ((m << 39) | (p << 30) | (d << 21) | (t << 12) | o) | sign ==
      m * 0x80_0000_0000 + p * 0x4000_0000 + d * 0x20_0000 + t * 0x1000 + o + sign
    ensures ((m >> 8) & 1 != 0) == (m / 256 % 2 == 1) && sign == if m / 256 % 2 == 1 then 0xffff_0000_0000_0000 else 0
  {
  }

  /** MAKE_ADDR, as a sum */
  function MakeAddr(m: nat, p: nat, d: nat, t: nat, o: nat): nat {
    m * 0x80_0000_0000 + p * 0x4000_0000 + d * 0x20_0000 + t * 0x1000 + o +
    if m / 256 % 2 == 1 then 0xffff_0000_0000_0000 else 0
  }

  /** The first address of a page. */
  function PageAddr(q: Path): nat
    requires q.P4?
  {
    MakeAddr(q.m, q.p, q.d, q.t, 0)
  }

  /** Bits 47 to 63 are equal: the addresses the processor accepts. */
  predicate Canonical(addr: nat) {
    addr < 0x8000_0000_0000 || 0xffff_8000_0000_0000 <= addr < WORD
  }

  /** Indices put together make a canonical address with these indices. */
  lemma IndicesOfMadeAddr(q: Path, o: nat)
    requires q.P4? && InBounds(q) && o < PAGE_SIZE
    ensures var a := MakeAddr(q.m, q.p, q.d, q.t, o); PathOf(a) == q && a % PAGE_SIZE == o && Canonical(a)
  {
    var top := q.m + if q.m / 256 % 2 == 1 then 0x1ff_fe00 else 0;
    Digits(top, q.p, q.d, q.t, o);
    Digit(top * 0x4_0000 + q.p * 512 + q.d, q.t);
    Digit(top * 512 + q.p, q.d);
    Digit(top, q.p);
    Digit(if q.m / 256 % 2 == 1 then 0xffff else 0, q.m);
  }

  lemma Digit(high: nat, low: nat)
    requires low < 512
    ensures (high * 512 + low) % 512 == low
  {
  }

  lemma Digits(top: nat, p: nat, d: nat, t: nat, o: nat)
    requires p < 512 && d < 512 && t < 512 && o < PAGE_SIZE
    ensures var a := top * 0x80_0000_0000 + p * 0x4000_0000 + d * 0x20_0000 + t * 0x1000 + o;
      && a % 0x1000 == o
      && a / 0x1000 == (top * 0x4_0000 + p * 512 + d) * 512 + t
      && a / 0x20_0000 == (top * 512 + p) * 512 + d
      && a / 0x4000_0000 == top * 512 + p
      && a / 0x80_0000_0000 == top
  {
  }

  /** A canonical address is made of its indices: no two pages share a path. */
  lemma MadeAddrOfIndices(a: nat)
    requires Canonical(a)
    ensures InBounds(PathOf(a)) && PageAddr(PathOf(a)) == a - a % PAGE_SIZE
    ensures var q := PathOf(a); MakeAddr(q.m, q.p, q.d, q.t, a % PAGE_SIZE) == a
  {
    Levels(a);
    TopIndex(a, a / 0x80_0000_0000);
    Recompose(a, a % PAGE_SIZE, a / 0x1000, a / 0x20_0000, a / 0x4000_0000, a / 0x80_0000_0000);
  }

  lemma Levels(a: nat)
    ensures a / 0x20_0000 == a / 0x1000 / 512 && a / 0x4000_0000 == a / 0x20_0000 / 512
    ensures a / 0x80_0000_0000 == a / 0x4000_0000 / 512
  {
  }

  /** The upper bits of a canonical address follow from its first index. */
  lemma TopIndex(a: nat, top: nat)
    requires Canonical(a) && top == a / 0x80_0000_0000
    ensures top == top % 512 + if top % 512 / 256 % 2 == 1 then 0x1ff_fe00 else 0
  {
    assert top < 256 || 0x1ff_ff00 <= top < 0x200_0000;
  }

  lemma Recompose(a: nat, o: nat, x: nat, y: nat, z: nat, top: nat)
    requires a == x * PAGE_SIZE + o && y == x / 512 && z == y / 512 && top == z / 512
    ensures a == top * 0x80_0000_0000 + z % 512 * 0x4000_0000 + y % 512 * 0x20_0000 + x % 512 * 0x1000 + o
  {
  }

  /** Two addresses have the same path if and only if they are in the same page. */
  lemma PagesApart(a: nat, b: nat)
    requires Canonical(a) && Canonical(b)
    ensures PathOf(a) == PathOf(b) <==> a / PAGE_SIZE == b / PAGE_SIZE
  {
    if PathOf(a) == PathOf(b) {
      MadeAddrOfIndices(a);
      MadeAddrOfIndices(b);
    } else {
      Levels(a);
      Levels(b);
    }
  }

  lemma AlignedNext(addr: nat)
    requires addr % PAGE_SIZE == 0
    ensures (addr + PAGE_SIZE) % PAGE_SIZE == 0
  {
  }

  /** PHYS_TO_VIRT and VIRT_TO_PHYS, in 64-bit arithmetic */
  function PhysToVirt(addr: nat): nat {
    (KERNEL_DIRECT_PHYS_MAPPING_START + addr) % WORD
  }

  function VirtToPhys(addr: nat): nat {
    (addr + WORD - KERNEL_DIRECT_PHYS_MAPPING_START) % WORD
  }

  /** The conversions are inverse to each other; that of NULL is not NULL. */
  lemma Conversions(a: nat)
    requires a < WORD
    ensures VirtToPhys(PhysToVirt(a)) == a && PhysToVirt(VirtToPhys(a)) == a
    ensures VirtToPhys(0) == 0x7780_0000_0000
  {
  }
}
