/** Powers of two, single bits of a byte (GET_BIT, SET_BIT, CLEAR_BIT and FLIP_BIT of common.h)
    and single bits of an address. */
module Bits {

  function Pow2(k: nat): (r: nat)
    ensures r > 0
  {
    if k == 0 then 1 else 2 * Pow2(k - 1)
  }

  lemma {:induction false} Pow2Add(a: nat, b: nat)
    ensures Pow2(a + b) == Pow2(a) * Pow2(b)
  {
    if a > 0 { Pow2Add(a - 1, b); }
  }

  lemma MulAtLeast(d: int, k: int)
    requires d > 0 && k >= 1
    ensures d * k >= d
  {
  }

  lemma DivUnique(a: int, d: int, q: int, r: int)
    requires d > 0 && a == d * q + r && 0 <= r < d
    ensures a / d == q && a % d == r
  {
    var q' := a / d;
    var r' := a % d;
    assert a == d * q' + r' && 0 <= r' < d;
    var diff := q - q';
    assert d * diff == d * q - d * q';
    if diff >= 1 { MulAtLeast(d, diff); }
  }

  lemma DivExact(q: int, d: int)
    requires d > 0
    ensures (q * d) / d == q
  {
    DivUnique(q * d, d, q, 0);
  }

  // ---- One bit of a byte

  function Mask(i: nat): bv8 {
    if i == 0 then 1 else if i == 1 then 2 else if i == 2 then 4 else if i == 3 then 8
    else if i == 4 then 16 else if i == 5 then 32 else if i == 6 then 64 else 128
  }

  predicate GetBit(v: bv8, i: nat) {
    v & Mask(i) != 0
  }

  datatype BitOp = Set | Clear | Flip

  function WriteBit(op: BitOp, v: bv8, i: nat): bv8 {
    match op
    case Set => v | Mask(i)
    case Clear => v & !Mask(i)
    case Flip => v ^ Mask(i)
  }

  predicate NewBit(op: BitOp, was: bool) {
    match op
    case Set => true
    case Clear => false
    case Flip => !was
  }

  lemma Masks(i: nat, j: nat)
    requires i < 8 && j < 8
    ensures Mask(i) != 0 && Mask(i) & (Mask(i) - 1) == 0
    ensures i != j ==> Mask(i) & Mask(j) == 0
  {
    if i < 4 { } else { }
  }

  lemma WriteMask(v: bv8, m: bv8, n: bv8)
    requires m != 0 && m & (m - 1) == 0
    ensures (v | m) & m != 0 && (v & !m) & m == 0 && ((v ^ m) & m != 0 <==> v & m == 0)
    ensures m & n == 0 ==> (v | m) & n == v & n && (v & !m) & n == v & n && (v ^ m) & n == v & n
  {
  }

  /** Writing one bit of a byte changes that bit as the operation says, and no other. */
  lemma WriteBitExact(op: BitOp, v: bv8, i: nat, j: nat)
    requires i < 8 && j < 8
    ensures GetBit(WriteBit(op, v, i), j) <==> if i == j then NewBit(op, GetBit(v, i)) else GetBit(v, j)
  {
    Masks(i, j);
    WriteMask(v, Mask(i), Mask(j));
  }
}
