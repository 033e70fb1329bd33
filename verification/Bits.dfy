/** The bits of a number, as shifts and tests see them. */
module Bits {

  function Pow2(n: nat): (r: nat)
    ensures r >= 1
  {
    if n == 0 then 1 else 2 * Pow2(n - 1)
  }

  /** value >> bits */
  function Shr(value: nat, bits: nat): nat {
    if bits == 0 then value else Shr(value, bits - 1) / 2
  }

  predicate IsBitSet(value: nat, index: nat) { Shr(value, index) % 2 == 1 }

  /** A number below 2^depth has no bits beyond `depth`. */
  lemma {:induction false} ShrToZero(value: nat, bits: nat, depth: nat)
    requires bits <= depth && value < Pow2(depth)
    ensures Shr(value, bits) < Pow2(depth - bits)
    decreases bits
  {
    if bits > 0 { ShrToZero(value, bits - 1, depth); }
  }

  lemma {:induction false} ShrShift(value: nat, bits: nat)
    requires bits > 0
    ensures Shr(value, bits) == Shr(value / 2, bits - 1)
    decreases bits
  {
    if bits > 1 { ShrShift(value, bits - 1); }
  }

  lemma {:induction false} ZeroShr(value: nat, bits: nat)
    requires Shr(value, bits) == 0
    ensures value < Pow2(bits)
    decreases bits
  {
    if bits > 0 {
      ShrShift(value, bits);
      ZeroShr(value / 2, bits - 1);
    }
  }

  lemma {:induction false} ShrAdd(value: nat, index: nat, bits: nat)
    requires bits <= index
    ensures Shr(value + Pow2(index), bits) == Shr(value, bits) + Pow2(index - bits)
    decreases bits
  {
    if bits > 0 { ShrAdd(value, index, bits - 1); }
  }

  lemma {:induction false} SameAbove(a: nat, b: nat, low: nat, high: nat)
    requires low <= high && Shr(a, low) == Shr(b, low)
    ensures Shr(a, high) == Shr(b, high)
    decreases high
  {
    if low < high { SameAbove(a, b, low, high - 1); }
  }

  /** Setting a clear bit, as value | (1 << index) does: that bit is set, and no other changes. */
  lemma SetBit(value: nat, index: nat)
    requires !IsBitSet(value, index)
    ensures IsBitSet(value + Pow2(index), index)
    ensures Shr(value + Pow2(index), index + 1) == Shr(value, index + 1)
    ensures Shr(value + Pow2(index), index) == Shr(value, index) + 1
  {
    ShrAdd(value, index, index);
  }

  lemma SetBitBelow(value: nat, index: nat, lower: nat)
    requires lower < index
    ensures IsBitSet(value + Pow2(index), lower) <==> IsBitSet(value, lower)
  {
    ShrAdd(value, index, lower);
    assert Pow2(index - lower) == 2 * Pow2(index - lower - 1);
  }

  lemma SetBitWithin(value: nat, index: nat, depth: nat)
    requires !IsBitSet(value, index) && index < depth && value < Pow2(depth)
    ensures value + Pow2(index) < Pow2(depth)
  {
    SetBit(value, index);
    SameAbove(value + Pow2(index), value, index + 1, depth);
    ShrToZero(value, depth, depth);
    ZeroShr(value + Pow2(index), depth);
  }

  predicate AllSet(value: nat, bits: nat) { forall i :: 0 <= i < bits ==> IsBitSet(value, i) }

  /** A number of `depth` bits that are all set. */
  lemma {:induction false} AllSetIsGreatest(value: nat, depth: nat)
    requires value < Pow2(depth) && AllSet(value, depth)
    ensures value == Pow2(depth) - 1
    decreases depth
  {
    if depth > 0 {
      assert IsBitSet(value, 0);
      forall i | 0 <= i < depth - 1 ensures IsBitSet(value / 2, i) {
        ShrShift(value, i + 1);
        assert IsBitSet(value, i + 1);
      }
      AllSetIsGreatest(value / 2, depth - 1);
    }
  }

  // ---------- a number in two parts ----------

  lemma TimesTwice(q: nat, x: nat)
    ensures q * (2 * x) == 2 * (q * x)
  {}

  lemma {:induction false} ShrSplit(q: nat, r: nat, d: nat, i: nat)
    requires i <= d
    ensures Shr(q * Pow2(d) + r, i) == q * Pow2(d - i) + Shr(r, i)
    decreases i
  {
    if i > 0 {
      ShrSplit(q, r, d, i - 1);
      assert Pow2(d - (i - 1)) == 2 * Pow2(d - i);
      TimesTwice(q, Pow2(d - i));
    }
  }

  lemma {:induction false} ShrTwice(value: nat, a: nat, b: nat)
    ensures Shr(value, a + b) == Shr(Shr(value, a), b)
    decreases b
  {
    if b > 0 { ShrTwice(value, a, b - 1); }
  }

  lemma {:induction false} ShrOfZero(bits: nat)
    ensures Shr(0, bits) == 0
    decreases bits
  {
    if bits > 0 { ShrOfZero(bits - 1); }
  }

  /** The lower `d` bits of a number and the others: each bit is in one of the two parts. */
  lemma BitsSplit(high: nat, q: nat, r: nat, d: nat, i: nat)
    requires r < Pow2(d) && high == q * Pow2(d)
    ensures IsBitSet(r, i) <==> i < d && IsBitSet(high + r, i)
    ensures IsBitSet(high, i) <==> i >= d && IsBitSet(high + r, i)
  {
    if i < d { BitsBelow(high, q, r, d, i); } else { BitsFrom(high, q, r, d, i); }
  }

  lemma BitsBelow(high: nat, q: nat, r: nat, d: nat, i: nat)
    requires high == q * Pow2(d) && i < d
    ensures IsBitSet(high + r, i) <==> IsBitSet(r, i)
    ensures !IsBitSet(high, i)
  {
    var half := EvenShr(high, q, r, d, i);
    var half' := EvenShr(high, q, 0, d, i);
    ShrOfZero(i);
  }

  lemma EvenShr(high: nat, q: nat, r: nat, d: nat, i: nat) returns (half: nat)
    requires high == q * Pow2(d) && i < d
    ensures Shr(high + r, i) == 2 * half + Shr(r, i)
  {
    ShrSplit(q, r, d, i);
    half := EvenPart(q, d - i);
  }

  lemma BitsFrom(high: nat, q: nat, r: nat, d: nat, i: nat)
    requires r < Pow2(d) && high == q * Pow2(d) && i >= d
    ensures IsBitSet(high + r, i) <==> IsBitSet(high, i)
    ensures !IsBitSet(r, i)
  {
    ShrSplit(q, r, d, d);
    ShrSplit(q, 0, d, d);
    ShrOfZero(d);
    ShrToZero(r, d, d);
    ShrTwice(high + r, d, i - d);
    ShrTwice(high, d, i - d);
    ShrTwice(r, d, i - d);
    ShrOfZero(i - d);
  }

  lemma EvenPart(q: nat, n: nat) returns (half: nat)
    requires n > 0
    ensures q * Pow2(n) == 2 * half
  {
    half := q * Pow2(n - 1);
  }
}
