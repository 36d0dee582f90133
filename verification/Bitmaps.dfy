/** A set of small numbers in an array of machine words, of which only the first `stride` bits each are used. */
module Bitmaps {

  // ---------- words ----------

  /** `1 << n`. */
  function Shift(n: nat): (r: nat)
    ensures 0 < r
  {
    if n == 0 then 1 else 2 * Shift(n - 1)
  }

  /** Bitwise or. */
  function Or(a: nat, b: nat): nat {
    if a == 0 then b else if b == 0 then a
    else 2 * Or(a / 2, b / 2) + (if a % 2 == 1 || b % 2 == 1 then 1 else 0)
  }

  /** Bitwise and. */
  function And(a: nat, b: nat): nat {
    if a == 0 || b == 0 then 0
    else 2 * And(a / 2, b / 2) + (if a % 2 == 1 && b % 2 == 1 then 1 else 0)
  }

  /** Bit `k` of a word. */
  predicate Bit(w: nat, k: nat) {
    if k == 0 then w % 2 == 1 else Bit(w / 2, k - 1)
  }

  lemma {:induction false} NoBits(k: nat)
    ensures !Bit(0, k)
  {
    if k > 0 {
      NoBits(k - 1);
    }
  }

  lemma {:induction false} OrBit(a: nat, b: nat, k: nat)
    ensures Bit(Or(a, b), k) <==> Bit(a, k) || Bit(b, k)
  {
    if a == 0 || b == 0 {
      NoBits(k);
    } else if k > 0 {
      OrBit(a / 2, b / 2, k - 1);
    }
  }

  lemma {:induction false} ShiftBit(n: nat, k: nat)
    ensures Bit(Shift(n), k) <==> k == n
  {
    if n == 0 {
      if k > 0 {
        NoBits(k - 1);
      }
    } else if k > 0 {
      ShiftBit(n - 1, k - 1);
    }
  }

  lemma {:induction false} AndShift(w: nat, n: nat)
    ensures And(w, Shift(n)) != 0 <==> Bit(w, n)
  {
    if w == 0 {
      NoBits(n);
    } else if n > 0 {
      AndShift(w / 2, n - 1);
    }
  }

  lemma {:induction false} ShiftMonotone(m: nat, n: nat)
    requires m < n
    ensures 2 * Shift(m) <= Shift(n)
  {
    if m + 1 < n {
      ShiftMonotone(m, n - 1);
    }
  }

  /** Words stay words. */
  lemma {:induction false} OrFits(a: nat, b: nat, width: nat)
    requires a < Shift(width) && b < Shift(width)
    ensures Or(a, b) < Shift(width)
  {
    if a != 0 && b != 0 {
      OrFits(a / 2, b / 2, width - 1);
    }
  }

  // ---------- the bitmap ----------

  /** Words of `width` bits; `stride` of them are used. */
  class Bitmap {
    const width: nat
    const stride: nat
    const size: nat
    const bits: array<nat>

    ghost predicate Valid()
      reads this, bits
    {
      && 0 < stride <= width
      && bits.Length == (size + stride - 1) / stride
      && (forall n :: 0 <= n < bits.Length ==> bits[n] < Shift(width))
    }

    /** `id` is set: its bit of its word is. */
    ghost predicate Has(id: nat)
      reads this, bits
      requires Valid()
    {
      id < size && (Located(id, size, stride); Bit(bits[id / stride], id % stride))
    }

    /** An empty set of numbers below `size`. */
    constructor (width: nat, stride: nat, size: nat)
      requires 0 < stride <= width
      ensures Valid() && this.size == size && this.width == width && this.stride == stride && fresh(bits)
      ensures forall id: nat :: !Has(id)
    {
      hide Shift, Bit;
      this.width, this.stride, this.size := width, stride, size;
      bits := new nat[(size + stride - 1) / stride](_ => 0);
      new;
      NoneSet();
    }

    lemma {:induction false} NoneSet()
      requires 0 < stride <= width && bits.Length == (size + stride - 1) / stride
      requires forall n :: 0 <= n < bits.Length ==> bits[n] == 0
      ensures Valid() && forall id: nat :: !Has(id)
    {
      forall id: nat ensures Valid() && !Has(id) {
        if id < size {
          Located(id, size, stride);
          NoBits(id % stride);
        }
      }
    }

    method IsSet(id: nat) returns (r: bool)
      requires Valid()
      ensures r == Has(id)
    {
      if id >= size {
        return false;
      }
      Located(id, size, stride);
      AndShift(bits[id / stride], id % stride);
      r := And(bits[id / stride], Shift(id % stride)) != 0;
    }

    /** Sets a number without asking whether it is below `size`: it has to be, and then nothing else changes. */
    method Lock(id: nat)
      requires Valid() && id < size
      modifies bits
      ensures Valid() && forall m: nat :: Has(m) <==> m == id || old(Has(m))
    {
      Located(id, size, stride);
      var n: nat, w := id / stride, Shift(id % stride);
      ShiftMonotone(id % stride, width);
      OrFits(bits[n], w, width);
      bits[n] := Or(bits[n], w);
      forall m: nat ensures Has(m) <==> m == id || old(Has(m)) {
        if m < size {
          Located(m, size, stride);
          if m / stride == n {
            OrBit(old(bits[n]), w, m % stride);
            ShiftBit(id % stride, m % stride);
            SamePlace(m, id, stride);
          }
        }
      }
    }

    /** Sets a number; a number beyond the size is ignored. */
    method Set(id: nat)
      requires Valid()
      modifies bits
      ensures Valid() && forall m: nat :: Has(m) <==> (m == id && id < size) || old(Has(m))
    {
      if id < size {
        Lock(id);
      }
    }
  }

  lemma {:induction false} Located(id: nat, size: nat, stride: nat)
    requires id < size && 0 < stride
    ensures id / stride < (size + stride - 1) / stride
  {
    var q, n := id / stride, (size + stride - 1) / stride;
    assert id == stride * q + id % stride;
    assert size + stride - 1 == stride * n + (size + stride - 1) % stride;
    assert n <= q ==> stride * n <= stride * q by {
      if n <= q {
        Multiples(n, q, stride);
      }
    }
  }

  lemma {:induction false} Multiples(a: nat, b: nat, d: nat)
    requires a <= b
    ensures d * a <= d * b
  {
    assert d * b == d * a + d * (b - a);
  }

  lemma {:induction false} SamePlace(a: nat, b: nat, d: nat)
    requires 0 < d && a / d == b / d
    ensures a % d == b % d <==> a == b
  {
    assert a == d * (a / d) + a % d && b == d * (b / d) + b % d;
  }
}
