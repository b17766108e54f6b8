/** Address alignment as the early allocator computes it: with a bit mask.

    The allocator rounds an address up with `(x + a - 1) & !(a - 1)` and down
    with `x & !(a - 1)`, where `a` is a power of two. Addresses are unbounded
    naturals here, so `x & !m` is written out bit by bit as `ClearBits(x, m)`
    (the bits of `x` that are set in `m` are cleared). The lemmas below show
    that, for `m == a - 1`, this is rounding down to a multiple of `a`.
 */
module Alignment {

  /** `a` is 1, 2, 4, 8, ... */
  predicate IsPowerOfTwo(a: nat)
    decreases a
  {
    a == 1 || (a >= 2 && a % 2 == 0 && IsPowerOfTwo(a / 2))
  }

  /** `x & !m` on naturals: bit i of the result is bit i of `x`, unless bit i
      of `m` is set. Clearing bits never makes a number larger. */
  function ClearBits(x: nat, m: nat): (r: nat)
    ensures r <= x
    decreases x
  {
    if x == 0 then 0
    else 2 * ClearBits(x / 2, m / 2) + (if x % 2 == 1 && m % 2 == 0 then 1 else 0)
  }

  /** Masking with `!0` keeps every bit. */
  lemma {:induction false} ClearNoBits(x: nat)
    ensures ClearBits(x, 0) == x
    decreases x
  {
    if x != 0 {
      ClearNoBits(x / 2);
    }
  }

  /** A positive multiple of `d` is at least `d`. */
  lemma MulAtLeast(d: nat, k: nat)
    requires k >= 1
    ensures d * k >= d
  {
  }

  lemma MulDistributes(d: nat, a: nat, k: nat)
    ensures d * (a + k) == d * a + d * k
  {
  }

  /** Euclidean division is determined by quotient and remainder bounds. */
  lemma DivUnique(x: nat, d: nat, q: nat, r: nat)
    requires d > 0 && r < d && x == d * q + r
    ensures x / d == q && x % d == r
  {
    var q', r' := x / d, x % d;
    assert x == d * q' + r';
    if q' < q {
      MulDistributes(d, q', q - q');
      MulAtLeast(d, q - q');
    } else if q' > q {
      MulDistributes(d, q, q' - q);
      MulAtLeast(d, q' - q);
    }
  }

  /** Halving and then dividing by `b` is dividing by `2 * b`. */
  lemma DivHalfThen(x: nat, b: nat)
    requires b > 0
    ensures (x / 2) / b == x / (2 * b)
  {
    var h := x / 2;
    var q, r1 := h / b, h % b;
    assert h == b * q + r1;
    assert x == 2 * h + x % 2;
    assert x == (2 * b) * q + (2 * r1 + x % 2);
    DivUnique(x, 2 * b, q, 2 * r1 + x % 2);
  }

  /** For a power of two `a`, `x & !(a - 1)` rounds `x` down to a multiple of `a`. */
  lemma {:induction false} ClearLowBits(x: nat, a: nat)
    requires IsPowerOfTwo(a)
    ensures ClearBits(x, a - 1) == (x / a) * a
    decreases a
  {
    if a == 1 {
      ClearNoBits(x);
    } else if x != 0 {
      var b := a / 2;
      assert a == 2 * b;
      assert (a - 1) % 2 == 1 && (a - 1) / 2 == b - 1;
      var q := x / a;
      calc {
        ClearBits(x, a - 1);
        2 * ClearBits(x / 2, b - 1);
        { ClearLowBits(x / 2, b); }
        2 * ((x / 2 / b) * b);
        { DivHalfThen(x, b); }
        2 * (q * b);
        { MulAssociates(q, b); }
        q * a;
      }
    }
  }

  lemma MulAssociates(q: nat, b: nat)
    ensures 2 * (q * b) == q * (2 * b)
  {
  }

  /** `(x / a) * a` is the greatest multiple of `a` that is at most `x`. */
  lemma RoundDownBounds(x: nat, a: nat)
    requires a > 0
    ensures ((x / a) * a) % a == 0
    ensures (x / a) * a <= x < (x / a) * a + a
  {
    var q := x / a;
    DivUnique(q * a, a, q, 0);
    assert x == a * q + x % a;
  }

  /** The only multiple of `a` below `a` is zero. */
  lemma SmallMultiple(r: nat, a: nat)
    requires a > 0 && r % a == 0 && r < a
    ensures r == 0
  {
    DivUnique(r, a, 0, r);
  }

  lemma AlignUpBounds(x: nat, a: nat)
    requires IsPowerOfTwo(a)
    ensures var r := ClearBits(x + a - 1, a - 1);
      r % a == 0 && x <= r < x + a && (r == 0 <==> x == 0)
  {
    var y := x + a - 1;
    var r := ClearBits(y, a - 1);
    ClearLowBits(y, a);
    RoundDownBounds(y, a);
    assert r == (y / a) * a;
    assert r % a == 0 && r <= y < r + a;
    if x == 0 {
      SmallMultiple(r, a);
    }
  }

  lemma AlignDownBounds(x: nat, a: nat)
    requires IsPowerOfTwo(a)
    ensures var r := ClearBits(x, a - 1);
      r % a == 0 && r <= x < r + a
  {
    ClearLowBits(x, a);
    RoundDownBounds(x, a);
  }

  /** `(x + a - 1) & !(a - 1)`: the least multiple of `a` that is at least `x`. */
  function AlignUp(x: nat, a: nat): (r: nat)
    requires IsPowerOfTwo(a)
    ensures r % a == 0 && x <= r < x + a
    ensures r == 0 <==> x == 0
  {
    AlignUpBounds(x, a);
    ClearBits(x + a - 1, a - 1)
  }

  /** `x & !(a - 1)`: the greatest multiple of `a` that is at most `x`. */
  function AlignDown(x: nat, a: nat): (r: nat)
    requires IsPowerOfTwo(a)
    ensures r % a == 0 && r <= x < r + a
  {
    AlignDownBounds(x, a);
    ClearBits(x, a - 1)
  }

  /** Rounding up an address that is already aligned leaves it alone. */
  lemma AlignUpOfAligned(x: nat, a: nat)
    requires IsPowerOfTwo(a) && x % a == 0
    ensures AlignUp(x, a) == x
  {
    var q := x / a;
    assert x == a * q;
    DivUnique(x + a - 1, a, q, a - 1);
    calc {
      AlignUp(x, a);
      ClearBits(x + a - 1, a - 1);
      { ClearLowBits(x + a - 1, a); }
      ((x + a - 1) / a) * a;
      q * a;
    }
  }

  /** Rounding down an address that is already aligned leaves it alone. */
  lemma AlignDownOfAligned(x: nat, a: nat)
    requires IsPowerOfTwo(a) && x % a == 0
    ensures AlignDown(x, a) == x
  {
    assert x == a * (x / a);
    ClearLowBits(x, a);
  }
}
