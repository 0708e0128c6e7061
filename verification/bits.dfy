/** Python's shift and bitwise operators on non-negative integers.  Python
    integers are unbounded, so these are defined on `nat` bit by bit rather than
    on a fixed-width bit-vector type. */
module Bits {

  function Pow2(k: nat): (r: nat)
    ensures r >= 1
  {
    if k == 0 then 1 else 2 * Pow2(k - 1)
  }

  /** `x << k` */
  function Shl(x: nat, k: nat): nat {
    x * Pow2(k)
  }

  /** `x >> k` (floor division, as Python does for non-negative operands) */
  function Shr(x: nat, k: nat): nat {
    DivMod(x, Pow2(k));
    x / Pow2(k)
  }

  /** `x | y`, one bit at a time from the least significant end */
  function Or(x: nat, y: nat): nat
    decreases x + y
  {
    if x == 0 then y
    else if y == 0 then x
    else 2 * Or(x / 2, y / 2) + (if x % 2 == 1 || y % 2 == 1 then 1 else 0)
  }

  /** `x & y`, one bit at a time from the least significant end */
  function And(x: nat, y: nat): nat
    decreases x + y
  {
    if x == 0 || y == 0 then 0
    else 2 * And(x / 2, y / 2) + (if x % 2 == 1 && y % 2 == 1 then 1 else 0)
  }

  lemma ModOfSplit(x: nat, m: nat, a: nat, b: nat)
    requires m > 0 && x == m * a + b && b < m
    ensures x % m == b && x / m == a
  {
    var q, r := x / m, x % m;
    assert x == m * q + r;
    if a > q {
      assert m * a == m * q + m * (a - q);
      MulAtLeast(m, a - q);
      assert false;
    } else if a < q {
      assert m * q == m * a + m * (q - a);
      MulAtLeast(m, q - a);
      assert false;
    }
  }

  lemma DivMod(n: nat, p: nat)
    requires p > 0
    ensures n == p * (n / p) + n % p
    ensures 0 <= n / p && 0 <= n % p < p
  {
  }

  lemma MulAtLeast(m: nat, k: nat)
    requires k >= 1
    ensures m * k >= m
  {
  }

  lemma Regroup(x: nat, h: nat, low: nat, p: nat, q: nat, b: nat)
    requires x == 2 * h + low && h == p * q + b
    ensures x == (2 * p) * q + (2 * b + low)
  {
    assert (2 * p) * q == 2 * (p * q);
  }

  /** Masking with `2^k - 1` keeps the low `k` bits: `x & (2^k - 1) == x % 2^k`. */
  lemma {:induction false} AndLowMask(x: nat, k: nat)
    ensures And(x, Pow2(k) - 1) == x % Pow2(k)
  {
    if k == 0 {
      assert Pow2(k) - 1 == 0;
      ModOfSplit(x, 1, x, 0);
    } else if x == 0 {
      ModOfSplit(x, Pow2(k), 0, 0);
    } else {
      var p := Pow2(k - 1);
      assert Pow2(k) == 2 * p;
      AndLowMask(x / 2, k - 1);
      AndLowMaskStep(x, p, 2 * p - 1);
    }
  }

  /** One bit of `AndLowMask`: the low bit of `x` is kept and the rest is
      masked one bit narrower. */
  lemma AndLowMaskStep(x: nat, p: nat, mask: nat)
    requires x > 0 && p >= 1 && mask == 2 * p - 1 && And(x / 2, p - 1) == (x / 2) % p
    ensures And(x, mask) == x % (2 * p)
  {
    ModOfSplit(mask, 2, p - 1, 1);
    DivMod(x, 2);
    var h: nat := x / 2;
    var low: nat := x % 2;
    assert And(x, mask) == 2 * And(h, p - 1) + low;
    DivMod(h, p);
    var q: nat := h / p;
    var b: nat := h % p;
    assert And(h, p - 1) == b;
    Regroup(x, h, low, p, q, b);
    ModOfSplit(x, 2 * p, q, 2 * b + low);
    assert And(x, mask) == x % (2 * p);
  }

  /** OR-ing a value into bits that are known to be zero is addition. */
  lemma {:induction false} OrDisjoint(a: nat, c: nat, k: nat)
    requires c < Pow2(k)
    ensures Or(Shl(a, k), c) == Shl(a, k) + c
  {
    if k == 0 {
    } else {
      var p := Pow2(k - 1);
      var big := a * Pow2(k);
      assert big == 2 * (a * p);
      if big == 0 || c == 0 {
      } else {
        assert big / 2 == a * p && big % 2 == 0;
        OrDisjoint(a, c / 2, k - 1);
        assert Or(big, c) == 2 * Or(a * p, c / 2) + c % 2;
      }
    }
  }

  /** `x | y` is at least each operand. */
  lemma {:induction false} OrAtLeast(x: nat, y: nat)
    ensures Or(x, y) >= x && Or(x, y) >= y
    decreases x + y
  {
    if x != 0 && y != 0 {
      OrAtLeast(x / 2, y / 2);
    }
  }

  /** `x | y` stays within `n` bits when both operands do. */
  lemma {:induction false} OrBelow(x: nat, y: nat, n: nat)
    requires x < Pow2(n) && y < Pow2(n)
    ensures Or(x, y) < Pow2(n)
  {
    if x != 0 && y != 0 {
      OrBelow(x / 2, y / 2, n - 1);
    }
  }
}
