/** Powers of two, and bits as an address mask uses them. */
module Arith {

  type Byte = x: int | 0 <= x < 256

  function Pow2(n: nat): (p: nat)
    ensures p > 0
  {
    if n == 0 then 1 else 2 * Pow2(n - 1)
  }

  function And(x: nat, y: nat): nat {
    if x == 0 || y == 0 then 0 else 2 * And(x / 2, y / 2) + if x % 2 == 1 && y % 2 == 1 then 1 else 0
  }

  function Or(x: nat, y: nat): nat {
    if x == 0 && y == 0 then 0 else 2 * Or(x / 2, y / 2) + if x % 2 == 1 || y % 2 == 1 then 1 else 0
  }

  /** `x` with its low `k` bits cleared: the start of the aligned block of 2^k numbers that `x` is in. */
  function Clear(x: nat, k: nat): nat {
    if k == 0 then x else 2 * Clear(x / 2, k - 1)
  }

  lemma {:induction false} PowMonotone(a: nat, b: nat)
    requires a <= b
    ensures Pow2(a) <= Pow2(b)
    ensures a < b ==> Pow2(a) < Pow2(b)
  {
    if a < b {
      PowMonotone(a, b - 1);
    }
  }

  /** The aligned block that starts at Clear(x, k) contains `x`. */
  lemma {:induction false} ClearBlock(x: nat, k: nat)
    ensures Clear(x, k) <= x < Clear(x, k) + Pow2(k)
  {
    if k > 0 {
      ClearBlock(x / 2, k - 1);
    }
  }

  /** Blocks do not overlap: every member of an aligned block clears to the block's start, and the next
      number starts a block of its own. */
  lemma {:induction false} ClearWithin(b: nat, d: nat, k: nat)
    requires Clear(b, k) == b && d <= Pow2(k)
    ensures d < Pow2(k) ==> Clear(b + d, k) == b
    ensures d == Pow2(k) ==> Clear(b + d, k) == b + d
  {
    if k > 0 {
      assert (b + d) / 2 == b / 2 + d / 2;
      ClearWithin(b / 2, d / 2, k - 1);
    }
  }

  lemma {:induction false} ClearTwice(x: nat, k: nat)
    ensures Clear(Clear(x, k), k) == Clear(x, k)
  {
    if k > 0 {
      var c := Clear(x / 2, k - 1);
      ClearTwice(x / 2, k - 1);
      assert (2 * c) / 2 == c;
    }
  }

  lemma {:induction false} ClearCoarser(x: nat, g: nat, h: nat)
    requires g <= h
    ensures Clear(Clear(x, g), h) == Clear(x, h)
  {
    if g > 0 {
      ClearCoarser(x / 2, g - 1, h - 1);
    }
  }

  lemma DoublePow2(j: nat, v: nat)
    requires j > 0
    ensures Pow2(j) * v == v * Pow2(j) == 2 * (Pow2(j - 1) * v) == 2 * (v * Pow2(j - 1))
  {
    var p := Pow2(j - 1);
    assert (2 * p) * v == 2 * (p * v);
  }

  /** Clearing fewer bits than the low digit has leaves the high digit alone. */
  lemma {:induction false} ClearLow(v: nat, b: nat, j: nat, k: nat)
    requires k <= j
    ensures Clear(Pow2(j) * v + b, k) == Pow2(j) * v + Clear(b, k)
  {
    if k > 0 {
      var m := Pow2(j - 1) * v;
      DoublePow2(j, v);
      ClearLow(v, b / 2, j - 1, k - 1);
      assert (2 * m + b) / 2 == m + b / 2;
    }
  }

  /** Clearing at least the whole low digit clears the high digit by the rest. */
  lemma {:induction false} ClearHigh(v: nat, b: nat, j: nat, k: nat)
    requires j <= k && b < Pow2(j)
    ensures Clear(Pow2(j) * v + b, k) == Pow2(j) * Clear(v, k - j)
  {
    if j > 0 {
      var m := Pow2(j - 1) * v;
      DoublePow2(j, v);
      ClearHigh(v, b / 2, j - 1, k - 1);
      assert (2 * m + b) / 2 == m + b / 2;
      DoublePow2(j, Clear(v, k - j));
    }
  }

  lemma {:induction false} AndBound(x: nat, y: nat)
    ensures And(x, y) <= x
  {
    if x != 0 && y != 0 {
      AndBound(x / 2, y / 2);
    }
  }

  lemma {:induction false} AndOnes(x: nat, n: nat)
    requires x < Pow2(n)
    ensures And(x, Pow2(n) - 1) == x
  {
    if n > 0 && x > 0 {
      AndOnes(x / 2, n - 1);
    }
  }

  /** And-ing with n - k ones followed by k zeros clears the low k bits. */
  lemma {:induction false} AndMask(x: nat, k: nat, n: nat)
    requires x < Pow2(n) && k <= n
    ensures Pow2(k) <= Pow2(n)
    ensures And(x, Pow2(n) - Pow2(k)) == Clear(x, k)
  {
    PowMonotone(k, n);
    if k == 0 {
      AndOnes(x, n);
    } else {
      AndMask(x / 2, k - 1, n - 1);
    }
  }

  lemma {:induction false} OrZero(x: nat)
    ensures Or(x, 0) == x
  {
    if x > 0 {
      OrZero(x / 2);
    }
  }

  /** Or-ing k ones into the start of a block of 2^k numbers gives its last member. */
  lemma {:induction false} OrLow(x: nat, k: nat)
    requires Clear(x, k) == x
    ensures Or(x, Pow2(k) - 1) == x + Pow2(k) - 1
  {
    if k == 0 {
      OrZero(x);
    } else {
      var c, p := Clear(x / 2, k - 1), Pow2(k - 1);
      assert x == 2 * c && x / 2 == c;
      OrLow(c, k - 1);
      assert (2 * p - 1) / 2 == p - 1;
    }
  }

  lemma {:induction false} OrBound(x: nat, y: nat, n: nat)
    requires x < Pow2(n) && y < Pow2(n)
    ensures Or(x, y) < Pow2(n)
  {
    if n > 0 {
      OrBound(x / 2, y / 2, n - 1);
    }
  }

  lemma Pow2Byte(n: nat)
    ensures Pow2(8) == 256 && Pow2(n + 8) == 256 * Pow2(n)
  {
    assert Pow2(4) == 16 && Pow2(6) == 64;
    assert Pow2(n + 2) == 4 * Pow2(n);
    assert Pow2(n + 4) == 4 * Pow2(n + 2);
    assert Pow2(n + 6) == 4 * Pow2(n + 4);
    assert Pow2(n + 8) == 4 * Pow2(n + 6);
  }

  /** Clearing the low bits of a number written in base 256. */
  lemma ClearDigits(v: nat, x: Byte, h: nat)
    ensures h < 8 ==> Clear(256 * v + x, h) == 256 * v + Clear(x, h)
    ensures h >= 8 ==> Clear(256 * v + x, h) == 256 * Clear(v, h - 8) && Clear(x, 8) == 0
  {
    Pow2Byte(0);
    if h < 8 {
      ClearLow(v, x, 8, h);
    } else {
      ClearHigh(v, x, 8, h);
      ClearHigh(0, x, 8, 8);
    }
  }

  /** And-ing with n ones keeps the low n bits: what clearing them takes away. */
  lemma {:induction false} AndLow(x: nat, n: nat)
    ensures And(x, Pow2(n) - 1) + Clear(x, n) == x
  {
    if n > 0 && x > 0 {
      var p := Pow2(n - 1);
      AndLow(x / 2, n - 1);
      assert (2 * p - 1) / 2 == p - 1;
    } else if n > 0 {
      ClearBlock(0, n);
    }
  }

  lemma {:induction false} OrDisjoint(x: nat, y: nat, k: nat)
    requires y < Pow2(k)
    ensures Or(x * Pow2(k), y) == x * Pow2(k) + y
  {
    if k == 0 {
      OrZero(x);
    } else {
      var q := x * Pow2(k - 1);
      DoublePow2(k, x);
      OrDisjoint(x, y / 2, k - 1);
    }
  }
}
