/** Powers of two and the facts about integer division that register
    indexing needs. */
module Arith {

  /** 2^k: the dimension of a k-qubit register. */
  function Pow2(k: nat): (r: nat)
    ensures r >= 1
  {
    if k == 0 then 1 else 2 * Pow2(k - 1)
  }

  lemma {:induction false} Pow2Add(a: nat, b: nat)
    ensures Pow2(a + b) == Pow2(a) * Pow2(b)
  {
    if a > 0 {
      Pow2Add(a - 1, b);
      assert Pow2(a + b) == 2 * Pow2(a - 1 + b);
    }
  }

  /** A product of two non-negative integers is non-negative. */
  lemma MulNonneg(a: int, b: int)
    requires a >= 0 && b >= 0
    ensures a * b >= 0
  {
  }

  /** An index below m * d, divided by d, is below m. */
  lemma DivBelow(i: int, d: int, m: int)
    requires 0 <= i < m * d && d > 0
    ensures 0 <= i / d < m
  {
    var q := i / d;
    assert i == q * d + i % d;
    if q >= m {
      MulNonneg(q - m, d);
      assert false;
    }
  }

  /** Quotient and remainder are unique. */
  lemma DivModUnique(x: int, d: int, q: int, r: int)
    requires d > 0 && 0 <= r < d && x == q * d + r
    ensures q == x / d && r == x % d
  {
    var q', r' := x / d, x % d;
    assert x == q' * d + r';
    assert (q' - q) * d == r - r';
    if q' > q {
      MulNonneg(q' - q - 1, d);
      assert false;
    } else if q' < q {
      MulNonneg(q - q' - 1, d);
      assert false;
    }
  }

  /** Dividing by a and then by b is dividing by a * b; the remainder
      modulo a * b splits into the two remainders. */
  lemma DivModNested(x: int, a: int, b: int)
    requires x >= 0 && a > 0 && b > 0
    ensures x / a / b == x / (a * b)
    ensures x % (a * b) == a * ((x / a) % b) + x % a
  {
    var q1, r1 := x / a, x % a;
    var q2, r2 := q1 / b, q1 % b;
    assert x == q1 * a + r1;
    assert q1 == q2 * b + r2;
    Regroup(q2, b, r2, a);
    MulBelow(a, r2, b);
    DivModUnique(x, a * b, q2, a * r2 + r1);
  }

  lemma Regroup(q: int, b: int, r: int, a: int)
    ensures (q * b + r) * a == q * (a * b) + a * r
  {
  }

  lemma MulBelow(a: int, r: int, b: int)
    requires a > 0 && 0 <= r < b
    ensures a * r + a <= a * b
  {
    MulNonneg(a, b - 1 - r);
  }

  /** The remainder modulo a * b, reduced modulo a, and divided by a. */
  lemma ModOfMod(x: int, a: int, b: int)
    requires x >= 0 && a > 0 && b > 0
    ensures x % (a * b) % a == x % a
    ensures x % (a * b) / a == (x / a) % b
  {
    DivModNested(x, a, b);
    DivModUnique(x % (a * b), a, (x / a) % b, x % a);
  }

  /** Two non-negative integers are equal exactly when their quotients and
      remainders by d are. */
  lemma EqualByDivMod(x: int, y: int, d: int)
    requires x >= 0 && y >= 0 && d > 0
    ensures x == y <==> x / d == y / d && x % d == y % d
  {
    assert x == d * (x / d) + x % d && y == d * (y / d) + y % d;
  }

  /** A non-negative integer splits around a bit of weight low: the part
      above it, the bit itself, and the part below it. */
  lemma BitSplit(x: int, low: int)
    requires x >= 0 && low > 0
    ensures 0 <= (x / low) % 2 <= 1 && 0 <= x % low < low && x / (2 * low) >= 0
    ensures x == (x / (2 * low)) * (2 * low) + ((x / low) % 2) * low + x % low
  {
    DivModNested(x, low, 2);
    assert x / low == 2 * (x / low / 2) + (x / low) % 2;
    assert x == low * (x / low) + x % low;
  }

  /** The split around a bit is unique. */
  lemma BitSplitUnique(x: int, low: int, hi: int, b: int, lo: int)
    requires low > 0 && hi >= 0 && 0 <= b <= 1 && 0 <= lo < low
    requires x == hi * (2 * low) + b * low + lo
    ensures x / (2 * low) == hi && (x / low) % 2 == b && x % low == lo
  {
    assert x == (hi * 2 + b) * low + lo;
    DivModUnique(x, low, hi * 2 + b, lo);
    DivModUnique(x / low, 2, hi, b);
    DivModNested(x, low, 2);
  }

  /** Something inside block hi of width w, with hi below m, is below m * w. */
  lemma BelowBlock(hi: int, w: int, r: int, m: int)
    requires 0 <= hi < m && 0 <= r < w
    ensures hi * w + r < m * w
  {
    MulNonneg(m - hi - 1, w);
  }

  /** Inverting the bit of weight low of an index below m * 2 * low keeps
      it in range and leaves the parts above and below the bit alone. */
  lemma FlipBitArith(x: int, low: int, m: int)
    requires low > 0 && m > 0 && 0 <= x < m * (2 * low)
    ensures var y := if (x / low) % 2 == 0 then x + low else x - low;
      0 <= y < m * (2 * low) && (y / low) % 2 == 1 - (x / low) % 2 &&
      y / (2 * low) == x / (2 * low) && y % low == x % low
  {
    var y := if (x / low) % 2 == 0 then x + low else x - low;
    BitSplit(x, low);
    var hi, b, lo := x / (2 * low), (x / low) % 2, x % low;
    assert y == hi * (2 * low) + (1 - b) * low + lo;
    BitSplitUnique(y, low, hi, 1 - b, lo);
    DivBelow(x, 2 * low, m);
    BelowBlock(hi, 2 * low, (1 - b) * low + lo, m);
  }

  /** Splitting an index by the block width d = 2 * low * p first, then
      around the bit of weight low inside the block, sees the same bit and
      the same parts as splitting it around that bit directly. */
  lemma RegroupBit(x: int, y: int, low: int, p: int)
    requires x >= 0 && y >= 0 && low > 0 && p > 0
    ensures ((x % (2 * low * p)) / low) % 2 == (x / low) % 2
    ensures (x / (2 * low) == y / (2 * low) && x % low == y % low) <==>
      (x / (2 * low * p) == y / (2 * low * p) &&
       (x % (2 * low * p)) / (2 * low) == (y % (2 * low * p)) / (2 * low) &&
       (x % (2 * low * p)) % low == (y % (2 * low * p)) % low)
  {
    var high, d := 2 * low, 2 * low * p;
    assert d == high * p && d == low * (2 * p);
    ModOfMod(x, low, 2 * p);
    ModOfMod(y, low, 2 * p);
    ModOfMod(x / low, 2, p);
    ModOfMod(x, high, p);
    ModOfMod(y, high, p);
    DivModNested(x, high, p);
    DivModNested(y, high, p);
    assert x / high == p * (x / d) + (x % d) / high;
    assert y / high == p * (y / d) + (y % d) / high;
    if x / high == y / high {
      assert x / d == y / d;
    }
  }
}
