/** Facts about division and powers that several modules need. */
module Arithmetic {

  const TWO_TO_THE_64: nat := 0x1_0000_0000_0000_0000

  lemma MulMono(d: int, n: int)
    requires d > 0
    ensures (n >= 1 ==> d * n >= d) && (n <= -1 ==> d * n <= -d)
  {
  }

  /** Quotient and remainder are unique. */
  lemma DivModUnique(x: int, d: int, q: int, r: int)
    requires 0 < d && x == d * q + r && 0 <= r < d
    ensures x / d == q && x % d == r
  {
    var dq := x / d - q;
    assert d * dq == r - x % d;
    MulMono(d, dq);
  }

  /** Two numbers that differ only in the bit of weight `f`. */
  lemma BitPair(q: int, r: int, f: int, low: int, high: int)
    requires 0 <= r < f && low == (2 * f) * q + r && high == low + f
    ensures low / f == 2 * q && low % f == r && high / f == 2 * q + 1 && high % f == r
    ensures low / (2 * f) == q == high / (2 * f) && low % (2 * f) == r && high % (2 * f) == r + f
  {
    DivModUnique(low, 2 * f, q, r);
    DivModUnique(high, 2 * f, q, r + f);
    assert (2 * f) * q == f * (2 * q);
    DivModUnique(low, f, 2 * q, r);
    assert f * (2 * q) + f == f * (2 * q + 1);
    DivModUnique(high, f, 2 * q + 1, r);
  }

  /** Flipping the bit of weight `f` changes what is left above weight `f`, not above weight `2 * f`. */
  lemma FlippedBit(x: int, f: int)
    requires 0 < f && 0 <= x
    ensures var c := if x / f % 2 == 0 then x + f else x - f;
            x - x % (2 * f) == c - c % (2 * f) && x - x % f != c - c % f && c / (2 * f) == x / (2 * f)
  {
    var q, r := x / (2 * f), x % (2 * f);
    if r < f {
      BitPair(q, r, f, x, x + f);
    } else {
      BitPair(q, r - f, f, x - f, x);
    }
  }

  /** Rounding down to a multiple of `f` and then of `2 * f`, or of `f` again. */
  lemma FloorTwice(x: int, f: int)
    requires 0 < f && 0 <= x
    ensures (x - x % f) % f == 0
    ensures (x - x % f) - (x - x % f) % (2 * f) == x - x % (2 * f)
  {
    var q, r := x / (2 * f), x % (2 * f);
    if r < f {
      BitPair(q, r, f, x, x + f);
      BitPair(q, 0, f, x - r, x - r + f);
    } else {
      BitPair(q, r - f, f, x - f, x);
      BitPair(q, 0, f, x - r, x - r + f);
    }
  }

  /** Rounding down to a multiple of `f` keeps one bit more than rounding down to a multiple of `2 * f`. */
  lemma FloorNext(x: int, f: int)
    requires 0 < f && 0 <= x
    ensures x - x % f == x - x % (2 * f) + if x / f % 2 == 1 then f else 0
  {
    var q, r := x / (2 * f), x % (2 * f);
    if r < f {
      BitPair(q, r, f, x, x + f);
    } else {
      BitPair(q, r - f, f, x - f, x);
    }
  }

  function Power2(n: nat): (p: nat)
    ensures p >= 1
  {
    if n == 0 then 1 else 2 * Power2(n - 1)
  }

  lemma SmallPowers()
    ensures Power2(0) == 1 && Power2(1) == 2 && Power2(2) == 4 && Power2(3) == 8 && Power2(4) == 16
    ensures Power2(5) == 32 && Power2(6) == 64 && Power2(7) == 128 && Power2(8) == 256
  {
  }

  lemma {:induction false} Power2Sum(m: nat, n: nat)
    ensures Power2(m + n) == Power2(m) * Power2(n)
    decreases m
  {
    if m > 0 {
      Power2Sum(m - 1, n);
      assert 2 * (Power2(m - 1) * Power2(n)) == (2 * Power2(m - 1)) * Power2(n);
    }
  }

  lemma {:induction false} Power2Grows(m: nat, n: nat)
    requires m <= n
    ensures Power2(m) <= Power2(n)
    ensures m < n ==> 2 * Power2(m) <= Power2(n)
    decreases n
  {
    if m < n {
      Power2Grows(m, n - 1);
    }
  }
}
