/**
 Bit masks on unbounded naturals: what the source writes with `&` and `~` on
 power-of-two masks, tied to division with remainder.
 */
module Bits {
  predicate IsPowerOfTwo(n: nat) {
    n == 1 || (n > 1 && n % 2 == 0 && IsPowerOfTwo(n / 2))
  }

  function Pow2(n: nat): (p: nat)
    ensures p > 0
  {
    if n == 0 then 1 else 2 * Pow2(n - 1)
  }

  /** Bitwise and. */
  function And(x: nat, y: nat): (r: nat)
    ensures r <= x && r <= y
  {
    if x == 0 || y == 0 then 0
    else 2 * And(x / 2, y / 2) + (if x % 2 == 1 && y % 2 == 1 then 1 else 0)
  }

  lemma RemainderIsUnique(x: nat, m: nat, q: nat, r: nat)
    requires 0 < m && r < m && x == m * q + r
    ensures x % m == r && x / m == q
  {
    var d := q - x / m;
    assert m * d == x % m - r;
  }

  lemma HalveRemainder(x: nat, k: nat)
    requires 0 < k
    ensures x % (2 * k) == 2 * ((x / 2) % k) + x % 2
  {
    var q := (x / 2) / k;
    assert x / 2 == k * q + (x / 2) % k;
    assert x == (2 * k) * q + (2 * ((x / 2) % k) + x % 2);
    RemainderIsUnique(x, 2 * k, q, 2 * ((x / 2) % k) + x % 2);
  }

  lemma AndStep(x: nat, k: nat)
    requires 0 < k
    ensures And(x, 2 * k - 1) == 2 * And(x / 2, k - 1) + x % 2
  {
    assert (2 * k - 1) / 2 == k - 1;
  }

  /** Masking with 2^k - 1 is the remainder modulo 2^k. */
  lemma {:induction false} AndBelow(x: nat, n: nat)
    requires IsPowerOfTwo(n)
    ensures And(x, n - 1) == x % n
  {
    if n == 1 {
      assert x % 1 == 0;
    } else {
      var k := n / 2;
      var r := And(x / 2, k - 1);
      assert r == (x / 2) % k by { AndBelow(x / 2, k); }
      assert And(x, 2 * k - 1) == 2 * r + x % 2 by { AndStep(x, k); }
      assert x % (2 * k) == 2 * r + x % 2 by { HalveRemainder(x, k); }
      assert n == 2 * k;
    }
  }

  /** The source's test `(m & (m + 1)) == 0` says that m + 1 is a power of two. */
  lemma {:induction false} MaskTest(m: nat)
    ensures And(m, m + 1) == 0 <==> IsPowerOfTwo(m + 1)
  {
    if m > 0 {
      if m % 2 == 1 {
        MaskTest((m - 1) / 2);
        assert m / 2 == (m - 1) / 2 && (m + 1) / 2 == (m - 1) / 2 + 1;
      } else {
        assert And(m / 2, (m + 1) / 2) == And(m / 2, m / 2);
        AndSelf(m / 2);
      }
    }
  }

  lemma {:induction false} AndSelf(x: nat)
    ensures And(x, x) == x
  {
    if x > 0 { AndSelf(x / 2); }
  }

  lemma {:induction false} PowerOfTwoDivides(small: nat, large: nat)
    requires IsPowerOfTwo(small) && IsPowerOfTwo(large) && small <= large
    ensures large % small == 0
  {
    if small > 1 {
      PowerOfTwoDivides(small / 2, large / 2);
      HalveRemainder(large, small / 2);
    }
  }

  lemma MultipleOfMultiple(x: nat, large: nat, small: nat)
    requires 0 < small && 0 < large && x % large == 0 && large % small == 0
    ensures x % small == 0
  {
    var q, d := x / large, large / small;
    assert x == (small * d) * q == small * (d * q) + 0;
    RemainderIsUnique(x, small, d * q, 0);
  }

  lemma FloorIsMultiple(y: nat, n: nat)
    requires 0 < n
    ensures (y - y % n) % n == 0
  {
    RemainderIsUnique(y - y % n, n, y / n, 0);
  }

  /** The least multiple of `n` at or above `x`. */
  function AlignUp(x: nat, n: nat): (r: nat)
    requires 0 < n
    ensures x <= r < x + n && r % n == 0
  {
    var y := x + (n - 1);
    FloorIsMultiple(y, n);
    y - y % n
  }

  lemma AddComplement(x: nat, n: nat)
    requires 0 < n
    ensures x + (n - x % n) % n == AlignUp(x, n)
  {
    var low, q := x % n, x / n;
    assert x == n * q + low;
    if low == 0 {
      RemainderIsUnique(n, n, 1, 0);
      RemainderIsUnique(x + (n - 1), n, q, n - 1);
    } else {
      RemainderIsUnique(n - low, n, 0, n - low);
      assert n * (q + 1) == n * q + n;
      RemainderIsUnique(x + (n - 1), n, q + 1, low - 1);
    }
  }

  /** `(x + n - 1) & ~(n - 1)` aligns up when `n` is a power of two. */
  lemma MaskAligns(x: nat, n: nat)
    requires IsPowerOfTwo(n)
    ensures var y := x + (n - 1); y - And(y, n - 1) == AlignUp(x, n)
  {
    AndBelow(x + (n - 1), n);
  }

  lemma NoMultipleBetween(lo: nat, hi: nat, n: nat)
    requires 0 < n && lo % n == 0 && hi % n == 0 && lo < hi
    ensures lo + n <= hi
  {
    var d := hi / n - lo / n;
    assert hi - lo == n * d;
  }

  lemma AlignUpIsLeast(x: nat, n: nat, c: nat)
    requires 0 < n && x <= c && c % n == 0
    ensures AlignUp(x, n) <= c
  {
    if c < AlignUp(x, n) { NoMultipleBetween(c, AlignUp(x, n), n); }
  }
}
