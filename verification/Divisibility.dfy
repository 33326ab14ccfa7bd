// Divisibility, primes and Euclid's lemma.

module Divisibility {

  ghost predicate Divides(n: int, x: int)
    requires n > 0
  {
    x % n == 0
  }

  /** A prime has no proper divisor. */
  ghost predicate IsPrime(p: int) {
    2 <= p && forall m :: 2 <= m < p ==> p % m != 0
  }

  lemma NonzeroMultipleIsLarge(n: int, k: int)
    requires n > 0
    ensures k >= 1 ==> n * k >= n
    ensures k <= -1 ==> n * k <= -n
  {
    if k <= -1 {
      assert n * (-k) >= n * 1;
    }
  }

  lemma MultipleIsDivided(n: int, k: int)
    requires n > 0
    ensures Divides(n, n * k)
    ensures (n * k) / n == k
  {
    var q, r := (n * k) / n, (n * k) % n;
    assert n * (k - q) == r;
    NonzeroMultipleIsLarge(n, k - q);
  }

  lemma DividesSum(n: int, x: int, y: int)
    requires n > 0 && Divides(n, x) && Divides(n, y)
    ensures Divides(n, x + y) && Divides(n, x - y)
  {
    var a, b := x / n, y / n;
    assert x + y == n * (a + b) && x - y == n * (a - b);
    MultipleIsDivided(n, a + b);
    MultipleIsDivided(n, a - b);
  }

  lemma DividesProduct(n: int, x: int, k: int)
    requires n > 0 && Divides(n, x)
    ensures Divides(n, x * k) && Divides(n, k * x)
  {
    var a := x / n;
    assert x * k == n * (a * k);
    MultipleIsDivided(n, a * k);
  }

  /** Numbers in range that differ by a multiple of the modulus are equal. */
  lemma SmallMultipleIsZero(n: int, x: int)
    requires n > 0 && -n < x < n && Divides(n, x)
    ensures x == 0
  {
    var q := x / n;
    assert x == n * q;
    NonzeroMultipleIsLarge(n, q);
  }

  lemma ModDiffers(x: int, n: int)
    requires n > 0
    ensures Divides(n, x - x % n)
  {
    hide Divides;
    assert x - x % n == n * (x / n);
    MultipleIsDivided(n, x / n);
  }

  lemma SameResidue(x: int, y: int, n: int)
    requires n > 0
    ensures x % n == y % n <==> Divides(n, x - y)
  {
    ModDiffers(x, n);
    ModDiffers(y, n);
    if x % n == y % n {
      DividesSum(n, x - x % n, y - y % n);
    }
    if Divides(n, x - y) {
      DividesSum(n, x - y, y - y % n);
      DividesSum(n, x - x % n, x - y % n);
      assert (x - x % n) - (x - y % n) == y % n - x % n;
      SmallMultipleIsZero(n, y % n - x % n);
    }
  }

  /** Euclid's lemma, by descent on the smaller factor. */
  lemma {:induction false} EuclidSmall(p: int, x: int, y: int)
    requires IsPrime(p) && 0 < x < p && Divides(p, x * y)
    ensures Divides(p, y)
    decreases x
  {
    if x > 1 {
      var q, r := p / x, p % x;
      assert 0 < r < x;
      calc {
        r * y;
        { assert r == p - x * q; }
        (p - x * q) * y;
        p * y - (x * y) * q;
      }
      MultipleIsDivided(p, y);
      DividesProduct(p, x * y, q);
      DividesSum(p, p * y, (x * y) * q);
      EuclidSmall(p, r, y);
    }
  }

  lemma Euclid(p: int, x: int, y: int)
    requires IsPrime(p) && Divides(p, x * y)
    ensures Divides(p, x) || Divides(p, y)
  {
    var r := x % p;
    if r != 0 {
      var q := x / p;
      assert r * y == x * y - p * (q * y) by {
        assert r == x - p * q;
        assert (x - p * q) * y == x * y - p * (q * y);
      }
      MultipleIsDivided(p, q * y);
      DividesSum(p, x * y, p * (q * y));
      EuclidSmall(p, r, y);
    }
  }

  /** The Chinese remainder step: divisible by two distinct primes, hence by their product. */
  lemma CoprimeProduct(p: int, q: int, x: int)
    requires IsPrime(p) && IsPrime(q) && p != q
    requires Divides(p, x) && Divides(q, x)
    ensures Divides(p * q, x)
  {
    var k := x / p;
    assert x == p * k;
    Euclid(q, p, k);
    if Divides(q, p) {
      PrimesDoNotDivide(p, q);
    }
    var j := k / q;
    assert x == (p * q) * j;
    MultipleIsDivided(p * q, j);
  }

  lemma PrimesDoNotDivide(p: int, q: int)
    requires IsPrime(p) && IsPrime(q) && p != q
    ensures !Divides(q, p)
  {
    if q > p {
      if Divides(q, p) {
        SmallMultipleIsZero(q, p);
      }
    }
  }

  lemma ProductIsMonotone(a: int, b: int, c: int, d: int)
    requires a >= c >= 0 && b >= d >= 0
    ensures a * b >= c * d
  {
    assert a * b >= c * b >= c * d;
  }

  /** Of two factors, one is below any bound whose square exceeds the product. */
  lemma SmallFactor(p: int, m: int, k: int, b: int)
    requires 2 <= m < p < b * b && 0 < b && p == m * k
    ensures 2 <= m < b || 2 <= k < b
  {
    if k <= 0 {
      ProductIsMonotone(m, -k, 0, 0);
    } else if m >= b && k >= b {
      ProductIsMonotone(m, k, b, b);
    }
  }

  /** Trial division up to the square root decides primality. */
  lemma TrialDivision(p: int, b: int)
    requires 2 <= p < b * b && 0 < b
    requires forall m :: 2 <= m < b ==> p % m != 0
    ensures IsPrime(p)
  {
    forall m | 2 <= m < p
      ensures p % m != 0
    {
      NoFactor(p, m, b);
    }
  }

  lemma NoFactor(p: int, m: int, b: int)
    requires 2 <= m < p < b * b && 0 < b
    requires forall n :: 2 <= n < b ==> p % n != 0
    ensures p % m != 0
  {
    if p % m == 0 {
      var k := p / m;
      assert p == m * k;
      SmallFactor(p, m, k, b);
      if k < b {
        CofactorDivides(p, m, k);
      }
    }
  }

  lemma CofactorDivides(p: int, m: int, k: int)
    requires p == m * k && k > 0
    ensures p % k == 0
  {
    MultipleIsDivided(k, m);
  }
}
