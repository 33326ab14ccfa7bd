// Powers, binomial coefficients and Fermat's little theorem in the form a^p = a (mod p).

module Fermat {
  import opened Divisibility

  function Pow(b: int, e: nat): int {
    if e == 0 then 1 else b * Pow(b, e - 1)
  }

  lemma {:induction false} PowAdds(b: int, e: nat, f: nat)
    ensures Pow(b, e + f) == Pow(b, e) * Pow(b, f)
    decreases e
  {
    if e > 0 {
      PowAdds(b, e - 1, f);
      assert Pow(b, e + f) == b * Pow(b, (e - 1) + f);
    }
  }

  lemma {:induction false} PowMultiplies(b: int, e: nat, f: nat)
    ensures 0 <= e * f && Pow(Pow(b, e), f) == Pow(b, e * f)
    decreases f
  {
    if f > 0 {
      PowMultiplies(b, e, f - 1);
      assert e * f == e + e * (f - 1);
      PowAdds(b, e, e * (f - 1));
    }
  }

  /** Reducing the base first does not change the residue of a power. */
  lemma {:induction false} PowResidue(a: int, b: int, e: nat, n: int)
    requires n > 0 && Divides(n, a - b)
    ensures Divides(n, Pow(a, e) - Pow(b, e))
    decreases e
  {
    if e == 0 {
      MultipleIsDivided(n, 0);
    } else {
      hide Divides;
      PowResidue(a, b, e - 1, n);
      var x, y := Pow(a, e - 1), Pow(b, e - 1);
      DividesProduct(n, a - b, x);
      DividesProduct(n, x - y, b);
      DividesSum(n, (a - b) * x, b * (x - y));
      assert a * x - b * y == (a - b) * x + b * (x - y);
    }
  }

  /** Pascal's triangle. */
  function Choose(n: nat, k: nat): nat {
    if k == 0 then 1 else if n == 0 then 0 else Choose(n - 1, k - 1) + Choose(n - 1, k)
  }

  lemma {:induction false} ChooseBeyond(n: nat, k: nat)
    requires k > n
    ensures Choose(n, k) == 0
    decreases n
  {
    if n > 0 {
      ChooseBeyond(n - 1, k - 1);
      ChooseBeyond(n - 1, k);
    }
  }

  lemma {:induction false} ChooseFull(n: nat)
    ensures Choose(n, n) == 1
  {
    if n > 0 {
      ChooseFull(n - 1);
      ChooseBeyond(n - 1, n);
    }
  }

  /** The absorption identity k * C(n, k) == n * C(n - 1, k - 1). */
  lemma {:induction false} Absorption(n: nat, k: nat)
    requires n > 0 && k > 0
    ensures k * Choose(n, k) == n * Choose(n - 1, k - 1)
    decreases n
  {
    if n == 1 {
      if k > 1 {
        ChooseBeyond(1, k);
        ChooseBeyond(0, k - 1);
      }
    } else if k == 1 {
      Absorption(n - 1, 1);
    } else {
      Absorption(n - 1, k);
      Absorption(n - 1, k - 1);
      var c, d := Choose(n - 2, k - 2), Choose(n - 2, k - 1);
      AbsorptionAlgebra(n, k, c + d, Choose(n - 1, k), c, d);
    }
  }

  lemma AbsorptionAlgebra(n: int, k: int, a: int, b: int, c: int, d: int)
    requires a == c + d
    requires (k - 1) * a == (n - 1) * c && k * b == (n - 1) * d
    ensures k * (a + b) == n * a
  {
    calc {
      k * (a + b);
      (k - 1) * a + a + k * b;
      (n - 1) * c + a + (n - 1) * d;
      (n - 1) * (c + d) + a;
      n * a;
    }
  }

  lemma PrimeDividesChoose(p: nat, k: nat)
    requires IsPrime(p) && 0 < k < p
    ensures Divides(p, Choose(p, k))
  {
    Absorption(p, k);
    MultipleIsDivided(p, Choose(p - 1, k - 1));
    EuclidSmall(p, k, Choose(p, k));
  }

  /** The first m + 1 terms of the expansion of (a + 1)^n, in increasing powers of a. */
  function Expansion(a: nat, n: nat, m: nat): int {
    Choose(n, m) * Pow(a, m) + if m == 0 then 0 else Expansion(a, n, m - 1)
  }

  lemma PascalTerm(a: int, x: int, c: int, d: int)
    ensures (c + d) * (a * x) == d * (a * x) + a * (c * x)
  {
    assert (c + d) * (a * x) == c * (a * x) + d * (a * x);
    assert c * (a * x) == a * (c * x);
  }

  lemma Distribute(a: int, x: int, y: int)
    ensures a * (x + y) == a * x + a * y
  {
  }

  lemma {:induction false} ExpansionStep(a: nat, n: nat, m: nat)
    requires n > 0 && m > 0
    ensures Expansion(a, n, m) == Expansion(a, n - 1, m) + a * Expansion(a, n - 1, m - 1)
    decreases m
  {
    var x, c, d := Pow(a, m - 1), Choose(n - 1, m - 1), Choose(n - 1, m);
    PascalTerm(a, x, c, d);
    if m == 1 {
      assert Expansion(a, n, 0) == 1 == Expansion(a, n - 1, 0);
    } else {
      ExpansionStep(a, n, m - 1);
      Distribute(a, c * x, Expansion(a, n - 1, m - 2));
    }
  }

  lemma {:induction false} Binomial(a: nat, n: nat)
    ensures Pow(a + 1, n) == Expansion(a, n, n)
  {
    if n > 0 {
      Binomial(a, n - 1);
      ExpansionStep(a, n, n);
      ChooseBeyond(n - 1, n);
      assert Expansion(a, n - 1, n) == Expansion(a, n - 1, n - 1);
      var x := Pow(a + 1, n - 1);
      assert (a + 1) * x == x + a * x;
    }
  }

  lemma {:induction false} InnerTermsVanish(a: nat, p: nat, m: nat)
    requires IsPrime(p) && m < p
    ensures Divides(p, Expansion(a, p, m) - 1)
    decreases m
  {
    if m > 0 {
      InnerTermsVanish(a, p, m - 1);
      PrimeDividesChoose(p, m);
      var c, x, rest := Choose(p, m), Pow(a, m), Expansion(a, p, m - 1);
      assert Expansion(a, p, m) == c * x + rest;
      DividesProduct(p, c, x);
      DividesSum(p, c * x, rest - 1);
    } else {
      assert Expansion(a, p, 0) == 1;
    }
  }

  lemma PowOfZero(p: nat)
    requires p > 0
    ensures Pow(0, p) == 0
  {
  }

  lemma LeadingTerm(a: nat, p: nat)
    requires p > 0
    ensures Pow(a + 1, p) == Pow(a, p) + Expansion(a, p, p - 1)
  {
    Binomial(a, p);
    ChooseFull(p);
  }

  /** Fermat's little theorem: a^p - a is a multiple of p. */
  lemma {:induction false} FermatLittle(a: nat, p: nat)
    requires IsPrime(p)
    ensures Divides(p, Pow(a, p) - a)
    decreases a
  {
    hide Pow, Expansion;
    if a == 0 {
      PowOfZero(p);
    } else {
      FermatLittle(a - 1, p);
      LeadingTerm(a - 1, p);
      InnerTermsVanish(a - 1, p, p - 1);
      var x, y := Pow(a - 1, p), Expansion(a - 1, p, p - 1);
      DividesSum(p, x - (a - 1), y - 1);
    }
  }

  /** Adding a multiple of p - 1 to the exponent 1 changes nothing modulo p. */
  lemma {:induction false} FermatStep(a: nat, p: nat, t: nat)
    requires IsPrime(p)
    ensures 0 <= (p - 1) * t
    ensures Divides(p, Pow(a, 1 + (p - 1) * t) - a)
    decreases t
  {
    hide Pow, Divides;
    if t == 0 {
      assert (p - 1) * t == 0;
      PowOfOne(a, p);
    } else {
      FermatStep(a, p, t - 1);
      FermatLittle(a, p);
      NextExponent(a, p, t);
      StepUp(Pow(a, (p - 1) * (t - 1)), Pow(a, p), a, p);
    }
  }

  lemma NextExponent(a: nat, p: nat, t: nat)
    requires p > 0 && t > 0 && 0 <= (p - 1) * (t - 1)
    ensures 0 <= (p - 1) * t
    ensures Pow(a, 1 + (p - 1) * t) == Pow(a, (p - 1) * (t - 1)) * Pow(a, p)
    ensures Pow(a, 1 + (p - 1) * (t - 1)) == a * Pow(a, (p - 1) * (t - 1))
  {
    var e: nat := (p - 1) * (t - 1);
    assert (p - 1) * t == e + (p - 1);
    PowAdds(a, e, p);
  }

  lemma PowOfOne(a: nat, p: nat)
    requires p > 0
    ensures Pow(a, 1) == a && Divides(p, a - a)
  {
  }

  lemma StepUp(x: int, y: int, a: int, p: int)
    requires p > 0 && Divides(p, y - a) && Divides(p, a * x - a)
    ensures Divides(p, x * y - a)
  {
    hide Divides;
    DividesProduct(p, y - a, x);
    DividesSum(p, x * (y - a), a * x - a);
    assert x * (y - a) + (a * x - a) == x * y - a;
  }
}
