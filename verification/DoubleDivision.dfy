// True division of integers as Python performs it, through doubles, and the remainder built on it.

module DoubleDivision {

  const TWO_20: int := 0x10_0000
  const TWO_33: int := 0x2_0000_0000
  const TWO_53: int := 0x20_0000_0000_0000

  /** x doubled k times. */
  function Scaled(x: real, k: nat): real {
    if k == 0 then x else 2.0 * Scaled(x, k - 1)
  }

  ghost predicate IsSignificand(x: real) {
    x == x.Floor as real && -TWO_53 <= x.Floor <= TWO_53
  }

  /** A 53-bit significand at one of the scales a double has: x == m / 2^k. */
  ghost predicate IsDouble(x: real) {
    exists k: nat :: k <= 1074 && IsSignificand(Scaled(x, k))
  }

  /**
   * The rounding contract of IEEE 754 division: no double separates the exact quotient from the
   * rounded one. Every rounding mode meets it, and so does exact division.
   */
  ghost predicate Faithful(div: (int, int) -> real) {
    forall a: int, b: int, z: real {:trigger IsDouble(z), div(a, b)} ::
      0 <= a < TWO_53 && 0 < b < TWO_53 && IsDouble(z) ==>
        (z * b as real <= a as real ==> z <= div(a, b)) &&
        (z * b as real >= a as real ==> z >= div(a, b))
  }

  function PowerOfTwo(k: nat): int {
    if k == 0 then 1 else 2 * PowerOfTwo(k - 1)
  }

  lemma {:induction false} ScaledIsProduct(x: real, k: nat)
    ensures Scaled(x, k) == PowerOfTwo(k) as real * x
  {
    if k > 0 {
      ScaledIsProduct(x, k - 1);
      var y := PowerOfTwo(k - 1) as real;
      assert 2.0 * (y * x) == (2.0 * y) * x;
    }
  }

  lemma SmallIntegersAreDoubles(q: int)
    requires 0 <= q <= TWO_53
    ensures IsDouble(q as real)
  {
    assert IsSignificand(Scaled(q as real, 0));
  }

  /** Just below every integer up to 2^33 there is a double 2^-20 away. */
  lemma JustBelowIsDouble(q: int)
    requires 0 < q <= TWO_33
    ensures IsDouble(q as real - 1.0 / TWO_20 as real)
  {
    var x := q as real - 1.0 / TWO_20 as real;
    ScaledIsProduct(x, 20);
    assert PowerOfTwo(10) == 1024;
    assert PowerOfTwo(20) == TWO_20;
    var m := q * TWO_20 - 1;
    assert TWO_20 as real * x == TWO_20 as real * q as real - 1.0 == m as real;
    assert Scaled(x, 20) == m as real && (m as real).Floor == m;
    assert IsSignificand(Scaled(x, 20));
  }

  /** The floor of the rounded quotient is the exact integer quotient. */
  lemma FloorOfRoundedQuotient(a: int, b: int, div: (int, int) -> real)
    requires Faithful(div) && 0 < b <= TWO_20 && 0 <= a < TWO_33 * b
    ensures div(a, b).Floor == a / b
  {
    var q := a / b;
    assert a < TWO_53;
    QuotientBounds(a, b);
    SmallIntegersAreDoubles(q);
    JustBelowIsDouble(q + 1);
    var z := (q + 1) as real - 1.0 / TWO_20 as real;
    assert q as real <= div(a, b) <= z;
  }

  lemma ScaleInequality(x: int, y: int, b: int)
    requires x <= y && 0 < b
    ensures x * b <= y * b
  {
  }

  lemma QuotientBounds(a: int, b: int)
    requires 0 < b <= TWO_20 && 0 <= a < TWO_33 * b
    ensures 0 <= a / b < TWO_33
    ensures (a / b) as real * b as real <= a as real
    ensures ((a / b + 1) as real - 1.0 / TWO_20 as real) * b as real >= a as real
  {
    var q, r := a / b, a % b;
    assert a == q * b + r;
    if q >= TWO_33 {
      ScaleInequality(TWO_33, q, b);
    }
    RealBounds(q, r, b);
  }

  lemma RealBounds(q: int, r: int, b: int)
    requires 0 <= r < b <= TWO_20
    ensures q as real * b as real <= (q * b + r) as real
    ensures ((q + 1) as real - 1.0 / TWO_20 as real) * b as real >= (q * b + r) as real
  {
    var x, y, z := q as real, b as real, 1.0 / TWO_20 as real;
    assert (q * b) as real == x * y;
    assert (x + (1.0 - z)) * y == x * y + (1.0 - z) * y;
    assert z * y <= z * TWO_20 as real == 1.0;
  }

  /** The remainder computed through a floating-point quotient is the exact one. */
  function ModReal(numero: int, classe: int, div: (int, int) -> real): (r: int)
    requires Faithful(div) && 0 < classe <= TWO_20 && 0 <= numero < TWO_33 * classe
    ensures r == numero % classe
  {
    FloorOfRoundedQuotient(numero, classe, div);
    var divisao := div(numero, classe).Floor;
    numero - divisao * classe
  }

  /** Exact division is faithful, so the rounding contract can be met. */
  lemma ExactDivisionIsFaithful(div: (int, int) -> real)
    requires forall a: int, b: int :: b > 0 ==> div(a, b) == a as real / b as real
    ensures Faithful(div)
  {
    forall a: int, b: int, z: real {:trigger IsDouble(z), div(a, b)} |
        0 <= a < TWO_53 && 0 < b < TWO_53 && IsDouble(z)
      ensures z * b as real <= a as real ==> z <= div(a, b)
      ensures z * b as real >= a as real ==> z >= div(a, b)
    {
      assert div(a, b) * b as real == a as real;
    }
  }
}
