/** The shared decimal arithmetic: 34 significant digits, half to even, and what it does to the
    multiply, divide and truncate that give each share. */
module Decimal34 {
  import opened Money
  import opened Powers

  /** 10^33 and 10^34: the 34-digit integers lie between. */
  const LEAST_34_DIGITS: int := 1_000_000_000_000_000_000_000_000_000_000_000
  const BEYOND_34_DIGITS: int := 10_000_000_000_000_000_000_000_000_000_000_000

  function Times(a: nat, b: nat): (r: nat)
    ensures r == a * b
    ensures a > 0 && b > 0 ==> r > 0
  {
    assert a > 0 && b > 0 ==> (a - 1) * b >= 0;
    a * b
  }

  function Div(a: nat, b: nat): (r: nat)
    requires b > 0
    ensures r == a / b
  {
    a / b
  }

  /** How many decimal places make `a / b` an integer of at least 34 digits. */
  function PlacesUp(a: nat, b: nat): nat
    requires a > 0 && b > 0
    decreases b * LEAST_34_DIGITS - a
  {
    if a >= b * LEAST_34_DIGITS then 0 else 1 + PlacesUp(10 * a, b)
  }

  /** How many trailing digits of `a / b` are beyond the 34. */
  function PlacesDown(a: nat, b: nat): nat
    requires b > 0
    decreases a - b
  {
    if a < b * BEYOND_34_DIGITS then 0 else PlacesDown(a, 10 * b) + 1
  }

  function RoundedQuotient(a: nat, b: nat): (r: nat)
    requires b > 0
  {
    DivMod(a, b);
    RoundHalfEven(a, b)
  }

  /** A non-negative decimal: digits over a power of ten. */
  datatype Decimal = Decimal(digits: nat, places: nat)

  /** `a / b` to 34 significant digits; an integer that short is exact. */
  function Quotient(a: nat, b: nat): Decimal
    requires b > 0
  {
    if a == 0 then Decimal(0, 0)
    else if a % b == 0 && Div(a, b) < BEYOND_34_DIGITS then Decimal(Div(a, b), 0)
    else if a < b * BEYOND_34_DIGITS then
      var k := PlacesUp(a, b);
      Decimal(RoundedQuotient(Times(a, Power10(k)), b), k)
    else
      var j := PlacesDown(a, b);
      Decimal(Times(RoundedQuotient(a, Times(b, Power10(j))), Power10(j)), 0)
  }

  /** `toDecimalPlaces(0, ROUND_DOWN)`. */
  function Truncate(d: Decimal): nat {
    Div(d.digits, Power10(d.places))
  }

  /** One share as computed: the product and the quotient are each rounded to 34 digits. */
  function ShareAsComputed(totalMinor: int, weight: nat, weightSum: nat): int
    requires weightSum > 0
  {
    var product := Quotient(Times(Abs(totalMinor), weight), 1);
    var magnitude: int := Truncate(Quotient(product.digits, Times(weightSum, Power10(product.places))));
    if totalMinor >= 0 then magnitude else -magnitude
  }

  lemma {:induction false} PlacesUpIsEnough(a: nat, b: nat)
    requires a > 0 && b > 0
    ensures a * Power10(PlacesUp(a, b)) >= b * LEAST_34_DIGITS
    decreases b * LEAST_34_DIGITS - a
  {
    if a < b * LEAST_34_DIGITS {
      PlacesUpIsEnough(10 * a, b);
      var p := Power10(PlacesUp(10 * a, b));
      assert Power10(PlacesUp(a, b)) == 10 * p;
      assert a * (10 * p) == 10 * a * p;
    }
  }

  /** The core estimate: with `T` at least `b`, rounding `a * T / b` cannot reach the next multiple
      of `T`, so truncating afterwards still gives `a / b`. */
  lemma RoundingStaysBelow(a: nat, b: nat, T: nat)
    requires b > 0 && T >= b
    ensures RoundedQuotient(a * T, b) / T == a / b
  {
    var (Q, r) := (a / b, a % b);
    var D := RoundedQuotient(a * T, b);
    DivMod(a, b);
    RoundHalfEvenIsNearest(a * T, b, D);
    Regroup(a, b, Q, r, T, D);
    BetweenMultiples(r, b, T, D - Q * T);
    QuotientIs(D, T, Q, D - Q * T);
  }

  lemma Regroup(a: int, b: int, Q: int, r: int, T: int, D: int)
    requires a == b * Q + r
    ensures a * T - D * b == r * T - (D - Q * T) * b
  {
    assert a * T == b * Q * T + r * T;
    assert (D - Q * T) * b == D * b - Q * T * b;
    assert b * Q * T == Q * T * b;
  }

  lemma BetweenMultiples(r: int, b: int, T: int, x: int)
    requires 0 <= r < b <= T && 2 * Abs(r * T - x * b) <= b
    ensures 0 <= x < T
  {
    Scale(r, T);
    Scale(b - r, T);
    assert (b - r) * T == b * T - r * T;
    assert b * x == x * b;
    assert b * (T - x) == b * T - b * x;
    assert b * (x + 1) == b * x + b;
    FactorSign(b, x + 1);
    FactorSign(b, T - x);
    Positive(b, T - x);
  }

  lemma Scale(k: int, T: int)
    requires k >= 0 && T > 0
    ensures k * T >= 0 && (k >= 1 ==> k * T >= T)
  {
    if k >= 1 { assert (k - 1) * T >= 0; }
  }

  lemma Positive(d: int, z: int)
    requires d > 0 && d * z > 0
    ensures z > 0
  {
    if z <= 0 { FactorSign(d, -z); }
  }

  lemma QuotientIs(d: nat, T: nat, q: int, x: int)
    requires T > 0 && d == q * T + x && 0 <= x < T
    ensures d / T == q
  {
    DivMod(d, T);
    var e := d / T - q;
    assert T * e == T * (d / T) - q * T;
    assert T * (e - 1) == T * e - T && T * (e + 1) == T * e + T;
    FactorSign(T, e - 1);
    Positive(T, e + 1);
  }

  /** While the product stays within 10^33 the multiply, divide and truncate at 34 digits give the
      exact truncated share. */
  lemma ComputedShareIsExact(totalMinor: int, weight: nat, weightSum: nat)
    requires weightSum > 0 && Abs(totalMinor) * weight <= LEAST_34_DIGITS
    ensures ShareAsComputed(totalMinor, weight, weightSum) == TruncatedDivision(totalMinor * weight, weightSum)
  {
    var a: nat := Times(Abs(totalMinor), weight);
    assert Quotient(a, 1) == Decimal(a, 0);
    assert Times(weightSum, Power10(0)) == weightSum;
    QuotientTruncates(a, weightSum);
    if totalMinor < 0 {
      assert totalMinor * weight + a == 0;
      DivMod(0, weightSum);
      if a == 0 { QuotientIs(0, weightSum, 0, 0); }
    }
  }

  lemma QuotientTruncates(a: nat, b: nat)
    requires b > 0 && a <= LEAST_34_DIGITS
    ensures Truncate(Quotient(a, b)) == a / b
  {
    if a == 0 {
      QuotientIs(0, b, 0, 0);
    } else if !(a % b == 0 && Div(a, b) < BEYOND_34_DIGITS) {
      var T := Power10(PlacesUp(a, b));
      PlacesUpIsEnough(a, b);
      EnoughPlaces(a, b, T, LEAST_34_DIGITS);
      RoundingStaysBelow(a, b, T);
    }
  }

  // ---- What 34 digits are -------------------------------------------------------------------------

  lemma {:induction false} PlacesUpIsLeast(a: nat, b: nat)
    requires a > 0 && b > 0 && a < b * BEYOND_34_DIGITS
    ensures a * Power10(PlacesUp(a, b)) < b * BEYOND_34_DIGITS
    decreases b * LEAST_34_DIGITS - a
  {
    if a < b * LEAST_34_DIGITS {
      PlacesUpIsLeast(10 * a, b);
      var p := Power10(PlacesUp(10 * a, b));
      assert Power10(PlacesUp(a, b)) == 10 * p;
      assert a * (10 * p) == 10 * a * p;
    }
  }

  lemma {:induction false} PlacesDownIsLeast(a: nat, b: nat)
    requires b > 0
    ensures a < b * Power10(PlacesDown(a, b)) * BEYOND_34_DIGITS
    ensures a >= b * BEYOND_34_DIGITS ==> a >= b * Power10(PlacesDown(a, b)) * LEAST_34_DIGITS
    decreases a - b
  {
    if a >= b * BEYOND_34_DIGITS {
      PlacesDownIsLeast(a, 10 * b);
      var p := Power10(PlacesDown(a, 10 * b));
      assert Power10(PlacesDown(a, b)) == 10 * p;
      assert b * (10 * p) == 10 * b * p;
      if a < 10 * b * BEYOND_34_DIGITS {
        assert PlacesDown(a, 10 * b) == 0 && p == 1;
      }
    }
  }

  /** Between 34 digits and one more, the nearest integer is within half of its last digit. */
  lemma NearestOf34(a: nat, b: nat)
    requires b > 0 && b * LEAST_34_DIGITS <= a < b * BEYOND_34_DIGITS
    ensures var q := RoundedQuotient(a, b); q <= BEYOND_34_DIGITS && 2 * Abs(a - q * b) * LEAST_34_DIGITS <= a
  {
    var q := RoundedQuotient(a, b);
    RoundHalfEvenIsNearest(a, b, q);
    Distribute(q, BEYOND_34_DIGITS, b);
    if q > BEYOND_34_DIGITS { Scale(q - BEYOND_34_DIGITS, b); }
    Scale(b - 2 * Abs(a - q * b), LEAST_34_DIGITS);
    assert (b - 2 * Abs(a - q * b)) * LEAST_34_DIGITS == b * LEAST_34_DIGITS - 2 * Abs(a - q * b) * LEAST_34_DIGITS;
  }

  lemma PowersOf34()
    ensures LEAST_34_DIGITS == Power10(33) && BEYOND_34_DIGITS == Power10(34)
  {
    assert Power10(10) == 10_000_000_000;
    assert Power10(20) == 100_000_000_000_000_000_000;
    assert Power10(30) == 1_000_000_000_000_000_000_000_000_000_000;
  }

  /** Within half a unit in the 34th digit: at most one part in twice 10^33. */
  predicate Within34(a: nat, b: nat, d: Decimal) {
    2 * Abs(a * Power10(d.places) - d.digits * b) * LEAST_34_DIGITS <= a * Power10(d.places)
  }

  /** A quotient has at most 34 significant digits, and is off by at most half a unit in the last of them. */
  lemma QuotientHas34Digits(a: nat, b: nat) returns (q: nat, j: nat)
    requires b > 0
    ensures Quotient(a, b).digits == q * Power10(j) && q <= BEYOND_34_DIGITS == Power10(34)
    ensures Within34(a, b, Quotient(a, b)) && LEAST_34_DIGITS == Power10(33)
  {
    PowersOf34();
    var d := Quotient(a, b);
    q, j := d.digits, 0;
    if a == 0 {
    } else if a % b == 0 && Div(a, b) < BEYOND_34_DIGITS {
      ExactQuotient(a, b);
    } else if a < b * BEYOND_34_DIGITS {
      ShortQuotient(a, b);
    } else {
      q, j := LongQuotient(a, b);
    }
  }

  lemma ExactQuotient(a: nat, b: nat)
    requires b > 0 && a % b == 0
    ensures Within34(a, b, Decimal(Div(a, b), 0))
  {
    DivMod(a, b);
    assert Div(a, b) * b == a;
  }

  lemma ShortQuotient(a: nat, b: nat)
    requires a > 0 && b > 0 && a < b * BEYOND_34_DIGITS
    ensures var d := Decimal(RoundedQuotient(Times(a, Power10(PlacesUp(a, b))), b), PlacesUp(a, b));
            d.digits <= BEYOND_34_DIGITS && Within34(a, b, d)
  {
    PlacesUpIsEnough(a, b);
    PlacesUpIsLeast(a, b);
    NearestOf34(Times(a, Power10(PlacesUp(a, b))), b);
  }

  lemma LongQuotient(a: nat, b: nat) returns (q: nat, j: nat)
    requires b > 0 && a >= b * BEYOND_34_DIGITS
    ensures j == PlacesDown(a, b) && q == RoundedQuotient(a, Times(b, Power10(j))) && q <= BEYOND_34_DIGITS
    ensures Within34(a, b, Decimal(Times(q, Power10(j)), 0))
  {
    j := PlacesDown(a, b);
    var T := Times(b, Power10(j));
    q := RoundedQuotient(a, T);
    PlacesDownIsLeast(a, b);
    NearestOf34(a, T);
    Reorder(q, b, Power10(j));
  }

  lemma Reorder(q: nat, b: nat, p: nat)
    ensures q * Times(b, p) == Times(q, p) * b
  {
    assert q * (b * p) == q * p * b;
  }

  lemma EnoughPlaces(a: int, b: int, T: int, bound: int)
    requires 0 < a <= bound && b > 0 && a * T >= b * bound
    ensures T >= b
  {
    Scale(bound - a, b);
    assert b * (bound - a) == b * bound - b * a;
    assert a * (T - b) == a * T - a * b;
    FactorSign(a, T - b);
  }
}
