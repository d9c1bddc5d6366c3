/**
 Reduction of a double-width number by multiplication with a reciprocal
 (uint8192_mod_o): what it computes for every reciprocal, and for exactly which
 reciprocals that is the remainder.
 */
module Barrett {
  import opened Arithmetic

  /** The quotient estimate: the upper half of the product with the reciprocal. */
  function Estimate(a: nat, reciprocal: nat, R: nat): nat
    requires 0 < R
  {
    QuotientBounds(a, reciprocal, R);
    (a * reciprocal) / R
  }

  lemma QuotientBounds(a: nat, reciprocal: nat, R: nat)
    requires 0 < R
    ensures
      var q := (a * reciprocal) / R;
      0 <= q && q * R <= a * reciprocal < q * R + R
  {
    MulNonNeg(a, reciprocal);
    var q := (a * reciprocal) / R;
    assert a * reciprocal == q * R + (a * reciprocal) % R;
    if q < 0 { MulMono(q, -1, R); }
  }

  /** What is left after subtracting the estimated multiple, in double-width two's complement. */
  function Rest(a: nat, reciprocal: nat, m: nat, R: nat): nat
    requires 0 < R
  {
    (a - Estimate(a, reciprocal, R) * m) % R
  }

  /** The result, after the subtractions of the correction loop. */
  function Reduced(a: nat, reciprocal: nat, m: nat, R: nat): nat
    requires 0 < R && 0 < m
  {
    Rest(a, reciprocal, m, R) % m
  }

  /** How often the correction loop subtracts. */
  function Rounds(a: nat, reciprocal: nat, m: nat, R: nat): int
    requires 0 < R && 0 < m
  {
    Rest(a, reciprocal, m, R) / m
  }

  // ---- reciprocals for which it is the remainder -------------------------------------------------

  /** The estimate never exceeds the quotient as long as the reciprocal is not too large. */
  lemma EstimateNotAbove(a: nat, reciprocal: nat, m: nat, R: nat)
    requires 0 < R && a < R && 0 < m && reciprocal * m <= R + 1
    ensures Estimate(a, reciprocal, R) * m <= a
  {
    var q := Estimate(a, reciprocal, R);
    QuotientBounds(a, reciprocal, R);
    MulMono(q * R, a * reciprocal, m);
    MulAssoc(a, reciprocal, m);
    MulMono(reciprocal * m, R + 1, a);
    MulDistrib(a, R, 1);
    MulExchange(q, R, m);
    assert (q * m) * R <= a * R + a;
    EstimateStep(a, q * m, R);
  }

  lemma EstimateStep(a: int, multiple: int, R: int)
    requires 0 <= a < R && multiple * R <= a * R + a
    ensures multiple <= a
  {
    if a < multiple { MulMono(a + 1, multiple, R); }
  }

  lemma ReducedIsRemainder(a: nat, reciprocal: nat, m: nat, R: nat)
    requires 0 < R && a < R && 0 < m && reciprocal * m <= R + 1
    ensures Reduced(a, reciprocal, m, R) == a % m
    ensures Rest(a, reciprocal, m, R) == a - Estimate(a, reciprocal, R) * m
  {
    var q := Estimate(a, reciprocal, R);
    EstimateNotAbove(a, reciprocal, m, R);
    MulNonNeg(q, m);
    CongMod(a - q * m, R);
    CongWitness(a - q * m, a, m, -q);
    assert (-q) * m == -(q * m);
  }

  /** With the reciprocal rounded down the loop subtracts at most once. */
  lemma AtMostOneRound(a: nat, m: nat, R: nat)
    requires 0 < R && a < R && 0 < m
    ensures R / m >= 0 && (R / m) * m <= R
    ensures Rounds(a, R / m, m, R) <= 1
    ensures Reduced(a, R / m, m, R) == a % m
  {
    var v := R / m;
    assert R == v * m + R % m;
    if v < 0 { MulMono(v, -1, m); }
    ReducedIsRemainder(a, v, m, R);
    var q, rest := Estimate(a, v, R), Rest(a, v, m, R);
    QuotientBounds(a, v, R);
    RestBelow(a, m, R, v, q);
    assert (q + 2) * m == q * m + 2 * m;
    SmallQuotient(rest, m);
  }

  lemma SmallQuotient(rest: int, m: int)
    requires 0 < m && 0 <= rest < 2 * m
    ensures rest / m <= 1
  {
    if m <= rest { DivModUnique(rest, m, 1, rest - m); } else { DivModUnique(rest, m, 0, rest); }
  }

  /** a * R < (q + 2) * m * R */
  lemma RestBelow(a: int, m: int, R: int, v: int, q: int)
    requires 0 < m && 0 < R && 0 <= a < R && 0 <= v && 0 <= q
    requires R < v * m + m && a * v < q * R + R
    ensures a < (q + 2) * m
  {
    BoundFromReciprocal(a, m, R, v);
    BoundFromEstimate(a * v, m, R, q);
    BoundFromSize(a, m, R);
    TwoMore(q, m, R);
    AddBounds(a * R, (a * v) * m, a * m, (q * m) * R, R * m, ((q + 2) * m) * R, a, m);
    MulCancelLess(a, (q + 2) * m, R);
  }

  lemma AddBounds(x: int, y: int, z: int, t: int, u: int, w: int, a: int, m: int)
    requires x <= y + z - a && y <= t + u - m && z <= u - m && w == t + 2 * u && 0 <= a && 0 < m
    ensures x < w
  {}

  lemma BoundFromSize(a: int, m: int, R: int)
    requires 0 < m && a < R
    ensures a * m <= R * m - m
  {
    MulMono(a, R - 1, m);
  }

  lemma TwoMore(q: int, m: int, R: int)
    ensures ((q + 2) * m) * R == (q * m) * R + 2 * (R * m)
  {
    MulDistrib(m, q, 2);
    MulDistrib(R, q * m, 2 * m);
    MulAssoc(R, 2, m);
    MulAssoc(2, R, m);
  }

  lemma BoundFromReciprocal(a: int, m: int, R: int, v: int)
    requires 0 <= a && R < v * m + m
    ensures a * R <= (a * v) * m + a * m - a
  {
    MulMono(R, v * m + (m - 1), a);
    MulDistrib(a, v * m, m - 1);
    MulDistrib(a, m, 1);
    MulAssoc(a, v, m);
  }

  lemma BoundFromEstimate(p: int, m: int, R: int, q: int)
    requires 0 < m && p < q * R + R
    ensures p * m <= (q * m) * R + R * m - m
  {
    MulMono(p, q * R + (R - 1), m);
    MulDistrib(m, q * R, R - 1);
    MulDistrib(m, R, 1);
    MulExchange(q, R, m);
  }

  // ---- reciprocals for which it is not --------------------------------------------------------------

  /** If R is a multiple of m the wrap-around is harmless, whatever the reciprocal. */
  lemma WrapHarmless(a: nat, reciprocal: nat, m: nat, R: nat)
    requires 0 < R && 0 < m && R % m == 0
    ensures Reduced(a, reciprocal, m, R) == a % m
  {
    var q := Estimate(a, reciprocal, R);
    var x, k := a - q * m, R / m;
    assert R == k * m;
    assert x == (x / R) * R + x % R;
    MulAssoc(x / R, k, m);
    CongWitness(x, x % R, m, (x / R) * k);
    assert (-q) * m == -(q * m);
    CongWitness(x, a, m, -q);
  }

  /** One below a multiple of m, where the estimate is one multiple too high. */
  lemma WrongJustBelowMultiple(a: nat, q: nat, reciprocal: nat, m: nat, R: nat)
    requires 0 < m <= R && R % m != 0 && a < R && a == q * m - 1 && Estimate(a, reciprocal, R) == q
    ensures Reduced(a, reciprocal, m, R) != a % m
  {
    DivModUnique(-1, R, -1, R - 1);
    assert (q - 1) * m == q * m - m;
    DivModUnique(a, m, q - 1, m - 1);
    if (R - 1) % m == m - 1 {
      var k := (R - 1) / m;
      assert R - 1 == k * m + (m - 1);
      assert (k + 1) * m == k * m + m;
      DivModUnique(R, m, k + 1, 0);
    }
  }

  /** A number below m that is estimated to contain m once. */
  lemma WrongBelowModulus(a: nat, reciprocal: nat, m: nat, R: nat)
    requires 0 < m <= R && R % m != 0 && a < m && Estimate(a, reciprocal, R) == 1
    ensures Reduced(a, reciprocal, m, R) != a % m
  {
    DivModUnique(a - m, R, -1, a - m + R);
    DivModUnique(a, m, 0, a);
    if (a - m + R) % m == a {
      var k := (a - m + R) / m;
      assert a - m + R == k * m + a;
      assert (k + 1) * m == k * m + m;
      DivModUnique(R, m, k + 1, 0);
    }
  }

  /** The ceiling of x / y. */
  lemma Ceiling(x: nat, y: nat) returns (c: nat)
    requires 0 < x && 0 < y
    ensures 1 <= c && (c - 1) * y < x <= c * y
  {
    c := (x - 1) / y + 1;
    assert x - 1 == ((x - 1) / y) * y + (x - 1) % y;
    assert c * y == ((x - 1) / y) * y + y;
  }

  /** A number that is not reduced to its remainder when the reciprocal is too large. */
  lemma TooLargeReciprocalFails(reciprocal: nat, m: nat, R: nat) returns (a: nat)
    requires 0 < m <= R && reciprocal < R && R % m != 0 && R + 1 < reciprocal * m
    ensures a < R && Reduced(a, reciprocal, m, R) != a % m
  {
    var e := reciprocal * m - R;
    if e <= R {
      var q := Ceiling(reciprocal, e);
      a := q * m - 1;
      MultipleBelow(reciprocal, m, R, e, q);
      EstimateAtMultiple(reciprocal, m, R, e, q);
      WrongJustBelowMultiple(a, q, reciprocal, m, R);
    } else {
      a := Ceiling(R, reciprocal);
      assert a * reciprocal == (a - 1) * reciprocal + reciprocal;
      DivModUnique(a * reciprocal, R, 1, a * reciprocal - R);
      if m <= a { MulMono(m, a, reciprocal); }
      WrongBelowModulus(a, reciprocal, m, R);
    }
  }

  lemma EstimateAtMultiple(reciprocal: nat, m: nat, R: nat, e: nat, q: nat)
    requires 0 < m && reciprocal * m == R + e && 0 < e <= R && 1 <= q && (q - 1) * e < reciprocal <= q * e
    ensures Estimate(q * m - 1, reciprocal, R) == q
  {
    assert (q * m - 1) * reciprocal == q * (reciprocal * m) - reciprocal;
    MulDistrib(q, R, e);
    assert (q - 1) * e == q * e - e;
    DivModUnique((q * m - 1) * reciprocal, R, q, q * e - reciprocal);
  }

  lemma NotOne(m: nat, R: nat)
    requires 0 < m && R % m != 0
    ensures 2 <= m
  {
    DivModUnique(R, 1, R, 0);
  }

  lemma MultipleBelow(reciprocal: nat, m: nat, R: nat, e: nat, q: nat)
    requires 0 < m <= R && R % m != 0 && reciprocal * m == R + e && 2 <= e && 1 <= q && (q - 1) * e < reciprocal
    ensures 1 <= q * m <= R
  {
    MulMono(1, q, m);
    NotOne(m, R);
    if 2 <= q {
      SmallMultiple(reciprocal, m, R, e, q);
    }
  }

  /** reciprocal - q >= (q - 1) * (e - 1) >= e - 1, and m is at least 2. */
  lemma SmallMultiple(reciprocal: int, m: int, R: int, e: int, q: int)
    requires 2 <= m && reciprocal * m == R + e && 2 <= e && 2 <= q && (q - 1) * e < reciprocal
    ensures q * m <= R
  {
    MulDistrib(q - 1, e, 1);
    MulMono(1, q - 1, e - 1);
    MulMono(2, m, reciprocal - q);
    MulDistrib(m, reciprocal, q);
    MulComm(m, reciprocal - q);
    MulComm(m, reciprocal);
    MulComm(m, q);
  }

  /**
   The reduction is right for every number exactly when the modulus divides R or
   the reciprocal is at most (R + 1) / m: a larger reciprocal is not safe.
   */
  lemma ReductionExact(reciprocal: nat, m: nat, R: nat)
    requires 0 < m <= R && reciprocal < R
    ensures (forall a: nat :: a < R ==> Reduced(a, reciprocal, m, R) == a % m)
       <==> (R % m == 0 || reciprocal * m <= R + 1)
  {
    if R % m == 0 {
      forall a: nat | a < R ensures Reduced(a, reciprocal, m, R) == a % m { WrapHarmless(a, reciprocal, m, R); }
    } else if reciprocal * m <= R + 1 {
      forall a: nat | a < R ensures Reduced(a, reciprocal, m, R) == a % m { ReducedIsRemainder(a, reciprocal, m, R); }
    } else {
      var a := TooLargeReciprocalFails(reciprocal, m, R);
      assert Reduced(a, reciprocal, m, R) != a % m;
    }
  }
}
