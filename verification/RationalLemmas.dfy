// Why the gcd-avoiding formulas of rational arithmetic are exact and leave nothing to cancel.
module RationalLemmas {
  import opened NumberTheory

  // The representation kept at all times: a positive denominator and nothing in common.
  ghost predicate Normal(n: int, d: int) {
    d > 0 && Coprime(n, d)
  }

  // Normal form is unique: equal values have equal components.
  lemma NormalFormUnique(n1: int, d1: int, n2: int, d2: int)
    requires Normal(n1, d1) && Normal(n2, d2)
    ensures Frac(n1, d1) == Frac(n2, d2) <==> n1 == n2 && d1 == d2
  {
    FracEqual(n1, d1, n2, d2);
    if n1 * d2 == n2 * d1 {
      DenominatorDivides(n1, d1, n2, d2);
      DenominatorDivides(n2, d2, n1, d1);
      DividesAntisymmetric(d1, d2);
      Cancel(d1, n1, n2);
    }
  }

  lemma DenominatorDivides(n1: int, d1: int, n2: int, d2: int)
    requires Normal(n1, d1) && n1 * d2 == n2 * d1
    ensures Divides(d1, d2)
  {
    CoprimeSymmetric(n1, d1);
    assert IsMultiple(n1 * d2, d1, n2);
    CoprimeDivides(d1, n1, d2);
  }

  lemma PositiveQuotient(a: int, g: int)
    requires a > 0 && g > 0 && a == TDiv(a, g) * g
    ensures TDiv(a, g) > 0
  {
    var q := TDiv(a, g);
    MulNonNegative(g, Abs(q));
    assert q <= 0 ==> q * g == -(g * Abs(q));
  }

  lemma MulPositive(a: int, b: int)
    requires a > 0 && b > 0
    ensures a * b > 0
  {
  }

  lemma GcdPositive(a: int, b: int)
    requires a != 0 || b != 0
    ensures Gcd(a, b) > 0
  {
    GcdZero(a, b);
  }

  // ----- Sums -----

  lemma SumValue(a: int, b: int, c: int, d: int, g: int, b1: int, d1: int, n: int, g2: int, m: int, e: int)
    requires b == b1 * g && d == d1 * g && n == a * d1 + c * b1 && n == m * g2 && d == e * g2
    requires b != 0 && d != 0
    ensures m * (b * d) == (a * d + c * b) * (b1 * e)
  {
    calc {
      (a * d + c * b) * (b1 * e);
      { SumOverGcd(a, b, c, d, g, b1, d1); }
      (g * n) * (b1 * e);
      { Same(n, m * g2, g); Same(g * n, g * (m * g2), b1 * e); }
      (g * (m * g2)) * (b1 * e);
      { Shuffle(g, m, g2, b1, e); }
      m * ((b1 * g) * (e * g2));
      { Same(b, b1 * g, e * g2); Same(d, e * g2, b); Same(b * d, (b1 * g) * (e * g2), m); }
      m * (b * d);
    }
  }

  lemma SumOverGcd(a: int, b: int, c: int, d: int, g: int, b1: int, d1: int)
    requires b == b1 * g && d == d1 * g
    ensures a * d + c * b == g * (a * d1 + c * b1)
  {
    Same(d, d1 * g, a);
    Same(b, b1 * g, c);
    Assoc(a, d1, g);
    Assoc(c, b1, g);
    Combine(a * d1, c * b1, g);
  }

  lemma Shuffle(g: int, m: int, g2: int, b1: int, e: int)
    ensures (g * (m * g2)) * (b1 * e) == m * ((b1 * g) * (e * g2))
  {
  }

  // The numerator of a sum over the reduced denominators is coprime to both of them.
  lemma SumCoprime(a: int, b: int, c: int, d: int, g: int, b1: int, d1: int)
    requires Coprime(a, b) && Coprime(c, d) && b == b1 * g && d == d1 * g && Coprime(b1, d1)
    ensures Coprime(a * d1 + c * b1, b1) && Coprime(a * d1 + c * b1, d1)
  {
    SumCoprimeToFirst(a, b, c, g, b1, d1);
    CoprimeSymmetric(b1, d1);
    SumCoprimeToFirst(c, d, a, g, d1, b1);
  }

  lemma SumCoprimeToFirst(a: int, b: int, c: int, g: int, b1: int, d1: int)
    requires Coprime(a, b) && b == b1 * g && Coprime(b1, d1)
    ensures Coprime(a * d1 + c * b1, b1)
  {
    assert IsMultiple(a, a, 1);
    assert IsMultiple(b, b1, g);
    CoprimeDivisors(a, b, a, b1);
    CoprimeSymmetric(b1, d1);
    CoprimeProduct(a, d1, b1);
    CoprimePlusMultiple(a * d1, b1, c);
  }

  // x with the gcd of the denominators b and d divided out.
  function Reduced(x: int, b: int, d: int): int
    requires b > 0
  {
    GcdPositive(b, d);
    TDiv(x, Gcd(b, d))
  }

  // Everything left in common with the denominator sits in g, the gcd of the denominators: dividing out
  // gcd(numerator, g) alone already normalises a sum, zero included.
  lemma SumIsNormal(a: int, b: int, c: int, d: int, n: int)
    requires Normal(a, b) && Normal(c, d)
    requires n == a * Reduced(d, b, d) + c * Reduced(b, b, d)
    ensures var g2 := Gcd(n, Gcd(b, d));
            g2 > 0 && Normal(TDiv(n, g2), Reduced(b, b, d) * TDiv(d, g2))
            && Frac(TDiv(n, g2), Reduced(b, b, d) * TDiv(d, g2)) == Frac(a, b) + Frac(c, d)
  {
    var g := Gcd(b, d);
    GcdPositive(b, d);
    ReducedAreCoprime(b, d, g);
    var b1, d1 := Reduced(b, b, d), Reduced(d, b, d);
    var g2 := Gcd(n, g);
    GcdPositive(n, g);
    SumCoprime(a, b, c, d, g, b1, d1);
    SumDenominator(n, g, d, d1, g2);
    var m, h, e := TDiv(n, g2), TDiv(g, g2), TDiv(d, g2);
    ReducedParts(n, b1, d1, m, g2, h);
    PositiveQuotient(b, g);
    PositiveQuotient(d, g2);
    MulPositive(b1, e);
    FracSum(a, b, c, d);
    SumValue(a, b, c, d, g, b1, d1, n, g2, m, e);
    FracEqual(m, b1 * e, a * d + c * b, b * d);
  }

  lemma ReducedParts(n: int, b1: int, d1: int, m: int, g2: int, h: int)
    requires Coprime(n, b1) && Coprime(n, d1) && n == m * g2 && Coprime(m, h)
    ensures Coprime(m, b1 * (d1 * h))
  {
    assert n == g2 * m;
    assert IsMultiple(n, m, g2);
    assert IsMultiple(b1, b1, 1) && IsMultiple(d1, d1, 1);
    CoprimeDivisors(n, b1, m, b1);
    CoprimeDivisors(n, d1, m, d1);
    CoprimeProductRight(d1, h, m);
    CoprimeProductRight(b1, d1 * h, m);
  }

  lemma SumDenominator(n: int, g: nat, d: int, d1: int, g2: nat)
    requires g > 0 && g2 == Gcd(n, g) && g2 > 0 && d == d1 * g
    ensures n == TDiv(n, g2) * g2 && Coprime(TDiv(n, g2), TDiv(g, g2))
    ensures d == TDiv(d, g2) * g2 && TDiv(d, g2) == d1 * TDiv(g, g2)
  {
    ReducedAreCoprime(n, g, g2);
    var h := TDiv(g, g2);
    Same(g, h * g2, d1);
    Assoc(d1, h, g2);
    ExactDivision(d1 * h, g2);
  }

  lemma DifferenceIsNormal(a: int, b: int, c: int, d: int, n: int)
    requires Normal(a, b) && Normal(c, d)
    requires n == a * Reduced(d, b, d) - c * Reduced(b, b, d)
    ensures var g2 := Gcd(n, Gcd(b, d));
            g2 > 0 && Normal(TDiv(n, g2), Reduced(b, b, d) * TDiv(d, g2))
            && Frac(TDiv(n, g2), Reduced(b, b, d) * TDiv(d, g2)) == Frac(a, b) - Frac(c, d)
  {
    CoprimeNegated(c, d);
    NegatedFactor(c, Reduced(b, b, d));
    FracNegated(c, d);
    SumIsNormal(a, b, -c, d, n);
  }

  lemma NegatedFactor(c: int, x: int)
    ensures (-c) * x == -(c * x)
  {
  }

  lemma FracNegated(c: int, d: int)
    requires d != 0
    ensures Frac(-c, d) == -Frac(c, d)
  {
  }

  // ----- Products and quotients -----

  lemma ProductValue(a: int, b: int, c: int, d: int, g: int, h: int, a1: int, c1: int, b1: int, d1: int)
    requires a == a1 * g && d == d1 * g && c == c1 * h && b == b1 * h
    ensures (a1 * c1) * (b * d) == (a * c) * (b1 * d1)
  {
    calc {
      (a * c) * (b1 * d1);
      { Same(a, a1 * g, c); Same(c, c1 * h, a1 * g); Same(a * c, (a1 * g) * (c1 * h), b1 * d1); }
      ((a1 * g) * (c1 * h)) * (b1 * d1);
      { ShuffleFour(a1, g, c1, h, b1, d1); }
      (a1 * c1) * ((b1 * h) * (d1 * g));
      { Same(b, b1 * h, d1 * g); Same(d, d1 * g, b); Same(b * d, (b1 * h) * (d1 * g), a1 * c1); }
      (a1 * c1) * (b * d);
    }
  }

  lemma ShuffleFour(a1: int, g: int, c1: int, h: int, b1: int, d1: int)
    ensures ((a1 * g) * (c1 * h)) * (b1 * d1) == (a1 * c1) * ((b1 * h) * (d1 * g))
  {
  }

  // What is left of a fraction a/b when it meets c/d: gcd(a, d) and gcd(c, b) divided out.
  ghost predicate CrossCancels(a: int, b: int, c: int, d: int, g: int, h: int, a1: int, c1: int, b1: int, d1: int)
  {
    && g == Gcd(a, d) && g > 0 && h == Gcd(c, b) && h > 0
    && a1 == TDiv(a, g) && c1 == TDiv(c, h) && b1 == TDiv(b, h) && d1 == TDiv(d, g)
  }

  // Cross-cancelling leaves a normal product, up to the sign of the denominator.
  lemma CrossCancelled(a: int, b: int, c: int, d: int, g: int, h: int, a1: int, c1: int, b1: int, d1: int,
                       x: real, y: real, product: real)
    requires b != 0 && d != 0 && Coprime(a, b) && Coprime(c, d)
    requires CrossCancels(a, b, c, d, g, h, a1, c1, b1, d1)
    requires x == Frac(a, b) && y == Frac(c, d) && product == x * y
    ensures b1 * d1 != 0 && Coprime(a1 * c1, b1 * d1) && Frac(a1 * c1, b1 * d1) == product
    ensures b > 0 && d > 0 ==> b1 * d1 > 0
  {
    ReducedAreCoprime(a, d, g);
    ReducedAreCoprime(c, b, h);
    CrossProduct(a, b, c, d, g, h, a1, c1, b1, d1, x, y);
  }

  lemma CrossProduct(a: int, b: int, c: int, d: int, g: int, h: int, a1: int, c1: int, b1: int, d1: int,
                     x: real, y: real)
    requires b != 0 && d != 0 && Coprime(a, b) && Coprime(c, d) && Coprime(a1, d1) && Coprime(c1, b1)
    requires a == a1 * g && d == d1 * g && c == c1 * h && b == b1 * h && g > 0 && h > 0
    requires x == Frac(a, b) && y == Frac(c, d)
    ensures b1 * d1 != 0 && Coprime(a1 * c1, b1 * d1) && Frac(a1 * c1, b1 * d1) == x * y
    ensures b > 0 && d > 0 ==> b1 * d1 > 0
  {
    CrossCoprime(a, b, c, d, g, h, a1, c1, b1, d1);
    CoprimeFour(a1, c1, b1, d1);
    SignOfFactor(b, b1, h);
    SignOfFactor(d, d1, g);
    MulAbs(b1, d1);
    if b > 0 && d > 0 { MulPositive(b1, d1); }
    FracProduct(a, b, c, d);
    ProductValue(a, b, c, d, g, h, a1, c1, b1, d1);
    FracEqual(a1 * c1, b1 * d1, a * c, b * d);
  }

  lemma SignOfFactor(b: int, b1: int, h: int)
    requires b == b1 * h && h > 0
    ensures b != 0 ==> b1 != 0
    ensures b > 0 ==> b1 > 0
  {
    MulNonNegative(h, Abs(b1));
    assert b1 <= 0 ==> b1 * h == -(h * Abs(b1));
  }

  lemma CrossCoprime(a: int, b: int, c: int, d: int, g: int, h: int, a1: int, c1: int, b1: int, d1: int)
    requires Coprime(a, b) && Coprime(c, d)
    requires a == a1 * g && d == d1 * g && c == c1 * h && b == b1 * h
    ensures Coprime(a1, b1) && Coprime(c1, d1)
  {
    assert a == g * a1 && b == h * b1 && c == h * c1 && d == g * d1;
    assert IsMultiple(a, a1, g) && IsMultiple(b, b1, h) && IsMultiple(c, c1, h) && IsMultiple(d, d1, g);
    CoprimeDivisors(a, b, a1, b1);
    CoprimeDivisors(c, d, c1, d1);
  }

  lemma CoprimeFour(a: int, c: int, b: int, d: int)
    requires Coprime(a, b) && Coprime(a, d) && Coprime(c, b) && Coprime(c, d)
    ensures Coprime(a * c, b * d)
  {
    CoprimeProductRight(b, d, a);
    CoprimeProductRight(b, d, c);
    CoprimeProduct(a, c, b * d);
  }

  // Turning both signs keeps value and coprimality.
  lemma FlipSigns(n: int, d: int)
    requires d != 0 && Coprime(n, d)
    ensures Coprime(-n, -d) && Frac(-n, -d) == Frac(n, d)
  {
    CoprimeNegated(n, d);
    FracEqual(-n, -d, n, d);
  }

  lemma FracInverse(c: int, d: int)
    requires c != 0 && d != 0
    ensures Frac(c, d) != 0.0 && Frac(d, c) == 1.0 / Frac(c, d)
  {
    FracQuotient(1, 1, c, d);
    assert Frac(1, 1) == 1.0;
  }

  lemma QuotientMagnitude(a: int, g: int)
    requires g > 0 && a == TDiv(a, g) * g
    ensures Abs(TDiv(a, g)) <= Abs(a)
  {
    MulAbs(TDiv(a, g), g);
    MulNonNegative(g, Abs(TDiv(a, g)));
  }

  lemma GcdMagnitude(a: int, b: int)
    requires b != 0
    ensures 0 < Gcd(a, b) <= Abs(b)
  {
    GcdPositive(a, b);
    GcdDivides(a, b);
    DividesBound(Gcd(a, b), b);
  }

  // ----- The order by continued fractions -----

  // |q| <= |n| when n = q * d + r with 0 <= r < d.
  lemma FloorMagnitude(n: int, d: int, q: int, r: int)
    requires n == q * d + r && 0 <= r < d
    ensures Abs(q) <= Abs(n)
  {
    if q >= 0 {
      MulNonNegative(d, q);
    } else {
      MulNonNegative(d, -q - 1);
      assert d * (-q - 1) == -(q * d) - d;
    }
  }

  // Different whole parts decide the order.
  lemma WholePartsDecide(tn: int, td: int, tq: int, tr: int, rn: int, rd: int, rq: int, rr: int)
    requires tn == tq * td + tr && 0 <= tr < td && rn == rq * rd + rr && 0 <= rr < rd
    requires tq < rq
    ensures tn * rd < rn * td
  {
    var p := td * rd;
    TimesMixed(tn, tq, td, tr, rd);
    TimesMixed(rn, rq, rd, rr, td);
    Commute(rd, td);
    MulPositive(td, rd);
    MulPositive(td - tr, rd);
    Combine(td, -tr, rd);
    NegatedFactor(tr, rd);
    MulNonNegative(rr, td);
    BlockOrder(p, tq, rq, tr * rd, rr * td);
  }

  lemma TimesMixed(n: int, q: int, d: int, r: int, e: int)
    requires n == q * d + r
    ensures n * e == q * (d * e) + r * e
  {
    Combine(q * d, r, e);
    Assoc(q, d, e);
  }

  // Numbers in different blocks of length p are ordered as the blocks.
  lemma BlockOrder(p: int, q: int, r: int, x: int, y: int)
    requires p > 0 && q < r && x < p && y >= 0
    ensures q * p + x < r * p + y
  {
    MulNonNegative(r - q - 1, p);
    Combine(r, -q, p);
    Combine(r - q, -1, p);
    NegatedFactor(q, p);
  }

  // Equal whole parts pass the question on to the reciprocals of the remainders, reversed.
  lemma EqualWholeParts(tn: int, td: int, tr: int, rn: int, rd: int, rr: int, q: int)
    requires tn == q * td + tr && rn == q * rd + rr
    ensures tn * rd - rn * td == tr * rd - rr * td
  {
    Combine(q * td, tr, rd);
    Combine(q * rd, rr, td);
    Same(tn, q * td + tr, rd);
    Same(rn, q * rd + rr, td);
    Assoc(q, td, rd);
    Assoc(q, rd, td);
  }

  // ----- Greatest common rational divisor -----

  ghost predicate IsIntTimes(x: real, y: real, k: int) {
    x == k as real * y
  }

  // x is an integer multiple of y
  ghost predicate IntegerMultiple(x: real, y: real) {
    exists k :: IsIntTimes(x, y, k)
  }

  lemma MultipleAsIntegers(n: int, d: int, c: int, e: int, k: int)
    requires d != 0 && e != 0
    ensures IsIntTimes(Frac(n, d), Frac(c, e), k) <==> n * e == (k * c) * d
  {
    FracProduct(k, 1, c, e);
    assert Frac(k, 1) == k as real;
    FracEqual(n, d, k * c, 1 * e);
  }

  // Multiplying the numerator and dividing the denominator are both integer multiples.
  lemma GcdDividesOperand(n: int, d: int, gn: int, gd: int)
    requires d > 0 && gd > 0 && Divides(gn, n) && Divides(d, gd)
    ensures IntegerMultiple(Frac(n, d), Frac(gn, gd))
  {
    var u := Quotient(gn, n);
    var v := Quotient(d, gd);
    MultipleAsIntegers(n, d, gn, gd, u * v);
    OperandProduct(n, d, gn, gd, u, v);
    assert IsIntTimes(Frac(n, d), Frac(gn, gd), u * v);
  }

  lemma OperandProduct(n: int, d: int, gn: int, gd: int, u: int, v: int)
    requires n == u * gn && gd == v * d
    ensures n * gd == ((u * v) * gn) * d
  {
    Same(n, u * gn, gd);
    Same(gd, v * d, u * gn);
    assert (u * gn) * (v * d) == ((u * v) * gn) * d;
  }

  // A normal rational divides another only if its numerator divides that numerator and its denominator is a
  // multiple of that denominator.
  lemma DivisorComponents(n: int, d: int, c: int, e: int)
    requires Normal(n, d) && Normal(c, e)
    ensures IntegerMultiple(Frac(n, d), Frac(c, e)) <==> Divides(c, n) && Divides(d, e)
  {
    if IntegerMultiple(Frac(n, d), Frac(c, e)) {
      var k :| IsIntTimes(Frac(n, d), Frac(c, e), k);
      MultipleAsIntegers(n, d, c, e, k);
      assert IsMultiple(n * e, d, k * c);
      CoprimeSymmetric(n, d);
      CoprimeDivides(d, n, e);
      Assoc(k, c, d);
      assert (k * c) * d == (k * d) * c;
      assert e * n == (k * d) * c;
      assert IsMultiple(e * n, c, k * d);
      CoprimeDivides(c, e, n);
    }
    if Divides(c, n) && Divides(d, e) {
      GcdDividesOperand(n, d, c, e);
    }
  }

  lemma LcmPositive(a: int, b: int)
    requires a != 0 && b != 0
    ensures Lcm(a, b) > 0
  {
    GcdTimesLcm(a, b);
    MulAbs(a, b);
    assert Lcm(a, b) == 0 ==> Gcd(a, b) * Lcm(a, b) == 0;
  }

  lemma CoprimeToLcm(x: int, a: int, b: int)
    requires Coprime(x, a) && Coprime(x, b)
    ensures Coprime(x, Lcm(a, b))
  {
    CoprimeProductRight(a, b, x);
    assert IsMultiple(a * b, a, b);
    assert IsMultiple(a * b, b, a);
    LcmLeast(a, b, a * b);
    assert IsMultiple(x, x, 1);
    CoprimeDivisors(x, a * b, x, Lcm(a, b));
  }

  // gcd(numerators) / lcm(denominators) of normal rationals needs no normalising, both operands are integer
  // multiples of it, and it is an integer multiple of every rational that both operands are integer multiples
  // of.
  lemma GreatestCommonRational(an: int, ad: int, bn: int, bd: int)
    requires Normal(an, ad) && Normal(bn, bd)
    ensures Normal(Gcd(an, bn), Lcm(ad, bd))
    ensures IntegerMultiple(Frac(an, ad), Frac(Gcd(an, bn), Lcm(ad, bd)))
    ensures IntegerMultiple(Frac(bn, bd), Frac(Gcd(an, bn), Lcm(ad, bd)))
    ensures forall c, e :: Normal(c, e) && IntegerMultiple(Frac(an, ad), Frac(c, e))
                           && IntegerMultiple(Frac(bn, bd), Frac(c, e))
                      ==> IntegerMultiple(Frac(Gcd(an, bn), Lcm(ad, bd)), Frac(c, e))
  {
    var (g, l) := (Gcd(an, bn), Lcm(ad, bd));
    GcdDivides(an, bn);
    LcmMultiple(ad, bd);
    LcmPositive(ad, bd);
    GcdOfFractionsNormal(an, ad, bn, bd);
    GcdDividesOperand(an, ad, g, l);
    GcdDividesOperand(bn, bd, g, l);
    forall c, e | Normal(c, e) && IntegerMultiple(Frac(an, ad), Frac(c, e)) && IntegerMultiple(Frac(bn, bd), Frac(c, e))
      ensures IntegerMultiple(Frac(g, l), Frac(c, e))
    {
      DivisorComponents(an, ad, c, e);
      DivisorComponents(bn, bd, c, e);
      GcdGreatest(an, bn, c);
      LcmLeast(ad, bd, e);
      DivisorComponents(g, l, c, e);
    }
  }

  lemma GcdOfFractionsNormal(an: int, ad: int, bn: int, bd: int)
    requires Normal(an, ad) && Normal(bn, bd)
    ensures Coprime(Gcd(an, bn), Lcm(ad, bd))
  {
    GcdDivides(an, bn);
    assert IsMultiple(ad, ad, 1) && IsMultiple(bd, bd, 1);
    CoprimeDivisors(an, ad, Gcd(an, bn), ad);
    CoprimeDivisors(bn, bd, Gcd(an, bn), bd);
    CoprimeToLcm(Gcd(an, bn), ad, bd);
  }

  // lcm(numerators) / gcd(denominators) needs no normalising either, and is the least common multiple: an
  // integer multiple of both, dividing every common integer multiple.
  lemma LeastCommonRational(an: int, ad: int, bn: int, bd: int)
    requires Normal(an, ad) && Normal(bn, bd)
    ensures Normal(Lcm(an, bn), Gcd(ad, bd))
    ensures IntegerMultiple(Frac(Lcm(an, bn), Gcd(ad, bd)), Frac(an, ad))
    ensures IntegerMultiple(Frac(Lcm(an, bn), Gcd(ad, bd)), Frac(bn, bd))
    ensures forall c, e :: Normal(c, e) && IntegerMultiple(Frac(c, e), Frac(an, ad))
                           && IntegerMultiple(Frac(c, e), Frac(bn, bd))
                      ==> IntegerMultiple(Frac(c, e), Frac(Lcm(an, bn), Gcd(ad, bd)))
  {
    var (l, g) := (Lcm(an, bn), Gcd(ad, bd));
    LcmMultiple(an, bn);
    GcdDivides(ad, bd);
    GcdPositive(ad, bd);
    LcmOfFractionsNormal(an, ad, bn, bd);
    GcdDividesOperand(l, g, an, ad);
    GcdDividesOperand(l, g, bn, bd);
    forall c, e | Normal(c, e) && IntegerMultiple(Frac(c, e), Frac(an, ad)) && IntegerMultiple(Frac(c, e), Frac(bn, bd))
      ensures IntegerMultiple(Frac(c, e), Frac(l, g))
    {
      DivisorComponents(c, e, an, ad);
      DivisorComponents(c, e, bn, bd);
      LcmLeast(an, bn, c);
      GcdGreatest(ad, bd, e);
      DivisorComponents(c, e, l, g);
    }
  }

  lemma LcmOfFractionsNormal(an: int, ad: int, bn: int, bd: int)
    requires Normal(an, ad) && Normal(bn, bd)
    ensures Coprime(Lcm(an, bn), Gcd(ad, bd))
  {
    GcdDivides(ad, bd);
    assert IsMultiple(an, an, 1) && IsMultiple(bn, bn, 1);
    CoprimeDivisors(an, ad, an, Gcd(ad, bd));
    CoprimeDivisors(bn, bd, bn, Gcd(ad, bd));
    CoprimeSymmetric(an, Gcd(ad, bd));
    CoprimeSymmetric(bn, Gcd(ad, bd));
    CoprimeToLcm(Gcd(ad, bd), an, bn);
    CoprimeSymmetric(Gcd(ad, bd), Lcm(an, bn));
  }

  function RealAbs(x: real): real {
    if x < 0.0 then -x else x
  }

  // gcd times lcm is the magnitude of the product: for the value x of the one and y of the other.
  lemma GcdTimesLcmRational(an: int, ad: int, bn: int, bd: int, x: real, y: real, a: real, b: real)
    requires ad > 0 && bd > 0 && a == Frac(an, ad) && b == Frac(bn, bd)
    ensures Lcm(ad, bd) > 0 && Gcd(ad, bd) > 0
    ensures x == Frac(Gcd(an, bn), Lcm(ad, bd)) && y == Frac(Lcm(an, bn), Gcd(ad, bd)) ==> x * y == RealAbs(a * b)
  {
    var g: int, l: int, m: int, h: int := Gcd(an, bn), Lcm(ad, bd), Lcm(an, bn), Gcd(ad, bd);
    LcmPositive(ad, bd);
    GcdPositive(ad, bd);
    NamedGcdTimesLcm(an, bn, g, m);
    NamedGcdTimesLcm(ad, bd, h, l);
    if x == Frac(g, l) && y == Frac(m, h) {
      MagnitudeOfProduct(g, l, m, h, x, y, an, ad, bn, bd, a, b);
    }
  }

  lemma NamedGcdTimesLcm(a: int, b: int, g: int, l: int)
    requires g == Gcd(a, b) && l == Lcm(a, b)
    ensures g * l == Abs(a * b)
  {
    GcdTimesLcm(a, b);
  }

  lemma MagnitudeOfProduct(g: int, l: int, m: int, h: int, x: real, y: real, an: int, ad: int, bn: int, bd: int,
                           u: real, v: real)
    requires l > 0 && h > 0 && ad > 0 && bd > 0 && g * m == Abs(an * bn) && h * l == Abs(ad * bd)
    requires x == Frac(g, l) && y == Frac(m, h) && u == Frac(an, ad) && v == Frac(bn, bd)
    ensures x * y == RealAbs(u * v)
  {
    FracProduct(g, l, m, h);
    FracProduct(an, ad, bn, bd);
    MulPositive(ad, bd);
    Commute(h, l);
    FracMagnitude(an * bn, ad * bd);
  }

  lemma Commute(a: int, b: int)
    ensures a * b == b * a
  {
  }

  lemma FracMagnitude(n: int, d: int)
    requires d > 0
    ensures Frac(Abs(n), d) == RealAbs(Frac(n, d))
  {
    FracLess(n, d, 0, 1);
    assert Frac(0, 1) == 0.0;
    FracNegated(n, d);
  }

  // ----- The constexpr normal-form test -----

  // inner_gcd: Euclid's algorithm on truncated remainders, with whatever sign comes out.
  function InnerGcd(a: int, b: int): int
    decreases Abs(b)
  {
    if b == 0 then a else
      TruncatedDivision(a, b);
      InnerGcd(b, TMod(a, b))
  }

  // Up to sign, it is the greatest common divisor.
  lemma {:induction false} InnerGcdIsGcd(a: int, b: int)
    ensures Abs(InnerGcd(a, b)) == Gcd(a, b)
    decreases Abs(b)
  {
    if b != 0 {
      TruncatedDivision(a, b);
      InnerGcdIsGcd(b, TMod(a, b));
      SameCommonDivisors(a, b, TDiv(a, b), TMod(a, b));
    }
  }

  lemma SameCommonDivisors(a: int, b: int, q: int, r: int)
    requires a == q * b + r
    ensures Gcd(b, r) == Gcd(a, b)
  {
    var (g, h) := (Gcd(b, r), Gcd(a, b));
    GcdDivides(b, r);
    DividesCombination(g, b, q, r, 1);
    assert b * q + r * 1 == a;
    GcdGreatest(a, b, g);
    GcdDivides(a, b);
    DividesCombination(h, a, 1, b, -q);
    assert a * 1 + b * (-q) == r;
    GcdGreatest(b, r, h);
    DividesAntisymmetric(g, h);
  }

  // is_normalized
  predicate IsNormalized(n: int, d: int) {
    d > 0 && (n != 0 || d == 1) && Abs(InnerGcd(n, d)) == 1
  }

  // test_invariant
  predicate TestInvariant(n: int, d: int) {
    d > 0 && Gcd(n, d) == 1
  }

  // The two tests agree on every pair of integers, and both say Normal.
  lemma NormalityTestsAgree(n: int, d: int)
    ensures IsNormalized(n, d) <==> TestInvariant(n, d)
    ensures TestInvariant(n, d) <==> Normal(n, d)
  {
    InnerGcdIsGcd(n, d);
    if n == 0 && d > 0 {
      GcdSymmetric(0, d);
      assert Gcd(d, 0) == d;
    }
  }
}
