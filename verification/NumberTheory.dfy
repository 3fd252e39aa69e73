// Integer division as C++ defines it, divisibility, and the greatest common divisor.
module NumberTheory {

  function Abs(x: int): (r: nat) {
    if x < 0 then -x else x
  }

  // ----- Division truncating towards zero -----

  function TDiv(a: int, b: int): int
    requires b != 0
  {
    if (a < 0) == (b < 0) then Abs(a) / Abs(b) else -(Abs(a) / Abs(b))
  }

  function TMod(a: int, b: int): int
    requires b != 0
  {
    if a < 0 then -(Abs(a) % Abs(b)) else Abs(a) % Abs(b)
  }

  lemma TruncatedDivision(a: int, b: int)
    requires b != 0
    ensures a == TDiv(a, b) * b + TMod(a, b)
    ensures Abs(TMod(a, b)) < Abs(b)
    ensures TMod(a, b) != 0 ==> (TMod(a, b) < 0 <==> a < 0)
  {
    var (q, r) := (Abs(a) / Abs(b), Abs(a) % Abs(b));
    assert Abs(a) == Abs(b) * q + r;
  }

  lemma MulNonNegative(a: nat, b: nat)
    ensures a * b >= 0 && (a >= 1 ==> a * b >= b)
  {
    if a >= 1 {
      assert a * b == b + (a - 1) * b;
    }
  }

  lemma MulAbs(a: int, b: int)
    ensures Abs(a * b) == Abs(a) * Abs(b)
    ensures a != 0 ==> Abs(a * b) >= Abs(b)
  {
    MulNonNegative(Abs(a), Abs(b));
    if a < 0 {
      if b < 0 { assert a * b == (-a) * (-b); } else { assert a * b == -((-a) * b); }
    } else if b < 0 {
      assert a * b == -(a * (-b));
    }
  }

  lemma MulSign(a: int, b: int)
    ensures a > 0 && b > 0 ==> a * b > 0
    ensures a > 0 && b < 0 ==> a * b < 0
    ensures a < 0 && b > 0 ==> a * b < 0
    ensures a < 0 && b < 0 ==> a * b > 0
    ensures a == 0 ==> a * b == 0
  {
    MulNonNegative(Abs(a), Abs(b));
    if a < 0 {
      if b < 0 { assert a * b == (-a) * (-b); } else { assert a * b == -((-a) * b); }
    } else if b < 0 {
      assert a * b == -(a * (-b));
    }
  }

  lemma NatQuotient(a: nat, b: nat)
    requires b > 0
    ensures a * b / b == a
  {
    var q, r := a * b / b, a * b % b;
    assert a * b == q * b + r;
    Combine(a, -q, b);
    assert (a - q) * b == r;
    MulAbs(a - q, b);
  }

  lemma ExactDivision(k: int, b: int)
    requires b != 0
    ensures TDiv(k * b, b) == k
  {
    MulAbs(k, b);
    MulSign(k, b);
    NatQuotient(Abs(k), Abs(b));
  }

  // Equal factors give equal products.
  lemma Same(a: int, b: int, x: int)
    requires a == b
    ensures a * x == b * x && x * a == x * b
  {
  }

  lemma Assoc(a: int, b: int, c: int)
    ensures a * b * c == a * (b * c) == (a * c) * b == b * (a * c) == c * (a * b)
  {
  }

  lemma Combine(a: int, b: int, c: int)
    ensures (a + b) * c == a * c + b * c && c * (a + b) == c * a + c * b
  {
  }

  lemma Cancel(g: int, a: int, b: int)
    requires g != 0 && g * a == g * b
    ensures a == b
  {
    assert g * (a - b) == 0;
  }

  // ----- Divisibility -----

  ghost predicate IsMultiple(a: int, d: int, k: int) {
    a == k * d
  }

  ghost predicate Divides(d: int, a: int) {
    exists k :: IsMultiple(a, d, k)
  }

  lemma Quotient(d: int, a: int) returns (k: int)
    requires Divides(d, a)
    ensures a == k * d
    ensures d != 0 ==> TDiv(a, d) == k
  {
    k :| IsMultiple(a, d, k);
    if d != 0 {
      ExactDivision(k, d);
    }
  }

  lemma CommonFactor(j: int, k: int, d: int, x: int, y: int)
    ensures (j * d) * x + (k * d) * y == (j * x + k * y) * d
  {
    Assoc(j, d, x);
    Assoc(k, d, y);
    Combine(j * x, k * y, d);
  }

  lemma DividesCombination(d: int, a: int, x: int, b: int, y: int)
    requires Divides(d, a) && Divides(d, b)
    ensures Divides(d, a * x + b * y)
  {
    var j := Quotient(d, a);
    var k := Quotient(d, b);
    Same(a, j * d, x);
    Same(b, k * d, y);
    CommonFactor(j, k, d, x, y);
    assert IsMultiple(a * x + b * y, d, j * x + k * y);
  }

  lemma DividesBound(d: int, a: int)
    requires Divides(d, a) && a != 0
    ensures d != 0 && Abs(d) <= Abs(a)
  {
    var k := Quotient(d, a);
    MulAbs(k, d);
  }

  // ----- Greatest common divisor -----

  // integer::gcd: never negative, and zero only of two zeros.
  function Gcd(a: int, b: int): (g: nat)
    decreases Abs(b)
  {
    if b == 0 then Abs(a) else Gcd(b, a % b)
  }

  lemma {:induction false} GcdDivides(a: int, b: int)
    ensures Divides(Gcd(a, b), a) && Divides(Gcd(a, b), b)
    decreases Abs(b)
  {
    var g := Gcd(a, b);
    if b == 0 {
      assert IsMultiple(a, g, if a < 0 then -1 else 1);
      assert IsMultiple(0, g, 0);
    } else {
      GcdDivides(b, a % b);
      DividesCombination(g, b, a / b, a % b, 1);
      assert b * (a / b) + (a % b) * 1 == a;
    }
  }

  // Bezout: the greatest common divisor is a combination of its arguments.
  lemma {:induction false} Bezout(a: int, b: int) returns (x: int, y: int)
    ensures a * x + b * y == Gcd(a, b)
    decreases Abs(b)
  {
    if b == 0 {
      x, y := if a < 0 then -1 else 1, 0;
    } else {
      var x', y' := Bezout(b, a % b);
      x, y := y', x' - (a / b) * y';
      BezoutStep(a, b, a / b, a % b, x', y');
    }
  }

  lemma BezoutStep(a: int, b: int, q: int, r: int, x: int, y: int)
    requires a == b * q + r
    ensures a * y + b * (x - q * y) == b * x + r * y
  {
    Same(a, b * q + r, y);
    assert (b * q + r) * y == b * q * y + r * y;
    assert b * (x - q * y) == b * x - b * q * y;
  }

  lemma GcdGreatest(a: int, b: int, d: int)
    requires Divides(d, a) && Divides(d, b)
    ensures Divides(d, Gcd(a, b))
  {
    var x, y := Bezout(a, b);
    DividesCombination(d, a, x, b, y);
  }

  lemma GcdZero(a: int, b: int)
    ensures Gcd(a, b) == 0 <==> a == 0 && b == 0
  {
    GcdDivides(a, b);
    var j := Quotient(Gcd(a, b), a);
    var k := Quotient(Gcd(a, b), b);
    if a == 0 && b == 0 {
      assert Gcd(0, 0) == 0;
    }
  }

  // Two non-negative numbers dividing each other are equal.
  lemma DividesAntisymmetric(d: nat, e: nat)
    requires Divides(d, e) && Divides(e, d)
    ensures d == e
  {
    if d != 0 { DividesBound(e, d); }
    if e != 0 { DividesBound(d, e); }
  }

  // The greatest common divisor is the only non-negative common divisor that every common divisor divides.
  lemma GcdUnique(a: int, b: int, g: nat)
    requires Divides(g, a) && Divides(g, b)
    requires Divides(Gcd(a, b), g)
    ensures g == Gcd(a, b)
  {
    GcdGreatest(a, b, g);
    DividesAntisymmetric(g, Gcd(a, b));
  }

  lemma GcdSymmetric(a: int, b: int)
    ensures Gcd(a, b) == Gcd(b, a)
  {
    GcdDivides(a, b);
    GcdDivides(b, a);
    GcdGreatest(b, a, Gcd(a, b));
    GcdGreatest(a, b, Gcd(b, a));
    DividesAntisymmetric(Gcd(a, b), Gcd(b, a));
  }

  // ----- Coprimality -----

  ghost predicate Coprime(a: int, b: int) {
    Gcd(a, b) == 1
  }

  lemma CoprimeByCombination(a: int, b: int, x: int, y: int)
    requires a * x + b * y == 1
    ensures Coprime(a, b)
  {
    GcdDivides(a, b);
    DividesCombination(Gcd(a, b), a, x, b, y);
    DividesBound(Gcd(a, b), 1);
  }

  lemma CoprimeSymmetric(a: int, b: int)
    requires Coprime(a, b)
    ensures Coprime(b, a)
  {
    GcdSymmetric(a, b);
  }

  lemma CoprimeNegated(a: int, b: int)
    requires Coprime(a, b)
    ensures Coprime(-a, b) && Coprime(a, -b) && Coprime(-a, -b)
  {
    var x, y := Bezout(a, b);
    assert (-a) * (-x) == a * x && (-b) * (-y) == b * y;
    CoprimeByCombination(-a, b, -x, y);
    CoprimeByCombination(a, -b, x, -y);
    CoprimeByCombination(-a, -b, -x, -y);
  }

  lemma ExpandProduct(a: int, b: int, c: int, x: int, y: int, u: int, v: int)
    ensures (a * x + c * y) * (b * u + c * v) == (a * b) * (x * u) + c * (a * x * v + y * (b * u) + y * (c * v))
  {
    assert (a * x + c * y) * (b * u + c * v)
        == (a * x) * (b * u) + (a * x) * (c * v) + (c * y) * (b * u) + (c * y) * (c * v);
  }

  lemma CoprimeProduct(a: int, b: int, c: int)
    requires Coprime(a, c) && Coprime(b, c)
    ensures Coprime(a * b, c)
  {
    var x, y := Bezout(a, c);
    var u, v := Bezout(b, c);
    Same(a * x + c * y, 1, b * u + c * v);
    ExpandProduct(a, b, c, x, y, u, v);
    CoprimeByCombination(a * b, c, x * u, a * x * v + y * (b * u) + y * (c * v));
  }

  lemma CoprimeProductRight(a: int, b: int, c: int)
    requires Coprime(c, a) && Coprime(c, b)
    ensures Coprime(c, a * b)
  {
    CoprimeSymmetric(c, a);
    CoprimeSymmetric(c, b);
    CoprimeProduct(a, b, c);
    CoprimeSymmetric(a * b, c);
  }

  lemma CoprimeDivisors(a: int, b: int, d: int, e: int)
    requires Coprime(a, b) && Divides(d, a) && Divides(e, b)
    ensures Coprime(d, e)
  {
    var x, y := Bezout(a, b);
    var j := Quotient(d, a);
    var k := Quotient(e, b);
    Same(a, j * d, x);
    Same(b, k * e, y);
    Assoc(j, d, x);
    Assoc(k, e, y);
    CoprimeByCombination(d, e, j * x, k * y);
  }

  lemma PlusMultipleStep(a: int, b: int, k: int, x: int, y: int)
    ensures (a + k * b) * x + b * (y - k * x) == a * x + b * y
  {
    assert (a + k * b) * x == a * x + (k * b) * x;
    assert b * (y - k * x) == b * y - b * (k * x);
    Assoc(k, b, x);
  }

  lemma CoprimePlusMultiple(a: int, b: int, k: int)
    requires Coprime(a, b)
    ensures Coprime(a + k * b, b)
  {
    var x, y := Bezout(a, b);
    PlusMultipleStep(a, b, k, x, y);
    CoprimeByCombination(a + k * b, b, x, y - k * x);
  }

  lemma EuclidStep(d: int, a: int, b: int, x: int, y: int, k: int, ab: int)
    requires d * x + a * y == 1 && ab == a * b && ab == k * d
    ensures b == (x * b + k * y) * d
  {
    Same(d * x + a * y, 1, b);
    Same(ab, k * d, y);
    Same(ab, a * b, y);
    Combine(d * x, a * y, b);
    Assoc(a, y, b);
    Combine(x * b, k * y, d);
    Assoc(x, b, d);
    Assoc(d, x, b);
    Assoc(k, y, d);
  }

  // Euclid's lemma
  lemma CoprimeDivides(d: int, a: int, b: int)
    requires Coprime(d, a) && Divides(d, a * b)
    ensures Divides(d, b)
  {
    var x, y := Bezout(d, a);
    var k := Quotient(d, a * b);
    EuclidStep(d, a, b, x, y, k, a * b);
    assert IsMultiple(b, d, x * b + k * y);
  }

  lemma CoprimeOne(a: int)
    ensures Coprime(a, 1) && Coprime(1, a)
  {
    CoprimeByCombination(a, 1, 0, 1);
    CoprimeByCombination(1, a, 1, 0);
  }

  lemma ReducedCombination(a: int, b: int, x: int, y: int, g: int, j: int, k: int)
    requires g != 0 && a * x + b * y == g && a == j * g && b == k * g
    ensures j * x + k * y == 1
  {
    Same(a, j * g, x);
    Same(b, k * g, y);
    Assoc(j, g, x);
    Assoc(k, g, y);
    Combine(j * x, k * y, g);
    Cancel(g, j * x + k * y, 1);
  }

  // Dividing by the greatest common divisor leaves coprime numbers.
  lemma ReducedAreCoprime(a: int, b: int, g: nat)
    requires g == Gcd(a, b) && g > 0
    ensures a == TDiv(a, g) * g && b == TDiv(b, g) * g
    ensures Coprime(TDiv(a, g), TDiv(b, g))
  {
    GcdDivides(a, b);
    var j := Quotient(g, a);
    var k := Quotient(g, b);
    var x, y := Bezout(a, b);
    ReducedCombination(a, b, x, y, g, j, k);
    CoprimeByCombination(j, k, x, y);
  }

  // ----- Least common multiple -----

  // integer::lcm: never negative, and zero when either argument is.
  function Lcm(a: int, b: int): (l: nat) {
    if a == 0 || b == 0 then 0 else
      GcdZero(a, b);
      var q := Abs(a) / Gcd(a, b);
      MulNonNegative(q, Abs(b));
      q * Abs(b)
  }

  lemma GcdTimesLcm(a: int, b: int)
    ensures Gcd(a, b) * Lcm(a, b) == Abs(a * b)
  {
    MulAbs(a, b);
    if a == 0 || b == 0 {
      assert Gcd(a, b) * 0 == 0;
    } else {
      GcdZero(a, b);
      GcdDivides(a, b);
      var g := Gcd(a, b);
      var k := Quotient(g, a);
      MulAbs(k, g);
      ExactQuotient(Abs(a), g, Abs(k));
      Assoc(Abs(k), g, Abs(b));
      Same(Abs(a), Abs(k) * g, Abs(b));
    }
  }

  lemma ExactQuotient(a: nat, g: nat, k: nat)
    requires g > 0 && a == k * g
    ensures a / g == k
  {
    assert g * (a / g) + a % g == a;
    assert g * (a / g - k) + a % g == 0;
    MulAbs(a / g - k, g);
  }

  // The sign that takes x to its magnitude.
  lemma Magnitude(x: int) returns (s: int)
    ensures s * s == 1 && Abs(x) == s * x
  {
    s := if x < 0 then -1 else 1;
  }

  // lcm(a, b) is a times the part of b that a lacks, up to sign.
  lemma LcmAsProduct(a: int, b: int) returns (s: int)
    requires a != 0 && b != 0
    ensures Gcd(a, b) > 0 && s * s == 1
    ensures Lcm(a, b) == s * (a * TDiv(b, Gcd(a, b)))
  {
    var g := Gcd(a, b);
    GcdZero(a, b);
    ReducedAreCoprime(a, b, g);
    GcdTimesLcm(a, b);
    var k := TDiv(b, g);
    s := Magnitude(a * b);
    Same(b, k * g, a);
    Rearrange(s, a, k, g);
    Same(a * b, a * (k * g), s);
    Cancel(g, Lcm(a, b), s * (a * k));
  }

  lemma Rearrange(s: int, a: int, k: int, g: int)
    ensures s * (a * (k * g)) == g * (s * (a * k))
  {
    Assoc(a, k, g);
    Assoc(s, a * k, g);
  }

  lemma LcmSymmetric(a: int, b: int)
    ensures Lcm(a, b) == Lcm(b, a)
  {
    if a != 0 && b != 0 {
      GcdSymmetric(a, b);
      GcdZero(a, b);
      GcdTimesLcm(a, b);
      GcdTimesLcm(b, a);
      assert a * b == b * a;
      Cancel(Gcd(a, b), Lcm(a, b), Lcm(b, a));
    }
  }

  lemma MultipleOfFactor(l: int, s: int, a: int, k: int)
    requires l == s * (a * k)
    ensures Divides(a, l)
  {
    assert s * (a * k) == (s * k) * a;
    assert IsMultiple(l, a, s * k);
  }

  lemma LcmMultipleOfFirst(a: int, b: int)
    ensures Divides(a, Lcm(a, b))
  {
    if a == 0 || b == 0 {
      assert IsMultiple(0, a, 0);
    } else {
      var s := LcmAsProduct(a, b);
      MultipleOfFactor(Lcm(a, b), s, a, TDiv(b, Gcd(a, b)));
    }
  }

  lemma LcmMultiple(a: int, b: int)
    ensures Divides(a, Lcm(a, b)) && Divides(b, Lcm(a, b))
  {
    LcmMultipleOfFirst(a, b);
    LcmSymmetric(a, b);
    LcmMultipleOfFirst(b, a);
  }

  lemma CancelCommon(a: int, b: int, k: int, j: int, g: int, a1: int, b1: int)
    requires g != 0 && k * a == j * b && a == a1 * g && b == b1 * g
    ensures a1 * k == j * b1
  {
    Same(a, a1 * g, k);
    Same(b, b1 * g, j);
    Assoc(k, a1, g);
    Assoc(j, b1, g);
    Cancel(g, a1 * k, j * b1);
  }

  // When a divides m, the part of b that a lacks divides m / a.
  lemma LackingPart(a: int, b: int, k: int, j: int) returns (t: int)
    requires a != 0 && b != 0 && k * a == j * b
    ensures Gcd(a, b) > 0 && k == t * TDiv(b, Gcd(a, b))
  {
    var g := Gcd(a, b);
    GcdZero(a, b);
    ReducedAreCoprime(a, b, g);
    var (a1, b1) := (TDiv(a, g), TDiv(b, g));
    CancelCommon(a, b, k, j, g, a1, b1);
    assert IsMultiple(a1 * k, b1, j);
    CoprimeSymmetric(a1, b1);
    CoprimeDivides(b1, a1, k);
    t := Quotient(b1, k);
  }

  lemma MultipleOfLcm(m: int, a: int, b1: int, k: int, t: int, s: int)
    requires m == k * a && k == t * b1 && s * s == 1
    ensures m == (t * s) * (s * (a * b1))
  {
    Same(k, t * b1, a);
    Assoc(t, b1, a);
    var p := a * b1;
    Assoc(t, s, s * p);
    Assoc(s, s, p);
    Same(s * s, 1, p);
  }

  lemma LcmLeast(a: int, b: int, m: int)
    requires Divides(a, m) && Divides(b, m)
    ensures Divides(Lcm(a, b), m)
  {
    var k := Quotient(a, m);
    var j := Quotient(b, m);
    if a == 0 || b == 0 {
      assert m == 0;
      assert IsMultiple(0, Lcm(a, b), 0);
    } else {
      var t := LackingPart(a, b, k, j);
      var s := LcmAsProduct(a, b);
      var b1 := TDiv(b, Gcd(a, b));
      MultipleOfLcm(m, a, b1, k, t, s);
      assert IsMultiple(m, Lcm(a, b), t * s);
    }
  }

  // ----- Fractions -----

  ghost function Frac(n: int, d: int): real
    requires d != 0
  {
    n as real / d as real
  }

  lemma RealDistribute(p: real, q: real, y: real, w: real)
    ensures (p * y) * w + (q * w) * y == (p + q) * (y * w)
  {
  }

  lemma RealCancel(p: real, y: real)
    requires y != 0.0
    ensures p * y / y == p
  {
  }

  lemma RealNonZero(y: real, w: real)
    requires y != 0.0 && w != 0.0
    ensures y * w != 0.0 && (y > 0.0 && w > 0.0 ==> y * w > 0.0)
  {
  }

  lemma RealSum(x: real, y: real, z: real, w: real)
    requires y != 0.0 && w != 0.0
    ensures y * w != 0.0 && (x * w + z * y) / (y * w) == x / y + z / w
  {
    var p, q := x / y, z / w;
    assert p * y == x && q * w == z;
    RealNonZero(y, w);
    RealDistribute(p, q, y, w);
    RealCancel(p + q, y * w);
  }

  lemma RealAssoc(p: real, y: real, w: real)
    ensures (p * y) * w == p * (y * w) && (p * w) * y == p * (y * w)
  {
  }

  lemma RealScale(p: real, q: real, t: real)
    ensures t > 0.0 ==> (p < q <==> p * t < q * t)
    ensures t != 0.0 ==> (p == q <==> p * t == q * t)
  {
    if t > 0.0 && p * t < q * t {
      assert (q - p) * t == q * t - p * t;
    }
    if t != 0.0 && p * t == q * t {
      RealCancel(p, t);
      RealCancel(q, t);
    }
  }

  lemma RealCompare(x: real, y: real, z: real, w: real)
    requires y != 0.0 && w != 0.0
    ensures x / y == z / w <==> x * w == z * y
    ensures y > 0.0 && w > 0.0 ==> (x / y < z / w <==> x * w < z * y)
  {
    var p, q := x / y, z / w;
    assert p * y == x && q * w == z;
    RealNonZero(y, w);
    RealAssoc(p, y, w);
    RealAssoc(q, y, w);
    RealScale(p, q, y * w);
  }

  lemma RealProduct(x: real, y: real, z: real, w: real)
    requires y != 0.0 && w != 0.0
    ensures y * w != 0.0 && (x * z) / (y * w) == (x / y) * (z / w)
  {
    var p, q := x / y, z / w;
    assert p * y == x && q * w == z;
    RealNonZero(y, w);
    RealFour(p, y, q, w);
    RealCancel(p * q, y * w);
  }

  lemma RealFour(p: real, y: real, q: real, w: real)
    ensures (p * y) * (q * w) == (p * q) * (y * w)
  {
  }

  lemma RealQuotient(x: real, y: real, z: real, w: real)
    requires y != 0.0 && w != 0.0 && z != 0.0
    ensures y * z != 0.0 && z / w != 0.0 && (x * w) / (y * z) == (x / y) / (z / w)
  {
    var p, q := x / y, z / w;
    assert p * y == x && q * w == z;
    assert q != 0.0;
    var r := p / q;
    assert r * q == p;
    RealNonZero(y, z);
    RealFour(r, q, y, w);
    RealAssoc(p, y, w);
    RealThree(y, q, w);
    RealCancel(r, y * z);
  }

  lemma RealThree(y: real, q: real, w: real)
    ensures y * (q * w) == q * (y * w)
  {
  }

  lemma MulReal(a: int, b: int)
    ensures (a * b) as real == (a as real) * (b as real)
  {
  }

  lemma FracEqual(a: int, b: int, c: int, d: int)
    requires b != 0 && d != 0
    ensures Frac(a, b) == Frac(c, d) <==> a * d == c * b
  {
    MulReal(a, d);
    MulReal(c, b);
    RealCompare(a as real, b as real, c as real, d as real);
  }

  lemma FracLess(a: int, b: int, c: int, d: int)
    requires b > 0 && d > 0
    ensures Frac(a, b) < Frac(c, d) <==> a * d < c * b
  {
    MulReal(a, d);
    MulReal(c, b);
    RealCompare(a as real, b as real, c as real, d as real);
  }

  lemma FracScaled(n: int, d: int, k: int)
    requires d != 0 && k != 0
    ensures k * d != 0 && Frac(k * n, k * d) == Frac(n, d)
  {
    FracEqual(k * n, k * d, n, d);
    assert (k * n) * d == n * (k * d);
  }

  lemma FracSum(a: int, b: int, c: int, d: int)
    requires b != 0 && d != 0
    ensures b * d != 0 && Frac(a * d + c * b, b * d) == Frac(a, b) + Frac(c, d)
  {
    MulReal(a, d);
    MulReal(c, b);
    MulReal(b, d);
    RealSum(a as real, b as real, c as real, d as real);
  }

  lemma FracProduct(a: int, b: int, c: int, d: int)
    requires b != 0 && d != 0
    ensures b * d != 0 && Frac(a * c, b * d) == Frac(a, b) * Frac(c, d)
  {
    MulReal(a, c);
    MulReal(b, d);
    RealProduct(a as real, b as real, c as real, d as real);
  }

  lemma FracQuotient(a: int, b: int, c: int, d: int)
    requires b != 0 && d != 0 && c != 0
    ensures b * c != 0 && Frac(c, d) != 0.0 && Frac(a * d, b * c) == Frac(a, b) / Frac(c, d)
  {
    MulReal(a, d);
    MulReal(b, c);
    RealQuotient(a as real, b as real, c as real, d as real);
  }
}
