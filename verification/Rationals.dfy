// rational<IntType>: every operation is exact and keeps the normal form without ever renormalising. It is written
// against the operations of IntType alone, each of which needs its result to fit: so what a method is proved to
// do for every bound under which its operands fit, it does without computing anything larger.
module Rationals {
  import opened IntTypes
  import opened NumberTheory
  import opened RationalLemmas

  // Every normal fraction of this value has components that fit; there is only one.
  ghost predicate ResultFits<T>(x: real, m: Meaning<T>) {
    forall n, d :: Normal(n, d) && Frac(n, d) == x ==> m.Fits(n) && m.Fits(d)
  }

  // One value's state in the continued-fraction comparison: n == q * d + r.
  datatype Expansion<!T> = Expansion(n: T, d: T, q: T, r: T)
  {
    ghost predicate Valid(m: Meaning<T>) {
      && m.value(n) == m.value(q) * m.value(d) + m.value(r) && 0 <= m.value(r) < m.value(d)
      && m.Fits(m.value(n)) && m.Fits(m.value(d))
    }
  }

  class Rational<T(!new)> {
    const ints: IntType<T>
    ghost const m: Meaning<T>
    var num: T
    var den: T

    ghost function Num(): int
      reads this
    {
      m.value(num)
    }

    ghost function Den(): int
      reads this
    {
      m.value(den)
    }

    // The components fit, and the denominator is positive.
    ghost predicate Sound()
      reads this
    {
      ints.Computes(m) && m.Fits(Num()) && m.Fits(Den()) && Den() > 0
    }

    // test_invariant
    ghost predicate Valid()
      reads this
    {
      Sound() && Normal(Num(), Den())
    }

    ghost function Value(): real
      requires Den() != 0
      reads this
    {
      Frac(Num(), Den())
    }

    constructor (ints: IntType<T>, ghost m: Meaning<T>)
      requires ints.Computes(m) && m.Fits(1)
      ensures this.ints == ints && this.m == m
      ensures Valid() && Value() == 0.0 && Num() == 0 && Den() == 1
    {
      this.ints, this.m, num, den := ints, m, ints.zero, ints.one;
      new;
      CoprimeOne(0);
      assert Frac(0, 1) == 0.0;
    }

    constructor FromInt(ints: IntType<T>, ghost m: Meaning<T>, n: T)
      requires ints.Computes(m) && m.Fits(m.value(n)) && m.Fits(1)
      ensures this.ints == ints && this.m == m
      ensures Valid() && Value() == m.value(n) as real && Num() == m.value(n) && Den() == 1
    {
      this.ints, this.m, num, den := ints, m, n, ints.one;
      new;
      CoprimeOne(m.value(n));
      assert Frac(m.value(n), 1) == m.value(n) as real;
    }

    // The members of the two-argument constructor before it normalises.
    constructor Raw(ints: IntType<T>, ghost m: Meaning<T>, n: T, d: T)
      ensures this.ints == ints && this.m == m && num == n && den == d
    {
      this.ints, this.m, num, den := ints, m, n, d;
    }

    // The step that ends normalisation and division: a negative denominator hands its sign on.
    method MakePositive()
      requires ints.Computes(m) && m.Fits(Num()) && m.Fits(Den())
      modifies this
      ensures Num() == if old(Den()) < 0 then -old(Num()) else old(Num())
      ensures Den() == if old(Den()) < 0 then -old(Den()) else old(Den())
    {
      var negative := ints.Less(den, ints.zero, m);
      if negative {
        num := ints.Neg(num, m);
        den := ints.Neg(den, m);
      }
    }

    // normalize: false is the bad_rational exception. The bounds are symmetric, so negation always works and the
    // source's second check for a negative denominator never fires.
    method Normalize() returns (ok: bool)
      requires ints.Computes(m) && m.Fits(Num()) && m.Fits(Den()) && m.Fits(1)
      modifies this
      ensures ok <==> old(Den()) != 0
      ensures ok ==> Valid() && Value() == Frac(old(Num()), old(Den()))
      ensures !ok ==> unchanged(this)
    {
      var noDen := ints.Equal(den, ints.zero, m);
      if noDen { return false; }
      var noNum := ints.Equal(num, ints.zero, m);
      ghost var (a, b) := (Num(), Den());
      if noNum {
        FracEqual(0, b, 0, 1);
        CoprimeOne(0);
        den := ints.one;
        return true;
      }
      ghost var h := Gcd(a, b);
      GcdMagnitude(a, b);
      ReducedAreCoprime(a, b, h);
      QuotientMagnitude(a, h);
      QuotientMagnitude(b, h);
      FracScaled(TDiv(a, h), TDiv(b, h), h);
      ghost var (n, e, q) := (TDiv(a, h), TDiv(b, h), Frac(a, b));
      assert Frac(n, e) == q;
      EitherSign(n, e, q);
      var g := ints.Gcd(num, den, m);
      num := ints.Div(num, g, m);
      den := ints.Div(den, g, m);
      MakePositive();
      ok := true;
    }

    // assign: build the normalised rational first, so that a failure leaves this alone.
    method Assign(n: T, d: T) returns (ok: bool)
      requires ints.Computes(m) && m.Fits(m.value(n)) && m.Fits(m.value(d)) && m.Fits(1)
      modifies this
      ensures ok <==> m.value(d) != 0
      ensures ok ==> Valid() && Value() == Frac(m.value(n), m.value(d))
      ensures !ok ==> unchanged(this)
    {
      var t := new Rational.Raw(ints, m, n, d);
      ok := t.Normalize();
      if ok {
        num, den := t.num, t.den;
      }
    }

    // operator+= ; r may be this very object.
    method AddAssign(r: Rational<T>)
      requires Valid() && r.Valid() && r.m == m && !m.bounded
      modifies this
      ensures Valid() && Value() == old(Value()) + old(r.Value())
    {
      var rNum, rDen := r.num, r.den;
      ghost var (a, b, c, d) := (Num(), Den(), r.Num(), r.Den());
      SumIsNormal(a, b, c, d, a * Reduced(d, b, d) + c * Reduced(b, b, d));
      GcdPositive(b, d);
      var g := ints.Gcd(den, rDen, m);
      den := ints.Div(den, g, m);
      var x := ints.Div(rDen, g, m);
      x := ints.Mul(num, x, m);
      var y := ints.Mul(rNum, den, m);
      num := ints.Add(x, y, m);
      g := ints.Gcd(num, g, m);
      num := ints.Div(num, g, m);
      x := ints.Div(rDen, g, m);
      den := ints.Mul(den, x, m);
    }

    // operator-=
    method SubtractAssign(r: Rational<T>)
      requires Valid() && r.Valid() && r.m == m && !m.bounded
      modifies this
      ensures Valid() && Value() == old(Value()) - old(r.Value())
    {
      var rNum, rDen := r.num, r.den;
      ghost var (a, b, c, d) := (Num(), Den(), r.Num(), r.Den());
      DifferenceIsNormal(a, b, c, d, a * Reduced(d, b, d) - c * Reduced(b, b, d));
      GcdPositive(b, d);
      var g := ints.Gcd(den, rDen, m);
      den := ints.Div(den, g, m);
      var x := ints.Div(rDen, g, m);
      x := ints.Mul(num, x, m);
      var y := ints.Mul(rNum, den, m);
      num := ints.Sub(x, y, m);
      g := ints.Gcd(num, g, m);
      num := ints.Div(num, g, m);
      x := ints.Div(rDen, g, m);
      den := ints.Mul(den, x, m);
    }

    // operator*= , within any bound that holds the operands and the result.
    method MultiplyAssign(r: Rational<T>)
      requires Valid() && r.Valid() && r.m == m && ResultFits(Value() * r.Value(), m)
      modifies this
      ensures Valid() && Value() == old(Value()) * old(r.Value())
    {
      var rNum, rDen := r.num, r.den;
      ghost var (a, b, c, d) := (Num(), Den(), r.Num(), r.Den());
      ghost var a1, c1, b1, d1 := CrossParts(a, b, c, d, Value(), r.Value(), Value() * r.Value());
      var gcd1 := ints.Gcd(num, rDen, m);
      var gcd2 := ints.Gcd(rNum, den, m);
      var x := ints.Div(num, gcd1, m);
      var y := ints.Div(rNum, gcd2, m);
      num := ints.Mul(x, y, m);
      x := ints.Div(den, gcd2, m);
      y := ints.Div(rDen, gcd1, m);
      den := ints.Mul(x, y, m);
    }

    // The part of division that computes: what cancels is divided out, n / e is left, and its sign is set right.
    method CancelAndDivide(rNum: T, rDen: T, ghost n: int, ghost e: int, ghost q: real)
      requires ints.Computes(m) && m.Fits(Num()) && m.Fits(Den()) && ResultFits(q, m)
      requires m.Fits(m.value(rNum)) && m.Fits(m.value(rDen))
      requires QuotientOf(Num(), Den(), m.value(rNum), m.value(rDen), n, e)
      requires e != 0 && Coprime(n, e) && Frac(n, e) == q
      modifies this
      ensures Valid() && Value() == q
    {
      SignedFits(n, e, q, m);
      EitherSign(n, e, q);
      var gcd1 := ints.Gcd(num, rNum, m);
      var gcd2 := ints.Gcd(rDen, den, m);
      var x := ints.Div(num, gcd1, m);
      var y := ints.Div(rDen, gcd2, m);
      num := ints.Mul(x, y, m);
      x := ints.Div(den, gcd2, m);
      y := ints.Div(rNum, gcd1, m);
      den := ints.Mul(x, y, m);
      MakePositive();
    }

    // operator/= , within any bound that holds the operands and the result; false is the bad_rational exception
    // for a zero divisor.
    method DivideAssign(r: Rational<T>) returns (ok: bool)
      requires Valid() && r.Valid() && r.m == m
      requires r.Num() != 0 ==> r.Value() != 0.0 && ResultFits(Value() / r.Value(), m)
      modifies this
      ensures ok <==> old(r.Num()) != 0
      ensures ok ==> Valid() && old(r.Value()) != 0.0 && Value() == old(Value()) / old(r.Value())
      ensures !ok ==> unchanged(this)
    {
      var rNum, rDen := r.num, r.den;
      ghost var (a, b, c, d) := (Num(), Den(), r.Num(), r.Den());
      var zero := ints.Equal(rNum, ints.zero, m);
      if zero { return false; }
      ghost var q := Value() / r.Value();
      zero := ints.Equal(num, ints.zero, m);
      if zero {
        ZeroQuotient(b, r.Value(), q);
        return true;
      }
      ghost var n, e := QuotientParts(a, b, c, d, Value(), r.Value(), q);
      CancelAndDivide(rNum, rDen, n, e, q);
      ok := true;
    }

    // operator+= for an integer
    method AddAssignInt(i: T)
      requires Valid() && !m.bounded
      modifies this
      ensures Valid() && Value() == old(Value()) + m.value(i) as real
    {
      ghost var (a, b, c) := (Num(), Den(), m.value(i));
      FracSum(a, b, c, 1);
      assert Frac(c, 1) == c as real;
      CoprimePlusMultiple(a, b, c);
      var x := ints.Mul(i, den, m);
      num := ints.Add(num, x, m);
    }

    // operator-= for an integer
    method SubtractAssignInt(i: T)
      requires Valid() && !m.bounded
      modifies this
      ensures Valid() && Value() == old(Value()) - m.value(i) as real
    {
      ghost var (a, b, c) := (Num(), Den(), m.value(i));
      FracSum(a, b, -c, 1);
      assert Frac(-c, 1) == -(c as real);
      NegatedFactor(c, b);
      CoprimePlusMultiple(a, b, -c);
      var x := ints.Mul(i, den, m);
      num := ints.Sub(num, x, m);
    }

    // operator*= for an integer, within any bound that holds the operands and the result.
    method MultiplyAssignInt(i: T)
      requires Valid() && m.Fits(m.value(i)) && ResultFits(Value() * m.value(i) as real, m)
      modifies this
      ensures Valid() && Value() == old(Value()) * m.value(i) as real
    {
      ghost var q := Value() * m.value(i) as real;
      ghost var n, e := IntegerProduct(Num(), Den(), m.value(i), Value(), q);
      SignedFits(n, e, q, m);
      var gcd := ints.Gcd(i, den, m);
      var x := ints.Div(i, gcd, m);
      num := ints.Mul(num, x, m);
      den := ints.Div(den, gcd, m);
    }

    // The part of division by an integer that computes.
    method CancelAndDivideInt(i: T, ghost n: int, ghost e: int, ghost q: real)
      requires ints.Computes(m) && m.Fits(Num()) && m.Fits(Den()) && m.Fits(m.value(i)) && ResultFits(q, m)
      requires IntQuotientOf(Num(), Den(), m.value(i), n, e) && e != 0 && Coprime(n, e) && Frac(n, e) == q
      modifies this
      ensures Valid() && Value() == q
    {
      SignedFits(n, e, q, m);
      EitherSign(n, e, q);
      var gcd := ints.Gcd(num, i, m);
      num := ints.Div(num, gcd, m);
      var x := ints.Div(i, gcd, m);
      den := ints.Mul(den, x, m);
      MakePositive();
    }

    // operator/= for an integer, within any bound that holds the operands and the result; false is the
    // bad_rational exception.
    method DivideAssignInt(i: T) returns (ok: bool)
      requires Valid() && m.Fits(m.value(i))
      requires m.value(i) != 0 ==> m.value(i) as real != 0.0 && ResultFits(Value() / m.value(i) as real, m)
      modifies this
      ensures ok <==> m.value(i) != 0
      ensures ok ==> Valid() && Value() == old(Value()) / m.value(i) as real
      ensures !ok ==> unchanged(this)
    {
      ghost var (a, b, c) := (Num(), Den(), m.value(i));
      var zero := ints.Equal(i, ints.zero, m);
      if zero { return false; }
      ghost var q := Value() / c as real;
      zero := ints.Equal(num, ints.zero, m);
      if zero {
        ZeroQuotient(b, c as real, q);
        return true;
      }
      ghost var n, e := IntegerQuotient(a, b, c, Value(), q);
      CancelAndDivideInt(i, n, e, q);
      ok := true;
    }

    // operator== : comparing components decides equality of values.
    method Equals(r: Rational<T>) returns (same: bool)
      requires Valid() && r.Valid() && r.m == m
      ensures same <==> Value() == r.Value()
    {
      NormalFormUnique(Num(), Den(), r.Num(), r.Den());
      var sameNum := ints.Equal(num, r.num, m);
      var sameDen := ints.Equal(den, r.den, m);
      same := sameNum && sameDen;
    }

    // operator< on two rationals. Only positive denominators are asked for; the loop ends because both
    // denominators strictly shrink; and it works within any bound that holds the components of the operands.
    method Less(r: Rational<T>) returns (less: bool)
      requires Sound() && r.Sound() && r.m == m
      ensures less <==> Num() * r.Den() < r.Num() * Den()
      ensures less <==> Value() < r.Value()
    {
      FracLess(Num(), Den(), r.Num(), r.Den());
      var ts := Expand(num, den);
      var rs := Expand(r.num, r.den);
      var reverse := false;
      while true
        invariant ts.Valid(m) && rs.Valid(m)
        invariant Num() * r.Den() < r.Num() * Den() <==> Before(m, ts, rs, reverse)
        decreases m.value(ts.d) + m.value(rs.d)
      {
        var same := ints.Equal(ts.q, rs.q, m);
        if !same {
          DifferentTerms(m, ts, rs);
          var below := ints.Less(ts.q, rs.q, m);
          var above := ints.Less(rs.q, ts.q, m);
          return if reverse then above else below;
        }
        SameTerms(m, ts, rs, reverse);
        reverse := !reverse;
        var tEnded := ints.Equal(ts.r, ints.zero, m);
        var rEnded := ints.Equal(rs.r, ints.zero, m);
        if tEnded || rEnded { break; }
        ts := NextTerm(ts);
        rs := NextTerm(rs);
      }
      var same := ints.Equal(ts.r, rs.r, m);
      if same {
        less := false;
      } else {
        var tEnded := ints.Equal(ts.r, ints.zero, m);
        less := !tEnded != reverse;
      }
    }

    // The first term: truncated division, then the remainder made non-negative.
    method Expand(n: T, d: T) returns (e: Expansion<T>)
      requires ints.Computes(m) && m.value(d) > 0 && m.Fits(m.value(n)) && m.Fits(m.value(d))
      ensures e.Valid(m) && e.n == n && e.d == d
    {
      ghost var (a, b) := (m.value(n), m.value(d));
      TruncatedDivision(a, b);
      TruncatedMagnitude(a, b);
      var q := ints.Div(n, d, m);
      var rem := ints.Mod(n, d, m);
      var negative := ints.Less(rem, ints.zero, m);
      while negative
        invariant a == m.value(q) * b + m.value(rem) && -b < m.value(rem) < b
        invariant negative <==> m.value(rem) < 0
        decreases -m.value(rem)
      {
        Combine(m.value(q), -1, b);
        FloorMagnitude(a, b, m.value(q) - 1, m.value(rem) + b);
        rem := ints.Add(rem, d, m);
        q := ints.Sub(q, ints.one, m);
        negative := ints.Less(rem, ints.zero, m);
      }
      e := Expansion(n, d, q, rem);
    }

    // The next term of a continued fraction: divide the denominator by the remainder.
    method NextTerm(e: Expansion<T>) returns (f: Expansion<T>)
      requires ints.Computes(m) && e.Valid(m) && m.value(e.r) != 0
      ensures f.Valid(m) && f.n == e.d && f.d == e.r && m.value(f.d) < m.value(e.d)
    {
      TruncatedDivision(m.value(e.d), m.value(e.r));
      TruncatedMagnitude(m.value(e.d), m.value(e.r));
      var q := ints.Div(e.d, e.r, m);
      var rem := ints.Mod(e.d, e.r, m);
      f := Expansion(e.d, e.r, q, rem);
    }

    // operator< against an integer: compare the floor.
    method LessInt(i: T) returns (less: bool)
      requires Sound()
      ensures less <==> Value() < m.value(i) as real
    {
      var e := Expand(num, den);
      FracLess(Num(), Den(), m.value(i), 1);
      assert Frac(m.value(i), 1) == m.value(i) as real;
      FloorBelow(Num(), Den(), m.value(e.q), m.value(e.r), m.value(i));
      less := ints.Less(e.q, i, m);
    }

    // operator== against an integer
    method EqualsInt(i: T) returns (same: bool)
      requires Valid()
      ensures same <==> Value() == m.value(i) as real
    {
      assert Frac(m.value(i), 1) == m.value(i) as real;
      CoprimeOne(m.value(i));
      NormalFormUnique(Num(), Den(), m.value(i), 1);
      var whole := ints.Equal(den, ints.one, m);
      var sameNum := ints.Equal(num, i, m);
      same := whole && sameNum;
    }
  }

  // The order of the operands as the order of what is left of them, reversed after every other term.
  ghost predicate Before<T>(m: Meaning<T>, ts: Expansion<T>, rs: Expansion<T>, reverse: bool) {
    if reverse then m.value(rs.n) * m.value(ts.d) < m.value(ts.n) * m.value(rs.d)
    else m.value(ts.n) * m.value(rs.d) < m.value(rs.n) * m.value(ts.d)
  }

  lemma DifferentTerms<T>(m: Meaning<T>, ts: Expansion<T>, rs: Expansion<T>)
    requires ts.Valid(m) && rs.Valid(m) && m.value(ts.q) != m.value(rs.q)
    ensures Before(m, ts, rs, false) <==> m.value(ts.q) < m.value(rs.q)
    ensures Before(m, ts, rs, true) <==> m.value(rs.q) < m.value(ts.q)
  {
    var (tn, td, tq, tr) := (m.value(ts.n), m.value(ts.d), m.value(ts.q), m.value(ts.r));
    var (rn, rd, rq, rr) := (m.value(rs.n), m.value(rs.d), m.value(rs.q), m.value(rs.r));
    if tq < rq {
      WholePartsDecide(tn, td, tq, tr, rn, rd, rq, rr);
    } else {
      WholePartsDecide(rn, rd, rq, rr, tn, td, tq, tr);
    }
  }

  // With equal terms the remainders decide, reversed: as the next expansions if both go on, and at once if one
  // has ended.
  lemma SameTerms<T>(m: Meaning<T>, ts: Expansion<T>, rs: Expansion<T>, reverse: bool)
    requires ts.Valid(m) && rs.Valid(m) && m.value(ts.q) == m.value(rs.q)
    ensures var (td, tr, rd, rr) := (m.value(ts.d), m.value(ts.r), m.value(rs.d), m.value(rs.r));
            && (Before(m, ts, rs, reverse) <==> if reverse then td * rr < rd * tr else rd * tr < td * rr)
            && (tr == 0 || rr == 0 ==>
                  (Before(m, ts, rs, reverse) <==> tr != rr && (if reverse then tr != 0 else rr != 0)))
  {
    var (tn, td, tq, tr) := (m.value(ts.n), m.value(ts.d), m.value(ts.q), m.value(ts.r));
    var (rn, rd, rr) := (m.value(rs.n), m.value(rs.d), m.value(rs.r));
    EqualWholeParts(tn, td, tr, rn, rd, rr, tq);
    EndedExpansion(td, tr, rd, rr);
  }

  // The parts that cross-cancelling leaves, and that they are no larger than what they are taken from.
  lemma CrossParts(a: int, b: int, c: int, d: int, x: real, y: real, product: real)
    returns (a1: int, c1: int, b1: int, d1: int)
    requires b != 0 && d != 0 && Coprime(a, b) && Coprime(c, d)
    requires x == Frac(a, b) && y == Frac(c, d) && product == x * y
    ensures 0 < Gcd(a, d) <= Abs(d) && 0 < Gcd(c, b) <= Abs(b)
    ensures a1 == TDiv(a, Gcd(a, d)) && d1 == TDiv(d, Gcd(a, d))
    ensures c1 == TDiv(c, Gcd(c, b)) && b1 == TDiv(b, Gcd(c, b))
    ensures Abs(a1) <= Abs(a) && Abs(c1) <= Abs(c) && Abs(b1) <= Abs(b) && Abs(d1) <= Abs(d)
    ensures b1 * d1 != 0 && Coprime(a1 * c1, b1 * d1) && Frac(a1 * c1, b1 * d1) == product
    ensures b > 0 && d > 0 ==> b1 * d1 > 0
  {
    var g, h := Gcd(a, d), Gcd(c, b);
    GcdMagnitude(a, d);
    GcdMagnitude(c, b);
    a1, c1, b1, d1 := TDiv(a, g), TDiv(c, h), TDiv(b, h), TDiv(d, g);
    CrossCancelled(a, b, c, d, g, h, a1, c1, b1, d1, x, y, product);
    CrossMagnitudes(a, b, c, d, g, h, a1, c1, b1, d1);
  }

  // n / e is a / b over c / d with the common factors of the numerators and of the denominators divided out.
  ghost predicate QuotientOf(a: int, b: int, c: int, d: int, n: int, e: int) {
    && 0 < Gcd(a, c) <= Abs(c) && 0 < Gcd(d, b) <= Abs(b)
    && n == TDiv(a, Gcd(a, c)) * TDiv(d, Gcd(d, b)) && e == TDiv(b, Gcd(d, b)) * TDiv(c, Gcd(a, c))
    && Abs(TDiv(a, Gcd(a, c))) <= Abs(a) && Abs(TDiv(d, Gcd(d, b))) <= Abs(d)
    && Abs(TDiv(b, Gcd(d, b))) <= Abs(b) && Abs(TDiv(c, Gcd(a, c))) <= Abs(c)
  }

  lemma QuotientParts(a: int, b: int, c: int, d: int, x: real, y: real, q: real) returns (n: int, e: int)
    requires Normal(a, b) && Normal(c, d) && c != 0 && x == Frac(a, b) && y == Frac(c, d)
    requires y != 0.0 && q == x / y
    ensures QuotientOf(a, b, c, d, n, e)
    ensures e != 0 && Coprime(n, e) && Frac(n, e) == q
  {
    FracInverse(c, d);
    CoprimeSymmetric(c, d);
    var z := Frac(d, c);
    var a1, d1, b1, c1 := CrossParts(a, b, d, c, x, z, x * z);
    n, e := a1 * d1, b1 * c1;
    TimesInverse(x, z, y);
  }

  lemma ZeroQuotient(b: int, y: real, q: real)
    requires b != 0 && y != 0.0 && q == Frac(0, b) / y
    ensures Frac(0, b) == 0.0 == q
  {
  }

  // Whichever sign the denominator has, one of the two forms is normal.
  lemma EitherSign(n: int, e: int, q: real)
    requires e != 0 && Coprime(n, e) && Frac(n, e) == q
    ensures e > 0 ==> Normal(n, e) && Frac(n, e) == q
    ensures e < 0 ==> Normal(-n, -e) && Frac(-n, -e) == q
  {
    FlipSigns(n, e);
  }

  // A coprime fraction of either sign fits if its normal form does.
  lemma SignedFits<T>(n: int, d: int, x: real, m: Meaning<T>)
    requires d != 0 && Coprime(n, d) && Frac(n, d) == x && ResultFits(x, m)
    ensures m.Fits(n) && m.Fits(d)
  {
    FlipSigns(n, d);
    if d > 0 {
      assert Normal(n, d);
    } else {
      assert Normal(-n, -d);
    }
  }

  // Multiplying by an integer: what is left of it and the denominator after cancelling, and how large it is.
  lemma IntegerProduct(a: int, b: int, i: int, x: real, q: real) returns (n: int, e: int)
    requires Normal(a, b) && x == Frac(a, b) && q == x * i as real
    ensures 0 < Gcd(i, b) <= Abs(b) && n == a * TDiv(i, Gcd(i, b)) && e == TDiv(b, Gcd(i, b))
    ensures Abs(TDiv(i, Gcd(i, b))) <= Abs(i) && Abs(e) <= Abs(b)
    ensures Normal(n, e) && Frac(n, e) == q
  {
    assert Frac(i, 1) == i as real;
    CoprimeOne(i);
    CrossWithOne(a);
    var a1, i1, b1, d1 := CrossParts(a, b, i, 1, x, i as real, q);
    assert a1 == a && d1 == 1 && b1 * d1 == b1;
    n, e := a * i1, b1;
  }

  ghost predicate IntQuotientOf(a: int, b: int, i: int, n: int, e: int) {
    && 0 < Gcd(a, i) <= Abs(i) && n == TDiv(a, Gcd(a, i)) && e == b * TDiv(i, Gcd(a, i))
    && Abs(n) <= Abs(a) && Abs(TDiv(i, Gcd(a, i))) <= Abs(i)
  }

  // Dividing by an integer: what is left of the two after cancelling, and how large it is.
  lemma IntegerQuotient(n: int, d: int, i: int, x: real, q: real) returns (n1: int, e: int)
    requires Normal(n, d) && n != 0 && i != 0 && x == Frac(n, d) && i as real != 0.0 && q == x / i as real
    ensures IntQuotientOf(n, d, i, n1, e)
    ensures e != 0 && Coprime(n1, e) && Frac(n1, e) == q
  {
    CoprimeOne(i);
    CrossWithOne(d);
    IntegerInverse(i);
    var y := Frac(1, i);
    var c1, b1, i1;
    n1, c1, b1, i1 := CrossParts(n, d, 1, i, x, y, x * y);
    assert c1 == 1 && b1 == d && n1 * c1 == n1;
    e := b1 * i1;
    TimesInverse(x, y, i as real);
  }

  lemma IntegerInverse(i: int)
    requires i != 0
    ensures i as real != 0.0 && Frac(1, i) == 1.0 / i as real
  {
    FracInverse(i, 1);
    assert Frac(i, 1) == i as real;
  }

  // An expansion that has ended compares as infinity in the next place.
  lemma EndedExpansion(td: int, tr: int, rd: int, rr: int)
    requires 0 <= tr < td && 0 <= rr < rd
    ensures tr == 0 && rr == 0 ==> tr * rd == rr * td
    ensures tr > 0 && rr == 0 ==> tr * rd > rr * td
    ensures tr == 0 && rr > 0 ==> tr * rd < rr * td
    ensures rd * tr == tr * rd && td * rr == rr * td
  {
    if tr > 0 { MulPositive(tr, rd); }
    if rr > 0 { MulPositive(rr, td); }
  }

  lemma TruncatedMagnitude(n: int, d: int)
    requires d > 0
    ensures Abs(TDiv(n, d)) <= Abs(n)
  {
    FloorMagnitude(Abs(n), d, Abs(n) / d, Abs(n) % d);
  }

  lemma FloorBelow(n: int, d: int, q: int, r: int, i: int)
    requires n == q * d + r && 0 <= r < d
    ensures q < i <==> n < i * d
  {
    if q < i {
      MulNonNegative(d, i - q - 1);
      Combine(i, -q - 1, d);
      Combine(-q, -1, d);
      NegatedFactor(q, d);
    } else {
      MulNonNegative(d, q - i);
      Combine(q, -i, d);
      NegatedFactor(i, d);
    }
  }

  // Everything cross-cancelling computes before multiplying is bounded by the operands.
  lemma CrossMagnitudes(a: int, b: int, c: int, d: int, g: int, h: int, a1: int, c1: int, b1: int, d1: int)
    requires b != 0 && d != 0 && CrossCancels(a, b, c, d, g, h, a1, c1, b1, d1)
    ensures g <= Abs(d) && h <= Abs(b)
    ensures Abs(a1) <= Abs(a) && Abs(c1) <= Abs(c) && Abs(b1) <= Abs(b) && Abs(d1) <= Abs(d)
  {
    GcdMagnitude(a, d);
    GcdMagnitude(c, b);
    ReducedAreCoprime(a, d, g);
    ReducedAreCoprime(c, b, h);
    QuotientMagnitude(a, g);
    QuotientMagnitude(d, g);
    QuotientMagnitude(c, h);
    QuotientMagnitude(b, h);
  }

  lemma TimesInverse(x: real, y: real, z: real)
    requires z != 0.0 && y == 1.0 / z
    ensures x * y == x / z
  {
  }

  // Nothing cancels against a one.
  lemma CrossWithOne(x: int)
    ensures Gcd(x, 1) == 1 && TDiv(x, 1) == x && Gcd(1, x) == 1 && TDiv(1, 1) == 1
  {
    CoprimeOne(x);
    ExactDivision(x, 1);
    ExactDivision(1, 1);
  }

  // gcd_evaluator: the constructor's normalisation changes nothing, and the result is the greatest common
  // rational divisor.
  method GcdEvaluator<T(!new)>(a: Rational<T>, b: Rational<T>) returns (g: Rational<T>)
    requires a.Valid() && b.Valid() && b.m == a.m
    requires a.m.Fits(Lcm(a.Den(), b.Den())) && a.m.Fits(Gcd(a.Num(), b.Num())) && a.m.Fits(1)
    ensures fresh(g) && g.m == a.m && g.Valid()
    ensures g.Num() == Gcd(a.Num(), b.Num()) && g.Den() == Lcm(a.Den(), b.Den())
    ensures IntegerMultiple(a.Value(), g.Value()) && IntegerMultiple(b.Value(), g.Value())
    ensures forall c, e :: Normal(c, e) && IntegerMultiple(a.Value(), Frac(c, e))
                           && IntegerMultiple(b.Value(), Frac(c, e))
                      ==> IntegerMultiple(g.Value(), Frac(c, e))
  {
    GreatestCommonRational(a.Num(), a.Den(), b.Num(), b.Den());
    var n := a.ints.Gcd(a.num, b.num, a.m);
    var d := a.ints.Lcm(a.den, b.den, a.m);
    g := new Rational.Raw(a.ints, a.m, n, d);
    var ok := g.Normalize();
    NormalFormUnique(g.Num(), g.Den(), Gcd(a.Num(), b.Num()), Lcm(a.Den(), b.Den()));
  }

  // lcm_evaluator
  method LcmEvaluator<T(!new)>(a: Rational<T>, b: Rational<T>) returns (l: Rational<T>)
    requires a.Valid() && b.Valid() && b.m == a.m
    requires a.m.Fits(Lcm(a.Num(), b.Num())) && a.m.Fits(Gcd(a.Den(), b.Den())) && a.m.Fits(1)
    ensures fresh(l) && l.m == a.m && l.Valid()
    ensures l.Num() == Lcm(a.Num(), b.Num()) && l.Den() == Gcd(a.Den(), b.Den())
    ensures IntegerMultiple(l.Value(), a.Value()) && IntegerMultiple(l.Value(), b.Value())
    ensures forall c, e :: Normal(c, e) && IntegerMultiple(Frac(c, e), a.Value())
                           && IntegerMultiple(Frac(c, e), b.Value())
                      ==> IntegerMultiple(Frac(c, e), l.Value())
  {
    LeastCommonRational(a.Num(), a.Den(), b.Num(), b.Den());
    var n := a.ints.Lcm(a.num, b.num, a.m);
    var d := a.ints.Gcd(a.den, b.den, a.m);
    l := new Rational.Raw(a.ints, a.m, n, d);
    var ok := l.Normalize();
    NormalFormUnique(l.Num(), l.Den(), Lcm(a.Num(), b.Num()), Gcd(a.Den(), b.Den()));
  }
}
