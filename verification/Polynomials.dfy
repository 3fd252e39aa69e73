// Polynomials over GF(2), as the sets of exponents whose coefficient is one, and what it means for a polynomial
// to be the remainder of a division. Nothing here knows about registers or tables.
module Polynomials {
  import opened Words

  type Poly = iset<nat>

  ghost function Add(a: Poly, b: Poly): Poly {
    iset e: nat | (e in a) != (e in b)
  }

  ghost predicate HasShifted(a: Poly, k: nat, e: nat) {
    e >= k && e - k in a
  }

  // a times x^k
  ghost function TimesXPow(a: Poly, k: nat): Poly {
    iset e: nat | HasShifted(a, k, e)
  }

  ghost function Scale(b: bool, a: Poly): Poly {
    if b then a else iset{}
  }

  // The polynomial whose coefficients, highest power first, are bits.
  ghost function OfBits(bits: seq<bool>): Poly {
    if bits == [] then iset{}
    else Add(TimesXPow(OfBits(bits[..|bits| - 1]), 1), Scale(bits[|bits| - 1], iset{0}))
  }

  // The product of g and the polynomial whose coefficients, highest power first, are q.
  ghost function Product(q: seq<bool>, g: Poly): Poly {
    if q == [] then iset{}
    else Add(TimesXPow(Product(q[..|q| - 1], g), 1), Scale(q[|q| - 1], g))
  }

  ghost predicate Below(a: Poly, degree: nat) {
    forall e :: e in a ==> e < degree
  }

  ghost predicate HasDegree(a: Poly, degree: nat) {
    degree in a && Below(a, degree + 1)
  }

  ghost predicate Divides(q: seq<bool>, p: Poly, g: Poly, r: Poly) {
    p == Add(Product(q, g), r)
  }

  // r is p mod g: p is a multiple of g plus r, and r has a lower degree than g.
  ghost predicate IsRemainder(p: Poly, g: Poly, degree: nat, r: Poly) {
    && HasDegree(g, degree)
    && Below(r, degree)
    && exists q :: Divides(q, p, g, r)
  }

  lemma AddLaws(a: Poly, b: Poly, c: Poly)
    ensures Add(a, b) == Add(b, a)
    ensures Add(Add(a, b), c) == Add(a, Add(b, c))
    ensures Add(a, a) == iset{} && Add(a, iset{}) == a
  {
  }

  lemma TimesXPowLaws(a: Poly, b: Poly, j: nat, k: nat)
    ensures TimesXPow(Add(a, b), k) == Add(TimesXPow(a, k), TimesXPow(b, k))
    ensures TimesXPow(TimesXPow(a, j), k) == TimesXPow(a, j + k)
    ensures TimesXPow(a, 0) == a
  {
  }

  // Multiplication distributes over addition of the multiplier.
  lemma {:induction false} ProductXor(q1: seq<bool>, q2: seq<bool>, g: Poly)
    requires |q1| == |q2|
    ensures Product(Xor(q1, q2), g) == Add(Product(q1, g), Product(q2, g))
  {
    if q1 != [] {
      var n := |q1| - 1;
      ProductXor(q1[..n], q2[..n], g);
      assert Xor(q1, q2)[..n] == Xor(q1[..n], q2[..n]);
      TimesXPowLaws(Product(q1[..n], g), Product(q2[..n], g), 0, 1);
    }
  }

  lemma {:induction false} ProductPadded(q: seq<bool>, k: nat, g: Poly)
    ensures Product(seq(k, _ => false) + q, g) == Product(q, g)
  {
    var z := seq(k, _ => false);
    if q != [] {
      ProductPadded(q[..|q| - 1], k, g);
      assert (z + q)[..k + |q| - 1] == z + q[..|q| - 1];
    } else {
      assert z + q == z;
      if k > 0 {
        ProductPadded([], k - 1, g);
        assert z[..k - 1] == seq(k - 1, _ => false) + [];
      }
    }
  }

  // A product of g is zero or has at least g's degree.
  lemma {:induction false} ProductDegree(q: seq<bool>, g: Poly, degree: nat)
    requires HasDegree(g, degree)
    ensures Product(q, g) == iset{} || exists d :: d >= degree && HasDegree(Product(q, g), d)
  {
    if q != [] {
      var p := Product(q[..|q| - 1], g);
      ProductDegree(q[..|q| - 1], g, degree);
      if p == iset{} {
        assert TimesXPow(p, 1) == iset{};
        assert Product(q, g) == Scale(q[|q| - 1], g);
      } else {
        var d :| d >= degree && HasDegree(p, d);
        assert d + 1 - 1 in p;
        assert HasDegree(Product(q, g), d + 1);
      }
    }
  }

  lemma SamePadding(q: seq<bool>, n: nat, g: Poly) returns (q': seq<bool>)
    requires n >= |q|
    ensures |q'| == n && Product(q', g) == Product(q, g)
  {
    q' := seq(n - |q|, _ => false) + q;
    ProductPadded(q, n - |q|, g);
  }

  // Division has at most one remainder.
  lemma RemainderUnique(p: Poly, g: Poly, degree: nat, r1: Poly, r2: Poly)
    requires IsRemainder(p, g, degree, r1) && IsRemainder(p, g, degree, r2)
    ensures r1 == r2
  {
    var q1 :| Divides(q1, p, g, r1);
    var q2 :| Divides(q2, p, g, r2);
    var n := if |q1| > |q2| then |q1| else |q2|;
    var a := SamePadding(q1, n, g);
    var b := SamePadding(q2, n, g);
    ProductXor(a, b, g);
    var d := Product(Xor(a, b), g);
    assert d == Add(r1, r2) by {
      forall e: nat ensures e in d <==> e in Add(r1, r2) {
        assert e in p <==> (e in Product(q1, g)) != (e in r1);
        assert e in p <==> (e in Product(q2, g)) != (e in r2);
      }
    }
    ProductDegree(Xor(a, b), g, degree);
    assert Below(d, degree);
    assert d == iset{};
    forall e: nat ensures e in r1 <==> e in r2 {
      assert e !in Add(r1, r2);
    }
  }

  lemma {:induction false} OfBitsXor(a: seq<bool>, b: seq<bool>)
    requires |a| == |b|
    ensures OfBits(Xor(a, b)) == Add(OfBits(a), OfBits(b))
  {
    if a != [] {
      var n := |a| - 1;
      OfBitsXor(a[..n], b[..n]);
      assert Xor(a, b)[..n] == Xor(a[..n], b[..n]);
      TimesXPowLaws(OfBits(a[..n]), OfBits(b[..n]), 0, 1);
    }
  }

  lemma {:induction false} OfBitsConcat(a: seq<bool>, b: seq<bool>)
    ensures OfBits(a + b) == Add(TimesXPow(OfBits(a), |b|), OfBits(b))
  {
    if b == [] {
      assert a + b == a;
    } else {
      var n := |b| - 1;
      OfBitsConcat(a, b[..n]);
      assert (a + b)[..|a + b| - 1] == a + b[..n];
      TimesXPowLaws(TimesXPow(OfBits(a), n), OfBits(b[..n]), n, 1);
      TimesXPowLaws(OfBits(a), iset{}, n, 1);
      AddLaws(TimesXPow(OfBits(a), |b|), TimesXPow(OfBits(b[..n]), 1), Scale(b[n], iset{0}));
    }
  }

  lemma {:induction false} OfBitsMembers(bits: seq<bool>, e: nat)
    ensures e in OfBits(bits) <==> e < |bits| && bits[|bits| - 1 - e]
  {
    if bits != [] && e > 0 {
      OfBitsMembers(bits[..|bits| - 1], e - 1);
    }
  }
}
