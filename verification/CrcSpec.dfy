// The polynomial-division register of a CRC, one message bit at a time, and what it computes: the remainder
// over GF(2), for every width and every truncated polynomial.
module CrcSpec {
  import opened Words
  import opened Polynomials

  // The parameters of one CRC. All words have exactly `width` digits.
  datatype Params = Params(width: nat, poly: Word, init: Word, finalXor: Word,
                           reflectIn: bool, reflectRem: bool)
  {
    predicate Valid() {
      width >= 1 && |poly| == width && |init| == width && |finalXor| == width
    }
  }

  // One step of the division: the register r absorbs one message bit.
  function Step(poly: Word, r: Word, bit: bool): (r': Word)
    requires |poly| == |r| >= 1
    ensures |r'| == |r|
  {
    if r[|r| - 1] != bit then Xor(Shl(r, 1), poly) else Shl(r, 1)
  }

  function Steps(poly: Word, r: Word, bits: seq<bool>): (r': Word)
    requires |poly| == |r| >= 1
    ensures |r'| == |r|
  {
    if bits == [] then r
    else Step(poly, Steps(poly, r, bits[..|bits| - 1]), bits[|bits| - 1])
  }

  function MsbFirst(b: Word): (bits: seq<bool>)
    ensures |bits| == |b| && forall i :: 0 <= i < |b| ==> bits[i] == b[|b| - 1 - i]
  {
    seq(|b|, i requires 0 <= i < |b| => b[|b| - 1 - i])
  }

  // The order in which the bits of one byte reach the register.
  function ByteBits(reflectIn: bool, b: Byte): (bits: seq<bool>)
    ensures |bits| == 8
  {
    MsbFirst(if reflectIn then Reflected(b, 8) else b)
  }

  function MessageBits(reflectIn: bool, bytes: seq<Byte>): (bits: seq<bool>)
    ensures |bits| == 8 * |bytes|
  {
    if bytes == [] then []
    else MessageBits(reflectIn, bytes[..|bytes| - 1]) + ByteBits(reflectIn, bytes[|bytes| - 1])
  }

  // What checksum() returns when the register holds r.
  function Finish(p: Params, r: Word): (c: Word)
    requires p.Valid() && |r| == p.width
    ensures |c| == p.width
  {
    Xor(if p.reflectRem then Reflected(r, p.width) else r, p.finalXor)
  }

  // The checksum of a whole message.
  function Checksum(p: Params, bytes: seq<Byte>): (c: Word)
    requires p.Valid()
    ensures |c| == p.width
  {
    Finish(p, Steps(p.poly, p.init, MessageBits(p.reflectIn, bytes)))
  }

  lemma {:induction false} StepsConcat(poly: Word, r: Word, a: seq<bool>, b: seq<bool>)
    requires |poly| == |r| >= 1
    ensures Steps(poly, r, a + b) == Steps(poly, Steps(poly, r, a), b)
  {
    if b == [] {
      assert a + b == a;
    } else {
      StepsConcat(poly, r, a, b[..|b| - 1]);
      assert (a + b)[..|a + b| - 1] == a + b[..|b| - 1];
    }
  }

  lemma {:induction false} MessageBitsConcat(reflectIn: bool, a: seq<Byte>, b: seq<Byte>)
    ensures MessageBits(reflectIn, a + b) == MessageBits(reflectIn, a) + MessageBits(reflectIn, b)
  {
    if b == [] {
      assert a + b == a;
    } else {
      MessageBitsConcat(reflectIn, a, b[..|b| - 1]);
      assert (a + b)[..|a + b| - 1] == a + b[..|b| - 1];
    }
  }

  lemma StepsSnoc(poly: Word, r: Word, m: seq<bool>, b: bool)
    requires |poly| == |r| >= 1
    ensures Steps(poly, r, m + [b]) == Step(poly, Steps(poly, r, m), b)
  {
    assert (m + [b])[..|m|] == m;
  }

  lemma StepsPrefix(poly: Word, r: Word, m: seq<bool>, n: nat)
    requires |poly| == |r| >= 1 && n < |m|
    ensures Steps(poly, r, m[..n + 1]) == Step(poly, Steps(poly, r, m[..n]), m[n])
  {
    assert m[..n + 1] == m[..n] + [m[n]];
    StepsSnoc(poly, r, m[..n], m[n]);
  }

  lemma MessagePrefix(poly: Word, r: Word, reflectIn: bool, bytes: seq<Byte>, n: nat)
    requires |poly| == |r| >= 1 && n < |bytes|
    ensures Steps(poly, r, MessageBits(reflectIn, bytes[..n + 1]))
         == Steps(poly, Steps(poly, r, MessageBits(reflectIn, bytes[..n])), ByteBits(reflectIn, bytes[n]))
  {
    assert bytes[..n + 1][..n] == bytes[..n];
    StepsConcat(poly, r, MessageBits(reflectIn, bytes[..n]), ByteBits(reflectIn, bytes[n]));
  }

  // ----- The register update is linear -----

  lemma StepXor(poly: Word, r1: Word, r2: Word, b1: bool, b2: bool)
    requires |poly| == |r1| == |r2| >= 1
    ensures Step(poly, Xor(r1, r2), b1 != b2) == Xor(Step(poly, r1, b1), Step(poly, r2, b2))
  {
    var s := Step(poly, Xor(r1, r2), b1 != b2);
    var t := Xor(Step(poly, r1, b1), Step(poly, r2, b2));
    forall i | 0 <= i < |poly| ensures s[i] == t[i] {
    }
  }

  // Registers and equal-length messages superpose.
  lemma {:induction false} StepsXor(poly: Word, r1: Word, r2: Word, m1: seq<bool>, m2: seq<bool>)
    requires |poly| == |r1| == |r2| >= 1 && |m1| == |m2|
    ensures Steps(poly, Xor(r1, r2), Xor(m1, m2)) == Xor(Steps(poly, r1, m1), Steps(poly, r2, m2))
  {
    if m1 != [] {
      var n := |m1| - 1;
      StepsXor(poly, r1, r2, m1[..n], m2[..n]);
      assert Xor(m1, m2)[..n] == Xor(m1[..n], m2[..n]);
      StepXor(poly, Steps(poly, r1, m1[..n]), Steps(poly, r2, m2[..n]), m1[n], m2[n]);
    }
  }

  function XorBytes(a: seq<Byte>, b: seq<Byte>): (c: seq<Byte>)
    requires |a| == |b|
    ensures |c| == |a| && forall i :: 0 <= i < |a| ==> c[i] == Xor(a[i], b[i])
  {
    seq(|a|, i requires 0 <= i < |a| => Xor(a[i], b[i]))
  }

  lemma {:induction false} MessageBitsXor(reflectIn: bool, a: seq<Byte>, b: seq<Byte>)
    requires |a| == |b|
    ensures MessageBits(reflectIn, XorBytes(a, b))
         == Xor(MessageBits(reflectIn, a), MessageBits(reflectIn, b))
  {
    if a != [] {
      var n := |a| - 1;
      MessageBitsXor(reflectIn, a[..n], b[..n]);
      assert XorBytes(a, b)[..n] == XorBytes(a[..n], b[..n]);
      ByteBitsXor(reflectIn, a[n], b[n]);
    }
  }

  lemma ByteBitsXor(reflectIn: bool, a: Byte, b: Byte)
    ensures ByteBits(reflectIn, Xor(a, b)) == Xor(ByteBits(reflectIn, a), ByteBits(reflectIn, b))
  {
  }

  lemma FinishAffine(p: Params, r: Word, s: Word, t: Word)
    requires p.Valid() && |r| == |s| == |t| == p.width
    ensures Finish(p, Xor(Xor(r, s), t)) == Xor(Xor(Finish(p, r), Finish(p, s)), Finish(p, t))
  {
  }

  lemma StepsAffine(poly: Word, r: Word, a: seq<bool>, b: seq<bool>, c: seq<bool>)
    requires |poly| == |r| >= 1 && |a| == |b| == |c|
    ensures Steps(poly, r, Xor(Xor(a, b), c))
         == Xor(Xor(Steps(poly, r, a), Steps(poly, r, b)), Steps(poly, r, c))
  {
    StepsXor(poly, r, r, a, b);
    StepsXor(poly, Xor(r, r), r, Xor(a, b), c);
    assert Xor(Xor(r, r), r) == r;
  }

  // The checksum is affine in equal-length messages.
  lemma ChecksumAffine(p: Params, a: seq<Byte>, b: seq<Byte>, c: seq<Byte>)
    requires p.Valid() && |a| == |b| == |c|
    ensures Checksum(p, XorBytes(XorBytes(a, b), c))
         == Xor(Xor(Checksum(p, a), Checksum(p, b)), Checksum(p, c))
  {
    var (ma, mb, mc) := (MessageBits(p.reflectIn, a), MessageBits(p.reflectIn, b), MessageBits(p.reflectIn, c));
    MessageBitsXor(p.reflectIn, a, b);
    MessageBitsXor(p.reflectIn, XorBytes(a, b), c);
    StepsAffine(p.poly, p.init, ma, mb, mc);
    FinishAffine(p, Steps(p.poly, p.init, ma), Steps(p.poly, p.init, mb), Steps(p.poly, p.init, mc));
  }

  // ----- Eight steps at once -----

  // The n topmost bits of r, highest first, padded with zeros below the register.
  function TopBits(r: Word, n: nat): (bits: seq<bool>)
    ensures |bits| == n && forall i :: 0 <= i < n ==> bits[i] == (i < |r| && r[|r| - 1 - i])
  {
    seq(n, i requires 0 <= i < n => i < |r| && r[|r| - 1 - i])
  }

  lemma ShlTwice(r: Word, n: nat)
    ensures Shl(Shl(r, n), 1) == Shl(r, n + 1)
    ensures Shl(r, 0) == r
  {
  }

  // A message bit equal to the register's top bit never triggers the division.
  lemma StepOfTop(poly: Word, r: Word, b: bool)
    requires |poly| == |r| >= 1 && b == r[|r| - 1]
    ensures Step(poly, r, b) == Shl(r, 1)
  {
  }

  lemma TopBitsSnoc(r: Word, n: nat)
    requires |r| >= 1
    ensures TopBits(r, n + 1) == TopBits(r, n) + [Shl(r, n)[|r| - 1]]
  {
  }

  lemma ShiftOutStep(poly: Word, r: Word, n: nat)
    requires |poly| == |r| >= 1
    requires Steps(poly, r, TopBits(r, n)) == Shl(r, n)
    ensures Steps(poly, r, TopBits(r, n + 1)) == Shl(r, n + 1)
  {
    var s := Shl(r, n);
    TopBitsSnoc(r, n);
    StepsSnoc(poly, r, TopBits(r, n), s[|r| - 1]);
    StepOfTop(poly, s, s[|r| - 1]);
    ShlTwice(r, n);
  }

  // So a message equal to the register's own top bits shifts them out.
  lemma {:induction false} ShiftOut(poly: Word, r: Word, n: nat)
    requires |poly| == |r| >= 1
    ensures Steps(poly, r, TopBits(r, n)) == Shl(r, n)
  {
    if n == 0 {
      ShlTwice(r, 0);
    } else {
      ShiftOut(poly, r, n - 1);
      ShiftOutStep(poly, r, n - 1);
    }
  }

  lemma XorCancels(a: seq<bool>, b: seq<bool>)
    requires |a| == |b|
    ensures Xor(a, Xor(b, a)) == b
  {
  }

  lemma XorZero(a: Word)
    ensures Xor(a, Zero(|a|)) == a && Xor(Zero(|a|), a) == a
  {
  }

  // Any number of bits can be absorbed at once: shift them out and add the division of the bits shifted out
  // combined with the message, started from zero. For eight bits this is the table-driven step.
  lemma StepsAtOnce(poly: Word, r: Word, bits: seq<bool>)
    requires |poly| == |r| >= 1
    ensures Steps(poly, r, bits)
         == Xor(Shl(r, |bits|), Steps(poly, Zero(|r|), Xor(bits, TopBits(r, |bits|))))
  {
    var top := TopBits(r, |bits|);
    StepsXor(poly, r, Zero(|r|), top, Xor(bits, top));
    ShiftOut(poly, r, |bits|);
    XorCancels(top, bits);
    XorZero(r);
  }

  // ----- The register is the remainder -----

  ghost function ToPoly(r: Word): Poly {
    iset i: nat | i < |r| && r[i]
  }

  // x^W plus the truncated polynomial
  ghost function Generator(poly: Word): Poly {
    Add(iset{|poly|}, ToPoly(poly))
  }

  // init * x^n + message * x^W, for a message of n bits
  ghost function Dividend(init: Word, m: seq<bool>): Poly {
    Add(TimesXPow(ToPoly(init), |m|), TimesXPow(OfBits(m), |init|))
  }

  lemma ToPolyXor(a: Word, b: Word)
    requires |a| == |b|
    ensures ToPoly(Xor(a, b)) == Add(ToPoly(a), ToPoly(b))
  {
  }

  lemma ToPolyInjective(a: Word, b: Word)
    requires |a| == |b| && ToPoly(a) == ToPoly(b)
    ensures a == b
  {
    forall i | 0 <= i < |a| ensures a[i] == b[i] {
      assert i in ToPoly(a) <==> i in ToPoly(b);
    }
  }

  lemma GeneratorDegree(poly: Word)
    ensures HasDegree(Generator(poly), |poly|)
  {
  }

  // x times the register, plus the message bit at x^W, minus g when that reaches x^W.
  lemma StepPoly(poly: Word, r: Word, b: bool)
    requires |poly| == |r| >= 1
    ensures Add(TimesXPow(ToPoly(r), 1), Scale(b, iset{|r|}))
         == Add(Scale(r[|r| - 1] != b, Generator(poly)), ToPoly(Step(poly, r, b)))
  {
    var w := |r|;
    var left := Add(TimesXPow(ToPoly(r), 1), Scale(b, iset{w}));
    var right := Add(Scale(r[w - 1] != b, Generator(poly)), ToPoly(Step(poly, r, b)));
    forall e: nat ensures e in left <==> e in right {
      assert HasShifted(ToPoly(r), 1, e) <==> 1 <= e <= w && r[e - 1];
    }
  }

  lemma DividendStep(init: Word, m: seq<bool>, b: bool)
    ensures Dividend(init, m + [b]) == Add(TimesXPow(Dividend(init, m), 1), Scale(b, iset{|init|}))
  {
    var w := |init|;
    assert (m + [b])[..|m|] == m;
    TimesXPowLaws(TimesXPow(ToPoly(init), |m|), TimesXPow(OfBits(m), w), 0, 1);
    TimesXPowLaws(ToPoly(init), iset{}, |m|, 1);
    TimesXPowLaws(OfBits(m), iset{}, w, 1);
    TimesXPowLaws(OfBits(m), iset{}, 1, w);
    TimesXPowLaws(TimesXPow(OfBits(m), 1), Scale(b, iset{0}), 0, w);
    assert TimesXPow(Scale(b, iset{0}), w) == Scale(b, iset{w});
  }

  // The quotient is the sequence of division decisions.
  lemma {:induction false} StepsDivide(poly: Word, init: Word, m: seq<bool>) returns (q: seq<bool>)
    requires |poly| == |init| >= 1
    ensures Divides(q, Dividend(init, m), Generator(poly), ToPoly(Steps(poly, init, m)))
  {
    if m == [] {
      q := [];
      TimesXPowLaws(ToPoly(init), iset{}, 0, 0);
      assert TimesXPow(OfBits(m), |init|) == iset{};
    } else {
      var n := |m| - 1;
      var b := m[n];
      var r := Steps(poly, init, m[..n]);
      var g := Generator(poly);
      var q0 := StepsDivide(poly, init, m[..n]);
      var c := r[|r| - 1] != b;
      q := q0 + [c];
      assert q[..|q0|] == q0;
      assert m[..n] + [b] == m;
      DividendStep(init, m[..n], b);
      StepPoly(poly, r, b);
      TimesXPowLaws(Product(q0, g), ToPoly(r), 0, 1);
      var x := TimesXPow(Product(q0, g), 1);
      AddLaws(x, TimesXPow(ToPoly(r), 1), Scale(b, iset{|r|}));
      AddLaws(x, Scale(c, g), ToPoly(Steps(poly, init, m)));
    }
  }

  // After any bit string the register is (init * x^n + message * x^W) mod (x^W + poly).
  lemma RegisterIsRemainder(poly: Word, init: Word, m: seq<bool>)
    requires |poly| == |init| >= 1
    ensures IsRemainder(Dividend(init, m), Generator(poly), |poly|, ToPoly(Steps(poly, init, m)))
  {
    GeneratorDegree(poly);
    var q := StepsDivide(poly, init, m);
  }

  // And nothing else is: the remainder determines the register.
  lemma RemainderIsRegister(poly: Word, init: Word, m: seq<bool>, r: Word)
    requires |poly| == |init| == |r| >= 1
    ensures IsRemainder(Dividend(init, m), Generator(poly), |poly|, ToPoly(r))
       <==> r == Steps(poly, init, m)
  {
    RegisterIsRemainder(poly, init, m);
    if IsRemainder(Dividend(init, m), Generator(poly), |poly|, ToPoly(r)) {
      RemainderUnique(Dividend(init, m), Generator(poly), |poly|, ToPoly(r), ToPoly(Steps(poly, init, m)));
      ToPolyInjective(r, Steps(poly, init, m));
    }
  }

  // ----- A checksum, bit by bit -----

  // The j-th bit that is absorbed of a byte.
  lemma ByteBitsAt(reflectIn: bool, b: Byte, j: nat)
    requires j < 8
    ensures ByteBits(reflectIn, b)[j] == if reflectIn then b[j] else b[7 - j]
  {
  }

  // The bytes in their order, and the bits of each as the reflection says.
  lemma {:induction false} MessageBitAt(reflectIn: bool, bytes: seq<Byte>, k: nat, j: nat)
    requires k < |bytes| && j < 8
    ensures MessageBits(reflectIn, bytes)[8 * k + j] == if reflectIn then bytes[k][j] else bytes[k][7 - j]
  {
    var n := |bytes| - 1;
    if k < n {
      MessageBitAt(reflectIn, bytes[..n], k, j);
      assert 8 * k + j < 8 * n;
    } else {
      ByteBitsAt(reflectIn, bytes[n], j);
    }
  }

  lemma FinishAt(p: Params, r: Word, i: nat)
    requires p.Valid() && |r| == p.width && i < p.width
    ensures Finish(p, r)[i] == ((if p.reflectRem then r[p.width - 1 - i] else r[i]) != p.finalXor[i])
  {
  }

  // m is the message a bit at a time, in the order of its bytes.
  ghost predicate IsMessage(reflectIn: bool, bytes: seq<Byte>, m: seq<bool>) {
    && |m| == 8 * |bytes|
    && forall i :: 0 <= i < |m| ==> m[i] == if reflectIn then bytes[i / 8][i % 8] else bytes[i / 8][7 - i % 8]
  }

  lemma MessageIsUnique(reflectIn: bool, bytes: seq<Byte>, m: seq<bool>)
    ensures IsMessage(reflectIn, bytes, m) <==> m == MessageBits(reflectIn, bytes)
  {
    var u := MessageBits(reflectIn, bytes);
    forall i | 0 <= i < |u|
      ensures u[i] == if reflectIn then bytes[i / 8][i % 8] else bytes[i / 8][7 - i % 8]
    {
      MessageBitAt(reflectIn, bytes, i / 8, i % 8);
    }
  }

  // What a checksum is, from the bytes to its bits: the remainder of the division of the message's bits behind
  // the initial remainder, mirrored if asked for, xor the final value.
  lemma ChecksumByBits(p: Params, bytes: seq<Byte>, m: seq<bool>, r: Word, i: nat)
    requires p.Valid() && IsMessage(p.reflectIn, bytes, m) && |r| == p.width && i < p.width
    requires IsRemainder(Dividend(p.init, m), Generator(p.poly), p.width, ToPoly(r))
    ensures Checksum(p, bytes)[i] == ((if p.reflectRem then r[p.width - 1 - i] else r[i]) != p.finalXor[i])
  {
    MessageIsUnique(p.reflectIn, bytes, m);
    RemainderIsRegister(p.poly, p.init, m, r);
    FinishAt(p, r, i);
  }

  function Mirrored(bytes: seq<Byte>): (r: seq<Byte>)
    ensures |r| == |bytes|
    ensures forall k :: 0 <= k < |bytes| ==> r[k] == Reflected(bytes[k], 8)
  {
    seq(|bytes|, k requires 0 <= k < |bytes| => Reflected(bytes[k], 8))
  }

  // Reflecting the input is the same as mirroring every byte of it beforehand.
  lemma ReflectedInput(p: Params, bytes: seq<Byte>)
    requires p.Valid()
    ensures Checksum(p.(reflectIn := true), bytes) == Checksum(p.(reflectIn := false), Mirrored(bytes))
  {
    var m := MessageBits(true, bytes);
    MessageIsUnique(true, bytes, m);
    MessageIsUnique(false, Mirrored(bytes), m);
  }

  // Reflecting the remainder mirrors the checksum underneath the final value.
  lemma ReflectedOutput(p: Params, bytes: seq<Byte>, i: nat)
    requires p.Valid() && i < p.width
    ensures var plain := Checksum(p.(reflectRem := false), bytes);
            var mirrored := Checksum(p.(reflectRem := true), bytes);
            (mirrored[i] != p.finalXor[i]) == (plain[p.width - 1 - i] != p.finalXor[p.width - 1 - i])
  {
    var r := Steps(p.poly, p.init, MessageBits(p.reflectIn, bytes));
    MirroredFinish(p, r, i);
  }

  lemma MirroredFinish(p: Params, r: Word, i: nat)
    requires p.Valid() && |r| == p.width && i < p.width
    ensures var (plain, mirrored) := (Finish(p.(reflectRem := false), r), Finish(p.(reflectRem := true), r));
            (mirrored[i] != p.finalXor[i]) == (plain[p.width - 1 - i] != p.finalXor[p.width - 1 - i])
  {
    FinishAt(p.(reflectRem := true), r, i);
    FinishAt(p.(reflectRem := false), r, p.width - 1 - i);
  }

  // ----- Which errors a checksum misses -----

  lemma FinishInjective(p: Params, r: Word, s: Word)
    requires p.Valid() && |r| == |s| == p.width
    ensures Finish(p, r) == Finish(p, s) <==> r == s
  {
    if Finish(p, r) == Finish(p, s) {
      forall i | 0 <= i < p.width ensures r[i] == s[i] {
        var j := if p.reflectRem then p.width - 1 - i else i;
        assert Finish(p, r)[j] == Finish(p, s)[j];
      }
    }
  }

  lemma XorSelf(r: Word, s: Word)
    requires |r| == |s|
    ensures r == s <==> Xor(r, s) == Zero(|r|)
  {
    if Xor(r, s) == Zero(|r|) {
      forall i | 0 <= i < |r| ensures r[i] == s[i] {
        assert !Xor(r, s)[i];
      }
    }
  }

  lemma SameRegister(poly: Word, r: Word, m1: seq<bool>, m2: seq<bool>)
    requires |poly| == |r| >= 1 && |m1| == |m2|
    ensures Steps(poly, r, m1) == Steps(poly, r, m2)
       <==> Steps(poly, Zero(|r|), Xor(m1, m2)) == Zero(|r|)
  {
    StepsXor(poly, r, r, m1, m2);
    XorSelf(r, r);
    XorSelf(Steps(poly, r, m1), Steps(poly, r, m2));
  }

  lemma ZeroDividend(w: nat, m: seq<bool>)
    ensures Dividend(Zero(w), m) == TimesXPow(OfBits(m), w)
    ensures ToPoly(Zero(w)) == iset{}
  {
    assert ToPoly(Zero(w)) == iset{};
    assert TimesXPow(iset{}, |m|) == iset{};
    AddLaws(TimesXPow(OfBits(m), w), iset{}, iset{});
  }

  // Two equal-length messages collide exactly when the generator divides their difference times x^W, whatever
  // the initial remainder, the final value and the reflections of the remainder.
  lemma CollisionIffDivisible(p: Params, a: seq<Byte>, b: seq<Byte>)
    requires p.Valid() && |a| == |b|
    ensures Checksum(p, a) == Checksum(p, b)
       <==> IsRemainder(TimesXPow(OfBits(MessageBits(p.reflectIn, XorBytes(a, b))), p.width),
                        Generator(p.poly), p.width, iset{})
  {
    var (ma, mb) := (MessageBits(p.reflectIn, a), MessageBits(p.reflectIn, b));
    MessageBitsXor(p.reflectIn, a, b);
    FinishInjective(p, Steps(p.poly, p.init, ma), Steps(p.poly, p.init, mb));
    SameRegister(p.poly, p.init, ma, mb);
    RemainderIsRegister(p.poly, Zero(p.width), Xor(ma, mb), Zero(p.width));
    ZeroDividend(p.width, Xor(ma, mb));
  }

  // With an odd generator a step that ends in zero tells where it started: the register held nothing but the
  // incoming bit, at the top.
  lemma StepToZero(poly: Word, r: Word, b: bool)
    requires |poly| == |r| >= 1 && poly[0]
    requires Step(poly, r, b) == Zero(|r|)
    ensures r == (if b then OneHot(|r|, |r| - 1) else Zero(|r|))
  {
    assert !Step(poly, r, b)[0];
    forall i | 0 <= i < |r| - 1 ensures !r[i] {
      assert !Step(poly, r, b)[i + 1];
    }
  }

  // The word holding the bits of m from index j on at the top, highest first, and zeros below.
  function AtTop(m: seq<bool>, j: nat, w: nat): (r: Word)
    ensures |r| == w
    ensures forall i :: 0 <= i < w ==> r[i] == (j + w - 1 - i < |m| && m[j + w - 1 - i])
  {
    seq(w, i requires 0 <= i < w => j + w - 1 - i < |m| && m[j + w - 1 - i])
  }

  lemma StepToTop(poly: Word, r: Word, m: seq<bool>, j: nat)
    requires |poly| == |r| >= 1 && poly[0] && j < |m| && |m| - j <= |r|
    requires Step(poly, r, m[j]) == AtTop(m, j + 1, |r|)
    ensures r == AtTop(m, j, |r|)
  {
    assert !Step(poly, r, m[j])[0];
    forall i | 0 <= i < |r| - 1 ensures r[i] == AtTop(m, j, |r|)[i] {
      assert Step(poly, r, m[j])[i + 1] == AtTop(m, j + 1, |r|)[i + 1];
    }
  }

  // A run of at most W bits that ends in zero holds, at every point, the bits still to come.
  lemma {:induction false} ShortRunToZero(poly: Word, r: Word, m: seq<bool>, j: nat)
    requires |poly| == |r| >= 1 && j <= |m| <= |r| && poly[0]
    requires Steps(poly, r, m) == Zero(|r|)
    ensures Steps(poly, r, m[..j]) == AtTop(m, j, |r|)
    decreases |m| - j
  {
    if j == |m| {
      assert m[..j] == m;
    } else {
      var x := Steps(poly, r, m[..j]);
      ShortRunToZero(poly, r, m, j + 1);
      StepsPrefix(poly, r, m, j);
      StepToTop(poly, x, m, j);
    }
  }

  lemma {:induction false} ZeroRunFromZero(poly: Word, k: nat)
    requires |poly| >= 1
    ensures Steps(poly, Zero(|poly|), Zero(k)) == Zero(|poly|)
  {
    if k > 0 {
      ZeroRunFromZero(poly, k - 1);
      assert Zero(k)[..k - 1] == Zero(k - 1);
    }
  }

  lemma {:induction false} ZeroRunToZero(poly: Word, r: Word, k: nat)
    requires |poly| == |r| >= 1 && poly[0]
    requires Steps(poly, r, Zero(k)) == Zero(|r|)
    ensures r == Zero(|r|)
  {
    if k > 0 {
      assert Zero(k)[..k - 1] == Zero(k - 1);
      StepToZero(poly, Steps(poly, r, Zero(k - 1)), false);
      ZeroRunToZero(poly, r, k - 1);
    }
  }

  // No nonzero pattern of at most W bits, surrounded by zeros, divides to zero.
  lemma BurstRemains(poly: Word, before: nat, burst: seq<bool>, after: nat)
    requires |poly| >= 1 && poly[0] && |burst| <= |poly|
    requires burst != Zero(|burst|)
    ensures Steps(poly, Zero(|poly|), Zero(before) + burst + Zero(after)) != Zero(|poly|)
  {
    var z := Zero(|poly|);
    if Steps(poly, z, Zero(before) + burst + Zero(after)) == z {
      StepsConcat(poly, z, Zero(before) + burst, Zero(after));
      StepsConcat(poly, z, Zero(before), burst);
      ZeroRunFromZero(poly, before);
      ZeroRunToZero(poly, Steps(poly, z, burst), after);
      ShortRunToZero(poly, z, burst, 0);
      forall i | 0 <= i < |burst| ensures !burst[i] {
        assert !AtTop(burst, 0, |poly|)[|poly| - 1 - i];
      }
    }
  }

  lemma {:induction false} MessageBitsInjective(reflectIn: bool, a: seq<Byte>, b: seq<Byte>)
    requires |a| == |b| && MessageBits(reflectIn, a) == MessageBits(reflectIn, b)
    ensures a == b
  {
    if a != [] {
      var n := |a| - 1;
      var (x, y) := (MessageBits(reflectIn, a), MessageBits(reflectIn, b));
      assert x[..8 * n] == MessageBits(reflectIn, a[..n]) && y[..8 * n] == MessageBits(reflectIn, b[..n]);
      MessageBitsInjective(reflectIn, a[..n], b[..n]);
      assert x[8 * n..] == ByteBits(reflectIn, a[n]) && y[8 * n..] == ByteBits(reflectIn, b[n]);
      ByteBitsInjective(reflectIn, a[n], b[n]);
    }
  }

  lemma ByteBitsInjective(reflectIn: bool, a: Byte, b: Byte)
    requires ByteBits(reflectIn, a) == ByteBits(reflectIn, b)
    ensures a == b
  {
    forall i | 0 <= i < 8 ensures a[i] == b[i] {
      var j := if reflectIn then i else 7 - i;
      assert ByteBits(reflectIn, a)[j] == ByteBits(reflectIn, b)[j];
    }
  }

  // When the constant coefficient of the polynomial is one, two different messages of equal length whose bits
  // differ only within some W consecutive positions never share a checksum.
  lemma BurstDetected(p: Params, a: seq<Byte>, b: seq<Byte>, from: nat)
    requires p.Valid() && p.poly[0] && |a| == |b| && a != b
    requires forall i :: 0 <= i < 8 * |a| && MessageBits(p.reflectIn, a)[i] != MessageBits(p.reflectIn, b)[i]
                     ==> from <= i < from + p.width
    ensures Checksum(p, a) != Checksum(p, b)
  {
    var (ma, mb) := (MessageBits(p.reflectIn, a), MessageBits(p.reflectIn, b));
    if ma == mb {
      MessageBitsInjective(p.reflectIn, a, b);
    }
    LocalDifference(p.poly, ma, mb, from);
    FinishInjective(p, Steps(p.poly, p.init, ma), Steps(p.poly, p.init, mb));
    SameRegister(p.poly, p.init, ma, mb);
  }

  lemma ZerosAround(e: seq<bool>, lo: nat, hi: nat)
    requires lo <= hi <= |e|
    requires forall i :: 0 <= i < |e| && e[i] ==> lo <= i < hi
    ensures e == Zero(lo) + e[lo..hi] + Zero(|e| - hi)
  {
    assert e[..lo] == Zero(lo);
    assert e[hi..] == Zero(|e| - hi);
    assert e == e[..lo] + e[lo..hi] + e[hi..];
  }

  lemma LocalDifference(poly: Word, a: seq<bool>, b: seq<bool>, from: nat)
    requires |poly| >= 1 && poly[0] && |a| == |b| && a != b
    requires forall i :: 0 <= i < |a| && a[i] != b[i] ==> from <= i < from + |poly|
    ensures Steps(poly, Zero(|poly|), Xor(a, b)) != Zero(|poly|)
  {
    var e := Xor(a, b);
    var k :| 0 <= k < |a| && a[k] != b[k];
    LocalBurst(poly, e, from, if from + |poly| <= |e| then from + |poly| else |e|, k);
  }

  lemma NotZero(w: Word, k: nat)
    requires k < |w| && w[k]
    ensures w != Zero(|w|)
  {
    assert !Zero(|w|)[k];
  }

  lemma LocalBurst(poly: Word, e: seq<bool>, from: nat, hi: nat, k: nat)
    requires |poly| >= 1 && poly[0] && from <= k < hi <= |e| && hi - from <= |poly| && e[k]
    requires forall i :: 0 <= i < |e| && e[i] ==> from <= i < hi
    ensures Steps(poly, Zero(|poly|), e) != Zero(|poly|)
  {
    var burst := e[from..hi];
    NotZero(burst, k - from);
    ZerosAround(e, from, hi);
    BurstRemains(poly, from, burst, |e| - hi);
  }
}
