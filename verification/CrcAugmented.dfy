// augmented_crc: the message carries its own room for the checksum, so bits are shifted in at the bottom of the
// register instead of being combined with its top.
module CrcAugmented {
  import opened Words
  import opened Polynomials
  import opened CrcSpec
  import opened CrcEngines

  // Shift one message bit in, and subtract the generator when a one is shifted out.
  function AugStep(poly: Word, r: Word, bit: bool): (r': Word)
    requires |poly| == |r| >= 1
    ensures |r'| == |r|
  {
    var s := Or(Shl(r, 1), if bit then OneHot(|r|, 0) else Zero(|r|));
    if r[|r| - 1] then Xor(s, poly) else s
  }

  function AugSteps(poly: Word, r: Word, bits: seq<bool>): (r': Word)
    requires |poly| == |r| >= 1
    ensures |r'| == |r|
  {
    if bits == [] then r
    else AugStep(poly, AugSteps(poly, r, bits[..|bits| - 1]), bits[|bits| - 1])
  }

  lemma AugStepsSnoc(poly: Word, r: Word, m: seq<bool>, b: bool)
    requires |poly| == |r| >= 1
    ensures AugSteps(poly, r, m + [b]) == AugStep(poly, AugSteps(poly, r, m), b)
  {
    assert (m + [b])[..|m|] == m;
  }

  lemma {:induction false} AugStepsConcat(poly: Word, r: Word, a: seq<bool>, b: seq<bool>)
    requires |poly| == |r| >= 1
    ensures AugSteps(poly, r, a + b) == AugSteps(poly, AugSteps(poly, r, a), b)
  {
    if b == [] {
      assert a + b == a;
    } else {
      AugStepsConcat(poly, r, a, b[..|b| - 1]);
      assert (a + b)[..|a + b| - 1] == a + b[..|b| - 1];
    }
  }

  lemma AugStepXor(poly: Word, r1: Word, r2: Word, b1: bool, b2: bool)
    requires |poly| == |r1| == |r2| >= 1
    ensures AugStep(poly, Xor(r1, r2), b1 != b2) == Xor(AugStep(poly, r1, b1), AugStep(poly, r2, b2))
  {
    var s := AugStep(poly, Xor(r1, r2), b1 != b2);
    var t := Xor(AugStep(poly, r1, b1), AugStep(poly, r2, b2));
    forall i | 0 <= i < |poly| ensures s[i] == t[i] {
      assert i > 0 ==> Xor(r1, r2)[i - 1] == (r1[i - 1] != r2[i - 1]);
    }
  }

  lemma {:induction false} AugStepsXor(poly: Word, r1: Word, r2: Word, m1: seq<bool>, m2: seq<bool>)
    requires |poly| == |r1| == |r2| >= 1 && |m1| == |m2|
    ensures AugSteps(poly, Xor(r1, r2), Xor(m1, m2)) == Xor(AugSteps(poly, r1, m1), AugSteps(poly, r2, m2))
  {
    if m1 != [] {
      var n := |m1| - 1;
      AugStepsXor(poly, r1, r2, m1[..n], m2[..n]);
      assert Xor(m1, m2)[..n] == Xor(m1[..n], m2[..n]);
      AugStepXor(poly, AugSteps(poly, r1, m1[..n]), AugSteps(poly, r2, m2[..n]), m1[n], m2[n]);
    }
  }

  lemma AugStepOfZero(poly: Word, r: Word)
    requires |poly| == |r| >= 1
    ensures AugStep(poly, r, false) == Step(poly, r, false)
  {
    assert Or(Shl(r, 1), Zero(|r|)) == Shl(r, 1);
  }

  // On zeros the two registers run alike.
  lemma {:induction false} AugStepsOfZeros(poly: Word, r: Word, n: nat)
    requires |poly| == |r| >= 1
    ensures AugSteps(poly, r, Zero(n)) == Steps(poly, r, Zero(n))
  {
    if n > 0 {
      AugStepsOfZeros(poly, r, n - 1);
      assert Zero(n)[..n - 1] == Zero(n - 1);
      AugStepOfZero(poly, Steps(poly, r, Zero(n - 1)));
    }
  }

  // The last w bits of a message as a word: its lowest bit is the message's last. Reading the bits from the end
  // is the mirroring that TopBits does to a register.
  function LowWord(bits: seq<bool>, w: nat): (r: Word)
    ensures |r| == w && forall i :: 0 <= i < w ==> r[i] == (i < |bits| && bits[|bits| - 1 - i])
  {
    TopBits(bits, w)
  }

  lemma LowWordSnoc(bits: seq<bool>, b: bool, w: nat)
    requires |bits| < w
    ensures LowWord(bits + [b], w) == Or(Shl(LowWord(bits, w), 1), if b then OneHot(w, 0) else Zero(w))
    ensures !LowWord(bits, w)[w - 1]
  {
    var (s, t) := (LowWord(bits, w), LowWord(bits + [b], w));
    forall i | 0 <= i < w ensures t[i] == (if i == 0 then b else s[i - 1]) {
      LowWordSnocAt(bits, b, w, i);
    }
    OrBit(s, t, b);
  }

  lemma LowWordSnocAt(bits: seq<bool>, b: bool, w: nat, i: nat)
    requires i < w
    ensures LowWord(bits + [b], w)[i] == (if i == 0 then b else LowWord(bits, w)[i - 1])
  {
  }

  lemma OrBit(s: Word, t: Word, b: bool)
    requires |s| == |t| && forall i :: 0 <= i < |t| ==> t[i] == (if i == 0 then b else s[i - 1])
    ensures t == Or(Shl(s, 1), if b then OneHot(|s|, 0) else Zero(|s|))
  {
    var low := if b then OneHot(|s|, 0) else Zero(|s|);
    forall i | 0 <= i < |t| ensures t[i] == Or(Shl(s, 1), low)[i] {
      assert low[i] == (b && i == 0);
      OrBitAt(s, low, i);
    }
  }

  lemma OrBitAt(s: Word, low: Word, i: nat)
    requires i < |s| == |low|
    ensures Or(Shl(s, 1), low)[i] == ((i > 0 && s[i - 1]) || low[i])
  {
    var up := Shl(s, 1);
    assert up[i] == (i >= 1 && s[i - 1]);
  }

  lemma StoreStep(poly: Word, r: Word, m: seq<bool>, b: bool)
    requires |m| < |poly| && r == LowWord(m, |poly|)
    ensures AugStep(poly, r, b) == LowWord(m + [b], |poly|)
  {
    LowWordSnoc(m, b, |poly|);
  }

  lemma StoredNothing(poly: Word)
    requires 1 <= |poly|
    ensures AugSteps(poly, Zero(|poly|), []) == LowWord([], |poly|)
  {
    assert LowWord([], |poly|) == Zero(|poly|);
  }

  lemma StoredOneMore(poly: Word, m: seq<bool>, b: bool)
    requires |m| < |poly| && AugSteps(poly, Zero(|poly|), m) == LowWord(m, |poly|)
    ensures AugSteps(poly, Zero(|poly|), m + [b]) == LowWord(m + [b], |poly|)
  {
    AugStepsSnoc(poly, Zero(|poly|), m, b);
    StoreStep(poly, LowWord(m, |poly|), m, b);
  }

  // A message that fits in the register is simply stored there.
  lemma {:induction false} Stored(poly: Word, bits: seq<bool>)
    requires 1 <= |poly| && |bits| <= |poly|
    ensures AugSteps(poly, Zero(|poly|), bits) == LowWord(bits, |poly|)
  {
    if bits == [] {
      StoredNothing(poly);
    } else {
      var n := |bits| - 1;
      assert bits == bits[..n] + [bits[n]];
      Stored(poly, bits[..n]);
      StoredOneMore(poly, bits[..n], bits[n]);
    }
  }

  lemma XorOverZeros(m: seq<bool>)
    ensures Xor(Zero(|m|), m) == m
  {
  }

  lemma AugmentedSplit(poly: Word, r: Word, m: seq<bool>)
    requires |poly| == |r| >= 1
    ensures AugSteps(poly, r, m) == Xor(Steps(poly, r, Zero(|m|)), AugSteps(poly, Zero(|poly|), m))
  {
    XorOverZeros(m);
    AugStepsXor(poly, r, Zero(|poly|), Zero(|m|), m);
    XorZero(r);
    AugStepsOfZeros(poly, r, |m|);
  }

  // A whole group of bits, no longer than the register, can be shifted in at once.
  lemma AugStepsAtOnce(poly: Word, r: Word, bits: seq<bool>)
    requires |poly| == |r| >= 1 && |bits| <= |r|
    ensures AugSteps(poly, r, bits)
         == Xor(Xor(Shl(r, |bits|), LowWord(bits, |r|)), Steps(poly, Zero(|r|), TopBits(r, |bits|)))
  {
    var n := |bits|;
    AugmentedSplit(poly, r, bits);
    Stored(poly, bits);
    StepsAtOnce(poly, r, Zero(n));
    XorOverZeros(TopBits(r, n));
    XorSwap(Shl(r, n), Steps(poly, Zero(|r|), TopBits(r, n)), LowWord(bits, |r|));
  }

  lemma XorSwap(a: Word, b: Word, c: Word)
    requires |a| == |b| == |c|
    ensures Xor(Xor(a, b), c) == Xor(Xor(a, c), b)
  {
  }

  // ----- The augmented register is a remainder too -----

  // init * x^n + message, for a message of n bits
  ghost function AugDividend(init: Word, m: seq<bool>): Poly {
    Add(TimesXPow(ToPoly(init), |m|), OfBits(m))
  }

  lemma AugStepIsStep(poly: Word, r: Word, b: bool)
    requires |poly| == |r| >= 1
    ensures AugStep(poly, r, b) == Xor(Step(poly, r, false), if b then OneHot(|r|, 0) else Zero(|r|))
  {
  }

  lemma AugStepPoly(poly: Word, r: Word, b: bool)
    requires |poly| == |r| >= 1
    ensures Add(TimesXPow(ToPoly(r), 1), Scale(b, iset{0}))
         == Add(Scale(r[|r| - 1], Generator(poly)), ToPoly(AugStep(poly, r, b)))
  {
    var s := ToPoly(Step(poly, r, false));
    var one := if b then OneHot(|r|, 0) else Zero(|r|);
    AugStepIsStep(poly, r, b);
    ToPolyXor(Step(poly, r, false), one);
    assert ToPoly(one) == Scale(b, iset{0});
    StepPoly(poly, r, false);
    AddLaws(TimesXPow(ToPoly(r), 1), Scale(false, iset{|r|}), iset{});
    AddLaws(Scale(r[|r| - 1], Generator(poly)), s, Scale(b, iset{0}));
  }

  lemma AugDividendStep(init: Word, m: seq<bool>, b: bool)
    ensures AugDividend(init, m + [b]) == Add(TimesXPow(AugDividend(init, m), 1), Scale(b, iset{0}))
  {
    assert (m + [b])[..|m|] == m;
    var p := TimesXPow(ToPoly(init), |m|);
    TimesXPowLaws(p, OfBits(m), 0, 1);
    TimesXPowLaws(ToPoly(init), iset{}, |m|, 1);
    AddLaws(TimesXPow(p, 1), TimesXPow(OfBits(m), 1), Scale(b, iset{0}));
  }

  lemma {:induction false} AugStepsDivide(poly: Word, init: Word, m: seq<bool>) returns (q: seq<bool>)
    requires |poly| == |init| >= 1
    ensures Divides(q, AugDividend(init, m), Generator(poly), ToPoly(AugSteps(poly, init, m)))
  {
    if m == [] {
      q := [];
      TimesXPowLaws(ToPoly(init), iset{}, 0, 0);
    } else {
      var n := |m| - 1;
      var b := m[n];
      var (r, g) := (AugSteps(poly, init, m[..n]), Generator(poly));
      var q0 := AugStepsDivide(poly, init, m[..n]);
      var c := r[|r| - 1];
      q := q0 + [c];
      assert q[..|q0|] == q0;
      assert m[..n] + [b] == m;
      AugDividendStep(init, m[..n], b);
      AugStepPoly(poly, r, b);
      TimesXPowLaws(Product(q0, g), ToPoly(r), 0, 1);
      var x := TimesXPow(Product(q0, g), 1);
      AddLaws(x, TimesXPow(ToPoly(r), 1), Scale(b, iset{0}));
      AddLaws(x, Scale(c, g), ToPoly(AugSteps(poly, init, m)));
    }
  }

  // The augmented register is (init * x^n + message) mod (x^W + poly).
  lemma AugRegisterIsRemainder(poly: Word, init: Word, m: seq<bool>)
    requires |poly| == |init| >= 1
    ensures IsRemainder(AugDividend(init, m), Generator(poly), |poly|, ToPoly(AugSteps(poly, init, m)))
  {
    GeneratorDegree(poly);
    var q := AugStepsDivide(poly, init, m);
  }

  // ----- What augmentation is for -----

  lemma {:induction false} OfZeros(n: nat)
    ensures OfBits(Zero(n)) == iset{}
  {
    forall e: nat ensures e !in OfBits(Zero(n)) {
      OfBitsMembers(Zero(n), e);
    }
  }

  // From zero, a message followed by W zero bits gives the message's unreflected CRC.
  lemma AugmentedFromZero(poly: Word, m: seq<bool>)
    requires |poly| >= 1
    ensures AugSteps(poly, Zero(|poly|), m + Zero(|poly|)) == Steps(poly, Zero(|poly|), m)
  {
    var (w, z, g) := (|poly|, Zero(|poly|), Generator(poly));
    var a := m + Zero(w);
    AugRegisterIsRemainder(poly, z, a);
    RegisterIsRemainder(poly, z, m);
    ZeroDividend(w, m);
    OfBitsConcat(m, Zero(w));
    OfZeros(w);
    AddLaws(TimesXPow(OfBits(m), w), iset{}, iset{});
    assert TimesXPow(ToPoly(z), |a|) == iset{};
    AddLaws(iset{}, OfBits(a), iset{});
    assert AugDividend(z, a) == Dividend(z, m);
    RemainderUnique(AugDividend(z, a), g, w, ToPoly(AugSteps(poly, z, a)), ToPoly(Steps(poly, z, m)));
    ToPolyInjective(AugSteps(poly, z, a), Steps(poly, z, m));
  }

  lemma PlainSplit(poly: Word, r: Word, m: seq<bool>)
    requires |poly| == |r| >= 1
    ensures Steps(poly, r, m) == Xor(Steps(poly, r, Zero(|m|)), Steps(poly, Zero(|poly|), m))
  {
    XorOverZeros(m);
    StepsXor(poly, r, Zero(|poly|), Zero(|m|), m);
    XorZero(r);
  }

  // From any remainder: the same as starting the plain register from that remainder after W zero bits.
  lemma AugmentedFromRemainder(poly: Word, r: Word, m: seq<bool>)
    requires |poly| == |r| >= 1
    ensures AugSteps(poly, r, m + Zero(|poly|)) == Steps(poly, Steps(poly, r, Zero(|poly|)), m)
  {
    AugmentedSplit(poly, r, m + Zero(|poly|));
    AugmentedFromZero(poly, m);
    assert Zero(|m + Zero(|poly|)|) == Zero(|poly|) + Zero(|m|);
    StepsConcat(poly, r, Zero(|poly|), Zero(|m|));
    PlainSplit(poly, Steps(poly, r, Zero(|poly|)), m);
  }

  lemma LowWordMsbFirst(c: Word)
    ensures LowWord(MsbFirst(c), |c|) == c
  {
  }

  lemma {:induction false} ZeroPrefix(poly: Word, n: nat, bits: seq<bool>)
    requires |poly| >= 1
    ensures AugSteps(poly, Zero(|poly|), Zero(n) + bits) == AugSteps(poly, Zero(|poly|), bits)
  {
    AugStepsOfZeros(poly, Zero(|poly|), n);
    ZeroRunFromZero(poly, n);
    AugStepsConcat(poly, Zero(|poly|), Zero(n), bits);
  }

  lemma XorOverTail(m: seq<bool>, t: seq<bool>)
    ensures Xor(m + Zero(|t|), Zero(|m|) + t) == m + t
  {
  }

  // A received message followed by a word checks out to zero exactly when the word is the augmented CRC of the
  // message.
  lemma OwnCrcCheck(poly: Word, r: Word, m: seq<bool>, c: Word)
    requires |poly| == |r| == |c| >= 1
    ensures AugSteps(poly, r, m + MsbFirst(c)) == Zero(|poly|)
       <==> c == AugSteps(poly, r, m + Zero(|poly|))
  {
    var (w, z) := (|poly|, Zero(|poly|));
    XorOverTail(m, MsbFirst(c));
    AugStepsXor(poly, r, z, m + Zero(w), Zero(|m|) + MsbFirst(c));
    XorZero(r);
    ZeroPrefix(poly, |m|, MsbFirst(c));
    Stored(poly, MsbFirst(c));
    LowWordMsbFirst(c);
    XorSelf(AugSteps(poly, r, m + Zero(w)), c);
  }

  // Starting from a remainder is starting from zero with the remainder's bits put first.
  lemma RemainderAsPrefix(poly: Word, r: Word, m: seq<bool>)
    requires |poly| == |r| >= 1
    ensures AugSteps(poly, Zero(|poly|), MsbFirst(r) + m) == AugSteps(poly, r, m)
  {
    Stored(poly, MsbFirst(r));
    LowWordMsbFirst(r);
    AugStepsConcat(poly, Zero(|poly|), MsbFirst(r), m);
  }

  // ----- Bytes -----

  // The bytes of a word, most significant first.
  function BigEndian(c: Word): (bytes: seq<Byte>)
    requires |c| % 8 == 0
    ensures 8 * |bytes| == |c|
  {
    if c == [] then [] else [c[|c| - 8..]] + BigEndian(c[..|c| - 8])
  }

  lemma {:induction false} BigEndianBits(c: Word)
    requires |c| % 8 == 0
    ensures MessageBits(false, BigEndian(c)) == MsbFirst(c)
  {
    if c != [] {
      var (hi, lo) := (c[|c| - 8..], c[..|c| - 8]);
      BigEndianBits(lo);
      MessageBitsConcat(false, [hi], BigEndian(lo));
      SingleByteBits(hi);
      MsbFirstSplit(c, |c| - 8);
    }
  }

  lemma MsbFirstSplit(c: Word, n: nat)
    requires n <= |c|
    ensures MsbFirst(c) == MsbFirst(c[n..]) + MsbFirst(c[..n])
  {
  }

  lemma SingleByteBits(b: Byte)
    ensures MessageBits(false, [b]) == MsbFirst(b)
  {
    assert [b][..0] == [];
    assert MessageBits(false, []) + ByteBits(false, b) == ByteBits(false, b);
  }

  // What augmented_crc returns for a buffer.
  function AugmentedChecksum(poly: Word, init: Word, buffer: seq<Byte>): (c: Word)
    requires |poly| == |init| >= 1
    ensures |c| == |poly|
  {
    AugSteps(poly, init, MessageBits(false, buffer))
  }

  function ZeroBytes(n: nat): (bytes: seq<Byte>) {
    seq(n, _ => Zero(8))
  }

  lemma {:induction false} ZeroBytesBits(n: nat)
    ensures MessageBits(false, ZeroBytes(n)) == Zero(8 * n)
  {
    if n > 0 {
      ZeroBytesBits(n - 1);
      assert ZeroBytes(n)[..n - 1] == ZeroBytes(n - 1);
      assert ByteBits(false, Zero(8)) == Zero(8);
      assert Zero(8 * (n - 1)) + Zero(8) == Zero(8 * n);
    }
  }

  // augmented_crc over a message followed by Bits/8 zero bytes is the unreflected CRC of the message with
  // initial remainder and final value zero.
  lemma AugmentedIsPlainCrc(poly: Word, bytes: seq<Byte>)
    requires |poly| >= 8 && |poly| % 8 == 0
    ensures AugmentedChecksum(poly, Zero(|poly|), bytes + ZeroBytes(|poly| / 8))
         == Checksum(Params(|poly|, poly, Zero(|poly|), Zero(|poly|), false, false), bytes)
  {
    var (n, m) := (|poly| / 8, MessageBits(false, bytes));
    assert 8 * n == |poly|;
    MessageBitsConcat(false, bytes, ZeroBytes(n));
    ZeroBytesBits(n);
    assert MessageBits(false, bytes + ZeroBytes(n)) == m + Zero(|poly|);
    AugmentedFromZero(poly, m);
    PlainChecksum(poly, bytes);
  }

  lemma PlainChecksum(poly: Word, bytes: seq<Byte>)
    requires |poly| >= 1
    ensures Checksum(Params(|poly|, poly, Zero(|poly|), Zero(|poly|), false, false), bytes)
         == Steps(poly, Zero(|poly|), MessageBits(false, bytes))
  {
    XorZero(Steps(poly, Zero(|poly|), MessageBits(false, bytes)));
  }

  // A message followed by the big-endian bytes of a word gives zero exactly when that word is the augmented CRC
  // of the message; in particular its own CRC always checks.
  lemma MessageWithCrcIsZero(poly: Word, init: Word, bytes: seq<Byte>, c: Word)
    requires |poly| == |init| == |c| >= 8 && |poly| % 8 == 0
    ensures AugmentedChecksum(poly, init, bytes + BigEndian(c)) == Zero(|poly|)
       <==> c == AugmentedChecksum(poly, init, bytes + ZeroBytes(|poly| / 8))
  {
    MessageBitsConcat(false, bytes, BigEndian(c));
    MessageBitsConcat(false, bytes, ZeroBytes(|poly| / 8));
    ZeroBytesBits(|poly| / 8);
    BigEndianBits(c);
    OwnCrcCheck(poly, init, MessageBits(false, bytes), c);
  }

  // An initial remainder is the same as that remainder's bytes at the front of the message.
  lemma InitialRemainderIsPrefix(poly: Word, r: Word, bytes: seq<Byte>)
    requires |poly| == |r| >= 8 && |poly| % 8 == 0
    ensures AugmentedChecksum(poly, r, bytes) == AugmentedChecksum(poly, Zero(|poly|), BigEndian(r) + bytes)
  {
    MessageBitsConcat(false, BigEndian(r), bytes);
    BigEndianBits(r);
    RemainderAsPrefix(poly, r, MessageBits(false, bytes));
  }

  // ----- The function itself -----

  lemma {:induction false} AugMessagePrefix(poly: Word, r: Word, bytes: seq<Byte>, n: nat)
    requires |poly| == |r| >= 1 && n < |bytes|
    ensures AugmentedChecksum(poly, r, bytes[..n + 1])
         == AugSteps(poly, AugmentedChecksum(poly, r, bytes[..n]), MsbFirst(bytes[n]))
  {
    assert bytes[..n + 1][..n] == bytes[..n];
    AugStepsConcat(poly, r, MessageBits(false, bytes[..n]), MsbFirst(bytes[n]));
  }

  lemma ShiftedInByte(rem: Word, x: Byte, width: nat)
    requires 8 <= width <= |rem|
    ensures Or(Shl(rem, 8), Cast(x, |rem|))[..width] == Xor(Shl(rem[..width], 8), LowWord(MsbFirst(x), width))
  {
  }

  // The table-driven update of one byte is eight bit steps.
  lemma AugTableStep(poly: Word, rem: Word, x: Byte, e: Word)
    requires 8 <= |poly| <= |rem| == |e|
    requires e[..|poly|] == Steps(poly, Zero(|poly|), TopBits(rem[..|poly|], 8))
    ensures Xor(Or(Shl(rem, 8), Cast(x, |rem|)), e)[..|poly|] == AugSteps(poly, rem[..|poly|], MsbFirst(x))
  {
    var (w, r) := (|poly|, rem[..|poly|]);
    var a := Xor(Shl(r, 8), LowWord(MsbFirst(x), w));
    var b := Steps(poly, Zero(w), TopBits(r, 8));
    var s := Or(Shl(rem, 8), Cast(x, |rem|));
    assert s[..w] == a by { ShiftedInByte(rem, x, w); }
    assert AugSteps(poly, r, MsbFirst(x)) == Xor(a, b) by { AugStepsAtOnce(poly, r, MsbFirst(x)); }
    CombineHalves(s, e, a, b, w);
  }

  lemma PlainEntry(poly: Word, b: Byte, e: Word)
    requires 1 <= |poly| <= |e| && IsEntry(poly, false, b, e)
    ensures e[..|poly|] == Steps(poly, Zero(|poly|), MsbFirst(b))
  {
  }

  lemma TopByteBits(rem: Word, width: nat)
    requires 8 <= width <= |rem|
    ensures MsbFirst(Cast(Shr(rem, width - 8), 8)) == TopBits(rem[..width], 8)
  {
  }

  lemma CombineHalves(s: Word, e: Word, a: Word, b: Word, width: nat)
    requires width <= |s| == |e| && s[..width] == a && e[..width] == b
    ensures |a| == |b| && Xor(s, e)[..width] == Xor(a, b)
  {
    XorLow(s, e, width);
  }

  lemma XorLow(a: Word, b: Word, width: nat)
    requires width <= |a| == |b|
    ensures Xor(a, b)[..width] == Xor(a[..width], b[..width])
  {
  }

  method AugmentedCrc(width: nat, digits: nat, crcTable: CrcTable, buffer: seq<Byte>, initialRemainder: Word)
      returns (c: Word)
    requires 8 <= width <= digits && |initialRemainder| == digits
    requires crcTable.Valid() && !crcTable.reflected && crcTable.width == width && crcTable.digits == digits
    modifies crcTable`didInit, crcTable.table
    ensures crcTable.Valid()
    ensures c == Cast(AugmentedChecksum(crcTable.truncPoly[..width], initialRemainder[..width], buffer), digits)
  {
    var rem := initialRemainder;
    ghost var (poly, init) := (crcTable.truncPoly[..width], initialRemainder[..width]);
    crcTable.InitTable();
    var p := 0;
    while p < |buffer|
      invariant 0 <= p <= |buffer| && |rem| == digits && crcTable.Valid() && crcTable.Filled()
      invariant rem[..width] == AugmentedChecksum(poly, init, buffer[..p])
    {
      var byteIndex: Byte := Cast(Shr(rem, width - 8), 8);
      PlainEntry(poly, byteIndex, crcTable.table[IndexOf(byteIndex)]);
      TopByteBits(rem, width);
      AugTableStep(poly, rem, buffer[p], crcTable.table[IndexOf(byteIndex)]);
      AugMessagePrefix(poly, init, buffer, p);
      rem := Shl(rem, 8);
      rem := Or(rem, Cast(buffer[p], digits));
      rem := Xor(rem, crcTable.table[IndexOf(byteIndex)]);
      p := p + 1;
    }
    assert buffer[..p] == buffer;
    c := And(rem, LowMask(digits, width));
  }
}
