// The two CRC engines: crc_basic absorbs one bit at a time, crc_optimal one byte at a time through a table of
// 256 partial remainders. Registers are machine words with at least as many digits as the CRC has bits;
// whatever is left above the CRC's own bits is junk that no result depends on. Both engines are specified by
// the same register function, CrcSpec.Steps.
module CrcEngines {
  import opened Words
  import opened CrcSpec

  // ----- Helpers shared by the engines -----

  // x's low width bits mirrored, of which only the first i have been placed.
  function PartlyReflected(x: Word, width: nat, i: nat): (w: Word)
    requires i <= width <= |x|
    ensures |w| == |x|
    ensures forall j :: 0 <= j < |x| ==> w[j] == (width - i <= j < width && x[width - 1 - j])
  {
    seq(|x|, j requires 0 <= j < |x| => width - i <= j < width && x[width - 1 - j])
  }

  lemma PlaceBit(x: Word, width: nat, i: nat)
    requires i < width <= |x|
    ensures PartlyReflected(x, width, i + 1)
         == if x[i] then Or(PartlyReflected(x, width, i), Shl(OneHot(|x|, 0), width - 1 - i))
            else PartlyReflected(x, width, i)
  {
  }

  // reflector<Bits>::reflect
  method Reflect(x: Word, width: nat) returns (reflection: Word)
    requires width <= |x|
    ensures reflection == Reflected(x, width)
  {
    reflection := Zero(|x|);
    var one := OneHot(|x|, 0);
    var y := x;
    var i := 0;
    assert Shr(x, 0) == x && PartlyReflected(x, width, 0) == Zero(|x|);
    while i < width
      invariant 0 <= i <= width
      invariant y == Shr(x, i) && reflection == PartlyReflected(x, width, i)
    {
      HighBitTest(y, 0);
      PlaceBit(x, width, i);
      ShrTwice(x, i);
      if And(y, one) != Zero(|x|) {
        reflection := Or(reflection, Shl(one, width - 1 - i));
      }
      i, y := i + 1, Shr(y, 1);
    }
    assert PartlyReflected(x, width, width) == Reflected(x, width);
  }

  lemma ShrTwice(x: Word, i: nat)
    ensures Shr(Shr(x, i), 1) == Shr(x, i + 1)
  {
  }

  // Testing a word against a one-bit mask reads that bit.
  lemma HighBitTest(y: Word, k: nat)
    requires k < |y|
    ensures And(y, OneHot(|y|, k)) != Zero(|y|) <==> y[k]
  {
    if !y[k] {
      assert And(y, OneHot(|y|, k)) == Zero(|y|);
    } else {
      assert And(y, OneHot(|y|, k))[k];
    }
  }

  lemma MirroredTwice(b: Byte)
    ensures Reflected(Reflected(b, 8), 8) == b
  {
    ReflectedTwice(b, 8);
    assert And(b, LowMask(8, 8)) == b;
  }

  // crc_helper::reflect
  function HelperReflect(doReflect: bool, x: Word, width: nat): (w: Word)
    requires width <= |x|
    ensures |w| == |x|
  {
    if doReflect then Reflected(x, width) else x
  }

  // remainder::align_msb: the remainder's top byte, or, when it is narrower than a byte, the remainder moved to
  // the top of one.
  function AlignMsb(rem: Word, width: nat): Byte {
    if width > 8 then Cast(Shr(rem, width - 8), 8) else Cast(Shl(rem, 8 - width), 8)
  }

  // crc_helper::index
  function TableIndex(doReflect: bool, rem: Word, x: Byte, width: nat): Byte {
    if doReflect then Cast(Xor(Cast(x, |rem|), rem), 8) else Xor(x, AlignMsb(rem, width))
  }

  // crc_helper::shift
  function ShiftByte(doReflect: bool, rem: Word): (w: Word)
    ensures |w| == |rem|
  {
    if doReflect then Shr(rem, 8) else Shl(rem, 8)
  }

  // The mathematical register a machine word stands for.
  function RegisterOf(reflected: bool, rem: Word, width: nat): (r: Word)
    requires width <= |rem|
    ensures |r| == width
  {
    HelperReflect(reflected, rem, width)[..width]
  }

  // A mirrored register is shifted downwards, so it must have no junk above it.
  predicate Clean(reflected: bool, rem: Word, width: nat) {
    reflected ==> forall i :: width <= i < |rem| ==> !rem[i]
  }

  // e is the table entry of index b: the eight-step division of the index itself.
  predicate IsEntry(poly: Word, reflected: bool, b: Byte, e: Word)
    requires 1 <= |poly| <= |e|
  {
    && Clean(reflected, e, |poly|)
    && RegisterOf(reflected, e, |poly|) == Steps(poly, Zero(|poly|), ByteBits(reflected, b))
  }

  lemma MirroredIndexBits(rem: Word, x: Byte, width: nat)
    requires 1 <= width <= |rem| && 8 <= |rem| && Clean(true, rem, width)
    ensures ByteBits(true, TableIndex(true, rem, x, width))
         == Xor(ByteBits(true, x), TopBits(RegisterOf(true, rem, width), 8))
  {
    var b := ByteBits(true, TableIndex(true, rem, x, width));
    var t := TopBits(RegisterOf(true, rem, width), 8);
    forall i | 0 <= i < 8 ensures b[i] == (ByteBits(true, x)[i] != t[i]) {
      assert b[i] == (x[i] != rem[i]);
      assert t[i] == (i < width && rem[i]);
    }
  }

  lemma AlignMsbBits(rem: Word, width: nat, i: nat)
    requires 1 <= width <= |rem| && 8 <= |rem| && i < 8
    ensures AlignMsb(rem, width)[7 - i] == (i < width && rem[width - 1 - i])
  {
  }

  lemma PlainIndexBit(rem: Word, x: Byte, width: nat, i: nat)
    requires 1 <= width <= |rem| && 8 <= |rem| && i < 8
    ensures ByteBits(false, TableIndex(false, rem, x, width))[i]
         == (ByteBits(false, x)[i] != TopBits(RegisterOf(false, rem, width), 8)[i])
  {
    AlignMsbBits(rem, width, i);
    PlainBitAt(x, i);
    PlainBitAt(TableIndex(false, rem, x, width), i);
    PlainTopBit(rem, width, i);
  }

  lemma PlainBitAt(b: Byte, i: nat)
    requires i < 8
    ensures ByteBits(false, b)[i] == b[7 - i]
  {
  }

  lemma PlainTopBit(rem: Word, width: nat, i: nat)
    requires 1 <= width <= |rem| && i < 8
    ensures TopBits(RegisterOf(false, rem, width), 8)[i] == (i < width && rem[width - 1 - i])
  {
    assert RegisterOf(false, rem, width) == rem[..width];
  }

  lemma PlainIndexBits(rem: Word, x: Byte, width: nat)
    requires 1 <= width <= |rem| && 8 <= |rem|
    ensures ByteBits(false, TableIndex(false, rem, x, width))
         == Xor(ByteBits(false, x), TopBits(RegisterOf(false, rem, width), 8))
  {
    forall i | 0 <= i < 8
      ensures ByteBits(false, TableIndex(false, rem, x, width))[i]
           == (ByteBits(false, x)[i] != TopBits(RegisterOf(false, rem, width), 8)[i])
    {
      PlainIndexBit(rem, x, width, i);
    }
  }

  // The index combines the message byte with the bits about to be shifted out.
  lemma IndexBits(reflected: bool, rem: Word, x: Byte, width: nat)
    requires 1 <= width <= |rem| && 8 <= |rem| && Clean(reflected, rem, width)
    ensures ByteBits(reflected, TableIndex(reflected, rem, x, width))
         == Xor(ByteBits(reflected, x), TopBits(RegisterOf(reflected, rem, width), 8))
  {
    if reflected {
      MirroredIndexBits(rem, x, width);
    } else {
      PlainIndexBits(rem, x, width);
    }
  }

  lemma ShiftByteRegister(reflected: bool, rem: Word, width: nat)
    requires 1 <= width <= |rem| && Clean(reflected, rem, width)
    ensures RegisterOf(reflected, ShiftByte(reflected, rem), width) == Shl(RegisterOf(reflected, rem, width), 8)
    ensures Clean(reflected, ShiftByte(reflected, rem), width)
  {
  }

  lemma XorRegister(reflected: bool, a: Word, b: Word, width: nat)
    requires 1 <= width <= |a| == |b| && Clean(reflected, a, width) && Clean(reflected, b, width)
    ensures RegisterOf(reflected, Xor(a, b), width)
         == Xor(RegisterOf(reflected, a, width), RegisterOf(reflected, b, width))
    ensures Clean(reflected, Xor(a, b), width)
  {
  }

  // One table lookup is eight steps of the division, in both register layouts and for widths below, at and
  // above a byte.
  lemma TableStep(poly: Word, reflected: bool, rem: Word, x: Byte, e: Word)
    requires 1 <= |poly| <= |rem| == |e| && 8 <= |rem| && Clean(reflected, rem, |poly|)
    requires IsEntry(poly, reflected, TableIndex(reflected, rem, x, |poly|), e)
    ensures RegisterOf(reflected, Xor(ShiftByte(reflected, rem), e), |poly|)
         == Steps(poly, RegisterOf(reflected, rem, |poly|), ByteBits(reflected, x))
    ensures Clean(reflected, Xor(ShiftByte(reflected, rem), e), |poly|)
  {
    IndexBits(reflected, rem, x, |poly|);
    ShiftByteRegister(reflected, rem, |poly|);
    XorRegister(reflected, ShiftByte(reflected, rem), e, |poly|);
    StepsAtOnce(poly, RegisterOf(reflected, rem, |poly|), ByteBits(reflected, x));
  }

  // ----- The bit-at-a-time engine -----

  lemma XorBitRegister(rem: Word, bit: bool, width: nat)
    requires 1 <= width <= |rem|
    ensures var x := Xor(rem, if bit then OneHot(|rem|, width - 1) else Zero(|rem|));
            x[width - 1] == (rem[width - 1] != bit) && x[..width - 1] == rem[..width - 1]
  {
  }

  // The masked test, the shift and the conditional xor are one step on the low bits.
  lemma BitUpdate(rem: Word, poly: Word, bit: bool, width: nat)
    requires 1 <= width <= |rem| == |poly|
    ensures var x := Xor(rem, if bit then OneHot(|rem|, width - 1) else Zero(|rem|));
            var y := if x[width - 1] then Xor(Shl(x, 1), poly) else Shl(x, 1);
            y[..width] == Step(poly[..width], rem[..width], bit)
  {
    var x := Xor(rem, if bit then OneHot(|rem|, width - 1) else Zero(|rem|));
    XorBitRegister(rem, bit, width);
    ShiftedRegister(x, rem, poly, width);
  }

  lemma ShiftedRegister(x: Word, rem: Word, poly: Word, width: nat)
    requires 1 <= width <= |rem| == |poly| == |x| && x[..width - 1] == rem[..width - 1]
    ensures Shl(x, 1)[..width] == Shl(rem[..width], 1)
    ensures Xor(Shl(x, 1), poly)[..width] == Xor(Shl(rem[..width], 1), poly[..width])
  {
    var y := Shl(x, 1);
    forall i | 0 <= i < width ensures y[i] == Shl(rem[..width], 1)[i] {
      assert i > 0 ==> x[..width - 1][i - 1] == rem[..width - 1][i - 1];
    }
  }

  // The bits reach the top of the shifted byte in the order of the message.
  lemma NextBit(bits: Byte, bitCount: nat, done: nat)
    requires done < bitCount <= 8
    ensures Shl(bits, 8 - bitCount + done)[7] == MsbFirst(bits)[8 - bitCount..][done]
    ensures Shl(Shl(bits, 8 - bitCount + done), 1) == Shl(bits, 8 - bitCount + (done + 1))
  {
    ShlTwice(bits, 8 - bitCount + done);
  }

  class CrcBasic {
    const width: nat   // Bits
    const digits: nat  // digits of value_type
    var rem: Word
    var poly: Word
    var init: Word
    var finalXor: Word
    var reflectIn: bool
    var reflectOut: bool

    ghost predicate Valid()
      reads this
    {
      && 1 <= width <= digits && 8 <= digits
      && |rem| == |poly| == |init| == |finalXor| == digits
    }

    ghost function Parameters(): (p: Params)
      requires Valid()
      reads this
      ensures p.Valid() && p.width == width
    {
      Params(width, poly[..width], init[..width], finalXor[..width], reflectIn, reflectOut)
    }

    ghost function Register(): (r: Word)
      requires Valid()
      reads this
      ensures |r| == width
    {
      rem[..width]
    }

    constructor (width: nat, digits: nat, truncatedPolynomial: Word, initialRemainder: Word,
                 finalXorValue: Word, reflectInput: bool, reflectRemainder: bool)
      requires 1 <= width <= digits && 8 <= digits
      requires |truncatedPolynomial| == |initialRemainder| == |finalXorValue| == digits
      ensures Valid() && this.width == width && this.digits == digits
      ensures Parameters() == Params(width, truncatedPolynomial[..width], initialRemainder[..width],
                                     finalXorValue[..width], reflectInput, reflectRemainder)
      ensures Register() == Parameters().init
    {
      this.width, this.digits := width, digits;
      rem, poly, init, finalXor := initialRemainder, truncatedPolynomial, initialRemainder, finalXorValue;
      reflectIn, reflectOut := reflectInput, reflectRemainder;
    }

    method ResetTo(newRem: Word)
      requires Valid() && |newRem| == digits
      modifies this`rem
      ensures Valid() && Register() == newRem[..width]
    {
      rem := newRem;
    }

    method Reset()
      requires Valid()
      modifies this`rem
      ensures Valid() && Register() == Parameters().init
    {
      ResetTo(init);
    }

    method GetInterimRemainder() returns (r: Word)
      requires Valid()
      ensures r == Cast(Register(), digits)
    {
      r := And(rem, LowMask(digits, width));
    }

    method ProcessBit(bit: bool)
      requires Valid()
      modifies this`rem
      ensures Valid() && Register() == Step(Parameters().poly, old(Register()), bit)
    {
      var highBitMask := OneHot(digits, width - 1);
      BitUpdate(rem, poly, bit, width);
      rem := Xor(rem, if bit then highBitMask else Zero(digits));
      HighBitTest(rem, width - 1);
      var doPolyDiv := And(rem, highBitMask) != Zero(digits);
      rem := Shl(rem, 1);
      if doPolyDiv {
        rem := Xor(rem, poly);
      }
    }

    // Only the low bitCount bits of `bits` reach the register, the highest of them first.
    method ProcessBits(bits: Byte, bitCount: nat)
      requires Valid() && bitCount <= 8
      modifies this`rem
      ensures Valid()
      ensures Register() == Steps(Parameters().poly, old(Register()), MsbFirst(bits)[8 - bitCount..])
    {
      var b := Shl(bits, 8 - bitCount);
      var highBitMask := OneHot(8, 7);
      ghost var (q, r, message) := (poly[..width], Register(), MsbFirst(bits)[8 - bitCount..]);
      ghost var done := 0;
      var i := bitCount;
      while i > 0
        invariant Valid() && i + done == bitCount && i >= 0
        invariant b == Shl(bits, 8 - bitCount + done)
        invariant Register() == Steps(q, r, message[..done])
      {
        HighBitTest(b, 7);
        NextBit(bits, bitCount, done);
        StepsPrefix(q, r, message, done);
        ProcessBit(And(b, highBitMask) != Zero(8));
        i, b, done := i - 1, Shl(b, 1), done + 1;
      }
      assert message[..done] == message;
    }

    method ProcessByte(byte: Byte)
      requires Valid()
      modifies this`rem
      ensures Valid()
      ensures Register() == Steps(Parameters().poly, old(Register()), ByteBits(reflectIn, byte))
    {
      var b := byte;
      if reflectIn {
        b := Reflect(byte, 8);
      }
      assert MsbFirst(b)[0..] == MsbFirst(b);
      ProcessBits(b, 8);
    }

    method ProcessBlock(bytes: seq<Byte>)
      requires Valid()
      modifies this`rem
      ensures Valid()
      ensures Register() == Steps(Parameters().poly, old(Register()), MessageBits(reflectIn, bytes))
    {
      ghost var (q, r) := (Parameters().poly, Register());
      var p := 0;
      while p < |bytes|
        invariant 0 <= p <= |bytes| && Valid()
        invariant Register() == Steps(q, r, MessageBits(reflectIn, bytes[..p]))
      {
        ProcessByte(bytes[p]);
        MessagePrefix(q, r, reflectIn, bytes, p);
        p := p + 1;
      }
      assert bytes[..p] == bytes;
    }

    method Checksum() returns (c: Word)
      requires Valid()
      ensures c == Cast(Finish(Parameters(), Register()), digits)
      ensures |c| == digits && forall i :: 0 <= i < digits ==>
                c[i] == (i < width && (if reflectOut then Register()[width - 1 - i] else Register()[i]) != finalXor[i])
    {
      var out := rem;
      if reflectOut {
        out := Reflect(rem, width);
      }
      c := And(Xor(out, finalXor), LowMask(digits, width));
    }
  }

  // ----- The table -----

  // crc_table_t: one lazily filled table per width, polynomial and layout.
  class CrcTable {
    const width: nat
    const digits: nat
    const truncPoly: Word
    const reflected: bool
    var didInit: bool
    const table: array<Word>

    ghost predicate Valid()
      reads this, table
    {
      Shape() && (didInit ==> Filled())
    }

    predicate Shape() {
      1 <= width <= digits && 8 <= digits && |truncPoly| == digits && table.Length == 256
    }

    // Every one of the 256 slots holds the division of its own index.
    ghost predicate Filled()
      requires Shape()
      reads this, table
    {
      forall b: Byte ::
        |table[IndexOf(b)]| == digits && IsEntry(truncPoly[..width], reflected, b, table[IndexOf(b)])
    }

    constructor (width: nat, digits: nat, truncPoly: Word, reflected: bool)
      requires 1 <= width <= digits && 8 <= digits && |truncPoly| == digits
      ensures Valid() && fresh(this) && fresh(table) && !didInit
      ensures this.width == width && this.digits == digits && this.truncPoly == truncPoly && this.reflected == reflected
    {
      this.width, this.digits, this.truncPoly, this.reflected := width, digits, truncPoly, reflected;
      didInit := false;
      table := new Word[256](_ => Zero(digits));
    }

    method InitTable()
      requires Valid()
      modifies this`didInit, table
      ensures Valid() && Filled()
    {
      if didInit { return; }
      var dividend := 0;
      ghost var n := 0;
      while true
        invariant n == dividend < 256
        invariant forall k :: 0 <= k < n ==> SlotDone(k)
        decreases 256 - n
      {
        FillSlot(dividend);
        dividend, n := (dividend + 1) % 256, n + 1;
        if dividend == 0 { break; }
      }
      AllSlotsDone();
      didInit := true;
    }

    // The body of the loop over the dividends.
    method FillSlot(dividend: nat)
      requires Shape() && dividend < 256
      requires forall k :: 0 <= k < dividend ==> SlotDone(k)
      modifies table
      ensures forall k :: 0 <= k <= dividend ==> SlotDone(k)
    {
      var slot, entry := Entry(dividend);
      SlotsDiffer(dividend);
      table[slot] := entry;
      assert SlotDone(dividend);
      forall k | 0 <= k < dividend ensures SlotDone(k) {
        assert old(SlotDone(k));
        assert table[IndexOf(SlotOf(reflected, k))] == old(table[IndexOf(SlotOf(reflected, k))]);
      }
    }

    method Entry(dividend: nat) returns (slot: nat, entry: Word)
      requires Shape() && dividend < 256
      ensures slot == IndexOf(SlotOf(reflected, dividend))
      ensures |entry| == digits && IsEntry(truncPoly[..width], reflected, SlotOf(reflected, dividend), entry)
    {
      var remainder := Divide(ByteOf(dividend));
      EntryOfDividend(remainder, dividend);
      var d: Word := ByteOf(dividend);
      entry := remainder;
      if reflected {
        d := Reflect(d, 8);
        entry := Reflect(remainder, width);
      }
      slot := IndexOf(d);
    }

    lemma EntryOfDividend(remainder: Word, k: nat)
      requires Shape() && k < 256 && |remainder| == digits
      requires remainder[..width] == Steps(truncPoly[..width], Zero(width), MsbFirst(ByteOf(k)))
      ensures IsEntry(truncPoly[..width], reflected, SlotOf(reflected, k), HelperReflect(reflected, remainder, width))
    {
      MirroredTwice(ByteOf(k));
      if reflected {
        ReflectedTwice(remainder, width);
        assert RegisterOf(reflected, Reflected(remainder, width), width) == remainder[..width];
      }
    }

    lemma AllSlotsDone()
      requires Shape()
      requires forall k :: 0 <= k < 256 ==> SlotDone(k)
      ensures Filled()
    {
      forall b: Byte
        ensures |table[IndexOf(b)]| == digits && IsEntry(truncPoly[..width], reflected, b, table[IndexOf(b)])
      {
        var k := IndexOf(HelperReflect(reflected, b, 8));
        MirroredTwice(b);
        assert SlotDone(k);
        assert SlotOf(reflected, k) == b;
      }
    }

    // The byte whose slot the k-th dividend fills.
    static function SlotOf(reflected: bool, k: nat): Byte
      requires k < 256
    {
      HelperReflect(reflected, ByteOf(k), 8)
    }

    ghost predicate SlotDone(k: nat)
      requires k < 256 && Shape()
      reads this, table
    {
      var b := SlotOf(reflected, k);
      |table[IndexOf(b)]| == digits && IsEntry(truncPoly[..width], reflected, b, table[IndexOf(b)])
    }

    // Distinct dividends fill distinct slots.
    lemma SlotsDiffer(n: nat)
      requires n < 256
      ensures forall k :: 0 <= k < n ==> IndexOf(SlotOf(reflected, k)) != IndexOf(SlotOf(reflected, n))
    {
      forall k | 0 <= k < n ensures IndexOf(SlotOf(reflected, k)) != IndexOf(SlotOf(reflected, n)) {
        IndexOfByteOf(k);
        IndexOfByteOf(n);
        MirroredTwice(ByteOf(k));
        MirroredTwice(ByteOf(n));
      }
    }

    // The body of the loop over the dividend's bits.
    method DivideBit(rem: Word, bit: bool) returns (remainder: Word)
      requires Shape() && |rem| == digits
      ensures |remainder| == digits
      ensures remainder[..width] == Step(truncPoly[..width], rem[..width], bit)
    {
      var fastHiBit := OneHot(digits, width - 1);
      remainder := rem;
      BitUpdate(rem, truncPoly, bit, width);
      XorZero(rem);
      if bit {
        remainder := Xor(remainder, fastHiBit);
      }
      HighBitTest(remainder, width - 1);
      if And(remainder, fastHiBit) != Zero(digits) {
        remainder := Shl(remainder, 1);
        remainder := Xor(remainder, truncPoly);
      } else {
        remainder := Shl(remainder, 1);
      }
    }

    // The division of one dividend byte, highest bit first.
    method Divide(dividend: Byte) returns (remainder: Word)
      requires Shape()
      ensures |remainder| == digits
      ensures remainder[..width] == Steps(truncPoly[..width], Zero(width), MsbFirst(dividend))
    {
      remainder := Zero(digits);
      var mask := OneHot(8, 7);
      ghost var n := 0;
      ghost var (poly, bits) := (truncPoly[..width], MsbFirst(dividend));
      assert remainder[..width] == Zero(width);
      while mask != Zero(8)
        invariant 0 <= n <= 8 && |remainder| == digits
        invariant mask == OneHot(8, 7 - n)
        invariant n < 8 ==> mask[7 - n]
        invariant remainder[..width] == Steps(poly, Zero(width), bits[..n])
        decreases 8 - n
      {
        HighBitTest(dividend, 7 - n);
        remainder := DivideBit(remainder, And(dividend, mask) != Zero(8));
        StepsPrefix(poly, Zero(width), bits, n);
        mask, n := Shr(mask, 1), n + 1;
      }
      assert bits[..n] == bits;
    }
  }

  // ----- The byte-at-a-time engine -----

  class CrcOptimal {
    const width: nat
    const digits: nat
    const truncPoly: Word
    const initRem: Word
    const finalXor: Word
    const reflectIn: bool
    const reflectRem: bool
    const crcTable: CrcTable
    var rem: Word

    ghost predicate Valid()
      reads this, crcTable, crcTable.table
    {
      && 1 <= width <= digits && 8 <= digits
      && |rem| == |truncPoly| == |initRem| == |finalXor| == digits
      && Clean(reflectIn, rem, width)
      && crcTable.width == width && crcTable.digits == digits
      && crcTable.truncPoly == truncPoly && crcTable.reflected == reflectIn
      && crcTable.Valid() && crcTable.Filled()
    }

    ghost function Parameters(): (p: Params)
      requires 1 <= width <= digits && |truncPoly| == |initRem| == |finalXor| == digits
      ensures p.Valid() && p.width == width
    {
      Params(width, truncPoly[..width], initRem[..width], finalXor[..width], reflectIn, reflectRem)
    }

    ghost function Register(): (r: Word)
      requires width <= |rem|
      reads this
      ensures |r| == width
    {
      RegisterOf(reflectIn, rem, width)
    }

    // The table is the class's static one: passed in because every instance with the same template arguments
    // shares it. firstRem is the constructor's argument, which defaults to the template argument InitRem.
    constructor (width: nat, digits: nat, truncPoly: Word, initRem: Word, finalXor: Word,
                 reflectIn: bool, reflectRem: bool, crcTable: CrcTable, firstRem: Word)
      requires 1 <= width <= digits && 8 <= digits
      requires |truncPoly| == |initRem| == |finalXor| == |firstRem| == digits
      requires crcTable.Valid() && crcTable.width == width && crcTable.digits == digits
      requires crcTable.truncPoly == truncPoly && crcTable.reflected == reflectIn
      modifies crcTable`didInit, crcTable.table
      ensures Valid() && this.crcTable == crcTable
      ensures Parameters() == Params(width, truncPoly[..width], initRem[..width], finalXor[..width],
                                     reflectIn, reflectRem)
      ensures this.digits == digits && Register() == firstRem[..width]
    {
      this.width, this.digits, this.truncPoly := width, digits, truncPoly;
      this.initRem, this.finalXor := initRem, finalXor;
      this.reflectIn, this.reflectRem, this.crcTable := reflectIn, reflectRem, crcTable;
      var r := firstRem;
      if reflectIn {
        r := Reflect(firstRem, width);
      }
      rem := r;
      new;
      RegisterOfReflected(reflectIn, firstRem, width);
      crcTable.InitTable();
    }

    method Reset(newRem: Word)
      requires Valid() && |newRem| == digits
      modifies this`rem
      ensures Valid() && Register() == newRem[..width]
    {
      RegisterOfReflected(reflectIn, newRem, width);
      if reflectIn {
        rem := Reflect(newRem, width);
      } else {
        rem := newRem;
      }
    }

    // The interim remainder is un-reflected, whatever the layout of the register.
    method GetInterimRemainder() returns (r: Word)
      requires Valid()
      ensures r == Cast(Register(), digits)
    {
      r := rem;
      if reflectIn {
        r := Reflect(rem, width);
      }
      r := And(r, LowMask(digits, width));
    }

    // The body of the loop over the bytes.
    method AbsorbByte(byte: Byte)
      requires Valid()
      modifies this`rem
      ensures Valid()
      ensures Register() == Steps(Parameters().poly, old(Register()), ByteBits(reflectIn, byte))
    {
      var byteIndex := TableIndex(reflectIn, rem, byte, width);
      TableStep(truncPoly[..width], reflectIn, rem, byte, crcTable.table[IndexOf(byteIndex)]);
      rem := ShiftByte(reflectIn, rem);
      rem := Xor(rem, crcTable.table[IndexOf(byteIndex)]);
    }

    method ProcessByte(byte: Byte)
      requires Valid()
      modifies this`rem
      ensures Valid()
      ensures Register() == Steps(Parameters().poly, old(Register()), MessageBits(reflectIn, [byte]))
    {
      ProcessBlock([byte]);
    }

    method ProcessBlock(bytes: seq<Byte>)
      requires Valid()
      modifies this`rem
      ensures Valid()
      ensures Register() == Steps(Parameters().poly, old(Register()), MessageBits(reflectIn, bytes))
    {
      ghost var (q, r) := (Parameters().poly, Register());
      var p := 0;
      while p < |bytes|
        invariant 0 <= p <= |bytes| && Valid()
        invariant Register() == Steps(q, r, MessageBits(reflectIn, bytes[..p]))
      {
        AbsorbByte(bytes[p]);
        MessagePrefix(q, r, reflectIn, bytes, p);
        p := p + 1;
      }
      assert bytes[..p] == bytes;
    }

    method Checksum() returns (c: Word)
      requires Valid()
      ensures c == Cast(Finish(Parameters(), Register()), digits)
      ensures |c| == digits && forall i :: 0 <= i < digits ==>
                c[i] == (i < width && (if reflectRem then Register()[width - 1 - i] else Register()[i]) != finalXor[i])
    {
      var reflectOutput := reflectRem != reflectIn;
      var out := rem;
      if reflectOutput {
        out := Reflect(rem, width);
      }
      c := And(Xor(out, finalXor), LowMask(digits, width));
    }
  }

  lemma RegisterOfReflected(reflected: bool, x: Word, width: nat)
    requires width <= |x|
    ensures Clean(reflected, HelperReflect(reflected, x, width), width)
    ensures RegisterOf(reflected, HelperReflect(reflected, x, width), width) == x[..width]
  {
  }

  // The free function crc(): a fresh optimised engine run over one buffer.
  method Crc(width: nat, digits: nat, truncPoly: Word, initRem: Word, finalXor: Word,
             reflectIn: bool, reflectRem: bool, crcTable: CrcTable, buffer: seq<Byte>) returns (c: Word)
    requires 1 <= width <= digits && 8 <= digits
    requires |truncPoly| == |initRem| == |finalXor| == digits
    requires crcTable.Valid() && crcTable.width == width && crcTable.digits == digits
    requires crcTable.truncPoly == truncPoly && crcTable.reflected == reflectIn
    modifies crcTable`didInit, crcTable.table
    ensures crcTable.Valid()
    ensures c == Cast(CrcSpec.Checksum(Params(width, truncPoly[..width], initRem[..width], finalXor[..width],
                                              reflectIn, reflectRem), buffer), digits)
  {
    var computer := new CrcOptimal(width, digits, truncPoly, initRem, finalXor, reflectIn, reflectRem, crcTable,
                                   initRem);
    computer.ProcessBlock(buffer);
    c := computer.Checksum();
  }

  // The two engines with the same parameters, fed the same bytes: for every width, polynomial, initial
  // remainder, final xor and reflection they show the same interim remainder and the same checksum.
  method EnginesAgree(width: nat, digits: nat, truncPoly: Word, initRem: Word, finalXor: Word,
                      reflectIn: bool, reflectRem: bool, bytes: seq<Byte>)
    returns (slow: Word, fast: Word, slowInterim: Word, fastInterim: Word)
    requires 1 <= width <= digits && 8 <= digits
    requires |truncPoly| == |initRem| == |finalXor| == digits
    ensures slow == fast && slowInterim == fastInterim
    ensures fast == Cast(CrcSpec.Checksum(Params(width, truncPoly[..width], initRem[..width], finalXor[..width],
                                                 reflectIn, reflectRem), bytes), digits)
  {
    var basic := new CrcBasic(width, digits, truncPoly, initRem, finalXor, reflectIn, reflectRem);
    var table := new CrcTable(width, digits, truncPoly, reflectIn);
    var optimal := new CrcOptimal(width, digits, truncPoly, initRem, finalXor, reflectIn, reflectRem, table, initRem);
    basic.ProcessBlock(bytes);
    optimal.ProcessBlock(bytes);
    slow := basic.Checksum();
    slowInterim := basic.GetInterimRemainder();
    fast := optimal.Checksum();
    fastInterim := optimal.GetInterimRemainder();
  }
}
