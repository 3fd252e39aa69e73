// Unsigned machine words of any number of digits, as the bit sequences they are. Index 0 is the least
// significant bit; the length is the digit count of the integer type, so every operation wraps or truncates
// exactly as the type does.
module Words {

  type Word = seq<bool>

  // unsigned char, with CHAR_BIT == 8
  type Byte = w: Word | |w| == 8 witness [false, false, false, false, false, false, false, false]

  function Zero(digits: nat): (w: Word)
    ensures |w| == digits && forall i :: 0 <= i < digits ==> !w[i]
  {
    seq(digits, _ => false)
  }

  // The word with bit k set and no other; no bit at all when k is out of range.
  function OneHot(digits: nat, k: int): (w: Word)
    ensures |w| == digits && forall i :: 0 <= i < digits ==> w[i] == (i == k)
  {
    seq(digits, i => i == k)
  }

  // The word whose low n bits are set and no other.
  function LowMask(digits: nat, n: nat): (w: Word)
    ensures |w| == digits && forall i :: 0 <= i < digits ==> w[i] == (i < n)
  {
    seq(digits, i => i < n)
  }

  function Xor(a: Word, b: Word): (w: Word)
    requires |a| == |b|
    ensures |w| == |a| && forall i :: 0 <= i < |a| ==> w[i] == (a[i] != b[i])
  {
    seq(|a|, i requires 0 <= i < |a| => a[i] != b[i])
  }

  function And(a: Word, b: Word): (w: Word)
    requires |a| == |b|
    ensures |w| == |a| && forall i :: 0 <= i < |a| ==> w[i] == (a[i] && b[i])
  {
    seq(|a|, i requires 0 <= i < |a| => a[i] && b[i])
  }

  function Or(a: Word, b: Word): (w: Word)
    requires |a| == |b|
    ensures |w| == |a| && forall i :: 0 <= i < |a| ==> w[i] == (a[i] || b[i])
  {
    seq(|a|, i requires 0 <= i < |a| => a[i] || b[i])
  }

  // Left shift; bits pushed past the top digit are lost.
  function Shl(a: Word, k: nat): (w: Word)
    ensures |w| == |a| && forall i :: 0 <= i < |a| ==> w[i] == (i >= k && a[i - k])
  {
    seq(|a|, i requires 0 <= i < |a| => i >= k && a[i - k])
  }

  // Right shift, filling with zeros.
  function Shr(a: Word, k: nat): (w: Word)
    ensures |w| == |a| && forall i :: 0 <= i < |a| ==> w[i] == (i + k < |a| && a[i + k])
  {
    seq(|a|, i requires 0 <= i < |a| => i + k < |a| && a[i + k])
  }

  // Conversion to an unsigned type of another digit count: truncation or zero extension.
  function Cast(a: Word, digits: nat): (w: Word)
    ensures |w| == digits && forall i :: 0 <= i < digits ==> w[i] == (i < |a| && a[i])
  {
    seq(digits, i requires 0 <= i < digits => i < |a| && a[i])
  }

  // The low n bits of a mirrored, and zeros above.
  function Reflected(a: Word, n: nat): (w: Word)
    requires n <= |a|
    ensures |w| == |a| && forall i :: 0 <= i < |a| ==> w[i] == (i < n && a[n - 1 - i])
  {
    seq(|a|, i requires 0 <= i < |a| => i < n && a[n - 1 - i])
  }

  // Mirroring twice keeps the low n bits and clears the rest.
  lemma ReflectedTwice(a: Word, n: nat)
    requires n <= |a|
    ensures Reflected(Reflected(a, n), n) == And(a, LowMask(|a|, n))
  {
  }

  // ----- Words as numbers -----

  function Pow2(n: nat): (r: nat)
    ensures r >= 1
  {
    if n == 0 then 1 else 2 * Pow2(n - 1)
  }

  function ToNat(a: Word): nat {
    if a == [] then 0 else (if a[0] then 1 else 0) + 2 * ToNat(a[1..])
  }

  function FromNat(n: nat, digits: nat): (w: Word)
    ensures |w| == digits
  {
    if digits == 0 then [] else [n % 2 == 1] + FromNat(n / 2, digits - 1)
  }

  lemma {:induction false} ToNatBound(a: Word)
    ensures ToNat(a) < Pow2(|a|)
  {
    if a != [] {
      ToNatBound(a[1..]);
    }
  }

  lemma {:induction false} FromNatToNat(a: Word)
    ensures FromNat(ToNat(a), |a|) == a
  {
    if a != [] {
      FromNatToNat(a[1..]);
    }
  }

  lemma {:induction false} ToNatFromNat(n: nat, digits: nat)
    requires n < Pow2(digits)
    ensures ToNat(FromNat(n, digits)) == n
  {
    if digits > 0 {
      ToNatFromNat(n / 2, digits - 1);
    }
  }

  function ByteOf(n: nat): (b: Byte)
    requires n < 256
  {
    FromNat(n, 8)
  }

  function IndexOf(b: Byte): (n: nat)
    ensures n < 256
    ensures ByteOf(n) == b
  {
    ToNatBound(b);
    FromNatToNat(b);
    assert Pow2(8) == 256;
    ToNat(b)
  }

  lemma IndexOfByteOf(n: nat)
    requires n < 256
    ensures IndexOf(ByteOf(n)) == n
  {
    assert Pow2(8) == 256;
    ToNatFromNat(n, 8);
  }
}
