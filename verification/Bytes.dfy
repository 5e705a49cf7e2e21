/** Bytes as the integers 0..255, with the bitwise operators the code uses on them, and
    fixed-width big-endian forms. */
module Bytes {

  type Byte = n: int | 0 <= n < 0x100

  type Bytes = seq<Byte>

  /** The k low bits of x, most significant first. */
  function Bits(x: nat, k: nat): (s: seq<bool>)
    ensures |s| == k
  {
    if k == 0 then [] else Bits(x / 2, k - 1) + [x % 2 == 1]
  }

  function FromBits(s: seq<bool>): nat {
    if s == [] then 0 else 2 * FromBits(s[..|s| - 1]) + (if s[|s| - 1] then 1 else 0)
  }

  function Pow2(k: nat): nat { if k == 0 then 1 else 2 * Pow2(k - 1) }

  lemma {:induction false} FromBitsBound(s: seq<bool>)
    ensures FromBits(s) < Pow2(|s|)
    decreases |s|
  {
    if s != [] { FromBitsBound(s[..|s| - 1]); }
  }

  lemma {:induction false} BitsFromBits(s: seq<bool>)
    ensures Bits(FromBits(s), |s|) == s
    decreases |s|
  {
    if s != [] { BitsFromBits(s[..|s| - 1]); }
  }

  lemma {:induction false} FromBitsBits(x: nat, k: nat)
    requires x < Pow2(k)
    ensures FromBits(Bits(x, k)) == x
    decreases k
  {
    if k > 0 {
      FromBitsBits(x / 2, k - 1);
      assert Bits(x, k)[..k - 1] == Bits(x / 2, k - 1);
    }
  }

  function ByteFromBits(s: seq<bool>): Byte
    requires |s| == 8
  {
    FromBitsBound(s);
    assert Pow2(8) == 0x100;
    FromBits(s)
  }

  // ------------------------------------------------------------------ bitwise operators

  /** Bitwise exclusive or of the k low bits. */
  function XorBits(x: nat, y: nat, k: nat): (r: nat)
    ensures r < Pow2(k)
  {
    if k == 0 then 0 else 2 * XorBits(x / 2, y / 2, k - 1) + (if x % 2 == y % 2 then 0 else 1)
  }

  /** Bitwise or of the k low bits. */
  function OrBits(x: nat, y: nat, k: nat): (r: nat)
    ensures r < Pow2(k)
  {
    if k == 0 then 0 else 2 * OrBits(x / 2, y / 2, k - 1) + (if x % 2 + y % 2 > 0 then 1 else 0)
  }

  /** Bitwise and of the k low bits. */
  function AndBits(x: nat, y: nat, k: nat): (r: nat)
    ensures r < Pow2(k)
  {
    if k == 0 then 0 else 2 * AndBits(x / 2, y / 2, k - 1) + (if x % 2 + y % 2 == 2 then 1 else 0)
  }

  function XorBit(a: nat, b: nat): (r: nat)
    ensures r < 2
  { if a == b then 0 else 1 }

  function OrBit(a: nat, b: nat): (r: nat)
    ensures r < 2
  { if a + b > 0 then 1 else 0 }

  function AndBit(a: nat, b: nat): (r: nat)
    ensures r < 2
  { if a + b == 2 then 1 else 0 }

  /** One more low bit in each operand. */
  lemma BitStep(x: nat, a: nat, y: nat, b: nat, k: nat)
    requires a < 2 && b < 2
    ensures XorBits(2 * x + a, 2 * y + b, k + 1) == 2 * XorBits(x, y, k) + XorBit(a, b)
    ensures OrBits(2 * x + a, 2 * y + b, k + 1) == 2 * OrBits(x, y, k) + OrBit(a, b)
    ensures AndBits(2 * x + a, 2 * y + b, k + 1) == 2 * AndBits(x, y, k) + AndBit(a, b)
  {
    assert (2 * x + a) / 2 == x && (2 * y + b) / 2 == y;
  }

  lemma {:induction false} AndBitsSelf(x: nat, k: nat)
    requires x < Pow2(k)
    ensures AndBits(x, x, k) == x
    decreases k
  {
    if k > 0 { AndBitsSelf(x / 2, k - 1); }
  }

  lemma {:induction false} AndBitsComm(x: nat, y: nat, k: nat)
    ensures AndBits(x, y, k) == AndBits(y, x, k)
  {
    if k > 0 { AndBitsComm(x / 2, y / 2, k - 1); }
  }

  lemma {:induction false} AndBitsZero(x: nat, k: nat)
    ensures AndBits(x, 0, k) == 0
    decreases k
  {
    if k > 0 { AndBitsZero(x / 2, k - 1); }
  }

  lemma {:induction false} OrBitsNothing(x: nat, k: nat)
    requires x < Pow2(k)
    ensures OrBits(x, 0, k) == OrBits(0, x, k) == x
    decreases k
  {
    if k > 0 { OrBitsNothing(x / 2, k - 1); }
  }

  /** x & (b - 1) is x % b when b & (b - 1) is zero. */
  lemma {:induction false} AndIsMod(x: nat, b: nat, k: nat)
    requires x < Pow2(k) && 0 < b < Pow2(k) && AndBits(b, b - 1, k) == 0
    ensures AndBits(x, b - 1, k) == x % b
    decreases k
  {
    var h := b / 2;
    if b % 2 == 1 {
      assert (b - 1) / 2 == h;
      AndBitsSelf(h, k - 1);
      assert b == 1;
      AndBitsZero(x, k);
    } else {
      assert (b - 1) / 2 == h - 1 && b == 2 * h;
      AndIsMod(x / 2, h, k - 1);
      ModDouble(x, h);
    }
  }

  lemma ModDouble(x: nat, h: nat)
    requires h > 0
    ensures x % (2 * h) == 2 * (x / 2 % h) + x % 2
  {
    var q, r := x / 2 / h, x / 2 % h;
    assert x / 2 == q * h + r;
    assert x == q * (2 * h) + (2 * r + x % 2);
    RemainderUnique(x, q, 2 * h, 2 * r + x % 2);
  }

  lemma RemainderUnique(x: int, q: int, b: int, r: int)
    requires 0 <= r < b && x == q * b + r
    ensures x % b == r && x / b == q
  {
    var q', r' := x / b, x % b;
    assert (q - q') * b == r' - r;
    SmallMultiple(q - q', b);
  }

  lemma SmallMultiple(k: int, b: int)
    requires -b < k * b < b
    ensures k == 0
  {}

  lemma {:induction false} XorBitsTwice(x: nat, y: nat, k: nat)
    requires x < Pow2(k)
    ensures XorBits(XorBits(x, y, k), y, k) == x
    decreases k
  {
    if k > 0 { XorBitsTwice(x / 2, y / 2, k - 1); }
  }

  lemma {:induction false} XorBitsNothing(x: nat, k: nat)
    requires x < Pow2(k)
    ensures XorBits(x, 0, k) == x == XorBits(0, x, k)
    decreases k
  {
    if k > 0 { XorBitsNothing(x / 2, k - 1); }
  }

  lemma {:induction false} XorBitsComm(x: nat, y: nat, k: nat)
    ensures XorBits(x, y, k) == XorBits(y, x, k)
    decreases k
  {
    if k > 0 { XorBitsComm(x / 2, y / 2, k - 1); }
  }

  lemma {:induction false} XorBitsZero(x: nat, y: nat, k: nat)
    requires x < Pow2(k) && y < Pow2(k)
    ensures XorBits(x, y, k) == 0 <==> x == y
    decreases k
  {
    if k > 0 { XorBitsZero(x / 2, y / 2, k - 1); }
  }

  lemma {:induction false} OrBitsZero(x: nat, y: nat, k: nat)
    requires x < Pow2(k) && y < Pow2(k)
    ensures OrBits(x, y, k) == 0 <==> x == 0 && y == 0
    decreases k
  {
    if k > 0 { OrBitsZero(x / 2, y / 2, k - 1); }
  }

  function XorByte(x: Byte, y: Byte): Byte {
    assert Pow2(8) == 0x100;
    XorBits(x, y, 8)
  }

  function OrByte(x: Byte, y: Byte): Byte {
    assert Pow2(8) == 0x100;
    OrBits(x, y, 8)
  }

  function AndByte(x: Byte, y: Byte): Byte {
    assert Pow2(8) == 0x100;
    AndBits(x, y, 8)
  }

  lemma MaskByte(x: Byte)
    ensures AndByte(x, 0) == 0 && AndByte(x, 0xff) == x && OrByte(x, 0) == OrByte(0, x) == x
  {
    assert Pow2(8) == 0x100;
    AndBitsZero(x, 8);
    AndBitsOnes(x, 8);
    assert Pow2(8) - 1 == 0xff;
    OrBitsNothing(x, 8);
    hide AndBits, OrBits;
  }

  lemma AndByteComm(x: Byte, y: Byte)
    ensures AndByte(x, y) == AndByte(y, x)
  {
    AndBitsComm(x, y, 8);
  }

  lemma {:induction false} AndBitsOnes(x: nat, k: nat)
    requires x < Pow2(k)
    ensures AndBits(x, Pow2(k) - 1, k) == x
    decreases k
  {
    if k > 0 {
      assert (Pow2(k) - 1) / 2 == Pow2(k - 1) - 1;
      AndBitsOnes(x / 2, k - 1);
    }
  }

  lemma XorByteLaws(x: Byte, y: Byte)
    ensures XorByte(XorByte(x, y), y) == x
    ensures XorByte(x, y) == XorByte(y, x)
    ensures XorByte(x, y) == 0 <==> x == y
  {
    hide XorBits;
    assert Pow2(8) == 0x100;
    XorBitsTwice(x, y, 8);
    XorBitsComm(x, y, 8);
    XorBitsZero(x, y, 8);
  }

  lemma OrByteZero(x: Byte, y: Byte)
    ensures OrByte(x, y) == 0 <==> x == 0 && y == 0
  {
    hide OrBits;
    assert Pow2(8) == 0x100;
    OrBitsZero(x, y, 8);
  }

  function XorBytes(x: Bytes, y: Bytes): (r: Bytes)
    requires |x| == |y|
    ensures |r| == |x|
  {
    seq(|x|, i requires 0 <= i < |x| => XorByte(x[i], y[i]))
  }

  function Zeros(n: nat): (r: Bytes)
    ensures |r| == n
  {
    seq(n, i => 0)
  }

  // ------------------------------------------------------------------ big-endian forms

  /** The k-byte big-endian form of n. */
  function Be(n: nat, k: nat): (b: Bytes)
    ensures |b| == k
  {
    if k == 0 then [] else Be(n / 0x100, k - 1) + [n % 0x100]
  }

  function FromBe(b: Bytes): nat {
    if b == [] then 0 else FromBe(b[..|b| - 1]) * 0x100 + b[|b| - 1]
  }

  function Pow256(k: nat): (p: nat)
    ensures p > 0
  {
    if k == 0 then 1 else 0x100 * Pow256(k - 1)
  }

  lemma {:induction false} FromBeBe(n: nat, k: nat)
    requires n < Pow256(k)
    ensures FromBe(Be(n, k)) == n
    decreases k
  {
    if k > 0 {
      FromBeBe(n / 0x100, k - 1);
      assert Be(n, k)[..k - 1] == Be(n / 0x100, k - 1);
    }
  }
}
