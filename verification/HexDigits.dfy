/** The hexadecimal alphabet (section 8 of RFC 4648, lower case) and the branch-free maps that compute
    it. Characters are bytes: the decoder casts them to `unsigned char` first. */
module HexDigits {
  import opened Bytes
  import opened Digits

  const WORD := 0x1_0000_0000

  type Nibble = n: int | 0 <= n < 0x10

  // ------------------------------------------------------------------ the alphabet

  function HexDigit(n: Nibble): Byte {
    if n < 10 then n + '0' as int else n - 10 + 'a' as int
  }

  datatype MaybeNibble = Some(n: Nibble) | None

  function FromHex(c: Byte): MaybeNibble {
    if '0' as int <= c <= '9' as int then Some(c - '0' as int)
    else if 'A' as int <= c <= 'F' as int then Some(c - 'A' as int + 10)
    else if 'a' as int <= c <= 'f' as int then Some(c - 'a' as int + 10)
    else None
  }

  function Lower(c: Byte): Byte {
    if 'A' as int <= c <= 'Z' as int then c + 32 else c
  }

  lemma DigitRoundTrip(n: Nibble, c: Byte)
    ensures FromHex(HexDigit(n)) == Some(n) && Lower(HexDigit(n)) == HexDigit(n)
    ensures FromHex(c).Some? ==> HexDigit(FromHex(c).n) == Lower(c)
  {}

  const LOWER := "0123456789abcdef"
  const UPPER := "0123456789ABCDEF"

  /** The alphabets, letter by letter: the encoder writes the first, the decoder reads both. */
  lemma Alphabets(n: Nibble, c: Byte)
    ensures HexDigit(n) == LOWER[n] as int
    ensures FromHex(c) == Some(n) <==> c == LOWER[n] as int || c == UPPER[n] as int
  {}

  // ------------------------------------------------------------------ words and their bytes

  /** The j low bits of x. */
  function Low(x: nat, j: nat): nat { if j == 0 then 0 else 2 * Low(x / 2, j - 1) + x % 2 }

  lemma LowNothing(z: nat, x: nat, y: nat)
    ensures Low(z, 0) == AndBits(x, y, 0) == XorBits(x, y, 0) == 0
  {}

  lemma LowStep(x: nat, b: nat, j: nat)
    requires b < 2
    ensures Low(2 * x + b, j + 1) == 2 * Low(x, j) + b
  {
    assert (2 * x + b) / 2 == x;
  }

  lemma {:induction false} LowIsModPow(x: nat, j: nat)
    ensures Pow2(j) > 0 && Low(x, j) == x % Pow2(j)
    decreases j
  {
    Pow2Positive(j);
    if j > 0 {
      LowIsModPow(x / 2, j - 1);
      ModDouble(x, Pow2(j - 1));
    }
  }

  lemma LowIsMod(x: nat)
    ensures Low(x, 8) == x % 0x100
  {
    assert Pow2(8) == 0x100;
    LowIsModPow(x, 8);
    hide Low;
  }

  lemma AndLowStep(x: nat, a: nat, y: nat, b: nat, j: nat, k: nat)
    requires a < 2 && b < 2 && Low(AndBits(x, y, k), j) == AndBits(Low(x, j), Low(y, j), j)
    ensures (Low(AndBits(2 * x + a, 2 * y + b, k + 1), j + 1)
      == AndBits(Low(2 * x + a, j + 1), Low(2 * y + b, j + 1), j + 1))
  {
    hide AndBits, Low, AndBit, Pow2;
    BitStep(x, a, y, b, k);
    LowStep(x, a, j); LowStep(y, b, j); LowStep(AndBits(x, y, k), AndBit(a, b), j);
    BitStep(Low(x, j), a, Low(y, j), b, j);
  }

  lemma {:induction false} AndLow(x: nat, y: nat, j: nat, k: nat)
    requires j <= k
    ensures Low(AndBits(x, y, k), j) == AndBits(Low(x, j), Low(y, j), j)
    decreases j
  {
    hide AndBits, Low, Pow2;
    if j > 0 {
      AndLow(x / 2, y / 2, j - 1, k - 1);
      AndLowStep(x / 2, x % 2, y / 2, y % 2, j - 1, k - 1);
      assert x == 2 * (x / 2) + x % 2 && y == 2 * (y / 2) + y % 2;
    } else {
      LowNothing(AndBits(x, y, k), Low(x, 0), Low(y, 0));
    }
  }

  lemma XorLowStep(x: nat, a: nat, y: nat, b: nat, j: nat, k: nat)
    requires a < 2 && b < 2 && Low(XorBits(x, y, k), j) == XorBits(Low(x, j), Low(y, j), j)
    ensures (Low(XorBits(2 * x + a, 2 * y + b, k + 1), j + 1)
      == XorBits(Low(2 * x + a, j + 1), Low(2 * y + b, j + 1), j + 1))
  {
    hide XorBits, Low, XorBit, Pow2;
    BitStep(x, a, y, b, k);
    LowStep(x, a, j); LowStep(y, b, j); LowStep(XorBits(x, y, k), XorBit(a, b), j);
    BitStep(Low(x, j), a, Low(y, j), b, j);
  }

  lemma {:induction false} XorLow(x: nat, y: nat, j: nat, k: nat)
    requires j <= k
    ensures Low(XorBits(x, y, k), j) == XorBits(Low(x, j), Low(y, j), j)
    decreases j
  {
    hide XorBits, Low, Pow2;
    if j > 0 {
      XorLow(x / 2, y / 2, j - 1, k - 1);
      XorLowStep(x / 2, x % 2, y / 2, y % 2, j - 1, k - 1);
      assert x == 2 * (x / 2) + x % 2 && y == 2 * (y / 2) + y % 2;
    } else {
      LowNothing(XorBits(x, y, k), Low(x, 0), Low(y, 0));
    }
  }

  lemma {:induction false} XorShr(x: nat, y: nat, j: nat, k: nat)
    requires j <= k
    ensures Shr(XorBits(x, y, k), j) == XorBits(Shr(x, j), Shr(y, j), k - j)
    decreases j
  {
    if j > 0 { XorShr(x / 2, y / 2, j - 1, k - 1); }
  }

  /** The second byte of a 32-bit exclusive or. */
  lemma SecondByteXor(x: nat, y: nat)
    ensures Upper(XorBits(x, y, 32)) % 0x100 == XorByte(Upper(x) % 0x100, Upper(y) % 0x100)
  {
    assert Pow2(8) == 0x100;
    XorShr(x, y, 8, 32);
    Shr8Div(x); Shr8Div(y); Shr8Div(XorBits(x, y, 32));
    XorLow(x / 0x100, y / 0x100, 8, 24);
    hide XorBits, Shr, Pow2, Low;
    LowIsMod(x / 0x100); LowIsMod(y / 0x100); LowIsMod(XorBits(x / 0x100, y / 0x100, 24));
  }

  function Mask(c: bool): Byte { if c then 0xff else 0 }

  /** An `unsigned int` difference, and its bits from the eighth on. */
  function Word(d: int): nat { d % WORD }

  function Upper(w: nat): nat { w / 0x100 }

  /** All ones exactly for a negative difference. */
  lemma SecondByte(d: int)
    requires -0x100 <= d < 0x100
    ensures Upper(Word(d)) == if d < 0 then 0xffffff else 0
    ensures Upper(Word(d)) % 0x100 == Mask(d < 0)
  {
    if d < 0 {
      assert d % WORD == WORD + d;
      assert (WORD + d) / 0x100 == 0xffffff;
    }
  }

  lemma MaskLaws(c: bool, x: Byte)
    ensures XorByte(Mask(c), Mask(false)) == Mask(c) && XorByte(Mask(false), Mask(true)) == 0xff
    ensures XorByte(Mask(c), Mask(c)) == 0
    ensures AndByte(Mask(c), x) == if c then x else 0
    ensures OrByte(Mask(c), 0) == Mask(c)
  {
    hide XorBits, AndBits, OrBits;
    MaskByte(x);
    MaskByte(Mask(c));
    AndBitsComm(Mask(c), x, 8);
    XorByteLaws(Mask(c), Mask(c));
    XorByteLaws(Mask(c), 0);
    XorByteLaws(0, 0xff);
    XorNothing(0xff);
  }

  lemma XorNothing(x: Byte)
    ensures XorByte(x, 0) == x == XorByte(0, x)
  {
    assert Pow2(8) == 0x100;
    XorBitsNothing(x, 8);
    hide XorBits;
  }

  // ------------------------------------------------------------------ the branch-free maps

  /** (unsigned char) (87U + c + (((c - 10U) >> 8) & ~38U)) */
  function NibbleChar(c: Nibble): Byte {
    (87 + c + AndBits(Upper(Word(c - 10)), WORD - 1 - 38, 32)) % 0x100
  }

  lemma AndLowByte(x: nat, y: nat)
    ensures AndBits(x, y, 32) % 0x100 == AndByte(x % 0x100, y % 0x100)
  {
    AndLow(x, y, 8, 32);
    hide AndBits, Low;
    LowIsMod(x); LowIsMod(y); LowIsMod(AndBits(x, y, 32));
  }

  lemma LowByteOfSum(x: nat, a: nat)
    ensures (x + a) % 0x100 == (x + a % 0x100) % 0x100
  {}

  lemma NibbleCharIsHexDigit(c: Nibble)
    ensures NibbleChar(c) == HexDigit(c)
  {
    hide AndBits, Pow2, Low, Word, Upper, AndByte;
    var m := Upper(Word(c - 10));
    var y: nat := WORD - 1 - 38;
    AndLowByte(m, y);
    assert y % 0x100 == 0xd9;
    SecondByte(c - 10);
    MaskLaws(c < 10, 0xd9);
    LowByteOfSum(87 + c, AndBits(m, y, 32));
  }

  /** c_num: c ^ 48U */
  function Num(c: Byte): Byte { XorByte(c, 48) }

  /** c_num0 */
  function NumMask(c: Byte): Byte { Upper(Word(Num(c) - 10)) % 0x100 }

  /** c_alpha: (c & ~32U) - 55U */
  function Alpha(c: Byte): Byte { (AndByte(c, 0xdf) - 55) % 0x100 }

  /** c_alpha0 */
  function AlphaMask(c: Byte): Byte {
    Upper(XorBits(Word(Alpha(c) - 10), Word(Alpha(c) - 16), 32)) % 0x100
  }

  /** c_val */
  function Val(c: Byte): Byte {
    OrByte(AndByte(NumMask(c), Num(c)), AndByte(AlphaMask(c), Alpha(c)))
  }

  lemma XorStep(x: nat, x': nat, h: nat, k: nat)
    requires x' == x / 2
    ensures XorBits(x, 2 * h, k + 1) == 2 * XorBits(x', h, k) + x % 2
  {}

  lemma XorHalves(c: Byte, h: nat)
    ensures XorBits(c, 16 * h, 8) == 16 * XorBits(c / 16, h, 4) + c % 16
  {
    hide XorBits;
    var c1, c2, c3, c4 := c / 2, c / 4, c / 8, c / 16;
    Halve(c, c1); Halve(c1, c2); Halve(c2, c3); Halve(c3, c4);
    XorStep(c3, c4, h, 4);
    XorStep(c2, c3, 2 * h, 5);
    assert XorBits(c2, 4 * h, 6) == c2 - 4 * c4 + 4 * XorBits(c4, h, 4);
    XorStep(c1, c2, 4 * h, 6);
    XorStep(c, c1, 8 * h, 7);
  }

  lemma NumIsDigit(c: Byte)
    ensures NumMask(c) == Mask('0' as int <= c <= '9' as int)
    ensures '0' as int <= c <= '9' as int ==> Num(c) == c - '0' as int
  {
    XorHalves(c, 3);
    assert Pow2(4) == 16;
    XorBitsZero(c / 16, 3, 4);
    hide XorBits;
    SecondByte(Num(c) - 10);
  }

  lemma AndBitsTwo(x: nat)
    requires x < 4
    ensures AndBits(x, 3, 2) == x
  {
    AndBitsOnes(x, 2);
  }

  lemma Halve(c: nat, h: nat)
    requires h <= c && 2 * h <= c < 2 * h + 2
    ensures c / 2 == h && c % 2 == c - 2 * h
  {}

  lemma AndStep(x: nat, x': nat, y: nat, y': nat, k: nat)
    requires k > 0 && x' == x / 2 && y' == y / 2
    ensures AndBits(x, y, k) == 2 * AndBits(x', y', k - 1) + if y % 2 == 0 then 0 else x % 2
  {}

  lemma ClearLow(c: nat, c1: nat, c2: nat, c3: nat, c4: nat, c5: nat)
    requires c1 == c / 2 && c2 == c1 / 2 && c3 == c2 / 2 && c4 == c3 / 2 && c5 == c4 / 2
    ensures AndBits(c, 0xdf, 8) == c - 32 * c5 + 32 * AndBits(c5, 6, 3)
  {
    hide AndBits;
    AndStep(c4, c5, 13, 6, 4);
    assert AndBits(c4, 13, 4) == c4 - 2 * c5 + 2 * AndBits(c5, 6, 3);
    AndStep(c3, c4, 27, 13, 5);
    assert AndBits(c3, 27, 5) == c3 - 4 * c5 + 4 * AndBits(c5, 6, 3);
    AndStep(c2, c3, 55, 27, 6);
    assert AndBits(c2, 55, 6) == c2 - 8 * c5 + 8 * AndBits(c5, 6, 3);
    AndStep(c1, c2, 111, 55, 7);
    assert AndBits(c1, 111, 7) == c1 - 16 * c5 + 16 * AndBits(c5, 6, 3);
    AndStep(c, c1, 0xdf, 111, 8);
  }

  lemma ClearBitFive(c: Byte)
    ensures AndByte(c, 0xdf) == 64 * (c / 64) + c % 32
  {
    hide AndBits, Pow2;
    var c1, c2, c3, c4, c5, x := c / 2, c / 4, c / 8, c / 16, c / 32, c / 64;
    Halve(c, c1); Halve(c1, c2); Halve(c2, c3); Halve(c3, c4); Halve(c4, c5); Halve(c5, x);
    ClearLow(c, c1, c2, c3, c4, c5);
    AndBitsTwo(x);
    AndStep(c5, x, 6, 3, 3);
  }

  lemma AlphaValue(c: Byte)
    ensures 10 <= Alpha(c) < 16 <==> 'A' as int <= c <= 'F' as int || 'a' as int <= c <= 'f' as int
    ensures 'A' as int <= c <= 'F' as int ==> Alpha(c) == c - 'A' as int + 10
    ensures 'a' as int <= c <= 'f' as int ==> Alpha(c) == c - 'a' as int + 10
  {
    hide AndByte;
    ClearBitFive(c);
    AlphaCases(c, c / 64, c / 32 % 2, c % 32, Alpha(c));
  }

  lemma AlphaCases(c: Byte, a: int, h: int, r: int, x: int)
    requires c == 64 * a + 32 * h + r && 0 <= h < 2 && 0 <= r < 32 && x == (64 * a + r - 55) % 0x100
    ensures 10 <= x < 16 <==> 'A' as int <= c <= 'F' as int || 'a' as int <= c <= 'f' as int
    ensures 'A' as int <= c <= 'F' as int ==> x == c - 'A' as int + 10
    ensures 'a' as int <= c <= 'f' as int ==> x == c - 'a' as int + 10
  {
    if a == 0 {
      assert 201 <= x <= 232;
    } else {
      assert x == 64 * a + r - 55;
    }
  }

  lemma AlphaIsLetter(c: Byte)
    ensures AlphaMask(c) == Mask('A' as int <= c <= 'F' as int || 'a' as int <= c <= 'f' as int)
  {
    AlphaValue(c);
    hide XorBits, Alpha, Word, Upper, XorByte;
    var x: int, y: int := Alpha(c) - 10, Alpha(c) - 16;
    SecondByteXor(Word(x), Word(y));
    SecondByte(x);
    SecondByte(y);
    MaskLaws(x < 0, 0);
    XorByteLaws(Mask(x < 0), Mask(y < 0));
  }

  /** The branch-free tests recognise the digits of either case and give their values. */
  lemma ValIsDigit(c: Byte)
    ensures OrByte(NumMask(c), AlphaMask(c)) == 0 <==> FromHex(c).None?
    ensures FromHex(c).Some? ==> Val(c) == FromHex(c).n
  {
    NumIsDigit(c);
    AlphaIsLetter(c);
    AlphaValue(c);
    OrByteZero(NumMask(c), AlphaMask(c));
    MaskLaws('0' as int <= c <= '9' as int, Num(c));
    MaskLaws(AlphaMask(c) == 0xff, Alpha(c));
    MaskByte(Num(c));
    MaskByte(Alpha(c));
    hide NumMask, AlphaMask, Num, Alpha, AndByte, OrByte;
  }

  lemma OrNibbleNothing(h: Nibble)
    ensures OrBits(h, 0, 4) == h
  {
    assert Pow2(4) == 16;
    OrBitsNothing(h, 4);
  }

  lemma OrStep(h: nat, x: nat, x': nat, k: nat)
    requires x' == x / 2
    ensures OrBits(2 * h, x, k + 1) == 2 * OrBits(h, x', k) + x % 2
  {}

  /** c_acc | c_val joins two nibbles. */
  lemma OrNibbles(h: Nibble, l: Nibble)
    ensures OrByte(h * 16, l) == 16 * h + l
  {
    hide OrBits;
    var l1, l2, l3 := l / 2, l / 4, l / 8;
    Halve(l, l1); Halve(l1, l2); Halve(l2, l3); Halve(l3, 0);
    OrNibbleNothing(h);
    OrStep(h, l3, 0, 4);
    OrStep(2 * h, l2, l3, 5);
    assert OrBits(4 * h, l2, 6) == 4 * h + l2;
    OrStep(4 * h, l1, l2, 6);
    OrStep(8 * h, l, l1, 7);
  }
}
