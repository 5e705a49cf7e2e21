/** The base64 alphabets (tables 1 and 2 of RFC 4648) and the branch-free maps that compute them.
    A text character is a signed `char`, so it is a number from -128 to 127. */
module Base64Letters {
  import opened Bytes
  import opened Digits

  const WORD := 0x1_0000_0000

  type Char = n: int | -0x80 <= n < 0x80

  // ------------------------------------------------------------------ the alphabets

  /** The character of a digit. */
  function Letter(x: Sextet, urlsafe: bool): (c: Char)
    ensures 0 < c
  {
    if x < 26 then x + 'A' as int
    else if x < 52 then x - 26 + 'a' as int
    else if x < 62 then x - 52 + '0' as int
    else if x == 62 then (if urlsafe then '-' as int else '+' as int)
    else if urlsafe then '_' as int else '/' as int
  }

  datatype MaybeSextet = Some(x: Sextet) | None

  /** The digit of a character. Outside ASCII the code always answers 63. */
  function FromLetter(c: Char, urlsafe: bool): MaybeSextet {
    if c < 0 then Some(63)
    else if 'A' as int <= c <= 'Z' as int then Some(c - 'A' as int)
    else if 'a' as int <= c <= 'z' as int then Some(c - 'a' as int + 26)
    else if '0' as int <= c <= '9' as int then Some(c - '0' as int + 52)
    else if c == (if urlsafe then '-' as int else '+' as int) then Some(62)
    else if c == (if urlsafe then '_' as int else '/' as int) then Some(63)
    else None
  }

  /** The two maps are inverse on ASCII, and there only. */
  lemma LetterRoundTrip(x: Sextet, c: Char, urlsafe: bool)
    ensures FromLetter(Letter(x, urlsafe), urlsafe) == Some(x)
    ensures FromLetter(c, urlsafe).Some? ==>
              (Letter(FromLetter(c, urlsafe).x, urlsafe) == c <==> c >= 0)
    ensures FromLetter('=' as int, urlsafe).None? && FromLetter(0, urlsafe).None?
  {}

  // ------------------------------------------------------------------ the comparison macros

  /** A 32-bit word xor a byte. */
  function XorLow(w: nat, y: Byte): nat { w / 0x100 * 0x100 + XorByte(w % 0x100, y) }

  /** EQ(x, y) */
  function Eq(x: int, y: Byte): Byte {
    XorByte((0 - XorLow(x % WORD, y)) % WORD / 0x100 % 0x100, 0xff)
  }

  /** GT(x, y) */
  function Gt(x: int, y: int): Byte { (y - x) % WORD / 0x100 % 0x100 }

  /** GE(x, y) */
  function Ge(x: int, y: int): Byte { XorByte(Gt(y, x), 0xff) }

  function Mask(c: bool): Byte { if c then 0xff else 0 }

  lemma SecondByte(d: int)
    requires -0x100 <= d < 0x100
    ensures d % WORD / 0x100 % 0x100 == (if d < 0 then 0xff else 0)
  {
    if d < 0 {
      assert d % WORD == WORD + d;
      assert (WORD + d) / 0x100 == 0xffffff;
    }
  }

  lemma XorOnes(c: bool)
    ensures XorByte(Mask(c), 0xff) == Mask(!c)
  {
    assert XorByte(0, 0xff) == 0xff;
    assert XorByte(0xff, 0xff) == 0;
  }

  lemma GtIsMask(x: int, y: int)
    requires -0x100 <= y - x < 0x100
    ensures Gt(x, y) == Mask(x > y)
  {
    SecondByte(y - x);
  }

  lemma GeIsMask(x: int, y: int)
    requires -0x100 <= x - y < 0x100
    ensures Ge(x, y) == Mask(x >= y)
  {
    hide XorByte, Gt;
    GtIsMask(y, x);
    XorOnes(y > x);
  }

  /** Equality is decided for 0..255; a negative left side equals everything. */
  lemma EqIsMask(x: int, y: Byte)
    requires -0x80 <= x < 0x100 && (x < 0 ==> y < 0x80)
    ensures Eq(x, y) == Mask(x < 0 || x == y)
  {
    hide XorByte;
    var w: nat := x % WORD;
    var low: Byte := w % 0x100;
    XorByteLaws(low, y);
    var v: int := XorByte(low, y);
    if x < 0 {
      assert w == WORD + x;
      assert w / 0x100 * 0x100 == WORD - 0x100 && w % 0x100 == 0x100 + x;
      assert (0 - (WORD - 0x100 + v)) % WORD == 0x100 - v by {
        assert 0 - (WORD - 0x100 + v) == -1 * WORD + (0x100 - v);
      }
      XorOnes(false);
    } else {
      assert w == x && w / 0x100 == 0;
      SecondByte(-v);
      XorOnes(v != 0);
    }
  }

  // ------------------------------------------------------------------ the branch-free maps

  /** b64_byte_to_char and b64_byte_to_urlsafe_char: GE masks select one of five sums. */
  function ByteToChar(x: Sextet, urlsafe: bool): Byte {
    OrByte(OrByte(OrByte(OrByte(
      AndByte(Gt(26, x), (x + 'A' as int) % 0x100),
      AndByte(AndByte(Ge(x, 26), Gt(52, x)), (x + ('a' as int - 26)) % 0x100)),
      AndByte(AndByte(Ge(x, 52), Gt(62, x)), (x + ('0' as int - 52)) % 0x100)),
      AndByte(Eq(x, 62), if urlsafe then '-' as int else '+' as int)),
      AndByte(Eq(x, 63), if urlsafe then '_' as int else '/' as int))
  }

  function CharBits(c: Char, urlsafe: bool): Byte {
    OrByte(OrByte(OrByte(OrByte(
      AndByte(AndByte(Ge(c, 'A' as int), Ge('Z' as int, c)), (c - 'A' as int) % 0x100),
      AndByte(AndByte(Ge(c, 'a' as int), Ge('z' as int, c)), (c - ('a' as int - 26)) % 0x100)),
      AndByte(AndByte(Ge(c, '0' as int), Ge('9' as int, c)), (c - ('0' as int - 52)) % 0x100)),
      AndByte(Eq(c, if urlsafe then '-' as int else '+' as int), 62)),
      AndByte(Eq(c, if urlsafe then '_' as int else '/' as int), 63))
  }

  /** b64_char_to_byte and b64_urlsafe_char_to_byte: 0xFF for a character outside the alphabet. */
  function CharToByte(c: Char, urlsafe: bool): Byte {
    var x := CharBits(c, urlsafe);
    OrByte(x, AndByte(Eq(x, 0), XorByte(Eq(c, 'A' as int), 0xff)))
  }

  /** What five masked terms joined by `|` give when at most one mask is set. */
  lemma Select(m: seq<bool>, v: seq<Byte>, k: nat)
    requires |m| == |v| == 5 && k <= 5
    requires forall i :: 0 <= i < 5 ==> m[i] == (i == k)
    ensures OrByte(OrByte(OrByte(OrByte(
              AndByte(Mask(m[0]), v[0]), AndByte(Mask(m[1]), v[1])), AndByte(Mask(m[2]), v[2])),
              AndByte(Mask(m[3]), v[3])), AndByte(Mask(m[4]), v[4])) == if k < 5 then v[k] else 0
  {
    hide AndByte, OrByte;
    forall i | 0 <= i < 5 ensures AndByte(Mask(m[i]), v[i]) == if m[i] then v[i] else 0 {
      AndMask(m[i], v[i]);
    }
    MaskByte(0);
    if k < 5 { MaskByte(v[k]); }
  }

  lemma AndMask(c: bool, x: Byte)
    ensures AndByte(Mask(c), x) == if c then x else 0
  {
    AndByteComm(Mask(c), x);
    MaskByte(x);
    hide AndByte;
  }

  lemma AndMasks(c: bool, d: bool)
    ensures AndByte(Mask(c), Mask(d)) == Mask(c && d)
  {
    AndMask(c, Mask(d));
  }

  /** The encoder's map is the alphabet. */
  lemma ByteToCharIsLetter(x: Sextet, urlsafe: bool)
    ensures ByteToChar(x, urlsafe) == Letter(x, urlsafe)
  {
    hide AndByte, OrByte, XorByte, Gt, Ge, Eq;
    GtIsMask(26, x); GtIsMask(52, x); GtIsMask(62, x);
    GeIsMask(x, 26); GeIsMask(x, 52);
    EqIsMask(x, 62); EqIsMask(x, 63);
    AndMasks(x >= 26, 52 > x);
    AndMasks(x >= 52, 62 > x);
    var k := if x < 26 then 0 else if x < 52 then 1 else if x < 62 then 2 else if x == 62 then 3 else 4;
    Select([26 > x, x >= 26 && 52 > x, x >= 52 && 62 > x, x == 62, x == 63],
           [(x + 'A' as int) % 0x100, (x + ('a' as int - 26)) % 0x100, (x + ('0' as int - 52)) % 0x100,
            if urlsafe then '-' as int else '+' as int, if urlsafe then '_' as int else '/' as int], k);
  }

  lemma CharBitsIsDigit(c: Char, urlsafe: bool)
    ensures CharBits(c, urlsafe) == if FromLetter(c, urlsafe).Some? then FromLetter(c, urlsafe).x else 0
  {
    hide AndByte, OrByte, XorByte, Gt, Ge, Eq;
    var p: Byte, q: Byte := if urlsafe then '-' as int else '+' as int, if urlsafe then '_' as int else '/' as int;
    GeIsMask(c, 'A' as int); GeIsMask('Z' as int, c);
    GeIsMask(c, 'a' as int); GeIsMask('z' as int, c);
    GeIsMask(c, '0' as int); GeIsMask('9' as int, c);
    EqIsMask(c, p); EqIsMask(c, q);
    AndMasks(c >= 'A' as int, 'Z' as int >= c);
    AndMasks(c >= 'a' as int, 'z' as int >= c);
    AndMasks(c >= '0' as int, '9' as int >= c);
    var v0: Byte, v1: Byte, v2: Byte :=
      (c - 'A' as int) % 0x100, (c - ('a' as int - 26)) % 0x100, (c - ('0' as int - 52)) % 0x100;
    if c < 0 {
      NegativeBits(v0, v1, v2);
    } else {
      var u, l, d := 'A' as int <= c <= 'Z' as int, 'a' as int <= c <= 'z' as int, '0' as int <= c <= '9' as int;
      var k := if u then 0 else if l then 1 else if d then 2 else if c == p then 3 else if c == q then 4 else 5;
      Select([u, l, d, c == p, c == q], [v0, v1, v2, 62, 63], k);
    }
  }

  lemma {:induction false} OrBitsSelf(x: nat, k: nat)
    requires x < Pow2(k)
    ensures OrBits(x, x, k) == x
    decreases k
  {
    if k > 0 { OrBitsSelf(x / 2, k - 1); }
  }

  lemma NegativeBits(v0: Byte, v1: Byte, v2: Byte)
    ensures OrByte(OrByte(OrByte(OrByte(AndByte(0, v0), AndByte(0, v1)), AndByte(0, v2)),
                                 AndByte(0xff, 62)), AndByte(0xff, 63)) == 63
  {
    OrBitsSelf(31, 7);
    assert OrByte(62, 63) == 2 * OrBits(31, 31, 7) + 1;
    hide AndByte, OrByte;
    AndMask(false, v0); AndMask(false, v1); AndMask(false, v2); AndMask(true, 62); AndMask(true, 63);
    MaskByte(0); MaskByte(62);
  }

  /** The decoder's map is the inverse of the alphabet, 0xFF outside it, and 63 outside ASCII. */
  lemma CharToByteIsDigit(c: Char, urlsafe: bool)
    ensures CharToByte(c, urlsafe) ==
            if FromLetter(c, urlsafe).Some? then FromLetter(c, urlsafe).x else 0xff
  {
    hide AndByte, OrByte, XorByte, Eq, CharBits;
    CharBitsIsDigit(c, urlsafe);
    var x := CharBits(c, urlsafe);
    EqIsMask(x, 0); EqIsMask(c, 'A' as int);
    XorOnes(c < 0 || c == 'A' as int);
    AndMasks(x == 0, !(c < 0 || c == 'A' as int));
    MaskByte(x); MaskByte(0xff);
  }
}
