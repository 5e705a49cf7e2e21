/** The base64 codec: an encoder and a decoder that move eight and six bits at a time through a
    32-bit accumulator, against the reading of RFC 4648 in which a text is a number in base 64. */
module Base64 {
  import opened Bytes
  import opened Digits
  import opened Base64Letters

  type Text = seq<Char>

  const PAD: Char := '=' as int

  /** The four variants; any other number aborts the program. */
  datatype Variant = Variant(urlsafe: bool, padded: bool)

  // ------------------------------------------------------------------ what encoding means

  /** How many digits hold n bytes. */
  function DigitCount(n: nat): nat { (8 * n + 5) / 6 }

  /** By groups of three bytes. */
  lemma DigitGroups(n: nat, q: nat, r: nat)
    requires n == 3 * q + r && r < 3
    ensures DigitCount(n) == 4 * q + if r == 0 then 0 else r + 1
  {
    assert 8 * n + 5 == 6 * (4 * q) + (8 * r + 5);
  }

  /** The zero bits that fill the last digit. */
  function Slack(n: nat): (k: nat)
    ensures 8 * n + k == 6 * DigitCount(n) && k in {0, 2, 4}
  {
    DigitGroups(n, n / 3, n % 3);
    6 * DigitCount(n) - 8 * n
  }

  /** The digits of the bytes read as one number, shifted to a whole number of digits. */
  function DigitsOf(b: Bytes): (d: seq<Sextet>)
    ensures |d| == DigitCount(|b|)
  {
    Sextets(Shl(FromBe(b), Slack(|b|)), DigitCount(|b|))
  }

  function Letters(d: seq<Sextet>, urlsafe: bool): (t: Text)
    ensures |t| == |d| && forall i :: 0 <= i < |t| ==> t[i] == Letter(d[i], urlsafe)
  {
    seq(|d|, i requires 0 <= i < |d| => Letter(d[i], urlsafe))
  }

  function Pads(n: nat): (t: Text)
    ensures |t| == n && forall i :: 0 <= i < n ==> t[i] == PAD
  {
    seq(n, i => PAD)
  }

  /** Padding brings the text to whole groups of four characters. */
  function PadCount(n: nat, v: Variant): nat {
    if v.padded then Slack(n) / 2 else 0
  }

  function Encoded(b: Bytes, v: Variant): Text {
    Letters(DigitsOf(b), v.urlsafe) + Pads(PadCount(|b|, v))
  }

  /** sodium_base64_ENCODED_LEN, bit by bit. */
  function EncodedLen(n: nat, v: Variant): int {
    var r := n - n / 3 * 3;
    n / 3 * 4 + OddBit(r) * (4 - Kept(v, 3 - r)) + 1
  }

  /** (r | (r >> 1)) & 1 */
  function OddBit(r: nat): nat { AndBits(OrBits(r, r / 2, 32), 1, 32) }

  /** ~((flag - 1) & x for the variant's no-padding flag. */
  function Kept(v: Variant, x: nat): nat {
    var flag := if v.padded then 0 else 1;
    AndBits(WORD - 1 - (flag - 1) % WORD, x, 32)
  }

  lemma KeptIs(v: Variant, x: nat)
    requires x < WORD
    ensures Kept(v, x) == if v.padded then 0 else x
  {
    hide AndBits;
    AndOnes(x);
    assert (-1) % WORD == WORD - 1;
  }

  lemma Word32()
    ensures Pow2(32) == WORD
  {
    assert Pow2(8) == 0x100;
    Pow2Six(8);
    Pow2Six(16);
    Pow2Six(24);
  }

  lemma AndOnes(x: nat)
    requires x < WORD
    ensures AndBits(WORD - 1, x, 32) == x && AndBits(0, x, 32) == 0
  {
    Word32();
    AndBitsComm(WORD - 1, x, 32);
    AndBitsComm(0, x, 32);
    AndBitsOnes(x, 32);
    AndBitsZero(x, 32);
    hide AndBits, Pow2;
  }

  lemma NonZeroBit(r: nat)
    requires r < 3
    ensures OddBit(r) == if r == 0 then 0 else 1
  {
    Word32();
    OrBitsNothing(0, 32);
    OrBitsNothing(1, 32);
    OrBitsNothing(1, 31);
    assert OrBits(2, 1, 32) == 2 * OrBits(1, 0, 31) + 1;
    AndBitsZero(1, 31);
    AndBitsZero(0, 31);
    assert AndBits(3, 1, 32) == 2 * AndBits(1, 0, 31) + 1;
    assert AndBits(1, 1, 32) == 2 * AndBits(0, 0, 31) + 1;
    assert AndBits(0, 1, 32) == 2 * AndBits(0, 0, 31);
    hide AndBits, OrBits, Pow2;
  }

  /** The macro is the exact buffer need: the text and its terminating NUL. */
  lemma EncodedLenExact(b: Bytes, v: Variant)
    ensures EncodedLen(|b|, v) == |Encoded(b, v)| + 1
    ensures v.padded ==> |Encoded(b, v)| % 4 == 0
  {
    hide OddBit, Kept, DigitsOf;
    var r := |b| - |b| / 3 * 3;
    DigitGroups(|b|, |b| / 3, r);
    NonZeroBit(r);
    KeptIs(v, 3 - r);
  }

  // ------------------------------------------------------------------ the encoder

  /** Taking in one byte moves the digit boundary by eight bits. */
  lemma TakeByte(f: nat, b: Byte, k: nat)
    ensures Shr(f * 0x100 + b, k + 8) == Shr(f, k)
    ensures (f % WORD * 0x100 % WORD + b) % WORD == (f * 0x100 + b) % WORD
  {
    Shr8(f, b);
    ShrSum(f * 0x100 + b, 8, k);
    ShiftedWord(f, 0x100, b);
  }

  lemma ShiftedWord(f: nat, m: nat, b: nat)
    requires (m == 0x100 || m == 0x40) && b < m
    ensures (f % WORD * m % WORD + b) % WORD == (f * m + b) % WORD
  {
    var q, r := f / WORD, f % WORD;
    var k, t := r * m / WORD, r * m % WORD;
    assert f * m + b == (q * m + k) * WORD + (t + b) by {
      assert f == q * WORD + r && r * m == k * WORD + t;
    }
    WholeWords(q * m + k, t + b);
  }

  lemma WholeWords(k: nat, x: nat)
    ensures (k * WORD + x) % WORD == x % WORD
  {}

  /** Giving out one digit. */
  lemma GiveDigit(f: nat, k: nat, n: nat)
    requires k + 6 <= 32
    ensures Sextets(Shr(f, k), n + 1) == Sextets(Shr(f, k + 6), n) + [Shr(f % WORD, k) % 0x40]
  {
    Word32();
    assert Pow2(6) == 0x40;
    PickBits(f, 32, k, 6);
    ShrSum(f, k, 6);
    Shr6Div(Shr(f, k));
    hide Shr, Pow2;
  }

  /** The last, partly filled digit. */
  lemma GiveRest(f: nat, k: nat, n: nat)
    requires k == 2 || k == 4
    ensures (Sextets(Shl(f, 6 - k), n + 1)
      == Sextets(Shr(f, k), n) + [f % WORD * (if k == 2 then 16 else 4) % WORD % 0x40])
  {
    var m := if k == 2 then 16 else 4;
    assert Shl(f, 6 - k) == f * m by {
      assert Shl(f * 4, 2) == f * 16 && Shl(f, 4) == Shl(f * 4, 2) && Shl(f, 2) == f * 4;
    }
    assert Shr(f, k) == f * m / 0x40 by {
      Shr2(f); Shr2(f / 4); ShrSum(f, 2, 2);
    }
    hide Shl, Shr;
    LastDigit(f, m);
  }

  lemma LastDigit(f: nat, m: nat)
    requires m == 4 || m == 16
    ensures f * m % 0x40 == f % WORD * m % WORD % 0x40
  {
    var q, r := f / WORD, f % WORD;
    var k, s := r * m / WORD, r * m % WORD;
    var t := (q * m + k) * 0x400_0000;
    assert f * m == 0x40 * t + s by {
      assert f == q * WORD + r && r * m == k * WORD + s;
    }
    WholeDigits(t, s);
  }

  lemma WholeDigits(k: nat, x: nat)
    ensures (0x40 * k + x) % 0x40 == x % 0x40
  {}

  lemma LettersPlus(d: seq<Sextet>, x: Sextet, urlsafe: bool)
    ensures Letters(d + [x], urlsafe) == Letters(d, urlsafe) + [Letter(x, urlsafe)]
  {}

  /** The digits: a byte in, six bits out while there are six. */
  method EncodeDigits(b64: array<Char>, bin: Bytes, urlsafe: bool) returns (pos: nat)
    requires DigitCount(|bin|) <= b64.Length
    modifies b64
    ensures pos == DigitCount(|bin|)
    ensures b64[..pos] == Letters(DigitsOf(bin), urlsafe)
    ensures b64[pos..] == old(b64[pos..])
  {
    hide Letter, Letters, Sextets, Shr, Shl, FromBe, ByteToChar;
    ghost var was := b64[..];
    var acc: nat, acc_len: nat, p: nat := 0, 0, 0;
    pos := 0;
    StartEncoding(b64[..0], bin[..0], urlsafe);
    while p < |bin|
      invariant p <= |bin| && 8 * p == 6 * pos + acc_len && acc_len < 6
      invariant pos <= b64.Length
      invariant acc == FromBe(bin[..p]) % WORD
      invariant b64[..pos] == Letters(Sextets(Shr(FromBe(bin[..p]), acc_len), pos), urlsafe)
      invariant b64[pos..] == was[pos..]
    {
      TakeByte(FromBe(bin[..p]), bin[p], acc_len);
      PrefixNumber(bin, p);
      acc := (acc * 0x100 % WORD + bin[p]) % WORD;
      p := p + 1;
      acc_len := acc_len + 8;
      ghost var f := FromBe(bin[..p]);
      while acc_len >= 6
        invariant 8 * p == 6 * pos + acc_len && acc_len < 14
        invariant pos <= b64.Length
        invariant b64[..pos] == Letters(Sextets(Shr(f, acc_len), pos), urlsafe)
        invariant b64[pos..] == was[pos..]
      {
        acc_len := acc_len - 6;
        GiveDigit(f, acc_len, pos);
        var x: Sextet := Shr(acc, acc_len) % 0x40;
        ByteToCharIsLetter(x, urlsafe);
        LettersPlus(Sextets(Shr(f, acc_len + 6), pos), x, urlsafe);
        PutChar(b64, pos, ByteToChar(x, urlsafe));
        pos := pos + 1;
      }
    }
    assert bin[..p] == bin;
    if acc_len > 0 {
      GiveRest(FromBe(bin), acc_len, pos);
      var x: Sextet := acc * (if acc_len == 2 then 16 else 4) % WORD % 0x40;
      ByteToCharIsLetter(x, urlsafe);
      LettersPlus(Sextets(Shr(FromBe(bin), acc_len), pos), x, urlsafe);
      PutChar(b64, pos, ByteToChar(x, urlsafe));
      pos := pos + 1;
    } else {
      NoShift(FromBe(bin));
    }
  }

  lemma NoShift(n: nat)
    ensures Shl(n, 0) == n == Shr(n, 0)
  {}

  lemma StartEncoding(t: Text, b: Bytes, urlsafe: bool)
    requires t == [] && b == []
    ensures FromBe(b) == 0 && t == Letters(Sextets(Shr(FromBe(b), 0), 0), urlsafe)
  {}

  lemma PrefixNumber(b: Bytes, p: nat)
    requires p < |b|
    ensures FromBe(b[..p + 1]) == FromBe(b[..p]) * 0x100 + b[p]
  {
    assert b[..p + 1][..p] == b[..p];
  }

  method PutChar(b64: array<Char>, pos: nat, c: Byte)
    requires pos < b64.Length && c < 0x80
    modifies b64
    ensures b64[..pos + 1] == old(b64[..pos]) + [c as Char]
    ensures b64[pos + 1..] == old(b64[pos..])[1..]
  {
    b64[pos] := c;
  }

  lemma LengthByGroups(n: nat, v: Variant)
    ensures (DigitCount(n) + PadCount(n, v)
      == n / 3 * 4 + if n - 3 * (n / 3) == 0 then 0 else if v.padded then 4 else 2 + (n - 3 * (n / 3)) / 2)
  {
    DigitGroups(n, n / 3, n % 3);
  }

  /** The whole encoder: digits, padding, and NULs to the end of the buffer. A buffer that is too
      small aborts the program. The assertion is the source's own. */
  method Bin2Base64(b64: array<Char>, maxlen: nat, bin: Bytes, v: Variant)
    requires EncodedLen(|bin|, v) <= maxlen <= b64.Length
    modifies b64
    ensures |Encoded(bin, v)| < maxlen
    ensures b64[..|Encoded(bin, v)|] == Encoded(bin, v)
    ensures forall i :: |Encoded(bin, v)| <= i < maxlen ==> b64[i] == 0
    ensures b64[maxlen..] == old(b64[maxlen..])
  {
    hide Letters, DigitsOf, EncodedLen, PadCount, DigitCount, Pads;
    EncodedLenExact(bin, v);
    var nibbles := |bin| / 3;
    var remainder := |bin| - 3 * nibbles;
    var b64_len := nibbles * 4;
    if remainder != 0 {
      if v.padded { b64_len := b64_len + 4; } else { b64_len := b64_len + 2 + remainder / 2; }
    }
    LengthByGroups(|bin|, v);
    var pos := EncodeDigits(b64, bin, v.urlsafe);
    ghost var digits := b64[..pos];
    assert pos <= b64_len;
    Fill(b64, pos, b64_len, PAD);
    assert b64[..b64_len] == digits + Pads(PadCount(|bin|, v));
    Fill(b64, b64_len, maxlen, 0);
  }

  /** The padding loop and the loop that writes the terminating NULs. */
  method Fill(b64: array<Char>, start: nat, end: nat, c: Char)
    requires start <= end <= b64.Length
    modifies b64
    ensures b64[..start] == old(b64[..start])
    ensures forall i :: start <= i < end ==> b64[i] == c
    ensures forall i :: end <= i < b64.Length ==> b64[i] == old(b64[i])
  {
    var pos := start;
    while pos < end
      invariant start <= pos <= end
      invariant b64[..start] == old(b64[..start])
      invariant forall i :: start <= i < pos ==> b64[i] == c
      invariant forall i :: pos <= i < b64.Length ==> b64[i] == old(b64[i])
    {
      b64[pos] := c;
      pos := pos + 1;
    }
  }
}
