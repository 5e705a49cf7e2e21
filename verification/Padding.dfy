/** sodium_pad and sodium_unpad: padding method 2 of ISO/IEC 9797-1 (a 0x80 byte, then zeros),
    written and read back without branching on the data. */
module Padding {
  import opened Bytes

  const SIZE_MAX := 0x1_0000_0000_0000_0000 - 1

  /** The barrier mask covers block sizes up to 2^56, beyond any buffer. */
  const BLOCK_MAX := 0x100_0000_0000_0000

  function PadLen(n: nat, block: nat): nat
    requires block > 0
  {
    block - 1 - n % block
  }

  /** The padded message. */
  function Padded(m: Bytes, block: nat): Bytes
    requires block > 0
  {
    m + [0x80] + Zeros(PadLen(|m|, block))
  }

  /** The number of zeros at the end of b. */
  function TrailingZeros(b: Bytes): (n: nat)
    ensures n <= |b|
  {
    if b == [] || b[|b| - 1] != 0 then 0 else 1 + TrailingZeros(b[..|b| - 1])
  }

  datatype Length = Valid(n: nat) | Invalid

  /** The length of the message in a padded buffer: the last nonzero byte must be 0x80 and lie in
      the last block. */
  function Unpadded(b: Bytes, block: nat): Length {
    var z := TrailingZeros(b);
    if block > 0 && block <= |b| && z < block && b[|b| - 1 - z] == 0x80 then Valid(|b| - 1 - z) else Invalid
  }

  /** Unpadding finds n exactly when byte n is 0x80, lies in the last block, and only zeros follow. */
  lemma UnpaddedExactly(b: Bytes, block: nat, n: nat)
    ensures (Unpadded(b, block) == Valid(n)
      <==> 0 < block <= |b| && |b| - block <= n < |b| && b[n] == 0x80 && forall i :: n < i < |b| ==> b[i] == 0)
  {
    TrailingZerosEnd(b);
    var z := TrailingZeros(b);
    forall i | |b| - z <= i < |b| ensures b[i] == 0 {
      assert b[i] == b[|b| - z..][i - (|b| - z)];
    }
    hide TrailingZeros;
  }

  // ------------------------------------------------------------------ the two undo each other

  lemma {:induction false} TrailingZerosOf(m: Bytes, x: Byte, k: nat)
    requires x != 0
    ensures TrailingZeros(m + [x] + Zeros(k)) == k
    decreases k
  {
    var b := m + [x] + Zeros(k);
    if k > 0 {
      assert b[..|b| - 1] == m + [x] + Zeros(k - 1);
      TrailingZerosOf(m, x, k - 1);
    }
  }

  lemma {:induction false} TrailingZerosEnd(b: Bytes)
    ensures b[|b| - TrailingZeros(b)..] == Zeros(TrailingZeros(b))
    ensures TrailingZeros(b) < |b| ==> b[|b| - 1 - TrailingZeros(b)] != 0
    decreases |b|
  {
    if b != [] && b[|b| - 1] == 0 {
      var c := b[..|b| - 1];
      TrailingZerosEnd(c);
      assert b[|b| - TrailingZeros(b)..] == c[|c| - TrailingZeros(c)..] + [b[|b| - 1]];
    }
  }

  lemma PaddedLength(n: nat, block: nat)
    requires block > 0
    ensures (n + 1 + PadLen(n, block)) % block == 0
    ensures PadLen(n, block) < block <= n + 1 + PadLen(n, block)
  {
    var q, r := n / block, n % block;
    assert n == q * block + r;
    assert n + 1 + PadLen(n, block) == (q + 1) * block + 0;
    RemainderUnique(n + 1 + PadLen(n, block), q + 1, block, 0);
    assert (q + 1) * block >= block;
  }

  /** Unpadding a padded message finds its length, for every block size. */
  lemma UnpadPadded(m: Bytes, block: nat)
    requires block > 0
    ensures |Padded(m, block)| % block == 0
    ensures Unpadded(Padded(m, block), block) == Valid(|m|)
  {
    PaddedLength(|m|, block);
    TrailingZerosOf(m, 0x80, PadLen(|m|, block));
  }

  /** On whole blocks, whatever unpadding accepts is the padding of the message it finds. */
  lemma PadUnpadded(b: Bytes, block: nat)
    requires block > 0 && |b| % block == 0 && Unpadded(b, block).Valid?
    ensures Padded(b[..Unpadded(b, block).n], block) == b
  {
    var z := TrailingZeros(b);
    var n := |b| - 1 - z;
    TrailingZerosEnd(b);
    var q := |b| / block;
    assert |b| == q * block;
    assert n == (q - 1) * block + (block - 1 - z);
    RemainderUnique(n, q - 1, block, block - 1 - z);
    assert PadLen(n, block) == z;
    assert b == b[..n] + [b[n]] + b[n + 1..];
  }

  // ------------------------------------------------------------------ sodium_pad

  datatype PadResult = PadOk(paddedLen: nat) | PadError

  /** (unsigned char) (((i ^ xpadlen) - 1) >> 56), in 64-bit arithmetic */
  function BarrierMask(i: nat, xpadlen: nat): Byte {
    assert Pow2(64) == SIZE_MAX + 1 by { PowersOfTwo(); }
    var w := (XorBits(i, xpadlen, 64) + SIZE_MAX) % (SIZE_MAX + 1);
    w / 0x100_0000_0000_0000 % 0x100
  }

  lemma Pow2Byte(k: nat)
    ensures Pow2(k + 8) == 0x100 * Pow2(k)
  {
    assert Pow2(k + 2) == 4 * Pow2(k);
    assert Pow2(k + 4) == 4 * Pow2(k + 2);
    assert Pow2(k + 6) == 4 * Pow2(k + 4);
    assert Pow2(k + 8) == 4 * Pow2(k + 6);
  }

  lemma PowersOfTwo()
    ensures Pow2(56) == 0x100_0000_0000_0000 && Pow2(64) == 0x1_0000_0000_0000_0000
  {
    Pow2Byte(0); Pow2Byte(8); Pow2Byte(16); Pow2Byte(24);
    Pow2Byte(32); Pow2Byte(40); Pow2Byte(48); Pow2Byte(56);
    assert Pow2(0) == 1;
    hide Pow2;
  }

  /** XOR of numbers that fit in j bits fits in j bits. */
  lemma {:induction false} XorFits(x: nat, y: nat, j: nat, k: nat)
    requires x < Pow2(j) && y < Pow2(j) && j <= k
    ensures XorBits(x, y, k) < Pow2(j)
    decreases k
  {
    if j == 0 {
      XorBitsZero(x, y, k) by { PowPositive(k); }
    } else {
      XorFits(x / 2, y / 2, j - 1, k - 1);
    }
  }

  lemma {:induction false} PowPositive(k: nat)
    ensures Pow2(k) > 0
  {
    if k > 0 { PowPositive(k - 1); }
  }

  lemma BarrierMaskIs(i: nat, xpadlen: nat)
    requires i < BLOCK_MAX && xpadlen < BLOCK_MAX
    ensures BarrierMask(i, xpadlen) == if i == xpadlen then 0xff else 0
  {
    PowersOfTwo();
    XorBitsZero(i, xpadlen, 64);
    XorFits(i, xpadlen, 56, 64);
    hide XorBits, Pow2;
  }

  /** xpadlen before the length checks: blocksize - 1, less the length modulo the block size, by a
      mask when the block size is a power of two. */
  method PadLength(n: nat, block: nat) returns (xpadlen: nat)
    requires 0 < block <= SIZE_MAX && n <= SIZE_MAX
    ensures xpadlen == PadLen(n, block)
  {
    PowersOfTwo();
    xpadlen := block - 1;
    if AndBits(block, block - 1, 64) == 0 {
      AndIsMod(n, block, 64);
      xpadlen := xpadlen - AndBits(n, block - 1, 64);
    } else {
      xpadlen := xpadlen - n % block;
    }
  }

  /** sodium_pad. A length that would overflow size_t aborts the program, hence the precondition. */
  method Pad(buf: array<Byte>, n: nat, block: nat, maxLen: nat) returns (r: PadResult)
    requires maxLen <= buf.Length <= SIZE_MAX && n <= SIZE_MAX && block <= BLOCK_MAX
    requires block > 0 ==> n + PadLen(n, block) < SIZE_MAX
    modifies buf
    ensures block == 0 || n + PadLen(n, block) >= maxLen ==> r == PadError && buf[..] == old(buf[..])
    ensures block > 0 && n + PadLen(n, block) < maxLen ==>
      var p := Padded(old(buf[..n]), block);
      && r == PadOk(|p|) && |p| <= maxLen && buf[..|p|] == p && buf[|p|..] == old(buf[|p|..])
  {
    if block == 0 {
      return PadError;
    }
    var xpadlen := PadLength(n, block);
    var xpaddedLen := n + xpadlen;
    if xpaddedLen >= maxLen {
      return PadError;
    }
    PaddedLength(n, block);
    var tail := xpaddedLen;
    WriteTail(buf, n, xpadlen, block, tail);
    return PadOk(xpaddedLen + 1);
  }

  /** The masked loop over the last block: every byte is rewritten, whatever it holds. */
  method WriteTail(buf: array<Byte>, n: nat, xpadlen: nat, block: nat, tail: nat)
    requires xpadlen < block <= BLOCK_MAX && tail == n + xpadlen < buf.Length && block <= tail + 1
    modifies buf
    ensures buf[..n] == old(buf[..n]) && buf[n] == 0x80
    ensures forall k | n < k <= tail :: buf[k] == 0
    ensures buf[tail + 1..] == old(buf[tail + 1..])
  {
    hide AndByte, OrByte, BarrierMask;
    ghost var was := buf[..];
    var mask: Byte := 0;
    for i := 0 to block
      invariant mask == if i <= xpadlen then 0 else 0xff
      invariant forall k | 0 <= k < buf.Length && (k + i <= tail || tail < k) :: buf[k] == was[k]
      invariant forall k | n < k <= tail && tail < k + i :: buf[k] == 0
      invariant i > xpadlen ==> buf[n] == 0x80
      invariant forall k | 0 <= k < n && tail < k + i :: buf[k] == was[k]
    {
      BarrierMaskIs(i, xpadlen);
      var barrier := BarrierMask(i, xpadlen);
      MaskByte(buf[tail - i]);
      MaskByte(0x80);
      MaskByte(0);
      buf[tail - i] := OrByte(AndByte(buf[tail - i], mask), AndByte(0x80, barrier));
      MaskByte(mask);
      MaskByte(barrier);
      mask := OrByte(mask, barrier);
    }
    assert buf[..n] == was[..n];
  }


  // ------------------------------------------------------------------ sodium_unpad

  /** Bit 8 of x. */
  function Bit8(x: int): int { x / 0x100 % 2 }

  /** (((acc - 1) & (pad_len - 1) & ((c ^ 0x80) - 1)) >> 8) & 1, the first and third word of 32 bits,
      the second of 64. */
  function IsBarrier(acc: Byte, padLen: nat, c: Byte): (r: Byte)
    ensures r <= 1
  {
    Bit8(AndBits(AndBits((acc as int - 1) % 0x1_0000_0000, (padLen - 1) % (SIZE_MAX + 1), 64),
                 (XorByte(c, 0x80) as int - 1) % 0x1_0000_0000, 64))
  }

  function Bit(x: nat, j: nat): nat { if j == 0 then x % 2 else Bit(x / 2, j - 1) }

  lemma {:induction false} BitOfAnd(x: nat, y: nat, j: nat, k: nat)
    requires j < k
    ensures Bit(AndBits(x, y, k), j) == 1 <==> Bit(x, j) == 1 && Bit(y, j) == 1
    decreases j
  {
    if j > 0 { BitOfAnd(x / 2, y / 2, j - 1, k - 1); }
  }

  lemma {:induction false} BitIs(x: nat, j: nat)
    ensures Pow2(j) > 0 && Bit(x, j) == x / Pow2(j) % 2
    decreases j
  {
    PowPositive(j);
    if j > 0 {
      PowPositive(j - 1);
      BitIs(x / 2, j - 1);
      HalfQuotient(x, Pow2(j - 1));
    }
  }

  lemma HalfQuotient(x: nat, p: nat)
    requires p > 0
    ensures x / (2 * p) == x / 2 / p
  {
    var q, r := x / 2 / p, x / 2 % p;
    assert x == q * (2 * p) + (2 * r + x % 2) by { assert x / 2 == q * p + r; }
    RemainderUnique(x, q, 2 * p, 2 * r + x % 2);
  }

  /** Bit 8 of an and. */
  lemma Bit8And(x: nat, y: nat)
    ensures Bit8(AndBits(x, y, 64)) == 1 <==> Bit8(x) == 1 && Bit8(y) == 1
  {
    assert Pow2(8) == 0x100;
    BitOfAnd(x, y, 8, 64);
    BitIs(x, 8);
    BitIs(y, 8);
    BitIs(AndBits(x, y, 64), 8);
    hide AndBits, Bit, Pow2;
  }

  lemma Bit8Decrement(x: Byte)
    ensures Bit8((x - 1) % 0x1_0000_0000) == 1 <==> x == 0
    ensures Bit8((x - 1) % (SIZE_MAX + 1)) == 1 <==> x == 0
  {}

  lemma IsBarrierIs(acc: Byte, padLen: nat, c: Byte)
    requires acc == 0 ==> padLen == 0
    ensures IsBarrier(acc, padLen, c) == if acc == 0 && c == 0x80 then 1 else 0
  {
    hide XorByte, Bit8, AndBits;
    var a: nat, p: nat := (acc as int - 1) % 0x1_0000_0000, (padLen - 1) % (SIZE_MAX + 1);
    var b: nat := (XorByte(c, 0x80) as int - 1) % 0x1_0000_0000;
    Bit8And(a, p);
    Bit8And(AndBits(a, p, 64), b);
    XorByteLaws(c, 0x80);
    Bit8Decrement(acc);
    Bit8Decrement(XorByte(c, 0x80));
    Bit8Decrement(0);
  }

  /** 1 + ~is_barrier, in 64 bits: all ones or zero. */
  function Spread(isBarrier: int): nat
    requires 0 <= isBarrier <= 1
  {
    (1 + (SIZE_MAX - isBarrier)) % (SIZE_MAX + 1)
  }

  lemma SpreadIs(i: nat, padLen: nat)
    requires i <= SIZE_MAX && padLen <= SIZE_MAX
    ensures OrBits(0, AndBits(i, Spread(1), 64), 64) == i
    ensures OrBits(padLen, AndBits(i, Spread(0), 64), 64) == padLen
  {
    PowersOfTwo();
    assert Spread(1) == Pow2(64) - 1 && Spread(0) == 0;
    AndBitsOnes(i, 64);
    AndBitsZero(i, 64);
    OrBitsNothing(i, 64);
    OrBitsNothing(padLen, 64);
    hide AndBits, OrBits, Pow2;
  }

  lemma {:induction false} ZerosSoFar(b: Bytes, i: nat)
    requires i < |b| && TrailingZeros(b) >= i
    ensures TrailingZeros(b) == i <==> b[|b| - 1 - i] != 0
    decreases i
  {
    if i > 0 {
      ZerosSoFar(b[..|b| - 1], i - 1);
    }
  }

  /** Whether the first i bytes from the end of b hold the 0x80 that ends the message. */
  predicate Found(b: Bytes, i: nat) {
    var z := TrailingZeros(b);
    z < i && z < |b| && b[|b| - 1 - z] == 0x80
  }

  lemma FoundStep(b: Bytes, i: nat)
    requires i < |b|
    ensures Found(b, i + 1) <==> Found(b, i) || (TrailingZeros(b) >= i && b[|b| - 1 - i] == 0x80)
    ensures TrailingZeros(b) >= i && b[|b| - 1 - i] == 0x80 ==> TrailingZeros(b) == i && !Found(b, i)
    ensures TrailingZeros(b) >= i + 1 <==> TrailingZeros(b) >= i && b[|b| - 1 - i] == 0
  {
    hide TrailingZeros;
    if TrailingZeros(b) >= i {
      ZerosSoFar(b, i);
    }
  }

  /** The three words of the loop after one byte. */
  lemma WordsStep(acc: Byte, valid: Byte, padLen: nat, c: Byte, i: nat)
    requires i <= SIZE_MAX && padLen <= SIZE_MAX
    requires acc == 0 ==> padLen == 0 && valid == 0
    ensures var isBarrier := IsBarrier(acc, padLen, c); var hit := acc == 0 && c == 0x80;
      && OrBits(padLen, AndBits(i, Spread(isBarrier), 64), 64) == (if hit then i else padLen)
      && OrByte(valid, isBarrier) == (if hit then 1 else valid)
    ensures OrByte(acc, c) == 0 <==> acc == 0 && c == 0
  {
    hide IsBarrier, OrByte, OrBits, AndBits, Spread;
    IsBarrierIs(acc, padLen, c);
    OrByteZero(acc, c);
    SpreadIs(i, padLen);
    MaskByte(valid);
    MaskByte(1);
  }

  /** The words after i bytes from the end of b. */
  predicate Scanned(b: Bytes, i: nat, acc: Byte, valid: Byte, padLen: nat) {
    && (acc == 0 <==> TrailingZeros(b) >= i)
    && valid == (if Found(b, i) then 1 else 0)
    && padLen == (if Found(b, i) then TrailingZeros(b) else 0)
    && (Found(b, i) ==> TrailingZeros(b) < i)
  }

  lemma ScanStep(b: Bytes, i: nat, acc: Byte, valid: Byte, padLen: nat)
    requires i < |b| <= SIZE_MAX && Scanned(b, i, acc, valid, padLen)
    ensures var c := b[|b| - 1 - i]; var isBarrier := IsBarrier(acc, padLen, c);
      Scanned(b, i + 1, OrByte(acc, c), OrByte(valid, isBarrier),
              OrBits(padLen, AndBits(i, Spread(isBarrier), 64), 64))
  {
    hide IsBarrier, OrByte, TrailingZeros, Found, OrBits, AndBits, Spread;
    FoundStep(b, i);
    WordsStep(acc, valid, padLen, b[|b| - 1 - i], i);
  }

  /** sodium_unpad: one pass over the last block from its end. */
  method Unpad(buf: array<Byte>, paddedLen: nat, block: nat) returns (ret: int, n: nat)
    requires paddedLen <= buf.Length <= SIZE_MAX
    ensures ret == if Unpadded(buf[..paddedLen], block).Valid? then 0 else -1
    ensures ret == 0 ==> Unpadded(buf[..paddedLen], block) == Valid(n)
  {
    if paddedLen < block || block == 0 {
      return -1, 0;
    }
    hide TrailingZeros, Found, Unpadded, Scanned;
    ghost var b := buf[..paddedLen];
    FoundIsValid(b, block);
    var acc, valid, padLen := Scan(buf, paddedLen, block);
    ScannedMeans(b, block, acc, valid, padLen);
    n := paddedLen - 1 - padLen;
    ret := (valid as int) - 1;
  }

  /** The loop over the last block. */
  method Scan(buf: array<Byte>, paddedLen: nat, block: nat) returns (acc: Byte, valid: Byte, padLen: nat)
    requires 0 < block <= paddedLen <= buf.Length <= SIZE_MAX
    ensures Scanned(buf[..paddedLen], block, acc, valid, padLen)
  {
    hide Scanned, IsBarrier, Spread, OrByte, OrBits, AndBits;
    ghost var b := buf[..paddedLen];
    acc, valid, padLen := 0, 0, 0;
    NothingScanned(b);
    for i := 0 to block
      invariant Scanned(b, i, acc, valid, padLen)
    {
      var c := buf[paddedLen - 1 - i];
      ScanStep(b, i, acc, valid, padLen);
      var isBarrier := IsBarrier(acc, padLen, c);
      acc := OrByte(acc, c);
      padLen := OrBits(padLen, AndBits(i, Spread(isBarrier), 64), 64);
      valid := OrByte(valid, isBarrier);
    }
  }

  lemma NothingScanned(b: Bytes)
    ensures Scanned(b, 0, 0, 0, 0)
  {}

  lemma ScannedMeans(b: Bytes, i: nat, acc: Byte, valid: Byte, padLen: nat)
    requires Scanned(b, i, acc, valid, padLen)
    ensures valid == (if Found(b, i) then 1 else 0) && padLen == (if Found(b, i) then TrailingZeros(b) else 0)
    ensures padLen <= i && (i > 0 ==> padLen < i)
  {
    hide TrailingZeros, Found;
  }

  lemma FoundIsValid(b: Bytes, block: nat)
    requires 0 < block <= |b|
    ensures !Found(b, 0)
    ensures Unpadded(b, block) == if Found(b, block) then Valid(|b| - 1 - TrailingZeros(b)) else Invalid
  {}

  /** Padding in place and unpadding the same buffer gives back the length. */
  method PadThenUnpad(buf: array<Byte>, n: nat, block: nat) returns (ret: int, n': nat)
    requires buf.Length <= SIZE_MAX && 0 < block <= BLOCK_MAX && n + PadLen(n, block) < buf.Length
    modifies buf
    ensures ret == 0 && n' == n && buf[..n] == old(buf[..n])
  {
    hide Unpadded;
    ghost var m := buf[..n];
    var r := Pad(buf, n, block, buf.Length);
    UnpadPadded(m, block);
    assert buf[..n] == Padded(m, block)[..n] == m;
    ret, n' := Unpad(buf, r.paddedLen, block);
  }
}
