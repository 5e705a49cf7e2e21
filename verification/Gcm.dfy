/** AES-256-GCM as the 8-blocks-at-a-time driver computes it, against the authenticated
    encryption and decryption functions of section 7 of NIST SP 800-38D.

    The forward cipher under the expanded key is a parameter, ciph: nothing here depends on
    what AES does inside a block. */
module Gcm {
  import opened Bytes
  import opened Gf128

  type Block = b: Bytes | |b| == 16 witness seq(16, i => 0)
  type Npub = b: Bytes | |b| == 12 witness seq(12, i => 0)
  const MESSAGEBYTES_MAX := 16 * (0x1_0000_0000 - 2)

  // ------------------------------------------------------------------ bytes, blocks, counters

  /** A 16-byte load with the bytes reversed (shuffle by rev): the block as a bit string. */
  function Load(b: Block): Reg {
    seq(128, i requires 0 <= i < 128 => Bits(b[i / 8], 8)[i % 8])
  }

  /** Byte 15 - k of a stored register, that is byte k of the block it stands for. */
  function ByteOf(r: Reg, k: nat): Byte
    requires k < 16
  {
    ByteFromBits(r[8 * k..8 * k + 8])
  }

  function Store(r: Reg): Block {
    seq(16, k requires 0 <= k < 16 => ByteOf(r, k))
  }

  /** Storing a register and loading it back changes nothing, so the driver may keep in a register the
      accumulator that the source stores to memory and loads again between its loops. */
  lemma LoadStore(r: Reg)
    ensures Load(Store(r)) == r
  {
    forall i | 0 <= i < 128
      ensures Load(Store(r))[i] == r[i]
    {
      var s := r[8 * (i / 8)..8 * (i / 8) + 8];
      hide Bits, FromBits;
      BitsFromBits(s);
      assert s[i % 8] == r[i];
    }
  }

  const WORD32 := 0x1_0000_0000
  const WORD64 := 0x1_0000_0000_0000_0000

  // ------------------------------------------------------------------ the standard

  /** inc_32 of section 6.2. */
  function Inc32(x: Block): Block {
    x[..12] + Be((FromBe(x[12..]) + 1) % WORD32, 4)
  }

  /** GCTR of section 6.5. */
  function Gctr(ciph: Block -> Block, icb: Block, x: Bytes): (y: Bytes)
    ensures |y| == |x|
    decreases |x|
  {
    if |x| <= 16 then XorBytes(x, ciph(icb)[..|x|])
    else XorBytes(x[..16], ciph(icb)) + Gctr(ciph, Inc32(icb), x[16..])
  }

  /** GHASH of section 6.4 over the blocks of x, from the intermediate value y. */
  function Ghash(h: Reg, y: Reg, x: Bytes): Reg
    decreases |x|
  {
    if |x| < 16 then y else Ghash(h, Dot(Xor(y, Load(x[..16])), h), x[16..])
  }

  function PadBlocks(x: Bytes): Bytes {
    x + Zeros((16 - |x| % 16) % 16)
  }

  /** The pre-counter block for a 96-bit IV. */
  function J0(iv: Npub): Block { iv + Be(1, 4) }

  /** [len(A)]_64 || [len(C)]_64. The standard bounds both lengths below 2^64 bits. */
  function Lengths(alen: nat, clen: nat): Block {
    Be(8 * alen % WORD64, 8) + Be(8 * clen % WORD64, 8)
  }

  function GhashInput(a: Bytes, c: Bytes): Bytes {
    PadBlocks(a) + PadBlocks(c) + Lengths(|a|, |c|)
  }

  function Tag(ciph: Block -> Block, iv: Npub, c: Bytes, a: Bytes): Bytes {
    var h := Load(ciph(Zeros(16)));
    Gctr(ciph, J0(iv), Store(Ghash(h, Zero(), GhashInput(a, c))))
  }

  /** GCM-AE of section 7.1. */
  function GcmAe(ciph: Block -> Block, iv: Npub, p: Bytes, a: Bytes): (Bytes, Bytes) {
    var c := Gctr(ciph, Inc32(J0(iv)), p);
    (c, Tag(ciph, iv, c, a))
  }

  datatype Opened = Plaintext(p: Bytes) | Fail

  /** GCM-AD of section 7.2. */
  function GcmAd(ciph: Block -> Block, iv: Npub, c: Bytes, a: Bytes, t: Bytes): Opened {
    if t == Tag(ciph, iv, c, a) then Plaintext(Gctr(ciph, Inc32(J0(iv)), c)) else Fail
  }

  // ------------------------------------------------------------------ the standard's functions, by position

  function CounterBlock(npub: Npub, n: int): Block { npub + Be(n % WORD32, 4) }

  /** Byte k of the key stream that starts at counter n. */
  function KeyByte(ciph: Block -> Block, npub: Npub, n: int, k: nat): Byte {
    ciph(CounterBlock(npub, n + k / 16))[k % 16]
  }

  function Stream(ciph: Block -> Block, npub: Npub, n: int, x: Bytes): (y: Bytes)
    ensures |y| == |x|
  {
    seq(|x|, k requires 0 <= k < |x| => XorByte(x[k], KeyByte(ciph, npub, n, k)))
  }

  lemma FromCounterBlock(npub: Npub, n: int)
    ensures FromBe(CounterBlock(npub, n)[12..]) == n % WORD32
    ensures CounterBlock(npub, n)[..12] == npub
  {
    assert CounterBlock(npub, n)[12..] == Be(n % WORD32, 4);
    assert Pow256(4) == WORD32;
    FromBeBe(n % WORD32, 4);
  }

  lemma Inc32Counter(npub: Npub, n: int)
    ensures Inc32(CounterBlock(npub, n)) == CounterBlock(npub, n + 1)
  {
    FromCounterBlock(npub, n);
    ModSucc(n);
    hide Be, FromBe;
    assert CounterBlock(npub, n + 1) == npub + Be((n + 1) % WORD32, 4);
    hide CounterBlock;
    var b := CounterBlock(npub, n);
    assert Inc32(b) == npub + Be((n + 1) % WORD32, 4);
  }

  lemma ModSucc(n: int)
    ensures (n % WORD32 + 1) % WORD32 == (n + 1) % WORD32
  {}

  lemma KeyByteStep(ciph: Block -> Block, npub: Npub, n: int, k: nat)
    ensures k < 16 ==> KeyByte(ciph, npub, n, k) == ciph(CounterBlock(npub, n))[k]
    ensures k >= 16 ==> KeyByte(ciph, npub, n, k) == KeyByte(ciph, npub, n + 1, k - 16)
  {
    if k >= 16 {
      assert n + k / 16 == n + 1 + (k - 16) / 16 && (k - 16) % 16 == k % 16;
    }
    hide CounterBlock;
  }

  lemma StreamStep(ciph: Block -> Block, npub: Npub, n: int, x: Bytes)
    ensures |x| <= 16 ==> Stream(ciph, npub, n, x) == XorBytes(x, ciph(CounterBlock(npub, n))[..|x|])
    ensures |x| > 16 ==> (Stream(ciph, npub, n, x)
      == XorBytes(x[..16], ciph(CounterBlock(npub, n))) + Stream(ciph, npub, n + 1, x[16..]))
  {
    hide KeyByte, CounterBlock, XorByte;
    forall k: nat | k < |x| { KeyByteStep(ciph, npub, n, k); }
  }

  /** GCTR is the byte-wise XOR with the blocks of consecutive counters. */
  lemma {:induction false} GctrIsStream(ciph: Block -> Block, npub: Npub, n: int, x: Bytes)
    ensures Gctr(ciph, CounterBlock(npub, n), x) == Stream(ciph, npub, n, x)
    decreases |x|
  {
    hide CounterBlock, Inc32, Stream, XorBytes;
    StreamStep(ciph, npub, n, x);
    if |x| > 16 {
      Inc32Counter(npub, n);
      GctrIsStream(ciph, npub, n + 1, x[16..]);
    }
  }

  /** Counter mode is its own inverse. */
  lemma StreamTwice(ciph: Block -> Block, npub: Npub, n: int, x: Bytes)
    ensures Stream(ciph, npub, n, Stream(ciph, npub, n, x)) == x
  {
    hide KeyByte, XorByte;
    forall k: nat | k < |x| { XorByteLaws(x[k], KeyByte(ciph, npub, n, k)); }
  }

  /** Section 7.2 undoes section 7.1. */
  lemma GcmRoundTrip(ciph: Block -> Block, iv: Npub, p: Bytes, a: Bytes)
    ensures var (c, t) := GcmAe(ciph, iv, p, a);
      |c| == |p| && |t| == 16 && GcmAd(ciph, iv, c, a, t) == Plaintext(p)
  {
    var (c, t) := GcmAe(ciph, iv, p, a);
    Inc32Counter(iv, 1);
    GctrIsStream(ciph, iv, 2, p);
    GctrIsStream(ciph, iv, 2, c);
    StreamTwice(ciph, iv, 2, p);
  }

  /** And opens nothing else: exactly what section 7.1 makes of some message is opened, to that message. */
  lemma OpensExactly(ciph: Block -> Block, iv: Npub, c: Bytes, a: Bytes, t: Bytes, p: Bytes)
    ensures GcmAd(ciph, iv, c, a, t) == Plaintext(p) <==> GcmAe(ciph, iv, p, a) == (c, t)
  {
    Inc32Counter(iv, 1);
    assert J0(iv) == CounterBlock(iv, 1);
    GctrIsStream(ciph, iv, 2, p);
    GctrIsStream(ciph, iv, 2, c);
    StreamTwice(ciph, iv, 2, p);
    StreamTwice(ciph, iv, 2, c);
    hide Gctr, Stream, Tag, Inc32, CounterBlock;
  }

  lemma CounterValue(npub: Npub, i: nat)
    requires 2 + i < WORD32
    ensures FromBe(CounterBlock(npub, 2 + i)[12..]) == 2 + i
    ensures FromBe(J0(npub)[12..]) == 1
  {
    FromCounterBlock(npub, 2 + i);
    FromCounterBlock(npub, 1);
    assert J0(npub) == CounterBlock(npub, 1);
    hide CounterBlock, FromBe, J0;
  }

  /** For every message within the length limit, the counter blocks of the data differ from one
      another and from the block that masks the tag. */
  lemma CountersDistinct(npub: Npub, len: nat, i: nat, j: nat)
    requires len <= MESSAGEBYTES_MAX && 16 * i < len && 16 * j < len
    ensures CounterBlock(npub, 2 + i) != J0(npub)
    ensures CounterBlock(npub, 2 + i) == CounterBlock(npub, 2 + j) ==> i == j
  {
    hide CounterBlock, FromBe, J0;
    CounterValue(npub, i);
    CounterValue(npub, j);
  }

  // ------------------------------------------------------------------ GHASH over partial blocks

  function Pad16(x: Bytes): Block
    requires |x| <= 16
  {
    x + Zeros(16 - |x|)
  }

  /** GHASH that pads its last block with zeros. */
  function GhashPadded(h: Reg, y: Reg, x: Bytes): Reg
    decreases |x|
  {
    if x == [] then y
    else if |x| <= 16 then Dot(Xor(y, Load(Pad16(x))), h)
    else GhashPadded(h, Dot(Xor(y, Load(x[..16])), h), x[16..])
  }

  lemma {:induction false} GhashPaddedAppend(h: Reg, y: Reg, k: nat, x: Bytes, z: Bytes)
    requires |x| == 16 * k
    ensures GhashPadded(h, y, x + z) == GhashPadded(h, GhashPadded(h, y, x), z)
    decreases k
  {
    if k == 0 {
      assert x + z == z;
    } else {
      hide Dot, Xor, Load;
      assert Pad16(x[..16]) == x[..16];
      var y' := Dot(Xor(y, Load(x[..16])), h);
      assert (x + z)[16..] == x[16..] + z && (x + z)[..16] == x[..16];
      GhashPaddedAppend(h, y', k - 1, x[16..], z);
      if k == 1 {
        assert x[..16] == x && x[16..] == [];
      }
      if |x + z| == 16 {
        assert Pad16(x + z) == x && z == [];
      }
    }
  }

  lemma PadBlocksStep(x: Bytes, z: Bytes)
    requires |x| > 16
    ensures (PadBlocks(x) + z)[..16] == x[..16]
    ensures (PadBlocks(x) + z)[16..] == PadBlocks(x[16..]) + z
    ensures |PadBlocks(x)| >= 16
  {
    assert (16 - |x| % 16) % 16 == (16 - |x[16..]| % 16) % 16;
  }

  lemma PadBlocksLast(x: Bytes, z: Bytes)
    requires 0 < |x| <= 16
    ensures PadBlocks(x) == Pad16(x)
    ensures (Pad16(x) + z)[..16] == Pad16(x) && (Pad16(x) + z)[16..] == z
  {}

  lemma {:induction false} GhashIsPadded(h: Reg, y: Reg, x: Bytes, z: Bytes)
    ensures Ghash(h, y, PadBlocks(x) + z) == Ghash(h, GhashPadded(h, y, x), z)
    decreases |x|
  {
    if x == [] {
      assert PadBlocks(x) + z == z;
    } else {
      hide Dot, Xor, Load, PadBlocks, Pad16;
      if |x| <= 16 {
        PadBlocksLast(x, z);
      } else {
        PadBlocksStep(x, z);
        GhashIsPadded(h, Dot(Xor(y, Load(x[..16])), h), x[16..], z);
      }
    }
  }

  /** The tag in the order the driver works: the two strings, then the length block. */
  function TagOf(ciph: Block -> Block, npub: Npub, c: Bytes, a: Bytes): Bytes {
    var h := Load(ciph(Zeros(16)));
    var s := GhashPadded(h, GhashPadded(h, Zero(), a), c);
    XorBytes(Store(Dot(Xor(s, Load(Lengths(|a|, |c|))), h)), ciph(J0(npub)))
  }

  lemma TagIsTagOf(ciph: Block -> Block, npub: Npub, c: Bytes, a: Bytes)
    ensures Tag(ciph, npub, c, a) == TagOf(ciph, npub, c, a)
  {
    hide Dot, Xor, Load, Lengths, PadBlocks, J0;
    var h := Load(ciph(Zeros(16)));
    var l := Lengths(|a|, |c|);
    assert PadBlocks(a) + PadBlocks(c) + l == PadBlocks(a) + (PadBlocks(c) + l);
    GhashIsPadded(h, Zero(), a, PadBlocks(c) + l);
    GhashIsPadded(h, GhashPadded(h, Zero(), a), c, l);
    assert l[..16] == l && l[16..] == [];
    assert ciph(J0(npub))[..16] == ciph(J0(npub));
  }
}
