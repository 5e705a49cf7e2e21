/** What the tag and the ciphertext are in closed form, with every constant written out. */
module GcmForms {
  import opened Bytes
  import opened Gf128
  import opened Gcm

  /** The length block holds the bit length of the associated data, then that of the ciphertext. */
  lemma LengthsMean(a: nat, c: nat)
    requires 8 * a < 0x1_0000_0000_0000_0000 && 8 * c < 0x1_0000_0000_0000_0000
    ensures FromBe(Lengths(a, c)[..8]) == 8 * a && FromBe(Lengths(a, c)[8..]) == 8 * c
  {
    hide Be, FromBe, Pow256;
    EightBytes();
    FromBeBe(8 * a, 8);
    FromBeBe(8 * c, 8);
    assert Lengths(a, c)[..8] == Be(8 * a, 8) && Lengths(a, c)[8..] == Be(8 * c, 8);
  }

  lemma EightBytes()
    ensures Pow256(8) == 0x1_0000_0000_0000_0000
  {
    assert Pow256(2) == 0x1_0000;
    assert Pow256(4) == 0x1_0000 * Pow256(2);
    assert Pow256(6) == 0x1_0000 * Pow256(4);
    assert Pow256(8) == 0x1_0000 * Pow256(6);
  }

  lemma SmallNumber(k: nat, x: Byte)
    ensures Be(x, k + 1) == Zeros(k) + [x]
  {
    BeZero(k);
  }

  lemma {:induction false} BeZero(k: nat)
    ensures Be(0, k) == Zeros(k)
  {
    if k > 0 { BeZero(k - 1); }
  }

  const Z: Bytes := [0, 0, 0, 0, 0, 0, 0]

  /** Small length blocks, byte by byte. */
  lemma LengthBlock(a: nat, c: nat)
    requires 8 * a < 0x100 && 8 * c < 0x100
    ensures Lengths(a, c) == Z + [8 * a] + Z + [8 * c]
  {
    SmallNumber(7, 8 * a);
    SmallNumber(7, 8 * c);
    hide Be, Zeros;
    SevenZeros();
  }

  lemma SevenZeros()
    ensures Zeros(7) == Z
  {}

  /** Bit i of a block, counted from the top of its first byte. */
  lemma LoadBit(b: Block, i: nat)
    requires i < 128
    ensures Pow2(7 - i % 8) > 0 && (Load(b)[i] <==> b[i / 8] / Pow2(7 - i % 8) % 2 == 1)
  {
    BitOf(b[i / 8], 8, i % 8);
    hide Bits, Pow2;
  }

  lemma {:induction false} BitOf(x: nat, k: nat, i: nat)
    requires i < k
    ensures Pow2(k - 1 - i) > 0 && (Bits(x, k)[i] <==> x / Pow2(k - 1 - i) % 2 == 1)
    decreases k
  {
    Pow2Positive(k - 1 - i);
    if i < k - 1 {
      BitOf(x / 2, k - 1, i);
      Pow2Positive(k - 2 - i);
      HalfQuotient(x, Pow2(k - 2 - i));
    }
  }

  lemma {:induction false} Pow2Positive(k: nat)
    ensures Pow2(k) > 0
  {
    if k > 0 { Pow2Positive(k - 1); }
  }

  lemma HalfQuotient(x: nat, p: nat)
    requires p > 0
    ensures x / (2 * p) == x / 2 / p
  {
    var q, r := x / 2 / p, x / 2 % p;
    assert x == q * (2 * p) + (2 * r + x % 2) by { assert x / 2 == q * p + r; }
    RemainderUnique(x, q, 2 * p, 2 * r + x % 2);
  }

  /** The counter block that masks the tag, and the first one of the message. */
  function TagCounter(npub: Npub): Block { npub + [0, 0, 0, 1] }

  function DataCounter(npub: Npub): Block { npub + [0, 0, 0, 2] }

  /** Bit lengths of 128 and 0, of 128 and 128, and of 0 and 8. */
  const DATA_ONLY: Block := [0, 0, 0, 0, 0, 0, 0, 128, 0, 0, 0, 0, 0, 0, 0, 0]
  const BLOCK_EACH: Block := [0, 0, 0, 0, 0, 0, 0, 128, 0, 0, 0, 0, 0, 0, 0, 128]
  const BYTE_ONLY: Block := [0, 0, 0, 0, 0, 0, 0, 0, 0, 0, 0, 0, 0, 0, 0, 8]

  function Filled(c: Byte): Block { [c, 0, 0, 0, 0, 0, 0, 0, 0, 0, 0, 0, 0, 0, 0, 0] }

  lemma FirstCounters(npub: Npub)
    ensures J0(npub) == TagCounter(npub) && Inc32(J0(npub)) == DataCounter(npub)
  {
    Inc32Counter(npub, 1);
    SmallNumber(3, 1);
    SmallNumber(3, 2);
    assert J0(npub) == CounterBlock(npub, 1);
    hide Be, Inc32;
    assert Zeros(3) == [0, 0, 0];
    assert npub + ([0, 0, 0] + [1]) == TagCounter(npub) && npub + ([0, 0, 0] + [2]) == DataCounter(npub);
  }

  const ZERO16: Block := [0, 0, 0, 0, 0, 0, 0, 0, 0, 0, 0, 0, 0, 0, 0, 0]

  lemma ZeroBlock()
    ensures Zeros(16) == ZERO16
  {}

  /** H . (X xor S) */
  function Absorb(h: Reg, s: Reg, b: Block): Reg { Dot(Xor(s, Load(b)), h) }

  lemma OneBlock(h: Reg, y: Reg, b: Block)
    ensures GhashPadded(h, y, b) == Absorb(h, y, b) && GhashPadded(h, y, []) == y
  {
    hide Dot, Xor, Load;
    assert Pad16(b) == b;
  }

  lemma TagForm(ciph: Block -> Block, npub: Npub, c: Bytes, a: Bytes, s: Reg, l: Block)
    requires s == GhashPadded(Load(ciph(ZERO16)), GhashPadded(Load(ciph(ZERO16)), Zero(), a), c)
    requires l == Lengths(|a|, |c|)
    ensures (Tag(ciph, npub, c, a)
      == XorBytes(Store(Absorb(Load(ciph(ZERO16)), s, l)), ciph(TagCounter(npub))))
  {
    hide Dot, Xor, Load, Store, Lengths, GhashPadded, J0, Inc32, Tag;
    ZeroBlock();
    FirstCounters(npub);
    TagIsTagOf(ciph, npub, c, a);
  }

  lemma NoCiphertext(ciph: Block -> Block, icb: Block)
    ensures Gctr(ciph, icb, []) == []
  {}

  /** The tag of one block of associated data and no message. */
  lemma TagOfData(ciph: Block -> Block, npub: Npub, a: Block)
    ensures (var h := Load(ciph(ZERO16));
      GcmAe(ciph, npub, [], a) == ([], XorBytes(
        Store(Absorb(h, Absorb(h, Zero(), a), DATA_ONLY)),
        ciph(TagCounter(npub)))))
  {
    hide Dot, Xor, Load, Store, Lengths, GhashPadded, J0, Inc32, Tag, Absorb;
    var h := Load(ciph(ZERO16));
    OneBlock(h, Zero(), a);
    OneBlock(h, Absorb(h, Zero(), a), a);
    LengthBlock(16, 0);
    assert Z + [128] + Z + [0] == DATA_ONLY;
    NoCiphertext(ciph, Inc32(J0(npub)));
    TagForm(ciph, npub, [], a, Absorb(h, Zero(), a), Z + [128] + Z + [0]);
  }

  /** The ciphertext and the tag of one block of associated data and one of message. */
  lemma OneBlockEach(ciph: Block -> Block, npub: Npub, p: Block, a: Block)
    ensures (var h := Load(ciph(ZERO16)); var c := XorBytes(p, ciph(DataCounter(npub)));
      GcmAe(ciph, npub, p, a) == (c, XorBytes(
        Store(Absorb(h, Absorb(h, Absorb(h, Zero(), a), c), BLOCK_EACH)),
        ciph(TagCounter(npub)))))
  {
    hide Dot, Xor, Load, Store, Lengths, GhashPadded, J0, Inc32, Tag, Absorb, XorByte;
    var h := Load(ciph(ZERO16));
    FirstCounters(npub);
    var c := XorBytes(p, ciph(DataCounter(npub)));
    assert ciph(DataCounter(npub))[..16] == ciph(DataCounter(npub));
    OneBlock(h, Zero(), a);
    OneBlock(h, Absorb(h, Zero(), a), c);
    LengthBlock(16, 16);
    assert Z + [128] + Z + [128] == BLOCK_EACH;
    TagForm(ciph, npub, c, a, Absorb(h, Absorb(h, Zero(), a), c), Z + [128] + Z + [128]);
  }

  /** A message of one byte: its block is filled up with zeros. */
  lemma OneByte(ciph: Block -> Block, npub: Npub, p: Byte)
    ensures (var h := Load(ciph(ZERO16)); var c: Byte := XorByte(p, ciph(DataCounter(npub))[0]);
      GcmAe(ciph, npub, [p], []) == ([c], XorBytes(
        Store(Absorb(h, Absorb(h, Zero(), Filled(c)), BYTE_ONLY)),
        ciph(TagCounter(npub)))))
  {
    hide Dot, Xor, Load, Store, Lengths, J0, Inc32, Tag, XorByte;
    var h := Load(ciph(ZERO16));
    FirstCounters(npub);
    var k := ciph(DataCounter(npub));
    var c: Byte := XorByte(p, k[0]);
    assert XorBytes([p], k[..1]) == [c];
    assert Pad16([c]) == Filled(c);
    LengthBlock(0, 1);
    assert Z + [0] + Z + [8] == BYTE_ONLY;
    TagForm(ciph, npub, [c], [], Absorb(h, Zero(), Pad16([c])), Z + [0] + Z + [8]);
  }
}
