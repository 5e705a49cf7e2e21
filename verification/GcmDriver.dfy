/** The encryption and decryption drivers of aead_aes256gcm_aesni.cpp: eight blocks at a time
    while 128 bytes remain, then a remainder loop for partial blocks. */
module GcmDriver {
  import opened Bytes
  import opened Gf128
  import opened Gcm

  /** The first processed bytes of a string, for a loop counter that may run past its end. */
  function Upto(x: Bytes, i: nat): Bytes { if i <= |x| then x[..i] else x }

  lemma OneBlock(h: Reg, y: Reg, b: Bytes)
    requires |b| == 16
    ensures GhashPadded(h, y, b) == Dot(Xor(y, Load(b)), h)
  {
    assert Pad16(b) == b;
  }

  lemma FourBlocks(h: Reg, y: Reg, x: Bytes)
    requires |x| == 64
    ensures GhashPadded(h, y, x)
      == Dot(Xor(Dot(Xor(Dot(Xor(Dot(Xor(y, Load(x[..16])), h), Load(x[16..32])), h), Load(x[32..48])), h), Load(x[48..])), h)
  {
    hide Dot, Xor, Load, GhashPadded;
    var a, b, c, d := x[..16], x[16..32], x[32..48], x[48..];
    assert x == a + (b + (c + d));
    GhashPaddedAppend(h, y, 1, a, b + (c + d));
    var ya := GhashPadded(h, y, a);
    GhashPaddedAppend(h, ya, 1, b, c + d);
    var yb := GhashPadded(h, ya, b);
    GhashPaddedAppend(h, yb, 1, c, d);
    var yc := GhashPadded(h, yb, c);
    OneBlock(h, y, a);
    OneBlock(h, ya, b);
    OneBlock(h, yb, c);
    OneBlock(h, yc, d);
  }

  /** MULREDUCE4 on four blocks in memory order, with the powers of H at hand. */
  method Accumulate64(x: Bytes, hv: Reg, h2v: Reg, h3v: Reg, h4v: Reg, accv: Reg) returns (acc: Reg)
    requires |x| == 64
    requires h2v == Mulv(hv, hv) && h3v == Mulv(h2v, hv) && h4v == Mulv(h3v, hv)
    ensures acc == GhashPadded(hv, accv, x)
  {
    hide MulReduce4, Mulv, Load, GhashPadded;
    acc := MulReduce4(hv, h2v, h3v, h4v, Load(x[48..]), Load(x[32..48]), Load(x[16..32]), Load(x[..16]), accv);
    AggregatedGhash(hv, Load(x[..16]), Load(x[16..32]), Load(x[32..48]), Load(x[48..]), accv);
    FourBlocks(hv, accv, x);
  }

  /** aesni_addmul8full: eight blocks in two aggregated steps. */
  method Accumulate128(x: Bytes, hv: Reg, h2v: Reg, h3v: Reg, h4v: Reg, accv: Reg) returns (acc: Reg)
    requires |x| == 128
    requires h2v == Mulv(hv, hv) && h3v == Mulv(h2v, hv) && h4v == Mulv(h3v, hv)
    ensures acc == GhashPadded(hv, accv, x)
  {
    hide Mulv, GhashPadded;
    acc := Accumulate64(x[..64], hv, h2v, h3v, h4v, accv);
    acc := Accumulate64(x[64..], hv, h2v, h3v, h4v, acc);
    assert x == x[..64] + x[64..];
    GhashPaddedAppend(hv, accv, 4, x[..64], x[64..]);
  }

  /** addmul: one GHASH step on up to 16 bytes at a[off..], zero-padded in a local buffer. */
  method AddMul(acc: Reg, a: array<Byte>, off: nat, xlen: nat, h: Reg) returns (acc': Reg)
    requires xlen <= 16 && off + xlen <= a.Length
    ensures acc' == Dot(Xor(acc, Load(Pad16(a[off..off + xlen]))), h)
  {
    var block: Block;
    if xlen >= 16 {
      block := a[off..off + 16];
    } else {
      var padded := new Byte[16](i => 0);
      for i := 0 to xlen
        invariant padded[..] == a[off..off + i] + Zeros(16 - i)
      {
        padded[i] := a[off + i];
      }
      block := padded[..];
    }
    assert block == Pad16(a[off..off + xlen]);
    hide Dot, Xor, Load, Pad16, Mulv;
    XorComm(Load(block), acc);
    acc' := Mulv(Xor(Load(block), acc), h);
    MulvIsDot(Xor(acc, Load(block)), h);
  }

  /** aesni_encrypt8: the key stream of eight counters. The macros unroll this loop. */
  method KeyStream8(ciph: Block -> Block, npub: Npub, n: nat) returns (out: Bytes, n': nat)
    requires n < WORD32
    ensures n' == (n + 8) % WORD32
    ensures |out| == 128 && forall k: nat | k < 128 :: out[k] == KeyByte(ciph, npub, n, k)
  {
    hide CounterBlock;
    out, n' := [], n;
    for a := 0 to 8
      invariant n' == (n + a) % WORD32 && |out| == 16 * a
      invariant forall k: nat | k < 16 * a :: out[k] == KeyByte(ciph, npub, n, k)
    {
      var block := ciph(CounterBlock(npub, n'));
      CounterWraps(npub, n + a);
      forall k: nat | 16 * a <= k < 16 * a + 16
        ensures KeyByte(ciph, npub, n, k) == block[k - 16 * a]
      {
        assert k / 16 == a && k % 16 == k - 16 * a;
      }
      out := out + block;
      n' := (n' + 1) % WORD32;
    }
  }

  lemma WrapTwice(n: int)
    ensures n % WORD32 % WORD32 == n % WORD32
    ensures (n % WORD32 + 1) % WORD32 == (n + 1) % WORD32
    ensures (n % WORD32 + 8) % WORD32 == (n + 8) % WORD32
  {}

  lemma CounterWraps(npub: Npub, n: nat)
    ensures CounterBlock(npub, n % WORD32) == CounterBlock(npub, n)
    ensures (n % WORD32 + 1) % WORD32 == (n + 1) % WORD32
  {
    WrapTwice(n);
    hide Be;
  }

  lemma Append(h: Reg, y: Reg, x: Bytes, i: nat, j: nat)
    requires i <= j <= |x| && i % 16 == 0
    ensures GhashPadded(h, y, x[..j]) == GhashPadded(h, GhashPadded(h, y, x[..i]), x[i..j])
  {
    assert x[..j] == x[..i] + x[i..j];
    hide GhashPadded;
    GhashPaddedAppend(h, y, i / 16, x[..i], x[i..j]);
  }

  lemma LastBlock(h: Reg, y: Reg, x: Bytes)
    requires 0 < |x| <= 16
    ensures GhashPadded(h, y, x) == Dot(Xor(y, Load(Pad16(x))), h)
  {}

  /** The two loops over the associated data: 64 bytes at a time, then block by block. */
  method AbsorbAd(ad: array<Byte>, adlen: nat, hv: Reg, h2v: Reg, h3v: Reg, h4v: Reg) returns (accum: Reg)
    requires adlen <= ad.Length
    requires h2v == Mulv(hv, hv) && h3v == Mulv(h2v, hv) && h4v == Mulv(h3v, hv)
    ensures accum == GhashPadded(hv, Zero(), ad[..adlen])
  {
    hide Zero, Mulv, Dot, Load, Xor, Pad16;
    ghost var a := ad[..adlen];
    accum := Zero();
    var rnd64 := adlen - adlen % 64;
    var i := 0;
    while i < rnd64
      invariant 0 <= i <= rnd64 && i % 64 == 0
      invariant accum == GhashPadded(hv, Zero(), a[..i])
    {
      accum := Accumulate64(ad[i..i + 64], hv, h2v, h3v, h4v, accum);
      assert ad[i..i + 64] == a[i..i + 64];
      Append(hv, Zero(), a, i, i + 64);
      i := i + 64;
    }
    i := rnd64;
    assert ad[0..0 + i] == a[..i] && ad[0..0 + adlen] == a;
    accum := AbsorbTail(accum, ad, 0, i, adlen, hv, Zero());
  }

  /** The byte-block loop at the end of a string x = a[off..off + len], from position start. */
  method AbsorbTail(acc: Reg, a: array<Byte>, off: nat, start: nat, len: nat, hv: Reg, ghost y: Reg)
    returns (accum: Reg)
    requires start <= len && off + len <= a.Length && start % 16 == 0
    requires acc == GhashPadded(hv, y, a[off..off + start])
    ensures accum == GhashPadded(hv, y, a[off..off + len])
  {
    hide Dot, Load, Xor, Pad16, GhashPadded;
    ghost var x := a[off..off + len];
    assert a[off..off + start] == x[..start];
    accum := acc;
    var j := start;
    assert Upto(x, j) == x[..j];
    while j < len
      invariant start <= j && (j <= len ==> j % 16 == 0)
      invariant accum == GhashPadded(hv, y, Upto(x, j))
    {
      var bl := 16;
      if j + bl >= len {
        bl := len - j;
      }
      accum := AddMul(accum, a, off + j, bl, hv);
      assert a[off + j..off + j + bl] == x[j..j + bl];
      Append(hv, y, x, j, j + bl);
      LastBlock(hv, GhashPadded(hv, y, x[..j]), x[j..j + bl]);
      assert Upto(x, j + 16) == x[..j + bl];
      j := j + 16;
    }
    assert Upto(x, j) == x;
  }

  /** The message offsets at which a group of eight blocks starts. */
  predicate Aligned(i: nat) { i % 128 == 0 }

  function Rnd128(len: nat): nat { len - len % 128 }

  /** The value of n2[3] when the data up to an aligned offset i has been processed. */
  function Counter(i: nat): (n: nat)
    ensures n < WORD32
  {
    (2 + i / 16) % WORD32
  }

  lemma AlignedNext(g: nat)
    ensures var i := 128 * g; i % 16 == 0 && i / 16 == 8 * g && Aligned(i) && (i + 128) / 16 == 8 * g + 8
  {}

  lemma AlignedGroup(i: nat, len: nat)
    requires Aligned(i)
    ensures i % 16 == 0 && Aligned(i + 128) && Counter(i + 128) == (Counter(i) + 8) % WORD32
    ensures i < Rnd128(len) ==> i + 128 <= Rnd128(len)
  {
    var g, q := i / 128, len / 128;
    assert i == 128 * g && Rnd128(len) == 128 * q;
    hide Aligned, Rnd128;
    AlignedNext(g);
    AlignedNext(g + 1);
    WrapTwice(2 + 8 * g);
  }

  lemma GroupBounds(len: nat)
    ensures Aligned(0) && Counter(0) == 2
    ensures Aligned(Rnd128(len)) && Rnd128(len) % 16 == 0
    ensures Rnd128(len) <= len < Rnd128(len) + 128
  {
    assert len == 128 * (len / 128) + len % 128;
  }

  /** Every byte of the remaining key stream from the wrapped counter. */
  lemma KeyByteAt(ciph: Block -> Block, npub: Npub, i: nat, k: nat)
    requires i % 16 == 0
    ensures KeyByte(ciph, npub, Counter(i), k) == KeyByte(ciph, npub, 2, i + k)
  {
    assert (i + k) / 16 == i / 16 + k / 16 && (i + k) % 16 == k % 16;
    WrapSum(2 + i / 16, k / 16);
    hide Be;
  }

  lemma WrapSum(n: nat, k: nat)
    ensures (n % WORD32 + k) % WORD32 == (n + k) % WORD32
  {}

  /** XOR of len <= 128 bytes of src with the key stream at counter n, into dst at the same
      offset. The two buffers may be one. */
  method XorInto(dst: array<Byte>, src: array<Byte>, i: nat, len: nat, out: Bytes)
    requires i + len <= dst.Length && i + len <= src.Length && len <= |out|
    modifies dst
    ensures dst[..i] == old(dst[..i]) && dst[i + len..] == old(dst[i + len..])
    ensures dst[i..i + len] == XorBytes(old(src[i..i + len]), out[..len])
  {
    hide XorByte;
    ghost var x := src[i..i + len];
    for j := 0 to len
      invariant dst[..i] == old(dst[..i]) && dst[i + len..] == old(dst[i + len..])
      invariant forall k | j <= k < len :: src[i + k] == x[k]
      invariant forall k | 0 <= k < j :: dst[i + k] == XorByte(x[k], out[k])
    {
      assert src[i + j] == x[j];
      dst[i + j] := XorByte(src[i + j], out[j]);
    }
  }

  lemma StreamSlice(ciph: Block -> Block, npub: Npub, x: Bytes, i: nat, len: nat, out: Bytes)
    requires i % 16 == 0 && i + len <= |x| && len <= |out|
    requires forall k: nat | k < len :: out[k] == KeyByte(ciph, npub, Counter(i), k)
    ensures XorBytes(x[i..i + len], out[..len]) == Stream(ciph, npub, 2, x)[i..i + len]
  {
    hide KeyByte;
    forall k: nat | k < len
      ensures out[k] == KeyByte(ciph, npub, 2, i + k)
    {
      KeyByteAt(ciph, npub, i, k);
    }
  }

  /** aesni_encrypt8full: 128 bytes of message to ciphertext, and their GHASH. */
  method Encrypt8Full(ciph: Block -> Block, npub: Npub, c: array<Byte>, m: array<Byte>, i: nat, n: nat,
                      hv: Reg, h2v: Reg, h3v: Reg, h4v: Reg, acc: Reg, ghost p: Bytes)
    returns (n': nat, accum: Reg)
    requires Aligned(i) && i + 128 <= |p| && |p| <= m.Length && |p| <= c.Length
    requires n == Counter(i)
    requires m[i..|p|] == p[i..]
    requires h2v == Mulv(hv, hv) && h3v == Mulv(h2v, hv) && h4v == Mulv(h3v, hv)
    modifies c
    ensures n' == Counter(i + 128)
    ensures c[..i] == old(c[..i]) && c[i + 128..] == old(c[i + 128..])
    ensures c[i..i + 128] == Stream(ciph, npub, 2, p)[i..i + 128]
    ensures accum == GhashPadded(hv, acc, Stream(ciph, npub, 2, p)[i..i + 128])
  {
    hide Mulv, KeyByte, Stream, XorBytes, GhashPadded, Aligned, Counter, Rnd128;
    AlignedGroup(i, |p|);
    assert m[i..i + 128] == m[i..|p|][..128] == p[i..i + 128];
    var out;
    out, n' := KeyStream8(ciph, npub, n);
    StreamSlice(ciph, npub, p, i, 128, out);
    XorInto(c, m, i, 128, out);
    assert out[..128] == out;
    accum := Accumulate128(c[i..i + 128], hv, h2v, h3v, h4v, acc);
  }

  /** LOOPRND128: the 8-block groups. */
  method EncryptGroups(ciph: Block -> Block, npub: Npub, c: array<Byte>, m: array<Byte>, mlen: nat,
                       hv: Reg, h2v: Reg, h3v: Reg, h4v: Reg, acc: Reg)
    returns (n: nat, accum: Reg)
    requires mlen <= m.Length && mlen <= c.Length
    requires h2v == Mulv(hv, hv) && h3v == Mulv(h2v, hv) && h4v == Mulv(h3v, hv)
    modifies c
    ensures var ct := Stream(ciph, npub, 2, old(m[..mlen])); var rnd128 := Rnd128(mlen);
      && n == Counter(rnd128)
      && c[..rnd128] == ct[..rnd128] && c[mlen..] == old(c[mlen..])
      && m[rnd128..mlen] == old(m[rnd128..mlen])
      && accum == GhashPadded(hv, acc, ct[..rnd128])
  {
    hide Mulv, Stream, GhashPadded, Aligned, Counter, Rnd128;
    ghost var p := m[..mlen];
    ghost var ct := Stream(ciph, npub, 2, p);
    var rnd128 := Rnd128(mlen);
    GroupBounds(mlen);
    n, accum := 2, acc;
    GhashNothing(hv, acc);
    var i := 0;
    while i < rnd128
      invariant 0 <= i <= rnd128 && Aligned(i)
      invariant n == Counter(i)
      invariant c[..i] == ct[..i] && c[mlen..] == old(c[mlen..])
      invariant m[i..mlen] == p[i..]
      invariant accum == GhashPadded(hv, acc, ct[..i])
    {
      ghost var before, mBefore := c[..], m[..];
      AlignedGroup(i, mlen);
      n, accum := Encrypt8Full(ciph, npub, c, m, i, n, hv, h2v, h3v, h4v, accum, p);
      Tail(mBefore, m[..], p, i, 128);
      Written(before, c[..], ct, i, 128);
      Append(hv, acc, ct, i, i + 128);
      i := i + 128;
    }
  }

  /** LOOPRMD128: what is left, block by block. The loop body runs at most once. */
  method EncryptRest(ciph: Block -> Block, npub: Npub, c: array<Byte>, m: array<Byte>, mlen: nat, n_: nat,
                     hv: Reg, ghost y: Reg, acc: Reg, ghost p: Bytes) returns (accum: Reg)
    requires |p| == mlen <= m.Length && mlen <= c.Length
    requires var ct := Stream(ciph, npub, 2, p); var rnd128 := Rnd128(mlen);
      && n_ == Counter(rnd128)
      && c[..rnd128] == ct[..rnd128] && m[rnd128..mlen] == p[rnd128..]
      && acc == GhashPadded(hv, y, ct[..rnd128])
    modifies c
    ensures c[..mlen] == Stream(ciph, npub, 2, p) && c[mlen..] == old(c[mlen..])
    ensures accum == GhashPadded(hv, y, c[..mlen])
  {
    hide KeyByte, Stream, XorBytes, GhashPadded, Aligned, Counter, Rnd128;
    ghost var ct := Stream(ciph, npub, 2, p);
    var rnd128 := Rnd128(mlen);
    GroupBounds(mlen);
    var n := n_;
    accum := acc;
    var i := rnd128;
    while i < mlen
      invariant i == rnd128 || i == rnd128 + 128 > mlen
      invariant i == rnd128 ==> n == n_ && c[..] == old(c[..]) && m[i..mlen] == p[i..] && accum == acc
      invariant i >= mlen ==> c[..mlen] == ct && c[mlen..] == old(c[mlen..]) && accum == GhashPadded(hv, y, ct)
    {
      ghost var before := c[..];
      var mj := 128;
      var out;
      out, n := KeyStream8(ciph, npub, n);
      if i + mj >= mlen {
        mj := mlen - i;
      }
      assert m[i..i + mj] == p[i..i + mj];
      XorInto(c, m, i, mj, out);
      StreamSlice(ciph, npub, p, i, mj, out);
      Written(before, c[..], ct, i, mj);
      assert c[..mlen] == ct;
      GhashNothing(hv, accum);
      assert c[i..i + 0] == [] && c[i..i + mj] == ct[i..mlen];
      accum := AbsorbTail(accum, c, i, 0, mj, hv, accum);
      Append(hv, y, ct, i, mlen);
      assert ct[..mlen] == ct;
      i := i + 128;
    }
  }

  lemma Tail(before: Bytes, after: Bytes, p: Bytes, i: nat, len: nat)
    requires |before| == |after| && i + len <= |p| <= |before|
    requires after[i + len..] == before[i + len..] && before[i..|p|] == p[i..]
    ensures after[i + len..|p|] == p[i + len..]
  {
    assert after[i + len..|p|] == after[i + len..][..|p| - i - len];
    assert p[i + len..] == p[i..][len..];
  }

  lemma GhashNothing(h: Reg, y: Reg)
    ensures GhashPadded(h, y, []) == y
  {}

  lemma Written(before: Bytes, after: Bytes, ct: Bytes, i: nat, len: nat)
    requires |before| == |after| && i + len <= |ct| <= |before|
    requires before[..i] == ct[..i]
    requires after[..i] == before[..i] && after[i + len..] == before[i + len..]
    requires after[i..i + len] == ct[i..i + len]
    ensures after[..i + len] == ct[..i + len]
    ensures after[|ct|..] == before[|ct|..]
  {
    assert after[..i + len] == after[..i] + after[i..i + len];
    assert after[|ct|..] == after[i + len..][|ct| - i - len..];
    assert before[|ct|..] == before[i + len..][|ct| - i - len..];
  }

  /** crypto_aead_aes256gcm_encrypt_detached_afternm is GCM-AE. The message and the ciphertext may
      share a buffer, and the tag may follow the ciphertext in its buffer. */
  method EncryptDetached(ciph: Block -> Block, npub: Npub, c: array<Byte>, mac: array<Byte>, macOff: nat,
                         m: array<Byte>, mlen: nat, ad: array<Byte>, adlen: nat)
    requires mlen <= MESSAGEBYTES_MAX && mlen <= m.Length && mlen <= c.Length && adlen <= ad.Length
    requires macOff + 16 <= mac.Length && (mac == c ==> macOff >= mlen)
    modifies c, mac
    ensures (c[..mlen], mac[macOff..macOff + 16]) == GcmAe(ciph, npub, old(m[..mlen]), old(ad[..adlen]))
    ensures forall k | mlen <= k < c.Length && !(mac == c && macOff <= k < macOff + 16) :: c[k] == old(c[k])
    ensures mac != c ==> mac[..macOff] == old(mac[..macOff]) && mac[macOff + 16..] == old(mac[macOff + 16..])
  {
    hide Mulv, Stream, GhashPadded, Dot, Xor, Load, Store, Lengths, Gctr, TagOf, Tag, Inc32, J0, Zero;
    ghost var p, a := m[..mlen], ad[..adlen];
    var t := ciph(J0(npub));
    var fb := Lengths(adlen, mlen);
    var hv := Load(ciph(Zeros(16)));
    var h2v := Mulv(hv, hv);
    var h3v := Mulv(h2v, hv);
    var h4v := Mulv(h3v, hv);
    var accum := AbsorbAd(ad, adlen, hv, h2v, h3v, h4v);
    ghost var y := accum;
    var n;
    n, accum := EncryptGroups(ciph, npub, c, m, mlen, hv, h2v, h3v, h4v, accum);
    accum := EncryptRest(ciph, npub, c, m, mlen, n, hv, y, accum, p);
    ghost var ct := c[..mlen];
    accum := Mulv(Xor(Load(fb), accum), hv);
    XorComm(Load(fb), GhashPadded(hv, y, ct));
    MulvIsDot(Xor(GhashPadded(hv, y, ct), Load(fb)), hv);
    ghost var before := c[..];
    WriteTag(mac, macOff, t, accum);
    assert c[..mlen] == ct by {
      if mac == c {
        assert c[..mlen] == c[..macOff][..mlen] && before[..mlen] == before[..macOff][..mlen];
      }
    }
    forall k | mlen <= k < c.Length && !(mac == c && macOff <= k < macOff + 16)
      ensures c[k] == old(c[k])
    {
      assert before[k] == before[mlen..][k - mlen];
      if mac == c && k < macOff {
        assert c[k] == c[..macOff][k];
      } else if mac == c {
        assert c[k] == c[macOff + 16..][k - macOff - 16];
      }
    }
    assert mac[macOff..macOff + 16] == TagOf(ciph, npub, ct, a) by { TagOfUnfold(ciph, npub, ct, a); }
    TagIsTagOf(ciph, npub, ct, a);
    AeIsStream(ciph, npub, p);
  }

  lemma TagOfUnfold(ciph: Block -> Block, npub: Npub, c: Bytes, a: Bytes)
    ensures var h := Load(ciph(Zeros(16)));
      TagOf(ciph, npub, c, a)
      == XorBytes(Store(Dot(Xor(GhashPadded(h, GhashPadded(h, Zero(), a), c), Load(Lengths(|a|, |c|))), h)),
                  ciph(J0(npub)))
  {}

  lemma AeIsStream(ciph: Block -> Block, npub: Npub, p: Bytes)
    ensures Gctr(ciph, Inc32(J0(npub)), p) == Stream(ciph, npub, 2, p)
  {
    assert J0(npub) == CounterBlock(npub, 1);
    hide CounterBlock, Inc32, J0, Gctr, Stream;
    Inc32Counter(npub, 1);
    GctrIsStream(ciph, npub, 2, p);
  }

  /** mac[i] = T[i] ^ accum[15 - i]: the accumulator is stored with its bytes reversed. */
  method WriteTag(mac: array<Byte>, macOff: nat, t: Block, accum: Reg)
    requires macOff + 16 <= mac.Length
    modifies mac
    ensures mac[macOff..macOff + 16] == XorBytes(Store(accum), t)
    ensures mac[..macOff] == old(mac[..macOff]) && mac[macOff + 16..] == old(mac[macOff + 16..])
  {
    hide ByteOf, XorByte, OrByte;
    for i := 0 to 16
      invariant forall k | 0 <= k < i :: mac[macOff + k] == XorByte(t[k], ByteOf(accum, k))
      invariant mac[..macOff] == old(mac[..macOff]) && mac[macOff + 16..] == old(mac[macOff + 16..])
    {
      mac[macOff + i] := XorByte(t[i], ByteOf(accum, i));
    }
    forall k | 0 <= k < 16
      ensures mac[macOff..macOff + 16][k] == XorBytes(Store(accum), t)[k]
    {
      XorByteLaws(t[k], ByteOf(accum, k));
    }
  }


  // ------------------------------------------------------------------ decryption

  /** LOOPACCUMDRND128 and LOOPACCUMDRMD128: GHASH of the ciphertext. */
  method AbsorbCiphertext(c: array<Byte>, clen: nat, hv: Reg, h2v: Reg, h3v: Reg, h4v: Reg, acc: Reg)
    returns (accum: Reg)
    requires clen <= c.Length
    requires h2v == Mulv(hv, hv) && h3v == Mulv(h2v, hv) && h4v == Mulv(h3v, hv)
    ensures accum == GhashPadded(hv, acc, c[..clen])
  {
    hide Mulv, GhashPadded, Aligned, Counter, Rnd128;
    ghost var x := c[..clen];
    accum := acc;
    GhashNothing(hv, acc);
    var rnd128 := Rnd128(clen);
    GroupBounds(clen);
    var i := 0;
    while i < rnd128
      invariant 0 <= i <= rnd128 && Aligned(i)
      invariant accum == GhashPadded(hv, acc, x[..i])
    {
      AlignedGroup(i, clen);
      assert c[i..i + 128] == x[i..i + 128];
      accum := Accumulate128(c[i..i + 128], hv, h2v, h3v, h4v, accum);
      Append(hv, acc, x, i, i + 128);
      i := i + 128;
    }
    assert c[0..0 + rnd128] == x[..rnd128] && c[0..0 + clen] == x;
    accum := AbsorbTail(accum, c, 0, rnd128, clen, hv, acc);
  }

  /** d |= mac[i] ^ (T[i] ^ accum[15 - i]) over the sixteen bytes, tested against zero. */
  method TagDiffers(mac: array<Byte>, macOff: nat, t: Block, accum: Reg) returns (differs: bool)
    requires macOff + 16 <= mac.Length
    ensures differs <==> mac[macOff..macOff + 16] != XorBytes(Store(accum), t)
  {
    hide ByteOf, XorByte, OrByte;
    ghost var tag := XorBytes(Store(accum), t);
    var d: Byte := 0;
    for i := 0 to 16
      invariant d == 0 <==> mac[macOff..macOff + i] == tag[..i]
    {
      ghost var old_d := d;
      d := OrByte(d, XorByte(mac[macOff + i], XorByte(t[i], ByteOf(accum, i))));
      DifferenceBits(old_d, mac[macOff + i], t[i], ByteOf(accum, i));
      assert tag[i] == XorByte(ByteOf(accum, i), t[i]);
      assert mac[macOff..macOff + i + 1] == mac[macOff..macOff + i] + [mac[macOff + i]];
      assert tag[..i + 1] == tag[..i] + [tag[i]];
    }
    assert tag[..16] == tag;
    differs := d != 0;
  }

  lemma DifferenceBits(d: Byte, x: Byte, y: Byte, z: Byte)
    ensures OrByte(d, XorByte(x, XorByte(y, z))) == 0 <==> d == 0 && x == XorByte(z, y)
  {
    hide XorByte, OrByte;
    OrByteZero(d, XorByte(x, XorByte(y, z)));
    XorByteLaws(x, XorByte(y, z));
    XorByteLaws(y, z);
  }

  /** LOOPDRND128 and LOOPDRMD128. */
  method DecryptLoops(ciph: Block -> Block, npub: Npub, m: array<Byte>, c: array<Byte>, mlen: nat)
    requires mlen <= m.Length && mlen <= c.Length
    modifies m
    ensures m[..mlen] == Stream(ciph, npub, 2, old(c[..mlen])) && m[mlen..] == old(m[mlen..])
  {
    hide KeyByte, Stream, XorBytes, Aligned, Counter, Rnd128;
    ghost var x := c[..mlen];
    ghost var pt := Stream(ciph, npub, 2, x);
    var rnd128 := Rnd128(mlen);
    GroupBounds(mlen);
    var n := 2;
    var i := 0;
    while i < rnd128
      invariant 0 <= i <= rnd128 && Aligned(i)
      invariant n == Counter(i)
      invariant m[..i] == pt[..i] && m[mlen..] == old(m[mlen..])
      invariant c[i..mlen] == x[i..]
    {
      AlignedGroup(i, mlen);
      n := DecryptPart(ciph, npub, m, c, i, 128, n, x);
      i := i + 128;
    }
    i := rnd128;
    while i < mlen
      invariant i == rnd128 || i == rnd128 + 128 > mlen
      invariant i == rnd128 ==> n == Counter(i) && m[..i] == pt[..i] && c[i..mlen] == x[i..]
      invariant m[mlen..] == old(m[mlen..])
      invariant i >= mlen ==> m[..mlen] == pt
    {
      var mj := 128;
      if i + mj >= mlen {
        mj := mlen - i;
      }
      n := DecryptPart(ciph, npub, m, c, i, mj, n, x);
      assert m[..mlen] == pt;
      i := i + 128;
    }
  }

  /** Eight counters of key stream on len bytes. */
  method DecryptPart(ciph: Block -> Block, npub: Npub, m: array<Byte>, c: array<Byte>, i: nat, len: nat,
                     n: nat, ghost x: Bytes) returns (n': nat)
    requires Aligned(i) && len <= 128 && i + len <= |x| && |x| <= m.Length && |x| <= c.Length
    requires n == Counter(i) && c[i..|x|] == x[i..]
    requires m[..i] == Stream(ciph, npub, 2, x)[..i]
    modifies m
    ensures n' == (n + 8) % WORD32
    ensures m[..i + len] == Stream(ciph, npub, 2, x)[..i + len] && m[|x|..] == old(m[|x|..])
    ensures c[i + len..|x|] == x[i + len..]
  {
    hide KeyByte, Stream, XorBytes, Aligned, Counter, Rnd128;
    AlignedGroup(i, |x|);
    ghost var before, cBefore := m[..], c[..];
    var out;
    out, n' := KeyStream8(ciph, npub, n);
    assert c[i..i + len] == c[i..|x|][..len] == x[i..i + len];
    XorInto(m, c, i, len, out);
    StreamSlice(ciph, npub, x, i, len, out);
    Written(before, m[..], Stream(ciph, npub, 2, x), i, len);
    Tail(cBefore, c[..], x, i, len);
  }

  /** crypto_aead_aes256gcm_decrypt_detached_afternm is GCM-AD: it returns 0 exactly when the tag is
      right, and a wrong tag leaves only zeros in the output buffer. m may be null (verify only) and
      may be the ciphertext buffer itself. */
  method DecryptDetached(ciph: Block -> Block, npub: Npub, m: array?<Byte>, c: array<Byte>, clen: nat,
                         mac: array<Byte>, macOff: nat, ad: array<Byte>, adlen: nat) returns (ret: int)
    requires clen <= MESSAGEBYTES_MAX && clen <= c.Length && adlen <= ad.Length && macOff + 16 <= mac.Length
    requires m != null ==> clen <= m.Length
    modifies if m == null then {} else {m}
    ensures var result := GcmAd(ciph, npub, old(c[..clen]), old(ad[..adlen]), old(mac[macOff..macOff + 16]));
      && ret == (if result.Plaintext? then 0 else -1)
      && (m != null ==> m[..clen] == (if result.Plaintext? then result.p else Zeros(clen)))
    ensures m != null ==> m[clen..] == old(m[clen..])
  {
    hide Mulv, Stream, GhashPadded, Dot, Xor, Load, Store, Lengths, Gctr, TagOf, Tag, Inc32, J0, Zero;
    ghost var x, a := c[..clen], ad[..adlen];
    var t := ciph(J0(npub));
    var fb := Lengths(adlen, clen);
    var hv := Load(ciph(Zeros(16)));
    var h2v := Mulv(hv, hv);
    var h3v := Mulv(h2v, hv);
    var h4v := Mulv(h3v, hv);
    var accum := AbsorbAd(ad, adlen, hv, h2v, h3v, h4v);
    ghost var y := accum;
    accum := AbsorbCiphertext(c, clen, hv, h2v, h3v, h4v, accum);
    accum := Mulv(Xor(Load(fb), accum), hv);
    XorComm(Load(fb), GhashPadded(hv, y, x));
    MulvIsDot(Xor(GhashPadded(hv, y, x), Load(fb)), hv);
    TagOfUnfold(ciph, npub, x, a);
    TagIsTagOf(ciph, npub, x, a);
    AeIsStream(ciph, npub, x);
    var d := TagDiffers(mac, macOff, t, accum);
    if d {
      if m != null {
        Memzero(m, clen);
      }
      return -1;
    }
    if m != null {
      DecryptLoops(ciph, npub, m, c, clen);
    }
    return 0;
  }

  method Memzero(m: array<Byte>, len: nat)
    requires len <= m.Length
    modifies m
    ensures m[..len] == Zeros(len) && m[len..] == old(m[len..])
  {
    for i := 0 to len
      invariant m[..i] == Zeros(i) && m[len..] == old(m[len..])
    {
      m[i] := 0;
    }
  }

  /** crypto_aead_aes256gcm_encrypt_afternm: the ciphertext followed by its tag. */
  method Encrypt(ciph: Block -> Block, npub: Npub, c: array<Byte>, m: array<Byte>, mlen: nat,
                 ad: array<Byte>, adlen: nat) returns (clen: nat)
    requires mlen <= MESSAGEBYTES_MAX && mlen <= m.Length && mlen + 16 <= c.Length && adlen <= ad.Length
    modifies c
    ensures clen == mlen + 16
    ensures (c[..mlen], c[mlen..clen]) == GcmAe(ciph, npub, old(m[..mlen]), old(ad[..adlen]))
    ensures c[clen..] == old(c[clen..])
  {
    EncryptDetached(ciph, npub, c, c, mlen, m, mlen, ad, adlen);
    clen := mlen + 16;
  }

  /** crypto_aead_aes256gcm_decrypt_afternm on a ciphertext with its tag appended. */
  method Decrypt(ciph: Block -> Block, npub: Npub, m: array?<Byte>, c: array<Byte>, clen: nat,
                 ad: array<Byte>, adlen: nat) returns (ret: int, mlen: nat)
    requires clen <= MESSAGEBYTES_MAX + 16 && clen <= c.Length && adlen <= ad.Length
    requires m != null && clen >= 16 ==> clen - 16 <= m.Length
    modifies if m == null then {} else {m}
    ensures clen < 16 ==> ret == -1 && mlen == 0 && (m != null ==> m[..] == old(m[..]))
    ensures clen >= 16 ==>
      var result := GcmAd(ciph, npub, old(c[..clen - 16]), old(ad[..adlen]), old(c[clen - 16..clen]));
      && ret == (if result.Plaintext? then 0 else -1)
      && mlen == (if result.Plaintext? then clen - 16 else 0)
      && (m != null ==> m[..clen - 16] == (if result.Plaintext? then result.p else Zeros(clen - 16)))
  {
    hide GcmAd;
    ret, mlen := -1, 0;
    if clen >= 16 {
      ret := DecryptDetached(ciph, npub, m, c, clen - 16, c, clen - 16, ad, adlen);
      assert c[clen - 16..clen - 16 + 16] == c[clen - 16..clen];
    }
    if ret == 0 {
      mlen := clen - 16;
    }
  }

  /** A message that went through both wrappers, each end with its own buffers. */
  method SealThenOpen(ciph: Block -> Block, npub: Npub, c: array<Byte>, m: array<Byte>, mlen: nat,
                      ad: array<Byte>, adlen: nat, m': array<Byte>) returns (ret: int, mlen': nat)
    requires mlen <= MESSAGEBYTES_MAX && mlen <= m.Length && mlen <= m'.Length
    requires mlen + 16 <= c.Length && adlen <= ad.Length && c != ad
    modifies c, m'
    ensures ret == 0 && mlen' == mlen && m'[..mlen] == old(m[..mlen])
  {
    hide GcmAe, GcmAd;
    ghost var p, a := m[..mlen], ad[..adlen];
    var clen := Encrypt(ciph, npub, c, m, mlen, ad, adlen);
    GcmRoundTrip(ciph, npub, p, a);
    assert c[..clen - 16] == c[..mlen] && c[clen - 16..clen] == c[mlen..clen];
    ret, mlen' := Decrypt(ciph, npub, m', c, clen, ad, adlen);
    assert m'[..clen - 16] == m'[..mlen];
  }
}
