/** GF(2^128) as the AES-GCM code computes it: four 64-bit carry-less products and a
    shift/XOR reduction network over a 128-bit register, proved equal to the bit-serial
    block multiplication of section 6.3 of NIST SP 800-38D.

    A register is the list of its bits from the most significant one. Loading a block with
    its bytes reversed therefore gives the block's own bit string x_0 x_1 ... x_127. */
module Gf128 {

  type Reg = x: seq<bool> | |x| == 128 witness seq(128, i => false)

  // ------------------------------------------------------------------ SSE intrinsics

  /** _mm_setzero_si128 */
  function Zero(): (r: Reg) { seq(128, i => false) }

  /** _mm_xor_si128 */
  function Xor(x: Reg, y: Reg): (r: Reg)
  {
    seq(128, i requires 0 <= i < 128 => x[i] != y[i])
  }

  /** _mm_or_si128 */
  function Or(x: Reg, y: Reg): (r: Reg)
  {
    seq(128, i requires 0 <= i < 128 => x[i] || y[i])
  }

  /** _mm_slli_si128 for k bits (the instruction shifts whole bytes) */
  function Shl(x: Reg, k: nat): (r: Reg)
  {
    seq(128, i requires 0 <= i < 128 => i + k < 128 && x[i + k])
  }

  /** _mm_srli_si128 for k bits */
  function Shr(x: Reg, k: nat): (r: Reg)
  {
    seq(128, i requires 0 <= i < 128 => i >= k && x[i - k])
  }

  /** _mm_slli_epi32: every 32-bit lane on its own */
  function Sll32(x: Reg, k: nat): (r: Reg)
  {
    seq(128, i requires 0 <= i < 128 => i % 32 + k < 32 && x[i + k])
  }

  /** _mm_srli_epi32 */
  function Srl32(x: Reg, k: nat): (r: Reg)
  {
    seq(128, i requires 0 <= i < 128 => i % 32 >= k && x[i - k])
  }

  // ------------------------------------------------------------------ the standard's product

  function Keep(c: bool, v: Reg): (r: Reg) { if c then v else Zero() }

  /** The register with the single bit i set. */
  function Mono(p: nat): (r: Reg)
  {
    seq(128, i requires 0 <= i < 128 => i == p)
  }

  /** R = 11100001 || 0^120 */
  function R(): (r: Reg)
  {
    seq(128, i requires 0 <= i < 128 => i == 0 || i == 1 || i == 2 || i == 7)
  }

  /** V_(i+1) from V_i: multiplication of a block by x. */
  function XTime(v: Reg): (r: Reg) {
    Xor(Shr(v, 1), Keep(v[127], R()))
  }

  /** X . Y of section 6.3: scan X from the left while V runs through Y, Y*x, Y*x^2, ... */
  function Dot(x: seq<bool>, v: Reg): (z: Reg) {
    if x == [] then Zero() else Xor(Keep(x[0], v), Dot(x[1..], XTime(v)))
  }

  // ------------------------------------------------------------------ XOR algebra

  lemma XorComm(a: Reg, b: Reg)
    ensures Xor(a, b) == Xor(b, a)
  {}

  lemma XorAssoc(a: Reg, b: Reg, c: Reg)
    ensures Xor(Xor(a, b), c) == Xor(a, Xor(b, c))
  {}

  lemma XorZero(a: Reg)
    ensures Xor(a, Zero()) == a == Xor(Zero(), a)
    ensures Xor(a, a) == Zero()
  {}

  lemma Xor4(a: Reg, b: Reg, c: Reg, d: Reg)
    ensures Xor(Xor(a, b), Xor(c, d)) == Xor(Xor(a, c), Xor(b, d))
  {}

  lemma KeepXor(c: bool, u: Reg, v: Reg)
    ensures Keep(c, Xor(u, v)) == Xor(Keep(c, u), Keep(c, v))
  {
    XorZero(Zero());
  }

  lemma KeepXorBits(c: bool, d: bool, v: Reg)
    ensures Keep(c != d, v) == Xor(Keep(c, v), Keep(d, v))
  {
    XorZero(v);
    XorZero(Zero());
  }

  lemma ShiftXor(u: Reg, v: Reg, k: nat)
    ensures Shr(Xor(u, v), k) == Xor(Shr(u, k), Shr(v, k))
    ensures Shl(Xor(u, v), k) == Xor(Shl(u, k), Shl(v, k))
  {}

  lemma XTimeXor(u: Reg, v: Reg)
    ensures XTime(Xor(u, v)) == Xor(XTime(u), XTime(v))
  {
    assert Xor(u, v)[127] == (u[127] != v[127]);
    hide Xor, Keep, Shr, R;
    ShiftXor(u, v, 1);
    KeepXorBits(u[127], v[127], R());
    Xor4(Shr(u, 1), Shr(v, 1), Keep(u[127], R()), Keep(v[127], R()));
  }

  lemma XTimeKeep(c: bool, v: Reg)
    ensures XTime(Keep(c, v)) == Keep(c, XTime(v))
  {
    assert XTime(Zero()) == Zero();
  }

  // ------------------------------------------------------------------ linearity of the product

  lemma {:induction false} DotXorLeft(x: Reg, y: Reg, v: Reg)
    ensures Dot(Xor(x, y), v) == Xor(Dot(x, v), Dot(y, v))
  {
    DotXorLeftBits(x, y, Xor(x, y), v);
  }

  lemma {:induction false} DotXorLeftBits(x: seq<bool>, y: seq<bool>, z: seq<bool>, v: Reg)
    requires |x| == |y| == |z| && forall i | 0 <= i < |x| :: z[i] == (x[i] != y[i])
    ensures Dot(z, v) == Xor(Dot(x, v), Dot(y, v))
  {
    if x == [] {
      XorZero(Zero());
    } else {
      DotXorLeftBits(x[1..], y[1..], z[1..], XTime(v));
      hide Xor, Keep, XTime;
      KeepXorBits(x[0], y[0], v);
      Xor4(Keep(x[0], v), Keep(y[0], v), Dot(x[1..], XTime(v)), Dot(y[1..], XTime(v)));
    }
  }

  lemma {:induction false} DotXorRight(x: seq<bool>, u: Reg, v: Reg)
    ensures Dot(x, Xor(u, v)) == Xor(Dot(x, u), Dot(x, v))
  {
    if x == [] {
      XorZero(Zero());
    } else {
      hide Xor, Keep, XTime;
      XTimeXor(u, v);
      KeepXor(x[0], u, v);
      DotXorRight(x[1..], XTime(u), XTime(v));
      Xor4(Keep(x[0], u), Keep(x[0], v), Dot(x[1..], XTime(u)), Dot(x[1..], XTime(v)));
    }
  }

  lemma {:induction false} DotXTime(x: seq<bool>, v: Reg)
    ensures Dot(x, XTime(v)) == XTime(Dot(x, v))
  {
    if x == [] {
      assert XTime(Zero()) == Zero();
    } else {
      hide Xor, Keep, XTime;
      DotXTime(x[1..], XTime(v));
      XTimeKeep(x[0], v);
      XTimeXor(Keep(x[0], v), Dot(x[1..], XTime(v)));
    }
  }

  // ------------------------------------------------------------------ carry-less multiplication

  /** PCLMULQDQ: the XOR of the left shifts of a selected by the bits of b. */
  function Clmul(a: Reg, b: seq<bool>): (r: Reg)
    decreases |b|
  {
    if b == [] then Zero() else Xor(Keep(b[|b| - 1], a), Clmul(Shl(a, 1), b[..|b| - 1]))
  }

  /** A 64-bit half, zero-extended: the high half is x[..64]. */
  function Extend(w: seq<bool>): (r: Reg)
    requires |w| == 64
  {
    seq(128, i requires 0 <= i < 128 => i >= 64 && w[i - 64])
  }

  function ClmulLoLo(x: Reg, y: Reg): (r: Reg) { Clmul(Extend(x[64..]), y[64..]) } // imm 0x00
  function ClmulLoHi(x: Reg, y: Reg): (r: Reg) { Clmul(Extend(x[64..]), y[..64]) } // imm 0x10
  function ClmulHiLo(x: Reg, y: Reg): (r: Reg) { Clmul(Extend(x[..64]), y[64..]) } // imm 0x01
  function ClmulHiHi(x: Reg, y: Reg): (r: Reg) { Clmul(Extend(x[..64]), y[..64]) } // imm 0x11

  lemma {:induction false} ClmulXorLeft(a: Reg, c: Reg, b: seq<bool>)
    ensures Clmul(Xor(a, c), b) == Xor(Clmul(a, b), Clmul(c, b))
    decreases |b|
  {
    if b == [] {
      XorZero(Zero());
    } else {
      hide Xor, Keep, Shl;
      var t, rest := b[|b| - 1], b[..|b| - 1];
      ShiftXor(a, c, 1);
      KeepXor(t, a, c);
      ClmulXorLeft(Shl(a, 1), Shl(c, 1), rest);
      Xor4(Keep(t, a), Keep(t, c), Clmul(Shl(a, 1), rest), Clmul(Shl(c, 1), rest));
    }
  }

  lemma {:induction false} ClmulXorRight(a: Reg, b: seq<bool>, c: seq<bool>, d: seq<bool>)
    requires |b| == |c| == |d| && forall i | 0 <= i < |b| :: d[i] == (b[i] != c[i])
    ensures Clmul(a, d) == Xor(Clmul(a, b), Clmul(a, c))
    decreases |b|
  {
    if b == [] {
      XorZero(Zero());
    } else {
      hide Xor, Keep, Shl;
      var n := |b| - 1;
      KeepXorBits(b[n], c[n], a);
      ClmulXorRight(Shl(a, 1), b[..n], c[..n], d[..n]);
      Xor4(Keep(b[n], a), Keep(c[n], a), Clmul(Shl(a, 1), b[..n]), Clmul(Shl(a, 1), c[..n]));
    }
  }

  lemma ShlKeep(c: bool, v: Reg)
    ensures Shl(Keep(c, v), 1) == Keep(c, Shl(v, 1))
  {
    assert Shl(Zero(), 1) == Zero();
  }

  lemma {:induction false} ClmulShl(a: Reg, b: seq<bool>)
    ensures Clmul(Shl(a, 1), b) == Shl(Clmul(a, b), 1)
    decreases |b|
  {
    if b == [] {
      assert Shl(Zero(), 1) == Zero();
    } else {
      hide Xor, Keep, Shl;
      var t, rest := b[|b| - 1], b[..|b| - 1];
      ClmulShl(Shl(a, 1), rest);
      ShlKeep(t, a);
      ShiftXor(Keep(t, a), Clmul(Shl(a, 1), rest), 1);
    }
  }

  /** Multiplying by a single bit moves the other operand. */
  lemma {:induction false} ClmulMono(p: nat, b: seq<bool>)
    requires |b| <= p + 1 <= 128
    ensures forall i | 0 <= i < 128 ::
      Clmul(Mono(p), b)[i] == (p + 1 - |b| <= i <= p && b[i - (p + 1 - |b|)])
  {
    if |b| == 1 {
      assert Clmul(Shl(Mono(p), 1), b[..0]) == Zero();
    } else if b != [] {
      assert Shl(Mono(p), 1) == Mono(p - 1);
      ClmulMono(p - 1, b[..|b| - 1]);
    }
  }

  lemma {:induction false} ClmulZero(b: seq<bool>)
    ensures Clmul(Zero(), b) == Zero()
  {
    if b != [] {
      assert Shl(Zero(), 1) == Zero();
      ClmulZero(b[..|b| - 1]);
      XorZero(Zero());
    }
  }

  /** A product has no bit left of the sum of the degrees. */
  lemma {:induction false} ClmulDegree(a: Reg, b: seq<bool>, z: nat)
    requires |b| <= z <= 128 && forall i | 0 <= i < z :: !a[i]
    ensures forall i | 0 <= i <= z - |b| && i < 128 && b != [] :: !Clmul(a, b)[i]
    decreases |b|
  {
    if |b| == 1 {
      assert Clmul(Shl(a, 1), b[..0]) == Zero();
    } else if b != [] {
      ClmulDegree(Shl(a, 1), b[..|b| - 1], z - 1);
    }
  }

  // ------------------------------------------------------------------ the reduction network

  /** The network shared by addmul, mulv and MULREDUCE4, on the low and high halves of an
      unreduced 255-bit product. */
  function Reduce(tmp15: Reg, tmp17: Reg): (r: Reg) {
    var tmp7 := Srl32(tmp15, 31);
    var tmp8 := Srl32(tmp17, 31);
    var tmp16 := Sll32(tmp15, 1);
    var tmp18 := Sll32(tmp17, 1);
    var tmp9 := Shr(tmp7, 96);
    var tmp22 := Shl(tmp8, 32);
    var tmp25 := Shl(tmp7, 32);
    var tmp29 := Or(tmp16, tmp25);
    var tmp19 := Or(tmp18, tmp22);
    var tmp20 := Or(tmp19, tmp9);
    var tmp26 := Sll32(tmp29, 31);
    var tmp23 := Sll32(tmp29, 30);
    var tmp32 := Sll32(tmp29, 25);
    var tmp27 := Xor(tmp26, tmp23);
    var tmp28 := Xor(tmp27, tmp32);
    var tmp24 := Shr(tmp28, 32);
    var tmp33 := Shl(tmp28, 96);
    var tmp30 := Xor(tmp29, tmp33);
    var tmp2 := Srl32(tmp30, 1);
    var tmp12 := Srl32(tmp30, 2);
    var tmp14 := Srl32(tmp30, 7);
    var tmp34 := Xor(tmp2, tmp12);
    var tmp35 := Xor(tmp34, tmp14);
    var tmp36 := Xor(tmp35, tmp24);
    var tmp31 := Xor(tmp30, tmp36);
    Xor(tmp20, tmp31)
  }

  /** The bits that fall off the right end of l under the shifts by 1, 2 and 7. */
  function Fallen(l: Reg): (r: Reg) { Xor(Xor(Shl(l, 127), Shl(l, 126)), Shl(l, 121)) }

  function Fold(l: Reg): (r: Reg) { Xor(l, Fallen(l)) }

  /** Multiplication by 1 + x + x^2 + x^7, dropping what falls off. */
  function Spread(t: Reg): (r: Reg) { Xor(t, Xor(Xor(Shr(t, 1), Shr(t, 2)), Shr(t, 7))) }

  /** The network without its lanes: double the product, then reduce its low half. */
  function ReduceWide(lo: Reg, hi: Reg): (r: Reg) {
    Xor(Xor(Shl(hi, 1), Shr(lo, 127)), Spread(Fold(Shl(lo, 1))))
  }

  lemma LanesDouble(lo: Reg, hi: Reg)
    ensures Or(Sll32(lo, 1), Shl(Srl32(lo, 31), 32)) == Shl(lo, 1)
    ensures Or(Or(Sll32(hi, 1), Shl(Srl32(hi, 31), 32)), Shr(Srl32(lo, 31), 96))
         == Xor(Shl(hi, 1), Shr(lo, 127))
  {}

  /** A lane shift plus the bits that cross into the next lane is a shift of the register. */
  lemma LanesCross(l: Reg, t: Reg, k: nat)
    requires 0 < k <= 7 && forall i | 7 <= i < 128 :: t[i] == l[i]
    ensures Xor(Srl32(t, k), Shr(Sll32(l, 32 - k), 32)) == Shr(t, k)
    ensures Shl(Sll32(l, 32 - k), 96) == Shl(l, 128 - k)
  {}

  lemma FoldKeeps(l: Reg)
    ensures forall i | 7 <= i < 128 :: Fold(l)[i] == l[i]
  {}

  lemma ReduceIsWide(lo: Reg, hi: Reg)
    ensures Reduce(lo, hi) == ReduceWide(lo, hi)
  {
    hide Xor, Shl, Shr, Sll32, Srl32, Or;
    var l := Shl(lo, 1);
    var t := Fold(l);
    LanesDouble(lo, hi);
    FoldKeeps(l);
    LanesCross(l, t, 1);
    LanesCross(l, t, 2);
    LanesCross(l, t, 7);
    var a, b, c := Sll32(l, 31), Sll32(l, 30), Sll32(l, 25);
    ShiftXor(a, b, 32);
    ShiftXor(Xor(a, b), c, 32);
    ShiftXor(a, b, 96);
    ShiftXor(Xor(a, b), c, 96);
    var a', b', c' := Srl32(t, 1), Srl32(t, 2), Srl32(t, 7);
    Xor4(Xor(a', b'), c', Xor(Shr(a, 32), Shr(b, 32)), Shr(c, 32));
    Xor4(a', b', Shr(a, 32), Shr(b, 32));
  }

  lemma FallenXor(u: Reg, v: Reg)
    ensures Fallen(Xor(u, v)) == Xor(Fallen(u), Fallen(v))
  {
    hide Xor, Shl;
    ShiftXor(u, v, 127);
    ShiftXor(u, v, 126);
    ShiftXor(u, v, 121);
    Xor4(Shl(u, 127), Shl(v, 127), Shl(u, 126), Shl(v, 126));
    Xor4(Xor(Shl(u, 127), Shl(u, 126)), Xor(Shl(v, 127), Shl(v, 126)), Shl(u, 121), Shl(v, 121));
  }

  lemma SpreadXor(u: Reg, v: Reg)
    ensures Spread(Xor(u, v)) == Xor(Spread(u), Spread(v))
  {
    hide Xor, Shr;
    ShiftXor(u, v, 1);
    ShiftXor(u, v, 2);
    ShiftXor(u, v, 7);
    Xor4(Shr(u, 1), Shr(v, 1), Shr(u, 2), Shr(v, 2));
    Xor4(Xor(Shr(u, 1), Shr(u, 2)), Xor(Shr(v, 1), Shr(v, 2)), Shr(u, 7), Shr(v, 7));
    Xor4(u, v, Xor(Xor(Shr(u, 1), Shr(u, 2)), Shr(u, 7)), Xor(Xor(Shr(v, 1), Shr(v, 2)), Shr(v, 7)));
  }

  lemma SpreadFoldXor(u: Reg, v: Reg)
    ensures Spread(Fold(Xor(u, v))) == Xor(Spread(Fold(u)), Spread(Fold(v)))
  {
    hide Xor, Fallen, Spread;
    FallenXor(u, v);
    Xor4(u, v, Fallen(u), Fallen(v));
    SpreadXor(Fold(u), Fold(v));
  }

  lemma ReduceXor(lo: Reg, hi: Reg, lo': Reg, hi': Reg)
    ensures Reduce(Xor(lo, lo'), Xor(hi, hi')) == Xor(Reduce(lo, hi), Reduce(lo', hi'))
  {
    hide Xor, Shl, Shr, Reduce, Spread, Fold;
    ReduceIsWide(lo, hi);
    ReduceIsWide(lo', hi');
    ReduceIsWide(Xor(lo, lo'), Xor(hi, hi'));
    ShiftXor(hi, hi', 1);
    ShiftXor(lo, lo', 127);
    ShiftXor(lo, lo', 1);
    SpreadFoldXor(Shl(lo, 1), Shl(lo', 1));
    Xor4(Shl(hi, 1), Shl(hi', 1), Shr(lo, 127), Shr(lo', 127));
    Xor4(Xor(Shl(hi, 1), Shr(lo, 127)), Xor(Shl(hi', 1), Shr(lo', 127)),
         Spread(Fold(Shl(lo, 1))), Spread(Fold(Shl(lo', 1))));
  }

  lemma FoldShr(l: Reg)
    requires !l[127]
    ensures Fold(Shr(l, 1)) == Xor(Shr(Fold(l), 1), Keep(Spread(Fold(l))[127], Mono(0)))
  {}

  lemma SpreadShr(t: Reg)
    ensures Shr(Spread(t), 1) == Spread(Shr(t, 1))
    ensures Spread(Mono(0)) == R()
    ensures Spread(Zero()) == Zero()
  {}

  lemma SpreadFoldShr(l: Reg)
    requires !l[127]
    ensures XTime(Spread(Fold(l))) == Spread(Fold(Shr(l, 1)))
  {
    var top := Spread(Fold(l))[127];
    hide Xor, Shr, Spread, Fold, R, Mono, Zero;
    FoldShr(l);
    SpreadShr(Fold(l));
    SpreadXor(Shr(Fold(l), 1), Keep(top, Mono(0)));
  }

  lemma DoubleHigh(lo: Reg, hi: Reg)
    requires !hi[0] && !hi[1]
    ensures XTime(Xor(Shl(Xor(Shl(hi, 1), Shr(lo, 127)), 1), Shr(Shl(lo, 1), 127)))
         == Xor(Xor(Shl(hi, 1), Shr(lo, 127)), Keep(lo[1], R()))
  {}

  lemma DoubleLow(lo: Reg)
    ensures Shl(lo, 1) == Xor(Shr(Shl(Shl(lo, 1), 1), 1), Keep(lo[1], Mono(0)))
    ensures !Shl(Shl(lo, 1), 1)[127]
  {}

  lemma SpreadFoldUnit()
    ensures Spread(Fold(Mono(0))) == R() && Spread(Fold(Zero())) == Zero()
  {
    assert Fold(Mono(0)) == Mono(0);
    assert Fold(Zero()) == Zero();
    hide Spread, Fold;
    SpreadShr(Mono(0));
  }

  /** Doubling the unreduced product divides the reduced one by x. */
  lemma ReduceDouble(lo: Reg, hi: Reg)
    requires !hi[0] && !hi[1]
    ensures XTime(Reduce(Shl(lo, 1), Xor(Shl(hi, 1), Shr(lo, 127)))) == Reduce(lo, hi)
  {
    DoubleHigh(lo, hi);
    DoubleLow(lo);
    var lo', hi' := Shl(lo, 1), Xor(Shl(hi, 1), Shr(lo, 127));
    var h, h' := hi', Xor(Shl(hi', 1), Shr(lo', 127));
    var l, l' := lo', Shl(lo', 1);
    var k := Keep(lo[1], R());
    assert Spread(Fold(Keep(lo[1], Mono(0)))) == k by {
      hide Spread, Fold, Mono, R, Zero;
      SpreadFoldUnit();
    }
    hide Xor, Shl, Shr, Reduce, Spread, Fold, XTime, Keep, R, Mono;
    ReduceIsWide(lo, hi);
    ReduceIsWide(lo', hi');
    XTimeXor(h', Spread(Fold(l')));
    SpreadFoldShr(l');
    SpreadFoldXor(Shr(l', 1), Keep(lo[1], Mono(0)));
    var s := Spread(Fold(Shr(l', 1)));
    assert XTime(Reduce(lo', hi')) == Xor(Xor(h, k), s);
    assert Reduce(lo, hi) == Xor(h, Xor(s, k));
    XorAssoc(h, k, s);
    XorComm(k, s);
  }

  // ------------------------------------------------------------------ mulv

  /** The low half of the unreduced product: tmp15 of addmul and mulv. */
  function ProductLow(x: Reg, y: Reg): (r: Reg) {
    Xor(ClmulLoLo(x, y), Shl(Xor(ClmulLoHi(x, y), ClmulHiLo(x, y)), 64))
  }

  /** The high half: tmp17. */
  function ProductHigh(x: Reg, y: Reg): (r: Reg) {
    Xor(ClmulHiHi(x, y), Shr(Xor(ClmulLoHi(x, y), ClmulHiLo(x, y)), 64))
  }

  function Mulv(x: Reg, y: Reg): (r: Reg) {
    Reduce(ProductLow(x, y), ProductHigh(x, y))
  }

  lemma ExtendXor(u: Reg, v: Reg)
    ensures Extend(Xor(u, v)[..64]) == Xor(Extend(u[..64]), Extend(v[..64]))
    ensures Extend(Xor(u, v)[64..]) == Xor(Extend(u[64..]), Extend(v[64..]))
  {}

  lemma ClmulXor(u: Reg, v: Reg, y: Reg)
    ensures ClmulLoLo(Xor(u, v), y) == Xor(ClmulLoLo(u, y), ClmulLoLo(v, y))
    ensures ClmulLoHi(Xor(u, v), y) == Xor(ClmulLoHi(u, y), ClmulLoHi(v, y))
    ensures ClmulHiLo(Xor(u, v), y) == Xor(ClmulHiLo(u, y), ClmulHiLo(v, y))
    ensures ClmulHiHi(Xor(u, v), y) == Xor(ClmulHiHi(u, y), ClmulHiHi(v, y))
  {
    hide Xor, Extend, Clmul;
    ExtendXor(u, v);
    ClmulXorLeft(Extend(u[64..]), Extend(v[64..]), y[64..]);
    ClmulXorLeft(Extend(u[64..]), Extend(v[64..]), y[..64]);
    ClmulXorLeft(Extend(u[..64]), Extend(v[..64]), y[64..]);
    ClmulXorLeft(Extend(u[..64]), Extend(v[..64]), y[..64]);
  }

  lemma ProductXor(u: Reg, v: Reg, y: Reg)
    ensures ProductLow(Xor(u, v), y) == Xor(ProductLow(u, y), ProductLow(v, y))
    ensures ProductHigh(Xor(u, v), y) == Xor(ProductHigh(u, y), ProductHigh(v, y))
  {
    hide Xor, Shl, Shr, ClmulLoLo, ClmulLoHi, ClmulHiLo, ClmulHiHi;
    ClmulXor(u, v, y);
    var a, b, c, d := ClmulLoLo(u, y), ClmulLoHi(u, y), ClmulHiLo(u, y), ClmulHiHi(u, y);
    var a', b', c', d' := ClmulLoLo(v, y), ClmulLoHi(v, y), ClmulHiLo(v, y), ClmulHiHi(v, y);
    Xor4(b, b', c, c');
    ShiftXor(Xor(b, c), Xor(b', c'), 64);
    Xor4(a, a', Shl(Xor(b, c), 64), Shl(Xor(b', c'), 64));
    Xor4(d, d', Shr(Xor(b, c), 64), Shr(Xor(b', c'), 64));
  }

  /** mulv distributes over XOR. */
  lemma MulvXor(u: Reg, v: Reg, y: Reg)
    ensures Mulv(Xor(u, v), y) == Xor(Mulv(u, y), Mulv(v, y))
  {
    hide Xor, Reduce, ProductLow, ProductHigh;
    ProductXor(u, v, y);
    ReduceXor(ProductLow(u, y), ProductHigh(u, y), ProductLow(v, y), ProductHigh(v, y));
  }

  lemma ClmulMonoHalf(p: nat, b: seq<bool>)
    requires |b| == 64 && (p == 127 || p == 64 || p == 63)
    ensures Clmul(Mono(p), b) == Shl(Extend(b), 127 - p)
  {
    ClmulMono(p, b);
  }

  /** The four partial products of 2x in terms of those of x, when nothing falls off x. */
  lemma ClmulDouble(x: Reg, y: Reg)
    requires !x[0]
    ensures ClmulLoLo(Shl(x, 1), y) == Xor(Shl(ClmulLoLo(x, y), 1), Keep(x[64], Shl(Extend(y[64..]), 64)))
    ensures ClmulLoHi(Shl(x, 1), y) == Xor(Shl(ClmulLoHi(x, y), 1), Keep(x[64], Shl(Extend(y[..64]), 64)))
    ensures ClmulHiLo(Shl(x, 1), y) == Xor(Shl(ClmulHiLo(x, y), 1), Keep(x[64], Extend(y[64..])))
    ensures ClmulHiHi(Shl(x, 1), y) == Xor(Shl(ClmulHiHi(x, y), 1), Keep(x[64], Extend(y[..64])))
  {
    var xl, xh, yl, yh := Extend(x[64..]), Extend(x[..64]), y[64..], y[..64];
    var t := x[64];
    assert Extend(Shl(x, 1)[64..]) == Xor(Shl(xl, 1), Keep(t, Mono(63)));
    assert Extend(Shl(x, 1)[..64]) == Xor(Shl(xh, 1), Keep(t, Mono(127)));
    assert Shl(Extend(yl), 0) == Extend(yl) && Shl(Extend(yh), 0) == Extend(yh);
    hide Xor, Shl, Extend, Clmul, Mono;
    forall w | w == yl || w == yh
      ensures Clmul(Extend(Shl(x, 1)[64..]), w) == Xor(Shl(Clmul(xl, w), 1), Keep(t, Shl(Extend(w), 64)))
      ensures Clmul(Extend(Shl(x, 1)[..64]), w) == Xor(Shl(Clmul(xh, w), 1), Keep(t, Extend(w)))
    {
      ClmulXorLeft(Shl(xl, 1), Keep(t, Mono(63)), w);
      ClmulXorLeft(Shl(xh, 1), Keep(t, Mono(127)), w);
      ClmulShl(xl, w);
      ClmulShl(xh, w);
      ClmulMonoHalf(63, w);
      ClmulMonoHalf(127, w);
      ClmulZero(w);
    }
  }

  lemma ClmulDegrees(x: Reg, y: Reg)
    ensures !ClmulLoLo(x, y)[0] && !ClmulLoHi(x, y)[0] && !ClmulHiLo(x, y)[0] && !ClmulHiHi(x, y)[0]
    ensures !x[0] ==> !ClmulHiHi(x, y)[1]
  {
    ClmulDegree(Extend(x[64..]), y[64..], 64);
    ClmulDegree(Extend(x[64..]), y[..64], 64);
    ClmulDegree(Extend(x[..64]), y[64..], 64);
    ClmulDegree(Extend(x[..64]), y[..64], if x[0] then 64 else 65);
  }

  lemma ProductDouble(x: Reg, y: Reg)
    requires !x[0]
    ensures !ProductHigh(x, y)[0] && !ProductHigh(x, y)[1]
    ensures ProductLow(Shl(x, 1), y) == Shl(ProductLow(x, y), 1)
    ensures ProductHigh(Shl(x, 1), y) == Xor(Shl(ProductHigh(x, y), 1), Shr(ProductLow(x, y), 127))
  {
    ClmulDouble(x, y);
    ClmulDegrees(x, y);
    hide ClmulLoLo, ClmulLoHi, ClmulHiLo, ClmulHiHi;
  }

  lemma MulvDouble(x: Reg, y: Reg)
    requires !x[0]
    ensures Mulv(x, y) == XTime(Mulv(Shl(x, 1), y))
  {
    hide Xor, Shl, Shr, Reduce, ProductLow, ProductHigh, XTime;
    ProductDouble(x, y);
    ReduceDouble(ProductLow(x, y), ProductHigh(x, y));
  }

  lemma ProductUnit(y: Reg)
    ensures ProductLow(Mono(0), y) == Shl(y, 127)
    ensures ProductHigh(Mono(0), y) == Shr(y, 1)
  {
    var yl, yh := y[64..], y[..64];
    assert Extend(Mono(0)[64..]) == Zero();
    assert Extend(Mono(0)[..64]) == Mono(64);
    ClmulZero(yl);
    ClmulZero(yh);
    ClmulMonoHalf(64, yl);
    ClmulMonoHalf(64, yh);
    var c, d := ClmulHiLo(Mono(0), y), ClmulHiHi(Mono(0), y);
    assert c == Shl(Extend(yl), 63) && d == Shl(Extend(yh), 63);
    XorZero(c);
  }

  lemma MulvUnit(y: Reg)
    ensures Mulv(Mono(0), y) == y
    ensures Mulv(Zero(), y) == Zero()
  {
    ProductUnit(y);
    ReduceIsWide(Shl(y, 127), Shr(y, 1));
    assert Shl(Shl(y, 127), 1) == Zero();
    assert Xor(Shl(Shr(y, 1), 1), Shr(Shl(y, 127), 127)) == y;
    assert Mulv(Mono(0), y) == y by {
      hide Xor, Shl, Shr, Spread, Fold, Reduce, ProductLow, ProductHigh;
      SpreadFoldUnit();
      XorZero(y);
    }
    hide Xor, Mulv;
    XorZero(Zero());
    MulvXor(Zero(), Zero(), y);
    XorZero(Mulv(Zero(), y));
  }

  function Pad(x: seq<bool>): (r: Reg)
    requires |x| <= 128
  {
    seq(128, i requires 0 <= i < 128 => i < |x| && x[i])
  }

  /** One step of the scan, on the multiplier that still has to be scanned. */
  lemma PadStep(x: seq<bool>)
    requires 0 < |x| <= 128
    ensures var rest := Shr(Pad(x[1..]), 1);
      && Pad(x) == Xor(Keep(x[0], Mono(0)), rest) && !rest[0]
      && Shl(rest, 1) == Pad(x[1..])
  {}

  lemma {:induction false} MulvIsDotBits(x: seq<bool>, y: Reg)
    requires |x| <= 128
    ensures Mulv(Pad(x), y) == Dot(x, y)
    decreases |x|
  {
    if x == [] {
      assert Pad(x) == Zero();
      MulvUnit(y);
    } else {
      MulvIsDotBits(x[1..], y);
      PadStep(x);
      var rest := Shr(Pad(x[1..]), 1);
      hide Xor, Shl, Shr, Mulv, XTime, Pad, Mono, Zero;
      MulvXor(Keep(x[0], Mono(0)), rest, y);
      MulvUnit(y);
      MulvDouble(rest, y);
      DotXTime(x[1..], y);
    }
  }

  /** The register code computes the standard's block product. */
  lemma MulvIsDot(x: Reg, y: Reg)
    ensures Mulv(x, y) == Dot(x, y)
  {
    assert Pad(x) == x;
    MulvIsDotBits(x, y);
  }

  // ------------------------------------------------------------------ the product is a ring product

  lemma {:induction false} DotMono(x: seq<bool>, k: nat)
    requires |x| + k <= 128
    ensures forall i | 0 <= i < 128 :: Dot(x, Mono(k))[i] == (k <= i < k + |x| && x[i - k])
    decreases |x|
  {
    if |x| == 1 {
      assert Dot(x[1..], XTime(Mono(k))) == Zero();
    } else if x != [] {
      assert XTime(Mono(k)) == Mono(k + 1);
      DotMono(x[1..], k + 1);
    }
  }

  lemma {:induction false} DotZero(x: seq<bool>)
    ensures Dot(x, Zero()) == Zero()
  {
    if x != [] {
      assert XTime(Zero()) == Zero();
      DotZero(x[1..]);
      XorZero(Zero());
    }
  }

  lemma {:induction false} DotExchange(x: seq<bool>, y: seq<bool>, v: Reg)
    ensures Dot(y, Dot(x, v)) == Dot(x, Dot(y, v))
    decreases |x|
  {
    DotZero(y);
    if x != [] {
      hide Xor, XTime, Zero;
      DotXorRight(y, Keep(x[0], v), Dot(x[1..], XTime(v)));
      DotExchange(x[1..], y, XTime(v));
      DotXTime(y, v);
      assert Dot(y, Keep(x[0], v)) == Keep(x[0], Dot(y, v));
    }
  }

  lemma DotUnit(x: Reg)
    ensures Dot(x, Mono(0)) == x
  {
    DotMono(x, 0);
  }

  lemma DotComm(x: Reg, y: Reg)
    ensures Dot(x, y) == Dot(y, x)
  {
    hide Dot, Mono;
    DotUnit(x);
    DotUnit(y);
    DotExchange(x, y, Mono(0));
  }

  lemma DotAssoc(x: Reg, y: Reg, z: Reg)
    ensures Dot(Dot(x, y), z) == Dot(x, Dot(y, z))
  {
    hide Dot;
    DotComm(Dot(x, y), z);
    DotExchange(x, z, y);
    DotComm(y, z);
  }

  // ------------------------------------------------------------------ MULREDUCE4

  /** _mm_shuffle_epi32(x, 0x4e) */
  function SwapHalves(x: Reg): (r: Reg) { x[64..] + x[..64] }

  /** RED_MUL_MID: the middle Karatsuba product of one operand pair. */
  function Middle(h: Reg, x: Reg): (r: Reg) {
    ClmulLoLo(Xor(SwapHalves(h), h), Xor(SwapHalves(x), x))
  }

  function Sum4(a: Reg, b: Reg, c: Reg, d: Reg): (r: Reg) { Xor(Xor(Xor(a, b), c), d) }

  /** MULREDUCE4 on byte-reversed operands: the value it leaves in accv. */
  function MulReduce4(h0: Reg, h1: Reg, h2: Reg, h3: Reg,
                      x0: Reg, x1: Reg, x2: Reg, x3_: Reg, accv: Reg): (r: Reg) {
    var x3 := Xor(x3_, accv);
    var lo := Sum4(ClmulLoLo(h0, x0), ClmulLoLo(h1, x1), ClmulLoLo(h2, x2), ClmulLoLo(h3, x3));
    var hi := Sum4(ClmulHiHi(h0, x0), ClmulHiHi(h1, x1), ClmulHiHi(h2, x2), ClmulHiHi(h3, x3));
    var tmp0 := Xor(Middle(h0, x0), lo);
    var tmp0 := Xor(tmp0, hi);
    var tmp0 := Xor(Middle(h1, x1), tmp0);
    var tmp0 := Xor(Middle(h2, x2), tmp0);
    var tmp0 := Xor(Middle(h3, x3), tmp0);
    Reduce(Xor(Shl(tmp0, 64), lo), Xor(Shr(tmp0, 64), hi))
  }

  function Cross(h: Reg, x: Reg): (r: Reg) { Xor(ClmulLoHi(h, x), ClmulHiLo(h, x)) }

  /** Karatsuba: (x1 + x0)(h1 + h0) = x1*h0 + x0*h1 + x1*h1 + x0*h0. */
  lemma Karatsuba(h: Reg, x: Reg)
    ensures Middle(h, x) == Xor(Cross(h, x), Xor(ClmulLoLo(h, x), ClmulHiHi(h, x)))
  {
    var hs, xs := Xor(SwapHalves(h), h), Xor(SwapHalves(x), x);
    var hl, hh, xl, xh := Extend(h[64..]), Extend(h[..64]), x[64..], x[..64];
    assert Extend(hs[64..]) == Xor(hh, hl);
    assert forall i | 0 <= i < 64 :: xs[64..][i] == (xh[i] != xl[i]);
    hide Xor, Extend, Clmul, SwapHalves;
    ClmulXorLeft(hh, hl, xs[64..]);
    ClmulXorRight(hh, xh, xl, xs[64..]);
    ClmulXorRight(hl, xh, xl, xs[64..]);
    var ll, lh, hl_, hh_ := Clmul(hl, xl), Clmul(hl, xh), Clmul(hh, xl), Clmul(hh, xh);
    XorComm(hh_, hl_);
    Xor4(hl_, hh_, lh, ll);
    XorComm(hl_, lh);
    XorComm(hh_, ll);
  }

  lemma Sum4Xor(a: Reg, b: Reg, c: Reg, d: Reg, a': Reg, b': Reg, c': Reg, d': Reg)
    ensures Sum4(Xor(a, a'), Xor(b, b'), Xor(c, c'), Xor(d, d')) == Xor(Sum4(a, b, c, d), Sum4(a', b', c', d'))
  {
    hide Xor;
    Xor4(a, a', b, b');
    Xor4(Xor(a, b), Xor(a', b'), c, c');
    Xor4(Xor(Xor(a, b), c), Xor(Xor(a', b'), c'), d, d');
  }

  lemma Sum4Shift(a: Reg, b: Reg, c: Reg, d: Reg, k: nat)
    ensures Shl(Sum4(a, b, c, d), k) == Sum4(Shl(a, k), Shl(b, k), Shl(c, k), Shl(d, k))
    ensures Shr(Sum4(a, b, c, d), k) == Sum4(Shr(a, k), Shr(b, k), Shr(c, k), Shr(d, k))
  {
    hide Xor, Shl, Shr;
    ShiftXor(a, b, k);
    ShiftXor(Xor(a, b), c, k);
    ShiftXor(Xor(Xor(a, b), c), d, k);
  }

  lemma Sum4Reduce(a: Reg, b: Reg, c: Reg, d: Reg, a': Reg, b': Reg, c': Reg, d': Reg)
    ensures Reduce(Sum4(a, b, c, d), Sum4(a', b', c', d'))
         == Sum4(Reduce(a, a'), Reduce(b, b'), Reduce(c, c'), Reduce(d, d'))
  {
    hide Xor, Reduce;
    ReduceXor(a, a', b, b');
    ReduceXor(Xor(a, b), Xor(a', b'), c, c');
    ReduceXor(Xor(Xor(a, b), c), Xor(Xor(a', b'), c'), d, d');
  }

  lemma MiddleRearranged(m0: Reg, m1: Reg, m2: Reg, m3: Reg, lo: Reg, hi: Reg)
    ensures Xor(m3, Xor(m2, Xor(m1, Xor(Xor(m0, lo), hi)))) == Xor(Sum4(m0, m1, m2, m3), Xor(lo, hi))
  {}

  lemma XorCancel(a: Reg, b: Reg)
    ensures Xor(Xor(a, b), b) == a
  {}

  /** The aggregated step is the XOR of four separate products. */
  lemma MulReduce4IsSum(h0: Reg, h1: Reg, h2: Reg, h3: Reg,
                        x0: Reg, x1: Reg, x2: Reg, x3_: Reg, accv: Reg)
    ensures MulReduce4(h0, h1, h2, h3, x0, x1, x2, x3_, accv)
         == Sum4(Mulv(h0, x0), Mulv(h1, x1), Mulv(h2, x2), Mulv(h3, Xor(x3_, accv)))
  {
    hide Xor, Shl, Shr, Reduce, Middle, Cross, ClmulLoLo, ClmulHiHi, Sum4;
    var x3 := Xor(x3_, accv);
    var l0, l1, l2, l3 := ClmulLoLo(h0, x0), ClmulLoLo(h1, x1), ClmulLoLo(h2, x2), ClmulLoLo(h3, x3);
    var g0, g1, g2, g3 := ClmulHiHi(h0, x0), ClmulHiHi(h1, x1), ClmulHiHi(h2, x2), ClmulHiHi(h3, x3);
    var c0, c1, c2, c3 := Cross(h0, x0), Cross(h1, x1), Cross(h2, x2), Cross(h3, x3);
    var lo, hi, mid := Sum4(l0, l1, l2, l3), Sum4(g0, g1, g2, g3), Sum4(c0, c1, c2, c3);
    Karatsuba(h0, x0);
    Karatsuba(h1, x1);
    Karatsuba(h2, x2);
    Karatsuba(h3, x3);
    MiddleRearranged(Middle(h0, x0), Middle(h1, x1), Middle(h2, x2), Middle(h3, x3), lo, hi);
    Sum4Xor(c0, c1, c2, c3, Xor(l0, g0), Xor(l1, g1), Xor(l2, g2), Xor(l3, g3));
    Sum4Xor(l0, l1, l2, l3, g0, g1, g2, g3);
    XorCancel(mid, Xor(lo, hi));
    Sum4Shift(c0, c1, c2, c3, 64);
    XorComm(Shl(mid, 64), lo);
    XorComm(Shr(mid, 64), hi);
    Sum4Xor(l0, l1, l2, l3, Shl(c0, 64), Shl(c1, 64), Shl(c2, 64), Shl(c3, 64));
    Sum4Xor(g0, g1, g2, g3, Shr(c0, 64), Shr(c1, 64), Shr(c2, 64), Shr(c3, 64));
    Sum4Reduce(ProductLow(h0, x0), ProductLow(h1, x1), ProductLow(h2, x2), ProductLow(h3, x3),
               ProductHigh(h0, x0), ProductHigh(h1, x1), ProductHigh(h2, x2), ProductHigh(h3, x3));
    ProductCross(h0, x0);
    ProductCross(h1, x1);
    ProductCross(h2, x2);
    ProductCross(h3, x3);
  }

  lemma ProductCross(h: Reg, x: Reg)
    ensures ProductLow(h, x) == Xor(ClmulLoLo(h, x), Shl(Cross(h, x), 64))
    ensures ProductHigh(h, x) == Xor(ClmulHiHi(h, x), Shr(Cross(h, x), 64))
  {
    hide Xor, Shl, Shr, ClmulLoLo, ClmulLoHi, ClmulHiLo, ClmulHiHi;
  }

  /** With the stored powers of H, four GHASH steps in one: section 6.4, unrolled. */
  lemma AggregatedGhash(h: Reg, x1: Reg, x2: Reg, x3: Reg, x4: Reg, accv: Reg)
    ensures var h2 := Mulv(h, h); var h3 := Mulv(h2, h); var h4 := Mulv(h3, h);
      MulReduce4(h, h2, h3, h4, x4, x3, x2, x1, accv)
      == Dot(Xor(Dot(Xor(Dot(Xor(Dot(Xor(accv, x1), h), x2), h), x3), h), x4), h)
  {
    hide Xor, Dot, Mulv, MulReduce4;
    var h2 := Mulv(h, h);
    var h3 := Mulv(h2, h);
    var h4 := Mulv(h3, h);
    var y := Xor(accv, x1);
    MulReduce4IsSum(h, h2, h3, h4, x4, x3, x2, x1, accv);
    XorComm(x1, accv);
    MulvIsDot(h, h); MulvIsDot(h2, h); MulvIsDot(h3, h);
    MulvIsDot(h, x4); MulvIsDot(h2, x3); MulvIsDot(h3, x2); MulvIsDot(h4, y);
    DotComm(h, x4); DotComm(h2, x3); DotComm(h3, x2); DotComm(h4, y);
    // y*h^4 = (((y*h)*h)*h)*h and so on down
    DotAssoc(h2, h, h);
    Powers(y, h); Powers(x2, h);
    DotAssoc(x3, h, h);
    var a := Dot(y, h);
    DotXorLeft(a, x2, h);
    var b, b' := Dot(a, h), Dot(x2, h);
    DotXorLeft(Xor(b, b'), x3, h);
    DotXorLeft(b, b', h);
    var c, c', c'' := Dot(b, h), Dot(b', h), Dot(x3, h);
    DotXorLeft(Xor(Xor(c, c'), c''), x4, h);
    DotXorLeft(Xor(c, c'), c'', h);
    DotXorLeft(c, c', h);
    Sum4Reverse(Dot(x4, h), Dot(c'', h), Dot(c', h), Dot(c, h));
  }

  lemma Powers(y: Reg, h: Reg)
    ensures Dot(y, Dot(Dot(h, h), h)) == Dot(Dot(Dot(y, h), h), h)
    ensures Dot(y, Dot(Dot(Dot(h, h), h), h)) == Dot(Dot(Dot(Dot(y, h), h), h), h)
  {
    hide Dot;
    DotAssoc(y, h, h);
    DotAssoc(y, Dot(h, h), h);
    DotAssoc(y, Dot(Dot(h, h), h), h);
  }

  lemma Sum4Reverse(a: Reg, b: Reg, c: Reg, d: Reg)
    ensures Sum4(a, b, c, d) == Xor(Xor(Xor(d, c), b), a)
  {}
}
