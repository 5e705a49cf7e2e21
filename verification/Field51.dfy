/** Field elements as five unsigned limbs in radix 2^51. The word types reject any value out of
    range, so a method that verifies contains no operation that wraps. */
module Field51 {
  import opened Field

  newtype uint64 = x: int | 0 <= x < 0x1_0000_0000_0000_0000
  newtype uint128 = x: int | 0 <= x < 0x1_0000_0000_0000_0000_0000_0000_0000_0000

  const MAX128 := 0x1_0000_0000_0000_0000_0000_0000_0000_0000
  const B := 0x8_0000_0000_0000  // 2^51
  const B2 := B * B
  const B3 := B2 * B
  const B4 := B3 * B

  function Weigh(r0: int, r1: int, r2: int, r3: int, r4: int): int {
    r0 + r1 * B + r2 * B2 + r3 * B3 + r4 * B4
  }

  function Value(f: seq<uint64>): int
    requires |f| == 5
  {
    WeighSeq(Ints(f))
  }

  function Ints(f: seq<uint64>): (r: seq<int>)
    ensures |r| == |f|
  {
    seq(|f|, i requires 0 <= i < |f| => f[i] as int)
  }

  predicate Below(f: seq<uint64>, bound: int) {
    |f| == 5 && forall i | 0 <= i < 5 :: f[i] as int < bound
  }

  lemma Schoolbook(f0: int, f1: int, f2: int, f3: int, f4: int, g0: int, g1: int, g2: int, g3: int, g4: int)
    ensures Weigh(f0, f1, f2, f3, f4) * Weigh(g0, g1, g2, g3, g4)
      == Weigh(f0 * g0 + 19 * f1 * g4 + 19 * f2 * g3 + 19 * f3 * g2 + 19 * f4 * g1,
               f0 * g1 + f1 * g0 + 19 * f2 * g4 + 19 * f3 * g3 + 19 * f4 * g2,
               f0 * g2 + f1 * g1 + f2 * g0 + 19 * f3 * g4 + 19 * f4 * g3,
               f0 * g3 + f1 * g2 + f2 * g1 + f3 * g0 + 19 * f4 * g4,
               f0 * g4 + f1 * g3 + f2 * g2 + f3 * g1 + f4 * g0)
         + P * Weigh(f1 * g4 + f2 * g3 + f3 * g2 + f4 * g1, f2 * g4 + f3 * g3 + f4 * g2, f3 * g4 + f4 * g3, f4 * g4, 0)
  {}

  // ------------------------------------------------------------------ the carry chain

  function Quot(x: int): int { x / B }
  function Rem(x: int): int { x % B }

  lemma QuotRem(x: int)
    ensures x == Quot(x) * B + Rem(x) && 0 <= Rem(x) < B
  {}

  /** What the carry chain computes, on unbounded integers. */
  function Chain(r0: int, r1: int, r2: int, r3: int, r4: int): (h: seq<int>)
    ensures |h| == 5
  {
    var s1 := r1 + Quot(r0);
    var s2 := r2 + Quot(s1);
    var s3 := r3 + Quot(s2);
    var s4 := r4 + Quot(s3);
    var t0 := Rem(r0) + 19 * Quot(s4);
    var t1 := Rem(s1) + Quot(t0);
    [Rem(t0), Rem(t1), Rem(s2) + Quot(t1), Rem(s3), Rem(s4)]
  }

  function WeighSeq(h: seq<int>): int
    requires |h| == 5
  {
    Weigh(h[0], h[1], h[2], h[3], h[4])
  }

  /** Linear algebra behind the chain: qi and mi are the quotients and remainders by B. */
  lemma ChainAlgebra(r0: int, r1: int, r2: int, r3: int, r4: int, m0: int, q0: int, m1: int, q1: int, m2: int,
                     q2: int, m3: int, q3: int, m4: int, q4: int, n0: int, p0: int, n1: int, p1: int)
    requires r0 == q0 * B + m0 && r1 + q0 == q1 * B + m1 && r2 + q1 == q2 * B + m2
    requires r3 + q2 == q3 * B + m3 && r4 + q3 == q4 * B + m4
    requires m0 + 19 * q4 == p0 * B + n0 && m1 + p0 == p1 * B + n1
    ensures Weigh(n0, n1, m2 + p1, m3, m4) - Weigh(r0, r1, r2, r3, r4) == -q4 * P
  {}

  lemma ChainCongruent(r0: int, r1: int, r2: int, r3: int, r4: int)
    ensures Congruent(WeighSeq(Chain(r0, r1, r2, r3, r4)), Weigh(r0, r1, r2, r3, r4))
  {
    hide Quot, Rem, Weigh, Congruent;
    var s1 := r1 + Quot(r0);
    var s2 := r2 + Quot(s1);
    var s3 := r3 + Quot(s2);
    var s4 := r4 + Quot(s3);
    var t0 := Rem(r0) + 19 * Quot(s4);
    var t1 := Rem(s1) + Quot(t0);
    QuotRem(r0); QuotRem(s1); QuotRem(s2); QuotRem(s3); QuotRem(s4); QuotRem(t0); QuotRem(t1);
    ChainAlgebra(r0, r1, r2, r3, r4, Rem(r0), Quot(r0), Rem(s1), Quot(s1), Rem(s2), Quot(s2), Rem(s3), Quot(s3),
                 Rem(s4), Quot(s4), Rem(t0), Quot(t0), Rem(t1), Quot(t1));
    CongruentBy(WeighSeq(Chain(r0, r1, r2, r3, r4)), Weigh(r0, r1, r2, r3, r4), -Quot(s4));
  }

  /** x & mask */
  function Mask(x: uint64): (r: uint64)
    ensures r as int == Rem(x as int)
  {
    x % (B as uint64)
  }

  /** x >> 51 */
  function Shift(x: uint64): (r: uint64)
    ensures r as int == Quot(x as int)
  {
    x / (B as uint64)
  }

  /** x >> 51 on 128 bits */
  function Shift128(x: uint128): (r: uint128)
    ensures r as int == Quot(x as int)
  {
    x / (B as uint128)
  }

  /** (uint64_t) x */
  function Truncate(x: uint128): (r: uint64)
    ensures x as int < 0x1_0000_0000_0000_0000 ==> r as int == x as int
  {
    (x % 0x1_0000_0000_0000_0000) as uint64
  }

  /** ((uint64_t) x) & mask */
  function Low(x: uint128): (r: uint64)
    ensures r as int == Rem(x as int)
  {
    Mask(Truncate(x))
  }

  /** One step of the chain: the low 51 bits of r, and the rest added to the next accumulator. */
  method CarryInto(r: uint128, next: uint128) returns (low: uint64, sum: uint128)
    requires r as int < MAX128 / 2 && next as int < MAX128 / 2
    ensures low as int == Rem(r as int) < B
    ensures sum as int == next as int + Quot(r as int) < next as int + MAX128 / B
  {
    hide Quot, Rem, Low, Shift128;
    QuotRem(r as int);
    low := Low(r);
    var carry := Shift128(r);
    sum := next + carry;
  }

  /** The reduction that ends mul, sq and sq2. */
  method CarryChain(h: array<uint64>, r0: uint128, r1_: uint128, r2_: uint128, r3_: uint128, r4_: uint128)
    requires h.Length == 5
    requires r0 as int < B2 * 0x8000 && r1_ as int < B2 * 0x8000 && r2_ as int < B2 * 0x8000
    requires r3_ as int < B2 * 0x8000 && r4_ as int < 6 * 0x1000_0000_0000_0000_0000_0000_0000
    modifies h
    ensures Ints(h[..]) == Chain(r0 as int, r1_ as int, r2_ as int, r3_ as int, r4_ as int)
    ensures Below(h[..], B + 1)
  {
    hide Quot, Rem, Low, Mask, Shift, Shift128, Truncate;
    var r00, r1 := CarryInto(r0, r1_);
    var r01, r2 := CarryInto(r1, r2_);
    var r02, r3 := CarryInto(r2, r3_);
    var r03, r4 := CarryInto(r3, r4_);
    var r04 := Low(r4);
    var carry := Shift128(r4);
    QuotRem(r4 as int);
    r00 := r00 + 19 * Truncate(carry);
    var carry' := Shift(r00);
    QuotRem(r00 as int);
    r00 := Mask(r00);
    r01 := r01 + carry';
    carry' := Shift(r01);
    QuotRem(r01 as int);
    r01 := Mask(r01);
    r02 := r02 + carry';
    h[0] := r00;
    h[1] := r01;
    h[2] := r02;
    h[3] := r03;
    h[4] := r04;
  }

  // ------------------------------------------------------------------ multiplication

  /** ((uint128_t) a) * ((uint128_t) b) */
  function Wide(a: uint64, b: uint64): (r: uint128) {
    ProductBound(a as int, b as int, 0x1_0000_0000_0000_0000, 0x1_0000_0000_0000_0000);
    a as uint128 * b as uint128
  }

  function Columns(f: seq<int>, g: seq<int>): (r: seq<int>)
    requires |f| == 5 && |g| == 5
    ensures |r| == 5
  {
    [f[0] * g[0] + 19 * f[1] * g[4] + 19 * f[2] * g[3] + 19 * f[3] * g[2] + 19 * f[4] * g[1],
     f[0] * g[1] + f[1] * g[0] + 19 * f[2] * g[4] + 19 * f[3] * g[3] + 19 * f[4] * g[2],
     f[0] * g[2] + f[1] * g[1] + f[2] * g[0] + 19 * f[3] * g[4] + 19 * f[4] * g[3],
     f[0] * g[3] + f[1] * g[2] + f[2] * g[1] + f[3] * g[0] + 19 * f[4] * g[4],
     f[0] * g[4] + f[1] * g[3] + f[2] * g[2] + f[3] * g[1] + f[4] * g[0]]
  }

  lemma ProductBound(a: nat, b: nat, x: nat, y: nat)
    requires b < y
    ensures a < x ==> a * b < x * y
  {
    if a < x {
      assert a * b <= a * y <= (x - 1) * y < x * y;
    }
  }

  const LIMB54 := 0x40_0000_0000_0000
  const PRODUCT108 := LIMB54 * LIMB54

  /** r = a0 * b0; r += a1 * b1; ... in 128 bits. */
  method Accumulate(a0: uint64, b0: uint64, a1: uint64, b1: uint64, a2: uint64, b2: uint64,
                    a3: uint64, b3: uint64, a4: uint64, b4: uint64) returns (r: uint128)
    requires a0 as int < 38 * LIMB54 && a1 as int < 38 * LIMB54 && a2 as int < 38 * LIMB54
    requires a3 as int < 38 * LIMB54 && a4 as int < 38 * LIMB54
    requires b0 as int < LIMB54 && b1 as int < LIMB54 && b2 as int < LIMB54 && b3 as int < LIMB54 && b4 as int < LIMB54
    ensures r as int == Wide(a0, b0) as int + Wide(a1, b1) as int + Wide(a2, b2) as int + Wide(a3, b3) as int + Wide(a4, b4) as int
    ensures r as int < 190 * PRODUCT108
    ensures a0 as int < LIMB54 && a1 as int < LIMB54 && a2 as int < LIMB54 && a3 as int < LIMB54 && a4 as int < LIMB54
      ==> r as int < 5 * PRODUCT108
  {
    WideBound(a0, b0);
    WideBound(a1, b1);
    WideBound(a2, b2);
    WideBound(a3, b3);
    WideBound(a4, b4);
    hide Wide;
    r := Wide(a0, b0);
    r := r + Wide(a1, b1);
    r := r + Wide(a2, b2);
    r := r + Wide(a3, b3);
    r := r + Wide(a4, b4);
  }

  lemma WideBound(a: uint64, b: uint64)
    requires b as int < LIMB54
    ensures a as int < LIMB54 ==> Wide(a, b) as int < PRODUCT108
    ensures a as int < 38 * LIMB54 ==> Wide(a, b) as int < 38 * PRODUCT108
  {
    ProductBound(a as int, b as int, LIMB54, LIMB54);
    ProductBound(a as int, b as int, 38 * LIMB54, LIMB54);
  }

  /** The limbs that mul leaves, as a function of the limbs it reads. */
  function MulLimbs(f: seq<int>, g: seq<int>): (h: seq<int>)
    requires |f| == 5 && |g| == 5
    ensures |h| == 5
  {
    var r := Columns(f, g);
    Chain(r[0], r[1], r[2], r[3], r[4])
  }

  /** The multiple of the prime that folding by 19 takes away. */
  function Folded(f: seq<int>, g: seq<int>): int
    requires |f| == 5 && |g| == 5
  {
    Weigh(f[1] * g[4] + f[2] * g[3] + f[3] * g[2] + f[4] * g[1], f[2] * g[4] + f[3] * g[3] + f[4] * g[2],
          f[3] * g[4] + f[4] * g[3], f[4] * g[4], 0)
  }

  /** The columns represent the product in the field. */
  lemma ColumnsAreProduct(f: seq<int>, g: seq<int>)
    requires |f| == 5 && |g| == 5
    ensures WeighSeq(Columns(f, g)) == WeighSeq(f) * WeighSeq(g) - Folded(f, g) * P
  {
    Schoolbook(f[0], f[1], f[2], f[3], f[4], g[0], g[1], g[2], g[3], g[4]);
  }

  /** And so do the limbs after the carries. */
  lemma ReducedCongruent(r: seq<int>, w: int, k: int)
    requires |r| == 5 && WeighSeq(r) == w - k * P
    ensures Congruent(WeighSeq(Chain(r[0], r[1], r[2], r[3], r[4])), w)
  {
    hide Chain, Weigh, Congruent;
    CongruentBy(WeighSeq(r), w, -k);
    ChainCongruent(r[0], r[1], r[2], r[3], r[4]);
    CongruentTrans(WeighSeq(Chain(r[0], r[1], r[2], r[3], r[4])), WeighSeq(r), w);
  }

  /** The five 128-bit accumulators of mul. */
  method MulAccumulators(f: seq<uint64>, g: seq<uint64>)
    returns (r0: uint128, r1: uint128, r2: uint128, r3: uint128, r4: uint128)
    requires Below(f, LIMB54) && Below(g, LIMB54)
    ensures [r0 as int, r1 as int, r2 as int, r3 as int, r4 as int] == Columns(Ints(f), Ints(g))
    ensures r0 as int < 190 * PRODUCT108 && r1 as int < 190 * PRODUCT108 && r2 as int < 190 * PRODUCT108
    ensures r3 as int < 190 * PRODUCT108 && r4 as int < 5 * PRODUCT108
  {
    var f0, f1, f2, f3, f4 := f[0], f[1], f[2], f[3], f[4];
    var g0, g1, g2, g3, g4 := g[0], g[1], g[2], g[3], g[4];
    var f1_19, f2_19, f3_19, f4_19 := 19 * f1, 19 * f2, 19 * f3, 19 * f4;
    hide Wide, Columns, Ints;
    assert f == [f0, f1, f2, f3, f4] && g == [g0, g1, g2, g3, g4];
    WideColumns(f0, f1, f2, f3, f4, g0, g1, g2, g3, g4, f1_19, f2_19, f3_19, f4_19);
    r0 := Accumulate(f0, g0, f1_19, g4, f2_19, g3, f3_19, g2, f4_19, g1);
    r1 := Accumulate(f0, g1, f1, g0, f2_19, g4, f3_19, g3, f4_19, g2);
    r2 := Accumulate(f0, g2, f1, g1, f2, g0, f3_19, g4, f4_19, g3);
    r3 := Accumulate(f0, g3, f1, g2, f2, g1, f3, g0, f4_19, g4);
    r4 := Accumulate(f0, g4, f1, g3, f2, g2, f3, g1, f4, g0);
  }

  /** fe25519_mul: for limbs below 2^54 nothing wraps, every result limb is at most 2^51, and the
      result represents the product. h may be f or g. */
  method Mul(h: array<uint64>, f: array<uint64>, g: array<uint64>)
    requires h.Length == f.Length == g.Length == 5
    requires Below(f[..], LIMB54) && Below(g[..], LIMB54)
    modifies h
    ensures Ints(h[..]) == MulLimbs(Ints(old(f[..])), Ints(old(g[..])))
    ensures Congruent(Value(h[..]), Value(old(f[..])) * Value(old(g[..])))
    ensures Below(h[..], B + 1)
  {
    hide Chain, Columns, Congruent, WeighSeq, Ints, Folded;
    ColumnsAreProduct(Ints(f[..]), Ints(g[..]));
    ReducedCongruent(Columns(Ints(f[..]), Ints(g[..])), Value(f[..]) * Value(g[..]), Folded(Ints(f[..]), Ints(g[..])));
    var r0, r1, r2, r3, r4 := MulAccumulators(f[..], g[..]);
    CarryChain(h, r0, r1, r2, r3, r4);
  }

  lemma WideColumns(f0: uint64, f1: uint64, f2: uint64, f3: uint64, f4: uint64,
                    g0: uint64, g1: uint64, g2: uint64, g3: uint64, g4: uint64,
                    f1_19: uint64, f2_19: uint64, f3_19: uint64, f4_19: uint64)
    requires f1_19 as int == 19 * f1 as int && f2_19 as int == 19 * f2 as int
    requires f3_19 as int == 19 * f3 as int && f4_19 as int == 19 * f4 as int
    ensures Columns(Ints([f0, f1, f2, f3, f4]), Ints([g0, g1, g2, g3, g4])) ==
      [Wide(f0, g0) as int + Wide(f1_19, g4) as int + Wide(f2_19, g3) as int + Wide(f3_19, g2) as int + Wide(f4_19, g1) as int,
       Wide(f0, g1) as int + Wide(f1, g0) as int + Wide(f2_19, g4) as int + Wide(f3_19, g3) as int + Wide(f4_19, g2) as int,
       Wide(f0, g2) as int + Wide(f1, g1) as int + Wide(f2, g0) as int + Wide(f3_19, g4) as int + Wide(f4_19, g3) as int,
       Wide(f0, g3) as int + Wide(f1, g2) as int + Wide(f2, g1) as int + Wide(f3, g0) as int + Wide(f4_19, g4) as int,
       Wide(f0, g4) as int + Wide(f1, g3) as int + Wide(f2, g2) as int + Wide(f3, g1) as int + Wide(f4, g0) as int]
  {}

  // ------------------------------------------------------------------ squaring

  function Square(x: int): int { x * x }

  method Accumulate3(a0: uint64, b0: uint64, a1: uint64, b1: uint64, a2: uint64, b2: uint64, ghost limb: int)
    returns (r: uint128)
    requires 0 < limb <= LIMB54
    requires a0 as int < 38 * limb && a1 as int < 38 * limb && a2 as int < 38 * limb
    requires b0 as int < limb && b1 as int < limb && b2 as int < limb
    ensures r as int == Wide(a0, b0) as int + Wide(a1, b1) as int + Wide(a2, b2) as int
    ensures r as int < 114 * Square(limb)
    ensures a0 as int < 2 * limb && a1 as int < 2 * limb && a2 as int < limb ==> r as int < 5 * Square(limb)
  {
    hide Wide, Square;
    SquareBound(a0, b0, limb);
    SquareBound(a1, b1, limb);
    SquareBound(a2, b2, limb);
    r := Wide(a0, b0);
    r := r + Wide(a1, b1);
    r := r + Wide(a2, b2);
  }

  lemma SquareBound(a: uint64, b: uint64, limb: int)
    requires 0 <= b as int < limb <= LIMB54
    ensures a as int < limb ==> Wide(a, b) as int < Square(limb)
    ensures a as int < 2 * limb ==> Wide(a, b) as int < 2 * Square(limb)
    ensures a as int < 38 * limb ==> Wide(a, b) as int < 38 * Square(limb)
    ensures Square(limb) <= PRODUCT108
  {
    var x, y := a as int, b as int;
    ProductBound(x, y, limb, limb);
    ProductBound(x, y, 2 * limb, limb);
    ProductBound(x, y, 38 * limb, limb);
    SquareScaled(limb);
    hide Square;
  }

  lemma SquareScaled(limb: int)
    requires 0 <= limb <= LIMB54
    ensures (2 * limb) * limb == 2 * Square(limb) && (38 * limb) * limb == 38 * Square(limb)
    ensures limb * limb == Square(limb) <= PRODUCT108
  {
    SquareMonotone(limb, LIMB54);
  }

  lemma SquareMonotone(x: int, y: int)
    requires 0 <= x <= y
    ensures x * x <= y * y
  {
    assert x * x <= x * y <= y * y;
  }

  /** The accumulators of sq and sq2: the symmetric terms are added once, doubled. */
  method SqAccumulators(f: seq<uint64>, ghost limb: int)
    returns (r0: uint128, r1: uint128, r2: uint128, r3: uint128, r4: uint128)
    requires 0 < limb <= LIMB54 && Below(f, limb)
    ensures [r0 as int, r1 as int, r2 as int, r3 as int, r4 as int] == Columns(Ints(f), Ints(f))
    ensures r0 as int < 114 * Square(limb) && r1 as int < 114 * Square(limb) && r2 as int < 114 * Square(limb)
    ensures r3 as int < 114 * Square(limb) && r4 as int < 5 * Square(limb)
  {
    var f0, f1, f2, f3, f4 := f[0], f[1], f[2], f[3], f[4];
    var f0_2, f1_2 := 2 * f0, 2 * f1;
    var f1_38, f2_38, f3_38 := 38 * f1, 38 * f2, 38 * f3;
    var f3_19, f4_19 := 19 * f3, 19 * f4;
    hide Wide, Columns, Ints;
    assert f == [f0, f1, f2, f3, f4];
    SqColumns(f0, f1, f2, f3, f4, f0_2, f1_2, f1_38, f2_38, f3_38, f3_19, f4_19);
    r0 := Accumulate3(f0, f0, f1_38, f4, f2_38, f3, limb);
    r1 := Accumulate3(f0_2, f1, f2_38, f4, f3_19, f3, limb);
    r2 := Accumulate3(f0_2, f2, f1, f1, f3_38, f4, limb);
    r3 := Accumulate3(f0_2, f3, f1_2, f2, f4_19, f4, limb);
    r4 := Accumulate3(f0_2, f4, f1_2, f3, f2, f2, limb);
  }

  lemma SqColumns(f0: uint64, f1: uint64, f2: uint64, f3: uint64, f4: uint64, f0_2: uint64, f1_2: uint64,
                  f1_38: uint64, f2_38: uint64, f3_38: uint64, f3_19: uint64, f4_19: uint64)
    requires f0_2 as int == 2 * f0 as int && f1_2 as int == 2 * f1 as int && f1_38 as int == 38 * f1 as int
    requires f2_38 as int == 38 * f2 as int && f3_38 as int == 38 * f3 as int
    requires f3_19 as int == 19 * f3 as int && f4_19 as int == 19 * f4 as int
    ensures Columns(Ints([f0, f1, f2, f3, f4]), Ints([f0, f1, f2, f3, f4])) ==
      [Wide(f0, f0) as int + Wide(f1_38, f4) as int + Wide(f2_38, f3) as int,
       Wide(f0_2, f1) as int + Wide(f2_38, f4) as int + Wide(f3_19, f3) as int,
       Wide(f0_2, f2) as int + Wide(f1, f1) as int + Wide(f3_38, f4) as int,
       Wide(f0_2, f3) as int + Wide(f1_2, f2) as int + Wide(f4_19, f4) as int,
       Wide(f0_2, f4) as int + Wide(f1_2, f3) as int + Wide(f2, f2) as int]
  {
    SqColumnsInt(f0 as int, f1 as int, f2 as int, f3 as int, f4 as int);
    hide Columns;
    assert Ints([f0, f1, f2, f3, f4]) == [f0 as int, f1 as int, f2 as int, f3 as int, f4 as int];
  }

  lemma SqColumnsInt(f0: int, f1: int, f2: int, f3: int, f4: int)
    ensures Columns([f0, f1, f2, f3, f4], [f0, f1, f2, f3, f4]) ==
      [f0 * f0 + (38 * f1) * f4 + (38 * f2) * f3, (2 * f0) * f1 + (38 * f2) * f4 + (19 * f3) * f3,
       (2 * f0) * f2 + f1 * f1 + (38 * f3) * f4, (2 * f0) * f3 + (2 * f1) * f2 + (19 * f4) * f4,
       (2 * f0) * f4 + (2 * f1) * f3 + f2 * f2]
  {
    Twice(19, f1, f4); Twice(19, f2, f3); Twice(1, f0, f1); Twice(19, f2, f4); Twice(1, f0, f2);
    Twice(19, f3, f4); Twice(1, f0, f3); Twice(1, f1, f2); Twice(1, f0, f4); Twice(1, f1, f3);
  }

  lemma Twice(k: int, a: int, b: int)
    ensures (2 * k * a) * b == k * a * b + k * b * a
  {}

  /** fe25519_sq leaves exactly the limbs that mul leaves on equal operands. */
  method Sq(h: array<uint64>, f: array<uint64>)
    requires h.Length == f.Length == 5 && Below(f[..], LIMB54)
    modifies h
    ensures Ints(h[..]) == MulLimbs(Ints(old(f[..])), Ints(old(f[..])))
    ensures Congruent(Value(h[..]), Value(old(f[..])) * Value(old(f[..])))
    ensures Below(h[..], B + 1)
  {
    hide Chain, Columns, Congruent, WeighSeq, Ints, Folded;
    ColumnsAreProduct(Ints(f[..]), Ints(f[..]));
    ReducedCongruent(Columns(Ints(f[..]), Ints(f[..])), Value(f[..]) * Value(f[..]), Folded(Ints(f[..]), Ints(f[..])));
    var r0, r1, r2, r3, r4 := SqAccumulators(f[..], LIMB54);
    CarryChain(h, r0, r1, r2, r3, r4);
  }

  const LIMB53 := 0x20_0000_0000_0000

  /** fe25519_sq2: twice the square, for limbs below 2^53. */
  method Sq2(h: array<uint64>, f: array<uint64>)
    requires h.Length == f.Length == 5 && Below(f[..], LIMB53)
    modifies h
    ensures Congruent(Value(h[..]), 2 * (Value(old(f[..])) * Value(old(f[..]))))
    ensures Below(h[..], B + 1)
  {
    hide Chain, Columns, Congruent, WeighSeq, Ints, Folded;
    ghost var fs := Ints(f[..]);
    ColumnsAreProduct(fs, fs);
    DoubledCongruent(Columns(fs, fs), Value(f[..]) * Value(f[..]), Folded(fs, fs));
    var r0, r1, r2, r3, r4 := SqAccumulators(f[..], LIMB53);
    r0, r1, r2, r3, r4 := 2 * r0, 2 * r1, 2 * r2, 2 * r3, 2 * r4;
    CarryChain(h, r0, r1, r2, r3, r4);
  }

  lemma DoubledCongruent(r: seq<int>, w: int, k: int)
    requires |r| == 5 && WeighSeq(r) == w - k * P
    ensures Congruent(WeighSeq(Chain(2 * r[0], 2 * r[1], 2 * r[2], 2 * r[3], 2 * r[4])), 2 * w)
  {
    var d := [2 * r[0], 2 * r[1], 2 * r[2], 2 * r[3], 2 * r[4]];
    assert WeighSeq(d) == WeighSeq(r) + WeighSeq(r);
    hide Chain, Weigh, Congruent;
    ReducedCongruent(d, 2 * w, 2 * k);
  }

  // ------------------------------------------------------------------ the linear operations

  /** fe25519_mul32 on any limbs and any 32-bit factor. */
  method Mul32(h: array<uint64>, f: array<uint64>, n: uint64)
    requires h.Length == f.Length == 5 && n as int < 0x1_0000_0000
    modifies h
    ensures Congruent(Value(h[..]), n as int * Value(old(f[..])))
    ensures Below(h[..], B + 19 * 0x8000_0000_0000)
  {
    hide Quot, Rem, Congruent, Wide, Low, Shift128;
    ghost var fs := f[..];
    var h0, a := ScaleStep(f[0], n, 0);
    var h1, a1 := ScaleStep(f[1], n, Truncate(a));
    var h2, a2 := ScaleStep(f[2], n, Truncate(a1));
    var h3, a3 := ScaleStep(f[3], n, Truncate(a2));
    var h4, a4 := ScaleStep(f[4], n, Truncate(a3));
    Scaled(n as int, fs[0] as int, fs[1] as int, fs[2] as int, fs[3] as int, fs[4] as int,
           h0 as int, h1 as int, h2 as int, h3 as int, h4 as int,
           a as int, a1 as int, a2 as int, a3 as int, a4 as int);
    h0 := h0 + Truncate(a4 * 19);
    h[0] := h0;
    h[1] := h1;
    h[2] := h2;
    h[3] := h3;
    h[4] := h4;
    CongruentBy(Value(h[..]), n as int * Value(fs), -(a4 as int));
  }

  /** a = f * n + carry, split at bit 51. */
  method ScaleStep(f: uint64, n: uint64, carry: uint64) returns (low: uint64, high: uint128)
    requires n as int < 0x1_0000_0000 && carry as int < 0x4000_0000_0000
    ensures f as int * n as int + carry as int == high as int * B + low as int
    ensures low as int < B && high as int < 0x2000_0000_0001
  {
    ProductBound(f as int, n as int, 0x1_0000_0000_0000_0000, 0x1_0000_0000);
    var a := Wide(f, n) + carry as uint128;
    QuotRem(a as int);
    hide Quot, Rem;
    low := Low(a);
    high := Shift128(a);
  }

  lemma Scaled(n: int, f0: int, f1: int, f2: int, f3: int, f4: int, h0: int, h1: int, h2: int, h3: int, h4: int,
               c0: int, c1: int, c2: int, c3: int, c4: int)
    requires f0 * n == c0 * B + h0 && f1 * n + c0 == c1 * B + h1 && f2 * n + c1 == c2 * B + h2
    requires f3 * n + c2 == c3 * B + h3 && f4 * n + c3 == c4 * B + h4
    ensures Weigh(h0 + 19 * c4, h1, h2, h3, h4) - n * Weigh(f0, f1, f2, f3, f4) == -c4 * P
  {}

  lemma WeighCombine(h: seq<int>, f: seq<int>, g: seq<int>)
    requires |h| == |f| == |g| == 5 && forall i | 0 <= i < 5 :: h[i] == f[i] + g[i]
    ensures WeighSeq(h) == WeighSeq(f) + WeighSeq(g)
  {}

  /** fe25519_add */
  method Add(h: array<uint64>, f: array<uint64>, g: array<uint64>)
    requires h.Length == f.Length == g.Length == 5
    requires forall i | 0 <= i < 5 :: f[i] as int + g[i] as int < 0x1_0000_0000_0000_0000
    modifies h
    ensures Value(h[..]) == Value(old(f[..])) + Value(old(g[..]))
    ensures forall i | 0 <= i < 5 :: h[i] as int == old(f[i]) as int + old(g[i]) as int
  {
    hide WeighSeq;
    ghost var fs, gs := Ints(f[..]), Ints(g[..]);
    var h0 := f[0] + g[0];
    var h1 := f[1] + g[1];
    var h2 := f[2] + g[2];
    var h3 := f[3] + g[3];
    var h4 := f[4] + g[4];
    h[0] := h0;
    h[1] := h1;
    h[2] := h2;
    h[3] := h3;
    h[4] := h4;
    WeighCombine(Ints(h[..]), fs, gs);
  }

  const LIMB63 := 0x8000_0000_0000_0000

  /** fe25519_sub: g is carried down to 51-bit limbs, so f + 2p - g never goes below zero. */
  method Sub(h: array<uint64>, f: array<uint64>, g: array<uint64>)
    requires h.Length == f.Length == g.Length == 5
    requires Below(f[..], LIMB63) && Below(g[..], LIMB63)
    modifies h
    ensures Congruent(Value(h[..]), Value(old(f[..])) - Value(old(g[..])))
    ensures forall i | 0 <= i < 5 :: h[i] as int < old(f[i]) as int + 2 * B
  {
    hide Quot, Rem, Congruent, WeighSeq;
    ghost var fs, gs := Ints(f[..]), Ints(g[..]);
    var h0, h1, h2, h3, h4, c := SubReduce(g[0], g[1], g[2], g[3], g[4]);
    ghost var r := [h0 as int, h1 as int, h2 as int, h3 as int, h4 as int];
    assert gs == [g[0] as int, g[1] as int, g[2] as int, g[3] as int, g[4] as int];
    h0 := f[0] + 0xf_ffff_ffff_ffda - h0;
    h1 := f[1] + 0xf_ffff_ffff_fffe - h1;
    h2 := f[2] + 0xf_ffff_ffff_fffe - h2;
    h3 := f[3] + 0xf_ffff_ffff_fffe - h3;
    h4 := f[4] + 0xf_ffff_ffff_fffe - h4;
    h[0] := h0;
    h[1] := h1;
    h[2] := h2;
    h[3] := h3;
    h[4] := h4;
    Differ(Ints(h[..]), fs, r);
    CongruentBy(Value(h[..]), WeighSeq(fs) - WeighSeq(gs), 2 + c);
  }

  /** The limbs of g carried down, in place; c is the final carry, folded in with factor 19. */
  method SubReduce(g0: uint64, g1: uint64, g2: uint64, g3: uint64, g4: uint64)
    returns (h0: uint64, h1: uint64, h2: uint64, h3: uint64, h4: uint64, ghost c: int)
    requires g1 as int < LIMB63 && g2 as int < LIMB63 && g3 as int < LIMB63 && g4 as int < LIMB63
    ensures h0 as int < B + 0x4_0000 && h1 as int < B && h2 as int < B && h3 as int < B && h4 as int < B
    ensures WeighSeq([h0 as int, h1 as int, h2 as int, h3 as int, h4 as int])
      == WeighSeq([g0 as int, g1 as int, g2 as int, g3 as int, g4 as int]) - c * P
  {
    hide Quot, Rem;
    h0, h1 := SubCarry(g0, g1);
    h1, h2 := SubCarry(h1, g2);
    h2, h3 := SubCarry(h2, g3);
    h3, h4 := SubCarry(h3, g4);
    QuotRem(h4 as int);
    c := Shift(h4) as int;
    h0 := h0 + 19 * Shift(h4);
    h4 := Mask(h4);
  }

  /** next += x >> 51; x &= mask */
  method SubCarry(x: uint64, next: uint64) returns (low: uint64, next': uint64)
    requires next as int < LIMB63
    ensures x as int == (next' as int - next as int) * B + low as int && low as int < B
    ensures next as int <= next' as int < next as int + 0x2000
  {
    QuotRem(x as int);
    next' := next + Shift(x);
    low := Mask(x);
  }

  lemma Differ(h: seq<int>, f: seq<int>, g: seq<int>)
    requires |h| == |f| == |g| == 5
    requires h[0] == f[0] + 0xf_ffff_ffff_ffda - g[0]
    requires forall i | 1 <= i < 5 :: h[i] == f[i] + 0xf_ffff_ffff_fffe - g[i]
    ensures WeighSeq(h) == WeighSeq(f) - WeighSeq(g) + 2 * P
  {}

  /** The sum of two differences of multiply outputs may be multiplied again. */
  method SquareOfDifferences(h: array<uint64>, p: array<uint64>, q: array<uint64>, r: array<uint64>, s: array<uint64>)
    requires h.Length == p.Length == q.Length == r.Length == s.Length == 5
    requires Below(p[..], B + 1) && Below(q[..], B + 1) && Below(r[..], B + 1) && Below(s[..], B + 1)
    modifies h
    ensures var w := old(Value(p[..]) - Value(q[..]) + (Value(r[..]) - Value(s[..])));
      Congruent(Value(h[..]), w * w)
    ensures Below(h[..], B + 1)
  {
    hide Congruent, Value, MulLimbs, Ints;
    ghost var w := Value(p[..]) - Value(q[..]) + (Value(r[..]) - Value(s[..]));
    var u, v, t := new uint64[5], new uint64[5], new uint64[5];
    Sub(u, p, q);
    Sub(v, r, s);
    ghost var x, y := Value(u[..]), Value(v[..]);
    Add(t, u, v);
    CongruentAdd(x, Value(p[..]) - Value(q[..]), y, Value(r[..]) - Value(s[..]));
    CongruentMul(x + y, w, x + y, w);
    Mul(h, t, t);
    CongruentTrans(Value(h[..]), (x + y) * (x + y), w * w);
  }
}
