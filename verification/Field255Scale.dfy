/** The ten-limb operations without a product of two elements: sums, differences, and multiples by a
    32-bit number. */
module Field255Scale {
  import opened Field
  import opened Field255

  const W25 := 0x200_0000
  const W26 := 0x400_0000
  const W31 := 0x8000_0000

  // ------------------------------------------------------------------ sums and differences

  const SUM_EVEN := 36909875    // 1.1 * 2^25
  const SUM_ODD := 18454937     // 1.1 * 2^24

  method Add(h: array<int32>, f: array<int32>, g: array<int32>)
    requires h.Length == f.Length == g.Length == 10
    requires Bounded(f[..], SUM_EVEN, SUM_ODD) && Bounded(g[..], SUM_EVEN, SUM_ODD)
    modifies h
    ensures Value(h[..]) == Value(old(f[..])) + Value(old(g[..]))
    ensures Bounded(h[..], 2 * SUM_EVEN, 2 * SUM_ODD) && Bounded(h[..], IN_EVEN, IN_ODD)
  {
    var fs, gs := f[..], g[..];
    hide Value;
    for i := 0 to 10
      invariant f != h ==> f[..] == fs
      invariant g != h ==> g[..] == gs
      invariant forall j :: i <= j < 10 ==> f[j] == fs[j] && g[j] == gs[j]
      invariant forall j :: 0 <= j < i ==> h[j] as int == fs[j] as int + gs[j] as int
    {
      h[i] := f[i] + g[i];
    }
    ValueOfSum(h[..], fs, gs);
  }

  lemma ValueOfSum(h: seq<int32>, f: seq<int32>, g: seq<int32>)
    requires |h| == |f| == |g| == 10
    requires forall j :: 0 <= j < 10 ==> h[j] as int == f[j] as int + g[j] as int
    ensures Value(h) == Value(f) + Value(g)
  {}

  method Sub(h: array<int32>, f: array<int32>, g: array<int32>)
    requires h.Length == f.Length == g.Length == 10
    requires Bounded(f[..], SUM_EVEN, SUM_ODD) && Bounded(g[..], SUM_EVEN, SUM_ODD)
    modifies h
    ensures Value(h[..]) == Value(old(f[..])) - Value(old(g[..]))
    ensures Bounded(h[..], 2 * SUM_EVEN, 2 * SUM_ODD) && Bounded(h[..], IN_EVEN, IN_ODD)
  {
    var fs, gs := f[..], g[..];
    hide Value;
    for i := 0 to 10
      invariant f != h ==> f[..] == fs
      invariant g != h ==> g[..] == gs
      invariant forall j :: i <= j < 10 ==> f[j] == fs[j] && g[j] == gs[j]
      invariant forall j :: 0 <= j < i ==> h[j] as int == fs[j] as int - gs[j] as int
    {
      h[i] := f[i] - g[i];
    }
    ValueOfSum(fs, h[..], gs);
  }

  // ------------------------------------------------------------------ multiples

  /** (x + w / 2) >> log w */
  function Round(x: int, w: int): int
    requires w > 0
  {
    (x + w / 2) / w
  }

  /** The limbs times n after the carries out of the odd ones. */
  function OddCarried(f: seq<int>, n: int): (p: seq<int>)
    requires |f| == 10
    ensures |p| == 10
  {
    var c1, c3, c5, c7, c9 := Round(f[1] * n, W25), Round(f[3] * n, W25), Round(f[5] * n, W25), Round(f[7] * n, W25), Round(f[9] * n, W25);
    [f[0] * n + c9 * 19, f[1] * n - c1 * W25, f[2] * n + c1, f[3] * n - c3 * W25, f[4] * n + c3,
     f[5] * n - c5 * W25, f[6] * n + c5, f[7] * n - c7 * W25, f[8] * n + c7, f[9] * n - c9 * W25]
  }

  /** And then out of the even ones. */
  function EvenCarried(p: seq<int>): (r: seq<int>)
    requires |p| == 10
    ensures |r| == 10
  {
    var c0, c2, c4, c6, c8 := Round(p[0], W26), Round(p[2], W26), Round(p[4], W26), Round(p[6], W26), Round(p[8], W26);
    [p[0] - c0 * W26, p[1] + c0, p[2] - c2 * W26, p[3] + c2, p[4] - c4 * W26,
     p[5] + c4, p[6] - c6 * W26, p[7] + c6, p[8] - c8 * W26, p[9] + c8]
  }

  /** The 64-bit limbs before the final casts. */
  function Carried(f: seq<int>, n: int): (r: seq<int>)
    requires |f| == 10
    ensures |r| == 10
  {
    EvenCarried(OddCarried(f, n))
  }

  /** The carries keep the element. */
  lemma CarriedCongruent(f: seq<int>, n: int)
    requires |f| == 10
    ensures Congruent(WeighSeq(Carried(f, n)), n * WeighSeq(f))
  {
    hide Round, Congruent;
    EvenKeeps(OddCarried(f, n));
    OddKeeps(f, n);
    CongruentBy(WeighSeq(Carried(f, n)), n * WeighSeq(f), -Round(f[9] * n, W25));
  }

  lemma EvenKeeps(p: seq<int>)
    requires |p| == 10
    ensures WeighSeq(EvenCarried(p)) == WeighSeq(p)
  {
    hide Round;
  }

  lemma OddKeeps(f: seq<int>, n: int)
    requires |f| == 10
    ensures WeighSeq(OddCarried(f, n)) == n * WeighSeq(f) - Round(f[9] * n, W25) * P
  {
    hide Round;
    Scaled(f, n);
  }

  lemma Scaled(f: seq<int>, n: int)
    requires |f| == 10
    ensures (Weigh(f[0] * n, f[1] * n, f[2] * n, f[3] * n, f[4] * n, f[5] * n, f[6] * n, f[7] * n, f[8] * n, f[9] * n)
      == n * WeighSeq(f))
  {}

  /** (int32_t) of a 64-bit number keeps its low 32 bits. */
  function Cast(x: int): (y: int)
    ensures -W31 <= y < W31
    ensures -W31 <= x < W31 ==> y == x
  {
    (x + W31) % 0x1_0000_0000 - W31
  }

  predicate FitsLimb(x: int) { -W31 <= x < W31 }

  /** The odd limbs are the ones that a large n can push out of 32 bits. */
  predicate OddFit(r: seq<int>)
    requires |r| == 10
  {
    FitsLimb(r[1]) && FitsLimb(r[3]) && FitsLimb(r[5]) && FitsLimb(r[7]) && FitsLimb(r[9])
  }

  function Casts(r: seq<int>): (s: seq<int>)
    requires |r| == 10
    ensures |s| == 10
  {
    seq(10, i requires 0 <= i < 10 => Cast(r[i]))
  }

  /** Every even limb is small, and every odd one is below 2^33. */
  predicate Moderate(r: seq<int>) {
    |r| == 10 && forall i :: 0 <= i < 10 ==> if i % 2 == 0 then -W25 <= r[i] <= W25 else -0x2_0000_0000 <= r[i] <= 0x2_0000_0000
  }

  lemma CastLoss(x: int) returns (k: int)
    requires -0x2_0000_0000 <= x <= 0x2_0000_0000
    ensures x == Cast(x) + 0x1_0000_0000 * k && -2 <= k <= 2 && (k == 0 <==> FitsLimb(x))
  {
    k := (x + W31) / 0x1_0000_0000;
  }

  /** A cast that loses bits of any limb always changes the element: the losses, of at most 2^33 at
      five weights, never add up to a multiple of the prime. */
  lemma CastsKeepExactly(r: seq<int>)
    requires Moderate(r)
    ensures Congruent(WeighSeq(Casts(r)), WeighSeq(r)) <==> OddFit(r)
  {
    var k1 := CastLoss(r[1]);
    var k3 := CastLoss(r[3]);
    var k5 := CastLoss(r[5]);
    var k7 := CastLoss(r[7]);
    var k9 := CastLoss(r[9]);
    LossWeighs(r, k1, k3, k5, k7, k9);
    var x, y := WeighSeq(r), WeighSeq(Casts(r));
    var e := Folded(k1, k3, k5, k7, k9);
    hide Casts, WeighSeq, Cast, FitsLimb, Moderate;
    if Congruent(y, x) {
      SmallResidue(x, y, k1, k3, k5, k7, k9);
      NoFold(k1, k3, k5, k7, k9);
    }
    if OddFit(r) {
      CongruentBy(y, x, 0);
    }
  }

  const W58 := 0x400_0000_0000_0000
  const W51 := 0x8_0000_0000_0000

  /** What the casts take away, with the part at 2^262 brought below the prime. */
  function Folded(k1: int, k3: int, k5: int, k7: int, k9: int): int {
    W58 * (k1 + W51 * (k3 + W51 * (k5 + W51 * k7))) + 0x80 * 19 * k9
  }

  lemma LossWeighs(r: seq<int>, k1: int, k3: int, k5: int, k7: int, k9: int)
    requires Moderate(r)
    requires r[1] == Cast(r[1]) + 0x1_0000_0000 * k1 && r[3] == Cast(r[3]) + 0x1_0000_0000 * k3
    requires r[5] == Cast(r[5]) + 0x1_0000_0000 * k5 && r[7] == Cast(r[7]) + 0x1_0000_0000 * k7
    requires r[9] == Cast(r[9]) + 0x1_0000_0000 * k9
    ensures WeighSeq(r) == WeighSeq(Casts(r)) + Folded(k1, k3, k5, k7, k9) + 0x80 * k9 * P
  {
    hide Cast;
    assert Cast(r[0]) == r[0] && Cast(r[2]) == r[2] && Cast(r[4]) == r[4] && Cast(r[6]) == r[6] && Cast(r[8]) == r[8] by {
      EvenCasts(r);
    }
  }

  lemma EvenCasts(r: seq<int>)
    requires Moderate(r)
    ensures Cast(r[0]) == r[0] && Cast(r[2]) == r[2] && Cast(r[4]) == r[4] && Cast(r[6]) == r[6] && Cast(r[8]) == r[8]
  {
    hide Cast;
  }

  predicate Few(k: int) { -2 <= k <= 2 }

  lemma SmallResidue(x: int, y: int, k1: int, k3: int, k5: int, k7: int, k9: int)
    requires Few(k1) && Few(k3) && Few(k5) && Few(k7) && Few(k9)
    requires x == y + Folded(k1, k3, k5, k7, k9) + 0x80 * k9 * P && Congruent(y, x)
    ensures Folded(k1, k3, k5, k7, k9) == 0
  {
    var e := Folded(k1, k3, k5, k7, k9);
    assert -P < e < P;
    var q := (y - x) / P;
    assert y - x == q * P;
    assert e == (-q - 0x80 * k9) * P;
    SmallMultipleOfP(-q - 0x80 * k9);
  }

  lemma SmallMultipleOfP(k: int)
    requires -P < k * P < P
    ensures k == 0
  {}

  lemma NoFold(k1: int, k3: int, k5: int, k7: int, k9: int)
    requires Few(k1) && Few(k3) && Few(k5) && Few(k7) && Few(k9)
    requires Folded(k1, k3, k5, k7, k9) == 0
    ensures k1 == k3 == k5 == k7 == k9 == 0
  {
    var m7 := k7;
    var m5 := k5 + W51 * m7;
    var m3 := k3 + W51 * m5;
    var m1 := k1 + W51 * m3;
    assert W58 * m1 == -0x980 * k9;
    assert m1 == 0 && k9 == 0;
    assert m3 == 0 && k1 == 0;
    assert m5 == 0 && k3 == 0;
  }

  // ------------------------------------------------------------------ the method

  /** Multipliers up to here never lose bits; from a little above here some do. */
  const MUL32_SAFE := 1_291_000_000

  predicate Limbs(f: seq<int>) {
    |f| == 10 && forall i :: 0 <= i < 10 ==>
      if i % 2 == 0 then -IN_EVEN <= f[i] <= IN_EVEN else -IN_ODD <= f[i] <= IN_ODD
  }

  lemma ProductBound(x: int, b: int, n: int, m: int)
    requires -b <= x <= b && 0 <= n <= m
    ensures -b * m <= x * n <= b * m
  {
    NonNegative(b - x, n);
    NonNegative(b + x, n);
    NonNegative(b, m - n);
    assert (b - x) * n == b * n - x * n && (b + x) * n == b * n + x * n && b * (m - n) == b * m - b * n;
  }

  lemma RoundBound(x: int, b: int)
    requires -b <= x <= b
    ensures -(b / W25) - 1 <= Round(x, W25) <= b / W25 + 1
    ensures -(b / W26) - 1 <= Round(x, W26) <= b / W26 + 1
    ensures -W25 / 2 <= x - Round(x, W25) * W25 < W25 / 2
    ensures -W25 <= x - Round(x, W26) * W26 < W25
  {}

  /** A bound on what an even limb has to carry, for multipliers up to m. */
  function Load(m: nat): nat { IN_EVEN * m + 19 * (IN_ODD * m / W25 + 1) }

  predicate Within(x: int, b: int) { -b <= x <= b }

  lemma OddBounds(f: seq<int>, n: int, m: nat)
    requires Limbs(f) && 0 <= n <= m
    ensures (var p := OddCarried(f, n);
      Within(p[0], Load(m)) && Within(p[2], Load(m)) && Within(p[4], Load(m)) && Within(p[6], Load(m)) &&
      Within(p[8], Load(m)) && Within(p[1], W25 / 2) && Within(p[3], W25 / 2) && Within(p[5], W25 / 2) &&
      Within(p[7], W25 / 2) && Within(p[9], W25 / 2))
  {
    LimbProducts(f, n, m);
    var b := IN_ODD * m;
    RoundBound(f[1] * n, b);
    RoundBound(f[3] * n, b);
    RoundBound(f[5] * n, b);
    RoundBound(f[7] * n, b);
    RoundBound(f[9] * n, b);
    hide Round, Limbs;
  }

  lemma LimbProducts(f: seq<int>, n: int, m: nat)
    requires Limbs(f) && 0 <= n <= m
    ensures Within(f[0] * n, IN_EVEN * m) && Within(f[1] * n, IN_ODD * m) && Within(f[2] * n, IN_EVEN * m)
    ensures Within(f[3] * n, IN_ODD * m) && Within(f[4] * n, IN_EVEN * m) && Within(f[5] * n, IN_ODD * m)
    ensures Within(f[6] * n, IN_EVEN * m) && Within(f[7] * n, IN_ODD * m) && Within(f[8] * n, IN_EVEN * m)
    ensures Within(f[9] * n, IN_ODD * m)
  {
    forall i | 0 <= i < 10 ensures Within(f[i] * n, (if i % 2 == 0 then IN_EVEN else IN_ODD) * m) {
      ProductBound(f[i], if i % 2 == 0 then IN_EVEN else IN_ODD, n, m);
    }
  }

  lemma EvenBounds(p: seq<int>, b: nat)
    requires |p| == 10
    requires Within(p[0], b) && Within(p[2], b) && Within(p[4], b) && Within(p[6], b) && Within(p[8], b)
    requires Within(p[1], W25 / 2) && Within(p[3], W25 / 2) && Within(p[5], W25 / 2) && Within(p[7], W25 / 2)
    requires Within(p[9], W25 / 2)
    ensures forall i :: 0 <= i < 10 ==>
      Within(EvenCarried(p)[i], if i % 2 == 0 then W25 else W25 / 2 + b / W26 + 1)
  {
    hide Round;
    EvenBound(p[0], p[1], b);
    EvenBound(p[2], p[3], b);
    EvenBound(p[4], p[5], b);
    EvenBound(p[6], p[7], b);
    EvenBound(p[8], p[9], b);
    hide Within;
  }

  lemma EvenBound(x: int, next: int, b: nat)
    requires Within(x, b) && Within(next, W25 / 2)
    ensures Within(x - Round(x, W26) * W26, W25) && Within(next + Round(x, W26), W25 / 2 + b / W26 + 1)
  {
    RoundBound(x, b);
    hide Round;
  }

  /** How large the limbs are before the casts, by the size of the multiplier. */
  lemma CarriedBounds(f: seq<int>, n: int)
    requires Limbs(f) && 0 <= n < 0x1_0000_0000
    ensures Moderate(Carried(f, n))
    ensures n <= MUL32_SAFE ==> OddFit(Carried(f, n))
    ensures n <= 0x100_0000 ==> Limbs(Carried(f, n))
  {
    hide Round, OddCarried, EvenCarried;
    var m := if n <= 0x100_0000 then 0x100_0000 else if n <= MUL32_SAFE then MUL32_SAFE else 0xffff_ffff;
    OddBounds(f, n, m);
    EvenBounds(OddCarried(f, n), Load(m));
  }

  /** The condition is not idle: a field element within the bounds and a multiplier for which the code's
      casts lose bits. */
  lemma LargeMultiplier()
    ensures (var f := [IN_EVEN, 0, 0, 0, 0, 0, 0, 0, 0, 0];
      Limbs(f) && !OddFit(Carried(f, 0xffff_ffff)) && !OddFit(Carried(f, 1_302_000_000)))
  {}

  /** (h + half) >> 25 or 26 on 64-bit words. */
  method Carry(h: int64, w: int64) returns (c: int64)
    requires w as int == W25 || w as int == W26
    requires -LIMIT <= h as int <= LIMIT
    ensures c as int == Round(h as int, w as int)
  {
    c := (h + w / 2) / w;
  }

  /** The first five carries. */
  method OddCarries(f: seq<int32>, n: int64) returns (p: seq<int64>)
    requires |f| == 10 && Limbs(Ints(f)) && 0 <= n as int < 0x1_0000_0000
    ensures |p| == 10 && forall i :: 0 <= i < 10 ==> p[i] as int == OddCarried(Ints(f), n as int)[i]
  {
    LimbProducts(Ints(f), n as int, 0xffff_ffff);
    OddBounds(Ints(f), n as int, 0xffff_ffff);
    hide Round, Limbs, OddCarried;
    var h0, h1 := f[0] as int64 * n, f[1] as int64 * n;
    var h2, h3 := f[2] as int64 * n, f[3] as int64 * n;
    var h4, h5 := f[4] as int64 * n, f[5] as int64 * n;
    var h6, h7 := f[6] as int64 * n, f[7] as int64 * n;
    var h8, h9 := f[8] as int64 * n, f[9] as int64 * n;
    h9, h0 := CarryOdd(h9, h0, true);
    h1, h2 := CarryOdd(h1, h2, false);
    h3, h4 := CarryOdd(h3, h4, false);
    h5, h6 := CarryOdd(h5, h6, false);
    h7, h8 := CarryOdd(h7, h8, false);
    p := [h0, h1, h2, h3, h4, h5, h6, h7, h8, h9];
    OddCarriedIs(Ints(f), n as int);
  }

  lemma OddCarriedIs(f: seq<int>, n: int)
    requires |f| == 10
    ensures (OddCarried(f, n)
      == [f[0] * n + Round(f[9] * n, W25) * 19, f[1] * n - Round(f[1] * n, W25) * W25, f[2] * n + Round(f[1] * n, W25),
          f[3] * n - Round(f[3] * n, W25) * W25, f[4] * n + Round(f[3] * n, W25),
          f[5] * n - Round(f[5] * n, W25) * W25, f[6] * n + Round(f[5] * n, W25),
          f[7] * n - Round(f[7] * n, W25) * W25, f[8] * n + Round(f[7] * n, W25),
          f[9] * n - Round(f[9] * n, W25) * W25])
  {
    hide Round;
  }

  const HALF := 1_000_000_000_000_000_000

  /** Out of an odd limb; what leaves the last one comes back to the first nineteen times. */
  method CarryOdd(h: int64, next: int64, last: bool) returns (h': int64, next': int64)
    requires Within(h as int, HALF) && Within(next as int, HALF)
    ensures h' as int == h as int - Round(h as int, W25) * W25
    ensures next' as int == next as int + Round(h as int, W25) * if last then 19 else 1
  {
    var c := Carry(h, 0x200_0000);
    RoundBound(h as int, HALF);
    hide Round;
    if last { next' := next + c * 19; } else { next' := next + c; }
    h' := h - c * 0x200_0000;
  }

  method CarryEven(h: int64, next: int64) returns (h': int64, next': int64)
    requires Within(h as int, HALF) && Within(next as int, HALF)
    ensures h' as int == h as int - Round(h as int, W26) * W26
    ensures next' as int == next as int + Round(h as int, W26)
  {
    var c := Carry(h, 0x400_0000);
    RoundBound(h as int, HALF);
    hide Round;
    next' := next + c;
    h' := h - c * 0x400_0000;
  }

  /** The other five. */
  method EvenCarries(p: seq<int64>, ghost q: seq<int>) returns (r: seq<int64>)
    requires |p| == |q| == 10 && forall i :: 0 <= i < 10 ==> p[i] as int == q[i] && Within(q[i], HALF)
    ensures |r| == 10 && forall i :: 0 <= i < 10 ==> r[i] as int == EvenCarried(q)[i]
  {
    hide Round;
    var h0, h1 := CarryEven(p[0], p[1]);
    var h2, h3 := CarryEven(p[2], p[3]);
    var h4, h5 := CarryEven(p[4], p[5]);
    var h6, h7 := CarryEven(p[6], p[7]);
    var h8, h9 := CarryEven(p[8], p[9]);
    r := [h0, h1, h2, h3, h4, h5, h6, h7, h8, h9];
  }

  /** fe25519_mul32. The result represents n times f exactly when the odd limbs fit before the casts,
      which they do for every f and every n up to MUL32_SAFE; up to 2^24 they may be multiplied again.
      Nothing overflows 64 bits. h may be f. */
  method Mul32(h: array<int32>, f: array<int32>, n: nat)
    requires h.Length == f.Length == 10 && Bounded(f[..], IN_EVEN, IN_ODD) && n < 0x1_0000_0000
    modifies h
    ensures (Congruent(Value(h[..]), n * Value(old(f[..])))
      <==> OddFit(Carried(Ints(old(f[..])), n)))
    ensures n <= MUL32_SAFE ==> Congruent(Value(h[..]), n * Value(old(f[..])))
    ensures n <= 0x100_0000 ==> Bounded(h[..], IN_EVEN, IN_ODD)
  {
    hide Congruent, WeighSeq, OddCarried, EvenCarried, OddFit, Moderate, Load;
    var fs := f[..];
    ghost var r := Carried(Ints(fs), n);
    BoundedLimbs(fs);
    OddBounds(Ints(fs), n, 0xffff_ffff);
    LoadFits();
    var p := OddCarries(fs, n as int64);
    var s := EvenCarries(p, OddCarried(Ints(fs), n));
    CarriedBounds(Ints(fs), n);
    for i := 0 to 10
      invariant forall j :: 0 <= j < i ==> h[j] as int == Cast(r[j])
    {
      h[i] := Cast(s[i] as int) as int32;
    }
    assert Ints(h[..]) == Casts(r);
    CarriedCongruent(Ints(fs), n);
    CastsKeepExactly(r);
    ThroughCongruent(Value(h[..]), WeighSeq(r), n * Value(fs));
    LimbsBounded(h[..], r);
  }

  lemma LoadFits()
    ensures Load(0xffff_ffff) <= HALF
  {}

  lemma BoundedLimbs(f: seq<int32>)
    requires Bounded(f, IN_EVEN, IN_ODD)
    ensures Limbs(Ints(f))
  {}

  lemma LimbsBounded(h: seq<int32>, r: seq<int>)
    requires |h| == |r| == 10 && forall j :: 0 <= j < 10 ==> h[j] as int == Cast(r[j])
    ensures Limbs(r) ==> Bounded(h, IN_EVEN, IN_ODD)
  {}

  lemma ThroughCongruent(x: int, y: int, z: int)
    requires Congruent(y, z)
    ensures Congruent(x, z) <==> Congruent(x, y)
  {
    CongruentSymm(y, z);
    if Congruent(x, z) { CongruentTrans(x, z, y); }
    if Congruent(x, y) { CongruentTrans(x, y, z); }
  }
}
