/** Field elements as ten signed limbs, alternately of 26 and 25 bits. The word types reject any
    value out of range, so a method that verifies contains no operation that overflows. */
module Field255 {
  import opened Field

  newtype int32 = x: int | -0x8000_0000 <= x < 0x8000_0000
  newtype int64 = x: int | -0x8000_0000_0000_0000 <= x < 0x8000_0000_0000_0000

  /** Limb i weighs 2^ceil(25.5 i). */
  function Weigh(r0: int, r1: int, r2: int, r3: int, r4: int, r5: int, r6: int, r7: int, r8: int, r9: int): int {
    r0 + r1 * 0x4000000 + r2 * 0x8000000000000 + r3 * 0x20000000000000000000 + r4 * 0x40000000000000000000000000 +
    r5 * 0x100000000000000000000000000000000 + r6 * 0x200000000000000000000000000000000000000 +
    r7 * 0x800000000000000000000000000000000000000000000 +
    r8 * 0x1000000000000000000000000000000000000000000000000000 +
    r9 * 0x4000000000000000000000000000000000000000000000000000000000
  }

  function WeighSeq(h: seq<int>): int
    requires |h| == 10
  {
    Weigh(h[0], h[1], h[2], h[3], h[4], h[5], h[6], h[7], h[8], h[9])
  }

  function Ints(f: seq<int32>): (r: seq<int>)
    ensures |r| == |f|
  {
    seq(|f|, i requires 0 <= i < |f| => f[i] as int)
  }

  function Value(f: seq<int32>): int
    requires |f| == 10
  {
    WeighSeq(Ints(f))
  }

  /** |f| bounded by even, odd, even, odd, etc. */
  predicate Bounded(f: seq<int32>, even: int, odd: int) {
    |f| == 10 && forall i | 0 <= i < 10 ::
      if i % 2 == 0 then -even <= f[i] as int <= even else -odd <= f[i] as int <= odd
  }

  const IN_EVEN := 110729625   // 1.65 * 2^26
  const IN_ODD := 55364812     // 1.65 * 2^25
  const OUT_EVEN := 33889976   // 1.01 * 2^25
  const OUT_ODD := 16944988    // 1.01 * 2^24

  // ------------------------------------------------------------------ the columns of a product

  /** Column k collects the products of limbs i and j with i + j = k, and 19 times those with
      i + j = k + 10; a product of two odd limbs counts twice. */
  function Column(f: seq<int>, g: seq<int>, k: nat): int
    requires |f| == 10 && |g| == 10 && k < 10
  {
    match k
    case 0 =>
      f[0] * g[0] + 38 * f[1] * g[9] + 19 * f[2] * g[8] + 38 * f[3] * g[7] + 19 * f[4] * g[6] +
      38 * f[5] * g[5] + 19 * f[6] * g[4] + 38 * f[7] * g[3] + 19 * f[8] * g[2] + 38 * f[9] * g[1]
    case 1 =>
      f[0] * g[1] + f[1] * g[0] + 19 * f[2] * g[9] + 19 * f[3] * g[8] + 19 * f[4] * g[7] + 19 * f[5] * g[6] +
      19 * f[6] * g[5] + 19 * f[7] * g[4] + 19 * f[8] * g[3] + 19 * f[9] * g[2]
    case 2 =>
      f[0] * g[2] + 2 * f[1] * g[1] + f[2] * g[0] + 38 * f[3] * g[9] + 19 * f[4] * g[8] + 38 * f[5] * g[7] +
      19 * f[6] * g[6] + 38 * f[7] * g[5] + 19 * f[8] * g[4] + 38 * f[9] * g[3]
    case 3 =>
      f[0] * g[3] + f[1] * g[2] + f[2] * g[1] + f[3] * g[0] + 19 * f[4] * g[9] + 19 * f[5] * g[8] +
      19 * f[6] * g[7] + 19 * f[7] * g[6] + 19 * f[8] * g[5] + 19 * f[9] * g[4]
    case 4 =>
      f[0] * g[4] + 2 * f[1] * g[3] + f[2] * g[2] + 2 * f[3] * g[1] + f[4] * g[0] + 38 * f[5] * g[9] +
      19 * f[6] * g[8] + 38 * f[7] * g[7] + 19 * f[8] * g[6] + 38 * f[9] * g[5]
    case 5 =>
      f[0] * g[5] + f[1] * g[4] + f[2] * g[3] + f[3] * g[2] + f[4] * g[1] + f[5] * g[0] + 19 * f[6] * g[9] +
      19 * f[7] * g[8] + 19 * f[8] * g[7] + 19 * f[9] * g[6]
    case 6 =>
      f[0] * g[6] + 2 * f[1] * g[5] + f[2] * g[4] + 2 * f[3] * g[3] + f[4] * g[2] + 2 * f[5] * g[1] +
      f[6] * g[0] + 38 * f[7] * g[9] + 19 * f[8] * g[8] + 38 * f[9] * g[7]
    case 7 =>
      f[0] * g[7] + f[1] * g[6] + f[2] * g[5] + f[3] * g[4] + f[4] * g[3] + f[5] * g[2] + f[6] * g[1] +
      f[7] * g[0] + 19 * f[8] * g[9] + 19 * f[9] * g[8]
    case 8 =>
      f[0] * g[8] + 2 * f[1] * g[7] + f[2] * g[6] + 2 * f[3] * g[5] + f[4] * g[4] + 2 * f[5] * g[3] +
      f[6] * g[2] + 2 * f[7] * g[1] + f[8] * g[0] + 38 * f[9] * g[9]
    case _ =>
      f[0] * g[9] + f[1] * g[8] + f[2] * g[7] + f[3] * g[6] + f[4] * g[5] + f[5] * g[4] + f[6] * g[3] +
      f[7] * g[2] + f[8] * g[1] + f[9] * g[0]
  }

  function Columns(f: seq<int>, g: seq<int>): (r: seq<int>)
    requires |f| == 10 && |g| == 10
    ensures |r| == 10
  {
    seq(10, k requires 0 <= k < 10 => Column(f, g, k))
  }

  /** The contribution of limb i, with value x, to the ten columns. */
  function Row(i: nat, x: int, g: seq<int>): (r: seq<int>)
    requires i < 10 && |g| == 10
    ensures |r| == 10
  {
    match i
    case 0 => [x * g[0], x * g[1], x * g[2], x * g[3], x * g[4], x * g[5], x * g[6], x * g[7], x * g[8], x * g[9]]
    case 1 => [38 * x * g[9], x * g[0], 2 * x * g[1], x * g[2], 2 * x * g[3], x * g[4], 2 * x * g[5], x * g[6], 2 * x * g[7],
                 x * g[8]]
    case 2 => [19 * x * g[8], 19 * x * g[9], x * g[0], x * g[1], x * g[2], x * g[3], x * g[4], x * g[5], x * g[6], x * g[7]]
    case 3 => [38 * x * g[7], 19 * x * g[8], 38 * x * g[9], x * g[0], 2 * x * g[1], x * g[2], 2 * x * g[3], x * g[4],
                 2 * x * g[5], x * g[6]]
    case 4 => [19 * x * g[6], 19 * x * g[7], 19 * x * g[8], 19 * x * g[9], x * g[0], x * g[1], x * g[2], x * g[3], x * g[4],
                 x * g[5]]
    case 5 => [38 * x * g[5], 19 * x * g[6], 38 * x * g[7], 19 * x * g[8], 38 * x * g[9], x * g[0], 2 * x * g[1], x * g[2],
                 2 * x * g[3], x * g[4]]
    case 6 => [19 * x * g[4], 19 * x * g[5], 19 * x * g[6], 19 * x * g[7], 19 * x * g[8], 19 * x * g[9], x * g[0], x * g[1],
                 x * g[2], x * g[3]]
    case 7 => [38 * x * g[3], 19 * x * g[4], 38 * x * g[5], 19 * x * g[6], 38 * x * g[7], 19 * x * g[8], 38 * x * g[9],
                 x * g[0], 2 * x * g[1], x * g[2]]
    case 8 => [19 * x * g[2], 19 * x * g[3], 19 * x * g[4], 19 * x * g[5], 19 * x * g[6], 19 * x * g[7], 19 * x * g[8],
                 19 * x * g[9], x * g[0], x * g[1]]
    case _ => [38 * x * g[1], 19 * x * g[2], 38 * x * g[3], 19 * x * g[4], 38 * x * g[5], 19 * x * g[6], 38 * x * g[7],
                 19 * x * g[8], 38 * x * g[9], x * g[0]]
  }

  function Weight(i: nat): int
    requires i < 10
  {
    [0x1, 0x4000000, 0x8000000000000, 0x20000000000000000000, 0x40000000000000000000000000,
     0x100000000000000000000000000000000, 0x200000000000000000000000000000000000000,
     0x800000000000000000000000000000000000000000000, 0x1000000000000000000000000000000000000000000000000000,
     0x4000000000000000000000000000000000000000000000000000000000][i]
  }

  lemma Row0(x: int, g: seq<int>)
    requires |g| == 10
    ensures Congruent(WeighSeq(Row(0, x, g)), x * Weight(0) * WeighSeq(g))
  {
    assert Row(0, x, g) == Scaled(x, g);
    ScaledWeigh(x, g);
    hide WeighSeq;
    CongruentBy(WeighSeq(Row(0, x, g)), x * WeighSeq(g), 0);
  }

  function Scaled(x: int, g: seq<int>): (r: seq<int>)
    requires |g| == 10
    ensures |r| == 10
  {
    seq(10, i requires 0 <= i < 10 => x * g[i])
  }

  lemma ScaledWeigh(x: int, g: seq<int>)
    requires |g| == 10
    ensures WeighSeq(Scaled(x, g)) == x * WeighSeq(g)
  {}

  lemma Row1(x: int, g: seq<int>)
    requires |g| == 10
    ensures Congruent(WeighSeq(Row(1, x, g)), x * Weight(1) * WeighSeq(g))
  {
    CongruentBy(WeighSeq(Row(1, x, g)), x * Weight(1) * WeighSeq(g),
                -Weigh(2 * x * g[9], 0, 0, 0, 0, 0, 0, 0, 0, 0));
  }

  lemma Row2(x: int, g: seq<int>)
    requires |g| == 10
    ensures Congruent(WeighSeq(Row(2, x, g)), x * Weight(2) * WeighSeq(g))
  {
    CongruentBy(WeighSeq(Row(2, x, g)), x * Weight(2) * WeighSeq(g),
                -Weigh(x * g[8], x * g[9], 0, 0, 0, 0, 0, 0, 0, 0));
  }

  lemma Row3(x: int, g: seq<int>)
    requires |g| == 10
    ensures Congruent(WeighSeq(Row(3, x, g)), x * Weight(3) * WeighSeq(g))
  {
    CongruentBy(WeighSeq(Row(3, x, g)), x * Weight(3) * WeighSeq(g),
                -Weigh(2 * x * g[7], x * g[8], 2 * x * g[9], 0, 0, 0, 0, 0, 0, 0));
  }

  lemma Row4(x: int, g: seq<int>)
    requires |g| == 10
    ensures Congruent(WeighSeq(Row(4, x, g)), x * Weight(4) * WeighSeq(g))
  {
    CongruentBy(WeighSeq(Row(4, x, g)), x * Weight(4) * WeighSeq(g),
                -Weigh(x * g[6], x * g[7], x * g[8], x * g[9], 0, 0, 0, 0, 0, 0));
  }

  lemma Row5(x: int, g: seq<int>)
    requires |g| == 10
    ensures Congruent(WeighSeq(Row(5, x, g)), x * Weight(5) * WeighSeq(g))
  {
    CongruentBy(WeighSeq(Row(5, x, g)), x * Weight(5) * WeighSeq(g),
                -Weigh(2 * x * g[5], x * g[6], 2 * x * g[7], x * g[8], 2 * x * g[9], 0, 0, 0, 0, 0));
  }

  lemma Row6(x: int, g: seq<int>)
    requires |g| == 10
    ensures Congruent(WeighSeq(Row(6, x, g)), x * Weight(6) * WeighSeq(g))
  {
    CongruentBy(WeighSeq(Row(6, x, g)), x * Weight(6) * WeighSeq(g),
                -Weigh(x * g[4], x * g[5], x * g[6], x * g[7], x * g[8], x * g[9], 0, 0, 0, 0));
  }

  lemma Row7(x: int, g: seq<int>)
    requires |g| == 10
    ensures Congruent(WeighSeq(Row(7, x, g)), x * Weight(7) * WeighSeq(g))
  {
    CongruentBy(WeighSeq(Row(7, x, g)), x * Weight(7) * WeighSeq(g),
                -Weigh(2 * x * g[3], x * g[4], 2 * x * g[5], x * g[6], 2 * x * g[7], x * g[8], 2 * x * g[9], 0, 0, 0));
  }

  lemma Row8(x: int, g: seq<int>)
    requires |g| == 10
    ensures Congruent(WeighSeq(Row(8, x, g)), x * Weight(8) * WeighSeq(g))
  {
    CongruentBy(WeighSeq(Row(8, x, g)), x * Weight(8) * WeighSeq(g),
                -Weigh(x * g[2], x * g[3], x * g[4], x * g[5], x * g[6], x * g[7], x * g[8], x * g[9], 0, 0));
  }

  lemma Row9(x: int, g: seq<int>)
    requires |g| == 10
    ensures Congruent(WeighSeq(Row(9, x, g)), x * Weight(9) * WeighSeq(g))
  {
    CongruentBy(WeighSeq(Row(9, x, g)), x * Weight(9) * WeighSeq(g),
                -Weigh(2 * x * g[1], x * g[2], 2 * x * g[3], x * g[4], 2 * x * g[5], x * g[6], 2 * x * g[7], x * g[8],
                       2 * x * g[9], 0));
  }

  /** What limb i, with value x, contributes to the product with w. */
  function Scale(x: int, i: nat, w: int): int
    requires i < 10
  {
    x * Weight(i) * w
  }

  lemma RowCongruent(i: nat, x: int, g: seq<int>)
    requires i < 10 && |g| == 10
    ensures Congruent(WeighSeq(Row(i, x, g)), Scale(x, i, WeighSeq(g)))
  {
    hide Row, Weight, WeighSeq, Congruent;
    match i
    case 0 => Row0(x, g);
    case 1 => Row1(x, g);
    case 2 => Row2(x, g);
    case 3 => Row3(x, g);
    case 4 => Row4(x, g);
    case 5 => Row5(x, g);
    case 6 => Row6(x, g);
    case 7 => Row7(x, g);
    case 8 => Row8(x, g);
    case _ => Row9(x, g);
  }

  function Sum(a: seq<int>, b: seq<int>): (r: seq<int>)
    requires |a| == |b|
    ensures |r| == |a|
  {
    seq(|a|, i requires 0 <= i < |a| => a[i] + b[i])
  }

  /** The rows of the first n limbs of f. */
  function Rows(f: seq<int>, g: seq<int>, n: nat): (r: seq<int>)
    requires |f| == 10 && |g| == 10 && n <= 10
    ensures |r| == 10
  {
    if n == 0 then seq(10, i => 0) else Sum(Rows(f, g, n - 1), Row(n - 1, f[n - 1], g))
  }

  function Partial(f: seq<int>, n: nat): int
    requires |f| == 10 && n <= 10
  {
    if n == 0 then 0 else Partial(f, n - 1) + f[n - 1] * Weight(n - 1)
  }

  lemma WeighSum(a: seq<int>, b: seq<int>)
    requires |a| == |b| == 10
    ensures WeighSeq(Sum(a, b)) == WeighSeq(a) + WeighSeq(b)
  {}

  lemma Distribute(a: int, b: int, c: int)
    ensures (a + b) * c == a * c + b * c
  {}

  function Share(f: seq<int>, w: int, n: nat): int
    requires |f| == 10 && n <= 10
  {
    if n == 0 then 0 else Share(f, w, n - 1) + Scale(f[n - 1], n - 1, w)
  }

  lemma {:induction false} ShareIsProduct(f: seq<int>, w: int, n: nat)
    requires |f| == 10 && n <= 10
    ensures Share(f, w, n) == Partial(f, n) * w
  {
    if n > 0 {
      ShareIsProduct(f, w, n - 1);
      hide Weight;
      Distribute(Partial(f, n - 1), f[n - 1] * Weight(n - 1), w);
    }
  }

  lemma {:induction false} RowsCongruent(f: seq<int>, g: seq<int>, n: nat)
    requires |f| == 10 && |g| == 10 && n <= 10
    ensures Congruent(WeighSeq(Rows(f, g, n)), Share(f, WeighSeq(g), n))
  {
    if n > 0 {
      hide Row, Scale, WeighSeq, Congruent, Sum;
      var x, i := f[n - 1], n - 1;
      var rows, row, w := Rows(f, g, i), Row(i, x, g), WeighSeq(g);
      RowsCongruent(f, g, i);
      RowCongruent(i, x, g);
      WeighSum(rows, row);
      CongruentAdd(WeighSeq(rows), Share(f, w, i), WeighSeq(row), Scale(x, i, w));
    }
  }

  lemma PartialIsAll(f: seq<int>)
    requires |f| == 10
    ensures Partial(f, 10) == WeighSeq(f)
  {
    assert Partial(f, 1) == Partial(f, 0) + f[0] * 0x1;
    assert Partial(f, 2) == Partial(f, 1) + f[1] * 0x4000000;
    assert Partial(f, 3) == Partial(f, 2) + f[2] * 0x8000000000000;
    assert Partial(f, 4) == Partial(f, 3) + f[3] * 0x20000000000000000000;
    assert Partial(f, 5) == Partial(f, 4) + f[4] * 0x40000000000000000000000000;
    assert Partial(f, 6) == Partial(f, 5) + f[5] * 0x100000000000000000000000000000000;
    assert Partial(f, 7) == Partial(f, 6) + f[6] * 0x200000000000000000000000000000000000000;
    assert Partial(f, 8) == Partial(f, 7) + f[7] * 0x800000000000000000000000000000000000000000000;
    assert Partial(f, 9) == Partial(f, 8) + f[8] * 0x1000000000000000000000000000000000000000000000000000;
    assert Partial(f, 10) == Partial(f, 9) + f[9] * 0x4000000000000000000000000000000000000000000000000000000000;
  }

  lemma RowsAt(f: seq<int>, g: seq<int>, k: nat)
    requires |f| == 10 && |g| == 10 && k < 10
    ensures Rows(f, g, 10)[k] == Row(0, f[0], g)[k] + Row(1, f[1], g)[k] + Row(2, f[2], g)[k] + Row(3, f[3], g)[k] + Row(4, f[4], g)[k] +
      Row(5, f[5], g)[k] + Row(6, f[6], g)[k] + Row(7, f[7], g)[k] + Row(8, f[8], g)[k] + Row(9, f[9], g)[k]
  {
    hide Row;
    assert Rows(f, g, 1)[k] == Rows(f, g, 0)[k] + Row(0, f[0], g)[k];
    assert Rows(f, g, 2)[k] == Rows(f, g, 1)[k] + Row(1, f[1], g)[k];
    assert Rows(f, g, 3)[k] == Rows(f, g, 2)[k] + Row(2, f[2], g)[k];
    assert Rows(f, g, 4)[k] == Rows(f, g, 3)[k] + Row(3, f[3], g)[k];
    assert Rows(f, g, 5)[k] == Rows(f, g, 4)[k] + Row(4, f[4], g)[k];
    assert Rows(f, g, 6)[k] == Rows(f, g, 5)[k] + Row(5, f[5], g)[k];
    assert Rows(f, g, 7)[k] == Rows(f, g, 6)[k] + Row(6, f[6], g)[k];
    assert Rows(f, g, 8)[k] == Rows(f, g, 7)[k] + Row(7, f[7], g)[k];
    assert Rows(f, g, 9)[k] == Rows(f, g, 8)[k] + Row(8, f[8], g)[k];
    assert Rows(f, g, 10)[k] == Rows(f, g, 9)[k] + Row(9, f[9], g)[k];
  }

  lemma ColumnAt(f: seq<int>, g: seq<int>, k: nat)
    requires |f| == 10 && |g| == 10 && k < 10
    ensures Column(f, g, k) == Row(0, f[0], g)[k] + Row(1, f[1], g)[k] + Row(2, f[2], g)[k] + Row(3, f[3], g)[k] + Row(4, f[4], g)[k] +
      Row(5, f[5], g)[k] + Row(6, f[6], g)[k] + Row(7, f[7], g)[k] + Row(8, f[8], g)[k] + Row(9, f[9], g)[k]
  {
    match k
    case 0 => case 1 => case 2 => case 3 => case 4 => case 5 => case 6 => case 7 => case 8 => case _ =>
  }

  lemma ColumnsAreRows(f: seq<int>, g: seq<int>)
    requires |f| == 10 && |g| == 10
    ensures Rows(f, g, 10) == Columns(f, g)
  {
    hide Rows, Row, Column;
    forall k: nat | k < 10
      ensures Rows(f, g, 10)[k] == Columns(f, g)[k]
    {
      RowsAt(f, g, k);
      ColumnAt(f, g, k);
    }
  }

  /** The columns represent the product in the field. */
  lemma ColumnsCongruent(f: seq<int>, g: seq<int>)
    requires |f| == 10 && |g| == 10
    ensures Congruent(WeighSeq(Columns(f, g)), WeighSeq(f) * WeighSeq(g))
  {
    hide Column, WeighSeq, Congruent;
    RowsCongruent(f, g, 10);
    ShareIsProduct(f, WeighSeq(g), 10);
    PartialIsAll(f);
    ColumnsAreRows(f, g);
  }

  // ------------------------------------------------------------------ the carry chain

  /** The carry out of a limb of k bits, rounded: (h + 2^(k-1)) >> k, an arithmetic shift. */
  function Carry26(h: int64): (c: int64)
    requires h as int < LIMIT
  {
    (h + 0x200_0000) / 0x400_0000
  }

  function Carry25(h: int64): (c: int64)
    requires h as int < LIMIT
  {
    (h + 0x100_0000) / 0x200_0000
  }

  /** h -= x, computed in uint64_t and converted back. */
  function SubtractUnsigned(h: int64, x: int): (r: int64)
    ensures -0x8000_0000_0000_0000 <= h as int - x < 0x8000_0000_0000_0000 ==> r as int == h as int - x
  {
    ((h as int - x + 0x8000_0000_0000_0000) % 0x1_0000_0000_0000_0000 - 0x8000_0000_0000_0000) as int64
  }

  const LIMIT := 6_000_000_000_000_000_000

  /** Moves the carry of a 26-bit limb h into the next limb. */
  method CarryFrom26(h_: int64, next_: int64) returns (h: int64, next: int64)
    requires -LIMIT <= h_ as int <= LIMIT - 1 && -LIMIT <= next_ as int <= LIMIT
    ensures h_ as int == h as int + 0x400_0000 * (next as int - next_ as int)
    ensures -0x200_0000 <= h as int <= 0x200_0000
  {
    var carry := Carry26(h_);
    next := next_ + carry;
    h := SubtractUnsigned(h_, carry as int * 0x400_0000);
  }

  /** Moves the carry of a 25-bit limb h into the next limb. */
  method CarryFrom25(h_: int64, next_: int64) returns (h: int64, next: int64)
    requires -LIMIT <= h_ as int <= LIMIT - 1 && -LIMIT <= next_ as int <= LIMIT
    ensures h_ as int == h as int + 0x200_0000 * (next as int - next_ as int)
    ensures -0x100_0000 <= h as int <= 0x100_0000
  {
    var carry := Carry25(h_);
    next := next_ + carry;
    h := SubtractUnsigned(h_, carry as int * 0x200_0000);
  }

  const COLUMN := 5_600_000_000_000_000_000

  predicate Fits(r: int64) { -COLUMN <= r as int <= COLUMN }

  predicate Small26(h: int64) { -0x200_0000 <= h as int <= 0x200_0000 }

  predicate Small25(h: int64) { -0x100_0000 <= h as int <= 0x100_0000 }

  /** The twelve carries that end mul, sq and sq2; c is the carry that wraps at 2^255. */
  method Carries(r0: int64, r1: int64, r2: int64, r3: int64, r4: int64,
                 r5: int64, r6: int64, r7: int64, r8: int64, r9: int64)
    returns (h0: int64, h1: int64, h2: int64, h3: int64, h4: int64,
             h5: int64, h6: int64, h7: int64, h8: int64, h9: int64, ghost c: int)
    requires Fits(r0) && Fits(r1) && Fits(r2) && Fits(r3) && Fits(r4)
    requires Fits(r5) && Fits(r6) && Fits(r7) && Fits(r8) && Fits(r9)
    ensures Small26(h0) && Small26(h2) && Small26(h4) && Small26(h6) && Small26(h8)
    ensures Small25(h3) && Small25(h7) && Small25(h9)
    ensures -OUT_ODD <= h1 as int <= OUT_ODD && -OUT_ODD <= h5 as int <= OUT_ODD
    ensures Weigh(h0 as int, h1 as int, h2 as int, h3 as int, h4 as int,
                  h5 as int, h6 as int, h7 as int, h8 as int, h9 as int)
         == Weigh(r0 as int, r1 as int, r2 as int, r3 as int, r4 as int,
                  r5 as int, r6 as int, r7 as int, r8 as int, r9 as int) - c * P
  {
    h0, h1 := CarryFrom26(r0, r1);
    h4, h5 := CarryFrom26(r4, r5);
    h1, h2 := CarryFrom25(h1, r2);
    h5, h6 := CarryFrom25(h5, r6);
    h2, h3 := CarryFrom26(h2, r3);
    h6, h7 := CarryFrom26(h6, r7);
    h3, h4 := CarryFrom25(h3, h4);
    h7, h8 := CarryFrom25(h7, r8);
    h4, h5 := CarryFrom26(h4, h5);
    h8, h9 := CarryFrom26(h8, r9);
    h9, h0, c := CarryWrap(h9, h0);
    h0, h1 := CarryFrom26(h0, h1);
  }

  /** carry9: what leaves the last limb comes back to the first one nineteen times. */
  method CarryWrap(h9_: int64, h0_: int64) returns (h9: int64, h0: int64, ghost c: int)
    requires -LIMIT <= h9_ as int <= LIMIT - 1 && Small26(h0_)
    ensures h9_ as int == h9 as int + 0x200_0000 * c && h0 as int == h0_ as int + 19 * c
    ensures Small25(h9)
  {
    var carry9 := Carry25(h9_);
    h0 := h0_ + carry9 * 19;
    h9 := SubtractUnsigned(h9_, carry9 as int * 0x200_0000);
    c := carry9 as int;
  }

  /** (int32_t) on ten limbs, which loses nothing here. */
  method Narrow(h0: int64, h1: int64, h2: int64, h3: int64, h4: int64,
                h5: int64, h6: int64, h7: int64, h8: int64, h9: int64) returns (s: seq<int32>)
    requires Small26(h0) && Small26(h2) && Small26(h4) && Small26(h6) && Small26(h8)
    requires Small25(h3) && Small25(h7) && Small25(h9)
    requires -OUT_ODD <= h1 as int <= OUT_ODD && -OUT_ODD <= h5 as int <= OUT_ODD
    ensures Ints(s) == [h0 as int, h1 as int, h2 as int, h3 as int, h4 as int,
                        h5 as int, h6 as int, h7 as int, h8 as int, h9 as int]
    ensures Bounded(s, OUT_EVEN, OUT_ODD)
  {
    s := [h0 as int32, h1 as int32, h2 as int32, h3 as int32, h4 as int32,
          h5 as int32, h6 as int32, h7 as int32, h8 as int32, h9 as int32];
  }

  /** The ten stores h[i] = ..., in order. */
  method Store(h: array<int32>, s: seq<int32>)
    requires h.Length == |s| == 10
    modifies h
    ensures h[..] == s
  {
    for i := 0 to 10
      invariant h[..i] == s[..i]
    {
      h[i] := s[i];
    }
  }

  /** The end of mul, sq and sq2, from the ten columns. */
  method CarryChain(h: array<int32>, r0: int64, r1: int64, r2: int64, r3: int64, r4: int64,
                    r5: int64, r6: int64, r7: int64, r8: int64, r9: int64, ghost r: seq<int>)
    requires h.Length == 10
    requires Fits(r0) && Fits(r1) && Fits(r2) && Fits(r3) && Fits(r4)
    requires Fits(r5) && Fits(r6) && Fits(r7) && Fits(r8) && Fits(r9)
    requires r == [r0 as int, r1 as int, r2 as int, r3 as int, r4 as int,
                   r5 as int, r6 as int, r7 as int, r8 as int, r9 as int]
    modifies h
    ensures Congruent(Value(h[..]), WeighSeq(r))
    ensures Bounded(h[..], OUT_EVEN, OUT_ODD)
  {
    hide Congruent, Weigh, Ints, Bounded;
    var h0, h1, h2, h3, h4, h5, h6, h7, h8, h9;
    ghost var c;
    h0, h1, h2, h3, h4, h5, h6, h7, h8, h9, c := Carries(r0, r1, r2, r3, r4, r5, r6, r7, r8, r9);
    var s := Narrow(h0, h1, h2, h3, h4, h5, h6, h7, h8, h9);
    Store(h, s);
    CongruentBy(Value(h[..]), WeighSeq(r), -c);
  }

  // ------------------------------------------------------------------ multiplication

  /** a * (int64_t) b */
  function Wide(a: int32, b: int32): (r: int64) {
    WideRange(a as int, b as int);
    (a as int * b as int) as int64
  }

  lemma WideRange(a: int, b: int)
    requires -0x8000_0000 <= a < 0x8000_0000 && -0x8000_0000 <= b < 0x8000_0000
    ensures -0x4000_0000_0000_0000 <= a * b <= 0x4000_0000_0000_0000
  {
    ProductBound(a, b, 0x8000_0000, 0x8000_0000);
  }

  lemma ProductBound(a: int, b: int, x: int, y: int)
    requires -x <= a <= x && -y <= b <= y
    ensures -(x * y) <= a * b <= x * y
  {
    NonNegative(x - a, y + b);
    NonNegative(x + a, y - b);
    NonNegative(x - a, y - b);
    NonNegative(x + a, y + b);
    assert (x - a) * (y + b) + (x + a) * (y - b) == 2 * (x * y) - 2 * (a * b);
    assert (x - a) * (y - b) + (x + a) * (y + b) == 2 * (x * y) + 2 * (a * b);
  }

  lemma NonNegative(a: int, b: int)
    requires a >= 0 && b >= 0
    ensures a * b >= 0
  {}

  /** Factors as the code forms them: a doubled odd limb is as large as an even one, and the other
      factor may have been multiplied by 19 beforehand. */
  predicate Factors(a: int32, b: int32) {
    -2 * IN_EVEN <= a as int <= 2 * IN_EVEN && -19 * IN_EVEN <= b as int <= 19 * IN_EVEN
  }

  function Product(a: int32, b: int32): int { a as int * b as int }

  const PRODUCT := 38 * (IN_EVEN * IN_EVEN)

  lemma WideProduct(a: int32, b: int32)
    requires Factors(a, b)
    ensures Wide(a, b) as int == Product(a, b)
    ensures -PRODUCT <= Product(a, b) <= PRODUCT
    ensures -IN_EVEN <= a as int <= IN_EVEN ==> -PRODUCT / 2 <= Product(a, b) <= PRODUCT / 2
  {
    ProductBound(a as int, b as int, 2 * IN_EVEN, 19 * IN_EVEN);
    if -IN_EVEN <= a as int <= IN_EVEN {
      ProductBound(a as int, b as int, IN_EVEN, 19 * IN_EVEN);
    }
  }

  predicate Half(a: int32) { -IN_EVEN <= a as int <= IN_EVEN }

  predicate Nineteen(b: int32) { -19 * IN_EVEN <= b as int <= 19 * IN_EVEN }

  /** The sum of ten products, none of the partial sums overflowing. */
  method Sum10(a0: int32, b0: int32, a1: int32, b1: int32, a2: int32, b2: int32, a3: int32, b3: int32,
               a4: int32, b4: int32, a5: int32, b5: int32, a6: int32, b6: int32, a7: int32, b7: int32,
               a8: int32, b8: int32, a9: int32, b9: int32) returns (h: int64)
    requires Half(a0) && Half(a1) && Half(a2) && Half(a3) && Half(a4) && Half(a5) && Half(a6) && Half(a7) && Half(a8) && Half(a9)
    requires Nineteen(b0) && Nineteen(b1) && Nineteen(b2) && Nineteen(b3) && Nineteen(b4) && Nineteen(b5) && Nineteen(b6) && Nineteen(b7) && Nineteen(b8) && Nineteen(b9)
    ensures h as int == Product(a0, b0) + Product(a1, b1) + Product(a2, b2) + Product(a3, b3) +
                        Product(a4, b4) + Product(a5, b5) + Product(a6, b6) + Product(a7, b7) +
                        Product(a8, b8) + Product(a9, b9)
    ensures Fits(h)
  {
    WideProduct(a0, b0);
    WideProduct(a1, b1);
    WideProduct(a2, b2);
    WideProduct(a3, b3);
    WideProduct(a4, b4);
    WideProduct(a5, b5);
    WideProduct(a6, b6);
    WideProduct(a7, b7);
    WideProduct(a8, b8);
    WideProduct(a9, b9);
    hide Wide, Product;
    h := Wide(a0, b0) + Wide(a1, b1) + Wide(a2, b2) + Wide(a3, b3) + Wide(a4, b4) + Wide(a5, b5) +
         Wide(a6, b6) + Wide(a7, b7) + Wide(a8, b8) + Wide(a9, b9);
  }

  lemma LimbBounds(f: seq<int32>)
    requires Bounded(f, IN_EVEN, IN_ODD)
    ensures |f| == 10 && -IN_EVEN <= f[0] as int <= IN_EVEN && -IN_ODD <= f[1] as int <= IN_ODD
    ensures -IN_EVEN <= f[2] as int <= IN_EVEN && -IN_ODD <= f[3] as int <= IN_ODD
    ensures -IN_EVEN <= f[4] as int <= IN_EVEN && -IN_ODD <= f[5] as int <= IN_ODD
    ensures -IN_EVEN <= f[6] as int <= IN_EVEN && -IN_ODD <= f[7] as int <= IN_ODD
    ensures -IN_EVEN <= f[8] as int <= IN_EVEN && -IN_ODD <= f[9] as int <= IN_ODD
  {}

  method Column0(f: seq<int32>, g: seq<int32>) returns (h0: int64)
    requires Bounded(f, IN_EVEN, IN_ODD) && Bounded(g, IN_EVEN, IN_ODD)
    ensures Fits(h0) && h0 as int == Column(Ints(f), Ints(g), 0)
  {
    LimbBounds(f);
    LimbBounds(g);
    hide Bounded;
    var f1_2, f3_2, f5_2, f7_2, f9_2 := 2 * f[1], 2 * f[3], 2 * f[5], 2 * f[7], 2 * f[9];
    var g1_19, g2_19, g3_19, g4_19, g5_19, g6_19, g7_19, g8_19, g9_19 := 19 * g[1], 19 * g[2], 19 * g[3], 19 * g[4], 19 * g[5], 19 * g[6], 19 * g[7], 19 * g[8], 19 * g[9];
    h0 := Sum10(f[0], g[0], f1_2, g9_19, f[2], g8_19, f3_2, g7_19, f[4], g6_19, f5_2, g5_19, f[6], g4_19,
                f7_2, g3_19, f[8], g2_19, f9_2, g1_19);
  }

  method Column1(f: seq<int32>, g: seq<int32>) returns (h1: int64)
    requires Bounded(f, IN_EVEN, IN_ODD) && Bounded(g, IN_EVEN, IN_ODD)
    ensures Fits(h1) && h1 as int == Column(Ints(f), Ints(g), 1)
  {
    LimbBounds(f);
    LimbBounds(g);
    hide Bounded;
    var g2_19, g3_19, g4_19, g5_19, g6_19, g7_19, g8_19, g9_19 := 19 * g[2], 19 * g[3], 19 * g[4], 19 * g[5], 19 * g[6], 19 * g[7], 19 * g[8], 19 * g[9];
    h1 := Sum10(f[0], g[1], f[1], g[0], f[2], g9_19, f[3], g8_19, f[4], g7_19, f[5], g6_19, f[6], g5_19,
                f[7], g4_19, f[8], g3_19, f[9], g2_19);
  }

  method Column2(f: seq<int32>, g: seq<int32>) returns (h2: int64)
    requires Bounded(f, IN_EVEN, IN_ODD) && Bounded(g, IN_EVEN, IN_ODD)
    ensures Fits(h2) && h2 as int == Column(Ints(f), Ints(g), 2)
  {
    LimbBounds(f);
    LimbBounds(g);
    hide Bounded;
    var f1_2, f3_2, f5_2, f7_2, f9_2 := 2 * f[1], 2 * f[3], 2 * f[5], 2 * f[7], 2 * f[9];
    var g3_19, g4_19, g5_19, g6_19, g7_19, g8_19, g9_19 := 19 * g[3], 19 * g[4], 19 * g[5], 19 * g[6], 19 * g[7], 19 * g[8], 19 * g[9];
    h2 := Sum10(f[0], g[2], f1_2, g[1], f[2], g[0], f3_2, g9_19, f[4], g8_19, f5_2, g7_19, f[6], g6_19,
                f7_2, g5_19, f[8], g4_19, f9_2, g3_19);
  }

  method Column3(f: seq<int32>, g: seq<int32>) returns (h3: int64)
    requires Bounded(f, IN_EVEN, IN_ODD) && Bounded(g, IN_EVEN, IN_ODD)
    ensures Fits(h3) && h3 as int == Column(Ints(f), Ints(g), 3)
  {
    LimbBounds(f);
    LimbBounds(g);
    hide Bounded;
    var g4_19, g5_19, g6_19, g7_19, g8_19, g9_19 := 19 * g[4], 19 * g[5], 19 * g[6], 19 * g[7], 19 * g[8], 19 * g[9];
    h3 := Sum10(f[0], g[3], f[1], g[2], f[2], g[1], f[3], g[0], f[4], g9_19, f[5], g8_19, f[6], g7_19,
                f[7], g6_19, f[8], g5_19, f[9], g4_19);
  }

  method Column4(f: seq<int32>, g: seq<int32>) returns (h4: int64)
    requires Bounded(f, IN_EVEN, IN_ODD) && Bounded(g, IN_EVEN, IN_ODD)
    ensures Fits(h4) && h4 as int == Column(Ints(f), Ints(g), 4)
  {
    LimbBounds(f);
    LimbBounds(g);
    hide Bounded;
    var f1_2, f3_2, f5_2, f7_2, f9_2 := 2 * f[1], 2 * f[3], 2 * f[5], 2 * f[7], 2 * f[9];
    var g5_19, g6_19, g7_19, g8_19, g9_19 := 19 * g[5], 19 * g[6], 19 * g[7], 19 * g[8], 19 * g[9];
    h4 := Sum10(f[0], g[4], f1_2, g[3], f[2], g[2], f3_2, g[1], f[4], g[0], f5_2, g9_19, f[6], g8_19,
                f7_2, g7_19, f[8], g6_19, f9_2, g5_19);
  }

  method Column5(f: seq<int32>, g: seq<int32>) returns (h5: int64)
    requires Bounded(f, IN_EVEN, IN_ODD) && Bounded(g, IN_EVEN, IN_ODD)
    ensures Fits(h5) && h5 as int == Column(Ints(f), Ints(g), 5)
  {
    LimbBounds(f);
    LimbBounds(g);
    hide Bounded;
    var g6_19, g7_19, g8_19, g9_19 := 19 * g[6], 19 * g[7], 19 * g[8], 19 * g[9];
    h5 := Sum10(f[0], g[5], f[1], g[4], f[2], g[3], f[3], g[2], f[4], g[1], f[5], g[0], f[6], g9_19,
                f[7], g8_19, f[8], g7_19, f[9], g6_19);
  }

  method Column6(f: seq<int32>, g: seq<int32>) returns (h6: int64)
    requires Bounded(f, IN_EVEN, IN_ODD) && Bounded(g, IN_EVEN, IN_ODD)
    ensures Fits(h6) && h6 as int == Column(Ints(f), Ints(g), 6)
  {
    LimbBounds(f);
    LimbBounds(g);
    hide Bounded;
    var f1_2, f3_2, f5_2, f7_2, f9_2 := 2 * f[1], 2 * f[3], 2 * f[5], 2 * f[7], 2 * f[9];
    var g7_19, g8_19, g9_19 := 19 * g[7], 19 * g[8], 19 * g[9];
    h6 := Sum10(f[0], g[6], f1_2, g[5], f[2], g[4], f3_2, g[3], f[4], g[2], f5_2, g[1], f[6], g[0], f7_2, g9_19,
                f[8], g8_19, f9_2, g7_19);
  }

  method Column7(f: seq<int32>, g: seq<int32>) returns (h7: int64)
    requires Bounded(f, IN_EVEN, IN_ODD) && Bounded(g, IN_EVEN, IN_ODD)
    ensures Fits(h7) && h7 as int == Column(Ints(f), Ints(g), 7)
  {
    LimbBounds(f);
    LimbBounds(g);
    hide Bounded;
    var g8_19, g9_19 := 19 * g[8], 19 * g[9];
    h7 := Sum10(f[0], g[7], f[1], g[6], f[2], g[5], f[3], g[4], f[4], g[3], f[5], g[2], f[6], g[1], f[7], g[0],
                f[8], g9_19, f[9], g8_19);
  }

  method Column8(f: seq<int32>, g: seq<int32>) returns (h8: int64)
    requires Bounded(f, IN_EVEN, IN_ODD) && Bounded(g, IN_EVEN, IN_ODD)
    ensures Fits(h8) && h8 as int == Column(Ints(f), Ints(g), 8)
  {
    LimbBounds(f);
    LimbBounds(g);
    hide Bounded;
    var f1_2, f3_2, f5_2, f7_2, f9_2 := 2 * f[1], 2 * f[3], 2 * f[5], 2 * f[7], 2 * f[9];
    var g9_19 := 19 * g[9];
    h8 := Sum10(f[0], g[8], f1_2, g[7], f[2], g[6], f3_2, g[5], f[4], g[4], f5_2, g[3], f[6], g[2], f7_2, g[1],
                f[8], g[0], f9_2, g9_19);
  }

  method Column9(f: seq<int32>, g: seq<int32>) returns (h9: int64)
    requires Bounded(f, IN_EVEN, IN_ODD) && Bounded(g, IN_EVEN, IN_ODD)
    ensures Fits(h9) && h9 as int == Column(Ints(f), Ints(g), 9)
  {
    LimbBounds(f);
    LimbBounds(g);
    hide Bounded;
    h9 := Sum10(f[0], g[9], f[1], g[8], f[2], g[7], f[3], g[6], f[4], g[5], f[5], g[4], f[6], g[3], f[7], g[2],
                f[8], g[1], f[9], g[0]);
  }

  /** fe25519_mul: for limbs within 1.65 * 2^26 and 1.65 * 2^25 nothing overflows, the limbs of the
      result are within 1.01 * 2^25 and 1.01 * 2^24, and it represents the product. h may be f or g. */
  method Mul(h: array<int32>, f: array<int32>, g: array<int32>)
    requires h.Length == f.Length == g.Length == 10
    requires Bounded(f[..], IN_EVEN, IN_ODD) && Bounded(g[..], IN_EVEN, IN_ODD)
    modifies h
    ensures Congruent(Value(h[..]), Value(old(f[..])) * Value(old(g[..])))
    ensures Bounded(h[..], OUT_EVEN, OUT_ODD)
  {
    hide Congruent, WeighSeq, Column, Ints, Bounded, Fits;
    var fs, gs := f[..], g[..];
    ghost var r := Columns(Ints(fs), Ints(gs));
    var h0 := Column0(fs, gs);
    var h1 := Column1(fs, gs);
    var h2 := Column2(fs, gs);
    var h3 := Column3(fs, gs);
    var h4 := Column4(fs, gs);
    var h5 := Column5(fs, gs);
    var h6 := Column6(fs, gs);
    var h7 := Column7(fs, gs);
    var h8 := Column8(fs, gs);
    var h9 := Column9(fs, gs);
    CarryChain(h, h0, h1, h2, h3, h4, h5, h6, h7, h8, h9, r);
    ColumnsCongruent(Ints(fs), Ints(gs));
    CongruentTrans(Value(h[..]), WeighSeq(r), Value(fs) * Value(gs));
  }

  // ------------------------------------------------------------------ squaring

  /** The sum of five or, for the even columns, six products. */
  method Sum6(a0: int32, b0: int32, a1: int32, b1: int32, a2: int32, b2: int32, a3: int32, b3: int32,
              a4: int32, b4: int32, a5: int32, b5: int32) returns (h: int64)
    requires Factors(a0, b0) && Factors(a1, b1) && Factors(a2, b2) && Factors(a3, b3) && Factors(a4, b4) && Factors(a5, b5)
    ensures h as int == Product(a0, b0) + Product(a1, b1) + Product(a2, b2) + Product(a3, b3) +
                        Product(a4, b4) + Product(a5, b5)
    ensures -6 * PRODUCT <= h as int <= 6 * PRODUCT
  {
    h := Sum5(a0, b0, a1, b1, a2, b2, a3, b3, a4, b4);
    WideProduct(a5, b5);
    hide Wide, Product;
    h := h + Wide(a5, b5);
  }

  method Sum5(a0: int32, b0: int32, a1: int32, b1: int32, a2: int32, b2: int32, a3: int32, b3: int32,
              a4: int32, b4: int32) returns (h: int64)
    requires Factors(a0, b0) && Factors(a1, b1) && Factors(a2, b2) && Factors(a3, b3) && Factors(a4, b4)
    ensures h as int == Product(a0, b0) + Product(a1, b1) + Product(a2, b2) + Product(a3, b3) + Product(a4, b4)
    ensures -5 * PRODUCT <= h as int <= 5 * PRODUCT
  {
    WideProduct(a0, b0);
    WideProduct(a1, b1);
    WideProduct(a2, b2);
    WideProduct(a3, b3);
    WideProduct(a4, b4);
    hide Wide, Product;
    h := Wide(a0, b0) + Wide(a1, b1) + Wide(a2, b2) + Wide(a3, b3) + Wide(a4, b4);
  }

  predicate FitsTwice(r: int64) { -COLUMN <= 2 * r as int <= COLUMN }

  method SqColumn0(f: seq<int32>) returns (h0: int64)
    requires Bounded(f, IN_EVEN, IN_ODD)
    ensures FitsTwice(h0) && h0 as int == Column(Ints(f), Ints(f), 0)
  {
    LimbBounds(f);
    hide Bounded;
    var f1_2, f2_2, f3_2, f4_2, f5_38, f6_19, f7_38, f8_19, f9_38 := 2 * f[1], 2 * f[2], 2 * f[3], 2 * f[4], 38 * f[5], 19 * f[6], 38 * f[7], 19 * f[8], 38 * f[9];
    h0 := Sum6(f[0], f[0], f1_2, f9_38, f2_2, f8_19, f3_2, f7_38, f4_2, f6_19, f[5], f5_38);
  }

  method SqColumn1(f: seq<int32>) returns (h1: int64)
    requires Bounded(f, IN_EVEN, IN_ODD)
    ensures FitsTwice(h1) && h1 as int == Column(Ints(f), Ints(f), 1)
  {
    LimbBounds(f);
    hide Bounded;
    var f0_2, f3_2, f5_2, f6_19, f7_38, f8_19, f9_38 := 2 * f[0], 2 * f[3], 2 * f[5], 19 * f[6], 38 * f[7], 19 * f[8], 38 * f[9];
    h1 := Sum5(f0_2, f[1], f[2], f9_38, f3_2, f8_19, f[4], f7_38, f5_2, f6_19);
  }

  method SqColumn2(f: seq<int32>) returns (h2: int64)
    requires Bounded(f, IN_EVEN, IN_ODD)
    ensures FitsTwice(h2) && h2 as int == Column(Ints(f), Ints(f), 2)
  {
    LimbBounds(f);
    hide Bounded;
    var f0_2, f1_2, f3_2, f4_2, f5_2, f6_19, f7_38, f8_19, f9_38 := 2 * f[0], 2 * f[1], 2 * f[3], 2 * f[4], 2 * f[5], 19 * f[6], 38 * f[7], 19 * f[8], 38 * f[9];
    h2 := Sum6(f0_2, f[2], f1_2, f[1], f3_2, f9_38, f4_2, f8_19, f5_2, f7_38, f[6], f6_19);
  }

  method SqColumn3(f: seq<int32>) returns (h3: int64)
    requires Bounded(f, IN_EVEN, IN_ODD)
    ensures FitsTwice(h3) && h3 as int == Column(Ints(f), Ints(f), 3)
  {
    LimbBounds(f);
    hide Bounded;
    var f0_2, f1_2, f5_2, f7_38, f8_19, f9_38 := 2 * f[0], 2 * f[1], 2 * f[5], 38 * f[7], 19 * f[8], 38 * f[9];
    h3 := Sum5(f0_2, f[3], f1_2, f[2], f[4], f9_38, f5_2, f8_19, f[6], f7_38);
  }

  method SqColumn4(f: seq<int32>) returns (h4: int64)
    requires Bounded(f, IN_EVEN, IN_ODD)
    ensures FitsTwice(h4) && h4 as int == Column(Ints(f), Ints(f), 4)
  {
    LimbBounds(f);
    hide Bounded;
    var f0_2, f1_2, f3_2, f5_2, f6_2, f7_38, f8_19, f9_38 := 2 * f[0], 2 * f[1], 2 * f[3], 2 * f[5], 2 * f[6], 38 * f[7], 19 * f[8], 38 * f[9];
    h4 := Sum6(f0_2, f[4], f1_2, f3_2, f[2], f[2], f5_2, f9_38, f6_2, f8_19, f[7], f7_38);
  }

  method SqColumn5(f: seq<int32>) returns (h5: int64)
    requires Bounded(f, IN_EVEN, IN_ODD)
    ensures FitsTwice(h5) && h5 as int == Column(Ints(f), Ints(f), 5)
  {
    LimbBounds(f);
    hide Bounded;
    var f0_2, f1_2, f2_2, f7_2, f8_19, f9_38 := 2 * f[0], 2 * f[1], 2 * f[2], 2 * f[7], 19 * f[8], 38 * f[9];
    h5 := Sum5(f0_2, f[5], f1_2, f[4], f2_2, f[3], f[6], f9_38, f7_2, f8_19);
  }

  method SqColumn6(f: seq<int32>) returns (h6: int64)
    requires Bounded(f, IN_EVEN, IN_ODD)
    ensures FitsTwice(h6) && h6 as int == Column(Ints(f), Ints(f), 6)
  {
    LimbBounds(f);
    hide Bounded;
    var f0_2, f1_2, f2_2, f3_2, f5_2, f7_2, f8_19, f9_38 := 2 * f[0], 2 * f[1], 2 * f[2], 2 * f[3], 2 * f[5], 2 * f[7], 19 * f[8], 38 * f[9];
    h6 := Sum6(f0_2, f[6], f1_2, f5_2, f2_2, f[4], f3_2, f[3], f7_2, f9_38, f[8], f8_19);
  }

  method SqColumn7(f: seq<int32>) returns (h7: int64)
    requires Bounded(f, IN_EVEN, IN_ODD)
    ensures FitsTwice(h7) && h7 as int == Column(Ints(f), Ints(f), 7)
  {
    LimbBounds(f);
    hide Bounded;
    var f0_2, f1_2, f2_2, f3_2, f9_38 := 2 * f[0], 2 * f[1], 2 * f[2], 2 * f[3], 38 * f[9];
    h7 := Sum5(f0_2, f[7], f1_2, f[6], f2_2, f[5], f3_2, f[4], f[8], f9_38);
  }

  method SqColumn8(f: seq<int32>) returns (h8: int64)
    requires Bounded(f, IN_EVEN, IN_ODD)
    ensures FitsTwice(h8) && h8 as int == Column(Ints(f), Ints(f), 8)
  {
    LimbBounds(f);
    hide Bounded;
    var f0_2, f1_2, f2_2, f3_2, f5_2, f7_2, f9_38 := 2 * f[0], 2 * f[1], 2 * f[2], 2 * f[3], 2 * f[5], 2 * f[7], 38 * f[9];
    h8 := Sum6(f0_2, f[8], f1_2, f7_2, f2_2, f[6], f3_2, f5_2, f[4], f[4], f[9], f9_38);
  }

  method SqColumn9(f: seq<int32>) returns (h9: int64)
    requires Bounded(f, IN_EVEN, IN_ODD)
    ensures FitsTwice(h9) && h9 as int == Column(Ints(f), Ints(f), 9)
  {
    LimbBounds(f);
    hide Bounded;
    var f0_2, f1_2, f2_2, f3_2, f4_2 := 2 * f[0], 2 * f[1], 2 * f[2], 2 * f[3], 2 * f[4];
    h9 := Sum5(f0_2, f[9], f1_2, f[8], f2_2, f[7], f3_2, f[6], f4_2, f[5]);
  }

  method SqColumns(f: seq<int32>)
    returns (h0: int64, h1: int64, h2: int64, h3: int64, h4: int64,
             h5: int64, h6: int64, h7: int64, h8: int64, h9: int64)
    requires Bounded(f, IN_EVEN, IN_ODD)
    ensures Columns(Ints(f), Ints(f)) == [h0 as int, h1 as int, h2 as int, h3 as int, h4 as int,
                                          h5 as int, h6 as int, h7 as int, h8 as int, h9 as int]
    ensures FitsTwice(h0) && FitsTwice(h1) && FitsTwice(h2) && FitsTwice(h3) && FitsTwice(h4)
    ensures FitsTwice(h5) && FitsTwice(h6) && FitsTwice(h7) && FitsTwice(h8) && FitsTwice(h9)
  {
    hide Column, Ints, Bounded, FitsTwice;
    h0 := SqColumn0(f);
    h1 := SqColumn1(f);
    h2 := SqColumn2(f);
    h3 := SqColumn3(f);
    h4 := SqColumn4(f);
    h5 := SqColumn5(f);
    h6 := SqColumn6(f);
    h7 := SqColumn7(f);
    h8 := SqColumn8(f);
    h9 := SqColumn9(f);
  }

  /** fe25519_sq, under the same bounds as mul. */
  method Sq(h: array<int32>, f: array<int32>)
    requires h.Length == f.Length == 10 && Bounded(f[..], IN_EVEN, IN_ODD)
    modifies h
    ensures Congruent(Value(h[..]), Value(old(f[..])) * Value(old(f[..])))
    ensures Bounded(h[..], OUT_EVEN, OUT_ODD)
  {
    hide Congruent, WeighSeq, Column, Ints, Bounded;
    var fs := f[..];
    ghost var r := Columns(Ints(fs), Ints(fs));
    var h0, h1, h2, h3, h4, h5, h6, h7, h8, h9 := SqColumns(fs);
    CarryChain(h, h0, h1, h2, h3, h4, h5, h6, h7, h8, h9, r);
    ColumnsCongruent(Ints(fs), Ints(fs));
    CongruentTrans(Value(h[..]), WeighSeq(r), Value(fs) * Value(fs));
  }

  /** fe25519_sq2: the columns are doubled before the carries. */
  method Sq2(h: array<int32>, f: array<int32>)
    requires h.Length == f.Length == 10 && Bounded(f[..], IN_EVEN, IN_ODD)
    modifies h
    ensures Congruent(Value(h[..]), 2 * (Value(old(f[..])) * Value(old(f[..]))))
    ensures Bounded(h[..], OUT_EVEN, OUT_ODD)
  {
    hide Congruent, WeighSeq, Column, Ints, Bounded, Columns;
    var fs := f[..];
    ghost var r := Columns(Ints(fs), Ints(fs));
    var h0, h1, h2, h3, h4, h5, h6, h7, h8, h9 := SqColumns(fs);
    h0, h1, h2, h3, h4 := h0 + h0, h1 + h1, h2 + h2, h3 + h3, h4 + h4;
    h5, h6, h7, h8, h9 := h5 + h5, h6 + h6, h7 + h7, h8 + h8, h9 + h9;
    CarryChain(h, h0, h1, h2, h3, h4, h5, h6, h7, h8, h9, Sum(r, r));
    WeighSum(r, r);
    ColumnsCongruent(Ints(fs), Ints(fs));
    CongruentAdd(WeighSeq(r), Value(fs) * Value(fs), WeighSeq(r), Value(fs) * Value(fs));
    CongruentTrans(Value(h[..]), WeighSeq(Sum(r, r)), 2 * (Value(fs) * Value(fs)));
  }
}
