/** Sextet strings as numbers in base 64, and shifts of numbers. */
module Digits {
  import opened Bytes

  type Sextet = n: int | 0 <= n < 0x40

  /** The low k base-64 digits of n, most significant first. */
  function Sextets(n: nat, k: nat): (s: seq<Sextet>)
    ensures |s| == k
  {
    if k == 0 then [] else Sextets(n / 0x40, k - 1) + [n % 0x40]
  }

  function Number(s: seq<Sextet>): nat {
    if s == [] then 0 else Number(s[..|s| - 1]) * 0x40 + s[|s| - 1]
  }

  lemma {:induction false} SextetsOfNumber(s: seq<Sextet>)
    ensures Sextets(Number(s), |s|) == s
    decreases |s|
  {
    if s != [] {
      SextetsOfNumber(s[..|s| - 1]);
      assert s == s[..|s| - 1] + [s[|s| - 1]];
    }
  }

  lemma Pow2Six(k: nat)
    ensures Pow2(k + 6) == 0x40 * Pow2(k) && Pow2(k + 8) == 0x100 * Pow2(k)
  {
    assert Pow2(k + 2) == 4 * Pow2(k);
    assert Pow2(k + 4) == 4 * Pow2(k + 2);
    assert Pow2(k + 6) == 4 * Pow2(k + 4);
    assert Pow2(k + 8) == 4 * Pow2(k + 6);
  }

  lemma {:induction false} NumberOfSextets(n: nat, k: nat)
    requires n < Pow2(6 * k)
    ensures Number(Sextets(n, k)) == n
    decreases k
  {
    if k > 0 {
      Pow2Six(6 * (k - 1));
      NumberOfSextets(n / 0x40, k - 1);
      assert Sextets(n, k)[..k - 1] == Sextets(n / 0x40, k - 1);
    }
  }

  lemma {:induction false} NumberBound(s: seq<Sextet>)
    ensures Number(s) < Pow2(6 * |s|)
    decreases |s|
  {
    if s != [] {
      NumberBound(s[..|s| - 1]);
      Pow2Six(6 * (|s| - 1));
    }
  }

  lemma {:induction false} FromBeBound(b: Bytes)
    ensures FromBe(b) < Pow2(8 * |b|)
    decreases |b|
  {
    if b != [] {
      FromBeBound(b[..|b| - 1]);
      Pow2Six(8 * (|b| - 1));
    }
  }

  lemma {:induction false} FromBeOfBe(n: nat, k: nat)
    requires n < Pow2(8 * k)
    ensures FromBe(Be(n, k)) == n
    decreases k
  {
    if k > 0 {
      Pow2Six(8 * (k - 1));
      FromBeOfBe(n / 0x100, k - 1);
      assert Be(n, k)[..k - 1] == Be(n / 0x100, k - 1);
    }
  }

  lemma {:induction false} BeOfFromBe(b: Bytes)
    ensures Be(FromBe(b), |b|) == b
    decreases |b|
  {
    if b != [] {
      BeOfFromBe(b[..|b| - 1]);
      assert b == b[..|b| - 1] + [b[|b| - 1]];
    }
  }

  /** n >> k */
  function Shr(n: nat, k: nat): nat { if k == 0 then n else Shr(n / 2, k - 1) }

  /** n << k */
  function Shl(n: nat, k: nat): nat
    decreases k
  {
    if k == 0 then n else Shl(n * 2, k - 1)
  }

  lemma {:induction false} ShrShl(n: nat, k: nat)
    ensures Shr(Shl(n, k), k) == n
    decreases k
  {
    if k > 0 {
      ShlOut(n, k - 1);
      ShrShl(n, k - 1);
    }
  }

  lemma {:induction false} ShlOut(n: nat, k: nat)
    ensures Shl(n * 2, k) == 2 * Shl(n, k)
    decreases k
  {
    if k > 0 { ShlOut(n * 2, k - 1); }
  }

  lemma {:induction false} ShrSum(n: nat, j: nat, k: nat)
    ensures Shr(n, j + k) == Shr(Shr(n, j), k)
    decreases j
  {
    if j > 0 { ShrSum(n / 2, j - 1, k); }
  }

  lemma Shr2(n: nat)
    ensures Shr(n, 2) == n / 4
  {
    assert Shr(n / 2, 1) == n / 2 / 2;
  }

  lemma Shr6(n: nat, b: nat)
    requires b < 0x40
    ensures Shr(n * 0x40 + b, 6) == n
  {
    var x := n * 0x40 + b;
    ShrSum(x, 2, 2); ShrSum(x, 4, 2);
    Shr2(x); Shr2(x / 4); Shr2(x / 16);
    hide Shr;
  }

  lemma Shr8(n: nat, b: nat)
    requires b < 0x100
    ensures Shr(n * 0x100 + b, 8) == n
  {
    var x := n * 0x100 + b;
    ShrSum(x, 2, 6);
    Shr2(x);
    hide Shr;
    Shr6(n, b / 4);
  }

  lemma Shr6Div(n: nat)
    ensures Shr(n, 6) == n / 0x40
  {
    Shr6(n / 0x40, n % 0x40);
  }

  lemma Shr8Div(n: nat)
    ensures Shr(n, 8) == n / 0x100
  {
    Shr8(n / 0x100, n % 0x100);
  }

  /** The bits that a shift by k and a mask of j bits pick are not touched by an earlier reduction
      to m >= j + k bits. */
  lemma {:induction false} ShrOfWord(n: nat, m: nat, k: nat)
    requires k <= m
    ensures Pow2(m) > 0 && Pow2(m - k) > 0 && Shr(n % Pow2(m), k) == Shr(n, k) % Pow2(m - k)
    decreases k
  {
    Pow2Positive(m);
    Pow2Positive(m - k);
    if k > 0 {
      Pow2Positive(m - 1);
      ModDouble(n, Pow2(m - 1));
      ShrOfWord(n / 2, m - 1, k - 1);
    }
  }

  lemma {:induction false} Pow2Positive(k: nat)
    ensures Pow2(k) > 0
  {
    if k > 0 { Pow2Positive(k - 1); }
  }

  lemma {:induction false} ModOfMod(n: nat, j: nat, k: nat)
    requires j <= k
    ensures Pow2(j) > 0 && Pow2(k) > 0 && n % Pow2(k) % Pow2(j) == n % Pow2(j)
    decreases j
  {
    Pow2Positive(j);
    Pow2Positive(k);
    if j > 0 {
      Pow2Positive(j - 1);
      Pow2Positive(k - 1);
      ModDouble(n, Pow2(k - 1));
      ModDouble(n, Pow2(j - 1));
      ModDouble(n % Pow2(k), Pow2(j - 1));
      ModOfMod(n / 2, j - 1, k - 1);
    }
  }

  /** (w >> k) & (2^j - 1) on a word w of m bits that holds n. */
  lemma PickBits(n: nat, m: nat, k: nat, j: nat)
    requires j + k <= m
    ensures Pow2(m) > 0 && Pow2(j) > 0 && Shr(n % Pow2(m), k) % Pow2(j) == Shr(n, k) % Pow2(j)
  {
    ShrOfWord(n, m, k);
    ModOfMod(Shr(n, k), j, m - k);
  }

  lemma {:induction false} ShlBound(n: nat, j: nat, k: nat)
    requires n < Pow2(j)
    ensures Shl(n, k) < Pow2(j + k)
    decreases k
  {
    if k > 0 {
      ShlBound(n * 2, j + 1, k - 1);
    }
  }

  lemma {:induction false} ShrBound(n: nat, j: nat, k: nat)
    requires n < Pow2(j + k)
    ensures Shr(n, k) < Pow2(j)
    decreases k
  {
    if k > 0 {
      ShrBound(n / 2, j, k - 1);
    }
  }

  /** The low k bits of n are zero exactly when shifting them out and back changes nothing. */
  lemma {:induction false} LowBitsZero(n: nat, k: nat)
    ensures Pow2(k) > 0 && (n % Pow2(k) == 0 <==> Shl(Shr(n, k), k) == n)
    decreases k
  {
    Pow2Positive(k);
    if k > 0 {
      Pow2Positive(k - 1);
      ModDouble(n, Pow2(k - 1));
      LowBitsZero(n / 2, k - 1);
      ShlOut(Shr(n / 2, k - 1), k - 1);
    }
  }
}
