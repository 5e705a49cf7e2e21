/** randombytes_uniform: rejection sampling of a 32-bit word below an upper bound. */
module Sampler {
  import opened Bytes

  const N := 0x1_0000_0000

  type Word = w: int | 0 <= w < N

  datatype Outcome = Value(r: Word) | Exhausted

  /** min = (1U + ~upper_bound) % upper_bound, in 32-bit arithmetic. */
  function Min(bound: Word): Word
    requires bound >= 2
  {
    (1 + (N - 1 - bound)) % N % bound
  }

  /** min is 2^32 mod bound, so the accepted words form whole periods. */
  lemma MinIsRemainder(bound: Word)
    requires bound >= 2
    ensures Min(bound) == N % bound
    ensures N - Min(bound) == (N / bound) * bound
  {
    assert N - bound == (N / bound - 1) * bound + N % bound;
    ModOf(N / bound - 1, bound, N % bound);
  }

  lemma ModOf(k: int, b: int, r: int)
    requires 0 <= r < b
    ensures (k * b + r) % b == r
  {
    RemainderUnique(k * b + r, k, b, r);
  }

  /** The do-while loop on a stream of random words: the first word not below min, reduced. */
  method Uniform(bound: Word, draws: seq<Word>) returns (o: Outcome)
    ensures bound < 2 ==> o == Value(0)
    ensures bound >= 2 && o.Value? ==> exists k ::
      && 0 <= k < |draws| && draws[k] >= Min(bound) && o.r == draws[k] % bound < bound
      && forall j | 0 <= j < k :: draws[j] < Min(bound)
    ensures bound >= 2 && o.Exhausted? ==> forall k | 0 <= k < |draws| :: draws[k] < Min(bound)
  {
    if bound < 2 {
      return Value(0);
    }
    var min := Min(bound);
    var i := 0;
    while i < |draws| && draws[i] < min
      invariant 0 <= i <= |draws|
      invariant forall j | 0 <= j < i :: draws[j] < min
    {
      i := i + 1;
    }
    if i == |draws| {
      return Exhausted;
    }
    return Value(draws[i] % bound);
  }

  /** The accepted words that the sampler maps to v. */
  function Preimage(lo: int, hi: int, bound: int, v: int): set<int>
    requires bound > 0
  {
    set w: int | lo <= w < hi && w % bound == v
  }

  lemma OnePerPeriod(lo: int, bound: int, v: int)
    requires 0 <= v < bound
    ensures Preimage(lo, lo + bound, bound, v) == {lo + (v - lo) % bound}
  {
    var w := lo + (v - lo) % bound;
    ModOf(-((v - lo) / bound), bound, v);
    assert w == -((v - lo) / bound) * bound + v;
    forall u | lo <= u < lo + bound && u % bound == v
      ensures u == w
    {
      var k := u / bound + (v - lo) / bound;
      assert u - w == k * bound;
      SmallMultiple(k, bound);
    }
  }

  lemma Split(lo: int, mid: int, hi: int, bound: int, v: int)
    requires lo <= mid <= hi && bound > 0
    ensures |Preimage(lo, hi, bound, v)| == |Preimage(lo, mid, bound, v)| + |Preimage(mid, hi, bound, v)|
  {
    assert Preimage(lo, hi, bound, v) == Preimage(lo, mid, bound, v) + Preimage(mid, hi, bound, v);
    assert Preimage(lo, mid, bound, v) !! Preimage(mid, hi, bound, v);
  }

  lemma {:induction false} Periods(lo: int, k: nat, bound: int, v: int)
    requires 0 <= v < bound
    ensures |Preimage(lo, lo + k * bound, bound, v)| == k
    decreases k
  {
    if k == 0 {
      assert Preimage(lo, lo, bound, v) == {};
    } else {
      hide Preimage;
      var mid := lo + (k - 1) * bound;
      assert lo + k * bound == mid + bound && mid >= lo;
      Periods(lo, k - 1, bound, v);
      OnePerPeriod(mid, bound, v);
      Split(lo, mid, mid + bound, bound, v);
    }
  }

  /** Every residue has the same number of accepted words. */
  lemma ExactlyUniform(bound: Word, v: int)
    requires bound >= 2 && 0 <= v < bound
    ensures |Preimage(Min(bound), N, bound, v)| == N / bound
  {
    MinIsRemainder(bound);
    Periods(Min(bound), N / bound, bound, v);
  }
}
