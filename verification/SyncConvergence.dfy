/** How the SYNC discipline converges to the true rate F under exact answers. */
module SyncConvergence {
  import opened Clock
  import opened Monotone
  import opened Convergence

  // ------------------------------------------------------------------ between two D messages

  /** Without D messages nothing adjusts the clock. */
  lemma {:induction false} QuietRun(s: State, es: seq<Event>)
    requires s.freq > 0.0 && Runs(s, es) && Drifts(es) == 0
    ensures CoastsAll(s, es)
    ensures Run(s, es).lastUpdate == s.lastUpdate && Run(s, es).poll == s.poll && Run(s, es).freq == s.freq
    decreases |es|
  {
    hide Step, Enabled, Stamps, Advanced;
    if es != [] {
      QuietStep(s, es[0]);
      QuietRun(Step(s, es[0]), es[1..]);
    }
  }

  /** A gap without D messages, and then an exact answer that is neither a spike nor too late. */
  datatype Gap = Gap(es: seq<Event>, e: Event, now: int)

  predicate Fair(s: State, g: Gap, F: real) {
    s.freq > 0.0 && Runs(s, g.es) && Drifts(g.es) == 0 && Enabled(Run(s, g.es), g.e) &&
    Run(s, g.es).node.Sync? && Exact(Run(s, g.es), g.e, g.now) &&
    g.now - Read(Run(s, g.es)).tsRef < STEP_THRESHOLD_NS &&
    0 <= g.now - s.tsRef <= 128_000_000_000 &&
    (g.now - s.tsRef) as real * F == (Run(s, g.es).tsc - s.tscRef) as real
  }

  function After(s: State, g: Gap, F: real): State
    requires Fair(s, g, F)
  {
    Step(Run(s, g.es), g.e)
  }

  /** What reading the clock in the gap lost to rounding, in nanoseconds. */
  function Lost(s: State, g: Gap, F: real): real
    requires Fair(s, g, F)
  {
    Lag(s, Read(Run(s, g.es)))
  }

  /** The seconds between the two answers, by the authority. */
  function Seconds(s: State, g: Gap): real { Sec(g.now - s.tsRef) }

  /** The update, in the node's own terms. */
  lemma Update(s: State, g: Gap, F: real)
    requires Settled(s) && Fair(s, g, F) && s.freq >= F > 0.0
    ensures (var s' := After(s, g, F); var s1 := Run(s, g.es);
      Settled(s') && s'.tsRef == g.now && s'.tscRef == s1.tsc && s1.tsc >= s.tscRef &&
      s'.freq == s.freq - Pull(Sec(g.now - Read(s1).tsRef), Sec(Elapsed(s1.tsc - s.tscRef, s.freq))) &&
      s.tsRef <= Read(s1).tsRef <= g.now)
    ensures Within(Lost(s, g, F), |AllStamps(s, g.es)| + 1)
    ensures Lost(s, g, F) == 0.0 <==> WholeReadings(s, g.es)
  {
    hide Run, Runs, CoastsAll, AllStamps, WholeReadings, Sighted, Selected, Step, Within, Sec, Elapsed, Pull, Lag;
    var s1 := Run(s, g.es);
    QuietRun(s, g.es);
    CoastRun(s, g.es);
    CoastThenRead(s, g.es);
    NoSpike(s1, g.e, g.now);
    var t := Sighted(s1, g.e.org, g.e.rec, g.e.xmt);
    DriftIsSelected(s1, g.e);
    SyncUpdate(t);
    var cycles := s1.tsc - s.tscRef;
    Ahead(g.now - s.tsRef, F, cycles);
    GapFits(cycles, s.freq, F, g.now - s.tsRef);
    LagIs(s, Read(s1));
    Behind(g.now - s.tsRef, Read(s1).tsRef - s.tsRef, F, s.freq, cycles, Lag(s, Read(s1)));
  }

  lemma NoSpike(s: State, e: Event, now: int)
    requires s.freq != 0.0 && s.node.Sync? && Exact(s, e, now) && now - Read(s).tsRef < STEP_THRESHOLD_NS
    ensures (var t := Sighted(s, e.org, e.rec, e.xmt);
      t.node.Sync? && t.offset == now - Read(s).tsRef && t.tsRef == Read(s).tsRef && t.tsc == t.tscRef == s.tsc &&
      t.poll == s.poll && t.freq == s.freq && t.lastUpdate == s.lastUpdate)
  {
    SightedStep(s, e.org, e.rec, e.xmt);
    hide Sighted, Elapsed;
  }

  lemma Ahead(d: int, F: real, cycles: int)
    requires d >= 0 && F > 0.0 && d as real * F == cycles as real
    ensures cycles >= 0
  {
    ProductSign(d as real, F);
  }

  /** x / f <= x / F when F <= f. */
  lemma QuotientFalls(x: real, f: real, F: real)
    requires x >= 0.0 && f >= F > 0.0
    ensures 0.0 <= x / f <= x / F
  {
    QuotientSign(x, f);
    Cancel(x, f);
    Cancel(x, F);
    var p, q := x / f, x / F;
    if p > q {
      assert F * p > F * q;
      ProductSign(f - F, p);
      assert f * p == F * p + (f - F) * p;
    }
  }

  /** The time since the last update stays under the cap. */
  lemma GapFits(cycles: int, f: real, F: real, d: int)
    requires cycles >= 0 && f >= F > 0.0 && 0 <= d <= 128_000_000_000 && d as real * F == cycles as real
    ensures 0 <= Elapsed(cycles, f) <= d
    ensures Min(2048.0, Sec(Elapsed(cycles, f))) == Sec(Elapsed(cycles, f))
  {
    ElapsedBounds(cycles, f);
    QuotientFalls(cycles as real, f, F);
    QuotientIs(cycles as real, F, d as real);
    hide Elapsed;
  }

  /** A clock that runs too fast by its frequency setting is behind, so an exact answer never asks it
      to go back. */
  lemma Behind(d: int, n: int, F: real, f: real, cycles: int, lag: real)
    requires f >= F > 0.0 && cycles >= 0 && d as real * F == cycles as real
    requires lag >= 0.0 && lag == cycles as real / f - n as real
    ensures n <= d
  {
    QuotientFalls(cycles as real, f, F);
    QuotientIs(cycles as real, F, d as real);
  }

  // ------------------------------------------------------------------ the error of one update

  /** What an update can take away too little because the time since the last one is rounded. */
  const SLACK := 0.128 / (16384.0 * G)

  function Weight(t: real, F: real): real { t * t * F }

  function Divisor(f: real): (d: real)
    requires f > 0.0
    ensures d > 0.0
  {
    SignOfProduct(16384.0 * f, f);
    16384.0 * f * f
  }

  /** What is left of the error after t seconds at frequency f: 1 - t^2 F / (16384 f^2). */
  function Factor(t: real, F: real, f: real): real
    requires f > 0.0
  {
    1.0 - Weight(t, F) / Divisor(f)
  }

  /** The share of the error that one update takes away, given as a root of its own equation. */
  lemma FactorIs(t: real, r: real, F: real, f: real, k: real)
    requires f > 0.0 && F == f * r && k * (16384.0 * f) == t * t * r
    ensures Factor(t, F, f) == 1.0 - k
  {
    ShareOf(t, r, F, f, k);
    hide Weight, Divisor;
    QuotientIs(Weight(t, F), Divisor(f), k);
  }

  lemma ShareOf(t: real, r: real, F: real, f: real, k: real)
    requires f > 0.0 && F == f * r && k * (16384.0 * f) == t * t * r
    ensures k * Divisor(f) == Weight(t, F)
  {
    TimesBoth(k, 16384.0 * f, t * t * r, f);
    Regroup(t * t, f, r);
  }

  lemma TimesBoth(k: real, y: real, z: real, f: real)
    requires k * y == z
    ensures k * (y * f) == z * f
  {}

  lemma Regroup(u: real, f: real, r: real)
    ensures u * (f * r) == u * r * f
  {}

  /** With r = F / f, the time a node measures is r times the true time t. */
  lemma IdealPull(f: real, F: real, r: real, t: real)
    requires f > 0.0 && F == f * r
    ensures f - Pull(t * (1.0 - r), t * r) == Ideal(t, F, f)
  {
    hide Factor;
    var u := t * t * r;
    var k := u / (16384.0 * f);
    Cancel(u, 16384.0 * f);
    assert k * (16384.0 * f) == u;
    FactorIs(t, r, F, f, k);
    assert t * (1.0 - r) * (t * r) == u * (1.0 - r) by { Products(t, r); }
    Remainder(f, r, k, u);
  }

  lemma Products(t: real, r: real)
    ensures t * (1.0 - r) * (t * r) == t * t * r * (1.0 - r)
  {}

  lemma Remainder(f: real, r: real, k: real, u: real)
    requires k * (16384.0 * f) == u
    ensures f - u * (1.0 - r) / 16384.0 - f * r == (f - f * r) * (1.0 - k)
  {
    assert k * f == u / 16384.0;
    assert (f - f * r) * (1.0 - k) == f - f * r - k * f * (1.0 - r);
  }

  /** Between nothing and all of the error goes away in a gap of at most 128 seconds. */
  lemma FactorBounds(t: real, F: real, f: real)
    requires 0.0 <= t <= 128.0 && f >= F >= 1.0
    ensures 0.0 <= Factor(t, F, f) <= 1.0
  {
    hide Factor;
    var r := F / f;
    Cancel(F, f);
    QuotientFalls(F, f, F);
    QuotientIs(F, F, 1.0);
    var u := t * t * r;
    var k := u / (16384.0 * f);
    Cancel(u, 16384.0 * f);
    FactorIs(t, r, F, f, k);
    Square(t);
    ProductSign(t * t, r);
    ProductSign(t * t, 1.0 - r);
    assert u <= 16384.0 by { assert t * t * (1.0 - r) == t * t - u; }
    SmallShare(k, f, u);
  }

  lemma Square(t: real)
    requires 0.0 <= t <= 128.0
    ensures 0.0 <= t * t <= 16384.0
  {
    ProductSign(t, t);
    ProductSign(128.0 - t, 128.0 + t);
    assert (128.0 - t) * (128.0 + t) == 16384.0 - t * t;
  }

  lemma SmallShare(k: real, f: real, u: real)
    requires k * (16384.0 * f) == u && f >= 1.0 && 0.0 <= u <= 16384.0
    ensures 0.0 <= k <= 1.0
  {
    if k < 0.0 { Opposite(k, 16384.0 * f); }
    if k > 1.0 { Larger(k, 16384.0 * f); }
  }

  lemma Larger(k: real, y: real)
    requires k > 1.0 && y > 0.0
    ensures k * y > y
  {
    SignOfProduct(k - 1.0, y);
    assert (k - 1.0) * y == k * y - y;
  }

  /** What the frequency would become if clocks lost nothing to rounding. */
  function Ideal(t: real, F: real, f: real): real
    requires f > 0.0
  {
    F + (f - F) * Factor(t, F, f)
  }

  lemma IdealBounds(t: real, F: real, f: real)
    requires 0.0 <= t <= 128.0 && f >= F >= 1.0
    ensures F <= Ideal(t, F, f) <= f
  {
    FactorBounds(t, F, f);
    var q := Factor(t, F, f);
    ProductSign(f - F, q);
    ProductSign(f - F, 1.0 - q);
    assert (f - F) * (1.0 - q) == (f - F) - (f - F) * q;
  }

  /** Rounding in the readings lets a little too much, or a very little too less, be taken away. */
  lemma RoundedPull(x: real, y: real, l: real, m: real, t: real)
    requires 0.0 <= x && 0.0 <= y <= t && l >= 0.0 && 0.0 <= m <= 1.0 / G && x + l <= 0.128
    ensures Pull(x, y) - SLACK <= Pull(x + l, y - m) <= Pull(x, y) + Pull(l, t)
  {
    assert (x + l) * (y - m) == x * y + l * y - m * (x + l);
    ProductSign(l, t - y);
    ProductSign(l, y);
    ProductSign(m, x + l);
    assert l * (t - y) == l * t - l * y;
    assert m * (x + l) <= 0.128 / G by {
      ProductSign(1.0 / G - m, x + l);
      assert (1.0 / G - m) * (x + l) == (x + l) / G - m * (x + l);
    }
  }

  /** The times of a gap in seconds: the node measures r t, and is (1 - r) t behind. */
  lemma GapTimes(d: int, f: real, F: real, cycles: int)
    requires f > 0.0 && d as real * F == cycles as real
    ensures (var r := F / f; var t := Sec(d); var a := cycles as real / f;
      a / G == t * r && (d as real - a) / G == t * (1.0 - r))
  {
    var r := F / f;
    Cancel(F, f);
    assert r * d as real * f == cycles as real by { assert r * d as real * f == d as real * (f * r); }
    QuotientIs(cycles as real, f, r * d as real);
    var t := Sec(d);
    assert r * d as real / G == t * r;
  }

  /** The update, for every loss: the frequency does not rise; up to what the readings lost, less than
      a nanosecond each, the error shrinks by the factor, and when every reading is whole, exactly. */
  lemma SyncUpdateError(s: State, g: Gap, F: real)
    requires Settled(s) && Fair(s, g, F) && s.freq >= F >= 1.0
    ensures (var s' := After(s, g, F); var t := Seconds(s, g); var ideal := Ideal(t, F, s.freq);
      var lost := Lost(s, g, F);
      Settled(s') && s'.tsRef == g.now && F <= ideal <= s.freq && s'.freq <= s.freq &&
      0.0 <= lost < (|AllStamps(s, g.es)| + 1) as real &&
      ideal - Pull(lost / G, t) <= s'.freq <= ideal + SLACK &&
      (WholeReadings(s, g.es) ==> s'.freq == ideal))
  {
    hide Run, Runs, Step, Timeline, Elapsed, Read, Pull, AllStamps, WholeReadings, Exact, Factor, Ideal, Sec, Settled;
    Update(s, g, F);
    GapFits(Run(s, g.es).tsc - s.tscRef, s.freq, F, g.now - s.tsRef);
    QuietRun(s, g.es);
    var s1 := Run(s, g.es);
    Ahead(g.now - s.tsRef, F, s1.tsc - s.tscRef);
    ReadTscRef(s1);
    UpdateNumbers(s.freq, F, g.now - s.tsRef, s1.tsc - s.tscRef, Read(s1).tsRef - s.tsRef, Lost(s, g, F));
  }

  lemma UpdateNumbers(f: real, F: real, d: int, cycles: int, n: int, lost: real)
    requires f >= F >= 1.0 && 0 <= d <= 128_000_000_000 && cycles >= 0 && d as real * F == cycles as real
    requires lost >= 0.0 && lost == cycles as real / f - n as real && d - n < STEP_THRESHOLD_NS && n <= d
    ensures (var f' := f - Pull(Sec(d - n), Sec(Elapsed(cycles, f))); var t := Sec(d); var ideal := Ideal(t, F, f);
      F <= ideal <= f && f' <= f && (lost == 0.0 ==> f' == ideal) &&
      ideal - Pull(lost / G, t) <= f' <= ideal + SLACK)
  {
    hide Elapsed, Pull, Ideal, Sec;
    var mu, r, t := Elapsed(cycles, f), F / f, Sec(d);
    SecBounds(d);
    IdealBounds(t, F, f);
    Cancel(F, f);
    IdealPull(f, F, r, t);
    NodeTimes(f, F, d, cycles, n, lost);
    PullBounds(f, Ideal(t, F, f), t * (1.0 - r), t * r, lost / G, (cycles as real / f - mu as real) / G, t,
      Sec(d - n), Sec(mu), lost);
    GapFits(cycles, f, F, d);
    SecSign(d - n);
    SecSign(mu);
    PullSign(Sec(d - n), Sec(mu));
  }

  lemma SecSign(d: int)
    requires d >= 0
    ensures Sec(d) >= 0.0
  {}

  lemma PullBounds(f: real, ideal: real, x: real, y: real, l: real, m: real, t: real, a: real, b: real, lost: real)
    requires ideal == f - Pull(x, y) && a == x + l && b == y - m && l == lost / G
    requires 0.0 <= x && 0.0 <= y <= t && l >= 0.0 && 0.0 <= m <= 1.0 / G && x + l <= 0.128
    requires lost == 0.0 ==> m == 0.0
    ensures ideal - Pull(lost / G, t) <= f - Pull(a, b) <= ideal + SLACK
    ensures lost == 0.0 ==> f - Pull(a, b) == ideal
  {
    RoundedPull(x, y, l, m, t);
    hide Pull;
  }

  lemma SecBounds(d: int)
    requires 0 <= d <= 128_000_000_000
    ensures 0.0 <= Sec(d) <= 128.0
  {}

  /** The two times of an update, in terms of the true time. */
  lemma NodeTimes(f: real, F: real, d: int, cycles: int, n: int, lost: real)
    requires f >= F >= 1.0 && d >= 0 && cycles >= 0 && d as real * F == cycles as real
    requires lost >= 0.0 && lost == cycles as real / f - n as real && d - n < STEP_THRESHOLD_NS
    ensures (var mu := Elapsed(cycles, f); var r, t := F / f, Sec(d);
      var x, y, l, m := t * (1.0 - r), t * r, lost / G, (cycles as real / f - mu as real) / G;
      Sec(d - n) == x + l <= 0.128 && Sec(mu) == y - m && 0.0 <= m <= 1.0 / G && (lost == 0.0 ==> m == 0.0) &&
      0.0 <= x && 0.0 <= y <= t)
  {
    hide Elapsed;
    var r, t := F / f, Sec(d);
    GapTimes(d, f, F, cycles);
    ElapsedBounds(cycles, f);
    RatioBounds(f, F);
    ProductSign(t, 1.0 - r);
    ProductSign(t, r);
    assert t * (1.0 - r) + t * r == t;
    if lost == 0.0 { WholeQuotient(cycles, f, n); }
  }

  lemma ReadTscRef(s: State)
    requires s.freq != 0.0
    ensures Read(s).tscRef == s.tsc
  {}

  lemma RatioBounds(f: real, F: real)
    requires f >= F > 0.0
    ensures 0.0 <= F / f <= 1.0
  {
    QuotientFalls(F, f, F);
    QuotientIs(F, F, 1.0);
  }

  lemma WholeQuotient(cycles: int, f: real, n: int)
    requires cycles >= 0 && f > 0.0 && cycles as real / f == n as real
    ensures Elapsed(cycles, f) == n
  {
    ElapsedBounds(cycles, f);
    hide Elapsed;
  }

  /** At the true rate, the update keeps it exactly when every reading in the gap falls a whole number
      of nanoseconds after the one before: whatever a reading loses is taken for a drift, and pushes the
      frequency below the true rate. */
  lemma AtTrueRate(s: State, g: Gap, F: real)
    requires Settled(s) && Fair(s, g, F) && s.freq == F >= 1.0
    ensures After(s, g, F).freq <= F
    ensures After(s, g, F).freq == F <==> WholeReadings(s, g.es)
  {
    hide Run, Runs, Step, Timeline, Elapsed, Read, AllStamps, WholeReadings, Exact, Settled;
    Update(s, g, F);
    QuietRun(s, g.es);
    var s1 := Run(s, g.es);
    ReadTscRef(s1);
    var d, cycles := g.now - s.tsRef, s1.tsc - s.tscRef;
    Ahead(d, F, cycles);
    QuotientIs(cycles as real, F, d as real);
    WholeQuotient(cycles, F, d);
    var lost := Lost(s, g, F);
    assert Sec(g.now - Read(s1).tsRef) == lost / G;
    PullSign(lost / G, Sec(d));
  }

  /** From any settled node at the true rate of 2 cycles a nanosecond, one reading after one cycle is
      enough: the gap of two nanoseconds loses one, and the update leaves the frequency below the true
      rate. */
  lemma LostNanosecond(s: State)
    requires Settled(s) && s.freq == 2.0 && s.tsc == s.tscRef
    ensures (var g := HalfGap(s); Fair(s, g, 2.0) && After(s, g, 2.0).freq < 2.0)
  {
    var g := HalfGap(s);
    HalfRun(s);
    hide Run, Runs, AllWhole;
    assert Fair(s, g, 2.0);
    NotWhole();
    AtTrueRate(s, g, 2.0);
  }

  function HalfGap(s: State): Gap {
    Gap([Tick(s.tsc + 1), Forced, Tick(s.tsc + 4)], Drift(s.tsRef + 1, s.tsRef + 2, s.tsRef + 2), s.tsRef + 2)
  }

  lemma NotWhole()
    ensures !Whole(3, 2.0)
  {
    assert 3.0 / 2.0 == 1.5 && 1.5.Floor == 1;
  }

  lemma HalfRun(s: State)
    requires s.freq == 2.0 && s.tsc == s.tscRef && !s.node.Freq?
    ensures (var g := HalfGap(s);
      Runs(s, g.es) && Drifts(g.es) == 0 && Run(s, g.es) == s.(tsc := s.tsc + 4, tscRef := s.tsc + 1) &&
      Read(Run(s, g.es)).tsRef == s.tsRef + 1 && Enabled(Run(s, g.es), g.e))
  {
    hide Read, Sighted, Step, Enabled, Runs, Run, Drifts;
    var a, b, c := Tick(s.tsc + 1), Forced, Tick(s.tsc + 4);
    var s1, s2 := s.(tsc := s.tsc + 1), s.(tsc := s.tsc + 4, tscRef := s.tsc + 1);
    var r := s1.(tscRef := s1.tsc);
    Ticks(s, s.tsc + 1);
    ReadHalf(s1);
    Reads(s1);
    Ticks(r, s.tsc + 4);
    ReadThreeHalves(s2);
    DriftOutsideFreq(s2, Drift(s.tsRef + 1, s.tsRef + 2, s.tsRef + 2));
    assert r.(tsc := s.tsc + 4) == s2;
    ThreeSteps(s, a, b, c);
    NoDrifts(a, b, c);
  }

  lemma Ticks(s: State, tsc: int)
    requires s.freq > 0.0 && tsc >= s.tsc
    ensures Enabled(s, Tick(tsc)) && Step(s, Tick(tsc)) == s.(tsc := tsc)
  {
    hide Sighted, Drifted, Exits;
  }

  lemma Reads(s: State)
    requires s.freq > 0.0
    ensures Enabled(s, Forced) && Step(s, Forced) == Read(s) && Read(s).tsc == s.tsc
  {
    hide Sighted, Drifted, Exits;
  }

  lemma DriftOutsideFreq(s: State, e: Event)
    requires s.freq > 0.0 && !s.node.Freq? && e.Drift?
    ensures Enabled(s, e)
  {
    SightedStep(s, e.org, e.rec, e.xmt);
    hide Sighted;
  }

  lemma ReadHalf(s: State)
    requires s.freq == 2.0 && s.tsc == s.tscRef + 1
    ensures Read(s) == s.(tscRef := s.tsc)
  {}

  lemma ReadThreeHalves(s: State)
    requires s.freq == 2.0 && s.tsc == s.tscRef + 3
    ensures Read(s).tsRef == s.tsRef + 1
  {}

  lemma ThreeSteps(s: State, a: Event, b: Event, c: Event)
    requires Enabled(s, a) && Enabled(Step(s, a), b) && Enabled(Step(Step(s, a), b), c)
    ensures Runs(s, [a, b, c]) && Run(s, [a, b, c]) == Step(Step(Step(s, a), b), c)
  {
    hide Step, Enabled;
    var s1, s2 := Step(s, a), Step(Step(s, a), b);
    assert [c][1..] == [] && [b, c][1..] == [c] && [a, b, c][1..] == [b, c];
    assert Runs(s2, [c]) && Run(s2, [c]) == Step(s2, c);
    assert Runs(s1, [b, c]) && Run(s1, [b, c]) == Run(s2, [c]);
    assert Runs(s, [a, b, c]) && Run(s, [a, b, c]) == Run(s1, [b, c]);
  }

  lemma NoDrifts(a: Event, b: Event, c: Event)
    requires !a.Drift? && !b.Drift? && !c.Drift?
    ensures Drifts([a, b, c]) == 0
  {
    assert [c][1..] == [] && [b, c][1..] == [c] && [a, b, c][1..] == [b, c];
    assert Drifts([c]) == 0;
    assert Drifts([b, c]) == 0;
  }

  lemma PullSign(x: real, m: real)
    requires x >= 0.0 && m >= 0.0
    ensures Pull(x, m) >= 0.0 && (Pull(x, m) == 0.0 <==> x == 0.0 || m == 0.0)
  {
    ProductSign(x, m);
    if x > 0.0 { SignOfProduct(x, m); }
  }

  // ------------------------------------------------------------------ a run of updates

  /** Gap after gap, each ended by an exact answer, and no shorter than tmin seconds. */
  predicate Gaps(s: State, gaps: seq<Gap>, F: real, tmin: real)
    decreases |gaps|
  {
    gaps == [] || (Fair(s, gaps[0], F) && Seconds(s, gaps[0]) >= tmin &&
      Gaps(After(s, gaps[0], F), gaps[1..], F, tmin))
  }

  function AfterAll(s: State, gaps: seq<Gap>, F: real, tmin: real): State
    requires Gaps(s, gaps, F, tmin)
    decreases |gaps|
  {
    if gaps == [] then s else AfterAll(After(s, gaps[0], F), gaps[1..], F, tmin)
  }

  /** No gap starts below the true rate. */
  predicate StartsAbove(s: State, gaps: seq<Gap>, F: real, tmin: real)
    requires Gaps(s, gaps, F, tmin)
    decreases |gaps|
  {
    gaps == [] || (s.freq >= F && StartsAbove(After(s, gaps[0], F), gaps[1..], F, tmin))
  }

  function Power(q: real, n: nat): real { if n == 0 then 1.0 else q * Power(q, n - 1) }

  /** A longer gap at a lower frequency takes away at least as large a share. */
  lemma FactorFalls(t: real, t': real, F: real, f: real, f': real)
    requires 0.0 <= t <= t' && F > 0.0 && f >= f' > 0.0
    ensures Factor(t', F, f') <= Factor(t, F, f)
  {
    var a, b, c, d := Weight(t, F), Weight(t', F), Divisor(f), Divisor(f');
    WeightGrows(t, t', F);
    DivisorGrows(f', f);
    hide Weight, Divisor;
    QuotientSign(a, c);
    Cancel(a, c); Cancel(b, d);
    var p, q := a / c, b / d;
    if q < p {
      Scale(d, c, p);
      Smaller(q, p, d);
    }
  }

  lemma WeightGrows(t: real, t': real, F: real)
    requires 0.0 <= t <= t' && F > 0.0
    ensures 0.0 <= Weight(t, F) <= Weight(t', F)
  {
    Scale(t, t', t);
    Scale(t, t', t');
    ProductSign(t, t);
    ProductSign(t * t, F);
    Scale(t * t, t' * t', F);
  }

  lemma DivisorGrows(f: real, f': real)
    requires 0.0 < f <= f'
    ensures Divisor(f) <= Divisor(f')
  {
    Scale(f, f', f);
    Scale(f, f', f');
    assert 16384.0 * f * f == 16384.0 * (f * f) && 16384.0 * f' * f' == 16384.0 * (f' * f');
  }

  lemma Scale(x: real, y: real, z: real)
    requires x <= y && z >= 0.0
    ensures x * z <= y * z
  {
    ProductSign(y - x, z);
    assert (y - x) * z == y * z - x * z;
  }

  lemma Smaller(x: real, y: real, z: real)
    requires x < y && z > 0.0
    ensures z * x < z * y
  {
    SignOfProduct(z, y - x);
    assert z * (y - x) == z * y - z * x;
  }

  /** After any number of exact answers, whatever the readings lose: as long as no gap starts below the
      true rate, the frequency never rises, its error is at most a geometrically shrinking share of what
      it was plus a slack of less than 10^-14 an update, and the clock is on the authority's time. */
  lemma {:induction false} SyncConverges(s: State, gaps: seq<Gap>, F: real, tmin: real)
    requires Settled(s) && s.freq >= F >= 1.0 && 0.0 <= tmin <= 128.0
    requires Gaps(s, gaps, F, tmin) && StartsAbove(s, gaps, F, tmin)
    ensures (var s' := AfterAll(s, gaps, F, tmin);
      Settled(s') && s'.freq <= s.freq &&
      s'.freq - F <= (s.freq - F) * Power(Factor(tmin, F, s.freq), |gaps|) + |gaps| as real * SLACK &&
      (gaps != [] ==> s'.tsRef == gaps[|gaps| - 1].now))
    decreases |gaps|
  {
    hide Fair, After, Settled, Factor, Sec, Ideal, Seconds, Pull, Power, AllStamps, WholeReadings;
    if gaps != [] {
      var s1 := After(s, gaps[0], F);
      SyncUpdateError(s, gaps[0], F);
      SecondsFit(s, gaps[0], F);
      var t := Seconds(s, gaps[0]);
      if |gaps| == 1 {
        assert gaps[1..] == [];
        LastError(s.freq, s1.freq, F, t, tmin);
      } else {
        SyncConverges(s1, gaps[1..], F, tmin);
        ErrorChain(s.freq, s1.freq, AfterAll(s, gaps, F, tmin).freq, F, t, tmin, |gaps| - 1);
      }
    } else {
      NoPower(Factor(tmin, F, s.freq));
    }
  }

  lemma NoPower(q: real)
    ensures Power(q, 0) == 1.0
  {}

  lemma LastError(f: real, f1: real, F: real, t: real, tmin: real)
    requires f >= F >= 1.0 && 0.0 <= tmin <= t <= 128.0 && f1 <= Ideal(t, F, f) + SLACK
    ensures f1 - F <= (f - F) * Power(Factor(tmin, F, f), 1) + SLACK
  {
    hide Factor, Ideal;
    var q0, q := Factor(t, F, f), Factor(tmin, F, f);
    FactorFalls(tmin, t, F, f, f);
    IdealError(t, F, f);
    Scale(q0, q, f - F);
    assert Power(q, 1) == q * Power(q, 0) == q;
  }

  lemma ErrorChain(f: real, f1: real, fn: real, F: real, t: real, tmin: real, n: nat)
    requires f >= f1 >= F >= 1.0 && 0.0 <= tmin <= t <= 128.0 && f1 <= Ideal(t, F, f) + SLACK
    requires fn - F <= (f1 - F) * Power(Factor(tmin, F, f1), n) + n as real * SLACK
    ensures fn - F <= (f - F) * Power(Factor(tmin, F, f), n + 1) + (n + 1) as real * SLACK
  {
    hide Factor, Power, Ideal;
    var q0, q, q1 := Factor(t, F, f), Factor(tmin, F, f), Factor(tmin, F, f1);
    FactorBounds(tmin, F, f);
    FactorBounds(tmin, F, f1);
    FactorFalls(tmin, t, F, f, f);
    FactorFalls(tmin, tmin, F, f, f1);
    PowerFalls(q1, q, n);
    PowerAtMostOne(q, n);
    NextPower(q, n);
    IdealError(t, F, f);
    ErrorShrinks(fn - F - n as real * SLACK, f - F, f1 - F, q0, q, Power(q1, n), Power(q, n), Power(q, n + 1), SLACK);
  }

  lemma NextPower(q: real, n: nat)
    ensures Power(q, n + 1) == q * Power(q, n)
  {}

  lemma IdealError(t: real, F: real, f: real)
    requires f > 0.0
    ensures Ideal(t, F, f) - F == (f - F) * Factor(t, F, f)
  {}

  lemma SecondsFit(s: State, g: Gap, F: real)
    requires Fair(s, g, F)
    ensures 0.0 <= Seconds(s, g) <= 128.0
  {
    SecBounds(g.now - s.tsRef);
    hide Sec;
  }

  lemma {:induction false} PowerFalls(q1: real, q: real, n: nat)
    requires 0.0 <= q1 <= q
    ensures 0.0 <= Power(q1, n) <= Power(q, n)
  {
    if n > 0 {
      PowerFalls(q1, q, n - 1);
      ProductSign(q1, Power(q1, n - 1));
      Scale(q1, q, Power(q1, n - 1));
      Scale(Power(q1, n - 1), Power(q, n - 1), q);
    }
  }

  lemma {:induction false} PowerAtMostOne(q: real, n: nat)
    requires 0.0 <= q <= 1.0
    ensures 0.0 <= Power(q, n) <= 1.0
  {
    if n > 0 {
      PowerAtMostOne(q, n - 1);
      NextPower(q, n - 1);
      hide Power;
      Share(q, Power(q, n - 1));
    }
  }

  lemma Share(q: real, p: real)
    requires 0.0 <= q <= 1.0 && p >= 0.0
    ensures 0.0 <= q * p <= p
  {
    ProductSign(q, p);
    Scale(q, 1.0, p);
  }

  lemma ErrorShrinks(en: real, e: real, e1: real, q0: real, q: real, p1: real, p: real, pn: real, slack: real)
    requires e >= 0.0 && 0.0 <= e1 <= e * q0 + slack && q0 <= q && q >= 0.0 && 0.0 <= p1 <= p <= 1.0
    requires en <= e1 * p1 && pn == q * p && slack >= 0.0
    ensures en <= e * pn + slack
  {
    Scale(p1, p, e1);
    Scale(q0, q, e);
    ProductSign(e, q);
    ScaledWithSlack(e1, e * q, slack, p);
    Regrouped(e, q, p);
    SameProduct(e, pn, q * p);
  }

  lemma ScaledWithSlack(e1: real, x: real, slack: real, p: real)
    requires e1 <= x + slack && slack >= 0.0 && 0.0 <= p <= 1.0
    ensures e1 * p <= x * p + slack
  {
    Scale(e1, x + slack, p);
    Share(p, slack);
    SumTimes(x, slack, p);
    Sums(e1 * p, (x + slack) * p, x * p, p * slack, slack);
  }

  lemma SumTimes(x: real, y: real, p: real)
    ensures (x + y) * p == x * p + p * y
    ensures (x - y) * p == x * p - p * y
  {}

  lemma Sums(a: real, b: real, c: real, d: real, e: real)
    requires a <= b && b == c + d && d <= e
    ensures a <= c + e
  {}

  lemma SameProduct(e: real, a: real, b: real)
    requires a == b
    ensures e * a == e * b
  {}

  lemma Regrouped(e: real, q: real, p: real)
    ensures e * q * p == e * (q * p)
  {}

  // ------------------------------------------------------------------ staying above the true rate

  /** When every reading is whole, no gap starts or ends below the true rate. */
  predicate AllGapsWhole(s: State, gaps: seq<Gap>, F: real, tmin: real)
    requires Gaps(s, gaps, F, tmin)
    decreases |gaps|
  {
    gaps == [] || (WholeReadings(s, gaps[0].es) && AllGapsWhole(After(s, gaps[0], F), gaps[1..], F, tmin))
  }

  lemma {:induction false} WholeStaysAbove(s: State, gaps: seq<Gap>, F: real, tmin: real)
    requires Settled(s) && s.freq >= F >= 1.0 && Gaps(s, gaps, F, tmin) && AllGapsWhole(s, gaps, F, tmin)
    ensures StartsAbove(s, gaps, F, tmin) && AfterAll(s, gaps, F, tmin).freq >= F
    decreases |gaps|
  {
    hide After, Settled, Sec, Ideal, Seconds, Pull, WholeReadings;
    if gaps != [] {
      SyncUpdateError(s, gaps[0], F);
      WholeStaysAbove(After(s, gaps[0], F), gaps[1..], F, tmin);
    }
  }

  /** At most k readings of the clock, the last one included, and at most tmax seconds in each gap. */
  predicate Sparse(s: State, gaps: seq<Gap>, F: real, tmin: real, tmax: real, k: nat)
    requires Gaps(s, gaps, F, tmin)
    decreases |gaps|
  {
    gaps == [] || (|AllStamps(s, gaps[0].es)| + 1 <= k && Seconds(s, gaps[0]) <= tmax &&
      Sparse(After(s, gaps[0], F), gaps[1..], F, tmin, tmax, k))
  }

  /** Enough error to spend on what k readings in each of n gaps may lose. */
  predicate Headroom(f: real, F: real, n: nat, tmax: real, k: nat)
    requires F > 0.0
  {
    (f - F) * Power(Factor(tmax, F, F), n) >= n as real * Pull(k as real / G, tmax)
  }

  /** With headroom for n gaps at the start, which can be told before any of them, none starts or ends
      below the true rate, whatever the readings lose. */
  lemma {:induction false} HeadroomStaysAbove(s: State, gaps: seq<Gap>, F: real, tmin: real, tmax: real, k: nat)
    requires Settled(s) && s.freq >= F >= 1.0 && Gaps(s, gaps, F, tmin) && 0.0 <= tmax <= 128.0
    requires Sparse(s, gaps, F, tmin, tmax, k) && Headroom(s.freq, F, |gaps|, tmax, k)
    ensures StartsAbove(s, gaps, F, tmin) && AfterAll(s, gaps, F, tmin).freq >= F
    decreases |gaps|
  {
    hide After, Settled, Sec, Ideal, Seconds, Pull, AllStamps, Headroom, Fair;
    if gaps != [] {
      var s1 := After(s, gaps[0], F);
      SyncUpdateError(s, gaps[0], F);
      SecondsFit(s, gaps[0], F);
      HeadroomNext(s.freq, s1.freq, F, |gaps| - 1, Seconds(s, gaps[0]), tmax, k, Lost(s, gaps[0], F));
      HeadroomStaysAbove(s1, gaps[1..], F, tmin, tmax, k);
    }
  }

  /** A gap spends no more than its share. */
  lemma HeadroomNext(f: real, f1: real, F: real, n: nat, t: real, tmax: real, k: nat, lost: real)
    requires f >= F >= 1.0 && 0.0 <= t <= tmax <= 128.0 && 0.0 <= lost <= k as real
    requires f1 >= Ideal(t, F, f) - Pull(lost / G, t) && Headroom(f, F, n + 1, tmax, k)
    ensures f1 >= F && Headroom(f1, F, n, tmax, k)
  {
    var q, p, c := Factor(tmax, F, F), Power(Factor(tmax, F, F), n), Pull(k as real / G, tmax);
    FactorBounds(tmax, F, F);
    PowerAtMostOne(q, n);
    NextPower(q, n);
    IdealError(t, F, f);
    FactorFalls(t, tmax, F, f, F);
    PullGrows(lost / G, k as real / G, t, tmax);
    Spend(f - F, f1 - F, Factor(t, F, f), q, p, c, Pull(lost / G, t), n, Power(q, n + 1));
    hide Factor, Power, Ideal, Pull;
  }

  lemma PullGrows(x: real, x': real, m: real, m': real)
    requires 0.0 <= x <= x' && 0.0 <= m <= m'
    ensures 0.0 <= Pull(x, m) <= Pull(x', m')
  {
    ProductSign(x, m);
    Scale(x, x', m);
    Scale(m, m', x');
  }

  lemma Spend(e: real, e1: real, q0: real, q: real, p: real, c: real, loss: real, n: nat, pn: real)
    requires e >= 0.0 && q0 >= q >= 0.0 && 0.0 <= p <= 1.0 && 0.0 <= loss <= c && pn == q * p
    requires e1 >= e * q0 - loss && e * pn >= (n + 1) as real * c
    ensures e1 >= 0.0 && e1 * p >= n as real * c
  {
    Scale(q, q0, e);
    ProductSign(e, q);
    Regrouped(e, q, p);
    SameProduct(e, pn, q * p);
    SpendShare(e * q, e1, p, c, n);
  }

  lemma SpendShare(x: real, e1: real, p: real, c: real, n: nat)
    requires x >= 0.0 && 0.0 <= p <= 1.0 && c >= 0.0 && e1 >= x - c && x * p >= (n + 1) as real * c
    ensures e1 >= 0.0 && e1 * p >= n as real * c
  {
    ProductSign(n as real, c);
    Distributed(n as real, c);
    Share(p, x);
    Share(p, c);
    assert p * x == x * p;
    Scale(x - c, e1, p);
    SumTimes(x, c, p);
    SpendSums(n as real * c, x * p, (x - c) * p, p * c, c, e1 * p);
    assert x >= c;
  }

  lemma SpendSums(nc: real, xp: real, y: real, pc: real, c: real, ep: real)
    requires xp >= nc + c && y == xp - pc && pc <= c && ep >= y
    ensures ep >= nc
  {}

  lemma Distributed(n: real, c: real)
    ensures (n + 1.0) * c == n * c + c
  {}

  /** The two together: from a settled node at or above the true rate, over whole readings or with
      headroom, every update keeps the frequency between the true rate and where it was, and the error
      shrinks as SyncConverges says. */
  lemma ConvergesFromAbove(s: State, gaps: seq<Gap>, F: real, tmin: real, tmax: real, k: nat)
    requires Settled(s) && s.freq >= F >= 1.0 && 0.0 <= tmin <= 128.0 && 0.0 <= tmax <= 128.0
    requires Gaps(s, gaps, F, tmin)
    requires (AllGapsWhole(s, gaps, F, tmin) ||
      (Sparse(s, gaps, F, tmin, tmax, k) && Headroom(s.freq, F, |gaps|, tmax, k)))
    ensures (var s' := AfterAll(s, gaps, F, tmin);
      F <= s'.freq <= s.freq && Settled(s') &&
      s'.freq - F <= (s.freq - F) * Power(Factor(tmin, F, s.freq), |gaps|) + |gaps| as real * SLACK &&
      (gaps != [] ==> s'.tsRef == gaps[|gaps| - 1].now))
  {
    hide AfterAll, Settled, Headroom, Gaps, StartsAbove, Power, Factor;
    if AllGapsWhole(s, gaps, F, tmin) {
      WholeStaysAbove(s, gaps, F, tmin);
    } else {
      HeadroomStaysAbove(s, gaps, F, tmin, tmax, k);
    }
    SyncConverges(s, gaps, F, tmin);
  }
}
