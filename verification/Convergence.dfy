/** How the frequency converges to the authority's when its answers are exact. F is the true rate in
    cycles a nanosecond; an exact answer arrives at once and carries the true time. */
module Convergence {
  import opened Clock
  import opened Monotone

  const G := 1000000000.0

  // ------------------------------------------------------------------ one discipline

  /** The phase-locked correction for an offset of x seconds after m seconds. */
  function Pull(x: real, m: real): real { x * m / 16384.0 }

  /** At poll exponent 6 only the phase-locked term acts, with a divisor of 128 squared. */
  lemma OnlyPhaseLocked(freq: real, offset: int, mu: int)
    ensures NewFreq(freq, 6, offset, mu) == freq - Pull(Sec(offset), Min(2048.0, Sec(mu)))
  {
    assert Pow(6) == 64 && Pow(11) == 2048 by { assert Pow(4) == 16 && Pow(8) == 256; }
    hide Pow;
  }

  /** From the Allan intercept on, which the phases never reach, both terms act: an offset of a second
      after 1024 and after 4096 seconds at poll exponent 11. */
  lemma BothLocked(freq: real)
    ensures NewFreq(freq, 11, 1_000_000_000, 1024_000_000_000) == freq - 1.0 / 512.0 - 1.0 / 16384.0
    ensures NewFreq(freq, 11, 1_000_000_000, 4096_000_000_000) == freq - 1.0 / 1024.0 - 1.0 / 8192.0
  {
    assert Pow(11) == 2048 by { assert Pow(4) == 16 && Pow(8) == 256; }
    hide Pow;
  }

  /** One SYNC update lowers the frequency by less than 0.016. */
  lemma FrequencyDrop(s: State, e: Event)
    requires Timeline(s) && Enabled(s, e) && e.Drift? && s.poll == 6
    requires s.node.Sync? && Sighted(s, e.org, e.rec, e.xmt).node.Sync?
    ensures Step(s, e).freq > s.freq - 0.016
  {
    hide Step, Sighted, Selected, Disciplined, NewFreq, Elapsed;
    DriftIsSelected(s, e);
    SightedStep(s, e.org, e.rec, e.xmt);
    var s1 := Sighted(s, e.org, e.rec, e.xmt);
    SyncUpdate(s1);
    var mu := Elapsed(s1.tsc - s1.lastUpdate, s1.freq);
    ElapsedBounds(s1.tsc - s1.lastUpdate, s1.freq);
    Capped(Sec(s1.offset), Min(2048.0, Sec(mu)));
    hide Pull;
  }

  /** A D message is its two halves. */
  lemma DriftIsSelected(s: State, e: Event)
    requires Enabled(s, e) && e.Drift?
    ensures (var s1 := Sighted(s, e.org, e.rec, e.xmt);
      (Exits(s1) ==> TrainDuration(s1) + Sec(s1.offset) != 0.0) && Step(s, e) == Selected(s1))
  {
    hide Sighted, Selected, Sec, TrainDuration, Exits;
  }

  /** The second half in SYNC at poll exponent 6. */
  lemma SyncUpdate(s: State)
    requires s.node.Sync? && s.poll == 6 && s.freq != 0.0
    ensures (var s' := Selected(s); var mu := Elapsed(s.tsc - s.lastUpdate, s.freq);
      s'.freq == s.freq - Pull(Sec(s.offset), Min(2048.0, Sec(mu))) &&
      s'.tsRef == s.tsRef + (if s.offset > 0 then s.offset else 0) && s'.lastUpdate == s.tsc && Alike(s, s'))
  {
    DisciplinedStep(s);
    OnlyPhaseLocked(s.freq, s.offset, Elapsed(s.tsc - s.lastUpdate, s.freq));
    hide Disciplined, NewFreq, Elapsed, Sec, Pull;
  }

  lemma Capped(x: real, m: real)
    requires x < 0.128 && 0.0 <= m <= 2048.0
    ensures Pull(x, m) < 0.016
  {
    if x <= 0.0 {
      ProductSign(-x, m);
      NegativeProduct(x, m);
    } else {
      ProductBelow(x, m);
    }
  }

  lemma NegativeProduct(x: real, y: real)
    ensures -x * y == -(x * y)
  {}

  lemma ProductSign(x: real, y: real)
    requires x >= 0.0 && y >= 0.0
    ensures x * y >= 0.0
  {}

  lemma ProductBelow(x: real, y: real)
    requires 0.0 < x < 0.128 && 0.0 <= y <= 2048.0
    ensures x * y < 262.144
  {
    assert x * y <= x * 2048.0;
  }

  // ------------------------------------------------------------------ exact answers

  /** The message of an authority that answers at once with the true time, now. */
  predicate Exact(s: State, e: Event, now: int)
    requires s.freq != 0.0
  {
    e.Drift? && e.org == Read(s).tsRef && e.rec == e.xmt == now
  }

  lemma ExactOffset(s: State, e: Event, now: int)
    requires s.freq != 0.0 && Exact(s, e, now)
    ensures Sighted(s, e.org, e.rec, e.xmt).offset == now - Read(s).tsRef
  {
    SightedStep(s, e.org, e.rec, e.xmt);
    hide Sighted, Elapsed;
  }

  /** In SYNC, the node last heard the authority at its reference point. */
  predicate Settled(s: State) {
    Timeline(s) && s.node.Sync? && s.poll == 6 && s.lastUpdate == s.tscRef
  }

  // ------------------------------------------------------------------ the end of FREQ

  /** A training from one exact answer to another sets the frequency to F less f times the lag per
      nanosecond of training: to F itself exactly when every reading of the clock in between fell a
      whole number of nanoseconds after the one before. */
  lemma FreqExit(s: State, es: seq<Event>, e: Event, now: int, F: real)
    requires Timeline(s) && s.freq > 0.0 && s.tsRef == s.trainStart && F > 0.0
    requires Runs(s, es) && CoastsAll(s, es) && Run(s, es).trainStart == s.trainStart
    requires (var s1 := Run(s, es); Enabled(s1, e) && Exact(s1, e, now) && Exits(s1))
    requires now > s.tsRef && (now - s.tsRef) as real * F == (Run(s, es).tsc - s.tscRef) as real
    ensures (var s1, s2 := Run(s, es), Step(Run(s, es), e); var lag := Lag(s, Read(Run(s, es)));
      Within(lag, |AllStamps(s, es)| + 1) &&
      s2.freq == F - s.freq * lag / (now - s.tsRef) as real &&
      s2.freq <= F && (s2.freq == F <==> WholeReadings(s, es)) && s2.tsRef == now && s2.tscRef == s2.tsc == s1.tsc && Settled(s2))
  {
    hide Run, Runs, CoastsAll, AllStamps, WholeReadings, Sighted, Selected, Step, Timeline, Lag, Within, Sec, TrainDuration;
    var s1 := Run(s, es);
    CoastRun(s, es);
    CoastThenRead(s, es);
    TimelineStep(s1, e);
    var r := Read(s1);
    var t := Sighted(s1, e.org, e.rec, e.xmt);
    SightedTraining(s1, e, now);
    DriftIsSelected(s1, e);
    ExitFreq(t);
    LagIs(s, r);
    TrainingRatio(s.freq, F, r.tsRef - s.tsRef, now - s.tsRef, r.tscRef - s.tscRef, Lag(s, r));
  }

  lemma LagIs(s: State, s': State)
    requires s.freq > 0.0
    ensures Lag(s, s') == (s'.tscRef - s.tscRef) as real / s.freq - (s'.tsRef - s.tsRef) as real
    ensures forall k :: Within(Lag(s, s'), k) ==> Lag(s, s') >= 0.0
  {}

  lemma SightedTraining(s: State, e: Event, now: int)
    requires s.freq != 0.0 && Exact(s, e, now) && Exits(s)
    ensures (var t := Sighted(s, e.org, e.rec, e.xmt); var r := Read(s);
      t.tsRef == r.tsRef && t.offset == now - r.tsRef && t.freq == s.freq && t.trainStart == s.trainStart && Exits(t) &&
      t.tsc == t.tscRef == s.tsc)
  {
    SightedStep(s, e.org, e.rec, e.xmt);
    hide Sighted, Elapsed, Pow;
  }

  lemma ExitFreq(s: State)
    requires s.freq != 0.0 && Exits(s) && TrainDuration(s) + Sec(s.offset) != 0.0
    ensures (var s' := Selected(s);
      s'.freq == s.freq * (Sec(s.tsRef - s.trainStart) / (Sec(s.tsRef - s.trainStart) + Sec(s.offset))) &&
      s'.tsRef == s.tsRef + s.offset && s'.node.Sync? && s'.poll == 6 && s'.lastUpdate == s.tsc &&
      s'.tsc == s.tsc && s'.tscRef == s.tscRef)
  {
    ExitedStep(s.(pass := s.pass + Pow(s.poll)));
    hide Sec, Pow, Entered, Exited, Spiked, Disciplined;
  }

  lemma TrainingRatio(f: real, F: real, n: int, d: int, cycles: int, lag: real)
    requires f > 0.0 && F > 0.0 && d > 0 && lag >= 0.0
    requires d as real * F == cycles as real && lag == cycles as real / f - n as real
    ensures Sec(n) + Sec(d - n) != 0.0
    ensures (var g := f * (Sec(n) / (Sec(n) + Sec(d - n)));
      g == F - f * lag / d as real && g <= F && (g == F <==> lag == 0.0))
  {
    assert Sec(n) + Sec(d - n) == Sec(d);
    RatioOfSeconds(n, d);
    var x := d as real;
    Cancel(cycles as real, f);
    assert f * n as real == x * F - f * lag;
    ScaledRatio(f, n as real, x, F, f * lag);
    LossSign(f, lag, x);
  }

  lemma RatioOfSeconds(n: int, d: int)
    requires d != 0
    ensures Sec(d) != 0.0 && Sec(n) / Sec(d) == n as real / d as real
  {
    var q := n as real / d as real;
    assert q * d as real == n as real;
    assert q * Sec(d) == Sec(n);
    QuotientIs(Sec(n), Sec(d), q);
  }

  lemma QuotientIs(x: real, y: real, q: real)
    requires y != 0.0 && q * y == x
    ensures x / y == q
  {}

  lemma Cancel(x: real, y: real)
    requires y != 0.0
    ensures y * (x / y) == x
  {}

  lemma ScaledRatio(f: real, n: real, d: real, F: real, loss: real)
    requires d > 0.0 && f * n == d * F - loss
    ensures f * (n / d) == F - loss / d
  {
    Cancel(n, d);
    Cancel(loss, d);
    var q, l := n / d, loss / d;
    assert d * (f * q) == f * (d * q) == f * n == d * F - d * l == d * (F - l);
    SameFactor(f * q, F - l, d);
  }

  lemma SameFactor(x: real, y: real, d: real)
    requires d > 0.0 && d * x == d * y
    ensures x == y
  {}

  lemma LossSign(f: real, lag: real, d: real)
    requires f > 0.0 && lag >= 0.0 && d > 0.0
    ensures f * lag / d >= 0.0 && (f * lag / d == 0.0 <==> lag == 0.0)
  {
    Cancel(f * lag, d);
    var q := f * lag / d;
    assert d * q == f * lag;
    SignOfProduct(f, lag);
    SignOfProduct(d, q);
  }

  lemma SignOfProduct(x: real, y: real)
    requires x > 0.0
    ensures x * y > 0.0 <==> y > 0.0
    ensures x * y == 0.0 <==> y == 0.0
  {}
}
