/** Served time over whole runs: exactly when it goes back, and how far it falls behind the counter. */
module Monotone {
  import opened Quorum
  import opened Clock
  import T = Timespecs

  /** The reference points are never ahead of the counter. */
  predicate Timeline(s: State) { s.tscRef <= s.tsc && s.lastUpdate <= s.tsc }

  lemma SortedJoin(a: seq<int>, b: seq<int>, lo: int, mid: int, hi: int)
    requires Sorted(a) && Sorted(b) && Between(a, lo, mid) && Between(b, mid, hi) && lo <= mid <= hi
    ensures Sorted(a + b) && Between(a + b, lo, hi)
  {}

  lemma TimelineStep(s: State, e: Event)
    requires Timeline(s) && Enabled(s, e)
    ensures Timeline(Step(s, e)) && Step(s, e).tsc >= s.tsc
  {
    if e.Drift? {
      SightedStep(s, e.org, e.rec, e.xmt);
      SelectedStep(Sighted(s, e.org, e.rec, e.xmt));
      hide Sighted, Selected, Elapsed;
    } else {
      QuietStep(s, e);
      hide Step, Enabled, Stamps, Elapsed;
    }
  }

  lemma ElapsedBounds(cycles: int, freq: real)
    requires cycles >= 0 && freq > 0.0
    ensures 0 <= Elapsed(cycles, freq)
    ensures cycles as real / freq - 1.0 < Elapsed(cycles, freq) as real <= cycles as real / freq
  {
    QuotientSign(cycles as real, freq);
  }

  lemma Opposite(q: real, f: real)
    requires q < 0.0 && f > 0.0
    ensures q * f < 0.0
  {}

  lemma QuotientSign(x: real, f: real)
    requires x >= 0.0 && f > 0.0
    ensures x / f >= 0.0
  {
    var q := x / f;
    assert q * f == x;
    if q < 0.0 { Opposite(q, f); }
  }

  // ------------------------------------------------------------------ never back

  /** A D message that starts or ends a training phase while the clock is ahead of the authority. */
  predicate Back(s: State, e: Event)
    requires s.freq != 0.0
  {
    e.Drift? &&
    var t := Sighted(s, e.org, e.rec, e.xmt);
    t.node.Freq? && (t.enterFreq || Exits(t)) && t.offset < 0
  }

  /** Those messages, and no others, set the clock back behind what it has just read. */
  lemma BackExactly(s: State, e: Event)
    requires Enabled(s, e) && e.Drift?
    ensures Step(s, e).tsRef >= Read(s).tsRef <==> !Back(s, e)
  {
    var t := Sighted(s, e.org, e.rec, e.xmt);
    SightedStep(s, e.org, e.rec, e.xmt);
    SelectedStep(t);
    if t.node.Freq? {
      FreqMoves(t);
    }
    hide Sighted, Selected, Elapsed, Exits;
  }

  /** A D message in FREQ moves the clock by the offset if it starts or ends a training, else not. */
  lemma FreqMoves(s: State)
    requires s.node.Freq? && s.freq != 0.0 && (Exits(s) ==> TrainDuration(s) + Sec(s.offset) != 0.0)
    ensures Selected(s).tsRef == s.tsRef + if s.enterFreq || Exits(s) then s.offset else 0
  {
    var s1 := s.(pass := s.pass + Pow(s.poll));
    EnteredStep(s1);
    if Exits(s) { ExitedStep(s1); }
    hide Entered, Exited, Sec, TrainDuration, Pow, Disciplined, Spiked;
  }

  predicate Sorted(q: seq<int>) { forall i, j :: 0 <= i < j < |q| ==> q[i] <= q[j] }

  predicate Between(q: seq<int>, lo: int, hi: int) { forall i :: 0 <= i < |q| ==> lo <= q[i] <= hi }

  /** Every timestamp of the step lies between the clock before and the clock after. */
  lemma MonotoneStep(s: State, e: Event)
    requires Timeline(s) && Enabled(s, e) && !Back(s, e)
    ensures s.tsRef <= Step(s, e).tsRef && Sorted(Stamps(s, e))
    ensures Between(Stamps(s, e), s.tsRef, Step(s, e).tsRef)
  {
    ElapsedBounds(s.tsc - s.tscRef, s.freq);
    ElapsedBounds(0, s.freq);
    StampValues(s, e);
    if e.Drift? {
      BackExactly(s, e);
      hide Step, Enabled, Back, Elapsed, Stamps;
    } else {
      QuietStep(s, e);
      hide Step, Enabled, Stamps, Elapsed, Back;
    }
  }

  /** A run in which no D message sets the clock back. */
  predicate Steady(s: State, es: seq<Event>)
    requires Runs(s, es)
    decreases |es|
  {
    es == [] || (!Back(s, es[0]) && Steady(Step(s, es[0]), es[1..]))
  }

  /** All the timestamps read off the clock in a run, in order. */
  function AllStamps(s: State, es: seq<Event>): seq<int>
    requires Runs(s, es)
    decreases |es|
  {
    if es == [] then [] else Stamps(s, es[0]) + AllStamps(Step(s, es[0]), es[1..])
  }

  /** Served time never decreases. */
  lemma {:induction false} MonotoneRun(s: State, es: seq<Event>)
    requires Timeline(s) && Runs(s, es) && Steady(s, es)
    ensures s.tsRef <= Run(s, es).tsRef && Sorted(AllStamps(s, es))
    ensures Between(AllStamps(s, es), s.tsRef, Run(s, es).tsRef)
    decreases |es|
  {
    hide Timeline, Step, Stamps, Back, Sorted, Between;
    NoStamps(s.tsRef);
    if es != [] {
      TimelineStep(s, es[0]);
      MonotoneStep(s, es[0]);
      MonotoneRun(Step(s, es[0]), es[1..]);
      SortedJoin(Stamps(s, es[0]), AllStamps(Step(s, es[0]), es[1..]), s.tsRef, Step(s, es[0]).tsRef, Run(s, es).tsRef);
    }
  }

  /** And it does decrease as soon as the clock is read after a message that sets it back. */
  lemma BackIsSeen(s: State, e: Event)
    requires Timeline(s) && Runs(s, [e, Forced]) && e.Drift?
    ensures Sorted(AllStamps(s, [e, Forced])) <==> !Back(s, e)
  {
    var s1 := Step(s, e);
    assert [e, Forced][1..] == [Forced] && [Forced][1..] == [];
    BackExactly(s, e);
    DriftReads(s, e);
    StampValues(s, e);
    ElapsedBounds(0, s1.freq);
    assert AllStamps(s, [e, Forced]) == Stamps(s, e) + Stamps(s1, Forced);
    var q := AllStamps(s, [e, Forced]);
    hide Step, Back, Elapsed, AllStamps, Stamps;
    assert q == [Read(s).tsRef, s1.tsRef + Elapsed(0, s1.freq)];
    assert Elapsed(0, s1.freq) == 0;
    assert Sorted(q) <==> q[0] <= q[1];
  }

  lemma DriftReads(s: State, e: Event)
    requires Enabled(s, e) && e.Drift?
    ensures Step(s, e).tsc == Step(s, e).tscRef == s.tsc && Stamps(s, e) == [Read(s).tsRef]
  {
    SightedStep(s, e.org, e.rec, e.xmt);
    SelectedStep(Sighted(s, e.org, e.rec, e.xmt));
    hide Sighted, Selected, Elapsed;
  }

  lemma NoStamps(t: int)
    ensures Sorted([]) && Between([], t, t)
  {}

  // ------------------------------------------------------------------ how far behind

  /** A step that does not adjust the clock: no D message, or one that neither starts nor ends a
      training phase. */
  predicate Coasts(s: State, e: Event)
    requires s.freq > 0.0
  {
    e.Drift? ==> s.node.Freq? && !s.enterFreq && !Exits(s)
  }

  /** The nanoseconds that the frequency promises from one reference point to the next, less those
      that the clock advanced. */
  function Lag(s: State, s': State): real
    requires s.freq > 0.0
  {
    (s'.tscRef - s.tscRef) as real / s.freq - (s'.tsRef - s.tsRef) as real
  }

  predicate Within(lag: real, k: nat) {
    0.0 <= lag <= k as real && (k > 0 ==> lag < k as real)
  }

  lemma CoastStep(s: State, e: Event)
    requires Timeline(s) && Enabled(s, e) && Coasts(s, e)
    ensures Step(s, e).freq == s.freq && Within(Lag(s, Step(s, e)), |Stamps(s, e)|)
    ensures Step(s, e).tsRef >= s.tsRef
    ensures Lag(s, Step(s, e)) == 0.0 <==> Stamps(s, e) == [] || Whole(s.tsc - s.tscRef, s.freq)
    ensures e.Drift? ==> Step(s, e).trainStart == s.trainStart && Step(s, e).tscRef == s.tsc
  {
    CoastCases(s, e);
    ElapsedBounds(s.tsc - s.tscRef, s.freq);
    ElapsedBounds(0, s.freq);
    WholeElapsed(s.tsc - s.tscRef, s.freq);
    hide Elapsed, Step, Stamps, Enabled, Exits, Whole;
  }

  /** Such a step reads the clock as often as it returns timestamps, and does nothing else to it. */
  lemma CoastCases(s: State, e: Event)
    requires Timeline(s) && Enabled(s, e) && Coasts(s, e)
    ensures Step(s, e).freq == s.freq && Step(s, e).trainStart == s.trainStart
    ensures (var n, z := Elapsed(s.tsc - s.tscRef, s.freq), Elapsed(0, s.freq); var k := |Stamps(s, e)|;
      k <= 2 && Step(s, e).tscRef == (if k > 0 then s.tsc else s.tscRef) &&
      Step(s, e).tsRef == s.tsRef + if k == 0 then 0 else if k == 1 then n else n + z)
    ensures e.Drift? ==> |Stamps(s, e)| == 1
  {
    if e.Drift? {
      SightedStep(s, e.org, e.rec, e.xmt);
      SelectedStep(Sighted(s, e.org, e.rec, e.xmt));
      hide Sighted, Selected, Elapsed, Pow;
    } else {
      QuietStep(s, e);
      hide Step, Enabled, Stamps, Elapsed;
    }
  }

  /** So many cycles are a whole number of nanoseconds. */
  predicate Whole(cycles: int, freq: real)
    requires freq != 0.0
  {
    cycles as real / freq == (cycles as real / freq).Floor as real
  }

  lemma WholeElapsed(cycles: int, freq: real)
    requires cycles >= 0 && freq > 0.0
    ensures Whole(cycles, freq) <==> cycles as real / freq == Elapsed(cycles, freq) as real
  {
    QuotientSign(cycles as real, freq);
  }

  /** Every reading of the clock in the run falls a whole number of nanoseconds after the one before. */
  predicate AllWhole(s: State, es: seq<Event>)
    requires Runs(s, es)
    decreases |es|
  {
    es == [] || ((Stamps(s, es[0]) != [] ==> Whole(s.tsc - s.tscRef, s.freq)) && AllWhole(Step(s, es[0]), es[1..]))
  }

  /** And so does one more reading after it. */
  predicate WholeReadings(s: State, es: seq<Event>)
    requires Runs(s, es) && Run(s, es).freq != 0.0
  {
    AllWhole(s, es) && Whole(Run(s, es).tsc - Run(s, es).tscRef, Run(s, es).freq)
  }

  predicate CoastsAll(s: State, es: seq<Event>)
    requires Runs(s, es)
    decreases |es|
  {
    es == [] || (Coasts(s, es[0]) && CoastsAll(Step(s, es[0]), es[1..]))
  }

  lemma LagAdds(s: State, s1: State, s2: State)
    requires s.freq > 0.0 && s1.freq == s.freq
    ensures Lag(s, s2) == Lag(s, s1) + Lag(s1, s2)
  {
    QuotientAdds((s1.tscRef - s.tscRef) as real, (s2.tscRef - s1.tscRef) as real, s.freq);
  }

  lemma QuotientAdds(a: real, b: real, f: real)
    requires f != 0.0
    ensures (a + b) / f == a / f + b / f
  {}

  /** Over k reads at a fixed frequency the clock advances by more than the counter's time less k
      nanoseconds, and by no more than the counter's time: by all of it exactly when every reading is
      whole. */
  lemma {:induction false} CoastRun(s: State, es: seq<Event>)
    requires Timeline(s) && s.freq > 0.0 && Runs(s, es) && CoastsAll(s, es)
    ensures Run(s, es).freq == s.freq && Timeline(Run(s, es)) && Run(s, es).tsRef >= s.tsRef
    ensures Within(Lag(s, Run(s, es)), |AllStamps(s, es)|)
    ensures Lag(s, Run(s, es)) == 0.0 <==> AllWhole(s, es)
    decreases |es|
  {
    hide Timeline, Step, Stamps, Coasts, Whole;
    if es == [] {
      NoLag(s);
    } else {
      TimelineStep(s, es[0]);
      CoastStep(s, es[0]);
      CoastRun(Step(s, es[0]), es[1..]);
      LagAdds(s, Step(s, es[0]), Run(s, es));
      hide Lag;
    }
  }

  /** The same with the reading that comes next: it loses nothing exactly when all its readings are
      whole. */
  lemma CoastThenRead(s: State, es: seq<Event>)
    requires Timeline(s) && s.freq > 0.0 && Runs(s, es) && CoastsAll(s, es)
    ensures Run(s, es).freq == s.freq
    ensures (var s1 := Run(s, es); var lag := Lag(s, Read(s1));
      Read(s1).tscRef == s1.tsc && Read(s1).tsRef >= s.tsRef &&
      Within(lag, |AllStamps(s, es)| + 1) && (lag == 0.0 <==> WholeReadings(s, es)))
  {
    hide Run, Runs, CoastsAll, AllStamps, AllWhole, Elapsed, Whole;
    CoastRun(s, es);
    var s1 := Run(s, es);
    ElapsedBounds(s1.tsc - s1.tscRef, s1.freq);
    WholeElapsed(s1.tsc - s1.tscRef, s1.freq);
    LagAdds(s, s1, Read(s1));
  }

  lemma NoLag(s: State)
    requires s.freq > 0.0
    ensures Within(Lag(s, s), 0)
  {}
}
