/** A whole FREQ phase under exact answers: it finds the true rate. */
module Training {
  import opened Clock
  import opened Phases
  import opened Monotone
  import opened Convergence

  /** The D messages of a phase between the first and the last only read the clock. */
  lemma {:induction false} TrainingCoasts(s: State, n: nat, es: seq<Event>)
    requires Phase(s, n) && s.node.Freq? && !s.enterFreq && Runs(s, es)
    requires if s.poll == 2 then n + Drifts(es) <= 24 else Drifts(es) == 0
    ensures CoastsAll(s, es) && Run(s, es).trainStart == s.trainStart
    ensures s.poll == 6 || n + Drifts(es) == 24 ==> Exits(Run(s, es))
    decreases |es|
  {
    hide Step, Enabled, Coasts, Exits, Phase;
    if es == [] {
      ReadyToExit(s, n);
    } else {
      var n' := if es[0].Drift? then n + 1 else n;
      PhaseStep(s, n, es[0]);
      TrainingStep(s, n, es[0]);
      TrainingCoasts(Step(s, es[0]), n', es[1..]);
    }
  }

  lemma ReadyToExit(s: State, n: nat)
    requires Phase(s, n) && s.node.Freq? && !s.enterFreq
    ensures s.poll == 6 || n == 24 ==> Exits(s)
  {
    Powers();
    hide Pow;
  }

  lemma TrainingStep(s: State, n: nat, e: Event)
    requires Phase(s, n) && s.node.Freq? && !s.enterFreq && Enabled(s, e)
    requires e.Drift? ==> s.poll == 2 && n <= 23
    ensures (var s' := Step(s, e);
      Coasts(s, e) && s'.node.Freq? && !s'.enterFreq && s'.poll == s.poll && s'.trainStart == s.trainStart)
  {
    Powers();
    if e.Drift? {
      DriftIsSelected(s, e);
      SightedStep(s, e.org, e.rec, e.xmt);
      SelectedStep(Sighted(s, e.org, e.rec, e.xmt));
      hide Step, Enabled, Sighted, Selected, Elapsed, Pow;
    } else {
      QuietStep(s, e);
      hide Step, Enabled, Stamps, Elapsed, Pow;
    }
  }

  /** The first message of a phase puts the clock on the authority's time and starts the training. */
  lemma TrainingStarts(s: State, n: nat, e: Event, now: int)
    requires Phase(s, n) && Timeline(s) && s.node.Freq? && s.enterFreq && Enabled(s, e) && Exact(s, e, now)
    ensures (var s' := Step(s, e);
      s'.tsRef == now == s'.trainStart && s'.tscRef == s'.tsc == s.tsc && s'.freq == s.freq > 0.0 && !s'.enterFreq &&
      s'.node.Freq? && s'.poll == s.poll && Timeline(s'))
  {
    TimelineStep(s, e);
    ExactOffset(s, e, now);
    DriftIsSelected(s, e);
    SightedStep(s, e.org, e.rec, e.xmt);
    EnterFreq(Sighted(s, e.org, e.rec, e.xmt));
    hide Step, Sighted, Selected, Elapsed, Timeline;
  }

  lemma EnterFreq(s: State)
    requires s.node.Freq? && s.enterFreq && s.freq != 0.0
    ensures (var s' := Selected(s);
      s'.tsRef == s.tsRef + s.offset == s'.trainStart && s'.tscRef == s.tscRef && s'.tsc == s.tsc &&
      s'.freq == s.freq && !s'.enterFreq && s'.node.Freq? && s'.poll == s.poll)
  {
    EnteredStep(s.(pass := s.pass + Pow(s.poll)));
    hide Sec, Pow, Entered, Exited, Spiked, Disciplined;
  }

  /** Between two exact answers, the first and the last of a FREQ phase, whatever else happens and
      whatever the D messages in between say, the phase ends in a settled node with a frequency of F
      less f times the readings' loss per nanosecond: F itself exactly when every reading falls a whole
      number of nanoseconds after the one before. */
  lemma TrainingFindsRate(s: State, n: nat, first: Event, es: seq<Event>, last: Event, start: int, now: int, F: real)
    requires Phase(s, n) && Timeline(s) && s.node.Freq? && s.enterFreq && F > 0.0
    requires Enabled(s, first) && Exact(s, first, start)
    requires Runs(Step(s, first), es) && Drifts(es) == if s.poll == 2 then 23 else 0
    requires (var s1 := Run(Step(s, first), es); Enabled(s1, last) && Exact(s1, last, now))
    requires now > start && (now - start) as real * F == (Run(Step(s, first), es).tsc - s.tsc) as real
    ensures (var s0 := Step(s, first); var s1 := Run(s0, es); var s2 := Step(s1, last);
      var lost := Lag(s0, Read(s1));
      Within(lost, |AllStamps(s0, es)| + 1) && s2.freq == F - s.freq * lost / (now - start) as real &&
      s2.freq <= F && (s2.freq == F <==> WholeReadings(s0, es)) && s2.tsRef == now && s2.tscRef == s2.tsc == s1.tsc && Settled(s2))
  {
    hide Run, Runs, Step, Timeline, Exact, Exits, AllStamps, Within, Lag, WholeReadings, Settled;
    TrainingStarts(s, n, first, start);
    PhaseStep(s, n, first);
    PollTwo(s, n);
    var s0 := Step(s, first);
    TrainingCoasts(s0, n + 1, es);
    FreqExit(s0, es, last, now, F);
  }

  lemma PollTwo(s: State, n: nat)
    requires Phase(s, n) && s.node.Freq? && s.enterFreq
    ensures s.poll == 2 ==> n == 0
    ensures s.poll == 2 || s.poll == 6
  {}

  // ------------------------------------------------------------------ a positive frequency

  /** The frequency stays positive over every step but two: the end of a training keeps it positive
      exactly when its duration and the authority's duration have the same sign, and an update in SYNC
      does so from 0.016 on. */
  lemma StaysPositive(s: State, n: nat, e: Event)
    requires Phase(s, n) && Timeline(s) && Enabled(s, e)
    ensures !e.Drift? ==> Step(s, e).freq == s.freq
    ensures e.Drift? ==> (var t := Sighted(s, e.org, e.rec, e.xmt);
      (Exits(t) ==> (Step(s, e).freq > 0.0
        <==> TrainDuration(t) * (TrainDuration(t) + Sec(t.offset)) > 0.0)) &&
      (t.node.Sync? && s.freq >= 0.016 ==> Step(s, e).freq > 0.0) &&
      (!Exits(t) && !t.node.Sync? ==> Step(s, e).freq == s.freq))
  {
    if e.Drift? {
      var t := Sighted(s, e.org, e.rec, e.xmt);
      DriftIsSelected(s, e);
      SightedStep(s, e.org, e.rec, e.xmt);
      SelectedPositive(t);
      if t.node.Sync? { FrequencyDrop(s, e); }
      hide Step, Sighted, Selected, Exits, Sec, TrainDuration, Elapsed;
    } else {
      QuietStep(s, e);
      hide Step, Stamps, Elapsed;
    }
  }

  lemma SelectedPositive(s: State)
    requires s.freq > 0.0 && (Exits(s) ==> TrainDuration(s) + Sec(s.offset) != 0.0)
    ensures Exits(s) ==> (Selected(s).freq > 0.0 <==> TrainDuration(s) * (TrainDuration(s) + Sec(s.offset)) > 0.0)
    ensures !Exits(s) && !s.node.Sync? ==> Selected(s).freq == s.freq
  {
    var s1 := s.(pass := s.pass + Pow(s.poll));
    if s.node.Freq? {
      EnteredStep(s1);
      if Exits(s) {
        ExitedStep(s1);
        var d := TrainDuration(s);
        var a := d + Sec(s.offset);
        RatioSign(s.freq, d, a);
      }
    }
    SteppedStep(s1);
    hide Entered, Exited, Stepped, Disciplined, Pow, Sec, TrainDuration, NewFreq, Elapsed;
  }

  lemma RatioSign(f: real, d: real, a: real)
    requires f > 0.0 && a != 0.0
    ensures f * (d / a) > 0.0 <==> d * a > 0.0
  {
    Cancel(d, a);
    SignOfProduct(f, d / a);
    SignByCases(a, d / a, d);
  }

  lemma SignByCases(a: real, q: real, d: real)
    requires a != 0.0 && a * q == d
    ensures q > 0.0 <==> d * a > 0.0
  {
    if a > 0.0 {
      SignOfProduct(a, q);
      SignOfProduct(a, d);
    } else {
      SignOfProduct(-a, q);
      SignOfProduct(-a, d);
      NegativeProduct(a, q);
      NegativeProduct(a, d);
    }
  }
}
