/** What every run of a node keeps about its states and counters, and how long each phase lasts. */
module Phases {
  import opened Quorum
  import opened Clock

  /** The shape of every reachable state after n D messages. */
  predicate Phase(s: State, n: nat) {
    match s.node
    case Sync => s.poll == 6 && s.pass == 0 && s.enterFreq && n >= 25 && (s.consistent ==> n >= 26)
    case Spik => s.poll == 6 && s.pass == 64 && s.enterFreq && n >= 26 && !s.consistent
    case Freq =>
      if s.poll == 2
      then n <= 24 && s.pass == 4 * n && (s.enterFreq <==> n == 0) && !s.consistent
      else s.poll == 6 && n >= 25 && s.pass in (if s.enterFreq then {0, 64} else {64, 128}) && (s.consistent ==> n >= 26)
  }

  lemma Powers()
    ensures Pow(2) == 4 && Pow(6) == 64 && Pow(11) == 2048
  {
    assert Pow(4) == 16 && Pow(8) == 16 * Pow(4);
  }

  lemma PhaseInitial(port: int, freq: real, ts: int, tsc: int)
    ensures Phase(Initial(port, freq, ts, tsc), 0)
  {}

  /** One step keeps the shape. */
  lemma PhaseStep(s: State, n: nat, e: Event)
    requires Phase(s, n) && Enabled(s, e)
    ensures Phase(Step(s, e), if e.Drift? then n + 1 else n)
  {
    if e.Drift? {
      PhaseSighted(s, n, e.org, e.rec, e.xmt);
      PhaseSelected(Sighted(s, e.org, e.rec, e.xmt), n);
      hide Sighted, Selected, Phase;
    } else {
      QuietStep(s, e);
      hide Step, Enabled;
    }
  }

  /** Between the two halves of a D handler: the same, except that SPIK may just have been entered. */
  predicate Midway(s: State, n: nat) {
    match s.node
    case Sync => s.poll == 6 && s.pass == 0 && s.enterFreq && n >= 25 && s.offset < STEP_THRESHOLD_NS
    case Spik => s.poll == 6 && s.enterFreq && n >= 25 &&
      ((s.pass == 0 && s.offset >= STEP_THRESHOLD_NS && !s.consistent) || (s.pass == 64 && n >= 26))
    case Freq => Phase(s, n)
  }

  lemma PhaseSighted(s: State, n: nat, org: int, rec: int, xmt: int)
    requires Phase(s, n) && s.freq > 0.0
    ensures Midway(Sighted(s, org, rec, xmt), n)
  {
    var offset := OffsetOf(org, rec, xmt, Read(s).tsRef);
    if offset >= STEP_THRESHOLD_NS { SpikeIsFar(offset); }
    hide Elapsed, Near;
  }

  /** An offset that makes a spike is too large to be consistent. */
  lemma SpikeIsFar(offset: int)
    requires offset >= STEP_THRESHOLD_NS
    ensures !Near(offset, 6)
  {
    Powers();
    hide Pow;
  }

  lemma PhaseSelected(s: State, n: nat)
    requires Midway(s, n) && s.freq > 0.0
    requires Exits(s) ==> TrainDuration(s) + Sec(s.offset) != 0.0
    ensures Phase(Selected(s), n + 1)
  {
    Powers();
    hide Elapsed, NewFreq, Sec, TrainDuration, Pow;
  }

  /** Every reachable state has the shape. */
  lemma {:induction false} PhaseRun(s: State, n: nat, es: seq<Event>)
    requires Phase(s, n) && Runs(s, es)
    ensures Phase(Run(s, es), n + Drifts(es))
    decreases |es|
  {
    hide Phase, Step, Enabled;
    if es != [] {
      PhaseStep(s, n, es[0]);
      PhaseRun(Step(s, es[0]), if es[0].Drift? then n + 1 else n, es[1..]);
    }
  }

  // ------------------------------------------------------------------ how long each phase lasts

  /** The first FREQ phase lasts exactly 25 D messages: no fewer end it, and the 25th does. */
  lemma FirstFreq(port: int, freq: real, ts: int, tsc: int, es: seq<Event>)
    requires Runs(Initial(port, freq, ts, tsc), es)
    ensures (var s := Run(Initial(port, freq, ts, tsc), es);
      (Drifts(es) < 25 ==> s.node.Freq? && s.poll == 2) &&
      (Drifts(es) >= 25 ==> s.poll == 6) &&
      (Drifts(es) == 25 && es[|es| - 1].Drift? ==> s.node.Sync?))
  {
    hide Run, Runs, Step, Enabled;
    var s0 := Initial(port, freq, ts, tsc);
    PhaseRun(s0, 0, es);
    hide Initial;
    if Drifts(es) == 25 && es[|es| - 1].Drift? {
      var k := |es| - 1;
      assert es == es[..k] + [es[k]];
      RunPlus(s0, es[..k], es[k]);
      PhaseRun(s0, 0, es[..k]);
      LeaveFreq(Run(s0, es[..k]), 24, es[k]);
    }
  }

  /** A D message in a FREQ phase that has trained long enough ends the phase. */
  lemma LeaveFreq(s: State, n: nat, e: Event)
    requires Phase(s, n) && s.node.Freq? && !s.enterFreq && (s.poll == 2 ==> n == 24) && e.Drift? && Enabled(s, e)
    ensures Step(s, e).node.Sync? && Step(s, e).poll == 6 && Step(s, e).enterFreq
  {
    Powers();
    hide Elapsed, NewFreq, Near, Sec, TrainDuration, Pow;
  }

  /** The last step of a run. */
  lemma {:induction false} RunPlus(s: State, es: seq<Event>, e: Event)
    requires Runs(s, es + [e])
    ensures Runs(s, es) && Enabled(Run(s, es), e) && Run(s, es + [e]) == Step(Run(s, es), e)
    ensures Drifts(es + [e]) == Drifts(es) + if e.Drift? then 1 else 0
    decreases |es|
  {
    hide Step, Enabled;
    if es == [] {
      assert (es + [e])[1..] == [];
    } else {
      assert (es + [e])[1..] == es[1..] + [e];
      RunPlus(Step(s, es[0]), es[1..], e);
    }
  }

  /** Every later FREQ phase lasts exactly two D messages, whenever it was entered. */
  lemma LaterFreq(s: State, n: nat, es: seq<Event>)
    requires Phase(s, n) && s.node.Freq? && s.poll == 6 && s.enterFreq && Runs(s, es)
    ensures Drifts(es) < 2 ==> Run(s, es).node.Freq?
    ensures Drifts(es) == 2 && es[|es| - 1].Drift? ==> Run(s, es).node.Sync?
  {
    hide Run, Runs, Step, Enabled, Phase;
    if Drifts(es) < 2 { Training(s, n, es); }
    if Drifts(es) == 2 && es[|es| - 1].Drift? {
      var k := |es| - 1;
      assert es == es[..k] + [es[k]];
      RunPlus(s, es[..k], es[k]);
      PhaseRun(s, n, es[..k]);
      Training(s, n, es[..k]);
      LeaveFreq(Run(s, es[..k]), n + 1, es[k]);
    }
  }

  /** Until the second D message the node trains, and the first one starts the training. */
  lemma {:induction false} Training(s: State, n: nat, es: seq<Event>)
    requires Phase(s, n) && s.node.Freq? && s.poll == 6 && Runs(s, es)
    requires Drifts(es) <= if s.enterFreq then 1 else 0
    ensures Run(s, es).node.Freq? && Run(s, es).poll == 6
    ensures Run(s, es).enterFreq <==> s.enterFreq && Drifts(es) == 0
    decreases |es|
  {
    hide Phase, Step, Enabled;
    if es != [] {
      PhaseStep(s, n, es[0]);
      StaysInFreq(s, n, es[0]);
      Training(Step(s, es[0]), if es[0].Drift? then n + 1 else n, es[1..]);
    }
  }

  lemma StaysInFreq(s: State, n: nat, e: Event)
    requires Phase(s, n) && s.node.Freq? && s.poll == 6 && Enabled(s, e)
    requires e.Drift? ==> s.enterFreq
    ensures Step(s, e).node.Freq? && Step(s, e).poll == 6
    ensures Step(s, e).enterFreq <==> s.enterFreq && !e.Drift?
  {
    if e.Drift? {
      SightedStep(s, e.org, e.rec, e.xmt);
      hide Sighted, NewFreq, Near, Sec, TrainDuration, Pow, Elapsed;
    } else {
      QuietStep(s, e);
      hide Step, Enabled;
    }
  }

  /** A spike is left by the next D message. */
  lemma SpikeLeft(s: State, n: nat, e: Event)
    requires Phase(s, n) && s.node.Spik? && e.Drift? && Enabled(s, e)
    ensures Step(s, e).node.Sync?
  {
    Powers();
    hide Elapsed, NewFreq, Near, Sec, TrainDuration, Pow;
  }

  /** Until the 26th D message the node vouches for nothing: an unforced read is served only when it
      is stopping. */
  lemma NothingServed(port: int, freq: real, ts: int, tsc: int, es: seq<Event>, memTsc: int)
    requires Runs(Initial(port, freq, ts, tsc), es) && Drifts(es) <= 25
    ensures (var s := Run(Initial(port, freq, ts, tsc), es); Serves(s, memTsc) ==> s.stop)
  {
    hide Run, Runs;
    PhaseRun(Initial(port, freq, ts, tsc), 0, es);
  }

  /** Nor does a node in a spike vouch for anything. */
  lemma SpikeServesNothing(port: int, freq: real, ts: int, tsc: int, es: seq<Event>, memTsc: int)
    requires Runs(Initial(port, freq, ts, tsc), es)
    ensures (var s := Run(Initial(port, freq, ts, tsc), es); s.node.Spik? && Serves(s, memTsc) ==> s.stop)
  {
    hide Run, Runs;
    PhaseRun(Initial(port, freq, ts, tsc), 0, es);
  }
}
