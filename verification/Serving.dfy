/** When the node vouches for a time, and when it doubts itself. */
module Serving {
  import opened Clock
  import opened Phases
  import opened Untainting

  // ------------------------------------------------------------------ unforced reads

  /** An unforced read returns a timestamp exactly when the node is calibrated, consistent with the
      authority and not tainted, and its counter has moved on and is not behind the reference point, or
      when it is stopping. */
  lemma ServedExactly(s: State, memTsc: int)
    requires s.freq > 0.0
    ensures (Stamps(s, Unforced(memTsc)) != []
      <==> s.stop || (s.calibrated && s.consistent && !s.tainted && memTsc != s.tsc && s.tscRef <= s.tsc))
  {
    hide Read, Sighted, Exits;
  }

  /** A new node vouches for nothing and knows nobody, and a stopping one lets every reader go. */
  lemma NewNode(port: int, freq: real, ts: int, tsc: int, memTsc: int)
    requires freq > 0.0
    ensures (var s := Initial(port, freq, ts, tsc);
      !s.stop && !s.tainted && !s.calibrated && !s.consistent && s.siblings == [] && s.uninterrupted == 0 &&
      s.tsRef == ts && s.tscRef == s.tsc == s.lastUpdate == tsc && s.node.Freq? && s.offset == 0 &&
      Stamps(s, Unforced(memTsc)) == [] && Stamps(Step(s, Halt), Unforced(memTsc)) == [ts])
  {
    var s := Initial(port, freq, ts, tsc);
    ServedExactly(s, memTsc);
    hide Sighted, Exits;
    assert 0.0 / freq == 0.0;
  }

  lemma {:induction false} RunsPrefix(s: State, es: seq<Event>, k: nat)
    requires Runs(s, es) && k <= |es|
    ensures Runs(s, es[..k]) && (k < |es| ==> Enabled(Run(s, es[..k]), es[k]))
    decreases |es| - k
  {
    hide Step, Enabled;
    if k == |es| {
      assert es[..k] == es;
    } else {
      RunsPrefix(s, es, k + 1);
      assert es[..k + 1] == es[..k] + [es[k]];
      RunPlus(s, es[..k], es[k]);
    }
  }

  /** From the moment the node is tainted, and until an untainting message with a quorum clears the flag,
      no unforced read is served unless the node is stopping. */
  lemma TaintedServesNothing(s: State, es: seq<Event>, k: nat)
    requires s.tainted && Runs(s, es) && k < |es| && es[k].Unforced?
    requires forall j :: !ClearsAt(s, es, j)
    ensures Runs(s, es[..k]) && Enabled(Run(s, es[..k]), es[k])
    ensures !Run(s, es[..k]).stop ==> Stamps(Run(s, es[..k]), es[k]) == []
  {
    RunsPrefix(s, es, k);
    var s1 := Run(s, es[..k]);
    hide Step, Stamps, Enabled, HasQuorum;
    if !s1.tainted {
      ClearedInRun(s, es[..k]);
      var j: nat :| ClearsAt(s, es[..k], j);
      ClearsLater(s, es, k, j);
    }
    EnabledPositive(s1, es[k]);
    ServedExactly(s1, es[k].memTsc);
  }

  lemma ClearsLater(s: State, es: seq<Event>, k: nat, j: nat)
    requires k <= |es| && ClearsAt(s, es[..k], j)
    ensures ClearsAt(s, es, j)
  {
    hide HasQuorum;
    assert es[..k][..j] == es[..j] && es[..k][..j + 1] == es[..j + 1];
  }

  lemma EnabledPositive(s: State, e: Event)
    requires Enabled(s, e)
    ensures s.freq > 0.0
  {}

  /** What the end of a FREQ phase and a discalibrated round take away, only calibration gives back. */
  lemma {:induction false} UncalibratedStays(s: State, es: seq<Event>)
    requires !s.calibrated && Runs(s, es) && Calibrated(true) !in es
    ensures !Run(s, es).calibrated
    decreases |es|
  {
    hide Step, Enabled;
    if es != [] {
      assert es[0] in es;
      CalibrationStep(s, es[0]);
      UncalibratedStays(Step(s, es[0]), es[1..]);
    }
  }

  /** The flag after a step. */
  lemma CalibrationStep(s: State, e: Event)
    requires Enabled(s, e)
    ensures e.Calibrated? ==> Step(s, e).calibrated == e.ok
    ensures !e.Calibrated? && Step(s, e).calibrated ==> s.calibrated
    ensures !e.Calibrated? && !e.Drift? && !e.Round? ==> Step(s, e).calibrated == s.calibrated
    ensures e.Reference? ==> Step(s, e) == s.(addCountRef := e.addCountRef)
    ensures e.Drift? ==> (var t := Sighted(s, e.org, e.rec, e.xmt);
      Step(s, e).calibrated == (s.calibrated && !Exits(t)))
  {
    hide Elapsed, NewFreq, Near, Sec, TrainDuration, Pow, Discalibrated, Stepped;
    if e.Drift? {
      SightedCalibration(s, e.org, e.rec, e.xmt);
      SelectedCalibration(Sighted(s, e.org, e.rec, e.xmt));
      hide Sighted, Selected;
    }
    if e.Untaint? {
      UntaintedCounters(s, e);
    }
    hide Untainted;
  }

  lemma SightedCalibration(s: State, org: int, rec: int, xmt: int)
    requires s.freq != 0.0
    ensures (var s' := Sighted(s, org, rec, xmt);
      s'.calibrated == s.calibrated && s'.uninterrupted == s.uninterrupted && s'.totalAex == s.totalAex &&
      s'.tainted == s.tainted)
  {
    hide Elapsed, Near;
  }

  lemma SelectedCalibration(s: State)
    requires s.freq != 0.0 && (Exits(s) ==> TrainDuration(s) + Sec(s.offset) != 0.0)
    ensures (var s' := Selected(s);
      s'.calibrated == (s.calibrated && !Exits(s)) && s'.uninterrupted == s.uninterrupted &&
      s'.totalAex == s.totalAex && s'.tainted == s.tainted)
  {
    hide Elapsed, NewFreq, Sec, TrainDuration, Pow, TrainedFreq;
  }

  lemma UntaintedCounters(s: State, e: Event)
    requires s.freq != 0.0 && e.Untaint?
    ensures (var s' := Untainted(s, e.ip, e.from, e.count, e.views, e.org, e.rec, e.xmt);
      s'.calibrated == s.calibrated && s'.uninterrupted == s.uninterrupted && s'.totalAex == s.totalAex &&
      (s'.tainted ==> s.tainted))
  {
    hide Elapsed;
  }

  // ------------------------------------------------------------------ monitoring rounds

  /** A round with no interrupt: the hundred-and-first in a row taints the node, and any other is
      calibrated against the reference, five per cent either way. */
  lemma QuietRound(s: State, count: int)
    requires s.freq > 0.0
    ensures (var s' := Step(s, Round(s.totalAex, count));
      if s.uninterrupted >= 100 then
        s'.tainted && s'.uninterrupted == 0 && s'.totalAex == s.totalAex + 1 &&
        s'.calibrated == s.calibrated && s'.node == s.node
      else
        s'.tainted == s.tainted && s'.uninterrupted == s.uninterrupted + 1 && s'.totalAex == s.totalAex &&
        if 100 * count > 105 * s.addCountRef || 100 * count < 95 * s.addCountRef
        then !s'.calibrated && s'.node.Freq?
        else s'.calibrated == s.calibrated && s'.node == s.node)
  {
    FivePercent(count, s.addCountRef);
    hide Discalibrated, Sighted, Exits;
  }

  lemma FivePercent(count: int, ref: int)
    ensures Discalibrated(count, ref) <==> 100 * count > 105 * ref || 100 * count < 95 * ref
  {}

  /** A round in which the interrupt count moved starts the row over and judges nothing. */
  lemma InterruptedRound(s: State, tsc: int, count: int)
    requires s.freq > 0.0 && tsc >= s.tsc
    ensures Enabled(s, Aex(tsc))
    ensures (var s1 := Step(s, Aex(tsc)); var s2 := Step(s1, Round(s.totalAex, count));
      s1.tainted && s1.totalAex == s.totalAex + 1 && s1.tsc == tsc && s2.tainted && s2.uninterrupted == 0 &&
      s2.calibrated == s.calibrated && s2.node == s.node)
  {
    hide Discalibrated, Sighted, Exits;
  }

  function Rounds(es: seq<Event>): nat {
    if es == [] then 0 else (if es[0].Round? then 1 else 0) + Rounds(es[1..])
  }

  /** Whatever else happens, no interrupt does: the count mem stands at both ends of every round. */
  predicate Undisturbed(es: seq<Event>, mem: int) {
    forall i :: 0 <= i < |es| ==> !es[i].Aex? && (es[i].Round? ==> es[i].memAex == mem)
  }

  /** Up to the hundredth round in a row nothing but the row's length changes, and no flag is set. */
  lemma {:induction false} RoundsAddUp(s: State, es: seq<Event>, mem: int)
    requires Runs(s, es) && Undisturbed(es, mem) && s.totalAex == mem
    requires s.uninterrupted >= 0 && s.uninterrupted + Rounds(es) <= 100
    ensures (var s' := Run(s, es);
      s'.totalAex == mem && s'.uninterrupted == s.uninterrupted + Rounds(es) && (s'.tainted ==> s.tainted))
    decreases |es|
  {
    hide Step, Enabled;
    if es != [] {
      RoundStep(s, es[0]);
      assert forall i :: 0 <= i < |es[1..]| ==> es[1..][i] == es[i + 1];
      RoundsAddUp(Step(s, es[0]), es[1..], mem);
    }
  }

  lemma RoundStep(s: State, e: Event)
    requires Enabled(s, e) && !e.Aex? && (e.Round? ==> e.memAex == s.totalAex && s.uninterrupted < 100)
    ensures (var s' := Step(s, e);
      s'.totalAex == s.totalAex && s'.uninterrupted == s.uninterrupted + (if e.Round? then 1 else 0) &&
      (s'.tainted ==> s.tainted))
  {
    if e.Round? { QuietRound(s, e.addCount); }
    if e.Untaint? { UntaintedCounters(s, e); }
    if e.Drift? {
      SightedCalibration(s, e.org, e.rec, e.xmt);
      SelectedCalibration(Sighted(s, e.org, e.rec, e.xmt));
    }
    hide Elapsed, Monitored, Untainted, Sighted, Selected, Exits;
  }

  /** And the next one taints the node. */
  lemma SelfTaints(s: State, es: seq<Event>, mem: int, count: int)
    requires Runs(s, es) && Undisturbed(es, mem) && s.totalAex == mem && s.freq > 0.0
    requires s.uninterrupted >= 0 && s.uninterrupted + Rounds(es) == 100
    requires Enabled(Run(s, es), Round(mem, count))
    ensures Step(Run(s, es), Round(mem, count)).tainted
  {
    hide Step, Run, Runs;
    RoundsAddUp(s, es, mem);
    EnabledPositive(Run(s, es), Round(mem, count));
    QuietRound(Run(s, es), count);
  }
}
