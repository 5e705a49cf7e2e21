/** Concrete runs of a new node with an authority that answers exactly, on a counter of two cycles a
    nanosecond: what the conditions of the convergence theorems exclude does happen. */
module Witnesses {
  import opened Quorum
  import opened Clock
  import opened Phases
  import opened Monotone
  import opened Convergence
  import opened SyncConvergence
  import TR = Training
  import opened Untainting

  /** A new node at the true rate. */
  function New(port: int): State { Initial(port, 2.0, 0, 0) }

  const FIRST := Drift(0, 0, 0)

  // ------------------------------------------------------------------ putting runs together

  lemma {:induction false} RunJoin(s: State, a: seq<Event>, b: seq<Event>)
    requires Runs(s, a) && Runs(Run(s, a), b)
    ensures Runs(s, a + b) && Run(s, a + b) == Run(Run(s, a), b)
    ensures Drifts(a + b) == Drifts(a) + Drifts(b)
    decreases |a|
  {
    hide Step, Enabled;
    if a == [] {
      assert a + b == b;
    } else {
      assert (a + b)[1..] == a[1..] + b;
      RunJoin(Step(s, a[0]), a[1..], b);
    }
  }

  lemma RunOne(s: State, e: Event)
    requires Enabled(s, e)
    ensures Runs(s, [e]) && Run(s, [e]) == Step(s, e) && Drifts([e]) == if e.Drift? then 1 else 0
  {
    hide Step, Enabled;
    assert [e][1..] == [];
  }

  function Repeat(e: Event, k: nat): (es: seq<Event>)
    ensures |es| == k
  {
    if k == 0 then [] else [e] + Repeat(e, k - 1)
  }

  /** In training, messages that arrive at the moment of the last reading leave the clock alone. */
  lemma {:induction false} Idle(s: State, n: int, k: nat)
    requires s.node.Freq? && !s.enterFreq && s.poll == 2 && s.freq > 0.0 && s.pass + 4 * k < 100
    requires s.tsc == s.tscRef && s.tsRef == n
    ensures (var es := Repeat(Drift(n, n, n), k);
      Runs(s, es) && Drifts(es) == k && Run(s, es).tsc == Run(s, es).tscRef == s.tsc && Run(s, es).tsRef == n)
    decreases k
  {
    hide Step, Enabled;
    if k > 0 {
      var e := Drift(n, n, n);
      IdleStep(s, n, e);
      assert Repeat(e, k)[1..] == Repeat(e, k - 1);
      Idle(Step(s, e), n, k - 1);
    }
  }

  lemma IdleStep(s: State, n: int, e: Event)
    requires s.node.Freq? && !s.enterFreq && s.poll == 2 && s.freq > 0.0 && s.pass + 4 < 100
    requires s.tsc == s.tscRef && s.tsRef == n && e == Drift(n, n, n)
    ensures Enabled(s, e)
    ensures (var s' := Step(s, e);
      s'.node.Freq? && !s'.enterFreq && s'.poll == 2 && s'.freq == s.freq && s'.pass == s.pass + 4 &&
      s'.tsc == s'.tscRef == s.tsc && s'.tsRef == n)
  {
    Powers();
    ElapsedBounds(0, s.freq);
    SightedStep(s, n, n, n);
    hide Sighted, Pow, Elapsed;
    SelectedStep(Sighted(s, n, n, n));
    DriftIsSelected(s, e);
    hide Selected, Step;
  }

  // ------------------------------------------------------------------ a first phase

  /** The first message starts the training at time zero. */
  lemma Starts(port: int)
    ensures Enabled(New(port), FIRST) && Exact(New(port), FIRST, 0)
    ensures (var s := Step(New(port), FIRST);
      Phase(s, 1) && Timeline(s) && s.tsRef == s.trainStart == 0 && s.tsc == s.tscRef == 0 && s.freq == 2.0 &&
      !s.enterFreq && s.node.Freq? && s.poll == 2 && s.pass == 4)
  {
    var s := New(port);
    PhaseInitial(port, 2.0, 0, 0);
    ElapsedBounds(0, 2.0);
    hide Elapsed;
    SightedStep(s, 0, 0, 0);
    PhaseStep(s, 0, FIRST);
    TR.TrainingStarts(s, 0, FIRST, 0);
    hide Step, Sighted;
  }

  /** All the events of the phase: the first message, four cycles in which the clock reaches n, and 24
      messages at their end, the last of them with the true time. */
  function PhaseRun25(pre: seq<Event>, n: int): seq<Event> {
    [FIRST] + (pre + Repeat(Drift(n, n, n), 23) + [Drift(n, 2, 2)])
  }

  /** The phase leaves a settled node with the frequency n, where 2 is true. */
  lemma Trains(port: int, pre: seq<Event>, n: int)
    requires Enabled(New(port), FIRST) && Runs(Step(New(port), FIRST), pre) && Drifts(pre) == 0
    requires (var s := Run(Step(New(port), FIRST), pre); s.tsc == s.tscRef == 4 && s.tsRef == n)
    ensures Runs(New(port), PhaseRun25(pre, n))
    ensures (var s := Run(New(port), PhaseRun25(pre, n));
      Settled(s) && s.freq == n as real && s.tsc == s.tscRef == 4 && s.tsRef == 2)
  {
    hide Step, Run, Runs, Exact, Timeline, PhaseRun25, Repeat, Settled, Lag, Phase, CoastsAll, New;
    Starts(port);
    NewIs(port);
    var s0 := Step(New(port), FIRST);
    var s1 := Run(s0, pre);
    PhaseRun(s0, 1, pre);
    StillFreq(s1, 1);
    TR.TrainingCoasts(s0, 1, pre);
    CoastRun(s0, pre);
    var rep := Repeat(Drift(n, n, n), 23);
    Idle(s1, n, 23);
    RunJoin(s0, pre, rep);
    var mid := pre + rep;
    var s2, last := Run(s0, mid), Drift(n, 2, 2);
    TrainsToEnd(port, mid, n);
    RunOne(s2, last);
    RunJoin(s0, mid, [last]);
    RunOne(New(port), FIRST);
    RunJoin(New(port), [FIRST], mid + [last]);
    Assemble(pre, n);
  }

  /** The last message, after 23 others in the middle. */
  lemma TrainsToEnd(port: int, mid: seq<Event>, n: int)
    requires Enabled(New(port), FIRST) && Runs(Step(New(port), FIRST), mid) && Drifts(mid) == 23
    requires (var s := Run(Step(New(port), FIRST), mid); s.tsc == s.tscRef == 4 && s.tsRef == n)
    ensures (var s := Run(Step(New(port), FIRST), mid);
      Enabled(s, Drift(n, 2, 2)) && var s' := Step(s, Drift(n, 2, 2));
      Settled(s') && s'.freq == n as real && s'.tsc == s'.tscRef == 4 && s'.tsRef == 2)
  {
    hide Step, Run, Runs, Timeline, Settled, Lag, WholeReadings, AllStamps, Within, Exact, Exits, New, Phase, CoastsAll;
    Starts(port);
    NewIs(port);
    var s0 := Step(New(port), FIRST);
    var s := Run(s0, mid);
    PhaseRun(s0, 1, mid);
    StillFreq(s, 24);
    TR.TrainingCoasts(s0, 1, mid);
    CoastRun(s0, mid);
    LastAnswer(s, n);
    TR.TrainingFindsRate(New(port), 0, FIRST, mid, Drift(n, 2, 2), 0, 2, 2.0);
    LagIs(s0, Read(s));
  }

  lemma StillFreq(s: State, n: nat)
    requires Phase(s, n) && 1 <= n <= 24
    ensures s.node.Freq? && !s.enterFreq && s.poll == 2 && s.pass == 4 * n
  {}

  lemma LastAnswer(s: State, n: int)
    requires s.freq == 2.0 && s.node.Freq? && s.tsc == s.tscRef && s.tsRef == n && s.trainStart == 0
    ensures Enabled(s, Drift(n, 2, 2)) && Exact(s, Drift(n, 2, 2), 2)
    ensures Read(s).tsRef == n && Read(s).tscRef == s.tsc
  {
    ElapsedBounds(0, 2.0);
    SightedStep(s, n, 2, 2);
    hide Sighted, Elapsed, Exits;
  }

  lemma Assemble(pre: seq<Event>, n: int)
    ensures PhaseRun25(pre, n) == [FIRST] + (pre + Repeat(Drift(n, n, n), 23) + [Drift(n, 2, 2)])
  {}

  lemma NewIs(port: int)
    ensures (var s := New(port);
      s.poll == 2 && s.tsc == 0 && s.freq == 2.0 && s.node.Freq? && s.enterFreq && Phase(s, 0) && Timeline(s))
  {}

  // ------------------------------------------------------------------ what happens

  /** A phase in which one reading falls after half a nanosecond, and the next after one and a half,
      ends with half the true rate: the loss is large because the training is short. */
  lemma FreqExitMisses(port: int)
    ensures (var es := PhaseRun25([Tick(1), Forced, Tick(4), Forced], 1);
      Runs(New(port), es) && Run(New(port), es).freq == 1.0)
  {
    Starts(port);
    var s := Step(New(port), FIRST);
    hide Step, PhaseRun25;
    HalfReadings(s);
    Trains(port, [Tick(1), Forced, Tick(4), Forced], 1);
  }

  lemma HalfReadings(s: State)
    requires s.freq == 2.0 && s.tsc == s.tscRef == 0 && s.tsRef == 0
    ensures (var es := [Tick(1), Forced, Tick(4), Forced];
      Runs(s, es) && Drifts(es) == 0 && var s' := Run(s, es); s'.tsc == s'.tscRef == 4 && s'.tsRef == 1)
  {
    var s1 := s.(tsc := 1);
    var s2, s3 := s1.(tscRef := 1), s1.(tsc := 4);
    Ticks(s, 1);
    ReadHalf(s1);
    Reads(s1);
    Ticks(s2, 4);
    var s4 := s2.(tsc := 4);
    ReadThreeHalves(s4);
    ReadTscRef(s4);
    Reads(s4);
    hide Step, Enabled, Read;
    ThreeSteps(s, Tick(1), Forced, Tick(4));
    NoDrifts(Tick(1), Forced, Tick(4));
    RunOne(s4, Forced);
    RunJoin(s, [Tick(1), Forced, Tick(4)], [Forced]);
    assert [Tick(1), Forced, Tick(4)] + [Forced] == [Tick(1), Forced, Tick(4), Forced];
  }

  /** And from a phase with whole readings, which finds the true rate, a node reaches the settled state
      whose next gap loses a nanosecond and the rate with it. */
  lemma LossIsReachable(port: int)
    ensures (var es := PhaseRun25([Tick(4), Forced], 2);
      Runs(New(port), es) && var s := Run(New(port), es); var g := HalfGap(s);
      Settled(s) && s.freq == 2.0 && Fair(s, g, 2.0) && After(s, g, 2.0).freq < 2.0)
  {
    Starts(port);
    var s := Step(New(port), FIRST);
    hide Step, PhaseRun25, Fair, After;
    WholeReading(s);
    Trains(port, [Tick(4), Forced], 2);
    LostNanosecond(Run(New(port), PhaseRun25([Tick(4), Forced], 2)));
  }

  lemma WholeReading(s: State)
    requires s.freq == 2.0 && s.tsc == s.tscRef == 0 && s.tsRef == 0
    ensures (var es := [Tick(4), Forced];
      Runs(s, es) && Drifts(es) == 0 && var s' := Run(s, es); s'.tsc == s'.tscRef == 4 && s'.tsRef == 2)
  {
    var s1 := s.(tsc := 4);
    Ticks(s, 4);
    Reads(s1);
    ElapsedBounds(4, 2.0);
    assert Read(s1).tsRef == 2 && Read(s1).tscRef == 4;
    hide Step, Enabled, Read;
    RunOne(s, Tick(4));
    RunOne(s1, Forced);
    RunJoin(s, [Tick(4)], [Forced]);
    assert [Tick(4)] + [Forced] == [Tick(4), Forced];
  }

  // ------------------------------------------------------------------ a replay that clears

  const ANSWER := Untaint("a", 1, 1, true, 0, 0, 0)

  /** A node with two siblings, one of which has answered once. */
  function Answered(port: int): State {
    New(port).(siblings := [Peer("a", 1, 1, true, true), Peer("b", 2, 0, false, false)])
  }

  /** Two siblings join, one of them answers, an interrupt taints the node, and the same answer again
      clears the taint. */
  lemma ReplayIsReachable(port: int)
    ensures (var es := [Sibling("a", 1), Sibling("b", 2), ANSWER] + [Aex(0), ANSWER];
      Runs(New(port), es) && !Run(New(port), es).tainted &&
      Runs(New(port), [Sibling("a", 1), Sibling("b", 2), ANSWER]) &&
      Run(New(port), [Sibling("a", 1), Sibling("b", 2), ANSWER]) == Answered(port) &&
      Enabled(Answered(port), Aex(0)) && Step(Answered(port), Aex(0)).tainted)
  {
    Answers(port);
    AnsweredFacts(port);
    hide Step, Enabled, New, HasQuorum, IndexOf, Distinct;
    TaintThenReplay(Answered(port), 0, ANSWER);
    RunJoin(New(port), [Sibling("a", 1), Sibling("b", 2), ANSWER], [Aex(0), ANSWER]);
  }

  lemma AnsweredFacts(port: int)
    ensures (var s := Answered(port);
      s.freq == 2.0 && s.tsc == 0 && !s.tainted && Distinct(s.siblings) && HasQuorum(s.siblings) &&
      IndexOf(s.siblings, "a", 1) < |s.siblings| &&
      forall j :: 0 <= j < |s.siblings| && At(s.siblings[j], "a", 1) ==> 1 <= s.siblings[j].count)
  {
    var ps := Answered(port).siblings;
    assert "a"[0] != "b"[0];
    assert At(ps[0], "a", 1);
    CountsOfTwo(ps[0], ps[1]);
    assert ps == [ps[0], ps[1]];
    assert Quorate(ps, 1);
  }

  lemma CountsOfTwo(p: Peer, q: Peer)
    requires p.count == 1 && p.consistent && p.views
    ensures Count([p, q], Agrees(1)) >= 1 && Count([p, q], Views()) >= 1 && Count([p, q], Both(1)) >= 0
  {
    assert [p, q][..1] == [p] && [p][..0] == [];
  }

  lemma Answers(port: int)
    ensures (var es := [Sibling("a", 1), Sibling("b", 2), ANSWER];
      Runs(New(port), es) && Run(New(port), es) == Answered(port))
  {
    var s := New(port);
    var a, b := Fresh("a", 1), Fresh("b", 2);
    assert "a"[0] != "b"[0];
    var s1, s2 := s.(siblings := [a]), s.(siblings := [a, b]);
    FirstJoins(a, b);
    assert Step(s, Sibling("a", 1)) == s1;
    assert Step(s1, Sibling("b", 2)) == s2;
    AnswerRecorded(s2);
    hide Step, IndexOf, Joined, New;
    ThreeSteps(s, Sibling("a", 1), Sibling("b", 2), ANSWER);
  }

  lemma FirstJoins(a: Peer, b: Peer)
    requires a == Fresh("a", 1) && b == Fresh("b", 2) && "a" != "b"
    ensures Joined([], "a", 1) == [a] && Joined([a], "b", 2) == [a, b] && IndexOf([a, b], "a", 1) == 0
  {
    assert [a][1..] == [];
  }

  lemma AnswerRecorded(s: State)
    requires s == New(s.port).(siblings := [Fresh("a", 1), Fresh("b", 2)]) && IndexOf(s.siblings, "a", 1) == 0
    ensures Enabled(s, ANSWER) && Step(s, ANSWER) == Answered(s.port)
  {
    ElapsedBounds(0, 2.0);
    hide IndexOf, Elapsed, Cleared, Highest;
  }
}
