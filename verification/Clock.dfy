/** The node's clock as a state machine: one atomic step for each thing that can happen to it. The
    time scale is integer nanoseconds, a double is a real, and the time stamp counter is an integer.
    The FREQ, SYNC and SPIK states and the discipline are those of sections 8 and 11.3 of RFC 5905. */
module Clock {
  import opened Quorum
  import T = Timespecs

  const STEP_OUT_THRESHOLD_S := 100
  const STEP_THRESHOLD_NS := 128_000_000
  const CLOCK_FLOOR_NS := 500_000
  const MAX_DRIFT_RATE := 0.000015
  const MIN_POLL_EXPONENT: nat := 6
  const ALLAN_INTERCEPT: nat := 11
  const CLOCK_PLL := 0.5
  const CLOCK_FLL := 0.25
  const PEER_CONSISTENCY_DRIFT_THRESHOLD_NS := 500_000
  const SELFTAINTING_ROUNDS := 100
  const ACCURACY := 0.05

  datatype NodeState = Sync | Spik | Freq

  /** The fields of a node, with the statics of its functions. */
  datatype State = State(
    port: int, stop: bool,
    node: NodeState, consistent: bool,
    offset: int, poll: nat,
    calibrated: bool, tainted: bool,
    totalAex: int, uninterrupted: int, addCount: int, addCountRef: int,
    tsc: int, tscRef: int, lastUpdate: int, freq: real, tsRef: int,
    pass: int, enterFreq: bool, trainStart: int,
    siblings: seq<Peer>)

  /** What can happen. A message carries its timespecs as nanoseconds. */
  datatype Event =
    | Tick(tsc: int)
    | Aex(tsc: int)
    | Round(memAex: int, addCount: int)
    | Reference(addCountRef: int)
    | Calibrated(ok: bool)
    | Forced
    | Unforced(memTsc: int)
    | Drift(org: int, rec: int, xmt: int)
    | Untaint(ip: string, from: int, count: int, views: bool, org: int, rec: int, xmt: int)
    | Taint(ip: string, from: int)
    | Sibling(ip: string, from: int)
    | AddSibling(hostname: string, newPort: int)
    | Ignore
    | Halt

  /** A node as it starts to monitor. */
  function Initial(port: int, freq: real, ts: int, tsc: int): State {
    State(port, false, Freq, false, 0, 2, false, false, 0, 0, 0, 0, tsc, tsc, tsc, freq, ts, 0, true, 0, [])
  }

  // ------------------------------------------------------------------ reading the clock

  /** Cycles to whole nanoseconds. */
  function Elapsed(cycles: int, freq: real): int
    requires freq != 0.0
  {
    T.Trunc(cycles as real / freq)
  }

  function Sec(ns: int): real { ns as real / 1000000000.0 }

  function Pow(k: nat): nat { if k == 0 then 1 else 2 * Pow(k - 1) }

  /** get_timestamp once it no longer waits: the clock moves to now. */
  function Read(s: State): State
    requires s.freq != 0.0
  {
    s.(tsRef := s.tsRef + Elapsed(s.tsc - s.tscRef, s.freq), tscRef := s.tsc)
  }

  /** An unforced read goes through only when the node trusts its clock, or is stopping. */
  predicate Serves(s: State, memTsc: int) {
    (s.calibrated && s.consistent && !s.tainted && memTsc != s.tsc && s.tsc >= s.tscRef) || s.stop
  }

  // ------------------------------------------------------------------ adjusting the clock

  /** step_clock */
  function Stepped(s: State): State {
    s.(tsRef := s.tsRef + s.offset, offset := 0, lastUpdate := s.tsc)
  }

  function Max(a: real, b: real): real { if a < b then b else a }

  function Min(a: real, b: real): real { if b < a then b else a }

  /** The frequency-locked correction, by an offset and a time since the last update in seconds. */
  function FrequencyLocked(poll: nat, offset: real, mu: real): real {
    PowPositive(poll);
    offset / (Max(Pow(poll) as real, mu) * CLOCK_FLL)
  }

  /** The phase-locked one. */
  function PhaseLocked(poll: nat, offset: real, mu: real): real {
    PowPositive(poll);
    var dtemp := 4.0 * CLOCK_PLL * Pow(poll) as real;
    Nonzero(dtemp);
    var etemp := Min(Pow(ALLAN_INTERCEPT) as real, mu);
    offset * etemp / (dtemp * dtemp)
  }

  /** The frequency that discipline_clock sets: frequency-locked from the Allan intercept on, and
      always phase-locked. */
  function Corrected(freq: real, poll: nat, offset: real, mu: real): real {
    (if poll >= ALLAN_INTERCEPT then freq - FrequencyLocked(poll, offset, mu) else freq) - PhaseLocked(poll, offset, mu)
  }

  lemma Nonzero(x: real)
    requires x > 0.0
    ensures x * x != 0.0
  {}

  function NewFreq(freq: real, poll: nat, offset: int, mu: int): real {
    Corrected(freq, poll, Sec(offset), Sec(mu))
  }

  lemma {:induction false} PowPositive(k: nat)
    ensures Pow(k) >= 1
  {
    if k > 0 { PowPositive(k - 1); }
  }

  /** discipline_clock */
  function Disciplined(s: State): State
    requires s.freq != 0.0
  {
    var mu := Elapsed(s.tsc - s.lastUpdate, s.freq);
    var s1 := s.(freq := NewFreq(s.freq, s.poll, s.offset, mu));
    var s2 := if s1.offset > 0 then Stepped(s1) else s1;
    s2.(lastUpdate := s2.tsc)
  }

  /** In FREQ, this message ends the training. */
  predicate Exits(s: State) {
    s.node.Freq? && !s.enterFreq && s.pass + Pow(s.poll) >= STEP_OUT_THRESHOLD_S
  }

  function TrainDuration(s: State): real { Sec(s.tsRef - s.trainStart) }

  /** A D message in SPIK: a small offset or enough time ends the spike, the latter with a step. */
  function Spiked(s: State): State {
    var pass := s.pass + Pow(s.poll);
    if s.offset <= CLOCK_FLOOR_NS then s.(pass := 0, node := Sync)
    else if pass >= STEP_OUT_THRESHOLD_S then Stepped(s.(pass := pass)).(pass := 0, node := Sync)
    else s.(pass := pass)
  }

  /** The first D message of a FREQ phase steps the clock and starts the training. */
  function Entered(s: State): State {
    var s1 := Stepped(s);
    s1.(trainStart := s1.tsRef, enterFreq := false)
  }

  /** The frequency times the training's duration over the duration and the offset it gathered. */
  function TrainedFreq(s: State): real
    requires TrainDuration(s) + Sec(s.offset) != 0.0
  {
    s.freq * (TrainDuration(s) / (TrainDuration(s) + Sec(s.offset)))
  }

  /** The last one sets the frequency by the offset gathered since. */
  function Exited(s: State): State
    requires TrainDuration(s) + Sec(s.offset) != 0.0
  {
    Released(Stepped(s.(freq := TrainedFreq(s))))
  }

  /** Out of FREQ, to be calibrated again. */
  function Released(s: State): State {
    s.(calibrated := false, pass := 0, node := Sync, poll := MIN_POLL_EXPONENT, enterFreq := true)
  }

  /** A D message in FREQ. */
  function Trained(s: State): State
    requires s.node.Freq?
    requires Exits(s) ==> TrainDuration(s) + Sec(s.offset) != 0.0
  {
    var s1 := s.(pass := s.pass + Pow(s.poll));
    if s.enterFreq then Entered(s1)
    else if s1.pass >= STEP_OUT_THRESHOLD_S then Exited(s1)
    else s1
  }

  /** select_clock. The training's ratio must not divide by zero. */
  function Selected(s: State): State
    requires s.freq != 0.0
    requires Exits(s) ==> TrainDuration(s) + Sec(s.offset) != 0.0
  {
    match s.node
    case Sync => Disciplined(s)
    case Spik => Spiked(s)
    case Freq => Trained(s)
  }

  // ------------------------------------------------------------------ messages

  /** (rec - org + xmt - recv) / 2, rounded down */
  function OffsetOf(org: int, rec: int, xmt: int, recv: int): int { (rec - org + xmt - recv) / 2 }

  /** The first half of the D handler: read the clock, compute the offset, judge it. */
  function Sighted(s: State, org: int, rec: int, xmt: int): State
    requires s.freq != 0.0
  {
    var s1 := Read(s);
    Judged(s1.(offset := OffsetOf(org, rec, xmt, s1.tsRef)))
  }

  /** A large offset is a spike; outside FREQ the offset decides whether the node is consistent. */
  function Judged(s: State): State {
    var s1 := if s.node.Sync? && s.offset >= STEP_THRESHOLD_NS then s.(node := Spik) else s;
    if s1.node.Freq? then s1 else s1.(consistent := Near(s1.offset, s1.poll))
  }

  /** fabs(to_double(clock_offset)) <= MAX_DRIFT_RATE * pow(2, poll_exponent) */
  predicate Near(offset: int, poll: nat) {
    -MAX_DRIFT_RATE * Pow(poll) as real <= Sec(offset) <= MAX_DRIFT_RATE * Pow(poll) as real
  }

  function Drifted(s: State, org: int, rec: int, xmt: int): State
    requires s.freq != 0.0
    requires var s' := Sighted(s, org, rec, xmt); Exits(s') ==> TrainDuration(s') + Sec(s'.offset) != 0.0
  {
    Selected(Sighted(s, org, rec, xmt))
  }

  /** The U handler: judge the sibling's answer, record it unless it is old, count, perhaps clear. */
  function Untainted(s: State, ip: string, from: int, count: int, views: bool, org: int, rec: int, xmt: int): State
    requires s.freq != 0.0
  {
    var i := IndexOf(s.siblings, ip, from);
    if i == |s.siblings| then s else
      var recv := s.tsRef + Elapsed(s.tsc - s.tscRef, s.freq);
      var close := OffsetOf(org, rec, xmt, recv) < PEER_CONSISTENCY_DRIFT_THRESHOLD_NS;
      var ps := Recorded(s.siblings, i, count, close, views);
      s.(siblings := ps, tainted := s.tainted && !Cleared(ps, Highest(ps, count)))
  }

  // ------------------------------------------------------------------ the monitor

  /** The end of monitor_rdtsc: a round with no interrupt counts towards self-tainting, and otherwise
      its number of increments is compared with the reference. */
  function Monitored(s: State, memAex: int, addCount: int): State {
    Checked(Counted(s, memAex, addCount), memAex)
  }

  function Counted(s: State, memAex: int, addCount: int): State {
    var rounds := if s.totalAex == memAex then s.uninterrupted + 1 else 0;
    if rounds > SELFTAINTING_ROUNDS
    then s.(addCount := addCount, uninterrupted := 0, totalAex := s.totalAex + 1, tainted := true)
    else s.(addCount := addCount, uninterrupted := rounds)
  }

  function Checked(s: State, memAex: int): State {
    if s.totalAex == memAex && Discalibrated(s.addCount, s.addCountRef)
    then s.(calibrated := false, node := Freq) else s
  }

  predicate Discalibrated(addCount: int, addCountRef: int) {
    addCount as real > addCountRef as real * (1.0 + ACCURACY) ||
    (addCount as real) < addCountRef as real * (1.0 - ACCURACY)
  }

  // ------------------------------------------------------------------ steps

  /** The time stamp counter does not go back, the frequency is positive, and no ratio divides by
      zero. */
  predicate Enabled(s: State, e: Event) {
    s.freq > 0.0 &&
    match e
    case Tick(tsc) => tsc >= s.tsc
    case Aex(tsc) => tsc >= s.tsc
    case Drift(org, rec, xmt) =>
      var s' := Sighted(s, org, rec, xmt);
      Exits(s') ==> TrainDuration(s') + Sec(s'.offset) != 0.0
    case _ => true
  }

  function Step(s: State, e: Event): State
    requires Enabled(s, e)
  {
    match e
    case Tick(tsc) => s.(tsc := tsc)
    case Aex(tsc) => s.(tainted := true, totalAex := s.totalAex + 1, tsc := tsc)
    case Round(memAex, addCount) => Monitored(s, memAex, addCount)
    case Reference(ref) => s.(addCountRef := ref)
    case Calibrated(ok) => s.(calibrated := ok)
    case Forced => Read(s)
    case Unforced(memTsc) => if Serves(s, memTsc) then Read(s) else s
    case Drift(org, rec, xmt) => Drifted(s, org, rec, xmt)
    case Untaint(ip, from, count, views, org, rec, xmt) => Untainted(s, ip, from, count, views, org, rec, xmt)
    case Taint(ip, from) => if IndexOf(s.siblings, ip, from) < |s.siblings| && s.consistent then Read(Read(s)) else s
    case Sibling(ip, from) => s.(siblings := Joined(s.siblings, ip, from))
    case AddSibling(hostname, newPort) =>
      if hostname == "127.0.0.1" && newPort == s.port then s else s.(siblings := Joined(s.siblings, hostname, newPort))
    case Ignore => s
    case Halt => s.(stop := true)
  }

  /** The timestamps that the step reads off the clock. */
  function Stamps(s: State, e: Event): seq<int>
    requires Enabled(s, e)
  {
    match e
    case Forced => [Read(s).tsRef]
    case Unforced(memTsc) => if Serves(s, memTsc) then [Read(s).tsRef] else []
    case Drift(org, rec, xmt) => [Read(s).tsRef]
    case Taint(ip, from) =>
      if IndexOf(s.siblings, ip, from) < |s.siblings| && s.consistent then [Read(s).tsRef, Read(Read(s)).tsRef] else []
    case _ => []
  }

  /** A run takes enabled steps only. */
  predicate Runs(s: State, es: seq<Event>)
    decreases |es|
  {
    es == [] || (Enabled(s, es[0]) && Runs(Step(s, es[0]), es[1..]))
  }

  function Run(s: State, es: seq<Event>): State
    requires Runs(s, es)
    decreases |es|
  {
    if es == [] then s else Run(Step(s, es[0]), es[1..])
  }

  /** The number of D messages in a run. */
  function Drifts(es: seq<Event>): nat {
    if es == [] then 0 else (if es[0].Drift? then 1 else 0) + Drifts(es[1..])
  }

  // ------------------------------------------------------------------ what a step leaves alone

  /** What only D messages touch; a monitoring round may still send the node back to FREQ. */
  predicate Kept(s: State, s': State) {
    (s'.node == s.node || s'.node.Freq?) && s'.poll == s.poll && s'.pass == s.pass && s'.enterFreq == s.enterFreq &&
    s'.consistent == s.consistent && s'.offset == s.offset && s'.freq == s.freq && s'.trainStart == s.trainStart &&
    s'.lastUpdate == s.lastUpdate
  }

  /** The clock after n readings at the same instant. */
  predicate Advanced(s: State, s': State, n: nat)
    requires s.freq != 0.0
  {
    s'.tsc == s.tsc && s'.tscRef == (if n > 0 then s.tsc else s.tscRef) &&
    s'.tsRef == s.tsRef + (if n > 0 then Elapsed(s.tsc - s.tscRef, s.freq) else 0) +
                          (if n > 1 then Elapsed(0, s.freq) else 0)
  }

  lemma KeptMonitored(s: State, memAex: int, addCount: int)
    requires s.freq != 0.0
    ensures Kept(s, Monitored(s, memAex, addCount)) && Advanced(s, Monitored(s, memAex, addCount), 0)
    ensures Monitored(s, memAex, addCount).siblings == s.siblings
    ensures s.tainted ==> Monitored(s, memAex, addCount).tainted
  {
    hide Discalibrated, Elapsed;
  }

  lemma KeptUntainted(s: State, ip: string, from: int, count: int, views: bool, org: int, rec: int, xmt: int)
    requires s.freq != 0.0
    ensures (var s' := Untainted(s, ip, from, count, views, org, rec, xmt); Kept(s, s') && Advanced(s, s', 0))
  {
    hide Elapsed, Recorded, IndexOf, Cleared, Highest;
  }

  lemma KeptRead(s: State)
    requires s.freq != 0.0
    ensures Kept(s, Read(s)) && Advanced(s, Read(s), 1) && Kept(s, Read(Read(s))) && Advanced(s, Read(Read(s)), 2)
    ensures Read(s).siblings == Read(Read(s)).siblings == s.siblings
    ensures Read(s).tainted == Read(Read(s)).tainted == s.tainted
  {
    hide Elapsed;
  }

  lemma KeptJoined(s: State, ps: seq<Peer>)
    requires s.freq != 0.0
    ensures Kept(s, s.(siblings := ps)) && Advanced(s, s.(siblings := ps), 0)
  {
    hide Elapsed;
  }

  /** The step reads the clock once for each timestamp it returns and, without a D message, does
      nothing else to it. */
  lemma QuietStep(s: State, e: Event)
    requires Enabled(s, e) && !e.Drift?
    ensures Kept(s, Step(s, e)) && |Stamps(s, e)| <= 2
    ensures e.Tick? || e.Aex? || Advanced(s, Step(s, e), |Stamps(s, e)|)
    ensures e.Tick? || e.Aex? ==> Advanced(s.(tsc := Step(s, e).tsc), Step(s, e), 0) && Stamps(s, e) == []
    ensures Step(s, e).tsc >= s.tsc
  {
    hide Elapsed, Monitored, Untainted, Read, Joined, IndexOf, Sighted, Drifted, Exits, Serves;
    KeptRead(s);
    match e
    case Round(memAex, addCount) => KeptMonitored(s, memAex, addCount);
    case Untaint(ip, from, count, views, org, rec, xmt) => KeptUntainted(s, ip, from, count, views, org, rec, xmt);
    case Sibling(ip, from) => KeptJoined(s, Joined(s.siblings, ip, from));
    case AddSibling(hostname, newPort) => KeptJoined(s, Joined(s.siblings, hostname, newPort));
    case _ =>
  }

  /** The timestamps themselves. */
  lemma StampValues(s: State, e: Event)
    requires Enabled(s, e)
    ensures |Stamps(s, e)| <= 2
    ensures |Stamps(s, e)| > 0 ==> Stamps(s, e)[0] == s.tsRef + Elapsed(s.tsc - s.tscRef, s.freq)
    ensures |Stamps(s, e)| > 1 ==> Stamps(s, e)[1] == Stamps(s, e)[0] + Elapsed(0, s.freq)
    ensures e.Drift? ==> |Stamps(s, e)| == 1
  {
    KeptRead(s);
    hide Elapsed, Read, IndexOf, Sighted, Exits, Serves;
  }

  /** The first half of the D handler reads the clock once and leaves the training alone. */
  lemma SightedStep(s: State, org: int, rec: int, xmt: int)
    requires s.freq != 0.0
    ensures (var s' := Sighted(s, org, rec, xmt);
      Advanced(s, s', 1) && s'.freq == s.freq && s'.poll == s.poll && s'.pass == s.pass &&
      s'.enterFreq == s.enterFreq && s'.trainStart == s.trainStart && s'.lastUpdate == s.lastUpdate &&
      (s'.node.Freq? <==> s.node.Freq?) && (s'.node.Freq? ==> s'.consistent == s.consistent) &&
      (s'.node.Sync? ==> s.node.Sync? && s'.offset < STEP_THRESHOLD_NS) &&
      (s'.node.Spik? && s.node.Sync? ==> s'.offset >= STEP_THRESHOLD_NS) &&
      s'.offset == OffsetOf(org, rec, xmt, s'.tsRef) &&
      s'.siblings == s.siblings && s'.tainted == s.tainted)
  {
    hide Elapsed, Near;
  }

  lemma SteppedStep(s: State)
    ensures (var s' := Stepped(s);
      s'.tsRef == s.tsRef + s.offset && s'.offset == 0 && s'.lastUpdate == s.tsc && s'.freq == s.freq && Alike(s, s'))
  {}

  /** The same outside the clock reading, the offset, the frequency and the discipline's fields. */
  predicate Alike(s: State, s': State) {
    s'.tsc == s.tsc && s'.tscRef == s.tscRef && s'.siblings == s.siblings && s'.tainted == s.tainted &&
    s'.consistent == s.consistent && s'.node == s.node && s'.poll == s.poll && s'.pass == s.pass &&
    s'.enterFreq == s.enterFreq
  }

  lemma DisciplinedStep(s: State)
    requires s.freq != 0.0
    ensures (var s' := Disciplined(s);
      s'.tsRef == s.tsRef + (if s.offset > 0 then s.offset else 0) && s'.lastUpdate == s.tsc &&
      s'.freq == NewFreq(s.freq, s.poll, s.offset, Elapsed(s.tsc - s.lastUpdate, s.freq)) && Alike(s, s'))
  {
    hide NewFreq, Elapsed;
  }

  /** What the second half never touches. */
  predicate Beside(s: State, s': State) {
    s'.tsc == s.tsc && s'.tscRef == s.tscRef && (s'.lastUpdate == s.lastUpdate || s'.lastUpdate == s.tsc) &&
    s'.siblings == s.siblings && s'.tainted == s.tainted && s'.consistent == s.consistent
  }

  lemma SpikedStep(s: State)
    ensures Spiked(s).tsRef >= s.tsRef && Beside(s, Spiked(s))
  {
    SteppedStep(s.(pass := s.pass + Pow(s.poll)));
    hide Stepped, Pow;
  }

  lemma TrainedStep(s: State)
    requires s.node.Freq?
    requires Exits(s) ==> TrainDuration(s) + Sec(s.offset) != 0.0
    ensures Beside(s, Trained(s))
    ensures !s.enterFreq && !Exits(s) ==> Trained(s) == s.(pass := s.pass + Pow(s.poll))
  {
    var s1 := s.(pass := s.pass + Pow(s.poll));
    EnteredStep(s1);
    if Exits(s) { ExitedStep(s1); }
    hide Entered, Exited, Sec, TrainDuration, Pow;
  }

  lemma EnteredStep(s: State)
    ensures (var s' := Entered(s);
      Beside(s, s') && s'.tsRef == s.tsRef + s.offset == s'.trainStart && s'.freq == s.freq && !s'.enterFreq &&
      s'.node == s.node && s'.poll == s.poll && s'.pass == s.pass)
  {
    SteppedStep(s);
    hide Stepped;
  }

  lemma ExitedStep(s: State)
    requires TrainDuration(s) + Sec(s.offset) != 0.0
    ensures (var s' := Exited(s);
      Beside(s, s') && s'.lastUpdate == s.tsc && s'.tsRef == s.tsRef + s.offset && s'.node.Sync? && s'.pass == 0 && s'.poll == 6 && s'.enterFreq &&
      s'.freq == s.freq * (TrainDuration(s) / (TrainDuration(s) + Sec(s.offset))))
  {
    SteppedStep(s.(freq := TrainedFreq(s)));
    hide Stepped, TrainDuration, Sec;
  }

  /** The second half moves the clock only by stepping it, and forward only outside FREQ. */
  lemma SelectedStep(s: State)
    requires s.freq != 0.0 && (Exits(s) ==> TrainDuration(s) + Sec(s.offset) != 0.0)
    ensures Beside(s, Selected(s)) && (!s.node.Freq? ==> Selected(s).tsRef >= s.tsRef)
    ensures s.node.Freq? && !s.enterFreq && !Exits(s) ==> Selected(s) == s.(pass := s.pass + Pow(s.poll))
  {
    hide Disciplined, Spiked, Trained, Elapsed, NewFreq, Sec, TrainDuration, Pow, Exits;
    match s.node
    case Sync => DisciplinedStep(s);
    case Spik => SpikedStep(s);
    case Freq => TrainedStep(s);
  }
}
