/** What a D message does to the clock and to the node's opinion of it, and what an untainting message
    does to its sender's record, in terms of the authority's and the sibling's clocks. */
module Moves {
  import opened Quorum
  import opened Clock
  import opened Phases
  import opened Convergence
  import opened Monotone

  // ------------------------------------------------------------------ the offset

  /** A server whose clock is theta ahead, with any delays: the offset the handler stores is within half
      the round trip, plus one nanosecond, of theta. */
  lemma OffsetSeen(s: State, org: int, theta: int, out: nat, stay: nat, back: nat)
    requires s.freq != 0.0 && Read(s).tsRef == org + out + stay + back
    ensures (var t := Sighted(s, org, org + out + theta, org + out + theta + stay);
      t.offset == theta + (out - back) / 2 && 2 * theta - (out + back) - 2 <= 2 * t.offset <= 2 * theta + (out + back))
  {
    SightedStep(s, org, org + out + theta, org + out + theta + stay);
    hide Sighted, Read;
  }

  // ------------------------------------------------------------------ what a D message does

  /** Where the clock stands after a D message, r being what it read and x the offset: stepped by x when
      a training starts or ends, when x is positive in SYNC and no spike, and when x is above half a
      millisecond in SPIK; not moved otherwise. */
  lemma DriftMoves(s: State, n: nat, e: Event)
    requires Phase(s, n) && Enabled(s, e) && e.Drift?
    ensures (var r := Read(s).tsRef; var x := OffsetOf(e.org, e.rec, e.xmt, r); var s' := Step(s, e);
      s'.tsRef == r + match s.node
        case Freq => (if s.enterFreq || s'.node.Sync? then x else 0)
        case Sync => (if 0 < x < 128_000_000 then x else 0)
        case Spik => (if x > 500_000 then x else 0))
    ensures (var x := OffsetOf(e.org, e.rec, e.xmt, Read(s).tsRef); var s' := Step(s, e);
      match s.node
      case Freq => s'.node.Freq? || s'.node.Sync?
      case Sync => if x >= 128_000_000 then s'.node.Spik? else s'.node.Sync?
      case Spik => s'.node.Sync?)
  {
    var t := Sighted(s, e.org, e.rec, e.xmt);
    Powers();
    SightedStep(s, e.org, e.rec, e.xmt);
    DriftIsSelected(s, e);
    PhaseSighted(s, n, e.org, e.rec, e.xmt);
    hide Sighted, Step, Enabled, Pow, Elapsed, Sec, TrainDuration, NewFreq;
    match t.node
    case Sync => SyncMoves(t);
    case Spik => SpikeMoves(t);
    case Freq => FreqMoves(t); FreqEnds(t);
  }

  lemma SyncMoves(s: State)
    requires s.node.Sync? && s.freq != 0.0
    ensures Selected(s).tsRef == s.tsRef + (if s.offset > 0 then s.offset else 0) && Selected(s).node.Sync?
  {
    DisciplinedStep(s);
    hide Disciplined;
  }

  lemma SpikeMoves(s: State)
    requires s.node.Spik? && s.freq != 0.0 && s.poll == 6 && (s.pass == 64 || (s.pass == 0 && s.offset > 500_000))
    ensures Selected(s).tsRef == s.tsRef + (if s.pass == 64 && s.offset > 500_000 then s.offset else 0)
    ensures Selected(s).node == if s.pass == 64 then Sync else Spik
  {
    Powers();
    SteppedStep(s.(pass := s.pass + Pow(s.poll)));
    hide Stepped, Pow;
  }

  lemma FreqEnds(s: State)
    requires s.node.Freq? && s.freq != 0.0 && (Exits(s) ==> TrainDuration(s) + Sec(s.offset) != 0.0)
    ensures Selected(s).node == if Exits(s) then Sync else Freq
  {
    var s1 := s.(pass := s.pass + Pow(s.poll));
    EnteredStep(s1);
    if Exits(s) { ExitedStep(s1); }
    hide Entered, Exited, Sec, TrainDuration, Pow, Disciplined, Spiked;
  }

  /** A spike that was real is ended by stepping onto the authority's time, and one that was not, by
      nothing. */
  lemma SpikeEnds(s: State, n: nat, e: Event, now: int)
    requires Phase(s, n) && s.node.Spik? && Enabled(s, e) && Exact(s, e, now)
    ensures Step(s, e).tsRef == if now - Read(s).tsRef > 500_000 then now else Read(s).tsRef
    ensures Step(s, e).node.Sync? && Step(s, e).pass == 0
  {
    DriftMoves(s, n, e);
    PhaseStep(s, n, e);
    hide Step, Enabled, Read;
  }

  /** Outside FREQ the message decides whether the node is consistent: its offset must be within 15 parts
      per million of the 64 seconds between polls, 960 microseconds. In FREQ it decides nothing. */
  lemma DriftJudges(s: State, n: nat, e: Event)
    requires Phase(s, n) && Enabled(s, e) && e.Drift?
    ensures (var x := OffsetOf(e.org, e.rec, e.xmt, Read(s).tsRef); var s' := Step(s, e);
      s'.consistent <==> if s.node.Freq? then s.consistent else -960_000 <= x <= 960_000)
  {
    var t := Sighted(s, e.org, e.rec, e.xmt);
    SightedStep(s, e.org, e.rec, e.xmt);
    SightedJudged(s, e.org, e.rec, e.xmt);
    DriftIsSelected(s, e);
    SelectedStep(t);
    hide Sighted, Step, Enabled, Selected, Exits;
  }

  lemma SightedJudged(s: State, org: int, rec: int, xmt: int)
    requires s.freq != 0.0 && (s.poll == 6 || s.node.Freq?)
    ensures (var x := OffsetOf(org, rec, xmt, Read(s).tsRef);
      Sighted(s, org, rec, xmt).consistent <==> if s.node.Freq? then s.consistent else -960_000 <= x <= 960_000)
  {
    NearAtSix(OffsetOf(org, rec, xmt, Read(s).tsRef));
    hide Near, Elapsed;
  }

  lemma NearAtSix(offset: int)
    ensures Near(offset, 6) <==> -960_000 <= offset <= 960_000
  {
    Powers();
    hide Pow;
  }

  // ------------------------------------------------------------------ what an answer records

  /** A sibling whose clock is theta ahead, with any delays, answers with a new count: its record says
      consistent exactly when the offset seen is below half a millisecond. */
  lemma AnswerJudged(s: State, e: Event, org: int, theta: int, out: nat, stay: nat, back: nat)
    requires Enabled(s, e) && e.Untaint? && IndexOf(s.siblings, e.ip, e.from) < |s.siblings|
    requires e.count > s.siblings[IndexOf(s.siblings, e.ip, e.from)].count
    requires e.org == org && e.rec == org + out + theta && e.xmt == e.rec + stay
    requires Read(s).tsRef == org + out + stay + back
    ensures (var i := IndexOf(s.siblings, e.ip, e.from); var p := s.siblings[i];
      Step(s, e).siblings == s.siblings[i :=
        Peer(p.hostname, p.port, e.count, theta + (out - back) / 2 < 500_000, e.views)])
  {
    hide IndexOf, Elapsed, Cleared, Highest, Sighted, Exits;
  }
}
