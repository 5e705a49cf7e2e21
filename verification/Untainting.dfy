/** The taint flag and the peer records over whole runs. */
module Untainting {
  import opened Quorum
  import opened Clock
  import opened Phases

  /** m is the highest count stored; all records but at most one carry it and are consistent, all but
      at most one view this node as consistent, and all but at most two do both. */
  predicate Quorate(ps: seq<Peer>, m: int) {
    (forall j :: 0 <= j < |ps| ==> ps[j].count <= m) && (exists j :: 0 <= j < |ps| && ps[j].count == m) &&
    Count(ps, Agrees(m)) >= |ps| - 1 && Count(ps, Views()) >= |ps| - 1 && Count(ps, Both(m)) >= |ps| - 2
  }

  ghost predicate HasQuorum(ps: seq<Peer>) { exists m :: Quorate(ps, m) }

  /** The flag after an untainting message from a known sibling: cleared exactly on a quorum among the
      records as they then are. */
  lemma ClearedExactly(s: State, e: Event)
    requires Enabled(s, e) && e.Untaint? && IndexOf(s.siblings, e.ip, e.from) < |s.siblings|
    ensures (var s' := Step(s, e);
      s'.tainted <==> s.tainted && !HasQuorum(s'.siblings))
  {
    hide Elapsed, IndexOf, Recorded;
    var i := IndexOf(s.siblings, e.ip, e.from);
    var close := OffsetOf(e.org, e.rec, e.xmt, s.tsRef + Elapsed(s.tsc - s.tscRef, s.freq)) < PEER_CONSISTENCY_DRIFT_THRESHOLD_NS;
    var ps := Recorded(s.siblings, i, e.count, close, e.views);
    assert Step(s, e).siblings == ps;
    HighestIsStored(s.siblings, i, e.count, close, e.views);
    QuorateIsCleared(ps, Highest(ps, e.count));
  }

  lemma QuorateIsCleared(ps: seq<Peer>, h: int)
    requires forall j :: 0 <= j < |ps| ==> ps[j].count <= h
    requires exists j :: 0 <= j < |ps| && ps[j].count == h
    ensures Cleared(ps, h) <==> HasQuorum(ps)
  {
    if Cleared(ps, h) {
      ClearedMeans(ps, h);
      assert Quorate(ps, h);
    }
    if m :| Quorate(ps, m) {
      assert m == h;
    }
  }

  predicate Every(ps: seq<Peer>, q: Peer -> bool) { forall i :: 0 <= i < |ps| ==> q(ps[i]) }

  /** Of any two records one satisfies q: at most one does not. */
  predicate EveryPair(ps: seq<Peer>, q: Peer -> bool) {
    forall i, j :: 0 <= i < j < |ps| ==> q(ps[i]) || q(ps[j])
  }

  lemma {:induction false} AllButOne(ps: seq<Peer>, q: Peer -> bool)
    ensures Count(ps, q) >= |ps| - 1 <==> EveryPair(ps, q)
    ensures Count(ps, q) == |ps| <==> Every(ps, q)
    decreases |ps|
  {
    if ps != [] {
      AllButOne(ps[..|ps| - 1], q);
      LastOfPairs(ps, q);
      hide Every, EveryPair;
    }
  }

  lemma LastOfPairs(ps: seq<Peer>, q: Peer -> bool)
    requires ps != []
    ensures (var init, last := ps[..|ps| - 1], ps[|ps| - 1];
      (Every(ps, q) <==> Every(init, q) && q(last)) &&
      (EveryPair(ps, q) <==> if q(last) then EveryPair(init, q) else Every(init, q)))
  {
    var init, n := ps[..|ps| - 1], |ps| - 1;
    assert ps == init + [ps[n]];
    if q(ps[n]) && EveryPair(init, q) {
      forall i, j | 0 <= i < j < |ps| ensures q(ps[i]) || q(ps[j]) {
        if j < n { assert init[i] == ps[i] && init[j] == ps[j]; }
      }
    }
    if !q(ps[n]) && EveryPair(ps, q) {
      forall i | 0 <= i < n ensures q(init[i]) {
        assert init[i] == ps[i];
      }
    }
    if EveryPair(ps, q) {
      forall i, j | 0 <= i < j < |init| ensures q(init[i]) || q(init[j]) {
        assert init[i] == ps[i] && init[j] == ps[j];
      }
    }
  }

  /** The quorum without counting: of any two siblings one holds the highest count and was consistent, and
      of any two one views this node as consistent. */
  predicate TwoByTwo(ps: seq<Peer>, m: int) {
    (forall j :: 0 <= j < |ps| ==> ps[j].count <= m) && (exists j :: 0 <= j < |ps| && ps[j].count == m) &&
    (forall i, j :: 0 <= i < j < |ps| ==>
      (ps[i].count == m && ps[i].consistent) || (ps[j].count == m && ps[j].consistent)) &&
    (forall i, j :: 0 <= i < j < |ps| ==> ps[i].views || ps[j].views)
  }

  lemma QuorateIsTwoByTwo(ps: seq<Peer>, m: int)
    ensures Quorate(ps, m) <==> TwoByTwo(ps, m)
  {
    AllButOne(ps, Agrees(m));
    AllButOne(ps, Views());
    assert EveryPair(ps, Agrees(m)) <==> forall i, j :: 0 <= i < j < |ps| ==>
      (ps[i].count == m && ps[i].consistent) || (ps[j].count == m && ps[j].consistent);
    if Count(ps, Agrees(m)) >= |ps| - 1 && Count(ps, Views()) >= |ps| - 1 {
      Overlap(ps, m);
    }
    hide Count;
  }

  /** Nothing else clears the flag, and an unknown sender clears nothing. */
  lemma OnlyUntaintClears(s: State, e: Event)
    requires Enabled(s, e) && s.tainted
    requires !e.Untaint? || IndexOf(s.siblings, e.ip, e.from) == |s.siblings|
    ensures Step(s, e).tainted
  {
    if e.Drift? {
      SightedStep(s, e.org, e.rec, e.xmt);
      SelectedStep(Sighted(s, e.org, e.rec, e.xmt));
      hide Sighted, Selected, Elapsed;
    } else {
      KeptRead(s);
      if e.Round? { KeptMonitored(s, e.memAex, e.addCount); }
      hide Elapsed, Monitored, Read, Joined, IndexOf, Sighted, Drifted, Exits, Serves;
    }
  }

  /** Event k of the run is an untainting message that finds the flag set, clears it, and leaves a
      quorum among the records. */
  ghost predicate ClearsAt(s: State, es: seq<Event>, k: nat) {
    k < |es| && es[k].Untaint? && Runs(s, es[..k]) && Run(s, es[..k]).tainted &&
    Runs(s, es[..k + 1]) && !Run(s, es[..k + 1]).tainted && HasQuorum(Run(s, es[..k + 1]).siblings)
  }

  /** In every run, a flag that was set and is clear again was cleared by an untainting message with a
      quorum. */
  lemma {:induction false} ClearedInRun(s: State, es: seq<Event>)
    requires Runs(s, es) && s.tainted && !Run(s, es).tainted
    ensures exists k :: ClearsAt(s, es, k)
    decreases |es|
  {
    hide Step, Enabled, HasQuorum, IndexOf;
    if es != [] {
      var k := |es| - 1;
      assert es == es[..k] + [es[k]] && es[..k + 1] == es;
      RunPlus(s, es[..k], es[k]);
      var s1 := Run(s, es[..k]);
      if s1.tainted {
        if !es[k].Untaint? || IndexOf(s1.siblings, es[k].ip, es[k].from) == |s1.siblings| {
          OnlyUntaintClears(s1, es[k]);
        } else {
          Known(s1, es[k]);
          ClearedExactly(s1, es[k]);
          assert ClearsAt(s, es, k);
        }
      } else {
        ClearedInRun(s, es[..k]);
        var j: nat :| ClearsAt(s, es[..k], j);
        assert es[..k][..j + 1] == es[..j + 1] && es[..k][..j] == es[..j];
        assert ClearsAt(s, es, j);
      }
    }
  }

  lemma Known(s: State, e: Event)
    requires e.Untaint? && IndexOf(s.siblings, e.ip, e.from) != |s.siblings|
    ensures IndexOf(s.siblings, e.ip, e.from) < |s.siblings|
  {}

  // ------------------------------------------------------------------ the records

  /** A new sibling, by its own message or by hand, is added at the end with nothing to its name; a known
      one, or the node's own address, changes nothing. */
  lemma Newcomers(s: State, hostname: string, port: int)
    requires s.freq > 0.0
    ensures (var known := IndexOf(s.siblings, hostname, port) < |s.siblings|;
      var joined := s.(siblings := s.siblings + [Peer(hostname, port, 0, false, false)]);
      Step(s, Sibling(hostname, port)) == (if known then s else joined) &&
      Step(s, AddSibling(hostname, port))
        == if known || (hostname == "127.0.0.1" && port == s.port) then s else joined)
  {
    hide IndexOf, Sighted, Exits;
  }

  /** Every step keeps the siblings distinct, at their places, and their counts from falling. */
  lemma SiblingsStep(s: State, e: Event)
    requires Enabled(s, e) && Distinct(s.siblings)
    ensures Distinct(Step(s, e).siblings) && Grown(s.siblings, Step(s, e).siblings)
  {
    hide Distinct;
    if e.Drift? {
      SightedStep(s, e.org, e.rec, e.xmt);
      SelectedStep(Sighted(s, e.org, e.rec, e.xmt));
      hide Sighted, Selected, Elapsed;
    } else {
      KeptRead(s);
      match e {
        case Round(memAex, addCount) => KeptMonitored(s, memAex, addCount);
        case Untaint(ip, from, count, views, org, rec, xmt) => SiblingsUntainted(s, ip, from, count, views, org, rec, xmt);
        case Sibling(ip, from) => JoinedKeeps(s.siblings, ip, from);
        case AddSibling(hostname, newPort) => JoinedKeeps(s.siblings, hostname, newPort);
        case _ =>
      }
      hide Elapsed, Monitored, Untainted, Read, Joined, IndexOf, Sighted, Drifted, Exits, Serves, Distinct;
    }
  }

  /** An untainting message touches one record at most: the sender's, and only if its count is new. */
  lemma SiblingsUntainted(s: State, ip: string, from: int, count: int, views: bool, org: int, rec: int, xmt: int)
    requires s.freq != 0.0 && Distinct(s.siblings)
    ensures (var ps, ps' := s.siblings, Untainted(s, ip, from, count, views, org, rec, xmt).siblings;
      Distinct(ps') && Grown(ps, ps') && |ps'| == |ps| &&
      (forall j :: 0 <= j < |ps| && !At(ps[j], ip, from) ==> ps'[j] == ps[j]) &&
      (forall j :: 0 <= j < |ps| && At(ps[j], ip, from) ==>
        if count > ps[j].count then ps'[j].count == count && ps'[j].views == views else ps'[j] == ps[j]))
  {
    hide Elapsed, IndexOf, Cleared, Highest;
    var i := IndexOf(s.siblings, ip, from);
    if i < |s.siblings| {
      var close := OffsetOf(org, rec, xmt, s.tsRef + Elapsed(s.tsc - s.tscRef, s.freq)) < PEER_CONSISTENCY_DRIFT_THRESHOLD_NS;
      RecordedKeeps(s.siblings, i, count, close, views);
    }
  }

  /** A replayed count changes no record. */
  lemma ReplayKeepsRecords(s: State, e: Event)
    requires Enabled(s, e) && e.Untaint? && Distinct(s.siblings)
    requires forall j :: 0 <= j < |s.siblings| && At(s.siblings[j], e.ip, e.from) ==> e.count <= s.siblings[j].count
    ensures Step(s, e).siblings == s.siblings
  {
    SiblingsUntainted(s, e.ip, e.from, e.count, e.views, e.org, e.rec, e.xmt);
    hide Untainted, Distinct;
  }

  /** It is counted all the same: whether a replayed answer of a known sibling clears the flag depends
      on the old records alone. */
  lemma ReplayClears(s: State, e: Event)
    requires Enabled(s, e) && e.Untaint? && Distinct(s.siblings)
    requires forall j :: 0 <= j < |s.siblings| && At(s.siblings[j], e.ip, e.from) ==> e.count <= s.siblings[j].count
    requires IndexOf(s.siblings, e.ip, e.from) < |s.siblings|
    ensures Step(s, e).tainted <==> s.tainted && !HasQuorum(s.siblings)
  {
    ReplayKeepsRecords(s, e);
    ClearedExactly(s, e);
    hide Step, HasQuorum, Distinct;
  }

  /** So once the records form a quorum, an interrupt's taint does not survive a replay. */
  lemma TaintThenReplay(s: State, tsc: int, e: Event)
    requires s.freq > 0.0 && tsc >= s.tsc && e.Untaint? && Distinct(s.siblings) && HasQuorum(s.siblings)
    requires forall j :: 0 <= j < |s.siblings| && At(s.siblings[j], e.ip, e.from) ==> e.count <= s.siblings[j].count
    requires IndexOf(s.siblings, e.ip, e.from) < |s.siblings|
    ensures (var es := [Aex(tsc), e]; Runs(s, es) && Step(s, Aex(tsc)).tainted && !Run(s, es).tainted)
  {
    Interrupted(s, tsc, e);
    ReplayClears(Step(s, Aex(tsc)), e);
    hide Step, HasQuorum, Distinct, IndexOf, Enabled;
    TwoSteps(s, Aex(tsc), e);
  }

  lemma Interrupted(s: State, tsc: int, e: Event)
    requires s.freq > 0.0 && tsc >= s.tsc && e.Untaint?
    ensures Enabled(s, Aex(tsc)) && Enabled(Step(s, Aex(tsc)), e)
    ensures Step(s, Aex(tsc)).tainted && Step(s, Aex(tsc)).siblings == s.siblings
  {
    hide Untainted, Drifted, Sighted, Exits;
  }

  lemma TwoSteps(s: State, a: Event, b: Event)
    requires Enabled(s, a) && Enabled(Step(s, a), b)
    ensures Runs(s, [a, b]) && Run(s, [a, b]) == Step(Step(s, a), b)
  {
    hide Step, Enabled;
    assert [b][1..] == [] && [a, b][1..] == [b];
    assert Runs(Step(s, a), [b]) && Run(Step(s, a), [b]) == Step(Step(s, a), b);
  }

  /** The same over a run: once a sibling, always one, and a stored count never decreases. */
  lemma {:induction false} SiblingsRun(s: State, es: seq<Event>)
    requires Runs(s, es) && Distinct(s.siblings)
    ensures Distinct(Run(s, es).siblings) && Grown(s.siblings, Run(s, es).siblings)
    decreases |es|
  {
    hide Step, Enabled, Distinct;
    if es != [] {
      SiblingsStep(s, es[0]);
      SiblingsRun(Step(s, es[0]), es[1..]);
    }
  }
}
