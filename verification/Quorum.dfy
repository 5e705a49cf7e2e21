/** The peer records of a node, and the count that decides when its taint flag may be cleared. */
module Quorum {

  /** A sibling: its address, the count and verdict of its last untainting message, and whether it
      views this node as consistent. */
  datatype Peer = Peer(hostname: string, port: int, count: int, consistent: bool, views: bool)

  /** A sibling as it is first added. */
  function Fresh(hostname: string, port: int): Peer {
    Peer(hostname, port, 0, false, false)
  }

  predicate At(p: Peer, hostname: string, port: int) { p.hostname == hostname && p.port == port }

  /** std::find: the first record with this address, or the length. */
  function IndexOf(ps: seq<Peer>, hostname: string, port: int): (i: nat)
    ensures i <= |ps|
    ensures i < |ps| ==> At(ps[i], hostname, port)
    ensures forall j :: 0 <= j < i ==> !At(ps[j], hostname, port)
    decreases |ps|
  {
    if ps == [] then 0 else if At(ps[0], hostname, port) then 0 else 1 + IndexOf(ps[1..], hostname, port)
  }

  /** A message from sibling i: only a count above the stored one is recorded. */
  function Recorded(ps: seq<Peer>, i: nat, count: int, consistent: bool, views: bool): seq<Peer>
    requires i < |ps|
  {
    if count > ps[i].count then
      ps[i := ps[i].(count := count, consistent := consistent, views := views)]
    else ps
  }

  /** The largest of m and the stored counts. */
  function Highest(ps: seq<Peer>, m: int): int {
    if ps == [] then m else
      var h := Highest(ps[..|ps| - 1], m);
      if ps[|ps| - 1].count > h then ps[|ps| - 1].count else h
  }

  /** How many records satisfy q. */
  function Count(ps: seq<Peer>, q: Peer -> bool): (n: nat)
    ensures n <= |ps|
  {
    if ps == [] then 0 else Count(ps[..|ps| - 1], q) + if q(ps[|ps| - 1]) then 1 else 0
  }

  /** Carries count m and is consistent. */
  function Agrees(m: int): Peer -> bool { (p: Peer) => p.count == m && p.consistent }

  /** Views this node as consistent. */
  function Views(): Peer -> bool { (p: Peer) => p.views }

  function Both(m: int): Peer -> bool { (p: Peer) => p.count == m && p.consistent && p.views }

  predicate Cleared(ps: seq<Peer>, m: int) {
    Count(ps, Agrees(m)) >= |ps| - 1 && Count(ps, Views()) >= |ps| - 1
  }

  // ------------------------------------------------------------------ the loops

  /** std::find over the vector. */
  method Find(ps: seq<Peer>, hostname: string, port: int) returns (i: nat)
    ensures i == IndexOf(ps, hostname, port)
  {
    i := 0;
    while i < |ps| && !(ps[i].hostname == hostname && ps[i].port == port)
      invariant i <= |ps|
      invariant forall j :: 0 <= j < i ==> !At(ps[j], hostname, port)
    {
      i := i + 1;
    }
  }

  /** The first loop of the handler. */
  method MaxCount(ps: seq<Peer>, count: int) returns (m: int)
    ensures m == Highest(ps, count)
  {
    m := count;
    for i := 0 to |ps|
      invariant m == Highest(ps[..i], count)
    {
      assert ps[..i + 1][..i] == ps[..i];
      if ps[i].count > m { m := ps[i].count; }
    }
    assert ps[..|ps|] == ps;
  }

  /** The second loop: both counts at once. */
  method CountBoth(ps: seq<Peer>, m: int) returns (consistent: nat, viewing: nat)
    ensures consistent == Count(ps, Agrees(m)) && viewing == Count(ps, Views())
  {
    consistent, viewing := 0, 0;
    for i := 0 to |ps|
      invariant consistent == Count(ps[..i], Agrees(m)) && viewing == Count(ps[..i], Views())
    {
      assert ps[..i + 1][..i] == ps[..i];
      if ps[i].count == m && ps[i].consistent { consistent := consistent + 1; }
      if ps[i].views { viewing := viewing + 1; }
    }
    assert ps[..|ps|] == ps;
  }

  // ------------------------------------------------------------------ what a cleared flag means

  lemma {:induction false} HighestIsMax(ps: seq<Peer>, m: int)
    ensures Highest(ps, m) >= m && forall i :: 0 <= i < |ps| ==> ps[i].count <= Highest(ps, m)
    ensures Highest(ps, m) == m || exists i :: 0 <= i < |ps| && ps[i].count == Highest(ps, m)
    decreases |ps|
  {
    if ps != [] {
      var n := |ps| - 1;
      HighestIsMax(ps[..n], m);
      assert forall i :: 0 <= i < n ==> ps[..n][i] == ps[i];
      assert ps[n].count == Highest(ps, m) || Highest(ps, m) == Highest(ps[..n], m);
    }
  }

  /** After the sender's record is updated, the highest count is one that a sibling has stored: the
      received count alone never raises it. */
  lemma HighestIsStored(ps: seq<Peer>, i: nat, count: int, consistent: bool, views: bool)
    requires i < |ps|
    ensures (var ps' := Recorded(ps, i, count, consistent, views); var m := Highest(ps', count);
      (forall j :: 0 <= j < |ps'| ==> ps'[j].count <= m) && exists j :: 0 <= j < |ps'| && ps'[j].count == m)
  {
    var ps' := Recorded(ps, i, count, consistent, views);
    HighestIsMax(ps', count);
    assert ps'[i].count >= count;
  }

  /** Two properties that each fail for at most one sibling hold together for all but two. */
  lemma {:induction false} Overlap(ps: seq<Peer>, m: int)
    ensures Count(ps, Agrees(m)) + Count(ps, Views()) <= |ps| + Count(ps, Both(m))
    decreases |ps|
  {
    if ps != [] { Overlap(ps[..|ps| - 1], m); }
  }

  /** With the quorum, all siblings but at most two hold the highest count consistently and view this
      node as consistent. */
  lemma ClearedMeans(ps: seq<Peer>, m: int)
    requires Cleared(ps, m)
    ensures Count(ps, Both(m)) >= |ps| - 2
  {
    Overlap(ps, m);
  }

  // ------------------------------------------------------------------ the records over a run

  predicate Distinct(ps: seq<Peer>) {
    forall i, j :: 0 <= i < j < |ps| ==> !(ps[i].hostname == ps[j].hostname && ps[i].port == ps[j].port)
  }

  /** The same siblings at the same places, perhaps more of them, and no stored count lower. */
  predicate Grown(ps: seq<Peer>, ps': seq<Peer>) {
    |ps| <= |ps'| && forall i :: 0 <= i < |ps| ==>
      ps'[i].hostname == ps[i].hostname && ps'[i].port == ps[i].port && ps'[i].count >= ps[i].count
  }

  /** find before emplace_back. */
  function Joined(ps: seq<Peer>, hostname: string, port: int): seq<Peer> {
    if IndexOf(ps, hostname, port) == |ps| then ps + [Fresh(hostname, port)] else ps
  }

  lemma JoinedKeeps(ps: seq<Peer>, hostname: string, port: int)
    requires Distinct(ps)
    ensures Distinct(Joined(ps, hostname, port)) && Grown(ps, Joined(ps, hostname, port))
    ensures IndexOf(Joined(ps, hostname, port), hostname, port) < |Joined(ps, hostname, port)|
  {
    var ps' := Joined(ps, hostname, port);
    if ps' != ps { assert At(ps'[|ps|], hostname, port); }
  }

  lemma RecordedKeeps(ps: seq<Peer>, i: nat, count: int, consistent: bool, views: bool)
    requires Distinct(ps) && i < |ps|
    ensures (var ps' := Recorded(ps, i, count, consistent, views);
      Distinct(ps') && Grown(ps, ps') && |ps'| == |ps| &&
      (forall j :: 0 <= j < |ps| && j != i ==> ps'[j] == ps[j]) &&
      (count <= ps[i].count <==> ps' == ps))
  {}
}
