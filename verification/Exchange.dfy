/** One drift exchange from end to end: request, authenticated encryption both ways, the authority's
    reply, and the clock offset the node computes from it. */
module Exchange {
  import opened Bytes
  import opened Gcm
  import opened GcmDriver
  import opened Timespecs
  import opened Wire

  /** The network carries a sealed message from one buffer to another. */
  method Carry(ciph: Block -> Block, npub: Npub, from: array<Byte>, to: array<Byte>, len: nat) returns (ret: int)
    requires len <= 1024 && len <= from.Length && len <= to.Length
    modifies to
    ensures ret == 0 && to[..len] == old(from[..len])
  {
    var none := new Byte[0];
    var sealed := new Byte[len + 16];
    var len';
    ret, len' := SealThenOpen(ciph, npub, sealed, from, len, none, 0, to);
  }

  /** The node's clock reads org at sending and recv on receipt; the authority's clock is theta ahead
      and reads rec and xmt. Whatever the two delays are, the reply is accepted, carries the node's
      own count and origin, and yields an offset within half the round trip, plus one nanosecond,
      of theta. */
  method DriftExchange(ciph: Block -> Block, npub: Npub, count: int, sleep: int, org: Timespec, dummy: Timespec,
      rec: Timespec, xmt: Timespec, recv: Timespec, ghost theta: int, ghost out: nat, ghost stay: nat, ghost back: nat)
      returns (m: Fields, offset: Timespec)
    requires FieldsFit(Fields(count, sleep, org, rec, xmt)) && Fits(dummy)
    requires Nanos(rec) == Nanos(org) + out + theta && Nanos(xmt) == Nanos(rec) + stay
    requires Nanos(recv) == Nanos(org) + out + stay + back
    ensures m == Fields(count, sleep, org, rec, xmt)
    ensures offset == OfNanos(theta + (out - back) / 2)
    ensures 2 * theta - (out + back) - 2 <= 2 * Nanos(offset) <= 2 * theta + (out + back)
  {
    hide Drift, Parse, FieldsFit, Fits, Stamp;
    var node := new Byte[1024];
    var authority := new Byte[1024];
    var len := Request(node, count, sleep, org, dummy);
    ghost var request := node[..len];
    var ret := Carry(ciph, npub, node, authority, len);
    ghost var received := authority[..];
    assert received[..LEN] == request;
    len := HandleMsg(authority, rec, xmt);
    ghost var reply := authority[..len];
    ret := Carry(ciph, npub, authority, node, len);
    assert FieldsFit(Fields(count, sleep, org, dummy, dummy)) by { FitsToo(Fields(count, sleep, org, rec, xmt), dummy); }
    FitsParts(Fields(count, sleep, org, rec, xmt));
    EchoSurvives(received, reply, Fields(count, sleep, org, dummy, dummy), rec, xmt, Stamp(dummy), received[65..LEN]);
    m := Parse(node[..len]);
    offset := Offset(m.org, m.rec, m.xmt, recv);
    OffsetErrorBound(Nanos(org), theta, out, stay, back);
  }

  lemma FitsToo(m: Fields, dummy: Timespec)
    requires FieldsFit(m) && Fits(dummy)
    ensures FieldsFit(Fields(m.count, m.sleep, m.org, dummy, dummy))
  {}

  lemma FitsParts(m: Fields)
    requires FieldsFit(m)
    ensures Fits(m.rec) && Fits(m.xmt)
  {}
}
