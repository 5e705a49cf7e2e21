/** The 81-byte drift message, at both ends: the node fills it in, the time authority rewrites it in
    place, and the node reads it back. Numbers are little-endian two's complement; a timespec is two
    64-bit numbers. */
module Wire {
  import opened Bytes
  import opened LittleEndian
  import opened Timespecs

  // ------------------------------------------------------------------ numbers in memory

  predicate In64(x: int) { -0x8000_0000_0000_0000 <= x < 0x8000_0000_0000_0000 }

  predicate In32(x: int) { -0x8000_0000 <= x < 0x8000_0000 }

  function Long(x: int): (b: Bytes)
    ensures |b| == 8
  {
    Le(x % 0x1_0000_0000_0000_0000, 8)
  }

  function FromLong(b: Bytes): int {
    var v := Value(b);
    if v < 0x8000_0000_0000_0000 then v else v - 0x1_0000_0000_0000_0000
  }

  function Word(x: int): (b: Bytes)
    ensures |b| == 4
  {
    Le(x % 0x1_0000_0000, 4)
  }

  function FromWord(b: Bytes): int {
    var v := Value(b);
    if v < 0x8000_0000 then v else v - 0x1_0000_0000
  }

  lemma LongRoundTrip(x: int)
    requires In64(x)
    ensures FromLong(Long(x)) == x
  {
    assert Pow256(8) == 0x1_0000_0000_0000_0000 by { assert Pow256(4) == 0x1_0000_0000; }
    var v := x % 0x1_0000_0000_0000_0000;
    ValueLe(v, 8);
    hide Value, Le, Pow256;
    assert x < 0 ==> v == x + 0x1_0000_0000_0000_0000;
  }

  lemma WordRoundTrip(x: int)
    requires In32(x)
    ensures FromWord(Word(x)) == x
  {
    assert Pow256(4) == 0x1_0000_0000;
    var v := x % 0x1_0000_0000;
    ValueLe(v, 4);
    hide Value, Le, Pow256;
    assert x < 0 ==> v == x + 0x1_0000_0000;
  }

  function Stamp(ts: Timespec): (b: Bytes)
    ensures |b| == 16
  {
    Long(ts.sec) + Long(ts.nsec)
  }

  function FromStamp(b: Bytes): Timespec
    requires |b| == 16
  {
    Timespec(FromLong(b[..8]), FromLong(b[8..]))
  }

  predicate Fits(ts: Timespec) { In64(ts.sec) && In64(ts.nsec) }

  lemma StampRoundTrip(ts: Timespec)
    requires Fits(ts)
    ensures FromStamp(Stamp(ts)) == ts
  {
    LongRoundTrip(ts.sec);
    LongRoundTrip(ts.nsec);
    hide Long, FromLong;
    assert Stamp(ts)[..8] == Long(ts.sec) && Stamp(ts)[8..] == Long(ts.nsec);
  }

  // ------------------------------------------------------------------ the layout

  const DRIFT: Bytes := ['D' as int, 'r' as int, 'i' as int, 'f' as int, 't' as int]
  const LEN := 81

  datatype Fields = Fields(count: int, sleep: int, org: Timespec, rec: Timespec, xmt: Timespec)

  predicate FieldsFit(m: Fields) {
    In64(m.count) && In32(m.sleep) && Fits(m.org) && Fits(m.rec) && Fits(m.xmt)
  }

  /** The message; the last timespec is only ever a place holder. */
  function Drift(m: Fields, rest: Bytes): (b: Bytes)
    requires |rest| == 16
    ensures |b| == LEN
  {
    DRIFT + Long(m.count) + Word(m.sleep) + Stamp(m.org) + Stamp(m.rec) + Stamp(m.xmt) + rest
  }

  /** What a reader finds by walking the offsets. */
  function Parse(b: Bytes): Fields
    requires |b| >= LEN
  {
    Fields(FromLong(b[5..13]), FromWord(b[13..17]), FromStamp(b[17..33]), FromStamp(b[33..49]), FromStamp(b[49..65]))
  }

  lemma ParseDrift(m: Fields, rest: Bytes)
    requires FieldsFit(m) && |rest| == 16
    ensures Parse(Drift(m, rest)) == m
  {
    LongRoundTrip(m.count);
    WordRoundTrip(m.sleep);
    StampRoundTrip(m.org);
    StampRoundTrip(m.rec);
    StampRoundTrip(m.xmt);
    hide Long, FromLong, Word, FromWord, Stamp, FromStamp;
    var b := Drift(m, rest);
    assert b[5..13] == Long(m.count);
    assert b[13..17] == Word(m.sleep);
    assert b[17..33] == Stamp(m.org);
    assert b[33..49] == Stamp(m.rec);
    assert b[49..65] == Stamp(m.xmt);
  }

  // ------------------------------------------------------------------ the two ends

  /** memcpy into the buffer at the cursor. */
  method Put(buf: array<Byte>, cursor: nat, b: Bytes) returns (next: nat)
    requires cursor + |b| <= buf.Length
    modifies buf
    ensures next == cursor + |b|
    ensures buf[..next] == old(buf[..cursor]) + b
    ensures forall i :: next <= i < buf.Length ==> buf[i] == old(buf[i])
  {
    for i := 0 to |b|
      invariant buf[..cursor + i] == old(buf[..cursor]) + b[..i]
      invariant forall j :: cursor + i <= j < buf.Length ==> buf[j] == old(buf[j])
    {
      buf[cursor + i] := b[i];
    }
    next := cursor + |b|;
  }

  /** send_recv_drift_message: the node's request. The three later timespecs are uninitialised. */
  method Request(buf: array<Byte>, count: int, sleep: int, org: Timespec, dummy: Timespec) returns (len: nat)
    requires buf.Length >= LEN
    modifies buf
    ensures len == LEN
    ensures buf[..len] == Drift(Fields(count, sleep, org, dummy, dummy), Stamp(dummy))
  {
    hide Long, Word, Stamp;
    len := Put(buf, 0, DRIFT);
    len := Put(buf, len, Long(count));
    len := Put(buf, len, Word(sleep));
    len := Put(buf, len, Stamp(org));
    len := Put(buf, len, Stamp(dummy));
    len := Put(buf, len, Stamp(dummy));
    len := Put(buf, len, Stamp(dummy));
  }

  /** handleMsg: the time authority reads the count, the sleep time and the origin, writes them back
      over themselves, and stamps its two readings after them. */
  method HandleMsg(buf: array<Byte>, rec: Timespec, xmt: Timespec) returns (len: nat)
    requires buf.Length >= LEN
    modifies buf
    ensures len == LEN
    ensures (var m := Parse(old(buf[..]));
      buf[..len] == Drift(Fields(m.count, m.sleep, m.org, rec, xmt), old(buf[65..LEN])))
    ensures buf[len..] == old(buf[len..])
  {
    hide Long, Word, Stamp, FromLong, FromWord, FromStamp;
    ghost var was := buf[..];
    var m := Parse(buf[..]);
    len := Put(buf, 0, DRIFT);
    len := Put(buf, len, Long(m.count));
    len := Put(buf, len, Word(m.sleep));
    len := Put(buf, len, Stamp(m.org));
    len := Put(buf, len, Stamp(rec));
    len := Put(buf, len, Stamp(xmt));
    Untouched(buf[..], was, len);
    len := len + 16;
  }

  lemma Untouched(now: Bytes, was: Bytes, k: nat)
    requires |now| == |was| && k + 16 <= |now| && now[k..] == was[k..]
    ensures now[..k + 16] == now[..k] + was[k..k + 16] && now[k + 16..] == was[k + 16..]
  {
    assert now[k..][..16] == now[k..k + 16] && was[k..][..16] == was[k..k + 16];
    assert now[k..][16..] == now[k + 16..] && was[k..][16..] == was[k + 16..];
  }

  lemma ParsePrefix(b: Bytes)
    requires |b| >= LEN
    ensures Parse(b) == Parse(b[..LEN])
  {
    hide FromLong, FromWord, FromStamp;
    var c := b[..LEN];
    assert b[5..13] == c[5..13];
    assert b[13..17] == c[13..17];
    assert b[17..33] == c[17..33];
    assert b[33..49] == c[33..49];
    assert b[49..65] == c[49..65];
  }

  /** What the authority sends back for a request carries the same count, sleep time and origin, and
      the authority's own readings. */
  lemma EchoSurvives(request: Bytes, reply: Bytes, m: Fields, rec: Timespec, xmt: Timespec, rest: Bytes, rest': Bytes)
    requires FieldsFit(m) && Fits(rec) && Fits(xmt) && |rest| == |rest'| == 16
    requires |request| >= LEN && request[..LEN] == Drift(m, rest)
    requires reply == Drift(Fields(Parse(request).count, Parse(request).sleep, Parse(request).org, rec, xmt), rest')
    ensures Parse(reply) == Fields(m.count, m.sleep, m.org, rec, xmt)
  {
    ParseDrift(m, rest);
    ParsePrefix(request);
    ParseDrift(Fields(m.count, m.sleep, m.org, rec, xmt), rest');
    hide FromLong, FromWord, FromStamp, Drift, Parse;
  }
}
