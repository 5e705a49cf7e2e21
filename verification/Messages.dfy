/** What a received message means to a node: the dispatch of handle_message, with the layouts of its
    messages. */
module Messages {
  import opened Bytes
  import opened Wire
  import opened Clock
  import opened Quorum
  import opened LittleEndian
  import T = Timespecs

  const T_MSG_EXPECTED_LEN := 79
  const U_MSG_EXPECTED_LEN := 80
  const D_MSG_EXPECTED_LEN := 81

  /** The fields of an untainting message, after its seven-letter tag: the sender's count, its verdict
      on this node, and four timespecs of which the last is a place holder. */
  datatype Answer = Answer(count: int, views: bool, org: T.Timespec, rec: T.Timespec, xmt: T.Timespec)

  function ParseAnswer(b: Bytes): Answer
    requires |b| == U_MSG_EXPECTED_LEN
  {
    Answer(FromLong(b[7..15]), b[15] != 0, FromStamp(b[16..32]), FromStamp(b[32..48]), FromStamp(b[48..64]))
  }

  /** The message a sibling sends back to a tainted node. */
  function AnswerFrame(a: Answer, tag: Bytes, rest: Bytes): (b: Bytes)
    requires |tag| == 7 && |rest| == 16
    ensures |b| == U_MSG_EXPECTED_LEN
  {
    tag + Long(a.count) + [if a.views then 1 else 0] + Stamp(a.org) + Stamp(a.rec) + Stamp(a.xmt) + rest
  }

  /** The sibling's fields survive the 80 bytes. */
  lemma ParseAnswerFrame(a: Answer, tag: Bytes, rest: Bytes)
    requires |tag| == 7 && |rest| == 16 && In64(a.count) && Fits(a.org) && Fits(a.rec) && Fits(a.xmt)
    ensures ParseAnswer(AnswerFrame(a, tag, rest)) == a
  {
    LongRoundTrip(a.count);
    StampRoundTrip(a.org);
    StampRoundTrip(a.rec);
    StampRoundTrip(a.xmt);
    hide Long, FromLong, Stamp, FromStamp;
    var b := AnswerFrame(a, tag, rest);
    assert b[7..15] == Long(a.count);
    assert b[16..32] == Stamp(a.org);
    assert b[32..48] == Stamp(a.rec);
    assert b[48..64] == Stamp(a.xmt);
  }

  /** The event that a message is. Unknown first bytes are sent back and change nothing; neither do
      empty messages, nor those of a wrong length. */
  function Decode(buf: Bytes, ip: string, from: int): Event {
    if |buf| == 0 then Event.Ignore
    else if buf[0] == 'S' as int then Sibling(ip, from)
    else if buf[0] == 'T' as int && |buf| == T_MSG_EXPECTED_LEN then Taint(ip, from)
    else if buf[0] == 'U' as int && |buf| == U_MSG_EXPECTED_LEN then
      var a := ParseAnswer(buf);
      Untaint(ip, from, a.count, a.views, T.Nanos(a.org), T.Nanos(a.rec), T.Nanos(a.xmt))
    else if buf[0] == 'D' as int && |buf| == D_MSG_EXPECTED_LEN then
      var m := Parse(buf);
      Event.Drift(T.Nanos(m.org), T.Nanos(m.rec), T.Nanos(m.xmt))
    else Event.Ignore
  }

  // ------------------------------------------------------------------ what is sent back

  const UNTAINTING: Bytes :=
    ['U' as int, 'n' as int, 't' as int, 'a' as int, 'i' as int, 'n' as int, 't' as int]
  const TAINTED: Bytes :=
    ['T' as int, 'a' as int, 'i' as int, 'n' as int, 't' as int, 'e' as int, 'd' as int]
  const SIBLING: Bytes :=
    ['S' as int, 'i' as int, 'b' as int, 'l' as int, 'i' as int, 'n' as int, 'g' as int]

  datatype Reply = Silence | Send(bytes: Bytes)

  /** A tainted node's message to its siblings, with room for three more timespecs. */
  function TaintFrame(count: int, org: T.Timespec, rest: Bytes): (b: Bytes)
    requires |rest| == 48
    ensures |b| == T_MSG_EXPECTED_LEN
  {
    TAINTED + Long(count) + Stamp(org) + rest
  }

  /** A node's answer to such a message: the same count and origin, whether the sender's last answer was
      consistent, and two readings of the node's own clock. */
  function AnswerTo(s: State, i: nat, buf: Bytes): Answer
    requires s.freq != 0.0 && i < |s.siblings| && |buf| == T_MSG_EXPECTED_LEN
  {
    Answer(FromLong(buf[7..15]), s.siblings[i].consistent, FromStamp(buf[15..31]),
           T.OfNanos(Read(s).tsRef), T.OfNanos(Read(Read(s)).tsRef))
  }

  /** What handle_message sends back. */
  function ReplyTo(s: State, buf: Bytes, ip: string, from: int): Reply
    requires s.freq != 0.0
  {
    if |buf| == 0 then Silence
    else if buf[0] == 'S' as int || buf[0] == 'U' as int || buf[0] == 'D' as int then Silence
    else if buf[0] == 'T' as int then
      var i := IndexOf(s.siblings, ip, from);
      if i < |s.siblings| && |buf| == T_MSG_EXPECTED_LEN && s.consistent
      then Send(AnswerFrame(AnswerTo(s, i, buf), UNTAINTING, Zeros(16))) else Silence
    else Send(buf)
  }

  /** A tainted node that asks a consistent sibling which knows it gets back its own count and origin,
      the sibling's verdict on it and the sibling's two readings. */
  lemma AnswerSurvives(s: State, ip: string, from: int, count: int, org: T.Timespec, rest: Bytes,
                       ip': string, from': int)
    requires s.freq != 0.0 && s.consistent && IndexOf(s.siblings, ip, from) < |s.siblings|
    requires In64(count) && Fits(org) && |rest| == 48
    requires Fits(T.OfNanos(Read(s).tsRef)) && Fits(T.OfNanos(Read(Read(s)).tsRef))
    ensures (var r := ReplyTo(s, TaintFrame(count, org, rest), ip, from);
      r.Send? && Decode(r.bytes, ip', from') ==
        Untaint(ip', from', count, s.siblings[IndexOf(s.siblings, ip, from)].consistent,
                T.Nanos(org), Read(s).tsRef, Read(Read(s)).tsRef))
  {
    hide Long, FromLong, Stamp, FromStamp, Read, IndexOf, ParseAnswer;
    var buf := TaintFrame(count, org, rest);
    LongRoundTrip(count);
    StampRoundTrip(org);
    assert buf[7..15] == Long(count) && buf[15..31] == Stamp(org) && buf[0] == 'T' as int;
    var a := AnswerTo(s, IndexOf(s.siblings, ip, from), buf);
    ParseAnswerFrame(a, UNTAINTING, Zeros(16));
    assert AnswerFrame(a, UNTAINTING, Zeros(16))[0] == 'U' as int;
  }

  // ------------------------------------------------------------------ which bytes are which event

  /** The authority's reply is a D event with its three timespecs in their places. */
  lemma DecodeDrift(m: Fields, rest: Bytes, ip: string, from: int)
    requires FieldsFit(m) && |rest| == 16
    ensures (Decode(Wire.Drift(m, rest), ip, from)
      == Event.Drift(T.Nanos(m.org), T.Nanos(m.rec), T.Nanos(m.xmt)))
  {
    ParseDrift(m, rest);
    var b := Wire.Drift(m, rest);
    assert b[0] == DRIFT[0];
    hide Long, Word, Stamp, Parse, FromStamp, FromLong;
  }

  /** The other two kinds. */
  lemma DecodeNames(count: int, org: T.Timespec, rest: Bytes, ip: string, from: int)
    requires |rest| == 48
    ensures Decode(SIBLING, ip, from) == Sibling(ip, from)
    ensures Decode(TaintFrame(count, org, rest), ip, from) == Taint(ip, from)
  {
    hide Long, Stamp;
    assert TaintFrame(count, org, rest)[0] == TAINTED[0];
  }

  /** A message of another length, or of another kind, is no event; the length of an S message is free. */
  lemma OthersAreIgnored(b: Bytes, ip: string, from: int)
    requires |b| > 0
    ensures Decode(b, ip, from).Drift? <==> b[0] == 68 && |b| == 81
    ensures Decode(b, ip, from).Untaint? <==> b[0] == 85 && |b| == 80
    ensures Decode(b, ip, from) == Taint(ip, from) <==> b[0] == 84 && |b| == 79
    ensures Decode(b, ip, from) == Sibling(ip, from) <==> b[0] == 83
    ensures (Decode(b, ip, from) == Event.Ignore
      <==> !(b[0] == 83 || (b[0] == 84 && |b| == 79) || (b[0] == 85 && |b| == 80) || (b[0] == 68 && |b| == 81)))
    ensures Decode([], ip, from) == Event.Ignore
  {
    hide ParseAnswer, Parse;
  }

  /** A node that is not itself consistent, or does not know the sender, neither answers a tainted node
      nor reads its clock for it. */
  lemma AsksInVain(s: State, buf: Bytes, ip: string, from: int)
    requires s.freq > 0.0 && |buf| > 0 && buf[0] == 84
    requires !s.consistent || IndexOf(s.siblings, ip, from) == |s.siblings| || |buf| != 79
    ensures ReplyTo(s, buf, ip, from) == Silence && Step(s, Decode(buf, ip, from)) == s
  {
    hide IndexOf, Sighted, Exits;
  }

  /** What is no message of the protocol comes back unchanged. */
  lemma OthersAreEchoed(s: State, b: Bytes, ip: string, from: int)
    requires s.freq > 0.0
    ensures ReplyTo(s, b, ip, from) == Send(b) <== |b| > 0 && b[0] !in {68, 83, 84, 85}
    ensures ReplyTo(s, b, ip, from) == Silence <== |b| == 0 || b[0] in {68, 83, 85}
  {
    hide IndexOf;
  }

  // ------------------------------------------------------------------ two messages, byte by byte

  const EIGHT: Bytes := [8, 7, 6, 5, 4, 3, 2, 1]
  const ONE: Bytes := [1, 0, 0, 0, 0, 0, 0, 0]
  const TWO: Bytes := [2, 0, 0, 0, 0, 0, 0, 0]
  const THREE: Bytes := [3, 0, 0, 0, 0, 0, 0, 0]
  const FOUR: Bytes := [4, 0, 0, 0, 0, 0, 0, 0]
  const FIVE: Bytes := [5, 0, 0, 0, 0, 0, 0, 0]
  const SIX: Bytes := [6, 0, 0, 0, 0, 0, 0, 0]
  const NEGATIVE: Bytes := [0xfe, 0xff, 0xff, 0xff, 0xff, 0xff, 0xff, 0xff]

  lemma SmallLong(x: Byte)
    ensures Long(x) == [x, 0, 0, 0, 0, 0, 0, 0]
  {
    hide Le;
    LeStep(x, 7);
    LeZero();
  }

  lemma LeStep(n: nat, k: nat)
    ensures Le(n, k + 1) == [n % 0x100] + Le(n / 0x100, k)
  {}

  lemma LeZero()
    ensures Le(0, 7) == [0, 0, 0, 0, 0, 0, 0]
  {
    LeStep(0, 6); LeStep(0, 5); LeStep(0, 4); LeStep(0, 3); LeStep(0, 2); LeStep(0, 1); LeStep(0, 0);
    assert Le(0, 0) == [];
    hide Le;
  }

  lemma LongBytes()
    ensures Long(0x0102030405060708) == EIGHT
    ensures Long(-2) == NEGATIVE
  {
    hide Le;
    LeStep(0x0102030405060708, 7); LeStep(0x01020304050607, 6); LeStep(0x010203040506, 5); LeStep(0x0102030405, 4);
    LeStep(0x01020304, 3); LeStep(0x010203, 2); LeStep(0x0102, 1); LeStep(0x01, 0);
    LeStep(0xffff_ffff_ffff_fffe, 7); LeStep(0xff_ffff_ffff_ffff, 6); LeStep(0xffff_ffff_ffff, 5);
    LeStep(0xff_ffff_ffff, 4); LeStep(0xffff_ffff, 3); LeStep(0xff_ffff, 2); LeStep(0xffff, 1); LeStep(0xff, 0);
    LeEmpty();
  }

  lemma WordBytes()
    ensures Word(-2) == [0xfe, 0xff, 0xff, 0xff]
  {
    hide Le;
    LeStep(0xffff_fffe, 3); LeStep(0xff_ffff, 2); LeStep(0xffff, 1); LeStep(0xff, 0);
    LeEmpty();
  }

  lemma LeEmpty()
    ensures Le(0, 0) == []
  {}

  /** A drift message in memory: the name, the count, the sleep time, origin, receipt and transmission. */
  lemma DriftBytes(rest: Bytes)
    requires |rest| == 16
    ensures (Wire.Drift(Fields(0x0102030405060708, -2, T.Timespec(-2, 1), T.Timespec(2, 3), T.Timespec(4, 5)), rest)
      == [68, 114, 105, 102, 116] + EIGHT + [0xfe, 0xff, 0xff, 0xff] + NEGATIVE + ONE + TWO + THREE + FOUR + FIVE + rest)
  {
    hide Long, Word;
    LongBytes(); WordBytes();
    SmallLong(1); SmallLong(2); SmallLong(3); SmallLong(4); SmallLong(5);
    assert NEGATIVE + ONE == Stamp(T.Timespec(-2, 1)) && TWO + THREE == Stamp(T.Timespec(2, 3));
    assert FOUR + FIVE == Stamp(T.Timespec(4, 5));
  }

  /** An untainting message in memory: the name, the count, the verdict, and the same three. */
  lemma AnswerBytes(rest: Bytes)
    requires |rest| == 16
    ensures (AnswerFrame(Answer(0x0102030405060708, true, T.Timespec(1, 2), T.Timespec(3, 4), T.Timespec(5, 6)), UNTAINTING, rest)
      == [85, 110, 116, 97, 105, 110, 116] + EIGHT + [1] + ONE + TWO + THREE + FOUR + FIVE + SIX + rest)
  {
    hide Long;
    LongBytes();
    SmallLong(1); SmallLong(2); SmallLong(3); SmallLong(4); SmallLong(5); SmallLong(6);
    assert ONE + TWO == Stamp(T.Timespec(1, 2)) && THREE + FOUR == Stamp(T.Timespec(3, 4));
    assert FIVE + SIX == Stamp(T.Timespec(5, 6));
  }
}
