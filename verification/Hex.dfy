/** The hexadecimal codec: the two loops over a text, and how they invert each other. */
module Hex {
  import opened Bytes
  import opened HexDigits

  type Text = Bytes

  // ------------------------------------------------------------------ encoding

  /** The nibbles of a string of bytes, high ones first. */
  function NibbleAt(b: Bytes, i: nat): Nibble
    requires i < 2 * |b|
  {
    if i % 2 == 0 then b[i / 2] / 16 else b[i / 2] % 16
  }

  function Join(h: Nibble, l: Nibble): Byte { 16 * (h as int) + l }

  lemma JoinNibbles(b: Bytes, i: nat)
    requires i < |b|
    ensures NibbleAt(b, 2 * i) == b[i] / 16 && NibbleAt(b, 2 * i + 1) == b[i] % 16
    ensures Join(NibbleAt(b, 2 * i), NibbleAt(b, 2 * i + 1)) == b[i]
  {}

  function Encoded(b: Bytes): (t: Text)
    ensures |t| == 2 * |b|
    ensures forall i :: 0 <= i < |t| ==> t[i] == HexDigit(NibbleAt(b, i))
  {
    seq(2 * |b|, i requires 0 <= i < 2 * |b| => HexDigit(NibbleAt(b, i)))
  }

  lemma EncodedPlus(b: Bytes, i: nat)
    requires i < |b|
    ensures Encoded(b[..i + 1]) == Encoded(b[..i]) + [HexDigit(b[i] / 16), HexDigit(b[i] % 16)]
  {
    hide HexDigit, NibbleAt;
    JoinNibbles(b, i);
    forall j | 0 <= j < 2 * i ensures NibbleAt(b[..i + 1], j) == NibbleAt(b[..i], j) {
      PrefixNibble(b, i + 1, j);
      PrefixNibble(b, i, j);
    }
    JoinNibbles(b[..i + 1], i);
  }

  lemma PrefixNibble(b: Bytes, n: nat, j: nat)
    requires n <= |b| && j < 2 * n
    ensures NibbleAt(b[..n], j) == NibbleAt(b, j)
  {}

  /** The encoder. A buffer without room for the NUL aborts the program. */
  method Bin2Hex(hex: array<Byte>, maxlen: nat, bin: Bytes)
    requires 2 * |bin| < maxlen <= hex.Length
    modifies hex
    ensures hex[..2 * |bin|] == Encoded(bin) && hex[2 * |bin|] == 0
    ensures hex[2 * |bin| + 1..] == old(hex[2 * |bin| + 1..])
  {
    hide Encoded, NibbleChar, HexDigit;
    ghost var was := hex[..];
    var i := 0;
    EmptyEncoding();
    while i < |bin|
      invariant i <= |bin|
      invariant hex[..2 * i] == Encoded(bin[..i])
      invariant hex[2 * i..] == was[2 * i..]
    {
      var c: Nibble, b: Nibble := bin[i] % 16, bin[i] / 16;
      NibbleCharIsHexDigit(c);
      NibbleCharIsHexDigit(b);
      EncodedPlus(bin, i);
      PutPair(hex, i, NibbleChar(c) * 0x100 + NibbleChar(b));
      i := i + 1;
    }
    assert bin[..i] == bin;
    hex[i * 2] := 0;
  }

  lemma EmptyEncoding()
    ensures Encoded([]) == []
  {}

  /** The low byte of x first, then the next one. */
  method PutPair(hex: array<Byte>, i: nat, x: nat)
    requires 2 * i + 1 < hex.Length && x < 0x1_0000
    modifies hex
    ensures hex[..2 * (i + 1)] == old(hex[..2 * i]) + [x % 0x100, x / 0x100]
    ensures hex[2 * (i + 1)..] == old(hex[2 * i..])[2..]
  {
    hex[i * 2] := x % 0x100;
    hex[i * 2 + 1] := x / 0x100;
  }

  // ------------------------------------------------------------------ what decoding means

  /** The `ignore` argument: null or a C string. strchr also finds the string's closing NUL. */
  datatype Ignore = NoIgnore | Ignore(chars: Text)

  predicate Ignored(ignore: Ignore, c: Byte) {
    ignore.Ignore? && (c in ignore.chars || c == 0)
  }

  /** The digits among the characters of a text. */
  function Values(s: Text): seq<Nibble> {
    if s == [] then [] else
      var d := FromHex(s[|s| - 1]);
      Values(s[..|s| - 1]) + if d.Some? then [d.n] else []
  }

  /** The bytes that digits make, two by two. */
  function Pairs(d: seq<Nibble>): (b: Bytes)
    ensures |b| == |d| / 2
    ensures forall i :: 0 <= i < |b| ==> b[i] == Join(d[2 * i], d[2 * i + 1])
  {
    seq(|d| / 2, i requires 0 <= i < |d| / 2 => Join(d[2 * i], d[2 * i + 1]))
  }

  /** Where reading stops: at a character that is neither a digit nor ignored (ignored characters
      count between bytes only), or at a digit for which there is no room. */
  function StopAt(s: Text, maxlen: nat, ignore: Ignore, i: nat): (stop: nat)
    requires i <= |s|
    ensures i <= stop <= |s|
    decreases |s| - i
  {
    if i == |s| then i
    else if FromHex(s[i]).Some? then
      if |Values(s[..i])| / 2 >= maxlen then i else StopAt(s, maxlen, ignore, i + 1)
    else if Ignored(ignore, s[i]) && |Values(s[..i])| % 2 == 0 then StopAt(s, maxlen, ignore, i + 1)
    else i
  }

  /** The result: whether the text was accepted, its bytes (none if not) and where reading ended. */
  datatype Reading = Reading(ok: bool, bytes: Bytes, end: nat)

  function Decoded(s: Text, maxlen: nat, ignore: Ignore): Reading {
    var stop := StopAt(s, maxlen, ignore, 0);
    var d := Values(s[..stop]);
    if |d| % 2 == 1 then Reading(false, [], stop - 1)
    else if stop < |s| && FromHex(s[stop]).Some? then Reading(false, [], stop)
    else Reading(true, Pairs(d), stop)
  }

  // ------------------------------------------------------------------ the decoder

  lemma PrefixValues(s: Text, i: nat)
    requires i < |s|
    ensures Values(s[..i + 1]) == Values(s[..i]) + if FromHex(s[i]).Some? then [FromHex(s[i]).n] else []
  {
    assert s[..i + 1][..i] == s[..i];
  }

  lemma PairsPlus(d: seq<Nibble>, n: Nibble)
    ensures Pairs(d + [n]) == if |d| % 2 == 1 then Pairs(d) + [Join(d[|d| - 1], n)] else Pairs(d)
  {}

  lemma NoValues(s: Text)
    requires s == []
    ensures Values(s) == [] && Pairs([]) == []
  {}

  /** The digit loop. `state` says whether the high nibble of a byte is in `c_acc`. */
  method DecodeDigits(bin: array<Byte>, maxlen: nat, hex: Text, ignore: Ignore)
      returns (pos: nat, count: nat, state: bool, full: bool)
    requires maxlen <= bin.Length
    modifies bin
    ensures pos == StopAt(hex, maxlen, ignore, 0)
    ensures full <==> pos < |hex| && FromHex(hex[pos]).Some?
    ensures state <==> |Values(hex[..pos])| % 2 == 1
    ensures count <= maxlen && bin[..count] == Pairs(Values(hex[..pos]))
    ensures state ==> pos > 0 && FromHex(hex[pos - 1]).Some?
    ensures forall i :: maxlen <= i < bin.Length ==> bin[i] == old(bin[i])
  {
    hide FromHex, Val, NumMask, AlphaMask, OrByte, Values, Pairs;
    pos, count, state, full := 0, 0, false, false;
    var c_acc: Byte := 0;
    ghost var d: seq<Nibble> := [];
    NoValues(hex[..0]);
    while pos < |hex|
      invariant pos <= |hex| && count <= maxlen && !full
      invariant StopAt(hex, maxlen, ignore, 0) == StopAt(hex, maxlen, ignore, pos)
      invariant d == Values(hex[..pos]) && |d| == 2 * count + if state then 1 else 0
      invariant bin[..count] == Pairs(d)
      invariant state ==> c_acc == (d[|d| - 1] as int) * 16 && count < maxlen
      invariant state ==> pos > 0 && FromHex(hex[pos - 1]).Some?
      invariant forall i :: maxlen <= i < bin.Length ==> bin[i] == old(bin[i])
    {
      var c := hex[pos];
      ValIsDigit(c);
      PrefixValues(hex, pos);
      if OrByte(NumMask(c), AlphaMask(c)) == 0 {
        if !(ignore.Ignore? && !state && Ignored(ignore, c)) { break; }
      } else {
        var c_val: Nibble := Val(c);
        if count >= maxlen {
          full := true;
          break;
        }
        PairsPlus(d, c_val);
        if !state {
          c_acc := (c_val as int) * 16;
        } else {
          OrNibbles(d[|d| - 1], c_val);
          assert OrByte(c_acc, c_val) == Join(d[|d| - 1], c_val);
          PutByte(bin, count, OrByte(c_acc, c_val));
          count := count + 1;
        }
        d := d + [c_val];
        state := !state;
      }
      pos := pos + 1;
    }
  }

  method PutByte(bin: array<Byte>, k: nat, x: Byte)
    requires k < bin.Length
    modifies bin
    ensures bin[..k + 1] == old(bin[..k]) + [x]
    ensures forall i :: k < i < bin.Length ==> bin[i] == old(bin[i])
  {
    bin[k] := x;
  }

  /** The whole decoder. An unpaired digit is given back; without `hex_end` the text must be
      consumed to the end. Nothing is written past `maxlen`. */
  method Hex2Bin(bin: array<Byte>, maxlen: nat, hex: Text, ignore: Ignore, wantEnd: bool)
      returns (ret: int, count: nat, end: nat)
    requires maxlen <= bin.Length
    modifies bin
    ensures (var r := Decoded(hex, maxlen, ignore);
      end == r.end && count == |r.bytes| && count <= maxlen && (r.ok ==> bin[..count] == r.bytes) &&
      ret == if r.ok && (wantEnd || end == |hex|) then 0 else -1)
    ensures forall i :: maxlen <= i < bin.Length ==> bin[i] == old(bin[i])
  {
    hide FromHex, Values, Pairs, StopAt;
    var state, full;
    end, count, state, full := DecodeDigits(bin, maxlen, hex, ignore);
    ret := if full then -1 else 0;
    if state {
      end := end - 1;
      ret := -1;
    }
    if ret != 0 { count := 0; }
    if !wantEnd && end != |hex| { ret := -1; }
  }

  // ------------------------------------------------------------------ exactly what is accepted

  function Digits(s: Text): nat { |Values(s)| }

  /** A text that can be read whole: digits, ignored characters between bytes only, an even number
      of digits, and room for the bytes. */
  predicate WellFormed(s: Text, maxlen: nat, ignore: Ignore) {
    (forall i :: 0 <= i < |s| ==>
      FromHex(s[i]).Some? || (Ignored(ignore, s[i]) && Digits(s[..i]) % 2 == 0)) &&
    Digits(s) % 2 == 0 && Digits(s) / 2 <= maxlen
  }

  predicate Accepted(s: Text, maxlen: nat, ignore: Ignore) {
    var r := Decoded(s, maxlen, ignore);
    r.ok && r.end == |s|
  }

  lemma {:induction false} ValuesGrow(s: Text, i: nat)
    requires i <= |s|
    ensures |Values(s[..i])| <= |Values(s)|
    decreases |s| - i
  {
    if i == |s| {
      assert s[..i] == s;
    } else {
      PrefixValues(s, i);
      ValuesGrow(s, i + 1);
    }
  }

  /** A well-formed text is read to its end. */
  lemma {:induction false} ReadsAll(s: Text, maxlen: nat, ignore: Ignore, i: nat)
    requires i <= |s| && WellFormed(s, maxlen, ignore)
    ensures StopAt(s, maxlen, ignore, i) == |s|
    decreases |s| - i
  {
    hide Values, FromHex;
    if i < |s| {
      PrefixValues(s, i);
      ValuesGrow(s, i + 1);
      ReadsAll(s, maxlen, ignore, i + 1);
    }
  }

  /** What was read before the stop is well formed as far as it goes, and fits. */
  lemma {:induction false} ReadIsWellFormed(s: Text, maxlen: nat, ignore: Ignore, i: nat)
    requires i <= |s| && |Values(s[..i])| <= 2 * maxlen
    ensures (var stop := StopAt(s, maxlen, ignore, i);
      |Values(s[..stop])| <= 2 * maxlen &&
      forall j :: i <= j < stop ==>
        FromHex(s[j]).Some? || (Ignored(ignore, s[j]) && Digits(s[..j]) % 2 == 0))
    decreases |s| - i
  {
    hide Values, FromHex;
    if i < |s| && StopAt(s, maxlen, ignore, i) != i {
      PrefixValues(s, i);
      ReadIsWellFormed(s, maxlen, ignore, i + 1);
    }
  }

  lemma AcceptedExactly(s: Text, maxlen: nat, ignore: Ignore)
    ensures Accepted(s, maxlen, ignore) <==> WellFormed(s, maxlen, ignore)
  {
    assert s[..|s|] == s && Values(s[..0]) == [];
    hide Values, FromHex, StopAt, Pairs;
    if WellFormed(s, maxlen, ignore) {
      ReadsAll(s, maxlen, ignore, 0);
    }
    if Accepted(s, maxlen, ignore) {
      ReadIsWellFormed(s, maxlen, ignore, 0);
    }
  }

  /** When the digits run out in the middle of a byte, the end is the digit that has no partner. */
  lemma OddDigit(s: Text, maxlen: nat, ignore: Ignore)
    requires Digits(s[..StopAt(s, maxlen, ignore, 0)]) % 2 == 1
    ensures (var r := Decoded(s, maxlen, ignore);
      !r.ok && r.bytes == [] && r.end < |s| && FromHex(s[r.end]).Some? && Digits(s[..r.end]) % 2 == 0)
  {
    var stop := StopAt(s, maxlen, ignore, 0);
    assert Values(s[..0]) == [];
    PrefixValues(s, stop - 1);
    hide Values, FromHex;
    ReadIsWellFormed(s, maxlen, ignore, 0);
  }

  // ------------------------------------------------------------------ round trips

  lemma {:induction false} AllDigits(s: Text)
    requires forall i :: 0 <= i < |s| ==> FromHex(s[i]).Some?
    ensures |Values(s)| == |s| && forall i :: 0 <= i < |s| ==> Values(s)[i] == FromHex(s[i]).n
    decreases |s|
  {
    if s != [] { AllDigits(s[..|s| - 1]); }
  }

  /** Decoding an encoding gives the bytes back, with every `ignore`, exactly when they fit. */
  lemma DecodeEncoded(b: Bytes, maxlen: nat, ignore: Ignore)
    ensures Decoded(Encoded(b), maxlen, ignore) == Reading(true, b, 2 * |b|) <==> |b| <= maxlen
  {
    var s := Encoded(b);
    forall i | 0 <= i < |s| ensures FromHex(s[i]) == Some(NibbleAt(b, i)) {
      DigitRoundTrip(NibbleAt(b, i), 0);
    }
    AllDigits(s);
    AcceptedExactly(s, maxlen, ignore);
    PairsOfDigits(b, Values(s));
    assert s[..|s|] == s;
    hide Values, FromHex, StopAt, Pairs, Encoded, HexDigit;
    assert WellFormed(s, maxlen, ignore) <==> |b| <= maxlen;
  }

  lemma PairsOfDigits(b: Bytes, d: seq<Nibble>)
    requires |d| == 2 * |b|
    requires forall i :: 0 <= i < |d| ==> d[i] == NibbleAt(b, i)
    ensures Pairs(d) == b
  {
    hide NibbleAt, Join;
    forall i | 0 <= i < |b| ensures Pairs(d)[i] == b[i] {
      JoinNibbles(b, i);
    }
  }

  /** The digits of a text, lower-cased, without the other characters. */
  function LowerDigits(s: Text): Text {
    if s == [] then [] else
      LowerDigits(s[..|s| - 1]) + if FromHex(s[|s| - 1]).Some? then [Lower(s[|s| - 1])] else []
  }

  lemma {:induction false} DigitsOfValues(s: Text)
    ensures |LowerDigits(s)| == |Values(s)|
    ensures forall i :: 0 <= i < |Values(s)| ==> LowerDigits(s)[i] == HexDigit(Values(s)[i])
    decreases |s|
  {
    if s != [] {
      hide FromHex, HexDigit, Lower;
      DigitRoundTrip(0, s[|s| - 1]);
      DigitsOfValues(s[..|s| - 1]);
    }
  }

  lemma SplitJoin(h: Nibble, l: Nibble)
    ensures Join(h, l) / 16 == h && Join(h, l) % 16 == l
  {}

  lemma EncodedPairs(d: seq<Nibble>)
    requires |d| % 2 == 0
    ensures forall i :: 0 <= i < |d| ==> Encoded(Pairs(d))[i] == HexDigit(d[i])
  {
    hide HexDigit, NibbleAt, Join;
    forall i | 0 <= i < |d| ensures Encoded(Pairs(d))[i] == HexDigit(d[i]) {
      var h := i / 2;
      assert i == 2 * h + i % 2;
      JoinNibbles(Pairs(d), h);
      SplitJoin(d[2 * h], d[2 * h + 1]);
    }
  }

  /** Every accepted text is, lower-cased and without its ignored characters, the encoding of its
      bytes. */
  lemma EncodeDecoded(s: Text, maxlen: nat, ignore: Ignore)
    requires Accepted(s, maxlen, ignore)
    ensures Encoded(Decoded(s, maxlen, ignore).bytes) == LowerDigits(s)
    ensures forall i :: 0 <= i < |s| ==> FromHex(s[i]).None? ==> Ignored(ignore, s[i])
  {
    assert s[..|s|] == s;
    AcceptedExactly(s, maxlen, ignore);
    DigitsOfValues(s);
    hide Values, FromHex, StopAt, HexDigit, LowerDigits, Encoded;
    var d := Values(s);
    EncodedPairs(d);
    assert Decoded(s, maxlen, ignore).bytes == Pairs(d);
    assert |Encoded(Pairs(d))| == |d|;
  }

  // ------------------------------------------------------------------ where the decoder stops

  /** Reading ends at the end of the text, at a digit for which there is no room, or at a character that is
      no digit and is not ignored there. */
  lemma {:induction false} StopMeans(s: Text, maxlen: nat, ignore: Ignore, i: nat)
    requires i <= |s|
    ensures (var stop := StopAt(s, maxlen, ignore, i); var k := Digits(s[..stop]);
      stop < |s| ==> if FromHex(s[stop]).Some? then k / 2 >= maxlen else !(Ignored(ignore, s[stop]) && k % 2 == 0))
    decreases |s| - i
  {
    hide Values, FromHex;
    if i < |s| && StopAt(s, maxlen, ignore, i) != i {
      StopMeans(s, maxlen, ignore, i + 1);
    }
  }

  /** A text for which there is no room ends at the first digit of the byte too many, and gives nothing,
      whether or not the end is asked for. */
  lemma FullBuffer(b: Bytes, maxlen: nat, ignore: Ignore)
    requires |b| > maxlen
    ensures Decoded(Encoded(b), maxlen, ignore) == Reading(false, [], 2 * maxlen)
  {
    var s := Encoded(b);
    forall i | 0 <= i < |s| ensures FromHex(s[i]).Some? {
      DigitRoundTrip(NibbleAt(b, i), 0);
    }
    hide FromHex, Encoded, Pairs, HexDigit, NibbleAt, Values;
    StopsFull(s, maxlen, ignore, 0);
    AllDigits(s[..2 * maxlen]);
  }

  lemma {:induction false} StopsFull(s: Text, maxlen: nat, ignore: Ignore, i: nat)
    requires i <= 2 * maxlen < |s| && forall j :: 0 <= j < |s| ==> FromHex(s[j]).Some?
    ensures StopAt(s, maxlen, ignore, i) == 2 * maxlen
    decreases |s| - i
  {
    hide FromHex, Values;
    AllDigits(s[..i]);
    if i < 2 * maxlen { StopsFull(s, maxlen, ignore, i + 1); }
  }

  /** An empty `ignore` string still ignores NUL, and none ignores nothing: "ab" and a NUL. */
  lemma NulIsIgnored()
    ensures Accepted([97, 98, 0], 1, Ignore([])) && !Accepted([97, 98, 0], 1, NoIgnore)
  {
    var s: Text := [97, 98, 0];
    assert s[..2] == [97, 98] && s[..1] == [97];
    AllDigits([97]);
    AllDigits([97, 98]);
    PrefixValues(s, 2);
    assert s[..3] == s;
    AcceptedExactly(s, 1, Ignore([]));
    AcceptedExactly(s, 1, NoIgnore);
    assert FromHex(s[2]).None?;
    hide Values, Accepted;
  }
}
