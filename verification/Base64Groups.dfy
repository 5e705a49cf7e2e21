/** Base64 as sections 4, 5 and 10 of RFC 4648 put it: the alphabets letter by letter, three bytes to
    four letters, and the decoder in terms of the characters it passes over. */
module Base64Groups {
  import opened Bytes
  import opened Digits
  import opened Base64Letters
  import opened Base64
  import opened Base64Decode

  // ------------------------------------------------------------------ the alphabets

  const UPPER := "ABCDEFGHIJKLMNOPQRSTUVWXYZ"
  const LOWER := "abcdefghijklmnopqrstuvwxyz"
  const NUMERALS := "0123456789"
  const ALPHABET := UPPER + LOWER + NUMERALS + "+/"
  const URLSAFE := UPPER + LOWER + NUMERALS + "-_"

  lemma Alphabets(x: Sextet)
    ensures |UPPER| == |LOWER| == 26 && |NUMERALS| == 10
    ensures Letter(x, false) == ALPHABET[x] as int && Letter(x, true) == URLSAFE[x] as int
  {
    if x < 26 {
      UpperAt(x);
      assert ALPHABET[x] == UPPER[x] == URLSAFE[x];
    } else if x < 52 {
      LowerAt(x - 26);
      assert ALPHABET[x] == LOWER[x - 26] == URLSAFE[x];
    } else if x < 62 {
      NumeralAt(x - 52);
      assert ALPHABET[x] == NUMERALS[x - 52] == URLSAFE[x];
    }
  }

  lemma UpperAt(i: nat)
    requires i < 26
    ensures |UPPER| == 26 && UPPER[i] as int == 'A' as int + i
  {}

  lemma LowerAt(i: nat)
    requires i < 26
    ensures |LOWER| == 26 && LOWER[i] as int == 'a' as int + i
  {}

  lemma NumeralAt(i: nat)
    requires i < 10
    ensures |NUMERALS| == 10 && NUMERALS[i] as int == '0' as int + i
  {}

  // ------------------------------------------------------------------ groups

  lemma NextDigit(n: nat, d: Sextet, k: nat)
    ensures Sextets(0x40 * n + d, k + 1) == Sextets(n, k) + [d]
  {
    assert (0x40 * n + d) / 0x40 == n && (0x40 * n + d) % 0x40 == d;
  }

  lemma AppendNumber(b: Bytes, x: Byte)
    ensures FromBe(b + [x]) == FromBe(b) * 0x100 + x
  {
    assert (b + [x])[..|b|] == b;
  }

  /** 24 bits, cut after six, twelve and eighteen. */
  lemma Cut(f: nat, a: nat, b: nat, c: nat, d: nat, e: nat, g: nat)
    ensures (((f * 0x100 + (4 * a + b)) * 0x100 + (16 * c + d)) * 0x100 + (64 * e + g)
      == 0x40 * (0x40 * (0x40 * (0x40 * f + a) + (16 * b + c)) + (4 * d + e)) + g)
    ensures ((f * 0x100 + (4 * a + b)) * 0x100 + (16 * c + d)) * 4 == 0x40 * (0x40 * (0x40 * f + a) + (16 * b + c)) + 4 * d
    ensures (f * 0x100 + (4 * a + b)) * 16 == 0x40 * (0x40 * f + a) + 16 * b
  {}

  lemma Halves(x: Byte, y: Byte, z: Byte)
    ensures x == 4 * (x / 4) + x % 4 && y == 16 * (y / 16) + y % 16 && z == 64 * (z / 64) + z % 64
  {}

  lemma WholeDigitsOf(b: Bytes, q: nat)
    requires |b| == 3 * q
    ensures DigitsOf(b) == Sextets(FromBe(b), 4 * q) && Slack(|b|) == 0
  {
    hide Sextets, FromBe, Shl, DigitCount, Slack;
    GroupSlack(|b|, q, 0);
    NoShift(FromBe(b));
  }

  lemma GroupSlack(n: nat, q: nat, r: nat)
    requires n == 3 * q + r && r < 3
    ensures DigitCount(n) == 4 * q + (if r == 0 then 0 else r + 1)
    ensures Slack(n) == if r == 0 then 0 else if r == 1 then 4 else 2
  {
    DigitGroups(n, q, r);
    hide DigitCount;
  }

  /** Three bytes make four digits. */
  lemma ThreeBytes(b: Bytes, x: Byte, y: Byte, z: Byte)
    requires |b| % 3 == 0
    ensures DigitsOf(b + [x, y, z]) == DigitsOf(b) + [x / 4, x % 4 * 16 + y / 16, y % 16 * 4 + z / 64, z % 64]
  {
    hide FromBe, Sextets, DigitsOf;
    var f, q := FromBe(b), |b| / 3;
    var k := 4 * q;
    var d0: Sextet, d1: Sextet, d2: Sextet, d3: Sextet := x / 4, x % 4 * 16 + y / 16, y % 16 * 4 + z / 64, z % 64;
    WholeDigitsOf(b, q);
    WholeDigitsOf(b + [x, y, z], q + 1);
    assert b + [x, y, z] == b + [x] + [y] + [z];
    AppendNumber(b, x); AppendNumber(b + [x], y); AppendNumber(b + [x] + [y], z);
    Halves(x, y, z);
    Cut(f, x / 4, x % 4, y / 16, y % 16, z / 64, z % 64);
    FourDigits(f, k, d0, d1, d2, d3);
  }

  lemma FourDigits(f: nat, k: nat, d0: Sextet, d1: Sextet, d2: Sextet, d3: Sextet)
    ensures Sextets(0x40 * f + d0, k + 1) == Sextets(f, k) + [d0]
    ensures Sextets(0x40 * (0x40 * f + d0) + d1, k + 2) == Sextets(f, k) + [d0, d1]
    ensures Sextets(0x40 * (0x40 * (0x40 * f + d0) + d1) + d2, k + 3) == Sextets(f, k) + [d0, d1, d2]
    ensures (Sextets(0x40 * (0x40 * (0x40 * (0x40 * f + d0) + d1) + d2) + d3, k + 4)
      == Sextets(f, k) + [d0, d1, d2, d3])
  {
    hide Sextets;
    NextDigit(f, d0, k);
    NextDigit(0x40 * f + d0, d1, k + 1);
    NextDigit(0x40 * (0x40 * f + d0) + d1, d2, k + 2);
    NextDigit(0x40 * (0x40 * (0x40 * f + d0) + d1) + d2, d3, k + 3);
  }

  /** One byte at the end makes two digits, the second filled with four zero bits. */
  lemma LastByte(b: Bytes, x: Byte)
    requires |b| % 3 == 0
    ensures DigitsOf(b + [x]) == DigitsOf(b) + [x / 4, x % 4 * 16]
    ensures Slack(|b| + 1) / 2 == 2 && Slack(|b|) == 0
  {
    hide FromBe, Sextets, DigitCount, Slack, Shl;
    var f, q := FromBe(b), |b| / 3;
    var k := 4 * q;
    var d0: Sextet, d1: Sextet := x / 4, x % 4 * 16;
    WholeDigitsOf(b, q);
    GroupSlack(|b| + 1, q, 1);
    GroupSlack(|b|, q, 0);
    AppendNumber(b, x);
    ShiftLeft(f * 0x100 + x);
    Halves(x, 0, 0);
    Cut(f, x / 4, x % 4, 0, 0, 0, 0);
    FourDigits(f, k, d0, d1, 0, 0);
  }

  /** Two bytes at the end make three, the last filled with two zero bits. */
  lemma LastTwoBytes(b: Bytes, x: Byte, y: Byte)
    requires |b| % 3 == 0
    ensures DigitsOf(b + [x, y]) == DigitsOf(b) + [x / 4, x % 4 * 16 + y / 16, y % 16 * 4]
    ensures Slack(|b| + 2) / 2 == 1
  {
    hide FromBe, Sextets, DigitCount, Slack, Shl;
    var f, q := FromBe(b), |b| / 3;
    var k := 4 * q;
    var d0: Sextet, d1: Sextet, d2: Sextet := x / 4, x % 4 * 16 + y / 16, y % 16 * 4;
    WholeDigitsOf(b, q);
    GroupSlack(|b| + 2, q, 2);
    GroupSlack(|b|, q, 0);
    assert b + [x, y] == b + [x] + [y];
    AppendNumber(b, x); AppendNumber(b + [x], y);
    ShiftLeft((f * 0x100 + x) * 0x100 + y);
    Halves(x, y, 0);
    Cut(f, x / 4, x % 4, y / 16, y % 16, 0, 0);
    FourDigits(f, k, d0, d1, d2, 0);
  }

  lemma ShiftLeft(n: nat)
    ensures Shl(n, 2) == n * 4 && Shl(n, 4) == n * 16
  {
    assert Shl(n * 4, 2) == n * 16 && Shl(n, 4) == Shl(n * 4, 2);
  }

  lemma NoDigits()
    ensures DigitsOf([]) == []
  {}

  const ORIGINAL := Variant(false, true)

  /** Test vectors of section 10: "foob", "fooba" and "foobar". */
  lemma Vectors()
    ensures Encoded([102, 111, 111, 98], ORIGINAL) == [90, 109, 57, 118, 89, 103, 61, 61]
    ensures Encoded([102, 111, 111, 98, 97], ORIGINAL) == [90, 109, 57, 118, 89, 109, 69, 61]
    ensures Encoded([102, 111, 111, 98, 97, 114], ORIGINAL) == [90, 109, 57, 118, 89, 109, 70, 121]
  {
    hide DigitsOf, Slack;
    NoDigits();
    ThreeBytes([], 102, 111, 111);
    var foo: Bytes := [102, 111, 111];
    assert [] + foo == foo;
    LastByte(foo, 98);
    LastTwoBytes(foo, 98, 97);
    ThreeBytes(foo, 98, 97, 114);
    LastByte([102, 111, 111, 98, 97, 114], 0);
    assert foo + [98] == [102, 111, 111, 98] && foo + [98, 97] == [102, 111, 111, 98, 97];
    assert foo + [98, 97, 114] == [102, 111, 111, 98, 97, 114];
  }

  // ------------------------------------------------------------------ where the decoder stops

  /** A text for which there is no room ends at the digit that would complete a byte too many, and gives
      nothing, whether or not the end is asked for. */
  lemma FullBuffer(b: Bytes, maxlen: nat, ignore: Ignore, v: Variant)
    requires |b| > maxlen
    ensures Decoded(Encoded(b, v), maxlen, ignore, v) == Reading(false, [], DigitCount(maxlen + 1) - 1)
  {
    hide FromLetter, Values, DigitsOf, Encoded, Finish;
    var s, n := Encoded(b, v), DigitCount(maxlen + 1) - 1;
    EncodedParts(b, v);
    Leftover(maxlen + 1);
    FewerDigits(maxlen, |b|);
    var all := s[..DigitCount(|b|)];
    assert s[..n] == all[..n] && s[n] == all[n];
    StopAfterDigits(s, n, maxlen, ignore, v.urlsafe, 0);
    ValuesOfDigits(s[..n], v.urlsafe);
  }

  lemma FewerDigits(maxlen: nat, n: nat)
    requires n > maxlen
    ensures 0 < DigitCount(maxlen + 1) <= DigitCount(n) && ByteCount(DigitCount(maxlen + 1) - 1) <= maxlen
  {}

  /** Digits are read up to the end of the text, a digit for which there is no room, or a character that
      is neither digit nor ignored; whatever is passed over before is a digit or ignored. */
  lemma {:induction false} StopMeans(s: Text, maxlen: nat, ignore: Ignore, urlsafe: bool, i: nat)
    requires i <= |s| && ByteCount(|Values(s[..i], urlsafe)|) <= maxlen
    ensures (var stop := StopAt(s, maxlen, ignore, urlsafe, i); var k := |Values(s[..stop], urlsafe)|;
      ByteCount(k) <= maxlen &&
      (forall j :: i <= j < stop ==> FromLetter(s[j], urlsafe).Some? || Ignored(ignore, s[j])) &&
      (stop < |s| ==> if FromLetter(s[stop], urlsafe).Some? then ByteCount(k + 1) > maxlen else !Ignored(ignore, s[stop])))
    decreases |s| - i
  {
    hide Values, FromLetter, ByteCount;
    if i < |s| && StopAt(s, maxlen, ignore, urlsafe, i) != i {
      PrefixValues(s, i, urlsafe);
      NextByteCount(|Values(s[..i], urlsafe)|);
      StopMeans(s, maxlen, ignore, urlsafe, i + 1);
    }
  }

  lemma NextByteCount(n: nat)
    ensures ByteCount(n) <= ByteCount(n + 1)
  {}

  /** How many padding characters a text holds. */
  function PadsIn(s: Text): nat { if s == [] then 0 else PadsIn(s[1..]) + if s[0] == PAD then 1 else 0 }

  /** Padding is skipped with the ignored characters before and between: up to the k-th pad, or to the
      character that is neither, or to the end. */
  lemma {:induction false} SkipMeans(s: Text, ignore: Ignore, i: nat, k: nat)
    requires i <= |s|
    ensures (var r := SkipPads(s, ignore, i, k);
      (forall j :: i <= j < r.pos ==> s[j] == PAD || Ignored(ignore, s[j])) &&
      if r.ok then PadsIn(s[i..r.pos]) == k && (r.pos > i ==> s[r.pos - 1] == PAD)
      else PadsIn(s[i..r.pos]) < k && (r.pos < |s| ==> s[r.pos] != PAD && !Ignored(ignore, s[r.pos])))
    decreases |s| - i
  {
    if k > 0 && i < |s| && (s[i] == PAD || Ignored(ignore, s[i])) {
      var k' := if s[i] == PAD then k - 1 else k;
      SkipMeans(s, ignore, i + 1, k');
      var r := SkipPads(s, ignore, i, k);
      assert s[i..r.pos][1..] == s[i + 1..r.pos];
    }
  }

  lemma {:induction false} SkipIgnoredMeans(s: Text, ignore: Ignore, i: nat)
    requires i <= |s|
    ensures (var r := SkipIgnored(s, ignore, i);
      (forall j :: i <= j < r ==> Ignored(ignore, s[j])) && (r < |s| ==> !Ignored(ignore, s[r])))
    decreases |s| - i
  {
    if i < |s| && Ignored(ignore, s[i]) { SkipIgnoredMeans(s, ignore, i + 1); }
  }

  // ------------------------------------------------------------------ texts with ignored characters

  /** The text without its ignored characters. A digit is a digit even if it is listed. */
  function Kept(s: Text, ignore: Ignore, urlsafe: bool): Text {
    if s == [] then [] else
      (if FromLetter(s[0], urlsafe).None? && Ignored(ignore, s[0]) then [] else [s[0]]) + Kept(s[1..], ignore, urlsafe)
  }

  lemma {:induction false} KeptJoin(a: Text, b: Text, ignore: Ignore, urlsafe: bool)
    ensures Kept(a + b, ignore, urlsafe) == Kept(a, ignore, urlsafe) + Kept(b, ignore, urlsafe)
    decreases |a|
  {
    hide FromLetter, Ignored;
    if a == [] {
      assert a + b == b;
    } else {
      assert (a + b)[1..] == a[1..] + b && (a + b)[0] == a[0];
      KeptJoin(a[1..], b, ignore, urlsafe);
    }
  }

  lemma {:induction false} KeptDigits(t: Text, ignore: Ignore, urlsafe: bool)
    requires Ascii(t) && forall i :: 0 <= i < |t| ==> FromLetter(t[i], urlsafe).Some? || Ignored(ignore, t[i])
    ensures Kept(t, ignore, urlsafe) == Letters(Values(t, urlsafe), urlsafe)
    decreases |t|
  {
    if t != [] {
      var n := |t| - 1;
      KeptDigits(t[..n], ignore, urlsafe);
      KeptJoin(t[..n], [t[n]], ignore, urlsafe);
      assert t == t[..n] + [t[n]];
      LetterRoundTrip(0, t[n], urlsafe);
      KeptOne(t[n], ignore, urlsafe);
      hide FromLetter, Letter;
    }
  }

  lemma KeptOne(c: Char, ignore: Ignore, urlsafe: bool)
    ensures Kept([c], ignore, urlsafe) == if FromLetter(c, urlsafe).None? && Ignored(ignore, c) then [] else [c]
  {
    assert [c][1..] == [];
  }

  lemma {:induction false} KeptPads(t: Text, ignore: Ignore, urlsafe: bool)
    requires !Ignored(ignore, PAD)
    requires forall i :: 0 <= i < |t| ==> t[i] == PAD || (Ignored(ignore, t[i]) && FromLetter(t[i], urlsafe).None?)
    ensures Kept(t, ignore, urlsafe) == Pads(PadsIn(t))
    decreases |t|
  {
    if t != [] {
      hide FromLetter;
      KeptPads(t[1..], ignore, urlsafe);
    }
  }

  /** An accepted ASCII text, without its ignored characters, is the encoding of its bytes, if padding is
      not ignored and no digit is. */
  lemma EncodeDecodedIgnoring(s: Text, maxlen: nat, ignore: Ignore, v: Variant)
    requires Ascii(s) && !Ignored(ignore, PAD)
    requires forall i :: 0 <= i < |s| && Ignored(ignore, s[i]) ==> FromLetter(s[i], v.urlsafe).None?
    requires (var r := Decoded(s, maxlen, ignore, v); r.ok && r.end == |s|)
    ensures Encoded(Decoded(s, maxlen, ignore, v).bytes, v) == Kept(s, ignore, v.urlsafe)
  {
    hide FromLetter, Number, Shr, StopAt, SkipPads, SkipIgnored, Be, DigitsOf, Values, Kept, ByteCount, PadsIn, Ignored;
    var stop := StopAt(s, maxlen, ignore, v.urlsafe, 0);
    var d := Values(s[..stop], v.urlsafe);
    NoPrefix(s, v.urlsafe);
    StopMeans(s, maxlen, ignore, v.urlsafe, 0);
    var left := 6 * |d| % 8;
    Pow2Positive(left);
    DigitsOfNumber(d);
    var k := if v.padded then left / 2 else 0;
    SkipMeans(s, ignore, stop, k);
    var p := SkipPads(s, ignore, stop, k).pos;
    SkipIgnoredMeans(s, ignore, p);
    KeptParts(s, ignore, v.urlsafe, stop, p, k);
  }

  lemma KeptParts(s: Text, ignore: Ignore, urlsafe: bool, stop: nat, p: nat, k: nat)
    requires stop <= p <= |s| && Ascii(s) && !Ignored(ignore, PAD) && PadsIn(s[stop..p]) == k
    requires forall i :: 0 <= i < |s| && Ignored(ignore, s[i]) ==> FromLetter(s[i], urlsafe).None?
    requires forall j :: 0 <= j < stop ==> FromLetter(s[j], urlsafe).Some? || Ignored(ignore, s[j])
    requires forall j :: stop <= j < p ==> s[j] == PAD || Ignored(ignore, s[j])
    requires forall j :: p <= j < |s| ==> Ignored(ignore, s[j])
    ensures Kept(s, ignore, urlsafe) == Letters(Values(s[..stop], urlsafe), urlsafe) + Pads(k)
  {
    hide FromLetter, Values, Kept, PadsIn, Ignored;
    var a, b, c := s[..stop], s[stop..p], s[p..];
    KeptDigits(a, ignore, urlsafe);
    KeptPads(b, ignore, urlsafe);
    KeptPads(c, ignore, urlsafe);
    NoPadsIn(c, ignore);
    KeptJoin(a, b, ignore, urlsafe);
    KeptJoin(a + b, c, ignore, urlsafe);
    assert s == a + b + c;
  }

  lemma NoPrefix(s: Text, urlsafe: bool)
    ensures Values(s[..0], urlsafe) == [] && ByteCount(0) == 0
  {}

  lemma {:induction false} NoPadsIn(t: Text, ignore: Ignore)
    requires !Ignored(ignore, PAD) && forall i :: 0 <= i < |t| ==> Ignored(ignore, t[i])
    ensures PadsIn(t) == 0
  {
    if t != [] { NoPadsIn(t[1..], ignore); }
  }

  /** The same for base64: the four letters of "foo" and a NUL are read to the end only with `ignore`. */
  lemma NulIsIgnored()
    ensures (var s: Text := [90, 109, 57, 118, 0];
      Decoded(s, 3, Ignore([]), ORIGINAL).end == 5 && Decoded(s, 3, NoIgnore, ORIGINAL).end == 4)
  {
    var s: Text := [90, 109, 57, 118, 0];
    NulStops(s);
    hide StopAt, Values, Number, Shr, Be, FromLetter;
    NoPads(s, NoIgnore, 4);
    NoPads(s, Ignore([]), 5);
    assert 6 * |Values(s[..4], false)| % 8 == 0 && 6 * |Values(s[..5], false)| % 8 == 0 && Pow2(0) == 1;
  }

  lemma NulStops(s: Text)
    requires s == [90, 109, 57, 118, 0]
    ensures StopAt(s, 3, NoIgnore, false, 0) == 4 && StopAt(s, 3, Ignore([]), false, 0) == 5
    ensures |Values(s[..4], false)| == |Values(s[..5], false)| == 4 && FromLetter(s[4], false).None?
  {
    assert s[..4] == [90, 109, 57, 118];
    StopAfterDigits(s, 4, 3, NoIgnore, false, 0);
    StopAfterDigits(s, 4, 3, Ignore([]), false, 0);
    ValuesOfDigits(s[..4], false);
    PrefixValues(s, 4, false);
    assert s[..5] == s;
    assert FromLetter(s[4], false).None?;
    hide Values, FromLetter;
  }
}
