/** The base64 decoder, and how it inverts the encoder. */
module Base64Decode {
  import opened Bytes
  import opened Digits
  import opened Base64Letters
  import opened Base64

  /** The `ignore` argument: null or a C string. strchr also finds the string's closing NUL. */
  datatype Ignore = NoIgnore | Ignore(chars: Text)

  predicate Ignored(ignore: Ignore, c: Char) {
    ignore.Ignore? && (c in ignore.chars || c == 0)
  }

  // ------------------------------------------------------------------ what decoding means

  /** The digits among the characters of a text. */
  function Values(s: Text, urlsafe: bool): seq<Sextet> {
    if s == [] then [] else
      var d := FromLetter(s[|s| - 1], urlsafe);
      Values(s[..|s| - 1], urlsafe) + if d.Some? then [d.x] else []
  }

  /** How many whole bytes n digits hold. */
  function ByteCount(n: nat): nat { 6 * n / 8 }

  /** Where reading digits stops: at a character that is neither digit nor ignored, or at the digit
      that completes a byte for which there is no room. */
  function StopAt(s: Text, maxlen: nat, ignore: Ignore, urlsafe: bool, i: nat): (stop: nat)
    requires i <= |s|
    ensures i <= stop <= |s|
    decreases |s| - i
  {
    if i == |s| then i
    else if FromLetter(s[i], urlsafe).Some? then
      if ByteCount(|Values(s[..i], urlsafe)| + 1) > maxlen then i else StopAt(s, maxlen, ignore, urlsafe, i + 1)
    else if Ignored(ignore, s[i]) then StopAt(s, maxlen, ignore, urlsafe, i + 1)
    else i
  }

  datatype Skip = Skip(ok: bool, pos: nat)

  /** Past k padding characters, and the ignored ones among them. */
  function SkipPads(s: Text, ignore: Ignore, i: nat, k: nat): (r: Skip)
    requires i <= |s|
    ensures i <= r.pos <= |s|
    decreases |s| - i
  {
    if k == 0 then Skip(true, i)
    else if i == |s| then Skip(false, i)
    else if s[i] == PAD then SkipPads(s, ignore, i + 1, k - 1)
    else if Ignored(ignore, s[i]) then SkipPads(s, ignore, i + 1, k)
    else Skip(false, i)
  }

  function SkipIgnored(s: Text, ignore: Ignore, i: nat): (r: nat)
    requires i <= |s|
    ensures i <= r <= |s|
    decreases |s| - i
  {
    if i < |s| && Ignored(ignore, s[i]) then SkipIgnored(s, ignore, i + 1) else i
  }

  /** The result: whether the text was accepted, its bytes (none if not) and where reading ended. */
  datatype Reading = Reading(ok: bool, bytes: Bytes, end: nat)

  function Decoded(s: Text, maxlen: nat, ignore: Ignore, v: Variant): (r: Reading)
    ensures r.end <= |s|
  {
    var stop := StopAt(s, maxlen, ignore, v.urlsafe, 0);
    var d := Values(s[..stop], v.urlsafe);
    if stop < |s| && FromLetter(s[stop], v.urlsafe).Some? then Reading(false, [], stop)
    else Finish(s, stop, d, ignore, v)
  }

  /** Leftover bits must be at most four, all zero, and matched by padding. */
  function Finish(s: Text, stop: nat, d: seq<Sextet>, ignore: Ignore, v: Variant): (r: Reading)
    requires stop <= |s|
    ensures r.end <= |s|
  {
    var left := 6 * |d| % 8;
    Pow2Positive(left);
    if left > 4 || Number(d) % Pow2(left) != 0 then Reading(false, [], stop)
    else
      var skip := SkipPads(s, ignore, stop, if v.padded then left / 2 else 0);
      if !skip.ok then Reading(false, [], skip.pos)
      else Reading(true, Be(Shr(Number(d), left), ByteCount(|d|)), SkipIgnored(s, ignore, skip.pos))
  }

  // ------------------------------------------------------------------ the decoder

  lemma TakeDigit(n: nat, d: Sextet, k: nat)
    ensures Shr(n * 0x40 + d, k + 6) == Shr(n, k)
    ensures (n % WORD * 0x40 % WORD + d) % WORD == (n * 0x40 + d) % WORD
  {
    Shr6(n, d);
    ShrSum(n * 0x40 + d, 6, k);
    ShiftedWord(n, 0x40, d);
  }

  lemma GiveByte(n: nat, k: nat, count: nat)
    requires k + 8 <= 32
    ensures Be(Shr(n, k), count + 1) == Be(Shr(n, k + 8), count) + [Shr(n % WORD, k) % 0x100]
  {
    Word32();
    assert Pow2(8) == 0x100;
    PickBits(n, 32, k, 8);
    ShrSum(n, k, 8);
    Shr8Div(Shr(n, k));
    hide Shr, Pow2;
  }

  lemma PrefixValues(s: Text, i: nat, urlsafe: bool)
    requires i < |s|
    ensures Values(s[..i + 1], urlsafe) == Values(s[..i], urlsafe) +
              if FromLetter(s[i], urlsafe).Some? then [FromLetter(s[i], urlsafe).x] else []
  {
    assert s[..i + 1][..i] == s[..i];
  }

  lemma NumberPlus(d: seq<Sextet>, x: Sextet)
    ensures Number(d + [x]) == Number(d) * 0x40 + x
  {
    assert (d + [x])[..|d|] == d;
  }

  lemma StartDecoding(s: Text, b: Bytes, urlsafe: bool)
    requires s == [] && b == []
    ensures Values(s, urlsafe) == [] && Number([]) == 0 && Shr(0, 0) == 0 && b == Be(0, 0)
  {}

  /** The digit loop: six bits in, a byte out when there are eight. It ends with the digits up to
      the stop, the bytes they complete, and the leftover bits in `acc`. */
  method DecodeDigits(bin: array<Byte>, maxlen: nat, b64: Text, ignore: Ignore, urlsafe: bool)
      returns (pos: nat, count: nat, acc: nat, acc_len: nat, full: bool)
    requires maxlen <= bin.Length
    modifies bin
    ensures pos == StopAt(b64, maxlen, ignore, urlsafe, 0)
    ensures full <==> pos < |b64| && FromLetter(b64[pos], urlsafe).Some?
    ensures !full ==> (
      var d := Values(b64[..pos], urlsafe);
      acc_len == 6 * |d| % 8 && count == ByteCount(|d|) && acc == Number(d) % WORD &&
      count <= maxlen && bin[..count] == Be(Shr(Number(d), acc_len), count))
    ensures forall i :: maxlen <= i < bin.Length ==> bin[i] == old(bin[i])
  {
    hide FromLetter, CharToByte, Number, Shr, Be, Values, ByteCount;
    pos, count, acc, acc_len, full := 0, 0, 0, 0, false;
    ghost var d: seq<Sextet> := [];
    StartDecoding(b64[..0], bin[..0], urlsafe);
    while pos < |b64|
      invariant pos <= |b64| && count <= maxlen && acc_len < 8 && !full
      invariant StopAt(b64, maxlen, ignore, urlsafe, 0) == StopAt(b64, maxlen, ignore, urlsafe, pos)
      invariant d == Values(b64[..pos], urlsafe) && 6 * |d| == 8 * count + acc_len
      invariant acc == Number(d) % WORD
      invariant bin[..count] == Be(Shr(Number(d), acc_len), count)
      invariant forall i :: maxlen <= i < bin.Length ==> bin[i] == old(bin[i])
    {
      var x: nat := CharToByte(b64[pos], urlsafe);
      CharToByteIsDigit(b64[pos], urlsafe);
      PrefixValues(b64, pos, urlsafe);
      if x == 0xff {
        if !Ignored(ignore, b64[pos]) { break; }
      } else {
        TakeDigit(Number(d), x, acc_len);
        NextCount(|d|, count, acc_len);
        NumberPlus(d, x);
        acc := (acc * 0x40 % WORD + x) % WORD;
        acc_len := acc_len + 6;
        if acc_len >= 8 {
          acc_len := acc_len - 8;
          if count >= maxlen {
            full := true;
            break;
          }
          GiveByte(Number(d + [x]), acc_len, count);
          PutByte(bin, count, Shr(acc, acc_len) % 0x100);
          count := count + 1;
        }
        d := d + [x];
      }
      pos := pos + 1;
    }
    if !full { NextCount(|d|, count, acc_len); }
  }

  lemma NextCount(n: nat, count: nat, left: nat)
    requires 6 * n == 8 * count + left && left < 8
    ensures ByteCount(n) == count && 6 * n % 8 == left
    ensures ByteCount(n + 1) == if left + 6 >= 8 then count + 1 else count
  {
    Eights(count, left);
    if left + 6 >= 8 { Eights(count + 1, left - 2); } else { Eights(count, left + 6); }
  }

  method PutByte(bin: array<Byte>, k: nat, x: Byte)
    requires k < bin.Length
    modifies bin
    ensures bin[..k + 1] == old(bin[..k]) + [x]
    ensures forall i :: k < i < bin.Length ==> bin[i] == old(bin[i])
  {
    bin[k] := x;
  }

  /** _sodium_base642bin_skip_padding */
  method SkipPadding(b64: Text, start: nat, ignore: Ignore, padding: nat) returns (r: Skip)
    requires start <= |b64|
    ensures r == SkipPads(b64, ignore, start, padding)
  {
    var pos, k := start, padding;
    while k > 0
      invariant pos <= |b64|
      invariant SkipPads(b64, ignore, pos, k) == SkipPads(b64, ignore, start, padding)
      decreases |b64| - pos
    {
      if pos >= |b64| { return Skip(false, pos); }
      if b64[pos] == PAD {
        k := k - 1;
      } else if !Ignored(ignore, b64[pos]) {
        return Skip(false, pos);
      }
      pos := pos + 1;
    }
    r := Skip(true, pos);
  }

  /** The whole decoder. Without `b64_end` the text must be consumed to the end. */
  method Base642Bin(bin: array<Byte>, maxlen: nat, b64: Text, ignore: Ignore, wantEnd: bool, v: Variant)
      returns (ret: int, count: nat, end: nat)
    requires maxlen <= bin.Length
    modifies bin
    ensures (var r := Decoded(b64, maxlen, ignore, v);
      end == r.end && count == |r.bytes| && count <= maxlen && (r.ok ==> bin[..count] == r.bytes) &&
      ret == if r.ok && (wantEnd || end == |b64|) then 0 else -1)
    ensures forall i :: maxlen <= i < bin.Length ==> bin[i] == old(bin[i])
  {
    hide FromLetter, Number, Shr, StopAt, Values, ByteCount, Be, SkipPads, SkipIgnored;
    var pos, acc, acc_len, full;
    pos, count, acc, acc_len, full := DecodeDigits(bin, maxlen, b64, ignore, v.urlsafe);
    ret := if full then -1 else 0;
    Pow2Positive(acc_len);
    ghost var d := Values(b64[..pos], v.urlsafe);
    if !full { LeftoverBits(Number(d), acc_len); }
    if acc_len > 4 || acc % Pow2(acc_len) != 0 {
      ret := -1;
    } else if ret == 0 && v.padded {
      var skip := SkipPadding(b64, pos, ignore, acc_len / 2);
      pos := skip.pos;
      ret := if skip.ok then 0 else -1;
    }
    NoPads(b64, ignore, pos);
    if ret != 0 {
      count := 0;
    } else if ignore.Ignore? {
      ghost var was := pos;
      while pos < |b64| && Ignored(ignore, b64[pos])
        invariant pos <= |b64|
        invariant SkipIgnored(b64, ignore, pos) == SkipIgnored(b64, ignore, was)
        modifies {}
      {
        OneIgnored(b64, ignore, pos);
        pos := pos + 1;
      }
      OneIgnored(b64, ignore, pos);
    } else {
      OneIgnored(b64, ignore, pos);
    }
    end := pos;
    if !wantEnd && pos != |b64| { ret := -1; }
  }

  lemma NoPads(s: Text, ignore: Ignore, i: nat)
    requires i <= |s|
    ensures SkipPads(s, ignore, i, 0) == Skip(true, i)
  {}

  lemma OneIgnored(s: Text, ignore: Ignore, i: nat)
    requires i <= |s|
    ensures SkipIgnored(s, ignore, i) ==
              if i < |s| && Ignored(ignore, s[i]) then SkipIgnored(s, ignore, i + 1) else i
  {}

  lemma LeftoverBits(n: nat, k: nat)
    requires k <= 8
    ensures Pow2(k) > 0 && n % WORD % Pow2(k) == n % Pow2(k)
  {
    Word32();
    ModOfMod(n, k, 32);
  }

  // ------------------------------------------------------------------ decoding inverts encoding

  lemma {:induction false} ValuesOfLetters(d: seq<Sextet>, urlsafe: bool)
    ensures Values(Letters(d, urlsafe), urlsafe) == d
    decreases |d|
  {
    if d != [] {
      var k := |d| - 1;
      LetterRoundTrip(d[k], 0, urlsafe);
      ValuesOfLetters(d[..k], urlsafe);
      assert Letters(d, urlsafe)[..k] == Letters(d[..k], urlsafe);
    }
  }

  predicate AllDigits(s: Text, urlsafe: bool) {
    forall i :: 0 <= i < |s| ==> FromLetter(s[i], urlsafe).Some?
  }

  predicate Ascii(s: Text) {
    forall i :: 0 <= i < |s| ==> s[i] >= 0
  }

  lemma {:induction false} ValuesOfDigits(s: Text, urlsafe: bool)
    requires AllDigits(s, urlsafe)
    ensures |Values(s, urlsafe)| == |s|
    ensures forall i :: 0 <= i < |s| ==> Values(s, urlsafe)[i] == FromLetter(s[i], urlsafe).x
    decreases |s|
  {
    if s != [] { ValuesOfDigits(s[..|s| - 1], urlsafe); }
  }

  /** Digits are read to the end of their run when there is room for their bytes. */
  lemma {:induction false} StopAfterDigits(s: Text, n: nat, maxlen: nat, ignore: Ignore, urlsafe: bool, i: nat)
    requires i <= n <= |s| && AllDigits(s[..n], urlsafe) && ByteCount(n) <= maxlen
    ensures StopAt(s, maxlen, ignore, urlsafe, i) == StopAt(s, maxlen, ignore, urlsafe, n)
    decreases n - i
  {
    if i < n {
      assert s[..n][i] == s[i];
      assert s[..i] == s[..n][..i];
      ValuesOfDigits(s[..i], urlsafe);
      StopAfterDigits(s, n, maxlen, ignore, urlsafe, i + 1);
    }
  }

  lemma {:induction false} PadsAreSkipped(s: Text, ignore: Ignore, i: nat, k: nat)
    requires i + k <= |s| && forall j :: i <= j < i + k ==> s[j] == PAD
    ensures SkipPads(s, ignore, i, k) == Skip(true, i + k)
    decreases k
  {
    if k > 0 { PadsAreSkipped(s, ignore, i + 1, k - 1); }
  }

  lemma {:induction false} PadsAreIgnored(s: Text, maxlen: nat, ignore: Ignore, urlsafe: bool, i: nat)
    requires i <= |s| && Ignored(ignore, PAD)
    requires forall j :: i <= j < |s| ==> s[j] == PAD
    ensures StopAt(s, maxlen, ignore, urlsafe, i) == |s|
    decreases |s| - i
  {
    if i < |s| {
      LetterRoundTrip(0, 0, urlsafe);
      PadsAreIgnored(s, maxlen, ignore, urlsafe, i + 1);
    }
  }

  /** The digits of an encoding are the number's, with the filling bits zero. */
  lemma NumberOfDigits(b: Bytes)
    ensures (var n, k := Number(DigitsOf(b)), Slack(|b|);
      n == Shl(FromBe(b), k) && Be(Shr(n, k), |b|) == b && Pow2(k) > 0 && n % Pow2(k) == 0)
  {
    hide Sextets, Number, Shl, Shr, FromBe, Be, Pow2, Slack, DigitCount;
    var k := Slack(|b|);
    var n := Shl(FromBe(b), k);
    FromBeBound(b);
    ShlBound(FromBe(b), 8 * |b|, k);
    NumberOfSextets(n, DigitCount(|b|));
    ShrShl(FromBe(b), k);
    BeOfFromBe(b);
    LowBitsZero(n, k);
  }

  /** The text of an encoding is a run of digits followed by padding. */
  lemma EncodedParts(b: Bytes, v: Variant)
    ensures (var s, n := Encoded(b, v), DigitCount(|b|);
      |s| == n + PadCount(|b|, v) && s[..n] == Letters(DigitsOf(b), v.urlsafe) &&
      AllDigits(s[..n], v.urlsafe) && Values(s[..n], v.urlsafe) == DigitsOf(b) &&
      forall i :: n <= i < |s| ==> s[i] == PAD)
  {
    hide DigitsOf, DigitCount, PadCount, FromLetter;
    var s, n := Encoded(b, v), DigitCount(|b|);
    assert s[..n] == Letters(DigitsOf(b), v.urlsafe);
    ValuesOfLetters(DigitsOf(b), v.urlsafe);
    forall i | 0 <= i < n ensures FromLetter(s[i], v.urlsafe).Some? {
      LetterRoundTrip(DigitsOf(b)[i], 0, v.urlsafe);
    }
  }

  lemma Leftover(n: nat)
    ensures 6 * DigitCount(n) % 8 == Slack(n) && ByteCount(DigitCount(n)) == n
  {
    hide DigitCount;
    var k := Slack(n);
    Eights(n, k);
  }

  /** Padding that the `ignore` set swallows is missed afterwards. */
  predicate PadsSwallowed(n: nat, ignore: Ignore, v: Variant) {
    v.padded && n % 3 != 0 && Ignored(ignore, PAD)
  }

  /** Decoding an encoding gives the bytes back and reads the whole text, in every variant and with
      every `ignore`, exactly when they fit the buffer and no needed padding is ignored. */
  lemma DecodeEncoded(b: Bytes, maxlen: nat, ignore: Ignore, v: Variant)
    ensures (Decoded(Encoded(b, v), maxlen, ignore, v) == Reading(true, b, |Encoded(b, v)|)
      <==> |b| <= maxlen && !PadsSwallowed(|b|, ignore, v))
  {
    hide FromLetter, Finish, Values, DigitsOf, Be, Encoded;
    var s, n := Encoded(b, v), DigitCount(|b|);
    EncodedParts(b, v);
    Leftover(|b|);
    if |b| > maxlen {
      BytesFit(s, maxlen, ignore, v);
    } else {
      StopAfterDigits(s, n, maxlen, ignore, v.urlsafe, 0);
      if Ignored(ignore, PAD) && PadCount(|b|, v) > 0 {
        PadsAreIgnored(s, maxlen, ignore, v.urlsafe, n);
        MissingPads(s, ignore, |b|, v);
      } else {
        StopAtPad(s, maxlen, ignore, v.urlsafe, n);
        FinishEncoded(b, s, ignore, v);
      }
    }
  }

  /** After the digits of an encoding the leftover bits, the padding and the end are in order. */
  lemma FinishEncoded(b: Bytes, s: Text, ignore: Ignore, v: Variant)
    requires |s| == DigitCount(|b|) + PadCount(|b|, v)
    requires forall i :: DigitCount(|b|) <= i < |s| ==> s[i] == PAD
    ensures Finish(s, DigitCount(|b|), DigitsOf(b), ignore, v) == Reading(true, b, |s|)
  {
    hide Number, Shr, Shl, DigitsOf, Be, DigitCount, Slack, ByteCount;
    Leftover(|b|);
    NumberOfDigits(b);
    PadsAreSkipped(s, ignore, DigitCount(|b|), PadCount(|b|, v));
  }

  lemma StopAtPad(s: Text, maxlen: nat, ignore: Ignore, urlsafe: bool, n: nat)
    requires n <= |s| && (n < |s| ==> s[n] == PAD && !Ignored(ignore, PAD))
    ensures StopAt(s, maxlen, ignore, urlsafe, n) == n
    ensures n < |s| ==> FromLetter(s[n], urlsafe).None?
  {
    LetterRoundTrip(0, 0, urlsafe);
  }

  lemma {:induction false} PadsHaveNoValue(s: Text, n: nat, urlsafe: bool)
    requires n <= |s| && forall i :: n <= i < |s| ==> s[i] == PAD
    ensures Values(s, urlsafe) == Values(s[..n], urlsafe)
    decreases |s|
  {
    if n < |s| {
      LetterRoundTrip(0, 0, urlsafe);
      assert s[..|s| - 1][..n] == s[..n];
      PadsHaveNoValue(s[..|s| - 1], n, urlsafe);
    } else {
      assert s[..n] == s;
    }
  }

  lemma MissingPads(s: Text, ignore: Ignore, n: nat, v: Variant)
    requires DigitCount(n) <= |s| && |Values(s[..DigitCount(n)], v.urlsafe)| == DigitCount(n)
    requires forall i :: DigitCount(n) <= i < |s| ==> s[i] == PAD
    requires PadCount(n, v) > 0
    ensures !Finish(s, |s|, Values(s[..|s|], v.urlsafe), ignore, v).ok
  {
    hide Values, Number, Shr, Be;
    assert s[..|s|] == s;
    PadsHaveNoValue(s, DigitCount(n), v.urlsafe);
    Leftover(n);
  }

  lemma {:induction false} StopFits(s: Text, maxlen: nat, ignore: Ignore, urlsafe: bool, i: nat)
    requires i <= |s| && ByteCount(|Values(s[..i], urlsafe)|) <= maxlen
    ensures ByteCount(|Values(s[..StopAt(s, maxlen, ignore, urlsafe, i)], urlsafe)|) <= maxlen
    decreases |s| - i
  {
    hide Values, FromLetter;
    if i < |s| && StopAt(s, maxlen, ignore, urlsafe, i) != i {
      PrefixValues(s, i, urlsafe);
      StopFits(s, maxlen, ignore, urlsafe, i + 1);
    }
  }

  /** Nothing longer than the buffer is ever accepted. */
  lemma BytesFit(s: Text, maxlen: nat, ignore: Ignore, v: Variant)
    ensures |Decoded(s, maxlen, ignore, v).bytes| <= maxlen
  {
    assert Values(s[..0], v.urlsafe) == [];
    StopFits(s, maxlen, ignore, v.urlsafe, 0);
    hide Values, Number, Shr, FromLetter, StopAt;
  }

  // ------------------------------------------------------------------ encoding inverts decoding

  /** Without `ignore`, what is read before the stop is digits only. */
  lemma {:induction false} OnlyDigits(s: Text, maxlen: nat, urlsafe: bool, i: nat)
    requires i <= |s|
    ensures forall j :: i <= j < StopAt(s, maxlen, NoIgnore, urlsafe, i) ==> FromLetter(s[j], urlsafe).Some?
    decreases |s| - i
  {
    hide FromLetter, Values;
    if i < |s| && StopAt(s, maxlen, NoIgnore, urlsafe, i) != i {
      OnlyDigits(s, maxlen, urlsafe, i + 1);
    }
  }

  lemma {:induction false} OnlyPads(s: Text, i: nat, k: nat)
    requires i <= |s| && SkipPads(s, NoIgnore, i, k).ok
    ensures SkipPads(s, NoIgnore, i, k).pos == i + k <= |s|
    ensures forall j :: i <= j < i + k ==> s[j] == PAD
    decreases k
  {
    if k > 0 { OnlyPads(s, i + 1, k - 1); }
  }

  /** Digits whose leftover bits are at most four and zero are those of the bytes they give. */
  lemma DigitsOfNumber(d: seq<Sextet>)
    requires 6 * |d| % 8 <= 4 && Number(d) % Pow2(6 * |d| % 8) == 0
    ensures (var b := Be(Shr(Number(d), 6 * |d| % 8), ByteCount(|d|));
      DigitsOf(b) == d && Slack(|b|) == 6 * |d| % 8)
  {
    hide Shr, Shl, Number, Sextets, Be, Pow2, DigitCount, ByteCount;
    var k, n := 6 * |d| % 8, Number(d);
    var m := ByteCount(|d|);
    WholeBytes(|d|);
    NumberBound(d);
    ShrBound(n, 8 * m, k);
    FromBeOfBe(Shr(n, k), m);
    LowBitsZero(n, k);
    SextetsOfNumber(d);
  }

  lemma WholeBytes(n: nat)
    ensures 6 * n == 8 * ByteCount(n) + 6 * n % 8
    ensures 6 * n % 8 <= 4 ==> DigitCount(ByteCount(n)) == n && Slack(ByteCount(n)) == 6 * n % 8
  {
    var m, k := ByteCount(n), 6 * n % 8;
    if k <= 4 { Sixes(n, 5 - k); }
  }

  lemma Eights(a: nat, x: nat)
    requires x < 8
    ensures (8 * a + x) / 8 == a && (8 * a + x) % 8 == x
  {}

  lemma Sixes(a: nat, x: nat)
    requires x < 6
    ensures (6 * a + x) / 6 == a
  {}

  /** The letters of the values of a run of digits are the run itself, exactly on ASCII. */
  lemma LettersOfValues(t: Text, urlsafe: bool)
    requires AllDigits(t, urlsafe)
    ensures Letters(Values(t, urlsafe), urlsafe) == t <==> Ascii(t)
  {
    hide Values, FromLetter, Letter;
    ValuesOfDigits(t, urlsafe);
    var u := Letters(Values(t, urlsafe), urlsafe);
    forall i | 0 <= i < |t| ensures u[i] == t[i] <==> t[i] >= 0 {
      LetterRoundTrip(0, t[i], urlsafe);
      assert u[i] == Letter(Values(t, urlsafe)[i], urlsafe);
    }
    if u == t {
      forall i | 0 <= i < |t| ensures t[i] >= 0 { assert u[i] == t[i]; }
    }
  }

  predicate Accepted(s: Text, maxlen: nat, v: Variant) {
    var r := Decoded(s, maxlen, NoIgnore, v);
    r.ok && r.end == |s|
  }

  /** What an accepted text looks like. */
  lemma AcceptedParts(s: Text, maxlen: nat, v: Variant)
    requires Accepted(s, maxlen, v)
    ensures (var b := Decoded(s, maxlen, NoIgnore, v).bytes;
      var n := DigitCount(|b|);
      |s| == n + PadCount(|b|, v) && AllDigits(s[..n], v.urlsafe) && Values(s[..n], v.urlsafe) == DigitsOf(b) &&
      forall i :: n <= i < |s| ==> s[i] == PAD)
  {
    hide Values, FromLetter, Number, Shr, StopAt, SkipPads, Be, DigitsOf;
    var stop := StopAt(s, maxlen, NoIgnore, v.urlsafe, 0);
    var d := Values(s[..stop], v.urlsafe);
    OnlyDigits(s, maxlen, v.urlsafe, 0);
    assert AllDigits(s[..stop], v.urlsafe);
    ValuesOfDigits(s[..stop], v.urlsafe);
    var left := 6 * |d| % 8;
    Pow2Positive(left);
    DigitsOfNumber(d);
    OnlyPads(s, stop, if v.padded then left / 2 else 0);
  }

  /** Every accepted text without `ignore` is the encoding of the bytes it gives, exactly when it is
      ASCII: the decoder also takes any character above 127 as the digit 63. */
  lemma EncodeDecoded(s: Text, maxlen: nat, v: Variant)
    requires Accepted(s, maxlen, v)
    ensures Encoded(Decoded(s, maxlen, NoIgnore, v).bytes, v) == s <==> Ascii(s)
  {
    hide Values, FromLetter, Decoded, DigitsOf, DigitCount, PadCount, Accepted;
    var b := Decoded(s, maxlen, NoIgnore, v).bytes;
    var n := DigitCount(|b|);
    AcceptedParts(s, maxlen, v);
    LettersOfValues(s[..n], v.urlsafe);
    var u := Encoded(b, v);
    assert u[..n] == Letters(DigitsOf(b), v.urlsafe);
    assert u[n..] == s[n..];
    assert u == u[..n] + u[n..] && s == s[..n] + s[n..];
    if Ascii(s) { assert Ascii(s[..n]); }
    if Ascii(s[..n]) {
      forall i | 0 <= i < |s| ensures s[i] >= 0 {
        if i < n { assert s[..n][i] == s[i]; }
      }
    }
  }

  /** The accepted ASCII texts are exactly the encodings of what fits the buffer. */
  lemma AcceptedExactly(s: Text, maxlen: nat, v: Variant)
    requires Ascii(s)
    ensures Accepted(s, maxlen, v) <==> exists b :: |b| <= maxlen && Encoded(b, v) == s
  {
    hide Decoded, Encoded, Ascii;
    if Accepted(s, maxlen, v) {
      BytesFit(s, maxlen, NoIgnore, v);
      EncodeDecoded(s, maxlen, v);
    }
    if b :| |b| <= maxlen && Encoded(b, v) == s {
      DecodeEncoded(b, maxlen, NoIgnore, v);
    }
  }

  /** The decoder accepts a character outside ASCII, so its text is not an encoding: "+++\xFF". */
  lemma BeyondAscii()
    ensures (var s: Text := [43, 43, 43, -1];
      Accepted(s, 3, Variant(false, true)) &&
      Encoded(Decoded(s, 3, NoIgnore, Variant(false, true)).bytes, Variant(false, true)) != s)
  {
    var s: Text := [43, 43, 43, -1];
    var v := Variant(false, true);
    assert s[..4] == s;
    StopAfterDigits(s, 4, 3, NoIgnore, false, 0);
    ValuesOfDigits(s, false);
    NoPads(s, NoIgnore, 4);
    assert Accepted(s, 3, v) by {
      hide Number, Values;
    }
    EncodeDecoded(s, 3, v);
    assert !Ascii(s) by { assert s[3] < 0; }
    hide Encoded, Decoded;
  }

  /** Encoding a message and decoding the text gives the message back. */
  method EncodeThenDecode(bin: Bytes, v: Variant) returns (back: Bytes, ret: int)
    ensures ret == 0 && back == bin
  {
    hide Encoded, Decoded, AndBits, OrBits;
    EncodedLenExact(bin, v);
    var maxlen := EncodedLen(|bin|, v);
    var b64 := new Char[maxlen];
    Bin2Base64(b64, maxlen, bin, v);
    DecodeEncoded(bin, |bin|, NoIgnore, v);
    var out := new Byte[|bin|];
    var count, end;
    ret, count, end := Base642Bin(out, |bin|, b64[..maxlen - 1], NoIgnore, false, v);
    back := out[..count];
  }
}
