/** timespec.h: every operator the node uses is a map on integer nanoseconds. A double is a real. */
module Timespecs {

  const S := 1_000_000_000

  datatype Timespec = Timespec(sec: int, nsec: int)

  function Nanos(ts: Timespec): int { ts.sec * S + ts.nsec }

  predicate Standard(ts: Timespec) { 0 <= ts.nsec < S }

  /** The only standard timespec of n nanoseconds. */
  function OfNanos(n: int): (ts: Timespec)
    ensures Standard(ts) && Nanos(ts) == n
  {
    Timespec(n / S, n % S)
  }

  lemma StandardUnique(a: Timespec, b: Timespec)
    requires Standard(a) && Standard(b) && Nanos(a) == Nanos(b)
    ensures a == b
  {}

  /** standardize: the two loops of the source reach the standard form of the same instant. */
  method Standardize(ts: Timespec) returns (result: Timespec)
    ensures result == OfNanos(Nanos(ts))
  {
    var sec, nsec := ts.sec, ts.nsec;
    while nsec < 0
      invariant sec * S + nsec == Nanos(ts)
      invariant nsec < S || nsec == ts.nsec
      decreases -nsec
    {
      sec := sec - 1;
      nsec := nsec + S;
    }
    while nsec >= S
      invariant sec * S + nsec == Nanos(ts) && nsec >= 0
    {
      sec := sec + 1;
      nsec := nsec - S;
    }
    result := Timespec(sec, nsec);
    StandardUnique(result, OfNanos(Nanos(ts)));
  }

  /** (long long) of a double: truncation toward zero. */
  function Trunc(x: real): int { if x >= 0.0 then x.Floor else -(-x).Floor }

  // ------------------------------------------------------------------ the operators as methods

  /** operator< */
  method Less(lhs: Timespec, rhs: Timespec) returns (r: bool)
    ensures r <==> Nanos(lhs) < Nanos(rhs)
  {
    var l := Standardize(lhs);
    var h := Standardize(rhs);
    if l.sec < h.sec {
      r := true;
    } else if l.sec == h.sec && l.nsec < h.nsec {
      r := true;
    } else {
      r := false;
    }
  }

  /** operator+ */
  method Plus(lhs: Timespec, rhs: Timespec) returns (r: Timespec)
    ensures r == OfNanos(Nanos(lhs) + Nanos(rhs))
  {
    r := Standardize(Timespec(lhs.sec + rhs.sec, lhs.nsec + rhs.nsec));
  }

  /** operator+ with a number of nanoseconds */
  method PlusNanos(lhs: Timespec, rhs: int) returns (r: Timespec)
    ensures r == OfNanos(Nanos(lhs) + rhs)
  {
    r := Standardize(Timespec(lhs.sec, lhs.nsec + rhs));
  }

  /** operator- */
  method Minus(lhs: Timespec, rhs: Timespec) returns (r: Timespec)
    ensures r == OfNanos(Nanos(lhs) - Nanos(rhs))
  {
    r := Standardize(Timespec(lhs.sec - rhs.sec, lhs.nsec - rhs.nsec));
  }

  /** operator/ by a nonzero double */
  method Divide(lhs: Timespec, rhs: real) returns (r: Timespec)
    requires rhs != 0.0
    ensures rhs == 2.0 && Standard(lhs) ==> r == OfNanos(Nanos(lhs) / 2)
  {
    var sec := Trunc(lhs.sec as real / rhs);
    var remainder := lhs.sec as real / rhs - sec as real;
    var nsec := Trunc(remainder * 1000000000.0 + Trunc(lhs.nsec as real / rhs) as real);
    if rhs == 2.0 && Standard(lhs) {
      HalfIsFloor(lhs, sec, nsec);
    }
    r := Standardize(Timespec(sec, nsec));
  }

  lemma TruncHalf(n: int)
    ensures Trunc(n as real / 2.0) == if n >= 0 then n / 2 else -((-n) / 2)
  {
    FloorHalf(n);
    FloorHalf(-n);
    assert -(n as real / 2.0) == (-n) as real / 2.0;
  }

  lemma FloorHalf(n: int)
    ensures (n as real / 2.0).Floor == n / 2
  {
    assert n == 2 * (n / 2) + n % 2;
    assert n as real / 2.0 == (n / 2) as real + (n % 2) as real / 2.0;
  }

  /** The second and nanosecond parts are halved apart, each toward zero; the half second that is
      lost comes back through the remainder, so the whole is floored. */
  lemma HalfIsFloor(ts: Timespec, sec: int, nsec: int)
    requires Standard(ts)
    requires sec == Trunc(ts.sec as real / 2.0)
    requires nsec == Trunc((ts.sec as real / 2.0 - sec as real) * 1000000000.0 + Trunc(ts.nsec as real / 2.0) as real)
    ensures sec * S + nsec == Nanos(ts) / 2
  {
    TruncHalf(ts.sec);
    TruncHalf(ts.nsec);
    var odd := ts.sec - 2 * sec;
    assert ts.sec as real / 2.0 - sec as real == odd as real / 2.0;
    assert -1 <= odd <= 1;
    var whole := odd * 500_000_000 + ts.nsec / 2;
    assert (odd as real / 2.0) * 1000000000.0 == (odd * 500_000_000) as real;
    assert nsec == Trunc(whole as real);
    assert nsec == whole;
  }

  /** The offset expression of the D and U handlers: (rec - org + xmt - recv) / 2. */
  method Offset(org: Timespec, rec: Timespec, xmt: Timespec, recv: Timespec) returns (r: Timespec)
    ensures r == OfNanos((Nanos(rec) - Nanos(org) + Nanos(xmt) - Nanos(recv)) / 2)
  {
    var t := Minus(rec, org);
    t := Plus(t, xmt);
    t := Minus(t, recv);
    r := Divide(t, 2.0);
  }

  /** With any nonnegative delays on the way out and back, any stay at the server, and a server clock
      ahead of the node's by theta, the computed offset is within half the round-trip delay, plus one
      nanosecond, of theta. */
  lemma OffsetErrorBound(org: int, theta: int, out: nat, stay: nat, back: nat)
    ensures var rec := org + out + theta; var xmt := rec + stay; var recv := org + out + stay + back;
      var offset := (rec - org + xmt - recv) / 2;
      && offset == theta + (out - back) / 2
      && 2 * theta - (out + back) - 2 <= 2 * offset <= 2 * theta + (out + back)
  {}
}
