/** Little-endian integers of any length in byte arrays: the generic loops of sodium_increment,
    sodium_add, sodium_sub and sodium_compare. */
module LittleEndian {
  import opened Bytes

  function Value(b: Bytes): nat {
    if b == [] then 0 else b[0] + 0x100 * Value(b[1..])
  }

  /** The k-byte little-endian form of n. */
  function Le(n: nat, k: nat): (b: Bytes)
    ensures |b| == k
  {
    if k == 0 then [] else [n % 0x100] + Le(n / 0x100, k - 1)
  }

  lemma {:induction false} ValueBound(b: Bytes)
    ensures Value(b) < Pow256(|b|)
  {
    if b != [] { ValueBound(b[1..]); }
  }

  lemma {:induction false} ValueLe(n: nat, k: nat)
    requires n < Pow256(k)
    ensures Value(Le(n, k)) == n
    decreases k
  {
    if k > 0 { ValueLe(n / 0x100, k - 1); }
  }

  lemma {:induction false} ValueInjective(a: Bytes, b: Bytes)
    requires |a| == |b| && Value(a) == Value(b)
    ensures a == b
  {
    if a != [] {
      assert a[0] == Value(a) % 0x100 && b[0] == Value(b) % 0x100;
      ValueInjective(a[1..], b[1..]);
      assert a == [a[0]] + a[1..] && b == [b[0]] + b[1..];
    }
  }

  lemma {:induction false} ValueAppend(b: Bytes, x: Byte)
    ensures Value(b + [x]) == Value(b) + x * Pow256(|b|)
    ensures Pow256(|b| + 1) == 0x100 * Pow256(|b|)
  {
    if b != [] {
      assert (b + [x])[1..] == b[1..] + [x];
      ValueAppend(b[1..], x);
      assert 0x100 * (x * Pow256(|b| - 1)) == x * (0x100 * Pow256(|b| - 1));
    }
  }

  /** A sum that left carry c at position k. */
  lemma CarriedOut(v: nat, c: nat, total: int, p: nat)
    requires v < p && v + c * p == total
    ensures total % p == v
  {
    assert total == c * p + v;
    ModUnique(v, c, p);
  }

  lemma ModUnique(v: nat, c: int, p: nat)
    requires v < p
    ensures (c * p + v) % p == v
  {
    RemainderUnique(c * p + v, c, p, v);
  }

  /** One position of a carry loop: digit w comes in, digit x and carry c' go out. */
  lemma CarryStep(v: int, c: int, t: int, w: int, p: int, x: int, c': int)
    requires v + c * p == t && c + w == 0x100 * c' + x
    ensures v + x * p + c' * (0x100 * p) == t + w * p
  {
    assert (c + w) * p == (0x100 * c' + x) * p;
  }

  /** sodium_increment */
  method Increment(n: array<Byte>)
    modifies n
    ensures Value(n[..]) == (old(Value(n[..])) + 1) % Pow256(n.Length)
  {
    ghost var was := n[..];
    var c := 1;
    for i := 0 to n.Length
      invariant 0 <= c <= 1 && n[i..] == was[i..]
      invariant Value(n[..i]) + c * Pow256(i) == Value(was[..i]) + 1
    {
      ghost var before, c0 := n[..i], c;
      c := c + n[i];
      ghost var w := was[i];
      n[i] := c % 0x100;
      c := c / 0x100;
      Extend(was, i);
      assert n[..i + 1] == before + [n[i]];
      ValueAppend(before, n[i]);
      CarryStep(Value(before), c0, Value(was[..i]) + 1, w, Pow256(i), n[i], c);
    }
    assert n[..n.Length] == n[..] && was[..n.Length] == was;
    ValueBound(n[..]);
    CarriedOut(Value(n[..]), c, Value(was) + 1, Pow256(n.Length));
  }

  lemma Extend(b: Bytes, i: nat)
    requires i < |b|
    ensures Value(b[..i + 1]) == Value(b[..i]) + b[i] * Pow256(i)
  {
    assert b[..i + 1] == b[..i] + [b[i]];
    ValueAppend(b[..i], b[i]);
  }

  /** sodium_add. b may be a itself. */
  method Add(a: array<Byte>, b: array<Byte>)
    requires a.Length == b.Length
    modifies a
    ensures Value(a[..]) == (old(Value(a[..])) + old(Value(b[..]))) % Pow256(a.Length)
  {
    ghost var x, y := a[..], b[..];
    var c := 0;
    for i := 0 to a.Length
      invariant 0 <= c <= 1 && a[i..] == x[i..] && b[i..] == y[i..]
      invariant Value(a[..i]) + c * Pow256(i) == Value(x[..i]) + Value(y[..i])
    {
      ghost var before, c0 := a[..i], c;
      var u: int, v: int := a[i], b[i];
      assert u == x[i] && v == y[i];
      c := c + (u + v);
      a[i] := c % 0x100;
      c := c / 0x100;
      assert a[..i + 1] == before + [a[i]];
      Digits(x, y, before, i, u, v, a[i]);
      CarryStep(Value(before), c0, Value(x[..i]) + Value(y[..i]), u + v, Pow256(i), a[i], c);
    }
    assert a[..a.Length] == a[..] && x[..a.Length] == x && y[..a.Length] == y;
    ValueBound(a[..]);
    CarriedOut(Value(a[..]), c, Value(x) + Value(y), Pow256(a.Length));
  }

  lemma Digits(x: Bytes, y: Bytes, z: Bytes, i: nat, u: int, v: int, w: Byte)
    requires i < |x| == |y| && |z| == i && u == x[i] && v == y[i]
    ensures Value(x[..i + 1]) + Value(y[..i + 1]) == Value(x[..i]) + Value(y[..i]) + (u + v) * Pow256(i)
    ensures Value(x[..i + 1]) - Value(y[..i + 1]) == Value(x[..i]) - Value(y[..i]) + (u - v) * Pow256(i)
    ensures Value(z + [w]) == Value(z) + w * Pow256(i) && Pow256(i + 1) == 0x100 * Pow256(i)
  {
    Extend(x, i);
    Extend(y, i);
    ValueAppend(z, w);
    hide Value, Pow256;
    Distribute(u, v, Pow256(i));
  }

  lemma Distribute(u: int, v: int, p: int)
    ensures (u + v) * p == u * p + v * p && (u - v) * p == u * p - v * p
  {}

  /** One step of the subtraction loop on the values of the prefixes. */
  lemma SubStep(x: Bytes, y: Bytes, z: Bytes, i: nat, u: int, v: int, c: int, w: Byte, c': int)
    requires i < |x| == |y| && |z| == i && u == x[i] && v == y[i]
    requires Value(z) - c * Pow256(i) == Value(x[..i]) - Value(y[..i])
    requires u - v - c == w - 0x100 * c'
    ensures Value(z + [w]) - c' * Pow256(i + 1) == Value(x[..i + 1]) - Value(y[..i + 1])
  {
    hide Value, Pow256;
    Digits(x, y, z, i, u, v, w);
    CarryStep(Value(z), -c, Value(x[..i]) - Value(y[..i]), u - v, Pow256(i), w, -c');
  }

  /** The borrow loop's word: 64 bits, of which bit 8 is the borrow. */
  function BorrowWord(d: int): int { d % 0x1_0000_0000_0000_0000 }

  lemma Borrow(d: int)
    requires -0x100 <= d < 0x100
    ensures var c := BorrowWord(d); 0 <= c / 0x100 % 2 <= 1 && d == c % 0x100 - 0x100 * (c / 0x100 % 2)
  {}

  lemma SubStart()
    ensures Value([]) == 0 && Pow256(0) == 1
  {}

  /** sodium_sub, the borrow taken from a 64-bit unsigned word. b may be a itself. */
  method Sub(a: array<Byte>, b: array<Byte>)
    requires a.Length == b.Length
    modifies a
    ensures Value(a[..]) == (old(Value(a[..])) - old(Value(b[..]))) % Pow256(a.Length)
  {
    hide Value, Pow256, BorrowWord;
    SubStart();
    ghost var x, y := a[..], b[..];
    var c := 0;
    for i := 0 to a.Length
      invariant 0 <= c <= 1 && a[i..] == x[i..] && b[i..] == y[i..]
      invariant Value(a[..i]) - c * Pow256(i) == Value(x[..i]) - Value(y[..i])
    {
      ghost var before, c0 := a[..i], c;
      var u: int, v: int := a[i], b[i];
      assert u == x[i] && v == y[i];
      Borrow(u - v - c);
      c := BorrowWord(u - v - c);
      a[i] := c % 0x100;
      c := c / 0x100 % 2;
      assert a[..i + 1] == before + [a[i]];
      SubStep(x, y, before, i, u, v, c0, a[i], c);
    }
    assert a[..a.Length] == a[..] && x[..a.Length] == x && y[..a.Length] == y;
    ValueBound(a[..]);
    ModUnique(Value(a[..]), -c, Pow256(a.Length));
  }

  lemma AddSubMod(x: nat, y: nat, p: nat)
    requires x < p
    ensures ((x + y) % p - y) % p == x
  {
    var q := (x + y) / p;
    assert (x + y) % p - y == (-q) * p + x;
    ModUnique(x, -q, p);
  }

  /** Subtracting what was added restores every byte, whatever wrapped in between. */
  method AddThenSub(a: array<Byte>, b: array<Byte>)
    requires a.Length == b.Length && a != b
    modifies a
    ensures a[..] == old(a[..])
  {
    ghost var was := a[..];
    ValueBound(was);
    AddSubMod(Value(was), Value(b[..]), Pow256(a.Length));
    Add(a, b);
    Sub(a, b);
    ValueInjective(a[..], was);
  }

  function Sign(x: int): int { if x > 0 then 1 else if x < 0 then -1 else 0 }

  /** The part of the strings from position i on decides, as soon as it differs. */
  lemma TailDecides(x: Bytes, y: Bytes, i: nat)
    requires |x| == |y| && i < |x|
    ensures x[i] != y[i] && x[i + 1..] == y[i + 1..] ==> Sign(Value(x[i..]) - Value(y[i..])) == Sign(x[i] as int - y[i] as int)
    ensures Value(x[i..]) == x[i] + 0x100 * Value(x[i + 1..]) && Value(y[i..]) == y[i] + 0x100 * Value(y[i + 1..])
  {
    assert x[i..][1..] == x[i + 1..] && y[i..][1..] == y[i + 1..];
  }

  /** The low byte of d >> 8, for a signed d. */
  function High(d: int): Byte { d / 0x100 % 0x100 }

  /** One byte of the comparison: the masks keep gt unless the strings were equal so far. */
  lemma CompareStep(gt: Byte, eq: Byte, x1: Byte, x2: Byte)
    requires eq == 0 || (eq == 1 && gt == 0)
    ensures OrByte(gt, AndByte(High(x2 as int - x1 as int), eq)) == if eq == 1 && x1 > x2 then 1 else gt
    ensures AndByte(eq, High(XorByte(x2, x1) as int - 1)) == if x1 == x2 then eq else 0
  {
    XorByteLaws(x2, x1);
    hide AndByte, OrByte, XorByte;
    HighIs(x2 as int - x1 as int);
    HighIs(XorByte(x2, x1) as int - 1);
    AndByteComm(0, eq);
    AndByteComm(0xff, eq);
    MaskByte(eq);
    MaskByte(gt);
  }

  lemma HighIs(d: int)
    requires -0x100 <= d < 0x100
    ensures High(d) == if d < 0 then 0xff else 0
  {}

  lemma NoTail()
    ensures Value([]) == 0
  {}

  /** sodium_compare: the sign of the difference of the two integers. */
  method Compare(b1: array<Byte>, b2: array<Byte>) returns (r: int)
    requires b1.Length == b2.Length
    ensures r == Sign(Value(b1[..]) - Value(b2[..]))
  {
    hide AndByte, OrByte, XorByte, High, Value;
    NoTail();
    ghost var x, y := b1[..], b2[..];
    var gt: Byte, eq: Byte := 0, 1;
    var i := b1.Length;
    while i != 0
      invariant 0 <= i <= b1.Length
      invariant eq == (if x[i..] == y[i..] then 1 else 0)
      invariant gt == (if Value(x[i..]) > Value(y[i..]) then 1 else 0)
      invariant eq == 0 ==> Value(x[i..]) != Value(y[i..])
    {
      i := i - 1;
      var x1, x2 := b1[i], b2[i];
      TailDecides(x, y, i);
      CompareStep(gt, eq, x1, x2);
      gt := OrByte(gt, AndByte(High(x2 as int - x1 as int), eq));
      eq := AndByte(eq, High(XorByte(x2, x1) as int - 1));
      assert x[i..] == [x[i]] + x[i + 1..] && y[i..] == [y[i]] + y[i + 1..];
    }
    assert x[0..] == x && y[0..] == y;
    r := (gt as int) + (gt as int) + (eq as int) - 1;
  }
}
