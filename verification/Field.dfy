/** The prime field of section 4.1 of RFC 7748: integers modulo 2^255 - 19. */
module Field {

  const P := 0x8000000000000000_0000000000000000_0000000000000000_0000000000000000 - 19

  predicate Congruent(x: int, y: int) { (x - y) % P == 0 }

  lemma CongruentBy(x: int, y: int, k: int)
    requires x - y == k * P
    ensures Congruent(x, y)
  {}

  lemma CongruentSymm(x: int, y: int)
    requires Congruent(x, y)
    ensures Congruent(y, x)
  {
    CongruentBy(y, x, -((x - y) / P));
  }

  lemma CongruentTrans(x: int, y: int, z: int)
    requires Congruent(x, y) && Congruent(y, z)
    ensures Congruent(x, z)
  {
    CongruentBy(x, z, (x - y) / P + (y - z) / P);
  }

  lemma CongruentAdd(x: int, x': int, y: int, y': int)
    requires Congruent(x, x') && Congruent(y, y')
    ensures Congruent(x + y, x' + y')
  {
    CongruentBy(x + y, x' + y', (x - x') / P + (y - y') / P);
  }

  lemma CongruentMul(x: int, x': int, y: int, y': int)
    requires Congruent(x, x') && Congruent(y, y')
    ensures Congruent(x * y, x' * y')
  {
    var j, k := (x - x') / P, (y - y') / P;
    assert x == x' + j * P && y == y' + k * P;
    Expand(x', j, y', k);
    CongruentBy(x * y, x' * y', x' * k + j * y' + j * (k * P));
  }

  lemma Expand(a: int, j: int, b: int, k: int)
    ensures (a + j * P) * (b + k * P) == a * b + (a * k + j * b + j * (k * P)) * P
  {}
}
