/** The two limb layouts compute the same field. */
module FieldAgreement {
  import opened Field
  import Field51
  import Field255

  /** On limbs that stand for the same two field elements, the ten-limb and the five-limb multiply
      give limbs that stand for the same element, both fit to be multiplied again. */
  method Agree(h: array<Field255.int32>, f: array<Field255.int32>, g: array<Field255.int32>,
      h': array<Field51.uint64>, f': array<Field51.uint64>, g': array<Field51.uint64>)
    requires h.Length == f.Length == g.Length == 10
    requires h'.Length == f'.Length == g'.Length == 5
    requires Field255.Bounded(f[..], Field255.IN_EVEN, Field255.IN_ODD)
    requires Field255.Bounded(g[..], Field255.IN_EVEN, Field255.IN_ODD)
    requires Field51.Below(f'[..], Field51.LIMB54) && Field51.Below(g'[..], Field51.LIMB54)
    requires Congruent(Field255.Value(f[..]), Field51.Value(f'[..]))
    requires Congruent(Field255.Value(g[..]), Field51.Value(g'[..]))
    modifies h, h'
    ensures Congruent(Field255.Value(h[..]), Field51.Value(h'[..]))
    ensures Field255.Bounded(h[..], Field255.IN_EVEN, Field255.IN_ODD)
    ensures Field51.Below(h'[..], Field51.LIMB54)
  {
    ghost var x, y := Field255.Value(f[..]), Field255.Value(g[..]);
    ghost var x', y' := Field51.Value(f'[..]), Field51.Value(g'[..]);
    Field255.Mul(h, f, g);
    Field51.Mul(h', f', g');
    CongruentMul(x, x', y, y');
    CongruentSymm(Field51.Value(h'[..]), x' * y');
    CongruentTrans(Field255.Value(h[..]), x * y, x' * y');
    CongruentTrans(Field255.Value(h[..]), x' * y', Field51.Value(h'[..]));
  }
}
