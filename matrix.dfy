/** `Matrix2d3x3` and `Vector1dx3`: 3x3 row-major homogeneous 2-D transforms
    applied to row vectors on the left (`v' = v * M`), so a translation sits
    in the last row and an affine map has last column (0, 0, 1). */
module Matrix {

  /** `Matrix2d3x3::data`, row-major: entry (i, j) is `m[i * 3 + j]`. */
  type Mat3 = m: seq<real> | |m| == 9 witness [0.0, 0.0, 0.0, 0.0, 0.0, 0.0, 0.0, 0.0, 0.0]

  /** `Vector1dx3::data`. */
  type Vec3 = v: seq<real> | |v| == 3 witness [0.0, 0.0, 0.0]

  function Row(m: Mat3, i: nat): Vec3
    requires i < 3
  {
    [m[i * 3], m[i * 3 + 1], m[i * 3 + 2]]
  }

  function Column(m: Mat3, j: nat): Vec3
    requires j < 3
  {
    [m[j], m[3 + j], m[6 + j]]
  }

  function Dot(u: Vec3, v: Vec3): real {
    u[0] * v[0] + u[1] * v[1] + u[2] * v[2]
  }

  /** The accumulator `sum` after its first `k` terms `u[l] * v[l]`. */
  function DotUpTo(u: Vec3, v: Vec3, k: nat): real
    requires k <= 3
  {
    if k == 0 then 0.0 else DotUpTo(u, v, k - 1) + u[k - 1] * v[k - 1]
  }

  lemma DotUpToAll(u: Vec3, v: Vec3)
    ensures DotUpTo(u, v, 3) == Dot(u, v)
  {
    assert DotUpTo(u, v, 1) == u[0] * v[0];
    assert DotUpTo(u, v, 2) == u[0] * v[0] + u[1] * v[1];
  }

  /** The matrix product: entry (i, j) is row i of `a` dotted with column j of `b`. */
  function Product(a: Mat3, b: Mat3): Mat3 {
    [Dot(Row(a, 0), Column(b, 0)), Dot(Row(a, 0), Column(b, 1)), Dot(Row(a, 0), Column(b, 2)),
     Dot(Row(a, 1), Column(b, 0)), Dot(Row(a, 1), Column(b, 1)), Dot(Row(a, 1), Column(b, 2)),
     Dot(Row(a, 2), Column(b, 0)), Dot(Row(a, 2), Column(b, 1)), Dot(Row(a, 2), Column(b, 2))]
  }

  /** `Matrix2d3x3::operator*`: fills the output entry by entry with a
      three-term accumulator. */
  method Multiply(a: Mat3, b: Mat3) returns (m: Mat3)
    ensures m == Product(a, b)
  {
    var out := new real[9](_ => 0.0);
    for i := 0 to 3
      invariant forall p, q :: 0 <= p < i && 0 <= q < 3 ==> out[p * 3 + q] == Dot(Row(a, p), Column(b, q))
    {
      for j := 0 to 3
        invariant forall p, q :: 0 <= p < i && 0 <= q < 3 ==> out[p * 3 + q] == Dot(Row(a, p), Column(b, q))
        invariant forall q :: 0 <= q < j ==> out[i * 3 + q] == Dot(Row(a, i), Column(b, q))
      {
        var sum := 0.0;
        for k := 0 to 3
          invariant sum == DotUpTo(Row(a, i), Column(b, j), k)
        {
          sum := sum + a[i * 3 + k] * b[j + k * 3];
        }
        DotUpToAll(Row(a, i), Column(b, j));
        out[i * 3 + j] := sum;
      }
    }
    m := out[..];
    EqualEntries(m, Product(a, b));
  }

  /** `v * m` for a row vector in homogeneous coordinates: the first two
      components are `v` dotted with columns 0 and 1, the third is fixed at 1. */
  function Transformed(v: Vec3, m: Mat3): Vec3 {
    [Dot(v, Column(m, 0)), Dot(v, Column(m, 1)), 1.0]
  }

  /** `Vector1dx3::operator*`: starts from (0, 0, 1) and overwrites the first
      two components with accumulated sums. */
  method Transform(v: Vec3, m: Mat3) returns (r: Vec3)
    ensures r == Transformed(v, m)
    ensures r[2] == 1.0
    ensures forall j :: 0 <= j < 2 ==> r[j] == v[0] * m[j] + v[1] * m[3 + j] + v[2] * m[6 + j]
  {
    var out := new real[3];
    out[0], out[1], out[2] := 0.0, 0.0, 1.0;
    for j := 0 to 2
      invariant forall l :: 0 <= l < j ==> out[l] == Transformed(v, m)[l]
      invariant out[2] == 1.0
    {
      var sum := 0.0;
      for k := 0 to 3
        invariant sum == DotUpTo(v, Column(m, j), k)
      {
        sum := sum + v[k] * m[k * 3 + j];
      }
      DotUpToAll(v, Column(m, j));
      out[j] := sum;
    }
    r := out[..];
  }

  function Identity(): Mat3 {
    [1.0, 0.0, 0.0,
     0.0, 1.0, 0.0,
     0.0, 0.0, 1.0]
  }

  /** A translation by (tx, ty) in the last row. */
  function Translation(tx: real, ty: real): Mat3 {
    [1.0, 0.0, 0.0,
     0.0, 1.0, 0.0,
     tx,  ty,  1.0]
  }

  /** `rotation_mat`, with c = cos θ and s = sin θ. */
  function Rotation(c: real, s: real): Mat3 {
    [c,   s,   0.0,
     -s,  c,   0.0,
     0.0, 0.0, 1.0]
  }

  /** `inverse_rotation_mat`: the rotation with the sign of sin θ flipped. */
  function InverseRotation(c: real, s: real): Mat3 {
    Rotation(c, -s)
  }

  /** Last column (0, 0, 1): the matrix is a 2-D affine map. */
  predicate IsAffine(m: Mat3) {
    m[2] == 0.0 && m[5] == 0.0 && m[8] == 1.0
  }

  /** Two matrices with the same nine entries are equal. */
  lemma EqualEntries(m: Mat3, m': Mat3)
    requires m[0] == m'[0] && m[1] == m'[1] && m[2] == m'[2]
    requires m[3] == m'[3] && m[4] == m'[4] && m[5] == m'[5]
    requires m[6] == m'[6] && m[7] == m'[7] && m[8] == m'[8]
    ensures m == m'
  {
    forall n | 0 <= n < 9
      ensures m[n] == m'[n]
    {
      assert n in {0, 1, 2, 3, 4, 5, 6, 7, 8};
    }
  }

  /** Entry (i, j) of a product. */
  lemma ProductEntry(a: Mat3, b: Mat3, i: nat, j: nat)
    requires i < 3 && j < 3
    ensures Product(a, b)[i * 3 + j] == Dot(Row(a, i), Column(b, j))
  {
    if i == 0 {
      assert i * 3 + j == j;
    } else if i == 1 {
      assert i * 3 + j == 3 + j;
    } else {
      assert i * 3 + j == 6 + j;
    }
  }

  /** One entry of the associativity law: (u * B) . w == u . (B * w). */
  lemma DotRegroup(u: Vec3, b: Mat3, w: Vec3)
    ensures Dot([Dot(u, Column(b, 0)), Dot(u, Column(b, 1)), Dot(u, Column(b, 2))], w)
         == Dot(u, [Dot(Row(b, 0), w), Dot(Row(b, 1), w), Dot(Row(b, 2), w)])
  {
    var u0, u1, u2 := u[0], u[1], u[2];
    var w0, w1, w2 := w[0], w[1], w[2];
    assert (u0 * b[0] + u1 * b[3] + u2 * b[6]) * w0 == u0 * b[0] * w0 + u1 * b[3] * w0 + u2 * b[6] * w0;
    assert (u0 * b[1] + u1 * b[4] + u2 * b[7]) * w1 == u0 * b[1] * w1 + u1 * b[4] * w1 + u2 * b[7] * w1;
    assert (u0 * b[2] + u1 * b[5] + u2 * b[8]) * w2 == u0 * b[2] * w2 + u1 * b[5] * w2 + u2 * b[8] * w2;
    assert u0 * (b[0] * w0 + b[1] * w1 + b[2] * w2) == u0 * b[0] * w0 + u0 * b[1] * w1 + u0 * b[2] * w2;
    assert u1 * (b[3] * w0 + b[4] * w1 + b[5] * w2) == u1 * b[3] * w0 + u1 * b[4] * w1 + u1 * b[5] * w2;
    assert u2 * (b[6] * w0 + b[7] * w1 + b[8] * w2) == u2 * b[6] * w0 + u2 * b[7] * w1 + u2 * b[8] * w2;
  }

  /** Entry (i, j) of the associativity law. */
  lemma ProductAssociativeAt(a: Mat3, b: Mat3, c: Mat3, i: nat, j: nat)
    requires i < 3 && j < 3
    ensures Product(Product(a, b), c)[i * 3 + j] == Product(a, Product(b, c))[i * 3 + j]
  {
    var ab, bc := Product(a, b), Product(b, c);
    ProductEntry(ab, c, i, j);
    ProductEntry(a, bc, i, j);
    ProductEntry(a, b, i, 0);
    ProductEntry(a, b, i, 1);
    ProductEntry(a, b, i, 2);
    ProductEntry(b, c, 0, j);
    ProductEntry(b, c, 1, j);
    ProductEntry(b, c, 2, j);
    var u, w := Row(a, i), Column(c, j);
    assert Row(ab, i) == [Dot(u, Column(b, 0)), Dot(u, Column(b, 1)), Dot(u, Column(b, 2))];
    assert Column(bc, j) == [Dot(Row(b, 0), w), Dot(Row(b, 1), w), Dot(Row(b, 2), w)];
    DotRegroup(u, b, w);
  }

  /** The product is associative, so `a * b * c` means the same however it is grouped. */
  lemma ProductAssociative(a: Mat3, b: Mat3, c: Mat3)
    ensures Product(Product(a, b), c) == Product(a, Product(b, c))
  {
    forall n | 0 <= n < 9
      ensures Product(Product(a, b), c)[n] == Product(a, Product(b, c))[n]
    {
      var i, j := n / 3, n % 3;
      assert n == i * 3 + j;
      ProductAssociativeAt(a, b, c, i, j);
    }
  }

  /** Affine maps are closed under the product. */
  lemma ProductOfAffine(a: Mat3, b: Mat3)
    requires IsAffine(a) && IsAffine(b)
    ensures IsAffine(Product(a, b))
  {
  }

  /** `Transformed` never looks at column 2 of the matrix. */
  lemma TransformedIgnoresLastColumn(v: Vec3, m: Mat3, m': Mat3)
    requires Column(m, 0) == Column(m', 0) && Column(m, 1) == Column(m', 1)
    ensures Transformed(v, m) == Transformed(v, m')
  {
  }

  /** Transforming by a product is transforming by each factor in turn, for a
      homogeneous point and an affine first factor. */
  lemma TransformedByProduct(v: Vec3, a: Mat3, b: Mat3)
    requires v[2] == 1.0 && IsAffine(a)
    ensures Transformed(v, Product(a, b)) == Transformed(Transformed(v, a), b)
  {
    var ab := Product(a, b);
    var w := Transformed(v, a);
    assert w == [Dot(v, Column(a, 0)), Dot(v, Column(a, 1)), Dot(v, Column(a, 2))];
    TransformedByProductAt(v, a, b, 0);
    TransformedByProductAt(v, a, b, 1);
  }

  lemma TransformedByProductAt(v: Vec3, a: Mat3, b: Mat3, j: nat)
    requires j < 2
    ensures Dot(v, Column(Product(a, b), j))
         == Dot([Dot(v, Column(a, 0)), Dot(v, Column(a, 1)), Dot(v, Column(a, 2))], Column(b, j))
  {
    var ab := Product(a, b);
    ProductEntry(a, b, 0, j);
    ProductEntry(a, b, 1, j);
    ProductEntry(a, b, 2, j);
    assert Column(ab, j) == [Dot(Row(a, 0), Column(b, j)), Dot(Row(a, 1), Column(b, j)), Dot(Row(a, 2), Column(b, j))];
    DotRegroup(v, a, Column(b, j));
  }

  /** With c² + s² = 1 the inverse rotation undoes the rotation. */
  lemma RotationTimesInverse(c: real, s: real)
    requires c * c + s * s == 1.0
    ensures Product(Rotation(c, s), InverseRotation(c, s)) == Identity()
  {
    var p := Product(Rotation(c, s), InverseRotation(c, s));
    assert -s * -s == s * s && c * -s == -(s * c) && -s * c == -(s * c);
    assert p[0] == c * c + s * s + 0.0 * 0.0;
    assert p[1] == c * -s + s * c + 0.0 * 0.0;
    assert p[3] == -s * c + c * s + 0.0 * 0.0;
    assert Row(Rotation(c, s), 1) == [-s, c, 0.0] && Column(InverseRotation(c, s), 1) == [-s, c, 0.0];
    assert p[4] == -s * -s + c * c + 0.0 * 0.0;
    EqualEntries(p, Identity());
  }

  /** The identity leaves a homogeneous point where it is. */
  lemma TransformedByIdentity(v: Vec3)
    requires v[2] == 1.0
    ensures Transformed(v, Identity()) == v
  {
    assert Column(Identity(), 0) == [1.0, 0.0, 0.0] && Column(Identity(), 1) == [0.0, 1.0, 0.0];
    assert Dot(v, [1.0, 0.0, 0.0]) == v[0] && Dot(v, [0.0, 1.0, 0.0]) == v[1];
    assert v == [v[0], v[1], 1.0];
  }

  /** With c² + s² = 1, transforming a homogeneous point by `rotation_mat`
      and then by `inverse_rotation_mat` gives the point back. */
  lemma InverseRotationUndoesRotation(v: Vec3, c: real, s: real)
    requires v[2] == 1.0 && c * c + s * s == 1.0
    ensures Transformed(Transformed(v, Rotation(c, s)), InverseRotation(c, s)) == v
  {
    TransformedByProduct(v, Rotation(c, s), InverseRotation(c, s));
    RotationTimesInverse(c, s);
    TransformedByIdentity(v);
  }

  /** Multiplying an affine matrix by a translation on the right adds the
      offset to its last row and leaves the rest alone. */
  lemma ProductWithTranslation(m: Mat3, tx: real, ty: real)
    requires IsAffine(m)
    ensures Product(m, Translation(tx, ty)) == [m[0], m[1], 0.0, m[3], m[4], 0.0, m[6] + tx, m[7] + ty, 1.0]
  {
    EqualEntries(Product(m, Translation(tx, ty)), [m[0], m[1], 0.0, m[3], m[4], 0.0, m[6] + tx, m[7] + ty, 1.0]);
  }
}
