/** `rotateImageManually` of the affine-matrix variant: rotation by an angle
    (given as c = cos θ, s = sin θ) about an arbitrary centre (cx, cy), with a
    canvas that bounds the four rotated corners and an inverse matrix that
    maps canvas pixels back into the source. */
module AffineTransformer {
  import opened Numerics
  import opened Matrix
  import opened Sampler
  import opened Resampler

  /** `translate_to_origin_mat * rotation_mat`: source -> rotated space. */
  function ForwardMatrix(cx: real, cy: real, c: real, s: real): Mat3 {
    Product(Translation(-cx, -cy), Rotation(c, s))
  }

  /** `translate_to_rotated_space_mat * inverse_rotation_mat * translate_from_origin_mat`:
      canvas -> source, where `o` is the least corner of the bounding box. */
  function InverseMatrix(o: Point, c: real, s: real, cx: real, cy: real): Mat3 {
    Product(Product(Translation(o.x, o.y), InverseRotation(c, s)), Translation(cx, cy))
  }

  /** `src_corners`: (0,0), (w,0), (0,h), (w,h) in homogeneous coordinates. */
  function SourceCorners(w: int, h: int): seq<Vec3> {
    [[0.0, 0.0, 1.0], [w as real, 0.0, 1.0], [0.0, h as real, 1.0], [w as real, h as real, 1.0]]
  }

  /** `dst_corners`: the four vectors are the source corners, in order, each
      times the forward matrix. */
  predicate AreForwardCorners(corners: seq<Vec3>, w: int, h: int, f: Mat3) {
    var k := SourceCorners(w, h);
    && |corners| == 4
    && corners[0] == Transformed(k[0], f) && corners[1] == Transformed(k[1], f)
    && corners[2] == Transformed(k[2], f) && corners[3] == Transformed(k[3], f)
  }

  /** Four values t, t + a, t + b, t + a + b: one axis of a rectangle's
      corners after a rotation, in corner order. */
  function Spread(t: real, a: real, b: real): seq<real> {
    [t, t + a, t + b, t + a + b]
  }

  /** Where the forward matrix sends the source origin (0, 0): the last row
      of `ForwardMatrix`, (-cx c + cy s, -cx s - cy c). */
  function ShiftX(cx: real, cy: real, c: real, s: real): real {
    -cx * c + cy * s
  }

  function ShiftY(cx: real, cy: real, c: real, s: real): real {
    -cx * s - cy * c
  }

  /** The x components of the rotated corners in closed form: the shifted
      origin moved by w along (c, s) and by h along (-s, c). */
  function CornerXs(w: int, h: int, cx: real, cy: real, c: real, s: real): seq<real> {
    Spread(ShiftX(cx, cy, c, s), w as real * c, -(h as real * s))
  }

  /** The y components of the rotated corners in closed form. */
  function CornerYs(w: int, h: int, cx: real, cy: real, c: real, s: real): seq<real> {
    Spread(ShiftY(cx, cy, c, s), w as real * s, h as real * c)
  }

  /** Component `j` of every vector in `vs`. */
  function Components(vs: seq<Vec3>, j: nat): seq<real>
    requires j < 3
  {
    seq(|vs|, i requires 0 <= i < |vs| => vs[i][j])
  }

  /** (min_x, min_y): where the canvas origin sits in rotated space. */
  function Origin(w: int, h: int, cx: real, cy: real, c: real, s: real): Point {
    Point(MinOf(CornerXs(w, h, cx, cy, c, s)), MinOf(CornerYs(w, h, cx, cy, c, s)))
  }

  /** `Vector1dx3(p.x, p.y, 1) * m`, read back as a point. */
  function MapPoint(m: Mat3, p: Point): Point {
    var q := Transformed([p.x, p.y, 1.0], m);
    Point(q[0], q[1])
  }

  /** A point's image under any matrix, entry by entry. */
  lemma MapPointEntries(m: Mat3, p: Point)
    ensures MapPoint(m, p) == Point(p.x * m[0] + p.y * m[3] + m[6], p.x * m[1] + p.y * m[4] + m[7])
  {
    var q := Transformed([p.x, p.y, 1.0], m);
    assert q[0] == p.x * m[0] + p.y * m[3] + 1.0 * m[6];
    assert q[1] == p.x * m[1] + p.y * m[4] + 1.0 * m[7];
  }

  /** Rotation by θ about (cx, cy), with the centre moved to the origin: what
      the forward matrix is meant to do to a point. */
  function RotatedAbout(p: Point, cx: real, cy: real, c: real, s: real): Point {
    var a, b := p.x - cx, p.y - cy;
    Point(a * c + -(b * s), a * s + b * c)
  }

  /** What the inverse matrix is meant to do to a canvas point q: move it to
      rotated space by the origin o, rotate it by -θ, and move the origin back
      to (cx, cy). */
  function UnrotatedAbout(q: Point, o: Point, c: real, s: real, cx: real, cy: real): Point {
    var a, b := q.x + o.x, q.y + o.y;
    Point(a * c + b * s + cx, -(a * s) + b * c + cy)
  }

  /** The source coordinate `dst_point * inverse_transform_mat` of canvas pixel (x, y). */
  function SourcePoint(inv: Mat3, x: int, y: int): Point {
    MapPoint(inv, Point(x as real, y as real))
  }

  /** The min/max loop over the transformed corners: both bounds of each axis
      hold for every corner and are attained by one. */
  method BoundingBox(corners: seq<Vec3>) returns (minX: real, maxX: real, minY: real, maxY: real)
    requires |corners| == 4
    ensures minX == MinOf(Components(corners, 0)) && maxX == MaxOf(Components(corners, 0))
    ensures minY == MinOf(Components(corners, 1)) && maxY == MaxOf(Components(corners, 1))
    ensures IsLeast(minX, Components(corners, 0)) && IsGreatest(maxX, Components(corners, 0))
    ensures IsLeast(minY, Components(corners, 1)) && IsGreatest(maxY, Components(corners, 1))
  {
    ghost var xs, ys := Components(corners, 0), Components(corners, 1);
    minX, maxX := corners[0][0], corners[0][0];
    minY, maxY := corners[0][1], corners[0][1];
    assert xs[..1] == [xs[0]] && ys[..1] == [ys[0]];
    for i := 1 to 4
      invariant minX == MinOf(xs[..i]) && maxX == MaxOf(xs[..i])
      invariant minY == MinOf(ys[..i]) && maxY == MaxOf(ys[..i])
    {
      FoldStep(xs, i);
      FoldStep(ys, i);
      minX := Min(minX, corners[i][0]);
      maxX := Max(maxX, corners[i][0]);
      minY := Min(minY, corners[i][1]);
      maxY := Max(maxY, corners[i][1]);
    }
    assert xs[..4] == xs && ys[..4] == ys;
  }

  /** One step of the running minimum and maximum over a prefix. */
  lemma FoldStep(xs: seq<real>, i: nat)
    requires 0 < i < |xs|
    ensures MinOf(xs[..i + 1]) == Min(MinOf(xs[..i]), xs[i])
    ensures MaxOf(xs[..i + 1]) == Max(MaxOf(xs[..i]), xs[i])
  {
    assert xs[..i + 1][..i] == xs[..i];
  }

  lemma ForwardMatrixEntries(cx: real, cy: real, c: real, s: real)
    ensures ForwardMatrix(cx, cy, c, s)
         == [c, s, 0.0, -s, c, 0.0, ShiftX(cx, cy, c, s), ShiftY(cx, cy, c, s), 1.0]
  {
    EqualEntries(ForwardMatrix(cx, cy, c, s), [c, s, 0.0, -s, c, 0.0, ShiftX(cx, cy, c, s), ShiftY(cx, cy, c, s), 1.0]);
  }

  /** The forward matrix moves (x, y) by the shifted origin plus x along
      (c, s) and y along (-s, c). */
  lemma ImageOfPoint(x: real, y: real, cx: real, cy: real, c: real, s: real)
    ensures Transformed([x, y, 1.0], ForwardMatrix(cx, cy, c, s))[0] == ShiftX(cx, cy, c, s) + x * c + -(y * s)
    ensures Transformed([x, y, 1.0], ForwardMatrix(cx, cy, c, s))[1] == ShiftY(cx, cy, c, s) + x * s + y * c
  {
    ForwardMatrixEntries(cx, cy, c, s);
    assert y * -s == -(y * s);
  }

  /** Every matrix the routine builds is a 2-D affine map (last column (0, 0, 1)). */
  lemma BuiltMatricesAreAffine(cx: real, cy: real, c: real, s: real, o: Point)
    ensures IsAffine(ForwardMatrix(cx, cy, c, s))
    ensures IsAffine(InverseMatrix(o, c, s, cx, cy))
  {
    ProductOfAffine(Translation(-cx, -cy), Rotation(c, s));
    ProductOfAffine(Translation(o.x, o.y), InverseRotation(c, s));
    ProductOfAffine(Product(Translation(o.x, o.y), InverseRotation(c, s)), Translation(cx, cy));
  }

  /** Four values t, t + a, t + b, t + a + b span |a| + |b|. */
  lemma SpanOfFour(xs: seq<real>, t: real, a: real, b: real)
    requires |xs| == 4 && xs[0] == t && xs[1] == t + a && xs[2] == t + b && xs[3] == t + a + b
    ensures MaxOf(xs) - MinOf(xs) == Abs(a) + Abs(b)
  {
    var lo, hi := MinOf(xs), MaxOf(xs);
    assert lo in xs && hi in xs;
    assert lo == t || lo == t + a || lo == t + b || lo == t + a + b;
    assert hi == t || hi == t + a || hi == t + b || hi == t + a + b;
  }

  lemma SpreadSpan(t: real, a: real, b: real)
    ensures MaxOf(Spread(t, a, b)) - MinOf(Spread(t, a, b)) == Abs(a) + Abs(b)
  {
    SpanOfFour(Spread(t, a, b), t, a, b);
  }

  /** The bounding box of the four rotated corners is w|c| + h|s| wide and
      w|s| + h|c| high, wherever the centre lies. */
  lemma CornerExtent(w: nat, h: nat, cx: real, cy: real, c: real, s: real)
    ensures MaxOf(CornerXs(w, h, cx, cy, c, s)) - MinOf(CornerXs(w, h, cx, cy, c, s))
         == w as real * Abs(c) + h as real * Abs(s)
    ensures MaxOf(CornerYs(w, h, cx, cy, c, s)) - MinOf(CornerYs(w, h, cx, cy, c, s))
         == w as real * Abs(s) + h as real * Abs(c)
  {
    SpreadSpan(ShiftX(cx, cy, c, s), w as real * c, -(h as real * s));
    SpreadSpan(ShiftY(cx, cy, c, s), w as real * s, h as real * c);
    AbsOfScaled(w, c);
    AbsOfScaled(h, s);
    AbsOfScaled(w, s);
    AbsOfScaled(h, c);
  }

  /** Multiplying the source corners by `ForwardMatrix` gives the closed-form
      corner components. */
  lemma CornerComponents(w: nat, h: nat, cx: real, cy: real, c: real, s: real, corners: seq<Vec3>)
    requires AreForwardCorners(corners, w, h, ForwardMatrix(cx, cy, c, s))
    ensures Components(corners, 0) == CornerXs(w, h, cx, cy, c, s)
    ensures Components(corners, 1) == CornerYs(w, h, cx, cy, c, s)
  {
    ImageOfPoint(0.0, 0.0, cx, cy, c, s);
    ImageOfPoint(w as real, 0.0, cx, cy, c, s);
    ImageOfPoint(0.0, h as real, cx, cy, c, s);
    ImageOfPoint(w as real, h as real, cx, cy, c, s);
    var xs, ys := Components(corners, 0), Components(corners, 1);
    assert xs[0] == CornerXs(w, h, cx, cy, c, s)[0] && ys[0] == CornerYs(w, h, cx, cy, c, s)[0];
    assert xs[1] == CornerXs(w, h, cx, cy, c, s)[1] && ys[1] == CornerYs(w, h, cx, cy, c, s)[1];
    assert xs[2] == CornerXs(w, h, cx, cy, c, s)[2] && ys[2] == CornerYs(w, h, cx, cy, c, s)[2];
    assert xs[3] == CornerXs(w, h, cx, cy, c, s)[3] && ys[3] == CornerYs(w, h, cx, cy, c, s)[3];
  }

  /** Applying `ForwardMatrix` is translating by (-cx, -cy), then rotating. */
  lemma ForwardInSteps(v: Vec3, cx: real, cy: real, c: real, s: real)
    requires v[2] == 1.0
    ensures Transformed(v, ForwardMatrix(cx, cy, c, s))
         == Transformed(Transformed(v, Translation(-cx, -cy)), Rotation(c, s))
  {
    TransformedByProduct(v, Translation(-cx, -cy), Rotation(c, s));
  }

  /** Applying `InverseMatrix` is shifting by the origin, rotating back, then
      translating by (cx, cy). */
  lemma InverseInSteps(q: Vec3, o: Point, c: real, s: real, cx: real, cy: real)
    requires q[2] == 1.0
    ensures Transformed(q, InverseMatrix(o, c, s, cx, cy))
         == Transformed(Transformed(Transformed(q, Translation(o.x, o.y)), InverseRotation(c, s)), Translation(cx, cy))
  {
    var shift, ri := Translation(o.x, o.y), InverseRotation(c, s);
    ProductOfAffine(shift, ri);
    TransformedByProduct(q, Product(shift, ri), Translation(cx, cy));
    TransformedByProduct(q, shift, ri);
  }

  /** `translate_to_rotated_space_mat * inverse_rotation_mat`, entry by entry. */
  lemma ShiftedInverseRotationEntries(o: Point, c: real, s: real)
    ensures Product(Translation(o.x, o.y), InverseRotation(c, s))
         == [c, -s, 0.0, s, c, 0.0, o.x * c + o.y * s, o.x * -s + o.y * c, 1.0]
  {
    EqualEntries(Product(Translation(o.x, o.y), InverseRotation(c, s)),
      [c, -s, 0.0, s, c, 0.0, o.x * c + o.y * s, o.x * -s + o.y * c, 1.0]);
  }

  lemma InverseMatrixEntries(o: Point, c: real, s: real, cx: real, cy: real)
    ensures var m := InverseMatrix(o, c, s, cx, cy);
      && m[0] == c && m[1] == -s && m[3] == s && m[4] == c
      && m[6] == o.x * c + o.y * s + cx && m[7] == o.x * -s + o.y * c + cy
      && m[2] == 0.0 && m[5] == 0.0 && m[8] == 1.0
  {
    var partial := Product(Translation(o.x, o.y), InverseRotation(c, s));
    ShiftedInverseRotationEntries(o, c, s);
    ProductWithTranslation(partial, cx, cy);
  }

  /** The combined inverse matrix does what its three factors describe. */
  lemma InverseMatrixMaps(q: Point, o: Point, c: real, s: real, cx: real, cy: real)
    ensures MapPoint(InverseMatrix(o, c, s, cx, cy), q) == UnrotatedAbout(q, o, c, s, cx, cy)
  {
    var u, v := q.x, q.y;
    InverseMatrixEntries(o, c, s, cx, cy);
    MapPointEntries(InverseMatrix(o, c, s, cx, cy), q);
    assert (u + o.x) * c == u * c + o.x * c && (v + o.y) * s == v * s + o.y * s;
    assert (u + o.x) * s == u * s + o.x * s && (v + o.y) * c == v * c + o.y * c;
    assert u * -s == -(u * s) && o.x * -s == -(o.x * s);
  }

  /** The combined forward matrix rotates about the centre. */
  lemma ForwardMatrixMaps(p: Point, cx: real, cy: real, c: real, s: real)
    ensures MapPoint(ForwardMatrix(cx, cy, c, s), p) == RotatedAbout(p, cx, cy, c, s)
  {
    ImageOfPoint(p.x, p.y, cx, cy, c, s);
    assert (p.x - cx) * c == p.x * c - cx * c && (p.y - cy) * s == p.y * s - cy * s;
    assert (p.x - cx) * s == p.x * s - cx * s && (p.y - cy) * c == p.y * c - cy * c;
  }

  /** With c² + s² = 1, undoing the rotation of a point, taken relative to
      the canvas origin, gives back the source point it came from. */
  lemma InverseUndoesForward(cx: real, cy: real, c: real, s: real, o: Point, p: Point)
    requires c * c + s * s == 1.0
    ensures UnrotatedAbout(Point(RotatedAbout(p, cx, cy, c, s).x - o.x, RotatedAbout(p, cx, cy, c, s).y - o.y), o, c, s, cx, cy) == p
  {
    RotateBack(p.x - cx, p.y - cy, c, s);
  }

  /** With c² + s² = 1, rotating the source coordinate of a canvas point q
      gives back q, offset by the canvas origin. */
  lemma ForwardUndoesInverse(cx: real, cy: real, c: real, s: real, o: Point, q: Point)
    requires c * c + s * s == 1.0
    ensures RotatedAbout(UnrotatedAbout(q, o, c, s, cx, cy), cx, cy, c, s) == Point(q.x + o.x, q.y + o.y)
  {
    UnrotateBack(q.x + o.x, q.y + o.y, c, s);
  }

  /** The grouping of the triple product does not matter. */
  lemma InverseMatrixGrouping(o: Point, c: real, s: real, cx: real, cy: real)
    ensures InverseMatrix(o, c, s, cx, cy)
         == Product(Translation(o.x, o.y), Product(InverseRotation(c, s), Translation(cx, cy)))
  {
    ProductAssociative(Translation(o.x, o.y), InverseRotation(c, s), Translation(cx, cy));
  }

  /** With c² + s² = 1, the source coordinate sampled for canvas pixel (x, y)
      is the source point the forward matrix sends to (x, y) offset by the
      canvas origin. */
  lemma SourcePointIsPreimage(o: Point, c: real, s: real, cx: real, cy: real, x: int, y: int)
    requires c * c + s * s == 1.0
    ensures MapPoint(ForwardMatrix(cx, cy, c, s), SourcePoint(InverseMatrix(o, c, s, cx, cy), x, y))
         == Point(x as real + o.x, y as real + o.y)
  {
    var q := Point(x as real, y as real);
    InverseMatrixMaps(q, o, c, s, cx, cy);
    ForwardMatrixMaps(UnrotatedAbout(q, o, c, s, cx, cy), cx, cy, c, s);
    ForwardUndoesInverse(cx, cy, c, s, o, q);
  }

  /** With c² + s² = 1, the inverse matrix takes the forward matrix's image
      of a source point, taken relative to the canvas origin, back to that
      point. */
  lemma InverseMatrixUndoesForward(o: Point, c: real, s: real, cx: real, cy: real, p: Point)
    requires c * c + s * s == 1.0
    ensures var q := MapPoint(ForwardMatrix(cx, cy, c, s), p);
      MapPoint(InverseMatrix(o, c, s, cx, cy), Point(q.x - o.x, q.y - o.y)) == p
  {
    var q := MapPoint(ForwardMatrix(cx, cy, c, s), p);
    ForwardMatrixMaps(p, cx, cy, c, s);
    InverseMatrixMaps(Point(q.x - o.x, q.y - o.y), o, c, s, cx, cy);
    InverseUndoesForward(cx, cy, c, s, o, p);
  }

  /** The canvas width: the rounded horizontal extent w|cos θ| + h|sin θ| of the rotated corners. */
  function CanvasWidth(w: nat, h: nat, c: real, s: real): nat {
    Round(w as real * Abs(c) + h as real * Abs(s))
  }

  /** The canvas height: the rounded vertical extent w|sin θ| + h|cos θ| of the rotated corners. */
  function CanvasHeight(w: nat, h: nat, c: real, s: real): nat {
    Round(w as real * Abs(s) + h as real * Abs(c))
  }

  /** The inverse matrix as the procedure multiplies it out, left to right. */
  method BuildInverse(o: Point, c: real, s: real, cx: real, cy: real) returns (inv: Mat3)
    ensures inv == InverseMatrix(o, c, s, cx, cy)
  {
    var partial := Multiply(Translation(o.x, o.y), InverseRotation(c, s));
    inv := Multiply(partial, Translation(cx, cy));
  }

  /** `dst_corners`: the forward matrix built with one product, and the four
      source corners transformed by it. */
  method ForwardCorners(w: nat, h: nat, cx: real, cy: real, c: real, s: real) returns (corners: seq<Vec3>)
    ensures Components(corners, 0) == CornerXs(w, h, cx, cy, c, s)
    ensures Components(corners, 1) == CornerYs(w, h, cx, cy, c, s)
    ensures |corners| == 4
  {
    var forward := Multiply(Translation(-cx, -cy), Rotation(c, s));
    var k0 := Transform([0.0, 0.0, 1.0], forward);
    var k1 := Transform([w as real, 0.0, 1.0], forward);
    var k2 := Transform([0.0, h as real, 1.0], forward);
    var k3 := Transform([w as real, h as real, 1.0], forward);
    corners := [k0, k1, k2, k3];
    CornerComponents(w, h, cx, cy, c, s, corners);
  }

  /** Step 1 of `rotateImageManually`: corners, bounding box and canvas
      size. The four source corners are rotated with the forward matrix,
      their bounding box is taken, and its extent is rounded to the canvas
      size. The box's least corner is the origin of rotated
      space; the canvas is w|cos θ| + h|sin θ| wide and w|sin θ| + h|cos θ| high. */
  method CanvasBounds(w: nat, h: nat, cx: real, cy: real, c: real, s: real)
    returns (origin: Point, dstW: nat, dstH: nat)
    ensures origin == Origin(w, h, cx, cy, c, s)
    ensures dstW == CanvasWidth(w, h, c, s) && dstH == CanvasHeight(w, h, c, s)
  {
    var corners := ForwardCorners(w, h, cx, cy, c, s);
    var minX, maxX, minY, maxY := BoundingBox(corners);
    CornerExtent(w, h, cx, cy, c, s);
    origin := Point(minX, minY);
    dstW, dstH := Round(maxX - minX), Round(maxY - minY);
  }

  /** `rotateImageManually(src, cx, cy, θ)`: an all-black canvas of the
      bounding-box size in which exactly the pixels whose inverse-mapped
      coordinate passes the guard hold the bilinear sample there. */
  method RotateAboutPoint(src: array2<Pixel>, cx: real, cy: real, c: real, s: real) returns (dst: array2<Pixel>)
    ensures fresh(dst)
    ensures dst.Length1 == CanvasWidth(src.Length1, src.Length0, c, s)
    ensures dst.Length0 == CanvasHeight(src.Length1, src.Length0, c, s)
    ensures forall y, x :: 0 <= y < dst.Length0 && 0 <= x < dst.Length1 ==>
      dst[y, x] == Sample(src, SourcePoint(InverseMatrix(Origin(src.Length1, src.Length0, cx, cy, c, s), c, s, cx, cy), x, y))
  {
    var origin, dstW, dstH := CanvasBounds(src.Length1, src.Length0, cx, cy, c, s);
    var inv := BuildInverse(origin, c, s, cx, cy);
    dst := Resample(src, (x, y) => SourcePoint(inv, x, y), dstW, dstH);
  }
}
