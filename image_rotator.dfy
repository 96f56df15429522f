/** `rotateImageManually` of the centre-based variant: the source is rotated
    by θ (given as c = cos θ, s = sin θ) about its own centre onto a canvas
    just large enough for the rotated corners, whose centre the source centre
    is moved to. Each canvas pixel is centred, rotated by -θ and de-centred
    into the source, then sampled. */
module ImageRotator {
  import opened Numerics
  import opened Sampler
  import opened Resampler

  /** `rotation_2D`: rotation of a point about the origin. The result makes
      the angle θ with `p`: its dot product with `p` is c·|p|² and its cross
      product with `p` is s·|p|². */
  function Rotate2D(p: Point, c: real, s: real): (r: Point)
    ensures p.x * r.x + p.y * r.y == c * (p.x * p.x + p.y * p.y)
    ensures p.x * r.y - p.y * r.x == s * (p.x * p.x + p.y * p.y)
  {
    assert p.x * (p.x * c - p.y * s) == c * (p.x * p.x) - p.x * p.y * s;
    assert p.y * (p.x * s + p.y * c) == p.x * p.y * s + c * (p.y * p.y);
    assert p.x * (p.x * s + p.y * c) == s * (p.x * p.x) + p.x * p.y * c;
    assert p.y * (p.x * c - p.y * s) == p.x * p.y * c - s * (p.y * p.y);
    Point(p.x * c - p.y * s, p.x * s + p.y * c)
  }

  /** `center_point`: coordinates relative to the centre `k`. */
  function Center(p: Point, k: Point): Point {
    Point(p.x - k.x, p.y - k.y)
  }

  /** `decenter_point`: coordinates relative to `k` back to image coordinates. */
  function Decenter(p: Point, k: Point): Point {
    Point(p.x + k.x, p.y + k.y)
  }

  function Negated(p: Point): Point {
    Point(-p.x, -p.y)
  }

  /** The centre (w / 2, h / 2) of a w-column, h-row image. */
  function ImageCentre(w: int, h: int): Point {
    Point(w as real / 2.0, h as real / 2.0)
  }

  lemma CenterDecenter(p: Point, k: Point)
    ensures Decenter(Center(p, k), k) == p
    ensures Center(Decenter(p, k), k) == p
  {
  }

  /** Rotating by θ and then by -θ, or by -θ and then by θ, gives the point
      back when c² + s² = 1. */
  lemma RotateThenUnrotate(p: Point, c: real, s: real)
    requires c * c + s * s == 1.0
    ensures Rotate2D(Rotate2D(p, c, s), c, -s) == p
    ensures Rotate2D(Rotate2D(p, c, -s), c, s) == p
  {
    var x, y := p.x, p.y;
    RotateBack(x, y, c, s);
    assert (x * s + y * c) * -s == -((x * s + y * c) * s);
    assert (x * c - y * s) * -s == -((x * c - y * s) * s);
    UnrotateBack(x, y, c, s);
    assert y * -s == -(y * s) && x * -s == -(x * s);
  }

  /** A rotation about the origin commutes with reflection through it. */
  lemma RotateNegated(p: Point, c: real, s: real)
    ensures Rotate2D(Negated(p), c, s) == Negated(Rotate2D(p, c, s))
  {
    assert -p.x * c == -(p.x * c) && -p.y * s == -(p.y * s);
    assert -p.x * s == -(p.x * s) && -p.y * c == -(p.y * c);
  }

  /** The four source corners relative to the source centre, in the order
      top-left, top-right, bottom-right, bottom-left. */
  function CentredCorners(w: int, h: int): seq<Point> {
    var hw, hh := w as real / 2.0, h as real / 2.0;
    [Point(-hw, -hh), Point(hw, -hh), Point(hw, hh), Point(-hw, hh)]
  }

  /** `rot_x1, rot_y1` … `rot_x4, rot_y4`. */
  function RotatedCorners(w: int, h: int, c: real, s: real): seq<Point> {
    var k := CentredCorners(w, h);
    [Rotate2D(k[0], c, s), Rotate2D(k[1], c, s), Rotate2D(k[2], c, s), Rotate2D(k[3], c, s)]
  }

  /** The rotated corners lie symmetrically about the centre: the third is the
      reflection of the first and the fourth that of the second. */
  lemma CornerSymmetry(w: int, h: int, c: real, s: real)
    ensures RotatedCorners(w, h, c, s)[2] == Negated(RotatedCorners(w, h, c, s)[0])
    ensures RotatedCorners(w, h, c, s)[3] == Negated(RotatedCorners(w, h, c, s)[1])
  {
    var k := CentredCorners(w, h);
    assert k[2] == Negated(k[0]) && k[3] == Negated(k[1]);
    RotateNegated(k[0], c, s);
    RotateNegated(k[1], c, s);
  }

  /** The magnitudes of the rotated corners' x components. */
  function CornerReachX(w: int, h: int, c: real, s: real): seq<real> {
    var r := RotatedCorners(w, h, c, s);
    [Abs(r[0].x), Abs(r[1].x), Abs(r[2].x), Abs(r[3].x)]
  }

  /** The magnitudes of the rotated corners' y components. */
  function CornerReachY(w: int, h: int, c: real, s: real): seq<real> {
    var r := RotatedCorners(w, h, c, s);
    [Abs(r[0].y), Abs(r[1].y), Abs(r[2].y), Abs(r[3].y)]
  }

  /** `new_w`: twice the farthest horizontal reach of a corner, rounded. Up
      to rounding, the canvas reaches every rotated corner on both sides of
      its centre, and some corner reaches its edge. */
  function NewWidth(w: int, h: int, c: real, s: real): (n: nat)
    ensures forall i :: 0 <= i < 4 ==> 2.0 * CornerReachX(w, h, c, s)[i] <= n as real + 0.5
    ensures exists i :: 0 <= i < 4 && n as real - 0.5 <= 2.0 * CornerReachX(w, h, c, s)[i]
  {
    Round(MaxOf(CornerReachX(w, h, c, s)) * 2.0)
  }

  /** `new_h`: twice the farthest vertical reach of a corner, rounded, with
      the same guarantees as `NewWidth`. */
  function NewHeight(w: int, h: int, c: real, s: real): (n: nat)
    ensures forall i :: 0 <= i < 4 ==> 2.0 * CornerReachY(w, h, c, s)[i] <= n as real + 0.5
    ensures exists i :: 0 <= i < 4 && n as real - 0.5 <= 2.0 * CornerReachY(w, h, c, s)[i]
  {
    Round(MaxOf(CornerReachY(w, h, c, s)) * 2.0)
  }

  /** Of ±a ± b, the largest magnitude is |a| + |b|, in either corner order. */
  lemma FarthestOfFour(a: real, b: real)
    ensures MaxOf([Abs(-a + b), Abs(a + b), Abs(a - b), Abs(-a - b)]) == Abs(a) + Abs(b)
    ensures MaxOf([Abs(-a - b), Abs(a - b), Abs(a + b), Abs(-a + b)]) == Abs(a) + Abs(b)
  {
    var xs := [Abs(-a + b), Abs(a + b), Abs(a - b), Abs(-a - b)];
    var m := MaxOf(xs);
    assert m in xs;
    assert xs[0] <= m && xs[1] <= m && xs[2] <= m && xs[3] <= m;
    var ys := [Abs(-a - b), Abs(a - b), Abs(a + b), Abs(-a + b)];
    var n := MaxOf(ys);
    assert n in ys;
    assert ys[0] <= n && ys[1] <= n && ys[2] <= n && ys[3] <= n;
  }

  /** The corner reaches in closed form: ±w/2·c ± h/2·s horizontally and
      ±w/2·s ± h/2·c vertically. */
  lemma CornerReachTerms(w: nat, h: nat, c: real, s: real)
    ensures var a, b := w as real / 2.0 * c, h as real / 2.0 * s;
      CornerReachX(w, h, c, s) == [Abs(-a + b), Abs(a + b), Abs(a - b), Abs(-a - b)]
    ensures var a, b := w as real / 2.0 * s, h as real / 2.0 * c;
      CornerReachY(w, h, c, s) == [Abs(-a - b), Abs(a - b), Abs(a + b), Abs(-a + b)]
  {
    var k := CentredCorners(w, h);
    var r := RotatedCorners(w, h, c, s);
    var a, b := w as real / 2.0 * c, h as real / 2.0 * s;
    var a', b' := w as real / 2.0 * s, h as real / 2.0 * c;
    assert -(w as real / 2.0) * c == -a && -(h as real / 2.0) * s == -b;
    assert -(w as real / 2.0) * s == -a' && -(h as real / 2.0) * c == -b';
    assert r[0] == Point(-a + b, -a' - b') && r[1] == Point(a + b, a' - b');
    assert r[2] == Point(a - b, a' + b') && r[3] == Point(-a - b, -a' + b');
  }

  lemma NewWidthClosedForm(w: nat, h: nat, c: real, s: real)
    ensures NewWidth(w, h, c, s) == Round(w as real * Abs(c) + h as real * Abs(s))
  {
    CornerReachTerms(w, h, c, s);
    FarthestOfFour(w as real / 2.0 * c, h as real / 2.0 * s);
    AbsOfScaled(w, c);
    assert w as real / 2.0 * c == (w as real * c) / 2.0;
    AbsOfScaled(h, s);
    assert h as real / 2.0 * s == (h as real * s) / 2.0;
  }

  lemma NewHeightClosedForm(w: nat, h: nat, c: real, s: real)
    ensures NewHeight(w, h, c, s) == Round(w as real * Abs(s) + h as real * Abs(c))
  {
    CornerReachTerms(w, h, c, s);
    FarthestOfFour(w as real / 2.0 * s, h as real / 2.0 * c);
    AbsOfScaled(w, s);
    assert w as real / 2.0 * s == (w as real * s) / 2.0;
    AbsOfScaled(h, c);
    assert h as real / 2.0 * c == (h as real * c) / 2.0;
  }

  /** The canvas is w|c| + h|s| wide and w|s| + h|c| high, rounded: the same
      size as the bounding box of the rotated corners. */
  lemma NewSizeClosedForm(w: nat, h: nat, c: real, s: real)
    ensures NewWidth(w, h, c, s) == Round(w as real * Abs(c) + h as real * Abs(s))
    ensures NewHeight(w, h, c, s) == Round(w as real * Abs(s) + h as real * Abs(c))
  {
    NewWidthClosedForm(w, h, c, s);
    NewHeightClosedForm(w, h, c, s);
  }

  /** Steps one to three of the loop body: canvas pixel q, centred on the
      canvas centre, rotated by -θ and de-centred on the source centre. */
  function InverseMap(srcCentre: Point, destCentre: Point, c: real, s: real, q: Point): Point {
    Decenter(Rotate2D(Center(q, destCentre), c, -s), srcCentre)
  }

  /** The forward map the loop inverts: a source point, centred on the source
      centre, rotated by θ and de-centred on the canvas centre. */
  function ForwardMap(srcCentre: Point, destCentre: Point, c: real, s: real, p: Point): Point {
    Decenter(Rotate2D(Center(p, srcCentre), c, s), destCentre)
  }

  /** The inverse map undoes the forward map and the other way round. */
  lemma InverseMapRoundTrip(srcCentre: Point, destCentre: Point, c: real, s: real, p: Point, q: Point)
    requires c * c + s * s == 1.0
    ensures InverseMap(srcCentre, destCentre, c, s, ForwardMap(srcCentre, destCentre, c, s, p)) == p
    ensures ForwardMap(srcCentre, destCentre, c, s, InverseMap(srcCentre, destCentre, c, s, q)) == q
  {
    var r := Rotate2D(Center(p, srcCentre), c, s);
    CenterDecenter(r, destCentre);
    RotateThenUnrotate(Center(p, srcCentre), c, s);
    CenterDecenter(p, srcCentre);
    var t := Rotate2D(Center(q, destCentre), c, -s);
    CenterDecenter(t, srcCentre);
    RotateThenUnrotate(Center(q, destCentre), c, s);
    CenterDecenter(q, destCentre);
  }

  /** `rotateImageManually(src, θ)`: an all-black canvas of `NewWidth` by
      `NewHeight` pixels in which exactly the pixels whose inverse-mapped
      coordinate passes the guard hold the bilinear sample there. */
  method RotateAboutCentre(src: array2<Pixel>, c: real, s: real) returns (dst: array2<Pixel>)
    ensures fresh(dst)
    ensures dst.Length1 == NewWidth(src.Length1, src.Length0, c, s)
    ensures dst.Length0 == NewHeight(src.Length1, src.Length0, c, s)
    ensures forall y, x :: 0 <= y < dst.Length0 && 0 <= x < dst.Length1 ==>
      dst[y, x] == Sample(src, InverseMap(ImageCentre(src.Length1, src.Length0), ImageCentre(dst.Length1, dst.Length0), c, s, Point(x as real, y as real)))
  {
    var w, h := src.Length1, src.Length0;
    var newW, newH := NewWidth(w, h, c, s), NewHeight(w, h, c, s);
    var srcCentre, destCentre := ImageCentre(w, h), ImageCentre(newW, newH);
    dst := Resample(src, (x, y) => InverseMap(srcCentre, destCentre, c, s, Point(x as real, y as real)), newW, newH);
  }

  /** At angle 0 the canvas has the source's size and the same centre, and
      the inverse map is the identity. */
  lemma ZeroAngleKeepsGeometry(w: nat, h: nat, q: Point)
    ensures NewWidth(w, h, 1.0, 0.0) == w && NewHeight(w, h, 1.0, 0.0) == h
    ensures InverseMap(ImageCentre(w, h), ImageCentre(w, h), 1.0, 0.0, q) == q
  {
    NewSizeClosedForm(w, h, 1.0, 0.0);
    RoundOfInteger(w);
    RoundOfInteger(h);
  }

  /** At angle 0 a canvas pixel inside the last column and row is the source
      pixel itself; one in the last column or row stays black. */
  lemma ZeroAngleCopies(src: array2<Pixel>, x: nat, y: nat)
    requires x < src.Length1 && y < src.Length0
    ensures var w, h := src.Length1, src.Length0;
      Sample(src, InverseMap(ImageCentre(w, h), ImageCentre(w, h), 1.0, 0.0, Point(x as real, y as real)))
      == if x < w - 1 && y < h - 1 then src[y, x] else Black
  {
    var w, h := src.Length1, src.Length0;
    ZeroAngleKeepsGeometry(w, h, Point(x as real, y as real));
    if x < w - 1 && y < h - 1 {
      BilinearAtGridPoint(src, x, y);
    }
  }
}
