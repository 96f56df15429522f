/** `scaleImageManually`: the canvas is the source size times the scale
    factors, rounded, and each canvas pixel (x, y) samples the source at
    (x / scale_x, y / scale_y). */
module ImageScaler {
  import opened Numerics
  import opened Sampler
  import opened Resampler

  /** `round(n * scale)`: one canvas dimension. */
  function ScaledSize(n: nat, scale: real): int {
    Round(n as real * scale)
  }

  /** A zero scale gives an empty dimension, so a canvas that has a pixel was
      scaled by a non-zero factor and the division by it is defined. */
  lemma ZeroScaleIsEmpty(n: nat, scale: real)
    ensures ScaledSize(n, scale) != 0 ==> scale != 0.0
  {
    if scale == 0.0 {
      assert n as real * scale == 0.0;
      RoundOfInteger(0);
    }
  }

  /** `x / scale`, where a zero divisor (which no canvas pixel reaches, by
      `ZeroScaleIsEmpty`) gives 0. */
  function Quotient(x: int, scale: real): real {
    if scale == 0.0 then 0.0 else x as real / scale
  }

  /** The source coordinate `(x_dest / scale_x, y_dest / scale_y)`. */
  function SourceOf(x: int, y: int, sx: real, sy: real): Point {
    Point(Quotient(x, sx), Quotient(y, sy))
  }

  /** The forward map the loop inverts: a source point times the scale factors. */
  function Scaled(p: Point, sx: real, sy: real): Point {
    Point(p.x * sx, p.y * sy)
  }

  /** Scaling a source coordinate back gives the canvas pixel, and the other
      way round, for non-zero factors. */
  lemma ScaleRoundTrip(x: int, y: int, p: Point, sx: real, sy: real)
    requires sx != 0.0 && sy != 0.0
    ensures Scaled(SourceOf(x, y, sx, sy), sx, sy) == Point(x as real, y as real)
    ensures Scaled(p, sx, sy).x / sx == p.x && Scaled(p, sx, sy).y / sy == p.y
  {
  }

  /** `scaleImageManually(src, scale_x, scale_y)`: an all-black canvas of
      `round(w * scale_x)` by `round(h * scale_y)` pixels in which exactly the
      pixels whose source coordinate passes the guard hold the bilinear
      sample there. `Mat::zeros` refuses negative sizes. */
  method ScaleImage(src: array2<Pixel>, sx: real, sy: real) returns (dst: array2<Pixel>)
    requires ScaledSize(src.Length1, sx) >= 0 && ScaledSize(src.Length0, sy) >= 0
    ensures fresh(dst)
    ensures dst.Length1 == ScaledSize(src.Length1, sx) && dst.Length0 == ScaledSize(src.Length0, sy)
    ensures forall y, x :: 0 <= y < dst.Length0 && 0 <= x < dst.Length1 ==>
      sx != 0.0 && sy != 0.0 && dst[y, x] == Sample(src, Point(x as real / sx, y as real / sy))
  {
    var dstW, dstH := ScaledSize(src.Length1, sx), ScaledSize(src.Length0, sy);
    ZeroScaleIsEmpty(src.Length1, sx);
    ZeroScaleIsEmpty(src.Length0, sy);
    dst := Resample(src, (x, y) => SourceOf(x, y, sx, sy), dstW, dstH);
  }

  /** For a positive divisor, a quotient stays below a bound exactly when the
      dividend stays below the bound times the divisor. */
  lemma QuotientBelow(a: real, b: real, d: real)
    requires d > 0.0
    ensures a / d < b <==> a < b * d
  {
    var q := a / d;
    assert q * d == a;
    if q < b {
      assert (b - q) * d > 0.0;
    } else {
      assert (q - b) * d >= 0.0;
    }
  }

  /** For positive factors, canvas pixel (x, y) is written exactly when
      x < (w - 1)·scale_x and y < (h - 1)·scale_y. */
  lemma WrittenRegion(w: int, h: int, sx: real, sy: real, x: nat, y: nat)
    requires sx > 0.0 && sy > 0.0
    ensures InDomain(w, h, Point(x as real / sx, y as real / sy))
        <==> x as real < (w - 1) as real * sx && y as real < (h - 1) as real * sy
  {
    QuotientBelow(x as real, (w - 1) as real, sx);
    QuotientBelow(y as real, (h - 1) as real, sy);
    assert x as real / sx >= 0.0 && y as real / sy >= 0.0 by {
      assert x as real / sx * sx == x as real;
      assert y as real / sy * sy == y as real;
    }
  }

  /** For positive factors the written region is closed downwards: every
      pixel above and to the left of a written pixel is written too. */
  lemma WrittenRegionDownwardClosed(w: int, h: int, sx: real, sy: real, x: nat, y: nat, x': nat, y': nat)
    requires sx > 0.0 && sy > 0.0 && x' <= x && y' <= y
    requires InDomain(w, h, Point(x as real / sx, y as real / sy))
    ensures InDomain(w, h, Point(x' as real / sx, y' as real / sy))
  {
    WrittenRegion(w, h, sx, sy, x, y);
    WrittenRegion(w, h, sx, sy, x', y');
  }

  /** At scale 1 the canvas has the source's size, a pixel inside the last
      column and row is the source pixel itself, and one in the last column or
      row stays black. */
  lemma UnitScaleCopies(src: array2<Pixel>, x: nat, y: nat)
    requires x < src.Length1 && y < src.Length0
    ensures ScaledSize(src.Length1, 1.0) == src.Length1 && ScaledSize(src.Length0, 1.0) == src.Length0
    ensures Sample(src, Point(x as real / 1.0, y as real / 1.0))
         == if x < src.Length1 - 1 && y < src.Length0 - 1 then src[y, x] else Black
  {
    RoundOfInteger(src.Length1);
    RoundOfInteger(src.Length0);
    assert Point(x as real / 1.0, y as real / 1.0) == Point(x as real, y as real);
    if x < src.Length1 - 1 && y < src.Length0 - 1 {
      BilinearAtGridPoint(src, x, y);
    }
  }
}
