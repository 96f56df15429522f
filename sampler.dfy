/** Pixels, the bilinear sampler and the boundary guard shared by the three
    resampling routines (each source file carries its own identical copy of
    `bilinear_interpolate`). */
module Sampler {
  import opened Numerics

  /** One 8-bit colour channel (`uchar`). */
  type Channel = v: int | 0 <= v <= 255

  /** A three-channel `Vec3b`, in OpenCV's blue, green, red order. */
  datatype Pixel = Pixel(b: Channel, g: Channel, r: Channel) {
    /** `pixel[c]` */
    function Get(c: nat): Channel
      requires c < 3
    {
      if c == 0 then b else if c == 1 then g else r
    }
  }

  /** The background colour `Mat::zeros` fills a new image with. */
  const Black := Pixel(0, 0, 0)

  /** The guard every resampling loop applies before sampling at `p` in a
      `w`-column, `h`-row source: the last column and row are excluded so that
      all four neighbours exist. */
  predicate InDomain(w: int, h: int, p: Point) {
    0.0 <= p.x < (w - 1) as real && 0.0 <= p.y < (h - 1) as real
  }

  /** The least of four channel values, as a real. */
  function Least4(a: int, b: int, c: int, d: int): real {
    Min(Min(a as real, b as real), Min(c as real, d as real))
  }

  /** The greatest of four channel values, as a real. */
  function Greatest4(a: int, b: int, c: int, d: int): real {
    Max(Max(a as real, b as real), Max(c as real, d as real))
  }

  /** `a * (1 - t) + b * t` */
  function Lerp(a: real, b: real, t: real): real {
    a * (1.0 - t) + b * t
  }

  /** A linear blend with a weight in [0, 1] stays between its two ends. */
  lemma LerpBetween(a: real, b: real, t: real)
    requires 0.0 <= t <= 1.0
    ensures Min(a, b) <= Lerp(a, b, t) <= Max(a, b)
  {
    var d := if a <= b then b - a else a - b;
    ProductOfNonNegatives(t, d);
    ProductOfNonNegatives(1.0 - t, d);
    assert t * d + (1.0 - t) * d == d;
    assert Lerp(a, b, t) == a + t * (b - a);
  }

  lemma ProductOfNonNegatives(x: real, y: real)
    requires x >= 0.0 && y >= 0.0
    ensures x * y >= 0.0
  {
  }

  /** Truncating a value that lies between the least and the greatest of
      four channel values gives a channel value in the same range. */
  lemma TruncBetween(p1: Channel, p2: Channel, p3: Channel, p4: Channel, value: real)
    requires Least4(p1, p2, p3, p4) <= value <= Greatest4(p1, p2, p3, p4)
    ensures 0 <= Trunc(value) <= 255
    ensures Least4(p1, p2, p3, p4) <= Trunc(value) as real <= Greatest4(p1, p2, p3, p4)
  {
    var lo, n := Least4(p1, p2, p3, p4), Trunc(value);
    assert 0.0 <= lo <= value;
    assert n as real <= value < n as real + 1.0;
    if lo == p1 as real {
      assert p1 <= n;
    } else if lo == p2 as real {
      assert p2 <= n;
    } else if lo == p3 as real {
      assert p3 <= n;
    } else {
      assert p4 <= n;
    }
  }

  /** One channel of `bilinear_interpolate`: blend along x on the upper and
      lower row, then along y, and truncate to `uchar`. */
  function BlendChannel(p1: Channel, p2: Channel, p3: Channel, p4: Channel, dx: real, dy: real): (v: Channel)
    requires 0.0 <= dx < 1.0 && 0.0 <= dy < 1.0
    ensures Least4(p1, p2, p3, p4) <= v as real <= Greatest4(p1, p2, p3, p4)
  {
    var top := Lerp(p1 as real, p2 as real, dx);
    var bottom := Lerp(p3 as real, p4 as real, dx);
    var value := Lerp(top, bottom, dy);
    LerpBetween(p1 as real, p2 as real, dx);
    LerpBetween(p3 as real, p4 as real, dx);
    LerpBetween(top, bottom, dy);
    TruncBetween(p1, p2, p3, p4, value);
    Trunc(value)
  }

  /** `bilinear_interpolate(src, p.x, p.y)`. Under the guard the four reads
      are in bounds and every channel of the result lies between the least
      and the greatest of the four neighbours' channels. */
  function Bilinear(src: array2<Pixel>, p: Point): (q: Pixel)
    reads src
    requires InDomain(src.Length1, src.Length0, p)
    ensures var xf, yf := Trunc(p.x), Trunc(p.y);
      && 0 <= xf && xf + 1 < src.Length1 && 0 <= yf && yf + 1 < src.Length0
      && forall c :: 0 <= c < 3 ==>
           Least4(src[yf, xf].Get(c), src[yf, xf + 1].Get(c), src[yf + 1, xf].Get(c), src[yf + 1, xf + 1].Get(c))
           <= q.Get(c) as real <=
           Greatest4(src[yf, xf].Get(c), src[yf, xf + 1].Get(c), src[yf + 1, xf].Get(c), src[yf + 1, xf + 1].Get(c))
  {
    var xf, yf := Trunc(p.x), Trunc(p.y);
    var dx, dy := p.x - xf as real, p.y - yf as real;
    var p1, p2 := src[yf, xf], src[yf, xf + 1];
    var p3, p4 := src[yf + 1, xf], src[yf + 1, xf + 1];
    Pixel(BlendChannel(p1.b, p2.b, p3.b, p4.b, dx, dy),
          BlendChannel(p1.g, p2.g, p3.g, p4.g, dx, dy),
          BlendChannel(p1.r, p2.r, p3.r, p4.r, dx, dy))
  }

  /** Under the guard the fractional offsets `dx`, `dy` lie in [0, 1). */
  lemma FractionalOffsets(w: int, h: int, p: Point)
    requires InDomain(w, h, p)
    ensures 0.0 <= p.x - Trunc(p.x) as real < 1.0
    ensures 0.0 <= p.y - Trunc(p.y) as real < 1.0
  {
  }

  /** At a grid point the sampler returns the source pixel exactly. */
  lemma BilinearAtGridPoint(src: array2<Pixel>, x: int, y: int)
    requires 0 <= x < src.Length1 - 1 && 0 <= y < src.Length0 - 1
    ensures Bilinear(src, Point(x as real, y as real)) == src[y, x]
  {
    TruncOfInteger(x);
    TruncOfInteger(y);
    forall a: Channel, b: Channel, c: Channel, d: Channel
      ensures BlendChannel(a, b, c, d, 0.0, 0.0) == a
    {
      assert Lerp(a as real, b as real, 0.0) == a as real;
      assert Lerp(c as real, d as real, 0.0) == c as real;
      TruncOfInteger(a);
    }
  }

  /** What one destination pixel ends up holding: the sampled colour when the
      mapped coordinate passes the guard, the untouched background otherwise. */
  function Sample(src: array2<Pixel>, p: Point): Pixel
    reads src
  {
    if InDomain(src.Length1, src.Length0, p) then Bilinear(src, p) else Black
  }
}
