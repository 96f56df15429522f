/** The inverse-mapping loop the three routines share: allocate a black
    canvas, visit every canvas pixel row by row, map it back into the source
    and, when the mapped coordinate passes the guard, write the bilinear
    sample there. The routines differ only in the map and the canvas size. */
module Resampler {
  import opened Numerics
  import opened Sampler

  method Resample(src: array2<Pixel>, sourceOf: (int, int) -> Point, dstW: nat, dstH: nat)
    returns (dst: array2<Pixel>)
    ensures fresh(dst)
    ensures dst.Length0 == dstH && dst.Length1 == dstW
    ensures forall y, x :: 0 <= y < dstH && 0 <= x < dstW ==> dst[y, x] == Sample(src, sourceOf(x, y))
  {
    dst := new Pixel[dstH, dstW]((_, _) => Black);
    for y := 0 to dstH
      invariant forall yy, xx :: 0 <= yy < y && 0 <= xx < dstW ==> dst[yy, xx] == Sample(src, sourceOf(xx, yy))
      invariant forall yy, xx :: y <= yy < dstH && 0 <= xx < dstW ==> dst[yy, xx] == Black
    {
      for x := 0 to dstW
        invariant forall yy, xx :: 0 <= yy < y && 0 <= xx < dstW ==> dst[yy, xx] == Sample(src, sourceOf(xx, yy))
        invariant forall xx :: 0 <= xx < x ==> dst[y, xx] == Sample(src, sourceOf(xx, y))
        invariant forall xx :: x <= xx < dstW ==> dst[y, xx] == Black
        invariant forall yy, xx :: y < yy < dstH && 0 <= xx < dstW ==> dst[yy, xx] == Black
      {
        var p := sourceOf(x, y);
        if p.x >= 0.0 && p.x < (src.Length1 - 1) as real && p.y >= 0.0 && p.y < (src.Length0 - 1) as real {
          dst[y, x] := Bilinear(src, p);
        }
      }
    }
  }
}
