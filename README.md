# Inverse-mapping image resampling, modelled in Dafny

The repository rotates and scales 3-channel 8-bit images by inverse mapping, in three small programs. All three share one engine:

1. Work out the size of the output canvas.
2. Allocate it all black (`Mat::zeros`).
3. Visit every canvas pixel and map it back into the source.
4. When the mapped coordinate lies inside the source, leaving room for the four bilinear neighbours, write the bilinear sample there. Otherwise leave the pixel black.

The three programs are:

- `affine_transformation/affine_transformer.cpp` rotates about an arbitrary centre. It uses 3×3 row-vector homogeneous matrices: a forward matrix rotates the four source corners, their bounding box sets the canvas, and a composed inverse matrix maps canvas pixels back.
- `image_rotation/image_rotator.cpp` rotates about the image centre. It uses point helpers: rotate, centre and de-centre. The canvas is twice the farthest corner reach.
- `image_scaling/image_scaler.cpp` scales each axis independently. The canvas is `round(w·sx) × round(h·sy)` and the source coordinate is `(x/sx, y/sy)`.

Both rotation programs also derive the file name of an OpenCV reference image from the output path.

Modules:

- `Numerics`: C's `round` (half away from zero) and the truncating cast. It also has the running minimum and maximum as left folds.
- `Sampler`: pixels, `bilinear_interpolate` and the boundary guard. Each source file carries an identical copy of these; they are defined once here.
- `Resampler`: the allocate-and-fill loop shared by the three routines. It is a method over a fresh `array2<Pixel>`.
- `Matrix`: `Matrix2d3x3::operator*` and `Vector1dx3::operator*`. Both are loops, proved against the pure `Product` and `Transformed`. The module also holds the matrices the routines build and the algebra about them.
- `AffineTransformer`, `ImageRotator`, `ImageScaler`: the three `rotateImageManually` / `scaleImageManually` routines, with their size rules and coordinate maps.
- `VerifyPath`: the `_opencv_verify` naming rule from `main`.

Numbers are exact reals. The angle enters as `c = cos θ` and `s = sin θ`. The round trips assume `c² + s² = 1`, and rotating by `-θ` uses `(c, -s)`. Images are `array2<Pixel>`: `Length0` is the number of rows (`h`) and `Length1` the number of columns (`w`).

## Model

| member | source | states |
|---|---|---|
| Numerics.Round | affine_transformation/affine_transformer.cpp:187-188 | `round` is within 0.5 of its argument; a tie goes away from zero; a non-negative argument gives a non-negative size |
| Numerics.Trunc | affine_transformation/affine_transformer.cpp:88-89 | `static_cast<int>` truncates toward zero: for x ≥ 0 it is the floor, for x < 0 the ceiling |
| Numerics.MinOf | affine_transformation/affine_transformer.cpp:176-184 | the running `std::min` over the corners is one of them and no corner is below it |
| Numerics.MaxOf | affine_transformation/affine_transformer.cpp:176-184 | the running `std::max` over the corners is one of them and no corner is above it |
| Sampler.BlendChannel | affine_transformation/affine_transformer.cpp:100-104 | for weights in [0, 1) each interpolated channel lies between the least and the greatest of the four neighbours' channels, so the `uchar` cast never wraps |
| Sampler.TruncBetween | affine_transformation/affine_transformer.cpp:103 | truncating a blend that lies between the least and the greatest of four channel values gives a `uchar` in that range |
| Sampler.LerpBetween | affine_transformation/affine_transformer.cpp:101-103 | a blend `a(1-t) + bt` with t in [0, 1] stays between a and b |
| Sampler.InDomain | affine_transformation/affine_transformer.cpp:237 | the guard `0 ≤ x < w-1` and `0 ≤ y < h-1` on the mapped coordinate, which leaves room for the four bilinear neighbours |
| Sampler.Bilinear | affine_transformation/affine_transformer.cpp:87-106 | under the guard the four reads `(yf, xf)` … `(yf+1, xf+1)` are in bounds, and every channel lies within the range of those four pixels |
| Sampler.FractionalOffsets | affine_transformation/affine_transformer.cpp:88-92 | under the guard `dx` and `dy` lie in [0, 1) |
| Sampler.BilinearAtGridPoint | affine_transformation/affine_transformer.cpp:87-106 | at an integer coordinate inside the guard the sampler returns the source pixel exactly |
| Sampler.Sample | affine_transformation/affine_transformer.cpp:237-240 | what one canvas pixel ends up holding: the bilinear sample when the coordinate passes the guard, and the black of `Mat::zeros` otherwise |
| Resampler.Resample | affine_transformation/affine_transformer.cpp:191-242 | the destination is a fresh `dstH × dstW` image. A pixel whose mapped coordinate fails the guard stays black, and every other pixel holds the bilinear sample at its mapped coordinate |
| Matrix.Multiply | affine_transformation/affine_transformer.cpp:29-41 | the triple loop produces the matrix product, entry `[i*3+j]` being the dot product of row i of A with column j of B |
| Matrix.Product | affine_transformation/affine_transformer.cpp:29-41 | the pure 3×3 product `Multiply` is proved against: entry (i, j) is row i of A dotted with column j of B |
| Matrix.ProductEntry | affine_transformation/affine_transformer.cpp:35-37 | each entry of the product is row i of A times column j of B |
| Matrix.Transform | affine_transformation/affine_transformer.cpp:58-68 | vector × matrix returns third component 1, and component j is `Σk v[k]·M[k*3+j]` for j < 2 |
| Matrix.Transformed | affine_transformation/affine_transformer.cpp:58-68 | the pure vector × matrix product `Transform` is proved against: v dotted with columns 0 and 1, then 1 |
| Matrix.Translation | affine_transformation/affine_transformer.cpp:146-150 | a translation by (tx, ty), held in the last row, as in `translate_to_origin_mat`, `translate_to_rotated_space_mat` and `translate_from_origin_mat` |
| Matrix.Rotation | affine_transformation/affine_transformer.cpp:153-157 | `rotation_mat`: rows (c, s, 0), (-s, c, 0), (0, 0, 1) |
| Matrix.InverseRotation | affine_transformation/affine_transformer.cpp:209-213 | `inverse_rotation_mat`: the rotation with the sign of sin θ flipped |
| Matrix.DotUpToAll | affine_transformation/affine_transformer.cpp:33-36 | the accumulator after three terms is the full dot product |
| Matrix.TransformedIgnoresLastColumn | affine_transformation/affine_transformer.cpp:58-68 | vector × matrix never reads column 2 of the matrix |
| Matrix.ProductAssociative | affine_transformation/affine_transformer.cpp:29-41 | the matrix product is associative |
| Matrix.ProductOfAffine | affine_transformation/affine_transformer.cpp:29-41 | a product of two matrices with last column (0, 0, 1) has that column too |
| Matrix.TransformedByProduct | affine_transformation/affine_transformer.cpp:160-173 | multiplying a point by `A*B` is multiplying it by A and then by B, when A has last column (0, 0, 1) |
| Matrix.RotationTimesInverse | affine_transformation/affine_transformer.cpp:153-213 | with c² + s² = 1, `rotation_mat * inverse_rotation_mat` is the identity |
| Matrix.InverseRotationUndoesRotation | affine_transformation/affine_transformer.cpp:153-213 | with c² + s² = 1, a homogeneous point times `rotation_mat` and then times `inverse_rotation_mat` is the point itself |
| Matrix.ProductWithTranslation | affine_transformation/affine_transformer.cpp:216-223 | multiplying an affine matrix by `translate_from_origin_mat` adds (cx, cy) to its last row and leaves the rest unchanged |
| AffineTransformer.BoundingBox | affine_transformation/affine_transformer.cpp:176-184 | the min/max loop returns the least and greatest x and y over the four corners: each bound is attained and holds for every corner |
| AffineTransformer.FoldStep | affine_transformation/affine_transformer.cpp:179-183 | one loop step extends the running minimum and maximum by the next corner |
| AffineTransformer.SourceCorners | affine_transformation/affine_transformer.cpp:163-168 | `src_corners`: (0, 0), (w, 0), (0, h), (w, h), each with third component 1 |
| AffineTransformer.AreForwardCorners | affine_transformation/affine_transformer.cpp:170-173 | `dst_corners`: the four source corners, in order, each times the forward matrix |
| AffineTransformer.ForwardMatrix | affine_transformation/affine_transformer.cpp:146-160 | `forward_transform_mat = translate_to_origin_mat * rotation_mat` |
| AffineTransformer.Origin | affine_transformation/affine_transformer.cpp:176-184 | (min_x, min_y): the least x and the least y of the four rotated corners |
| AffineTransformer.CanvasWidth | affine_transformation/affine_transformer.cpp:187 | `dst_w`: the width w·abs(c) + h·abs(s) of the rotated bounding box, rounded |
| AffineTransformer.CanvasHeight | affine_transformation/affine_transformer.cpp:188 | `dst_h`: the height w·abs(s) + h·abs(c) of the rotated bounding box, rounded |
| AffineTransformer.ForwardCorners | affine_transformation/affine_transformer.cpp:146-173 | the forward matrix is built with the product loop and the four corners are transformed by it; their x and y components are the closed-form spreads |
| AffineTransformer.ForwardMatrixEntries | affine_transformation/affine_transformer.cpp:146-160 | `forward_transform_mat` is the rotation with last row (-cx c + cy s, -cx s - cy c) |
| AffineTransformer.ImageOfPoint | affine_transformation/affine_transformer.cpp:146-173 | the forward matrix sends (x, y) to the shifted origin plus x along (c, s) and y along (-s, c) |
| AffineTransformer.BuiltMatricesAreAffine | affine_transformation/affine_transformer.cpp:146-223 | the forward and the inverse matrix both have last column (0, 0, 1) |
| AffineTransformer.CornerComponents | affine_transformation/affine_transformer.cpp:162-173 | the x and y components of the four transformed corners, in closed form |
| AffineTransformer.CornerExtent | affine_transformation/affine_transformer.cpp:176-188 | the bounding box is w·abs(c) + h·abs(s) wide and w·abs(s) + h·abs(c) high, whatever the centre |
| AffineTransformer.SpreadSpan | affine_transformation/affine_transformer.cpp:176-188 | four values t, t+a, t+b, t+a+b span exactly abs(a) + abs(b) |
| AffineTransformer.ForwardInSteps | affine_transformation/affine_transformer.cpp:146-160 | applying the forward matrix is translating by (-cx, -cy) and then rotating |
| AffineTransformer.InverseInSteps | affine_transformation/affine_transformer.cpp:202-223 | applying the inverse matrix is shifting by (min_x, min_y), rotating back, then translating by (cx, cy) |
| AffineTransformer.InverseMatrixEntries | affine_transformation/affine_transformer.cpp:202-223 | all nine entries of `inverse_transform_mat` in closed form: rows (c, -s, 0), (s, c, 0) and the shifted last row ending in 1 |
| AffineTransformer.InverseMatrix | affine_transformation/affine_transformer.cpp:202-223 | `inverse_transform_mat`: the translation to (min_x, min_y) times the inverse rotation times the translation to (cx, cy), grouped left to right |
| AffineTransformer.SourcePoint | affine_transformation/affine_transformer.cpp:229-234 | the source coordinate `dst_point * inverse_transform_mat` of canvas pixel (x, y) |
| AffineTransformer.MapPoint | affine_transformation/affine_transformer.cpp:230-234 | `Vector1dx3(x, y, 1) * m`, read back as the point (x', y') |
| AffineTransformer.InverseMatrixGrouping | affine_transformation/affine_transformer.cpp:223 | grouping the triple product to the right instead of the left gives the same matrix |
| AffineTransformer.InverseMatrixMaps | affine_transformation/affine_transformer.cpp:202-234 | the inverse matrix sends a canvas point q to the rotation by -θ of q + (min_x, min_y), moved back to (cx, cy) |
| AffineTransformer.ForwardMatrixMaps | affine_transformation/affine_transformer.cpp:146-173 | the forward matrix sends p to the rotation by θ of p - (cx, cy) |
| AffineTransformer.InverseUndoesForward | affine_transformation/affine_transformer.cpp:146-234 | with c² + s² = 1, mapping a rotated point, taken relative to (min_x, min_y), back through the inverse map gives the source point |
| AffineTransformer.ForwardUndoesInverse | affine_transformation/affine_transformer.cpp:146-234 | with c² + s² = 1, rotating the source coordinate of a canvas point q gives q + (min_x, min_y) |
| AffineTransformer.InverseMatrixUndoesForward | affine_transformation/affine_transformer.cpp:146-234 | with c² + s² = 1, the inverse matrix takes the forward matrix's image of a source point, less (min_x, min_y), back to that point |
| AffineTransformer.SourcePointIsPreimage | affine_transformation/affine_transformer.cpp:227-234 | with c² + s² = 1, the forward matrix sends the coordinate sampled for canvas pixel (x, y) to (x + min_x, y + min_y) |
| AffineTransformer.BuildInverse | affine_transformation/affine_transformer.cpp:202-223 | the two matrix products yield `translate_to_rotated_space_mat * inverse_rotation_mat * translate_from_origin_mat` |
| AffineTransformer.CanvasBounds | affine_transformation/affine_transformer.cpp:146-188 | the corner loop yields the bounding-box origin (min_x, min_y) and a canvas of `round(w·abs(c) + h·abs(s))` by `round(w·abs(s) + h·abs(c))` |
| AffineTransformer.RotateAboutPoint | affine_transformation/affine_transformer.cpp:136-245 | the result is a fresh canvas of that size; each pixel holds the bilinear sample at its inverse-mapped coordinate, or black where that fails the guard |
| ImageRotator.CenterDecenter | image_rotation/image_rotator.cpp:49-65 | `decenter_point` undoes `center_point` and the other way round |
| ImageRotator.Center | image_rotation/image_rotator.cpp:49-52 | `center_point`: the point relative to the centre, p - k |
| ImageRotator.Decenter | image_rotation/image_rotator.cpp:62-65 | `decenter_point`: a centred point back in image coordinates, p + k |
| ImageRotator.Rotate2D | image_rotation/image_rotator.cpp:25-30 | `rotation_2D` gives (x·c - y·s, x·s + y·c). Its dot product with p is c·abs(p)² and its cross product with p is s·abs(p)², so it turns p through θ |
| ImageRotator.ImageCentre | image_rotation/image_rotator.cpp:119-120 | `src_center` and `dest_center`: (w/2, h/2) of a w-column, h-row image |
| ImageRotator.CentredCorners | image_rotation/image_rotator.cpp:102-105 | `x1, y1` … `x4, y4`: the corners (∓w/2, ∓h/2) relative to the centre, in the order top-left, top-right, bottom-right, bottom-left |
| ImageRotator.RotatedCorners | image_rotation/image_rotator.cpp:107-112 | `rot_x1, rot_y1` … `rot_x4, rot_y4`: each centred corner turned by `rotation_2D` |
| ImageRotator.CornerReachX | image_rotation/image_rotator.cpp:114 | the four terms `abs(rot_x1)` … `abs(rot_x4)` |
| ImageRotator.CornerReachY | image_rotation/image_rotator.cpp:115 | the four terms `abs(rot_y1)` … `abs(rot_y4)` |
| ImageRotator.RotateThenUnrotate | image_rotation/image_rotator.cpp:25-30 | with c² + s² = 1, `rotation_2D` by -θ undoes `rotation_2D` by θ, in both orders |
| ImageRotator.RotateNegated | image_rotation/image_rotator.cpp:25-30 | `rotation_2D` commutes with reflection through the origin |
| ImageRotator.CornerSymmetry | image_rotation/image_rotator.cpp:102-112 | the third rotated corner is the reflection of the first and the fourth that of the second |
| ImageRotator.FarthestOfFour | image_rotation/image_rotator.cpp:114-115 | the largest of abs(±a ± b) is abs(a) + abs(b) |
| ImageRotator.CornerReachTerms | image_rotation/image_rotator.cpp:102-112 | the rotated corners' components are ±(w/2)c ± (h/2)s and ±(w/2)s ± (h/2)c |
| ImageRotator.NewSizeClosedForm | image_rotation/image_rotator.cpp:102-115 | `new_w = round(w·abs(c) + h·abs(s))` and `new_h = round(w·abs(s) + h·abs(c))`, the same size the affine routine gives |
| ImageRotator.NewWidthClosedForm | image_rotation/image_rotator.cpp:102-114 | `new_w`, twice the farthest horizontal corner reach rounded, is `round(w·abs(c) + h·abs(s))` |
| ImageRotator.NewHeightClosedForm | image_rotation/image_rotator.cpp:102-115 | `new_h`, twice the farthest vertical corner reach rounded, is `round(w·abs(s) + h·abs(c))` |
| ImageRotator.NewWidth | image_rotation/image_rotator.cpp:114 | `new_w`, twice the farthest horizontal corner reach rounded: up to rounding, every rotated corner fits on both sides of the canvas centre and one reaches the edge |
| ImageRotator.NewHeight | image_rotation/image_rotator.cpp:115 | `new_h`, the same in the vertical direction |
| ImageRotator.InverseMap | image_rotation/image_rotator.cpp:125-135 | the loop body's source coordinate: centre on the canvas centre, rotate by -θ, de-centre on the source centre |
| ImageRotator.InverseMapRoundTrip | image_rotation/image_rotator.cpp:122-135 | with c² + s² = 1, the centre / rotate by -θ / de-centre map undoes the forward rotation about the centres, and the other way round |
| ImageRotator.RotateAboutCentre | image_rotation/image_rotator.cpp:97-143 | the result is a fresh `new_h × new_w` canvas. Each pixel holds the bilinear sample at its inverse-mapped coordinate, or black where that fails the guard |
| ImageRotator.ZeroAngleKeepsGeometry | image_rotation/image_rotator.cpp:114-135 | at angle 0 the canvas has the source's size and centre, and the inverse map is the identity |
| ImageRotator.ZeroAngleCopies | image_rotation/image_rotator.cpp:122-139 | at angle 0 every pixel left of the last column and above the last row is the source pixel, and the last column and row stay black |
| ImageScaler.ZeroScaleIsEmpty | image_scaling/image_scaler.cpp:51-63 | a zero factor gives a zero dimension, so no pixel ever divides by zero |
| ImageScaler.ScaledSize | image_scaling/image_scaler.cpp:51-52 | one canvas dimension, `round(n·scale)` |
| ImageScaler.SourceOf | image_scaling/image_scaler.cpp:62-63 | the source coordinate `(x_dest / scale_x, y_dest / scale_y)`; a zero divisor, which no pixel reaches, gives 0 |
| ImageScaler.ScaleImage | image_scaling/image_scaler.cpp:46-73 | the result is a fresh `round(h·sy) × round(w·sx)` canvas. Each pixel holds the bilinear sample at `(x/sx, y/sy)` if that passes the guard, else black |
| ImageScaler.ScaleRoundTrip | image_scaling/image_scaler.cpp:62-63 | dividing by the factors and multiplying by them are inverse maps |
| ImageScaler.QuotientBelow | image_scaling/image_scaler.cpp:62-66 | for a positive divisor, `a/d < b` exactly when `a < b·d` |
| ImageScaler.WrittenRegion | image_scaling/image_scaler.cpp:62-69 | for positive factors, pixel (x, y) is written exactly when x < (w-1)·sx and y < (h-1)·sy |
| ImageScaler.WrittenRegionDownwardClosed | image_scaling/image_scaler.cpp:62-66 | for positive factors, every pixel above and to the left of a written pixel is written too |
| ImageScaler.UnitScaleCopies | image_scaling/image_scaler.cpp:51-68 | at scale 1 the canvas has the source's size. Every pixel left of the last column and above the last row is the source pixel, and the last column and row stay black |
| VerifyPath.LastDot | image_rotation/image_rotator.cpp:196 | `find_last_of(".")` returns a '.' with no '.' after it, or `npos` when the path has no '.' |
| VerifyPath.LastDotIsUnique | image_rotation/image_rotator.cpp:196 | the last '.' is the only candidate for `find_last_of` |
| VerifyPath.VerifyOutputPath | image_rotation/image_rotator.cpp:195-201 | the name is 14 characters longer than the output path |
| VerifyPath.MarkerRemovable | image_rotation/image_rotator.cpp:196-198 | when the path has a last '.', cutting the inserted `_opencv_verify` back out of the name gives the output path |
| VerifyPath.MarkerAppended | image_rotation/image_rotator.cpp:199-201 | when the path has no '.', the name starts with the whole output path |
| VerifyPath.ExtensionKept | image_rotation/image_rotator.cpp:196-201 | the name's last '.' starts the same extension as the output path's, and a path without '.' still has none |

Notes on correspondence:

- The naming rule appears twice, at `image_rotation/image_rotator.cpp:195-201` and at `affine_transformation/affine_transformer.cpp:336-342`. It is modelled once.
- `bilinear_interpolate` appears three times: `affine_transformation/affine_transformer.cpp:87-106`, `image_rotation/image_rotator.cpp:75-94` and `image_scaling/image_scaler.cpp:18-37`. It is modelled once.
- `scaleImageManually` does not validate its factors, and the model follows the code:
  - A zero factor gives a zero dimension, so the loop never divides (`ZeroScaleIsEmpty`).
  - A factor that makes `round(n·scale)` negative is refused by `Mat::zeros`, which becomes the precondition of `ScaleImage`.
  - A small negative factor whose product rounds to 0 gives an empty image.

## Left out

- The OpenCV reference routines. None of them is modelled, because each ends in an OpenCV call whose code is not part of this model:
  - `rotateImageWithOpenCV` in `affine_transformation/affine_transformer.cpp:254-288` takes `getRotationMatrix2D` and transforms the four corners with `transform`. It takes their `boundingRect` and shifts the matrix's translation by `-bbox.tl()`. It then calls `warpAffine`.
  - `rotateImageWithOpenCV` in `image_rotation/image_rotator.cpp:146-155` takes `getRotationMatrix2D` and the bounding box of a `RotatedRect` (`boundingRect2f`). It adds `bbox.width/2 - center.x` and `bbox.height/2 - center.y` to the translation, then calls `warpAffine`.
  - `scaleImageWithOpenCV` in `image_scaling/image_scaler.cpp:82-88` calls `resize`.
- `imread`, `imwrite`, console output, `print_Vector1dx3`, and the argument parsing and range checks in each `main`. These are I/O and command-line plumbing. Of `main` only the file-naming rule is kept.
- `max_distance` and `min_distance`. They are never called, and they print.
- Trigonometry and `M_PI`. The angle enters as its cosine and sine, so the degree-to-radian step is not modelled. Each routine is modelled as written, for the angle it receives.
- The sign of the angle at the call sites. The rotator's `main` passes `-angle` to the modelled `rotateImageManually` (`image_rotation/image_rotator.cpp:188`); callers of `ImageRotator.RotateAboutCentre` supply the cosine and sine of that negated angle. The affine program passes `angle` unchanged to its `rotateImageManually` (`affine_transformation/affine_transformer.cpp:328`) and negates it only for the unmodelled reference image (`affine_transformation/affine_transformer.cpp:335`).
- IEEE-754 doubles and the `float` centres of `Point2f`. All arithmetic is exact, so rounding error in coordinates, which can move a sample across the guard, is not captured. Nor is rounding error in the blend: `static_cast<uchar>` at `affine_transformation/affine_transformer.cpp:103` truncates the computed double, so four equal neighbours can give a value just below their channel, which then drops by one. The neighbour-range ensures of `Sampler.BlendChannel` and `Sampler.Bilinear` hold for exact reals only.
- Images other than 3-channel `uchar` images.
- AffineTransformer.RotateAboutPoint: the per-pixel vector × matrix product is written as the function `Transformed`, not as calls to the `Matrix.Transform` loop. That loop is proved separately and gives the same vector.
- The three nested destination loops are modelled by one shared `Resampler.Resample`, which takes the coordinate map as a parameter. The row-by-row writes into the image are kept; the per-routine copies of the loop are not.
- ImageScaler.ScaleImage: canvas sizes outside the range of `int` are not modelled. `static_cast<int>(round(src_w * scale_x))` at `image_scaling/image_scaler.cpp:51-52` is undefined once the rounded product exceeds `INT_MAX`, and `main` accepts any factor, but the model's unbounded integers promise a canvas of that size. The same holds for `dst_w`/`dst_h` (`affine_transformation/affine_transformer.cpp:187-188`, AffineTransformer.RotateAboutPoint) and `new_w`/`new_h` (`image_rotation/image_rotator.cpp:114-115`, ImageRotator.RotateAboutCentre), although the rotations only reach that size for images already near that size.
