/** Exact-real stand-ins for the C library numerics the resampling engine uses:
    `round`, the truncating `static_cast<int>`, `abs`, `std::min`/`std::max`. */
module Numerics {

  /** A plain (x, y) pair: corners, centres and sample coordinates. */
  datatype Point = Point(x: real, y: real)

  function Abs(x: real): real {
    if x < 0.0 then -x else x
  }

  function Min(a: real, b: real): real {
    if a <= b then a else b
  }

  function Max(a: real, b: real): real {
    if a >= b then a else b
  }

  /** C's `round`: the nearest integer, halfway cases rounded away from zero. */
  function Round(x: real): (n: int)
    ensures x - 0.5 <= n as real <= x + 0.5
    ensures n as real == x + 0.5 ==> x > 0.0
    ensures n as real == x - 0.5 ==> x < 0.0
    ensures x >= 0.0 ==> n >= 0
  {
    if x >= 0.0 then (x + 0.5).Floor else -((-x + 0.5).Floor)
  }

  /** `static_cast<int>` of a double: truncation toward zero. */
  function Trunc(x: real): (n: int)
    ensures x >= 0.0 ==> n >= 0 && n as real <= x < n as real + 1.0
    ensures x < 0.0 ==> n <= 0 && n as real - 1.0 < x <= n as real
  {
    if x >= 0.0 then x.Floor else -((-x).Floor)
  }

  lemma RoundOfInteger(n: int)
    ensures Round(n as real) == n
  {
    if n >= 0 {
      assert (n as real + 0.5).Floor == n;
    } else {
      assert (-(n as real) + 0.5).Floor == -n;
    }
  }

  lemma TruncOfInteger(n: int)
    ensures Trunc(n as real) == n
  {
  }

  /** Scaling by a width or height commutes with taking the magnitude. */
  lemma AbsOfScaled(w: nat, a: real)
    ensures Abs(w as real * a) == w as real * Abs(a)
    ensures Abs(-(w as real * a)) == w as real * Abs(a)
  {
    if a < 0.0 {
      assert w as real * a == -(w as real * -a);
      assert w as real * -a >= 0.0;
    } else {
      assert w as real * a >= 0.0;
    }
  }

  /** With c² + s² = 1, rotating (a, b) by θ and then by -θ gives it back. */
  lemma RotateBack(a: real, b: real, c: real, s: real)
    requires c * c + s * s == 1.0
    ensures (a * c + -(b * s)) * c + (a * s + b * c) * s == a
    ensures -((a * c + -(b * s)) * s) + (a * s + b * c) * c == b
  {
    assert (a * c + -(b * s)) * c == a * (c * c) - b * (s * c);
    assert (a * s + b * c) * s == a * (s * s) + b * (c * s);
    assert a * (c * c) + a * (s * s) == a * (c * c + s * s);
    assert (a * c + -(b * s)) * s == a * (c * s) - b * (s * s);
    assert (a * s + b * c) * c == a * (s * c) + b * (c * c);
    assert b * (s * s) + b * (c * c) == b * (c * c + s * s);
  }

  /** With c² + s² = 1, rotating (a, b) by -θ and then by θ gives it back. */
  lemma UnrotateBack(a: real, b: real, c: real, s: real)
    requires c * c + s * s == 1.0
    ensures (a * c + b * s) * c + -((-(a * s) + b * c) * s) == a
    ensures (a * c + b * s) * s + (-(a * s) + b * c) * c == b
  {
    assert (a * c + b * s) * c == a * (c * c) + b * (s * c);
    assert (-(a * s) + b * c) * s == -(a * (s * s)) + b * (c * s);
    assert a * (c * c) + a * (s * s) == a * (c * c + s * s);
    assert (a * c + b * s) * s == a * (c * s) + b * (s * s);
    assert (-(a * s) + b * c) * c == -(a * (s * c)) + b * (c * c);
    assert b * (s * s) + b * (c * c) == b * (c * c + s * s);
  }

  /** `m` is one of `xs` and no element of `xs` is below it. */
  predicate IsLeast(m: real, xs: seq<real>) {
    m in xs && forall i :: 0 <= i < |xs| ==> m <= xs[i]
  }

  /** `m` is one of `xs` and no element of `xs` is above it. */
  predicate IsGreatest(m: real, xs: seq<real>) {
    m in xs && forall i :: 0 <= i < |xs| ==> xs[i] <= m
  }

  /** The running minimum `m := std::min(m, xs[i])`, folded from the left. */
  function MinOf(xs: seq<real>): (m: real)
    requires |xs| > 0
    ensures IsLeast(m, xs)
  {
    if |xs| == 1 then xs[0]
    else
      var init := xs[..|xs| - 1];
      assert xs == init + [xs[|xs| - 1]];
      Min(MinOf(init), xs[|xs| - 1])
  }

  /** The running maximum `m := std::max(m, xs[i])`, folded from the left. */
  function MaxOf(xs: seq<real>): (m: real)
    requires |xs| > 0
    ensures IsGreatest(m, xs)
  {
    if |xs| == 1 then xs[0]
    else
      var init := xs[..|xs| - 1];
      assert xs == init + [xs[|xs| - 1]];
      Max(MaxOf(init), xs[|xs| - 1])
  }
}
