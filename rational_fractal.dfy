/** The exact-arithmetic renderer `calc_multi_threaded_rational`: the viewport is set up
    with rational operators, every pixel runs the escape-time loop on
    `ComplexRationalNumber`s, and the rows are shared out with the `y_global` row claim.
    The loop guard `length_squared < 4/1` goes through the rational `partial_cmp`, so the
    kernel is stated for any guard: `BelowAsWritten` is the source's, `BelowNumeric` the
    numeric comparison it evidently means. */
module RationalFractal {
  import opened Wrappers
  import opened Colors
  import opened Canvas
  import R = Rational
  import C = ComplexRational
  import AiMpsc
  import RowClaim
  import RasterWalk
  import Collector
  import Palette

  /** The corners and steps the workers capture. */
  datatype Viewport = Viewport(reMin: R.RationalNumber, reMax: R.RationalNumber,
                               imgMin: R.RationalNumber, imgMax: R.RationalNumber,
                               xDelta: R.RationalNumber, yDelta: R.RationalNumber)

  predicate ProperView(v: Viewport)
  {
    R.Proper(v.reMin) && R.Proper(v.reMax) && R.Proper(v.imgMin) && R.Proper(v.imgMax) &&
    R.Proper(v.xDelta) && R.Proper(v.yDelta)
  }

  /** The coordinate setup: the complex width divided by the zoom, the complex height as
      that width over width/height, the corners half a width and half a height either
      side of the centre, and the steps as the spans over width/1 and height/1. */
  function Setup(center: C.ComplexRationalNumber, complexWidth: R.RationalNumber, zoom: R.RationalNumber,
                 width: nat, height: nat): Result<Viewport>
  {
    var cw :- R.Div(complexWidth, zoom);
    var ch :- R.Div(cw, R.RationalNumber(width, height));
    var halfWidth :- R.Div(cw, C.Two);
    var reMin :- R.Sub(center.a, halfWidth);
    var reMax :- R.Add(center.a, halfWidth);
    var halfHeight :- R.Div(ch, C.Two);
    var imgMin :- R.Sub(center.b, halfHeight);
    var imgMax :- R.Add(center.b, halfHeight);
    var reSpan :- R.Sub(reMax, reMin);
    var xDelta :- R.Div(reSpan, R.RationalNumber(width, 1));
    var imgSpan :- R.Sub(imgMax, imgMin);
    var yDelta :- R.Div(imgSpan, R.RationalNumber(height, 1));
    Ok(Viewport(reMin, reMax, imgMin, imgMax, xDelta, yDelta))
  }

  /** With a proper centre and width, a non-zero zoom and a non-empty canvas the setup
      never panics and every corner and step is a proper fraction. */
  lemma {:induction false} SetupProper(center: C.ComplexRationalNumber, complexWidth: R.RationalNumber, zoom: R.RationalNumber,
                    width: nat, height: nat)
    requires C.Proper(center) && R.Proper(complexWidth) && R.Proper(zoom) && zoom.num != 0
    requires width > 0 && height > 0
    ensures Setup(center, complexWidth, zoom, width, height).Ok?
    ensures ProperView(Setup(center, complexWidth, zoom, width, height).value)
  {
    R.DivCases(complexWidth, zoom);
    var cw := R.Div(complexWidth, zoom).value;
    R.DivCases(cw, R.RationalNumber(width, height));
    var ch := R.Div(cw, R.RationalNumber(width, height)).value;
    R.DivCases(cw, C.Two);
    var halfWidth := R.Div(cw, C.Two).value;
    R.AddSubMulExact(center.a, halfWidth);
    var reMin, reMax := R.Sub(center.a, halfWidth).value, R.Add(center.a, halfWidth).value;
    R.DivCases(ch, C.Two);
    var halfHeight := R.Div(ch, C.Two).value;
    R.AddSubMulExact(center.b, halfHeight);
    var imgMin, imgMax := R.Sub(center.b, halfHeight).value, R.Add(center.b, halfHeight).value;
    R.AddSubMulExact(reMax, reMin);
    R.DivCases(R.Sub(reMax, reMin).value, R.RationalNumber(width, 1));
    R.AddSubMulExact(imgMax, imgMin);
    R.DivCases(R.Sub(imgMax, imgMin).value, R.RationalNumber(height, 1));
  }

  /** The point c of pixel (x, y): (re_min + x_delta * x/1) + (img_min + y_delta * y/1) i. */
  function PixelPoint(x: nat, y: nat, v: Viewport): Result<C.ComplexRationalNumber>
  {
    var dx :- R.Mul(v.xDelta, R.RationalNumber(x, 1));
    var re :- R.Add(v.reMin, dx);
    var dy :- R.Mul(v.yDelta, R.RationalNumber(y, 1));
    var im :- R.Add(v.imgMin, dy);
    Ok(C.ComplexRationalNumber(re, im))
  }

  /** A proper viewport gives every pixel a proper point. */
  lemma {:induction false} PixelPointProper(x: nat, y: nat, v: Viewport)
    requires ProperView(v)
    ensures PixelPoint(x, y, v).Ok? && C.Proper(PixelPoint(x, y, v).value)
  {
    R.AddSubMulExact(v.xDelta, R.RationalNumber(x, 1));
    R.AddSubMulExact(v.reMin, R.Mul(v.xDelta, R.RationalNumber(x, 1)).value);
    R.AddSubMulExact(v.yDelta, R.RationalNumber(y, 1));
    R.AddSubMulExact(v.imgMin, R.Mul(v.yDelta, R.RationalNumber(y, 1)).value);
  }

  /** The radius test's right-hand side, 4/1. */
  const Four := R.RationalNumber(4, 1)

  /** The guard as written: `length_squared < radius_4` under the rational `partial_cmp`,
      which panics on 0/0 like every reduction. */
  function BelowAsWritten(l: R.RationalNumber): Result<bool>
  {
    var order :- R.PartialCmp(l, Four);
    Ok(order == R.Less)
  }

  /** l < 4 in value: num / denom < 4 multiplied out by the denominator, the inequality
      flipping when the denominator is negative. */
  predicate BelowFour(l: R.RationalNumber)
  {
    if l.denom > 0 then l.num < 4 * l.denom else l.num > 4 * l.denom
  }

  /** The guard with the numeric order. */
  function BelowNumeric(l: R.RationalNumber): Result<bool>
  {
    Ok(BelowFour(l))
  }

  /** One step of the orbit: `z.pow2() + &c`. */
  function Step(z: C.ComplexRationalNumber, c: C.ComplexRationalNumber): Result<C.ComplexRationalNumber>
  {
    var sq :- C.Pow2(z);
    C.Add(sq, c)
  }

  /** What the loop `while z.length_squared() < radius_4 && cnt_iterations < max_iterations`
      ends with when it reaches z after cnt rounds: the final count, or the first panic. */
  function Escape(z: C.ComplexRationalNumber, c: C.ComplexRationalNumber, cnt: nat, max: nat,
                  below: R.RationalNumber -> Result<bool>): Result<nat>
    decreases max - cnt
  {
    var l :- C.LengthSquared(z);
    var inside :- below(l);
    if !inside || cnt >= max then Ok(cnt)
    else
      var next :- Step(z, c);
      Escape(next, c, cnt + 1, max, below)
  }

  /** The closing choice: BLACK once the count reached the limit, otherwise the palette
      entry at count mod palette length; `%` by an empty palette's length panics. */
  function Shade(cnt: nat, max: nat, colors: seq<Color>): (r: Result<Color>)
    ensures cnt >= max ==> r == Ok(Black)
    ensures cnt < max ==> (r.Ok? <==> |colors| > 0)
    ensures cnt < max && |colors| > 0 ==> r == Ok(colors[cnt % |colors|])
  {
    if cnt >= max then Ok(Black)
    else if |colors| == 0 then Panic("attempt to calculate the remainder with a divisor of zero")
    else Ok(colors[cnt % |colors|])
  }

  /** `calc_fractal_color_rational(x, y, re_min, img_min, x_delta, y_delta, max, colors)`
      with the loop guard `below`. */
  function KernelSpec(x: nat, y: nat, v: Viewport, max: nat, colors: seq<Color>,
                      below: R.RationalNumber -> Result<bool>): Result<Color>
  {
    var c :- PixelPoint(x, y, v);
    var cnt :- Escape(C.Origin, c, 0, max, below);
    Shade(cnt, max, colors)
  }

  /** The kernel's loop: z and the count are updated in place until the guard fails. */
  method CalcFractalColorRational(x: nat, y: nat, v: Viewport, max: nat, colors: seq<Color>,
                                  below: R.RationalNumber -> Result<bool>)
    returns (r: Result<Color>)
    ensures r == KernelSpec(x, y, v, max, colors, below)
  {
    var point := PixelPoint(x, y, v);
    if point.Panic? {
      return Panic(point.reason);
    }
    var c := point.value;
    var z := C.Origin;
    var cnt := 0;
    while true
      invariant cnt <= max
      invariant Escape(z, c, cnt, max, below) == Escape(C.Origin, c, 0, max, below)
      decreases max - cnt
    {
      var l := C.LengthSquared(z);
      if l.Panic? {
        return Panic(l.reason);
      }
      var inside := below(l.value);
      if inside.Panic? {
        return Panic(inside.reason);
      }
      if !inside.value || cnt >= max {
        break;
      }
      var next := Step(z, c);
      if next.Panic? {
        return Panic(next.reason);
      }
      z := next.value;
      cnt := cnt + 1;
    }
    r := Shade(cnt, max, colors);
  }

  /** As written, the guard on a whole number n/1 holds exactly when n^2 > 16: the
      reversed order puts n/1 below 4/1 when its sum of squares n^2 + 1 exceeds 17, so
      5/1 passes the test "below 4" and 0/1 fails it. */
  lemma {:induction false} WholeBelowAsWritten(n: int)
    ensures BelowAsWritten(R.RationalNumber(n, 1)) == Ok(n * n > 16)
  {
    R.WholeReduced(n);
    R.WholeReduced(4);
  }

  /** On entry z is 0 and its squared modulus 0/1, which the guard as written rejects and
      the numeric guard accepts. */
  lemma {:induction false} OriginNotBelow()
    ensures C.LengthSquared(C.Origin) == Ok(R.Zero)
    ensures BelowAsWritten(R.Zero) == Ok(false)
    ensures BelowNumeric(R.Zero) == Ok(true)
  {
    C.OriginFixed();
    WholeBelowAsWritten(0);
  }

  /** As written, the loop never runs: whatever the pixel, the count stays 0, so the
      colour is BLACK for a limit of 0 and the first palette entry otherwise (a panic
      for an empty palette); only the point's own computation can panic first. */
  lemma {:induction false} AsWrittenIgnoresOrbit(x: nat, y: nat, v: Viewport, max: nat, colors: seq<Color>)
    ensures PixelPoint(x, y, v).Panic? ==> KernelSpec(x, y, v, max, colors, BelowAsWritten).Panic?
    ensures PixelPoint(x, y, v).Ok? && max == 0 ==> KernelSpec(x, y, v, max, colors, BelowAsWritten) == Ok(Black)
    ensures PixelPoint(x, y, v).Ok? && max > 0 && |colors| > 0 ==>
              KernelSpec(x, y, v, max, colors, BelowAsWritten) == Ok(colors[0])
    ensures PixelPoint(x, y, v).Ok? && max > 0 && |colors| == 0 ==>
              KernelSpec(x, y, v, max, colors, BelowAsWritten).Panic?
  {
    if PixelPoint(x, y, v).Ok? {
      var c := PixelPoint(x, y, v).value;
      AsWrittenStaysAtZero(c, max);
      KernelOf(x, y, v, max, colors, BelowAsWritten, c, 0);
    }
  }

  /** As written, the loop ends on entry with count 0, whatever the point. */
  lemma {:induction false} AsWrittenStaysAtZero(c: C.ComplexRationalNumber, max: nat)
    ensures Escape(C.Origin, c, 0, max, BelowAsWritten) == Ok(0)
  {
    OriginNotBelow();
    EscapeEnds(C.Origin, c, 0, max, BelowAsWritten);
  }

  /** The kernel shades the escape count its loop reaches. */
  lemma {:induction false} KernelOf(x: nat, y: nat, v: Viewport, max: nat, colors: seq<Color>,
                 below: R.RationalNumber -> Result<bool>, c: C.ComplexRationalNumber, cnt: nat)
    requires PixelPoint(x, y, v) == Ok(c) && Escape(C.Origin, c, 0, max, below) == Ok(cnt)
    ensures KernelSpec(x, y, v, max, colors, below) == Shade(cnt, max, colors)
  {
  }
  function Iterate(z0: C.ComplexRationalNumber, c: C.ComplexRationalNumber, k: nat): Result<C.ComplexRationalNumber>
  {
    if k == 0 then Ok(z0)
    else
      var z :- Iterate(z0, c, k - 1);
      Step(z, c)
  }

  /** The orbit z_k of c, which starts from the default 0. */
  function Orbit(c: C.ComplexRationalNumber, k: nat): Result<C.ComplexRationalNumber>
  {
    Iterate(C.Origin, c, k)
  }

  /** Whether z_k lies strictly inside the radius-2 disc in value. */
  predicate InsideAt(c: C.ComplexRationalNumber, k: nat)
  {
    match Orbit(c, k)
    case Ok(z) => (match C.LengthSquared(z)
                   case Ok(l) => BelowFour(l)
                   case Panic(_) => false)
    case Panic(_) => false
  }

  function Inside(c: C.ComplexRationalNumber): nat -> bool
  {
    (k: nat) => InsideAt(c, k)
  }

  /** The escape time of c: the first k below the limit whose iterate is not inside the
      disc, or the limit. */
  function EscapeTime(c: C.ComplexRationalNumber, max: nat): nat
  {
    AiMpsc.EscapeCount(Inside(c), max)
  }

  /** Iterating from a proper number with a proper point never panics and stays proper. */
  lemma {:induction false} IterateProper(z0: C.ComplexRationalNumber, c: C.ComplexRationalNumber, k: nat)
    requires C.Proper(z0) && C.Proper(c)
    ensures Iterate(z0, c, k).Ok? && C.Proper(Iterate(z0, c, k).value)
  {
    if k > 0 {
      IterateProper(z0, c, k - 1);
      var z := Iterate(z0, c, k - 1).value;
      C.Pow2Exact(z);
      C.AddExact(C.Pow2(z).value, c);
    }
  }

  /** The orbit of a proper point never panics and stays proper. */
  lemma {:induction false} OrbitProper(c: C.ComplexRationalNumber, k: nat)
    requires C.Proper(c)
    ensures Orbit(c, k).Ok? && C.Proper(Orbit(c, k).value)
  {
    C.OriginFixed();
    IterateProper(C.Origin, c, k);
  }

  /** From the k-th iterate on, the loop with the numeric guard runs exactly to the
      escape time. */
  lemma {:induction false} EscapeFrom(c: C.ComplexRationalNumber, max: nat, k: nat)
    requires C.Proper(c) && k <= max
    requires forall i :: 0 <= i < k ==> Inside(c)(i)
    ensures Orbit(c, k).Ok?
    ensures Escape(Orbit(c, k).value, c, k, max, BelowNumeric) == Ok(AiMpsc.EscapeCount(Inside(c), max, k))
  {
    GoesOnEverywhere(c, max);
    StopsEverywhere(c, max);
    CountFrom(Inside(c), (j: nat) => Resumed(c, max, j), max, k);
    OrbitProper(c, k);
  }

  /** The loop's result when it resumes at z_k with count k. */
  function Resumed(c: C.ComplexRationalNumber, max: nat, k: nat): Result<nat>
  {
    var z :- Orbit(c, k);
    Escape(z, c, k, max, BelowNumeric)
  }

  lemma {:induction false} GoesOnEverywhere(c: C.ComplexRationalNumber, max: nat)
    requires C.Proper(c)
    ensures forall j: nat :: j < max && Inside(c)(j) ==> Resumed(c, max, j) == Resumed(c, max, j + 1)
  {
    forall j: nat | j < max && Inside(c)(j)
      ensures Resumed(c, max, j) == Resumed(c, max, j + 1)
    {
      OrbitGoesOn(c, max, j);
    }
  }

  lemma {:induction false} StopsEverywhere(c: C.ComplexRationalNumber, max: nat)
    requires C.Proper(c)
    ensures forall j: nat :: j <= max && (!Inside(c)(j) || j == max) ==> Resumed(c, max, j) == Ok(j)
  {
    forall j: nat | j <= max && (!Inside(c)(j) || j == max)
      ensures Resumed(c, max, j) == Ok(j)
    {
      OrbitStops(c, max, j);
    }
  }

  /** A run that moves on from j to j + 1 while bounded(j) holds and below the limit, and
      stops with j otherwise, ends with the escape count. */
  lemma {:induction false} CountFrom(bounded: nat -> bool, run: nat -> Result<nat>, limit: nat, k: nat)
    requires k <= limit && forall i :: 0 <= i < k ==> bounded(i)
    requires forall j: nat :: j < limit && bounded(j) ==> run(j) == run(j + 1)
    requires forall j: nat :: j <= limit && (!bounded(j) || j == limit) ==> run(j) == Ok(j)
    ensures run(k) == Ok(AiMpsc.EscapeCount(bounded, limit, k))
    decreases limit - k
  {
    CountStep(bounded, limit, k);
    if bounded(k) && k < limit {
      CountFrom(bounded, run, limit, k + 1);
    }
  }

  /** The escape count from k is k where the orbit is out or the limit is reached, and
      the count from k + 1 otherwise. */
  lemma {:induction false} CountStep(bounded: nat -> bool, limit: nat, k: nat)
    requires k <= limit && forall i :: 0 <= i < k ==> bounded(i)
    ensures !bounded(k) || k == limit ==> AiMpsc.EscapeCount(bounded, limit, k) == k
    ensures bounded(k) && k < limit ==>
              (forall i :: 0 <= i < k + 1 ==> bounded(i)) &&
              AiMpsc.EscapeCount(bounded, limit, k) == AiMpsc.EscapeCount(bounded, limit, k + 1)
  {
  }

  /** While z_k is inside and the limit is not reached, the loop moves on to z_(k+1). */
  lemma {:induction false} OrbitGoesOn(c: C.ComplexRationalNumber, max: nat, k: nat)
    requires C.Proper(c) && InsideAt(c, k) && k < max
    ensures Orbit(c, k).Ok? && Orbit(c, k + 1).Ok?
    ensures Escape(Orbit(c, k).value, c, k, max, BelowNumeric) ==
            Escape(Orbit(c, k + 1).value, c, k + 1, max, BelowNumeric)
  {
    OrbitProper(c, k);
    OrbitProper(c, k + 1);
    var z := Orbit(c, k).value;
    OrbitNext(c, k + 1, z);
    EscapeContinues(z, c, k, max, BelowNumeric);
  }

  /** Once z_k is outside, or the limit is reached, the loop ends with count k. */
  lemma {:induction false} OrbitStops(c: C.ComplexRationalNumber, max: nat, k: nat)
    requires C.Proper(c) && (!InsideAt(c, k) || k >= max)
    ensures Orbit(c, k).Ok? && Escape(Orbit(c, k).value, c, k, max, BelowNumeric) == Ok(k)
  {
    OrbitProper(c, k);
    var z := Orbit(c, k).value;
    C.LengthSquaredExact(z);
    EscapeEnds(z, c, k, max, BelowNumeric);
  }

  /** The loop stops where the guard fails or the limit is reached. */
  lemma {:induction false} EscapeEnds(z: C.ComplexRationalNumber, c: C.ComplexRationalNumber, cnt: nat, max: nat,
                   below: R.RationalNumber -> Result<bool>)
    requires C.LengthSquared(z).Ok? && below(C.LengthSquared(z).value).Ok?
    requires !below(C.LengthSquared(z).value).value || cnt >= max
    ensures Escape(z, c, cnt, max, below) == Ok(cnt)
  {
  }

  /** Otherwise it takes one step. */
  lemma {:induction false} EscapeContinues(z: C.ComplexRationalNumber, c: C.ComplexRationalNumber, cnt: nat, max: nat,
                        below: R.RationalNumber -> Result<bool>)
    requires C.LengthSquared(z).Ok? && below(C.LengthSquared(z).value) == Ok(true) && cnt < max
    requires Step(z, c).Ok?
    ensures Escape(z, c, cnt, max, below) == Escape(Step(z, c).value, c, cnt + 1, max, below)
  {
  }

  /** With the numeric guard, the kernel shades a pixel of a proper viewport by the escape
      time of its point: BLACK when the first max iterates all stay inside the disc,
      otherwise the palette entry at the escape time mod the palette length. */
  lemma {:induction false} CorrectedKernel(x: nat, y: nat, v: Viewport, max: nat, colors: seq<Color>)
    requires ProperView(v)
    ensures PixelPoint(x, y, v).Ok?
    ensures var ct := EscapeTime(PixelPoint(x, y, v).value, max);
            var r := KernelSpec(x, y, v, max, colors, BelowNumeric);
            (ct == max ==> r == Ok(Black)) &&
            (ct < max ==> (r.Ok? <==> |colors| > 0)) &&
            (ct < max && |colors| > 0 ==> r == Ok(colors[ct % |colors|]))
  {
    PixelPointProper(x, y, v);
    EscapeFrom(PixelPoint(x, y, v).value, max, 0);
  }

  /** A viewport whose pixel (x, 0) is the point x + 0i. */
  const UnitView := Viewport(R.Zero, R.RationalNumber(4, 1), R.Zero, R.RationalNumber(4, 1),
                             R.RationalNumber(1, 1), R.RationalNumber(1, 1))

  lemma {:induction false} UnitViewPoints()
    ensures PixelPoint(0, 0, UnitView) == Ok(C.Origin)
    ensures PixelPoint(2, 0, UnitView) == Ok(TwoPoint)
  {
    R.GcdStep(0, 1, 0, 0);
    R.Reduces(0, 1, 1, 0, 1);
    R.GcdStep(2, 1, 2, 0);
    R.Reduces(2, 1, 1, 2, 1);
  }

  /** Iterating from a fixed point of the step stays there. */
  lemma {:induction false} IterateAtRest(z: C.ComplexRationalNumber, c: C.ComplexRationalNumber, k: nat)
    requires Step(z, c) == Ok(z)
    ensures Iterate(z, c, k) == Ok(z)
  {
    if k > 0 {
      IterateAtRest(z, c, k - 1);
    }
  }

  /** The iterate after z_{k-1} = z is one step from z. */
  lemma {:induction false} OrbitNext(c: C.ComplexRationalNumber, k: nat, z: C.ComplexRationalNumber)
    requires k > 0 && Orbit(c, k - 1) == Ok(z)
    ensures Orbit(c, k) == Step(z, c)
  {
  }

  /** The orbit of 0 stays at 0. */
  lemma {:induction false} OriginOrbit(k: nat)
    ensures Orbit(C.Origin, k) == Ok(C.Origin)
  {
    C.OriginFixed();
    IterateAtRest(C.Origin, C.Origin, k);
  }

  /** Every iterate of 0 lies inside the disc. */
  lemma {:induction false} OriginInside(k: nat)
    ensures Inside(C.Origin)(k)
  {
    OriginOrbit(k);
    C.OriginFixed();
  }

  /** The point 2 + 0i. */
  const TwoPoint := C.ComplexRationalNumber(C.Two, R.Zero)

  /** From 0 the orbit of 2 + 0i steps to 2 + 0i itself. */
  lemma {:induction false} TwoStep()
    ensures Step(C.Origin, TwoPoint) == Ok(TwoPoint)
  {
    C.OriginFixed();
    R.WholeReduced(2);
    R.WholeReduced(0);
    assert R.Add(R.Zero, C.Two) == R.Reduce(2, 1);
    assert R.Add(R.Zero, R.Zero) == R.Reduce(0, 1);
  }

  /** |2 + 0i|^2 is 4/1. */
  lemma {:induction false} TwoLength()
    ensures C.LengthSquared(TwoPoint) == Ok(Four)
  {
    R.WholeReduced(4);
    R.WholeReduced(0);
    assert R.Pow(2, 2) == 4 && R.Pow(1, 2) == 1 && R.Pow(0, 2) == 0;
    assert R.Powi(C.Two, 2) == R.Reduce(4, 1);
    assert R.Powi(R.Zero, 2) == R.Reduce(0, 1);
    assert R.Add(Four, R.Zero) == R.Reduce(4, 1);
  }

  /** Every orbit starts inside the disc: z_0 = 0. */
  lemma {:induction false} StartsInside(c: C.ComplexRationalNumber)
    ensures Inside(c)(0)
  {
    assert Orbit(c, 0) == Ok(C.Origin);
    C.OriginFixed();
  }

  /** A point with z_1 = c and |c|^2 = 4/1 leaves the disc at the first step. */
  lemma {:induction false} EscapesAtOne(c: C.ComplexRationalNumber)
    requires Orbit(c, 1) == Ok(c) && C.LengthSquared(c) == Ok(Four)
    ensures !Inside(c)(1)
  {
  }

  /** As written, the kernel gives 0, which belongs to the Mandelbrot set, and 2, which
      escapes after one step, the same first palette entry. */
  lemma {:induction false} AsWrittenDiscrepancy(max: nat, colors: seq<Color>)
    requires max >= 2 && |colors| >= 2
    ensures KernelSpec(0, 0, UnitView, max, colors, BelowAsWritten) == Ok(colors[0])
    ensures KernelSpec(2, 0, UnitView, max, colors, BelowAsWritten) == Ok(colors[0])
  {
    UnitViewPoints();
    AsWrittenIgnoresOrbit(0, 0, UnitView, max, colors);
    AsWrittenIgnoresOrbit(2, 0, UnitView, max, colors);
  }

  /** With the numeric guard, 0 is BLACK and 2 gets the palette entry at index 1. */
  lemma {:induction false} CorrectedDistinguishes(max: nat, colors: seq<Color>)
    requires max >= 2 && |colors| >= 2
    ensures KernelSpec(0, 0, UnitView, max, colors, BelowNumeric) == Ok(Black)
    ensures KernelSpec(2, 0, UnitView, max, colors, BelowNumeric) == Ok(colors[1])
  {
    UnitViewPoints();
    UnitViewProper();
    OriginPixel(UnitView, max, colors);
    TwoStep();
    OrbitNext(TwoPoint, 1, C.Origin);
    TwoLength();
    EscapeTimeOne(TwoPoint, max);
    TwoPixel(2, 0, UnitView, max, colors, TwoPoint);
  }

  lemma {:induction false} UnitViewProper()
    ensures ProperView(UnitView)
  {
  }

  lemma {:induction false} OriginPixel(v: Viewport, max: nat, colors: seq<Color>)
    requires ProperView(v) && PixelPoint(0, 0, v) == Ok(C.Origin)
    ensures KernelSpec(0, 0, v, max, colors, BelowNumeric) == Ok(Black)
  {
    CorrectedKernel(0, 0, v, max, colors);
    OriginInside(EscapeTime(C.Origin, max));
  }

  lemma {:induction false} TwoPixel(x: nat, y: nat, v: Viewport, max: nat, colors: seq<Color>, c: C.ComplexRationalNumber)
    requires max >= 2 && |colors| >= 2
    requires ProperView(v) && PixelPoint(x, y, v) == Ok(c) && EscapeTime(c, max) == 1
    ensures KernelSpec(x, y, v, max, colors, BelowNumeric) == Ok(colors[1])
  {
    CorrectedKernel(x, y, v, max, colors);
    OneMod(|colors|);
  }

  lemma {:induction false} OneMod(n: nat)
    requires n >= 2
    ensures 1 % n == 1
  {
  }

  lemma {:induction false} EscapeTimeOne(c: C.ComplexRationalNumber, max: nat)
    requires max >= 1 && Orbit(c, 1) == Ok(c) && C.LengthSquared(c) == Ok(Four)
    ensures EscapeTime(c, max) == 1
  {
    StartsInside(c);
    EscapesAtOne(c);
    CountOne(Inside(c), max);
  }

  lemma {:induction false} CountOne(bounded: nat -> bool, max: nat)
    requires max >= 1 && bounded(0) && !bounded(1)
    ensures AiMpsc.EscapeCount(bounded, max) == 1
  {
    AiMpsc.EscapeUnique(bounded, max, 1);
  }

  /** The palette each worker captures: "wild.map" for both 16 and 256 colours (an
      `unwrap` that panics when the table is missing); any other count panics. */
  function RationalPalette(colors: nat, palettes: map<string, seq<Color>>): (r: Result<seq<Color>>)
    ensures r.Ok? <==> (colors == 16 || colors == 256) && "wild.map" in palettes
    ensures r.Ok? ==> r.value == palettes["wild.map"]
  {
    if colors != 16 && colors != 256 then Panic("number of colors not supported")
    else if "wild.map" !in palettes then Panic("called `Option::unwrap()` on a `None` value")
    else Ok(palettes["wild.map"])
  }

  /** The colour a worker stores for pixel (x, y). A kernel panic kills that worker's
      thread; it is stood in for by the default colour the buffer already holds. */
  function PixelColor(v: Viewport, max: nat, palette: seq<Color>, below: R.RationalNumber -> Result<bool>)
    : (nat, nat) -> Color
  {
    (x: nat, y: nat) => match KernelSpec(x, y, v, max, palette, below)
                        case Ok(p) => p
                        case Panic(_) => Black
  }

  /** `calc_multi_threaded_rational` with `cores` workers and loop guard `below`: the
      complex width and height are computed, then `read_palette()` runs on the directory
      `entries` for every worker count, then the rest of the setup; each step panics
      first if it must, and then (with workers) the palette choice. The buffer starts as
      width * height default colours and the counter at 0, the workers claim rows until
      none is left, and the image returned has the requested size and, with at least one
      worker, every pixel shaded by the kernel in row-major order. */
  method CalcMultiThreadedRational(center: C.ComplexRationalNumber, complexWidth: R.RationalNumber,
                                   zoom: R.RationalNumber, width: nat, height: nat, max: nat, colors: nat,
                                   cores: nat, entries: seq<Palette.DirEntry>, schedule: seq<nat>,
                                   below: R.RationalNumber -> Result<bool>)
    returns (r: Result<FractalImage>)
    ensures r.Panic? <==> Setup(center, complexWidth, zoom, width, height).Panic? ||
                          Palette.Palettes(entries).Panic? ||
                          (cores > 0 && RationalPalette(colors, Palette.Palettes(entries).value).Panic?)
    ensures r.Ok? ==> r.value.width == width && r.value.height == height
    ensures r.Ok? && cores > 0 ==>
              r.value.pixels == RowMajor(width, height, PixelColor(Setup(center, complexWidth, zoom, width, height).value,
                                                                   max, RationalPalette(colors, Palette.Palettes(entries).value).value, below))
    ensures r.Ok? ==> |r.value.pixels| == width * height
    ensures r.Ok? && cores == 0 ==> r.value.pixels == Collector.Blank(|r.value.pixels|)
  {
    var cw := R.Div(complexWidth, zoom);
    if cw.Panic? {
      return Panic(cw.reason);
    }
    var ch := R.Div(cw.value, R.RationalNumber(width, height));
    if ch.Panic? {
      return Panic(ch.reason);
    }
    var table := Palette.ReadPalette(entries);
    if table.Panic? {
      return Panic(table.reason);
    }
    var view := Setup(center, complexWidth, zoom, width, height);
    if view.Panic? {
      return Panic(view.reason);
    }
    var palette: seq<Color> := [];
    if cores > 0 {
      var selected := RationalPalette(colors, table.value);
      if selected.Panic? {
        return Panic(selected.reason);
      }
      palette := selected.value;
    }
    var pixels := RenderRows(view.value, max, palette, width, height, cores, schedule, below);
    r := Ok(FractalImage(width, height, pixels));
  }

  /** The workers' part: a buffer of width * height default colours, a row counter at 0,
      the rows claimed and shaded until none is left, then the PNG written. */
  method RenderRows(view: Viewport, max: nat, palette: seq<Color>, width: nat, height: nat,
                    cores: nat, schedule: seq<nat>, below: R.RationalNumber -> Result<bool>)
    returns (pixels: seq<Color>)
    ensures |pixels| == width * height
    ensures cores > 0 ==> pixels == RowMajor(width, height, PixelColor(view, max, palette, below))
    ensures cores == 0 ==> pixels == Collector.Blank(width * height)
  {
    var buffer := new Color[width * height](_ => Black);
    AllBlank(buffer);
    var counter := new RowClaim.RowCounter(height);
    var counts;
    ghost var claims, retries;
    counts, claims, retries := RowClaim.RunRowWorkers(counter, buffer, width, cores, schedule,
                                                       PixelColor(view, max, palette, below));
    var saved := RasterWalk.SavePng(buffer[..], width, height);
    // `save_png` cannot panic here: the buffer holds exactly width * height pixels.
    assert saved.Ok? && RasterWalk.Holds(saved.value, buffer[..]);
    pixels := buffer[..];
  }

  /** A freshly filled buffer holds the blank canvas. */
  lemma {:induction false} AllBlank(pixels: array<Color>)
    requires forall i :: 0 <= i < pixels.Length ==> pixels[i] == Black
    ensures pixels[..] == Collector.Blank(pixels.Length)
  {
  }
}
