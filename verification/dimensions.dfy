/** The renderer's dimension arithmetic: `Math.round`, fitting a frame into the
    fixed 250 x 80 output box (renderer/app.js `adjustDimensions` and the
    dimension branch of `suggestOptimizations`), and the aspect lock of
    `handleDimensionChange`. All of it is exact: a scale factor such as
    `250 / width` is kept as a fraction and rounding divides integers. */
module Dimensions {

  const MaxWidth: nat := 250
  const MaxHeight: nat := 80

  datatype Dims = Dims(width: int, height: int)

  function Abs(x: int): nat {
    if x < 0 then -x else x
  }

  /** `Math.round(x)`: the nearest integer, halves rounded up, i.e. floor(x + 1/2). */
  function Round(x: real): (r: int)
    ensures r as real <= x + 0.5 < r as real + 1.0
  {
    (x + 0.5).Floor
  }

  /** `Math.round(n / d)` computed on integers. */
  function RoundDiv(n: int, d: int): (r: int)
    requires d > 0
    ensures 2 * d * r <= 2 * n + d < 2 * d * r + 2 * d
    ensures n >= 0 ==> r >= 0
  {
    DivBounds(2 * n + d, 2 * d);
    (2 * n + d) / (2 * d)
  }

  lemma DivBounds(x: int, y: int)
    requires y > 0
    ensures y * (x / y) <= x < y * (x / y) + y
  {
  }

  lemma MulStrictCancel(d: int, a: int, b: int)
    requires d > 0 && d * a < d * b
    ensures a < b
  {
    if a >= b {
      MulMono(d, b, a);
    }
  }

  lemma MulMono(d: int, a: int, b: int)
    requires d >= 0 && a <= b
    ensures d * a <= d * b
  {
    assert d * b - d * a == d * (b - a);
  }

  /** The rounding conditions determine the rounded value. */
  lemma RoundDivUnique(n: int, d: int, r: int)
    requires d > 0
    requires 2 * d * r <= 2 * n + d < 2 * d * r + 2 * d
    ensures RoundDiv(n, d) == r
  {
    var q := RoundDiv(n, d);
    assert 2 * d * q < 2 * d * r + 2 * d;
    assert 2 * d * r < 2 * d * q + 2 * d;
    MulStrictCancel(2 * d, q, r + 1);
    MulStrictCancel(2 * d, r, q + 1);
  }

  /** Rounding a quotient that is at most c gives at most c. */
  lemma RoundDivAtMost(n: int, d: int, c: int)
    requires d > 0 && n <= c * d
    ensures RoundDiv(n, d) <= c
  {
    var q := RoundDiv(n, d);
    assert 2 * d * q < 2 * d * (c + 1);
    MulStrictCancel(2 * d, q, c + 1);
  }

  /** The integer formulation is `Math.round` of the exact quotient. */
  lemma RoundDivIsRound(n: int, d: int)
    requires d > 0
    ensures RoundDiv(n, d) == Round(n as real / d as real)
  {
    var x := n as real / d as real;
    assert d as real * x == n as real;
    RoundOfQuotient(n, d, x);
  }

  /** Rounding x, where d * x == n, is rounding n / d. */
  lemma RoundOfQuotient(n: int, d: int, x: real)
    requires d > 0 && d as real * x == n as real
    ensures RoundDiv(n, d) == Round(x)
  {
    var r := Round(x);
    CastProduct(d, r);
    ScaledRounding(d as real, x, r as real, n as real, (d * r) as real);
    LinearBounds(d * r, n, d);
    assert 2 * d * r == 2 * (d * r);
    RoundDivUnique(n, d, r);
  }

  /** The rounding conditions r <= x + 1/2 < r + 1 multiplied by 2d, where d * x == n. */
  lemma ScaledRounding(d: real, x: real, r: real, n: real, dr: real)
    requires d > 0.0 && d * x == n && dr == d * r
    requires r <= x + 0.5 < r + 1.0
    ensures 2.0 * dr <= 2.0 * n + d < 2.0 * dr + 2.0 * d
  {
    var below := x + 0.5 - r;
    var above := r + 0.5 - x;
    assert d * below >= 0.0;
    assert d * above > 0.0;
    assert d * below == d * x + 0.5 * d - d * r;
    assert d * above == d * r + 0.5 * d - d * x;
  }

  lemma LinearBounds(p: int, n: int, d: int)
    requires 2.0 * (p as real) <= 2.0 * (n as real) + (d as real)
    requires 2.0 * (n as real) + (d as real) < 2.0 * (p as real) + 2.0 * (d as real)
    ensures 2 * p <= 2 * n + d < 2 * p + 2 * d
  {
  }

  lemma CastProduct(a: int, b: int)
    ensures (a * b) as real == a as real * b as real
  {
  }

  lemma RealMulMono(d: real, a: real, b: real)
    requires d >= 0.0 && a <= b
    ensures d * a <= d * b
  {
    assert d * b - d * a == d * (b - a);
  }

  /** Whether the width is the side that binds when fitting into the box,
      that is, whether `250 / w <= 80 / h`, decided without dividing. */
  predicate WidthBinds(w: nat, h: nat) {
    MaxWidth * h <= MaxHeight * w
  }

  /** Fit a frame into the 250 x 80 box: a frame that already fits is kept;
      otherwise both sides are multiplied by `min(250 / w, 80 / h)` and rounded.
      The binding side becomes exactly 250 (or 80); the other side is the
      nearest integer to the source ratio, halves up. */
  function FitInBox(w: nat, h: nat): (r: Dims)
    ensures w <= MaxWidth && h <= MaxHeight ==> r == Dims(w, h)
    ensures 0 <= r.width <= MaxWidth && 0 <= r.height <= MaxHeight
    ensures r.width <= w && r.height <= h
    ensures (w > MaxWidth || h > MaxHeight) && WidthBinds(w, h) ==>
              r.width == MaxWidth && 2 * w * r.height <= 2 * (h * MaxWidth) + w < 2 * w * r.height + 2 * w
    ensures (w > MaxWidth || h > MaxHeight) && !WidthBinds(w, h) ==>
              r.height == MaxHeight && 2 * h * r.width <= 2 * (w * MaxHeight) + h < 2 * h * r.width + 2 * h
  {
    if w > MaxWidth || h > MaxHeight then
      // the scale min(250 / w, 80 / h) as the fraction num / den
      var num := if WidthBinds(w, h) then MaxWidth else MaxHeight;
      var den := if WidthBinds(w, h) then w else h;
      FitScaled(w, h, num, den)
    else
      Dims(w, h)
  }

  function FitScaled(w: nat, h: nat, num: nat, den: nat): (r: Dims)
    requires w > MaxWidth || h > MaxHeight
    requires num == (if WidthBinds(w, h) then MaxWidth else MaxHeight)
    requires den == (if WidthBinds(w, h) then w else h)
    ensures 0 <= r.width <= MaxWidth && 0 <= r.height <= MaxHeight
    ensures r.width <= w && r.height <= h
    ensures WidthBinds(w, h) ==>
              r.width == MaxWidth && 2 * w * r.height <= 2 * (h * MaxWidth) + w < 2 * w * r.height + 2 * w
    ensures !WidthBinds(w, h) ==>
              r.height == MaxHeight && 2 * h * r.width <= 2 * (w * MaxHeight) + h < 2 * h * r.width + 2 * h
  {
    ScaledSides(w, h, num, den);
    Dims(RoundDiv(w * num, den), RoundDiv(h * num, den))
  }

  lemma ScaledSides(w: nat, h: nat, num: nat, den: nat)
    requires w > MaxWidth || h > MaxHeight
    requires num == (if WidthBinds(w, h) then MaxWidth else MaxHeight)
    requires den == (if WidthBinds(w, h) then w else h)
    ensures den > 0
    ensures 0 <= RoundDiv(w * num, den) <= MaxWidth && RoundDiv(w * num, den) <= w
    ensures 0 <= RoundDiv(h * num, den) <= MaxHeight && RoundDiv(h * num, den) <= h
    ensures WidthBinds(w, h) ==> RoundDiv(w * num, den) == MaxWidth
    ensures !WidthBinds(w, h) ==> RoundDiv(h * num, den) == MaxHeight
  {
    if WidthBinds(w, h) {
      assert w >= MaxWidth;
      RoundDivUnique(w * num, den, MaxWidth);
      RoundDivAtMost(h * num, den, MaxHeight);
      MulMono(h, MaxWidth, w);
      RoundDivAtMost(h * num, den, h);
    } else {
      assert h > MaxHeight;
      RoundDivUnique(h * num, den, MaxHeight);
      RoundDivAtMost(w * num, den, MaxWidth);
      MulMono(w, MaxHeight, h);
      RoundDivAtMost(w * num, den, w);
    }
  }

  /** With both sides positive, the width binds exactly when `250 / w <= 80 / h`,
      so the scale of an oversized frame is `min(250 / w, 80 / h)`. */
  lemma WidthBindsIsMin(w: nat, h: nat)
    requires w > 0 && h > 0
    ensures WidthBinds(w, h) <==> MaxWidth as real / w as real <= MaxHeight as real / h as real
  {
    QuotientOrder(MaxWidth as real, MaxHeight as real, w as real, h as real);
    CastProduct(MaxWidth, h);
    CastProduct(MaxHeight, w);
  }

  /** a / w <= b / h exactly when a * h <= b * w, for positive w and h. */
  lemma QuotientOrder(a: real, b: real, w: real, h: real)
    requires w > 0.0 && h > 0.0
    ensures a / w <= b / h <==> a * h <= b * w
  {
    var x, y, p := a / w, b / h, w * h;
    assert p > 0.0;
    assert a * h == x * p by { assert a == x * w; }
    assert b * w == y * p by { assert b == y * h; }
    assert (y - x) * p == y * p - x * p;
    if x <= y {
      assert (y - x) * p >= 0.0;
    } else {
      assert (x - y) * p > 0.0;
    }
  }

  /** When the width binds, the fitted frame is `Math.round` of each side
      times the scale 250 / w. */
  lemma FitWidthBindsIsRound(w: nat, h: nat)
    requires w > MaxWidth || h > MaxHeight
    requires WidthBinds(w, h)
    ensures var scale := MaxWidth as real / w as real;
      FitInBox(w, h) == Dims(Round(w as real * scale), Round(h as real * scale))
  {
    var r := FitInBox(w, h);
    assert r == FitScaled(w, h, MaxWidth, w);
    ScaledSide(w, MaxWidth, w, MaxWidth as real / w as real, r.width);
    ScaledSide(h, MaxWidth, w, MaxWidth as real / w as real, r.height);
  }

  /** When the height binds, the fitted frame is `Math.round` of each side
      times the scale 80 / h. */
  lemma FitHeightBindsIsRound(w: nat, h: nat)
    requires w > MaxWidth || h > MaxHeight
    requires !WidthBinds(w, h)
    ensures var scale := MaxHeight as real / h as real;
      FitInBox(w, h) == Dims(Round(w as real * scale), Round(h as real * scale))
  {
    var r := FitInBox(w, h);
    assert r == FitScaled(w, h, MaxHeight, h);
    ScaledSide(w, MaxHeight, h, MaxHeight as real / h as real, r.width);
    ScaledSide(h, MaxHeight, h, MaxHeight as real / h as real, r.height);
  }

  /** A side times the scale num / den, rounded, is the integer rounded quotient. */
  lemma ScaledSide(side: nat, num: nat, den: nat, scale: real, rounded: int)
    requires den > 0 && scale == num as real / den as real && rounded == RoundDiv(side * num, den)
    ensures rounded == Round(side as real * scale)
  {
    var x := side as real * scale;
    CastProduct(side, num);
    ScaleCancel(den as real, side as real, num as real);
    RoundOfQuotient(side * num, den, x);
  }

  /** d * (a * (n / d)) == a * n */
  lemma ScaleCancel(d: real, a: real, n: real)
    requires d > 0.0
    ensures d * (a * (n / d)) == a * n
  {
    var q := n / d;
    assert d * q == n;
    assert d * (a * q) == a * (d * q);
  }

  /** The aspect lock after the width was edited: the height that keeps the
      source's aspect ratio, `Math.round(newWidth / (sw / sh))`, i.e. the
      nearest integer to newWidth * sh / sw, halves up. */
  function LockedHeight(newWidth: int, source: Dims): (h: int)
    requires source.width > 0 && source.height > 0
    ensures 2 * source.width * h <= 2 * (newWidth * source.height) + source.width
              < 2 * source.width * h + 2 * source.width
    ensures newWidth >= 0 ==> h >= 0
  {
    RoundDiv(newWidth * source.height, source.width)
  }

  /** The aspect lock after the height was edited: `Math.round(newHeight * (sw / sh))`,
      i.e. the nearest integer to newHeight * sw / sh, halves up. */
  function LockedWidth(newHeight: int, source: Dims): (w: int)
    requires source.width > 0 && source.height > 0
    ensures 2 * source.height * w <= 2 * (newHeight * source.width) + source.height
              < 2 * source.height * w + 2 * source.height
    ensures newHeight >= 0 ==> w >= 0
  {
    RoundDiv(newHeight * source.width, source.height)
  }

  /** The locked height is `Math.round` of the new width divided by the source ratio. */
  lemma LockedHeightIsRound(newWidth: int, source: Dims)
    requires source.width > 0 && source.height > 0
    ensures LockedHeight(newWidth, source) == Round(newWidth as real / (source.width as real / source.height as real))
  {
    var sw, sh := source.width as real, source.height as real;
    var x := newWidth as real / (sw / sh);
    RatioCancel(newWidth as real, sw, sh);
    CastProduct(newWidth, source.height);
    RoundOfQuotient(newWidth * source.height, source.width, x);
  }

  /** The locked width is `Math.round` of the new height times the source ratio. */
  lemma LockedWidthIsRound(newHeight: int, source: Dims)
    requires source.width > 0 && source.height > 0
    ensures LockedWidth(newHeight, source) == Round(newHeight as real * (source.width as real / source.height as real))
  {
    var x := newHeight as real * (source.width as real / source.height as real);
    ScaleCancel(source.height as real, newHeight as real, source.width as real);
    CastProduct(newHeight, source.width);
    RoundOfQuotient(newHeight * source.width, source.height, x);
  }

  /** sw * (a / (sw / sh)) == a * sh */
  lemma RatioCancel(a: real, sw: real, sh: real)
    requires sw > 0.0 && sh > 0.0
    ensures sw * (a / (sw / sh)) == a * sh
  {
    var ratio := sw / sh;
    assert ratio * sh == sw;
    var q := a / ratio;
    assert q * ratio == a;
    assert sw * q == sh * (q * ratio);
  }

  /** A fitted frame is already aspect-locked from its binding side: typing the
      fitted width (or height) back in with the aspect lock on changes nothing. */
  lemma FitIsAspectLocked(w: nat, h: nat)
    requires w > 0 && h > 0
    requires w > MaxWidth || h > MaxHeight
    ensures WidthBinds(w, h) ==> FitInBox(w, h).height == LockedHeight(FitInBox(w, h).width, Dims(w, h))
    ensures !WidthBinds(w, h) ==> FitInBox(w, h).width == LockedWidth(FitInBox(w, h).height, Dims(w, h))
  {
  }

  /** Fitting is idempotent: a fitted frame is inside the box and is kept. */
  lemma FitIdempotent(w: nat, h: nat)
    ensures FitInBox(FitInBox(w, h).width, FitInBox(w, h).height) == FitInBox(w, h)
  {
  }
}
