/**
 * The fit-and-pad geometry of `process_image` (app.py lines 42-47): a uniform
 * scale min(W / w, H / h), the scaled size floor(w * scale) x floor(h * scale),
 * and the offset that centres it on the W x H canvas, with an odd leftover
 * pixel going to the right or bottom.
 *
 * The script computes the scale in floating point; this model uses the exact
 * fraction, so it is the arithmetic the code intends rather than the one the
 * processor rounds.
 */
module Geometry {
  import opened Wrappers

  datatype Size = Size(width: int, height: int)

  /** A non-negative scale factor num / den. */
  datatype Ratio = Ratio(num: int, den: int)

  /** Where the resized image goes on the canvas: its size and its top-left corner. */
  datatype Placement = Placement(scaled: Size, left: int, top: int)

  predicate IsPositive(s: Size) {
    s.width > 0 && s.height > 0
  }

  /** scale = min(W / w, H / h), as an exact fraction. */
  function FitScale(src: Size, target: Size): (k: Ratio)
    requires IsPositive(src) && IsPositive(target)
    ensures k.num > 0 && k.den > 0
    ensures k.num * src.width <= target.width * k.den
    ensures k.num * src.height <= target.height * k.den
    ensures k.num * src.width == target.width * k.den || k.num * src.height == target.height * k.den
  {
    if target.width * src.height <= target.height * src.width then Ratio(target.width, src.width)
    else Ratio(target.height, src.height)
  }

  /** n is floor(x * k): what `int(x * scale)` gives for non-negative operands. */
  predicate IsFloorOfScaled(n: int, x: int, k: Ratio)
    requires k.den > 0
  {
    n * k.den <= x * k.num < (n + 1) * k.den
  }

  lemma FloorDivision(a: int, b: int)
    requires b > 0
    ensures (a / b) * b <= a < (a / b + 1) * b
  {
  }

  /**
   * `new_size`, computed without division by the scale: on the binding axis the
   * target extent itself, on the other axis an integer quotient.
   */
  function ScaledSize(src: Size, target: Size): (s: Size)
    requires IsPositive(src) && IsPositive(target)
    ensures IsFloorOfScaled(s.width, src.width, FitScale(src, target))
    ensures IsFloorOfScaled(s.height, src.height, FitScale(src, target))
  {
    var w, h, tw, th := src.width, src.height, target.width, target.height;
    if tw * h <= th * w then
      FloorDivision(h * tw, w);
      assert tw * w <= w * tw < (tw + 1) * w;
      Size(tw, h * tw / w)
    else
      FloorDivision(w * th, h);
      assert th * h <= h * th < (th + 1) * h;
      Size(w * th / h, th)
  }

  /** A floor under a scale no larger than C / x is at most C. */
  lemma FloorWithinBound(n: int, x: int, k: Ratio, c: int)
    requires k.den > 0 && IsFloorOfScaled(n, x, k)
    requires k.num * x <= c * k.den
    ensures n <= c
  {
    CancelLe(n, c, k.den);
  }

  lemma CancelLe(a: int, b: int, c: int)
    requires c > 0 && a * c <= b * c
    ensures a <= b
  {
    assert (a - b) * c <= 0;
  }

  lemma CancelLt(a: int, b: int, c: int)
    requires c > 0 && a * c < b * c
    ensures a < b
  {
    assert (a - b) * c < 0;
  }

  /** The floor of a non-negative product is not negative. */
  lemma FloorNonNegative(n: int, x: int, k: Ratio)
    requires k.den > 0 && k.num >= 0 && x >= 0 && IsFloorOfScaled(n, x, k)
    ensures n >= 0
  {
    assert 0 * k.den <= x * k.num;
    CancelLt(-1, n, k.den);
  }

  /** A floor under the scale C / x exactly is C. */
  lemma FloorOnBindingAxis(n: int, x: int, k: Ratio, c: int)
    requires k.den > 0 && IsFloorOfScaled(n, x, k)
    requires k.num * x == c * k.den
    ensures n == c
  {
    CancelLe(n, c, k.den);
    CancelLt(c, n + 1, k.den);
  }

  /** The floor characterisation pins n down: two floors of the same product agree. */
  lemma FloorUnique(n: int, m: int, x: int, k: Ratio)
    requires k.den > 0 && IsFloorOfScaled(n, x, k) && IsFloorOfScaled(m, x, k)
    ensures n == m
  {
    CancelLt(n, m + 1, k.den);
    CancelLt(m, n + 1, k.den);
  }

  /**
   * `(extent_of_canvas - extent) // 2`. For a positive divisor Dafny's `/`
   * rounds exactly as Python's `//`.
   */
  function CentreOffset(canvas: int, extent: int): (o: int)
    requires 0 <= extent <= canvas
    ensures 0 <= o && o + extent <= canvas
    ensures 0 <= (canvas - extent - o) - o <= 1
  {
    (canvas - extent) / 2
  }

  /**
   * The geometry `process_image` hands to resize and paste: the scaled image
   * fits the canvas, touches it on the binding axis, and sits centred with the
   * odd pixel of slack, if any, on the right or at the bottom.
   */
  function Fit(src: Size, target: Size): (p: Placement)
    requires IsPositive(src) && IsPositive(target)
    ensures 0 <= p.scaled.width <= target.width && 0 <= p.scaled.height <= target.height
    ensures p.scaled.width == target.width || p.scaled.height == target.height
    ensures 0 <= p.left && p.left + p.scaled.width <= target.width
    ensures 0 <= p.top && p.top + p.scaled.height <= target.height
    ensures 0 <= (target.width - p.scaled.width - p.left) - p.left <= 1
    ensures 0 <= (target.height - p.scaled.height - p.top) - p.top <= 1
  {
    var k := FitScale(src, target);
    var s := ScaledSize(src, target);
    FloorWithinBound(s.width, src.width, k, target.width);
    FloorWithinBound(s.height, src.height, k, target.height);
    FloorNonNegative(s.width, src.width, k);
    FloorNonNegative(s.height, src.height, k);
    var p := Placement(s, CentreOffset(target.width, s.width), CentreOffset(target.height, s.height));
    if k.num * src.width == target.width * k.den then
      FloorOnBindingAxis(s.width, src.width, k, target.width);
      p
    else
      FloorOnBindingAxis(s.height, src.height, k, target.height);
      p
  }

  /**
   * Any size that is floor(w * scale) x floor(h * scale) for the fitting scale
   * is the one Fit chose: the contract of ScaledSize determines it.
   */
  lemma ScaledSizeUnique(src: Size, target: Size, s: Size)
    requires IsPositive(src) && IsPositive(target)
    requires IsFloorOfScaled(s.width, src.width, FitScale(src, target))
    requires IsFloorOfScaled(s.height, src.height, FitScale(src, target))
    ensures s == Fit(src, target).scaled
  {
    var k := FitScale(src, target);
    var f := ScaledSize(src, target);
    FloorUnique(s.width, f.width, src.width, k);
    FloorUnique(s.height, f.height, src.height, k);
  }

  /**
   * The division by the source extents: a decoded image with a zero side makes
   * `TARGET_SIZE[0] / width` or `TARGET_SIZE[1] / height` raise (None).
   */
  function Layout(src: Size, target: Size): (r: Option<Placement>)
    requires src.width >= 0 && src.height >= 0 && IsPositive(target)
    ensures r.None? <==> src.width == 0 || src.height == 0
    ensures r.Some? ==> r.value == Fit(src, target)
    ensures r.Some? ==> (r.value.left + r.value.scaled.width <= target.width
                         && r.value.top + r.value.scaled.height <= target.height)
    ensures r.Some? ==> (r.value.scaled.width == target.width || r.value.scaled.height == target.height)
  {
    if src.width == 0 || src.height == 0 then None else Some(Fit(src, target))
  }

  lemma AtLeastOnce(x: int, y: int)
    requires x >= 0 && y >= 1
    ensures x <= x * y
  {
    assert x * (y - 1) >= 0;
  }

  /**
   * The code has no guard against a scaled side of zero: the height rounds to
   * zero exactly when the source is more than W times wider than high.
   */
  lemma DegenerateHeight(src: Size, target: Size)
    requires IsPositive(src) && IsPositive(target)
    ensures Fit(src, target).scaled.height == 0 <==> src.height * target.width < src.width
  {
    var w, h, tw, th := src.width, src.height, target.width, target.height;
    if tw * h <= th * w {
      assert Fit(src, target).scaled.height == h * tw / w;
      QuotientZero(h * tw, w);
    } else {
      assert Fit(src, target).scaled.height == th;
      AtLeastOnce(w, th);
      assert h * tw > th * w;
    }
  }

  /** Likewise the width rounds to zero exactly when the source is more than H times higher than wide. */
  lemma DegenerateWidth(src: Size, target: Size)
    requires IsPositive(src) && IsPositive(target)
    ensures Fit(src, target).scaled.width == 0 <==> src.width * target.height < src.height
  {
    var w, h, tw, th := src.width, src.height, target.width, target.height;
    if tw * h <= th * w {
      assert Fit(src, target).scaled.width == tw;
      AtLeastOnce(h, tw);
      assert h * tw <= w * th;
    } else {
      assert Fit(src, target).scaled.width == w * th / h;
      QuotientZero(w * th, h);
    }
  }

  /** For a non-negative dividend, the quotient is zero exactly when the dividend is below the divisor. */
  lemma QuotientZero(a: int, b: int)
    requires a >= 0 && b > 0
    ensures a / b == 0 <==> a < b
  {
    var q := a / b;
    FloorDivision(a, b);
    if a < b {
      CancelLt(q, 1, b);
      CancelLt(-1, q, b);
    } else {
      assert 1 * b < (q + 1) * b;
      CancelLt(1, q + 1, b);
    }
  }

  /** A 1 x 10000 source on a 1080 x 1080 canvas is scaled to width 0. */
  lemma ThinSourceVanishes()
    ensures Fit(Size(1, 10000), Size(1080, 1080)).scaled == Size(0, 1080)
  {
    DegenerateWidth(Size(1, 10000), Size(1080, 1080));
  }

  /** An image already of the target size is placed unscaled at the origin. */
  lemma FitOfTargetSized(target: Size)
    requires IsPositive(target)
    ensures Fit(target, target) == Placement(target, 0, 0)
  {
    var w, h := target.width, target.height;
    assert w * h <= h * w;
    var q := h * w / w;
    FloorDivision(h * w, w);
    CancelLe(q, h, w);
    CancelLt(h, q + 1, w);
  }

  /** 4000 x 2000 on 1080 x 1080: scaled to 1080 x 540, placed at (0, 270). */
  lemma WideSourceOnSquare()
    ensures Fit(Size(4000, 2000), Size(1080, 1080)) == Placement(Size(1080, 540), 0, 270)
  {
  }

  /** 500 x 1000 on 1080 x 1920: scaled to 960 x 1920, placed at (60, 0). */
  lemma TallSourceOnPortrait()
    ensures Fit(Size(500, 1000), Size(1080, 1920)) == Placement(Size(960, 1920), 60, 0)
  {
  }
}
