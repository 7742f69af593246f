/** The three compliance checks of the page pipeline. Each one takes a page
    and returns whether it had to change it, together with the page after it. */
module Checks {
  import opened Raster

  /** The largest width or height the OCR engine accepts. */
  const MaxDimension: nat := 10000

  /** The default byte budget of the memory check. */
  const DefaultMaxBytes: nat := 10485760

  // ---------------------------------------------------------------------
  // Colour mode

  /** Converts a bilevel page to RGB and leaves every other mode alone. */
  function CheckImgMode(im: Image): (r: Checked)
    ensures r.changed <==> im.mode == BilevelMode
    ensures r.changed ==> r.image.mode == RgbMode
    ensures !r.changed ==> r.image == im
    ensures r.image.mode != BilevelMode
    ensures r.image.width == im.width && r.image.height == im.height
  {
    if im.mode == BilevelMode then Checked(true, im.(mode := RgbMode))
    else Checked(false, im)
  }

  /** Checking the mode of a page the mode check produced finds nothing to fix. */
  lemma ModeFixIdempotent(im: Image)
    ensures !CheckImgMode(CheckImgMode(im).image).changed
    ensures CheckImgMode(CheckImgMode(im).image).image == CheckImgMode(im).image
  {
  }

  // ---------------------------------------------------------------------
  // Pixel dimensions

  /** `side` is the whole part of other * MaxDimension / longer: the side that
      keeps the aspect ratio when the side `longer` becomes MaxDimension. */
  ghost predicate ProportionalSide(other: nat, longer: nat, side: nat) {
    side * longer <= other * MaxDimension < (side + 1) * longer
  }

  lemma DivBounds(a: nat, b: nat)
    requires b > 0
    ensures 0 <= a / b
    ensures (a / b) * b <= a < (a / b + 1) * b
  {
    var q, m := a / b, a % b;
    assert a == q * b + m;
  }

  /** Cancels a positive factor on both sides of an inequality. */
  lemma MulCancel(a: nat, b: nat, c: nat)
    requires 0 < c && a * c <= b * c
    ensures a <= b
  {
    if b < a {
      MulLeft(c, b + 1, a);
      assert false;
    }
  }

  /** The shorter side after scaling the longer one down to MaxDimension. */
  function ScaleSide(other: nat, longer: nat): (side: nat)
    requires MaxDimension < longer && other <= longer
    ensures ProportionalSide(other, longer, side)
    ensures side <= other && side <= MaxDimension
  {
    var side := other * MaxDimension / longer;
    DivBounds(other * MaxDimension, longer);
    MulLeft(other, MaxDimension, longer);
    MulCancel(side, other, longer);
    MulLeft(MaxDimension, other, longer);
    MulCancel(side, MaxDimension, longer);
    side
  }

  /** Scales a page whose longer side exceeds MaxDimension so that this side
      becomes exactly MaxDimension; the width counts as the longer side on a tie. */
  function CheckOversizedDimen(im: Image): (r: Checked)
    ensures r.changed <==> Max(im.width, im.height) > MaxDimension
    ensures !r.changed ==> r.image == im
    ensures r.image.mode == im.mode
    ensures r.image.width <= im.width && r.image.height <= im.height
    ensures r.image.width <= MaxDimension && r.image.height <= MaxDimension
    ensures r.changed && im.width >= im.height ==>
      r.image.width == MaxDimension && ProportionalSide(im.height, im.width, r.image.height)
    ensures r.changed && im.width < im.height ==>
      r.image.height == MaxDimension && ProportionalSide(im.width, im.height, r.image.width)
  {
    var width, height := im.width, im.height;
    var maxDimension := Max(width, height);
    if maxDimension <= MaxDimension then
      Checked(false, im)
    else if width == maxDimension then
      Checked(true, im.(width := MaxDimension, height := ScaleSide(height, width)))
    else
      Checked(true, im.(width := ScaleSide(width, height), height := MaxDimension))
  }

  /** A page the dimension check produced passes it unchanged. */
  lemma DimenFixIdempotent(im: Image)
    ensures !CheckOversizedDimen(CheckOversizedDimen(im).image).changed
  {
  }

  // ---------------------------------------------------------------------
  // Encoded byte size

  /** Doubling the root of x / 4 gives a root of x to within one. */
  lemma ISqrtStep(x: nat, t: nat)
    requires 4 <= x && t * t <= x / 4 < (t + 1) * (t + 1)
    ensures (2 * t) * (2 * t) <= x < (2 * t + 2) * (2 * t + 2)
  {
    var q := x / 4;
    assert 4 * q <= x < 4 * q + 4;
    assert (2 * t) * (2 * t) == 4 * (t * t);
    assert (2 * t + 2) * (2 * t + 2) == 4 * ((t + 1) * (t + 1));
  }

  /** The whole part of the square root of x. */
  function ISqrt(x: nat): (r: nat)
    ensures r * r <= x < (r + 1) * (r + 1)
    decreases x
  {
    if x == 0 then 0
    else if x < 4 then 1
    else
      var s := 2 * ISqrt(x / 4);
      ISqrtStep(x, ISqrt(x / 4));
      if (s + 1) * (s + 1) <= x then s + 1 else s
  }

  /** `side` is the whole part of 0.95 * sqrt(maxBytes / byteSize) * original,
      written without reals: 0.95 squared is 9025 / 10000. */
  ghost predicate SafetyScaled(original: nat, side: nat, maxBytes: nat, byteSize: nat) {
    10000 * byteSize * (side * side) <= 9025 * maxBytes * (original * original) < 10000 * byteSize * ((side + 1) * (side + 1))
  }

  lemma MulLeft(d: nat, a: nat, b: nat)
    requires a <= b
    ensures d * a <= d * b
  {
  }

  /** The quotient n / d rounded down, for a positive d. */
  function Quotient(n: nat, d: nat): (q: nat)
    requires 0 < d
    ensures q * d <= n < (q + 1) * d
  {
    DivBounds(n, d);
    n / d
  }

  /** A root of the quotient n / d, rounded down, bounds n / d from both sides. */
  lemma RootOfQuotient(n: nat, d: nat, q: nat, r: nat)
    requires q * d <= n < (q + 1) * d
    requires r * r <= q < (r + 1) * (r + 1)
    ensures d * (r * r) <= n < d * ((r + 1) * (r + 1))
  {
    MulLeft(d, r * r, q);
    assert d * q == q * d;
    MulLeft(d, q + 1, (r + 1) * (r + 1));
    assert d * (q + 1) == (q + 1) * d;
  }

  /** One side after the memory fix. */
  function ScaledSide(original: nat, maxBytes: nat, byteSize: nat): (side: nat)
    requires maxBytes < byteSize
    ensures SafetyScaled(original, side, maxBytes, byteSize)
    ensures original > 0 ==> side < original
    ensures original == 0 ==> side == 0
  {
    var q := Quotient(9025 * maxBytes * (original * original), 10000 * byteSize);
    var side := ISqrt(q);
    ScaledSideBounds(original, maxBytes, byteSize, q, side);
    side
  }

  /** The root of the scaled quotient meets SafetyScaled and shrinks the side. */
  lemma ScaledSideBounds(original: nat, maxBytes: nat, byteSize: nat, q: nat, side: nat)
    requires maxBytes < byteSize
    requires q * (10000 * byteSize) <= 9025 * maxBytes * (original * original) < (q + 1) * (10000 * byteSize)
    requires side * side <= q < (side + 1) * (side + 1)
    ensures SafetyScaled(original, side, maxBytes, byteSize)
    ensures original > 0 ==> side < original
    ensures original == 0 ==> side == 0
  {
    RootOfQuotient(9025 * maxBytes * (original * original), 10000 * byteSize, q, side);
    ShrinksStrictly(original, side, maxBytes, byteSize);
  }

  /** A side that meets SafetyScaled under a budget below the size is smaller than before. */
  lemma ShrinksStrictly(original: nat, side: nat, maxBytes: nat, byteSize: nat)
    requires maxBytes < byteSize
    requires 10000 * byteSize * (side * side) <= 9025 * maxBytes * (original * original)
    ensures original > 0 ==> side < original
    ensures original == 0 ==> side == 0
  {
    var area, square := original * original, side * side;
    var budget, size := 9025 * maxBytes, 10000 * byteSize;
    if original == 0 {
      assert size * square <= 0;
      MulCancel(square, 0, size);
    } else {
      MulLeft(area, budget, size);
      assert budget * area <= size * area;
      if original <= side {
        MulLeft(original, original, side);
        MulLeft(side, original, side);
        assert area <= square;
        MulLeft(size, area, square);
        assert budget < size;
        assert budget * area < size * area by {
          MulLeft(area, budget + 1, size);
        }
        assert false;
      }
    }
  }

  /** Shrinks a page whose encoding exceeds maxBytes once, by the factor
      0.95 * sqrt(maxBytes / size) on both sides; the size of the result is
      not checked again. A zero-area page that is over budget divides by zero. */
  function CheckOversizedMem(im: Image, encode: Image -> nat, maxBytes: nat): (r: Result<Checked>)
    ensures r.Err? <==> encode(im) > maxBytes && (im.width == 0 || im.height == 0)
    ensures r.Ok? ==> (r.value.changed <==> encode(im) > maxBytes)
    ensures r.Ok? && !r.value.changed ==> r.value.image == im
    ensures r.Ok? && r.value.changed ==>
      r.value.image.mode == im.mode &&
      r.value.image.width < im.width && r.value.image.height < im.height &&
      SafetyScaled(im.width, r.value.image.width, maxBytes, encode(im)) &&
      SafetyScaled(im.height, r.value.image.height, maxBytes, encode(im))
  {
    var byteSize := encode(im);
    if byteSize > maxBytes then
      if im.width * im.height == 0 then
        Err(ZeroDivision)
      else
        var newWidth := ScaledSide(im.width, maxBytes, byteSize);
        var newHeight := ScaledSide(im.height, maxBytes, byteSize);
        Ok(Checked(true, im.(width := newWidth, height := newHeight)))
    else
      Ok(Checked(false, im))
  }
}
