/**
 * Cover-fit with the scale factor taken as an exact ratio and a single
 * rounding rule (nearest, halves away from zero) on both axes: the geometry
 * the resizer evidently intends. It keeps the three cases and the anchor
 * offsets of ImageResizer and replaces only the truncated integer ratios.
 */
module CoverFit {
  import opened CSharpInt
  import opened ImageResizer

  /** `n / d` rounded to the nearest integer, halves away from zero. */
  function RoundDiv(n: int, d: int): (q: int)
    requires n >= 0 && d > 0
    ensures q >= 0
    ensures d * (2 * q - 1) <= 2 * n < d * (2 * q + 1)
  {
    var q := (2 * n + d) / (2 * d);
    DivisionIdentity(2 * n + d, 2 * d, q);
    assert d * (2 * q - 1) == q * (2 * d) - d;
    assert d * (2 * q + 1) == q * (2 * d) + d;
    q
  }

  function Max(a: int, b: int): (m: int)
    ensures m >= a && m >= b && (m == a || m == b)
  {
    if a < b then b else a
  }

  /**
   * The corrected rectangle. It covers the canvas for every input and every
   * anchor, and its aspect ratio is the source's up to rounding on one axis:
   * `2 * width * img.height` and `2 * height * img.width` differ by at most
   * the larger source extent.
   */
  function Resolve(img: Size, height: int, width: int, valign: VerticalAlign, halign: HorizontalAlign): (r: DrawRect)
    requires Positive(img) && height > 0 && width > 0
    ensures Covers(width, height, r)
    ensures r.x == 0 || r.y == 0
    ensures r.width == width || r.height == height
    ensures -Max(img.width, img.height) <= 2 * r.width * img.height - 2 * r.height * img.width <= Max(img.width, img.height)
  {
    var scaledWidth := RoundDiv(img.width * height, img.height);
    RoundingBound(img.width * height, img.height, scaledWidth, height, img.width);
    if scaledWidth == width then
      DrawRect(0, 0, width, height)
    else if scaledWidth > width then
      var overFlow := scaledWidth - width;
      DrawRect(HorizontalOffset(halign, overFlow), 0, scaledWidth, height)
    else
      var scaledHeight := RoundDiv(img.height * width, img.width);
      RoundingBound(img.height * width, img.width, scaledHeight, width, img.height);
      TallCovers(img, height, width, scaledWidth, scaledHeight);
      var overFlow := scaledHeight - height;
      DrawRect(0, VerticalOffset(valign, overFlow), width, scaledHeight)
  }

  /**
   * When `q` rounds `(e * t) / d`, `2 * q * d` and `2 * t * e` differ by at
   * most `d`: the drawn extent is the exact scaled extent up to half a pixel.
   */
  lemma RoundingBound(n: int, d: int, q: int, t: int, e: int)
    requires n >= 0 && d > 0 && n == e * t && q == RoundDiv(n, d)
    ensures -d <= 2 * q * d - 2 * t * e <= d
  {
  }

  /**
   * If the height-matched width falls short of the target width, the
   * width-matched height reaches the target height.
   */
  lemma TallCovers(img: Size, height: int, width: int, scaledWidth: int, scaledHeight: int)
    requires Positive(img) && height > 0 && width > 0
    requires scaledWidth == RoundDiv(img.width * height, img.height) && scaledWidth < width
    requires scaledHeight == RoundDiv(img.height * width, img.width)
    ensures scaledHeight >= height
  {
    var a, b := img.width, img.height;
    MulMonotone(b, 2 * scaledWidth + 1, 2 * width - 1);
    assert 2 * (a * height) < 2 * (b * width);
    if scaledHeight < height {
      MulMonotone(a, 2 * scaledHeight + 1, 2 * height - 1);
    }
  }

  // ----- the inputs on which the truncated ratios go wrong --------------

  /** 1000x800 shrunk to 200x100, centred: drawn 200x160, 30 pixels up, instead of with height 0. */
  lemma DownscaleExample()
    ensures Resolve(Size(1000, 800), 100, 200, VerticalAlign.Middle, HorizontalAlign.Middle) == DrawRect(0, -30, 200, 160)
    ensures ImageResizer.Resolve(Size(1000, 800), 100, 200, VerticalAlign.Middle, HorizontalAlign.Middle) == DrawRect(0, 50, 200, 0)
  {
  }

  /** 300x200 onto 400x300, centred: drawn 450x300, 25 pixels left, instead of 400x200 with a gap. */
  lemma TooTallGapCorrected()
    ensures Resolve(Size(300, 200), 300, 400, VerticalAlign.Middle, HorizontalAlign.Middle) == DrawRect(-25, 0, 450, 300)
  {
  }

  /**
   * 400x200 onto 300x300, centred: drawn 600x300, 150 pixels left, keeping
   * the 2:1 shape; the truncated ratio draws it 400x300 instead.
   */
  lemma WideExampleCorrected()
    ensures Resolve(Size(400, 200), 300, 300, VerticalAlign.Middle, HorizontalAlign.Middle) == DrawRect(-150, 0, 600, 300)
    ensures var r := ImageResizer.Resolve(Size(400, 200), 300, 300, VerticalAlign.Middle, HorizontalAlign.Middle);
            2 * r.width * 200 - 2 * r.height * 400 < -Max(400, 200)
  {
  }

  /**
   * `n / d` rounds to `t` when it is exactly `t`: the two-sided bound leaves
   * no other integer.
   */
  lemma RoundDivExact(n: int, d: int, t: int)
    requires n >= 0 && d > 0 && n == t * d
    ensures RoundDiv(n, d) == t
  {
    var q := RoundDiv(n, d);
    if q > t {
      MulMonotone(d, 2 * t + 1, 2 * q - 1);
    } else if q < t {
      MulMonotone(d, 2 * q + 1, 2 * t - 1);
    }
  }

  /**
   * A source with exactly the target's aspect ratio is an exact fit: it is
   * drawn at `(0, 0, width, height)` for every anchor.
   */
  lemma SameAspectIsIdentity(img: Size, height: int, width: int, valign: VerticalAlign, halign: HorizontalAlign)
    requires Positive(img) && height > 0 && width > 0
    requires img.width * height == width * img.height
    ensures Resolve(img, height, width, valign, halign) == DrawRect(0, 0, width, height)
  {
    RoundDivExact(img.width * height, img.height, width);
  }

  /**
   * 100x100 onto 200 wide by 100 high, centred vertically, is no exact fit
   * under exact ratios either: a 1:1 source cannot fill a 2:1 frame, and the
   * corrected draw is the same as the as-written one.
   */
  lemma SquareOntoWideCorrected()
    ensures Resolve(Size(100, 100), 100, 200, VerticalAlign.Middle, HorizontalAlign.Left) == DrawRect(0, -50, 200, 200)
    ensures Resolve(Size(100, 100), 100, 200, VerticalAlign.Middle, HorizontalAlign.Left)
         == ImageResizer.Resolve(Size(100, 100), 100, 200, VerticalAlign.Middle, HorizontalAlign.Left)
  {
  }
}
