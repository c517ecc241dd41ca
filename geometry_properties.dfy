/**
 * What the cover-fit-and-crop geometry of ImageResizer.Resolve does, case by
 * case and anchor by anchor, in the integer arithmetic C# performs.
 */
module GeometryProperties {
  import opened CSharpInt
  import opened ImageResizer

  // ----- the three cases ------------------------------------------------

  /** Exact fit: when the scaled width is the target width nothing is offset or rescaled. */
  lemma ExactFitIsIdentity(img: Size, height: int, width: int, valign: VerticalAlign, halign: HorizontalAlign)
    requires Positive(img) && height > 0 && width > 0
    requires img.width * TruncDiv(height, img.height) == width
    ensures Resolve(img, height, width, valign, halign) == DrawRect(0, 0, width, height)
  {
  }

  /** A source that already has the target size is drawn unchanged, for every anchor. */
  lemma SameSizeIsIdentity(height: int, width: int, valign: VerticalAlign, halign: HorizontalAlign)
    requires height > 0 && width > 0
    ensures Resolve(Size(width, height), height, width, valign, halign) == DrawRect(0, 0, width, height)
  {
  }

  /**
   * Too wide: the image keeps the target height and its scaled width, sits at
   * the top, and is shifted left by 0, half the overflow (truncated) or the
   * whole overflow; the vertical anchor plays no part.
   */
  lemma TooWideRect(img: Size, height: int, width: int, valign: VerticalAlign, halign: HorizontalAlign)
    requires Positive(img) && height > 0 && width > 0
    requires img.width * TruncDiv(height, img.height) > width
    ensures var r := Resolve(img, height, width, valign, halign);
            var overFlow := img.width * TruncDiv(height, img.height) - width;
            && overFlow > 0
            && r.y == 0 && r.width == width + overFlow && r.height == height
            && (halign == HorizontalAlign.Left ==> r.x == 0)
            && (halign == HorizontalAlign.Middle ==> r.x == -TruncDiv(overFlow, 2))
            && (halign == HorizontalAlign.Right ==> r.x == -overFlow)
    ensures forall v: VerticalAlign :: Resolve(img, height, width, v, halign) == Resolve(img, height, width, valign, halign)
  {
  }

  /**
   * Too tall: the image is rescaled by the truncated width ratio, keeps the
   * target width, sits at the left edge, and is shifted by 0, half the
   * (possibly negative) overflow or the whole overflow; the horizontal anchor
   * plays no part.
   */
  lemma TooTallRect(img: Size, height: int, width: int, valign: VerticalAlign, halign: HorizontalAlign)
    requires Positive(img) && height > 0 && width > 0
    requires img.width * TruncDiv(height, img.height) < width
    ensures var r := Resolve(img, height, width, valign, halign);
            var overFlow := img.height * TruncDiv(width, img.width) - height;
            && r.x == 0 && r.width == width && r.height == height + overFlow
            && (valign == VerticalAlign.Top ==> r.y == 0)
            && (valign == VerticalAlign.Middle ==> r.y == TruncDiv(-overFlow, 2))
            && (valign == VerticalAlign.Bottom ==> r.y == -overFlow)
    ensures forall h: HorizontalAlign :: Resolve(img, height, width, valign, h) == Resolve(img, height, width, valign, halign)
  {
  }

  // ----- the anchors ----------------------------------------------------

  /**
   * For a positive horizontal overflow, Right is strictly left of Middle,
   * Middle is at or left of Left, Left is 0, and Middle is half the overflow
   * rounded toward zero.
   */
  lemma HorizontalAnchorOrder(overFlow: int)
    requires overFlow > 0
    ensures HorizontalOffset(HorizontalAlign.Left, overFlow) == 0
    ensures HorizontalOffset(HorizontalAlign.Right, overFlow) == -overFlow
    ensures HorizontalOffset(HorizontalAlign.Right, overFlow) < HorizontalOffset(HorizontalAlign.Middle, overFlow)
                                                             <= HorizontalOffset(HorizontalAlign.Left, overFlow)
    ensures var m := HorizontalOffset(HorizontalAlign.Middle, overFlow); -overFlow <= 2 * m <= -overFlow + 1
  {
  }

  /**
   * Vertically, Top is 0, Bottom is minus the overflow and Middle lies between
   * them, at half of minus the overflow rounded toward zero; with a negative
   * overflow the three offsets are positive and come in the reverse order.
   */
  lemma VerticalAnchorOrder(overFlow: int)
    ensures VerticalOffset(VerticalAlign.Top, overFlow) == 0
    ensures VerticalOffset(VerticalAlign.Bottom, overFlow) == -overFlow
    ensures var m := VerticalOffset(VerticalAlign.Middle, overFlow);
            && (overFlow >= 0 ==> -overFlow <= m <= 0 && -overFlow <= 2 * m <= -overFlow + 1)
            && (overFlow <= 0 ==> 0 <= m <= -overFlow && -overFlow - 1 <= 2 * m <= -overFlow)
  {
  }

  /**
   * The two Middle offsets are written differently (`0 - overFlow / 2` and
   * `-overFlow / 2`) but agree because C# division truncates; with Dafny's
   * Euclidean division they would differ for every odd positive overflow.
   */
  lemma MiddleOffsetsAgree(overFlow: int)
    ensures HorizontalOffset(HorizontalAlign.Middle, overFlow) == VerticalOffset(VerticalAlign.Middle, overFlow)
    ensures overFlow > 0 && overFlow % 2 == 1 ==> VerticalOffset(VerticalAlign.Middle, overFlow) != (-overFlow) / 2
  {
    TruncDivNegate(overFlow, 2);
  }

  // ----- coverage -------------------------------------------------------

  /**
   * The drawn image covers the whole canvas exactly when one of the two
   * truncated scalings reaches its target extent; the horizontal extent is
   * always covered, so only a too-tall image drawn shorter than the canvas
   * leaves a gap.
   */
  lemma CoversIff(img: Size, height: int, width: int, valign: VerticalAlign, halign: HorizontalAlign)
    requires Positive(img) && height > 0 && width > 0
    ensures Covers(width, height, Resolve(img, height, width, valign, halign))
            <==> ScaledWidth(img, height) >= width || ScaledHeight(img, width) >= height
  {
  }

  // ----- worked examples ------------------------------------------------

  /**
   * 400x200 onto 300x300, centred: the height ratio truncates to 1, so the
   * image is drawn 400x300 and shifted left by half of the 100-pixel overflow.
   */
  lemma WideExample()
    ensures Resolve(Size(400, 200), 300, 300, VerticalAlign.Middle, HorizontalAlign.Middle) == DrawRect(-50, 0, 400, 300)
  {
  }

  /**
   * 100x100 onto 200 wide by 100 high is NOT an exact fit: the scaled width
   * is 100, so the image is rescaled to 200x200 from the width and centred
   * 50 pixels up.
   */
  lemma SquareOntoWideExample()
    ensures Resolve(Size(100, 100), 100, 200, VerticalAlign.Middle, HorizontalAlign.Left) == DrawRect(0, -50, 200, 200)
  {
  }

  /**
   * An odd positive vertical overflow: 10x13 onto 15 wide by 10 high is drawn
   * 15x13, overflowing by 3, and Middle moves it up by 1, not by 2.
   */
  lemma OddOverflowExample()
    ensures Resolve(Size(10, 13), 10, 15, VerticalAlign.Middle, HorizontalAlign.Middle) == DrawRect(0, -1, 15, 13)
  {
  }

  // ----- integer ranges -------------------------------------------------

  /**
   * What the `float` product of the too-tall case needs to be exact: extents
   * and both scaled products at most 2^24. Then every DrawImage argument lies
   * in [-2^24, 2^24], so no `int` arithmetic overflows either. The bound is on
   * the products, not on the images: a 6000x4000 photo fits it for any
   * target up to 4096 pixels on each side.
   */
  lemma ExactWhenProductsFit(img: Size, height: int, width: int, valign: VerticalAlign, halign: HorizontalAlign)
    requires Positive(img) && height > 0 && width > 0
    requires img.width <= 0x100_0000 && img.height <= 0x100_0000 && width <= 0x100_0000 && height <= 0x100_0000
    requires ScaledWidth(img, height) <= 0x100_0000 && ScaledHeight(img, width) <= 0x100_0000
    ensures var r := Resolve(img, height, width, valign, halign);
            && -0x100_0000 <= r.x <= 0 && -0x100_0000 <= r.y <= 0x100_0000
            && 0 <= r.width <= 0x100_0000 && 0 <= r.height <= 0x100_0000
  {
  }

  /**
   * A 6000x4000 photo onto any target of at most 4096x4096: both scaled
   * products stay below 2^24, so ExactWhenProductsFit applies.
   */
  lemma PhotoProductsFit(height: int, width: int)
    requires 0 < height <= 4096 && 0 < width <= 4096
    ensures ScaledWidth(Size(6000, 4000), height) <= 0x100_0000
    ensures ScaledHeight(Size(6000, 4000), width) <= 0x100_0000
  {
    MulMonotone(6000, height, 4096);
    MulMonotone(4000, width, 4096);
  }

  /**
   * With every extent at most 4096 pixels both scaled products stay below
   * 2^24, so ExactWhenProductsFit applies: the `float` product of the
   * too-tall case is exact and no `int` arithmetic overflows.
   */
  lemma WithinExactRange(img: Size, height: int, width: int, valign: VerticalAlign, halign: HorizontalAlign)
    requires Positive(img) && height > 0 && width > 0
    requires img.width <= 4096 && img.height <= 4096 && width <= 4096 && height <= 4096
    ensures 0 <= ScaledWidth(img, height) <= 0x100_0000
    ensures 0 <= ScaledHeight(img, width) <= 0x100_0000
    ensures var r := Resolve(img, height, width, valign, halign);
            && -0x100_0000 <= r.x <= 0 && -0x100_0000 <= r.y <= 0x100_0000
            && 0 <= r.width <= 0x100_0000 && 0 <= r.height <= 0x100_0000
  {
    MulMonotone(img.width, height, 4096);
    MulMonotone(4096, img.width, 4096);
    MulMonotone(img.height, width, 4096);
    MulMonotone(4096, img.height, 4096);
    ExactWhenProductsFit(img, height, width, valign, halign);
  }

  // ----- consequences of the truncated ratios ---------------------------

  /**
   * Shrinking on both axes draws nothing: both ratios truncate to 0, the
   * image is drawn with height 0 and the canvas stays blank.
   */
  lemma DownscaleDrawsNothing(img: Size, height: int, width: int, valign: VerticalAlign, halign: HorizontalAlign)
    requires Positive(img) && height > 0 && width > 0
    requires width < img.width && height < img.height
    ensures Resolve(img, height, width, valign, halign).height == 0
    ensures !Covers(width, height, Resolve(img, height, width, valign, halign))
  {
  }

  /**
   * 300x200 onto 400 wide by 300 high, centred: both ratios truncate to 1, so
   * the image is drawn 400x200, 50 pixels down, leaving bands at top and bottom.
   */
  lemma TooTallGapExample()
    ensures Resolve(Size(300, 200), 300, 400, VerticalAlign.Middle, HorizontalAlign.Middle) == DrawRect(0, 50, 400, 200)
    ensures !Covers(400, 300, DrawRect(0, 50, 400, 200))
  {
  }
}
