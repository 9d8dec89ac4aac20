// The responsive sizing of artalekey/ui/simple_styles.py: a font size that
// steps with the window width, and the paddings and heights derived from it.
// Sizes are integer pixels. Python's `//` is floor division; every divisor
// here is positive, where Dafny's `/` is floor division too.

module Styles {

  /** The default base size of `get_responsive_font_size`. */
  const DefaultBase := 13

  /** `get_responsive_font_size(width, base)`. */
  function FontSize(width: int, base: int): int {
    if width < 400 then (if 10 > base - 2 then 10 else base - 2)
    else if width < 600 then base
    else if width < 800 then base + 1
    else base + 2
  }

  /** The size grows with the width exactly when the base is at least 10:
      below that, the floor of 10 for narrow windows exceeds the base
      used from 400 pixels on. */
  lemma FontSizeMonotoneIff(base: int)
    ensures (forall w1, w2 :: w1 <= w2 ==> FontSize(w1, base) <= FontSize(w2, base)) <==> base >= 10
  {
    if base < 10 {
      assert FontSize(399, base) > FontSize(400, base);
    }
  }

  /** With the default base the size is one of 11, 13, 14 and 15, and it
      never shrinks as the window widens. */
  lemma DefaultFontSizes(width: int)
    ensures FontSize(width, DefaultBase) in {11, 13, 14, 15}
    ensures forall wider :: wider >= width ==> FontSize(wider, DefaultBase) >= FontSize(width, DefaultBase)
  {
    FontSizeMonotoneIff(DefaultBase);
  }

  function Max(a: int, b: int): int {
    if a >= b then a else b
  }

  /** The numbers `get_adaptive_style` writes into the style sheet. */
  datatype Metrics = Metrics(
    font: int,
    buttonPadV: int, buttonPadH: int, buttonMinHeight: int,
    inputPadV: int, inputPadH: int, inputMinHeight: int,
    groupFont: int, groupPaddingTop: int, groupMarginTop: int,
    sliderMinHeight: int, handleWidth: int, handleMargin: int)

  /** `get_adaptive_style(width, height)`: the height is not used. */
  function AdaptiveMetrics(width: int): (m: Metrics)
    ensures m.font == FontSize(width, DefaultBase)
    ensures m.buttonPadV >= 4 && m.buttonPadH >= 8 && m.buttonMinHeight == m.font + 8
    ensures m.inputPadV >= 2 && m.inputPadH >= 6 && m.inputMinHeight == m.font + 4
    ensures m.groupFont == m.font + 1 && m.groupPaddingTop == m.font
    ensures m.sliderMinHeight == m.font + 6 && m.handleWidth == m.font + 4
    ensures 2 * m.groupMarginTop <= m.font < 2 * m.groupMarginTop + 2
    ensures m.handleMargin <= 0 && -3 * m.handleMargin <= m.font < -3 * m.handleMargin + 3
  {
    var f := FontSize(width, DefaultBase);
    Metrics(f,
            Max(4, f / 3), Max(8, f / 2), f + 8,
            Max(2, f / 4), Max(6, f / 3), f + 4,
            f + 1, f, f / 2,
            f + 6, f + 4, -(f / 3))
  }

  /** For every width the horizontal paddings sit at their floors (8 and
      6 pixels), the vertical ones are 4 or 5 and 2 or 3, and the button
      is taller than the input field by 4 pixels. */
  lemma PaddingRanges(width: int)
    ensures AdaptiveMetrics(width).buttonPadH == 8 && AdaptiveMetrics(width).inputPadH == 6
    ensures 4 <= AdaptiveMetrics(width).buttonPadV <= 5
    ensures 2 <= AdaptiveMetrics(width).inputPadV <= 3
    ensures AdaptiveMetrics(width).buttonMinHeight == AdaptiveMetrics(width).inputMinHeight + 4
  {
    DefaultFontSizes(width);
  }

  /** Every derived size grows (weakly) with the window width; the
      handle's negative margin, so its overhang, grows with it too. */
  lemma MetricsMonotone(w1: int, w2: int)
    requires w1 <= w2
    ensures var a, b := AdaptiveMetrics(w1), AdaptiveMetrics(w2);
            a.font <= b.font && a.buttonPadV <= b.buttonPadV && a.buttonMinHeight <= b.buttonMinHeight
            && a.inputPadV <= b.inputPadV && a.inputMinHeight <= b.inputMinHeight
            && a.groupMarginTop <= b.groupMarginTop && a.handleMargin >= b.handleMargin
  {
    DefaultFontSizes(w1);
    var f1, f2 := FontSize(w1, DefaultBase), FontSize(w2, DefaultBase);
    assert f1 / 3 <= f2 / 3 && f1 / 4 <= f2 / 4 && f1 / 2 <= f2 / 2;
  }
}
