/**
 * Fit calculator of ResizeImage: from the decoded source size and the
 * requested box (x, y) it computes the output size, keeping the source
 * aspect ratio and covering the box on both axes.
 *
 * Go's `aspectRatio := float64(srcW) / float64(srcH)` is kept exact:
 * `aspectRatio > 1` is `srcW > srcH`, `x / aspectRatio` is `x * srcH / srcW`
 * and `y * aspectRatio` is `y * srcW / srcH`, each rounded by RoundDiv.
 */
module Fit {
  import opened Rounding

  /** Width and height of a raster, in pixels. */
  datatype Size = Size(width: int, height: int)

  /** The height that goes with `width` at the source aspect ratio. */
  function HeightForWidth(srcW: int, srcH: int, width: int): int
    requires srcW > 0
  {
    RoundDiv(width * srcH, srcW)
  }

  /** The width that goes with `height` at the source aspect ratio. */
  function WidthForHeight(srcW: int, srcH: int, height: int): int
    requires srcH > 0
  {
    RoundDiv(height * srcW, srcH)
  }

  /** `s` keeps the source aspect ratio to within half a pixel on one of its axes. */
  predicate KeepsAspect(srcW: int, srcH: int, s: Size)
  {
    -srcW <= 2 * (s.width * srcH - s.height * srcW) <= srcW
    || -srcH <= 2 * (s.height * srcW - s.width * srcH) <= srcH
  }

  /** First pass: a landscape source is fitted to the box width, any other to its height. */
  function FirstPass(srcW: int, srcH: int, x: int, y: int): (s: Size)
    requires srcW > 0 && srcH > 0
    ensures srcW > srcH ==> s.width == x
    ensures srcW <= srcH ==> s.height == y
    ensures KeepsAspect(srcW, srcH, s)
  {
    if srcW > srcH then Size(x, HeightForWidth(srcW, srcH, x))
    else Size(WidthForHeight(srcW, srcH, y), y)
  }

  /** First corrective check: too narrow a size is widened to the box width. */
  function CorrectWidth(srcW: int, srcH: int, x: int, s: Size): (t: Size)
    requires srcW > 0 && srcH > 0
    ensures t.width >= x
    ensures KeepsAspect(srcW, srcH, s) ==> KeepsAspect(srcW, srcH, t)
  {
    if s.width < x then Size(x, HeightForWidth(srcW, srcH, x)) else s
  }

  /** Second corrective check: too short a size is heightened to the box height. */
  function CorrectHeight(srcW: int, srcH: int, y: int, s: Size): (t: Size)
    requires srcW > 0 && srcH > 0
    ensures t.height >= y
    ensures KeepsAspect(srcW, srcH, s) ==> KeepsAspect(srcW, srcH, t)
  {
    if s.height < y then Size(WidthForHeight(srcW, srcH, y), y) else s
  }

  /** The output size: the first pass, then both corrective checks in order. */
  function CoverFit(srcW: int, srcH: int, x: int, y: int): (s: Size)
    requires srcW > 0 && srcH > 0
    ensures s.height >= y
    ensures KeepsAspect(srcW, srcH, s)
  {
    CorrectHeight(srcW, srcH, y, CorrectWidth(srcW, srcH, x, FirstPass(srcW, srcH, x, y)))
  }

  /** If the width that goes with `height` falls short of x, the height that goes with x reaches `height`. */
  lemma ShortWidthMeansTallHeight(srcW: int, srcH: int, x: int, height: int)
    requires srcW > 0 && srcH > 0
    requires WidthForHeight(srcW, srcH, height) < x
    ensures HeightForWidth(srcW, srcH, x) >= height
  {
    if height * srcW >= x * srcH {
      RoundDivAtLeast(height * srcW, srcH, x);
    }
    RoundDivAtLeast(x * srcH, srcW, height);
  }

  /** If the height that goes with `width` falls short of y, the width that goes with y reaches `width`. */
  lemma ShortHeightMeansWideWidth(srcW: int, srcH: int, width: int, y: int)
    requires srcW > 0 && srcH > 0
    requires HeightForWidth(srcW, srcH, width) < y
    ensures WidthForHeight(srcW, srcH, y) >= width
  {
    if width * srcH >= y * srcW {
      RoundDivAtLeast(width * srcH, srcW, y);
    }
    RoundDivAtLeast(y * srcW, srcH, width);
  }

  /** Cover fit: the output is at least as large as the box on both axes, for any targets. */
  lemma CoverFitCovers(srcW: int, srcH: int, x: int, y: int)
    requires srcW > 0 && srcH > 0
    ensures CoverFit(srcW, srcH, x, y).width >= x
    ensures CoverFit(srcW, srcH, x, y).height >= y
  {
    var s2 := CorrectWidth(srcW, srcH, x, FirstPass(srcW, srcH, x, y));
    if s2.height < y {
      // s2 is either the landscape first pass or the widened size: both are (x', HeightForWidth(x')) with x' >= x
      ShortHeightMeansWideWidth(srcW, srcH, s2.width, y);
    }
  }

  /** The two corrective checks never both fire: once the width is corrected, the height already covers the box. */
  lemma CorrectionsExclusive(srcW: int, srcH: int, x: int, y: int)
    requires srcW > 0 && srcH > 0
    requires FirstPass(srcW, srcH, x, y).width < x
    ensures CoverFit(srcW, srcH, x, y) == Size(x, HeightForWidth(srcW, srcH, x))
  {
    ShortWidthMeansTallHeight(srcW, srcH, x, y);
  }

  /**
   * Closed form of the cover fit: a landscape source takes the box width
   * unless its height falls short, any other source takes the box height
   * unless its width falls short; the other axis follows the aspect ratio.
   */
  lemma CoverFitCases(srcW: int, srcH: int, x: int, y: int)
    requires srcW > 0 && srcH > 0
    ensures var s := CoverFit(srcW, srcH, x, y);
      if srcW > srcH then
        (HeightForWidth(srcW, srcH, x) >= y ==> s == Size(x, HeightForWidth(srcW, srcH, x)))
        && (HeightForWidth(srcW, srcH, x) < y ==> s == Size(WidthForHeight(srcW, srcH, y), y))
      else
        (WidthForHeight(srcW, srcH, y) >= x ==> s == Size(WidthForHeight(srcW, srcH, y), y))
        && (WidthForHeight(srcW, srcH, y) < x ==> s == Size(x, HeightForWidth(srcW, srcH, x)))
  {
    if srcW <= srcH && WidthForHeight(srcW, srcH, y) < x {
      CorrectionsExclusive(srcW, srcH, x, y);
    }
  }

  /** Asking for the source's own size gives the source's own size. */
  lemma CoverFitOwnSize(srcW: int, srcH: int)
    requires srcW > 0 && srcH > 0
    ensures CoverFit(srcW, srcH, srcW, srcH) == Size(srcW, srcH)
  {
    assert srcW * srcH == srcH * srcW;
    RoundDivExact(srcH, srcW);
    RoundDivExact(srcW, srcH);
  }

  /** A 1000x500 source asked for a 300x300 box becomes 600x300. */
  lemma LandscapeExample()
    ensures CoverFit(1000, 500, 300, 300) == Size(600, 300)
  {
  }

  /** A 400x800 source asked for a 200x200 box becomes 200x400. */
  lemma PortraitExample()
    ensures CoverFit(400, 800, 200, 200) == Size(200, 400)
  {
  }
}
