/**
 * Compositor of ResizeImage: a transparent canvas of the output size is
 * created and the resized strips are pasted onto it in slot order, each at
 * the running total of the heights pasted before it. Paste clips to the
 * canvas, so rows past the canvas are dropped and canvas rows past the last
 * strip keep the transparent background. Pixel contents are not modelled:
 * the canvas records its size and where each strip went.
 */
module Compositor {
  import opened Resampler

  /** A strip pasted with its top-left corner at (x, y). */
  datatype Placement = Placement(x: int, y: int, strip: Strip)

  /** The output raster: its size and the strips pasted onto it, in paste order. */
  datatype Canvas = Canvas(width: int, height: int, pasted: seq<Placement>)

  /** Total height of a sequence of strips. */
  function HeightSum(strips: seq<Strip>): int
  {
    if strips == [] then 0 else HeightSum(strips[..|strips| - 1]) + strips[|strips| - 1].height
  }

  /** The canvas the strips are assembled on: strip k sits at the total height of strips 0..k-1. */
  function Layout(width: int, height: int, strips: seq<Strip>): (c: Canvas)
    ensures c.width == width && c.height == height && |c.pasted| == |strips|
    ensures forall k :: 0 <= k < |strips| ==> c.pasted[k].strip == strips[k] && c.pasted[k].x == 0
    ensures |strips| > 0 ==> c.pasted[0].y == 0
    // each strip starts where the one before it ends
    ensures forall k :: 0 <= k < |strips| - 1 ==> c.pasted[k + 1].y == c.pasted[k].y + strips[k].height
  {
    var c := Canvas(width, height, seq(|strips|, k requires 0 <= k < |strips| => Placement(0, HeightSum(strips[..k]), strips[k])));
    forall k | 0 <= k < |strips| - 1
      ensures c.pasted[k + 1].y == c.pasted[k].y + strips[k].height
    {
      assert strips[..k + 1][..k] == strips[..k];
    }
    assert |strips| > 0 ==> strips[..0] == [];
    c
  }

  /** Paste the strips in slot order onto a fresh canvas, accumulating the y offset. */
  method Composite(width: int, height: int, strips: array<Strip>) returns (canvas: Canvas)
    ensures canvas == Layout(width, height, strips[..])
  {
    canvas := Canvas(width, height, []);
    var currentY := 0;
    for k := 0 to strips.Length
      invariant currentY == HeightSum(strips[..k])
      invariant canvas.width == width && canvas.height == height && |canvas.pasted| == k
      invariant forall j :: 0 <= j < k ==> canvas.pasted[j] == Placement(0, HeightSum(strips[..j]), strips[j])
    {
      canvas := canvas.(pasted := canvas.pasted + [Placement(0, currentY, strips[k])]);
      assert strips[..k + 1][..k] == strips[..k];
      currentY := currentY + strips[k].height;
    }
    assert strips[..] == strips[..strips.Length];
  }

  /** The band of canvas rows strip k of the layout would cover before clipping. */
  predicate Covers(c: Canvas, k: int, row: int)
    requires 0 <= k < |c.pasted|
  {
    c.pasted[k].y <= row < c.pasted[k].y + c.pasted[k].strip.height
  }

  /** Strips of non-negative height. */
  predicate NonNegativeHeights(strips: seq<Strip>)
  {
    forall k :: 0 <= k < |strips| ==> strips[k].height >= 0
  }

  /** Later strips of the layout start at or below the end of earlier ones. */
  lemma {:induction false} LayoutOrdered(width: int, height: int, strips: seq<Strip>, i: int, j: int)
    requires NonNegativeHeights(strips) && 0 <= i < j < |strips|
    ensures var c := Layout(width, height, strips);
      c.pasted[i].y + strips[i].height <= c.pasted[j].y
  {
    var c := Layout(width, height, strips);
    if j > i + 1 {
      LayoutOrdered(width, height, strips, i, j - 1);
    }
  }

  /** No two strips of the layout cover the same row. */
  lemma LayoutDisjoint(width: int, height: int, strips: seq<Strip>, row: int)
    requires NonNegativeHeights(strips)
    ensures var c := Layout(width, height, strips);
      forall k1, k2 :: 0 <= k1 < |strips| && 0 <= k2 < |strips| && Covers(c, k1, row) && Covers(c, k2, row) ==> k1 == k2
  {
    var c := Layout(width, height, strips);
    forall k1, k2 | 0 <= k1 < |strips| && 0 <= k2 < |strips| && Covers(c, k1, row) && Covers(c, k2, row)
      ensures k1 == k2
    {
      if k1 < k2 {
        LayoutOrdered(width, height, strips, k1, k2);
      } else if k2 < k1 {
        LayoutOrdered(width, height, strips, k2, k1);
      }
    }
  }

  /** Every row in [0, HeightSum(strips)) is covered by some strip, and no row past it is. */
  lemma {:induction false} LayoutCovers(width: int, height: int, strips: seq<Strip>, row: int)
    requires NonNegativeHeights(strips) && 0 <= row
    ensures var c := Layout(width, height, strips);
      (row < HeightSum(strips) ==> exists k :: 0 <= k < |strips| && Covers(c, k, row))
      && (row >= HeightSum(strips) ==> forall k :: 0 <= k < |strips| ==> !Covers(c, k, row))
  {
    if strips != [] {
      var c := Layout(width, height, strips);
      var last := |strips| - 1;
      var init := strips[..last];
      assert NonNegativeHeights(init);
      var c0 := Layout(width, height, init);
      forall k | 0 <= k < last
        ensures c0.pasted[k] == c.pasted[k]
      {
        assert init[..k] == strips[..k];
      }
      assert c.pasted[last].y == HeightSum(init);
      LayoutCovers(width, height, init, row);
      if row < HeightSum(strips) && row >= HeightSum(init) {
        assert Covers(c, last, row);
      }
      if row < HeightSum(init) {
        var k :| 0 <= k < last && Covers(c0, k, row);
        assert Covers(c, k, row);
      }
      if row >= HeightSum(strips) {
        forall k | 0 <= k < |strips|
          ensures !Covers(c, k, row)
        {
          if k < last {
            assert !Covers(c0, k, row);
          }
        }
      }
    }
  }

  /**
   * The pasted strips tile the rows [0, HeightSum(strips)) of the layout:
   * each such row is covered by exactly one strip, and no strip reaches a
   * row at or past that total.
   */
  lemma LayoutTiles(width: int, height: int, strips: seq<Strip>, row: int)
    requires NonNegativeHeights(strips) && 0 <= row
    ensures var c := Layout(width, height, strips);
      (row < HeightSum(strips) ==> exists k :: 0 <= k < |strips| && Covers(c, k, row))
      && (forall k1, k2 :: 0 <= k1 < |strips| && 0 <= k2 < |strips| && Covers(c, k1, row) && Covers(c, k2, row) ==> k1 == k2)
      && (row >= HeightSum(strips) ==> forall k :: 0 <= k < |strips| ==> !Covers(c, k, row))
  {
    LayoutDisjoint(width, height, strips, row);
    LayoutCovers(width, height, strips, row);
  }
}
