/**
 * Strip partitioner of ResizeImage: the source rows [0, srcHeight) are cut
 * into `workers` contiguous horizontal strips of srcHeight / workers rows,
 * the last strip taking the remainder; each strip is then resized to its
 * proportional share of the output height.
 */
module Partition {
  import opened Rounding

  /** The half-open row range [start, end). */
  datatype RowRange = RowRange(start: int, end: int)
  {
    predicate Contains(row: int)
    {
      start <= row < end
    }

    function Rows(): int
    {
      end - start
    }
  }

  /** i * h lies between 0 and j * h when 0 <= i <= j and h >= 0. */
  lemma ScaledBetween(i: int, j: int, h: int)
    requires 0 <= i <= j && h >= 0
    ensures 0 <= i * h <= j * h
  {
    assert j * h - i * h == (j - i) * h;
  }

  /** The rows of strip i out of `workers`. */
  function StripRows(srcHeight: int, workers: int, i: int): (r: RowRange)
    requires srcHeight > 0 && workers >= 1 && 0 <= i < workers
    ensures 0 <= r.start <= r.end <= srcHeight
    ensures i == 0 ==> r.start == 0
    ensures i < workers - 1 ==> r.start == i * (srcHeight / workers) && r.Rows() == srcHeight / workers
    ensures i == workers - 1 ==> r.end == srcHeight
  {
    var stripHeight := srcHeight / workers;
    var startY := i * stripHeight;
    ScaledBetween(i, workers - 1, stripHeight);
    ScaledBetween(workers - 1, workers, stripHeight);
    assert workers * stripHeight <= srcHeight by { DivBounds(srcHeight, workers); }
    RowRange(startY, if i == workers - 1 then srcHeight else startY + stripHeight)
  }

  /** Consecutive strips meet: no gap and no overlap between strip i and strip i + 1. */
  lemma StripsAbut(srcHeight: int, workers: int, i: int)
    requires srcHeight > 0 && workers >= 1 && 0 <= i < workers - 1
    ensures StripRows(srcHeight, workers, i).end == StripRows(srcHeight, workers, i + 1).start
  {
    var h := srcHeight / workers;
    assert (i + 1) * h == i * h + h;
  }

  /** An earlier strip ends where or before a later one starts. */
  lemma StripsOrdered(srcHeight: int, workers: int, i: int, j: int)
    requires srcHeight > 0 && workers >= 1 && 0 <= i < j < workers
    ensures StripRows(srcHeight, workers, i).end <= StripRows(srcHeight, workers, j).start
  {
    var h := srcHeight / workers;
    assert (i + 1) * h == i * h + h;
    ScaledBetween(i + 1, j, h);
  }

  /** The strip that holds a source row. */
  function RowOwner(srcHeight: int, workers: int, row: int): (i: int)
    requires srcHeight > 0 && workers >= 1 && 0 <= row < srcHeight
    ensures 0 <= i < workers
    ensures StripRows(srcHeight, workers, i).Contains(row)
  {
    var h := srcHeight / workers;
    var i := if h == 0 || row / h >= workers - 1 then workers - 1 else row / h;
    OwnerContains(srcHeight, workers, row, h, i);
    i
  }

  lemma OwnerContains(srcHeight: int, workers: int, row: int, h: int, i: int)
    requires srcHeight > 0 && workers >= 1 && 0 <= row < srcHeight
    requires h == srcHeight / workers
    requires i == if h == 0 || row / h >= workers - 1 then workers - 1 else row / h
    ensures 0 <= i < workers
    ensures StripRows(srcHeight, workers, i).Contains(row)
  {
    if h > 0 {
      var q := row / h;
      DivBounds(row, h);
      assert q >= 0;
      if q >= workers - 1 {
        ScaledBetween(workers - 1, q, h);
        assert h * q == q * h;
      } else {
        assert h * q == q * h;
        assert i == q;
      }
    }
  }

  /** Exact cover: every source row lies in exactly one strip. */
  lemma PartitionExactCover(srcHeight: int, workers: int, row: int, i: int)
    requires srcHeight > 0 && workers >= 1 && 0 <= row < srcHeight && 0 <= i < workers
    ensures StripRows(srcHeight, workers, i).Contains(row) <==> i == RowOwner(srcHeight, workers, row)
  {
    var k := RowOwner(srcHeight, workers, row);
    if i < k {
      StripsOrdered(srcHeight, workers, i, k);
    } else if k < i {
      StripsOrdered(srcHeight, workers, k, i);
    }
  }

  /** With fewer rows than strips, all strips but the last are empty and the last holds every row. */
  lemma FewRowsPartition(srcHeight: int, workers: int, i: int)
    requires srcHeight > 0 && workers > srcHeight && 0 <= i < workers
    ensures StripRows(srcHeight, workers, i) ==
      if i < workers - 1 then RowRange(0, 0) else RowRange(0, srcHeight)
  {
    assert srcHeight / workers == 0;
  }

  /** Height a strip of `rows` is resized to: its proportional share of newHeight, rounded. */
  function StripTargetHeight(rows: RowRange, newHeight: int, srcHeight: int): (h: int)
    requires srcHeight > 0
    // within half a pixel of rows.Rows() * newHeight / srcHeight
    ensures -srcHeight <= 2 * (rows.Rows() * newHeight - h * srcHeight) <= srcHeight
  {
    RoundDiv(rows.Rows() * newHeight, srcHeight)
  }

  /** A strip of the source is resized to between 0 and newHeight rows. */
  lemma StripTargetHeightBounds(rows: RowRange, newHeight: int, srcHeight: int)
    requires srcHeight > 0 && 0 <= rows.start <= rows.end <= srcHeight && newHeight >= 0
    ensures 0 <= StripTargetHeight(rows, newHeight, srcHeight) <= newHeight
  {
    ScaledBetween(0, rows.Rows(), newHeight);
    ScaledBetween(rows.Rows(), srcHeight, newHeight);
    RoundDivExact(0, srcHeight);
    RoundDivMonotone(0, rows.Rows() * newHeight, srcHeight);
    RoundDivMonotone(rows.Rows() * newHeight, srcHeight * newHeight, srcHeight);
    assert srcHeight * newHeight == newHeight * srcHeight;
    RoundDivExact(newHeight, srcHeight);
  }

  /** Sum of the resized heights of the first k strips. */
  function TargetHeightSum(srcHeight: int, workers: int, newHeight: int, k: int): int
    requires srcHeight > 0 && workers >= 1 && 0 <= k <= workers
  {
    if k == 0 then 0
    else
      TargetHeightSum(srcHeight, workers, newHeight, k - 1)
      + StripTargetHeight(StripRows(srcHeight, workers, k - 1), newHeight, srcHeight)
  }

  /** Rows covered by the first k strips. */
  function RowsBefore(srcHeight: int, workers: int, k: int): int
    requires srcHeight > 0 && workers >= 1 && 0 <= k <= workers
  {
    if k == 0 then 0 else StripRows(srcHeight, workers, k - 1).end
  }

  /** Distribution of a product over a sum. */
  lemma Distribute(a: int, b: int, c: int)
    ensures (a + b) * c == a * c + b * c
  {
  }

  /** a * s <= b * s with s > 0 cancels to a <= b. */
  lemma CancelFactor(a: int, b: int, s: int)
    requires s > 0 && a * s <= b * s
    ensures a <= b
  {
    assert (a - b) * s == a * s - b * s;
    BelowOne(a - b, s);
  }

  /** One step of the drift induction, on plain integers. */
  lemma DriftStep(rowsBefore: int, rows: int, sumBefore: int, h: int, newHeight: int, srcHeight: int, k: int)
    requires -(k - 1) * srcHeight <= 2 * (rowsBefore * newHeight - sumBefore * srcHeight) <= (k - 1) * srcHeight
    requires -srcHeight <= 2 * (rows * newHeight - h * srcHeight) <= srcHeight
    ensures -k * srcHeight
      <= 2 * ((rowsBefore + rows) * newHeight - (sumBefore + h) * srcHeight)
      <= k * srcHeight
  {
    Distribute(rowsBefore, rows, newHeight);
    Distribute(sumBefore, h, srcHeight);
    Distribute(k - 1, 1, srcHeight);
  }

  /** Rounding drift over the first k strips is at most half a pixel per strip. */
  lemma {:induction false} DriftPrefix(srcHeight: int, workers: int, newHeight: int, k: int)
    requires srcHeight > 0 && workers >= 1 && 0 <= k <= workers
    ensures -k * srcHeight
      <= 2 * (RowsBefore(srcHeight, workers, k) * newHeight
              - TargetHeightSum(srcHeight, workers, newHeight, k) * srcHeight)
      <= k * srcHeight
  {
    if k > 0 {
      DriftPrefix(srcHeight, workers, newHeight, k - 1);
      var rows := StripRows(srcHeight, workers, k - 1);
      if k > 1 {
        StripsAbut(srcHeight, workers, k - 2);
      }
      DriftStep(RowsBefore(srcHeight, workers, k - 1), rows.Rows(),
        TargetHeightSum(srcHeight, workers, newHeight, k - 1),
        StripTargetHeight(rows, newHeight, srcHeight), newHeight, srcHeight, k);
    }
  }

  /**
   * The resized strips add up to newHeight give or take workers / 2 rows:
   * each strip is rounded on its own, so the total drifts by at most half a
   * pixel per strip.
   */
  lemma StripHeightDrift(srcHeight: int, workers: int, newHeight: int)
    requires srcHeight > 0 && workers >= 1
    ensures -workers <= 2 * (TargetHeightSum(srcHeight, workers, newHeight, workers) - newHeight) <= workers
  {
    DriftPrefix(srcHeight, workers, newHeight, workers);
    assert RowsBefore(srcHeight, workers, workers) == srcHeight;
    DriftCancel(TargetHeightSum(srcHeight, workers, newHeight, workers), newHeight, srcHeight, workers);
  }

  /** The whole-image drift bound divided through by srcHeight, on plain integers. */
  lemma DriftCancel(total: int, newHeight: int, srcHeight: int, workers: int)
    requires srcHeight > 0
    requires -workers * srcHeight <= 2 * (srcHeight * newHeight - total * srcHeight) <= workers * srcHeight
    ensures -workers <= 2 * (total - newHeight) <= workers
  {
    var e := 2 * (total - newHeight);
    assert 2 * (srcHeight * newHeight - total * srcHeight) == -(e * srcHeight) by {
      Distribute(total, -newHeight, srcHeight);
    }
    CancelFactor(e, workers, srcHeight);
    CancelFactor(-workers, e, srcHeight);
  }
}
