/**
 * Strip fan-out of ResizeImage: worker i crops strip i of the source and
 * resizes it to the output width and its proportional height, storing the
 * result in its own slot i. The workers run as goroutines; each writes only
 * its own slot, so the model runs them as a sequential loop over i, and
 * StripsPlacedByIndex shows that any completion order fills the same slots.
 * Pixel resampling itself is not modelled: a strip is the crop rectangle
 * and the size it is resized to.
 */
module Resampler {
  import opened Partition

  /** The geometry the fan-out works with. */
  datatype ResizeJob = ResizeJob(srcWidth: int, srcHeight: int, workers: int, newWidth: int, newHeight: int)
  {
    predicate Valid()
    {
      srcHeight > 0 && workers >= 1
    }
  }

  /** A resized strip: its crop of the source rows (full source width) and its output size. */
  datatype Strip = Strip(rows: RowRange, width: int, height: int)

  /** What worker i produces. */
  function PlannedStrip(job: ResizeJob, i: int): (s: Strip)
    requires job.Valid() && 0 <= i < job.workers
    ensures s.rows == StripRows(job.srcHeight, job.workers, i)
    ensures s.width == job.newWidth
    // proportional share of the output height, within half a pixel
    ensures -job.srcHeight <= 2 * (s.rows.Rows() * job.newHeight - s.height * job.srcHeight) <= job.srcHeight
  {
    var rows := StripRows(job.srcHeight, job.workers, i);
    Strip(rows, job.newWidth, StripTargetHeight(rows, job.newHeight, job.srcHeight))
  }

  /** The slots once every worker has finished, in index order. */
  function PlannedStrips(job: ResizeJob): (strips: seq<Strip>)
    requires job.Valid()
    ensures |strips| == job.workers
    ensures strips[0].rows.start == 0 && strips[job.workers - 1].rows.end == job.srcHeight
    // strips abut in source-row order
    ensures forall i :: 0 <= i < job.workers - 1 ==> strips[i].rows.end == strips[i + 1].rows.start
  {
    var strips := seq(job.workers, i requires 0 <= i < job.workers => PlannedStrip(job, i));
    forall i | 0 <= i < job.workers - 1
      ensures strips[i].rows.end == strips[i + 1].rows.start
    {
      StripsAbut(job.srcHeight, job.workers, i);
    }
    strips
  }

  /** Fan-out and join: slot i receives worker i's strip. */
  method ResampleStrips(job: ResizeJob) returns (strips: array<Strip>)
    requires job.Valid()
    ensures fresh(strips)
    ensures strips[..] == PlannedStrips(job)
  {
    strips := new Strip[job.workers];
    for i := 0 to job.workers
      invariant forall k :: 0 <= k < i ==> strips[k] == PlannedStrip(job, k)
    {
      var rows := StripRows(job.srcHeight, job.workers, i);
      var height := StripTargetHeight(rows, job.newHeight, job.srcHeight);
      strips[i] := Strip(rows, job.newWidth, height);
    }
  }

  /** Slots after the workers in `order` have completed, one after another, each writing its own slot. */
  function Completed(job: ResizeJob, slots: seq<Strip>, order: seq<int>): (r: seq<Strip>)
    requires job.Valid() && |slots| == job.workers
    requires forall j :: 0 <= j < |order| ==> 0 <= order[j] < job.workers
    ensures |r| == job.workers
  {
    if order == [] then slots
    else
      var i := order[|order| - 1];
      Completed(job, slots, order[..|order| - 1])[i := PlannedStrip(job, i)]
  }

  /** A slot holds its worker's strip once that worker has completed, and is untouched before. */
  lemma {:induction false} CompletedSlot(job: ResizeJob, slots: seq<Strip>, order: seq<int>, k: int)
    requires job.Valid() && |slots| == job.workers
    requires forall j :: 0 <= j < |order| ==> 0 <= order[j] < job.workers
    requires 0 <= k < job.workers
    ensures Completed(job, slots, order)[k] == if k in order then PlannedStrip(job, k) else slots[k]
  {
    if order != [] {
      var prefix := order[..|order| - 1];
      CompletedSlot(job, slots, prefix, k);
      assert order == prefix + [order[|order| - 1]];
    }
  }

  /**
   * Placement is by index, not by completion time: whatever order the
   * workers finish in, once all have finished the slots are the strips in
   * index order.
   */
  lemma StripsPlacedByIndex(job: ResizeJob, slots: seq<Strip>, order: seq<int>)
    requires job.Valid() && |slots| == job.workers
    requires forall j :: 0 <= j < |order| ==> 0 <= order[j] < job.workers
    requires forall i :: 0 <= i < job.workers ==> i in order
    ensures Completed(job, slots, order) == PlannedStrips(job)
  {
    forall k | 0 <= k < job.workers
      ensures Completed(job, slots, order)[k] == PlannedStrips(job)[k]
    {
      CompletedSlot(job, slots, order, k);
    }
  }
}
