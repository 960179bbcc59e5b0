/**
 * The ResizeImage entry point: hex-decoded input bytes are decoded as an
 * image, the target width and height are parsed, the output size is fitted,
 * the strips are resampled and composited, and the result is re-encoded in
 * the input's own format. Every failure returns a message instead of an
 * image.
 *
 * Hex decoding, image decoding and the JPEG/PNG encoders are library codecs:
 * the hex-decoded input arrives as a value and the two codecs as functions.
 */
module Resize {
  import opened Common
  import opened Decimal
  import opened Fit
  import opened Partition
  import opened Resampler
  import opened Compositor

  type Pos = n: int | n > 0 witness 1

  /** A decoded image: its size and the format tag the decoder detected. */
  datatype Image = Image(width: Pos, height: Pos, format: string)

  /** The formats the resized image can be written in. */
  datatype ImageFormat = Jpeg | Png

  /** The format tag of each writable format. */
  function FormatTag(f: ImageFormat): string
  {
    match f
    case Jpeg => "jpeg"
    case Png => "png"
  }

  /** Format dispatch: only "jpeg" and "png" are written, each in its own format. */
  function FormatOf(tag: string): (f: Option<ImageFormat>)
    ensures f == Some(Jpeg) <==> tag == "jpeg"
    ensures f == Some(Png) <==> tag == "png"
    ensures f.Some? ==> FormatTag(f.value) == tag
  {
    if tag == "jpeg" then Some(Jpeg)
    else if tag == "png" then Some(Png)
    else None
  }

  datatype Axis = X | Y

  /** The failures of ResizeImage, in the order it checks for them. */
  datatype ResizeError =
    | HexDecodeFailed(detail: string)
    | ImageDecodeFailed(detail: string)
    | ConvertFailed(axis: Axis)
    | UnsupportedFormat(format: string)
    | EncodeFailed(detail: string)

  /**
   * The text returned for a failure. None starts with a lower-case hex
   * digit, so a caller can tell it from the hex-encoded image of a success.
   */
  function Message(e: ResizeError): (m: string)
    ensures |m| > 0 && m[0] !in "0123456789abcdef"
  {
    match e
    case HexDecodeFailed(detail) => "Failed to decode hex string: " + detail
    case ImageDecodeFailed(detail) => "Failed to decode image: " + detail
    case ConvertFailed(X) => "Failed to convert 'x' to int: "
    case ConvertFailed(Y) => "Failed to convert 'y' to int: "
    case UnsupportedFormat(format) => "Unsupported image format: " + format
    case EncodeFailed(detail) => "Failed to encode resized image: " + detail
  }

  /** The result of ResizeImage: the encoded image bytes, or a failure. */
  datatype Response = Encoded(data: seq<uint8>) | Failed(error: ResizeError)

  /** The canvas ResizeImage hands to the encoder. */
  function ResizedCanvas(img: Image, x: int, y: int, workers: int): (c: Canvas)
    requires workers >= 1
    ensures Size(c.width, c.height) == CoverFit(img.width, img.height, x, y)
    ensures c.width >= x && c.height >= y
    ensures KeepsAspect(img.width, img.height, Size(c.width, c.height))
    ensures |c.pasted| == workers
    // the strips end within workers / 2 rows of the bottom of the canvas
    ensures -workers <= 2 * (c.pasted[workers - 1].y + c.pasted[workers - 1].strip.height - c.height) <= workers
  {
    var size := CoverFit(img.width, img.height, x, y);
    CoverFitCovers(img.width, img.height, x, y);
    var job := ResizeJob(img.width, img.height, workers, size.width, size.height);
    var c := Layout(size.width, size.height, PlannedStrips(job));
    LayoutOffsets(job, workers - 1);
    StripHeightDrift(img.height, workers, size.height);
    c
  }

  /** In the layout of the planned strips, strip k sits at the total resized height of strips 0..k-1. */
  lemma {:induction false} LayoutOffsets(job: ResizeJob, k: int)
    requires job.Valid() && 0 <= k < job.workers
    ensures Layout(job.newWidth, job.newHeight, PlannedStrips(job)).pasted[k].y
      == TargetHeightSum(job.srcHeight, job.workers, job.newHeight, k)
  {
    if k > 0 {
      LayoutOffsets(job, k - 1);
    }
  }

  /**
   * With a non-negative target height, each canvas row above the bottom of
   * the last strip is painted by exactly one strip; rows below it keep the
   * transparent background.
   */
  lemma ResizedCanvasTiles(img: Image, x: int, y: int, workers: int, row: int)
    requires workers >= 1 && y >= 0 && 0 <= row
    ensures var c := ResizedCanvas(img, x, y, workers);
      var bottom := c.pasted[workers - 1].y + c.pasted[workers - 1].strip.height;
      (row < bottom ==> exists k :: 0 <= k < workers && Covers(c, k, row))
      && (forall k1, k2 :: 0 <= k1 < workers && 0 <= k2 < workers && Covers(c, k1, row) && Covers(c, k2, row) ==> k1 == k2)
      && (row >= bottom ==> forall k :: 0 <= k < workers ==> !Covers(c, k, row))
  {
    var size := CoverFit(img.width, img.height, x, y);
    var job := ResizeJob(img.width, img.height, workers, size.width, size.height);
    var strips := PlannedStrips(job);
    forall k | 0 <= k < workers
      ensures strips[k].height >= 0
    {
      StripTargetHeightBounds(strips[k].rows, size.height, img.height);
    }
    LayoutTiles(size.width, size.height, strips, row);
    LayoutBottom(size.width, size.height, strips);
  }

  /** The last strip of a layout ends at the total height of all strips. */
  lemma {:induction false} LayoutBottom(width: int, height: int, strips: seq<Strip>)
    requires |strips| > 0
    ensures var c := Layout(width, height, strips);
      c.pasted[|strips| - 1].y + strips[|strips| - 1].height == HeightSum(strips)
  {
    var n := |strips|;
    if n > 1 {
      var init := strips[..n - 1];
      LayoutBottom(width, height, init);
      var c, c0 := Layout(width, height, strips), Layout(width, height, init);
      assert c.pasted[n - 2] == c0.pasted[n - 2] by {
        LayoutPrefix(width, height, strips, n - 2);
      }
    }
  }

  /** Appending strips does not move the ones already placed. */
  lemma {:induction false} LayoutPrefix(width: int, height: int, strips: seq<Strip>, k: int)
    requires 0 <= k < |strips| - 1
    ensures Layout(width, height, strips).pasted[k] == Layout(width, height, strips[..|strips| - 1]).pasted[k]
  {
    if k > 0 {
      LayoutPrefix(width, height, strips, k - 1);
    }
  }

  /**
   * The strips can end well away from the bottom of the canvas: a 10x10
   * source fitted to a 5x5 box on ten workers is cut into ten one-row
   * strips, each resized to half a row rounded up to one, so together they
   * reach row 10 of a canvas 5 rows tall. The workers / 2 bound of
   * ResizedCanvas is reached.
   */
  lemma StripsOverrunCanvas()
    ensures var c := ResizedCanvas(Image(10, 10, "png"), 5, 5, 10);
      c.height == 5 && c.pasted[9].y + c.pasted[9].strip.height == 10
  {
    var size := CoverFit(10, 10, 5, 5);
    assert FirstPass(10, 10, 5, 5) == Size(5, 5);
    assert size == Size(5, 5);
    var job := ResizeJob(10, 10, 10, 5, 5);
    forall i | 0 <= i < 10
      ensures StripTargetHeight(StripRows(10, 10, i), 5, 10) == 1
    {
      assert StripRows(10, 10, i).Rows() == 1;
    }
    forall k | 0 <= k <= 10
      ensures TargetHeightSum(10, 10, 5, k) == k
    {
      var j := 0;
      while j < k
        invariant 0 <= j <= k && TargetHeightSum(10, 10, 5, j) == j
      {
        j := j + 1;
      }
    }
    LayoutOffsets(job, 9);
  }

  /**
   * ResizeImage. Failures are reported in this order: hex decoding, image
   * decoding, parsing x, parsing y; none of these resamples anything. Past
   * them the strips are always resampled and composited, and only then is
   * the format checked: "jpeg" and "png" are encoded in that format, any
   * other tag is reported as unsupported.
   */
  method ResizeImage(
    hexDecoded: Result<seq<uint8>, string>,
    decode: seq<uint8> -> Result<Image, string>,
    x: string, y: string,
    workers: int,
    encode: (ImageFormat, Canvas) -> Result<seq<uint8>, string>)
    returns (response: Response, ghost resampled: bool)
    requires workers >= 1
    ensures hexDecoded.Failure? ==>
      response == Failed(HexDecodeFailed(hexDecoded.error))
    ensures hexDecoded.Success? && decode(hexDecoded.value).Failure? ==>
      response == Failed(ImageDecodeFailed(decode(hexDecoded.value).error))
    ensures hexDecoded.Success? && decode(hexDecoded.value).Success? && Atoi(x).None? ==>
      response == Failed(ConvertFailed(X))
    ensures hexDecoded.Success? && decode(hexDecoded.value).Success? && Atoi(x).Some? && Atoi(y).None? ==>
      response == Failed(ConvertFailed(Y))
    // the strips are resampled exactly when every input check has passed
    ensures resampled <==>
      hexDecoded.Success? && decode(hexDecoded.value).Success? && Atoi(x).Some? && Atoi(y).Some?
    ensures hexDecoded.Success? && decode(hexDecoded.value).Success? && Atoi(x).Some? && Atoi(y).Some? ==>
      var img := decode(hexDecoded.value).value;
      var canvas := ResizedCanvas(img, Atoi(x).value, Atoi(y).value, workers);
      response ==
        match FormatOf(img.format)
        case None => Failed(UnsupportedFormat(img.format))
        case Some(f) =>
          match encode(f, canvas)
          case Failure(e) => Failed(EncodeFailed(e))
          case Success(data) => Encoded(data)
  {
    resampled := false;
    if hexDecoded.Failure? {
      return Failed(HexDecodeFailed(hexDecoded.error)), false;
    }
    var decoded := decode(hexDecoded.value);
    if decoded.Failure? {
      return Failed(ImageDecodeFailed(decoded.error)), false;
    }
    var img := decoded.value;
    var xInt := Atoi(x);
    if xInt.None? {
      return Failed(ConvertFailed(X)), false;
    }
    var yInt := Atoi(y);
    if yInt.None? {
      return Failed(ConvertFailed(Y)), false;
    }

    var size := CoverFit(img.width, img.height, xInt.value, yInt.value);
    var job := ResizeJob(img.width, img.height, workers, size.width, size.height);
    var strips := ResampleStrips(job);
    resampled := true;
    var canvas := Composite(size.width, size.height, strips);

    match FormatOf(img.format)
    case None =>
      response := Failed(UnsupportedFormat(img.format));
    case Some(f) =>
      var encoded := encode(f, canvas);
      response := match encoded
        case Failure(e) => Failed(EncodeFailed(e))
        case Success(data) => Encoded(data);
  }
}
