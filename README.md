# Image resize geometry and ICMP echo checksum

`main.go` is a cgo library that exports a handful of helpers to C. This project models its two parts that are self-contained logic.

- **`ResizeImage`.** It takes a hex-encoded image and a target box `(x, y)`. It decodes the image and computes an output size that keeps the aspect ratio and covers the box. It cuts the source into one horizontal strip per CPU and resizes the strips in parallel. It pastes them onto a transparent canvas one below the other, then re-encodes the canvas as JPEG or PNG, whichever the input was.
  - The model covers the size calculation, the strip partition, the per-strip target heights, the paste offsets, the format dispatch, and the order in which failures are reported.
  - Pixels are not modelled. A strip is its rectangle and its size.
- **The ping helper.** It builds an ICMP echo request header and encodes it into 8 bytes. It computes the Internet checksum of those bytes (RFC 1071, section 4.1), writes the checksum into the header, and encodes the header again.

Modules, one file each:

| module | file | what it holds |
|---|---|---|
| `Common` | `common.dfy` | `Option`, `Result`, and Go's `uint8`/`uint16`/`uint32` |
| `Rounding` | `rounding.dfy` | `RoundDiv`: an exact quotient rounded half away from zero, which stands in for `math.Round` on floats |
| `Fit` | `fit.dfy` | the cover-fit calculation: the first pass, then the two corrective checks |
| `Partition` | `partition.dfy` | the strip row ranges, the per-strip target heights, and the drift bound on their total |
| `Resampler` | `resampler.dfy` | the fan-out: slot `i` receives strip `i`, as a sequential loop over an array |
| `Compositor` | `compositor.dfy` | the paste loop: strip `k` is placed at the running sum of the heights before it |
| `Decimal` | `decimal.dfy` | Go's `strconv.Atoi` on a 64-bit platform |
| `Resize` | `resize.dfy` | the `ResizeImage` entry point: failure order, format dispatch, the resulting canvas |
| `Icmp` | `icmp.dfy` | `ICMPHeader`, `encodeICMPHeader`, `checksum`, and the echo request the ping helper sends |

Where the source and its documented behaviour disagree, the model follows the source.
- `ResizeImage` parses `x` and `y` after decoding the image, not before.
- It accepts zero and negative targets.
- The resized strips do not fill the canvas to within one row. Each strip height is rounded on its own, so the total can miss the canvas height by up to `N/2` rows for `N` strips. `Resize.StripsOverrunCanvas` gives a case where the strips reach row 10 of a canvas 5 rows tall, so the lower half of the resized picture is cut off.
- `encodeICMPHeader` does not use RFC 792's Echo layout. It leaves octets 2-3 zero, puts the checksum in 4-5 and the identifier in 6-7, and never writes the sequence number. `Icmp.ChecksumVerifies` shows that the re-encoded message still has checksum 0, because the Internet checksum sums 16-bit words wherever they sit.

## Model

| member | source | states |
|---|---|---|
| Rounding.RoundDiv | main.go:65 | the result is within half a unit of n / d; ties go away from zero (`math.Round`) |
| Rounding.RoundDivMonotone | main.go:98 | rounding a larger quotient never gives a smaller result |
| Rounding.RoundDivExact | main.go:98 | an exact quotient rounds to itself |
| Fit.FirstPass | main.go:62-69 | a landscape source (`srcW > srcH`, i.e. aspect ratio > 1) takes `newWidth == x`; any other source takes `newHeight == y`; the other side keeps the aspect ratio to within half a pixel |
| Fit.CorrectWidth | main.go:71-74 | after the first corrective check, `newWidth >= x`, and the aspect ratio is still kept |
| Fit.CorrectHeight | main.go:75-78 | after the second corrective check, `newHeight >= y`, and the aspect ratio is still kept |
| Fit.CoverFit | main.go:62-78 | the output height covers `y` and the output keeps the aspect ratio |
| Fit.CoverFitCovers | main.go:62-78 | for positive source sizes and any integer targets, the output covers the box on both axes |
| Fit.CorrectionsExclusive | main.go:71-78 | once the width has been corrected, the second check never fires; the output is `(x, round(x * srcH / srcW))` |
| Fit.CoverFitCases | main.go:62-78 | closed form of the output size for each orientation, and whether its correction fires |
| Fit.ShortWidthMeansTallHeight | main.go:71-78 | if the width for height `h` is short of `x`, the height for width `x` is at least `h` |
| Fit.ShortHeightMeansWideWidth | main.go:71-78 | if the height for width `w` is short of `y`, the width for height `y` is at least `w` |
| Fit.CoverFitOwnSize | main.go:62-78 | asking for the source's own size returns it unchanged |
| Fit.LandscapeExample | main.go:62-78 | a 1000x500 source with a 300x300 box gives 600x300 |
| Fit.PortraitExample | main.go:62-78 | a 400x800 source with a 200x200 box gives 200x400 |
| Partition.StripRows | main.go:84-95 | strip `i` lies within `[0, srcHeight)`; strip 0 starts at 0; strip `i < N-1` is `[i*h, i*h + h)` with `h = srcHeight / N`; the last strip ends at `srcHeight` |
| Partition.StripsAbut | main.go:91-95 | strip `i` ends exactly where strip `i+1` starts: no gap and no overlap |
| Partition.StripsOrdered | main.go:91-95 | an earlier strip ends at or before a later one starts |
| Partition.RowOwner | main.go:91-95 | every source row lies in some strip |
| Partition.PartitionExactCover | main.go:91-95 | a row lies in strip `i` if and only if `i` is its owner, so the strips partition `[0, srcHeight)` |
| Partition.FewRowsPartition | main.go:84-95 | with fewer rows than strips, every strip but the last is empty and the last holds every row |
| Partition.StripTargetHeight | main.go:98 | a strip's resized height is within half a pixel of `rows * newHeight / srcHeight` |
| Partition.StripTargetHeightBounds | main.go:98 | a strip's resized height lies between 0 and `newHeight` |
| Partition.DriftPrefix | main.go:98 | the resized heights of the first `k` strips drift from their exact share by at most `k/2` rows |
| Partition.StripHeightDrift | main.go:98 | all the resized heights add up to `newHeight`, give or take `N/2` rows |
| Resampler.PlannedStrip | main.go:91-100 | worker `i` crops strip `i` and resizes it to the output width and its proportional height |
| Resampler.PlannedStrips | main.go:85-104 | `N` slots whose strips abut in row order, from row 0 to `srcHeight` |
| Resampler.ResampleStrips | main.go:85-104 | the slot array filled by the fan-out is exactly the planned strips, in index order |
| Resampler.CompletedSlot | main.go:100 | a slot holds its worker's strip once that worker has finished, and is untouched before |
| Resampler.StripsPlacedByIndex | main.go:87-104 | whatever order the workers finish in, once all have finished the slots hold the strips in index order |
| Compositor.Layout | main.go:106-111 | strip `k` is pasted at `x = 0`; the first at `y = 0`; each next strip at the previous `y` plus the previous strip's height |
| Compositor.Composite | main.go:106-111 | the paste loop with its running `currentY` produces exactly that layout, on a `newWidth x newHeight` canvas |
| Compositor.LayoutOrdered | main.go:107-111 | with non-negative heights, a later strip starts at or below the end of an earlier one |
| Compositor.LayoutDisjoint | main.go:107-111 | no canvas row is covered by two strips |
| Compositor.LayoutCovers | main.go:107-111 | every row above the total strip height is covered by some strip, and none below it is |
| Compositor.LayoutTiles | main.go:107-111 | each row above the total strip height is covered by exactly one strip; rows below it are covered by none |
| Decimal.Atoi | main.go:52-60 | success only for an optional sign followed by at least one decimal digit, with the value in int64 range; an unsigned digit string is read as its value when in range and refused otherwise |
| Decimal.AtoiSigned | main.go:52-60 | no sign, `+` or `-` followed by digits reads as the digits' value, negated for `-`, when that fits in int64, and is refused otherwise |
| Decimal.AtoiItoa | main.go:52-60 | every int64 written in decimal reads back as itself |
| Decimal.DigitsRoundTrip | main.go:52-60 | reading the decimal digits of `n` gives `n` |
| Decimal.AtoiRejectsText | main.go:52-60 | empty text, a lone sign, letters and trailing units are rejected |
| Resize.FormatOf | main.go:116-122 | `jpeg` and `png` are accepted, each as its own format, in both directions of the if-and-only-if; every other tag is refused |
| Resize.Message | main.go:40-125 | every failure text is non-empty and its first character is not a lowercase hex digit, so it cannot be mistaken for the hex-encoded image of a success |
| Resize.ResizedCanvas | main.go:62-111 | the canvas is the cover-fit size, covers the box, keeps the aspect ratio, holds one strip per worker, and the last strip ends within `N/2` rows of the canvas bottom |
| Resize.LayoutOffsets | main.go:106-111 | strip `k` is pasted at the sum of the resized heights of strips `0..k-1` |
| Resize.ResizedCanvasTiles | main.go:106-111 | with a non-negative target height, every canvas row above the bottom of the last strip is painted by exactly one strip, and rows below it keep the transparent background |
| Resize.LayoutBottom | main.go:106-111 | the last strip ends at the total height of all strips |
| Resize.LayoutPrefix | main.go:106-111 | appending strips does not move the strips already placed |
| Resize.StripsOverrunCanvas | main.go:84-111 | a 10x10 source fitted to a 5x5 box with 10 strips gets a 5-row canvas, yet its strips end at row 10: the `N/2` drift bound is reached |
| Resize.ResizeImage | main.go:39-131 | failures are reported in the order hex decode, image decode, `x`, `y`, with no resampling before any of them; after them the strips are resampled and composited, then `jpeg`/`png` are encoded in that format and any other tag is reported as unsupported; an encoder failure is reported as such |
| Icmp.HeaderRoundTrip | main.go:473-489 | the encoding is 8 octets, octets 2-3 are zero, and reading them back gives every field except the sequence number, which is dropped |
| Icmp.EncodeHeader | main.go:473-489 | the new buffer holds exactly that encoding, and the error is always nil |
| Icmp.ChecksumIsOnesComplement | main.go:492-512 | when the word sum does not overflow 32 bits, the checksum is the complement of RFC 1071's end-around-carry one's complement sum |
| Icmp.OnesSumIsFold | main.go:507-509 | adding words with end-around carry gives the fold of their plain sum |
| Icmp.OnesAddFold | main.go:507-509 | one end-around-carry addition keeps the fold |
| Icmp.FoldStep | main.go:507-509 | one folding step keeps the fold and strictly shrinks the sum, so the loop terminates |
| Icmp.FoldCarries | main.go:507-509 | the folding loop ends with the fold of the sum, which is at most 0xffff |
| Icmp.WordsFromSum | main.go:497-505 | summing two octets at a time from index `i`, with an odd last octet as a high byte, equals the sum of the big-endian words of the suffix |
| Icmp.Checksum | main.go:492-512 | the loop computes the Internet checksum of the buffer: big-endian words, an odd last octet padded as a high byte, summed in a wrapping uint32, folded, complemented |
| Icmp.Wrap32Add | main.go:498 | wrapping the running uint32 sum before each addition does not change the wrapped total |
| Icmp.ZeroBufferChecksum | main.go:507-511 | an all-zero buffer has checksum 0xffff |
| Icmp.HeaderWordSum | main.go:473-489 | an encoded header's words add up to `Type<<8 + Code`, plus the checksum, plus the identifier |
| Icmp.HeaderChecksum | main.go:473-512 | the checksum of an encoded header, from its fields |
| Icmp.SealedTotal | main.go:441-446 | writing `c` into a zero checksum field adds `c` to the word sum |
| Icmp.FoldComplement | main.go:507-511 | adding to `s` the complement of its fold gives 0xffff, one's complement negative zero |
| Icmp.ChecksumOfSealedSum | main.go:441-446 | a sum with its own checksum added has checksum 0 |
| Icmp.ChecksumVerifies | main.go:436-446 | encoding a header with checksum 0, computing the checksum, and encoding again with it gives a message whose checksum is 0 |
| Icmp.EchoRequest | main.go:428-446 | the echo request sent is that re-encoded header: type 8, code 0, octets 2-3 zero, identifier `pid & 0xffff`, and its checksum is 0 |

## Left out

- Floating point: `math.Round(float64(...))` is modelled by exact rational rounding, half away from zero. float64 representation error is not modelled, and neither is float-to-int conversion of huge values.
- Zero-sized decoded images are not modelled. Their aspect ratio would be infinite or NaN in Go. The decoded width and height are positive.
- Hex decoding, `image.Decode` and the JPEG/PNG encoders are library codecs. The hex-decoded bytes arrive as a `Result` value, and decoding and encoding are function parameters. The final hex encoding of the output bytes is not modelled: a success is `Encoded(bytes)`.
- The error detail texts produced by the Go libraries are not modelled, including the text strconv appends after "Failed to convert 'x' to int: ".
- Pixel work (`imaging.Crop`, `imaging.Resize` with Lanczos, `imaging.New`, `imaging.Paste`) is not modelled.
  - A strip is its source row range, its width and its target height.
  - A resized strip is taken to be exactly the requested size. `imaging.Resize`'s handling of zero or negative sizes is not modelled. In particular, `imaging.Resize` gives a non-empty strip whose share rounds to 0 rows at least one row (for example a 1000x500 source fitted to a 1x1 box with 8 strips).
  - Clipping to the canvas is not modelled. `Paste` drops strip rows at or below the canvas height; `Compositor.LayoutTiles` and `Resize.ResizedCanvasTiles` state which rows the strips cover before that clipping.
- Resize.ResizedCanvasTiles: states coverage by strips of the modelled heights. Where `imaging.Resize` raises a 0-row share to 1 row (above), the real strips reach lower, and rows the lemma leaves as background are painted in the real program.
- Goroutines, `sync.WaitGroup` and `runtime.NumCPU()` are not modelled.
  - The number of strips is an input of at least 1.
  - The fan-out is a sequential loop. Each worker writes only its own slot, and `Resampler.StripsPlacedByIndex` shows that completion order does not matter.
- Go's `int` is taken to be unbounded in the size arithmetic: overflow of `x * srcH` and similar is not modelled. `Decimal.Atoi` does bound its results to int64.
- `Ping`/`Ping2`: the socket dial, write, read deadline and timing are not modelled. The encode-error checks after `encodeICMPHeader` cannot fire, because it always returns nil, so they are not modelled either. What is modelled is the message that gets written.
- Zip extraction, PDF and DOCX text, the network and OS queries (`Speedtest`, `ExternalIP`, `LocalIP`, `GetDefaultAdapterMacAddress`, `GetHostname`, `ResolveIP`), `CurrentUsername` and `HelloWorld`/`HelloWorld2` are not part of this model. They are I/O, OS calls and third-party parsers.
- Icmp.ChecksumIsOnesComplement: the RFC 1071 equivalence is stated only for word sums below 2^32. Go's uint32 accumulator wraps on longer buffers, and there the code's result is modelled as written (`Icmp.InternetChecksum` with `Wrap32`).
