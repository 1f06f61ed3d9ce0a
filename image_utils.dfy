/** The resize stage of `src/utils/imageUtils.ts`: the canvas size chosen for an
    oversized image, and the file handed back once the canvas has been encoded. */
module ImageUtils {
  import opened Wrappers
  import opened Media
  import JsMath

  /** The default bound on the longer side, in pixels. */
  const DefaultMaxSize: nat := 2048

  /** A width and height in pixels, as reported by a decoded `Image`. */
  datatype Dims = Dims(width: nat, height: nat)

  /** The target size of the canvas for an image of natural size `d`. Only an image
      whose width is strictly larger than its height and than `maxSize` is clamped by
      width; otherwise only an image taller than `maxSize` is clamped by height; the
      other side is scaled by the same factor and rounded with `Math.round`. */
  function TargetDims(d: Dims, maxSize: nat): (r: Dims)
    ensures r.width <= maxSize && r.height <= maxSize
    ensures r.width <= d.width && r.height <= d.height
  {
    if d.width > d.height && d.width > maxSize then
      ScaledSideBounds(d.height, d.width, maxSize);
      Dims(maxSize, JsMath.RoundDiv(d.height * maxSize, d.width))
    else if d.height > maxSize then
      ScaledSideBounds(d.width, d.height, maxSize);
      Dims(JsMath.RoundDiv(d.width * maxSize, d.height), maxSize)
    else
      d
  }

  /** Scaling `other` by `maxSize / clamped`, where `clamped` is the larger side and
      exceeds `maxSize`, gives at most `maxSize` and at most `other`. */
  lemma ScaledSideBounds(other: nat, clamped: nat, maxSize: nat)
    requires other <= clamped && clamped > maxSize
    ensures JsMath.RoundDiv(other * maxSize, clamped) <= maxSize
    ensures JsMath.RoundDiv(other * maxSize, clamped) <= other
  {
    JsMath.MultiplyAtLeast(maxSize, other, clamped);
    JsMath.MultiplyAtLeast(other, maxSize, clamped);
    JsMath.RoundDivAtMost(other * maxSize, clamped, maxSize);
    JsMath.RoundDivAtMost(other * maxSize, clamped, other);
  }

  /** An image already within the bound on both sides keeps its size. */
  lemma WithinBoundUnchanged(d: Dims, maxSize: nat)
    requires d.width <= maxSize && d.height <= maxSize
    ensures TargetDims(d, maxSize) == d
  {
  }

  /** A wide oversized image gets width `maxSize`; its height is the nearest integer
      to `height * maxSize / width` (halves rounded up). */
  lemma WideImageClampedByWidth(d: Dims, maxSize: nat)
    requires d.width > d.height && d.width > maxSize
    ensures TargetDims(d, maxSize).width == maxSize
    ensures var h := TargetDims(d, maxSize).height;
            d.width * (2 * h - 1) <= 2 * d.height * maxSize < d.width * (2 * h + 1)
  {
  }

  /** Every other oversized image, a square one included since the width test is
      strict, gets height `maxSize`; its width is the nearest integer to
      `width * maxSize / height`. */
  lemma TallImageClampedByHeight(d: Dims, maxSize: nat)
    requires !(d.width > d.height && d.width > maxSize) && d.height > maxSize
    ensures TargetDims(d, maxSize).height == maxSize
    ensures var w := TargetDims(d, maxSize).width;
            d.height * (2 * w - 1) <= 2 * d.width * maxSize < d.height * (2 * w + 1)
  {
  }

  /** When the image is larger than the bound on some side, the longer side of the
      result is exactly `maxSize`. */
  lemma OversizedReachesBound(d: Dims, maxSize: nat)
    requires d.width > maxSize || d.height > maxSize
    ensures var r := TargetDims(d, maxSize);
            (r.width == maxSize && r.height <= maxSize) || (r.height == maxSize && r.width <= maxSize)
  {
  }

  /** For a fixed width, a larger natural height never gives a smaller target height,
      whichever branch each of the two images takes. */
  lemma ScaledSideMonotone(w: nat, h1: nat, h2: nat, maxSize: nat)
    requires h1 <= h2
    ensures TargetDims(Dims(w, h1), maxSize).height <= TargetDims(Dims(w, h2), maxSize).height
  {
    if w > h2 && w > maxSize {
      JsMath.RoundDivMonotone(h1 * maxSize, h2 * maxSize, w);
    }
  }

  /** 4000x2000 at the default bound becomes 2048x1024; 800x600 is left alone. */
  lemma DefaultBoundExamples()
    ensures TargetDims(Dims(4000, 2000), DefaultMaxSize) == Dims(2048, 1024)
    ensures TargetDims(Dims(800, 600), DefaultMaxSize) == Dims(800, 600)
    ensures TargetDims(Dims(3000, 3000), DefaultMaxSize) == Dims(2048, 2048)
  {
  }

  /** Nothing keeps the scaled side positive: a 10000x1 strip gets height 0. */
  lemma ThinStripRoundsToZero()
    ensures TargetDims(Dims(10000, 1), DefaultMaxSize) == Dims(2048, 0)
  {
  }

  /** The file `resizeImage` resolves with. `encode` stands for drawing the image on a
      canvas of the given size and `canvas.toBlob` in the given MIME type: `None` is a
      null blob. A blob becomes a new file with the original name and type; without
      one the original file itself is returned. */
  function ResizeImage(file: ImageFile, natural: Dims, maxSize: nat,
                       encode: (Dims, string) -> Option<seq<Byte>>): (r: ImageFile)
    ensures r.name == file.name && r.mimeType == file.mimeType
    ensures encode(TargetDims(natural, maxSize), file.mimeType).None? ==> r == file
    ensures encode(TargetDims(natural, maxSize), file.mimeType).Some? ==>
              r.data == encode(TargetDims(natural, maxSize), file.mimeType).value
  {
    match encode(TargetDims(natural, maxSize), file.mimeType)
    case Some(blob) => ImageFile(file.name, file.mimeType, blob)
    case None => file
  }
}
