/**
 * The background whitening of mask_image: an inclusive HSV range mask, the
 * masked copy of the colour image (cv2.bitwise_and), and the in-place
 * overwrite of every all-zero pixel with white. The RGB to HSV conversion is
 * OpenCV's and enters as the per-pixel function toHsv.
 */
module Segmentation {
  import opened Pixels

  /** One configured HSV bound (color.lower or color.upper); its values need not be 8-bit. */
  datatype Bound = Bound(c0: int, c1: int, c2: int)

  /** cv2.inRange on one pixel: every channel within [lower, upper], both ends included. */
  predicate InRange(hsv: Pixel, lower: Bound, upper: Bound)
    // only a bound that is not inverted and meets [0, 255] on every channel can match
    ensures InRange(hsv, lower, upper) ==>
      && lower.c0 <= upper.c0 && lower.c1 <= upper.c1 && lower.c2 <= upper.c2
      && lower.c0 <= 255 && lower.c1 <= 255 && lower.c2 <= 255
      && 0 <= upper.c0 && 0 <= upper.c1 && 0 <= upper.c2
  {
    && lower.c0 <= hsv.c0 <= upper.c0
    && lower.c1 <= hsv.c1 <= upper.c1
    && lower.c2 <= hsv.c2 <= upper.c2
  }

  /** cv2.bitwise_and(image, image, mask=mask) on one pixel: kept where the mask is set, zero elsewhere. */
  function KeepMasked(p: Pixel, masked: bool): (q: Pixel)
    ensures masked ==> q == p
    ensures q == p || q == Black
    ensures q != Black ==> masked && q == p
  {
    if masked then p else Black
  }

  /** The overwrite on line 190 for one pixel: an all-zero pixel becomes white. */
  function Whiten(p: Pixel): (q: Pixel)
    ensures q != Black
    ensures p != Black ==> q == p
    ensures q == p || q == White
  {
    if p == Black then White else p
  }

  /** Whitening a second time changes nothing: no black pixel is left to overwrite. */
  lemma WhitenIdempotent(p: Pixel)
    ensures Whiten(Whiten(p)) == Whiten(p)
  {
  }

  /**
   * The pixel mask_image returns: the original colour when its HSV value is
   * in range and it is not black, white otherwise (an in-range black pixel
   * is zero after masking and is whitened like the background).
   */
  function Segment(p: Pixel, toHsv: Pixel -> Pixel, lower: Bound, upper: Bound): (q: Pixel)
    ensures InRange(toHsv(p), lower, upper) && p != Black ==> q == p
    ensures !(InRange(toHsv(p), lower, upper) && p != Black) ==> q == White
  {
    Whiten(KeepMasked(p, InRange(toHsv(p), lower, upper)))
  }

  /** mask_image on a whole grid, pixel by pixel. */
  function SegmentGrid(g: seq<seq<Pixel>>, toHsv: Pixel -> Pixel, lower: Bound, upper: Bound): (s: seq<seq<Pixel>>)
    ensures |s| == |g|
    ensures forall i :: 0 <= i < |g| ==> |s[i]| == |g[i]|
    ensures forall i, j :: 0 <= i < |g| && 0 <= j < |g[i]| ==> s[i][j] == Segment(g[i][j], toHsv, lower, upper)
  {
    seq(|g|, i requires 0 <= i < |g| =>
      seq(|g[i]|, j requires 0 <= j < |g[i]| => Segment(g[i][j], toHsv, lower, upper)))
  }

  /** A segmented grid keeps its dimensions and holds no black pixel. */
  lemma SegmentGridShape(g: seq<seq<Pixel>>, toHsv: Pixel -> Pixel, lower: Bound, upper: Bound)
    requires IsGrid(g)
    ensures var s := SegmentGrid(g, toHsv, lower, upper);
      IsGrid(s) && |s| == |g| && Width(s) == Width(g) &&
      forall i, j :: 0 <= i < |s| && 0 <= j < |s[i]| ==> s[i][j] != Black
  {
  }

  /**
   * Segmenting a segmented grid again with the same bounds changes nothing:
   * a kept pixel is still in range and not black, and white stays white
   * whether or not it is in range.
   */
  lemma SegmentGridIdempotent(g: seq<seq<Pixel>>, toHsv: Pixel -> Pixel, lower: Bound, upper: Bound)
    ensures SegmentGrid(SegmentGrid(g, toHsv, lower, upper), toHsv, lower, upper) == SegmentGrid(g, toHsv, lower, upper)
  {
    var s := SegmentGrid(g, toHsv, lower, upper);
    var t := SegmentGrid(s, toHsv, lower, upper);
    forall i | 0 <= i < |s|
      ensures t[i] == s[i]
    {
      assert |t[i]| == |s[i]|;
    }
  }

  /** The overwrite on line 190, in place: every all-zero pixel of result becomes white. */
  method WhitenBlack(result: array2<Pixel>)
    modifies result
    ensures forall i, j :: 0 <= i < result.Length0 && 0 <= j < result.Length1 ==>
      result[i, j] == Whiten(old(result[i, j]))
  {
    forall i, j | 0 <= i < result.Length0 && 0 <= j < result.Length1 && result[i, j] == Black {
      result[i, j] := White;
    }
  }

  /**
   * mask_image from the colour image onward: a new array holding the masked
   * copy, then whitened in place; it equals the segmented grid.
   */
  method MaskImage(image: seq<seq<Pixel>>, toHsv: Pixel -> Pixel, lower: Bound, upper: Bound)
    returns (result: array2<Pixel>)
    requires IsGrid(image)
    ensures fresh(result)
    ensures result.Length0 == |image| && result.Length1 == Width(image)
    ensures forall i, j :: 0 <= i < result.Length0 && 0 <= j < result.Length1 ==>
      result[i, j] == SegmentGrid(image, toHsv, lower, upper)[i][j]
  {
    result := new Pixel[|image|, Width(image)];
    forall i, j | 0 <= i < |image| && 0 <= j < Width(image) {
      result[i, j] := KeepMasked(image[i][j], InRange(toHsv(image[i][j]), lower, upper));
    }
    WhitenBlack(result);
  }
}
