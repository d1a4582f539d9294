/** Pixel values and pixel grids shared by every stage of the canopy-cover pipeline. */
module Pixels {

  /** One 8-bit colour channel. */
  type Channel = x: int | 0 <= x <= 255

  /** A three-channel 8-bit pixel: RGB in a colour image, HSV after conversion. */
  datatype Pixel = Pixel(c0: Channel, c1: Channel, c2: Channel)

  /** The background the clipping step leaves outside a plot polygon. */
  const Black := Pixel(0, 0, 0)

  /** The sentinel segmentation writes over background pixels. */
  const White := Pixel(255, 255, 255)

  /** Number of columns of a grid, read from its first row (len(img[0])). */
  function Width(g: seq<seq<Pixel>>): nat {
    if |g| == 0 then 0 else |g[0]|
  }

  /** A rectangular grid, as every numpy image array is: all rows as wide as the first. */
  predicate IsGrid(g: seq<seq<Pixel>>) {
    forall i :: 0 <= i < |g| ==> |g[i]| == Width(g)
  }
}
