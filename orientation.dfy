/**
 * The orientation scan of rotate_plot: the first non-black pixel along row
 * Offset and down column Offset, and the tilt ratio formed from the two
 * indices. The arctan, rotation and cropping that follow are not modelled.
 */
module Orientation {
  import opened Results
  import opened Pixels

  /** The scanned row and column sit one pixel in from the top-left corner. */
  const Offset: nat := 1

  /** IndexError from img[Offset] or img[j][Offset]; ZeroDivisionError from the ratio. */
  datatype TiltError = IndexOutOfRange | DivisionByZero

  /** The index of the first non-black pixel of a line, if there is one. */
  function FirstNonBlack(line: seq<Pixel>): (k: Option<nat>)
    ensures k.Some? ==> k.value < |line| && line[k.value] != Black
    ensures k.Some? ==> forall i :: 0 <= i < k.value ==> line[i] == Black
    ensures k.None? <==> forall i :: 0 <= i < |line| ==> line[i] == Black
  {
    if |line| == 0 then None
    else if line[0] != Black then Some(0)
    else match FirstNonBlack(line[1..])
      case None => None
      case Some(k) => Some(k + 1)
  }

  /** Column c of a grid, top to bottom. */
  function Column(img: seq<seq<Pixel>>, c: nat): (line: seq<Pixel>)
    requires IsGrid(img) && c < Width(img)
    ensures |line| == |img|
    ensures forall j :: 0 <= j < |img| ==> line[j] == img[j][c]
  {
    seq(|img|, j requires 0 <= j < |img| => img[j][c])
  }

  /** (col - Offset) / (row - Offset) with Python's true division on integers. */
  function TiltRatio(col: nat, row: nat): (r: Result<real, TiltError>)
    ensures r.Err? <==> row == Offset
    ensures r.Err? ==> r.error == DivisionByZero
    ensures r.Ok? ==> r.value * (row as real - Offset as real) == col as real - Offset as real
  {
    if row == Offset then Err(DivisionByZero)
    else Ok((col as real - Offset as real) / (row as real - Offset as real))
  }

  /**
   * The ratio rotate_plot computes for an image: each scan keeps 0 when it
   * finds no non-black pixel, and the grid must reach index Offset both ways.
   */
  function Tilt(img: seq<seq<Pixel>>): (r: Result<real, TiltError>)
    requires IsGrid(img)
    ensures r == Err(IndexOutOfRange) <==> |img| <= Offset || Width(img) <= Offset
  {
    if |img| <= Offset || Width(img) <= Offset then Err(IndexOutOfRange)
    else TiltRatio(FirstNonBlack(img[Offset]).GetOr(0), FirstNonBlack(Column(img, Offset)).GetOr(0))
  }

  /** The first loop of rotate_plot: scan row Offset from column 0. */
  method ScanRow(img: seq<seq<Pixel>>) returns (col: nat)
    requires IsGrid(img) && Offset < |img|
    ensures col == FirstNonBlack(img[Offset]).GetOr(0)
  {
    col := 0;
    for i := 0 to Width(img)
      invariant col == 0
      invariant forall k :: 0 <= k < i ==> img[Offset][k] == Black
    {
      if img[Offset][i] != Black {
        col := i;
        break;
      }
    }
  }

  /** The second loop of rotate_plot: scan column Offset from row 0. */
  method ScanColumn(img: seq<seq<Pixel>>) returns (row: nat)
    requires IsGrid(img) && Offset < Width(img)
    ensures row == FirstNonBlack(Column(img, Offset)).GetOr(0)
  {
    row := 0;
    for j := 0 to |img|
      invariant row == 0
      invariant forall k :: 0 <= k < j ==> img[k][Offset] == Black
    {
      if img[j][Offset] != Black {
        row := j;
        break;
      }
    }
  }

  /** rotate_plot up to the ratio: both scans, then the division. */
  method EstimateTilt(img: seq<seq<Pixel>>) returns (r: Result<real, TiltError>)
    requires IsGrid(img)
    ensures r == Tilt(img)
  {
    if |img| <= Offset || Width(img) <= Offset {
      return Err(IndexOutOfRange);
    }
    var col := ScanRow(img);
    var row := ScanColumn(img);
    r := TiltRatio(col, row);
  }

  /**
   * When the first non-black pixel of row Offset is at column c and that of
   * column Offset is at row r, the ratio is (c - Offset) / (r - Offset).
   */
  lemma {:induction false} TiltFromFirstHits(img: seq<seq<Pixel>>, c: nat, r: nat)
    requires IsGrid(img) && Offset < |img| && Offset < Width(img)
    requires c < Width(img) && img[Offset][c] != Black
    requires forall i :: 0 <= i < c ==> img[Offset][i] == Black
    requires r < |img| && img[r][Offset] != Black
    requires forall j :: 0 <= j < r ==> img[j][Offset] == Black
    requires r != Offset
    ensures Tilt(img) == Ok((c as real - Offset as real) / (r as real - Offset as real))
  {
    assert FirstNonBlack(img[Offset]) == Some(c);
    var column := Column(img, Offset);
    assert column[r] != Black;
    assert FirstNonBlack(column) == Some(r);
  }

  /**
   * The ratio is undefined (ZeroDivisionError) exactly when pixel (0, Offset)
   * is black and pixel (Offset, Offset) is not, so the column scan stops at Offset.
   */
  lemma TiltUndefinedIff(img: seq<seq<Pixel>>)
    requires IsGrid(img)
    ensures Tilt(img) == Err(DivisionByZero) <==>
      Offset < |img| && Offset < Width(img) && img[0][Offset] == Black && img[Offset][Offset] != Black
  {
    if Offset < |img| && Offset < Width(img) {
      var column := Column(img, Offset);
      assert column[0] == img[0][Offset] && column[Offset] == img[Offset][Offset];
    }
  }

  /**
   * An image with no black margin (pixels (Offset, 0) and (0, Offset) both
   * non-black) stops both scans at index 0, so the ratio is (-1)/(-1) = 1:
   * the source then rotates an axis-aligned plot by 45 degrees.
   */
  lemma UnmarginedImageTilt(img: seq<seq<Pixel>>)
    requires IsGrid(img) && Offset < |img| && Offset < Width(img)
    requires img[Offset][0] != Black && img[0][Offset] != Black
    ensures Tilt(img) == Ok(1.0)
  {
    var column := Column(img, Offset);
    assert column[0] != Black;
    assert FirstNonBlack(img[Offset]) == Some(0) && FirstNonBlack(column) == Some(0);
    assert (0 as real - Offset as real) / (0 as real - Offset as real) == 1.0;
  }

  /**
   * When row Offset and column Offset are entirely black both scans keep 0,
   * and the source still returns the ratio 1 rather than reporting failure.
   */
  lemma NoForegroundTilt(img: seq<seq<Pixel>>)
    requires IsGrid(img) && Offset < |img| && Offset < Width(img)
    requires forall i :: 0 <= i < Width(img) ==> img[Offset][i] == Black
    requires forall j :: 0 <= j < |img| ==> img[j][Offset] == Black
    ensures Tilt(img) == Ok(1.0)
  {
    assert FirstNonBlack(img[Offset]).None? && FirstNonBlack(Column(img, Offset)).None?;
    assert (0 as real - Offset as real) / (0 as real - Offset as real) == 1.0;
  }

  /**
   * A plot whose foreground is an axis-aligned rectangle behind a black
   * margin of m rows on top and m columns on the left never gets ratio 0:
   * without margin both scans stop at 0, a margin of one stops the column
   * scan at Offset, and a wider margin leaves both scans empty.
   */
  lemma AxisAlignedPlotTilt(img: seq<seq<Pixel>>, m: nat)
    requires IsGrid(img) && Offset < |img| && Offset < Width(img)
    requires forall i, j :: 0 <= i < |img| && 0 <= j < |img[i]| ==> (img[i][j] == Black <==> i < m || j < m)
    ensures Tilt(img) == if m == 1 then Err(DivisionByZero) else Ok(1.0)
  {
    if m == 0 {
      UnmarginedImageTilt(img);
    } else if m == 1 {
      TiltUndefinedIff(img);
    } else {
      NoForegroundTilt(img);
    }
  }

  /**
   * Unequal margins can give ratio 0: with no top margin and a one-column
   * left margin, row Offset first turns non-black at column Offset and
   * column Offset at row 0, so the ratio is (1 - 1)/(0 - 1) = 0.
   */
  lemma LeftMarginOnlyTilt(img: seq<seq<Pixel>>)
    requires IsGrid(img) && Offset < |img| && Offset < Width(img)
    requires forall i, j :: 0 <= i < |img| && 0 <= j < |img[i]| ==> (img[i][j] == Black <==> j < 1)
    ensures Tilt(img) == Ok(0.0)
  {
    assert img[Offset][0] == Black && img[Offset][Offset] != Black && img[0][Offset] != Black;
    TiltFromFirstHits(img, Offset, 0);
    assert (Offset as real - Offset as real) / (0 as real - Offset as real) == 0.0;
  }
}
