/**
 * get_pixel_percent: the count of pixels that differ from white, and the
 * percentage of that count against a pixel total passed in by the caller.
 */
module Coverage {
  import opened Results
  import opened Pixels

  /** ZeroDivisionError from count / total_pixel when the total is 0. */
  datatype PercentError = ZeroBaseline

  /** Number of non-white pixels of one row. */
  function NonWhiteInRow(row: seq<Pixel>): (n: nat)
    ensures n <= |row|
  {
    if row == [] then 0
    else NonWhiteInRow(row[..|row| - 1]) + (if row[|row| - 1] != White then 1 else 0)
  }

  /** Number of pixels of a grid, row by row. */
  function Cells(g: seq<seq<Pixel>>): nat {
    if g == [] then 0 else Cells(g[..|g| - 1]) + |g[|g| - 1]|
  }

  /** Number of non-white pixels of a grid: at most its number of pixels. */
  function NonWhiteCount(g: seq<seq<Pixel>>): (n: nat)
    ensures n <= Cells(g)
  {
    if g == [] then 0
    else NonWhiteCount(g[..|g| - 1]) + NonWhiteInRow(g[|g| - 1])
  }

  /** count / total_pixel * 100 as an exact quotient, or the division error. */
  function Percentage(count: nat, totalPixel: nat): (r: Result<real, PercentError>)
    ensures r.Err? <==> totalPixel == 0
    ensures r.Ok? ==> r.value * totalPixel as real == 100.0 * count as real
  {
    if totalPixel == 0 then Err(ZeroBaseline)
    else Ok(count as real / totalPixel as real * 100.0)
  }

  /** The nested counting loop of get_pixel_percent, then the percentage. */
  method GetPixelPercent(image: seq<seq<Pixel>>, totalPixel: nat) returns (percent: Result<real, PercentError>)
    requires IsGrid(image)
    ensures percent == Percentage(NonWhiteCount(image), totalPixel)
  {
    // total is counted alongside count but never read afterwards.
    var count, total := 0, 0;
    for i := 0 to |image|
      invariant count == NonWhiteCount(image[..i])
    {
      for j := 0 to Width(image)
        invariant count == NonWhiteCount(image[..i]) + NonWhiteInRow(image[i][..j])
      {
        if image[i][j] != White {
          count := count + 1;
        }
        total := total + 1;
        assert image[i][..j + 1][..j] == image[i][..j];
      }
      assert image[i][..Width(image)] == image[i];
      assert image[..i + 1][..i] == image[..i];
    }
    assert image[..|image|] == image;
    percent := Percentage(count, totalPixel);
  }

  /** A rectangular image has rows times columns pixels. */
  lemma {:induction false} GridCells(g: seq<seq<Pixel>>)
    requires IsGrid(g)
    ensures Cells(g) == |g| * Width(g)
  {
    if g != [] {
      var h := g[..|g| - 1];
      assert IsGrid(h) && (h != [] ==> Width(h) == Width(g));
      GridCells(h);
      assert |h| * Width(h) == |h| * Width(g);
      assert |g| * Width(g) == |h| * Width(g) + Width(g);
    }
  }

  /** A row counts 0 exactly when every one of its pixels is white. */
  lemma {:induction false} RowCountZeroIff(row: seq<Pixel>)
    ensures NonWhiteInRow(row) == 0 <==> forall j :: 0 <= j < |row| ==> row[j] == White
  {
    if row != [] {
      var prefix := row[..|row| - 1];
      RowCountZeroIff(prefix);
      assert forall j :: 0 <= j < |prefix| ==> prefix[j] == row[j];
    }
  }

  /** An image counts 0 exactly when every one of its pixels is white. */
  lemma {:induction false} CountZeroIff(g: seq<seq<Pixel>>)
    ensures NonWhiteCount(g) == 0 <==> forall i, j :: 0 <= i < |g| && 0 <= j < |g[i]| ==> g[i][j] == White
  {
    if g != [] {
      var prefix := g[..|g| - 1];
      CountZeroIff(prefix);
      RowCountZeroIff(g[|g| - 1]);
      assert forall i :: 0 <= i < |prefix| ==> prefix[i] == g[i];
    }
  }

  /** A row with no white pixel counts every pixel. */
  lemma {:induction false} NoWhiteRowCountsAll(row: seq<Pixel>)
    requires forall j :: 0 <= j < |row| ==> row[j] != White
    ensures NonWhiteInRow(row) == |row|
  {
    if row != [] {
      NoWhiteRowCountsAll(row[..|row| - 1]);
    }
  }

  /** An image with no white pixel counts every pixel it has. */
  lemma {:induction false} NoWhiteCountsCells(g: seq<seq<Pixel>>)
    requires forall i, j :: 0 <= i < |g| && 0 <= j < |g[i]| ==> g[i][j] != White
    ensures NonWhiteCount(g) == Cells(g)
  {
    if g != [] {
      var h := g[..|g| - 1];
      assert forall i :: 0 <= i < |h| ==> h[i] == g[i];
      NoWhiteCountsCells(h);
      NoWhiteRowCountsAll(g[|g| - 1]);
    }
  }

  /** An image with no white pixel counts rows times columns. */
  lemma NoWhiteCountsAll(g: seq<seq<Pixel>>)
    requires IsGrid(g)
    requires forall i, j :: 0 <= i < |g| && 0 <= j < |g[i]| ==> g[i][j] != White
    ensures NonWhiteCount(g) == |g| * Width(g)
  {
    NoWhiteCountsCells(g);
    GridCells(g);
  }

  /** For a fixed total, more non-white pixels never give a lower percentage. */
  lemma PercentageMonotone(count1: nat, count2: nat, totalPixel: nat)
    requires count1 <= count2 && totalPixel > 0
    ensures Percentage(count1, totalPixel).value <= Percentage(count2, totalPixel).value
  {
  }

  /** A count no larger than the total gives a percentage in [0, 100]. */
  lemma PercentageWithinRange(count: nat, totalPixel: nat)
    requires count <= totalPixel && totalPixel > 0
    ensures 0.0 <= Percentage(count, totalPixel).value <= 100.0
  {
    var p, t := Percentage(count, totalPixel).value, totalPixel as real;
    assert p * t == 100.0 * count as real;
    assert 100.0 * count as real <= 100.0 * t;
  }

  /** Measured against its own rows times columns, an image's percentage lies in [0, 100]. */
  lemma PercentageOfOwnArea(g: seq<seq<Pixel>>)
    requires IsGrid(g) && |g| * Width(g) > 0
    ensures 0.0 <= Percentage(NonWhiteCount(g), |g| * Width(g)).value <= 100.0
  {
    GridCells(g);
    PercentageWithinRange(NonWhiteCount(g), |g| * Width(g));
  }
}
