/**
 * The run loop of main: for each scan date and each plot id, the segmented
 * plot image is measured against a pixel total that is set once, from the
 * first processed image's width times height, and reused for every later
 * pair; one [date, id, percent] record is appended per pair, in loop order.
 */
module Pipeline {
  import opened Results
  import opened Pixels
  import opened Segmentation
  import opened Coverage

  /** A scan date, taken from the raster's directory name. */
  type Date = string

  /** A plot image as the run loop sees it: PIL's (width, height) and mask_image's output. */
  datatype PlotImage = PlotImage(width: nat, height: nat, segmented: seq<seq<Pixel>>)

  /** One plot id of the boundary layer with its clipped, segmented image. */
  datatype Plot = Plot(id: int, image: PlotImage)

  /** One field raster: its date and the plots clipped from it, in boundary-layer order. */
  datatype Scan = Scan(date: Date, plots: seq<Plot>)

  /** One (raster, plot id) pair of the nested loop. */
  datatype Job = Job(date: Date, plot: Plot)

  /** One row of the output table. */
  datatype Record = Record(date: Date, id: int, percent: real)

  /** Both readers of the plot file see the same image: the grid is height rows of width pixels. */
  predicate WellFormed(p: PlotImage) {
    IsGrid(p.segmented) && |p.segmented| == p.height && (p.height > 0 ==> Width(p.segmented) == p.width)
  }

  predicate AllWellFormed(jobs: seq<Job>) {
    forall job :: job in jobs ==> WellFormed(job.plot.image)
  }

  function Area(p: PlotImage): nat {
    p.width * p.height
  }

  /** The pairs of one raster, in plot order. */
  function JobsOf(s: Scan): (jobs: seq<Job>)
    ensures |jobs| == |s.plots|
    ensures forall k :: 0 <= k < |jobs| ==> jobs[k] == Job(s.date, s.plots[k])
  {
    seq(|s.plots|, k requires 0 <= k < |s.plots| => Job(s.date, s.plots[k]))
  }

  /** Number of plot ids summed over the rasters. */
  function PlotCount(scans: seq<Scan>): nat {
    if scans == [] then 0 else PlotCount(scans[..|scans| - 1]) + |scans[|scans| - 1].plots|
  }

  /** Every (raster, plot id) pair in the order of the nested loop: one per plot id of each raster. */
  function Jobs(scans: seq<Scan>): (jobs: seq<Job>)
    ensures |jobs| == PlotCount(scans)
  {
    if scans == [] then [] else Jobs(scans[..|scans| - 1]) + JobsOf(scans[|scans| - 1])
  }

  /**
   * The pixel total after processing jobs from the flag and value (isSet,
   * totalPixel): unchanged once set, otherwise the first job's area.
   */
  function BaselineAfter(isSet: bool, totalPixel: nat, jobs: seq<Job>): (baseline: nat)
    ensures isSet ==> baseline == totalPixel
    ensures !isSet && jobs != [] ==> baseline == Area(jobs[0].plot.image)
  {
    if isSet || jobs == [] then totalPixel else Area(jobs[0].plot.image)
  }

  /** The record of one pair measured against the baseline. */
  function RecordOf(job: Job, baseline: nat): (r: Record)
    requires baseline > 0 && WellFormed(job.plot.image)
    ensures r.date == job.date && r.id == job.plot.id
    ensures r.percent * baseline as real == 100.0 * NonWhiteCount(job.plot.image.segmented) as real
  {
    var percent := Percentage(NonWhiteCount(job.plot.image.segmented), baseline);
    Record(job.date, job.plot.id, percent.value)
  }

  /** The records of a sequence of pairs, all measured against one baseline. */
  function RecordsFor(jobs: seq<Job>, baseline: nat): (rs: seq<Record>)
    requires baseline > 0 || jobs == []
    requires AllWellFormed(jobs)
    ensures |rs| == |jobs|
    ensures forall k :: 0 <= k < |jobs| ==> rs[k] == RecordOf(jobs[k], baseline)
  {
    seq(|jobs|, k requires 0 <= k < |jobs| => RecordOf(jobs[k], baseline))
  }

  /** Flattening keeps concatenation: the pairs of a + b are those of a, then those of b. */
  lemma {:induction false} JobsAppend(a: seq<Scan>, b: seq<Scan>)
    ensures Jobs(a + b) == Jobs(a) + Jobs(b)
  {
    if b == [] {
      assert a + b == a;
    } else {
      var c, last := b[..|b| - 1], b[|b| - 1];
      var ab := a + b;
      assert ab[..|ab| - 1] == a + c;
      JobsAppend(a, c);
      calc {
        Jobs(ab);
        Jobs(ab[..|ab| - 1]) + JobsOf(ab[|ab| - 1]);
        Jobs(a + c) + JobsOf(last);
        Jobs(a) + Jobs(c) + JobsOf(last);
        Jobs(a) + (Jobs(c) + JobsOf(last));
        Jobs(a) + Jobs(b);
      }
    }
  }

  /** The pairs up to and including raster k, and those after it. */
  lemma JobsStep(scans: seq<Scan>, k: nat)
    requires k < |scans|
    ensures Jobs(scans[..k + 1]) == Jobs(scans[..k]) + JobsOf(scans[k])
  {
    var p := scans[..k + 1];
    assert p[..|p| - 1] == scans[..k];
  }

  lemma JobsSplit(scans: seq<Scan>, k: nat)
    requires k <= |scans|
    ensures Jobs(scans) == Jobs(scans[..k]) + Jobs(scans[k..])
  {
    var a, b := scans[..k], scans[k..];
    assert a + b == scans;
    JobsAppend(a, b);
  }

  lemma WellFormedSplit(a: seq<Job>, c: seq<Job>)
    requires AllWellFormed(a + c)
    ensures AllWellFormed(a) && AllWellFormed(c)
  {
    assert forall m :: 0 <= m < |a| ==> a[m] == (a + c)[m];
    assert forall m :: 0 <= m < |c| ==> c[m] == (a + c)[|a| + m];
  }

  /**
   * Set-once: processing a then c gives the same pixel total as processing
   * c from the flag and value left by a.
   */
  lemma BaselineAfterAppend(isSet: bool, totalPixel: nat, a: seq<Job>, c: seq<Job>)
    ensures BaselineAfter(isSet, totalPixel, a + c) ==
      BaselineAfter(isSet || a != [], BaselineAfter(isSet, totalPixel, a), c)
  {
    if !isSet && a != [] {
      assert (a + c)[0] == a[0];
    }
    if a == [] {
      assert a + c == c;
    }
  }

  /**
   * A synthetic W x H image whose pixels are either white or kept by the
   * range mask keeps its non-white count through segmentation, so measured
   * against W x H it reads (k / (W x H)) x 100 for k such pixels.
   */
  lemma {:induction false} SegmentKeepsCount(g: seq<seq<Pixel>>, toHsv: Pixel -> Pixel, lower: Bound, upper: Bound)
    requires forall i, j :: 0 <= i < |g| && 0 <= j < |g[i]| ==>
      g[i][j] == White || (InRange(toHsv(g[i][j]), lower, upper) && g[i][j] != Black)
    ensures NonWhiteCount(SegmentGrid(g, toHsv, lower, upper)) == NonWhiteCount(g)
  {
    if g != [] {
      var s := SegmentGrid(g, toHsv, lower, upper);
      var h := g[..|g| - 1];
      assert s[..|s| - 1] == SegmentGrid(h, toHsv, lower, upper);
      SegmentKeepsCount(h, toHsv, lower, upper);
      assert s[|s| - 1] == g[|g| - 1];
    }
  }

  lemma SyntheticImageCoverage(g: seq<seq<Pixel>>, toHsv: Pixel -> Pixel, lower: Bound, upper: Bound)
    requires IsGrid(g) && |g| * Width(g) > 0
    requires forall i, j :: 0 <= i < |g| && 0 <= j < |g[i]| ==>
      g[i][j] == White || (InRange(toHsv(g[i][j]), lower, upper) && g[i][j] != Black)
    ensures Percentage(NonWhiteCount(SegmentGrid(g, toHsv, lower, upper)), |g| * Width(g))
      == Ok(NonWhiteCount(g) as real / (|g| * Width(g)) as real * 100.0)
  {
    SegmentKeepsCount(g, toHsv, lower, upper);
  }

  /** The flag, the pixel total and the table that main threads through its loops. */
  datatype RunState = RunState(totalPixelSet: bool, totalPixel: nat, records: seq<Record>)

  /**
   * Processing jobs in order from s0 leads to s: the flag is raised by the
   * first pair, the total is set-once, and either every pair appends its
   * record against that one total (ok) or the total is 0 and the very first
   * pair's ZeroDivisionError stops the run with nothing appended.
   */
  ghost predicate Reached(s0: RunState, jobs: seq<Job>, s: RunState, ok: bool)
    requires AllWellFormed(jobs)
    ensures Reached(s0, jobs, s, ok) && ok ==> |s.records| == |s0.records| + |jobs|
    ensures Reached(s0, jobs, s, ok) && !ok ==> s.records == s0.records && jobs != []
  {
    var baseline := BaselineAfter(s0.totalPixelSet, s0.totalPixel, jobs);
    && s.totalPixelSet == (s0.totalPixelSet || jobs != [])
    && s.totalPixel == baseline
    && (ok <==> jobs == [] || baseline > 0)
    && (ok ==> s.records == s0.records + RecordsFor(jobs, baseline))
    && (!ok ==> s.records == s0.records)
  }

  /** The records of a + c are those of a followed by those of c, against one baseline. */
  lemma RecordsForAppend(a: seq<Job>, c: seq<Job>, baseline: nat)
    requires baseline > 0 && AllWellFormed(a) && AllWellFormed(c)
    ensures AllWellFormed(a + c)
    ensures RecordsFor(a + c, baseline) == RecordsFor(a, baseline) + RecordsFor(c, baseline)
  {
    assert forall k :: 0 <= k < |a + c| ==> (a + c)[k] == if k < |a| then a[k] else c[k - |a|];
  }

  /** Once a positive total is set, a run over c succeeds and appends c's records against it. */
  lemma ReachedFromSet(s1: RunState, c: seq<Job>, s2: RunState, ok: bool)
    requires AllWellFormed(c) && s1.totalPixelSet && s1.totalPixel > 0
    requires Reached(s1, c, s2, ok)
    ensures ok && s2.totalPixelSet && s2.totalPixel == s1.totalPixel
    ensures s2.records == s1.records + RecordsFor(c, s1.totalPixel)
  {
    assert BaselineAfter(s1.totalPixelSet, s1.totalPixel, c) == s1.totalPixel;
  }

  /** Running a and then c is running a + c, whether or not c fails. */
  lemma ReachedCompose(s0: RunState, a: seq<Job>, s1: RunState, c: seq<Job>, s2: RunState, ok: bool)
    requires AllWellFormed(a) && AllWellFormed(c)
    requires Reached(s0, a, s1, true) && Reached(s1, c, s2, ok)
    ensures AllWellFormed(a + c)
    ensures Reached(s0, a + c, s2, ok)
  {
    BaselineAfterAppend(s0.totalPixelSet, s0.totalPixel, a, c);
    if a == [] {
      assert a + c == c;
      assert s1 == s0;
    } else {
      var baseline := s1.totalPixel;
      ReachedFromSet(s1, c, s2, ok);
      RecordsForAppend(a, c, baseline);
      assert s2.records == s0.records + RecordsFor(a, baseline) + RecordsFor(c, baseline);
    }
  }

  /** A run that has stopped stays stopped: later pairs are never reached. */
  lemma ReachedStopped(s0: RunState, a: seq<Job>, s: RunState, rest: seq<Job>)
    requires AllWellFormed(a) && AllWellFormed(rest)
    requires Reached(s0, a, s, false)
    ensures AllWellFormed(a + rest)
    ensures Reached(s0, a + rest, s, false)
  {
    BaselineAfterAppend(s0.totalPixelSet, s0.totalPixel, a, rest);
  }

  /**
   * A whole run from main's initial state (flag unset, total 0, empty table)
   * that completes: the total is the first pair's width times height, and
   * there is exactly one record per pair, in loop order, each measured
   * against that total whatever the size of its own image.
   */
  lemma FreshRunRecords(jobs: seq<Job>, s: RunState)
    requires AllWellFormed(jobs) && jobs != []
    requires Reached(RunState(false, 0, []), jobs, s, true)
    ensures s.totalPixelSet && s.totalPixel == Area(jobs[0].plot.image) > 0
    ensures |s.records| == |jobs|
    ensures forall k :: 0 <= k < |jobs| ==> s.records[k] == RecordOf(jobs[k], s.totalPixel)
  {
    var baseline := BaselineAfter(false, 0, jobs);
    assert s.totalPixel == baseline == Area(jobs[0].plot.image) > 0;
    assert s.records == [] + RecordsFor(jobs, baseline);
    assert [] + RecordsFor(jobs, baseline) == RecordsFor(jobs, baseline);
  }

  /** The first record of a fresh run is measured against its own image, so it lies in [0, 100]. */
  lemma FreshRunFirstPercent(jobs: seq<Job>, s: RunState)
    requires AllWellFormed(jobs) && jobs != []
    requires Reached(RunState(false, 0, []), jobs, s, true)
    ensures 0.0 <= s.records[0].percent <= 100.0
  {
    FreshRunRecords(jobs, s);
    var g := jobs[0].plot.image.segmented;
    assert WellFormed(jobs[0].plot.image);
    assert |g| * Width(g) == s.totalPixel;
    PercentageOfOwnArea(g);
  }

  /** A fresh run fails exactly when the first image processed has no pixels, and then records nothing. */
  lemma FreshRunFailure(jobs: seq<Job>, s: RunState, ok: bool)
    requires AllWellFormed(jobs)
    requires Reached(RunState(false, 0, []), jobs, s, ok)
    ensures !ok <==> jobs != [] && Area(jobs[0].plot.image) == 0
    ensures !ok ==> s.records == []
  {
  }

  /** The state main threads through its loops. */
  class Run {
    var totalPixel: nat
    var totalPixelSet: bool
    var records: seq<Record>

    ghost function State(): RunState
      reads this
    {
      RunState(totalPixelSet, totalPixel, records)
    }

    constructor ()
      ensures State() == RunState(false, 0, [])
    {
      totalPixel := 0;
      totalPixelSet := false;
      records := [];
    }

    /**
     * The body of the inner loop for one pair: set the pixel total if unset,
     * measure, append. False is the ZeroDivisionError that ends the run.
     */
    method ProcessPlot(date: Date, plot: Plot) returns (ok: bool)
      requires WellFormed(plot.image)
      modifies this
      ensures totalPixelSet
      ensures totalPixel == if old(totalPixelSet) then old(totalPixel) else Area(plot.image)
      ensures ok <==> totalPixel > 0
      ensures records == old(records) + if ok then [RecordOf(Job(date, plot), totalPixel)] else []
      ensures Reached(old(State()), [Job(date, plot)], State(), ok)
    {
      if !totalPixelSet {
        totalPixel := plot.image.width * plot.image.height;
        totalPixelSet := true;
      }
      var percent := GetPixelPercent(plot.image.segmented, totalPixel);
      match percent
      case Err(_) =>
        ok := false;
      case Ok(p) =>
        records := records + [Record(date, plot.id, p)];
        ok := true;
    }

    /** The inner loop over the plot ids of one raster; it stops at the first failure. */
    method ProcessScan(scan: Scan) returns (ok: bool)
      requires AllWellFormed(JobsOf(scan))
      modifies this
      ensures Reached(old(State()), JobsOf(scan), State(), ok)
    {
      ghost var jobs := JobsOf(scan);
      ghost var start := State();
      ok := true;
      var k := 0;
      while k < |scan.plots|
        invariant 0 <= k <= |scan.plots|
        invariant AllWellFormed(jobs[..k])
        invariant Reached(start, jobs[..k], State(), true)
      {
        ghost var before := State();
        ok := ProcessPlot(scan.date, scan.plots[k]);
        ReachedCompose(start, jobs[..k], before, [jobs[k]], State(), ok);
        assert jobs[..k + 1] == jobs[..k] + [jobs[k]];
        if !ok {
          ReachedStopped(start, jobs[..k + 1], State(), jobs[k + 1..]);
          assert jobs[..k + 1] + jobs[k + 1..] == jobs;
          return;
        }
        k := k + 1;
      }
      assert jobs[..k] == jobs;
    }

    /** The outer loop of main over the rasters, in discovery order; it stops at the first failure. */
    method ProcessAll(scans: seq<Scan>) returns (ok: bool)
      requires AllWellFormed(Jobs(scans))
      modifies this
      ensures Reached(old(State()), Jobs(scans), State(), ok)
    {
      ghost var start := State();
      ghost var done: seq<Job> := [];
      ok := true;
      var k := 0;
      while k < |scans|
        invariant 0 <= k <= |scans|
        invariant done == Jobs(scans[..k])
        invariant Jobs(scans) == done + Jobs(scans[k..])
        invariant AllWellFormed(done)
        invariant Reached(start, done, State(), true)
      {
        ghost var next, rest := JobsOf(scans[k]), Jobs(scans[k + 1..]);
        JobsStep(scans, k);
        JobsSplit(scans, k + 1);
        WellFormedSplit(done + next, rest);
        ghost var before := State();
        ok := ProcessScan(scans[k]);
        ReachedCompose(start, done, before, next, State(), ok);
        if !ok {
          ReachedStopped(start, done + next, State(), rest);
          return;
        }
        done := done + next;
        k := k + 1;
      }
      assert scans[..k] == scans;
    }
  }

  /**
   * main's loops from its initial state (flag unset, total 0, empty table):
   * the table has one row per (raster, plot id) pair, in loop order, each
   * measured against the first image's width times height; when that area
   * is 0 the first pair stops the run and the table stays empty.
   */
  method MeasureRun(scans: seq<Scan>) returns (records: seq<Record>, ok: bool)
    requires AllWellFormed(Jobs(scans))
    ensures ok <==> Jobs(scans) == [] || Area(Jobs(scans)[0].plot.image) > 0
    ensures ok ==> |records| == |Jobs(scans)|
    ensures ok ==> forall k :: 0 <= k < |records| ==>
      records[k] == RecordOf(Jobs(scans)[k], Area(Jobs(scans)[0].plot.image))
    ensures !ok ==> records == []
  {
    var run := new Run();
    ok := run.ProcessAll(scans);
    records := run.records;
    if ok && Jobs(scans) != [] {
      FreshRunRecords(Jobs(scans), run.State());
    }
  }
}
