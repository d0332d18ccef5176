/** Image correction (`correct_image`, `correct_image_RGB` and their band
    workers `correctSegment`, `correctRGBSegment`): the image is cut into
    bands of TASK_BATCH_SIZE rows, and each band rewrites every pixel of its
    rows from the interpolated input.  The bands run here one after the
    other; since they write disjoint rows the order does not matter. */
module Correction {

  datatype Option<T> = None | Some(value: T)

  /** `TASK_BATCH_SIZE`: rows per band. */
  const TaskBatchSize: nat := 100

  /** A band of rows handed to one task: `startRow`, `rowCount`. */
  datatype Band = Band(start: nat, count: nat)

  function BandEnd(b: Band): nat
  {
    b.start + b.count
  }

  predicate InBand(b: Band, row: int)
  {
    b.start <= row < BandEnd(b)
  }

  /** Number of tasks launched: max(1, ceil(he / TASK_BATCH_SIZE)). */
  function NumTasks(he: nat): nat
  {
    if he == 0 then 1 else (he + TaskBatchSize - 1) / TaskBatchSize
  }

  /** NumTasks is the ceiling of he / TASK_BATCH_SIZE, and 1 for an empty image. */
  lemma NumTasksIsCeiling(he: nat)
    ensures NumTasks(he) >= 1
    ensures he == 0 ==> NumTasks(he) == 1
    ensures he >= 1 ==> (NumTasks(he) - 1) * TaskBatchSize < he <= NumTasks(he) * TaskBatchSize
    ensures he >= 1 ==> 1 <= he - (NumTasks(he) - 1) * TaskBatchSize <= TaskBatchSize
  {
    if he >= 1 {
      var n := (he + TaskBatchSize - 1) / TaskBatchSize;
      assert n * TaskBatchSize <= he + TaskBatchSize - 1 < n * TaskBatchSize + TaskBatchSize;
      assert (n - 1) * TaskBatchSize == n * TaskBatchSize - TaskBatchSize;
    }
  }

  lemma BandAt(he: nat, i: nat)
    requires i < NumTasks(he)
    ensures Bands(he)[i] == Band(i * TaskBatchSize, if i < NumTasks(he) - 1 then TaskBatchSize else LastCount(he))
  {
  }

  /** Rows of the last band: whatever the full bands leave over. */
  function LastCount(he: nat): (c: nat)
    ensures c <= TaskBatchSize
    ensures he >= 1 ==> 1 <= c
  {
    NumTasksIsCeiling(he);
    he - (NumTasks(he) - 1) * TaskBatchSize
  }

  /** The bands the launch loop creates for an image of he rows. */
  function Bands(he: nat): (bs: seq<Band>)
    ensures |bs| == NumTasks(he)
    ensures forall i :: 0 <= i < |bs| ==> bs[i].count <= TaskBatchSize
    ensures he >= 1 ==> forall i :: 0 <= i < |bs| ==> 1 <= bs[i].count
  {
    var n := NumTasks(he);
    var last := LastCount(he);
    seq(n, i requires 0 <= i < n =>
      Band(i * TaskBatchSize, if i < n - 1 then TaskBatchSize else last))
  }

  /** The launch loop: full bands while `row + TASK_BATCH_SIZE < he`, then one
      band for the rest. */
  method PlanBands(he: nat) returns (bands: seq<Band>)
    ensures bands == Bands(he)
  {
    var row := 0;
    bands := [];
    while row + TaskBatchSize < he
      invariant row == |bands| * TaskBatchSize
      invariant row == 0 || row < he
      invariant forall i :: 0 <= i < |bands| ==> bands[i] == Band(i * TaskBatchSize, TaskBatchSize)
      decreases he - row
    {
      bands := bands + [Band(row, TaskBatchSize)];
      row := row + TaskBatchSize;
    }
    bands := bands + [Band(row, he - row)];
    NumTasksIsCeiling(he);
    assert |bands| == NumTasks(he);
    forall i | 0 <= i < |bands|
      ensures bands[i] == Bands(he)[i]
    {
      BandAt(he, i);
    }
  }

  /** Every band but the last has TASK_BATCH_SIZE rows; the last has between 1
      and TASK_BATCH_SIZE rows when the image is not empty; band i starts at
      row i * TASK_BATCH_SIZE. */
  lemma BandSizes(he: nat, i: nat)
    requires i < NumTasks(he)
    ensures Bands(he)[i].start == i * TaskBatchSize
    ensures i < NumTasks(he) - 1 ==> Bands(he)[i].count == TaskBatchSize
    ensures i == NumTasks(he) - 1 && he >= 1 ==> 1 <= Bands(he)[i].count <= TaskBatchSize
  {
    NumTasksIsCeiling(he);
    BandAt(he, i);
  }

  /** The bands tile [0, he): the first starts at row 0, each starts where
      the previous one ends, and the last ends at he. */
  lemma BandsTile(he: nat)
    ensures Bands(he)[0].start == 0
    ensures forall i :: 0 <= i < NumTasks(he) - 1 ==> BandEnd(Bands(he)[i]) == Bands(he)[i + 1].start
    ensures BandEnd(Bands(he)[NumTasks(he) - 1]) == he
  {
    NumTasksIsCeiling(he);
    var n := NumTasks(he);
    BandAt(he, 0);
    BandAt(he, n - 1);
    forall i | 0 <= i < n - 1
      ensures BandEnd(Bands(he)[i]) == Bands(he)[i + 1].start
    {
      BandAt(he, i);
      BandAt(he, i + 1);
    }
  }

  /** Each row of the image lies in exactly one band: band number row / 100. */
  lemma RowInExactlyOneBand(he: nat, row: nat, i: nat)
    requires row < he && i < NumTasks(he)
    ensures row / TaskBatchSize < NumTasks(he)
    ensures InBand(Bands(he)[i], row) <==> i == row / TaskBatchSize
  {
    NumTasksIsCeiling(he);
    BandSizes(he, i);
    var q := row / TaskBatchSize;
    assert q * TaskBatchSize <= row < q * TaskBatchSize + TaskBatchSize;
    if InBand(Bands(he)[i], row) {
      assert i * TaskBatchSize <= row < i * TaskBatchSize + TaskBatchSize;
      assert i * TaskBatchSize < (q + 1) * TaskBatchSize && q * TaskBatchSize < (i + 1) * TaskBatchSize;
    }
    if i == q {
      BandsTile(he);
      assert i < NumTasks(he) - 1 || BandEnd(Bands(he)[i]) == he;
    }
  }

  function SumCounts(bs: seq<Band>): nat
  {
    if bs == [] then 0 else SumCounts(bs[..|bs| - 1]) + bs[|bs| - 1].count
  }

  lemma {:induction false} FullBandsSum(he: nat, k: nat)
    requires k < NumTasks(he)
    ensures SumCounts(Bands(he)[..k]) == k * TaskBatchSize
  {
    if k > 0 {
      assert Bands(he)[..k][..k - 1] == Bands(he)[..k - 1];
      BandAt(he, k - 1);
      FullBandsSum(he, k - 1);
    }
  }

  /** The row counts of all bands add up to he, the total that the progress
      report waits for. */
  lemma BandsTotalRows(he: nat)
    ensures SumCounts(Bands(he)) == he
  {
    var n := NumTasks(he);
    NumTasksIsCeiling(he);
    FullBandsSum(he, n - 1);
    BandAt(he, n - 1);
    assert Bands(he)[..n][..n - 1] == Bands(he)[..n - 1];
    assert Bands(he)[..n] == Bands(he);
  }

  // ---------------------------------------------------------------- pixels

  function Min(a: real, b: real): real
  {
    if a <= b then a else b
  }

  function Max(a: real, b: real): real
  {
    if a >= b then a else b
  }

  /** `std::min(std::max(v, 0.), 255.)` */
  function Clamp(v: real): (r: real)
    ensures 0.0 <= r <= 255.0
    ensures 0.0 <= v <= 255.0 ==> r == v
    ensures v < 0.0 ==> r == 0.0
    ensures v > 255.0 ==> r == 255.0
  {
    Min(Max(v, 0.0), 255.0)
  }

  /** The centre used by the segments: (wi/2 + 0.2, he/2 + 0.2). */
  function Origin(wi: nat, he: nat): (real, real)
  {
    (wi as real / 2.0 + 0.2, he as real / 2.0 + 0.2)
  }

  /** The per-pixel collaborators of a gray correction: `undistortPixel` with
      the inverse polynomial, on coordinates relative to the origin, and
      `interpolate_spline` on the prepared input (None when it fails). */
  datatype GraySampler = GraySampler(
    undistort: (real, real) -> (real, real),
    interpolate: (real, real) -> Option<real>)

  /** The three channels of an RGB pixel. */
  datatype Rgb = Rgb(r: real, g: real, b: real)

  /** The same for an RGB correction, with `interpolate_spline_RGB`. */
  datatype RgbSampler = RgbSampler(
    undistort: (real, real) -> (real, real),
    interpolate: (real, real) -> Option<Rgb>)

  /** Where output pixel (x, y) is read from in the input image. */
  function SourcePosition(undistort: (real, real) -> (real, real), wi: nat, he: nat, x: int, y: int): (real, real)
  {
    var o := Origin(wi, he);
    var p := undistort(x as real - o.0, y as real - o.1);
    (p.0 + o.0, p.1 + o.1)
  }

  /** The value written at output pixel (x, y) of a gray image. */
  function GrayPixel(s: GraySampler, wi: nat, he: nat, x: int, y: int): (v: real)
    ensures 0.0 <= v <= 255.0
    ensures var p := SourcePosition(s.undistort, wi, he, x, y);
            s.interpolate(p.0, p.1).None? ==> v == 0.0
  {
    var p := SourcePosition(s.undistort, wi, he, x, y);
    match s.interpolate(p.0, p.1)
    case None => Clamp(0.0)
    case Some(c) => Clamp(c)
  }

  /** The value written at output pixel (x, y) of an RGB image: each channel
      clamped on its own, all three 0 when interpolation fails. */
  function RgbPixel(s: RgbSampler, wi: nat, he: nat, x: int, y: int): (v: Rgb)
    ensures 0.0 <= v.r <= 255.0 && 0.0 <= v.g <= 255.0 && 0.0 <= v.b <= 255.0
    ensures var p := SourcePosition(s.undistort, wi, he, x, y);
            s.interpolate(p.0, p.1).None? ==> v == Rgb(0.0, 0.0, 0.0)
  {
    var p := SourcePosition(s.undistort, wi, he, x, y);
    match s.interpolate(p.0, p.1)
    case None => Rgb(Clamp(0.0), Clamp(0.0), Clamp(0.0))
    case Some(c) => Rgb(Clamp(c.r), Clamp(c.g), Clamp(c.b))
  }

  // ------------------------------------------------------ abort and progress

  /** The shared `progress` counter. */
  class Progress {
    var value: int

    constructor ()
      ensures value == 0
    {
      value := 0;
    }
  }

  /** The first poll in [from, upto] at which an abort was asked, or upto + 1
      when there is none.  asked(k) is the answer of the k-th call to
      `abortIfAsked` made by one task. */
  function FirstAsked(asked: nat -> bool, from: nat, upto: nat): (j: nat)
    requires from <= upto + 1
    ensures from <= j <= upto + 1
    ensures j <= upto ==> asked(j)
    ensures forall k :: from <= k < j ==> !asked(k)
    decreases upto + 1 - from
  {
    if from == upto + 1 then from
    else if asked(from) then from
    else FirstAsked(asked, from + 1, upto)
  }

  /** Rows a gray band finishes: it polls before the first row (poll 0) and
      after each row (poll r after r rows), and stops at the first positive poll. */
  function GrayRowsDone(asked: nat -> bool, rowCount: nat): (n: nat)
    ensures n <= rowCount
    ensures forall k :: 0 <= k < n ==> !asked(k)
    ensures n < rowCount ==> asked(n)
  {
    var j := FirstAsked(asked, 0, rowCount);
    if j <= rowCount then j else rowCount
  }

  /** A gray band throws iff one of its rowCount + 1 polls asks for an abort. */
  predicate GrayAborts(asked: nat -> bool, rowCount: nat)
  {
    FirstAsked(asked, 0, rowCount) <= rowCount
  }

  lemma GrayAbortsIffSomePoll(asked: nat -> bool, rowCount: nat)
    ensures GrayAborts(asked, rowCount) <==> exists k :: 0 <= k <= rowCount && asked(k)
  {
    var j := FirstAsked(asked, 0, rowCount);
    if j <= rowCount {
      assert asked(j);
    }
  }

  // ------------------------------------------------------------ gray bands

  /** `correctSegment`: rows [startRow, startRow + rowCount) of out, every
      column, one progress step per row, abort polls before the band and
      after every row. */
  method CorrectSegment(s: GraySampler, wi: nat, he: nat, out: array2<real>,
                        startRow: nat, rowCount: nat, progress: Progress, asked: nat -> bool)
    returns (aborted: bool)
    requires out.Length0 == he && out.Length1 == wi
    requires startRow + rowCount <= he
    modifies out, progress
    ensures aborted == GrayAborts(asked, rowCount)
    ensures progress.value == old(progress.value) + GrayRowsDone(asked, rowCount)
    ensures forall y, x :: 0 <= y < he && 0 <= x < wi ==>
      out[y, x] == if startRow <= y < startRow + GrayRowsDone(asked, rowCount)
                   then GrayPixel(s, wi, he, x, y) else old(out[y, x])
  {
    if asked(0) {
      return true;
    }
    var o := Origin(wi, he);
    var y, i := startRow, rowCount;
    while i > 0
      invariant 0 <= i <= rowCount && y == startRow + (rowCount - i)
      invariant forall k :: 0 <= k <= rowCount - i ==> !asked(k)
      invariant progress.value == old(progress.value) + (rowCount - i)
      invariant forall r, c :: 0 <= r < he && 0 <= c < wi ==>
        out[r, c] == if startRow <= r < y then GrayPixel(s, wi, he, c, r) else old(out[r, c])
    {
      var x := 0;
      while x < wi
        invariant 0 <= x <= wi
        modifies out
        decreases wi - x
        invariant forall r, c :: 0 <= r < he && 0 <= c < wi ==>
          out[r, c] == if startRow <= r < y || (r == y && c < x)
                       then GrayPixel(s, wi, he, c, r) else old(out[r, c])
      {
        var pos := s.undistort(x as real - o.0, y as real - o.1);
        var clr := 0.0;
        match s.interpolate(pos.0 + o.0, pos.1 + o.1) {
          case Some(v) => clr := v;
          case None => clr := 0.0;
        }
        clr := Clamp(clr);
        out[y, x] := clr;
        x := x + 1;
      }
      progress.value := progress.value + 1;
      y, i := y + 1, i - 1;
      if asked(rowCount - i) {
        return true;
      }
    }
    return false;
  }

  /** `correct_image`: plans the bands, runs each band, and succeeds iff no
      band threw.  On success every pixel holds its corrected value and the
      progress counter has reached he. */
  method CorrectImage(s: GraySampler, wi: nat, he: nat, asked: nat -> nat -> bool)
    returns (out: array2<real>, progress: Progress, allOk: bool)
    ensures fresh(out) && fresh(progress)
    ensures out.Length0 == he && out.Length1 == wi
    ensures allOk <==> forall b, k :: 0 <= b < NumTasks(he) && 0 <= k <= Bands(he)[b].count ==> !asked(b)(k)
    ensures allOk ==> progress.value == he
    ensures allOk ==> forall y, x :: 0 <= y < he && 0 <= x < wi ==> out[y, x] == GrayPixel(s, wi, he, x, y)
  {
    out := new real[he, wi];
    progress := new Progress();
    var bands := PlanBands(he);
    BandsTile(he);
    allOk := true;
    var b := 0;
    ghost var done := 0;
    while b < |bands|
      invariant 0 <= b <= |bands|
      invariant done == if b == 0 then 0 else BandEnd(bands[b - 1])
      invariant allOk <==> forall b', k :: 0 <= b' < b && 0 <= k <= bands[b'].count ==> !asked(b')(k)
      invariant allOk ==> progress.value == done
      invariant allOk ==> forall y, x :: 0 <= y < done && 0 <= x < wi ==> out[y, x] == GrayPixel(s, wi, he, x, y)
    {
      var band := bands[b];
      assert band.start == done;
      var aborted := CorrectSegment(s, wi, he, out, band.start, band.count, progress, asked(b));
      GrayAbortsIffSomePoll(asked(b), band.count);
      allOk := allOk && !aborted;
      if allOk {
        assert GrayRowsDone(asked(b), band.count) == band.count;
      }
      done := BandEnd(band);
      b := b + 1;
    }
  }

  // ------------------------------------------------------------- RGB bands

  /** `correctRGBSegment`: like the gray band, but it polls for an abort only
      before the band (poll 0) and after the whole band (poll 1). */
  method CorrectRgbSegment(s: RgbSampler, wi: nat, he: nat, out: array2<Rgb>,
                           startRow: nat, rowCount: nat, progress: Progress, asked: nat -> bool)
    returns (aborted: bool)
    requires out.Length0 == he && out.Length1 == wi
    requires startRow + rowCount <= he
    modifies out, progress
    ensures aborted == (asked(0) || asked(1))
    ensures progress.value == old(progress.value) + (if asked(0) then 0 else rowCount)
    ensures forall y, x :: 0 <= y < he && 0 <= x < wi ==>
      out[y, x] == if !asked(0) && startRow <= y < startRow + rowCount
                   then RgbPixel(s, wi, he, x, y) else old(out[y, x])
  {
    if asked(0) {
      return true;
    }
    var o := Origin(wi, he);
    var y, i := startRow, rowCount;
    while i > 0
      invariant 0 <= i <= rowCount && y == startRow + (rowCount - i)
      invariant progress.value == old(progress.value) + (rowCount - i)
      invariant forall r, c :: 0 <= r < he && 0 <= c < wi ==>
        out[r, c] == if startRow <= r < y then RgbPixel(s, wi, he, c, r) else old(out[r, c])
    {
      var x := 0;
      while x < wi
        invariant 0 <= x <= wi
        modifies out
        decreases wi - x
        invariant forall r, c :: 0 <= r < he && 0 <= c < wi ==>
          out[r, c] == if startRow <= r < y || (r == y && c < x)
                       then RgbPixel(s, wi, he, c, r) else old(out[r, c])
      {
        var pos := s.undistort(x as real - o.0, y as real - o.1);
        var red, green, blue := 0.0, 0.0, 0.0;
        match s.interpolate(pos.0 + o.0, pos.1 + o.1) {
          case Some(v) => red, green, blue := v.r, v.g, v.b;
          case None => red, green, blue := 0.0, 0.0, 0.0;
        }
        red, green, blue := Clamp(red), Clamp(green), Clamp(blue);
        out[y, x] := Rgb(red, green, blue);
        x := x + 1;
      }
      progress.value := progress.value + 1;
      y, i := y + 1, i - 1;
    }
    return asked(1);
  }

  /** `correct_image_RGB`: as `correct_image`, with RGB bands. */
  method CorrectImageRgb(s: RgbSampler, wi: nat, he: nat, asked: nat -> nat -> bool)
    returns (out: array2<Rgb>, progress: Progress, allOk: bool)
    ensures fresh(out) && fresh(progress)
    ensures out.Length0 == he && out.Length1 == wi
    ensures allOk <==> forall b :: 0 <= b < NumTasks(he) ==> !asked(b)(0) && !asked(b)(1)
    ensures allOk ==> progress.value == he
    ensures allOk ==> forall y, x :: 0 <= y < he && 0 <= x < wi ==> out[y, x] == RgbPixel(s, wi, he, x, y)
  {
    out := new Rgb[he, wi];
    progress := new Progress();
    var bands := PlanBands(he);
    BandsTile(he);
    allOk := true;
    var b := 0;
    ghost var done := 0;
    while b < |bands|
      invariant 0 <= b <= |bands|
      invariant done == if b == 0 then 0 else BandEnd(bands[b - 1])
      invariant allOk <==> forall b' :: 0 <= b' < b ==> !asked(b')(0) && !asked(b')(1)
      invariant allOk ==> progress.value == done
      invariant allOk ==> forall y, x :: 0 <= y < done && 0 <= x < wi ==> out[y, x] == RgbPixel(s, wi, he, x, y)
    {
      var band := bands[b];
      var aborted := CorrectRgbSegment(s, wi, he, out, band.start, band.count, progress, asked(b));
      allOk := allOk && !aborted;
      done := BandEnd(band);
      b := b + 1;
    }
  }
}
