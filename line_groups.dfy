/** Collecting the calibration lines (`read_images`) and handing them back
    per image (the regrouping in `polyEstime`).  The edge detector and the
    Gaussian resampling along a curve are not modelled: their results are
    inputs here. */
module LineGroups {

  datatype Point = Point(x: real, y: real)

  /** An `ntuple_list`: `size` tuples of `dim` values each, stored flat in
      `values`; a detected curve or a resampled one. */
  datatype NTupleList = NTupleList(size: nat, dim: nat, values: seq<real>)

  /** A tuple list whose first two coordinates of every tuple can be read. */
  predicate WellFormed(t: NTupleList)
  {
    t.dim >= 2 && |t.values| >= t.size * t.dim
  }

  lemma TupleIndex(j: nat, size: nat, dim: nat)
    requires j < size && dim >= 2
    ensures j * dim + 1 < size * dim
  {
    assert (j + 1) * dim <= size * dim;
  }

  /** The points of a tuple list: tuple j is (values[j*dim], values[j*dim+1]). */
  function PointsOf(t: NTupleList): (pts: seq<Point>)
    requires WellFormed(t)
    ensures |pts| == t.size
  {
    seq(t.size, j requires 0 <= j < t.size =>
      TupleIndex(j, t.size, t.dim);
      Point(t.values[j * t.dim], t.values[j * t.dim + 1]))
  }

  // ------------------------------------------------------ sequence helpers

  function Sum(s: seq<nat>): nat
  {
    if s == [] then 0 else Sum(s[..|s| - 1]) + s[|s| - 1]
  }

  function Concat<T>(xss: seq<seq<T>>): seq<T>
  {
    if xss == [] then [] else Concat(xss[..|xss| - 1]) + xss[|xss| - 1]
  }

  /** The length of each inner sequence. */
  function Counts<T>(xss: seq<seq<T>>): (cs: seq<nat>)
    ensures |cs| == |xss|
  {
    seq(|xss|, i requires 0 <= i < |xss| => |xss[i]|)
  }

  lemma {:induction false} SumOfCounts<T>(xss: seq<seq<T>>)
    ensures Sum(Counts(xss)) == |Concat(xss)|
  {
    if xss != [] {
      var n := |xss|;
      assert Counts(xss)[..n - 1] == Counts(xss[..n - 1]);
      SumOfCounts(xss[..n - 1]);
    }
  }

  /** Cut xs into consecutive pieces of the given lengths. */
  function Split<T>(xs: seq<T>, groups: seq<nat>): (parts: seq<seq<T>>)
    requires Sum(groups) == |xs|
    ensures |parts| == |groups|
    decreases |groups|
  {
    if groups == [] then []
    else
      var last := groups[|groups| - 1];
      Split(xs[..|xs| - last], groups[..|groups| - 1]) + [xs[|xs| - last..]]
  }

  /** Splitting and concatenating again gives back the flat sequence. */
  lemma {:induction false} ConcatOfSplit<T>(xs: seq<T>, groups: seq<nat>)
    requires Sum(groups) == |xs|
    ensures Concat(Split(xs, groups)) == xs
    decreases |groups|
  {
    if groups != [] {
      var last := groups[|groups| - 1];
      var parts := Split(xs, groups);
      assert parts[..|parts| - 1] == Split(xs[..|xs| - last], groups[..|groups| - 1]);
      ConcatOfSplit(xs[..|xs| - last], groups[..|groups| - 1]);
      assert xs == xs[..|xs| - last] + xs[|xs| - last..];
    }
  }

  /** Concatenating and splitting by the original lengths gives back the
      pieces. */
  lemma {:induction false} SplitOfConcat<T>(xss: seq<seq<T>>)
    ensures Sum(Counts(xss)) == |Concat(xss)|
    ensures Split(Concat(xss), Counts(xss)) == xss
  {
    SumOfCounts(xss);
    if xss != [] {
      var n := |xss|;
      assert Counts(xss)[..n - 1] == Counts(xss[..n - 1]);
      SplitOfConcat(xss[..n - 1]);
      var flat := Concat(xss);
      assert flat[..|flat| - |xss[n - 1]|] == Concat(xss[..n - 1]);
      assert flat[|flat| - |xss[n - 1]|..] == xss[n - 1];
      assert xss == xss[..n - 1] + [xss[n - 1]];
    }
  }

  lemma {:induction false} SumPrefix(groups: seq<nat>, i: nat)
    requires i < |groups|
    ensures Sum(groups[..i]) + groups[i] <= Sum(groups)
    decreases |groups|
  {
    var n := |groups|;
    assert groups[..n] == groups;
    if i < n - 1 {
      assert groups[..n - 1][..i] == groups[..i];
      SumPrefix(groups[..n - 1], i);
    } else {
      assert groups[..n - 1] == groups[..i];
    }
  }

  /** Piece i of the split has groups[i] elements, and its element j is flat
      element Sum(groups[..i]) + j. */
  lemma {:induction false} SplitAt<T>(xs: seq<T>, groups: seq<nat>, i: nat, j: nat)
    requires Sum(groups) == |xs| && i < |groups|
    ensures Sum(groups[..i]) + groups[i] <= |xs|
    ensures |Split(xs, groups)[i]| == groups[i]
    ensures j < groups[i] ==> Split(xs, groups)[i][j] == xs[Sum(groups[..i]) + j]
    decreases |groups|
  {
    SumPrefix(groups, i);
    var n := |groups|;
    var last := groups[n - 1];
    var rest := groups[..n - 1];
    if i < n - 1 {
      assert rest[..i] == groups[..i];
      SplitAt(xs[..|xs| - last], rest, i, j);
    } else {
      assert rest == groups[..i];
    }
  }

  // ------------------------------------------------------- line filtering

  /** The curves of one image longer than the threshold (strictly), in
      detection order. */
  function Kept(curves: seq<NTupleList>, thresh: int): (ks: seq<NTupleList>)
    ensures |ks| <= |curves|
  {
    if curves == [] then []
    else
      var c := curves[|curves| - 1];
      Kept(curves[..|curves| - 1], thresh) + (if c.size > thresh then [c] else [])
  }

  /** How many curves of one image are eliminated by the threshold. */
  function Eliminated(curves: seq<NTupleList>, thresh: int): (e: nat)
    ensures e <= |curves|
  {
    if curves == [] then 0
    else
      var c := curves[|curves| - 1];
      Eliminated(curves[..|curves| - 1], thresh) + (if c.size > thresh then 0 else 1)
  }

  /** Per image, kept and eliminated curves add up to the detected ones. */
  lemma {:induction false} KeptPlusEliminated(curves: seq<NTupleList>, thresh: int)
    ensures |Kept(curves, thresh)| + Eliminated(curves, thresh) == |curves|
  {
    if curves != [] {
      KeptPlusEliminated(curves[..|curves| - 1], thresh);
    }
  }

  /** A curve is kept iff it was detected and has more points than the
      threshold. */
  lemma {:induction false} KeptIffLonger(curves: seq<NTupleList>, thresh: int, c: NTupleList)
    ensures c in Kept(curves, thresh) <==> c in curves && c.size > thresh
  {
    if curves != [] {
      var n := |curves|;
      KeptIffLonger(curves[..n - 1], thresh, c);
      assert curves == curves[..n - 1] + [curves[n - 1]];
    }
  }

  /** Filtering commutes with concatenation, so kept curves stay in
      detection order. */
  lemma {:induction false} KeptAppend(a: seq<NTupleList>, b: seq<NTupleList>, thresh: int)
    ensures Kept(a + b, thresh) == Kept(a, thresh) + Kept(b, thresh)
  {
    if b != [] {
      var n := |b|;
      assert (a + b)[..|a + b| - 1] == a + b[..n - 1];
      KeptAppend(a, b[..n - 1], thresh);
    } else {
      assert a + b == a;
    }
  }

  /** The kept curves of every image, one list per image. */
  function KeptPerImage(images: seq<seq<NTupleList>>, thresh: int): (ks: seq<seq<NTupleList>>)
    ensures |ks| == |images|
  {
    seq(|images|, i requires 0 <= i < |images| => Kept(images[i], thresh))
  }

  /** `point_set`: the kept curves of all images, image after image. */
  function KeptAll(images: seq<seq<NTupleList>>, thresh: int): seq<NTupleList>
  {
    Concat(KeptPerImage(images, thresh))
  }

  /** `nlines4Group`: the number of kept curves of each image. */
  function GroupCounts(images: seq<seq<NTupleList>>, thresh: int): seq<nat>
  {
    Counts(KeptPerImage(images, thresh))
  }

  /** The group counts add up to the number of kept curves. */
  lemma GroupCountsSum(images: seq<seq<NTupleList>>, thresh: int)
    ensures Sum(GroupCounts(images, thresh)) == |KeptAll(images, thresh)|
  {
    SumOfCounts(KeptPerImage(images, thresh));
  }

  /** Each curve resampled and read as points (`gaussian_convol_on_curve`
      followed by the copy into `DistortedLines`). */
  function Resampled(cs: seq<NTupleList>, resample: NTupleList -> NTupleList): (ls: seq<seq<Point>>)
    requires forall c :: WellFormed(resample(c))
    ensures |ls| == |cs|
  {
    seq(|cs|, i requires 0 <= i < |cs| => PointsOf(resample(cs[i])))
  }

  /** Resampling curve by curve commutes with the grouping per image. */
  lemma {:induction false} ResampledConcat(xss: seq<seq<NTupleList>>, resample: NTupleList -> NTupleList)
    requires forall c :: WellFormed(resample(c))
    ensures Resampled(Concat(xss), resample)
         == Concat(seq(|xss|, i requires 0 <= i < |xss| => Resampled(xss[i], resample)))
  {
    if xss != [] {
      var n := |xss|;
      var mapped := seq(|xss|, i requires 0 <= i < |xss| => Resampled(xss[i], resample));
      var prefix := seq(n - 1, i requires 0 <= i < n - 1 => Resampled(xss[..n - 1][i], resample));
      assert mapped[..n - 1] == prefix;
      ResampledConcat(xss[..n - 1], resample);
      assert Resampled(Concat(xss), resample)
          == Resampled(Concat(xss[..n - 1]), resample) + Resampled(xss[n - 1], resample);
    }
  }

  // ------------------------------------------------------------ read_images

  /** What `read_images` reports for one image: curves detected, curves
      eliminated by the threshold. */
  datatype ImageReport = ImageReport(detected: nat, eliminated: nat)

  /** The parts of `DistortedLines` that this model follows: `nlines4Group`
      and the lines (`_line`), each an ordered list of points. */
  datatype LineSet = LineSet(groups: seq<nat>, lines: seq<seq<Point>>)

  datatype ReadResult =
    | Aborted(image: nat)        // `abortIfAsked` threw after this image
    | NothingDetected            // `nLines <= 0`: returns false
    | Detected(lineSet: LineSet) // returns true

  /** `read_images`: edges[i] is what the edge detector returns for image i;
      asked(i) is the abort poll made after image i. */
  method ReadImages(edges: seq<seq<NTupleList>>, lengthThresh: int,
                    resample: NTupleList -> NTupleList, asked: nat -> bool)
    returns (r: ReadResult, reports: seq<ImageReport>)
    requires forall c :: WellFormed(resample(c))
    ensures |reports| <= |edges|
    ensures forall k :: 0 <= k < |reports| ==>
      reports[k] == ImageReport(|edges[k]|, Eliminated(edges[k], lengthThresh))
    ensures r.Aborted? <==> exists i :: 0 <= i < |edges| && asked(i)
    ensures r.Aborted? ==> r.image < |edges| && asked(r.image) && |reports| == r.image + 1
                           && forall k :: 0 <= k < r.image ==> !asked(k)
    ensures !r.Aborted? ==> |reports| == |edges|
    ensures r.NothingDetected? <==> !r.Aborted? && KeptAll(edges, lengthThresh) == []
    ensures r.Detected? ==> r.lineSet == LineSet(GroupCounts(edges, lengthThresh),
                                             Resampled(KeptAll(edges, lengthThresh), resample))
  {
    var pointSet: seq<NTupleList> := [];
    var groups: seq<nat> := [];
    reports := [];
    var i := 0;
    while i < |edges|
      invariant 0 <= i <= |edges|
      invariant pointSet == KeptAll(edges[..i], lengthThresh)
      invariant groups == GroupCounts(edges[..i], lengthThresh)
      invariant |reports| == i
      invariant forall k :: 0 <= k < i ==> reports[k] == ImageReport(|edges[k]|, Eliminated(edges[k], lengthThresh))
      invariant forall k :: 0 <= k < i ==> !asked(k)
    {
      var p := edges[i];
      var count, eliminated;
      pointSet, count, eliminated := FilterCurves(p, lengthThresh, pointSet);
      ghost var before := KeptPerImage(edges[..i], lengthThresh);
      assert KeptPerImage(edges[..i + 1], lengthThresh) == before + [Kept(p, lengthThresh)];
      assert (before + [Kept(p, lengthThresh)])[..i] == before;
      groups := groups + [count];
      assert groups == GroupCounts(edges[..i + 1], lengthThresh);
      reports := reports + [ImageReport(|p|, eliminated)];
      if asked(i) {
        return Aborted(i), reports;
      }
      i := i + 1;
    }
    assert edges[..i] == edges;
    GroupCountsSum(edges, lengthThresh);
    if Sum(groups) <= 0 {
      return NothingDetected, reports;
    }
    var lines := ResampleAll(pointSet, resample);
    return Detected(LineSet(groups, lines)), reports;
  }

  /** The filter of one image in `read_images`: the curves longer than the
      threshold are appended, in order, to `pointSet`; the others are only
      counted. */
  method FilterCurves(p: seq<NTupleList>, lengthThresh: int, pointSet: seq<NTupleList>)
    returns (grown: seq<NTupleList>, count: nat, eliminated: nat)
    ensures grown == pointSet + Kept(p, lengthThresh)
    ensures count == |Kept(p, lengthThresh)|
    ensures eliminated == Eliminated(p, lengthThresh)
  {
    grown, count, eliminated := pointSet, 0, 0;
    var j := 0;
    while j < |p|
      invariant 0 <= j <= |p|
      invariant grown == pointSet + Kept(p[..j], lengthThresh)
      invariant count == |Kept(p[..j], lengthThresh)|
      invariant eliminated == Eliminated(p[..j], lengthThresh)
    {
      assert p[..j + 1][..j] == p[..j];
      if p[j].size > lengthThresh {
        grown := grown + [p[j]];
        count := count + 1;
      } else {
        eliminated := eliminated + 1;
      }
      j := j + 1;
    }
    assert p[..j] == p;
  }

  /** The second loop of `read_images`: every kept curve goes through the
      resampling, and its points are pushed, in order, to line countL. */
  method ResampleAll(pointSet: seq<NTupleList>, resample: NTupleList -> NTupleList)
    returns (lines: seq<seq<Point>>)
    requires forall c :: WellFormed(resample(c))
    ensures lines == Resampled(pointSet, resample)
  {
    lines := [];
    var countL := 0;
    while countL < |pointSet|
      invariant 0 <= countL <= |pointSet|
      invariant lines == Resampled(pointSet[..countL], resample)
    {
      var conv := resample(pointSet[countL]);
      var pts := CopyPoints(conv);
      assert Resampled(pointSet[..countL + 1], resample)
          == Resampled(pointSet[..countL], resample) + [PointsOf(resample(pointSet[countL]))];
      lines := lines + [pts];
      countL := countL + 1;
    }
    assert pointSet[..countL] == pointSet;
  }

  /** Reads the points of one resampled curve: x and y of tuple j are values
      j*dim and j*dim+1. */
  method CopyPoints(conv: NTupleList) returns (pts: seq<Point>)
    requires WellFormed(conv)
    ensures pts == PointsOf(conv)
  {
    pts := [];
    var j := 0;
    while j < conv.size
      invariant 0 <= j <= conv.size
      invariant pts == PointsOf(conv)[..j]
    {
      TupleIndex(j, conv.size, conv.dim);
      pts := pts + [Point(conv.values[j * conv.dim], conv.values[j * conv.dim + 1])];
      j := j + 1;
    }
    assert PointsOf(conv)[..j] == PointsOf(conv);
  }

  // -------------------------------------------------------- regrouping

  /** The copy of `polyEstime` into `detectedLines`: image i receives
      `nlines4Group[i]` lines, taken in order from the flat line list, each
      copied point by point. */
  method Regroup(lines: seq<seq<Point>>, groups: seq<nat>) returns (detected: seq<seq<seq<Point>>>)
    requires Sum(groups) == |lines|
    ensures detected == Split(lines, groups)
  {
    detected := [];
    var count := 0;
    var i := 0;
    while i < |groups|
      invariant 0 <= i <= |groups|
      invariant count == Sum(groups[..i]) && count <= |lines|
      invariant detected == Split(lines[..count], groups[..i])
    {
      SumPrefix(groups, i);
      var linesInImage: seq<seq<Point>> := [];
      var j := 0;
      while j < groups[i]
        invariant 0 <= j <= groups[i]
        invariant linesInImage == lines[count..count + j]
      {
        var oneLine: seq<Point> := [];
        var k := 0;
        while k < |lines[count + j]|
          invariant 0 <= k <= |lines[count + j]|
          invariant oneLine == lines[count + j][..k]
        {
          oneLine := oneLine + [lines[count + j][k]];
          k := k + 1;
        }
        assert oneLine == lines[count + j];
        assert lines[count..count + j + 1] == lines[count..count + j] + [lines[count + j]];
        linesInImage := linesInImage + [oneLine];
        j := j + 1;
      }
      var next := count + groups[i];
      assert groups[..i + 1][..i] == groups[..i];
      assert lines[..next][..count] == lines[..count];
      assert lines[..next][count..] == linesInImage;
      detected := detected + [linesInImage];
      count := next;
      i := i + 1;
    }
    assert groups[..i] == groups;
    assert lines[..count] == lines;
  }
}
