/** Ground truth: head annotations from a MATLAB file turned into a binary
    point map (`points_to_point_map`, `load_gt_from_mat`). */
module GroundTruth {
  import opened Common

  /** What `points_to_point_map` receives, by layout:
      the ShanghaiTech record `image_info[0, 0][0, 0]`, whose field 0 is the
      `N x 2` location array; a 2-D numeric array (`annPoints`, `N x 2`); or a
      3-D numeric array (`[P, N, 2]`). A point row is `[x, y, ...]`. */
  datatype Points =
    | Record(location: seq<seq<real>>)
    | Matrix(rows: seq<seq<real>>)
    | Stack(planes: seq<seq<seq<real>>>)

  /** The loaded annotation file, reduced to the two keys the loader looks up. */
  datatype MatFile = MatFile(imageInfo: Option<seq<seq<real>>>, annPoints: Option<Points>)

  /** Python's `round` on a float: the nearest integer, ties to the even one. */
  function Round(v: real): (n: int)
    ensures n as real - v <= 0.5 && v - n as real <= 0.5
    ensures (n as real - v == 0.5 || v - n as real == 0.5) ==> n % 2 == 0
  {
    var f := v.Floor;
    var d := v - f as real;
    if d < 0.5 then f
    else if d > 0.5 then f + 1
    else if f % 2 == 0 then f
    else f + 1
  }

  /** numpy's reading of an index `i` on an axis of length `n`, for `-n <= i < n`. */
  function Wrap(i: int, n: nat): (r: int)
    ensures -(n as int) <= i < n ==> 0 <= r < n && (r - i) % n == 0
    ensures 0 <= i ==> r == i
  {
    if i < 0 then i + n else i
  }

  /** The pixel `(row, col)` one point writes in an `h x w` map: `None` when the
      bounds test skips it, an index error when the row has fewer than two
      entries or a negative coordinate reaches past the axis. */
  function Target(pt: seq<real>, h: nat, w: nat): (t: Result<Option<(int, int)>>)
    ensures t.Success? && t.value.Some? ==> 0 <= t.value.value.0 < h && 0 <= t.value.value.1 < w
    ensures |pt| >= 2 && (Round(pt[0]) >= w || Round(pt[1]) >= h) ==> t == Success(None)
    ensures |pt| >= 2 && 0 <= Round(pt[0]) < w && 0 <= Round(pt[1]) < h ==>
              t == Success(Some((Round(pt[1]), Round(pt[0]))))
    ensures |pt| >= 2 && -(h as int) <= Round(pt[1]) < h && -(w as int) <= Round(pt[0]) < w ==>
              t == Success(Some((Wrap(Round(pt[1]), h), Wrap(Round(pt[0]), w))))
    ensures |pt| >= 2 && Round(pt[0]) < w && Round(pt[1]) < h && (Round(pt[1]) < -(h as int) || Round(pt[0]) < -(w as int)) ==>
              t == Failure(IndexOutOfRange)
    ensures |pt| < 2 ==> t == Failure(IndexOutOfRange)
  {
    if |pt| < 2 then Failure(IndexOutOfRange)
    else
      var x, y := Round(pt[0]), Round(pt[1]);
      if !(x < w && y < h) then Success(None)
      else if y < -(h as int) || x < -(w as int) then Failure(IndexOutOfRange)
      else Success(Some((Wrap(y, h), Wrap(x, w))))
  }

  /** Some point among `pts` writes pixel `(r, c)`. */
  predicate Marked(pts: seq<seq<real>>, h: nat, w: nat, r: int, c: int)
  {
    exists k :: 0 <= k < |pts| && Target(pts[k], h, w) == Success(Some((r, c)))
  }

  /** No point among `pts` raises. */
  predicate AllValid(pts: seq<seq<real>>, h: nat, w: nat)
  {
    forall k :: 0 <= k < |pts| ==> Target(pts[k], h, w).Success?
  }

  /** Reference definition of the loop over point rows: an `h x w` map holding
      1 exactly at the marked pixels, or an index error if any point raises. */
  function RasterSpec(pts: seq<seq<real>>, h: nat, w: nat): (m: Result<Raster>)
    ensures m.Success? ==> IsGrid(m.value, h, w)
  {
    if !AllValid(pts, h, w) then Failure(IndexOutOfRange)
    else Success(seq(h, r => seq(w, c => if Marked(pts, h, w, r, c) then 1.0 else 0.0)))
  }

  /** An `h x w` map of zeros. */
  function Zeros(h: nat, w: nat): (z: Raster)
    ensures IsGrid(z, h, w)
  {
    seq(h, _ => seq(w, _ => 0.0))
  }

  /** `points_to_point_map(points, (h, w))` as written: it iterates `points[0]`.
      For the record that is the location array; for a 2-D array it is the first
      point, whose entries are scalars, so `point[0]` raises unless that row is
      empty; for a 3-D array it is the first plane. */
  function PointMapSpec(points: Points, h: nat, w: nat): Result<Raster>
  {
    match points
    case Record(location) => RasterSpec(location, h, w)
    case Matrix(rows) =>
      if |rows| == 0 then Failure(IndexOutOfRange)
      else if |rows[0]| == 0 then Success(Zeros(h, w))
      else Failure(IndexOutOfRange)
    case Stack(planes) =>
      if |planes| == 0 then Failure(IndexOutOfRange) else RasterSpec(planes[0], h, w)
  }

  /** Whatever the layout, a map that is returned is `h x w` and binary. */
  lemma PointMapBinary(points: Points, h: nat, w: nat)
    ensures var m := PointMapSpec(points, h, w);
            m.Success? ==>
              && IsGrid(m.value, h, w)
              && forall r, c :: 0 <= r < h && 0 <= c < w ==> m.value[r][c] == 0.0 || m.value[r][c] == 1.0
  {
  }

  /** The array `a` holds the grid `g`. */
  predicate Holds(a: array2<real>, g: Raster)
    reads a
  {
    IsGrid(g, a.Length0, a.Length1) && forall r, c :: 0 <= r < a.Length0 && 0 <= c < a.Length1 ==> a[r, c] == g[r][c]
  }

  /** `for point in ...: ... point_map[y, x] = 1.0` on a zeroed map. */
  method MarkPoints(pointMap: array2<real>, pts: seq<seq<real>>) returns (ok: bool)
    requires forall r, c :: 0 <= r < pointMap.Length0 && 0 <= c < pointMap.Length1 ==> pointMap[r, c] == 0.0
    modifies pointMap
    ensures ok == AllValid(pts, pointMap.Length0, pointMap.Length1)
    ensures ok ==> forall r, c :: 0 <= r < pointMap.Length0 && 0 <= c < pointMap.Length1 ==>
                     pointMap[r, c] == (if Marked(pts, pointMap.Length0, pointMap.Length1, r, c) then 1.0 else 0.0)
  {
    var h, w := pointMap.Length0, pointMap.Length1;
    var i := 0;
    while i < |pts|
      invariant 0 <= i <= |pts|
      invariant AllValid(pts[..i], h, w)
      invariant forall r, c :: 0 <= r < h && 0 <= c < w ==>
                  pointMap[r, c] == (if Marked(pts[..i], h, w, r, c) then 1.0 else 0.0)
    {
      var point := pts[i];
      if |point| < 2 {
        assert !Target(pts[i], h, w).Success?;
        return false;
      }
      var x, y := Round(point[0]), Round(point[1]);
      if x < w && y < h {
        if y < -(h as int) || x < -(w as int) {
          assert !Target(pts[i], h, w).Success?;
          return false;
        }
        pointMap[Wrap(y, h), Wrap(x, w)] := 1.0;
      }
      MarkedStep(pts, i, h, w);
      i := i + 1;
    }
    assert pts[..i] == pts;
    ok := true;
  }

  /** Taking one more point adds exactly that point's pixel, and keeps every
      point valid if the new one is. */
  lemma MarkedStep(pts: seq<seq<real>>, i: nat, h: nat, w: nat)
    requires i < |pts|
    ensures forall r, c :: Marked(pts[..i + 1], h, w, r, c) <==>
              (Marked(pts[..i], h, w, r, c) || Target(pts[i], h, w) == Success(Some((r, c))))
    ensures AllValid(pts[..i + 1], h, w) <==> (AllValid(pts[..i], h, w) && Target(pts[i], h, w).Success?)
  {
    var pre, next := pts[..i], pts[..i + 1];
    assert forall k :: 0 <= k < i ==> next[k] == pre[k];
    assert next[i] == pts[i];
  }

  /** `points_to_point_map`: a zeroed `h x w` map, then the loop over `points[0]`. */
  method PointsToPointMap(points: Points, shape: (nat, nat)) returns (res: Result<array2<real>>)
    ensures var spec := PointMapSpec(points, shape.0, shape.1);
            && res.Failure? == spec.Failure?
            && (res.Failure? ==> res.error == spec.error)
            && (res.Success? ==> fresh(res.value) && Holds(res.value, spec.value))
  {
    var h, w := shape.0, shape.1;
    var pointMap := new real[h, w]((r, c) => 0.0);
    match points
    case Record(location) =>
      var ok := MarkPoints(pointMap, location);
      res := if ok then Success(pointMap) else Failure(IndexOutOfRange);
    case Matrix(rows) =>
      if |rows| == 0 {
        return Failure(IndexOutOfRange);
      }
      if |rows[0]| > 0 {
        return Failure(IndexOutOfRange);
      }
      res := Success(pointMap);
    case Stack(planes) =>
      if |planes| == 0 {
        return Failure(IndexOutOfRange);
      }
      var ok := MarkPoints(pointMap, planes[0]);
      res := if ok then Success(pointMap) else Failure(IndexOutOfRange);
  }

  /** The key dispatch of `load_gt_from_mat`: `image_info` first, then `annPoints`. */
  function SelectPoints(mat: MatFile): (r: Result<Points>)
    ensures mat.imageInfo.Some? ==> r == Success(Record(mat.imageInfo.value))
    ensures mat.imageInfo.None? && mat.annPoints.Some? ==> r == Success(mat.annPoints.value)
    ensures r.Failure? <==> mat.imageInfo.None? && mat.annPoints.None?
    ensures r.Failure? ==> r.error == FormatNotRecognized
  {
    if mat.imageInfo.Some? then Success(Record(mat.imageInfo.value))
    else if mat.annPoints.Some? then Success(mat.annPoints.value)
    else Failure(FormatNotRecognized)
  }

  /** `if points.ndim == 3: points = points[0]`; the record is 0-dimensional. */
  function DropLeadingAxis(p: Points): (r: Result<Points>)
    ensures r.Success? ==> !r.value.Stack?
    ensures !p.Stack? ==> r == Success(p)
    ensures p.Stack? && |p.planes| > 0 ==> r == Success(Matrix(p.planes[0]))
    ensures r.Failure? <==> p == Stack([])
    ensures r.Failure? ==> r.error == IndexOutOfRange
  {
    match p
    case Stack(planes) => if |planes| == 0 then Failure(IndexOutOfRange) else Success(Matrix(planes[0]))
    case _ => Success(p)
  }

  /** `load_gt_from_mat(mat, (width, height))` as written. */
  function LoadGtSpec(mat: MatFile, originalSize: (nat, nat)): Result<Raster>
  {
    match SelectPoints(mat)
    case Failure(e) => Failure(e)
    case Success(p) =>
      match DropLeadingAxis(p)
      case Failure(e) => Failure(e)
      case Success(q) => PointMapSpec(q, originalSize.1, originalSize.0)
  }

  /** `load_gt_from_mat`: pick the points, drop a leading axis, rasterise at `(height, width)`. */
  method LoadGtFromMat(mat: MatFile, originalSize: (nat, nat)) returns (res: Result<array2<real>>)
    ensures var spec := LoadGtSpec(mat, originalSize);
            && res.Failure? == spec.Failure?
            && (res.Failure? ==> res.error == spec.error)
            && (res.Success? ==> fresh(res.value) && Holds(res.value, spec.value))
  {
    var points: Points;
    if mat.imageInfo.Some? {
      points := Record(mat.imageInfo.value);
    } else if mat.annPoints.Some? {
      points := mat.annPoints.value;
    } else {
      return Failure(FormatNotRecognized);
    }
    if points.Stack? {
      if |points.planes| == 0 {
        return Failure(IndexOutOfRange);
      }
      points := Matrix(points.planes[0]);
    }
    var orig := (originalSize.1, originalSize.0);
    res := PointsToPointMap(points, orig);
  }

  /** The pixels marked by two point lists in turn are those marked by either,
      and both must be free of raising points. */
  lemma MarkedConcat(a: seq<seq<real>>, b: seq<seq<real>>, h: nat, w: nat)
    ensures forall r, c :: Marked(a + b, h, w, r, c) <==> (Marked(a, h, w, r, c) || Marked(b, h, w, r, c))
    ensures AllValid(a + b, h, w) <==> (AllValid(a, h, w) && AllValid(b, h, w))
  {
    var ab := a + b;
    assert forall k :: 0 <= k < |a| ==> ab[k] == a[k];
    assert forall k :: 0 <= k < |b| ==> ab[|a| + k] == b[k];
    forall r, c | Marked(ab, h, w, r, c) ensures Marked(a, h, w, r, c) || Marked(b, h, w, r, c) {
      var k :| 0 <= k < |ab| && Target(ab[k], h, w) == Success(Some((r, c)));
      if k >= |a| {
        assert Target(b[k - |a|], h, w) == Success(Some((r, c)));
      }
    }
    forall r, c | Marked(b, h, w, r, c) ensures Marked(ab, h, w, r, c) {
      var k :| 0 <= k < |b| && Target(b[k], h, w) == Success(Some((r, c)));
      assert Target(ab[|a| + k], h, w) == Success(Some((r, c)));
    }
    if AllValid(ab, h, w) {
      forall k | 0 <= k < |b| ensures Target(b[k], h, w).Success? {
        assert Target(ab[|a| + k], h, w).Success?;
      }
    }
  }

  /** Point lists that raise alike and mark the same pixels give the same map. */
  lemma SameMarks(p: seq<seq<real>>, q: seq<seq<real>>, h: nat, w: nat)
    requires AllValid(p, h, w) <==> AllValid(q, h, w)
    requires forall r, c :: Marked(p, h, w, r, c) <==> Marked(q, h, w, r, c)
    ensures RasterSpec(p, h, w) == RasterSpec(q, h, w)
  {
    if AllValid(p, h, w) {
      var x := RasterSpec(p, h, w).value;
      var y := RasterSpec(q, h, w).value;
      forall r | 0 <= r < h ensures x[r] == y[r] {
        assert forall c :: 0 <= c < w ==> x[r][c] == y[r][c];
      }
      assert x == y;
    }
  }

  /** The map does not depend on the order of the points: any permutation of
      the point list gives the same map, or the same error. */
  lemma PointOrderIrrelevant(p: seq<seq<real>>, q: seq<seq<real>>, h: nat, w: nat)
    requires multiset(p) == multiset(q)
    ensures RasterSpec(p, h, w) == RasterSpec(q, h, w)
  {
    forall x ensures x in p <==> x in q {
      assert x in p <==> x in multiset(p);
      assert x in q <==> x in multiset(q);
    }
    PointSetDetermines(p, q, h, w);
  }

  /** Only which points occur matters: neither their order nor repeats change the map. */
  lemma PointSetDetermines(p: seq<seq<real>>, q: seq<seq<real>>, h: nat, w: nat)
    requires forall x :: x in p <==> x in q
    ensures RasterSpec(p, h, w) == RasterSpec(q, h, w)
  {
    Covered(p, q, h, w);
    Covered(q, p, h, w);
    SameMarks(p, q, h, w);
  }

  /** Every point of `q` also occurs in `p`: `q` marks no more and is valid if `p` is. */
  lemma Covered(p: seq<seq<real>>, q: seq<seq<real>>, h: nat, w: nat)
    requires forall x :: x in q ==> x in p
    ensures forall r, c :: Marked(q, h, w, r, c) ==> Marked(p, h, w, r, c)
    ensures AllValid(p, h, w) ==> AllValid(q, h, w)
  {
    forall r, c | Marked(q, h, w, r, c) ensures Marked(p, h, w, r, c) {
      var j :| 0 <= j < |q| && Target(q[j], h, w) == Success(Some((r, c)));
      assert q[j] in p;
      var k :| 0 <= k < |p| && p[k] == q[j];
      assert Target(p[k], h, w) == Success(Some((r, c)));
    }
    if AllValid(p, h, w) {
      forall j | 0 <= j < |q| ensures Target(q[j], h, w).Success? {
        assert q[j] in p;
        var k :| 0 <= k < |p| && p[k] == q[j];
      }
    }
  }

  /** A point whose rounded `x` is at least `w` or whose rounded `y` is at least
      `h` is skipped by the bounds test and changes nothing. */
  lemma OutOfBoundsPointIgnored(pts: seq<seq<real>>, p: seq<real>, h: nat, w: nat)
    requires |p| >= 2 && (Round(p[0]) >= w || Round(p[1]) >= h)
    ensures RasterSpec(pts + [p], h, w) == RasterSpec(pts, h, w)
  {
    MarkedConcat(pts, [p], h, w);
    assert !Marked([p], h, w, 0, 0) && forall r, c :: !Marked([p], h, w, r, c);
    SameMarks(pts + [p], pts, h, w);
  }

  /** The map is binary: a point landing on a pixel another point already marks
      (coincident heads, or two coordinates rounding alike) changes nothing. */
  lemma CoincidentPointIgnored(pts: seq<seq<real>>, p: seq<real>, h: nat, w: nat, k: nat)
    requires k < |pts| && Target(p, h, w) == Target(pts[k], h, w) && Target(p, h, w).Success?
    ensures RasterSpec(pts + [p], h, w) == RasterSpec(pts, h, w)
  {
    MarkedConcat(pts, [p], h, w);
    forall r, c | Marked([p], h, w, r, c) ensures Marked(pts, h, w, r, c) {
      assert Target(pts[k], h, w) == Success(Some((r, c)));
    }
    SameMarks(pts + [p], pts, h, w);
  }

  /** A rounded coordinate in `[-h, h) x [-w, w)` passes the bounds test and,
      when negative, counts from the far edge as numpy indexing does: whenever
      the map is built, the pixel it names (wrapped) holds 1. */
  lemma NegativeCoordinatesWrap(pts: seq<seq<real>>, h: nat, w: nat, k: nat)
    requires k < |pts| && |pts[k]| >= 2
    requires -(h as int) <= Round(pts[k][1]) < h && -(w as int) <= Round(pts[k][0]) < w
    ensures Target(pts[k], h, w).Success?
    ensures var m := RasterSpec(pts, h, w);
            m.Success? ==> m.value[Wrap(Round(pts[k][1]), h)][Wrap(Round(pts[k][0]), w)] == 1.0
  {
    var r, c := Wrap(Round(pts[k][1]), h), Wrap(Round(pts[k][0]), w);
    assert Target(pts[k], h, w) == Success(Some((r, c)));
    assert Marked(pts, h, w, r, c);
  }

  /** The bottom-right pixel, as `(-1, -1)` writes it. */
  lemma MinusOneIsLastPixel(h: nat, w: nat)
    requires h >= 1 && w >= 1
    ensures RasterSpec([[-1.0, -1.0]], h, w).Success?
    ensures RasterSpec([[-1.0, -1.0]], h, w).value[h - 1][w - 1] == 1.0
  {
    assert Round(-1.0) == -1;
    NegativeCoordinatesWrap([[-1.0, -1.0]], h, w, 0);
  }

  /** A rounded coordinate below `-h` (or `-w`) that passes the bounds test
      indexes past the axis: the whole map fails with an index error, not a
      skipped point. */
  lemma FarNegativeCoordinateRaises(pts: seq<seq<real>>, h: nat, w: nat, k: nat)
    requires k < |pts| && |pts[k]| >= 2
    requires Round(pts[k][0]) < w && Round(pts[k][1]) < h
    requires Round(pts[k][1]) < -(h as int) || Round(pts[k][0]) < -(w as int)
    ensures RasterSpec(pts, h, w) == Failure(IndexOutOfRange)
    ensures PointMapSpec(Record(pts), h, w) == Failure(IndexOutOfRange)
    ensures PointMapSpec(Stack([pts]), h, w) == Failure(IndexOutOfRange)
  {
    assert !Target(pts[k], h, w).Success?;
    assert !AllValid(pts, h, w);
    assert [pts][0] == pts;
  }

  /** `load_gt_from_mat` reads `image_info` whenever it is present, `annPoints`
      otherwise, fails on a file with neither, and returns a `height x width`
      map for an `original_size` of `(width, height)`. */
  lemma LoadGtDispatch(mat: MatFile, originalSize: (nat, nat))
    ensures mat.imageInfo.None? && mat.annPoints.None? ==> LoadGtSpec(mat, originalSize) == Failure(FormatNotRecognized)
    ensures mat.imageInfo.Some? ==>
              LoadGtSpec(mat, originalSize) == RasterSpec(mat.imageInfo.value, originalSize.1, originalSize.0)
    ensures mat.imageInfo.None? && mat.annPoints.Some? && !mat.annPoints.value.Stack? ==>
              LoadGtSpec(mat, originalSize) == PointMapSpec(mat.annPoints.value, originalSize.1, originalSize.0)
    ensures mat.imageInfo.None? && mat.annPoints.Some? && mat.annPoints.value.Stack? ==>
              var planes := mat.annPoints.value.planes;
              LoadGtSpec(mat, originalSize) ==
                if |planes| == 0 then Failure(IndexOutOfRange) else PointMapSpec(Matrix(planes[0]), originalSize.1, originalSize.0)
    ensures LoadGtSpec(mat, originalSize).Success? ==> IsGrid(LoadGtSpec(mat, originalSize).value, originalSize.1, originalSize.0)
  {
  }

  /** As written, every `annPoints` array of `N x 2` points, also stored as
      `[1, N, 2]`, makes `load_gt_from_mat` raise: `points[0]` is the first point
      (or does not exist), never the list of points. */
  lemma AnnPointsAlwaysFail(rows: seq<seq<real>>, originalSize: (nat, nat))
    requires forall k :: 0 <= k < |rows| ==> |rows[k]| == 2
    ensures LoadGtSpec(MatFile(None, Some(Matrix(rows))), originalSize) == Failure(IndexOutOfRange)
    ensures LoadGtSpec(MatFile(None, Some(Stack([rows]))), originalSize) == Failure(IndexOutOfRange)
  {
  }

  /** The rows `points_to_point_map` is meant to iterate: the record's location
      array, or the rows of the (already two-dimensional) array. */
  function PointRows(p: Points): Result<seq<seq<real>>>
  {
    match p
    case Record(location) => Success(location)
    case Matrix(rows) => Success(rows)
    case Stack(planes) => if |planes| == 0 then Failure(IndexOutOfRange) else Success(planes[0])
  }

  /** `load_gt_from_mat` with `points_to_point_map` iterating every point row. */
  function LoadGtFixed(mat: MatFile, originalSize: (nat, nat)): Result<Raster>
  {
    match SelectPoints(mat)
    case Failure(e) => Failure(e)
    case Success(p) =>
      match DropLeadingAxis(p)
      case Failure(e) => Failure(e)
      case Success(q) =>
        match PointRows(q)
        case Failure(e) => Failure(e)
        case Success(rows) => RasterSpec(rows, originalSize.1, originalSize.0)
  }

  /** The correction leaves the ShanghaiTech layout, which works as written, unchanged. */
  lemma FixedAgreesOnImageInfo(mat: MatFile, originalSize: (nat, nat))
    requires mat.imageInfo.Some?
    ensures LoadGtFixed(mat, originalSize) == LoadGtSpec(mat, originalSize)
  {
  }

  /** Corrected, an `annPoints` array whose points all round into the image
      gives a map with a 1 at every point `(x, y)`, at row `y` and column `x`,
      and nowhere else; the same array stored as `[1, N, 2]` gives the same map. */
  lemma FixedMarksEveryPoint(rows: seq<seq<real>>, originalSize: (nat, nat))
    requires forall k :: 0 <= k < |rows| ==>
               |rows[k]| >= 2 && 0 <= Round(rows[k][0]) < originalSize.0 && 0 <= Round(rows[k][1]) < originalSize.1
    ensures LoadGtFixed(MatFile(None, Some(Matrix(rows))), originalSize).Success?
    ensures var m := LoadGtFixed(MatFile(None, Some(Matrix(rows))), originalSize).value;
            && IsGrid(m, originalSize.1, originalSize.0)
            && (forall k :: 0 <= k < |rows| ==> m[Round(rows[k][1])][Round(rows[k][0])] == 1.0)
            && (forall r, c :: 0 <= r < originalSize.1 && 0 <= c < originalSize.0 && m[r][c] != 0.0 ==>
                  exists k :: 0 <= k < |rows| && r == Round(rows[k][1]) && c == Round(rows[k][0]))
    ensures LoadGtFixed(MatFile(None, Some(Stack([rows]))), originalSize) ==
            LoadGtFixed(MatFile(None, Some(Matrix(rows))), originalSize)
  {
    var h, w := originalSize.1, originalSize.0;
    assert [rows][0] == rows;
    assert AllValid(rows, h, w);
    var m := LoadGtFixed(MatFile(None, Some(Matrix(rows))), originalSize).value;
    forall k | 0 <= k < |rows| ensures m[Round(rows[k][1])][Round(rows[k][0])] == 1.0 {
      assert Marked(rows, h, w, Round(rows[k][1]), Round(rows[k][0]));
    }
  }

  /** One annotated head at `(x, y) = (1, 2)` in a 4-wide, 3-high image: as
      written the loader raises; corrected it marks row 2, column 1. */
  lemma OneHeadCounterexample()
    ensures LoadGtSpec(MatFile(None, Some(Matrix([[1.0, 2.0]]))), (4, 3)) == Failure(IndexOutOfRange)
    ensures LoadGtFixed(MatFile(None, Some(Matrix([[1.0, 2.0]]))), (4, 3)).Success?
    ensures LoadGtFixed(MatFile(None, Some(Matrix([[1.0, 2.0]]))), (4, 3)).value[2][1] == 1.0
  {
    assert Round(1.0) == 1 && Round(2.0) == 2;
    FixedMarksEveryPoint([[1.0, 2.0]], (4, 3));
  }
}
