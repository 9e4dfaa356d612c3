/** `reassemble_from_patches`: walk the same row-major grid as the split,
    add each patch into an accumulator and 1 into a count map over its
    footprint, divide by `count + 1e-6` and crop the padding away. */
module Reassemble {
  import opened Common
  import opened Tiling
  import opened Split

  /** The `1e-6` added to the count before dividing. */
  const Eps: real := 0.000001

  function Abs(x: real): real { if x < 0.0 then -x else x }

  /** The normalised value of a pixel: accumulated total over count plus `Eps`. */
  function Averaged(total: real, n: nat): real
  {
    total / (n as real + Eps)
  }

  /** `x` equals `v` up to a relative error of `Eps`. */
  predicate Near(x: real, v: real)
  {
    Abs(x - v) <= Eps * Abs(v)
  }

  /** Pixel `(r, c)` lies in the `ph x pw` footprint whose top-left corner is `p`. */
  predicate Covers(p: (int, int), ph: nat, pw: nat, r: int, c: int)
  {
    p.0 <= r < p.0 + ph && p.1 <= c < p.1 + pw
  }

  /** What one patch with corner `p` adds to the accumulator at `(r, c)`. */
  function Contribution(patch: Raster, p: (int, int), ph: nat, pw: nat, r: int, c: int): real
  {
    if Covers(p, ph, pw, r, c) then At(patch, r - p.0, c - p.1) else 0.0
  }

  /** Number of footprints among `ps` that contain `(r, c)`: the count map's value. */
  function CoverCount(ps: seq<(int, int)>, ph: nat, pw: nat, r: int, c: int): nat
  {
    if |ps| == 0 then 0
    else CoverCount(ps[..|ps| - 1], ph, pw, r, c) + (if Covers(ps[|ps| - 1], ph, pw, r, c) then 1 else 0)
  }

  /** Sum at `(r, c)` of the patches placed at the corners `ps`, patch `k` at corner `k`:
      the accumulator's value. */
  function AccAt(patches: seq<Raster>, ps: seq<(int, int)>, ph: nat, pw: nat, r: int, c: int): real
    requires |ps| <= |patches|
  {
    if |ps| == 0 then 0.0
    else AccAt(patches, ps[..|ps| - 1], ph, pw, r, c) + Contribution(patches[|ps| - 1], ps[|ps| - 1], ph, pw, r, c)
  }

  /** The exception the loop runs into, if any, when `n` patches are due.
      `patches[0]` is read before the loop, so an empty list fails even when no
      patch is due; a consumed patch of the wrong shape fails the `+=`; running
      out of patches fails the indexing; surplus patches are never read. */
  function ReassembleFault(patches: seq<Raster>, n: nat, ph: nat, pw: nat): (f: Option<Error>)
    ensures f == None <==> (0 < |patches| && n <= |patches| && forall k :: 0 <= k < n ==> IsGrid(patches[k], ph, pw))
    ensures f == Some(IndexOutOfRange) <==>
              (|patches| == 0 || (|patches| < n && forall k :: 0 <= k < |patches| ==> IsGrid(patches[k], ph, pw)))
    ensures f == None || f == Some(IndexOutOfRange) || f == Some(ShapeMismatch)
  {
    if |patches| == 0 then Some(IndexOutOfRange)
    else if exists k :: 0 <= k < n && k < |patches| && !IsGrid(patches[k], ph, pw) then Some(ShapeMismatch)
    else if |patches| < n then Some(IndexOutOfRange)
    else None
  }

  /** Reference definition: every output pixel is the accumulated value over the
      overlap count plus `Eps`, on the `h x w` top-left part of the padded grid. */
  function Reassembled(patches: seq<Raster>, h: nat, w: nat, ph: nat, pw: nat, vOverlap: Ratio, hOverlap: Ratio): Result<Raster>
    requires vOverlap.den > 0 && hOverlap.den > 0
  {
    var ps := Plan(h, w, ph, pw, vOverlap, hOverlap).Positions();
    match ReassembleFault(patches, |ps|, ph, pw)
    case Some(e) => Failure(e)
    case None =>
      Success(seq(h, r => seq(w, c => Averaged(AccAt(patches, ps, ph, pw, r, c), CoverCount(ps, ph, pw, r, c)))))
  }

  /** Two `h x w` grids with the same values are equal. */
  lemma GridExt(x: Raster, y: Raster, h: nat, w: nat)
    requires IsGrid(x, h, w) && IsGrid(y, h, w)
    requires forall r, c :: 0 <= r < h && 0 <= c < w ==> x[r][c] == y[r][c]
    ensures x == y
  {
    forall r | 0 <= r < h ensures x[r] == y[r] {
      assert forall c :: 0 <= c < w ==> x[r][c] == y[r][c];
    }
  }

  /** `accumulator[i:i+ph, j:j+pw] += patch` and `count_map[i:i+ph, j:j+pw] += 1`. */
  method AddPatch(acc: array2<real>, count: array2<int>, patch: Raster, i: nat, j: nat, ph: nat, pw: nat)
    requires IsGrid(patch, ph, pw)
    requires i + ph <= acc.Length0 && j + pw <= acc.Length1
    requires count.Length0 == acc.Length0 && count.Length1 == acc.Length1
    modifies acc, count
    ensures forall r, c :: 0 <= r < acc.Length0 && 0 <= c < acc.Length1 ==>
              && acc[r, c] == old(acc[r, c]) + Contribution(patch, (i, j), ph, pw, r, c)
              && count[r, c] == old(count[r, c]) + (if Covers((i, j), ph, pw, r, c) then 1 else 0)
  {
    var y := 0;
    while y < ph
      invariant 0 <= y <= ph
      invariant forall r, c :: 0 <= r < acc.Length0 && 0 <= c < acc.Length1 ==>
                  && acc[r, c] == old(acc[r, c]) + (if Covers((i, j), y, pw, r, c) then patch[r - i][c - j] else 0.0)
                  && count[r, c] == old(count[r, c]) + (if Covers((i, j), y, pw, r, c) then 1 else 0)
    {
      var x := 0;
      while x < pw
        invariant 0 <= x <= pw
        invariant forall r, c :: 0 <= r < acc.Length0 && 0 <= c < acc.Length1 ==>
                    var done := Covers((i, j), y, pw, r, c) || (r == i + y && j <= c < j + x);
                    && acc[r, c] == old(acc[r, c]) + (if done then patch[r - i][c - j] else 0.0)
                    && count[r, c] == old(count[r, c]) + (if done then 1 else 0)
      {
        acc[i + y, j + x] := acc[i + y, j + x] + patch[y][x];
        count[i + y, j + x] := count[i + y, j + x] + 1;
        x := x + 1;
      }
      y := y + 1;
    }
  }

  /** `(accumulator / (count_map + 1e-6))[:h, :w]`. */
  method Normalise(acc: array2<real>, count: array2<int>, h: nat, w: nat) returns (out: Raster)
    requires h <= acc.Length0 && w <= acc.Length1
    requires count.Length0 == acc.Length0 && count.Length1 == acc.Length1
    requires forall r, c :: 0 <= r < h && 0 <= c < w ==> count[r, c] >= 0
    ensures IsGrid(out, h, w)
    ensures forall r, c :: 0 <= r < h && 0 <= c < w ==> out[r][c] == Averaged(acc[r, c], count[r, c])
  {
    out := [];
    var r := 0;
    while r < h
      invariant 0 <= r <= h && |out| == r
      invariant forall y :: 0 <= y < r ==> |out[y]| == w
      invariant forall y, c :: 0 <= y < r && 0 <= c < w ==> out[y][c] == Averaged(acc[y, c], count[y, c])
    {
      var line: seq<real> := [];
      var c := 0;
      while c < w
        invariant 0 <= c <= w && |line| == c
        invariant forall x :: 0 <= x < c ==> line[x] == Averaged(acc[r, x], count[r, x])
      {
        line := line + [Averaged(acc[r, c], count[r, c])];
        c := c + 1;
      }
      out := out + [line];
      r := r + 1;
    }
  }

  /** `reassemble_from_patches`: accumulate every patch at its corner, then normalise and crop. */
  method ReassembleFromPatches(patches: seq<Raster>, h: nat, w: nat, ph: nat, pw: nat, vOverlap: Ratio, hOverlap: Ratio)
    returns (res: Result<Raster>)
    requires vOverlap.den > 0 && hOverlap.den > 0
    ensures res == Reassembled(patches, h, w, ph, pw, vOverlap, hOverlap)
  {
    var g := Plan(h, w, ph, pw, vOverlap, hOverlap);
    if |patches| == 0 {
      return Failure(IndexOutOfRange);
    }
    var acc := new real[h + g.padH, w + g.padW]((r, c) => 0.0);
    var count := new int[h + g.padH, w + g.padW]((r, c) => 0);
    var fault := AccumulateGrid(acc, count, patches, ph, pw, g.vStride, g.hStride);
    ghost var ps := g.Positions();
    assert ps == RowMajor(Starts(acc.Length0, ph, g.vStride), Starts(acc.Length1, pw, g.hStride), g.vStride, g.hStride);
    if fault.Some? {
      return Failure(fault.value);
    }
    var out := Normalise(acc, count, h, w);
    forall r, c | 0 <= r < h && 0 <= c < w
      ensures out[r][c] == Averaged(AccAt(patches, ps, ph, pw, r, c), CoverCount(ps, ph, pw, r, c))
    {
    }
    res := Success(out);
    assert Reassembled(patches, h, w, ph, pw, vOverlap, hOverlap)
           == Success(seq(h, r => seq(w, c => Averaged(AccAt(patches, ps, ph, pw, r, c), CoverCount(ps, ph, pw, r, c)))));
    GridExt(out, seq(h, r => seq(w, c => Averaged(AccAt(patches, ps, ph, pw, r, c), CoverCount(ps, ph, pw, r, c)))), h, w);
  }

  /** The nested loops of `reassemble_from_patches` over the whole padded grid,
      starting from zeroed arrays; consumes patch `k` at corner `k`. */
  method AccumulateGrid(acc: array2<real>, count: array2<int>, patches: seq<Raster>, ph: nat, pw: nat, vs: nat, hs: nat)
    returns (fault: Option<Error>)
    requires vs >= 1 && hs >= 1 && |patches| > 0
    requires count.Length0 == acc.Length0 && count.Length1 == acc.Length1
    requires forall r, c :: 0 <= r < acc.Length0 && 0 <= c < acc.Length1 ==> acc[r, c] == 0.0 && count[r, c] == 0
    modifies acc, count
    ensures var ps := RowMajor(Starts(acc.Length0, ph, vs), Starts(acc.Length1, pw, hs), vs, hs);
            && fault == ReassembleFault(patches, |ps|, ph, pw)
            && (fault == None ==>
                  forall r, c :: 0 <= r < acc.Length0 && 0 <= c < acc.Length1 ==>
                    && acc[r, c] == AccAt(patches, ps, ph, pw, r, c)
                    && count[r, c] == CoverCount(ps, ph, pw, r, c))
  {
    ghost var rows, cols := Starts(acc.Length0, ph, vs), Starts(acc.Length1, pw, hs);
    ghost var ps := RowMajor(rows, cols, vs, hs);
    var height := acc.Length0;
    var patchIndex := 0;
    var i := 0;
    ghost var a := 0;
    StartInRange(height, ph, vs, a);
    while i <= height - ph
      invariant a <= rows && i == a * vs
      invariant (i <= height - ph) == (a < rows)
      invariant patchIndex == |RowMajor(a, cols, vs, hs)| <= |patches|
      invariant forall k :: 0 <= k < |RowMajor(a, cols, vs, hs)| ==> IsGrid(patches[k], ph, pw)
      invariant forall r, c :: 0 <= r < acc.Length0 && 0 <= c < acc.Length1 ==>
                  && acc[r, c] == AccAt(patches, RowMajor(a, cols, vs, hs), ph, pw, r, c)
                  && count[r, c] == CoverCount(RowMajor(a, cols, vs, hs), ph, pw, r, c)
      decreases rows - a
    {
      RowMajorPrefix(a + 1, rows, cols, vs, hs);
      fault := AddRow(acc, count, patches, RowMajor(a, cols, vs, hs), patchIndex, i, ph, pw, hs);
      if fault.Some? {
        return;
      }
      patchIndex := patchIndex + Starts(acc.Length1, pw, hs);
      assert (a + 1) * vs == a * vs + vs;
      i := i + vs;
      a := a + 1;
      StartInRange(height, ph, vs, a);
    }
    fault := None;
  }

  /** The inner loop of `reassemble_from_patches` at height `i`: consumes one patch
      per column start, after the patches already placed at the corners `done`. */
  method AddRow(acc: array2<real>, count: array2<int>, patches: seq<Raster>, ghost done: seq<(int, int)>,
                start: nat, i: nat, ph: nat, pw: nat, hs: nat)
    returns (fault: Option<Error>)
    requires start == |done|
    requires hs >= 1 && i + ph <= acc.Length0
    requires count.Length0 == acc.Length0 && count.Length1 == acc.Length1
    requires |done| <= |patches| && forall k :: 0 <= k < |done| ==> IsGrid(patches[k], ph, pw)
    requires forall r, c :: 0 <= r < acc.Length0 && 0 <= c < acc.Length1 ==>
               && acc[r, c] == AccAt(patches, done, ph, pw, r, c)
               && count[r, c] == CoverCount(done, ph, pw, r, c)
    modifies acc, count
    ensures var next := done + Line(i, Starts(acc.Length1, pw, hs), hs);
            && (fault == None ==>
                  && |next| <= |patches|
                  && (forall k :: 0 <= k < |next| ==> IsGrid(patches[k], ph, pw))
                  && forall r, c :: 0 <= r < acc.Length0 && 0 <= c < acc.Length1 ==>
                       && acc[r, c] == AccAt(patches, next, ph, pw, r, c)
                       && count[r, c] == CoverCount(next, ph, pw, r, c))
            && (fault == Some(IndexOutOfRange) ==>
                  |patches| < |next| && forall k :: 0 <= k < |patches| ==> IsGrid(patches[k], ph, pw))
            && (fault == Some(ShapeMismatch) ==>
                  exists k :: 0 <= k < |next| && k < |patches| && !IsGrid(patches[k], ph, pw))
            && (fault == None || fault == Some(IndexOutOfRange) || fault == Some(ShapeMismatch))
  {
    ghost var cols := Starts(acc.Length1, pw, hs);
    var width := acc.Length1;
    var patchIndex := start;
    var j := 0;
    ghost var b := 0;
    StartInRange(width, pw, hs, b);
    assert done + Line(i, 0, hs) == done;
    while j <= width - pw
      invariant b <= cols && j == b * hs && patchIndex == |done| + b
      invariant (j <= width - pw) == (b < cols)
      invariant patchIndex <= |patches|
      invariant forall k :: 0 <= k < patchIndex ==> IsGrid(patches[k], ph, pw)
      invariant forall r, c :: 0 <= r < acc.Length0 && 0 <= c < acc.Length1 ==>
                  && acc[r, c] == AccAt(patches, done + Line(i, b, hs), ph, pw, r, c)
                  && count[r, c] == CoverCount(done + Line(i, b, hs), ph, pw, r, c)
      decreases cols - b
    {
      if patchIndex >= |patches| {
        return Some(IndexOutOfRange);
      }
      var current := patches[patchIndex];
      if !IsGrid(current, ph, pw) {
        return Some(ShapeMismatch);
      }
      AddPatch(acc, count, current, i, j, ph, pw);
      ghost var next := done + Line(i, b + 1, hs);
      assert next[..|next| - 1] == done + Line(i, b, hs);
      assert next[|next| - 1] == (i, j);
      patchIndex := patchIndex + 1;
      assert (b + 1) * hs == b * hs + hs;
      j := j + hs;
      b := b + 1;
      StartInRange(width, pw, hs, b);
    }
    fault := None;
  }

  /** A pixel inside the footprint of some corner is counted at least once. */
  lemma {:induction false} CoverCountPositive(ps: seq<(int, int)>, ph: nat, pw: nat, r: int, c: int, k: nat)
    requires k < |ps| && Covers(ps[k], ph, pw, r, c)
    ensures CoverCount(ps, ph, pw, r, c) >= 1
  {
    if k < |ps| - 1 {
      CoverCountPositive(ps[..|ps| - 1], ph, pw, r, c, k);
    }
  }

  /** On an axis of length `n` whose windows of length `p` start every `s <= p`
      and end flush with the axis, every coordinate lies in some window. */
  lemma AxisCover(n: nat, p: nat, s: nat, x: nat) returns (a: nat)
    requires 1 <= s <= p <= n && (n - p) % s == 0 && x < n
    ensures a < Starts(n, p, s) && a * s <= x < a * s + p
  {
    var q := (n - p) / s;
    assert n - p == q * s;
    var d := x / s;
    assert x == d * s + x % s;
    if d <= q {
      a := d;
    } else {
      a := q;
      MulMonotone(d, q + 1, s);
      assert (q + 1) * s == q * s + s;
    }
  }

  /** With strides no longer than the patch and a padded array at least one patch
      large, the count map is at least 1 everywhere: no pixel is left uncovered. */
  lemma EveryPixelCovered(g: Geometry, r: nat, c: nat)
    requires g.Valid()
    requires g.vStride <= g.patchH <= g.PaddedH() && g.hStride <= g.patchW <= g.PaddedW()
    requires r < g.PaddedH() && c < g.PaddedW()
    ensures CoverCount(g.Positions(), g.patchH, g.patchW, r, c) >= 1
  {
    var a := AxisCover(g.PaddedH(), g.patchH, g.vStride, r);
    var b := AxisCover(g.PaddedW(), g.patchW, g.hStride, c);
    var ps := g.Positions();
    var k := a * g.Cols() + b;
    RowMajorAt(g.Rows(), g.Cols(), g.vStride, g.hStride, a, b);
    assert ps[k] == (a * g.vStride, b * g.hStride);
    assert Covers(ps[k], g.patchH, g.patchW, r, c);
    CoverCountPositive(ps, g.patchH, g.patchW, r, c, k);
  }

  /** If every patch covering `(r, c)` holds `v` there, the accumulator holds
      `v` once per covering patch. */
  lemma {:induction false} AccAtUniform(patches: seq<Raster>, ps: seq<(int, int)>, ph: nat, pw: nat, r: int, c: int, v: real)
    requires |ps| <= |patches|
    requires forall k :: 0 <= k < |ps| && Covers(ps[k], ph, pw, r, c) ==> At(patches[k], r - ps[k].0, c - ps[k].1) == v
    ensures AccAt(patches, ps, ph, pw, r, c) == CoverCount(ps, ph, pw, r, c) as real * v
  {
    if |ps| > 0 {
      var init := ps[..|ps| - 1];
      assert forall k :: 0 <= k < |init| ==> init[k] == ps[k];
      AccAtUniform(patches, init, ph, pw, r, c, v);
    }
  }

  /** A pixel covered at least once, where every covering patch holds `v`, normalises to `v`. */
  lemma UniformPixelAveraged(patches: seq<Raster>, ps: seq<(int, int)>, ph: nat, pw: nat, r: int, c: int, v: real)
    requires |ps| <= |patches|
    requires forall k :: 0 <= k < |ps| && Covers(ps[k], ph, pw, r, c) ==> At(patches[k], r - ps[k].0, c - ps[k].1) == v
    requires CoverCount(ps, ph, pw, r, c) >= 1
    ensures Near(Averaged(AccAt(patches, ps, ph, pw, r, c), CoverCount(ps, ph, pw, r, c)), v)
  {
    AccAtUniform(patches, ps, ph, pw, r, c, v);
    PixelOfCopies(patches, ps, ph, pw, r, c, v);
  }

  lemma PixelOfCopies(patches: seq<Raster>, ps: seq<(int, int)>, ph: nat, pw: nat, r: int, c: int, v: real)
    requires |ps| <= |patches|
    requires CoverCount(ps, ph, pw, r, c) >= 1
    requires AccAt(patches, ps, ph, pw, r, c) == CoverCount(ps, ph, pw, r, c) as real * v
    ensures Near(Averaged(AccAt(patches, ps, ph, pw, r, c), CoverCount(ps, ph, pw, r, c)), v)
  {
    AverageOfCopies(CoverCount(ps, ph, pw, r, c), v, AccAt(patches, ps, ph, pw, r, c));
  }

  /** Dividing `n >= 1` copies of `v` by `n + Eps` gives `v` up to a relative error of `Eps`. */
  lemma AverageOfCopies(n: nat, v: real, total: real)
    requires n >= 1 && total == n as real * v
    ensures Near(Averaged(total, n), v)
  {
    var k := n as real;
    var d := k + Eps;
    assert d >= 1.0;
    assert k * v / d - v == -(Eps * v) / d by {
      assert k * v - v * d == -(Eps * v);
    }
    assert Abs(-(Eps * v) / d) == Eps * Abs(v) / d;
    DivideByAtLeastOne(Eps * Abs(v), d);
  }

  lemma DivideByAtLeastOne(x: real, d: real)
    requires x >= 0.0 && d >= 1.0
    ensures x / d <= x
  {
    var q := x / d;
    assert q * d == x;
    assert q >= 0.0;
    assert q * d - q == q * (d - 1.0) >= 0.0;
  }

  /** Only the first `n` patches enter the accumulator. */
  lemma {:induction false} AccAtPrefix(patches: seq<Raster>, extra: seq<Raster>, ps: seq<(int, int)>, ph: nat, pw: nat, r: int, c: int)
    requires |ps| <= |patches|
    ensures AccAt(patches + extra, ps, ph, pw, r, c) == AccAt(patches, ps, ph, pw, r, c)
  {
    if |ps| > 0 {
      AccAtPrefix(patches, extra, ps[..|ps| - 1], ph, pw, r, c);
      assert (patches + extra)[|ps| - 1] == patches[|ps| - 1];
    }
  }

  /** Patches beyond the number of grid corners are never read: appending more
      changes nothing, once the list is long enough. */
  lemma ExtraPatchesIgnored(patches: seq<Raster>, extra: seq<Raster>, h: nat, w: nat, ph: nat, pw: nat, vOverlap: Ratio, hOverlap: Ratio)
    requires vOverlap.den > 0 && hOverlap.den > 0
    requires 0 < |patches| && |Plan(h, w, ph, pw, vOverlap, hOverlap).Positions()| <= |patches|
    ensures Reassembled(patches + extra, h, w, ph, pw, vOverlap, hOverlap) == Reassembled(patches, h, w, ph, pw, vOverlap, hOverlap)
  {
    var ps := Plan(h, w, ph, pw, vOverlap, hOverlap).Positions();
    var longer := patches + extra;
    assert forall k :: 0 <= k < |ps| ==> longer[k] == patches[k];
    var f := ReassembleFault(patches, |ps|, ph, pw);
    assert ReassembleFault(longer, |ps|, ph, pw) == f;
    if f == None {
      var x := seq(h, r => seq(w, c => Averaged(AccAt(longer, ps, ph, pw, r, c), CoverCount(ps, ph, pw, r, c))));
      var y := seq(h, r => seq(w, c => Averaged(AccAt(patches, ps, ph, pw, r, c), CoverCount(ps, ph, pw, r, c))));
      forall r, c | 0 <= r < h && 0 <= c < w ensures x[r][c] == y[r][c] {
        AccAtPrefix(patches, extra, ps, ph, pw, r, c);
      }
      GridExt(x, y, h, w);
    }
  }
}
