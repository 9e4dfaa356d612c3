/** `split_into_patches`: reflect-pad at the bottom and right, then cut the
    padded array into overlapping `ph x pw` windows, row-major. */
module Split {
  import opened Common
  import opened Tiling

  /** What the function returns: the patch list, `(H, W)` and `(pad_h, pad_w)`. */
  datatype SplitOutput = SplitOutput(patches: seq<Raster>, originalShape: (nat, nat), padding: (nat, nat))

  /** numpy refuses to reflect-pad an axis of length zero by a nonzero amount. */
  predicate PadRefused(g: Geometry)
  {
    (g.height == 0 && g.padH > 0) || (g.width == 0 && g.padW > 0)
  }

  /** For the derived geometry, numpy refuses exactly when an empty axis needs
      padding, which happens when the patch length is not a multiple of its stride. */
  lemma PadRefusedWhen(h: nat, w: nat, ph: nat, pw: nat, vOverlap: Ratio, hOverlap: Ratio)
    requires vOverlap.den > 0 && hOverlap.den > 0
    ensures PadRefused(Plan(h, w, ph, pw, vOverlap, hOverlap)) <==>
              (h == 0 && (0 - ph) % Stride(ph, vOverlap) != 0) || (w == 0 && (0 - pw) % Stride(pw, hOverlap) != 0)
    ensures h > 0 && w > 0 ==> !PadRefused(Plan(h, w, ph, pw, vOverlap, hOverlap))
  {
  }

  /** Reference definition: patch `k` is the padded window at the `k`-th row-major corner. */
  function SplitSpec(arr: Raster, h: nat, w: nat, ph: nat, pw: nat, vOverlap: Ratio, hOverlap: Ratio): Result<SplitOutput>
    requires IsGrid(arr, h, w) && vOverlap.den > 0 && hOverlap.den > 0
  {
    SplitOf(arr, Plan(h, w, ph, pw, vOverlap, hOverlap))
  }

  /** The split for a given geometry: pad, then cut at every corner. */
  function SplitOf(arr: Raster, g: Geometry): Result<SplitOutput>
    requires g.Valid() && IsGrid(arr, g.height, g.width)
  {
    if PadRefused(g) then Failure(EmptyAxisPad)
    else
      var padded := PadReflect(arr, g.height, g.width, g.padH, g.padW);
      Success(SplitOutput(Cuts(padded, g.Positions(), g.patchH, g.patchW), (g.height, g.width), (g.padH, g.padW)))
  }

  /** `split_into_patches`: pad, then cut. */
  method SplitIntoPatches(arr: Raster, h: nat, w: nat, ph: nat, pw: nat, vOverlap: Ratio, hOverlap: Ratio)
    returns (res: Result<SplitOutput>)
    requires IsGrid(arr, h, w) && vOverlap.den > 0 && hOverlap.den > 0
    ensures res == SplitSpec(arr, h, w, ph, pw, vOverlap, hOverlap)
  {
    var g := Plan(h, w, ph, pw, vOverlap, hOverlap);
    res := PadAndCut(arr, g);
  }

  /** The body of `split_into_patches` once strides and padding are chosen. */
  method PadAndCut(arr: Raster, g: Geometry) returns (res: Result<SplitOutput>)
    requires g.Valid() && IsGrid(arr, g.height, g.width)
    ensures res == SplitOf(arr, g)
  {
    var h, w := g.height, g.width;
    if (h == 0 && g.padH > 0) || (w == 0 && g.padW > 0) {
      return Failure(EmptyAxisPad);
    }
    var padded := PadReflect(arr, h, w, g.padH, g.padW);
    var patches := CutGrid(padded, h + g.padH, w + g.padW, g.patchH, g.patchW, g.vStride, g.hStride);
    res := Success(SplitOutput(patches, (h, w), (g.padH, g.padW)));
  }

  /** The nested loops of `split_into_patches`, appending one window per corner. */
  method CutGrid(padded: Raster, height: nat, width: nat, ph: nat, pw: nat, vs: nat, hs: nat)
    returns (patches: seq<Raster>)
    requires vs >= 1 && hs >= 1
    ensures patches == Cuts(padded, RowMajor(Starts(height, ph, vs), Starts(width, pw, hs), vs, hs), ph, pw)
  {
    ghost var rows, cols := Starts(height, ph, vs), Starts(width, pw, hs);
    patches := [];
    var i := 0;
    ghost var a := 0;
    StartInRange(height, ph, vs, a);
    while i <= height - ph
      invariant a <= rows && i == a * vs
      invariant (i <= height - ph) == (a < rows)
      invariant patches == Cuts(padded, RowMajor(a, cols, vs, hs), ph, pw)
      decreases rows - a
    {
      var row := CutRow(padded, width, i, ph, pw, hs);
      CutsAppend(padded, RowMajor(a, cols, vs, hs), Row(a, cols, vs, hs), ph, pw);
      patches := patches + row;
      assert (a + 1) * vs == a * vs + vs;
      i := i + vs;
      a := a + 1;
      StartInRange(height, ph, vs, a);
    }
  }

  /** The inner loop of `split_into_patches`: the windows whose top edge is row `i`,
      left to right, one every `hs` columns while the window still fits. */
  method CutRow(padded: Raster, width: nat, i: nat, ph: nat, pw: nat, hs: nat) returns (row: seq<Raster>)
    requires hs >= 1
    ensures row == Cuts(padded, Line(i, Starts(width, pw, hs), hs), ph, pw)
  {
    ghost var count := Starts(width, pw, hs);
    row := [];
    var j := 0;
    StartInRange(width, pw, hs, 0);
    while j <= width - pw
      invariant j == |row| * hs && |row| <= count
      invariant (j <= width - pw) == (|row| < count)
      invariant row == Cuts(padded, Line(i, |row|, hs), ph, pw)
      decreases width - j
    {
      assert Line(i, |row| + 1, hs)[..|row|] == Line(i, |row|, hs);
      row := row + [Window(padded, i, j, ph, pw)];
      assert |row| * hs == j + hs;
      j := j + hs;
      StartInRange(width, pw, hs, |row|);
    }
  }

  /** The call fails exactly when numpy refuses the padding; otherwise it
      returns one `ph x pw` patch per grid corner, the input shape, and the
      padding the geometry chose. */
  lemma SplitShape(arr: Raster, h: nat, w: nat, ph: nat, pw: nat, vOverlap: Ratio, hOverlap: Ratio)
    requires IsGrid(arr, h, w) && vOverlap.den > 0 && hOverlap.den > 0
    ensures var g := Plan(h, w, ph, pw, vOverlap, hOverlap);
            var res := SplitSpec(arr, h, w, ph, pw, vOverlap, hOverlap);
            && (res.Failure? <==> PadRefused(g))
            && (res.Failure? ==> res.error == EmptyAxisPad)
            && (res.Success? ==>
                  && |res.value.patches| == g.Rows() * g.Cols()
                  && (forall k :: 0 <= k < |res.value.patches| ==> IsGrid(res.value.patches[k], ph, pw))
                  && res.value.originalShape == (h, w)
                  && res.value.padding == (g.padH, g.padW))
  {
    var g := Plan(h, w, ph, pw, vOverlap, hOverlap);
    if !PadRefused(g) {
      var padded := PadReflect(arr, h, w, g.padH, g.padW);
      var ps := g.Positions();
      forall k | 0 <= k < |ps| ensures IsGrid(Cuts(padded, ps, ph, pw)[k], ph, pw) {
        CutsAt(padded, ps, ph, pw, k);
      }
    }
  }

  /** Patch `k` holds, at `(y, x)`, the pixel that reflect padding puts at its
      corner plus `(y, x)`; inside the input that is the input's own pixel.
      Corner `a * Cols() + b` is `(a * vStride, b * hStride)` (`RowMajorAt`). */
  lemma SplitPatchValue(arr: Raster, h: nat, w: nat, ph: nat, pw: nat, vOverlap: Ratio, hOverlap: Ratio,
                        k: nat, y: nat, x: nat)
    requires IsGrid(arr, h, w) && h >= 1 && w >= 1 && vOverlap.den > 0 && hOverlap.den > 0
    requires k < |Plan(h, w, ph, pw, vOverlap, hOverlap).Positions()| && y < ph && x < pw
    ensures SplitSpec(arr, h, w, ph, pw, vOverlap, hOverlap).Success?
    ensures var p := Plan(h, w, ph, pw, vOverlap, hOverlap).Positions()[k];
            var patches := SplitSpec(arr, h, w, ph, pw, vOverlap, hOverlap).value.patches;
            && k < |patches| && IsGrid(patches[k], ph, pw)
            && patches[k][y][x] == arr[Reflect(p.0 + y, h)][Reflect(p.1 + x, w)]
            && (p.0 + y < h && p.1 + x < w ==> patches[k][y][x] == arr[p.0 + y][p.1 + x])
  {
    var g := Plan(h, w, ph, pw, vOverlap, hOverlap);
    var padded := PadReflect(arr, h, w, g.padH, g.padW);
    var ps := g.Positions();
    var patches := Cuts(padded, ps, ph, pw);
    assert SplitSpec(arr, h, w, ph, pw, vOverlap, hOverlap) == Success(SplitOutput(patches, (h, w), (g.padH, g.padW)));
    CutsAt(padded, ps, ph, pw, k);
    WindowAt(padded, ps[k].0, ps[k].1, ph, pw, y, x);
    assert patches[k][y][x] == padded[ps[k].0 + y][ps[k].1 + x];
  }

  /** When even the padded input is shorter or narrower than one patch, the
      loops never run and the patch list is empty (not an error). */
  lemma SmallInputNoPatches(arr: Raster, h: nat, w: nat, ph: nat, pw: nat, vOverlap: Ratio, hOverlap: Ratio)
    requires IsGrid(arr, h, w) && vOverlap.den > 0 && hOverlap.den > 0
    requires var g := Plan(h, w, ph, pw, vOverlap, hOverlap);
             !PadRefused(g) && (g.PaddedH() < ph || g.PaddedW() < pw)
    ensures SplitSpec(arr, h, w, ph, pw, vOverlap, hOverlap) == Success(SplitOutput([], (h, w), (Plan(h, w, ph, pw, vOverlap, hOverlap).padH, Plan(h, w, ph, pw, vOverlap, hOverlap).padW)))
  {
  }
}
