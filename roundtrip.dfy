/** How `split_into_patches` and `reassemble_from_patches` fit together: the
    reassembly of consistent patches restores the array they were cut from,
    up to the relative error the `1e-6` in the divisor introduces. */
module RoundTrip {
  import opened Common
  import opened Tiling
  import opened Split
  import opened Reassemble

  /** The overlaps are fractions in `[0, 1]` and the patch is at least one
      pixel: the stride then never exceeds the patch. */
  predicate Sensible(ph: nat, pw: nat, vOverlap: Ratio, hOverlap: Ratio)
  {
    && ph >= 1 && pw >= 1
    && 0 <= vOverlap.num <= vOverlap.den && vOverlap.den > 0
    && 0 <= hOverlap.num <= hOverlap.den && hOverlap.den > 0
  }

  /** Patch `k` is the window of `ref` at corner `k`, for every corner of the grid. */
  predicate WindowsOf(ref: Raster, patches: seq<Raster>, ps: seq<(int, int)>, ph: nat, pw: nat)
  {
    |ps| <= |patches| && forall k :: 0 <= k < |ps| ==> patches[k] == Window(ref, ps[k].0, ps[k].1, ph, pw)
  }

  /** Patches cut from one padded-size raster `ref` reassemble to `ref`'s top-left
      `h x w` part: each pixel is the average of the copies covering it. */
  lemma WindowsReassemble(ref: Raster, patches: seq<Raster>, h: nat, w: nat, ph: nat, pw: nat, vOverlap: Ratio, hOverlap: Ratio)
    requires Sensible(ph, pw, vOverlap, hOverlap)
    requires var g := Plan(h, w, ph, pw, vOverlap, hOverlap);
             && ph <= g.PaddedH() && pw <= g.PaddedW()
             && IsGrid(ref, g.PaddedH(), g.PaddedW())
             && WindowsOf(ref, patches, g.Positions(), ph, pw)
    ensures Reassembled(patches, h, w, ph, pw, vOverlap, hOverlap).Success?
    ensures var out := Reassembled(patches, h, w, ph, pw, vOverlap, hOverlap).value;
            && IsGrid(out, h, w)
            && forall r, c :: 0 <= r < h && 0 <= c < w ==> Near(out[r][c], ref[r][c])
  {
    var g := Plan(h, w, ph, pw, vOverlap, hOverlap);
    var ps := g.Positions();
    assert g.vStride <= ph && g.hStride <= pw;
    MulMonotone(g.Rows(), 1, g.Cols());
    assert |ps| >= 1;
    assert ReassembleFault(patches, |ps|, ph, pw) == None;
    var out := Reassembled(patches, h, w, ph, pw, vOverlap, hOverlap).value;
    forall r, c | 0 <= r < h && 0 <= c < w
      ensures Near(out[r][c], ref[r][c])
    {
      PixelRestored(ref, patches, g, r, c);
    }
  }

  /** One pixel of `WindowsReassemble`. */
  lemma PixelRestored(ref: Raster, patches: seq<Raster>, g: Geometry, r: nat, c: nat)
    requires g.Valid()
    requires g.vStride <= g.patchH <= g.PaddedH() && g.hStride <= g.patchW <= g.PaddedW()
    requires IsGrid(ref, g.PaddedH(), g.PaddedW()) && r < g.PaddedH() && c < g.PaddedW()
    requires WindowsOf(ref, patches, g.Positions(), g.patchH, g.patchW)
    ensures var ps := g.Positions();
            var n := CoverCount(ps, g.patchH, g.patchW, r, c);
            && n >= 1
            && Near(Averaged(AccAt(patches, ps, g.patchH, g.patchW, r, c), n), ref[r][c])
  {
    var ps := g.Positions();
    var v := ref[r][c];
    forall k | 0 <= k < |ps| && Covers(ps[k], g.patchH, g.patchW, r, c)
      ensures At(patches[k], r - ps[k].0, c - ps[k].1) == v
    {
      WindowAt(ref, ps[k].0, ps[k].1, g.patchH, g.patchW, r - ps[k].0, c - ps[k].1);
    }
    EveryPixelCovered(g, r, c);
    UniformPixelAveraged(patches, ps, g.patchH, g.patchW, r, c, v);
  }

  /** Splitting an array and reassembling the patches restores the array, each
      pixel up to a relative error of `Eps`. */
  lemma SplitThenReassemble(arr: Raster, h: nat, w: nat, ph: nat, pw: nat, vOverlap: Ratio, hOverlap: Ratio)
    requires IsGrid(arr, h, w) && h >= 1 && w >= 1
    requires Sensible(ph, pw, vOverlap, hOverlap)
    requires var g := Plan(h, w, ph, pw, vOverlap, hOverlap); ph <= g.PaddedH() && pw <= g.PaddedW()
    ensures SplitSpec(arr, h, w, ph, pw, vOverlap, hOverlap).Success?
    ensures var split := SplitSpec(arr, h, w, ph, pw, vOverlap, hOverlap).value;
            var out := Reassembled(split.patches, h, w, ph, pw, vOverlap, hOverlap);
            && split.originalShape == (h, w)
            && out.Success? && IsGrid(out.value, h, w)
            && forall r, c :: 0 <= r < h && 0 <= c < w ==> Near(out.value[r][c], arr[r][c])
  {
    var g := Plan(h, w, ph, pw, vOverlap, hOverlap);
    var padded := PadReflect(arr, h, w, g.padH, g.padW);
    var ps := g.Positions();
    var patches := Cuts(padded, ps, ph, pw);
    forall k | 0 <= k < |ps| ensures patches[k] == Window(padded, ps[k].0, ps[k].1, ph, pw) {
      CutsAt(padded, ps, ph, pw, k);
    }
    WindowsReassemble(padded, patches, h, w, ph, pw, vOverlap, hOverlap);
  }

  /** The round trip needs a padded array of at least one patch: below that the
      split succeeds with no patches, and the reassembly raises at `patches[0]`. */
  lemma SmallInputRoundTripFails(arr: Raster, h: nat, w: nat, ph: nat, pw: nat, vOverlap: Ratio, hOverlap: Ratio)
    requires IsGrid(arr, h, w) && vOverlap.den > 0 && hOverlap.den > 0
    requires var g := Plan(h, w, ph, pw, vOverlap, hOverlap);
             !PadRefused(g) && (g.PaddedH() < ph || g.PaddedW() < pw)
    ensures SplitSpec(arr, h, w, ph, pw, vOverlap, hOverlap).Success?
    ensures SplitSpec(arr, h, w, ph, pw, vOverlap, hOverlap).value.patches == []
    ensures Reassembled(SplitSpec(arr, h, w, ph, pw, vOverlap, hOverlap).value.patches, h, w, ph, pw, vOverlap, hOverlap)
            == Failure(IndexOutOfRange)
  {
    SmallInputNoPatches(arr, h, w, ph, pw, vOverlap, hOverlap);
  }

  /** A `100 x 100` array with `224 x 224` patches at half overlap: the stride is
      112 and the padding 12, so the padded array is `112 x 112` and the round
      trip fails. */
  lemma SmallImageExample(arr: Raster)
    requires IsGrid(arr, 100, 100)
    ensures var g := Plan(100, 100, 224, 224, Ratio(1, 2), Ratio(1, 2));
            g.vStride == 112 && g.padH == 12 && g.PaddedH() == 112
    ensures Reassembled(SplitSpec(arr, 100, 100, 224, 224, Ratio(1, 2), Ratio(1, 2)).value.patches,
                        100, 100, 224, 224, Ratio(1, 2), Ratio(1, 2)) == Failure(IndexOutOfRange)
  {
    var g := Plan(100, 100, 224, 224, Ratio(1, 2), Ratio(1, 2));
    assert TruncDiv(224 * (2 - 1), 2) == 112;
    assert g.vStride == 112 && g.hStride == 112;
    assert (100 - 224) % 112 == 100;
    assert g.padH == 12 && g.padW == 12;
    SmallInputRoundTripFails(arr, 100, 100, 224, 224, Ratio(1, 2), Ratio(1, 2));
  }

  /** An `n x m` raster holding `v` everywhere. */
  function Constant(n: nat, m: nat, v: real): (k: Raster)
    ensures IsGrid(k, n, m)
  {
    seq(n, _ => seq(m, _ => v))
  }

  /** Overlapping patches are averaged, not summed: if every patch holds `v`
      everywhere, the reassembled array holds `v` (up to `Eps`), however many
      patches overlap at a pixel. */
  lemma UniformPatchesAveraged(patches: seq<Raster>, h: nat, w: nat, ph: nat, pw: nat, vOverlap: Ratio, hOverlap: Ratio, v: real)
    requires Sensible(ph, pw, vOverlap, hOverlap)
    requires var g := Plan(h, w, ph, pw, vOverlap, hOverlap);
             && ph <= g.PaddedH() && pw <= g.PaddedW()
             && |g.Positions()| <= |patches|
    requires forall k :: 0 <= k < |patches| ==> patches[k] == Constant(ph, pw, v)
    ensures Reassembled(patches, h, w, ph, pw, vOverlap, hOverlap).Success?
    ensures var out := Reassembled(patches, h, w, ph, pw, vOverlap, hOverlap).value;
            forall r, c :: 0 <= r < h && 0 <= c < w ==> Near(out[r][c], v)
  {
    var g := Plan(h, w, ph, pw, vOverlap, hOverlap);
    var ps := g.Positions();
    var ref := Constant(g.PaddedH(), g.PaddedW(), v);
    forall k | 0 <= k < |ps| ensures patches[k] == Window(ref, ps[k].0, ps[k].1, ph, pw) {
      ConstantWindow(g.PaddedH(), g.PaddedW(), v, ps[k].0, ps[k].1, ph, pw);
    }
    WindowsReassemble(ref, patches, h, w, ph, pw, vOverlap, hOverlap);
  }

  /** Every window inside a constant raster is constant. */
  lemma ConstantWindow(n: nat, m: nat, v: real, i: int, j: int, ph: nat, pw: nat)
    requires 0 <= i && i + ph <= n && 0 <= j && j + pw <= m
    ensures Window(Constant(n, m, v), i, j, ph, pw) == Constant(ph, pw, v)
  {
    var win := Window(Constant(n, m, v), i, j, ph, pw);
    forall y, x | 0 <= y < ph && 0 <= x < pw ensures win[y][x] == v {
      WindowAt(Constant(n, m, v), i, j, ph, pw, y, x);
    }
    GridExt(win, Constant(ph, pw, v), ph, pw);
  }
}
