/** Patch geometry shared by `split_into_patches` and `reassemble_from_patches`:
    strides, end-only padding, reflect indexing and the row-major grid of
    patch corners. */
module Tiling {
  import opened Common

  /** An overlap fraction `num / den`; the Python float `overlap` taken as a rational. */
  datatype Ratio = Ratio(num: int, den: int)

  /** Python's `int(n / d)`: the quotient truncated toward zero (not floored). */
  function TruncDiv(n: int, d: int): (q: int)
    requires d > 0
    ensures n >= 0 ==> 0 <= q && q * d <= n < q * d + d
    ensures n < 0 ==> q <= 0 && q * d - d < n <= q * d
  {
    if n >= 0 then DivBounds(n, d); n / d
    else DivBounds(-n, d); -((-n) / d)
  }

  /** Euclidean division of a non-negative number brackets it between two multiples. */
  lemma DivBounds(m: int, d: int)
    requires m >= 0 && d > 0
    ensures 0 <= m / d && (m / d) * d <= m < (m / d) * d + d
  {
    assert m == (m / d) * d + m % d;
  }

  /** `max(int(p * (1 - overlap)), 1)`: the offset between consecutive patch corners. */
  function Stride(p: nat, overlap: Ratio): (s: nat)
    requires overlap.den > 0
    ensures s >= 1
    ensures s > 1 ==> s * overlap.den <= p * (overlap.den - overlap.num) < s * overlap.den + overlap.den
    ensures 0 <= overlap.num <= overlap.den && p >= 1 ==> s <= p
    ensures s == 1 <==> p * (overlap.den - overlap.num) < 2 * overlap.den
  {
    var t := TruncDiv(p * (overlap.den - overlap.num), overlap.den);
    TruncAtMostPatch(p, overlap);
    TruncAtMostOne(p * (overlap.den - overlap.num), overlap.den);
    if t > 1 then t else 1
  }

  /** The truncated quotient is at most 1 exactly when `n` is below twice the divisor. */
  lemma TruncAtMostOne(n: int, d: int)
    requires d > 0
    ensures TruncDiv(n, d) <= 1 <==> n < 2 * d
  {
    var t := TruncDiv(n, d);
    if n >= 0 && t >= 2 {
      MulMonotone(t, 2, d);
    }
  }

  lemma TruncAtMostPatch(p: nat, overlap: Ratio)
    requires overlap.den > 0
    ensures 0 <= overlap.num <= overlap.den ==> TruncDiv(p * (overlap.den - overlap.num), overlap.den) <= p
  {
    if 0 <= overlap.num <= overlap.den {
      var d, k := overlap.den, overlap.den - overlap.num;
      var t := TruncDiv(p * k, d);
      MulMonotone(d, k, p);
      assert p * k <= p * d;
      MulCancel(t, p, d);
    }
  }

  /** Cancelling a positive factor keeps a non-strict order. */
  lemma MulCancel(a: int, b: int, d: int)
    requires d > 0 && a * d <= b * d
    ensures a <= b
  {
    if a > b {
      assert a * d == (a - b) * d + b * d;
      MulMonotone(a - b, 1, d);
    }
  }

  /** End-only padding: `(s - (n - p) % s) % s` when `(n - p) % s != 0`, else 0.
      Python's `%` with a positive divisor agrees with Dafny's for negative `n - p`. */
  function Pad(n: nat, p: nat, s: nat): (pad: nat)
    requires s >= 1
    ensures pad < s
    ensures (n + pad - p) % s == 0
    ensures pad == 0 <==> (n - p) % s == 0
  {
    var m := (n - p) % s;
    if m != 0 then
      ModShift(n - p, s);
      (s - m) % s
    else 0
  }

  /** `(x - x % s + s) % s == 0`, spelt out for the padding proof. */
  lemma ModShift(x: int, s: int)
    requires s >= 1 && x % s != 0
    ensures (s - x % s) % s == s - x % s
    ensures (x + (s - x % s)) % s == 0
  {
    var q := x / s;
    assert x == q * s + x % s;
    assert (q + 1) * s == q * s + s;
    DivModUnique(x + (s - x % s), s, q + 1, 0);
    DivModUnique(s - x % s, s, 0, s - x % s);
  }

  /** Euclidean division is unique: `x == q * s + m` with `0 <= m < s` fixes quotient and remainder. */
  lemma DivModUnique(x: int, s: int, q: int, m: int)
    requires s >= 1 && 0 <= m < s && x == q * s + m
    ensures x / s == q && x % s == m
  {
    var d := q - x / s;
    assert x == (x / s) * s + x % s;
    assert d * s == q * s - (x / s) * s;
    assert d * s == x % s - m;
    if d >= 1 {
      MulMonotone(d, 1, s);
    } else if d <= -1 {
      MulMonotone(-d, 1, s);
    }
  }

  lemma MulMonotone(a: int, b: int, c: int)
    requires 0 <= b <= a && c >= 0
    ensures b * c <= a * c
  {
  }

  /** The padding is the least amount that makes `n + pad - p` a multiple of `s`. */
  lemma {:induction false} PadIsLeast(n: nat, p: nat, s: nat, q: nat)
    requires s >= 1
    requires (n + q - p) % s == 0
    ensures Pad(n, p, s) <= q
  {
    var pad := Pad(n, p, s);
    if q < pad {
      var x := n + pad - p;
      var y := n + q - p;
      assert x == (x / s) * s + x % s;
      assert y == (y / s) * s + y % s;
      assert (x / s - y / s) * s == (x / s) * s - (y / s) * s;
      DivModUnique(pad - q, s, x / s - y / s, 0);
      DivModUnique(pad - q, s, 0, pad - q);
    }
  }

  /** numpy's `reflect` mode along an axis of length `n`, extended at the end:
      mirror about the last element without repeating it, and keep folding
      (period `2(n-1)`, one fold per round of numpy's iterative padding) when the padding is longer than the axis. An axis of
      length one is extended with its single value. */
  function Reflect(r: nat, n: nat): (k: nat)
    requires n >= 1
    ensures k < n
    ensures r < n ==> k == r
    ensures n <= r < 2 * n - 1 ==> k == 2 * (n - 1) - r
  {
    if n == 1 then 0
    else if r >= 2 * (n - 1) then Reflect(r - 2 * (n - 1), n)
    else if r < n then r
    else 2 * (n - 1) - r
  }

  /** Past the first reflected band the fold repeats with period `2(n-1)`: the
      index found is congruent to `r` or to `-r`, which with `k < n` fixes it. */
  lemma {:induction false} ReflectFold(r: nat, n: nat)
    requires n >= 2
    ensures var k := Reflect(r, n);
            (k - r) % (2 * (n - 1)) == 0 || (k + r) % (2 * (n - 1)) == 0
  {
    var period := 2 * (n - 1);
    var k := Reflect(r, n);
    if r >= period {
      ReflectFold(r - period, n);
      FoldBack(Reflect(r - period, n), r, period);
      assert k == Reflect(r - period, n);
    } else if r < n {
      assert k - r == 0;
      WholePeriods(period);
    } else {
      assert k + r == period;
      WholePeriods(period);
    }
  }

  lemma WholePeriods(p: int)
    requires p >= 1
    ensures 0 % p == 0 && p % p == 0
  {
    DivModUnique(p, p, 1, 0);
  }

  /** A congruence to `r - p` or `-(r - p)` modulo `p` is one to `r` or `-r`. */
  lemma FoldBack(k: int, r: int, p: int)
    requires p >= 1
    requires (k - (r - p)) % p == 0 || (k + (r - p)) % p == 0
    ensures (k - r) % p == 0 || (k + r) % p == 0
  {
    var below, above := k - r, k + r;
    assert k - (r - p) == below + p && k + (r - p) == above - p;
    ShiftMod(below, p);
    ShiftMod(above, p);
  }

  /** Adding or removing one period keeps the remainder. */
  lemma ShiftMod(x: int, p: int)
    requires p >= 1
    ensures (x - p) % p == x % p && (x + p) % p == x % p
  {
    var q := x / p;
    assert x == q * p + x % p;
    assert (q - 1) * p == q * p - p && (q + 1) * p == q * p + p;
    DivModUnique(x - p, p, q - 1, x % p);
    DivModUnique(x + p, p, q + 1, x % p);
  }

  /** Everything both functions derive from the shapes and the overlaps. */
  datatype Geometry = Geometry(height: nat, width: nat, patchH: nat, patchW: nat,
                               vStride: nat, hStride: nat, padH: nat, padW: nat)
  {
    predicate Valid()
    {
      && vStride >= 1 && hStride >= 1
      && padH < vStride && padW < hStride
      && (PaddedH() - patchH) % vStride == 0
      && (PaddedW() - patchW) % hStride == 0
    }

    function PaddedH(): nat { height + padH }
    function PaddedW(): nat { width + padW }

    function Rows(): nat
      requires Valid()
    {
      Starts(PaddedH(), patchH, vStride)
    }

    function Cols(): nat
      requires Valid()
    {
      Starts(PaddedW(), patchW, hStride)
    }

    /** Top-left corners of the patches, in the order of the nested loops. */
    function Positions(): (ps: seq<(int, int)>)
      requires Valid()
      ensures |ps| == Rows() * Cols()
      ensures forall k :: 0 <= k < |ps| ==>
                && 0 <= ps[k].0 && ps[k].0 + patchH <= PaddedH()
                && 0 <= ps[k].1 && ps[k].1 + patchW <= PaddedW()
    {
      LastStartFlush(PaddedH(), patchH, vStride);
      LastStartFlush(PaddedW(), patchW, hStride);
      RowMajorShape(Rows(), Cols(), vStride, hStride);
      RowMajor(Rows(), Cols(), vStride, hStride)
    }
  }

  /** The last corner of a divisible axis sits exactly `p` before its end,
      so no strip is left uncovered. */
  lemma LastStartFlush(n: nat, p: nat, s: nat)
    requires s >= 1 && (n - p) % s == 0
    ensures n >= p ==> ((n - p) / s + 1) * s - s == n - p
  {
    if n >= p {
      var q := (n - p) / s;
      assert n - p == q * s + (n - p) % s;
      assert (q + 1) * s - s == q * s;
    }
  }

  /** Number of values `range(0, n - p + 1, s)` yields: window starts on an axis of length `n`. */
  function Starts(n: nat, p: nat, s: nat): nat
    requires s >= 1
  {
    if n >= p then (n - p) / s + 1 else 0
  }

  /** The loop condition of `range(0, n - p + 1, s)` on the `a`-th value `a * s`. */
  lemma {:induction false} StartInRange(n: nat, p: nat, s: nat, a: nat)
    requires s >= 1
    ensures (a * s <= n - p) <==> (a < Starts(n, p, s))
  {
    if n >= p {
      var q := (n - p) / s;
      assert n - p == q * s + (n - p) % s;
      assert 0 <= (n - p) % s < s;
      if a <= q {
        MulMonotone(q, a, s);
      } else {
        MulMonotone(a, q + 1, s);
        assert (q + 1) * s == q * s + s;
      }
    }
  }

  /** Corners `(i, b * hs)` for `b < n`: one pass of the inner loop at height `i`. */
  function Line(i: int, n: nat, hs: nat): (line: seq<(int, int)>)
    ensures |line| == n
  {
    seq(n, b => (i, b * hs))
  }

  function Row(a: nat, cols: nat, vs: nat, hs: nat): (row: seq<(int, int)>)
    ensures |row| == cols
  {
    Line(a * vs, cols, hs)
  }

  /** Corners `(a * vs, b * hs)` for `a < rows`, `b < cols`: outer loop over rows, inner over columns. */
  function RowMajor(rows: nat, cols: nat, vs: nat, hs: nat): seq<(int, int)>
  {
    if rows == 0 then [] else RowMajor(rows - 1, cols, vs, hs) + Row(rows - 1, cols, vs, hs)
  }

  /** The grid has `rows * cols` corners, none beyond the last row and column start. */
  lemma {:induction false} RowMajorShape(rows: nat, cols: nat, vs: nat, hs: nat)
    ensures var ps := RowMajor(rows, cols, vs, hs);
            && |ps| == rows * cols
            && forall k :: 0 <= k < |ps| ==>
                 && 0 <= ps[k].0 <= rows * vs - vs
                 && 0 <= ps[k].1 <= cols * hs - hs
  {
    if rows > 0 {
      RowMajorShape(rows - 1, cols, vs, hs);
      var prev := RowMajor(rows - 1, cols, vs, hs);
      var row := Row(rows - 1, cols, vs, hs);
      var top, left := rows * vs - vs, cols * hs - hs;
      assert (rows - 1) * vs == top;
      assert CornersWithin(prev, top, left);
      RowWithin(rows - 1, cols, vs, hs);
      ConcatWithin(prev, row, top, left);
      assert RowMajor(rows, cols, vs, hs) == prev + row;
      assert (rows - 1) * cols + cols == rows * cols;
    }
  }

  /** Every corner of `ps` lies in `[0, top] x [0, left]`. */
  predicate CornersWithin(ps: seq<(int, int)>, top: int, left: int)
  {
    forall k :: 0 <= k < |ps| ==> 0 <= ps[k].0 <= top && 0 <= ps[k].1 <= left
  }

  /** Row `a` of corners lies at height `a * vs` and no further right than the last column start. */
  lemma RowWithin(a: nat, cols: nat, vs: nat, hs: nat)
    ensures CornersWithin(Row(a, cols, vs, hs), a * vs, cols * hs - hs)
  {
    var row := Row(a, cols, vs, hs);
    forall b | 0 <= b < cols ensures 0 <= row[b].1 <= cols * hs - hs {
      MulMonotone(cols - 1, b, hs);
      assert (cols - 1) * hs == cols * hs - hs;
    }
  }

  lemma ConcatWithin(xs: seq<(int, int)>, ys: seq<(int, int)>, top: int, left: int)
    requires CornersWithin(xs, top, left) && CornersWithin(ys, top, left)
    ensures CornersWithin(xs + ys, top, left)
  {
    var zs := xs + ys;
    forall k | 0 <= k < |zs| ensures 0 <= zs[k].0 <= top && 0 <= zs[k].1 <= left {
      if k < |xs| {
        assert zs[k] == xs[k];
      } else {
        assert zs[k] == ys[k - |xs|];
      }
    }
  }

  /** Corner number `a * cols + b` is `(a * vs, b * hs)`: the patch index is
      the row-major rank of its grid cell. */
  lemma {:induction false} RowMajorAt(rows: nat, cols: nat, vs: nat, hs: nat, a: nat, b: nat)
    requires a < rows && b < cols
    ensures a * cols + b < rows * cols == |RowMajor(rows, cols, vs, hs)|
    ensures RowMajor(rows, cols, vs, hs)[a * cols + b] == (a * vs, b * hs)
  {
    RowMajorShape(rows - 1, cols, vs, hs);
    assert (rows - 1) * cols + cols == rows * cols;
    if a == rows - 1 {
      assert RowMajor(rows, cols, vs, hs) == RowMajor(rows - 1, cols, vs, hs) + Row(rows - 1, cols, vs, hs);
    } else {
      RowMajorAt(rows - 1, cols, vs, hs, a, b);
      MulMonotone(rows - 1, a + 1, cols);
    }
  }

  /** Corners come in strictly increasing row-major (lexicographic) order. */
  lemma {:induction false} RowMajorOrdered(rows: nat, cols: nat, vs: nat, hs: nat, k: nat, l: nat)
    requires vs >= 1 && hs >= 1
    requires k < l < |RowMajor(rows, cols, vs, hs)|
    ensures var ps := RowMajor(rows, cols, vs, hs);
            ps[k].0 < ps[l].0 || (ps[k].0 == ps[l].0 && ps[k].1 < ps[l].1)
  {
    var prev := RowMajor(rows - 1, cols, vs, hs);
    var row := Row(rows - 1, cols, vs, hs);
    var ps := RowMajor(rows, cols, vs, hs);
    assert row == Line((rows - 1) * vs, cols, hs);
    assert ps == prev + row;
    if l < |prev| {
      assert ps[k] == prev[k] && ps[l] == prev[l];
      RowMajorOrdered(rows - 1, cols, vs, hs, k, l);
    } else if k < |prev| {
      RowMajorShape(rows - 1, cols, vs, hs);
      assert ps[k] == prev[k] && ps[l] == row[l - |prev|];
      assert ps[k].0 <= (rows - 1) * vs - vs;
    } else {
      var bk, bl := k - |prev|, l - |prev|;
      assert ps[k] == row[bk] && ps[l] == row[bl];
      MulMonotone(bl, bk + 1, hs);
      assert (bk + 1) * hs == bk * hs + hs;
    }
  }

  /** A prefix of the grid is the grid of fewer rows. */
  lemma {:induction false} RowMajorPrefix(a: nat, rows: nat, cols: nat, vs: nat, hs: nat)
    requires a <= rows
    ensures |RowMajor(a, cols, vs, hs)| <= |RowMajor(rows, cols, vs, hs)|
    ensures RowMajor(rows, cols, vs, hs)[..|RowMajor(a, cols, vs, hs)|] == RowMajor(a, cols, vs, hs)
    decreases rows
  {
    if a < rows {
      RowMajorPrefix(a, rows - 1, cols, vs, hs);
      var prev := RowMajor(rows - 1, cols, vs, hs);
      assert RowMajor(rows, cols, vs, hs)[..|prev|] == prev;
    }
  }

  /** The shared derivation of strides and padding from the shapes and the overlaps. */
  function Plan(h: nat, w: nat, ph: nat, pw: nat, vOverlap: Ratio, hOverlap: Ratio): (g: Geometry)
    requires vOverlap.den > 0 && hOverlap.den > 0
    ensures g.Valid()
    ensures g.height == h && g.width == w && g.patchH == ph && g.patchW == pw
  {
    var vs := Stride(ph, vOverlap);
    var hs := Stride(pw, hOverlap);
    Geometry(h, w, ph, pw, vs, hs, Pad(h, ph, vs), Pad(w, pw, hs))
  }

  /** `g[r][c]` where it exists. Every window the grid enumerates lies inside
      the padded array, so the fallback value is never read by the model. */
  function At(g: Raster, r: int, c: int): real
  {
    if 0 <= r < |g| && 0 <= c < |g[r]| then g[r][c] else 0.0
  }

  /** `g[i:i+ph, j:j+pw]`: the `ph x pw` window with top-left corner `(i, j)`. */
  function Window(g: Raster, i: int, j: int, ph: nat, pw: nat): (win: Raster)
    ensures IsGrid(win, ph, pw)
  {
    seq(ph, r => seq(pw, c => At(g, i + r, j + c)))
  }

  /** Pixel `(y, x)` of a window is pixel `(i + y, j + x)` of the raster. */
  lemma WindowAt(g: Raster, i: int, j: int, ph: nat, pw: nat, y: nat, x: nat)
    requires y < ph && x < pw
    ensures At(Window(g, i, j, ph, pw), y, x) == At(g, i + y, j + x)
  {
  }

  /** The windows at the corners `ps`, in order. */
  function Cuts(g: Raster, ps: seq<(int, int)>, ph: nat, pw: nat): (cs: seq<Raster>)
    ensures |cs| == |ps|
  {
    if |ps| == 0 then []
    else Cuts(g, ps[..|ps| - 1], ph, pw) + [Window(g, ps[|ps| - 1].0, ps[|ps| - 1].1, ph, pw)]
  }

  /** Cut number `k` is the window at corner number `k`. */
  lemma {:induction false} CutsAt(g: Raster, ps: seq<(int, int)>, ph: nat, pw: nat, k: nat)
    requires k < |ps|
    ensures Cuts(g, ps, ph, pw)[k] == Window(g, ps[k].0, ps[k].1, ph, pw)
  {
    if k < |ps| - 1 {
      CutsAt(g, ps[..|ps| - 1], ph, pw, k);
    }
  }

  /** Cutting along two corner lists one after the other is cutting along their concatenation. */
  lemma {:induction false} CutsAppend(g: Raster, xs: seq<(int, int)>, ys: seq<(int, int)>, ph: nat, pw: nat)
    ensures Cuts(g, xs + ys, ph, pw) == Cuts(g, xs, ph, pw) + Cuts(g, ys, ph, pw)
    decreases |ys|
  {
    if |ys| == 0 {
      assert xs + ys == xs;
    } else {
      var n := |ys| - 1;
      assert (xs + ys)[..|xs + ys| - 1] == xs + ys[..n];
      CutsAppend(g, xs, ys[..n], ph, pw);
    }
  }

  /** `np.pad(arr, ((0, padH), (0, padW)), mode='reflect')` on an `h x w` array. */
  function PadReflect(arr: Raster, h: nat, w: nat, padH: nat, padW: nat): (p: Raster)
    requires IsGrid(arr, h, w)
    requires h == 0 ==> padH == 0
    requires w == 0 ==> padW == 0
    ensures IsGrid(p, h + padH, w + padW)
    ensures forall r, c :: 0 <= r < h && 0 <= c < w ==> p[r][c] == arr[r][c]
  {
    var p := seq(h + padH, r requires 0 <= r < h + padH =>
      seq(w + padW, c requires 0 <= c < w + padW => arr[Reflect(r, h)][Reflect(c, w)]));
    assert forall r, c :: 0 <= r < h && 0 <= c < w ==> p[r][c] == arr[r][c] by {
      forall r, c | 0 <= r < h && 0 <= c < w ensures p[r][c] == arr[r][c] {
        assert Reflect(r, h) == r && Reflect(c, w) == c;
      }
    }
    p
  }

  /** Numbers from the 500 x 500 image, 224 x 224 patch, half-overlap configuration. */
  lemma HalfOverlapScenario()
    ensures var g := Plan(500, 500, 224, 224, Ratio(1, 2), Ratio(1, 2));
            && g.vStride == 112 && g.hStride == 112
            && g.padH == 60 && g.padW == 60
            && g.Rows() == 4 && g.Cols() == 4 && |g.Positions()| == 16
  {
  }
}
