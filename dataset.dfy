/** `CrowdDataset.__init__`: list the full images, and for each collect its run
    of consecutively numbered patch files and its two ground-truth maps; keep
    the image only when all of them are there.

    The file system is a finite set of existing paths. The four directories the
    constructor joins onto `root` are the four kinds of `Path`. */
module Dataset {
  import opened Common

  /** The files the constructor looks for, by directory. */
  datatype Path =
    | Full(name: string)                  // full_images/<name>
    | PatchImage(base: string, idx: nat)  // patches/images/<base>_patch_<idx>.jpg
    | Gt(stem: string)                    // patches/gt/<base>.npy
    | GtBlur(stem: string)                // patches/gt_blur/<base>.npy

  /** One entry of `self.samples`. */
  datatype Sample = Sample(full: Path, imgPatches: seq<Path>, gt: Path, gtBlur: Path)

  // ---------------------------------------------------------------------------
  // File names

  /** ASCII case folding, as `str.lower` does for ASCII letters. */
  function LowerChar(c: char): (l: char)
    ensures 'A' <= c <= 'Z' ==> l as int == c as int + 32
    ensures !('A' <= c <= 'Z') ==> l == c
  {
    if 'A' <= c <= 'Z' then (c as int + 32) as char else c
  }

  function Lower(s: string): (l: string)
    ensures |l| == |s| && forall k :: 0 <= k < |s| ==> l[k] == LowerChar(s[k])
  {
    seq(|s|, k requires 0 <= k < |s| => LowerChar(s[k]))
  }

  predicate EndsWith(s: string, suffix: string)
  {
    |suffix| <= |s| && s[|s| - |suffix|..] == suffix
  }

  /** The listing filter: the lower-cased name ends in `.jpg`, `.jpeg` or `.png`. */
  predicate IsImageName(name: string)
  {
    var l := Lower(name);
    EndsWith(l, ".jpg") || EndsWith(l, ".jpeg") || EndsWith(l, ".png")
  }

  /** `self.full_images`: the directory entries that pass the filter, in listing order. */
  function ImageFiles(entries: seq<string>): (files: seq<string>)
    ensures |files| <= |entries|
    ensures forall f :: f in files <==> f in entries && IsImageName(f)
  {
    if |entries| == 0 then []
    else
      var rest := ImageFiles(entries[..|entries| - 1]);
      var last := entries[|entries| - 1];
      assert entries == entries[..|entries| - 1] + [last];
      if IsImageName(last) then rest + [last] else rest
  }

  /** The filter keeps listing order: the images of two listings in turn are
      those of the first followed by those of the second. */
  lemma {:induction false} ImageFilesAppend(xs: seq<string>, ys: seq<string>)
    ensures ImageFiles(xs + ys) == ImageFiles(xs) + ImageFiles(ys)
  {
    if |ys| == 0 {
      assert xs + ys == xs;
    } else {
      var init, last := ys[..|ys| - 1], ys[|ys| - 1];
      var all := xs + ys;
      assert all[..|all| - 1] == xs + init && all[|all| - 1] == last;
      ImageFilesAppend(xs, init);
    }
  }

  /** Index of the last `.` in `s`, or `-1` when there is none. */
  function LastDot(s: string): (d: int)
    ensures -1 <= d < |s|
    ensures d >= 0 ==> s[d] == '.'
    ensures forall k :: d < k < |s| ==> s[k] != '.'
  {
    if |s| == 0 then -1
    else if s[|s| - 1] == '.' then |s| - 1
    else LastDot(s[..|s| - 1])
  }

  /** `os.path.splitext(name)[0]` for a name without a directory part: the name
      up to its last dot, unless everything before that dot is dots (a hidden
      file such as `.jpg` has no extension). */
  function Stem(name: string): (st: string)
    ensures |st| <= |name| && st == name[..|st|]
    ensures |st| < |name| ==> name[|st|] == '.' && forall k :: |st| < k < |name| ==> name[k] != '.'
    ensures |st| < |name| ==> exists k :: 0 <= k < |st| && st[k] != '.'
    ensures LastDot(name) < 0 ==> st == name
  {
    var d := LastDot(name);
    if d >= 0 && exists k :: 0 <= k < d && name[k] != '.' then name[..d] else name
  }

  /** Splitting off an extension that has no dot gives back the base, as long as
      the base is not made of dots only. */
  lemma StemDropsExtension(base: string, ext: string)
    requires '.' !in ext
    requires exists k :: 0 <= k < |base| && base[k] != '.'
    ensures Stem(base + "." + ext) == base
  {
    var name := base + "." + ext;
    var d := LastDot(name);
    assert name[|base|] == '.';
    assert d == |base|;
    var k :| 0 <= k < |base| && base[k] != '.';
    assert name[k] == base[k];
    assert name[..d] == base;
  }

  /** A hidden file named `.jpg` passes the filter but keeps its whole name as base. */
  lemma HiddenNameKeepsDot()
    ensures IsImageName(".jpg") && Stem(".jpg") == ".jpg"
  {
    var name := ".jpg";
    assert name[0] == '.' && name[1] == 'j' && name[2] == 'p' && name[3] == 'g';
    assert LastDot(name) == 0;
    assert Lower(name) == name;
  }

  // ---------------------------------------------------------------------------
  // The run of patch files

  /** The patch files of `base` numbered `idx` or more: shrinks as the scan advances. */
  function Pending(fs: set<Path>, base: string, idx: nat): set<Path>
  {
    set p | p in fs && p.PatchImage? && p.base == base && p.idx >= idx
  }

  /** The patch files found by probing `idx`, `idx + 1`, ... until one is missing. */
  function PatchRun(fs: set<Path>, base: string, idx: nat): (run: seq<Path>)
    ensures forall k :: 0 <= k < |run| ==> run[k] == PatchImage(base, idx + k) && run[k] in fs
    ensures PatchImage(base, idx + |run|) !in fs
    decreases Pending(fs, base, idx)
  {
    if PatchImage(base, idx) in fs then
      assert PatchImage(base, idx) !in Pending(fs, base, idx + 1);
      [PatchImage(base, idx)] + PatchRun(fs, base, idx + 1)
    else []
  }

  /** The run is the only count `n` with files `0 .. n-1` present and file `n` missing. */
  lemma RunLengthUnique(fs: set<Path>, base: string, n: nat)
    ensures ((forall k :: 0 <= k < n ==> PatchImage(base, k) in fs) && PatchImage(base, n) !in fs)
            <==> n == |PatchRun(fs, base, 0)|
  {
    var run := PatchRun(fs, base, 0);
    if n < |run| {
      assert run[n] == PatchImage(base, n);
    } else if n > |run| {
      assert PatchImage(base, |run|) !in fs;
    } else {
      forall k | 0 <= k < n ensures PatchImage(base, k) in fs {
        assert run[k] == PatchImage(base, k);
      }
    }
  }

  /** A gap ends the scan: files numbered after the first missing one are never collected. */
  lemma GapHidesLaterPatches(fs: set<Path>, base: string, gap: nat, later: nat)
    requires PatchImage(base, gap) !in fs && gap < later
    ensures |PatchRun(fs, base, 0)| <= gap
    ensures PatchImage(base, later) !in PatchRun(fs, base, 0)
  {
    var run := PatchRun(fs, base, 0);
    forall k | 0 <= k < |run| ensures PatchImage(base, k) in fs {
      assert run[k] == PatchImage(base, k);
    }
  }

  /** The `while True` loop: probe `<base>_patch_<idx>.jpg` for `idx = 0, 1, ...`
      and append each existing path, stopping at the first missing one. */
  method CollectPatches(fs: set<Path>, base: string) returns (imgPatches: seq<Path>)
    ensures imgPatches == PatchRun(fs, base, 0)
  {
    imgPatches := [];
    var idx: nat := 0;
    while PatchImage(base, idx) in fs
      invariant idx == |imgPatches|
      invariant imgPatches + PatchRun(fs, base, idx) == PatchRun(fs, base, 0)
      decreases Pending(fs, base, idx)
    {
      assert PatchImage(base, idx) !in Pending(fs, base, idx + 1);
      assert PatchRun(fs, base, idx) == [PatchImage(base, idx)] + PatchRun(fs, base, idx + 1);
      imgPatches := imgPatches + [PatchImage(base, idx)];
      idx := idx + 1;
    }
  }

  // ---------------------------------------------------------------------------
  // Samples

  /** The sample kept for full image `name`, if its ground truth, its blurred
      ground truth and at least one patch exist. */
  function SampleFor(fs: set<Path>, name: string): (o: Option<Sample>)
    ensures o.Some? ==>
              && o.value.full == Full(name)
              && o.value.imgPatches == PatchRun(fs, Stem(name), 0) && |o.value.imgPatches| > 0
              && o.value.gt == Gt(Stem(name)) && o.value.gt in fs
              && o.value.gtBlur == GtBlur(Stem(name)) && o.value.gtBlur in fs
    ensures o.None? ==> Gt(Stem(name)) !in fs || GtBlur(Stem(name)) !in fs || |PatchRun(fs, Stem(name), 0)| == 0
  {
    var base := Stem(name);
    var run := PatchRun(fs, base, 0);
    if Gt(base) in fs && GtBlur(base) in fs && |run| > 0
    then Some(Sample(Full(name), run, Gt(base), GtBlur(base)))
    else None
  }

  /** The values present in `opts`, in order. */
  function Somes<T>(opts: seq<Option<T>>): (vs: seq<T>)
    ensures |vs| <= |opts|
  {
    if |opts| == 0 then [] else Present(opts[0]) + Somes(opts[1..])
  }

  /** The value an option holds, as a list of at most one. */
  function Present<T>(o: Option<T>): (vs: seq<T>)
    ensures |vs| <= 1
  {
    if o.Some? then [o.value] else []
  }

  /** What each listed image would contribute, in listing order. */
  function Candidates(fs: set<Path>, names: seq<string>): (c: seq<Option<Sample>>)
    ensures |c| == |names| && forall i :: 0 <= i < |names| ==> c[i] == SampleFor(fs, names[i])
  {
    seq(|names|, i requires 0 <= i < |names| => SampleFor(fs, names[i]))
  }

  /** `self.samples` for the full images `names`, in their order. */
  function SamplesOf(fs: set<Path>, names: seq<string>): (samples: seq<Sample>)
    ensures |samples| <= |names|
  {
    Somes(Candidates(fs, names))
  }

  /** An image is kept exactly when both ground-truth maps and patch 0 exist, and
      then its sample holds the image, its maximal run of patches and the two maps
      named after its base. */
  lemma SampleForCharacterised(fs: set<Path>, name: string)
    ensures var base := Stem(name);
            && (SampleFor(fs, name).Some? <==>
                  Gt(base) in fs && GtBlur(base) in fs && PatchImage(base, 0) in fs)
            && (SampleFor(fs, name).Some? ==>
                  var s := SampleFor(fs, name).value;
                  && s.full == Full(name) && s.gt == Gt(base) && s.gtBlur == GtBlur(base)
                  && |s.imgPatches| > 0
                  && (forall k :: 0 <= k < |s.imgPatches| ==> s.imgPatches[k] == PatchImage(base, k) && s.imgPatches[k] in fs)
                  && PatchImage(base, |s.imgPatches|) !in fs)
  {
    var base := Stem(name);
    var run := PatchRun(fs, base, 0);
    if PatchImage(base, 0) in fs {
      assert |run| > 0;
    }
  }

  /** A value is kept exactly when some entry holds it. */
  lemma {:induction false} SomesMembers<T>(opts: seq<Option<T>>, v: T)
    ensures v in Somes(opts) <==> Some(v) in opts
    decreases |opts|
  {
    if |opts| > 0 {
      SomesMembers(opts[1..], v);
      assert opts == [opts[0]] + opts[1..];
    }
  }

  /** Keeping the present values commutes with concatenation. */
  lemma {:induction false} SomesAppend<T>(xs: seq<Option<T>>, ys: seq<Option<T>>)
    ensures Somes(xs + ys) == Somes(xs) + Somes(ys)
    decreases |xs|
  {
    if |xs| == 0 {
      assert xs + ys == ys;
    } else {
      var zs := xs + ys;
      assert zs[0] == xs[0];
      assert zs[1..] == xs[1..] + ys;
      SomesAppend(xs[1..], ys);
      calc {
        Somes(zs);
        Present(xs[0]) + Somes(xs[1..] + ys);
        Present(xs[0]) + (Somes(xs[1..]) + Somes(ys));
        (Present(xs[0]) + Somes(xs[1..])) + Somes(ys);
      }
    }
  }

  /** A sample is in the list exactly when some listed image yields it. */
  lemma SamplesOfMembers(fs: set<Path>, names: seq<string>, s: Sample)
    ensures s in SamplesOf(fs, names) <==> exists i :: 0 <= i < |names| && SampleFor(fs, names[i]) == Some(s)
  {
    var c := Candidates(fs, names);
    SomesMembers(c, s);
    if Some(s) in c {
      var i :| 0 <= i < |c| && c[i] == Some(s);
    }
  }

  /** The samples follow the listing: images listed one after the other give
      their samples one after the other. */
  lemma SamplesOfAppend(fs: set<Path>, xs: seq<string>, ys: seq<string>)
    ensures SamplesOf(fs, xs + ys) == SamplesOf(fs, xs) + SamplesOf(fs, ys)
  {
    var cx, cy, cz := Candidates(fs, xs), Candidates(fs, ys), Candidates(fs, xs + ys);
    forall i | 0 <= i < |cz| ensures cz[i] == (cx + cy)[i] {
      if i < |xs| {
        assert (xs + ys)[i] == xs[i];
      } else {
        assert (xs + ys)[i] == ys[i - |xs|];
      }
    }
    assert cz == cx + cy;
    SomesAppend(cx, cy);
  }

  /** A sample is kept exactly when it comes from a directory entry that passes
      the extension filter. */
  lemma SampleFromListedImage(fs: set<Path>, entries: seq<string>, s: Sample)
    ensures s in SamplesOf(fs, ImageFiles(entries)) <==>
            exists name :: name in entries && IsImageName(name) && SampleFor(fs, name) == Some(s)
  {
    var files := ImageFiles(entries);
    SamplesOfMembers(fs, files, s);
    if exists name :: name in entries && IsImageName(name) && SampleFor(fs, name) == Some(s) {
      var name :| name in entries && IsImageName(name) && SampleFor(fs, name) == Some(s);
      var i :| 0 <= i < |files| && files[i] == name;
    }
  }

  /** Listing one more image appends what it contributes. */
  lemma SamplesOfStep(fs: set<Path>, names: seq<string>, i: nat)
    requires i < |names|
    ensures SamplesOf(fs, names[..i + 1]) == SamplesOf(fs, names[..i]) + Present(SampleFor(fs, names[i]))
  {
    assert Candidates(fs, names[..i + 1]) == Candidates(fs, names[..i]) + [SampleFor(fs, names[i])];
    SomesAppend(Candidates(fs, names[..i]), [SampleFor(fs, names[i])]);
  }

  /** The `for` loop over the full images. */
  method CollectSamples(fs: set<Path>, fullImages: seq<string>) returns (samples: seq<Sample>)
    ensures samples == SamplesOf(fs, fullImages)
  {
    samples := [];
    for i := 0 to |fullImages|
      invariant samples == SamplesOf(fs, fullImages[..i])
    {
      var name := fullImages[i];
      var base := Stem(name);
      var imgPatches := CollectPatches(fs, base);
      SamplesOfStep(fs, fullImages, i);
      if Gt(base) in fs && GtBlur(base) in fs && |imgPatches| > 0 {
        samples := samples + [Sample(Full(name), imgPatches, Gt(base), GtBlur(base))];
      }
    }
    assert fullImages[..|fullImages|] == fullImages;
  }

  /** The dataset index built by the constructor. `entries` is the listing of
      the full-image directory and `fs` the paths that exist. */
  class CrowdDataset {
    var fullImages: seq<string>
    var samples: seq<Sample>

    constructor (entries: seq<string>, fs: set<Path>)
      ensures fullImages == ImageFiles(entries)
      ensures samples == SamplesOf(fs, fullImages)
    {
      var files := ImageFiles(entries);
      var kept := CollectSamples(fs, files);
      fullImages, samples := files, kept;
    }
  }
}
