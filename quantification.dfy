/** The command-line tool `gus-blue_quantification.py`: its copy of
    `process_gus_image` from the HSV image onwards, and the file-name filter
    that picks the images out of the input directory. */
module GusQuantification {
  import opened GusMasks
  import opened GusMorphology

  datatype Option<T> = None | Some(value: T)

  /** `root_params`: minimum saturation and maximum value of root tissue. */
  datatype RootParams = RootParams(sThreshold: int, vMax: int)

  /** The `metrics` dictionary; `percentage` is the exact ratio, before rounding. */
  datatype Metrics = Metrics(rootPixels: nat, bluePixels: nat, percentage: real)

  /** The result dictionary, without the display-only `original` image. */
  datatype GusResult = GusResult(rootMask: Mask, blueMask: Mask, metrics: Metrics)

  /** Defaults of the command line: blue box [90,40,40]..[140,255,255]. */
  const DefaultBlueLower := Hsv(90, 40, 40)
  const DefaultBlueUpper := Hsv(140, 255, 255)
  /** Defaults of the command line: root saturation at least 20, value at most 240. */
  const DefaultRootParams := RootParams(20, 240)

  /** `root_mask`: the box [0, s, 0]..[179, 255, v]. */
  function RootMask(hsv: Image, rootParams: RootParams): (m: Mask)
    requires Rect(hsv)
    ensures IsGrid(m, |hsv|, Width(hsv))
  {
    InRange(hsv, Hsv(0, rootParams.sThreshold, 0), Hsv(179, 255, rootParams.vMax))
  }

  /** `blue_mask_raw`. */
  function BlueMaskRaw(hsv: Image, blueLower: Hsv, blueUpper: Hsv): (m: Mask)
    requires Rect(hsv)
    ensures IsGrid(m, |hsv|, Width(hsv))
  {
    InRange(hsv, blueLower, blueUpper)
  }

  /** `blue_mask_in_root`. */
  function BlueMaskInRoot(hsv: Image, blueLower: Hsv, blueUpper: Hsv, rootParams: RootParams): (m: Mask)
    requires Rect(hsv)
    ensures IsGrid(m, |hsv|, Width(hsv))
    ensures Within(m, BlueMaskRaw(hsv, blueLower, blueUpper)) && Within(m, RootMask(hsv, rootParams))
  {
    BitwiseAnd(BlueMaskRaw(hsv, blueLower, blueUpper), RootMask(hsv, rootParams))
  }

  /** The guarded ratio `blue_area / root_area * 100`, or 0 when there is no root. */
  function Percentage(blueArea: nat, rootArea: nat): (r: real)
    ensures rootArea == 0 ==> r == 0.0
    ensures rootArea > 0 ==> r * rootArea as real == blueArea as real * 100.0
  {
    if rootArea > 0 then blueArea as real / rootArea as real * 100.0 else 0.0
  }

  /** `process_gus_image`. `decoded` is the HSV form of the image that
      `cv2.imread` produced (after the Gaussian blur), or `None` when the file
      could not be read, in which case the result is `None` as well. */
  function ProcessGusImage(decoded: Option<Image>, blueLower: Hsv, blueUpper: Hsv, rootParams: RootParams)
    : (r: Option<GusResult>)
    requires decoded.Some? ==> Rect(decoded.value)
    ensures r.None? <==> decoded.None?
  {
    match decoded
    case None => None
    case Some(hsv) =>
      var rootMask := RootMask(hsv, rootParams);
      var blueMaskClean := Open(BlueMaskInRoot(hsv, blueLower, blueUpper, rootParams));
      var rootArea := Count(rootMask);
      var blueArea := Count(blueMaskClean);
      Some(GusResult(rootMask, blueMaskClean, Metrics(rootArea, blueArea, Percentage(blueArea, rootArea))))
  }

  // ---------------------------------------------------------------------------
  // The masks

  /** For an image in OpenCV's HSV ranges, a pixel is root tissue exactly when
      its saturation reaches the threshold and its value does not exceed the
      maximum; the hue never excludes a pixel. */
  lemma RootMaskMembership(hsv: Image, rootParams: RootParams)
    requires ValidImage(hsv)
    ensures forall i, j | 0 <= i < |hsv| && 0 <= j < Width(hsv) ::
      RootMask(hsv, rootParams)[i][j] <==> hsv[i][j].s >= rootParams.sThreshold && hsv[i][j].v <= rootParams.vMax
  {
  }

  /** A pixel is raw blue exactly when every channel lies in its closed
      interval; a box with some lower bound above its upper bound selects
      nothing. */
  lemma BlueMaskRawMembership(hsv: Image, blueLower: Hsv, blueUpper: Hsv)
    requires Rect(hsv)
    ensures forall i, j | 0 <= i < |hsv| && 0 <= j < Width(hsv) ::
      BlueMaskRaw(hsv, blueLower, blueUpper)[i][j] <==>
        && blueLower.h <= hsv[i][j].h <= blueUpper.h
        && blueLower.s <= hsv[i][j].s <= blueUpper.s
        && blueLower.v <= hsv[i][j].v <= blueUpper.v
    ensures blueLower.h > blueUpper.h || blueLower.s > blueUpper.s || blueLower.v > blueUpper.v ==>
      Count(BlueMaskRaw(hsv, blueLower, blueUpper)) == 0
  {
    CountZero(BlueMaskRaw(hsv, blueLower, blueUpper));
  }

  /** `blue_mask_in_root` is the pointwise AND of the raw blue mask and the
      root mask, so it lies in both. */
  lemma BlueMaskInRootIsMeet(hsv: Image, blueLower: Hsv, blueUpper: Hsv, rootParams: RootParams)
    requires Rect(hsv)
    ensures var m := BlueMaskInRoot(hsv, blueLower, blueUpper, rootParams);
      && (forall i, j | 0 <= i < |hsv| && 0 <= j < Width(hsv) ::
            m[i][j] == (BlueMaskRaw(hsv, blueLower, blueUpper)[i][j] && RootMask(hsv, rootParams)[i][j]))
      && Within(m, RootMask(hsv, rootParams))
      && Within(m, BlueMaskRaw(hsv, blueLower, blueUpper))
  {
    BitwiseAndWithin(BlueMaskRaw(hsv, blueLower, blueUpper), RootMask(hsv, rootParams));
  }

  /** The cleaned blue mask lies inside the root mask and inside the
      intersection it was cleaned from. */
  lemma BlueMaskWithinRoot(hsv: Image, blueLower: Hsv, blueUpper: Hsv, rootParams: RootParams)
    requires Rect(hsv)
    ensures var r := ProcessGusImage(Some(hsv), blueLower, blueUpper, rootParams).value;
      && Within(r.blueMask, BlueMaskInRoot(hsv, blueLower, blueUpper, rootParams))
      && Within(r.blueMask, r.rootMask)
  {
    var inRoot := BlueMaskInRoot(hsv, blueLower, blueUpper, rootParams);
    BlueMaskInRootIsMeet(hsv, blueLower, blueUpper, rootParams);
    OpenWithin(inRoot);
    WithinTransitive(Open(inRoot), inRoot, RootMask(hsv, rootParams));
  }

  // ---------------------------------------------------------------------------
  // The metrics

  /** Blue pixels never outnumber root pixels, which never outnumber the pixels
      of the image. */
  lemma PixelCountBounds(hsv: Image, blueLower: Hsv, blueUpper: Hsv, rootParams: RootParams)
    requires Rect(hsv)
    ensures var r := ProcessGusImage(Some(hsv), blueLower, blueUpper, rootParams).value;
      r.metrics.bluePixels <= r.metrics.rootPixels <= |hsv| * Width(hsv)
  {
    var r := ProcessGusImage(Some(hsv), blueLower, blueUpper, rootParams).value;
    BlueMaskWithinRoot(hsv, blueLower, blueUpper, rootParams);
    CountMono(r.blueMask, r.rootMask);
  }

  /** The division guard: with no root pixels the percentage is 0; otherwise
      it is the exact ratio times 100 and lies in [0, 100]. It is 0 exactly
      when no blue pixel is counted, and 100 exactly when every root pixel is
      blue. */
  lemma PercentageInRange(blueArea: nat, rootArea: nat)
    requires blueArea <= rootArea
    ensures rootArea == 0 ==> Percentage(blueArea, rootArea) == 0.0
    ensures rootArea > 0 ==> Percentage(blueArea, rootArea) == blueArea as real / rootArea as real * 100.0
    ensures 0.0 <= Percentage(blueArea, rootArea) <= 100.0
    ensures Percentage(blueArea, rootArea) == 0.0 <==> blueArea == 0
    ensures Percentage(blueArea, rootArea) == 100.0 <==> rootArea > 0 && blueArea == rootArea
  {
    if rootArea > 0 {
      var q := blueArea as real / rootArea as real;
      assert q * rootArea as real == blueArea as real;
      assert q <= 1.0;
      assert q == 1.0 ==> blueArea == rootArea;
    }
  }

  /** The metrics of one image: `percentage` is 0 when the root is empty
      (and then no blue pixel is counted either), and otherwise the share of
      root pixels that are blue, in [0, 100]. */
  lemma MetricsSound(hsv: Image, blueLower: Hsv, blueUpper: Hsv, rootParams: RootParams)
    requires Rect(hsv)
    ensures var m := ProcessGusImage(Some(hsv), blueLower, blueUpper, rootParams).value.metrics;
      && (m.rootPixels == 0 ==> m.bluePixels == 0 && m.percentage == 0.0)
      && (m.rootPixels > 0 ==> m.percentage == m.bluePixels as real / m.rootPixels as real * 100.0)
      && 0.0 <= m.percentage <= 100.0
      && (m.percentage == 0.0 <==> m.bluePixels == 0)
  {
    var m := ProcessGusImage(Some(hsv), blueLower, blueUpper, rootParams).value.metrics;
    PixelCountBounds(hsv, blueLower, blueUpper, rootParams);
    PercentageInRange(m.bluePixels, m.rootPixels);
  }

  // ---------------------------------------------------------------------------
  // Monotonicity and sample inputs

  /** The box [lower1, upper1] lies inside [lower2, upper2], channel by channel. */
  predicate BoxWithin(lower1: Hsv, upper1: Hsv, lower2: Hsv, upper2: Hsv)
  {
    && lower2.h <= lower1.h && upper1.h <= upper2.h
    && lower2.s <= lower1.s && upper1.s <= upper2.s
    && lower2.v <= lower1.v && upper1.v <= upper2.v
  }

  /** Widening the blue box never lowers the blue pixel count, for a fixed
      image and root parameters: inRange, AND and the opening are monotone. */
  lemma WiderBlueBoxNeverFewer(hsv: Image, lower1: Hsv, upper1: Hsv, lower2: Hsv, upper2: Hsv, rootParams: RootParams)
    requires Rect(hsv)
    requires BoxWithin(lower1, upper1, lower2, upper2)
    ensures ProcessGusImage(Some(hsv), lower1, upper1, rootParams).value.metrics.bluePixels
         <= ProcessGusImage(Some(hsv), lower2, upper2, rootParams).value.metrics.bluePixels
    ensures ProcessGusImage(Some(hsv), lower1, upper1, rootParams).value.metrics.rootPixels
         == ProcessGusImage(Some(hsv), lower2, upper2, rootParams).value.metrics.rootPixels
  {
    var narrow := BlueMaskInRoot(hsv, lower1, upper1, rootParams);
    var wide := BlueMaskInRoot(hsv, lower2, upper2, rootParams);
    assert Within(narrow, wide);
    OpenMono(narrow, wide);
    CountMono(Open(narrow), Open(wide));
  }

  /** A pixel of the blue-in-root mask none of whose four orthogonal
      neighbours is in that mask is dropped by the cleanup, so the blue count
      is strictly below the count before cleanup. */
  lemma IsolatedBluePixelDropped(hsv: Image, blueLower: Hsv, blueUpper: Hsv, rootParams: RootParams, i: int, j: int)
    requires Rect(hsv) && 0 <= i < |hsv| && 0 <= j < Width(hsv)
    requires |hsv| > 1 || Width(hsv) > 1
    requires var m := BlueMaskInRoot(hsv, blueLower, blueUpper, rootParams);
      && m[i][j]
      && !Cell(m, i - 1, j, false) && !Cell(m, i + 1, j, false)
      && !Cell(m, i, j - 1, false) && !Cell(m, i, j + 1, false)
    ensures var r := ProcessGusImage(Some(hsv), blueLower, blueUpper, rootParams).value;
      && !r.blueMask[i][j]
      && r.metrics.bluePixels < Count(BlueMaskInRoot(hsv, blueLower, blueUpper, rootParams))
  {
    var m := BlueMaskInRoot(hsv, blueLower, blueUpper, rootParams);
    IsolatedPixelRemoved(m, i, j);
    OpenWithin(m);
    CountMono(Open(m), m);
  }

  /** When every pixel is root tissue and blue, the cleanup keeps every pixel,
      so all three counts agree and a non-empty image scores 100. */
  lemma UniformStainScoresFull(hsv: Image, blueLower: Hsv, blueUpper: Hsv, rootParams: RootParams)
    requires Rect(hsv)
    requires forall i, j | 0 <= i < |hsv| && 0 <= j < Width(hsv) ::
      InBox(hsv[i][j], blueLower, blueUpper) && InBox(hsv[i][j], Hsv(0, rootParams.sThreshold, 0), Hsv(179, 255, rootParams.vMax))
    ensures var m := ProcessGusImage(Some(hsv), blueLower, blueUpper, rootParams).value.metrics;
      && m.bluePixels == m.rootPixels == |hsv| * Width(hsv)
      && (|hsv| * Width(hsv) > 0 ==> m.percentage == 100.0)
  {
    var inRoot := BlueMaskInRoot(hsv, blueLower, blueUpper, rootParams);
    OpenKeepsFullMask(inRoot);
    CountFull(inRoot, |hsv|, Width(hsv));
    CountFull(RootMask(hsv, rootParams), |hsv|, Width(hsv));
    PercentageInRange(Count(inRoot), Count(RootMask(hsv, rootParams)));
  }

  /** When no pixel reaches the root saturation threshold (for instance an
      all-black image, whose saturation is 0, under the default threshold
      20), nothing is counted and the percentage is 0. */
  lemma UnsaturatedImageScoresZero(hsv: Image, blueLower: Hsv, blueUpper: Hsv, rootParams: RootParams)
    requires Rect(hsv)
    requires forall i, j | 0 <= i < |hsv| && 0 <= j < Width(hsv) :: hsv[i][j].s < rootParams.sThreshold
    ensures var m := ProcessGusImage(Some(hsv), blueLower, blueUpper, rootParams).value.metrics;
      m.rootPixels == 0 && m.bluePixels == 0 && m.percentage == 0.0
  {
    CountZero(RootMask(hsv, rootParams));
    MetricsSound(hsv, blueLower, blueUpper, rootParams);
  }

  /** An all-black image (every channel 0) under the command line's default
      parameters: no root, no blue, percentage 0. */
  lemma BlackImageScoresZero(hsv: Image)
    requires Rect(hsv)
    requires forall i, j | 0 <= i < |hsv| && 0 <= j < Width(hsv) :: hsv[i][j] == Hsv(0, 0, 0)
    ensures ProcessGusImage(Some(hsv), DefaultBlueLower, DefaultBlueUpper, DefaultRootParams).value.metrics
         == Metrics(0, 0, 0.0)
  {
    UnsaturatedImageScoresZero(hsv, DefaultBlueLower, DefaultBlueUpper, DefaultRootParams);
  }

  // ---------------------------------------------------------------------------
  // Selecting the image files of the input directory

  const ImageExtensions: seq<string> := [".png", ".jpg", ".jpeg", ".tif", ".tiff"]

  /** `str.lower` on one character, for the ASCII letters. */
  function LowerChar(c: char): char
  {
    if 'A' <= c <= 'Z' then (c as int + 32) as char else c
  }

  function Lower(s: string): (r: string)
    ensures |r| == |s| && forall k | 0 <= k < |s| :: r[k] == LowerChar(s[k])
  {
    seq(|s|, k requires 0 <= k < |s| => LowerChar(s[k]))
  }

  predicate EndsWith(s: string, suffix: string)
  {
    |suffix| <= |s| && s[|s| - |suffix|..] == suffix
  }

  /** `f.lower().endswith(exts)`. */
  predicate IsImageFile(name: string)
    ensures IsImageFile(name) ==> |name| >= 4
  {
    exists e | e in ImageExtensions :: EndsWith(Lower(name), e)
  }

  /** Lower-casing commutes with taking a suffix. */
  lemma LowerSuffix(s: string, n: nat)
    requires n <= |s|
    ensures Lower(s)[|s| - n..] == Lower(s[|s| - n..])
  {
  }

  /** Whether the lower-cased name ends with `suffix` depends only on the
      last `|suffix|` characters. */
  lemma EndsWithLower(name: string, suffix: string)
    ensures EndsWith(Lower(name), suffix) <==> |suffix| <= |name| && Lower(name[|name| - |suffix|..]) == suffix
  {
    if |suffix| <= |name| {
      LowerSuffix(name, |suffix|);
    }
  }

  /** The filter tests the five extensions one by one. */
  lemma IsImageFileCases(name: string)
    ensures IsImageFile(name) <==>
      || EndsWith(Lower(name), ".png") || EndsWith(Lower(name), ".jpg") || EndsWith(Lower(name), ".jpeg")
      || EndsWith(Lower(name), ".tif") || EndsWith(Lower(name), ".tiff")
  {
    var low := Lower(name);
    assert ImageExtensions == [".png", ".jpg", ".jpeg", ".tif", ".tiff"];
    if EndsWith(low, ".png") { assert ".png" in ImageExtensions; }
    if EndsWith(low, ".jpg") { assert ".jpg" in ImageExtensions; }
    if EndsWith(low, ".jpeg") { assert ".jpeg" in ImageExtensions; }
    if EndsWith(low, ".tif") { assert ".tif" in ImageExtensions; }
    if EndsWith(low, ".tiff") { assert ".tiff" in ImageExtensions; }
  }

  /** Independent form of the filter: the last four characters, lower-cased,
      are ".png", ".jpg" or ".tif", or the last five are ".jpeg" or ".tiff". */
  lemma IsImageFileBySuffix(name: string)
    ensures IsImageFile(name) <==>
      || (|name| >= 4 && Lower(name[|name| - 4..]) in {".png", ".jpg", ".tif"})
      || (|name| >= 5 && Lower(name[|name| - 5..]) in {".jpeg", ".tiff"})
  {
    IsImageFileCases(name);
    EndsWithLower(name, ".png");
    EndsWithLower(name, ".jpg");
    EndsWithLower(name, ".jpeg");
    EndsWithLower(name, ".tif");
    EndsWithLower(name, ".tiff");
    if |name| >= 4 {
      var l4 := Lower(name[|name| - 4..]);
      assert l4 in {".png", ".jpg", ".tif"} <==> l4 == ".png" || l4 == ".jpg" || l4 == ".tif";
    }
    if |name| >= 5 {
      var l5 := Lower(name[|name| - 5..]);
      assert l5 in {".jpeg", ".tiff"} <==> l5 == ".jpeg" || l5 == ".tiff";
    }
  }

  /** The filter ignores letter case. */
  lemma IsImageFileIgnoresCase(name: string)
    ensures IsImageFile(Lower(name)) == IsImageFile(name)
  {
    assert Lower(Lower(name)) == Lower(name);
  }

  /** Names the filter keeps: case is ignored, and a bare extension is a name. */
  lemma IsImageFileKeeps()
    ensures IsImageFile("r1.TIF") && IsImageFile("a.JpEg") && IsImageFile(".png")
  {
    assert Lower("r1.TIF") == "r1.tif";
    assert EndsWith(Lower("r1.TIF"), ImageExtensions[3]);
    assert Lower("a.JpEg") == "a.jpeg";
    assert EndsWith(Lower("a.JpEg"), ImageExtensions[2]);
    assert Lower(".png") == ".png";
    assert EndsWith(Lower(".png"), ImageExtensions[0]);
  }

  /** Names the filter drops: another extension, an extension without its
      dot, an image suffix that is not the last. */
  lemma IsImageFileDrops()
    ensures !IsImageFile("a.txt") && !IsImageFile("png") && !IsImageFile("a.tif.b")
  {
    assert Lower("a.txt") == "a.txt";
    IsImageFileBySuffix("a.txt");
    assert Lower("png") == "png";
    IsImageFileBySuffix("png");
    assert Lower("a.tif.b") == "a.tif.b";
    IsImageFileBySuffix("a.tif.b");
  }

  /** The list comprehension over `os.listdir`: the image file names, in
      directory order (the directory path the tool prefixes is left out). */
  function SelectImages(names: seq<string>): (r: seq<string>)
    ensures |r| <= |names|
    ensures forall k | 0 <= k < |r| :: IsImageFile(r[k]) && r[k] in names
    ensures forall x | x in names && IsImageFile(x) :: x in r
  {
    if names == [] then []
    else if IsImageFile(names[0]) then [names[0]] + SelectImages(names[1..])
    else SelectImages(names[1..])
  }

  /** Filtering a listing split in two filters each part, in order. */
  lemma {:induction false} SelectImagesAppend(a: seq<string>, b: seq<string>)
    ensures SelectImages(a + b) == SelectImages(a) + SelectImages(b)
  {
    if a != [] {
      assert (a + b)[0] == a[0];
      assert (a + b)[1..] == a[1..] + b;
      SelectImagesAppend(a[1..], b);
    } else {
      assert a + b == b;
    }
  }

  /** A one-name listing keeps the name exactly when it is an image file.
      With `SelectImagesAppend` this fixes the result: the image names of the
      listing, in listing order, each as often as it is listed. */
  lemma SelectImagesSingle(x: string)
    ensures SelectImages([x]) == if IsImageFile(x) then [x] else []
  {
    assert [x][1..] == [];
  }
}
