/** The Streamlit front end `gus_blue_app.py`: its own copy of
    `process_gus_image`, which receives an already decoded image instead of a
    path. It is written out here as the source has it, and proved to give the
    same masks and metrics as the command-line copy. */
module GusBlueApp {
  import opened GusMasks
  import opened GusMorphology
  import Q = GusQuantification

  /** `process_gus_image(img_bgr, ...)`, from the HSV image onwards. */
  function ProcessGusImage(hsv: Image, blueLower: Hsv, blueUpper: Hsv, rootParams: Q.RootParams): (r: Q.GusResult)
    requires Rect(hsv)
    ensures IsGrid(r.rootMask, |hsv|, Width(hsv)) && IsGrid(r.blueMask, |hsv|, Width(hsv))
  {
    var rootMask := InRange(hsv, Hsv(0, rootParams.sThreshold, 0), Hsv(179, 255, rootParams.vMax));
    var blueMaskRaw := InRange(hsv, blueLower, blueUpper);
    var blueMaskInRoot := BitwiseAnd(blueMaskRaw, rootMask);
    var blueMaskClean := Open(blueMaskInRoot);
    var rootArea := Count(rootMask);
    var blueArea := Count(blueMaskClean);
    var percentage := if rootArea > 0 then blueArea as real / rootArea as real * 100.0 else 0.0;
    Q.GusResult(rootMask, blueMaskClean, Q.Metrics(rootArea, blueArea, percentage))
  }

  /** For the same HSV image and parameters, the app copy returns exactly
      what the command-line copy returns for a successfully read image. */
  lemma MatchesCommandLine(hsv: Image, blueLower: Hsv, blueUpper: Hsv, rootParams: Q.RootParams)
    requires Rect(hsv)
    ensures Q.ProcessGusImage(Q.Some(hsv), blueLower, blueUpper, rootParams)
         == Q.Some(ProcessGusImage(hsv, blueLower, blueUpper, rootParams))
  {
  }

  /** The app's masks: root tissue is decided by saturation and value alone
      (hue unconstrained), the blue mask is the AND of the closed blue box with
      the root mask, cleaned by the opening. */
  lemma MasksOfApp(hsv: Image, blueLower: Hsv, blueUpper: Hsv, rootParams: Q.RootParams)
    requires ValidImage(hsv)
    ensures var r := ProcessGusImage(hsv, blueLower, blueUpper, rootParams);
      && (forall i, j | 0 <= i < |hsv| && 0 <= j < Width(hsv) ::
            r.rootMask[i][j] <==> hsv[i][j].s >= rootParams.sThreshold && hsv[i][j].v <= rootParams.vMax)
      && r.blueMask == Open(BitwiseAnd(InRange(hsv, blueLower, blueUpper), r.rootMask))
      && Within(r.blueMask, r.rootMask)
  {
    MatchesCommandLine(hsv, blueLower, blueUpper, rootParams);
    Q.RootMaskMembership(hsv, rootParams);
    Q.BlueMaskWithinRoot(hsv, blueLower, blueUpper, rootParams);
  }

  /** The app's metrics: both counts lie in [0, height * width] with blue
      below root, and the percentage is 0 without root pixels and otherwise
      the blue share of the root, in [0, 100]. */
  lemma MetricsOfApp(hsv: Image, blueLower: Hsv, blueUpper: Hsv, rootParams: Q.RootParams)
    requires Rect(hsv)
    ensures var m := ProcessGusImage(hsv, blueLower, blueUpper, rootParams).metrics;
      && m.bluePixels <= m.rootPixels <= |hsv| * Width(hsv)
      && (m.rootPixels == 0 ==> m.percentage == 0.0)
      && (m.rootPixels > 0 ==> m.percentage == m.bluePixels as real / m.rootPixels as real * 100.0)
      && 0.0 <= m.percentage <= 100.0
  {
    MatchesCommandLine(hsv, blueLower, blueUpper, rootParams);
    Q.PixelCountBounds(hsv, blueLower, blueUpper, rootParams);
    Q.MetricsSound(hsv, blueLower, blueUpper, rootParams);
  }
}
