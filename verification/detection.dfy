/**
 * The dust-coverage pipeline `detect` of sawdust_watcher/detection.py:
 * parameter checks, six stages recorded under fixed names, and the coverage
 * ratio of the last stage.
 */
module Detection {
  import opened Wrappers
  import opened Image
  import opened Filters
  import opened Morphology

  /** The tunable arguments of `detect`. */
  datatype Params = Params(noiseSize: int, threshold: int, morphSize: int)

  /** The keyword defaults of `detect`. */
  const Defaults := Params(11, 32, 5)

  /** Number of closing iterations, fixed in the source. */
  const CloseIterations: nat := 3

  /** The range of a C `int`, the type the median filter's aperture is converted to. */
  const IntMin: int := -0x8000_0000
  const IntMax: int := 0x7fff_ffff

  /** Whether an argument converts to a C `int` without overflow. */
  predicate FitsInt(x: int)
  {
    IntMin <= x <= IntMax
  }

  /** Why `detect` gave up before producing a ratio. */
  datatype DetectError =
    | NoiseSizeEven        // the first assertion: the denoising aperture must be odd
    | ThresholdOutOfRange  // the second assertion: the threshold must lie in [0, 255]
    | MorphSizeEven        // the third assertion: the closing kernel must be odd
    | NoiseSizeNotAnInt    // the median filter's aperture overflows a C int during argument conversion
    | MedianBlurRejected   // the median filter refuses an empty frame or a non-positive aperture
    | NegativeKernelShape  // an all-ones kernel cannot have a negative side

  /** A recorded stage image: the first three stages are color, the rest single-channel. */
  datatype Frame = ColorFrame(color: Color) | GrayFrame(gray: Gray)

  /** One entry of the stage dictionary. */
  datatype Stage = Stage(name: string, frame: Frame)

  /** What a successful `detect` returns: the ratio and the stage dictionary in insertion order. */
  datatype Outcome = Outcome(ratio: Ratio, stages: seq<Stage>)

  /** The stage names, in the order the dictionary receives them. */
  const StageNames: seq<string> := ["original", "denoise", "difference", "grayscale", "threshold", "morph"]

  /** The keys of a stage dictionary, in insertion order. */
  function Names(stages: seq<Stage>): (ns: seq<string>)
    ensures |ns| == |stages|
    ensures forall i :: 0 <= i < |stages| ==> ns[i] == stages[i].name
  {
    if |stages| == 0 then [] else Names(stages[..|stages| - 1]) + [stages[|stages| - 1].name]
  }

  /** Dictionary lookup: the frame recorded under `name`, if any. */
  function Lookup(stages: seq<Stage>, name: string): (f: Option<Frame>)
    ensures f.None? <==> name !in Names(stages)
    ensures f.Some? ==> Stage(name, f.value) in stages
  {
    if |stages| == 0 then None
    else if stages[0].name == name then Some(stages[0].frame)
    else
      assert Names(stages) == [stages[0].name] + Names(stages[1..]);
      Lookup(stages[1..], name)
  }

  /** The three assertions at the top of `detect`. */
  predicate ParamsAccepted(p: Params)
  {
    p.noiseSize % 2 != 0 && 0 <= p.threshold <= 255 && p.morphSize % 2 != 0
  }

  /** Parameters that every library call of the pipeline accepts as well. */
  predicate Runnable(p: Params)
  {
    ParamsAccepted(p) && 0 < p.noiseSize <= IntMax && p.morphSize > 0
  }

  /** The six images the pipeline produces, one per stage. */
  datatype Pipeline = Pipeline(original: Color, denoised: Color, difference: Color, gray: Gray, thresh: Gray, morph: Gray)

  /** The stage images of one run, each computed from the one before. */
  function RunPipeline(img: Color, p: Params): (pl: Pipeline)
    requires Rect(img) && Runnable(p)
    ensures SameShape(pl.morph, img)
  {
    var denoised := MedianBlur(img, p.noiseSize);
    var diff := Subtract(img, denoised);
    var gray := Grayscale(diff);
    var thresh := Threshold(gray, p.threshold);
    var morph := Close(thresh, p.morphSize / 2, CloseIterations);
    Pipeline(img, denoised, diff, gray, thresh, morph)
  }

  /** The stage dictionary of a run, in insertion order. */
  function Record(pl: Pipeline): (stages: seq<Stage>)
    ensures Names(stages) == StageNames
    ensures Lookup(stages, "original") == Some(ColorFrame(pl.original))
    ensures stages[|stages| - 1] == Stage("morph", GrayFrame(pl.morph))
  {
    var stages := [
      Stage("original", ColorFrame(pl.original)),
      Stage("denoise", ColorFrame(pl.denoised)),
      Stage("difference", ColorFrame(pl.difference)),
      Stage("grayscale", GrayFrame(pl.gray)),
      Stage("threshold", GrayFrame(pl.thresh)),
      Stage("morph", GrayFrame(pl.morph))];
    assert Names(stages) == StageNames by {
      assert forall i :: 0 <= i < 6 ==> Names(stages)[i] == StageNames[i];
    }
    stages
  }

  /** Looking up the name of the entry at `i` finds that entry when no earlier entry shares its name. */
  lemma {:induction false} LookupAt(stages: seq<Stage>, i: nat)
    requires i < |stages|
    requires forall k :: 0 <= k < i ==> stages[k].name != stages[i].name
    ensures Lookup(stages, stages[i].name) == Some(stages[i].frame)
  {
    if i > 0 {
      assert stages[1..][i - 1] == stages[i];
      LookupAt(stages[1..], i - 1);
    }
  }

  /** Each stage name is distinct from the names recorded before it. */
  lemma StageNamesDistinct()
    ensures forall i, k :: 0 <= k < i < |StageNames| ==> StageNames[k] != StageNames[i]
  {
  }

  /**
   * Run `detect` on a color frame.  The three parameter checks come first
   * and in the source's order; then the median filter and the kernel
   * construction may refuse what the checks let through.
   */
  function Detect(img: Color, p: Params): (r: Result<Outcome, DetectError>)
    requires Rect(img)
    ensures p.noiseSize % 2 == 0 ==> r == Failure(NoiseSizeEven)
    ensures p.noiseSize % 2 != 0 && !(0 <= p.threshold <= 255) ==> r == Failure(ThresholdOutOfRange)
    ensures p.noiseSize % 2 != 0 && 0 <= p.threshold <= 255 && p.morphSize % 2 == 0 ==> r == Failure(MorphSizeEven)
    ensures ParamsAccepted(p) && !FitsInt(p.noiseSize) ==> r == Failure(NoiseSizeNotAnInt)
    ensures ParamsAccepted(p) && FitsInt(p.noiseSize) && (p.noiseSize < 0 || Size(img) == 0) ==> r == Failure(MedianBlurRejected)
    ensures ParamsAccepted(p) && 0 < p.noiseSize <= IntMax && Size(img) > 0 && p.morphSize < 0 ==> r == Failure(NegativeKernelShape)
    ensures r.Success? <==> Runnable(p) && Size(img) > 0
    ensures r.Success? ==> Names(r.value.stages) == StageNames
    ensures r.Success? ==> Lookup(r.value.stages, "original") == Some(ColorFrame(img))
  {
    if p.noiseSize % 2 == 0 then Failure(NoiseSizeEven)
    else if !(0 <= p.threshold <= 255) then Failure(ThresholdOutOfRange)
    else if p.morphSize % 2 == 0 then Failure(MorphSizeEven)
    else if !FitsInt(p.noiseSize) then Failure(NoiseSizeNotAnInt)
    else if p.noiseSize < 1 || Size(img) == 0 then Failure(MedianBlurRejected)
    else if p.morphSize < 0 then Failure(NegativeKernelShape)
    else
      var pl := RunPipeline(img, p);
      Success(Outcome(WhitePixelRatio(pl.morph), Record(pl)))
  }

  /** A successful run returns the ratio of the morph stage and records the stages of `RunPipeline`. */
  lemma DetectUnfold(img: Color, p: Params)
    requires Rect(img) && Runnable(p) && Size(img) > 0
    ensures Detect(img, p).Success?
    ensures Detect(img, p).value == Outcome(WhitePixelRatio(RunPipeline(img, p).morph), Record(RunPipeline(img, p)))
  {
  }

  /** Every key of a recorded dictionary holds the image of its own stage. */
  lemma RecordLookup(pl: Pipeline)
    ensures var stages := Record(pl);
      && Lookup(stages, "original") == Some(ColorFrame(pl.original))
      && Lookup(stages, "denoise") == Some(ColorFrame(pl.denoised))
      && Lookup(stages, "difference") == Some(ColorFrame(pl.difference))
      && Lookup(stages, "grayscale") == Some(GrayFrame(pl.gray))
      && Lookup(stages, "threshold") == Some(GrayFrame(pl.thresh))
      && Lookup(stages, "morph") == Some(GrayFrame(pl.morph))
  {
    var stages := Record(pl);
    StageNamesDistinct();
    forall i | 0 <= i < 6
      ensures Lookup(stages, StageNames[i]) == Some(stages[i].frame)
    {
      assert stages[i].name == Names(stages)[i] == StageNames[i];
      LookupAt(stages, i);
    }
    assert Lookup(stages, StageNames[1]) == Some(stages[1].frame);
    assert Lookup(stages, StageNames[2]) == Some(stages[2].frame);
    assert Lookup(stages, StageNames[3]) == Some(stages[3].frame);
    assert Lookup(stages, StageNames[4]) == Some(stages[4].frame);
    assert Lookup(stages, StageNames[5]) == Some(stages[5].frame);
  }

  /** Every key of the dictionary `detect` returns holds the image of its own stage. */
  lemma DetectStagesRecorded(img: Color, p: Params)
    requires Rect(img) && Runnable(p) && Size(img) > 0
    ensures var d, pl := Detect(img, p).value, RunPipeline(img, p);
      && Lookup(d.stages, "original") == Some(ColorFrame(img))
      && Lookup(d.stages, "denoise") == Some(ColorFrame(pl.denoised))
      && Lookup(d.stages, "difference") == Some(ColorFrame(pl.difference))
      && Lookup(d.stages, "grayscale") == Some(GrayFrame(pl.gray))
      && Lookup(d.stages, "threshold") == Some(GrayFrame(pl.thresh))
      && Lookup(d.stages, "morph") == Some(GrayFrame(pl.morph))
  {
    DetectUnfold(img, p);
    RecordLookup(RunPipeline(img, p));
  }

  /**
   * The returned ratio is the white-pixel ratio of the recorded morph frame,
   * which is binary, has the input's shape, and is never NaN.
   */
  lemma DetectRatioOfMorph(img: Color, p: Params)
    requires Rect(img) && Runnable(p) && Size(img) > 0
    ensures var d, pl := Detect(img, p).value, RunPipeline(img, p);
      && d.stages[|d.stages| - 1] == Stage("morph", GrayFrame(pl.morph))
      && d.ratio == WhitePixelRatio(pl.morph)
      && Binary(pl.morph)
      && SameShape(pl.morph, img)
      && !d.ratio.IsNaN()
      && 0.0 <= d.ratio.Value() <= 1.0
  {
    DetectUnfold(img, p);
    var d, pl := Detect(img, p).value, RunPipeline(img, p);
    CloseKeeps(pl.thresh, p.morphSize / 2, CloseIterations, 0);
    FractionBounds(d.ratio.white, d.ratio.total);
  }

  /** Every cell of the threshold stage is 0 or 255, and it is 255 exactly where the gray stage exceeds the threshold. */
  lemma DetectThresholdStage(img: Color, p: Params)
    requires Rect(img) && Runnable(p)
    ensures var pl := RunPipeline(img, p);
      && Binary(pl.thresh)
      && SameShape(pl.thresh, pl.gray)
      && forall i, j :: 0 <= i < |pl.thresh| && 0 <= j < |pl.thresh[i]| ==> (pl.thresh[i][j] == White <==> pl.gray[i][j] > p.threshold)
  {
  }

  /** Each channel of the difference stage is the input's channel minus the denoised one, clamped at zero. */
  lemma DetectDifferenceStage(img: Color, p: Params)
    requires Rect(img) && Runnable(p)
    ensures var pl := RunPipeline(img, p);
      && SameShape(pl.difference, img)
      && forall i, j, ch :: 0 <= i < |img| && 0 <= j < |img[i]| && 0 <= ch < 3 ==>
           Channel(pl.difference[i][j], ch) <= Channel(img[i][j], ch) &&
           Channel(pl.difference[i][j], ch) == SatSub(Channel(img[i][j], ch), Channel(pl.denoised[i][j], ch))
  {
  }

  /** Closing only merges: the returned coverage counts at least every white cell of the threshold stage. */
  lemma ClosingNeverLowersCoverage(img: Color, p: Params)
    requires Rect(img) && Runnable(p) && Size(img) > 0
    ensures CountWhite(RunPipeline(img, p).thresh) <= Detect(img, p).value.ratio.white
  {
    DetectUnfold(img, p);
    var pl := RunPipeline(img, p);
    CloseExtensive(pl.thresh, p.morphSize / 2, CloseIterations);
    CountWhiteMonotone(pl.thresh, pl.morph);
  }

  /** A frame of one color has no dust: its coverage is 0 whatever the accepted parameters. */
  lemma UniformFrameHasNoCoverage(img: Color, p: Params, px: Bgr)
    requires Rect(img) && Runnable(p) && Size(img) > 0 && Filled(img, px)
    ensures Detect(img, p).value.ratio.white == 0
    ensures Detect(img, p).value.ratio.Value() == 0.0
  {
    DetectUnfold(img, p);
    var pl := RunPipeline(img, p);
    assert pl.denoised == img by {
      MedianBlurUniform(img, p.noiseSize, px);
    }
    assert Filled(pl.gray, 0) by {
      SubtractSelf(img);
      GrayscaleOfBlack(pl.difference);
    }
    assert Filled(pl.thresh, 0) by {
      ThresholdOfBlack(pl.gray, p.threshold);
    }
    assert Filled(pl.morph, 0) by {
      CloseKeeps(pl.thresh, p.morphSize / 2, CloseIterations, 0);
    }
    CountWhiteZero(pl.morph);
    var r := Detect(img, p).value.ratio;
    assert r.white == 0;
    FractionBounds(r.white, r.total);
  }

  /** With its defaults, `detect` succeeds exactly on the non-empty frames. */
  lemma DefaultsAccepted(img: Color)
    requires Rect(img)
    ensures Detect(img, Defaults).Success? <==> Size(img) > 0
  {
  }
}
