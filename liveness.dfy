/** The single-frame liveness heuristic (`is_live_capture`). The image measurements
    (Laplacian variance, face and landmark detection, colour variance, frequency
    energy, mean brightness) come from OpenCV, numpy and face_recognition, which are
    not part of the model: each is an input that either returned a value or raised. */
module Liveness {
  import opened Wrappers

  /** Thresholds of the checks, fixed in the source. */
  const MinLaplacianVariance: real := 50.0
  const MinColourVariance: real := 100.0
  const MaxHighFrequencyEnergy: real := 1000000.0
  const MinBrightness: real := 30.0
  const MaxBrightness: real := 220.0

  /** A decoded image: its number of elements, its number of array dimensions
      (3 for a colour image, 2 for a grey one) and what each measurement yields on it. */
  datatype Frame = Frame(
    size: nat,
    dimensions: nat,
    laplacianVariance: Call<real>,
    faceCount: Call<nat>,
    landmarkCount: Call<nat>,
    colourVariance: Call<real>,
    highFrequencyEnergy: Call<real>,
    meanBrightness: Call<real>)

  /** Why a capture is not considered live; `AnalysisFailed` is an exception raised by a
      measurement other than the frequency one. */
  datatype Reason =
    | EmptyImage | TooBlurry | NoFaceDetected | NoLandmarks | MultipleFaces
    | LowColourVariance | ScreenMoirePattern | UnnaturalBrightness | AnalysisFailed

  datatype Verdict = Live | Rejected(reason: Reason)

  /** The checks in the order the source applies them. */
  datatype Check = NonEmpty | Sharpness | FacePresent | LandmarksPresent | SingleFace
                 | ColourSpread | NoMoire | NaturalBrightness

  const Order: seq<Check> := [NonEmpty, Sharpness, FacePresent, LandmarksPresent, SingleFace,
                              ColourSpread, NoMoire, NaturalBrightness]

  /** `is_live_capture` with the reason it rejects: each check in turn, the first that
      fails deciding the verdict. `None` is an image that is `None`. */
  function Assess(image: Option<Frame>): (v: Verdict)
  {
    if image.None? || image.value.size == 0 then Rejected(EmptyImage)
    else
      var f := image.value;
      match f.laplacianVariance
      case Raised => Rejected(AnalysisFailed)
      case Returned(lap) =>
        if lap < MinLaplacianVariance then Rejected(TooBlurry)
        else
          match f.faceCount
          case Raised => Rejected(AnalysisFailed)
          case Returned(faces) =>
            if faces == 0 then Rejected(NoFaceDetected)
            else
              match f.landmarkCount
              case Raised => Rejected(AnalysisFailed)
              case Returned(landmarks) =>
                if landmarks == 0 then Rejected(NoLandmarks)
                else if faces > 1 then Rejected(MultipleFaces)
                else if f.dimensions == 3 && f.colourVariance.Raised? then Rejected(AnalysisFailed)
                else if f.dimensions == 3 && f.colourVariance.value < MinColourVariance then Rejected(LowColourVariance)
                // an exception in the frequency check is caught and the checks go on
                else if f.highFrequencyEnergy.Returned? && f.highFrequencyEnergy.value > MaxHighFrequencyEnergy then Rejected(ScreenMoirePattern)
                else
                  match f.meanBrightness
                  case Raised => Rejected(AnalysisFailed)
                  case Returned(b) =>
                    if b < MinBrightness || b > MaxBrightness then Rejected(UnnaturalBrightness)
                    else Live
  }

  /** `is_live_capture(image)`. */
  function IsLiveCapture(image: Option<Frame>): bool {
    Assess(image).Live?
  }

  /** One check taken on its own: `None` when it passes, otherwise the reason it fails.
      A check reads only its own measurements (the single-face check also reads the face
      count); the order in which the checks run is not part of this definition. */
  function CheckOutcome(f: Frame, c: Check): Option<Reason> {
    match c
    case NonEmpty => if f.size == 0 then Some(EmptyImage) else None
    case Sharpness =>
      if f.laplacianVariance.Raised? then Some(AnalysisFailed)
      else if f.laplacianVariance.value < MinLaplacianVariance then Some(TooBlurry) else None
    case FacePresent =>
      if f.faceCount.Raised? then Some(AnalysisFailed)
      else if f.faceCount.value == 0 then Some(NoFaceDetected) else None
    case LandmarksPresent =>
      if f.landmarkCount.Raised? then Some(AnalysisFailed)
      else if f.landmarkCount.value == 0 then Some(NoLandmarks) else None
    case SingleFace =>
      if f.faceCount.Returned? && f.faceCount.value > 1 then Some(MultipleFaces) else None
    case ColourSpread =>
      if f.dimensions != 3 then None
      else if f.colourVariance.Raised? then Some(AnalysisFailed)
      else if f.colourVariance.value < MinColourVariance then Some(LowColourVariance) else None
    case NoMoire =>
      if f.highFrequencyEnergy.Returned? && f.highFrequencyEnergy.value > MaxHighFrequencyEnergy
      then Some(ScreenMoirePattern) else None
    case NaturalBrightness =>
      if f.meanBrightness.Raised? then Some(AnalysisFailed)
      else if f.meanBrightness.value < MinBrightness || f.meanBrightness.value > MaxBrightness
      then Some(UnnaturalBrightness) else None
  }

  /** The outcome of the first failing check of `checks`, or `None` when all pass. */
  function FirstFailure(f: Frame, checks: seq<Check>): (r: Option<Reason>)
    ensures r.None? <==> forall c :: c in checks ==> CheckOutcome(f, c).None?
  {
    if checks == [] then None
    else if CheckOutcome(f, checks[0]).Some? then CheckOutcome(f, checks[0])
    else FirstFailure(f, checks[1..])
  }

  function ToVerdict(r: Option<Reason>): Verdict {
    match r
    case None => Live
    case Some(reason) => Rejected(reason)
  }

  /** The first failure of `Order`, unrolled. */
  lemma FirstFailureOfOrder(f: Frame)
    ensures FirstFailure(f, Order) ==
      if CheckOutcome(f, NonEmpty).Some? then CheckOutcome(f, NonEmpty)
      else if CheckOutcome(f, Sharpness).Some? then CheckOutcome(f, Sharpness)
      else if CheckOutcome(f, FacePresent).Some? then CheckOutcome(f, FacePresent)
      else if CheckOutcome(f, LandmarksPresent).Some? then CheckOutcome(f, LandmarksPresent)
      else if CheckOutcome(f, SingleFace).Some? then CheckOutcome(f, SingleFace)
      else if CheckOutcome(f, ColourSpread).Some? then CheckOutcome(f, ColourSpread)
      else if CheckOutcome(f, NoMoire).Some? then CheckOutcome(f, NoMoire)
      else CheckOutcome(f, NaturalBrightness)
  {
    var s1 := Order[1..];
    var s2 := s1[1..];
    var s3 := s2[1..];
    var s4 := s3[1..];
    var s5 := s4[1..];
    var s6 := s5[1..];
    var s7 := s6[1..];
    assert s7 == [NaturalBrightness] && s7[1..] == [];
    assert s6[0] == NoMoire && s5[0] == ColourSpread && s4[0] == SingleFace;
    assert s3[0] == LandmarksPresent && s2[0] == FacePresent && s1[0] == Sharpness;
    assert FirstFailure(f, s7) == CheckOutcome(f, NaturalBrightness);
    assert FirstFailure(f, s6) == if CheckOutcome(f, NoMoire).Some? then CheckOutcome(f, NoMoire) else FirstFailure(f, s7);
    assert FirstFailure(f, s5) == if CheckOutcome(f, ColourSpread).Some? then CheckOutcome(f, ColourSpread) else FirstFailure(f, s6);
    assert FirstFailure(f, s4) == if CheckOutcome(f, SingleFace).Some? then CheckOutcome(f, SingleFace) else FirstFailure(f, s5);
    assert FirstFailure(f, s3) == if CheckOutcome(f, LandmarksPresent).Some? then CheckOutcome(f, LandmarksPresent) else FirstFailure(f, s4);
    assert FirstFailure(f, s2) == if CheckOutcome(f, FacePresent).Some? then CheckOutcome(f, FacePresent) else FirstFailure(f, s3);
    assert FirstFailure(f, s1) == if CheckOutcome(f, Sharpness).Some? then CheckOutcome(f, Sharpness) else FirstFailure(f, s2);
  }

  /** The source's chain of early returns is the ordered battery of independent checks:
      the verdict is the first failing check of `Order`, and a capture is live exactly
      when every check passes. */
  lemma {:induction false} AssessIsFirstFailure(f: Frame)
    ensures Assess(Some(f)) == ToVerdict(FirstFailure(f, Order))
    ensures IsLiveCapture(Some(f)) <==> forall c :: c in Order ==> CheckOutcome(f, c).None?
  {
    FirstFailureOfOrder(f);
  }

  /** A blurred frame is rejected as blurry before any face detection is consulted,
      whatever the face, landmark and later measurements would have been. */
  lemma BlurRejectedFirst(f: Frame, lap: real)
    requires f.size > 0
    requires f.laplacianVariance == Returned(lap) && lap < MinLaplacianVariance
    ensures Assess(Some(f)) == Rejected(TooBlurry)
  {
  }

  /** A failure of the frequency-domain check never rejects a capture: the verdict is
      the one the frame would get if that check had measured no energy at all. */
  lemma FrequencyFailureSkipped(f: Frame)
    requires f.highFrequencyEnergy.Raised?
    ensures Assess(Some(f)) == Assess(Some(f.(highFrequencyEnergy := Returned(0.0))))
  {
  }

  /** The colour check applies to three-dimensional (colour) arrays only: a grey frame
      is never rejected for flat colour. */
  lemma GreyFramesSkipColourCheck(f: Frame)
    requires f.dimensions != 3
    ensures Assess(Some(f)) != Rejected(LowColourVariance)
  {
  }
}
