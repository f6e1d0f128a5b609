/**
 * The rules main.py embeds in its request handlers and in the webcam stream: the
 * distance/detection mode switch, the upload checks, the case-insensitive model lookup,
 * the overlap resolution when a new rule set is posted, and the filtering of the rule set
 * to the current model's class names.
 */
module Server {
  import opened Wrappers
  import opened Text
  import opened Config
  import opened Compliance

  // ---------------------------------------------------------------- webcam mode switch

  /** Whether real-time detection runs, and the two run-length counters of frame quality. */
  datatype ModeState = ModeState(detection: bool, good: nat, bad: nat)

  const InitialMode: ModeState := ModeState(false, 0, 0)

  /**
   * One frame of the stream: a good frame (the distance check says "process") extends the
   * good run, ends the bad run and may enter detection; a bad frame does the reverse and may
   * leave it.
   */
  function ModeStep(s: ModeState, shouldProcess: bool, required: int, allowed: int): ModeState {
    if shouldProcess then
      var good := s.good + 1;
      ModeState(if !s.detection && good >= required then true else s.detection, good, 0)
    else
      var bad := s.bad + 1;
      ModeState(if s.detection && bad >= allowed then false else s.detection, 0, bad)
  }

  /** The state after a run of frames. */
  function ModeRun(s: ModeState, frames: seq<bool>, required: int, allowed: int): ModeState {
    if frames == [] then s
    else ModeStep(ModeRun(s, frames[..|frames| - 1], required, allowed), frames[|frames| - 1],
                  required, allowed)
  }

  /** Whether detection ran on each frame of a run. */
  function ModeTrace(s: ModeState, frames: seq<bool>, required: int, allowed: int): (t: seq<bool>)
    ensures |t| == |frames|
  {
    if frames == [] then []
    else ModeTrace(s, frames[..|frames| - 1], required, allowed) +
         [ModeRun(s, frames, required, allowed).detection]
  }

  /** The transition rules: who may switch the mode, and the counters a frame leaves. */
  lemma ModeStepRules(s: ModeState, shouldProcess: bool, required: int, allowed: int)
    ensures var t := ModeStep(s, shouldProcess, required, allowed);
      && (t.good == 0 || t.bad == 0)
      && (shouldProcess ==> t.good == s.good + 1 && t.bad == 0)
      && (!shouldProcess ==> t.bad == s.bad + 1 && t.good == 0)
      && (!s.detection && t.detection <==> shouldProcess && !s.detection && t.good >= required)
      && (s.detection && !t.detection <==> !shouldProcess && s.detection && t.bad >= allowed)
      && (shouldProcess && s.detection ==> t.detection)
      && (!shouldProcess && !s.detection ==> !t.detection)
  {
  }

  /** What every reachable state satisfies: one run at a time, and no full good run outside detection. */
  ghost predicate ModeInvariant(s: ModeState, required: int) {
    (s.good == 0 || s.bad == 0) && (!s.detection ==> s.good < required)
  }

  lemma {:induction false} ModeRunKeepsInvariant(s: ModeState, frames: seq<bool>, required: int,
                                                 allowed: int)
    requires required > 0 && ModeInvariant(s, required)
    ensures ModeInvariant(ModeRun(s, frames, required, allowed), required)
  {
    if frames != [] {
      ModeRunKeepsInvariant(s, frames[..|frames| - 1], required, allowed);
    }
  }

  /** `n` good frames in a row from any state leave a good run of at least `n` and no bad run. */
  lemma {:induction false} GoodRun(s: ModeState, n: nat, required: int, allowed: int)
    requires n > 0
    ensures var t := ModeRun(s, seq(n, _ => true), required, allowed);
      t.good == s.good + n && t.bad == 0 && (t.detection <==> s.detection || s.good + n >= required)
  {
    var frames := seq(n, _ => true);
    if n > 1 {
      assert frames[..n - 1] == seq(n - 1, _ => true);
      GoodRun(s, n - 1, required, allowed);
    } else {
      assert frames[..0] == [];
    }
  }

  /** `n` bad frames in a row from any state leave a bad run of at least `n` and no good run. */
  lemma {:induction false} BadRun(s: ModeState, n: nat, required: int, allowed: int)
    requires n > 0
    ensures var t := ModeRun(s, seq(n, _ => false), required, allowed);
      t.bad == s.bad + n && t.good == 0 && (t.detection <==> s.detection && s.bad + n < allowed)
  {
    var frames := seq(n, _ => false);
    if n > 1 {
      assert frames[..n - 1] == seq(n - 1, _ => false);
      BadRun(s, n - 1, required, allowed);
    } else {
      assert frames[..0] == [];
    }
  }

  /** From the start of the stream, five good frames switch detection on and four do not. */
  lemma StreamStartsDetecting()
    ensures ModeRun(InitialMode, seq(WebcamRequiredGoodFrames, _ => true),
                    WebcamRequiredGoodFrames, WebcamAllowedBadFrames).detection
    ensures !ModeRun(InitialMode, seq(WebcamRequiredGoodFrames - 1, _ => true),
                     WebcamRequiredGoodFrames, WebcamAllowedBadFrames).detection
  {
    GoodRun(InitialMode, WebcamRequiredGoodFrames, WebcamRequiredGoodFrames, WebcamAllowedBadFrames);
    GoodRun(InitialMode, WebcamRequiredGoodFrames - 1, WebcamRequiredGoodFrames, WebcamAllowedBadFrames);
  }

  /** Once detecting, ten bad frames switch it off and nine do not. */
  lemma StreamStopsDetecting(s: ModeState)
    requires s.detection
    ensures !ModeRun(s, seq(WebcamAllowedBadFrames, _ => false),
                     WebcamRequiredGoodFrames, WebcamAllowedBadFrames).detection
    ensures s.bad == 0 ==> ModeRun(s, seq(WebcamAllowedBadFrames - 1, _ => false),
                                   WebcamRequiredGoodFrames, WebcamAllowedBadFrames).detection
  {
    BadRun(s, WebcamAllowedBadFrames, WebcamRequiredGoodFrames, WebcamAllowedBadFrames);
    BadRun(s, WebcamAllowedBadFrames - 1, WebcamRequiredGoodFrames, WebcamAllowedBadFrames);
  }

  /**
   * The stream's loop over the distance-check results of the frames it reads. Without a
   * distance checker every frame is detected and the counters stay at zero.
   */
  method StreamModes(results: seq<bool>, distanceCheck: bool)
    returns (detecting: seq<bool>, final: ModeState)
    ensures distanceCheck ==>
      detecting == ModeTrace(InitialMode, results, WebcamRequiredGoodFrames, WebcamAllowedBadFrames) &&
      final == ModeRun(InitialMode, results, WebcamRequiredGoodFrames, WebcamAllowedBadFrames)
    ensures !distanceCheck ==> final == InitialMode && forall i :: 0 <= i < |detecting| ==> detecting[i]
    ensures |detecting| == |results|
  {
    var detectionMode := false;
    var consecutiveGood, consecutiveBad := 0, 0;
    var required, allowed := WebcamRequiredGoodFrames, WebcamAllowedBadFrames;
    detecting := [];
    var i := 0;
    while i < |results|
      invariant 0 <= i <= |results| && |detecting| == i
      invariant distanceCheck ==>
        ModeState(detectionMode, consecutiveGood, consecutiveBad) ==
          ModeRun(InitialMode, results[..i], required, allowed) &&
        detecting == ModeTrace(InitialMode, results[..i], required, allowed)
      invariant !distanceCheck ==>
        (!detectionMode && consecutiveGood == 0 && consecutiveBad == 0 &&
         forall k :: 0 <= k < i ==> detecting[k])
    {
      assert results[..i + 1][..i] == results[..i];
      if distanceCheck {
        if results[i] {
          consecutiveGood := consecutiveGood + 1;
          consecutiveBad := 0;
          if !detectionMode && consecutiveGood >= required {
            detectionMode := true;
          }
        } else {
          consecutiveBad := consecutiveBad + 1;
          consecutiveGood := 0;
          if detectionMode && consecutiveBad >= allowed {
            detectionMode := false;
          }
        }
        detecting := detecting + [detectionMode];
      } else {
        detecting := detecting + [true];
      }
      i := i + 1;
    }
    assert results[..|results|] == results;
    final := ModeState(detectionMode, consecutiveGood, consecutiveBad);
  }

  /** The progress bar value shown while checking distance, in percent, clamped at 100. */
  function Progress(good: nat, required: int): (p: int)
    requires required > 0
    ensures 0 <= p <= 100
  {
    var raw := good * 100 / required;
    if raw < 100 then raw else 100
  }

  /** In distance mode a reachable state's progress is always below 100. */
  lemma ProgressBelowFullInDistanceMode(s: ModeState, required: int)
    requires required > 0 && ModeInvariant(s, required) && !s.detection
    ensures Progress(s.good, required) < 100
  {
    QuotientBelow(s.good * 100, required, 100);
  }

  /** Progress reaches 100 exactly when the good run is long enough. */
  lemma ProgressFull(good: nat, required: int)
    requires required > 0
    ensures Progress(good, required) == 100 <==> good >= required
  {
    if good >= required {
      QuotientAtLeast(good * 100, required, 100);
    } else {
      QuotientBelow(good * 100, required, 100);
    }
  }

  lemma QuotientBelow(a: nat, b: int, c: nat)
    requires b > 0 && a < c * b
    ensures a / b < c
  {
    var q := a / b;
    assert q * b + a % b == a;
    MultiplyMonotone(q, c, b);
  }

  lemma QuotientAtLeast(a: nat, b: int, c: nat)
    requires b > 0 && a >= c * b
    ensures a / b >= c
  {
    var q := a / b;
    assert q * b + a % b == a && a % b < b;
    MultiplyMonotone(c, q + 1, b);
    assert (q + 1) * b == q * b + b;
  }

  lemma MultiplyMonotone(x: int, y: int, b: int)
    requires b >= 0
    ensures x >= y ==> x * b >= y * b
  {
    if x >= y {
      assert x * b - y * b == (x - y) * b;
    }
  }

  // ---------------------------------------------------------------- upload checks

  /** Why an upload is refused, in the order the handler checks. */
  datatype UploadError =
    | DetectorNotInitialized
    | InvalidFileType
    | FileTooLarge
    | DecodeFailed
    | ImageTooSmall
    | ImageTooLarge

  function StatusCode(e: UploadError): int {
    if e == DetectorNotInitialized then 503 else 400
  }

  /** `"." + filename.split('.')[-1].lower()`: a name without a dot is taken whole. */
  function UploadExtension(filename: string): string {
    "." + Lower(AfterLastDot(filename))
  }

  /** Width and height of a decoded image. */
  datatype Dimensions = Dimensions(width: int, height: int)

  /**
   * The checks of the detection endpoint before detection runs. `decoded` is what the image
   * decoder made of the content: nothing when it could not decode it.
   */
  function ValidateUpload(detectorReady: bool, filename: string, contentLength: nat,
                          decoded: Option<Dimensions>): Result<Dimensions, UploadError>
  {
    if !detectorReady then Err(DetectorNotInitialized)
    else if UploadExtension(filename) !in AllowedExtensions then Err(InvalidFileType)
    else if contentLength > MaxFileSize then Err(FileTooLarge)
    else if decoded.None? then Err(DecodeFailed)
    else if decoded.value.width < MinImageDimension || decoded.value.height < MinImageDimension then
      Err(ImageTooSmall)
    else if decoded.value.width > MaxImageDimension || decoded.value.height > MaxImageDimension then
      Err(ImageTooLarge)
    else Ok(decoded.value)
  }

  /** An accepted upload meets every limit; a refused one names the first limit it breaks. */
  lemma ValidateUploadExact(detectorReady: bool, filename: string, contentLength: nat,
                            decoded: Option<Dimensions>)
    ensures var r := ValidateUpload(detectorReady, filename, contentLength, decoded);
      && (r.Ok? <==>
            detectorReady && UploadExtension(filename) in AllowedExtensions &&
            contentLength <= MaxFileSize && decoded.Some? &&
            50 <= decoded.value.width <= 4096 && 50 <= decoded.value.height <= 4096)
      && (r.Ok? ==> r.value == decoded.value)
      && (r == Err(DetectorNotInitialized) <==> !detectorReady)
      && (r == Err(InvalidFileType) <==>
            detectorReady && UploadExtension(filename) !in AllowedExtensions)
      && (r == Err(FileTooLarge) <==>
            detectorReady && UploadExtension(filename) in AllowedExtensions &&
            contentLength > 10 * 1024 * 1024)
      && (r == Err(DecodeFailed) <==>
            detectorReady && UploadExtension(filename) in AllowedExtensions &&
            contentLength <= 10 * 1024 * 1024 && decoded.None?)
      && (r == Err(ImageTooSmall) <==>
            detectorReady && UploadExtension(filename) in AllowedExtensions &&
            contentLength <= 10 * 1024 * 1024 && decoded.Some? &&
            (decoded.value.width < 50 || decoded.value.height < 50))
      && (r == Err(ImageTooLarge) <==>
            detectorReady && UploadExtension(filename) in AllowedExtensions &&
            contentLength <= 10 * 1024 * 1024 && decoded.Some? &&
            50 <= decoded.value.width && 50 <= decoded.value.height &&
            (decoded.value.width > 4096 || decoded.value.height > 4096))
      && (r.Err? ==> (StatusCode(r.error) == 503 <==> !detectorReady))
  {
  }

  /** The extension is the text after the last dot, lower-cased, with the dot put back. */
  lemma UploadExtensionOf(stem: string, ext: string)
    requires '.' !in ext
    ensures UploadExtension(stem + "." + ext) == "." + Lower(ext)
  {
    AfterLastDotOfSuffix(stem, ext);
  }

  /** A name without a dot is taken whole as its extension: a bare `jpg` passes. */
  lemma UploadExtensionWithoutDot(filename: string)
    requires '.' !in filename
    ensures UploadExtension(filename) == "." + Lower(filename)
  {
    AfterLastDotNoDot(filename);
  }

  // ---------------------------------------------------------------- model lookup

  datatype SwitchError = SwitchDetectorNotInitialized | InvalidModel(detail: string)

  function SwitchStatus(e: SwitchError): int {
    if e.SwitchDetectorNotInitialized? then 503 else 400
  }

  /** The index of the first id equal to `request` up to ASCII case. */
  function FirstMatch(ids: seq<string>, request: string): (r: Option<nat>)
    ensures r.Some? ==> r.value < |ids| && Lower(ids[r.value]) == Lower(request)
    ensures r.Some? ==> forall j :: 0 <= j < r.value ==> Lower(ids[j]) != Lower(request)
    ensures r.None? ==> forall j :: 0 <= j < |ids| ==> Lower(ids[j]) != Lower(request)
  {
    if ids == [] then None
    else if Lower(ids[0]) == Lower(request) then Some(0)
    else match FirstMatch(ids[1..], request)
      case None => None
      case Some(k) => Some(k + 1)
  }

  /**
   * The lookup loop of the model-switch endpoint over the available ids, in their listed
   * order. An empty matched id counts as no match, as a falsy value does in Python.
   */
  method MatchModel(detectorReady: bool, ids: seq<string>, request: string)
    returns (r: Result<string, SwitchError>)
    ensures !detectorReady ==> r == Err(SwitchDetectorNotInitialized)
    ensures detectorReady ==> match FirstMatch(ids, request)
      case Some(i) => if ids[i] != "" then r == Ok(ids[i])
                      else r == Err(InvalidModel(InvalidModelDetail(ids, request)))
      case None => r == Err(InvalidModel(InvalidModelDetail(ids, request)))
  {
    if !detectorReady {
      return Err(SwitchDetectorNotInitialized);
    }
    var matched := "";
    var i := 0;
    while i < |ids|
      invariant 0 <= i <= |ids|
      invariant forall j :: 0 <= j < i ==> Lower(ids[j]) != Lower(request)
      invariant matched == ""
    {
      if Lower(ids[i]) == Lower(request) {
        matched := ids[i];
        break;
      }
      i := i + 1;
    }
    if matched == "" {
      return Err(InvalidModel(InvalidModelDetail(ids, request)));
    }
    return Ok(matched);
  }

  function InvalidModelDetail(ids: seq<string>, request: string): string {
    "Invalid model '" + request + "'. Available models: " + Join(ids, ", ")
  }

  // ---------------------------------------------------------------- rule-set endpoints

  /**
   * The handler that replaces the whole rule set: both lists are normalised, a name in both
   * stays prohibited only, and the removed overlap is reported.
   */
  method UpdateComplianceConfig(m: ComplianceManager, compliant: seq<string>,
                                nonCompliant: seq<string>, minConfidence: real)
    returns (duplicatesRemoved: set<string>, config: ComplianceConfig)
    modifies m
    ensures m.nonCompliantClasses == NormalisedSet(nonCompliant)
    ensures m.compliantClasses == NormalisedSet(compliant) - NormalisedSet(nonCompliant)
    ensures m.minConfidence == minConfidence
    ensures duplicatesRemoved == NormalisedSet(compliant) * NormalisedSet(nonCompliant)
    ensures m.Disjoint()
    ensures Sorted(config.compliantClasses) && NoDuplicates(config.compliantClasses)
    ensures Sorted(config.nonCompliantClasses) && NoDuplicates(config.nonCompliantClasses)
    ensures forall x :: x in config.compliantClasses <==> x in m.compliantClasses
    ensures forall x :: x in config.nonCompliantClasses <==> x in m.nonCompliantClasses
  {
    var compliantSet := NormalisedSet(compliant);
    var nonCompliantSet := NormalisedSet(nonCompliant);
    var overlap := compliantSet * nonCompliantSet;
    ghost var given := compliantSet;
    if overlap != {} {
      compliantSet := compliantSet - overlap;
    }
    assert forall x :: x in given && x in nonCompliantSet ==> x in overlap;
    assert compliantSet == given - nonCompliantSet;
    m.compliantClasses := compliantSet;
    m.nonCompliantClasses := nonCompliantSet;
    m.minConfidence := minConfidence;
    duplicatesRemoved := overlap;
    config := m.GetConfig();
  }

  /**
   * After an update, a detection whose name was posted in both lists is prohibited, and one
   * posted only as compliant is approved: safety wins over convenience.
   */
  lemma UpdatedRulesClassify(d: Detection, compliant: seq<string>, nonCompliant: seq<string>,
                             minConfidence: real)
    requires d.confidence >= minConfidence
    ensures var c, n := NormalisedSet(compliant) - NormalisedSet(nonCompliant), NormalisedSet(nonCompliant);
      && (Normalise(d.className) in NormalisedSet(nonCompliant) ==>
            CategoryOf(d, n, c, minConfidence) == Prohibited)
      && (Normalise(d.className) in NormalisedSet(compliant) - NormalisedSet(nonCompliant) ==>
            CategoryOf(d, n, c, minConfidence) == Approved)
  {
  }

  /** `set(c.lower() for c in names)`: the current model's class names, lower-cased (not stripped). */
  function LoweredNames(names: seq<string>): set<string> {
    set i | 0 <= i < |names| :: Lower(names[i])
  }

  /** `[c for c in classes if c in allowed]`. */
  function KeepAllowed(classes: seq<string>, allowed: set<string>): (r: seq<string>)
    ensures |r| <= |classes|
    ensures forall x :: x in r <==> x in classes && x in allowed
  {
    if classes == [] then []
    else (if classes[0] in allowed then [classes[0]] else []) + KeepAllowed(classes[1..], allowed)
  }

  /** Filtering keeps a sorted, duplicate-free list sorted and duplicate-free. */
  lemma {:induction false} KeepAllowedKeepsOrder(classes: seq<string>, allowed: set<string>)
    ensures Sorted(classes) ==> Sorted(KeepAllowed(classes, allowed))
    ensures NoDuplicates(classes) ==> NoDuplicates(KeepAllowed(classes, allowed))
  {
    if classes != [] {
      var tail := classes[1..];
      KeepAllowedKeepsOrder(tail, allowed);
      var rest := KeepAllowed(tail, allowed);
      if classes[0] in allowed {
        assert KeepAllowed(classes, allowed) == [classes[0]] + rest;
        if Sorted(classes) {
          forall x | x in rest ensures Below(classes[0], x) {
            var j :| 0 <= j < |tail| && tail[j] == x;
            assert classes[j + 1] == x;
          }
        }
        if NoDuplicates(classes) {
          forall x | x in rest ensures classes[0] != x {
            var j :| 0 <= j < |tail| && tail[j] == x;
            assert classes[j + 1] == x;
          }
        }
      }
    }
  }

  /**
   * The rule-set read endpoint: the sorted configuration, restricted to the current model's
   * lower-cased class names when a model with names is loaded.
   */
  method GetComplianceConfig(m: ComplianceManager, modelNames: Option<seq<string>>)
    returns (config: ComplianceConfig)
    ensures config.minConfidence == m.minConfidence
    ensures Sorted(config.compliantClasses) && NoDuplicates(config.compliantClasses)
    ensures Sorted(config.nonCompliantClasses) && NoDuplicates(config.nonCompliantClasses)
    ensures forall x :: x in config.compliantClasses <==>
      x in m.compliantClasses && (modelNames.Some? ==> x in LoweredNames(modelNames.value))
    ensures forall x :: x in config.nonCompliantClasses <==>
      x in m.nonCompliantClasses && (modelNames.Some? ==> x in LoweredNames(modelNames.value))
  {
    config := m.GetConfig();
    if modelNames.Some? {
      var current := LoweredNames(modelNames.value);
      KeepAllowedKeepsOrder(config.compliantClasses, current);
      KeepAllowedKeepsOrder(config.nonCompliantClasses, current);
      config := config.(compliantClasses := KeepAllowed(config.compliantClasses, current),
                        nonCompliantClasses := KeepAllowed(config.nonCompliantClasses, current));
    }
  }
}
