/**
 * The frame-skip counter and the detection-parameter tiers of utils/frame_processor.py.
 */
module FrameProcessing {

  const DefaultMaxDimension: int := 1280

  /** The counters of a frame processor. */
  datatype Counters = Counters(frameCount: nat, skipCount: nat)

  datatype FrameStats = FrameStats(totalFrames: nat, processedFrames: int, skippedFrames: nat)

  /** One call of `should_process_frame`: count the frame, then process every `interval`-th. */
  function Step(c: Counters, interval: int): (Counters, bool)
    requires interval != 0
  {
    var n := c.frameCount + 1;
    if n % interval == 0 then (Counters(n, c.skipCount), true)
    else (Counters(n, c.skipCount + 1), false)
  }

  /** `frames` calls of `should_process_frame` with the same interval. */
  function Run(c: Counters, interval: int, frames: nat): Counters
    requires interval != 0
  {
    if frames == 0 then c else Step(Run(c, interval, frames - 1), interval).0
  }

  function Stats(c: Counters): (r: FrameStats)
    ensures r.totalFrames == r.processedFrames + r.skippedFrames
  {
    FrameStats(c.frameCount, c.frameCount - c.skipCount, c.skipCount)
  }

  /** Every call counts one frame, and skips it exactly when it is not processed. */
  lemma StepCounts(c: Counters, interval: int)
    requires interval != 0
    ensures var (d, process) := Step(c, interval);
      && d.frameCount == c.frameCount + 1
      && d.skipCount == c.skipCount + (if process then 0 else 1)
      && (process <==> exists q :: d.frameCount == q * interval)
  {
    var n := c.frameCount + 1;
    if n % interval == 0 {
      assert n == (n / interval) * interval;
    } else {
      forall q | n == q * interval ensures false {
        DivisionExact(n, q, interval);
      }
    }
  }

  /** A multiple of `k` leaves no remainder. */
  lemma DivisionExact(n: int, q: int, k: int)
    requires k != 0 && n == q * k
    ensures n % k == 0
  {
    DivisionUnique(n, q, 0, k);
  }

  /** The skip count never exceeds the frame count, so the processed count is never negative. */
  lemma {:induction false} RunKeepsOrder(c: Counters, interval: int, frames: nat)
    requires interval != 0 && c.skipCount <= c.frameCount
    ensures var d := Run(c, interval, frames);
      d.skipCount <= d.frameCount && d.frameCount == c.frameCount + frames
  {
    if frames > 0 {
      RunKeepsOrder(c, interval, frames - 1);
    }
  }

  /** With the default interval of 1 every frame is processed and nothing is skipped. */
  lemma {:induction false} IntervalOneProcessesAll(c: Counters, frames: nat)
    ensures Run(c, 1, frames) == Counters(c.frameCount + frames, c.skipCount)
  {
    if frames > 0 {
      IntervalOneProcessesAll(c, frames - 1);
    }
  }

  /**
   * From reset counters, `frames` calls with a positive interval `k` process exactly
   * `frames / k` frames: one in every `k`.
   */
  lemma {:induction false} RunProcessesOneInK(k: int, frames: nat)
    requires k > 0
    ensures var d := Run(Counters(0, 0), k, frames);
      d.frameCount == frames && d.frameCount - d.skipCount == frames / k
  {
    if frames > 0 {
      RunProcessesOneInK(k, frames - 1);
      DivStep(frames - 1, k);
    }
  }

  /** Counting one more frame adds one to the quotient exactly when it lands on a multiple. */
  lemma DivStep(n: nat, k: int)
    requires k > 0
    ensures (n + 1) / k == n / k + (if (n + 1) % k == 0 then 1 else 0)
  {
    var q, r := n / k, n % k;
    assert n == q * k + r && 0 <= r < k;
    assert n + 1 == q * k + (r + 1);
    if r + 1 < k {
      DivisionUnique(n + 1, q, r + 1, k);
    } else {
      assert n + 1 == (q + 1) * k + 0;
      DivisionUnique(n + 1, q + 1, 0, k);
    }
  }

  /** Quotient and remainder are the only ones with a remainder in range. */
  lemma DivisionUnique(n: int, q: int, r: int, k: int)
    requires k != 0 && 0 <= r < Abs(k) && n == q * k + r
    ensures n / k == q && n % k == r
  {
    var p, s := n / k, n % k;
    assert n == p * k + s && 0 <= s < Abs(k);
    var d := q - p;
    assert d * k == q * k - p * k;
    assert d * k == s - r;
    if d != 0 {
      ProductAtLeast(d, k);
    }
  }

  function Abs(x: int): nat {
    if x < 0 then -x else x
  }

  /** A nonzero multiple of `k` is at least `k` away from zero. */
  lemma ProductAtLeast(d: int, k: int)
    requires d != 0 && k != 0
    ensures Abs(d * k) >= Abs(k)
  {
    var e := Abs(d);
    PositiveProduct(e, Abs(k));
    if d < 0 {
      assert d * k == -(e * k);
    } else {
      assert d * k == e * k;
    }
    if k < 0 {
      assert e * k == -(e * Abs(k));
    }
  }

  lemma {:induction false} PositiveProduct(e: nat, m: nat)
    requires e >= 1
    ensures e * m >= m
  {
    if e > 1 {
      PositiveProduct(e - 1, m);
      assert e * m == (e - 1) * m + m;
    }
  }

  class FrameProcessor {
    const maxDimension: int
    var frameCount: nat
    var skipCount: nat

    ghost predicate Valid()
      reads this
    {
      skipCount <= frameCount
    }

    ghost function Counts(): Counters
      reads this
    {
      Counters(frameCount, skipCount)
    }

    constructor(maxDimension: int)
      ensures Valid() && Counts() == Counters(0, 0) && this.maxDimension == maxDimension
    {
      this.maxDimension := maxDimension;
      frameCount := 0;
      skipCount := 0;
    }

    /** Python raises on an interval of 0, so callers must not pass it. */
    method ShouldProcessFrame(interval: int) returns (process: bool)
      requires interval != 0
      requires Valid()
      modifies this
      ensures Valid()
      ensures (Counts(), process) == Step(old(Counts()), interval)
    {
      frameCount := frameCount + 1;
      if frameCount % interval == 0 {
        return true;
      }
      skipCount := skipCount + 1;
      return false;
    }

    method GetStats() returns (r: FrameStats)
      ensures r == Stats(Counts())
    {
      r := FrameStats(frameCount, frameCount - skipCount, skipCount);
    }

    method ResetStats()
      modifies this
      ensures Valid() && Counts() == Counters(0, 0)
    {
      frameCount := 0;
      skipCount := 0;
    }
  }

  /** `FrameProcessor()` with the default longest side of 1280 pixels. */
  method NewFrameProcessor() returns (p: FrameProcessor)
    ensures fresh(p) && p.Valid() && p.Counts() == Counters(0, 0)
    ensures p.maxDimension == DefaultMaxDimension
  {
    p := new FrameProcessor(DefaultMaxDimension);
  }

  // ---------------------------------------------------------------- parameter tiers

  datatype DetectionParams = DetectionParams(conf: real, iou: real, maxDet: int, half: bool)

  const SmallImagePixels: int := 640 * 480
  const LargeImagePixels: int := 1920 * 1080

  /** Parameters by pixel count: small images get a higher threshold and fewer boxes. */
  function OptimizeDetectionParams(w: int, h: int, device: string): DetectionParams {
    var pixels := w * h;
    var base := DetectionParams(0.25, 0.45, 300, false);
    var sized :=
      if pixels < SmallImagePixels then base.(conf := 0.3, maxDet := 100)
      else if pixels > LargeImagePixels then base.(conf := 0.2, maxDet := 500)
      else base;
    if device == "cuda" then sized.(half := true) else sized
  }

  /** The three tiers, the fixed overlap threshold and the half-precision switch. */
  lemma ParamsTiers(w: int, h: int, device: string)
    ensures var p := OptimizeDetectionParams(w, h, device);
      && p.iou == 0.45
      && (p.half <==> device == "cuda")
      && (w * h < 640 * 480 ==> p.conf == 0.3 && p.maxDet == 100)
      && (640 * 480 <= w * h <= 1920 * 1080 ==> p.conf == 0.25 && p.maxDet == 300)
      && (w * h > 1920 * 1080 ==> p.conf == 0.2 && p.maxDet == 500)
  {
  }

  /** More pixels never raise the confidence threshold and never lower the box limit. */
  lemma ParamsMonotone(w1: int, h1: int, w2: int, h2: int, device: string)
    requires w1 * h1 <= w2 * h2
    ensures OptimizeDetectionParams(w2, h2, device).conf <= OptimizeDetectionParams(w1, h1, device).conf
    ensures OptimizeDetectionParams(w1, h1, device).maxDet <= OptimizeDetectionParams(w2, h2, device).maxDet
  {
  }
}
