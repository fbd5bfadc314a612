/** The header every format inspector reports, and the budget check on it. */
module ImageHeaders {
  import opened Basics

  datatype Format = BMP | GIF | WebP

  datatype BmpHeader = BmpHeader(
    width: nat, height: nat, topDown: bool, pixelOffset: nat, rowStride: nat, bytesPerPixel: nat)

  datatype ImageHeader = ImageHeader(
    format: Format, width: nat, height: nat, frameWidth: nat, frameHeight: nat,
    frameCount: nat, durationMS: int, totalFramePixels: nat, bmp: Option<BmpHeader>)

  /** One animation frame, whichever container it came from. */
  datatype Frame = Frame(width: nat, height: nat, delayMS: nat)

  function AreaSum(frames: seq<Frame>): (n: nat) {
    if frames == [] then 0
    else
      var last := frames[|frames| - 1];
      AreaSum(frames[..|frames| - 1]) + last.width * last.height
  }

  function DelaySum(frames: seq<Frame>): (n: nat) {
    if frames == [] then 0
    else DelaySum(frames[..|frames| - 1]) + frames[|frames| - 1].delayMS
  }

  /** Go's product of two uint64 values: None when it does not fit. */
  function CheckedMul(left: nat, right: nat): (r: Option<nat>)
    requires left <= MAX_UINT64 && right <= MAX_UINT64
    ensures r == if left * right <= MAX_UINT64 then Some(left * right) else None
  {
    if left != 0 && right > MAX_UINT64 / left then
      assert left * right > MAX_UINT64 by { DivisionGuard(left, right); }
      None
    else
      assert left * right <= MAX_UINT64 by { DivisionGuard(left, right); }
      Some(left * right)
  }

  lemma DivisionGuard(left: nat, right: nat)
    ensures left != 0 ==> (right > MAX_UINT64 / left <==> left * right > MAX_UINT64)
    ensures left == 0 ==> left * right == 0
  {
    if left != 0 {
      var q := MAX_UINT64 / left;
      assert MAX_UINT64 == left * q + MAX_UINT64 % left;
      if right > q {
        assert left * right >= left * (q + 1) == left * q + left;
      } else {
        assert left * right <= left * q;
      }
    }
  }

  /** One accumulation step of a frame's area: a sum that sticks at the uint64 maximum. */
  function AddArea(total: nat, width: nat, height: nat): (r: nat)
    requires total <= MAX_UINT64 && width <= MAX_UINT64 && height <= MAX_UINT64
    ensures forall exact: nat :: total == Min(exact, MAX_UINT64) ==> r == Min(exact + width * height, MAX_UINT64)
  {
    match CheckedMul(width, height)
    case None => MAX_UINT64
    case Some(area) => if total > MAX_UINT64 - area then MAX_UINT64 else total + area
  }

  /** One accumulation step of a frame's delay: a sum that sticks at the int64 maximum. */
  function AddDelay(total: nat, delay: nat): (r: nat)
    requires total <= MAX_INT64 && delay <= MAX_INT64
    ensures forall exact: nat :: total == Min(exact, MAX_INT64) ==> r == Min(exact + delay, MAX_INT64)
  {
    if total > MAX_INT64 - delay then MAX_INT64 else total + delay
  }

  datatype Limits = Limits(maxInputPixels: int, maxInputEdge: int, maxFrames: int, maxDurationMS: int)

  /** What the option normalisation leaves behind: positive int64 limits. */
  predicate Normalized(limits: Limits) {
    && 1 <= limits.maxInputPixels <= MAX_INT64
    && 1 <= limits.maxInputEdge <= MAX_INT64
    && 1 <= limits.maxFrames <= MAX_INT64
    && 0 <= limits.maxDurationMS <= MAX_INT64
  }

  /** The header values fit the Go fields that hold them. */
  predicate Representable(h: ImageHeader) {
    && h.width <= MAX_UINT64 && h.height <= MAX_UINT64
    && h.frameWidth <= MAX_UINT64 && h.frameHeight <= MAX_UINT64
    && h.frameCount <= MAX_INT64 && h.totalFramePixels <= MAX_UINT64
  }

  datatype Verdict = Accepted | DecodeFailed | DimensionsExceeded | AnimationTooComplex

  function ValidateHeader(h: ImageHeader, limits: Limits): (v: Verdict)
    requires Representable(h) && Normalized(limits)
  {
    if h.width == 0 || h.height == 0 || h.frameCount < 1 || h.durationMS < 0 then DecodeFailed
    else if h.width > limits.maxInputEdge || h.height > limits.maxInputEdge then DimensionsExceeded
    else
      var frameWidth := if h.frameWidth == 0 then h.width else h.frameWidth;
      var frameHeight := if h.frameHeight == 0 then h.height else h.frameHeight;
      if frameWidth > limits.maxInputEdge || frameHeight > limits.maxInputEdge then DimensionsExceeded
      else
        match CheckedMul(h.width, h.height)
        case None => DimensionsExceeded
        case Some(pixels) =>
          if pixels > limits.maxInputPixels then DimensionsExceeded
          else
            match CheckedMul(pixels, h.frameCount)
            case None => DimensionsExceeded
            case Some(totalPixels) =>
              if totalPixels > limits.maxInputPixels then DimensionsExceeded
              else if h.totalFramePixels > limits.maxInputPixels then DimensionsExceeded
              else if h.frameCount > limits.maxFrames || h.durationMS > limits.maxDurationMS then AnimationTooComplex
              else Accepted
  }

  /** A header whose sums are the saturated sums of these frames. */
  predicate Summarises(h: ImageHeader, frames: seq<Frame>) {
    && h.frameCount == |frames|
    && h.totalFramePixels == Min(AreaSum(frames), MAX_UINT64)
    && h.durationMS == Min(DelaySum(frames), MAX_INT64)
  }

  /** The exact duration is within the limit; at the largest int64 the limit is no limit,
      since a saturated sum passes it. */
  predicate DurationWithin(frames: seq<Frame>, limits: Limits) {
    limits.maxDurationMS == MAX_INT64 || DelaySum(frames) <= limits.maxDurationMS
  }

  lemma ProductAtLeast(a: nat, b: nat)
    requires b >= 1
    ensures a * b >= a
  {
    assert a * b == a * (b - 1) + a;
  }

  /** Saturation hides nothing from the budget: an accepted animation is within
      the limits in unbounded arithmetic, and the converse holds too. */
  lemma AcceptedMeansExactlyWithinBudget(h: ImageHeader, frames: seq<Frame>, limits: Limits)
    requires Representable(h) && Normalized(limits) && Summarises(h, frames)
    ensures ValidateHeader(h, limits) == Accepted <==>
      && h.width > 0 && h.height > 0 && frames != []
      && Max(h.width, Max(h.height, Max(h.frameWidth, h.frameHeight))) <= limits.maxInputEdge
      && h.width * h.height * |frames| <= limits.maxInputPixels
      && AreaSum(frames) <= limits.maxInputPixels
      && |frames| <= limits.maxFrames
      && DurationWithin(frames, limits)
  {
    if frames != [] {
      ProductAtLeast(h.width * h.height, |frames|);
    }
  }

  /** Why a header is rejected: first the missing sizes, then the edges and areas, then the
      number of frames and the duration. */
  lemma RejectionIsExact(h: ImageHeader, frames: seq<Frame>, limits: Limits)
    requires Representable(h) && Normalized(limits) && Summarises(h, frames)
    ensures
      var v := ValidateHeader(h, limits);
      var empty := h.width == 0 || h.height == 0 || frames == [];
      var large :=
        || Max(h.width, Max(h.height, Max(h.frameWidth, h.frameHeight))) > limits.maxInputEdge
        || h.width * h.height * |frames| > limits.maxInputPixels || AreaSum(frames) > limits.maxInputPixels;
      && (v == DecodeFailed <==> empty)
      && (v == DimensionsExceeded <==> !empty && large)
      && (v == AnimationTooComplex <==>
            !empty && !large && (|frames| > limits.maxFrames || !DurationWithin(frames, limits)))
  {
    if frames != [] {
      ProductAtLeast(h.width * h.height, |frames|);
    }
  }

  lemma {:induction false} SumsOfEqualFrames(frames: seq<Frame>, f: Frame)
    requires forall i :: 0 <= i < |frames| ==> frames[i] == f
    ensures AreaSum(frames) == |frames| * (f.width * f.height) && DelaySum(frames) == |frames| * f.delayMS
  {
    if frames != [] {
      var n := |frames| - 1;
      SumsOfEqualFrames(frames[..n], f);
      assert |frames| * (f.width * f.height) == n * (f.width * f.height) + f.width * f.height;
      assert |frames| * f.delayMS == n * f.delayMS + f.delayMS;
    }
  }

  /** A duration limit of the largest int64 is no limit: enough one-pixel frames with the
      longest delay a GIF frame can have are accepted beyond it. */
  lemma LargestDurationLimitIsNone() returns (h: ImageHeader, frames: seq<Frame>, limits: Limits)
    ensures Representable(h) && Normalized(limits) && Summarises(h, frames)
    ensures forall i :: 0 <= i < |frames| ==> frames[i] == Frame(1, 1, 655350)
    ensures ValidateHeader(h, limits) == Accepted && DelaySum(frames) > limits.maxDurationMS
  {
    var n := MAX_INT64 / 655350 + 1;
    frames := seq(n, i => Frame(1, 1, 655350));
    SumsOfEqualFrames(frames, Frame(1, 1, 655350));
    assert DelaySum(frames) == n * 655350 > MAX_INT64 && AreaSum(frames) == n * (1 * 1);
    limits := Limits(MAX_INT64, MAX_INT64, MAX_INT64, MAX_INT64);
    h := ImageHeader(GIF, 1, 1, 1, 1, n, MAX_INT64, n, None);
    AcceptedMeansExactlyWithinBudget(h, frames, limits);
  }
}
