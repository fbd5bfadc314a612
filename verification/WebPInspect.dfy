/** The WebP header inspector, and its agreement with the metadata stripper. */
module WebPInspect {
  import opened Basics
  import opened ImageHeaders
  import opened WebPContainer

  /** What one pass over the chunks has learnt so far. */
  datatype Scan = Scan(width: nat, height: nat, maxWidth: nat, maxHeight: nat, animated: bool, frames: seq<Frame>)

  const START := Scan(0, 0, 0, 0, false, [])

  ghost predicate Bounded(scan: Scan) {
    && scan.width <= 0x100_0000 && scan.height <= 0x100_0000
    && scan.maxWidth <= 0x100_0000 && scan.maxHeight <= 0x100_0000
  }

  /** Width and height of a lossy bitstream, (0, 0) when its start code is missing. */
  function InspectVP8(payload: seq<byte>): (r: (nat, nat))
    ensures r.0 < 0x4000 && r.1 < 0x4000
  {
    if |payload| < 10 || payload[3] != 0x9d || payload[4] != 0x01 || payload[5] != 0x2a then (0, 0)
    else (LE16(payload[6..8]) % 0x4000, LE16(payload[8..10]) % 0x4000)
  }

  /** Width and height of a lossless bitstream, (0, 0) when its signature is missing. */
  function InspectVP8L(payload: seq<byte>): (r: (nat, nat))
    ensures r.0 <= 0x4000 && r.1 <= 0x4000
  {
    if |payload| < 5 || payload[0] != 0x2f then (0, 0)
    else
      var bits := LE32(payload[1..5]);
      (1 + bits % 0x4000, 1 + bits / 0x4000 % 0x4000)
  }

  function AnimationFrame(payload: seq<byte>): (f: Frame)
    requires |payload| >= 16
  {
    Frame(1 + LE24(payload, 6), 1 + LE24(payload, 9), LE24(payload, 12))
  }

  /** One chunk of the pass; None is the malformed-image error. */
  function Step(scan: Scan, c: Chunk): (r: Option<Scan>)
    ensures Bounded(scan) && r.Some? ==> Bounded(r.value)
  {
    if c.kind == VP8X then
      if |c.payload| < 10 then None
      else
        var w, h := 1 + LE24(c.payload, 4), 1 + LE24(c.payload, 7);
        Some(Scan(w, h, w, h, c.payload[0] / 2 % 2 != 0, scan.frames))
    else if c.kind == VP8_ || c.kind == VP8L then
      if scan.width == 0 || scan.height == 0 then
        var (w, h) := if c.kind == VP8_ then InspectVP8(c.payload) else InspectVP8L(c.payload);
        Some(Scan(w, h, w, h, scan.animated, scan.frames))
      else Some(scan)
    else if c.kind == ANMF then
      if |c.payload| < 16 then None
      else
        var f := AnimationFrame(c.payload);
        Some(scan.(maxWidth := Max(f.width, scan.maxWidth), maxHeight := Max(f.height, scan.maxHeight),
                   frames := scan.frames + [f]))
    else Some(scan)
  }

  function Run(scan: Scan, chunks: seq<Chunk>): (r: Option<Scan>)
    decreases |chunks|
  {
    if chunks == [] then Some(scan)
    else
      match Step(scan, chunks[0])
      case None => None
      case Some(next) => Run(next, chunks[1..])
  }

  function Finish(scan: Scan): (r: Option<ImageHeader>)
    ensures r.Some? ==>
      var frames := if scan.animated then scan.frames else [Frame(scan.width, scan.height, 0)];
      frames != [] && Summarises(r.value, frames)
  {
    if scan.width == 0 || scan.height == 0 || (scan.animated <==> scan.frames == []) then None
    else
      var frames := if scan.animated then scan.frames else [Frame(scan.width, scan.height, 0)];
      var maxWidth := if scan.animated then scan.maxWidth else scan.width;
      var maxHeight := if scan.animated then scan.maxHeight else scan.height;
      Some(ImageHeader(WebP, scan.width, scan.height, maxWidth, maxHeight, |frames|,
                       Min(DelaySum(frames), MAX_INT64), Min(AreaSum(frames), MAX_UINT64), None))
  }

  /** The reference inspector: parse the RIFF range, fold the chunks, summarise. */
  function Inspected(input: seq<byte>): (r: Option<ImageHeader>) {
    if |input| < 20 || LE32(input[4..8]) < 4 || 8 + LE32(input[4..8]) > |input| then None
    else
      match ChunkList(input, 12, 8 + LE32(input[4..8]))
      case None => None
      case Some(chunks) =>
        match Run(START, chunks)
        case None => None
        case Some(scan) => Finish(scan)
  }

  /** The frames announced by the animation chunks, in order. */
  function AnimationFrames(chunks: seq<Chunk>): (f: seq<Frame>) {
    if chunks == [] then []
    else
      (if chunks[0].kind == ANMF && |chunks[0].payload| >= 16 then [AnimationFrame(chunks[0].payload)] else [])
        + AnimationFrames(chunks[1..])
  }

  lemma {:induction false} RunCollectsFrames(scan: Scan, chunks: seq<Chunk>)
    ensures Run(scan, chunks).Some? ==>
      && Run(scan, chunks).value.frames == scan.frames + AnimationFrames(chunks)
      && (Bounded(scan) ==> Bounded(Run(scan, chunks).value))
    decreases |chunks|
  {
    if chunks != [] {
      var next := Step(scan, chunks[0]);
      if next.Some? {
        RunCollectsFrames(next.value, chunks[1..]);
      }
    }
  }

  /** End to end: an animated WebP that passes inspection and the budget check is within
      the limits in unbounded arithmetic, summed over exactly its animation chunks. */
  lemma AcceptedAnimationIsWithinBudget(input: seq<byte>, limits: Limits) returns (chunks: seq<Chunk>)
    requires Normalized(limits)
    requires |input| <= MAX_INT64 && Inspected(input).Some?
    ensures ChunkList(input, 12, 8 + LE32(input[4..8])) == Some(chunks)
    ensures Representable(Inspected(input).value)
    ensures AnimationFrames(chunks) != [] && ValidateHeader(Inspected(input).value, limits) == Accepted ==>
      var h, frames := Inspected(input).value, AnimationFrames(chunks);
      && h.frameCount == |frames| <= limits.maxFrames
      && h.width * h.height * |frames| <= limits.maxInputPixels
      && AreaSum(frames) <= limits.maxInputPixels && DurationWithin(frames, limits)
  {
    var end := 8 + LE32(input[4..8]);
    chunks := ChunkList(input, 12, end).value;
    FewFrames(input, 12, end);
    RunCollectsFrames(START, chunks);
    var last := Run(START, chunks).value;
    assert last.frames == AnimationFrames(chunks);
    FinishedWithinBudget(last, limits);
  }

  lemma FinishedWithinBudget(scan: Scan, limits: Limits)
    requires Normalized(limits)
    requires Bounded(scan) && |scan.frames| <= MAX_INT64 && Finish(scan).Some?
    ensures Representable(Finish(scan).value)
    ensures scan.frames != [] && ValidateHeader(Finish(scan).value, limits) == Accepted ==>
      var h := Finish(scan).value;
      && h.frameCount == |scan.frames| <= limits.maxFrames
      && h.width * h.height * |scan.frames| <= limits.maxInputPixels
      && AreaSum(scan.frames) <= limits.maxInputPixels && DurationWithin(scan.frames, limits)
  {
    if scan.frames != [] {
      AcceptedMeansExactlyWithinBudget(Finish(scan).value, scan.frames, limits);
    }
  }

  lemma {:induction false} FewFrames(input: seq<byte>, offset: nat, end: nat)
    requires offset <= end <= |input|
    ensures ChunkList(input, offset, end).Some? ==>
      |AnimationFrames(ChunkList(input, offset, end).value)| <= end - offset
    decreases end - offset
  {
    var r := ChunkList(input, offset, end);
    if r.Some? && offset < end {
      var size := LE32(input[offset + 4..offset + 8]);
      var next := offset + 8 + size + size % 2;
      FewFrames(input, next, end);
      assert r.value[1..] == ChunkList(input, next, end).value;
    }
  }

  // ----- stripping metadata does not change the report -----

  lemma MaskingIsInvisible(scan: Scan, c: Chunk)
    requires AcceptableVP8X(c)
    ensures Step(scan, MaskChunk(c)) == Step(scan, c)
    ensures !IsStructural(c.kind) ==> Step(scan, c) == Some(scan)
  {
    if c.kind == VP8X {
      var m := MaskChunk(c).payload;
      assert forall k :: 1 <= k < 10 ==> m[k] == m[1..][k - 1] == c.payload[1..][k - 1] == c.payload[k];
    }
  }

  lemma {:induction false} RunIgnoresDroppedChunks(scan: Scan, chunks: seq<Chunk>)
    requires Acceptable(chunks)
    ensures Run(scan, Kept(chunks)) == Run(scan, chunks)
    decreases |chunks|
  {
    if chunks != [] {
      var c := chunks[0];
      MaskingIsInvisible(scan, c);
      if IsStructural(c.kind) {
        assert Kept(chunks)[1..] == Kept(chunks[1..]);
      }
      if Step(scan, c).Some? {
        RunIgnoresDroppedChunks(Step(scan, c).value, chunks[1..]);
      }
    }
  }

  lemma StrictFilesAreScannedWhole(input: seq<byte>)
    requires Parsed(input).Some?
    ensures Inspected(input) == Resumed(START, Parsed(input))
  {
    ParsedIsPrintable(input);
    assert |Parsed(input).value| >= 1;
  }

  /** Whenever stripping succeeds, the inspector reports the same header, or the same
      failure, on the input and on the stripped file. */
  lemma StrippingNeverChangesTheReport(input: seq<byte>)
    requires Stripped(input).Some?
    ensures Inspected(Stripped(input).value) == Inspected(input)
  {
    var output, chunks := Stripped(input).value, Parsed(input).value;
    StrippedReparses(input);
    StrictFilesAreScannedWhole(input);
    StrictFilesAreScannedWhole(output);
    RunIgnoresDroppedChunks(START, chunks);
  }

  // ----- the loop -----

  lemma AppendedSums(frames: seq<Frame>, f: Frame)
    ensures AreaSum(frames + [f]) == AreaSum(frames) + f.width * f.height
    ensures DelaySum(frames + [f]) == DelaySum(frames) + f.delayMS
  {
    assert (frames + [f])[..|frames|] == frames;
  }

  /** The accumulators of inspectWebP. */
  datatype Totals = Totals(
    width: nat, height: nat, maxFrameWidth: nat, maxFrameHeight: nat, animated: bool,
    frames: nat, duration: nat, totalFramePixels: nat)

  /** They stand for this scan. */
  ghost predicate Stands(t: Totals, scan: Scan) {
    && Bounded(scan)
    && scan == Scan(t.width, t.height, t.maxFrameWidth, t.maxFrameHeight, t.animated, scan.frames)
    && t.frames == |scan.frames|
    && t.totalFramePixels == Min(AreaSum(scan.frames), MAX_UINT64)
    && t.duration == Min(DelaySum(scan.frames), MAX_INT64)
  }

  function Canvas(t: Totals, width: nat, height: nat): (r: Totals) {
    t.(width := width, height := height, maxFrameWidth := width, maxFrameHeight := height)
  }

  /** The switch of inspectWebP on one chunk: the updated accumulators, or failure. */
  method Visit(chunkType: seq<byte>, payload: seq<byte>, before: Totals, ghost scan: Scan) returns (r: Option<Totals>)
    requires Stands(before, scan)
    ensures r.Some? <==> Step(scan, Chunk(chunkType, payload)).Some?
    ensures r.Some? ==> Stands(r.value, Step(scan, Chunk(chunkType, payload)).value)
  {
    hide InspectVP8, InspectVP8L, AreaSum, DelaySum, AddArea, AddDelay;
    var totals := before;
    if chunkType == VP8X {
      if |payload| < 10 {
        return None;
      }
      totals := Canvas(totals.(animated := payload[0] / 2 % 2 != 0), 1 + LE24(payload, 4), 1 + LE24(payload, 7));
    } else if chunkType == VP8_ {
      if totals.width == 0 || totals.height == 0 {
        var size := InspectVP8(payload);
        totals := Canvas(totals, size.0, size.1);
      }
    } else if chunkType == VP8L {
      if totals.width == 0 || totals.height == 0 {
        var size := InspectVP8L(payload);
        totals := Canvas(totals, size.0, size.1);
      }
    } else if chunkType == ANMF {
      if |payload| < 16 {
        return None;
      }
      var frame := AnimationFrame(payload);
      totals := totals.(frames := totals.frames + 1);
      if frame.width > totals.maxFrameWidth {
        totals := totals.(maxFrameWidth := frame.width);
      }
      if frame.height > totals.maxFrameHeight {
        totals := totals.(maxFrameHeight := frame.height);
      }
      totals := totals.(
        totalFramePixels := AddArea(totals.totalFramePixels, frame.width, frame.height),
        duration := AddDelay(totals.duration, frame.delayMS));
      AppendedSums(scan.frames, frame);
    }
    return Some(totals);
  }

  /** One unfolding of the grammar at a chunk whose declared payload fits. */
  lemma ChunkListHead(input: seq<byte>, offset: nat, end: nat, size: nat, next: nat, rest: Option<seq<Chunk>>)
    requires offset + 8 <= end <= |input|
    requires size == LE32(input[offset + 4..offset + 8]) <= end - offset - 8
    requires next == offset + 8 + size + size % 2
    requires rest == if next > end then None else ChunkList(input, next, end)
    ensures ChunkList(input, offset, end) ==
      Prepend([Chunk(input[offset..offset + 4], input[offset + 8..offset + 8 + size])], rest)
  {
  }

  /** The report due is unchanged by moving past one chunk. */
  lemma InspectStep(input: seq<byte>, offset: nat, end: nat, c: Chunk, next: nat, scan: Scan, after: Option<Scan>,
                    all: Option<seq<Chunk>>, goal: Option<ImageHeader>)
    returns (left: Option<seq<Chunk>>)
    requires offset + 8 <= end <= |input| && offset + 8 + |c.payload| <= end
    requires c == Chunk(input[offset..offset + 4], input[offset + 8..offset + 8 + |c.payload|])
    requires LE32(input[offset + 4..offset + 8]) == |c.payload|
    requires next == offset + 8 + |c.payload| + |c.payload| % 2
    requires after == Step(scan, c)
    requires all == ChunkList(input, offset, end) && Resumed(scan, all) == goal
    ensures after.None? ==> goal == None
    ensures next > end ==> goal == None
    ensures next <= end ==> left == ChunkList(input, next, end)
    ensures after.Some? ==> Resumed(after.value, left) == goal
  {
    left := if next > end then None else ChunkList(input, next, end);
    assert all == Prepend([c], left) by {
      ChunkListHead(input, offset, end, |c.payload|, next, left);
    }
    ResumedStep(scan, c, left, after);
  }

  /** inspectWebP. */
  method Inspect(input: seq<byte>) returns (r: Option<ImageHeader>)
    ensures r == Inspected(input)
  {
    if |input| < 20 || LE32(input[4..8]) < 4 {
      return None;
    }
    var riffEnd := 8 + LE32(input[4..8]);
    if riffEnd > |input| {
      return None;
    }
    var end := riffEnd;
    var offset := 12;
    var totals := Totals(0, 0, 0, 0, false, 0, 0, 0);
    ghost var scan := START;
    ghost var goal := Inspected(input);
    ghost var left := ChunkList(input, 12, end);
    assert Resumed(START, left) == goal;
    while offset < end
      invariant 12 <= offset <= end
      invariant Stands(totals, scan)
      invariant left == ChunkList(input, offset, end)
      invariant Resumed(scan, left) == goal
    {
      if offset + 8 > end {
        return None;
      }
      var chunkType := input[offset..offset + 4];
      var chunkSize := LE32(input[offset + 4..offset + 8]);
      ghost var start := offset;
      offset := offset + 8;
      if chunkSize > end - offset {
        return None;
      }
      var payload := input[offset..offset + chunkSize];
      ghost var next := offset + chunkSize + chunkSize % 2;
      ghost var c := Chunk(chunkType, payload);
      ghost var after := Step(scan, c);
      assert payload == input[start + 8..start + 8 + chunkSize];
      left := InspectStep(input, start, end, c, next, scan, after, left, goal);
      var visited := Visit(chunkType, payload, totals, scan);
      if visited == None {
        return None;
      }
      totals := visited.value;
      scan := after.value;
      offset := offset + chunkSize;
      if chunkSize % 2 != 0 {
        if offset >= end {
          return None;
        }
        offset := offset + 1;
      }
      assert offset == next;
    }
    assert offset == end;  // the source's check after the loop cannot fail
    assert ChunkList(input, offset, end) == Some([]);
    ResumedAtEnd(scan);
    assert goal == Finish(scan);
    if totals.width == 0 || totals.height == 0 {
      return None;
    }
    if totals.animated {
      if totals.frames == 0 {
        return None;
      }
    } else if totals.frames > 0 {
      return None;
    } else {
      var pixels := CheckedMul(totals.width, totals.height);
      totals := Canvas(totals, totals.width, totals.height).(
        frames := 1, duration := 0, totalFramePixels := if pixels.Some? then pixels.value else 0);
      StaticProduct(totals.width, totals.height);
    }
    return Some(ImageHeader(WebP, totals.width, totals.height, totals.maxFrameWidth, totals.maxFrameHeight,
                            totals.frames, totals.duration, totals.totalFramePixels, None));
  }

  /** The report still to come when the pass stands at `scan` with these chunks left. */
  function Resumed(scan: Scan, left: Option<seq<Chunk>>): (r: Option<ImageHeader>) {
    match left
    case None => None
    case Some(chunks) =>
      match Run(scan, chunks)
      case None => None
      case Some(last) => Finish(last)
  }

  lemma ResumedAtEnd(scan: Scan)
    ensures Resumed(scan, Some([])) == Finish(scan)
  {
  }

  lemma ResumedStep(scan: Scan, c: Chunk, rest: Option<seq<Chunk>>, after: Option<Scan>)
    requires after == Step(scan, c)
    ensures after.None? ==> Resumed(scan, Prepend([c], rest)) == None
    ensures after.Some? ==> Resumed(scan, Prepend([c], rest)) == Resumed(after.value, rest)
  {
    if rest.Some? {
      assert ([c] + rest.value)[1..] == rest.value;
    }
  }

  lemma ProductBound(a: nat, b: nat, limit: nat)
    requires a <= limit && b <= limit
    ensures a * b <= limit * limit
  {
    assert a * b <= limit * b;
    assert limit * b <= limit * limit;
  }

  lemma StaticProduct(width: nat, height: nat)
    requires width <= 0x100_0000 && height <= 0x100_0000
    ensures width * height <= MAX_UINT64
    ensures AreaSum([Frame(width, height, 0)]) == width * height
    ensures DelaySum([Frame(width, height, 0)]) == 0
  {
    ProductBound(width, height, 0x100_0000);
    var f := Frame(width, height, 0);
    assert [] + [f] == [f];
    AppendedSums([], f);
  }
}
