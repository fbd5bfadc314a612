/** Print a WebP file, then inspect it: the inspector reports exactly what was written. */
module WebPFiles {
  import opened Basics
  import opened ImageHeaders
  import opened WebPContainer
  import opened WebPInspect

  function Kind(a: byte, b: byte, c: byte, d: byte): (kind: seq<byte>)
    ensures |kind| == 4
  {
    [a, b, c, d]
  }

  // 'V' 'P' '8' and then ' ', 'L' or 'X'; 'A' 'N' 'M' 'F'.
  const LOSSY := Kind(0x56, 0x50, 0x38, 0x20)
  const LOSSLESS := Kind(0x56, 0x50, 0x38, 0x4C)
  const EXTENDED := Kind(0x56, 0x50, 0x38, 0x58)
  const FRAME := Kind(0x41, 0x4E, 0x4D, 0x46)

  function Three(n: nat): (s: seq<byte>)
    ensures |s| == 3
  {
    [Byte0(n), Byte1(n), Byte2(n)]
  }

  /** A lossy bitstream: a frame tag, the start code, and two 14-bit sizes under 2-bit scales. */
  function LossyPayload(tag: seq<byte>, width: nat, xScale: nat, height: nat, yScale: nat,
          rest: seq<byte>): (s: seq<byte>)
    requires |tag| == 3 && width < 0x4000 && height < 0x4000 && xScale < 4 && yScale < 4
    ensures |s| == 10 + |rest|
  {
    var x, y := width + 0x4000 * xScale, height + 0x4000 * yScale;
    tag + [0x9d, 0x01, 0x2a] + [Byte0(x), Byte1(x)] + [Byte0(y), Byte1(y)] + rest
  }

  /** A lossless bitstream: a signature, two sizes less one in 14 bits each, and four bits more. */
  function LosslessPayload(width: nat, height: nat, more: nat, rest: seq<byte>): (s: seq<byte>)
    requires 1 <= width <= 0x4000 && 1 <= height <= 0x4000 && more < 16
    ensures |s| == 5 + |rest|
  {
    [0x2f] + FourBytes(width - 1 + 0x4000 * (height - 1 + 0x4000 * more)) + rest
  }

  /** A canvas: the flags, three reserved bytes, and two sizes less one in 24 bits each. */
  function CanvasPayload(flags: byte, reserved: seq<byte>, width: nat, height: nat, rest: seq<byte>): (s: seq<byte>)
    requires |reserved| == 3 && 1 <= width <= 0x100_0000 && 1 <= height <= 0x100_0000
    ensures |s| == 10 + |rest|
  {
    [flags] + reserved + Three(width - 1) + Three(height - 1) + rest
  }

  /** A frame of an animation: its place, its size less one, its duration, and its data. */
  datatype AnimatedFrame = AnimatedFrame(place: seq<byte>, width: nat, height: nat, delayMS: nat, data: seq<byte>)

  predicate IsFrame(f: AnimatedFrame) {
    && |f.place| == 6 && 1 <= f.width <= 0x100_0000 && 1 <= f.height <= 0x100_0000
    && f.delayMS < 0x100_0000 && 1 <= |f.data| <= 0xFFFF_FF00
  }

  function FramePayload(f: AnimatedFrame): (s: seq<byte>)
    requires IsFrame(f)
    ensures |s| == 15 + |f.data|
  {
    f.place + Three(f.width - 1) + Three(f.height - 1) + Three(f.delayMS) + f.data
  }

  // ----- single payloads -----

  lemma Parts(a: seq<byte>, b: seq<byte>, c: seq<byte>, d: seq<byte>, e: seq<byte>)
    ensures var s := a + b + c + d + e;
      && s[..|a|] == a && s[|a|..|a| + |b|] == b && s[|a| + |b|..|a| + |b| + |c|] == c
      && s[|a| + |b| + |c|..|a| + |b| + |c| + |d|] == d
  {
  }

  lemma TwoIsRead(s: seq<byte>, at: nat, n: nat)
    requires at + 2 <= |s| && s[at..at + 2] == [Byte0(n), Byte1(n)] && n < 0x1_0000
    ensures LE16(s[at..at + 2]) == n
  {
    hide LE16, Byte0, Byte1;
    WordsAreLittleEndian(n);
  }

  lemma ScaledSize(size: nat, scale: nat)
    requires size < 0x4000 && scale < 4
    ensures size + 0x4000 * scale < 0x1_0000 && (size + 0x4000 * scale) % 0x4000 == size
  {
  }

  lemma LossyIsRead(tag: seq<byte>, width: nat, xScale: nat, height: nat, yScale: nat, rest: seq<byte>)
    requires |tag| == 3 && width < 0x4000 && height < 0x4000 && xScale < 4 && yScale < 4
    ensures InspectVP8(LossyPayload(tag, width, xScale, height, yScale, rest)) == (width, height)
  {
    hide LE16, Byte0, Byte1;
    var x, y := width + 0x4000 * xScale, height + 0x4000 * yScale;
    var s := LossyPayload(tag, width, xScale, height, yScale, rest);
    var code: seq<byte> := [0x9d, 0x01, 0x2a];
    Parts(tag, code, [Byte0(x), Byte1(x)], [Byte0(y), Byte1(y)], rest);
    assert s[3] == s[3..6][0] && s[4] == s[3..6][1] && s[5] == s[3..6][2];
    ScaledSize(width, xScale);
    ScaledSize(height, yScale);
    TwoIsRead(s, 6, x);
    TwoIsRead(s, 8, y);
  }

  /** The two sizes are recovered from the packed number. */
  lemma PackedSizes(w: nat, h: nat, more: nat)
    requires w < 0x4000 && h < 0x4000 && more < 16
    ensures var bits := w + 0x4000 * (h + 0x4000 * more);
      bits <= MAX_UINT32 && bits % 0x4000 == w && bits / 0x4000 % 0x4000 == h
  {
    var bits := w + 0x4000 * (h + 0x4000 * more);
    assert bits / 0x4000 == h + 0x4000 * more;
  }

  lemma FourIsRead(s: seq<byte>, at: nat, n: nat)
    requires at + 4 <= |s| && s[at..at + 4] == FourBytes(n) && n <= MAX_UINT32
    ensures LE32(s[at..at + 4]) == n
  {
    hide LE32;
    WordsAreLittleEndian(n);
  }

  lemma LosslessIsRead(width: nat, height: nat, more: nat, rest: seq<byte>)
    requires 1 <= width <= 0x4000 && 1 <= height <= 0x4000 && more < 16
    ensures InspectVP8L(LosslessPayload(width, height, more, rest)) == (width, height)
  {
    hide LE32, FourBytes;
    var bits := width - 1 + 0x4000 * (height - 1 + 0x4000 * more);
    var s := LosslessPayload(width, height, more, rest);
    Parts([0x2f], FourBytes(bits), rest, [], []);
    assert s == [0x2f] + FourBytes(bits) + rest + [] + [];
    assert s[0] == s[..1][0];
    FourIsRead(s, 1, bits);
    PackedSizes(width - 1, height - 1, more);
  }

  lemma ThreeIsRead(s: seq<byte>, at: nat, n: nat)
    requires at + 3 <= |s| && s[at..at + 3] == Three(n) && n < 0x100_0000
    ensures LE24(s, at) == n
  {
    hide LE24;
    LE24At(s, at);
    WordsAreLittleEndian(n);
  }

  lemma CanvasIsRead(flags: byte, reserved: seq<byte>, width: nat, height: nat, rest: seq<byte>)
    requires |reserved| == 3 && 1 <= width <= 0x100_0000 && 1 <= height <= 0x100_0000
    ensures var s := CanvasPayload(flags, reserved, width, height, rest);
      s[0] == flags && LE24(s, 4) == width - 1 && LE24(s, 7) == height - 1
  {
    hide LE24, Three;
    var s := CanvasPayload(flags, reserved, width, height, rest);
    Parts([flags], reserved, Three(width - 1), Three(height - 1), rest);
    assert s[0] == s[..1][0];
    ThreeIsRead(s, 4, width - 1);
    ThreeIsRead(s, 7, height - 1);
  }

  lemma FrameIsRead(f: AnimatedFrame)
    requires IsFrame(f)
    ensures AnimationFrame(FramePayload(f)) == Frame(f.width, f.height, f.delayMS)
  {
    hide LE24, Three;
    var s := FramePayload(f);
    Parts(f.place, Three(f.width - 1), Three(f.height - 1), Three(f.delayMS), f.data);
    ThreeIsRead(s, 6, f.width - 1);
    ThreeIsRead(s, 9, f.height - 1);
    ThreeIsRead(s, 12, f.delayMS);
  }

  // ----- whole files -----

  /** A printed container is scanned chunk by chunk. */
  lemma PrintedIsScanned(chunks: seq<Chunk>)
    requires Printable(chunks) && chunks != [] && 4 + |Print(chunks)| <= MAX_UINT32
    ensures Inspected(Container(chunks)) == match Run(START, chunks) case None => None case Some(scan) => Finish(scan)
  {
    hide Run, Finish;
    ParseUndoesPrint(chunks);
    StrictFilesAreScannedWhole(Container(chunks));
  }

  lemma OneChunkPrints(c: Chunk)
    requires |c.kind| == 4 && |c.payload| <= MAX_UINT32
    ensures Printable([c]) && |Print([c])| == 8 + |c.payload| + |c.payload| % 2
  {
    assert Print([c]) == PrintChunk(c) + Print([c][1..]);
  }

  /** The header of a still picture. */
  function Still(width: nat, height: nat): (h: ImageHeader) {
    ImageHeader(WebP, width, height, width, height, 1, 0, width * height, None)
  }

  lemma StillScan(scan: Scan, width: nat, height: nat)
    requires scan == Scan(width, height, width, height, false, []) && width <= 0x100_0000 && height <= 0x100_0000
    ensures Finish(scan) == if width == 0 || height == 0 then None else Some(Still(width, height))
  {
    hide AreaSum, DelaySum;
    StaticProduct(width, height);
  }

  /** A plain lossy file is reported at the size it was written with. */
  lemma LossyFileIsReported(tag: seq<byte>, width: nat, xScale: nat, height: nat, yScale: nat, rest: seq<byte>)
    requires |tag| == 3 && width < 0x4000 && height < 0x4000 && xScale < 4 && yScale < 4 && |rest| <= 0xFFFF_FF00
    ensures
      var chunks := [Chunk(LOSSY, LossyPayload(tag, width, xScale, height, yScale, rest))];
      && Printable(chunks) && 4 + |Print(chunks)| <= MAX_UINT32
      && Inspected(Container(chunks)) == if width == 0 || height == 0 then None else Some(Still(width, height))
  {
    hide InspectVP8, Finish, Inspected, Container, LossyPayload;
    var c := Chunk(LOSSY, LossyPayload(tag, width, xScale, height, yScale, rest));
    LossyIsRead(tag, width, xScale, height, yScale, rest);
    OneChunkPrints(c);
    PrintedIsScanned([c]);
    assert Run(START, [c]) == Step(START, c) by { OneChunkRuns(c); }
    StillScan(Scan(width, height, width, height, false, []), width, height);
  }

  lemma OneChunkRuns(c: Chunk)
    ensures Run(START, [c]) == Step(START, c)
  {
    hide Step;
    assert [c][1..] == [];
  }

  /** A plain lossless file is reported at the size it was written with. */
  lemma LosslessFileIsReported(width: nat, height: nat, more: nat, rest: seq<byte>)
    requires 1 <= width <= 0x4000 && 1 <= height <= 0x4000 && more < 16 && |rest| <= 0xFFFF_FF00
    ensures
      var chunks := [Chunk(LOSSLESS, LosslessPayload(width, height, more, rest))];
      && Printable(chunks) && 4 + |Print(chunks)| <= MAX_UINT32
      && Inspected(Container(chunks)) == Some(Still(width, height))
  {
    hide InspectVP8L, Finish, Inspected, Container, LosslessPayload;
    var c := Chunk(LOSSLESS, LosslessPayload(width, height, more, rest));
    LosslessIsRead(width, height, more, rest);
    OneChunkPrints(c);
    PrintedIsScanned([c]);
    assert Run(START, [c]) == Step(START, c) by { OneChunkRuns(c); }
    StillScan(Scan(width, height, width, height, false, []), width, height);
  }

  // ----- extended files -----

  /** What may follow a canvas: a frame, or any chunk that is neither canvas nor frame. */
  datatype Piece = FramePiece(frame: AnimatedFrame) | OtherPiece(chunk: Chunk)

  predicate IsPiece(p: Piece) {
    match p
    case FramePiece(f) => IsFrame(f)
    case OtherPiece(c) => |c.kind| == 4 && |c.payload| <= MAX_UINT32 && c.kind != EXTENDED && c.kind != FRAME
  }

  function PieceChunk(p: Piece): (c: Chunk)
    requires IsPiece(p)
    ensures |c.kind| == 4 && |c.payload| <= MAX_UINT32
  {
    match p
    case FramePiece(f) => Chunk(FRAME, FramePayload(f))
    case OtherPiece(c) => c
  }

  function PieceChunks(pieces: seq<Piece>): (r: seq<Chunk>)
    requires forall p :: p in pieces ==> IsPiece(p)
    ensures |r| == |pieces| && forall c :: c in r ==> |c.kind| == 4 && |c.payload| <= MAX_UINT32
  {
    if pieces == [] then [] else [PieceChunk(pieces[0])] + PieceChunks(pieces[1..])
  }

  function WrittenFrames(pieces: seq<Piece>): (r: seq<Frame>) {
    if pieces == [] then []
    else
      (if pieces[0].FramePiece?
       then [Frame(pieces[0].frame.width, pieces[0].frame.height, pieces[0].frame.delayMS)] else [])
        + WrittenFrames(pieces[1..])
  }

  /** The largest of a canvas size and the frame sizes. */
  function Widest(width: nat, frames: seq<Frame>): (r: nat)
    decreases |frames|
  {
    if frames == [] then width else Widest(Max(width, frames[0].width), frames[1..])
  }

  function Tallest(height: nat, frames: seq<Frame>): (r: nat)
    decreases |frames|
  {
    if frames == [] then height else Tallest(Max(height, frames[0].height), frames[1..])
  }

  /** The largest is one of them, and none is larger. */
  lemma {:induction false} WidestIsLargest(width: nat, frames: seq<Frame>)
    ensures Widest(width, frames) >= width && forall f :: f in frames ==> f.width <= Widest(width, frames)
    ensures Widest(width, frames) == width || exists f :: f in frames && f.width == Widest(width, frames)
    decreases |frames|
  {
    if frames != [] {
      WidestIsLargest(Max(width, frames[0].width), frames[1..]);
      assert forall f :: f in frames <==> f == frames[0] || f in frames[1..];
    }
  }

  lemma {:induction false} TallestIsLargest(height: nat, frames: seq<Frame>)
    ensures Tallest(height, frames) >= height && forall f :: f in frames ==> f.height <= Tallest(height, frames)
    ensures Tallest(height, frames) == height || exists f :: f in frames && f.height == Tallest(height, frames)
    decreases |frames|
  {
    if frames != [] {
      TallestIsLargest(Max(height, frames[0].height), frames[1..]);
      assert forall f :: f in frames <==> f == frames[0] || f in frames[1..];
    }
  }

  /** The pass after these frames. */
  function After(scan: Scan, frames: seq<Frame>): (r: Scan)
    ensures r == scan.(maxWidth := Widest(scan.maxWidth, frames), maxHeight := Tallest(scan.maxHeight, frames),
                       frames := scan.frames + frames)
  {
    scan.(maxWidth := Widest(scan.maxWidth, frames), maxHeight := Tallest(scan.maxHeight, frames),
          frames := scan.frames + frames)
  }

  lemma AfterOneMore(scan: Scan, f: Frame, more: seq<Frame>)
    ensures After(scan, []) == scan
    ensures After(After(scan, [f]), more) == After(scan, [f] + more)
  {
    assert scan.frames + [] == scan.frames;
    assert [f][1..] == [] && ([f] + more)[1..] == more && ([f] + more)[0] == f;
    assert Widest(scan.maxWidth, [f]) == Max(scan.maxWidth, f.width);
    assert Tallest(scan.maxHeight, [f]) == Max(scan.maxHeight, f.height);
    assert Widest(scan.maxWidth, [f] + more) == Widest(Max(scan.maxWidth, f.width), more);
    assert Tallest(scan.maxHeight, [f] + more) == Tallest(Max(scan.maxHeight, f.height), more);
    assert scan.frames + ([f] + more) == scan.frames + [f] + more;
  }

  lemma PieceSteps(scan: Scan, p: Piece)
    requires IsPiece(p) && scan.width > 0 && scan.height > 0
    ensures Step(scan, PieceChunk(p)) == Some(After(scan, WrittenFrames([p])))
  {
    hide AnimationFrame, InspectVP8, InspectVP8L, FramePayload;
    assert [p][1..] == [];
    if p.FramePiece? {
      FrameIsRead(p.frame);
      var f := Frame(p.frame.width, p.frame.height, p.frame.delayMS);
      assert WrittenFrames([p]) == [f];
      assert [f][1..] == [];
      assert Widest(scan.maxWidth, [f]) == Max(f.width, scan.maxWidth);
      assert Tallest(scan.maxHeight, [f]) == Max(f.height, scan.maxHeight);
    } else {
      assert scan.frames + [] == scan.frames;
    }
  }

  lemma {:induction false} PiecesRun(scan: Scan, pieces: seq<Piece>)
    requires (forall p :: p in pieces ==> IsPiece(p)) && scan.width > 0 && scan.height > 0
    ensures Run(scan, PieceChunks(pieces)) == Some(After(scan, WrittenFrames(pieces)))
    decreases |pieces|
  {
    hide Step, PieceChunk, IsPiece, After;
    AfterOneMore(scan, Frame(0, 0, 0), []);
    if pieces != [] {
      var p, more := pieces[0], WrittenFrames(pieces[1..]);
      PieceSteps(scan, p);
      assert [p][1..] == [];
      var next := After(scan, WrittenFrames([p]));
      PiecesRun(next, pieces[1..]);
      assert PieceChunks(pieces)[0] == PieceChunk(p);
      assert PieceChunks(pieces)[1..] == PieceChunks(pieces[1..]);
      assert WrittenFrames(pieces) == WrittenFrames([p]) + more;
      if p.FramePiece? {
        AfterOneMore(scan, Frame(p.frame.width, p.frame.height, p.frame.delayMS), more);
      } else {
        assert [] + more == more;
      }
    }
  }

  lemma PiecesPrintable(pieces: seq<Piece>, first: Chunk)
    requires (forall p :: p in pieces ==> IsPiece(p)) && |first.kind| == 4 && |first.payload| <= MAX_UINT32
    ensures Printable([first] + PieceChunks(pieces))
  {
  }

  /** The report due for a canvas and these frames. */
  function Report(flags: byte, width: nat, height: nat, frames: seq<Frame>): (r: Option<ImageHeader>) {
    if flags / 2 % 2 == 0 then (if frames == [] then Some(Still(width, height)) else None)
    else if frames == [] then None
    else
      Some(ImageHeader(
        WebP, width, height, Widest(width, frames), Tallest(height, frames), |frames|,
        Min(DelaySum(frames), MAX_INT64), Min(AreaSum(frames), MAX_UINT64), None))
  }

  function CanvasScan(flags: byte, width: nat, height: nat): (scan: Scan) {
    Scan(width, height, width, height, flags / 2 % 2 != 0, [])
  }

  lemma CanvasFinishes(flags: byte, width: nat, height: nat, frames: seq<Frame>)
    requires 1 <= width <= 0x100_0000 && 1 <= height <= 0x100_0000
    ensures Finish(After(CanvasScan(flags, width, height), frames)) == Report(flags, width, height, frames)
  {
    assert [] + frames == frames;
    hide AreaSum, DelaySum;
    if flags / 2 % 2 == 0 && frames == [] {
      StaticProduct(width, height);
    }
  }

  lemma CanvasSteps(flags: byte, reserved: seq<byte>, width: nat, height: nat)
    requires |reserved| == 3 && 1 <= width <= 0x100_0000 && 1 <= height <= 0x100_0000
    ensures Step(START, Chunk(EXTENDED, CanvasPayload(flags, reserved, width, height, []))) ==
      Some(CanvasScan(flags, width, height))
  {
    hide LE24, CanvasPayload;
    CanvasIsRead(flags, reserved, width, height, []);
  }

  /** An extended file: a canvas of any size, then frames of any size and duration and any
      other chunks. It is reported with the canvas, the largest frame sizes, the number of
      frames and the saturated sums, provided its animation flag says whether it has
      frames; otherwise it is rejected. */
  lemma ExtendedFileIsReported(flags: byte, reserved: seq<byte>, width: nat, height: nat, pieces: seq<Piece>)
    requires |reserved| == 3 && 1 <= width <= 0x100_0000 && 1 <= height <= 0x100_0000
    requires forall p :: p in pieces ==> IsPiece(p)
    ensures
      var chunks := [Chunk(EXTENDED, CanvasPayload(flags, reserved, width, height, []))] + PieceChunks(pieces);
      Printable(chunks) && (4 + |Print(chunks)| <= MAX_UINT32 ==>
        Inspected(Container(chunks)) == Report(flags, width, height, WrittenFrames(pieces)))
  {
    var c := Chunk(EXTENDED, CanvasPayload(flags, reserved, width, height, []));
    var chunks := [c] + PieceChunks(pieces);
    PiecesPrintable(pieces, c);
    hide Step, CanvasPayload, Inspected, Container, PieceChunks, Printable, Finish, Print, Report, After, WrittenFrames,
      CanvasScan;
    if 4 + |Print(chunks)| <= MAX_UINT32 {
      var canvas := CanvasScan(flags, width, height);
      PrintedIsScanned(chunks);
      CanvasSteps(flags, reserved, width, height);
      CanvasIsOpen(flags, width, height);
      PiecesRun(canvas, pieces);
      RunFromCanvas(c, canvas, PieceChunks(pieces));
      CanvasFinishes(flags, width, height, WrittenFrames(pieces));
    }
  }

  lemma CanvasIsOpen(flags: byte, width: nat, height: nat)
    ensures CanvasScan(flags, width, height).width == width && CanvasScan(flags, width, height).height == height
  {
  }

  lemma RunFromCanvas(c: Chunk, canvas: Scan, later: seq<Chunk>)
    requires Step(START, c) == Some(canvas)
    ensures Run(START, [c] + later) == Run(canvas, later)
  {
    hide Step;
    assert ([c] + later)[0] == c && ([c] + later)[1..] == later;
  }

  // ----- rejections -----

  lemma {:induction false} RunFails(scan: Scan, before: seq<Chunk>, c: Chunk, after: seq<Chunk>)
    requires forall s: Scan :: Step(s, c) == None
    ensures Run(scan, before + [c] + after) == None
    decreases |before|
  {
    hide Step;
    var all := before + [c] + after;
    if before == [] {
      assert all[0] == c;
    } else {
      assert all[0] == before[0] && all[1..] == before[1..] + [c] + after;
      if Step(scan, before[0]).Some? {
        RunFails(Step(scan, before[0]).value, before[1..], c, after);
      }
    }
  }

  /** A canvas of fewer than ten bytes, or a frame of fewer than sixteen, spoils any file. */
  lemma ShortChunksAreRejected(before: seq<Chunk>, c: Chunk, after: seq<Chunk>)
    requires (c.kind == EXTENDED && |c.payload| < 10) || (c.kind == FRAME && |c.payload| < 16)
    requires var chunks := before + [c] + after; Printable(chunks) && 4 + |Print(chunks)| <= MAX_UINT32
    ensures Inspected(Container(before + [c] + after)) == None
  {
    hide Run, Container, Print, Printable;
    PrintedIsScanned(before + [c] + after);
    RunFails(START, before, c, after);
  }

  /** A plain file whose bitstream is too short for its sizes, or does not carry the start
      code or the signature, is rejected. */
  lemma UnmarkedStillIsRejected(c: Chunk)
    requires |c.payload| <= 0xFFFF_FF00
    requires c.kind == LOSSY || c.kind == LOSSLESS
    requires c.kind == LOSSY ==> |c.payload| < 10 || c.payload[3..6] != [0x9d, 0x01, 0x2a]
    requires c.kind == LOSSLESS ==> |c.payload| < 5 || c.payload[0] != 0x2f
    ensures Printable([c]) && 4 + |Print([c])| <= MAX_UINT32 && Inspected(Container([c])) == None
  {
    hide Run, Container, Print, Inspected;
    OneChunkPrints(c);
    PrintedIsScanned([c]);
    OneChunkRuns(c);
  }
}
