/** Write a picture as a BMP file, then inspect and decode it: the picture comes back. */
module BmpFiles {
  import opened Basics
  import opened ImageHeaders
  import opened Bmp

  /** A picture: its lines from the top, its pixels from the left. */
  type Lines = seq<seq<Pixel>>

  /** How to store it: the direction of the lines, the bytes of a pixel, what the header
      fields nobody reads hold, the bytes between the read fields and the pixels, the bytes
      that pad each stored line, and the bytes behind the last one. */
  datatype Style = Style(
    topDown: bool, bytesPerPixel: nat, size: seq<byte>, reserved: seq<byte>, dibSize: nat, between: seq<byte>,
    padding: seq<seq<byte>>, trailing: seq<byte>)

  predicate IsPicture(width: nat, lines: Lines) {
    0 < width < 0x8000_0000 && 0 < |lines| && forall y :: 0 <= y < |lines| ==> |lines[y]| == width
  }

  /** The bytes of that many stored pixels. */
  function PixelBytes(count: nat, bytesPerPixel: nat): (n: nat) {
    if bytesPerPixel == 4 then 4 * count else 3 * count
  }

  /** The padded length of a stored line: the next multiple of four. */
  function Stride(width: nat, bytesPerPixel: nat): (n: nat) {
    PixelBytes(width, bytesPerPixel) + 3 - (PixelBytes(width, bytesPerPixel) + 3) % 4
  }

  predicate IsStyle(t: Style, width: nat, lines: Lines) {
    && (t.bytesPerPixel == 3 || t.bytesPerPixel == 4)
    && |lines| <= (if t.topDown then 0x8000_0000 else 0x7FFF_FFFF)
    && |t.size| == 4 && |t.reserved| == 4
    && |t.between| >= 20 && 34 + |t.between| <= MAX_UINT32 && 40 <= t.dibSize <= 20 + |t.between|
    && |t.padding| == |lines|
    && forall y :: 0 <= y < |t.padding| ==>
      |t.padding[y]| == Stride(width, t.bytesPerPixel) - PixelBytes(width, t.bytesPerPixel)
  }

  // ----- the writer -----

  function StoredPixel(p: Pixel, bytesPerPixel: nat): (s: seq<byte>) {
    if bytesPerPixel == 4 then [p.b, p.g, p.r, p.a] else [p.b, p.g, p.r]
  }

  function StoredPixels(line: seq<Pixel>, bytesPerPixel: nat): (s: seq<byte>) {
    if line == [] then [] else StoredPixel(line[0], bytesPerPixel) + StoredPixels(line[1..], bytesPerPixel)
  }

  function StoredLines(lines: Lines, padding: seq<seq<byte>>, bytesPerPixel: nat): (s: seq<byte>)
    requires |padding| == |lines|
  {
    if lines == [] then []
    else
      StoredPixels(lines[0], bytesPerPixel) + padding[0] + StoredLines(lines[1..], padding[1..], bytesPerPixel)
  }

  /** The lines in the order they are stored. */
  function InOrder(lines: Lines, topDown: bool): (r: Lines)
    ensures |r| == |lines|
  {
    if topDown then lines else Reversed(lines)
  }

  function Reversed(lines: Lines): (r: Lines)
    ensures |r| == |lines|
  {
    if lines == [] then [] else Reversed(lines[1..]) + [lines[0]]
  }

  /** The height field: negated for a top-down picture, in two's complement. */
  function Height(lines: Lines, topDown: bool): (n: nat)
    requires |lines| <= 0x8000_0000
  {
    if topDown then 0x1_0000_0000 - |lines| else |lines|
  }

  /** The first 34 bytes. */
  function Head(width: nat, lines: Lines, t: Style): (s: seq<byte>)
    requires |lines| <= 0x8000_0000
  {
    [0x42, 0x4D] + t.size + t.reserved + FourBytes(34 + |t.between|)
      + FourBytes(t.dibSize) + FourBytes(width) + FourBytes(Height(lines, t.topDown))
      + [1, 0] + [if t.bytesPerPixel == 4 then 32 else 24, 0] + [0, 0, 0, 0]
  }

  function File(width: nat, lines: Lines, t: Style): (s: seq<byte>)
    requires IsPicture(width, lines) && IsStyle(t, width, lines)
  {
    Head(width, lines, t) + t.between + StoredLines(InOrder(lines, t.topDown), t.padding, t.bytesPerPixel) + t.trailing
  }

  // ----- the header -----

  lemma FourAt(s: seq<byte>, at: nat, n: nat)
    requires at + 4 <= |s| && s[at..at + 4] == FourBytes(n) && n <= MAX_UINT32
    ensures LE32(s[at..at + 4]) == n
  {
    hide LE32, FourBytes;
    WordsAreLittleEndian(n);
  }

  /** Appending a field leaves the slices before it, and adds itself as the last. */
  lemma Appends(s: seq<byte>, field: seq<byte>)
    ensures forall lo, hi :: 0 <= lo <= hi <= |s| ==> (s + field)[lo..hi] == s[lo..hi]
    ensures (s + field)[|s|..|s| + |field|] == field
  {
  }

  lemma HeadFields(width: nat, lines: Lines, t: Style)
    requires |lines| <= 0x8000_0000 && |t.size| == 4 && |t.reserved| == 4
    ensures var s := Head(width, lines, t);
      && |s| == 34 && s[..2] == [0x42, 0x4D]
      && s[10..14] == FourBytes(34 + |t.between|) && s[14..18] == FourBytes(t.dibSize)
      && s[18..22] == FourBytes(width) && s[22..26] == FourBytes(Height(lines, t.topDown))
      && s[26..28] == [1, 0] && s[28..30] == [if t.bytesPerPixel == 4 then 32 else 24, 0]
      && s[30..34] == [0, 0, 0, 0]
  {
    hide FourBytes, Height;
    var magic: seq<byte> := [0x42, 0x4D];
    var offset, dib, w, h :=
      FourBytes(34 + |t.between|), FourBytes(t.dibSize), FourBytes(width), FourBytes(Height(lines, t.topDown));
    var planes: seq<byte> := [1, 0];
    var bits: seq<byte> := [if t.bytesPerPixel == 4 then 32 else 24, 0];
    FieldSlices(magic + t.size + t.reserved, offset, dib, w, h, planes, bits, [0, 0, 0, 0]);
    Appends(magic, t.size);
    Appends(magic + t.size, t.reserved);
  }

  lemma FieldSlices(a: seq<byte>, b: seq<byte>, c: seq<byte>, d: seq<byte>, e: seq<byte>, f: seq<byte>,
          g: seq<byte>, z: seq<byte>)
    requires |a| == 10 && |b| == 4 && |c| == 4 && |d| == 4 && |e| == 4 && |f| == 2 && |g| == 2 && |z| == 4
    ensures var s := a + b + c + d + e + f + g + z;
      && |s| == 34 && s[0..2] == a[0..2] && s[10..14] == b && s[14..18] == c && s[18..22] == d
      && s[22..26] == e && s[26..28] == f && s[28..30] == g && s[30..34] == z
  {
    Appends(a, b);
    Appends(a + b, c);
    Appends(a + b + c, d);
    Appends(a + b + c + d, e);
    Appends(a + b + c + d + e, f);
    Appends(a + b + c + d + e + f, g);
    Appends(a + b + c + d + e + f + g, z);
  }

  // ----- the stored lines -----

  /** Stored lines of one picture: equal widths, and padding up to the stride. */
  ghost predicate IsStored(lines: Lines, padding: seq<seq<byte>>, width: nat, bytesPerPixel: nat, stride: nat) {
    && (bytesPerPixel == 3 || bytesPerPixel == 4) && |padding| == |lines|
    && (forall y :: 0 <= y < |lines| ==> |lines[y]| == width)
    && forall y :: 0 <= y < |padding| ==> PixelBytes(width, bytesPerPixel) + |padding[y]| == stride
  }

  lemma {:induction false} PixelsLength(line: seq<Pixel>, bytesPerPixel: nat)
    requires bytesPerPixel == 3 || bytesPerPixel == 4
    ensures |StoredPixels(line, bytesPerPixel)| == PixelBytes(|line|, bytesPerPixel)
  {
    if line != [] {
      PixelsLength(line[1..], bytesPerPixel);
    }
  }

  lemma SliceBehind(a: seq<byte>, b: seq<byte>, lo: nat, hi: nat)
    requires lo <= hi <= |b|
    ensures (a + b)[|a| + lo..|a| + hi] == b[lo..hi]
  {
  }

  /** Pixel x of a line stands at its byte offset. */
  lemma {:induction false} StoredPixelAt(line: seq<Pixel>, bytesPerPixel: nat, x: nat, at: nat)
    requires (bytesPerPixel == 3 || bytesPerPixel == 4) && x < |line| && at == PixelBytes(x, bytesPerPixel)
    ensures at + bytesPerPixel <= |StoredPixels(line, bytesPerPixel)|
    ensures StoredPixels(line, bytesPerPixel)[at..at + bytesPerPixel] == StoredPixel(line[x], bytesPerPixel)
  {
    var first, rest := StoredPixel(line[0], bytesPerPixel), StoredPixels(line[1..], bytesPerPixel);
    if x > 0 {
      StoredPixelAt(line[1..], bytesPerPixel, x - 1, at - bytesPerPixel);
      SliceBehind(first, rest, at - bytesPerPixel, at);
    }
  }

  function StoredLine(line: seq<Pixel>, padding: seq<byte>, bytesPerPixel: nat): (s: seq<byte>) {
    StoredPixels(line, bytesPerPixel) + padding
  }

  lemma OneMoreLine(lines: Lines, padding: seq<seq<byte>>, width: nat, bytesPerPixel: nat, stride: nat)
    requires IsStored(lines, padding, width, bytesPerPixel, stride) && lines != []
    ensures IsStored(lines[1..], padding[1..], width, bytesPerPixel, stride)
    ensures |StoredLine(lines[0], padding[0], bytesPerPixel)| == stride
    ensures StoredLines(lines, padding, bytesPerPixel) ==
      StoredLine(lines[0], padding[0], bytesPerPixel) + StoredLines(lines[1..], padding[1..], bytesPerPixel)
  {
    PixelsLength(lines[0], bytesPerPixel);
  }

  /** The length of that many strides. */
  function Total(count: nat, stride: nat): (n: nat) {
    if count == 0 then 0 else stride + Total(count - 1, stride)
  }

  lemma {:induction false} TotalIs(count: nat, stride: nat)
    ensures Total(count, stride) == count * stride
  {
    if count > 0 {
      TotalIs(count - 1, stride);
      OneMore(count, stride);
    }
  }

  lemma OneMore(count: nat, stride: nat)
    requires count > 0
    ensures count * stride == stride + (count - 1) * stride
  {
  }

  lemma {:induction false} LinesLength(lines: Lines, padding: seq<seq<byte>>, width: nat, bytesPerPixel: nat,
          stride: nat)
    requires IsStored(lines, padding, width, bytesPerPixel, stride)
    ensures |StoredLines(lines, padding, bytesPerPixel)| == Total(|lines|, stride)
  {
    if lines != [] {
      OneMoreLine(lines, padding, width, bytesPerPixel, stride);
      LinesLength(lines[1..], padding[1..], width, bytesPerPixel, stride);
    }
  }

  /** Stored line s stands at its byte offset. */
  lemma {:induction false} StoredLineAt(lines: Lines, padding: seq<seq<byte>>, width: nat, bytesPerPixel: nat,
          stride: nat, s: nat, at: nat)
    requires IsStored(lines, padding, width, bytesPerPixel, stride) && s < |lines| && at == Total(s, stride)
    ensures at + stride <= |StoredLines(lines, padding, bytesPerPixel)|
    ensures StoredLines(lines, padding, bytesPerPixel)[at..at + stride] ==
      StoredLine(lines[s], padding[s], bytesPerPixel)
  {
    assert |padding| == |lines|;
    hide StoredPixels, StoredLine, StoredLines, IsStored;
    OneMoreLine(lines, padding, width, bytesPerPixel, stride);
    var first := StoredLine(lines[0], padding[0], bytesPerPixel);
    var rest := StoredLines(lines[1..], padding[1..], bytesPerPixel);
    if s == 0 {
      FirstPart(first, rest);
    } else {
      StoredLineAt(lines[1..], padding[1..], width, bytesPerPixel, stride, s - 1, at - stride);
      BehindFirst(first, rest, at, stride);
    }
  }

  lemma BehindFirst(a: seq<byte>, b: seq<byte>, at: nat, stride: nat)
    requires |a| == stride <= at <= |b|
    ensures (a + b)[at..at + stride] == b[at - stride..at]
  {
    SliceBehind(a, b, at - stride, at);
  }

  lemma FirstPart(a: seq<byte>, b: seq<byte>)
    ensures (a + b)[0..|a|] == a
  {
  }

  lemma {:induction false} ReversedAt(lines: Lines, s: nat)
    requires s < |lines|
    ensures Reversed(lines)[s] == lines[|lines| - 1 - s]
  {
    if s < |lines| - 1 {
      ReversedAt(lines[1..], s);
    }
  }

  lemma InOrderIsStored(width: nat, lines: Lines, t: Style)
    requires IsPicture(width, lines) && IsStyle(t, width, lines)
    ensures IsStored(InOrder(lines, t.topDown), t.padding, width, t.bytesPerPixel, Stride(width, t.bytesPerPixel))
  {
    hide Stride;
    var r := InOrder(lines, t.topDown);
    forall s | 0 <= s < |r|
      ensures |r[s]| == width
    {
      if !t.topDown {
        ReversedAt(lines, s);
      }
    }
  }

  // ----- the header is reported -----

  /** Where the parts of a file are. */
  lemma FileParts(width: nat, lines: Lines, t: Style)
    requires IsPicture(width, lines) && IsStyle(t, width, lines)
    ensures
      var s, body := File(width, lines, t), StoredLines(InOrder(lines, t.topDown), t.padding, t.bytesPerPixel);
      var offset := 34 + |t.between|;
      && |body| == Total(|lines|, Stride(width, t.bytesPerPixel))
      && |s| == offset + |body| + |t.trailing|
      && s[..34] == Head(width, lines, t) && s[offset..offset + |body|] == body
  {
    hide Head, StoredLines, Stride;
    HeadFields(width, lines, t);
    InOrderIsStored(width, lines, t);
    LinesLength(InOrder(lines, t.topDown), t.padding, width, t.bytesPerPixel, Stride(width, t.bytesPerPixel));
  }

  lemma WordAt(s: seq<byte>, head: seq<byte>, at: nat, n: nat)
    requires at + 4 <= |head| <= |s| && s[..|head|] == head && head[at..at + 4] == FourBytes(n) && n <= MAX_UINT32
    ensures LE32(s[at..at + 4]) == n
  {
    hide LE32, FourBytes;
    SliceOfSlice(s, 0, |head|, at, at + 4);
    FourAt(s, at, n);
  }

  lemma HalfAt(s: seq<byte>, head: seq<byte>, at: nat, b: byte)
    requires at + 2 <= |head| <= |s| && s[..|head|] == head && head[at..at + 2] == [b, 0]
    ensures LE16(s[at..at + 2]) == b as int
  {
    SliceOfSlice(s, 0, |head|, at, at + 2);
  }

  lemma ZeroWord()
    ensures FourBytes(0) == [0, 0, 0, 0]
  {
  }

  lemma FieldsAreRead(width: nat, lines: Lines, t: Style)
    requires IsPicture(width, lines) && IsStyle(t, width, lines)
    ensures var s := File(width, lines, t);
      && |s| >= 54 && s[..2] == [0x42, 0x4D]
      && FieldsOf(s) == Fields(t.dibSize, 34 + |t.between|, width, if t.topDown then -|lines| else |lines|, 1,
                               if t.bytesPerPixel == 4 then 32 else 24, 0)
  {
    hide Head, LE32, LE16, FourBytes, StoredLines, File, Stride;
    var s, head := File(width, lines, t), Head(width, lines, t);
    HeadFields(width, lines, t);
    FileParts(width, lines, t);
    WordAt(s, head, 10, 34 + |t.between|);
    WordAt(s, head, 14, t.dibSize);
    WordAt(s, head, 18, width);
    WordAt(s, head, 22, Height(lines, t.topDown));
    HalfAt(s, head, 26, 1);
    HalfAt(s, head, 28, if t.bytesPerPixel == 4 then 32 else 24);
    ZeroWord();
    WordAt(s, head, 30, 0);
    SliceOfSlice(s, 0, 34, 0, 2);
    assert head[..2] == head[0..2];
  }

  lemma PixelBytesIs(count: nat, bytesPerPixel: nat)
    requires bytesPerPixel == 3 || bytesPerPixel == 4
    ensures PixelBytes(count, bytesPerPixel) == count * bytesPerPixel
  {
  }

  /** The stride computed by division is the next multiple of four. */
  lemma StrideIs(width: nat, bytesPerPixel: nat)
    requires 0 < width < 0x8000_0000 && (bytesPerPixel == 3 || bytesPerPixel == 4)
    ensures RowStride(width, bytesPerPixel) == Some(Stride(width, bytesPerPixel))
    ensures PixelBytes(width, bytesPerPixel) <= Stride(width, bytesPerPixel) <= 0x2_0000_0000 - 4
    ensures Stride(width, bytesPerPixel) % 4 == 0
  {
    PixelBytesIs(width, bytesPerPixel);
    var n := PixelBytes(width, bytesPerPixel) + 3;
    assert n == 4 * (n / 4) + n % 4;
  }

  lemma BodyFits(stride: nat, height: nat)
    requires stride <= 0x2_0000_0000 - 4 && height <= 0x8000_0000
    ensures stride * height <= MAX_UINT64 && stride * height == height * stride
  {
    Monotone(height, 0x8000_0000, stride);
    Commutes(stride, height);
  }

  /** The header the inspector should find. */
  function Expected(width: nat, lines: Lines, t: Style): (h: BmpHeader) {
    BmpHeader(width, |lines|, t.topDown, 34 + |t.between|, Stride(width, t.bytesPerPixel), t.bytesPerPixel)
  }

  lemma GeometryIs(width: nat, lines: Lines, t: Style, size: nat)
    requires IsPicture(width, lines) && IsStyle(t, width, lines)
    requires size == 34 + |t.between| + Total(|lines|, Stride(width, t.bytesPerPixel)) + |t.trailing|
    ensures Geometry(size, t.dibSize, 34 + |t.between|, width, if t.topDown then -|lines| else |lines|,
                     t.bytesPerPixel) == Some(Expected(width, lines, t))
  {
    hide RowStride, Stride;
    StrideIs(width, t.bytesPerPixel);
    BodyFits(Stride(width, t.bytesPerPixel), |lines|);
    TotalIs(|lines|, Stride(width, t.bytesPerPixel));
  }

  // ----- main results -----

  /** Every written picture is accepted and reported as it was written. */
  lemma WrittenFileIsReported(width: nat, lines: Lines, t: Style)
    requires IsPicture(width, lines) && IsStyle(t, width, lines)
    ensures Inspected(File(width, lines, t)) ==
      Some(ImageHeader(BMP, width, |lines|, width, |lines|, 1, 0, Area(width, |lines|),
                       Some(Expected(width, lines, t))))
  {
    hide File, FieldsOf, StoredLines, Stride, Geometry, Head, Inspected;
    FileParts(width, lines, t);
    FieldsAreRead(width, lines, t);
    GeometryIs(width, lines, t, |File(width, lines, t)|);
    InspectedFrom(File(width, lines, t), Expected(width, lines, t));
  }

  lemma InspectedFrom(input: seq<byte>, h: BmpHeader)
    requires |input| >= 54 && input[..2] == [0x42, 0x4D]
    requires var f := FieldsOf(input);
      && 40 <= f.dibSize <= |input| - 14 && f.width > 0 && f.height != 0 && f.planes == 1
      && (f.bitsPerPixel == 24 || f.bitsPerPixel == 32) && f.compression == 0
      && Geometry(|input|, f.dibSize, f.pixelOffset, f.width, f.height,
                  if f.bitsPerPixel == 32 then 4 else 3) == Some(h)
    ensures Inspected(input) ==
      Some(ImageHeader(BMP, h.width, h.height, h.width, h.height, 1, 0, Area(h.width, h.height), Some(h)))
  {
    hide FieldsOf, Geometry, Fits, Area;
    var f := FieldsOf(input);
    assert f.bitsPerPixel / 8 == if f.bitsPerPixel == 32 then 4 else 3;
  }

  /** What a stored pixel shows: opaque when its fourth byte is missing or zero. */
  function Shown(p: Pixel, bytesPerPixel: nat): (r: Pixel) {
    Pixel(p.r, p.g, p.b, if bytesPerPixel == 4 && p.a != 0 then p.a else 255)
  }

  lemma RowOfBody(file: seq<byte>, h: BmpHeader, body: seq<byte>, s: nat, at: nat)
    requires Fits(h, |file|) && s < h.height && at == s * h.rowStride && at + h.rowStride <= |body|
    requires h.pixelOffset + |body| <= |file| && file[h.pixelOffset..h.pixelOffset + |body|] == body
    ensures Row(file, h, s) == body[at..at + h.rowStride]
  {
    hide Fits, Row;
    RowAt(file, h, s, h.pixelOffset + at);
    SliceOfSlice(file, h.pixelOffset, h.pixelOffset + |body|, at, at + h.rowStride);
  }

  lemma StoredRowIs(width: nat, lines: Lines, t: Style, s: nat)
    requires IsPicture(width, lines) && IsStyle(t, width, lines) && s < |lines|
    requires Fits(Expected(width, lines, t), |File(width, lines, t)|)
    ensures Row(File(width, lines, t), Expected(width, lines, t), s) ==
      StoredLine(InOrder(lines, t.topDown)[s], t.padding[s], t.bytesPerPixel)
  {
    hide File, StoredLines, Stride, Fits, Row, StoredLine, InOrder, IsStored, Head, IsPicture;
    var file, h, stride := File(width, lines, t), Expected(width, lines, t), Stride(width, t.bytesPerPixel);
    var body := StoredLines(InOrder(lines, t.topDown), t.padding, t.bytesPerPixel);
    FileParts(width, lines, t);
    InOrderIsStored(width, lines, t);
    var at := Total(s, stride);
    TotalIs(s, stride);
    StoredLineAt(InOrder(lines, t.topDown), t.padding, width, t.bytesPerPixel, stride, s, at);
    RowOfBody(file, h, body, s, at);
  }

  lemma PixelOfLine(line: seq<Pixel>, padding: seq<byte>, bytesPerPixel: nat, x: nat)
    requires (bytesPerPixel == 3 || bytesPerPixel == 4) && x < |line|
    ensures x * bytesPerPixel + bytesPerPixel <= |StoredLine(line, padding, bytesPerPixel)|
    ensures PixelAt(StoredLine(line, padding, bytesPerPixel), bytesPerPixel, x) == Shown(line[x], bytesPerPixel)
  {
    hide StoredPixels;
    PixelBytesIs(x, bytesPerPixel);
    var at, pixels := PixelBytes(x, bytesPerPixel), StoredPixels(line, bytesPerPixel);
    StoredPixelAt(line, bytesPerPixel, x, at);
    var found := pixels[at..at + bytesPerPixel];
    assert found[0] == pixels[at] && found[1] == pixels[at + 1] && found[2] == pixels[at + 2];
    assert bytesPerPixel == 4 ==> found[3] == pixels[at + 3];
  }

  lemma LineShown(lines: Lines, topDown: bool, h: BmpHeader, y: nat)
    requires h.height == |lines| && h.topDown == topDown && y < |lines|
    ensures InOrder(lines, topDown)[SourceRow(h, y)] == lines[y]
  {
    if !topDown {
      ReversedAt(lines, |lines| - 1 - y);
    }
  }

  lemma WrittenPixelIsShown(width: nat, lines: Lines, t: Style, y: nat, x: nat)
    requires IsPicture(width, lines) && IsStyle(t, width, lines) && y < |lines| && x < |lines[y]|
    requires Fits(Expected(width, lines, t), |File(width, lines, t)|)
    ensures x < width
    ensures ShownPixel(File(width, lines, t), Expected(width, lines, t), y, x) == Shown(lines[y][x], t.bytesPerPixel)
  {
    hide File, Stride, Fits, Row, StoredLine, InOrder, PixelAt, Shown;
    var h := Expected(width, lines, t);
    StoredRowIs(width, lines, t, SourceRow(h, y));
    LineShown(lines, t.topDown, h, y);
    PixelOfLine(lines[y], t.padding[SourceRow(h, y)], t.bytesPerPixel, x);
  }

  /** The bytes of the decoded picture. */
  function BufferSize(width: nat, height: nat): (n: nat) { width * 4 * height }

  lemma AllocationFitsIff(width: nat, height: nat, limit: nat)
    requires width > 0 && height > 0
    ensures width <= limit / 4 && height <= limit / (width * 4) <==> BufferSize(width, height) <= limit
  {
    var w := width * 4;
    if w * height <= limit {
      DivisionBound(w, height, limit);
      Monotone(1, height, w);
      Commutes(height, w);
    } else if height <= limit / w {
      Monotone(height, limit / w, w);
      Commutes(height, w);
      QuotientBound(w, limit);
      assert false;
    }
  }

  lemma QuotientBound(w: nat, limit: nat)
    requires w > 0
    ensures limit / w * w <= limit
  {
    Commutes(limit / w, w);
    assert limit == w * (limit / w) + limit % w;
  }

  /** Every picture, written in either direction with three or four bytes a pixel and any
      other header bytes and padding, is decoded to that very picture, provided its buffer
      size is representable. */
  method DecodeWritten(width: nat, lines: Lines, t: Style) returns (error: Option<DecodeError>, decoded: array2<Pixel>)
    requires IsPicture(width, lines) && IsStyle(t, width, lines)
    ensures Inspected(File(width, lines, t)).Some?
    ensures error.None? <==> BufferSize(width, |lines|) <= MAX_INT64
    ensures error.None? ==>
      && decoded.Length0 == |lines| && decoded.Length1 == width
      && forall y, x :: 0 <= y < |lines| && 0 <= x < width ==> decoded[y, x] == Shown(lines[y][x], t.bytesPerPixel)
  {
    hide File, Stride, ShownPixel, Shown, Fits;
    var file := File(width, lines, t);
    WrittenFileIsReported(width, lines, t);
    var h := Inspected(file).value.bmp.value;
    error, decoded := Decode(file, h);
    AllocationFitsIff(width, |lines|, MAX_INT64);
    forall y, x | 0 <= y < |lines| && 0 <= x < width
      ensures error.None? ==> decoded[y, x] == Shown(lines[y][x], t.bytesPerPixel)
    {
      WrittenPixelIsShown(width, lines, t, y, x);
    }
  }

  // ----- and nothing else is accepted -----

  lemma {:induction false} PixelsOf(s: seq<byte>, count: nat, bytesPerPixel: nat) returns (line: seq<Pixel>)
    requires (bytesPerPixel == 3 || bytesPerPixel == 4) && |s| == PixelBytes(count, bytesPerPixel)
    ensures |line| == count && StoredPixels(line, bytesPerPixel) == s
    decreases count
  {
    if count == 0 {
      line := [];
    } else {
      var rest := PixelsOf(s[bytesPerPixel..], count - 1, bytesPerPixel);
      var p := Pixel(s[2], s[1], s[0], if bytesPerPixel == 4 then s[3] else 255);
      line := [p] + rest;
      assert line[1..] == rest;
      assert s == StoredPixel(p, bytesPerPixel) + s[bytesPerPixel..];
    }
  }

  lemma {:induction false} LinesOf(s: seq<byte>, count: nat, width: nat, bytesPerPixel: nat, stride: nat)
    returns (lines: Lines, padding: seq<seq<byte>>)
    requires (bytesPerPixel == 3 || bytesPerPixel == 4) && PixelBytes(width, bytesPerPixel) <= stride
    requires |s| == Total(count, stride)
    ensures |lines| == count && IsStored(lines, padding, width, bytesPerPixel, stride)
    ensures StoredLines(lines, padding, bytesPerPixel) == s
    decreases count
  {
    if count == 0 {
      lines, padding := [], [];
    } else {
      assert |s[stride..]| == Total(count - 1, stride);
      hide StoredPixels, StoredLines, IsStored, Total;
      var n := PixelBytes(width, bytesPerPixel);
      var line := PixelsOf(s[..n], width, bytesPerPixel);
      var restLines, restPadding := LinesOf(s[stride..], count - 1, width, bytesPerPixel, stride);
      lines, padding := OneLineMore(line, s[n..stride], restLines, restPadding, width, bytesPerPixel, stride);
      PartsJoin(s, 0, n, stride);
      assert s[..0] + s[0..n] == s[..n];
    }
  }

  lemma OneLineMore(line: seq<Pixel>, pad: seq<byte>, restLines: Lines, restPadding: seq<seq<byte>>, width: nat,
          bytesPerPixel: nat, stride: nat) returns (lines: Lines, padding: seq<seq<byte>>)
    requires IsStored(restLines, restPadding, width, bytesPerPixel, stride) && |line| == width
    requires PixelBytes(width, bytesPerPixel) + |pad| == stride
    ensures |lines| == |restLines| + 1 && IsStored(lines, padding, width, bytesPerPixel, stride)
    ensures StoredLines(lines, padding, bytesPerPixel) ==
      StoredPixels(line, bytesPerPixel) + pad + StoredLines(restLines, restPadding, bytesPerPixel)
  {
    hide StoredPixels;
    lines, padding := [line] + restLines, [pad] + restPadding;
    assert lines[1..] == restLines && padding[1..] == restPadding;
  }

  lemma {:induction false} ReversedTwice(lines: Lines)
    ensures Reversed(Reversed(lines)) == lines
  {
    if lines != [] {
      ReversedTwice(lines[1..]);
      ReversedLast(Reversed(lines[1..]), lines[0]);
    }
  }

  lemma {:induction false} ReversedLast(lines: Lines, last: seq<Pixel>)
    ensures Reversed(lines + [last]) == [last] + Reversed(lines)
  {
    if lines == [] {
      assert [] + [last] == [last] && [last][1..] == [];
    } else {
      ReversedLast(lines[1..], last);
      assert (lines + [last])[1..] == lines[1..] + [last];
    }
  }

  lemma ReorderedIsStored(stored: Lines, topDown: bool, padding: seq<seq<byte>>, width: nat, bytesPerPixel: nat,
          stride: nat)
    requires IsStored(stored, padding, width, bytesPerPixel, stride)
    ensures InOrder(InOrder(stored, topDown), topDown) == stored
    ensures IsStored(InOrder(stored, topDown), padding, width, bytesPerPixel, stride)
  {
    ReversedTwice(stored);
    forall y | 0 <= y < |stored|
      ensures |InOrder(stored, topDown)[y]| == width
    {
      if !topDown {
        ReversedAt(stored, y);
      }
    }
  }

  lemma LowBytes(s: seq<byte>, b: byte)
    requires |s| == 2 && LE16(s) == b as int
    ensures s == [b, 0]
  {
  }

  /** The 34 bytes of an accepted header are those the writer puts there. */
  lemma HeadIs(input: seq<byte>, width: nat, lines: Lines, t: Style)
    requires |input| >= 54 && input[..2] == [0x42, 0x4D] && |lines| <= 0x8000_0000
    requires t.size == input[2..6] && t.reserved == input[6..10]
    requires t.bytesPerPixel == 3 || t.bytesPerPixel == 4
    requires var f := FieldsOf(input);
      && f.pixelOffset == 34 + |t.between| && f.dibSize == t.dibSize && f.width == width
      && f.height == (if t.topDown then -|lines| else |lines|) && f.height != 0
      && f.planes == 1 && f.bitsPerPixel == 8 * t.bytesPerPixel && f.compression == 0
    ensures input[..34] == Head(width, lines, t)
  {
    hide LE32, LE16, FourBytes;
    BytesOfAWord(input[10..14], 34 + |t.between|);
    BytesOfAWord(input[14..18], t.dibSize);
    BytesOfAWord(input[18..22], width);
    BytesOfAWord(input[22..26], Height(lines, t.topDown));
    LowBytes(input[26..28], 1);
    LowBytes(input[28..30], if t.bytesPerPixel == 4 then 32 else 24);
    ZeroWord();
    BytesOfAWord(input[30..34], 0);
    JoinsTo(input);
  }

  lemma JoinsTo(input: seq<byte>)
    requires |input| >= 34
    ensures input[..34] == input[..2] + input[2..6] + input[6..10] + input[10..14] + input[14..18] + input[18..22]
                             + input[22..26] + input[26..28] + input[28..30] + input[30..34]
  {
  }

  lemma PartsJoin(input: seq<byte>, a: nat, b: nat, c: nat)
    requires a <= b <= c <= |input|
    ensures input == input[..a] + input[a..b] + input[b..c] + input[c..]
  {
  }

  /** What acceptance says about the fields. */
  lemma AcceptedFields(input: seq<byte>, h: BmpHeader)
    requires Inspected(input).Some? && Inspected(input).value.bmp == Some(h)
    ensures |input| >= 54 && input[..2] == [0x42, 0x4D]
    ensures var f := FieldsOf(input);
      && 40 <= f.dibSize <= f.pixelOffset - 14 && h.pixelOffset == f.pixelOffset <= MAX_UINT32
      && 0 < h.width == f.width && f.planes == 1 && f.compression == 0
      && (h.bytesPerPixel == 3 || h.bytesPerPixel == 4) && f.bitsPerPixel == 8 * h.bytesPerPixel
      && (if h.topDown then f.height + h.height == 0 else f.height == h.height) && f.height != 0
      && h.rowStride == Stride(h.width, h.bytesPerPixel)
      && h.pixelOffset + Total(h.height, h.rowStride) <= |input|
  {
    hide LE32, LE16, RowStride, Stride, Fits;
    StrideIs(h.width, h.bytesPerPixel);
    TotalIs(h.height, h.rowStride);
    Commutes(h.height, h.rowStride);
  }

  /** Every accepted file is a written one: so the inspector accepts exactly the files this
      writer writes. */
  lemma AcceptedFilesAreWritten(input: seq<byte>) returns (width: nat, lines: Lines, t: Style)
    requires Inspected(input).Some?
    ensures IsPicture(width, lines) && IsStyle(t, width, lines) && input == File(width, lines, t)
  {
    hide FieldsOf, Inspected, StoredLines, Stride, Total, InOrder, IsStored, Head, Fits;
    var h := Inspected(input).value.bmp.value;
    AcceptedFields(input, h);
    StrideIs(h.width, h.bytesPerPixel);
    var end := h.pixelOffset + Total(h.height, h.rowStride);
    var stored, padding := LinesOf(input[h.pixelOffset..end], h.height, h.width, h.bytesPerPixel, h.rowStride);
    ReorderedIsStored(stored, h.topDown, padding, h.width, h.bytesPerPixel, h.rowStride);
    width, lines := h.width, InOrder(stored, h.topDown);
    t := Style(h.topDown, h.bytesPerPixel, input[2..6], input[6..10], FieldsOf(input).dibSize,
               input[34..h.pixelOffset], padding, input[end..]);
    StoredIsPicture(width, lines, t, h.rowStride);
    HeadIs(input, width, lines, t);
    PartsJoin(input, 34, h.pixelOffset, end);
  }

  lemma StoredIsPicture(width: nat, lines: Lines, t: Style, stride: nat)
    requires IsStored(lines, t.padding, width, t.bytesPerPixel, stride) && stride == Stride(width, t.bytesPerPixel)
    requires 0 < width < 0x8000_0000 && 0 < |lines| <= (if t.topDown then 0x8000_0000 else 0x7FFF_FFFF)
    requires |t.size| == 4 && |t.reserved| == 4
    requires |t.between| >= 20 && 34 + |t.between| <= MAX_UINT32 && 40 <= t.dibSize <= 20 + |t.between|
    ensures IsPicture(width, lines) && IsStyle(t, width, lines)
  {
    hide Stride, PixelBytes;
  }
}
