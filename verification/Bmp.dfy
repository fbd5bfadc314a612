/** The BMP inspector and decoder: what the first accepts, the second can read. */
module Bmp {
  import opened Basics
  import opened ImageHeaders

  datatype Pixel = Pixel(r: byte, g: byte, b: byte, a: byte)

  /** int64(int32(x)). */
  function Signed32(n: nat): (r: int)
    requires n <= MAX_UINT32
    ensures -0x8000_0000 <= r < 0x8000_0000
  {
    if n < 0x8000_0000 then n else n - 0x1_0000_0000
  }

  /** Bytes of a stored row, a multiple of four. */
  function RowStride(width: nat, bytesPerPixel: nat): (r: Option<nat>)
    requires width < 0x8000_0000 && (bytesPerPixel == 3 || bytesPerPixel == 4)
    ensures r.Some? && r.value % 4 == 0 && width * bytesPerPixel <= r.value <= width * bytesPerPixel + 3
  {
    CheckedMul((width * bytesPerPixel + 3) / 4, 4)
  }

  /** inspectBMP from the decoded fields on. */
  function Geometry(size: nat, dibSize: nat, pixelOffset: nat, width: nat, heightSigned: int,
          bytesPerPixel: nat): (r: Option<BmpHeader>)
    requires 0 < width < 0x8000_0000 && -0x8000_0000 <= heightSigned < 0x8000_0000 && heightSigned != 0
    requires bytesPerPixel == 3 || bytesPerPixel == 4
    ensures r.Some? && dibSize >= 40 ==> Fits(r.value, size)
  {
    var height: nat := if heightSigned < 0 then -heightSigned else heightSigned;
    var rowStride := RowStride(width, bytesPerPixel).value;
    match CheckedMul(rowStride, height)
    case None => None
    case Some(dataSize) =>
      if pixelOffset < 14 + dibSize || pixelOffset > size || dataSize > size - pixelOffset then None
      else Some(BmpHeader(width, height, heightSigned < 0, pixelOffset, rowStride, bytesPerPixel))
  }

  /** The fixed fields of the file and DIB headers. */
  datatype Fields = Fields(
    dibSize: nat, pixelOffset: nat, width: int, height: int, planes: nat, bitsPerPixel: nat, compression: nat)

  function FieldsOf(input: seq<byte>): (f: Fields)
    requires |input| >= 54
    ensures -0x8000_0000 <= f.width < 0x8000_0000 && -0x8000_0000 <= f.height < 0x8000_0000
  {
    Fields(LE32(input[14..18]), LE32(input[10..14]), Signed32(LE32(input[18..22])), Signed32(LE32(input[22..26])),
           LE16(input[26..28]), LE16(input[28..30]), LE32(input[30..34]))
  }

  function Area(width: nat, height: nat): nat { width * height }

  /** inspectBMP; None is the malformed-image error. */
  function Inspected(input: seq<byte>): (r: Option<ImageHeader>)
    ensures r.Some? ==> r.value.bmp.Some? && Fits(r.value.bmp.value, |input|)
  {
    if |input| < 54 || input[..2] != [0x42, 0x4D] then None
    else
      var f := FieldsOf(input);
      if f.dibSize < 40 || f.dibSize > |input| - 14 then None
      else if f.width <= 0 || f.height == 0 || f.planes != 1 then None
      else if (f.bitsPerPixel != 24 && f.bitsPerPixel != 32) || f.compression != 0 then None
      else
        match Geometry(|input|, f.dibSize, f.pixelOffset, f.width, f.height, f.bitsPerPixel / 8)
        case None => None
        case Some(h) =>
          Some(ImageHeader(BMP, h.width, h.height, h.width, h.height, 1, 0, Area(h.width, h.height), Some(h)))
  }

  /** The geometry a header promises about its file. */
  predicate Fits(h: BmpHeader, size: nat) {
    && 0 < h.width < 0x8000_0000 && 0 < h.height <= 0x8000_0000
    && (h.bytesPerPixel == 3 || h.bytesPerPixel == 4)
    && h.width * h.bytesPerPixel <= h.rowStride <= MAX_UINT64
    && 54 <= h.pixelOffset && h.pixelOffset + h.rowStride * h.height <= size
  }

  /** Row y of the file, as stored. */
  function Row(input: seq<byte>, h: BmpHeader, y: nat): (row: seq<byte>)
    requires Fits(h, |input|) && y < h.height
    ensures |row| == h.rowStride
  {
    RowInBounds(h, y, |input|);
    input[h.pixelOffset + y * h.rowStride..h.pixelOffset + (y + 1) * h.rowStride]
  }

  lemma Product(a: nat, n: nat, w: nat)
    requires a < n
    ensures a * w + w <= n * w
    ensures (a + 1) * w == a * w + w
  {
    Monotone(a + 1, n, w);
  }

  lemma {:induction false} Monotone(a: nat, b: nat, w: nat)
    requires a <= b
    ensures a * w <= b * w
  {
    if a < b {
      Monotone(a, b - 1, w);
      assert b * w == (b - 1) * w + w;
    }
  }

  lemma RowInBounds(h: BmpHeader, y: nat, size: nat)
    requires Fits(h, size) && y < h.height
    ensures (y + 1) * h.rowStride == y * h.rowStride + h.rowStride
    ensures h.pixelOffset + (y + 1) * h.rowStride <= size
  {
    Product(y, h.height, h.rowStride);
    Commutes(h.rowStride, h.height);
  }

  lemma Commutes(a: nat, b: nat)
    ensures a * b == b * a
  {
  }

  /** The pixel at column x of a stored row: BGR, alpha opaque unless a non-zero fourth byte. */
  function PixelAt(row: seq<byte>, bytesPerPixel: nat, x: nat): (p: Pixel)
    requires bytesPerPixel == 3 || bytesPerPixel == 4
    requires x * bytesPerPixel + bytesPerPixel <= |row|
  {
    var at := x * bytesPerPixel;
    var alpha := if bytesPerPixel == 4 && row[at + 3] != 0 then row[at + 3] else 255;
    Pixel(row[at + 2], row[at + 1], row[at], alpha)
  }

  function SourceRow(h: BmpHeader, y: nat): (s: nat)
    requires y < h.height
    ensures s < h.height
  {
    if h.topDown then y else h.height - 1 - y
  }

  lemma ColumnInBounds(h: BmpHeader, x: nat)
    requires (h.bytesPerPixel == 3 || h.bytesPerPixel == 4) && h.width * h.bytesPerPixel <= h.rowStride && x < h.width
    ensures x * h.bytesPerPixel + h.bytesPerPixel <= h.rowStride
  {
  }

  /** The pixel a file of this geometry shows at column x of line y, top line first. */
  function ShownPixel(input: seq<byte>, h: BmpHeader, y: nat, x: nat): (p: Pixel)
    requires Fits(h, |input|) && y < h.height && x < h.width
  {
    ColumnInBounds(h, x);
    PixelAt(Row(input, h, SourceRow(h, y)), h.bytesPerPixel, x)
  }

  /** A stored row is the stride's worth of bytes behind its offset. */
  lemma RowAt(input: seq<byte>, h: BmpHeader, s: nat, start: nat)
    requires Fits(h, |input|) && s < h.height && start == h.pixelOffset + s * h.rowStride
    ensures start + h.rowStride <= |input| && Row(input, h, s) == input[start..start + h.rowStride]
  {
    RowInBounds(h, s, |input|);
  }

  /** Reading a pixel at its byte offset is reading that pixel of its stored row, and the
      offset never leaves the file. */
  lemma OffsetReadsPixel(input: seq<byte>, h: BmpHeader, s: nat, x: nat, start: nat, column: nat)
    requires Fits(h, |input|) && s < h.height && x < h.width
    requires start == h.pixelOffset + s * h.rowStride && column == x * h.bytesPerPixel
    ensures column + h.bytesPerPixel <= h.rowStride && start + column + h.bytesPerPixel <= |input|
    ensures input[start + column..start + column + h.bytesPerPixel] ==
      Row(input, h, s)[column..column + h.bytesPerPixel]
  {
    RowAt(input, h, s, start);
    ColumnInBounds(h, x);
    hide Fits, Row;
    SliceOfSlice(input, start, start + h.rowStride, column, column + h.bytesPerPixel);
  }

  datatype DecodeError = UnsupportedLayout | AllocationOverflow | TruncatedPixels

  predicate SupportedLayout(h: BmpHeader) {
    h.width > 0 && h.height > 0 && (h.bytesPerPixel == 3 || h.bytesPerPixel == 4)
  }

  /** The guard against an int overflow of the pixel buffer size. */
  predicate AllocationFits(h: BmpHeader)
    requires h.width > 0
  {
    h.width <= MAX_INT64 / 4 && h.height <= MAX_INT64 / (h.width * 4)
  }

  /** One pixel of decodeBMP's inner loop: None is the truncated-pixels error. */
  method ReadPixel(input: seq<byte>, h: BmpHeader, rowOffset: nat, x: nat, ghost s: nat) returns (r: Option<Pixel>)
    requires h.bytesPerPixel == 3 || h.bytesPerPixel == 4
    requires rowOffset == h.pixelOffset + s * h.rowStride && s < h.height && x < h.width
    ensures Fits(h, |input|) ==>
      && x * h.bytesPerPixel + h.bytesPerPixel <= h.rowStride
      && r == Some(PixelAt(Row(input, h, s), h.bytesPerPixel, x))
  {
    hide Fits, Row;
    var column := x * h.bytesPerPixel;
    if Fits(h, |input|) {
      OffsetReadsPixel(input, h, s, x, rowOffset, column);
      ghost var row, found := Row(input, h, s), input[rowOffset + column..rowOffset + column + h.bytesPerPixel];
      assert found[0] == row[column] && found[1] == row[column + 1] && found[2] == row[column + 2];
    }
    var sourceOffset := rowOffset + column;
    if sourceOffset + h.bytesPerPixel > |input| {
      return None;
    }
    var pixel := input[sourceOffset..sourceOffset + h.bytesPerPixel];
    var alpha: byte := 255;
    if h.bytesPerPixel == 4 && pixel[3] != 0 {
      alpha := pixel[3];
    }
    return Some(Pixel(pixel[2], pixel[1], pixel[0], alpha));
  }

  /** decodeBMP's inner loop: line y of the image, false when the file is too short. */
  method DecodeLine(input: seq<byte>, h: BmpHeader, y: nat, decoded: array2<Pixel>) returns (ok: bool)
    requires SupportedLayout(h) && y < h.height && decoded.Length0 == h.height && decoded.Length1 == h.width
    modifies decoded
    ensures forall l, x :: 0 <= l < h.height && l != y && 0 <= x < h.width ==> decoded[l, x] == old(decoded[l, x])
    ensures Fits(h, |input|) ==> ok && forall x :: 0 <= x < h.width ==> decoded[y, x] == ShownPixel(input, h, y, x)
  {
    hide Fits, Row, PixelAt;
    var sourceY := y;
    if !h.topDown {
      sourceY := h.height - 1 - y;
    }
    var rowOffset := h.pixelOffset + sourceY * h.rowStride;
    for x := 0 to h.width
      invariant forall l, c :: 0 <= l < h.height && l != y && 0 <= c < h.width ==> decoded[l, c] == old(decoded[l, c])
      invariant Fits(h, |input|) ==> forall c :: 0 <= c < x ==> decoded[y, c] == ShownPixel(input, h, y, c)
    {
      var pixel := ReadPixel(input, h, rowOffset, x, sourceY);
      if pixel == None {
        return false;
      }
      decoded[y, x] := pixel.value;
    }
    return true;
  }

  /** decodeBMP. On a header that fits its file the only possible failure is the
      allocation guard, and the image shows every stored pixel in its place. */
  method Decode(input: seq<byte>, h: BmpHeader) returns (error: Option<DecodeError>, decoded: array2<Pixel>)
    ensures fresh(decoded)
    ensures error == Some(UnsupportedLayout) <==> !SupportedLayout(h)
    ensures Fits(h, |input|) ==> error == if AllocationFits(h) then None else Some(AllocationOverflow)
    ensures Fits(h, |input|) && error.None? ==>
      && decoded.Length0 == h.height && decoded.Length1 == h.width
      && forall y, x :: 0 <= y < h.height && 0 <= x < h.width ==> decoded[y, x] == ShownPixel(input, h, y, x)
  {
    decoded := new Pixel[0, 0];
    if h.width <= 0 || h.height <= 0 || (h.bytesPerPixel != 3 && h.bytesPerPixel != 4) {
      return Some(UnsupportedLayout), decoded;
    }
    if !AllocationFits(h) {
      return Some(AllocationOverflow), decoded;
    }
    decoded := new Pixel[h.height, h.width];
    for outputY := 0 to h.height
      invariant fresh(decoded) && decoded.Length0 == h.height && decoded.Length1 == h.width
      invariant Fits(h, |input|) ==>
        forall y, x :: 0 <= y < outputY && 0 <= x < h.width ==> decoded[y, x] == ShownPixel(input, h, y, x)
    {
      var ok := DecodeLine(input, h, outputY, decoded);
      if !ok {
        return Some(TruncatedPixels), decoded;
      }
    }
    return None, decoded;
  }

  /** The allocation guard can only fire on a file larger than three quarters of the
      largest int, so every accepted file of a practical size decodes. */
  lemma AllocationFitsInPractice(h: BmpHeader, size: nat)
    requires Fits(h, size) && size <= MAX_INT64 / 4 * 3
    ensures AllocationFits(h)
  {
    Monotone(h.width * 3, h.rowStride, h.height);
    Commutes(h.rowStride, h.height);
    var w, n := h.width * 4, h.height;
    ThreeQuarters(h.width, n, size);
    DivisionBound(w, n, MAX_INT64);
  }

  lemma DivisionBound(w: nat, n: nat, limit: nat)
    requires w > 0 && w * n <= limit
    ensures n <= limit / w
  {
    var q := limit / w;
    assert limit == w * q + limit % w;
    if q < n {
      Product(q, n, w);
      assert false;
    }
  }

  lemma ThreeQuarters(width: nat, n: nat, size: nat)
    requires width * 3 * n <= size <= MAX_INT64 / 4 * 3
    ensures width * 4 * n <= MAX_INT64
  {
    var a := width * n;
    assert width * 3 * n == 3 * a && width * 4 * n == 4 * a;
  }

  // ----- the bottom-up file and its top-down twin -----

  /** The same picture stored top line first: height negated, every other header byte
      the same, stored rows in reverse order. */
  ghost predicate IsTopDownTwin(input: seq<byte>, h: BmpHeader, twin: seq<byte>)
    requires Fits(h, |input|)
  {
    && !h.topDown && |twin| == |input|
    && LE32(twin[22..26]) == 0x1_0000_0000 - h.height
    && twin[..22] == input[..22] && twin[26..h.pixelOffset] == input[26..h.pixelOffset]
    && forall y :: 0 <= y < h.height ==> Row(twin, h, y) == Row(input, h, h.height - 1 - y)
  }

  lemma SameHeaderSlice(input: seq<byte>, twin: seq<byte>, from: nat, to: nat, lo: nat, hi: nat)
    requires from <= lo <= hi <= to <= |input| && to <= |twin| && twin[from..to] == input[from..to]
    ensures twin[lo..hi] == input[lo..hi]
  {
    SliceOfSlice(twin, from, to, lo - from, hi - from);
    SliceOfSlice(input, from, to, lo - from, hi - from);
  }

  /** Both files are accepted, with headers that differ only in direction, and show the
      same picture. */
  lemma TwinShowsTheSamePicture(input: seq<byte>, h: BmpHeader, twin: seq<byte>)
    requires Inspected(input).Some? && Inspected(input).value.bmp == Some(h) && Fits(h, |input|)
    requires IsTopDownTwin(input, h, twin)
    ensures var top := h.(topDown := true);
      && Inspected(twin) == Some(Inspected(input).value.(bmp := Some(top))) && Fits(top, |twin|)
      && forall y, x :: 0 <= y < h.height && 0 <= x < h.width ==>
        ShownPixel(twin, top, y, x) == ShownPixel(input, h, y, x)
  {
    SameHeaderSlice(input, twin, 0, 22, 0, 2);
    SameHeaderSlice(input, twin, 0, 22, 10, 14);
    SameHeaderSlice(input, twin, 0, 22, 14, 18);
    SameHeaderSlice(input, twin, 0, 22, 18, 22);
    SameHeaderSlice(input, twin, 26, h.pixelOffset, 26, 28);
    SameHeaderSlice(input, twin, 26, h.pixelOffset, 28, 30);
    SameHeaderSlice(input, twin, 26, h.pixelOffset, 30, 34);
    var top := h.(topDown := true);
    forall y, x | 0 <= y < h.height && 0 <= x < h.width
      ensures ShownPixel(twin, top, y, x) == ShownPixel(input, h, y, x)
    {
      assert Row(twin, top, y) == Row(twin, h, y) == Row(input, h, SourceRow(h, y));
    }
  }
}
