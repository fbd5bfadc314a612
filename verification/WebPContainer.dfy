/** The RIFF container of a WebP file (RFC 9649, sections 2.3 to 2.7): the strict
    parser, the metadata-stripping printer, and what one does to the other. */
module WebPContainer {
  import opened Basics

  datatype Chunk = Chunk(kind: seq<byte>, payload: seq<byte>)

  const RIFF: seq<byte> := [0x52, 0x49, 0x46, 0x46]
  const WEBP: seq<byte> := [0x57, 0x45, 0x42, 0x50]
  const VP8X: seq<byte> := [0x56, 0x50, 0x38, 0x58]
  const VP8_: seq<byte> := [0x56, 0x50, 0x38, 0x20]
  const VP8L: seq<byte> := [0x56, 0x50, 0x38, 0x4C]
  const ALPH: seq<byte> := [0x41, 0x4C, 0x50, 0x48]
  const ANIM: seq<byte> := [0x41, 0x4E, 0x49, 0x4D]
  const ANMF: seq<byte> := [0x41, 0x4E, 0x4D, 0x46]

  const RIFF_HEADER_SIZE := 12
  const CHUNK_HEADER_SIZE := 8

  /** The chunk grammar on input[offset..end]: a kind, a size, the payload, and one pad
      byte after an odd payload, until the end is reached exactly. */
  function ChunkList(input: seq<byte>, offset: nat, end: nat): (r: Option<seq<Chunk>>)
    requires offset <= end <= |input|
    decreases end - offset
  {
    if offset == end then Some([])
    else if offset > end - CHUNK_HEADER_SIZE then None
    else
      var size := LE32(input[offset + 4..offset + 8]);
      var payload := offset + CHUNK_HEADER_SIZE;
      if size > end - payload || (size % 2 == 1 && size == end - payload) then None
      else
        Prepend([Chunk(input[offset..offset + 4], input[payload..payload + size])],
                ChunkList(input, payload + size + size % 2, end))
  }

  function Prepend(done: seq<Chunk>, r: Option<seq<Chunk>>): (p: Option<seq<Chunk>>) {
    if r == None then None else Some(done + r.value)
  }

  /** The whole strict container: exact RIFF size and at least one chunk. */
  function Parsed(input: seq<byte>): (r: Option<seq<Chunk>>) {
    if |input| < RIFF_HEADER_SIZE || input[..4] != RIFF || input[8..12] != WEBP
       || LE32(input[4..8]) < 4 || LE32(input[4..8]) != |input| - 8
    then None
    else
      var chunks := ChunkList(input, RIFF_HEADER_SIZE, |input|);
      if chunks == Some([]) then None else chunks
  }

  function PrintChunk(c: Chunk): (s: seq<byte>)
    requires |c.kind| == 4 && |c.payload| <= MAX_UINT32
    ensures |s| == 8 + |c.payload| + |c.payload| % 2
  {
    c.kind + PutLE32(|c.payload|) + c.payload + if |c.payload| % 2 == 0 then [] else [0]
  }

  ghost predicate Printable(chunks: seq<Chunk>) {
    forall c :: c in chunks ==> |c.kind| == 4 && |c.payload| <= MAX_UINT32
  }

  ghost function Print(chunks: seq<Chunk>): (s: seq<byte>)
    requires Printable(chunks)
    ensures |s| >= 8 * |chunks|
  {
    if chunks == [] then [] else PrintChunk(chunks[0]) + Print(chunks[1..])
  }

  ghost function Container(chunks: seq<Chunk>): (s: seq<byte>)
    requires Printable(chunks) && 4 + |Print(chunks)| <= MAX_UINT32
  {
    RIFF + PutLE32(4 + |Print(chunks)|) + WEBP + Print(chunks)
  }

  predicate IsStructural(kind: seq<byte>) {
    kind == VP8X || kind == VP8_ || kind == VP8L || kind == ALPH || kind == ANIM || kind == ANMF
  }

  /** `flags & 0x12`: only the alpha bit and the animation bit survive. */
  function MaskFlags(flags: byte): (r: byte)
    ensures r / 2 % 2 == flags / 2 % 2 && r / 16 % 2 == flags / 16 % 2
    ensures r in {0x00, 0x02, 0x10, 0x12}
  {
    2 * (flags / 2 % 2) + 16 * (flags / 16 % 2)
  }

  predicate AcceptableVP8X(c: Chunk) {
    c.kind == VP8X ==> |c.payload| == 10 && c.payload[1] == 0 && c.payload[2] == 0 && c.payload[3] == 0
  }

  function MaskChunk(c: Chunk): (r: Chunk)
    requires AcceptableVP8X(c)
    ensures r.kind == c.kind && |r.payload| == |c.payload|
    ensures c.kind != VP8X ==> r == c
    ensures c.kind == VP8X ==> r.payload[1..] == c.payload[1..] && r.payload[0] == MaskFlags(c.payload[0])
  {
    if c.kind == VP8X then Chunk(c.kind, [MaskFlags(c.payload[0])] + c.payload[1..]) else c
  }

  ghost predicate Acceptable(chunks: seq<Chunk>) {
    forall c :: c in chunks ==> AcceptableVP8X(c)
  }

  /** The structural chunks in order, VP8X flags masked. */
  ghost function Kept(chunks: seq<Chunk>): (r: seq<Chunk>)
    requires Acceptable(chunks)
    ensures Printable(chunks) ==> Printable(r)
  {
    if chunks == [] then []
    else if IsStructural(chunks[0].kind) then [MaskChunk(chunks[0])] + Kept(chunks[1..])
    else Kept(chunks[1..])
  }

  /** What stripping computes: fails on a bad container, a bad VP8X, nothing
      structural, or a result beyond the 32-bit RIFF size. */
  ghost function Stripped(input: seq<byte>): (r: Option<seq<byte>>) {
    match Parsed(input)
    case None => None
    case Some(chunks) =>
      ParsedIsPrintable(input);
      if !Acceptable(chunks) || Kept(chunks) == [] || 12 + |Print(Kept(chunks))| > MAX_UINT32 then None
      else Some(Container(Kept(chunks)))
  }

  // ----- what the grammar gives -----

  /** The chunk whose header is at this offset. */
  function ChunkAt(input: seq<byte>, offset: nat, size: nat): (c: Chunk)
    requires offset + 8 + size <= |input|
    ensures |c.kind| == 4 && |c.payload| == size
  {
    Chunk(input[offset..offset + 4], input[offset + 8..offset + 8 + size])
  }

  /** One unfolding of the grammar, its arithmetic done. */
  lemma ChunkStep(input: seq<byte>, offset: nat, end: nat, size: nat, next: nat)
    requires offset + 8 <= end <= |input| && size == LE32(input[offset + 4..offset + 8])
    requires next == offset + 8 + size + size % 2
    ensures ChunkList(input, offset, end) ==
      if next > end then None else Prepend([ChunkAt(input, offset, size)], ChunkList(input, next, end))
  {
    hide LE32;
  }

  lemma ShortList(input: seq<byte>, offset: nat, end: nat)
    requires offset < end <= |input| && offset + 8 > end
    ensures ChunkList(input, offset, end) == None
  {
  }

  lemma PrintedInFront(c: Chunk, rest: seq<Chunk>)
    requires |c.kind| == 4 && |c.payload| <= MAX_UINT32 && Printable(rest)
    ensures Printable([c] + rest) && Print([c] + rest) == PrintChunk(c) + Print(rest)
  {
    assert ([c] + rest)[1..] == rest;
  }

  /** The list prints in exactly this many bytes. */
  ghost predicate PrintsIn(r: Option<seq<Chunk>>, n: int) {
    r.Some? ==> Printable(r.value) && |Print(r.value)| == n
  }

  lemma PrependPrintsIn(c: Chunk, rest: Option<seq<Chunk>>, n: int)
    requires |c.kind| == 4 && |c.payload| <= MAX_UINT32 && PrintsIn(rest, n)
    ensures PrintsIn(Prepend([c], rest), 8 + |c.payload| + |c.payload| % 2 + n)
  {
    hide PrintChunk;
    if rest.Some? {
      PrintedInFront(c, rest.value);
    }
  }

  lemma NothingPrintsIn(n: int)
    ensures PrintsIn(Some([]), 0) && PrintsIn(None, n)
  {
  }

  lemma StepPrintsIn(input: seq<byte>, offset: nat, end: nat, size: nat, next: nat)
    requires offset + 8 <= end <= |input| && size == LE32(input[offset + 4..offset + 8])
    requires next == offset + 8 + size + size % 2
    requires next <= end ==> PrintsIn(ChunkList(input, next, end), end - next)
    ensures PrintsIn(ChunkList(input, offset, end), end - offset)
  {
    hide ChunkList, LE32, Prepend, ChunkAt, PrintsIn;
    NothingPrintsIn(end - offset);
    ChunkStep(input, offset, end, size, next);
    if next <= end {
      PrependPrintsIn(ChunkAt(input, offset, size), ChunkList(input, next, end), end - next);
    }
  }

  lemma {:induction false} ListPrintsIn(input: seq<byte>, offset: nat, end: nat)
    requires offset <= end <= |input|
    ensures PrintsIn(ChunkList(input, offset, end), end - offset)
    decreases end - offset
  {
    if offset + 8 <= end {
      hide ChunkList, LE32, PrintsIn;
      var size := LE32(input[offset + 4..offset + 8]);
      var next := offset + 8 + size + size % 2;
      if next <= end {
        ListPrintsIn(input, next, end);
      }
      StepPrintsIn(input, offset, end, size, next);
    } else {
      NothingPrintsIn(end - offset);
      if offset < end {
        ShortList(input, offset, end);
      }
    }
  }

  lemma ChunkListIsPrintable(input: seq<byte>, offset: nat, end: nat)
    requires offset <= end <= |input|
    ensures var r := ChunkList(input, offset, end);
      r.Some? ==> Printable(r.value) && |Print(r.value)| == end - offset
  {
    hide ChunkList;
    ListPrintsIn(input, offset, end);
  }

  lemma ParsedIsPrintable(input: seq<byte>)
    ensures Parsed(input).Some? ==> Printable(Parsed(input).value) && 12 + |Print(Parsed(input).value)| == |input|
  {
    if |input| >= 12 {
      ChunkListIsPrintable(input, 12, |input|);
    }
  }

  lemma FieldSlices(a: seq<byte>, b: seq<byte>, c: seq<byte>, d: seq<byte>)
    requires |a| == 4 && |b| == 4
    ensures var s := a + b + c + d;
      s[..4] == a && s[4..8] == b && s[8..8 + |c|] == c && s[8 + |c|..] == d
  {
  }

  lemma SliceOfSuffix(input: seq<byte>, offset: nat, s: seq<byte>, lo: nat, hi: nat)
    requires offset <= |input| && input[offset..] == s && lo <= hi <= |s|
    ensures input[offset + lo..offset + hi] == s[lo..hi]
  {
    assert forall k :: lo <= k < hi ==> input[offset + k] == input[offset..][k];
  }

  /** The fields of one printed chunk, found again at its offset. */
  lemma PrintedFields(input: seq<byte>, offset: nat, c: Chunk, later: seq<byte>)
    requires |c.kind| == 4 && |c.payload| <= MAX_UINT32
    requires offset <= |input| && input[offset..] == PrintChunk(c) + later
    ensures var n := |c.payload|;
      && offset + 8 + n + n % 2 + |later| == |input|
      && input[offset..offset + 4] == c.kind && LE32(input[offset + 4..offset + 8]) == n
      && input[offset + 8..offset + 8 + n] == c.payload
      && input[offset + 8 + n + n % 2..] == later
  {
    var n, s := |c.payload|, PrintChunk(c) + later;
    var size := PutLE32(n);
    var pad: seq<byte> := if n % 2 == 0 then [] else [0];
    assert s == c.kind + size + c.payload + (pad + later);
    FieldSlices(c.kind, size, c.payload, pad + later);
    SliceOfSuffix(input, offset, s, 0, 4);
    SliceOfSuffix(input, offset, s, 4, 8);
    SliceOfSuffix(input, offset, s, 8, 8 + n);
    SliceOfSuffix(input, offset, s, 8 + n + |pad|, |s|);
    assert s[8 + n + |pad|..] == later;
  }

  /** A chunk whose fields are found at this offset heads the list there. */
  lemma ListFrom(input: seq<byte>, offset: nat, c: Chunk, next: nat)
    requires next == offset + 8 + |c.payload| + |c.payload| % 2 <= |input|
    requires LE32(input[offset + 4..offset + 8]) == |c.payload|
    requires input[offset..offset + 4] == c.kind && input[offset + 8..offset + 8 + |c.payload|] == c.payload
    ensures ChunkList(input, offset, |input|) == Prepend([c], ChunkList(input, next, |input|))
  {
    ChunkStep(input, offset, |input|, |c.payload|, next);
  }

  lemma {:induction false} ParseUndoesPrintChunks(input: seq<byte>, offset: nat, chunks: seq<Chunk>)
    requires Printable(chunks)
    requires offset <= |input| && input[offset..] == Print(chunks)
    ensures ChunkList(input, offset, |input|) == Some(chunks)
    decreases chunks
  {
    if chunks == [] {
      assert |input[offset..]| == 0;
    } else {
      var c := chunks[0];
      var next := offset + 8 + |c.payload| + |c.payload| % 2;
      assert Print(chunks) == PrintChunk(c) + Print(chunks[1..]);
      hide PrintChunk, LE32, ChunkList, Print;
      PrintedFields(input, offset, c, Print(chunks[1..]));
      ListFrom(input, offset, c, next);
      ParseUndoesPrintChunks(input, next, chunks[1..]);
      assert [c] + chunks[1..] == chunks;
    }
  }

  /** Parse undoes print, for every chunk list that fits a RIFF file. */
  lemma ParseUndoesPrint(chunks: seq<Chunk>)
    requires Printable(chunks) && chunks != [] && 4 + |Print(chunks)| <= MAX_UINT32
    ensures Parsed(Container(chunks)) == Some(chunks)
  {
    var s, size := Container(chunks), PutLE32(4 + |Print(chunks)|);
    FieldSlices(RIFF, size, WEBP, Print(chunks));
    ParseUndoesPrintChunks(s, 12, chunks);
  }

  lemma {:induction false} KeptFacts(chunks: seq<Chunk>)
    requires Acceptable(chunks) && Printable(chunks)
    ensures Acceptable(Kept(chunks)) && Kept(Kept(chunks)) == Kept(chunks)
    ensures forall c :: c in Kept(chunks) ==> IsStructural(c.kind)
    ensures |Print(Kept(chunks))| <= |Print(chunks)|
  {
    if chunks != [] {
      KeptFacts(chunks[1..]);
      if IsStructural(chunks[0].kind) {
        var first := MaskChunk(chunks[0]);
        assert Kept(chunks)[1..] == Kept(chunks[1..]);
        assert MaskChunk(first) == first;
      }
    }
  }

  // ----- main results -----

  /** The stripped file re-parses to exactly the kept chunks of the input. */
  lemma StrippedReparses(input: seq<byte>)
    requires Stripped(input).Some?
    ensures Parsed(input).Some? && Acceptable(Parsed(input).value)
    ensures Parsed(Stripped(input).value) == Some(Kept(Parsed(input).value))
    ensures forall c :: c in Kept(Parsed(input).value) ==> IsStructural(c.kind)
  {
    ParsedIsPrintable(input);
    KeptFacts(Parsed(input).value);
    ParseUndoesPrint(Kept(Parsed(input).value));
  }

  lemma StripIsIdempotent(input: seq<byte>)
    requires Stripped(input).Some?
    ensures Stripped(Stripped(input).value) == Stripped(input)
  {
    StrippedReparses(input);
    ParsedIsPrintable(input);
    KeptFacts(Parsed(input).value);
  }

  lemma StripNeverGrows(input: seq<byte>)
    requires Stripped(input).Some?
    ensures |Stripped(input).value| <= |input|
  {
    ParsedIsPrintable(input);
    KeptFacts(Parsed(input).value);
  }

  lemma MaskedPayloadByte(c: Chunk, k: nat)
    requires AcceptableVP8X(c) && k < |c.payload|
    ensures MaskChunk(c).payload[k] ==
      if k == 0 && c.kind == VP8X then MaskFlags(c.payload[0]) else c.payload[k]
  {
    if c.kind == VP8X && k > 0 {
      assert MaskChunk(c).payload[k] == MaskChunk(c).payload[1..][k - 1] == c.payload[1..][k - 1];
    }
  }

  ghost predicate StandsFor(kept: Chunk, c: Chunk) {
    && kept.kind == c.kind
    && |kept.payload| == |c.payload|
    && forall k :: 0 <= k < |c.payload| ==>
      kept.payload[k] == if k == 0 && c.kind == VP8X then MaskFlags(c.payload[0]) else c.payload[k]
  }

  lemma MaskedStandsFor(c: Chunk)
    requires AcceptableVP8X(c)
    ensures StandsFor(MaskChunk(c), c)
  {
    forall k | 0 <= k < |c.payload|
      ensures MaskChunk(c).payload[k] ==
        if k == 0 && c.kind == VP8X then MaskFlags(c.payload[0]) else c.payload[k]
    {
      MaskedPayloadByte(c, k);
    }
  }

  function Shift(positions: seq<nat>): (r: seq<nat>)
    ensures |r| == |positions| && forall i :: 0 <= i < |r| ==> r[i] == positions[i] + 1
  {
    seq(|positions|, i requires 0 <= i < |positions| => positions[i] + 1)
  }

  lemma ShiftedMembers(positions: seq<nat>)
    ensures forall j: nat :: j in positions <==> j + 1 in Shift(positions)
    ensures 0 !in Shift(positions)
  {
    forall j: nat | j in positions
      ensures j + 1 in Shift(positions)
    {
      var i :| 0 <= i < |positions| && positions[i] == j;
      assert Shift(positions)[i] == j + 1;
    }
  }

  /** The positions of the structural chunks. */
  function Origins(chunks: seq<Chunk>): (r: seq<nat>) {
    if chunks == [] then []
    else (if IsStructural(chunks[0].kind) then [0] else []) + Shift(Origins(chunks[1..]))
  }

  lemma OriginsUnfold(chunks: seq<Chunk>, j: nat)
    requires chunks != []
    ensures j in Origins(chunks) <==>
      if j == 0 then IsStructural(chunks[0].kind) else j - 1 in Origins(chunks[1..])
  {
    ShiftedMembers(Origins(chunks[1..]));
    assert j > 0 ==> (j - 1 in Origins(chunks[1..]) <==> (j - 1) + 1 in Shift(Origins(chunks[1..])));
  }

  lemma {:induction false} OriginsAreTheStructuralPositions(chunks: seq<Chunk>)
    ensures forall i, j :: 0 <= i < j < |Origins(chunks)| ==> Origins(chunks)[i] < Origins(chunks)[j]
    ensures forall j: nat :: j in Origins(chunks) <==> j < |chunks| && IsStructural(chunks[j].kind)
  {
    if chunks != [] {
      hide IsStructural;
      OriginsAreTheStructuralPositions(chunks[1..]);
      forall j: nat
        ensures j in Origins(chunks) <==> j < |chunks| && IsStructural(chunks[j].kind)
      {
        OriginsUnfold(chunks, j);
      }
    }
  }

  lemma {:induction false} KeptHasOneChunkPerOrigin(chunks: seq<Chunk>)
    requires Acceptable(chunks)
    ensures |Kept(chunks)| == |Origins(chunks)|
  {
    if chunks != [] {
      KeptHasOneChunkPerOrigin(chunks[1..]);
    }
  }

  /** The i-th kept chunk and its position, in terms of the chunks behind the first one. */
  lemma KeptUnfold(chunks: seq<Chunk>, i: nat)
    requires Acceptable(chunks) && chunks != [] && i < |Kept(chunks)| == |Origins(chunks)|
    ensures Acceptable(chunks[1..]) && AcceptableVP8X(chunks[0])
    ensures var first := if IsStructural(chunks[0].kind) then 1 else 0;
      if i < first then Kept(chunks)[i] == MaskChunk(chunks[0]) && Origins(chunks)[i] == 0
      else
        && i - first < |Kept(chunks[1..])| == |Origins(chunks[1..])|
        && Kept(chunks)[i] == Kept(chunks[1..])[i - first]
        && Origins(chunks)[i] == Origins(chunks[1..])[i - first] + 1
  {
    hide IsStructural, AcceptableVP8X, MaskChunk;
    KeptHasOneChunkPerOrigin(chunks[1..]);
  }

  lemma {:induction false} KeptChunkIsItsMaskedOrigin(chunks: seq<Chunk>, i: nat)
    requires Acceptable(chunks) && i < |Kept(chunks)| == |Origins(chunks)|
    ensures Origins(chunks)[i] < |chunks|
    ensures AcceptableVP8X(chunks[Origins(chunks)[i]])
    ensures Kept(chunks)[i] == MaskChunk(chunks[Origins(chunks)[i]])
  {
    assert chunks != [];
    hide IsStructural, AcceptableVP8X, MaskChunk, Acceptable, Kept, Origins;
    KeptUnfold(chunks, i);
    var first := if IsStructural(chunks[0].kind) then 1 else 0;
    if i >= first {
      KeptChunkIsItsMaskedOrigin(chunks[1..], i - first);
      assert chunks[1..][Origins(chunks[1..])[i - first]] == chunks[Origins(chunks)[i]];
    }
  }

  /** Every kept chunk stands for one structural input chunk, in input order, its payload
      byte for byte the same except the masked VP8X flag byte; and none is lost. */
  lemma KeptChunksAreTheStructuralOnes(chunks: seq<Chunk>)
    requires Acceptable(chunks)
    ensures |Kept(chunks)| == |Origins(chunks)|
    ensures forall i, j :: 0 <= i < j < |Origins(chunks)| ==> Origins(chunks)[i] < Origins(chunks)[j]
    ensures forall j: nat :: j in Origins(chunks) <==> j < |chunks| && IsStructural(chunks[j].kind)
    ensures forall i :: 0 <= i < |Kept(chunks)| ==>
      Origins(chunks)[i] < |chunks| && StandsFor(Kept(chunks)[i], chunks[Origins(chunks)[i]])
  {
    OriginsAreTheStructuralPositions(chunks);
    KeptHasOneChunkPerOrigin(chunks);
    forall i | 0 <= i < |Kept(chunks)|
      ensures Origins(chunks)[i] < |chunks| && StandsFor(Kept(chunks)[i], chunks[Origins(chunks)[i]])
    {
      KeptChunkIsItsMaskedOrigin(chunks, i);
      MaskedStandsFor(chunks[Origins(chunks)[i]]);
    }
  }

  // ----- the loops -----

  /** parseWebPContainer: the checks around one scan. */
  method Parse(input: seq<byte>) returns (r: Option<seq<Chunk>>)
    ensures r == Parsed(input)
  {
    hide ChunkList, LE32;
    if |input| < RIFF_HEADER_SIZE || input[..4] != RIFF || input[8..12] != WEBP {
      return None;
    }
    var riffSize := LE32(input[4..8]);
    if riffSize < 4 || riffSize > |input| - 8 || riffSize != |input| - 8 {
      return None;
    }
    r := ScanChunks(input);
    if r.Some? && |r.value| == 0 {
      return None;
    }
  }

  /** The loop of parseWebPContainer, which appends each chunk it passes. */
  method ScanChunks(input: seq<byte>) returns (r: Option<seq<Chunk>>)
    requires |input| >= RIFF_HEADER_SIZE
    ensures r == ChunkList(input, RIFF_HEADER_SIZE, |input|)
  {
    hide ChunkList, LE32, Prepend;
    var end := |input|;
    var chunks: seq<Chunk> := [];
    var offset := RIFF_HEADER_SIZE;
    PrependNothing(ChunkList(input, offset, end));
    while offset < end
      invariant 12 <= offset <= end
      invariant ChunkList(input, 12, end) == Prepend(chunks, ChunkList(input, offset, end))
    {
      PrependNone(chunks);
      if offset > end - CHUNK_HEADER_SIZE {
        ShortList(input, offset, end);
        return None;
      }
      ghost var before, start := chunks, offset;
      var kind := input[offset..offset + 4];
      var chunkSize := LE32(input[offset + 4..offset + 8]);
      ChunkStep(input, offset, end, chunkSize, offset + 8 + chunkSize + chunkSize % 2);
      offset := offset + CHUNK_HEADER_SIZE;
      if chunkSize > end - offset {
        return None;
      }
      var payloadEnd := offset + chunkSize;
      chunks := chunks + [Chunk(kind, input[offset..payloadEnd])];
      offset := payloadEnd;
      if chunkSize % 2 != 0 {
        if offset >= end {
          return None;
        }
        offset := offset + 1;
      }
      PrependTwice(before, ChunkAt(input, start, chunkSize), ChunkList(input, offset, end));
    }
    NothingLeft(input, end, chunks);
    return Some(chunks);
  }

  lemma PrependNone(before: seq<Chunk>)
    ensures Prepend(before, None) == None
  {
  }

  lemma NothingLeft(input: seq<byte>, end: nat, chunks: seq<Chunk>)
    requires end <= |input|
    ensures Prepend(chunks, ChunkList(input, end, end)) == Some(chunks)
  {
    assert chunks + [] == chunks;
  }

  lemma PrependNothing(r: Option<seq<Chunk>>)
    ensures Prepend([], r) == r
  {
    if r.Some? {
      assert [] + r.value == r.value;
    }
  }

  lemma PrependTwice(before: seq<Chunk>, c: Chunk, r: Option<seq<Chunk>>)
    ensures Prepend(before, Prepend([c], r)) == Prepend(before + [c], r)
  {
    if r.Some? {
      assert before + ([c] + r.value) == before + [c] + r.value;
    }
  }

  /** Go's copy into a preallocated buffer. */
  method CopyAt(output: array<byte>, at: nat, source: seq<byte>)
    requires at + |source| <= output.Length
    modifies output
    ensures output[..at + |source|] == old(output[..at]) + source
    ensures forall k :: at + |source| <= k < output.Length ==> output[k] == old(output[k])
  {
    forall k | 0 <= k < |source| {
      output[at + k] := source[k];
    }
  }

  ghost predicate ZeroFrom(output: array<byte>, at: nat)
    reads output
  {
    forall k :: at <= k < output.Length ==> output[k] == 0
  }

  /** The size of what is kept of the chunks from i on. */
  ghost function KeptSize(chunks: seq<Chunk>, i: nat): (n: nat)
    requires Printable(chunks) && i <= |chunks| && Acceptable(chunks[i..])
  {
    |Print(Kept(chunks[i..]))|
  }

  lemma SizeStep(chunks: seq<Chunk>, i: nat)
    requires Printable(chunks) && i < |chunks|
    ensures Acceptable(chunks[i..]) <==> AcceptableVP8X(chunks[i]) && Acceptable(chunks[i + 1..])
    ensures Acceptable(chunks[i..]) ==>
      KeptSize(chunks, i) ==
        (if IsStructural(chunks[i].kind) then 8 + |chunks[i].payload| + |chunks[i].payload| % 2 else 0)
          + KeptSize(chunks, i + 1)
  {
    hide IsStructural, AcceptableVP8X, MaskChunk, PrintChunk;
    var left := chunks[i..];
    assert left[0] == chunks[i] && left[1..] == chunks[i + 1..];
    assert forall c :: c in left <==> c == left[0] || c in left[1..];
    if Acceptable(left) && IsStructural(chunks[i].kind) {
      assert Kept(left)[1..] == Kept(left[1..]);
    }
  }

  lemma NotStructural(c: Chunk)
    requires !IsStructural(c.kind)
    ensures AcceptableVP8X(c)
  {
  }

  lemma NothingKept(chunks: seq<Chunk>)
    requires Printable(chunks)
    ensures chunks[0..] == chunks && Acceptable(chunks[|chunks|..]) && KeptSize(chunks, |chunks|) == 0
  {
    assert chunks[|chunks|..] == [];
  }

  lemma KeptIsEmpty(chunks: seq<Chunk>)
    requires Printable(chunks) && Acceptable(chunks)
    ensures Kept(chunks) == [] <==> |Print(Kept(chunks))| == 0
    ensures Kept(chunks) != [] ==> |Print(Kept(chunks))| >= 8
  {
  }

  /** The sizing pass of stripWebPMetadata. */
  method OutputSize(chunks: seq<Chunk>) returns (r: Option<nat>)
    requires Printable(chunks)
    ensures r.Some? <==>
      Acceptable(chunks) && Kept(chunks) != [] && 12 + |Print(Kept(chunks))| <= MAX_UINT32
    ensures r.Some? ==> r.value == 12 + |Print(Kept(chunks))|
  {
    var outputSize := RIFF_HEADER_SIZE;
    NothingKept(chunks);
    assert Acceptable(chunks) ==> KeptSize(chunks, 0) == |Print(Kept(chunks))|;
    if Acceptable(chunks) {
      KeptIsEmpty(chunks);
    }
    hide IsStructural, Acceptable, AcceptableVP8X, Kept, Print, KeptSize;
    for i := 0 to |chunks|
      invariant 12 <= outputSize <= MAX_UINT32
      invariant Acceptable(chunks) <==> Acceptable(chunks[i..])
      invariant Acceptable(chunks) ==> outputSize + KeptSize(chunks, i) == 12 + KeptSize(chunks, 0)
    {
      var chunk := chunks[i];
      SizeStep(chunks, i);
      if !IsStructural(chunk.kind) {
        NotStructural(chunk);
        continue;
      }
      var acceptable := AcceptsFlags(chunk);
      if !acceptable {
        return None;
      }
      var chunkSize := CHUNK_HEADER_SIZE + |chunk.payload|;
      if |chunk.payload| % 2 != 0 {
        chunkSize := chunkSize + 1;
      }
      if chunkSize > MAX_UINT32 {
        return None;
      }
      if outputSize > MAX_UINT32 - chunkSize {
        return None;
      }
      outputSize := outputSize + chunkSize;
    }
    if outputSize < RIFF_HEADER_SIZE + CHUNK_HEADER_SIZE || outputSize > MAX_INT64 {
      return None;
    }
    return Some(outputSize);
  }

  /** The check of a VP8X chunk in the sizing pass. */
  method AcceptsFlags(chunk: Chunk) returns (ok: bool)
    ensures ok <==> AcceptableVP8X(chunk)
  {
    if chunk.kind == VP8X {
      if |chunk.payload| != 10 || chunk.payload[1] != 0 || chunk.payload[2] != 0 || chunk.payload[3] != 0 {
        return false;
      }
    }
    return true;
  }

  /** Writes the payload of a kept chunk, the VP8X flags masked. */
  method WritePayload(output: array<byte>, at: nat, chunk: Chunk)
    requires AcceptableVP8X(chunk) && at + |chunk.payload| <= output.Length
    modifies output
    ensures output[..at + |chunk.payload|] == old(output[..at]) + MaskChunk(chunk).payload
    ensures forall k :: at + |chunk.payload| <= k < output.Length ==> output[k] == old(output[k])
  {
    if chunk.kind == VP8X {
      ghost var done := output[..at];
      output[at] := MaskFlags(chunk.payload[0]);
      assert output[..at + 1] == done + [MaskFlags(chunk.payload[0])];
      CopyAt(output, at + 1, chunk.payload[1..]);
      ConcatAssociates(done, [MaskFlags(chunk.payload[0])], chunk.payload[1..]);
    } else {
      CopyAt(output, at, chunk.payload);
    }
  }

  lemma ConcatAssociates(a: seq<byte>, b: seq<byte>, c: seq<byte>)
    ensures (a + b) + c == a + (b + c)
  {
  }

  /** Writes one kept chunk; the pad byte is the zero already in the buffer. */
  method WriteChunk(output: array<byte>, at: nat, chunk: Chunk) returns (next: nat)
    requires |chunk.kind| == 4 && |chunk.payload| <= MAX_UINT32 && AcceptableVP8X(chunk)
    requires at + |PrintChunk(MaskChunk(chunk))| <= output.Length
    requires ZeroFrom(output, at)
    modifies output
    ensures next == at + |PrintChunk(MaskChunk(chunk))|
    ensures output[..next] == old(output[..at]) + PrintChunk(MaskChunk(chunk))
    ensures ZeroFrom(output, next)
  {
    hide AcceptableVP8X, MaskChunk;
    ghost var done, kept := output[..at], MaskChunk(chunk);
    var size := PutLE32(|chunk.payload|);
    CopyAt(output, at, chunk.kind);
    CopyAt(output, at + 4, size);
    WritePayload(output, at + CHUNK_HEADER_SIZE, chunk);
    next := at + CHUNK_HEADER_SIZE + |chunk.payload|;
    ghost var pad: seq<byte> := if |chunk.payload| % 2 == 0 then [] else [0];
    ghost var unpadded := output[..next];
    if |chunk.payload| % 2 != 0 {
      next := next + 1;
    }
    assert output[..next] == unpadded + pad;
    Regroup(done, chunk.kind, size, kept.payload, pad);
  }

  lemma Regroup(a: seq<byte>, b: seq<byte>, c: seq<byte>, d: seq<byte>, e: seq<byte>)
    ensures a + b + c + d + e == a + (b + c + d + e)
  {
  }

  /** What is still to be printed once i chunks have been handled. */
  ghost function Remaining(chunks: seq<Chunk>, i: nat): (s: seq<byte>)
    requires Printable(chunks) && Acceptable(chunks) && i <= |chunks|
    ensures i == 0 ==> s == Print(Kept(chunks))
    ensures i == |chunks| ==> s == []
  {
    assert chunks[0..] == chunks;
    Print(Kept(chunks[i..]))
  }

  lemma RemainingStep(chunks: seq<Chunk>, i: nat)
    requires Printable(chunks) && Acceptable(chunks) && i < |chunks|
    ensures Remaining(chunks, i) ==
      (if IsStructural(chunks[i].kind) then PrintChunk(MaskChunk(chunks[i])) else []) + Remaining(chunks, i + 1)
  {
    var left := chunks[i..];
    assert left[0] == chunks[i] && left[1..] == chunks[i + 1..];
    if IsStructural(chunks[i].kind) {
      assert Kept(left)[1..] == Kept(left[1..]);
    }
  }

  /** The second loop of stripWebPMetadata: it ends exactly at the end of the buffer. */
  method WriteChunks(chunks: seq<Chunk>, output: array<byte>)
    requires Printable(chunks) && Acceptable(chunks)
    requires output.Length == 12 + |Remaining(chunks, 0)| && ZeroFrom(output, 12)
    modifies output
    ensures output[..] == old(output[..12]) + Remaining(chunks, 0)
  {
    hide Remaining, PrintChunk, MaskChunk, AcceptableVP8X;
    var offset := RIFF_HEADER_SIZE;
    ghost var goal := output[..12] + Remaining(chunks, 0);
    for i := 0 to |chunks|
      invariant 12 <= offset
      invariant offset + |Remaining(chunks, i)| == output.Length
      invariant output[..offset] + Remaining(chunks, i) == goal
      invariant ZeroFrom(output, offset)
    {
      var chunk := chunks[i];
      RemainingStep(chunks, i);
      ghost var done, later := output[..offset], Remaining(chunks, i + 1);
      if !IsStructural(chunk.kind) {
        assert [] + later == later;
        continue;
      }
      assert chunk in chunks;
      ConcatAssociates(done, PrintChunk(MaskChunk(chunk)), later);
      offset := WriteChunk(output, offset, chunk);
    }
    assert offset == output.Length;  // the source's final check cannot fail
    assert output[..offset] == output[..];
  }

  /** The writing pass of stripWebPMetadata: fills a zeroed buffer of the size the
      first pass computed. */
  method Write(chunks: seq<Chunk>, outputSize: nat) returns (output: array<byte>)
    requires Printable(chunks) && Acceptable(chunks)
    requires outputSize == 12 + |Print(Kept(chunks))| <= MAX_UINT32
    ensures fresh(output) && output[..] == Container(Kept(chunks))
  {
    hide Remaining, Kept, Print, Acceptable, Printable;
    output := new byte[outputSize](_ => 0);
    var size := PutLE32(outputSize - 8);
    CopyAt(output, 0, RIFF);
    CopyAt(output, 4, size);
    CopyAt(output, 8, WEBP);
    assert output[..12] == RIFF + size + WEBP;
    WriteChunks(chunks, output);
  }

  /** stripWebPMetadata. */
  method Strip(input: seq<byte>) returns (r: Option<seq<byte>>)
    ensures r == Stripped(input)
  {
    var parsed := Parse(input);
    if parsed == None {
      return None;
    }
    ParsedIsPrintable(input);
    var size := OutputSize(parsed.value);
    if size == None {
      return None;
    }
    var output := Write(parsed.value, size.value);
    return Some(output[..]);
  }
}
