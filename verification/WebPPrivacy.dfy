/** What the metadata stripper promises, in literal bytes: which files it accepts, which
    chunks survive, and how each survivor is written. */
module WebPPrivacy {
  import opened Basics
  import opened WebPContainer

  // ----- the layout of an accepted container -----

  /** One chunk as it may be written: the pad byte after an odd payload is arbitrary. */
  function WrittenChunk(c: Chunk, pad: byte): (s: seq<byte>) {
    var n := |c.payload|;
    c.kind + FourBytes(n) + c.payload + if n % 2 == 1 then [pad] else []
  }

  function Written(chunks: seq<Chunk>, pads: seq<byte>): (s: seq<byte>)
    requires |pads| == |chunks|
  {
    if chunks == [] then [] else WrittenChunk(chunks[0], pads[0]) + Written(chunks[1..], pads[1..])
  }

  ghost predicate IsWritten(s: seq<byte>, chunks: seq<Chunk>, pads: seq<byte>) {
    |pads| == |chunks| && s == Written(chunks, pads)
  }

  /** "RIFF", the size of what follows it, "WEBP", and the chunks. */
  ghost predicate IsFile(input: seq<byte>, chunks: seq<Chunk>, pads: seq<byte>) {
    && |input| >= 12 && |input| - 8 <= MAX_UINT32
    && input[..4] == [0x52, 0x49, 0x46, 0x46]
    && input[4..8] == FourBytes(|input| - 8)
    && input[8..12] == [0x57, 0x45, 0x42, 0x50]
    && IsWritten(input[12..], chunks, pads)
  }

  /** The four parts of a written chunk. */
  lemma PartsOf(a: seq<byte>, b: seq<byte>, c: seq<byte>, d: seq<byte>, e: seq<byte>)
    requires |a| == 4 && |b| == 4
    ensures var s := a + b + c + d + e;
      && s[0..4] == a && s[4..8] == b && s[8..8 + |c|] == c
      && s[8 + |c|..8 + |c| + |d|] == d && s[8 + |c| + |d|..|s|] == e
  {
  }

  function Tail(n: nat, pad: byte): (s: seq<byte>)
    ensures |s| == n % 2
  {
    if n % 2 == 1 then [pad] else []
  }

  lemma ChunkParts(c: Chunk, pad: byte)
    ensures WrittenChunk(c, pad) == c.kind + FourBytes(|c.payload|) + c.payload + Tail(|c.payload|, pad)
  {
  }

  lemma TailIs(input: seq<byte>, at: nat, n: nat, pad: byte)
    requires at + n % 2 <= |input|
    ensures input[at..at + n % 2] == Tail(n, pad) <==> (n % 2 == 1 ==> input[at] == pad)
  {
  }

  /** A written chunk is found at its offset. */
  lemma WrittenIsFound(input: seq<byte>, offset: nat, c: Chunk, pad: byte, later: seq<byte>)
    requires |c.kind| == 4 && |c.payload| <= MAX_UINT32 && offset <= |input|
    requires input[offset..] == WrittenChunk(c, pad) + later
    ensures
      var n := |c.payload|;
      var next := offset + 8 + n + n % 2;
      next <= |input| && ChunkAtIs(input, offset, c) && input[next..] == later
  {
    hide WrittenChunk, LE32, FourBytes, Tail;
    var n, s := |c.payload|, input[offset..];
    var tail := Tail(n, pad);
    ChunkParts(c, pad);
    PartsOf(c.kind, FourBytes(n), c.payload, tail, later);
    SliceOfSuffix(input, offset, s, 0, 4);
    SliceOfSuffix(input, offset, s, 4, 8);
    SliceOfSuffix(input, offset, s, 8, 8 + n);
    SliceOfSuffix(input, offset, s, 8 + n + n % 2, |s|);
    WordIsItsBytes(input[offset + 4..offset + 8], n);
  }

  /** A chunk found at an offset is written there, with the pad byte that follows it. */
  lemma FoundIsWritten(input: seq<byte>, offset: nat, c: Chunk, pad: byte, next: nat)
    requires |c.kind| == 4 && |c.payload| <= MAX_UINT32
    requires next == offset + 8 + |c.payload| + |c.payload| % 2 <= |input|
    requires ChunkAtIs(input, offset, c) && (|c.payload| % 2 == 1 ==> input[next - 1] == pad)
    ensures input[offset..] == WrittenChunk(c, pad) + input[next..]
  {
    hide WrittenChunk, LE32, FourBytes, Tail;
    var n := |c.payload|;
    ChunkParts(c, pad);
    WordIsItsBytes(input[offset + 4..offset + 8], n);
    TailIs(input, offset + 8 + n, n, pad);
    assert input[offset..] == input[offset..offset + 4] + input[offset + 4..offset + 8]
        + input[offset + 8..offset + 8 + n] + input[offset + 8 + n..next] + input[next..];
  }

  /** The chunk stands at this offset. */
  ghost predicate ChunkAtIs(input: seq<byte>, offset: nat, c: Chunk)
    requires offset + 8 + |c.payload| <= |input|
  {
    && input[offset..offset + 4] == c.kind
    && LE32(input[offset + 4..offset + 8]) == |c.payload|
    && input[offset + 8..offset + 8 + |c.payload|] == c.payload
  }

  lemma {:induction false} WrittenIsParsed(input: seq<byte>, offset: nat, chunks: seq<Chunk>, pads: seq<byte>)
    requires Printable(chunks) && offset <= |input| && IsWritten(input[offset..], chunks, pads)
    ensures ChunkList(input, offset, |input|) == Some(chunks)
    decreases chunks
  {
    if chunks == [] {
      assert |input[offset..]| == 0;
    } else {
      var c := chunks[0];
      assert c in chunks;
      var n := |c.payload|;
      var next := offset + 8 + n + n % 2;
      assert Written(chunks, pads) == WrittenChunk(c, pads[0]) + Written(chunks[1..], pads[1..]);
      hide LE32, ChunkList, WrittenChunk, Written;
      WrittenIsFound(input, offset, c, pads[0], Written(chunks[1..], pads[1..]));
      ListFrom(input, offset, c, next);
      WrittenIsParsed(input, next, chunks[1..], pads[1..]);
      assert [c] + chunks[1..] == chunks;
    }
  }

  lemma {:induction false} ParsedIsWritten(input: seq<byte>, offset: nat) returns (pads: seq<byte>)
    requires offset <= |input| && ChunkList(input, offset, |input|).Some?
    ensures IsWritten(input[offset..], ChunkList(input, offset, |input|).value, pads)
    decreases |input| - offset
  {
    var r := ChunkList(input, offset, |input|);
    if offset == |input| {
      pads := [];
    } else {
      assert offset + 8 <= |input|;
      var n := LE32(input[offset + 4..offset + 8]);
      var next := offset + 8 + n + n % 2;
      hide LE32, ChunkList, WrittenChunk;
      ChunkStep(input, offset, |input|, n, next);
      var c, rest := ChunkAt(input, offset, n), ChunkList(input, next, |input|);
      var later := ParsedIsWritten(input, next);
      var pad: byte := if n % 2 == 1 then input[next - 1] else 0;
      pads := [pad] + later;
      FoundIsWritten(input, offset, c, pad, next);
      assert r.value == [c] + rest.value && r.value[1..] == rest.value && pads[1..] == later;
    }
  }

  /** A container is accepted exactly when it has this layout with at least one chunk, and
      its chunks are then those written. */
  lemma AcceptedIffWritten(input: seq<byte>) returns (pads: seq<byte>)
    ensures Parsed(input).Some? ==>
      Parsed(input).value != [] && Printable(Parsed(input).value) && IsFile(input, Parsed(input).value, pads)
    ensures forall chunks, pads: seq<byte> :: chunks != [] && Printable(chunks) && IsFile(input, chunks, pads) ==>
      Parsed(input) == Some(chunks)
  {
    pads := [];
    hide LE32, ChunkList, IsWritten, Printable;
    if Parsed(input).Some? {
      pads := ParsedIsWritten(input, 12);
      ParsedIsPrintable(input);
      WordIsItsBytes(input[4..8], |input| - 8);
    }
    forall chunks, pads: seq<byte> | chunks != [] && Printable(chunks) && IsFile(input, chunks, pads)
      ensures Parsed(input) == Some(chunks)
    {
      WrittenIsParsed(input, 12, chunks, pads);
      WordIsItsBytes(input[4..8], |input| - 8);
    }
  }

  // ----- what survives -----

  /** "VP8X", "VP8 ", "VP8L", "ALPH", "ANIM" and "ANMF". */
  predicate SixKinds(kind: seq<byte>) {
    kind in {[0x56, 0x50, 0x38, 0x58], [0x56, 0x50, 0x38, 0x20], [0x56, 0x50, 0x38, 0x4C],
             [0x41, 0x4C, 0x50, 0x48], [0x41, 0x4E, 0x49, 0x4D], [0x41, 0x4E, 0x4D, 0x46]}
  }

  /** A survivor is written as it was, except for the flag byte of "VP8X", of which only
      the alpha bit and the animation bit remain. */
  ghost predicate Survives(after: Chunk, before: Chunk) {
    && after.kind == before.kind && |after.payload| == |before.payload|
    && (before.kind != [0x56, 0x50, 0x38, 0x58] ==> after.payload == before.payload)
    && (before.kind == [0x56, 0x50, 0x38, 0x58] ==>
        && |after.payload| == 10 && after.payload[1..] == before.payload[1..]
        && after.payload[0] as bv8 == before.payload[0] as bv8 & 0x12)
  }

  lemma SixKindsAreStructural(kind: seq<byte>)
    ensures IsStructural(kind) <==> SixKinds(kind)
  {
  }

  /** Neither "EXIF" nor "XMP " nor "ICCP" is one of the six. */
  lemma MetadataIsNotStructural()
    ensures !SixKinds([0x45, 0x58, 0x49, 0x46]) && !SixKinds([0x58, 0x4D, 0x50, 0x20])
    ensures !SixKinds([0x49, 0x43, 0x43, 0x50])
  {
    assert forall kind :: SixKinds(kind) ==> kind[0] == 0x56 || kind[1] == 0x4C || kind[1] == 0x4E;
  }

  lemma StandsForSurvives(after: Chunk, before: Chunk)
    requires StandsFor(after, before) && AcceptableVP8X(before)
    ensures Survives(after, before)
  {
  }

  /** Position j of the input survives exactly when its kind is one of the six literal
      ones; the survivors keep their order, and nothing else is in the output. In
      particular no chunk of the output is "EXIF", "XMP " or "ICCP". */
  lemma OnlyTheSixKindsSurvive(input: seq<byte>)
    returns (before: seq<Chunk>, positions: seq<nat>, after: seq<Chunk>)
    requires Stripped(input).Some?
    ensures Parsed(input) == Some(before) && Parsed(Stripped(input).value) == Some(after)
    ensures forall c :: c in after ==>
      && SixKinds(c.kind) && c.kind != [0x45, 0x58, 0x49, 0x46]
      && c.kind != [0x58, 0x4D, 0x50, 0x20] && c.kind != [0x49, 0x43, 0x43, 0x50]
    ensures |positions| == |after| && forall i, j :: 0 <= i < j < |positions| ==> positions[i] < positions[j]
    ensures forall j: nat :: j in positions <==> j < |before| && SixKinds(before[j].kind)
    ensures forall i :: 0 <= i < |after| ==> positions[i] < |before| && Survives(after[i], before[positions[i]])
  {
    hide Parsed, Stripped, Kept, Origins, IsStructural, SixKinds, StandsFor, Survives;
    StrippedReparses(input);
    MetadataIsNotStructural();
    before, after := Parsed(input).value, Kept(Parsed(input).value);
    positions := Origins(before);
    KeptChunksAreTheStructuralOnes(before);
    forall kind: seq<byte>
      ensures IsStructural(kind) <==> SixKinds(kind)
    {
      SixKindsAreStructural(kind);
    }
    forall i | 0 <= i < |after|
      ensures positions[i] < |before| && Survives(after[i], before[positions[i]])
    {
      StandsForSurvives(after[i], before[positions[i]]);
    }
  }

  /** The bytes the chunks of the six kinds take, headers and pad bytes included. */
  function SurvivingSize(chunks: seq<Chunk>): (n: nat) {
    if chunks == [] then 0
    else
      var c := chunks[0];
      (if SixKinds(c.kind) then 8 + |c.payload| + |c.payload| % 2 else 0) + SurvivingSize(chunks[1..])
  }

  lemma {:induction false} KeptSizeIsSurvivingSize(chunks: seq<Chunk>)
    requires Acceptable(chunks) && Printable(chunks)
    ensures |Print(Kept(chunks))| == SurvivingSize(chunks)
    ensures Kept(chunks) == [] <==> forall c :: c in chunks ==> !SixKinds(c.kind)
  {
    if chunks != [] {
      hide IsStructural, SixKinds, PrintChunk, MaskChunk;
      var c := chunks[0];
      SixKindsAreStructural(c.kind);
      KeptSizeIsSurvivingSize(chunks[1..]);
      assert forall c :: c in chunks <==> c == chunks[0] || c in chunks[1..];
      if IsStructural(c.kind) {
        PrintedInFront(MaskChunk(c), Kept(chunks[1..]));
      }
    }
  }

  /** Stripping succeeds exactly for a container with one of the six kinds, whose "VP8X"
      chunks have ten bytes, the second to the fourth zero, and whose result stays
      within the 32-bit size. */
  lemma StripSucceedsIff(input: seq<byte>)
    ensures Stripped(input).Some? <==>
      && Parsed(input).Some?
      && (exists c :: c in Parsed(input).value && SixKinds(c.kind))
      && (forall c :: c in Parsed(input).value && c.kind == [0x56, 0x50, 0x38, 0x58] ==>
          |c.payload| == 10 && c.payload[1..4] == [0, 0, 0])
      && 12 + SurvivingSize(Parsed(input).value) <= 0xFFFF_FFFF
  {
    hide Parsed, Kept, IsStructural, SixKinds, Print, Printable, SurvivingSize;
    if Parsed(input).Some? {
      var chunks := Parsed(input).value;
      ParsedIsPrintable(input);
      if Acceptable(chunks) {
        KeptSizeIsSurvivingSize(chunks);
      }
    }
  }
}
