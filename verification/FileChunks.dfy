/** Splitting a file into P2P chunks, validating them, and putting it back together. */
module FileChunks {
  import opened Basics

  const CHUNK_SIZE := 16384  // 16 * 1024
  const MAX_SAFE_INTEGER := 0x1F_FFFF_FFFF_FFFF

  predicate IsSafeInteger(n: int) { -MAX_SAFE_INTEGER <= n <= MAX_SAFE_INTEGER }

  /** Math.ceil(size / P2P_FILE_CHUNK_SIZE), at least one: getP2pFileChunkCount. */
  function ChunkCount(size: int): (n: int)
    ensures n >= 1 && size <= n * CHUNK_SIZE && (n == 1 || (n - 1) * CHUNK_SIZE < size)
  {
    Max(1, (size + CHUNK_SIZE - 1) / CHUNK_SIZE)
  }

  /** getExpectedP2pChunkBytes; -1 rejects. */
  function ExpectedBytes(size: int, index: int, total: int): (n: int)
    ensures n == -1 || 0 <= n <= CHUNK_SIZE
  {
    if !IsSafeInteger(size) || size < 0 || !IsSafeInteger(index) || !IsSafeInteger(total) then -1
    else if total != ChunkCount(size) || index < 0 || index >= total then -1
    else Max(0, Min(CHUNK_SIZE, size - index * CHUNK_SIZE))
  }

  datatype IncomingFile = IncomingFile(size: int, total: int, receivedBytes: int, chunks: seq<Option<seq<byte>>>)

  datatype ChunkEnvelope = ChunkEnvelope(index: int, total: int)

  datatype CompleteEnvelope = CompleteEnvelope(total: int, size: int)

  datatype Verdict = Valid | TotalMismatch | ChunkSizeMismatch | CompletionMismatch | BytesIncomplete | ChunksIncomplete

  /** validateP2pFileChunk. */
  function ValidateChunk(size: int, total: int, envelope: ChunkEnvelope, bytes: seq<byte>): (v: Verdict)
    ensures v == Valid <==> envelope.total == total && |bytes| == ExpectedBytes(size, envelope.index, total)
  {
    if envelope.total != total then TotalMismatch
    else
      var expected := ExpectedBytes(size, envelope.index, total);
      if expected < 0 || |bytes| != expected then ChunkSizeMismatch else Valid
  }

  /** chunks[index] of a JavaScript array: absent past the end. */
  function ChunkAt(chunks: seq<Option<seq<byte>>>, index: nat): Option<seq<byte>> {
    if index < |chunks| then chunks[index] else None
  }

  ghost predicate Complete(state: IncomingFile, n: nat) {
    forall i :: 0 <= i < n ==>
      ChunkAt(state.chunks, i).Some? && |ChunkAt(state.chunks, i).value| == ExpectedBytes(state.size, i, state.total)
  }

  /** validateP2pFileCompletion. */
  method ValidateCompletion(state: IncomingFile, envelope: CompleteEnvelope) returns (v: Verdict)
    ensures v == Valid <==>
      && envelope == CompleteEnvelope(state.total, state.size) && state.receivedBytes == state.size
      && Complete(state, Max(0, state.total))
  {
    if envelope.total != state.total || envelope.size != state.size {
      return CompletionMismatch;
    }
    if state.receivedBytes != state.size {
      return BytesIncomplete;
    }
    var index := 0;
    while index < state.total
      invariant 0 <= index <= Max(0, state.total)
      invariant Complete(state, index)
    {
      var chunk := ChunkAt(state.chunks, index);
      if chunk == None || |chunk.value| != ExpectedBytes(state.size, index, state.total) {
        return ChunksIncomplete;
      }
      index := index + 1;
    }
    return Valid;
  }

  /** The blob assembled from the first n chunks. */
  function Assemble(chunks: seq<Option<seq<byte>>>, n: nat): (s: seq<byte>) {
    if n == 0 then []
    else Assemble(chunks, n - 1) + match ChunkAt(chunks, n - 1) case None => [] case Some(bytes) => bytes
  }

  function ExpectedSum(size: int, total: int, n: nat): int {
    if n == 0 then 0 else ExpectedSum(size, total, n - 1) + ExpectedBytes(size, n - 1, total)
  }

  /** The slice the sender reads for a chunk. */
  function Slice(file: seq<byte>, index: nat): (s: seq<byte>)
    requires index < ChunkCount(|file|)
  {
    ChunkStart(|file|, index);
    file[index * CHUNK_SIZE..Min(|file|, (index + 1) * CHUNK_SIZE)]
  }

  lemma ChunkStart(size: nat, index: nat)
    requires index < ChunkCount(size)
    ensures index * CHUNK_SIZE <= size
  {
  }

  function Split(file: seq<byte>): (chunks: seq<Option<seq<byte>>>)
    ensures |chunks| == ChunkCount(|file|)
    ensures forall i :: 0 <= i < |chunks| ==> chunks[i] == Some(Slice(file, i))
  {
    seq(ChunkCount(|file|), i requires 0 <= i < ChunkCount(|file|) => Some(Slice(file, i)))
  }

  lemma {:induction false} PartialSum(size: nat, n: nat)
    requires IsSafeInteger(size) && n <= ChunkCount(size)
    ensures ExpectedSum(size, ChunkCount(size), n) == Min(size, n * CHUNK_SIZE)
  {
    if n > 0 {
      PartialSum(size, n - 1);
      ChunkStart(size, n - 1);
    }
  }

  /** Expected chunk sizes over all indices sum to the file size, zero included. */
  lemma ExpectedSizesSumToFileSize(size: nat)
    requires IsSafeInteger(size)
    ensures ExpectedSum(size, ChunkCount(size), ChunkCount(size)) == size
  {
    PartialSum(size, ChunkCount(size));
  }

  lemma SliceHasExpectedSize(file: seq<byte>, index: nat)
    requires IsSafeInteger(|file|) && index < ChunkCount(|file|)
    ensures |Slice(file, index)| == ExpectedBytes(|file|, index, ChunkCount(|file|))
  {
    ChunkStart(|file|, index);
  }

  lemma {:induction false} AssembledPrefix(file: seq<byte>, n: nat)
    requires n <= ChunkCount(|file|)
    ensures n * CHUNK_SIZE <= |file| || n == ChunkCount(|file|)
    ensures Assemble(Split(file), n) == file[..Min(|file|, n * CHUNK_SIZE)]
  {
    if n > 0 {
      AssembledPrefix(file, n - 1);
      ChunkStart(|file|, n - 1);
      var from, to := (n - 1) * CHUNK_SIZE, Min(|file|, n * CHUNK_SIZE);
      assert file[..to] == file[..from] + file[from..to];
    }
  }

  /** Split passes every check and assembles back to the very file. */
  lemma SplitThenAssemble(file: seq<byte>)
    requires IsSafeInteger(|file|)
    ensures var total := ChunkCount(|file|);
      && (forall i :: 0 <= i < total ==> ValidateChunk(|file|, total, ChunkEnvelope(i, total), Slice(file, i)) == Valid)
      && Complete(IncomingFile(|file|, total, |file|, Split(file)), total)
      && Assemble(Split(file), total) == file
  {
    forall i | 0 <= i < ChunkCount(|file|)
      ensures |Slice(file, i)| == ExpectedBytes(|file|, i, ChunkCount(|file|))
    {
      SliceHasExpectedSize(file, i);
    }
    AssembledPrefix(file, ChunkCount(|file|));
    assert file[..|file|] == file;
  }

  lemma {:induction false} AssembledLength(state: IncomingFile, n: nat)
    requires Complete(state, n)
    ensures |Assemble(state.chunks, n)| == ExpectedSum(state.size, state.total, n)
  {
    if n > 0 {
      AssembledLength(state, n - 1);
    }
  }

  /** A state the completion check accepts assembles to exactly `size` bytes if and only
      if it expected at least one chunk or no bytes: with a total of zero or less the
      check passes without looking at any chunk. */
  lemma AcceptedStateAssemblesToItsSize(state: IncomingFile)
    requires state.receivedBytes == state.size && Complete(state, Max(0, state.total))
    ensures |Assemble(state.chunks, Max(0, state.total))| == state.size <==> state.total >= 1 || state.size == 0
  {
    if state.total >= 1 {
      assert ExpectedBytes(state.size, 0, state.total) != -1;
      AssembledLength(state, state.total);
      ExpectedSizesSumToFileSize(state.size);
    }
  }

  /** The accepted state that is not the file it claims to be. */
  lemma EmptyTotalIsAcceptedUnchecked()
    ensures var state := IncomingFile(5, 0, 5, []);
      Complete(state, Max(0, state.total)) && |Assemble(state.chunks, Max(0, state.total))| != state.size
  {
    assert Assemble([], 0) == [];
  }

  /** isFileSize and isChunkTotal, which every accepted offer and completion passes, rule it out. */
  predicate OfferAccepted(size: int, total: int) {
    0 <= size <= 512 * 1024 * 1024 && total == ChunkCount(size)
  }

  lemma OfferedFilesAssembleToTheirSize(state: IncomingFile)
    requires OfferAccepted(state.size, state.total)
    requires state.receivedBytes == state.size && Complete(state, state.total)
    ensures |Assemble(state.chunks, state.total)| == state.size
  {
    AcceptedStateAssemblesToItsSize(state);
  }
}
