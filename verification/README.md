# Verified models of DualLane's core

This project models the parts of DualLane whose correctness rests on a loop, a protocol or
several functions working together, and proves what they promise. `dafny verify
dfyconfig.toml` checks all of it. Everything is a statement over every input, every run or
every reachable state; where a promise turned out false of the code, the exact condition is
proved instead, with a concrete input that breaks it.

| file | models |
|---|---|
| Rooms.dfy | the P2P room manager: every mutex-held section as a method of `Manager`, the whole operations built from them, and the free interleaving of sections with late timer callbacks |
| CloseBatch.dfy | the bounded pool that closes peers, the two-phase close around it, and concurrent callers of Close, as step models |
| WebPContainer.dfy, WebPInspect.dfy, Gif.dfy, Bmp.dfy, ImageHeaders.dfy | the WebP container parser and printer (sections 2.3 to 2.7 of RFC 9649), the WebP, GIF and BMP inspectors, the BMP decoder, saturating sums and validation |
| WebPPrivacy.dfy | which files the stripper accepts and which chunks survive, in literal bytes |
| WebPFiles.dfy, BmpFiles.dfy | independent writers of WebP and BMP files: what is written is what the inspectors report and the decoder shows |
| MessageWindow.dfy, MessageOrder.dfy, AuthoritativeWindow.dfy, RefreshBranch.dfy, LocalChanges.dfy, StaleResponses.dfy | merging the loaded message window with a server window and a request-time baseline |
| Reconciliation.dfy | the keyset pass over members whose cursor is committed page by page |
| AgentGateway.dfy | the agent SDK's event, acknowledgement and reconnect loop |
| MigrationDiscovery.dfy, MigrationRunner.dfy, ReleaseCompatibility.dfy, SchemaCheck.dfy | migration discovery, the transactional runner, the release policy and the checker's name verdict |
| TopicMerge.dfy | merging a topic's messages with a snapshot |
| Composer.dfy | the composer's blocks to tree to blocks round trip |
| FileChunks.dfy | P2P file chunk arithmetic and completion |
| Basics.dfy, Sequences.dfy, StringOrder.dfy | bytes and little-endian words, filter and map, the string order and sorting |

How the model relates to the code:

- Loops and objects that change state are methods and classes; each is proved against a
  function or against its old state, and the theorems are about those functions and about
  runs of the methods.
- A clock, a send, a socket, a timer, a database step, a callback or a random id is an
  arbitrary value: `*`, or a parameter the caller chooses. A stopped timer may still fire.
- Errors are values. A check of the code that can never fire is kept as an assertion or as a
  proved fact: the final offset check of the WebP writer and the runner's second out-of-order
  check.

What the proofs found about the code:

- `validateP2pFileCompletion` accepts a state whose total is zero or negative without looking
  at a chunk. It assembles to the promised size if and only if the total is at least one or
  the size is zero; offers and completion frames, as parsed, always give such a total.
- Applying one stale response twice equals applying it once, for every loaded window, if and
  only if its attachment lists are settled: where an id repeats inside one message, the later
  attachment carries the removal, status, permissions and properties of the first one with
  that id. Distinct ids are enough.
- If a WebSocket's `send` throws, its acknowledgement stays pending, orphaned, after its event
  task has ended. At most one is pending in every state of a run if and only if no turn starts
  an acknowledgement for a new sequence on an open socket while an orphaned one is pending.
- An empty room loses its cleanup timer exactly when a join finds it and no peer id can be
  allocated. A callback that was already due may still remove it, and a cleanup callback may
  run before the grace is over, so no minimum grace is claimed.
- A duration limit of the largest 64-bit integer is no limit, since a saturated sum passes it.
- A local recall or deletion is replaced if and only if the server sends that row without one
  and the sent row is adopted: the loaded row is still the object the request started from, or
  a server window arrives at an unchanged revision, and the response is not stale.

## Model

| member | source | states |
|---|---|---|
| Rooms.AnySchedule | apps/backend/internal/p2p/rooms.go:206-587 | After any number of mutex-held sections, late timer callbacks and close batches in any order and with any arguments, the room invariant holds (rooms within the limit, at most two members each, the join order duplicate-free and listing exactly the members, no cleanup timer beside a member, no rooms once closed) and the batches not yet closed are disjoint and hold exactly the owed peers; once none is left, each admitted peer is a member of a live room, or left exactly once, or was handed to exactly one close batch, and never two of these; every room object there from the start has kept its id and its expiry, and no member has moved to another room |
| Rooms.OneStep | apps/backend/internal/p2p/rooms.go:206-587 | One arbitrary step of that schedule keeps the invariant, never shortens either log, never moves a departed or closed peer nor a member to another room, never changes the expiry of a room object, and keeps the pending batches exact |
| Rooms.AnySection | apps/backend/internal/p2p/rooms.go:206-587 | Any one section or callback, chosen freely, returns exactly the peers it evicted: distinct, owed by nobody else, and now owed; every room object there before and after keeps its id, its expiry and its limit; and an empty room loses its cleanup timer if and only if the section is a join that found it and got no peer id |
| Rooms.PendingTaken | apps/backend/internal/p2p/rooms.go:595-608 | Closing one pending batch takes exactly its peers off the owed ones; the other batches stay disjoint and complete |
| Rooms.Manager.CreateSection | apps/backend/internal/p2p/rooms.go:206-260 | Expired rooms go and their members are the result; then room limit, the first free of at most eight candidate ids, or an allocation error; a new room is empty, for two, with its expiry timer armed, expires a TTL later and is the only one added; exactly the rooms whose expiry is ahead stay, unchanged |
| Rooms.Manager.AllocateRoomID | apps/backend/internal/p2p/rooms.go:223-239 | At most eight attempts; the first free candidate, none when a candidate fails first or all eight are taken |
| Rooms.FirstFreeIff | apps/backend/internal/p2p/rooms.go:223-239 | The candidate found is free and every earlier one was allocated and taken; and whenever there is such a candidate it is found |
| Rooms.Manager.StatusSection | apps/backend/internal/p2p/rooms.go:263-289 | Reports a live room that has not expired with its member count; only a prune changes the rooms |
| Rooms.Manager.JoinSection | apps/backend/internal/p2p/rooms.go:291-329 | Exactly when each of the four results comes about; field by field, an admitted peer is added last in the join order under its own id and the room loses its cleanup timer and keeps its identity, expiry and limit; an id allocation failure changes only that timer; every other room whose expiry is ahead stays unchanged and the rest go; the room limit of two is kept |
| Rooms.Manager.Admit | apps/backend/internal/p2p/rooms.go:304-327 | The admission proper, including the snapshot of the peers and of the members to notify, each once and without the joiner |
| Rooms.Manager.LeaveSection | apps/backend/internal/p2p/rooms.go:352-384 | Succeeds exactly for a member of an unexpired room; the member goes from the map and the join order and is logged once; a room left empty is removed at once or gets a cleanup timer, any other room keeps none; field by field nothing else of that room changes, and of the others exactly those whose expiry is ahead stay, unchanged |
| Rooms.Manager.RelaySection | apps/backend/internal/p2p/rooms.go:394-422 | The recipients are exactly the other members of the sender's unexpired room, each once; refused exactly when the sender is no such member |
| Rooms.Manager.BroadcastSection | apps/backend/internal/p2p/rooms.go:498-511 | The recipients are exactly the members but one, each once; without pruning |
| Rooms.Manager.ExpireSection | apps/backend/internal/p2p/rooms.go:523-537 | A timer callback, however late, removes the very room object it was armed for with all its members, or does nothing at all, also when the id has been reused |
| Rooms.Manager.CleanupCallback | apps/backend/internal/p2p/rooms.go:561-572 | A cleanup callback, however late, removes only the very room object it was armed for and only while that is empty |
| Rooms.Manager.CloseSection | apps/backend/internal/p2p/rooms.go:467-493 | Only the first caller takes the peers; it takes every member of every room and leaves no room |
| Rooms.Manager.PruneExpiredLocked | apps/backend/internal/p2p/rooms.go:539-551 | Exactly the rooms whose expiry is not ahead go, the others stay unchanged, and the result holds each member of the former once |
| Rooms.Manager.RemoveRoomLocked | apps/backend/internal/p2p/rooms.go:553-559 | Removes this very room object or nothing |
| Rooms.Manager.ClosePeers | apps/backend/internal/p2p/rooms.go:595-608 | A batch of owed peers is logged once, in order, as handed over |
| Rooms.Manager.Leave | apps/backend/internal/p2p/rooms.go:352-392 | Terminates under arbitrary send failures, with the member count of the room as the measure; afterwards the peer is not in the room, nobody was admitted, every evicted batch was handed over, on success the leaver is the first departure logged, and each departure of the call was announced once, in order |
| Rooms.Manager.Broadcast | apps/backend/internal/p2p/rooms.go:498-521 | The mutually recursive half: terminates and admits nobody; what is announced is its own peer-left message, if it is one, and then each departure of the nested calls once, in order |
| Rooms.NobodyIsAnnouncedTwice | apps/backend/internal/p2p/rooms.go:352-392 | Since departures are distinct, a log of announcements in step with them before such a call is in step and distinct after it |
| Rooms.Manager.Join | apps/backend/internal/p2p/rooms.go:291-350 | Every return path hands over what it pruned; exactly one peer is admitted when it succeeds or its first send fails, else none; after a failed send to the joiner the joiner is not in the room |
| Rooms.Manager.Relay | apps/backend/internal/p2p/rooms.go:394-438 | Every return path hands over what it pruned; failed recipients leave; nobody is admitted |
| Rooms.Manager.Create | apps/backend/internal/p2p/rooms.go:206-260 | Every return path hands over what it pruned; all rooms afterwards were there before, unchanged, except the one created, which is empty |
| Rooms.Manager.Expire | apps/backend/internal/p2p/rooms.go:523-537 | The members of an expired room are handed over; nobody is admitted |
| Rooms.Manager.Close | apps/backend/internal/p2p/rooms.go:467-496 | Afterwards there is no room and no admitted peer is a member of one; what was taken has been handed over |
| Rooms.RemovePeerOrder | apps/backend/internal/p2p/rooms.go:675-683 | Drops the first occurrence only and keeps the order of the rest |
| Rooms.WithoutFirstKeepsOrder | apps/backend/internal/p2p/rooms.go:675-683 | On a duplicate-free join order it removes exactly that id and stays duplicate-free |
| Rooms.WithoutFirstCutsOut | apps/backend/internal/p2p/rooms.go:675-683 | What stood before and behind the first occurrence is joined, in order |
| Rooms.PublicPeers | apps/backend/internal/p2p/rooms.go:665-673 | In a valid room, exactly the join order |
| CloseBatch.EachCallbackOnceAndDoneLast | apps/backend/internal/p2p/rooms.go:624-648 | In every interleaving of the starter and its workers, one for each job up to 32, no callback runs twice and none but the batch's own runs, done is closed at most once, and when it is closed every callback has run exactly once and returned |
| CloseBatch.EveryMaximalRunClosesDone | apps/backend/internal/p2p/rooms.go:624-648 | Every step uses up a bound, some step is enabled until every worker has exited, and then done has been closed exactly once; so every maximal run closes it |
| CloseBatch.CloseReturnsAfterTheGracefulBatch | apps/backend/internal/p2p/rooms.go:467-496 | With any number of concurrent callers of Close, closeDone is closed at most once, and when any caller, first or not, has returned, every member's graceful callback has run exactly once and returned |
| CloseBatch.EveryMaximalShutdownReturns | apps/backend/internal/p2p/rooms.go:467-496 | Every step of a shutdown uses up a bound; in a run that cannot go on, but for callers that never enter, every caller that entered has returned and closeDone has been closed exactly once |
| CloseBatch.StepKeepsInv | apps/backend/internal/p2p/rooms.go:624-648 | The pool invariant is kept by every step: each received job is being handled or returned exactly once, and the atomic counter is the jobs minus the returned ones plus those between callback and decrement |
| CloseBatch.ShutdownStepKeepsInv | apps/backend/internal/p2p/rooms.go:599-622 | At most one caller ever closes peers, and it passes the graceful wait only after done, directly or after the forced batch |
| WebPContainer.ParseUndoesPrint | apps/backend/internal/platform/media/webp_privacy.go:114-151 | The strict parser reads back exactly the chunks a printed container was made of, odd sizes padded (RFC 9649, sections 2.3 and 2.4) |
| WebPContainer.StrippedReparses | apps/backend/internal/platform/media/webp_privacy.go:43-112 | A stripped file is accepted again and its chunks are exactly the kept chunks of the input, all of them structural |
| WebPContainer.KeptChunksAreTheStructuralOnes | apps/backend/internal/platform/media/webp_privacy.go:43-75 | The kept chunks are the structural input chunks in order, none lost, each byte for byte the same except the VP8X flag byte, masked to alpha and animation |
| WebPContainer.StripIsIdempotent | apps/backend/internal/platform/media/webp_privacy.go:43-112 | Stripping a stripped file gives the same bytes |
| WebPContainer.StripNeverGrows | apps/backend/internal/platform/media/webp_privacy.go:43-112 | The output is never longer than the input |
| WebPContainer.Parse | apps/backend/internal/platform/media/webp_privacy.go:114-151 | The offset loop gives exactly the chunk list of the recursive reading, and the same rejections |
| WebPContainer.ScanChunks | apps/backend/internal/platform/media/webp_privacy.go:124-150 | The scanning loop gives exactly the chunk list of the grammar, or fails with it |
| WebPContainer.OutputSize | apps/backend/internal/platform/media/webp_privacy.go:49-77 | The sizing pass gives exactly the length the writing pass needs, or rejects |
| WebPContainer.WriteChunks | apps/backend/internal/platform/media/webp_privacy.go:82-111 | The writing pass fills the sized buffer exactly, so the final offset check cannot fail |
| WebPContainer.Strip | apps/backend/internal/platform/media/webp_privacy.go:43-112 | Both passes together give exactly the stripped container, and fail exactly when the reference does |
| WebPPrivacy.OnlyTheSixKindsSurvive | apps/backend/internal/platform/media/webp_privacy.go:23-111 | A chunk of the input survives if and only if its kind is VP8X, VP8 , VP8L, ALPH, ANIM or ANMF, spelled in bytes, so never EXIF, XMP or ICCP; the survivors keep their order and their bytes, except that of the VP8X flag byte only 0x12 remains |
| WebPPrivacy.StripSucceedsIff | apps/backend/internal/platform/media/webp_privacy.go:43-80 | Stripping succeeds exactly for an accepted container with a chunk of the six kinds, whose VP8X chunks have ten bytes, the second to fourth zero, and whose result stays below the 32-bit size |
| WebPPrivacy.AcceptedIffWritten | apps/backend/internal/platform/media/webp_privacy.go:114-151 | A container is accepted exactly when it is RIFF, the size of the rest, WEBP and at least one written chunk, any pad byte behind an odd payload; its chunks are then the written ones (RFC 9649, sections 2.3 and 2.4) |
| WebPInspect.StrippingNeverChangesTheReport | apps/backend/internal/platform/media/inspect.go:307-411 | Whenever stripping succeeds the inspector gives the same header, or the same failure, on input and output, for any chunks, padding and flags |
| WebPInspect.Inspect | apps/backend/internal/platform/media/inspect.go:307-411 | The inspector's loop, with its running maxima and saturating sums, agrees with folding the parsed chunks, of which WebPFiles says what it reports |
| WebPFiles.LossyFileIsReported | apps/backend/internal/platform/media/inspect.go:307-418 | A plain lossy file is reported with the width and height it was written with, in that order, whatever the scaling bits and the data; a zero size is rejected (RFC 9649, section 2.5) |
| WebPFiles.LosslessFileIsReported | apps/backend/internal/platform/media/inspect.go:307-426 | A plain lossless file is reported with the width and height it was written with (RFC 9649, section 2.6) |
| WebPFiles.ExtendedFileIsReported | apps/backend/internal/platform/media/inspect.go:307-411 | A canvas of any size followed by frames of any size and duration and any other chunks is reported with that canvas, the largest frame sizes, the number of frames and the saturated sums, if its animation flag says whether it has frames; otherwise it is rejected (RFC 9649, section 2.7) |
| WebPFiles.WidestIsLargest | apps/backend/internal/platform/media/inspect.go:360-365 | The largest width is the canvas's or a frame's, and no frame is wider |
| WebPFiles.TallestIsLargest | apps/backend/internal/platform/media/inspect.go:360-365 | The largest height is the canvas's or a frame's, and no frame is taller |
| WebPFiles.ShortChunksAreRejected | apps/backend/internal/platform/media/inspect.go:337-357 | A canvas chunk of fewer than ten bytes or a frame chunk of fewer than sixteen spoils any file |
| WebPFiles.UnmarkedStillIsRejected | apps/backend/internal/platform/media/inspect.go:413-426 | A plain file whose bitstream is too short or lacks the start code or the signature is rejected |
| Basics.WordsAreLittleEndian | apps/backend/internal/platform/media/inspect.go:307-426 | Words of 16, 24 and 32 bits are read and written least significant byte first |
| WebPInspect.RunCollectsFrames | apps/backend/internal/platform/media/inspect.go:354-382 | The frames summed are exactly the animation chunks of the file, in order |
| WebPInspect.AcceptedAnimationIsWithinBudget | apps/backend/internal/platform/media/inspect.go:435-466 | An animation that passes inspection and validation is within every limit in unbounded arithmetic, summed over exactly its animation chunks |
| Gif.Inspect | apps/backend/internal/platform/media/inspect.go:180-290 | The loop terminates in bounds and agrees with the recursive block grammar |
| Gif.SkipSubBlocks | apps/backend/internal/platform/media/inspect.go:292-305 | Skips exactly the data sub-blocks the grammar reads (GIF89a, section 15), or fails with it |
| Gif.TableSizeIsExact | apps/backend/internal/platform/media/inspect.go:190-197 | The high bit announces a colour table, and the low three bits n that it has 2^(n + 1) entries of three bytes (GIF89a, sections 18 and 20) |
| Gif.ReportedSizesAreLargest | apps/backend/internal/platform/media/inspect.go:241-246 | The reported frame size is the largest among the canvas and the frames |
| Gif.AcceptedFilesAreDocuments | apps/backend/internal/platform/media/inspect.go:180-290 | Every accepted file is a document of the grammar (GIF89a, sections 20, 23 and 27) followed by ignored bytes, reported as its summary: frames are the image descriptors, the duration the saturated sum of ten times the last pending delay, the area the saturated sum of the frame areas |
| Gif.DocumentsAreReportedAsTheirSummary | apps/backend/internal/platform/media/inspect.go:180-290 | Conversely every document of the grammar, whatever follows it, is reported as its summary |
| Gif.AcceptedGifIsWithinBudget | apps/backend/internal/platform/media/inspect.go:435-466 | A GIF that passes inspection and validation is within every limit in unbounded arithmetic, frame by frame |
| ImageHeaders.AcceptedMeansExactlyWithinBudget | apps/backend/internal/platform/media/inspect.go:435-466 | Validation accepts if and only if the dimensions, the exact unbounded pixel sums, the frame count and the duration are within the limits: saturation hides nothing |
| ImageHeaders.RejectionIsExact | apps/backend/internal/platform/media/inspect.go:435-466 | Which of the three errors a rejected header gets, in exact arithmetic: missing sizes before edges and areas before frame count and duration |
| ImageHeaders.LargestDurationLimitIsNone | apps/backend/internal/platform/media/inspect.go:435-466 | A header and frames of the longest GIF delay that validation accepts although their exact duration exceeds the largest 64-bit limit |
| ImageHeaders.CheckedMul | apps/backend/internal/platform/media/inspect.go:428-433 | The exact product when it fits 64 bits, none otherwise |
| ImageHeaders.AddArea | apps/backend/internal/platform/media/inspect.go:272-277 | One saturating addition of a frame area keeps a saturated sum saturated exactly |
| Bmp.Decode | apps/backend/internal/platform/media/processor.go:378-405 | On a header that fits its file the only possible failure is the allocation guard, and every pixel of the image is the stored one, for both row orders; BmpFiles.DecodeWritten says what that shows |
| BmpFiles.DecodeWritten | apps/backend/internal/platform/media/processor.go:378-405 | Any picture written bottom line first or, with negated height, top line first, in BGR or BGRA, with any other header bytes and padding, is inspected and decoded to that very picture, opaque where there is no non-zero fourth byte; decoding fails only when four bytes a pixel exceed the largest int |
| BmpFiles.WrittenFileIsReported | apps/backend/internal/platform/media/inspect.go:129-170 | Every such file is accepted and reported with its width, height, direction, pixel offset and stride |
| BmpFiles.AcceptedFilesAreWritten | apps/backend/internal/platform/media/inspect.go:129-170 | Conversely every accepted file is one of those: the inspector accepts exactly what the writer writes |
| Bmp.Inspected | apps/backend/internal/platform/media/inspect.go:129-170 | A file is accepted only with a header that fits it, so no read leaves the buffer |
| Bmp.RowStride | apps/backend/internal/platform/media/inspect.go:154-158 | The stride never overflows, is a multiple of four and leaves at most three padding bytes |
| Bmp.OffsetReadsPixel | apps/backend/internal/platform/media/processor.go:387-396 | The byte offset of a pixel lies in the file, and the bytes there are that pixel of its stored row |
| Bmp.AllocationFitsInPractice | apps/backend/internal/platform/media/processor.go:382-384 | The allocation guard cannot fire on a file below three quarters of the largest int |
| Bmp.TwinShowsTheSamePicture | apps/backend/internal/platform/media/inspect.go:129-170 | A bottom-up file and its row-reversed top-down twin are both accepted, with headers that differ only in direction, and show the same picture |
| MessageWindow.EveryRowIsDrawnFromTheInputs | apps/web/src/workspace-conversation-state.ts:312-371 | In every branch and option combination each result row is an untouched local row the server did not send, a sent row, or the merge of both rows of one key; distinct keys stay distinct |
| RefreshBranch.RefreshedKeys | apps/web/src/workspace-conversation-state.ts:354-371 | The keys of a refreshed window, exactly and in order: a window longer than the answer that shares a row with it keeps all its rows and gains the unknown sent rows behind its last one if the answer continues it without a gap; else a window the answer ends inside of loses exactly the requested rows the server omitted; else the sent window takes its place |
| RefreshBranch.NewestSentRowArrivesIff | apps/web/src/workspace-conversation-state.ts:354-371 | The last sent row is in the refreshed window, unless a longer window that shares a row with the answer neither holds that row nor is continued by the answer |
| RefreshBranch.RelationMeans | apps/web/src/workspace-conversation-state.ts:81-116 | What the relation of two windows says about their keys and last rows |
| RefreshBranch.EmptyWindows | apps/web/src/workspace-conversation-state.ts:329-334 | With nothing loaded the sent window is taken; with nothing sent only rows the request did not know of stay, and only if something changed locally and such rows are wanted |
| RefreshBranch.AdoptsIff | apps/web/src/workspace-conversation-state.ts:188-371 | The sent version of a shared row is adopted if and only if the answer is current and the loaded row is still the object the request started from, or the sent window takes the place of the loaded one and nothing changed locally |
| RefreshBranch.WasRequestedIff | apps/web/src/workspace-conversation-state.ts:207-212 | A row changed after the request if and only if the last requested row of its key is not this very object |
| MessageWindow.SameKeyIff | apps/web/src/workspace-conversation-state.ts:73-75 | Two rows are taken for one message if and only if their ids are equal, or neither has one and their client ids are, or the id of one spells out the client id of the other |
| MessageWindow.ServerTombstonesSurvive | apps/web/src/workspace-conversation-state.ts:158-186 | In every branch, a recall or deletion the server reports for a row is never lost |
| LocalChanges.EveryLoadedRowIsAccountedFor | apps/web/src/workspace-conversation-state.ts:188-371 | In every branch and option combination, the row a loaded key ends up with is the loaded row when the server did not send the key, else the sent row when it is adopted, else the merge of both |
| LocalChanges.SharedRowIsTombstonedIff | apps/web/src/workspace-conversation-state.ts:158-371 | In every branch, a shared row is tombstoned afterwards if and only if the server says so, or it was so locally and the sent row is not adopted |
| LocalChanges.LocalTombstonesSurvive | apps/web/src/workspace-conversation-state.ts:188-371 | In every branch, a recall or deletion made locally after the request, noted by a new revision, is not undone by the response |
| MessageWindow.MergeKeepsKey | apps/web/src/workspace-conversation-state.ts:73-75 | A merged row keeps the key its two sides share |
| MessageWindow.KeepLocalRows | apps/web/src/workspace-conversation-state.ts:188-216 | The keep-local branch draws its keys from the loaded window only |
| MessageWindow.AppendNewerRows | apps/web/src/workspace-conversation-state.ts:218-242 | The history-with-newer-window branch adds sent rows only behind the loaded ones and repeats no key |
| MessageWindow.TakeIncomingRows | apps/web/src/workspace-conversation-state.ts:244-266 | The server-window branch has exactly the sent keys, in the order sent |
| MessageWindow.PostRequestRows | apps/web/src/workspace-conversation-state.ts:276-307 | The appended suffix holds loaded rows only and no sent key |
| MessageOrder.MergeStaysOrdered | apps/web/src/workspace-conversation-state.ts:312-371 | In every branch and option combination, two windows ordered by creation time that agree on shared rows merge into an ordered window |
| AuthoritativeWindow.AuthoritativeResultIsExact | apps/web/src/workspace-conversation-state.ts:335-353 | An authoritative result is exactly the kept older history, then one row per sent row in the order sent, then the rows that came up after the request |
| AuthoritativeWindow.SurvivorsOfAnOmission | apps/web/src/workspace-conversation-state.ts:335-353 | A loaded row the server did not send survives if and only if it is kept older history or came up after the request |
| AuthoritativeWindow.OmittedBaselineRowsAreGone | apps/web/src/workspace-conversation-state.ts:335-353 | A row the request knew of and the server omitted is gone, unless older history is kept and the row is older than the whole sent window |
| StaleResponses.StaleResponseKeepsTheWindow | apps/web/src/workspace-conversation-state.ts:321-328 | A stale response keeps exactly the loaded keys in order; rows it does not carry are untouched; a row it carries is tombstoned iff either side says so, shared attachments are removed iff either side removed them, permissions are the conjunction, and local hiding since the request wins |
| StaleResponses.AttachmentsAreReconciled | apps/web/src/workspace-conversation-state.ts:118-143 | The merged attachment list is the sent one, in order; a shared attachment is removed iff either side removed it, keeps the loaded status otherwise, has the conjunction of both permissions, and the loaded properties over the sent ones; the others are as sent |
| StaleResponses.MergedRowIsAnnotated | apps/web/src/workspace-conversation-state.ts:145-186 | Field by field, what merging a loaded row with the sent one gives: the sent tombstone with its content, or the loaded row; both attachment lists reconciled; and whose view of hiding wins |
| StaleResponses.StaleResponseAppliesOnceIff | apps/web/src/workspace-conversation-state.ts:118-186 | Applying one stale response twice equals applying it once, for every loaded window, if and only if the attachment lists it carries are settled, a condition on the fields of attachments that repeat an id |
| StaleResponses.AttachmentsSettleIff | apps/web/src/workspace-conversation-state.ts:118-143 | Merging one sent attachment list twice equals merging it once, for every local list, if and only if each later attachment that repeats an id carries the removal, status, permissions and properties of the first with that id |
| StaleResponses.CarriesMeansUnchanged | apps/web/src/workspace-conversation-state.ts:118-143 | Merging an attachment into a later one with its id leaves the later one unchanged if and only if, field by field, it already carries what the first imposes |
| StaleResponses.DistinctIDsAreSettled | apps/web/src/workspace-conversation-state.ts:118-143 | Distinct attachment ids are enough for that |
| StaleResponses.RepeatedAttachmentIDIsNotSettled | apps/web/src/workspace-conversation-state.ts:118-143 | A concrete response with a repeated id that changes a row again |
| Reconciliation.PassCoversEveryStandingMember | apps/backend/cmd/worker/echo.go:262-354 | Over any run of cycles with failures, timeouts and changing membership, every member active throughout a pass, from an empty cursor to the reset, was successfully synced in a committed page of it |
| Reconciliation.Reconciler.Process | apps/backend/cmd/worker/echo.go:270-351 | The cursor moves exactly when every member of the page was synced and the cycle ended in time, and then to the last id or to the start; a failed page never moves it; an ordinary failure does not keep the rest of the page from being attempted |
| Reconciliation.Reconciler.AttemptPage | apps/backend/cmd/worker/echo.go:304-332 | No error is reported only if every member was synced, in order; an expiry or cancellation is the only way to stop early |
| Reconciliation.RunCycles | apps/backend/cmd/worker/echo.go:262-354 | Every sequence of cycles over arbitrarily changing member tables is such a run |
| Reconciliation.PageIsComplete | apps/backend/cmd/worker/echo.go:68-102 | The keyset property: a page holds every active member behind the cursor up to its own end, and a short page all of them |
| Reconciliation.PageLimit | apps/backend/cmd/worker/echo.go:104-109 | A limit from 1 to 25 is taken as it is, any other is 25 |
| AgentGateway.AnyRun | packages/agent-sdk/src/index.js:258-428 | Any turns of the event loop in any order keep a good history and lastSequence at what it determines; at most one ack is pending in every state of the run if and only if there was at most one at its start and no turn starts an ack for a new sequence on an open socket while an orphaned ack is pending; with no throwing send there is at most one at the end |
| AgentGateway.OneTurn | packages/agent-sdk/src/index.js:258-428 | A turn that collides with an orphaned ack leaves at least two pending; from at most one, any other turn leaves at most one |
| AgentGateway.OneMoreAck | packages/agent-sdk/src/index.js:376-384 | Adding an ack to at most one leaves at most one if and only if it replaces one or is the first |
| AgentGateway.FoldsAreAcknowledged | packages/agent-sdk/src/index.js:362-369 | Behind every sequence folded in is one event task whose callback, if the sequence was new, had returned, and whose ack frame arrived after that; no other task began in between |
| AgentGateway.FoldedSequencesAreNotCalledAgain | packages/agent-sdk/src/index.js:362-369 | Once a sequence is folded in, no callback runs for it or an earlier one before the next connect or sync_required, whatever is redelivered |
| AgentGateway.LevelNeverDrops | packages/agent-sdk/src/index.js:362-369 | Between a connect or sync_required and the next, across reconnects, lastSequence never decreases |
| AgentGateway.TwoPendingAcksAfterAThrow | packages/agent-sdk/src/index.js:371-386 | A send that throws leaves its ack pending beside the next one: two pending acks |
| AgentGateway.Client.AckOverSocket | packages/agent-sdk/src/index.js:371-386 | Fails without an open socket; shares a pending ack; else one new pending ack, orphaned when the send throws. From at most one pending ack there is at most one afterwards if and only if the socket is not open, the ack is shared, or none was pending |
| AgentGateway.Client.ResolveAck | packages/agent-sdk/src/index.js:388-395 | Only a pending sequence is resolved, and only an event task that waits for it goes on |
| AgentGateway.Client.ResumeAck | packages/agent-sdk/src/index.js:362-369 | Only a resolved ack folds its sequence in |
| AgentGateway.Client.OnMessage | packages/agent-sdk/src/index.js:290-345 | Frames of an old generation or a stopped client do nothing; events and sync requests queue in order |
| AgentGateway.Client.OnClose | packages/agent-sdk/src/index.js:346-355 | Only the current generation's socket rejects all pending acks |
| AgentGateway.Client.Connect | packages/agent-sdk/src/index.js:127-146 | A started client throws and changes nothing; an invalid lastSequence throws when the client is already marked as started; an aborted signal stops it again under a new generation; else it opens at the given sequence under a new generation |
| AgentGateway.Client.Stop | packages/agent-sdk/src/index.js:148-161 | A running client drops its socket and pending acks and starts a new generation |
| MigrationDiscovery.Discover | apps/backend/internal/platform/migrations/discover.go:35-75 | Succeeds exactly when the directory is readable, every canonical name is a regular file and no number repeats; the list holds exactly the canonical names, in lexical and numeric order at once |
| MigrationDiscovery.LexicalIsNumeric | apps/backend/internal/platform/migrations/discover.go:71-73 | Between canonical names with different numbers, lexical order is number order |
| MigrationDiscovery.WrittenNameIsCanonical | apps/backend/internal/platform/migrations/discover.go:15 | Three digits, words of lower-case letters and digits behind underscores, and .sql make a canonical name with the number of the digits |
| MigrationDiscovery.CanonicalNameIsWritten | apps/backend/internal/platform/migrations/discover.go:15 | Every canonical name is made that way |
| StringOrder.LessIff | apps/backend/internal/platform/migrations/discover.go:71-73 | One name comes before another if and only if it is a proper prefix of it or has the smaller character where they first differ |
| MigrationDiscovery.Collect | apps/backend/internal/platform/migrations/discover.go:45-69 | The entry loop rejects exactly the unacceptable directories and loses no canonical name |
| MigrationRunner.Database.Run | apps/backend/internal/platform/migrations/runner.go:93-168 | All or nothing: on any error the history is unchanged; on success it was a prefix of the discovered list and is now the whole list, and the applied names are the missing ones, in order, after every earlier one |
| MigrationRunner.ApplyPending | apps/backend/internal/platform/migrations/runner.go:134-160 | The loop applies exactly the pending names in order, and its own out-of-order check cannot fire |
| MigrationRunner.ValidateHistory | apps/backend/internal/platform/migrations/runner.go:263-289 | Accepts exactly the histories that are prefixes of the discovered list |
| MigrationRunner.RunTwice | apps/backend/internal/platform/migrations/runner.go:93-168 | After a successful run a second run over the same directory applies nothing and leaves the history alone |
| SchemaCheck.VerdictIsExact | apps/backend/internal/platform/migrations/check.go:85-137 | No history issue is raised if and only if every required name is applied and at most one more is, the successor a reviewed policy tolerates: 034 over exactly 001 to 033, or 035 over exactly 001 to 034 |
| SchemaCheck.NeverBothExceptions | apps/backend/internal/platform/migrations/compatibility.go:229-240 | A reader of exactly 001 to 033 never accepts a history with 035, so the two exceptions never hold together |
| SchemaCheck.RunThenCheck | apps/backend/internal/platform/migrations/check.go:54-137 | After a successful run, the check over the same non-empty directory reports no missing, unknown or merely tolerated name, with or without a policy |
| SchemaCheck.CompareNames | apps/backend/internal/platform/migrations/check.go:85-118 | The comparison loops give exactly the missing, tolerated, unknown and inspected names, sorted, with non-canonical unknown names counted but not shown |
| SchemaCheck.InspectedIff | apps/backend/internal/platform/migrations/check.go:91-107 | Whose schema is inspected afterwards: of the required names those a reviewed policy lists, of the others the one it tolerates, and without a policy nobody's |
| SchemaCheck.RequiredNames | apps/backend/internal/platform/migrations/check.go:221-253 | Exactly when a required set is usable, from a directory or a list but not both; it is then sorted, canonical, duplicate-free and complete |
| SchemaCheck.ReadApplied | apps/backend/internal/platform/migrations/check.go:304-329 | Rejects exactly the histories that repeat a name |
| ReleaseCompatibility.ValidatePolicy | apps/backend/internal/platform/migrations/compatibility.go:148-184 | Accepts exactly the two reviewed policies |
| ReleaseCompatibility.BaselineIsExact | apps/backend/internal/platform/migrations/compatibility.go:215-225 | The baseline test holds for exactly the 33 reviewed names in order |
| ReleaseCompatibility.ReviewedNamesAreCanonical | apps/backend/internal/platform/migrations/compatibility.go:14-24 | The reviewed names pass the policy's own name check |
| TopicMerge.MergeIsTheOrderedUnion | apps/web/src/WorkspaceTopics.tsx:168-186 | With distinct keys and ids and finite times the merged list is strictly ordered by time and then id, its keys are the union, and the incoming version wins |
| TopicMerge.NoMessageTwice | apps/web/src/WorkspaceTopics.tsx:159-186 | In the merged list no two rows share a client id, and no two rows without one share an id |
| TopicMerge.SameKeyIff | apps/web/src/WorkspaceTopics.tsx:159-161 | When two rows stand for one message, on their ids and client ids |
| TopicMerge.SecondMergeReturnsTheSameList | apps/web/src/WorkspaceTopics.tsx:168-186 | Merging the same snapshot again returns the very same list object |
| TopicMerge.NothingNewIsTheSameList | apps/web/src/WorkspaceTopics.tsx:184-185 | A snapshot already in a sorted list leaves the list object alone |
| TopicMerge.MergeWorkspaceTopicMessages | apps/web/src/WorkspaceTopics.tsx:168-186 | Replace, push and sort give the merged list the lemmas speak of |
| StringOrder.SortSorts | apps/web/src/WorkspaceTopics.tsx:178-183 | Sorting by a total preorder orders the list and keeps its elements |
| Composer.RoundTrip | apps/web/src/WorkspaceComposerEditor.tsx:97-168 | Building the tree from any block list and serialising it gives the normal form of the blocks, and as source the concatenation of the normalised blocks |
| Composer.TwoRoundTrips | apps/web/src/WorkspaceComposerEditor.tsx:97-168 | A second round trip changes nothing |
| Composer.NormalFormIsNormal | apps/web/src/WorkspaceComposerEditor.tsx:126-168 | The normal form has no empty texts, no adjacent texts and no carriage returns |
| Composer.NormalFormKeepsContent | apps/web/src/WorkspaceComposerEditor.tsx:126-168 | It keeps every character and every token, in order, up to line endings |
| Composer.LineEndingsBecomeOne | apps/web/src/WorkspaceComposerEditor.tsx:111 | Wherever it stands, a carriage return with or without a line feed behind it and a line feed alone become one line feed each, and every other character stays |
| Composer.SourceIsConcatenation | apps/web/src/WorkspaceComposerEditor.tsx:126-168 | The source of two lists in a row is the concatenation of theirs |
| Composer.SourceOfOneBlock | apps/web/src/WorkspaceComposerEditor.tsx:126-168 | A text is its own source, a mention its name behind an at sign, an emote its token |
| Composer.NormalFormIsUnique | apps/web/src/WorkspaceComposerEditor.tsx:126-168 | It is the only such list with that content |
| Composer.Editor.SetDocument | apps/web/src/WorkspaceComposerEditor.tsx:97-120 | The tree is paragraphs of non-empty one-line leaves, and reads back as the normal form |
| Composer.Editor.Serialize | apps/web/src/WorkspaceComposerEditor.tsx:126-168 | For any tree the blocks are its leaves joined in order, with a line break between the root's children, and the source is theirs |
| Composer.Serializer.FlushText | apps/web/src/WorkspaceComposerEditor.tsx:129-135 | Flushing changes nothing a reader would see |
| Composer.SplitThenJoin | apps/web/src/WorkspaceComposerEditor.tsx:111-112 | Splitting at line breaks loses nothing |
| FileChunks.SplitThenAssemble | apps/web/src/p2p-protocol.ts:31-78 | Splitting any file by the expected sizes passes chunk and completion validation and concatenates back to the file |
| FileChunks.ExpectedSizesSumToFileSize | apps/web/src/p2p-protocol.ts:31-44 | The expected sizes over all indices sum to the file size, zero included |
| FileChunks.AcceptedStateAssemblesToItsSize | apps/web/src/p2p-protocol.ts:61-78 | A state the completion check accepts assembles to exactly its size if and only if it expected at least one chunk or no bytes |
| FileChunks.EmptyTotalIsAcceptedUnchecked | apps/web/src/p2p-protocol.ts:61-78 | The accepted state with a total of zero that is not the file it claims to be |
| FileChunks.OfferedFilesAssembleToTheirSize | apps/web/src/p2p-protocol.ts:61-78 | For every size and total an accepted offer can carry, accepted states assemble to exactly their size |
| FileChunks.ValidateCompletion | apps/web/src/p2p-protocol.ts:61-78 | Valid exactly when the envelope agrees, all bytes arrived and every expected chunk has its expected size |
| FileChunks.ValidateChunk | apps/web/src/p2p-protocol.ts:46-59 | Valid exactly when the total agrees and the chunk has its expected size |
| FileChunks.ChunkCount | apps/web/src/p2p-protocol.ts:31-33 | The least positive number of 16 KiB chunks that holds the size |
## Left out

- Rooms as heap objects: rooms and peers are values that carry the identity of the object they stand for, held in the manager's map. What the code does to a room after it has left the map (stopping its timers, emptying its peer map in Close) is not modelled; no callback can observe it, because callbacks look the room up in the map by identity. So a live room has its expiry timer by construction.
- Rooms.Manager.Join: the id returned by newPeerID is assumed not to be in use in the room; a reused id would overwrite a member.
- Rooms.Manager.Leave: termination, the order of announcements and the other whole-operation contracts are for one goroutine at a time; Rooms.AnySchedule covers interleaving, over sections rather than over whole operations.
- Room and connection counts, currentPeers, message payloads, invitation links, options defaulting and nil receivers of the room manager: single reads or formatting.
- Wall-clock durations: close budgets, grace periods, the reconnect delay and its jitter, heartbeats. Timers are steps that may fire at any time.
- CloseBatch.EveryMaximalRunClosesDone: assumes that close callbacks return; the code relies on CloseNow for that.
- How long a close takes once its deadline has passed; only who waits for what is modelled.
- The JPEG and PNG inspectors, the libvips pipeline and validateDecodedImage: straight-line checks or foreign code.
- Integer width on 32-bit platforms: int is taken as 64 bits wide.
- Bmp.Decode: for headers that inspectBMP never produces, uint64 wrap-around of a pixel offset is not modelled, because no caller can pass one.
- MessageWindow: a property that is present with the value undefined is treated as absent, as in rows that come from JSON; properties the merge does not name are one map of strings.
- The delivery queues' cursor rule in the worker (commit only on success): one branch, and without the keyset property it says nothing more.
- Reconciliation: only safety is claimed; a member that fails for good holds the cursor, so no pass need ever end. Members with an empty id are never listed, and PostgreSQL's collation is taken to be the lexicographic order.
- AgentGateway.Client: connect timeouts, heartbeats, status callbacks and the HTTP requests; they touch neither the acks nor lastSequence. No claim is made that no event is skipped: a failed callback leaves a gap.
- MigrationRunner.Database.Run: migration scripts are opaque and are assumed not to write schema_migrations themselves, and a failed commit is taken to have changed nothing. The advisory lock serialises runs, so runs do not interleave.
- ensureSchema, the schema inspection after the name comparison, and the policy's JSON parsing: SQL and JSON text.
- TopicMerge: localeCompare is taken to be the lexicographic order; the proofs use only that it is a strict total order. Messages with unparsable times are left out of the ordering theorem, because the comparator is then not transitive.
- Composer: the editor's own normalisation of adjacent text nodes, node keys and selections; the tree is a value held by the editor.
- FileChunks: hashing, encoding and the transport of chunks.
- app-route.ts, user interface code, metrics, configuration and grouping helpers: opaque codecs or easy members.
