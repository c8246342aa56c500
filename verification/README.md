# dflash: a verified model of its stateful core

This project models the parts of dflash that keep state or re-express one computation as another, and proves what they promise. Each module follows one component of the repository; code that updates state in place is a class or a method over arrays, and each of its methods is tied to a specification function whose own properties are proved as lemmas.

- **Chunked gated delta-net** (`LinearAlgebra`, `DeltaNet`, `DeltaNetChunkProof`, `DeltaNetGraph`, `DeltaRule`). The graph of cumulative decays, a unit lower triangular solve and one state update per chunk computes the token-by-token recurrence, for every token count, chunk size, start state and input, padding included; `DeltaRule` says what that recurrence means for what is written and read.
- **Streaming tag splitter** (`TagSplitter`). However a text is cut into pieces, the three-mode splitter with its hold-back window ends where a one-pass scanner over the whole text ends.
- **Token pipe** (`TokenPipe`). Which requests give the shared int32 pipe back between two frames, stated as an equivalence, and what tokens each request of a run receives.
- **Chat boundaries and the prefix cache** (`ChatBoundaries`, `OrderedDict`, `InlineSnapshots`, `SnapshotProtocol`). Which marker sets keep their cuts as prompts grow, stated as an equivalence that resolved markers meet; the index of cached prefixes agrees with the daemon's slots all along a run if and only if no request overwrites a slot that stays in use.
- **Full-prompt cache** (`FullCacheSpec`, `FullCache`). Slot allocation, scored eviction, the disk budget and restart, over any interleaving of operations.
- **Tool-call memory** (`ToolMemorySpec`, `ToolMemory.dfy` with module `ToolMemoryStore`). Reference-counted shared texts under two bounds refine a plain map with a recency list.
- **Sparse and chunked attention** (`BlockSelect`, `ChunkedAttention`). Flat four-dimensional index arithmetic, block selection row by row, and chunked masked attention against an unchunked causal reference.
- **Span recovery** (`SpanRecovery`). Greedy subsequence matching, grouping, widening to word boundaries, merging, and what the whole pipeline keeps.
- `Arithmetic`, `Exponential`, `Sequences` and `Wrappers` hold shared facts and types.

Five properties that one might expect turned out not to hold of the code on all inputs. Each is stated with its exact condition.

1. *A request always leaves the pipe between two frames.* A client that goes away while a thread compresses its prompt gives up the lock, and that thread goes on sending commands and reading their frames (`dflash/scripts/server.py:1434-1436`). A client that goes away before the token loop starts leaves its whole frame unread, because those yields come before the `try` whose `finally` drains the pipe (`dflash/scripts/server.py:2529-2562`, and `dflash/scripts/server.py:1472` in the chat endpoint). A read that is still pending when its request is abandoned goes on beside the drain: if it takes the sentinel, the drain waits for one that never comes; if the drain is done first, the read waits for a value of the next frame. A streamed request ends between two frames with no thread still at work on the pipe exactly when none of this happens (`TokenPipe.Serve`, `TokenPipe.ServeAll`).
2. *More prompt text only adds cuts.* This holds if and only if a last token is harmless on finitely many texts made of the markers: every end marker, and every end marker followed by a role start, directly or after one token that no marker contains (`ChatBoundaries.PrefixStableIff`). The markers that the server resolves meet the condition: single tokens, and token sequences that spell different tags (`ChatBoundaries.ResolvedIsStable`). `ChatBoundaries.UnstableMarkers` is a marker set, not one of those, for which a cut disappears.
3. *Index and daemon agree.* They agree all along a run if and only if no request overwrites a slot that stays in use (`SnapshotProtocol.RunsAgreeIff`). There are two ways to overwrite one (`SnapshotProtocol.ServeAgreesIff`). At capacity, a stream that ends by an exception after the daemon has written its snapshot is neither confirmed nor aborted, because the `finally` blocks only drain the pipe (`dflash/scripts/server.py:1659-1679`, `dflash/scripts/server.py:1987-2006`, `dflash/scripts/server.py:2652-2671`), so the evicted entry stays; with the default of one slot the next request for that entry restores another prompt's state (`SnapshotProtocol.UnsettledBreaksAgreement`). Below capacity, an earlier abort or unsettled stream can have made the next slot a live one (`SnapshotProtocol.AbortsBreakAgreement`).
4. *A command never snapshots into the slot it restores from.* After every run that overwrites no slot in use, the two slots differ exactly when another slot is handed out: at capacity if there is more than one slot, below capacity if the next slot is not the one that is restored (`SnapshotProtocol.CommandSlotsDifferIff`). After abort-free runs this is exactly when there is more than one slot, and with the default of one slot they are the same after every run (`SnapshotProtocol.CommandSlotsDiffer`). Commands that use one slot for both exist with one slot (`SnapshotProtocol.OneSlotForBoth`) and, after failed requests, with two (`SnapshotProtocol.TwoSlotsForBoth`).
5. *The score rule selects at least the best block.* For a threshold factor below one, and apart from the sink, window and last-rows rules, it selects a block exactly when the best score is not negative (`BlockSelect.ScoreRuleFiresIff`); otherwise those rules alone decide (`BlockSelect.NegativeRow`), and with the default ones a row of equal negative scores drops a best block (`BlockSelect.BestBlockDropped`). With a negative best score raising the factor adds blocks instead of removing them (`BlockSelect.RaisingAlpha`). Negative scores come from the kernel that multiplies mean queries with mean keys (`dflash/src/flashprefill_kernels.hip.cu:203-206`); the other score kernels add up exponentials.

## Model

| member | source | states |
|---|---|---|
| LinearAlgebra.Adjoint | dflash/src/delta_net_chunked.cpp:202-214 | moving a matrix across a dot product transposes it, which is what lets the state be read through the transposed chunk tensors |
| LinearAlgebra.SolveTriSolves | dflash/src/delta_net_chunked.cpp:157 | forward substitution solves a unit lower triangular system of any size, every entry of every row |
| LinearAlgebra.UnitLowerUnique | dflash/src/delta_net_chunked.cpp:157 | such a system has one solution |
| LinearAlgebra.SolveGivesInverse | dflash/src/delta_net_chunked.cpp:145-158 | for strictly lower triangular A of any size, solving (I+A)X = -A and adding I gives the inverse of I+A |
| LinearAlgebra.InverseSolves | dflash/src/delta_net_chunked.cpp:145-168 | applying that inverse to a right-hand side gives the solution that the rows of the system determine |
| DeltaNetChunkProof.ClosedForm | dflash/src/delta_net_chunked.cpp:131-134 | after any number of tokens the state is the decayed start state plus every earlier write, decayed by the gates since |
| DeltaNetChunkProof.CorrectionRow | dflash/src/delta_net_chunked.cpp:136-146 | the recurrence's corrections satisfy, row by row, the triangular system with matrix I + tril(kb * decay) |
| DeltaNetChunkProof.NewValuesAreCorrections | dflash/src/delta_net_chunked.cpp:145-204 | v - k_cd * s of a chunk is, row by row, the correction the recurrence computes at that token |
| DeltaNetChunkProof.ChunkOutputsAgree | dflash/src/delta_net_chunked.cpp:196-212 | the outputs of one chunk from any state are the recurrence's outputs |
| DeltaNetChunkProof.ChunkStateAgrees | dflash/src/delta_net_chunked.cpp:214-219 | the state after one chunk is the recurrence's state |
| DeltaNetGraph.RunAppend | dflash/src/delta_net_chunked.cpp:195-220 | running xs and then ys from the state reached is running xs + ys |
| DeltaNetGraph.OutputsAppend | dflash/src/delta_net_chunked.cpp:195-220 | the outputs of xs + ys are those of xs followed by those of ys from the state that xs reaches |
| DeltaNetGraph.PaddingKeepsState | dflash/src/delta_net_chunked.cpp:76-80 | zero tokens leave every state as it is |
| DeltaNetGraph.PaddingIsNeutral | dflash/src/delta_net_chunked.cpp:73-80 | zero padding changes neither the final state nor the outputs of the real tokens |
| DeltaNetGraph.PaddedLength | dflash/src/delta_net_chunked.cpp:73-74 | the padding is less than a chunk and completes a whole number of chunks |
| DeltaNetGraph.BuildChunks | dflash/src/delta_net_chunked.cpp:82-193 | chunk c's tensors are those of the c-th slice of the padded tokens, and the value buffer holds their corrected values end to end |
| DeltaNetGraph.SetInPlace | dflash/src/delta_net_chunked.cpp:212 | a chunk's outputs overwrite exactly their own region of the value buffer |
| DeltaNetGraph.RunChunks | dflash/src/delta_net_chunked.cpp:195-220 | the chunk loop over whole chunks returns the recurrence's outputs and state |
| DeltaNetGraph.BuildDeltaNetChunked | dflash/src/delta_net_chunked.cpp:29-235 | for every token count, chunk size, start state and input the result is the outputs and final state of the token-by-token recurrence |
| DeltaRule.OutputIsScaled | dflash/src/delta_net_chunked.cpp:61-63 | after any tokens from any state, the last output is the scale times the product of the token's own query with the state after it |
| DeltaRule.RecallsValue | dflash/src/delta_net_chunked.cpp:131-219 | at write strength one, asking with the key just written, of unit length, gives the scale times the value, whatever came before |
| DeltaRule.AnswersBetween | dflash/src/delta_net_chunked.cpp:131-219 | at any write strength b the answer to that key is 1 - b parts of what the decayed state answered and b parts of the new value |
| DeltaRule.OnlyDecays | dflash/src/delta_net_chunked.cpp:131-219 | at write strength zero every entry of the state is decayed by the exponential of the gate and nothing else |
| DeltaRule.ReadsDecayed | dflash/src/delta_net_chunked.cpp:131-219 | at write strength zero every vector reads the decayed state |
| DeltaRule.OutputIsDecayed | dflash/src/delta_net_chunked.cpp:61-219 | at write strength zero the last output is the scaled reading of the decayed state |
| DeltaRule.OrthogonalUntouched | dflash/src/delta_net_chunked.cpp:131-219 | a vector with nothing in common with the key reads only the decay, whatever is written |
| TagSplitter.FirstHitIsFirst | dflash/scripts/server.py:2588-2601 | no tag that later text completes can start before the first complete tag of the window |
| TagSplitter.HoldbackIsEnough | dflash/scripts/server.py:2555-2558 | with no complete tag in the window, later text can complete one only inside the held-back part |
| TagSplitter.TagsExclusive | dflash/scripts/server.py:2600-2601 | at most one kind of tag starts at any position, so sorting hits by position leaves no tie |
| TagSplitter.ReleaseKeepsMeaning | dflash/scripts/server.py:2582-2585 | releasing what is not held back changes nothing that any following text can reveal |
| TagSplitter.HitKeepsMeaning | dflash/scripts/server.py:2599-2624 | acting on the first tag of the window, in each mode, changes nothing that any following text can reveal |
| TagSplitter.Find | dflash/scripts/server.py:2576 | the first occurrence of a tag, or none |
| TagSplitter.FirstHit | dflash/scripts/server.py:2588-2601 | the first tag of content mode that the window holds, and none before it |
| TagSplitter.Splitter.constructor | dflash/scripts/server.py:2547-2560 | starts in reasoning or content mode with nothing decided |
| TagSplitter.Splitter.Feed | dflash/scripts/server.py:2565-2632 | after every piece the window is at most the hold-back long and holds no complete tag of the mode, and decided output and window scan to the same result as before with the piece appended |
| TagSplitter.Splitter.Flush | dflash/scripts/server.py:2634-2650 | at the end of the stream the result is the scanner's on the remaining window, with the fallback for unclosed reasoning |
| TagSplitter.ReasoningThenAnswer | dflash/scripts/server.py:2575-2581 | reasoning, closing tag and answer come back apart for all texts without tags |
| TagSplitter.Stream | dflash/scripts/server.py:2547-2650 | for every text and every way of cutting it into pieces, mode, content, reasoning and tool buffer are those of one scan of the whole text |
| TagSplitter.PiecesJoin | dflash/scripts/server.py:2562-2568 | pieces come together in the order in which they come |
| TagSplitter.ToolCallLeaves | dflash/scripts/server.py:2554-2624 | with tools declared, each of the three tool tags after a text without tags ends the visible text there, and all from the tag on is buffered |
| TagSplitter.ToolCallStays | dflash/scripts/server.py:2554-2632 | without tools the same text is all content |
| TagSplitter.ThoughtBetween | dflash/scripts/server.py:2575-2620 | with thinking on, what stands between the two thinking tags is reasoning and the rest is content, both without the tags |
| TagSplitter.ThinkStays | dflash/scripts/server.py:2608-2617 | with thinking off, an opening thinking tag is content |
| TagSplitter.StrayCloseDropped | dflash/scripts/server.py:2618-2619 | a closing thinking tag in the answer is dropped and nothing else |
| TagSplitter.ReasoningIgnoresTags | dflash/scripts/server.py:2575-2586 | in reasoning no tool tag and no opening thinking tag means anything |
| TagSplitter.UnclosedThought | dflash/scripts/server.py:2634-2650 | reasoning that is never closed is all reasoning, and the answer is what the fallback makes of it |
| TagSplitter.FinishKeeps | dflash/scripts/server.py:2634-2650 | outside reasoning the end of the stream changes nothing |
| TagSplitter.HoldbackIs | dflash/scripts/server.py:2555-2558 | what may wait is as long as the longest tag that could still complete: that of a tool call, or of the closing thinking tag without tools |
| TokenPipe.YieldedStep | dflash/scripts/server.py:1121-1133 | what one more value adds to the answer and when the stream has ended for good |
| TokenPipe.PartialAnswer | dflash/scripts/server.py:1109-1133 | a request that reads part of its frame receives a prefix of its full answer |
| TokenPipe.Pipe.Send | dflash/scripts/server.py:1201-1202 | a framed command appends one frame, that is its values and one sentinel |
| TokenPipe.Pipe.Read | dflash/scripts/server.py:1113-1120 | a read takes the next value of the first unfinished frame, or its sentinel, and blocks when no frame is left |
| TokenPipe.Pipe.DrainUntilSentinel | dflash/scripts/_prefill_hook.py:31-42 | returns the rest of the first frame and removes it, or blocks when there is none |
| TokenPipe.Pipe.SendAndAck | dflash/scripts/_prefill_hook.py:45-49 | one framed command, and the pipe is back between two frames |
| TokenPipe.Pipe.TokenStream | dflash/scripts/server.py:1109-1135 | consumes exactly its own frame; the tokens are its known ids up to the first stop id and up to n_gen |
| TokenPipe.TokensAreValid | dflash/scripts/server.py:1121-1133 | every token received is a value of the frame, within the vocabulary if its size is known, and no stop id; there are at most max(1, n_gen) |
| TokenPipe.OrdinaryFrame | dflash/scripts/server.py:1109-1133 | a frame of values within the vocabulary and without stop ids is received as its first max(1, n_gen) values |
| TokenPipe.OutsiderSkipped | dflash/scripts/server.py:1121-1122 | a value outside the vocabulary, wherever it stands, adds nothing and ends nothing |
| TokenPipe.NothingAfterStop | dflash/scripts/server.py:1121-1130 | from the first stop id on nothing is received |
| TokenPipe.Pipe.StreamTokens | dflash/scripts/server.py:1147-1174 | left after any number of values, the tokens are those of the values read and the rest of the frame is still unread |
| TokenPipe.CompressTextViaDaemon | dflash/scripts/_prefill_hook.py:124-179 | one or six framed commands, all consumed, and the ids of the compress command's own frame |
| TokenPipe.Serve | dflash/scripts/server.py:1351-1380 | whatever the ending of a streamed request: its tokens are those of its own frame, and the pipe is between two frames with no thread at work on it if and only if the client leaves neither during an unfinished compression nor before the loop and a read it abandons takes one of the frame's values, whichever that is |
| TokenPipe.CompressPart | dflash/scripts/server.py:1434-1437 | a compression that is given up after some of its commands is finished if and only if those were all |
| TokenPipe.Generate | dflash/scripts/server.py:1457-1619 | the generate command and what the request reads of its frame, with the draft model parked again only if the request comes to its own end |
| TokenPipe.CommandsCounted | dflash/scripts/server.py:1351-1619 | how many commands a request sends, by its ending: the draft model is parked again only after a request that comes to its own end |
| TokenPipe.FrameCounted | dflash/scripts/server.py:1434-1457 | the command that generates comes after those that compress and the one that wakes a lazy draft model |
| TokenPipe.CleanCounted | dflash/scripts/server.py:1351-1380 | which endings give the pipe back: a request that comes to its own end or is left at a yield does, one left before the loop does not, one left in its compression does if all its commands were done, and one left in a read does if that read takes a value of the frame or comes after it |
| TokenPipe.CommandsAdd | dflash/scripts/server.py:1109-1174 | the commands of two runs one after the other add up, so frames are counted through a whole run |
| TokenPipe.SeenCounted | dflash/scripts/server.py:1109-1174 | how much of its frame a request has seen, by its ending |
| TokenPipe.DrainBeside | dflash/scripts/server.py:1351-1380 | beside an abandoned read the drain ends the frame with nothing left waiting if and only if that read takes one of the frame's values |
| TokenPipe.ServeAll | dflash/scripts/server.py:1109-1174 | over any run of requests, with lazy parking and compression, every served request gets its own tokens and the pipe stays in step if and only if every request ends cleanly |
| ChatBoundaries.FindFirstSeq | dflash/scripts/prefix_cache.py:251-262 | the first position of a marker, or none; an empty marker is nowhere |
| ChatBoundaries.FindFirstSeqAny | dflash/scripts/prefix_cache.py:265-274 | the earliest match of any marker, the first of the list on a tie; empty markers are passed over |
| ChatBoundaries.FindPrefixBoundaryMarkers | dflash/scripts/prefix_cache.py:277-307 | the first of all cuts, or -1 if there is none |
| ChatBoundaries.FindNextCut | dflash/scripts/prefix_cache.py:326-343 | the cut after the cursor that the reference scan finds, with up to four separators between message end and role start |
| ChatBoundaries.CutMeans | dflash/scripts/prefix_cache.py:322-343 | a cut ends a role start that follows, after at most four separators, the first end marker from the cursor on, with no end marker before that one and no role start in between |
| ChatBoundaries.FourSeparators | dflash/scripts/prefix_cache.py:326-339 | between one end marker and one role start up to four other tokens are passed over, and five are not |
| ChatBoundaries.FindAllBoundariesMarkers | dflash/scripts/prefix_cache.py:310-343 | all cuts of the reference scan, strictly ascending |
| ChatBoundaries.SameLengthIsApart | dflash/scripts/prefix_cache.py:207-217 | of markers of one length per list, single tokens in particular, none occurs inside another |
| ChatBoundaries.TagsNotInside | dflash/scripts/prefix_cache.py:219-233 | of token sequences that spell different tags, none occurs inside another |
| ChatBoundaries.CutsStable | dflash/scripts/prefix_cache.py:310-343 | if ids is a prefix of ids', its cuts are a prefix of those of ids', for markers of which none occurs inside another |
| ChatBoundaries.ResolvedIsStable | dflash/scripts/prefix_cache.py:189-238 | for both families of resolved markers more prompt text only adds cuts at the end |
| ChatBoundaries.NextCutMoved | dflash/scripts/prefix_cache.py:322-343 | the next cut does not depend on what stands before the cursor |
| ChatBoundaries.NextCutExtends | dflash/scripts/prefix_cache.py:322-343 | for markers that meet the finite condition one more token leaves the next cut alone, wherever scanning starts |
| ChatBoundaries.PrefixStableIff | dflash/scripts/prefix_cache.py:310-343 | for every marker set with a system prefix, cuts of a prompt are a prefix of those of every longer prompt if and only if a last token is harmless on finitely many texts made of markers |
| ChatBoundaries.CutsRestrict | dflash/scripts/prefix_cache.py:310-343 | scanning a prompt up to one of its cuts finds exactly the cuts up to that one, for any markers |
| ChatBoundaries.UnstableMarkers | dflash/scripts/prefix_cache.py:265-274 | a marker set for which a longer prompt loses a cut |
| InlineSnapshots.PrefixCache.Lookup | dflash/scripts/prefix_cache.py:530-553 | returns the deepest cached cut and its slot, and makes every cached cut of the prompt recently used, the deepest one last |
| InlineSnapshots.TouchedAfterOthers | dflash/scripts/prefix_cache.py:540-553 | a cached cut of the prompt is more recently used after a lookup than every entry that is none |
| InlineSnapshots.TouchedInOrder | dflash/scripts/prefix_cache.py:540-553 | of two cached cuts the longer one is the more recently used |
| InlineSnapshots.OthersKeepOrder | dflash/scripts/prefix_cache.py:540-553 | two entries that are no cut of the prompt keep their order |
| InlineSnapshots.PrefixCache.MarkAllCleared | dflash/scripts/prefix_cache.py:555-569 | empties the index and the reservation |
| InlineSnapshots.PrefixCache.PrepareInlineSnap | dflash/scripts/prefix_cache.py:571-616 | snapshots at the end of the last complete message: a cut that exactly one cut of the prompt exceeds, or the only one; hands out the next slot, or at capacity the least recently used one without giving up its entry; nothing for a prefix already cached |
| InlineSnapshots.PreparedSnap | dflash/scripts/prefix_cache.py:585-616 | a snapshot is taken at the cut that only one cut of the prompt exceeds, or at the only cut; none is taken exactly because there are no cuts or that prefix is cached |
| InlineSnapshots.PrefixCache.ConfirmInlineSnap | dflash/scripts/prefix_cache.py:618-638 | evicts the reserved entry and registers the prefix at the slot |
| InlineSnapshots.PrefixCache.AbortInlineSnap | dflash/scripts/prefix_cache.py:640-664 | evicts the reserved entry and registers nothing |
| InlineSnapshots.PrefixCache.BuildCommand | dflash/scripts/server.py:1285-1295 | lookup and reservation of one command, in that order |
| SnapshotProtocol.ServeRequest | dflash/scripts/server.py:1319-1343 | the cache object goes through the protocol step that the run-level theorems are about, including requests that end with neither confirmation nor abort |
| SnapshotProtocol.ServeKeepsInv | dflash/scripts/prefix_cache.py:571-664 | keys stay distinct, at most cap many, and each ends at one of its own cuts, whatever became of the request |
| SnapshotProtocol.ServeAgreesIff | dflash/scripts/prefix_cache.py:600-664 | index and daemon agree after a request if and only if it does not overwrite a slot that stays in use: at capacity by ending unsettled with its snapshot written, below capacity by being handed a live slot |
| SnapshotProtocol.PackedOverwritesIff | dflash/scripts/prefix_cache.py:600-616 | with the entries packed, a request overwrites if and only if it needs a snapshot at capacity and ends unsettled with the snapshot written |
| SnapshotProtocol.ServeKeepsPacked | dflash/scripts/prefix_cache.py:600-616 | without aborts the entries below capacity fill the first slots and the next slot is free |
| SnapshotProtocol.RunsStayInPool | dflash/scripts/prefix_cache.py:571-664 | on every run, aborts included, all slots lie below cap |
| SnapshotProtocol.RunsAgree | dflash/scripts/prefix_cache.py:571-664 | each key's slot holds that prefix's snapshot: with one slot after every run whose written snapshots are settled, aborts and lost acknowledgements included, and with any number after every abort-free run |
| SnapshotProtocol.RunsAgreeIff | dflash/scripts/prefix_cache.py:571-664 | on every run with any number of slots, index and daemon agree all along if and only if no request overwrites a slot that stays in use |
| SnapshotProtocol.SettledRunsSpare | dflash/scripts/server.py:1319-1343 | no request overwrites on runs with one slot whose written snapshots are settled, nor on abort-free runs |
| SnapshotProtocol.NoSharedSlots | dflash/scripts/prefix_cache.py:571-638 | when index and daemon agree, no two keys share a slot |
| SnapshotProtocol.DeepestIsDeepest | dflash/scripts/prefix_cache.py:530-553 | a lookup finds a prefix at least as long as any cached cut of the prompt |
| SnapshotProtocol.HitIsFreshest | dflash/scripts/prefix_cache.py:540-553 | the entry that a lookup returns is the most recently used afterwards |
| SnapshotProtocol.LaterPromptsHit | dflash/scripts/prefix_cache.py:530-553 | a registered prefix is found by every prompt that extends it, at least as long |
| SnapshotProtocol.RegisteredIsFound | dflash/scripts/prefix_cache.py:530-553 | at the end of any run a registered prefix is found by every prompt that extends it, at least as long, and what is restored is a prefix of that prompt if no request of the run overwrote a slot in use |
| SnapshotProtocol.HitAgrees | dflash/scripts/server.py:1286-1290 | what a command restores is the prompt's own prefix, cut at one of its cuts |
| SnapshotProtocol.RegistersIff | dflash/scripts/server.py:1319-1343 | a prefix that was handed out for a snapshot is in the index afterwards if and only if the request ran, produced tokens and saw the acknowledgement, and then at the slot that was handed out |
| SnapshotProtocol.RestoreIsNotSnapshotIff | dflash/scripts/server.py:1285-1295 | in every state in which index and daemon agree, and with one slot in any state, restored and snapshotted slot differ if and only if there is more than one slot at capacity, or the next slot is not the restored one below it |
| SnapshotProtocol.PackedOtherSlot | dflash/scripts/prefix_cache.py:600-616 | with the entries packed, another slot than the restored one is handed out if and only if there is more than one |
| SnapshotProtocol.CommandSlotsDifferIff | dflash/scripts/server.py:1285-1295 | the same equivalence for every command after every run that overwrites no slot in use, and with one slot after every run |
| SnapshotProtocol.CommandSlotsDiffer | dflash/scripts/server.py:1285-1295 | after every abort-free run, and with one slot after every run, the two slots differ if and only if there is more than one slot |
| SnapshotProtocol.AbortsBreakAgreement | dflash/scripts/prefix_cache.py:606-616 | with two slots, a possible run of two failed requests around a confirmed one leads to a live slot being overwritten |
| SnapshotProtocol.UnsettledBreaksAgreement | dflash/scripts/server.py:2652-2671 | with one slot, a confirmed prompt and then one whose stream ends after its snapshot was written: the first prompt is found whole and the second one's state is restored for it |
| SnapshotProtocol.OneSlotForBoth | dflash/scripts/server.py:1285-1295 | with one slot, after a confirmed snapshot a longer prompt restores from slot 0 and snapshots into slot 0 |
| SnapshotProtocol.TwoSlotsForBoth | dflash/scripts/server.py:1285-1295 | with two slots, after a confirmed request between two failed ones, on a run that overwrites nothing, a longer prompt restores from slot 1 and snapshots into slot 1 |
| OrderedDict.PopKeeps | dflash/scripts/prefix_cache.py:632-638 | removing a key leaves exactly the other items, keys still distinct |
| OrderedDict.PutKeeps | dflash/scripts/prefix_cache.py:632-638 | assigning a key leaves exactly the other items and the new one |
| OrderedDict.MoveToEndSameMap | dflash/scripts/prefix_cache.py:540-553 | touching a key changes the order and nothing else |
| OrderedDict.OthersStay | dflash/scripts/prefix_cache.py:540-553 | removing, touching or reassigning an item leaves all others where they are |
| OrderedDict.NewKeyLast | dflash/scripts/prefix_cache.py:632-638 | a new key comes last |
| OrderedDict.MoveOrders | dflash/scripts/prefix_cache.py:540-553 | a touched key comes last and any two others keep their order |
| FullCacheSpec.SlotsBounded | dflash/scripts/prefix_cache.py:797-824 | distinct slots in a range of cap are at most cap many |
| FullCacheSpec.FreeSlotExists | dflash/scripts/prefix_cache.py:813-824 | fewer entries than slots leave a slot free |
| FullCacheSpec.RegisteredSlotsIff | dflash/scripts/prefix_cache.py:1100-1119 | registering keeps slots distinct and in range if and only if the slot is in range and no entry that stays uses it |
| FullCacheSpec.Victim | dflash/scripts/prefix_cache.py:847-860 | no entry has a lower score, or the same score and an older use; the first of equals |
| FullCacheSpec.VictimUnique | dflash/scripts/prefix_cache.py:847-860 | those conditions determine the victim |
| FullCacheSpec.BetterOutlives | dflash/scripts/prefix_cache.py:826-860 | an entry with files and tokens that has at least the hits and tokens of another, files no larger, and one of these strictly better, is not the victim while that one is there, if the live prompt goes on from neither |
| FullCacheSpec.LivePrefixGoesFirst | dflash/scripts/prefix_cache.py:833-836 | of two entries alike in hits, tokens and files the one that the live prompt goes on from goes first |
| FullCacheSpec.UnusedPrefixGoesFirst | dflash/scripts/prefix_cache.py:833-836 | of two such prefixes of the live prompt, of equal tokens and files, one without hits goes before one with hits |
| FullCacheSpec.EmptyGoesFirst | dflash/scripts/prefix_cache.py:828-830 | an entry without files goes before one that has files and tokens |
| FullCacheSpec.LongerUnusedGoesFirst | dflash/scripts/prefix_cache.py:855-858 | of two entries alike, both or neither a prefix of the live prompt, the longer unused goes first |
| FullCacheSpec.LiveShare | dflash/scripts/prefix_cache.py:833-836 | a live prefix is worth a quarter of what it would be otherwise, a fiftieth if it was never used, times its share of the prompt |
| FullCacheSpec.ArtifactIs | dflash/scripts/prefix_cache.py:781-795 | the size of an entry is that of both its files, each counted only if it is there |
| FullCacheSpec.TokensAre | dflash/scripts/prefix_cache.py:831 | an entry counts the tokens of its prompt, or those it was compressed to if its prompt's are not known |
| FullCacheSpec.Trim | dflash/scripts/prefix_cache.py:873-891 | what is left is within the budget or nothing |
| FullCacheSpec.TrimIsShortest | dflash/scripts/prefix_cache.py:879-890 | trimming retires victims in turn, and with any fewer of them the total is over the budget |
| FullCacheSpec.TrimSubsequence | dflash/scripts/prefix_cache.py:873-891 | what is left is in the order it was |
| FullCacheSpec.KeptInOrder | dflash/scripts/prefix_cache.py:873-891 | any two entries that are left stood in the same order before |
| FullCacheSpec.TotalWithout | dflash/scripts/prefix_cache.py:890 | subtracting the victim's size from the total gives the recomputed total |
| FullCacheSpec.SubsequenceKeeps | dflash/scripts/prefix_cache.py:862-891 | leaving entries out keeps keys and slots distinct and the order of use |
| FullCacheSpec.StoredFiles | dflash/scripts/prefix_cache.py:1100-1119 | the new prompt has its two files with their sizes, the entry it replaces has none, and every other file stays as it was |
| FullCache.RingCovers | dflash/scripts/prefix_cache.py:806-824 | one turn around the ring visits every slot index |
| FullCache.Pool.constructor | dflash/scripts/prefix_cache.py:681-737 | the pool's slots follow the prefix pool's and stay below the daemon's limit of eight |
| FullCache.Pool.RecomputeNextSlot | dflash/scripts/prefix_cache.py:797-811 | the pointer moves to the first free slot from where it was on, around the ring, or to the start if none is free |
| FullCache.Pool.ReserveNextFreeSlot | dflash/scripts/prefix_cache.py:813-824 | below capacity the first free slot from the pointer on is found and the pointer moves past it; none is reported only when all are occupied |
| FullCache.Pool.SelectVictim | dflash/scripts/prefix_cache.py:847-860 | the loop finds the victim that the specification names |
| FullCache.Pool.Retire | dflash/scripts/prefix_cache.py:862-871 | drops one entry with both its files, and the pointer is at a free slot |
| FullCache.Pool.EnforceBudget | dflash/scripts/prefix_cache.py:873-891 | terminates with what retiring victims in turn leaves; the running total is the recomputed one throughout, and exactly the retired entries have lost their files |
| FullCache.Pool.Lookup | dflash/scripts/prefix_cache.py:1011-1038 | hits exactly when the key is registered and its file exists; a registered key without file is dropped |
| FullCache.UsedIsLast | dflash/scripts/prefix_cache.py:1032-1035 | a hit puts the entry last with one hit more, the time of use and nothing else changed, and leaves all others where they were |
| FullCache.Pool.PrepareFullSnap | dflash/scripts/prefix_cache.py:1040-1071 | the first free slot from the pointer on, or at capacity the victim's, whose entry stays; nothing for a cached prompt |
| FullCache.Pool.Register | dflash/scripts/prefix_cache.py:1100-1120 | the reserved entry goes with its files and the new one takes the slot |
| FullCache.Pool.ConfirmFullSnap | dflash/scripts/prefix_cache.py:1073-1123 | after a failed copy nothing changed; otherwise the entry is registered with its files, what is left is exactly what trimming to the budget leaves, and exactly the trimmed entries have lost their files |
| FullCache.Pool.AbortFullSnap | dflash/scripts/prefix_cache.py:1125-1133 | the reservation is gone and no entry is lost |
| FullCache.Pool.LoadPersisted | dflash/scripts/prefix_cache.py:955-963 | what the budget leaves of the entries found on disk; those it does not leave have lost their files, and no others |
| FullCache.Pool.Rehydrate | dflash/scripts/prefix_cache.py:965-1009 | restart registers exactly the replayed ones among the most recent entries that fit, in consecutive slots, and deletes only the files of entries over the budget |
| FullCache.RestoredKeeps | dflash/scripts/prefix_cache.py:987-1003 | restored entries keep keys distinct and the order of use, and take the slots counted up from the first |
| FullCache.MostRecentFit | dflash/scripts/prefix_cache.py:976-986 | as many entries are taken as fit, and none that is left out was used later than one of them |
| FullCache.AllRestored | dflash/scripts/prefix_cache.py:987-1003 | every entry that the daemon restores is registered again with all but its slot as it was |
| FullCache.RunOps | dflash/scripts/prefix_cache.py:681-1133 | over any interleaving of lookups, vanished files, reservations, confirmations, failed copies, aborts and restarts, entry slots stay distinct, in range, disjoint from the prefix pool and within the daemon's slots |
| ToolMemorySpec.SumWithout | dflash/scripts/tool_memory.py:112-116 | the byte sum loses exactly the size of a text that is taken out, whichever it is |
| ToolMemorySpec.PruneIsShortest | dflash/scripts/tool_memory.py:97-105 | pruning removes the shortest least recently used run of ids that restores both bounds |
| ToolMemorySpec.RememberKeepsBounds | dflash/scripts/tool_memory.py:37-70 | both bounds hold after every remember |
| ToolMemorySpec.BoundsHold | dflash/scripts/tool_memory.py:97-105 | after any run there are no more ids and no more bytes of text than the two bounds say |
| ToolMemorySpec.RememberedSurvives | dflash/scripts/tool_memory.py:37-105 | a text that fits the bounds by itself survives being remembered, with all its ids, whatever else has to go |
| ToolMemorySpec.NothingRemembered | dflash/scripts/tool_memory.py:38-49 | nothing changes if a bound is zero, the text is empty or there is no id |
| ToolMemorySpec.SizeIsUtf8 | dflash/scripts/tool_memory.py:51-57 | the size of a character is the number of bytes of its UTF-8 form, from which it can be read back |
| ToolMemorySpec.TextSizeAdds | dflash/scripts/tool_memory.py:51-57 | the size of a text is that of its characters together |
| ToolMemorySpec.BindAllTexts | dflash/scripts/tool_memory.py:59-68 | exactly the given ids are remapped, all to the text |
| ToolMemorySpec.BoundLast | dflash/scripts/tool_memory.py:59-68 | the ids just bound are the most recently used ones, in the order given |
| ToolMemorySpec.TouchedLast | dflash/scripts/tool_memory.py:89-95 | a lookup that returns a text makes its calls the most recently used ones, in the order of the calls |
| ToolMemorySpec.SurvivorsAreLatest | dflash/scripts/tool_memory.py:37-105 | on every run both bounds hold, and a surviving id maps to the text remembered for it last |
| ToolMemorySpec.ReplaysLatest | dflash/scripts/tool_memory.py:72-91 | a lookup after any run returns a text if and only if there are calls, all survive, and that text was remembered last for each |
| ToolMemoryStore.ToolMemory.ConsistentTotals | dflash/scripts/tool_memory.py:25-31 | the filed blocks are exactly the referenced texts and the byte total is the sum of their sizes |
| ToolMemoryStore.ToolMemory.UniqueIds | dflash/scripts/tool_memory.py:40-48 | the non-empty ids, each at its first occurrence |
| ToolMemorySpec.UniqueKeepsAll | dflash/scripts/tool_memory.py:40-46 | ids that are neither empty nor repeated are all taken, in their order |
| ToolMemorySpec.UniqueGrows | dflash/scripts/tool_memory.py:40-46 | ids that come later never displace those taken before |
| ToolMemoryStore.ToolMemory.TouchId | dflash/scripts/tool_memory.py:93-95 | the id comes last and only there, and the others keep their order |
| ToolMemoryStore.ToolMemory.Release | dflash/scripts/tool_memory.py:110-116 | a block goes with its last reference, counts stay equal to the ids mapped, and the total never needs its clamp |
| ToolMemoryStore.ToolMemory.DropEntry | dflash/scripts/tool_memory.py:107-116 | one id less in map and recency list, everything else as it was |
| ToolMemoryStore.ToolMemory.BindId | dflash/scripts/tool_memory.py:59-68 | one id is mapped to the text, also when it was mapped to another |
| ToolMemoryStore.ToolMemory.PruneOldest | dflash/scripts/tool_memory.py:97-105 | the loop does what pruning the plain map does |
| ToolMemoryStore.ToolMemory.Remember | dflash/scripts/tool_memory.py:37-70 | the shared-block store does what remembering in the plain map does, and keeps the reference-count invariant |
| ToolMemoryStore.ToolMemory.SharedText | dflash/scripts/tool_memory.py:73-88 | a text if and only if all calls are known and share it |
| ToolMemoryStore.ToolMemory.LookupMessage | dflash/scripts/tool_memory.py:72-91 | returns that text, and touches the calls only then |
| ToolMemoryStore.RunEvents | dflash/scripts/tool_memory.py:37-91 | over any sequence of operations, state and all answers are those of the plain map |
| BlockSelect.CellDistinct | dflash/src/flashprefill_select.cpp:33-44 | no two grid points share a flat index |
| BlockSelect.CellsCovered | dflash/src/flashprefill_select.cpp:33-44 | every flat index belongs to a grid point |
| BlockSelect.CellSteps | dflash/src/flashprefill_select.cpp:33-44 | a step in one coordinate moves by the extents of the coordinates that move faster, so the layout is row-major with heads fastest |
| BlockSelect.SelectedExactly | dflash/src/flashprefill_select.cpp:63-74 | a row holds exactly the causal blocks that the sink, window, last-full or score rule keeps, each once, in increasing order |
| BlockSelect.KeptForScore | dflash/src/flashprefill_select.cpp:60-71 | outside the other three rules a block is kept if and only if its score is at least alpha times the best one |
| BlockSelect.BestBlocksKept | dflash/src/flashprefill_select.cpp:60-71 | for alpha at most one and a best score that is not negative every best block is kept |
| BlockSelect.KeptAnyway | dflash/src/flashprefill_select.cpp:64-70 | each of the other three rules keeps its blocks whatever their scores |
| BlockSelect.DefaultRules | dflash/src/pflash_ggml_adapter.cpp:15-23 | for alpha below one a row keeps the first two blocks, the last four, everything in the last two rows, and what reaches alpha times the best score, and no more |
| BlockSelect.RowMeans | dflash/src/flashprefill_select.cpp:52-74 | the same for any rules in terms of the flat scores: against the largest causal score of that batch, row and head |
| BlockSelect.RaisingAlpha | dflash/src/flashprefill_select.cpp:60-71 | raising alpha only removes blocks from a row with a non-negative best score and only adds blocks to one with a non-positive best score |
| BlockSelect.ScoreRuleFiresIff | dflash/src/flashprefill_select.cpp:60-71 | for alpha below one some block reaches the threshold if and only if the best score is not negative |
| BlockSelect.NegativeRow | dflash/src/flashprefill_select.cpp:60-71 | for alpha below one a row with a negative best score holds exactly the blocks of the sink, window and last-full rules |
| BlockSelect.BestBlockDropped | dflash/src/flashprefill_select.cpp:60-71 | with the default rules a row of seven scores of -1 drops a block that no other beats and keeps the six others |
| BlockSelect.DiagonalKept | dflash/src/flashprefill_select.cpp:66 | a window of at least one block ends every row with its diagonal block |
| BlockSelect.BlocksWithinTokens | dflash/src/flashprefill.cpp:226 | there are no more blocks than tokens |
| BlockSelect.DenseSelectsAll | dflash/src/pflash_ggml_adapter.cpp:15-20 | asking for alpha of one or more selects all of 0..m in every row, whatever the scores |
| BlockSelect.MaxScore | dflash/src/flashprefill_select.cpp:54-59 | the largest causal score of the row |
| BlockSelect.SelectRow | dflash/src/flashprefill_select.cpp:52-74 | the loop builds the selection that the rules define |
| BlockSelect.WriteRow | dflash/src/flashprefill_select.cpp:76-79 | the row holds the selection and then -1, and no cell of another row changes |
| BlockSelect.BlockSelectHost | dflash/src/flashprefill_select.cpp:27-84 | every row of every batch and head is written with its own selection and count |
| BlockSelect.RowReadsBack | dflash/src/flashprefill_select.cpp:76-79 | reading a row back gives as many blocks as its count says, those of its own selection, and -1 in every cell after them |
| BlockSelect.OutputDetermined | dflash/src/flashprefill_select.cpp:49-83 | scores and rules fix both output arrays cell by cell |
| ChunkedAttention.PermuteVector | dflash/src/flashprefill_q8.cpp:104-120 | the contiguous permuted copy holds at (j, i) what the view holds at (i, j) |
| ChunkedAttention.MaskedIsPrefix | dflash/src/flashprefill_q8.cpp:122-128 | attention whose mask hides all keys from n on is attention to the first n keys |
| Exponential.ExpPositive | dflash/src/flashprefill_q8.cpp:127-128 | every softmax weight is positive |
| ChunkedAttention.CausalTotalPositive | dflash/src/flashprefill_q8.cpp:127-128 | the softmax denominator of a causal row is positive |
| ChunkedAttention.KeyHeadInRange | dflash/src/flashprefill_q8.cpp:104-128 | every query head has a key head |
| ChunkedAttention.HeadGroups | dflash/src/flashprefill_q8.cpp:104-128 | query heads share a key head in consecutive groups of equal size |
| ChunkedAttention.VectorAt | dflash/src/flashprefill_q8.cpp:104-120 | the entries of a vector lie token by token, head by head in the flat buffer |
| ChunkedAttention.CausalAverage | dflash/src/flashprefill_q8.cpp:122-128 | an output entry times the total of one positive weight per token up to its own, the exponential of the scaled product of query and key, is the weighted sum of those tokens' values |
| ChunkedAttention.EqualValues | dflash/src/flashprefill_q8.cpp:122-128 | values that agree are passed on as they are, whatever queries, keys and scale |
| ChunkedAttention.FirstTokenIsValue | dflash/src/flashprefill_q8.cpp:122-128 | the output of the first token is its value |
| ChunkedAttention.SecondTokenMixes | dflash/src/flashprefill_q8.cpp:122-128 | the output of the second token mixes the two values in proportion to the exponentials of the scaled products of its query with both keys |
| ChunkedAttention.ChunkIsCausal | dflash/src/flashprefill_q8.cpp:59-134 | every output vector of a chunk is unchunked causal attention of its token to the tokens 0..q |
| ChunkedAttention.FillMask | dflash/src/flashprefill_q8.cpp:143-157 | the flat mask lets query cs + r see key k if and only if k <= cs + r |
| ChunkedAttention.CopyInto | dflash/src/flashprefill_q8.cpp:131-134 | the copy changes exactly the chunk's region of the output |
| ChunkedAttention.ChunkCopied | dflash/src/flashprefill_q8.cpp:129-134 | a chunk's copy completes its own tokens and leaves the earlier ones alone |
| ChunkedAttention.RunChunk | dflash/src/flashprefill_q8.cpp:60-161 | the tokens up to the chunk's end are complete and no cell outside the chunk's region changes |
| ChunkedAttention.TokenInOneChunk | dflash/src/flashprefill_q8.cpp:59-61 | every token belongs to exactly one chunk, for every length and chunk length |
| ChunkedAttention.RegionsDisjoint | dflash/src/flashprefill_q8.cpp:131-134 | the output regions of two chunks do not overlap |
| ChunkedAttention.ForwardQ8 | dflash/src/flashprefill_q8.cpp:31-166 | for every length and chunk length the output is the unchunked causal reference; on failure the chunks before are complete and the rest is untouched; zero is returned if and only if the type is known and every chunk's graph can be allocated |
| SpanRecovery.RecoverKeptIndices | dflash/scripts/laguna_pflash_niah.py:112-122 | succeeds if and only if kept is a subsequence of full, with the pointwise leftmost match; a failure reports the longest prefix that matches |
| SpanRecovery.GroupRuns | dflash/scripts/laguna_pflash_niah.py:125-138 | the runs spell out the positions and no run carries on where the one before ends |
| SpanRecovery.RunsUnique | dflash/scripts/laguna_pflash_niah.py:125-138 | that grouping is the only one |
| SpanRecovery.IncreasingSeparates | dflash/scripts/laguna_pflash_niah.py:125-138 | for increasing positions the runs are ordered, disjoint and non-adjacent |
| SpanRecovery.TextCache.Text | dflash/scripts/laguna_pflash_niah.py:151-154 | the memo table answers with the decoded token |
| SpanRecovery.ExpandRun | dflash/scripts/laguna_pflash_niah.py:141-175 | each side stops at the nearest word boundary, the end of the text, or after 24 tokens, whichever comes first |
| SpanRecovery.BlankStarts | dflash/scripts/laguna_pflash_niah.py:157-173 | a word starts at a token whose text begins with a space, a line feed, a tab or a carriage return, and the empty text starts none |
| SpanRecovery.WideningLimit | dflash/scripts/laguna_pflash_niah.py:141-175 | a span grows by at most 24 tokens on each side, by fewer only up to a word or an end of the text, and over no word start |
| SpanRecovery.WideningUnique | dflash/scripts/laguna_pflash_niah.py:141-175 | those conditions determine the widened span |
| SpanRecovery.WideningKeepsOrder | dflash/scripts/laguna_pflash_niah.py:202-204 | widening keeps spans in order |
| SpanRecovery.MergeOverlapping | dflash/scripts/laguna_pflash_niah.py:178-189 | ordered, disjoint, non-adjacent spans that cover the same positions, with ends taken from the spans that went in |
| SpanRecovery.SeparatedUnique | dflash/scripts/laguna_pflash_niah.py:178-189 | separated spans are determined by what they cover, so merging has one possible result |
| SpanRecovery.PipelineRecovers | dflash/scripts/laguna_pflash_niah.py:199-204 | every recovered position is covered, every covered position is at most 24 from a recovered one, and every span starts and ends at a word, at an end of the text or at the limit |
| SpanRecovery.RecoveredIds | dflash/scripts/laguna_pflash_niah.py:205-207 | the kept ids are a subsequence of the expanded ids and these of the full ids |
| SpanRecovery.LeftmostUnique | dflash/scripts/laguna_pflash_niah.py:112-122 | there is one leftmost match |
| SpanRecovery.StagesUnique | dflash/scripts/laguna_pflash_niah.py:199-204 | grouping, widening and merging leave one possible result |
| SpanRecovery.CrossTokCompressed | dflash/scripts/laguna_pflash_niah.py:192-210 | fails if and only if the kept ids are no subsequence; otherwise the spans are those of the stages from the leftmost match on, all of the above holds of them, and their ids are decoded and encoded again |

## Left out

- Floating point: scores, tensors and softmax weights are real numbers, without rounding, NaN or infinite scores; `exp` is any function with exp(0) = 1 and exp(a + b) = exp(a) * exp(b).
- Machine integers: flat indices, slot numbers and byte totals are unbounded.
- DeltaNetGraph.BuildDeltaNetChunked: is stated for one head, one sequence and one value channel, because the columns of the state never meet; head broadcasting and tensor strides are not captured. The chunk size and the scale are parameters (64 and one over the square root of the key width in the source), and the KDA branch, which is never taken, is not modelled.
- ggml itself (memory, graph scheduling, its attention kernel's running maximum) is not part of this model; each graph node is given its mathematical meaning.
- ChunkedAttention.ForwardQ8: element types differ only in whether they are accepted; conversion between half and single precision is not modelled, nor the batch argument, which the source ignores, nor a failing context allocation as distinct from a failing graph allocation.
- BlockSelect.BlockSelectHost: requires at most as many query blocks as key blocks, since all callers pass equal numbers; with more, the source reads scores of other rows.
- BlockSelect.MaxScore: requires the same, as does the whole grid.
- BlockSelect.SelectRow: requires the same, as does the whole grid.
- The CUDA and HIP twins of block selection, which the forward passes launch in place of the host function, and of attention.
- TagSplitter.Stream: models the loop of the responses endpoint. The chat endpoint's stop sequences are searched in the raw window before tags, so its result can depend on how pieces are cut.
- The unclosed-thinking fallback and the parsing of the tool buffer are regular expressions; the fallback is an arbitrary function of the accumulated reasoning. Event framing, JSON and HTTP are left out.
- TokenPipe.Serve: is about streamed requests; a cancelled request without streaming is left out. An abandoned read takes one whole value; the model is of values, not of the four bytes of each. A daemon that dies, a write that fails and the waiting for snapshot acknowledgements are left out. A read with nothing to come is reported as blocked and ends the run.
- TokenPipe.ServeAll: serves until the pipe is out of step and says nothing of the requests after that.
- ChatBoundaries.FindAllBoundariesMarkers: requires non-empty role starts, which marker resolution provides; the source would take an empty one as standing anywhere.
- ChatBoundaries.FindPrefixBoundaryMarkers: requires non-empty role starts, for the same reason.
- ChatBoundaries.FindNextCut: requires non-empty role starts, for the same reason.
- ChatBoundaries.ResolvedIsStable: takes what resolution returns; encoding the tags is left out, and decoding a token sequence is taken to be the concatenation of decoding its tokens. The two older scanners without marker lists are left out.
- Hashing: a prefix is its own key, that is, the hash is taken to be injective; the cache type and attention window that enter it are constant.
- SnapshotProtocol.RunsAgreeIff: clearing happens between requests, not while one is under way; an acknowledgement is taken to be that of the request that sees it.
- FullCache.Pool.ConfirmFullSnap: requires that the confirmation is that of the latest reservation, as the server calls it under its lock.
- FullCache.RunOps: a confirmation is that of the latest reservation, which is how the server calls it under its lock; FullCacheSpec.RegisteredSlotsIff says what any other one would need. Whether the daemon's slots hold what the entries say is not stated for this pool, because clearing does not touch it and a failed copy keeps the old entry.
- FullCache.Pool.Rehydrate: takes the persisted entries already read, filtered and sorted; parsing and validating the metadata files is left out.
- File operations succeed or find nothing; failing writes of metadata and failing deletions are left out. Entries are values rather than shared objects. Times are parameters.
- FullCache.Pool.constructor: requires at least one slot; a disabled cache is left out.
- ToolMemoryStore.ToolMemory.LookupMessage: takes the call ids; extracting them from dictionaries and objects is left out, and an id that is missing or not a string is the empty string.
- SpanRecovery.CrossTokCompressed: decoding and encoding are parameters; the pflash daemon around it is left out.
- The older background snapshot path, startup synchronisation, weight packing, benchmarks and tokenizers are left out.
