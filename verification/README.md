# hxy, verified

A Dafny model of the parts of hxy whose correctness does not show in any single function, with proofs about
every input, every run and every interleaving. Each component is modelled in the form its source has: objects
whose methods update fields are classes proved against functions, loops are loops with invariants, and what is
promised is proved about the functions.

**The editor** (`Splices`, `PatchOverlay`, `EditHistory`, `EditSession`, `EditorTheorems`, `EditStateObject`,
`HexTyping`). The undo stack is the truth, the patch is derived from it. The delta editor is proved to be an
editor that keeps a full copy of the bytes for every undo step, over whole runs; undo and redo are inverse;
which edits one undo takes back is said in full; a typed run of hex digits is one splice, or one overwrite, and one
undo step.

**The byte cache** (`LruChunks`, `ByteCacheModel`, `CacheCrowding`, `CacheInterleavings`, `ByteCacheObject`,
`CacheRecency`, `StreamingReads`). A fetch gives up the lock between its lookup and its insert, so reads are a state machine whose
steps interleave with everything else; finished reads are exact, reads finish under every fair schedule, and the
running totals are right at every lock release, for exactly those numbers of sources that the entry bound allows.
Eviction takes what was used longest ago, and after an invalidation or a refetch a read shows the source as it is now.
Streaming reads show what is cached and demand exactly the rest.

**The template language** (`ExprGrammar`, `ExprRoundTrip`, `StmtGrammar`, `StmtRoundTrip`, `ProgramRoundTrip`,
`SignedTypes`, `TemplateParser`, `TemplateLexer`, `TokenSpelling`, `FuzzEmit`, `FuzzLexing`, `FuzzRoundTrip`,
`TemplateSyntax`, `NodeForest`, `TemplateMeaning`, `TemplateRun`, `TemplateLaws`, `ScopeLookup`, `Bitfields`,
`ShiftRegister`, `Crc32`). The Pratt parser undoes a
minimal-parenthesis printer, the statement parser undoes a printer whose trees are exactly those it returns, and
the lexer reads every spelled token back, so whole programs go from tree to text and back; emitting, lexing and
parsing a generated program is the identity; the interpreter halts, a firm template within one statement entry of
its step limit, and its nodes form a forest in which lengths are conserved; where nothing depends on the values read
it does exactly what a meaning function says, of which the laws of jumps, loops, `switch` and layout are proved;
bitfield reads undo packing, and find their fields side by side in each word; the CRC-32 of section 8 of RFC 1952
tells apart any two messages that differ inside four consecutive bytes.

**The calculator** (`Numerals`, `CalcGrammar`, `CalcClosers`, `CalcExcess`, `CalcPaths`, `CalcRoundTrip`,
`CalcParser`). Parsing undoes a printer that puts parentheses only where precedence needs them; what appending closing
parentheses does to any input that parses, and where the parentheses a text leaves open went.

**The bracket text object** (`BracketObject`). Two depth-counting scans find the innermost enclosing pair.

## Where the code does not do what is expected of it

The model follows the code; each case has a lemma with an input that shows it or the exact condition.

- The 1000-entry history drops its oldest entry although later rebuilds replay the stack from the base:
  `EditHistory.DroppingOldest`, `EditorTheorems.FullHistoryLosesTheOldest`.
- An empty insertion that a later insertion is folded into is never counted as resizing:
  `EditorTheorems.EmptyInsertBreaksTheCount`. These two are all that can go wrong: `EditorTheorems.EditIsExact`.
- The entry bound of the cache keeps a slack of 16 entries (crates/hxy-core/src/cache.rs:567-575). It is enough for
  `n` sources exactly when `n` short chunks and as many whole ones as still fit the budget are within it
  (`CacheCrowding.EntryBoundIsExact`): always up to 16 sources, and up to 17 but no more when the budget is whole
  chunks, as every setting is (`ByteCacheModel.WholeChunkBudgets`). Beyond that a fetch evicts a chunk that stays on
  the books: `CacheCrowding.HiddenEvictionHappens`.
- A statement entered beyond the step limit fails, but in the format of `SPrintf` and in the variants of an enum
  failures are discarded, and the next one may enter another: `TemplateRun.EntriesBehindTheLimit` goes as far beyond
  the limit as wanted. A template whose discarded expressions run no statements, which can be read off its text, is
  firm and makes at most limit + 1 entries; in all others the entries beyond the limit are exactly the failures they
  were met with: `TemplateRun.Interpreter.Run`.
- A field with arguments, `Record items(a & b);`, is taken for the prototype of a function with a parameter passed by
  reference: exactly when `ProgramRoundTrip.LooksLikePrototype` holds, by `ProgramRoundTrip.ProgramOk`.
- The calculator's documentation allows white space between any tokens, but a line break is trimmed at the ends
  only: `CalcClosers.LineBreakBeforeCloser`. And a unit behind a missing closer closes the parenthesis
  (`CalcClosers.UnitClosesEarly`); the parentheses waiting are those the text leaves open less those a unit closed:
  `CalcExcess.ExcessIsWaitingOrClosedByUnit`.
- `unsigned` is meant to give a type its unsigned counterpart, so that bitfields see the right sign
  (crates/hxy-010-lang/src/parser.rs:1242-1247), but the parser does not know all the names the interpreter does:
  `unsigned INT` stays signed, by `SignedTypes.AliasesStaySigned`; `SignedTypes.SignInFront` and
  `SignedTypes.OtherNamesStay` say which names it does know.
- A cached path prefix loses its dot behind an empty first segment, and only there: `ScopeLookup.PushKeepsPrefix`.

## Model

| member | source | states |
|---|---|---|
| `PatchOverlay.Read` | crates/hxy-core/src/patched.rs:65-104 | for every well-formed patch, a read returns exactly the wanted slice of the fully patched bytes, or out of bounds exactly when the range passes their end |
| `PatchOverlay.Walk` | crates/hxy-core/src/patched.rs:78-103 | the walk over the ops, with its two cursors, appends exactly the wanted slice |
| `PatchOverlay.CopySegmentFromBase` | crates/hxy-core/src/patched.rs:107-128 | a base segment contributes its part of the wanted range and nothing else |
| `PatchOverlay.CopySegmentFromSlice` | crates/hxy-core/src/patched.rs:130-137 | a slice of new bytes contributes its part of the wanted range and nothing else |
| `PatchOverlay.WalkIsSplices` | crates/hxy-core/src/patched.rs:82-101 | the left-to-right walk delivers what replacing the ops right to left, one splice each, builds: an independent meaning of a patch |
| `PatchOverlay.OutputLenIsLength` | crates/hxy-core/src/patched.rs:60-63 | the announced length is the length of what the walk can deliver |
| `PatchOverlay.Diff` | crates/hxy-editor/src/editor.rs:479-515 | the emitted ops are sorted, disjoint and in bounds, and applying them to the base gives the buffer back |
| `PatchOverlay.RunEnd` | crates/hxy-editor/src/editor.rs:488-495 | the end of the maximal run of differing bytes |
| `PatchOverlay.WriteLpOverwrites` | crates/hxy-editor/src/editor.rs:226-242 | a write into a length-preserving patch changes the patched bytes by exactly that overwrite and leaves the patch well formed and length-preserving |
| `EditHistory.UnapplyApply` | crates/hxy-editor/src/editor.rs:418-428 | splicing the recorded old bytes back in undoes an entry |
| `EditHistory.ReplaySplit` | crates/hxy-editor/src/editor.rs:460-478 | replaying a stack is replaying its parts in turn |
| `EditHistory.DroppingOldest` | crates/hxy-editor/src/editor.rs:398-403 | dropping the oldest entry keeps a replayable stack with the same result if and only if that entry changed nothing |
| `EditHistory.CoalescingPreservesMeaning` | crates/hxy-editor/src/editor.rs:351-390 | each of the three coalescing rules: the folded entry replays to what the two entries replayed to, and its old bytes are those that were there before both |
| `EditHistory.CoalescingKeepsKind` | crates/hxy-editor/src/editor.rs:385-390 | a fold changes whether an entry resizes if and only if bytes are added to an entry that is empty on both sides |
| `EditHistory.MergedOldBytes` | crates/hxy-editor/src/editor.rs:553-577 | the merged entry captures the bytes from before either edit |
| `EditHistory.MergedNewBytes` | crates/hxy-editor/src/editor.rs:553-577 | the merged entry writes what the two touching overwrites write, the later on top |
| `EditSession.RecordingIsExact` | crates/hxy-editor/src/editor.rs:351-406 | recording an edit keeps every derived field consistent with the undo stack and changes the bytes by exactly that edit if and only if neither hazard is met (a full history whose oldest entry changed something; rule 3 on an empty entry), on the fast path and on the rebuild alike |
| `EditSession.FastPathIsTheEdit` | crates/hxy-editor/src/editor.rs:210-242 | pushing the whole newest entry through the patch is the same as the one edit while nothing resizes: the length-preserving fast path agrees with the rebuild |
| `EditSession.FaultFreeIsWellFormed` | crates/hxy-editor/src/editor.rs:260-275 | a batch is accepted exactly when its ops are sorted, disjoint and in bounds |
| `EditSession.BatchIsItsOps` | crates/hxy-editor/src/editor.rs:276-300 | a batch recorded as one spanning entry is its ops applied right to left |
| `EditSession.InterleaveStep` | crates/hxy-editor/src/editor.rs:284-292 | one step of assembling the span of a batch |
| `EditorTheorems.EditIsExact` | crates/hxy-editor/src/editor.rs:193-349 | an accepted write, insert, splice or batch leaves a consistent state showing exactly the asked-for bytes if and only if it meets no hazard |
| `EditorTheorems.UndoSplicesBack` | crates/hxy-editor/src/editor.rs:418-432 | undo splices the entry's old bytes back in and keeps everything consistent |
| `EditorTheorems.RedoSplicesAgain` | crates/hxy-editor/src/editor.rs:434-448 | redo applies the entry again to bytes that are exactly its old bytes |
| `EditorTheorems.UndoTimesState` | crates/hxy-editor/src/editor.rs:418-432 | k undos leave exactly the state of k entries ago |
| `EditorTheorems.UndoRedoInverse` | crates/hxy-editor/src/editor.rs:418-448 | k undos then k redos restore the bytes, both stacks and the count, for every k up to the depth |
| `EditorTheorems.StepRefinesSnapshots` | crates/hxy-editor/src/editor.rs:193-448 | every command does to the deltas what it does to an editor that stores the whole buffer per undo step |
| `EditorTheorems.RunRefinesSnapshots` | crates/hxy-editor/src/editor.rs:193-515 | over every run without a hazard, whatever the idle gaps and history breaks, the delta editor is the snapshot editor: the view is the replay of the undo stack throughout |
| `EditorTheorems.OneUndoTakesBack` | crates/hxy-editor/src/editor.rs:351-432 | one undo takes back an edit alone, or, if the edit joined the newest step, all of that step |
| `EditorTheorems.WhenWritesJoin` | crates/hxy-editor/src/editor.rs:351-390 | a write joins the newest step exactly when nothing closed it, it is less than 800 milliseconds old, and the write touches it, it being length-preserving, or lies in its new bytes |
| `EditorTheorems.WhenInsertsJoin` | crates/hxy-editor/src/editor.rs:351-390 | inserted bytes join exactly an open step that only inserted and ends where they begin |
| `EditorTheorems.WhenSplicesJoin` | crates/hxy-editor/src/editor.rs:351-390 | a splice that changes the length joins exactly as an insertion does |
| `EditorTheorems.StepsApart` | crates/hxy-editor/src/editor.rs:408-448 | whatever edit follows an undo, a redo, a revert, a boundary or a change of mode or base is a step of its own |
| `EditorTheorems.HalfTypedByteIsDropped` | crates/hxy-editor/src/editor.rs:418-448 | after an undo, a redo or a change of mode or base the next digit is a high one |
| `EditorTheorems.RevisionTellsChanges` | crates/hxy-editor/src/editor.rs:193-448 | while the revision stays the same so do the bytes and both stacks, but for a new base; every accepted edit raises it by one |
| `EditorTheorems.ShortRunsAreSafe` | crates/hxy-editor/src/editor.rs:351-406 | a run of at most 1000 commands from a fresh history, none of them a zero-length edit, meets no hazard |
| `EditorTheorems.EmptyInsertBreaksTheCount` | crates/hxy-editor/src/editor.rs:385-390 | inserting nothing and then bytes leaves a resizing entry that is not counted: the second hazard is real |
| `EditorTheorems.FullHistoryLosesTheOldest` | crates/hxy-editor/src/editor.rs:398-403 | with a full history whose oldest entry changed something, the next separate edit breaks consistency or shows other bytes: the first hazard is real |
| `EditStateObject.MergeEntry` | crates/hxy-editor/src/editor.rs:553-577 | the two buffers filled by copying are the merged entry |
| `EditStateObject.TryFold` | crates/hxy-editor/src/editor.rs:363-390 | the three rules, in the order they are tried |
| `EditStateObject.EditState.constructor` | crates/hxy-editor/src/editor.rs:140-163 | a fresh editor: consistent, clean, no history |
| `EditStateObject.EditState.SwapBase` | crates/hxy-editor/src/editor.rs:165-177 | a new base shows itself, with both stacks emptied |
| `EditStateObject.EditState.ReadByteAt` | crates/hxy-editor/src/editor.rs:542-547 | the current byte, or out of bounds |
| `EditStateObject.EditState.ReadSpan` | crates/hxy-editor/src/editor.rs:203-208 | the current bytes of a range |
| `EditStateObject.EditState.RebuildPatchFromStack` | crates/hxy-editor/src/editor.rs:460-519 | after the rebuild the patched bytes are the replay of the undo stack; the patch is empty exactly when they are the base |
| `EditStateObject.EditState.RecordEntry` | crates/hxy-editor/src/editor.rs:351-406 | stacks, count, break flag, time and revision after one captured edit |
| `EditStateObject.EditState.ApplyLpWriteToPatch` | crates/hxy-editor/src/editor.rs:226-246 | the fast path leaves the view of the whole newest entry |
| `EditStateObject.EditState.RequestWrite` | crates/hxy-editor/src/editor.rs:193-224 | the new logical state and the answer; valid and showing the write just when no hazard is met; refusals change nothing |
| `EditStateObject.EditState.InsertAt` | crates/hxy-editor/src/editor.rs:322-349 | the same for an insertion, which may be at the end |
| `EditStateObject.EditState.SpliceBytes` | crates/hxy-editor/src/editor.rs:302-316 | the same for a splice |
| `EditStateObject.EditState.SpliceBatch` | crates/hxy-editor/src/editor.rs:252-300 | the same for a batch, recorded as one entry |
| `EditStateObject.EditState.ValidateBatch` | crates/hxy-editor/src/editor.rs:260-275 | the first fault of a batch, op by op |
| `EditStateObject.EditState.Interleave` | crates/hxy-editor/src/editor.rs:280-296 | the span with every op's bytes in place, in one pass |
| `EditStateObject.EditState.UndoEdit` | crates/hxy-editor/src/editor.rs:418-432 | the new logical state is the undo step, and the entry is handed out |
| `EditStateObject.EditState.RedoEdit` | crates/hxy-editor/src/editor.rs:434-448 | the new logical state is the redo step, and the entry is handed out |
| `EditStateObject.EditState.RevertAll` | crates/hxy-editor/src/editor.rs:408-416 | the base shows again, with both stacks emptied |
| `EditStateObject.EditState.PushHistoryBoundary` | crates/hxy-editor/src/lib.rs:433-435 | only the break flag changes |
| `EditStateObject.EditState.SetEditMode` | crates/hxy-editor/src/lib.rs:357-362 | mode, nibble and break flag change, nothing else |
| `HexTyping.TypingIsOneSplice` | crates/hxy-editor/src/lib.rs:490-525 | 2n digits typed in insert mode after a history boundary with no idle gap are one splice of the n composed bytes, leave the cursor n bytes on, and are one undo step that restores the original bytes and stack |
| `HexTyping.TypingIsOneOverwrite` | crates/hxy-editor/src/lib.rs:490-525 | 2n digits typed in replace mode over n bytes after a history boundary with no idle gap overwrite them with the n composed bytes, leave the cursor behind them, and are one undo step that restores what they were |
| `HexTyping.ComposedHalves` | crates/hxy-editor/src/lib.rs:485-489 | the i-th composed byte is sixteen times its first digit plus its second |
| `HexTyping.HighPressReplaces` | crates/hxy-editor/src/lib.rs:517-524 | a high digit in replace mode makes the byte's high half the digit, and leaves its low half and every other byte |
| `HexTyping.LowPressReplaces` | crates/hxy-editor/src/lib.rs:517-524 | a low digit makes the low half of whatever byte is there the digit, and leaves its high half and every other byte |
| `HexTyping.HighPressInserts` | crates/hxy-editor/src/lib.rs:498-510 | a high digit in insert mode or at the end puts in one byte, the digit in its high half and nothing in its low |
| `HexTyping.HexEditor.TypeHexDigit` | crates/hxy-editor/src/lib.rs:490-525 | one press does what the logical step says, in both typing modes and past the end; what the step does to the bytes is in `HighPressReplaces`, `LowPressReplaces` and `HighPressInserts` |
| `HexTyping.HexEditor.AdvanceCursorByte` | crates/hxy-editor/src/input.rs:164-170 | one byte on, never past the end, selection collapsed |
| `HexTyping.HexEditor.NoticeCursorMove` | crates/hxy-editor/src/input.rs:83-96 | a cursor moved from outside opens a new byte and a new undo step |
| `HexTyping.HexEditor.ApplyHexPresses` | crates/hxy-editor/src/input.rs:83-158 | a batch of presses is the presses in turn, after the frame-begin check |
| `ByteCacheModel.EvictForSound` | crates/hxy-core/src/cache.rs:358-368 | eviction removes a front stretch of the recency order, settles the totals, and ends with room for the incoming bytes or an empty map |
| `ByteCacheModel.AdmitIsExact` | crates/hxy-core/src/cache.rs:358-376 | putting an entry into the map keeps the totals exact if and only if an entry slot is free; otherwise they overstate by the evicted entry |
| `ByteCacheModel.InsertIsExact` | crates/hxy-core/src/cache.rs:349-378 | an insert keeps the totals exact if and only if eviction by bytes left an entry slot |
| `ByteCacheModel.CapacitySuffices` | crates/hxy-core/src/cache.rs:571-575 | while the number of sources leaves room, as 16 always do, whatever fits the byte budget fits the entry bound budget/64 KiB + 16 |
| `ByteCacheModel.SetLimitGood` | crates/hxy-core/src/cache.rs:239-256 | after a limit change totals are exact and within the new limit, and resizing the map drops nothing more |
| `ByteCacheModel.DropSourceGood` | crates/hxy-core/src/cache.rs:258-271 | exactly the chunks of the source go, and the totals follow |
| `ByteCacheModel.LookupGood` | crates/hxy-core/src/cache.rs:340-347 | a hit hands out the source's bytes; nothing is added or dropped |
| `ByteCacheModel.InsertGood` | crates/hxy-core/src/cache.rs:349-378 | all of the invariant survives an insert |
| `ByteCacheModel.StoreGood` | crates/hxy-core/src/cache.rs:415-434 | all of the invariant survives an overwrite |
| `ByteCacheModel.DropKeysGood` | crates/hxy-core/src/cache.rs:483-503 | all of the invariant survives an invalidation |
| `ByteCacheModel.DropKeysContents` | crates/hxy-core/src/cache.rs:483-503 | dropping keys takes their entries out of the map and no others |
| `ByteCacheModel.StoreContents` | crates/hxy-core/src/cache.rs:415-434 | an overwrite leaves the new entry in place of the one with its key, and nothing else new |
| `ByteCacheModel.ChunksWithin` | crates/hxy-core/src/cache.rs:567-575 | what fits a byte budget is at most one short chunk of each source and whole chunks |
| `ByteCacheModel.WholeChunkBudgets` | crates/hxy-core/src/cache.rs:567-575 | for budgets of whole chunks the entry bound leaves room if and only if there are at most 17 sources |
| `ByteCacheModel.WithinTheLimit` | crates/hxy-core/src/cache.rs:358-376 | the total is within every limit of at least one chunk |
| `CacheCrowding.EntryBoundIsExact` | crates/hxy-core/src/cache.rs:349-376 | for any number of sources and any limit: no insert into any good cache evicts behind the accounting if and only if as many chunks as can fit the limit are within the entry bound |
| `CacheCrowding.HiddenEvictionHappens` | crates/hxy-core/src/cache.rs:349-376 | otherwise a run of fetches from an empty cache fills the bound within the byte limit, and the next fetch, which fits the limit, evicts a chunk that stays on the books |
| `CacheInterleavings.EveryInterleavingIsTransparent` | crates/hxy-core/src/cache.rs:294-434 | any interleaving of lookup, source read and insert steps of any number of readers with peeks, refetches, limit changes, drops and invalidations keeps every cached chunk and every delivered prefix true to the sources |
| `CacheInterleavings.FinishedReadsAreTrue` | crates/hxy-core/src/cache.rs:294-325 | every finished read returned exactly the source's bytes, or past-the-end exactly when the range passes the end, or the source's own failure |
| `CacheInterleavings.FailuresComeFromTheSource` | crates/hxy-core/src/cache.rs:348 | a read fails only if its own read of the source failed |
| `CacheInterleavings.NextProgresses` | crates/hxy-core/src/cache.rs:294-379 | a reader's own turn brings it closer to its end and nothing else touches it |
| `CacheInterleavings.FairReadsFinish` | crates/hxy-core/src/cache.rs:294-379 | a read that is given its turn as often as it needs sections, three for each chunk, has finished, whatever ran in between |
| `CacheInterleavings.EveryInterleavingKeepsAccounts` | crates/hxy-core/src/cache.rs:239-434 | while the sources leave room, as 16 always do, after every step of every interleaving used bytes and each bucket are exact, no bucket is zero, no chunk was evicted behind the accounting, and the total is within a limit of at least one chunk |
| `ByteCacheObject.ByteCache.LookupChunk` | crates/hxy-core/src/cache.rs:340-347 | the lookup section: recency, counters and the bytes handed out |
| `ByteCacheObject.ByteCache.InsertChunk` | crates/hxy-core/src/cache.rs:349-378 | the insert section, which looks again first |
| `ByteCacheObject.ByteCache.EvictUntilFits` | crates/hxy-core/src/cache.rs:358-368 | the eviction loop does exactly what eviction from the old end of the recency order does |
| `ByteCacheObject.ByteCache.StoreChunk` | crates/hxy-core/src/cache.rs:415-434 | overwrite or insert a slot |
| `ByteCacheObject.ByteCache.DecrementAttribution` | crates/hxy-core/src/cache.rs:577-592 | a bucket that reaches zero is removed |
| `ByteCacheObject.ByteCache.SetBudget` | crates/hxy-core/src/cache.rs:239-256 | the state after a limit change |
| `ByteCacheObject.ByteCache.CloseSource` | crates/hxy-core/src/cache.rs:258-271 | the state after dropping a source |
| `ByteCacheObject.ByteCache.InvalidateRange` | crates/hxy-core/src/cache.rs:483-503 | exactly the chunks of the source that have a byte in common with the range go, chunks being 65536 bytes; every other entry stays as it is, and a good cache stays good |
| `ByteCacheObject.ByteCache.FetchChunk` | crates/hxy-core/src/cache.rs:330-379 | a whole fetch returns the chunk as the source has it and adds nothing but that chunk, whatever else is cached |
| `ByteCacheObject.ByteCache.ReadWith` | crates/hxy-core/src/cache.rs:294-325 | a range read through the cache is exactly the source's bytes, or its end, if what is cached of the range's own chunks is current, whatever is cached of other chunks and sources |
| `ByteCacheObject.ByteCache.RefetchWith` | crates/hxy-core/src/cache.rs:381-413 | every chunk of the range is overwritten in place, in order: whatever was cached of them before, what is cached afterwards is what the source says now, and nothing new is cached of other chunks |
| `ByteCacheObject.ByteCache.InvalidateThenRead` | crates/hxy-core/src/cache.rs:294-325 | whatever stale bytes are cached, a read of a range that was invalidated shows the source as it is now |
| `ByteCacheObject.ByteCache.RefetchThenRead` | crates/hxy-core/src/cache.rs:381-413 | and so does a read of a range that was fetched again |
| `CacheRecency.EveryRunIsInOrder` | crates/hxy-core/src/cache.rs:330-379 | over every run of fetches, whatever they evict, the map is in the order of last use and holds nothing unused |
| `CacheRecency.EvictsLeastRecentlyUsed` | crates/hxy-core/src/cache.rs:358-368 | what a fetch evicts was last used before everything it keeps: a hit saves its chunk from every eviction that spares one not used since |
| `CacheRecency.LastUsedIsKept` | crates/hxy-core/src/cache.rs:340-378 | what was used last is cached |
| `CacheRecency.FetchCountsOnce` | crates/hxy-core/src/cache.rs:340-352 | every fetch counts once: a hit if its chunk is cached, else a miss |
| `StreamingReads.Peek` | crates/hxy-core/src/cache.rs:441-479 | the true byte wherever its chunk is cached, zero elsewhere; the missing list is sorted, maximally coalesced and covers exactly the uncached chunks meeting the range |
| `StreamingReads.NoDemandIsExact` | crates/hxy-core/src/cache.rs:558-565 | a read that demands nothing is exact |
| `StreamingReads.PrefetchingTheDemandIsEnough` | crates/hxy-core/src/cache.rs:529-565 | after prefetching the demand, when it fits the budget beside what is cached, the next read is exact and demands nothing |
| `StreamingReads.StreamingSource.ReadNow` | crates/hxy-core/src/cache.rs:558-565 | a read never touches the inner source and appends exactly what was missing to the demand |
| `StreamingReads.StreamingSource.Prefetch` | crates/hxy-core/src/cache.rs:535-538 | a prefetch caches the chunks of the range, keeps the accounts, and fails exactly past the end |
| `StreamingReads.StreamingSource.ServeDemand` | crates/hxy-core/src/cache.rs:527-538 | the driver leaves the cache as fetching every demanded range in turn does, and no demand |
| `StreamingReads.StreamingSource.ReadServeRead` | crates/hxy-core/src/cache.rs:503-565 | read, serve the demand, read again: the second read is exact and demands nothing, when the range's chunks fit the budget beside what is cached |
| `BracketObject.FindOpen` | crates/hxy-editor/src/vim.rs:957-977 | the backward scan: the nearest open not closed before the cursor, or none |
| `BracketObject.FindClose` | crates/hxy-editor/src/vim.rs:978-996 | the forward scan: the close that balances it, or none |
| `BracketObject.ScansAgree` | crates/hxy-editor/src/vim.rs:946-1004 | the two scans together find the innermost pair, and none is enclosing when the second fails |
| `BracketObject.BracketRange` | crates/hxy-editor/src/vim.rs:946-1004 | `around`: the innermost matched pair enclosing the cursor, and nothing exactly when no pair does; inside: its interior, and nothing only when there is no pair or it is empty |
| `ExprRoundTrip.NoFalseCast` | crates/hxy-010-lang/src/parser.rs:129-176 | no printed parenthesis is taken for a cast |
| `ExprRoundTrip.LoopStops` | crates/hxy-010-lang/src/parser.rs:1282-1345 | the operator loop ends in front of a token that binds too weakly |
| `ExprRoundTrip.PrintOk` | crates/hxy-010-lang/src/parser.rs:1282-1513 | parsing undoes the minimal-parenthesis printer: literals, names, prefix, postfix, calls, `sizeof`, indexing, members, all binary operators, ternary and assignment, at every minimum power and in front of every token that does not continue |
| `ExprRoundTrip.BareOk` | crates/hxy-010-lang/src/parser.rs:1282-1513 | the same for a text without outer parentheses, whatever weaker operator follows |
| `ExprRoundTrip.ArgsOk` | crates/hxy-010-lang/src/parser.rs:1515-1527 | argument lists are read back |
| `ExprRoundTrip.CastIsDropped` | crates/hxy-010-lang/src/parser.rs:1463-1479 | a cast binds like a prefix operator and leaves no trace in the tree |
| `ExprRoundTrip.TruthKeywords` | crates/hxy-010-lang/src/parser.rs:1408-1415 | `true` is read as the literal 1 and `false` as 0 |
| `SignedTypes.SignInFront` | crates/hxy-010-lang/src/parser.rs:1544-1575 | `signed` or `unsigned` in front of a renamed integer type gives the type of the same width with that sign, whatever sign it had |
| `SignedTypes.OtherNamesStay` | crates/hxy-010-lang/src/parser.rs:1574-1574 | every other type name stays as it is, and with it the sign |
| `SignedTypes.AliasesStaySigned` | crates/hxy-010-lang/src/interp.rs:629-703 | so `unsigned INT` and four more built-in signed types stay signed |
| `ExprRoundTrip.BraceListIsItsFirst` | crates/hxy-010-lang/src/parser.rs:1437-1459 | a brace list, with or without a trailing comma, is read as its first element, and an empty one as zero |
| `StmtRoundTrip.TailOk` | crates/hxy-010-lang/src/parser.rs:1102-1235 | bit width, attributes and initializer are read back; a width ends in front of the `<` of the attributes |
| `StmtRoundTrip.AttrListOk` | crates/hxy-010-lang/src/parser.rs:1073-1091 | attribute lists are read back |
| `StmtRoundTrip.GroupOk` | crates/hxy-010-lang/src/parser.rs:1102-1235 | a declaration of any number of declarators, with dimensions before or behind the arguments and further ones that are dropped, is read as the tree of its declarators |
| `StmtRoundTrip.ForOk` | crates/hxy-010-lang/src/parser.rs:525-543 | a `for` with any of its clauses missing is read back |
| `StmtRoundTrip.StmtOk` | crates/hxy-010-lang/src/parser.rs:375-557 | the statement parser undoes the printer for every well-formed statement, in front of anything but an `else` it would take for its own |
| `ProgramRoundTrip.StmtRange` | crates/hxy-010-lang/src/parser.rs:375-557 | whatever statement is parsed is well formed, and an `else` behind it was its own |
| `ProgramRoundTrip.ReparseIsStable` | crates/hxy-010-lang/src/parser.rs:375-557 | printing what was parsed in front of the rest of the input and parsing again changes nothing |
| `ProgramRoundTrip.WellFormedIsTheRange` | crates/hxy-010-lang/src/parser.rs:375-557 | the well-formed trees are exactly those that some input is parsed to |
| `ProgramRoundTrip.ParamIsReference` | crates/hxy-010-lang/src/parser.rs:261-301 | a printed argument looks like a parameter if and only if it is `a & b`, `a` not being a sign |
| `ProgramRoundTrip.ArgumentsLook` | crates/hxy-010-lang/src/parser.rs:198-252 | the scan for the closing parenthesis passes exactly the printed arguments |
| `ProgramRoundTrip.ProgramOk` | crates/hxy-010-lang/src/parser.rs:46-53 | a program of well-formed statements is read back if and only if none of them is a field declaration that looks like a prototype |
| `ProgramRoundTrip.SourceRoundTrip` | crates/hxy-010-lang/src/parser.rs:30-53 | the same from text: spelled out with any white space, comments and directives between the tokens, a program is lexed and parsed back to itself |
| `TemplateParser.Parser.ParseExprBp` | crates/hxy-010-lang/src/parser.rs:1282-1381 | result and position are those of the grammar |
| `TemplateParser.Parser.ParsePrefixExpr` | crates/hxy-010-lang/src/parser.rs:1383-1513 | result and position are those of the grammar |
| `TemplateParser.Parser.DetectCast` | crates/hxy-010-lang/src/parser.rs:129-176 | how many tokens form a cast's type, zero when it is no cast |
| `TemplateParser.Parser.ParseCallArgs` | crates/hxy-010-lang/src/parser.rs:1515-1527 | result and position are those of the grammar |
| `TemplateParser.Parser.SeesFunctionDef` | crates/hxy-010-lang/src/parser.rs:198-252 | the lookahead scan answers the predicate that `ProgramRoundTrip.StmtLooks` is about |
| `TemplateParser.Parser.FirstArgLooksLikeParam` | crates/hxy-010-lang/src/parser.rs:261-301 | the parameter heuristic answers the predicate that `ProgramRoundTrip.ParamIsReference` is about |
| `TemplateParser.Parser.Statement` | crates/hxy-010-lang/src/parser.rs:375-433 | result and position are those of the grammar function that `StmtRoundTrip.StmtOk` inverts |
| `TemplateParser.Parser.BlockStatement` | crates/hxy-010-lang/src/parser.rs:483-491 | result and position are those of the grammar |
| `TemplateParser.Parser.FieldDeclaration` | crates/hxy-010-lang/src/parser.rs:1102-1235 | result and position are those of the grammar function that `StmtRoundTrip.GroupOk` inverts, with any number of declarators |
| `TemplateParser.Parser.TypeReference` | crates/hxy-010-lang/src/parser.rs:1237-1272 | result and position are those of the grammar |
| `TemplateParser.Parser.OptionalAttrs` | crates/hxy-010-lang/src/parser.rs:1073-1091 | result and position are those of the grammar function that `StmtRoundTrip.AttrsOk` inverts |
| `TemplateParser.Parser.ForStatement` | crates/hxy-010-lang/src/parser.rs:525-543 | result and position are those of the grammar function that `StmtRoundTrip.ForOk` inverts |
| `TemplateParser.Parser.Program` | crates/hxy-010-lang/src/parser.rs:46-53 | the items of a whole token vector are those of the grammar |
| `TemplateLexer.TokenizeAll` | crates/hxy-010-lang/src/lexer.rs:36-72 | the token loop collects exactly the lexer's tokens |
| `TokenSpelling.GapVanishes` | crates/hxy-010-lang/src/lexer.rs:138-204 | white space, line and block comments and directives between tokens are passed over |
| `TokenSpelling.CutOffVanishes` | crates/hxy-010-lang/src/lexer.rs:138-204 | a comment or directive that the end of the text cuts off is the end of the text |
| `TokenSpelling.StringFirst` | crates/hxy-010-lang/src/lexer.rs:273-304 | every string is read back from its quoted form: line breaks, tabs and quotes as letters behind a backslash, other control characters as hexadecimal escapes |
| `TokenSpelling.WideStringFirst` | crates/hxy-010-lang/src/lexer.rs:273-282 | a wide string is read like any other |
| `TokenSpelling.OctalByteReads` | crates/hxy-010-lang/src/lexer.rs:347-359 | three octal digits behind a backslash are a code, whatever follows |
| `TokenSpelling.HexDigitReads` | crates/hxy-010-lang/src/lexer.rs:333-346 | one hexadecimal digit is enough when no other follows |
| `TokenSpelling.CharFirst` | crates/hxy-010-lang/src/lexer.rs:306-364 | every character code is read back from its literal |
| `TokenSpelling.FloatFirst` | crates/hxy-010-lang/src/lexer.rs:238-271 | digits with a fraction, an exponent or both, and any suffix, are one float token |
| `TokenSpelling.DecimalFirst` | crates/hxy-010-lang/src/lexer.rs:238-256 | a decimal literal with any suffix has the value of its numeral, or zero beyond 64 bits |
| `TokenSpelling.PrefixedFirst` | crates/hxy-010-lang/src/lexer.rs:215-236 | a hexadecimal or binary literal, its prefix in either case and with any suffix, has the value of its numeral, or zero beyond 64 bits |
| `TokenSpelling.PunctFirst` | crates/hxy-010-lang/src/lexer.rs:391-460 | the longest operator is read |
| `TokenSpelling.SourceLexes` | crates/hxy-010-lang/src/lexer.rs:36-72 | every sequence of spellable tokens is lexed back, whatever trivia stands between them |
| `FuzzLexing.ExprLexes` | crates/hxy-010-lang/src/fuzz.rs:160-202 | an emitted expression is lexed into its tokens, whatever ends it: no two pieces run together |
| `FuzzLexing.StmtLexes` | crates/hxy-010-lang/src/fuzz.rs:104-158 | an emitted statement is lexed into its tokens at any depth |
| `FuzzLexing.ProgramLexes` | crates/hxy-010-lang/src/fuzz.rs:95-102 | the emitted text of every program is lexed into its tokens |
| `FuzzRoundTrip.NoCast` | crates/hxy-010-lang/src/parser.rs:129-176 | no emitted parenthesis is taken for a cast |
| `FuzzRoundTrip.ExprParses` | crates/hxy-010-lang/src/fuzz.rs:160-202 | an emitted expression is read back, a negative literal as the negation of a literal |
| `FuzzRoundTrip.StmtParses` | crates/hxy-010-lang/src/fuzz.rs:104-158 | an emitted statement is read back as its tree |
| `FuzzRoundTrip.NoFunction` | crates/hxy-010-lang/src/parser.rs:198-252 | no emitted statement is taken for a function definition |
| `FuzzRoundTrip.ProgramParses` | crates/hxy-010-lang/src/fuzz.rs:95-102 | the tokens of every program parse to its tree |
| `FuzzRoundTrip.EmitThenParse` | crates/hxy-010-lang/src/fuzz.rs:95-202 | emit, lex and parse give, for every program with nested ifs, whiles and expressions, exactly its tree |
| `FuzzEmit.Emitter.EmitExpr` | crates/hxy-010-lang/src/fuzz.rs:160-202 | pushes exactly the expression's text |
| `FuzzEmit.Emitter.EmitStmt` | crates/hxy-010-lang/src/fuzz.rs:104-158 | pushes exactly the statement's text at its depth |
| `FuzzEmit.Emit` | crates/hxy-010-lang/src/fuzz.rs:95-102 | the text of the whole program |
| `TemplateRun.StuckCounter.Observe` | crates/hxy-010-lang/src/interp.rs:3495-3515 | counts iterations that did not move the cursor and fails at 1000 |
| `TemplateRun.Interpreter.Eval` | crates/hxy-010-lang/src/interp.rs:1640-1930 | evaluation ends, keeps the step and cursor bounds, and in a plain template reads and emits nothing; without a live user call it enters no statement |
| `TemplateRun.Interpreter.CallNamed` | crates/hxy-010-lang/src/interp.rs:2282-2320 | a user function's body ends, however it recurses, up to its first `return` or `break`, as `TemplateMeaning.CallMeans` says |
| `TemplateRun.Interpreter.ExecStmt` | crates/hxy-010-lang/src/interp.rs:721-849 | every statement ends; a finished one cost a step; under a parent it adds nodes that exactly cover what the cursor passed; below the limit and away from the clock `break`, `continue` and an empty `return` end with their own flow and change nothing but the step count; where nothing depends on the values read, it leaves exactly the flow, nodes, cursor, diagnostics and step count of `TemplateMeaning.StmtMeans` |
| `TemplateRun.Interpreter.ExecLoop` | crates/hxy-010-lang/src/interp.rs:783-838 | every loop ends, and without seeks completes fewer than 1000*(len+1) iterations; where nothing depends on the values read, it leaves exactly the flow, nodes, cursor, diagnostics and step count of `TemplateMeaning.LoopMeans` |
| `TemplateRun.Interpreter.ExecBlock` | crates/hxy-010-lang/src/interp.rs:886-915 | a block ends, its nodes cover what the cursor passed, and one that goes on has entered every one of its statements; where nothing depends on the values read, it leaves exactly the flow, nodes, cursor, diagnostics and step count of `TemplateMeaning.BlockMeans` |
| `TemplateRun.Interpreter.ExecSwitch` | crates/hxy-010-lang/src/interp.rs:856-884 | a switch ends, its nodes cover what the cursor passed, and no `break` gets out of it |
| `TemplateRun.Interpreter.FindArm` | crates/hxy-010-lang/src/interp.rs:862-871 | an arm is chosen, or none only if there is no default; with literal patterns the one of `TemplateMeaning.ArmChosen` |
| `TemplateRun.Interpreter.ReadField` | crates/hxy-010-lang/src/interp.rs:1031-1054 | a read that starts behind the end does not fail; where nothing depends on the values read, it leaves exactly the flow, nodes, cursor, diagnostics and step count of `TemplateMeaning.ReadMeans` |
| `TemplateRun.Interpreter.FindVariant` | crates/hxy-010-lang/src/interp.rs:1299-1304 | the variants of an enum, whose failures are discarded: behind the limit each live call enters one more statement |
| `TemplateRun.Interpreter.ExecFieldDecl` | crates/hxy-010-lang/src/interp.rs:917-1058 | a declaration ends, whether it is read, local or a bitfield; one that is read adds nodes that cover what the cursor passed; where nothing depends on the values read, it leaves exactly the flow, nodes, cursor, diagnostics and step count of `TemplateMeaning.FieldMeans` |
| `TemplateRun.Interpreter.ReadScalar` | crates/hxy-010-lang/src/interp.rs:1219-1380 | one field: a node over the bytes read, or a structure with its nodes; where nothing depends on the values read, it leaves exactly the flow, nodes, cursor, diagnostics and step count of `TemplateMeaning.ScalarMeans` |
| `TemplateRun.Interpreter.ReadRecord` | crates/hxy-010-lang/src/interp.rs:1386-1395 | a structure's length is how far its body moved the cursor; its nodes fill it |
| `TemplateRun.Interpreter.ReadOverlay` | crates/hxy-010-lang/src/interp.rs:1396-1405 | a union is one node that encloses the nodes of its body, with the cursor left behind the farthest; every statement of the body was entered; where nothing depends on the values read, it leaves exactly the flow, nodes, cursor, diagnostics and step count of `TemplateMeaning.OverlayMeans` |
| `TemplateRun.Interpreter.ReadArray` | crates/hxy-010-lang/src/interp.rs:1422-1588 | an array is one node, or a node filled by its elements; where nothing depends on the values read, it leaves exactly the flow, nodes, cursor, diagnostics and step count of `TemplateMeaning.ArrayMeans` |
| `TemplateRun.Interpreter.Run` | crates/hxy-010-lang/src/interp.rs:593-632 | every run ends; the statement entries beyond the limit are exactly the limit failures discarded or ending the run, so a firm or plain template makes at most limit + 1; without seeks no loop runs 1000*(len+1) iterations; a plain run without diagnostics emits a forest covering exactly what the cursor passed; where nothing depends on the values read, the run ends with exactly the nodes, cursor, diagnostics and step count of `TemplateMeaning.ProgramMeans` |
| `TemplateRun.EntriesBehindTheLimit` | crates/hxy-010-lang/src/interp.rs:1299-1304 | a template under a limit of two makes two entries and as many more as wanted: an enum whose variants call a function |
| `TemplateLaws.JumpsAreSteps` | crates/hxy-010-lang/src/interp.rs:839-846 | below the limit and away from the clock, `break`, `continue` and `return` are one step, end with their own flow, and change nothing else |
| `TemplateLaws.BehindAJump` | crates/hxy-010-lang/src/interp.rs:907-912 | what stands behind a jump in a block, a block or branch that always jumps included, is not run |
| `TemplateLaws.BehindAReturn` | crates/hxy-010-lang/src/interp.rs:2282-2320 | nor what stands behind a `return` or a `break` in a function |
| `TemplateLaws.ContinueInAFunction` | crates/hxy-010-lang/src/interp.rs:2282-2320 | while a `continue` in a function goes on with the next statement |
| `TemplateLaws.TopLevelJumps` | crates/hxy-010-lang/src/interp.rs:606-613 | a template ends at a `return` at its top, and goes on behind a `break` or `continue` |
| `TemplateLaws.BreakingLoopRunsOnce` | crates/hxy-010-lang/src/interp.rs:783-838 | each of the three loops over a body that reads any fields and then breaks or returns reads them once, in number of fields + 3 steps, whatever stands behind; a `return` goes on, a `break` does not |
| `TemplateLaws.ContinueLooksAtTheTest` | crates/hxy-010-lang/src/interp.rs:797-811 | a `do` body that continues is run once when the test is zero |
| `TemplateLaws.IfTakesItsBranch` | crates/hxy-010-lang/src/interp.rs:774-782 | an `if` runs the branch its condition says |
| `TemplateLaws.FalseLoopsDoNothing` | crates/hxy-010-lang/src/interp.rs:783-834 | a loop whose test is zero at once does nothing |
| `TemplateLaws.FieldsAreLaid` | crates/hxy-010-lang/src/interp.rs:931-1058 | any run of built-in fields adds one node each, end to end from the cursor, and moves the cursor over them |
| `TemplateLaws.FieldBehindTheEnd` | crates/hxy-010-lang/src/interp.rs:1031-1054 | a field that starts at or behind the end is skipped with a diagnostic, and the cursor is left at the end |
| `TemplateLaws.LocalsReadNothing` | crates/hxy-010-lang/src/interp.rs:923-944 | `local` and `const` declarations read nothing |
| `TemplateLaws.AliasIsItsSource` | crates/hxy-010-lang/src/interp.rs:740-748 | a field of a type just defined as an alias is read as the type it stands for |
| `TemplateLaws.AliasHasItsSize` | crates/hxy-010-lang/src/interp.rs:968-973 | and as many of it as the alias says |
| `TemplateLaws.EnumIsItsBacking` | crates/hxy-010-lang/src/interp.rs:1268-1330 | an enum is a node of four bytes, or of its backing type's |
| `TemplateLaws.StructIsItsFields` | crates/hxy-010-lang/src/interp.rs:1386-1395 | a structure of such fields is a node as long as they are together, and they lie in it end to end |
| `TemplateLaws.UnionIsItsWidest` | crates/hxy-010-lang/src/interp.rs:1396-1405 | a union is a node as long as its widest field; all fields begin where it does |
| `TemplateLaws.ArrayIsOneNode` | crates/hxy-010-lang/src/interp.rs:1431-1475 | an array of a built-in type is one node of count times width bytes, or of what is left of the source and then there is a diagnostic; a negative count is none |
| `TemplateLaws.ArrayIsItsElements` | crates/hxy-010-lang/src/interp.rs:1520-1586 | an array of structures is a node as long as its elements together, each a node with its fields, end to end |
| `TemplateLaws.ArmsFallThrough` | crates/hxy-010-lang/src/interp.rs:872-883 | the arm chosen and all behind it run as one block, and a `break` in it ends the `switch` and nothing else |
| `TemplateLaws.ArmIsFirst` | crates/hxy-010-lang/src/interp.rs:862-871 | the first arm with the value is chosen, or else the first without a pattern, or else none |
| `NodeForest.SegmentComposes` | crates/hxy-010-lang/src/interp.rs:886-915 | stretches of nodes under one parent compose |
| `NodeForest.RecordCloses` | crates/hxy-010-lang/src/interp.rs:1386-1395 | a record whose children fill it is one node under its own parent |
| `NodeForest.OverlayCloses` | crates/hxy-010-lang/src/interp.rs:1396-1405 | the same for a union that encloses its fields |
| `NodeForest.ForestNests` | crates/hxy-010-lang/src/interp.rs:1219-1588 | a parent has a smaller index, is a structure, and its span contains the child's |
| `NodeForest.ForestConserves` | crates/hxy-010-lang/src/interp.rs:1386-1395 | a non-union structure is exactly as long as its direct children together |
| `NodeForest.ForestSiblings` | crates/hxy-010-lang/src/interp.rs:1219-1588 | siblings in a non-union structure, or at the top, are in order and disjoint |
| `ScopeLookup.UncountedIsUnbound` | crates/hxy-010-lang/src/interp.rs:2082-2094 | a name no scope binds is found by no walk, and the other way round |
| `ScopeLookup.ScopeStack.BindVar` | crates/hxy-010-lang/src/interp.rs:1166-1172 | the innermost scope binds the name; every count stays the number of binding scopes |
| `ScopeLookup.ScopeStack.PopScope` | crates/hxy-010-lang/src/interp.rs:1176-1187 | the innermost scope goes; every count stays exact and none stays at zero |
| `ScopeLookup.ScopeStack.LookupVar` | crates/hxy-010-lang/src/interp.rs:2082-2094 | the lookup that may skip the walk finds what the walk finds |
| `ScopeLookup.ScopeStack.StoreIdent` | crates/hxy-010-lang/src/interp.rs:2173-2184 | afterwards the name shows the value and every other name what it showed; no scope is added |
| `ScopeLookup.ScopeStack.PushPathSegment` | crates/hxy-010-lang/src/interp.rs:485-491 | the cached prefix is the joined path |
| `ScopeLookup.PushKeepsPrefix` | crates/hxy-010-lang/src/interp.rs:485-491 | pushing keeps the cached prefix the joined path behind every path but a lone empty segment |
| `ScopeLookup.ScopeStack.PopPathSegment` | crates/hxy-010-lang/src/interp.rs:493-504 | the cached prefix is the joined path without its last segment |
| `Bitfields.BitfieldReader.ReadBitfield` | crates/hxy-010-lang/src/interp.rs:1090-1133 | one read: the slot, the cursor and the value after it, or nothing changed at the end of the source; which bits these are is in `FieldsOfAWord` |
| `Bitfields.WordRoundTrip` | crates/hxy-010-lang/src/interp.rs:3619-3632 | a storage word decodes to what was encoded, in both byte orders |
| `Bitfields.ExtractsStored` | crates/hxy-010-lang/src/interp.rs:1112-1122 | a read finds the stored bits and leaves the rest of the word to the fields after it |
| `Bitfields.SignExtendIs` | crates/hxy-010-lang/src/interp.rs:1125-1131 | the two shifts are two's-complement sign extension |
| `Bitfields.ReadingUndoesPacking` | crates/hxy-010-lang/src/interp.rs:1063-1133 | for any types, widths and values packed greedily, in either direction and byte order, successive reads return the values modulo two to the declared width (the type's, if that is less), in its signed or unsigned range, and the cursor moves over exactly the words packed |
| `Bitfields.FieldsOfAWord` | crates/hxy-010-lang/src/interp.rs:1090-1133 | fields of one type that fit its word lie in the next word of the source side by side, from its low end right to left and from its high end left to right, each as many bits as declared; so many bits are then used up and only that word is read |
| `Bitfields.FieldsOfAnOpenWord` | crates/hxy-010-lang/src/interp.rs:1090-1133 | and in a word already open behind the bits used up, without reading on |
| `Bitfields.WordDigits` | crates/hxy-010-lang/src/interp.rs:3619-3632 | the bytes of a word are its base-256 digits, from the low end in one byte order and from the high end in the other |
| `Bitfields.WiderReadsWhole` | crates/hxy-010-lang/src/interp.rs:1092-1092 | a width beyond the type reads like the whole type |
| `Bitfields.InRangeIsExact` | crates/hxy-010-lang/src/interp.rs:1125-1131 | a value its field can hold comes back as it is |
| `Crc32.Crc32Ieee` | crates/hxy-010-lang/src/interp.rs:3634-3644 | the two loops compute the register function, complemented |
| `Crc32.EmptyChecksum` | crates/hxy-010-lang/src/interp.rs:3634-3644 | the checksum of nothing is zero |
| `Crc32.CodeWordResidue` | crates/hxy-010-lang/src/interp.rs:3634-3644 | every message with its own checksum behind it, low byte first, has the checksum 0x2144DF1C |
| `Crc32.ShiftByte` | crates/hxy-010-lang/src/interp.rs:3639-3641 | eight conditional shifts are the eightfold shift |
| `ShiftRegister.Shift8Linear` | crates/hxy-010-lang/src/interp.rs:3639-3641 | eight shifts are linear over xor |
| `ShiftRegister.Shift8Back` | crates/hxy-010-lang/src/interp.rs:3639-3641 | eight shifts can be run backwards from a register with a clear top byte |
| `Crc32.RegisterLinear` | crates/hxy-010-lang/src/interp.rs:3634-3644 | the register is linear over xor in start and message |
| `Crc32.RegisterInjective` | crates/hxy-010-lang/src/interp.rs:3634-3644 | no message brings two different registers together |
| `Crc32.FourByteWindowsAreDetected` | crates/hxy-010-lang/src/interp.rs:3634-3644 | two messages that differ only inside four consecutive bytes, at any place and length, have the same checksum if and only if they are equal |
| `Crc32.FiveByteWindowsCanHide` | crates/hxy-010-lang/src/interp.rs:3634-3644 | four is the most: any first byte of a five-byte window can change with the checksum kept |
| `CalcClosers.AdditiveExtends` | crates/hxy-calculator/src/parser.rs:257-271 | what an expression followed by white space and closers parses to, by induction over the grammar |
| `CalcClosers.ParenExtends` | crates/hxy-calculator/src/parser.rs:312-325 | a waiting parenthesis takes exactly one more closer |
| `CalcClosers.ClosersAreHarmless` | crates/hxy-calculator/src/parser.rs:233-325 | k closers appended to an input that parses give the same tree if and only if at most as many parentheses were waiting at its end and it does not end in white space other than blanks; otherwise the trailing input is exactly what is left over |
| `CalcClosers.LineBreakBeforeCloser` | crates/hxy-calculator/src/parser.rs:233-255 | an input ending in a line break parses with a parenthesis open but cannot be closed |
| `CalcClosers.UnitClosesEarly` | crates/hxy-calculator/src/parser.rs:312-325 | a unit behind a missing closer closes the parenthesis: open in the text is not waiting |
| `CalcRoundTrip.ParseUndoesPrint` | crates/hxy-calculator/src/parser.rs:233-325 | every tree of literals, paths, signs and the five operators is read back from its text, written with parentheses only where precedence and left association need them, any blanks between the tokens and any white space around |
| `CalcRoundTrip.UnitsAreScales` | crates/hxy-calculator/src/parser.rs:419-433 | the nine units are the powers of a thousand and of 1024 their names say |
| `CalcRoundTrip.OnlyScalesAreUnits` | crates/hxy-calculator/src/parser.rs:419-433 | and no other word is a unit |
| `CalcRoundTrip.NumberTimesUnit` | crates/hxy-calculator/src/parser.rs:327-335 | a number and a unit in any case, with blanks between them, are one literal, their product, and fail if it needs more than 127 bits |
| `CalcRoundTrip.UnitLiteral` | crates/hxy-calculator/src/parser.rs:327-335 | the same from a whole input |
| `CalcRoundTrip.UnitBehindParens` | crates/hxy-calculator/src/parser.rs:312-325 | a unit behind a closed group multiplies the group |
| `CalcRoundTrip.CloserTrails` | crates/hxy-calculator/src/parser.rs:246-249 | a closer nothing waits for is left over, with all that follows it |
| `CalcRoundTrip.GroupedDecimal` | crates/hxy-calculator/src/parser.rs:359-366 | a decimal numeral with separators anywhere has the value of its digits, or fails |
| `CalcRoundTrip.GroupedHex` | crates/hxy-calculator/src/parser.rs:349-357 | and so has a hexadecimal one behind a prefix in either case |
| `CalcRoundTrip.TooBigIsRefused` | crates/hxy-calculator/src/parser.rs:386-408 | an instance number beyond 32 bits and an index beyond 64 are refused |
| `CalcRoundTrip.WhiteByCodePoint` | crates/hxy-calculator/src/parser.rs:237-237 | what is trimmed at the ends is the white space of Unicode |
| `CalcExcess.AdditiveBalances` | crates/hxy-calculator/src/parser.rs:257-325 | an expression opens as many parentheses more than it closes as were waiting at the end, closed by a unit, or left behind by a missing closer |
| `CalcExcess.AdditiveSticks` | crates/hxy-calculator/src/parser.rs:312-325 | behind a missing closer without a unit nothing can go on, so the input does not parse |
| `CalcExcess.ExcessIsWaitingOrClosedByUnit` | crates/hxy-calculator/src/parser.rs:233-325 | for every input that parses, the opening parentheses less the closing ones are those waiting at the end and those a unit closed behind a missing closer |
| `CalcExcess.ClosingTheExcess` | crates/hxy-calculator/src/parser.rs:233-325 | closing what the text leaves open gives the same tree if and only if the closers are at most the excess less the parentheses a unit closed |
| `CalcPaths.Display` | crates/hxy-calculator/src/parser.rs:135-159 | the pushed text is the displayed path |
| `CalcPaths.ReadsPath` | crates/hxy-calculator/src/parser.rs:368-408 | the path parser undoes display |
| `CalcPaths.ParseUndoesDisplay` | crates/hxy-calculator/src/parser.rs:135-159 | parse undoes display for every path of valid identifiers |
| `CalcParser.Cursor.Additive` | crates/hxy-calculator/src/parser.rs:257-271 | tree and cursor are those of the grammar that `CalcRoundTrip.AdditiveOk` inverts |
| `CalcRoundTrip.AdditiveOk` | crates/hxy-calculator/src/parser.rs:257-271 | a printed sum is read back in front of anything that does not multiply, its operators from left to right |
| `CalcParser.Cursor.Multiplicative` | crates/hxy-calculator/src/parser.rs:273-288 | tree and cursor are those of the grammar that `CalcRoundTrip.ProductOk` inverts |
| `CalcRoundTrip.ProductOk` | crates/hxy-calculator/src/parser.rs:273-288 | a printed product is read back in front of anything that may follow an operand |
| `CalcParser.Cursor.Unary` | crates/hxy-calculator/src/parser.rs:290-298 | tree and cursor are those of the grammar |
| `CalcParser.Cursor.ParenExpr` | crates/hxy-calculator/src/parser.rs:312-325 | tree and cursor are those of the grammar |
| `CalcParser.Cursor.NumberWithUnit` | crates/hxy-calculator/src/parser.rs:327-335 | value and cursor are those of the grammar; overflow fails |
| `CalcParser.Cursor.ParsePath` | crates/hxy-calculator/src/parser.rs:368-374 | path and cursor are those of the grammar |
| `CalcParser.ParseInput` | crates/hxy-calculator/src/parser.rs:233-251 | tree or error as the grammar says, which reads every printed tree back: `CalcRoundTrip.ParseUndoesPrint` |

## Left out

- `PatchOverlay.WriteLp`: suture is not part of this model; its patch is a sorted list of disjoint replacements and its `write` is modelled for length-preserving patches only, anything else being refused, which makes the editor rebuild.
- `EditStateObject.EditState.RequestWrite`: offsets are unbounded naturals, so the saturation and overflow of 64-bit sums are not modelled; base sources do not fail, poisoned locks do not occur.
- `HexTyping.HexEditor.ApplyHexPresses`: stated for batches no press of which meets a hazard of recording; `TypingIsOneSplice` shows that a typed run meets none.
- `HexTyping.HexEditor.TypeHexDigit`: scroll pinning, ASCII presses, backspace and navigation presses are not modelled.
- `CacheInterleavings.FinishedReadsAreTrue`: sources do not change; of a changing source only what one thread reads after an invalidation or a refetch is described, by `ByteCacheObject.ByteCache.InvalidateThenRead` and `RefetchThenRead`.
- `ByteCacheObject.ByteCache.ReadWith`: one thread's reads; concurrent ones are in `CacheInterleavings`. Statistics are fields of the state, the formatted report is not modelled.
- `BracketObject.BracketRange`: depths are unbounded, not 32-bit; reads of bytes below the length do not fail; quotes, words and the other text objects are not modelled.
- `ExprRoundTrip.PrintOk`: casts and brace lists are not printed, since the parser drops casts and all but a list's first element.
- `TemplateParser.Parser.Statement`: `typedef`, `switch`, inline structures, unions and enums, and function definitions are reported as unsupported where they begin; spans, float values and error wording are not modelled.
- `TemplateLexer.TokenizeAll`: `#define` replacement is not modelled; directives are skipped. Emitted programs have no `#`, and spelled sources have none but in directives that define nothing.
- `FuzzRoundTrip.EmitThenParse`: trees without spans.
- `TemplateRun.Interpreter.Run`: values, names and storage paths are left open, so conditions, counts and failures are arbitrary; the step counter is unbounded, so a limit of 2^64-1, at which it saturates, is not covered; the node claims are for templates without seeks, bitfields and user calls and for runs without diagnostics; recursion depth of the host is not limited.
- `TemplateRun.Interpreter.ExecBlock`: which statement stops the block is determined only where `TemplateMeaning.BlockMeans` is, not where it depends on values read.
- `TemplateRun.Interpreter.ExecSwitch`: the same for the arm that matches.
- `TemplateMeaning.StmtMeans`: what fails, what a seek, a bitfield, a string, a value that is not a literal or a look at the clock decides is left open there.
- `TemplateRun.Interpreter.ReadBitfield`: a node over an opened or still open word; the bits are in `Bitfields`.
- `Bitfields.BitfieldReader.ReadBitfield`: padding disabled, enum bases and the nodes emitted are not modelled; a zero width reads zero without the shift by 64 that the source's left-to-right order would do.
- `CalcClosers.ClosersAreHarmless`: positions in error messages are not modelled.
- `ScopeLookup.ScopeStack.LookupVar`: the scope part of a lookup; enum variants, path aliases and stored fields, tried after it, are not modelled.
- `set_undo_stack`, `set_redo_stack`, `swap_source_keep_patch`: they install a stack or a patch without the rest of the invariant.
- Expression values, string and date builtins, `sizeof_type`, Adler-32: easy per-function facts.
- The ImHex interpreter, the plugin host, the widgets, the command line, settings and palettes: not part of this model.
