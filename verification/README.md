# Verified models of the log, snapshot and build-cache core

This project models the parts of the remote build orchestrator whose correctness is hard to see by reading
one function at a time, and proves what they promise. Each module follows one component; a method that
loops or changes state in the original is a method here, tied to a specification function, and the
promises are lemmas about that function over all inputs or all runs.

**Log page presenter** (`LogPresentation`, `LogPresentationLaws`, `LogRawRun`, `LogPaging`, `LogReplacement`,
`LogPages`, `LogStuckPages`, `LogUnicode`, `LogLines`, `ChunkLayout`, `ControlSequences`). `PresentLogChunks` is the paged byte machine: control sequences, UTF-8 scalars, an
output and a scan budget, line collapsing with rollback, and the resume point. `Strip` is one unbounded
pass over the raw bytes. Pages resumed from their own state give the same text as that pass. `LogUnicode` and
`LogLines` tell pages in code points (section 3 of RFC 3629) and in lines.

**Log transport** (`Redactor`, `RedactorLaws`, `RedactorAlone`, `RedactorBatch`, `RedactorOrder`, `RedactorText`, `ChunkIndex`,
`IndexSeek`, `IndexTail`, `IndexText`, `IndexCheckpoints`, `Spool`, `SpoolRuns`, `SpoolSending`, `SpoolAcknowledgements`, `WindowsFrames`). The stream redactor against redaction of the whole text; the chunk index,
its sparse checkpoints and its backward reader against the full scan; the spool over runs of appends,
crashes at any byte and reopenings; the bounded sender over runs of offers, send failures,
acknowledgements, adoptions and interleaved replays, what is acknowledged read off the events; the Windows
helper's frames against any cutting.

**Snapshots** (`TarHeader`, `TarArchive`, `TarFormat`, `JsonText`, `Canonical`, `CanonicalForm`, `Overlay`, `OverlayApply`,
`OverlayLaws`, `OverlayTerms`).
The ustar writers and reader (IEEE Std 1003.1, `pax` utility, ustar Interchange Format), the size estimate,
the canonical text behind `content_id` (strings escaped per section 7 of RFC 8259), and the git overlay:
base tree plus plan against the working tree. `TarFormat`, `CanonicalForm` and `OverlayTerms` say byte by byte,
character by character and letter by letter what is written, without the helpers that write it.

**Build cache** (`BuildCache`, `BuildCacheRuns`, `CacheAnswers`, `CacheEviction`, `CacheQuota`, `CacheRounds`). One key as a state machine
whose steps are the locked sections, the moves of a publication, job writes, passing time, sweeps, evictions
and crashes; and one eviction round over the whole store.

`Bytes`, `Lines` and `Sorting` hold shared list facts.

## Where the code and its promises part

Each of these has the exact condition under which the promise is kept, for all inputs, and a lemma with a
concrete input that breaks it; for streaming with several secrets that share characters with the marker the
condition is sufficient only.

- The loop that moves past a scalar keeps the length of the chunk it began in
  (packages/executor/src/log-presentation.ts:226-239). Pages over several chunks count right exactly when every
  overrun fits the later chunks as that loop measures them (`ChunkLayout.SafeLayouts`); one chunk, or three bytes
  and more in every chunk but the last, is always right (`ChunkLayout.LoneLeadByteIsMiscounted`).
- With collapsing on, a line that outgrows 64 KiB is gone if the page has no room for it
  (packages/executor/src/log-presentation.ts:121-124): exactly when the unbounded pass comes, within the scan cap,
  to a text that fits the page with a scalar that makes its last line too long and does not fit
  (`LogRawRun.LosesTextExactlyWhenOverlong`, `LogRawRun.LongLineIsLost`).
- A literal U+FFFD in the log is taken for a broken scalar and can be cut. A page of well-formed UTF-8 is
  well-formed exactly when its budget does not fall inside a literal U+FFFD, and every budget gives a well-formed
  first page exactly when the text within the scan cap has no U+FFFD at byte 2 or later
  (`LogReplacement.EveryBudgetIsWellFormedExactlyWithoutReplacements`, `LogPaging.ReplacementCharacterSplits`).
- A page that was cut short can give back the very place it was asked for, and paging then goes no further: exactly
  when it begins with text, and the first scalar asks for more than the scan cap or, with collapsing on, the first
  line is longer than the page, or out of reach of the scan cap, without outgrowing 64 KiB
  (`LogStuckPages.PageIsStuckExactly`, `LogStuckPages.LongLineSticks`).
- Past the bound on a control payload the parser waits for a BEL or any backslash. A BEL-ended command leaves no
  trace exactly when its payload has no backslash past the bound; an ST-ended one needs besides that the payload is
  not one or two bytes over it; a long control function is swallowed with all text up to the next BEL or backslash
  (`ControlSequences.BellCommandCloses`, `TerminatedCommandCloses`, `ControlFunctionCloses`, `LateBackslashReopens`;
  `LongCommandTakesTextAlong`, `LongFunctionTakesTextAlong`).
- A secret can be put together by its own replacement exactly when it contains `[REDACTED]`, lies inside it, begins
  with a proper end of it, or ends with a proper beginning of it that it does not itself begin with
  (`RedactorLaws.OneSecretSurvivesExactlyWhenItMeets`, `RedactorLaws.MarkerCharactersMatter`).
- Streaming differs from redaction of the whole text for one secret exactly when it has two characters or more and
  begins with a proper end of the marker or holds the marker before its last character
  (`RedactorAlone.StreamingEqualsReplacementExactly`, `RedactorAlone.KeptEndMatters`); for several secrets without
  marker characters exactly when, in the order they are replaced in, one occurs in an earlier one other than as its
  end, or a proper end of it begins an earlier one (`RedactorOrder.StreamingEqualsBatchExactly`,
  `RedactorBatch.EarlyPassShowsTheRest`).
- A replay against a willing connection delivers everything unacknowledged exactly when nothing is owed or some
  replayed chunk is new to the queue, unacknowledged, and finds room
  (`SpoolSending.ReplayDeliversExactlyWhenSomethingPumps`). A replay of chunks that are all queued already, as after
  a failed send, or against a full queue sends nothing (`QueuedChunkReplaysSilently`, `FullQueueReplaysSilently`).
- An index cut short by a crash: the tail reader takes the unterminated last piece for a line, the scan does not, so
  they agree exactly when that piece is no acceptable record, or just repeats the last one to a caller asking for one
  (`IndexTail.TailAgreesExactly`, `IndexTail.TailReadsTheCutRecord`).
- A reader of the index gives a line up when a block of the file ends in it more than 1 MiB behind its beginning, so
  which records it yields depends on how the file arrives; none is lost if no line so long holds a record
  (`ChunkIndex.ScanIndex`, `ChunkIndex.ShownScans`, `ChunkIndex.BlocksDecide`).
- The overlay plan is right exactly for clean statuses (`OverlayLaws.OverlayGivesTheWorkingTree`): it ships a
  file that is not there for MD, AD, RD and unmerged-and-gone entries, deletes the source of a copy, and
  cannot write a file over a directory the base leaves behind.
- An absolute path of 101 bytes with no other usable slash comes back from an archive without its first slash, a
  backslash comes back as a slash, mode 0 comes back as 0644, and a mode or size with more octal digits than its field
  is cut (`TarHeader.SplitThenJoin`, `TarArchive.TarRoundTrip`; `TarHeader.LongRootPathLosesItsSlash`,
  `TarArchive.BackslashComesBackAsSlash`, `TarArchive.ModeZeroComesBackAs0644`).
- A cache eviction round removes a temporary directory last modified the retention time ago even while its job
  writes below it; a published copy is whole exactly when no round met it that late after its first piece
  (`BuildCacheRuns.PublishedCopyIsWholeExactlyWhenNotMetLate`, `BuildCacheRuns.SweptCopyIsPublishedIncomplete`).
- An idle published key can be evicted exactly when its meta file is readable and, since its count began, no
  release timed out and the agent never died with a handle of it out
  (`BuildCacheRuns.IdleKeyIsEvictableExactlyWhenNotStranded`); such a key outlives every later round
  (`BuildCacheRuns.CrashStrandsAKeyInUse`, `LeakedUserStaysCounted`, `TornCountIsNeverEvicted`).
- The quota of an eviction round counts only keys that are not in use. The whole store ends within it exactly when
  some run of forced evictions leaves the keys in use and the rest within it; when only the quota presses, that is a
  condition on sizes (`CacheQuota.StoreEndsWithinQuotaExactly`, `CacheQuota.StoreEndsWithinQuotaBySize`,
  `CacheQuota.BusyKeysAreNotCounted`).

## Model

| member | source | states |
|---|---|---|
| LogPresentation.PresentLogChunks | packages/executor/src/log-presentation.ts:72-321 | the imperative page loop, chunk by chunk with its budgets and rollback, computes the page of the specification `Present` for every layout of chunks, state and options, including refused options |
| LogPresentation.GatherScalar | packages/executor/src/log-presentation.ts:184-198 | the look-ahead over chunk ends collects exactly the next `width` raw bytes, or all that are left |
| LogPresentation.AdvancePast | packages/executor/src/log-presentation.ts:226-239 | the advance loop as written, with the stale chunk length, lands where `AdvanceScalar` says |
| LogPresentation.TakeControl | packages/executor/src/log-presentation.ts:252-305 | one control byte steps the parser as the byte-level step does, whatever follows; a byte is handed back only on leaving escape mode for ground |
| LogPresentation.ReadText | packages/executor/src/log-presentation.ts:182-251 | ground state reads one whole scalar, one broken byte, or finds the scalar cut short by the end of the input |
| LogPresentation.RollbackLine | packages/executor/src/log-presentation.ts:148-154 | rollback goes to the start of the held-back line exactly when one is held, and loses no output |
| LogPresentation.CollapseAppend | packages/executor/src/log-presentation.ts:105-135 | collapsing a longer text picks up from the line the shorter one held back |
| LogPresentationLaws.RunStays | packages/executor/src/log-presentation.ts:156-306 | every position a page run reaches is one the unbounded pass goes through, under any safe layout, and it stops only where the next step is impossible or over budget |
| LogPresentationLaws.PageAccounts | packages/executor/src/log-presentation.ts:156-320 | page text followed by the pass resumed after the page is the unbounded pass; both budgets hold; page data plus what was lost is that text collapsed |
| LogPresentationLaws.ResumeLaw | packages/executor/src/log-presentation.ts:156-306 | collapse off: `Strip` of the input equals the page's data followed by `Strip` from the returned state at the returned position |
| LogPresentationLaws.CollapseIsExact | packages/executor/src/log-presentation.ts:105-154 | collapse on, lines within 64 KiB: the page is its consumed text with each line equal to the line before dropped, and a cut page ends at a line start |
| LogPresentationLaws.LostLineIsHeldLine | packages/executor/src/log-presentation.ts:118-128 | what a page throws away is the collapse line it held, longer than 64 KiB less a scalar, and page data plus that line is the page's whole text |
| LogRawRun.LosesTextExactlyWhenOverlong | packages/executor/src/log-presentation.ts:118-128 | text is missing if and only if the unbounded pass reaches, within the scan cap, a text that fits the page and a next scalar that makes its line overlong and does not fit |
| LogRawRun.LongLineIsLost | packages/executor/src/log-presentation.ts:118-128 | 64 KiB and one byte of letters, and any page budget up to 64 KiB: text is lost |
| LogPaging.OneChunkIsSafe | packages/executor/src/log-presentation.ts:226-239 | a single chunk is always counted right |
| LogPaging.PagesHoldWholeScalars | packages/executor/src/log-presentation.ts:182-251 | over clean UTF-8 every page is clean UTF-8, within both budgets, and leaves clean input for the next |
| LogPaging.ReplacementCharacterSplits | packages/executor/src/log-presentation.ts:212-220 | a literal U+FFFD is cut across two pages: the concrete page |
| LogReplacement.PageCutsOnlyReplacements | packages/executor/src/log-presentation.ts:182-251 | well-formed input, collapse off: a page is a prefix of the stripped text, well-formed if and only if it does not end one or two bytes into a literal U+FFFD, and then full |
| LogReplacement.EveryBudgetIsWellFormedExactlyWithoutReplacements | packages/executor/src/log-presentation.ts:182-251 | every accepted budget gives a well-formed first page if and only if the text within the scan cap has no U+FFFD at byte 2 or later |
| LogReplacement.EveryBudgetIsWellFormedExactlyOverTheWholeText | packages/executor/src/log-presentation.ts:182-251 | with a scan cap of twice the raw bytes and one more, that text is the whole stripped text |
| LogPages.PageProgresses | packages/executor/src/log-presentation.ts:158-306 | a truncated page consumes a byte or leaves escape mode |
| LogPages.PagesGiveTheWholeText | packages/executor/src/log-presentation.ts:156-320 | reading page after page terminates, and the pages' data and progress add up to the unbounded pass |
| LogPages.PassLeavesAtMostACutScalar | packages/executor/src/log-presentation.ts:199-203 | the unbounded pass reads to the end of the input, except for a final scalar that is not all there |
| LogStuckPages.PageIsStuckExactly | packages/executor/src/log-presentation.ts:148-154 | any options, collapsing on or off: a truncated page returns its own starting place and state if and only if it begins with a scalar out of reach of the scan cap or, collapsed, a first line that does not fit or is out of reach |
| LogStuckPages.LongLineSticks | packages/executor/src/log-presentation.ts:308-313 | collapsing on, a line longer than the byte budget and within 64 KiB: the first page stays at the beginning |
| LogUnicode.PageOfText | packages/executor/src/log-presentation.ts:72-321 | collapse off, safe chunks, any code points but U+FFFD and, when stripping, ESC: a page is the UTF-8 of as many of the first code points as both budgets hold, no fewer, it is cut exactly when some are left, and what is left encodes exactly those |
| LogUnicode.RefusedBudgets | packages/executor/src/log-presentation.ts:77-84 | a page is refused exactly for a byte budget below 4, a scan cap below 1, or either past 2^53-1 |
| LogUnicode.ScalarsAreEncodings | packages/executor/src/log-presentation.ts:182-224 | the byte sequences shown as whole scalars are exactly the encodings of the code points outside the surrogates |
| LogUnicode.WidthIsExact | packages/executor/src/log-presentation.ts:60-66 | the width read off a lead byte is the length of every encoding that begins with it, and 1 if none does |
| LogLines.CollapsedPageDropsRepeats | packages/executor/src/log-presentation.ts:105-154 | collapse on, no run of 64 KiB and a byte without a newline: a page is the lines of its consumed text without each that equals the line before it, and the unterminated rest |
| ChunkLayout.SafeLayouts | packages/executor/src/log-presentation.ts:226-239 | chunks, empty ones included, are counted right for every position and width if and only if a condition on chunk lengths alone holds |
| ChunkLayout.BoundariesDecide | packages/executor/src/log-presentation.ts:226-239 | without empty chunks the condition is one on each boundary by itself |
| ChunkLayout.ThreeByteChunksAreSafe | packages/executor/src/log-presentation.ts:226-239 | chunks of at least three bytes, but for the last, are counted right |
| ChunkLayout.LoneLeadByteIsMiscounted | packages/executor/src/log-presentation.ts:226-239 | a lead byte alone in its chunk: the scalar is shown but one byte too few is counted |
| ChunkLayout.EmptyChunksMatter | packages/executor/src/log-presentation.ts:226-239 | an empty chunk in the middle of a scalar breaks the count; an empty last chunk does not |
| ControlSequences.StripGivesVisibleText | packages/executor/src/log-presentation.ts:252-306 | a log of text and complete control functions and commands strips to exactly the text, all of it consumed |
| ControlSequences.BellCommandCloses | packages/executor/src/log-presentation.ts:137-146 | a BEL-ended command leaves no trace if and only if its payload has no backslash past the bound |
| ControlSequences.TerminatedCommandCloses | packages/executor/src/log-presentation.ts:137-146 | an ST-ended command closes if and only if, besides, its payload is not one or two bytes over the bound; otherwise the parser stays in discard mode |
| ControlSequences.ControlFunctionCloses | packages/executor/src/log-presentation.ts:284-306 | a control function with any parameter bytes closes on its final byte if and only if the parameters are within the bound, or that byte is a backslash and no BEL came past the bound |
| ControlSequences.LateBackslashReopens | packages/executor/src/log-presentation.ts:299-306 | after the first backslash past the bound the rest of the payload is read as text |
| ControlSequences.LongCommandTakesTextAlong | packages/executor/src/log-presentation.ts:137-146 | an ST-ended command one byte over the bound: the letter behind it is not shown |
| ControlSequences.LongFunctionTakesTextAlong | packages/executor/src/log-presentation.ts:137-146 | a control function one parameter byte over the bound: the letter behind it is not shown |
| ControlSequences.UnknownEscapeDropsOnlyEsc | packages/executor/src/log-presentation.ts:267-272 | an ESC that opens nothing is dropped alone and its byte read again as text |
| ControlSequences.PlainTextIsKept | packages/executor/src/log-presentation.ts:182-251 | text with no ESC passes byte for byte and leaves the state alone |
| ControlSequences.CountersDoNotShow | packages/executor/src/log-presentation.ts:137-146 | the per-kind counters never influence text, progress or mode |
| ControlSequences.SavedStateIsBounded | packages/executor/src/log-presentation.ts:50-58 | a saved counter is taken as its low 32 bits, signed, and brought between 0 and 4096; the mode is taken as it is |
| Redactor.StreamRedactor.Redact | apps/agent/src/executor/redactor.ts:12-37 | one call's output and new tail are those of the specification step on the old tail and the chunk |
| Redactor.StreamRedactor.Flush | apps/agent/src/executor/redactor.ts:39-55 | flush hands out the redacted tail and empties it |
| Redactor.PrepareKeepsSecrets | apps/agent/src/executor/redactor.ts:6-10 | construction keeps exactly the non-empty secrets, longest first |
| Redactor.ReplaceOneReplacesAll | apps/agent/src/executor/redactor.ts:20-24 | includes, split and join amount to leftmost non-overlapping replacement |
| RedactorLaws.ReplaceAddsNothing | apps/agent/src/executor/redactor.ts:20-24 | replacing one string brings in no other that does not collide with the marker around it |
| RedactorLaws.ScrubRemoves | apps/agent/src/executor/redactor.ts:20-24 | the passes for all secrets in turn leave none of them, whatever text stands before |
| RedactorBatch.ScrubScans | apps/agent/src/executor/redactor.ts:20-24 | for secrets that do not collide and give way to those replaced before them, the passes in turn are one scan for all of them |
| RedactorBatch.ScanTwice | apps/agent/src/executor/redactor.ts:17-36 | redacting a prefix early does not change the redaction of the longer text |
| RedactorLaws.NoSecretSurvives | apps/agent/src/executor/redactor.ts:12-55 | any secrets of which no two collide through the marker, any chunking: no secret occurs in the concatenated output |
| RedactorLaws.OneSecretSurvivesExactlyWhenItMeets | apps/agent/src/executor/redactor.ts:12-55 | one secret stays out of the output of every chunking if and only if it neither contains the marker, nor lies in it, nor begins with a proper end of it, nor ends with a proper beginning of it that it does not itself begin with |
| RedactorLaws.DisjointIsHarmless | apps/agent/src/executor/redactor.ts:17-36 | secrets free of marker characters never collide through the marker |
| RedactorLaws.SharingIsNotMeeting | apps/agent/src/executor/redactor.ts:17-36 | sharing characters with the marker is not enough to meet it |
| RedactorAlone.KeptIsEnough | apps/agent/src/executor/redactor.ts:17-36 | one redaction step: redacting the kept tail with what comes gives what redacting everything at once gives |
| RedactorAlone.StreamingEqualsReplacementExactly | apps/agent/src/executor/redactor.ts:12-55 | one secret: every chunking gives leftmost replacement in the whole text if and only if the secret has one character, or neither begins with a proper end of the marker nor holds it before its last character |
| RedactorAlone.KeptEndMatters | apps/agent/src/executor/redactor.ts:26-36 | a secret that begins as the marker ends, and two chunks: the output is not that of the whole text |
| RedactorAlone.MeetingIsNotMattering | apps/agent/src/executor/redactor.ts:17-36 | a secret inside the marker survives and still streams like the whole text |
| RedactorBatch.StreamingEqualsBatch | apps/agent/src/executor/redactor.ts:12-55 | secrets no two of which collide through the marker, each giving way to those replaced before it, any chunking: the output is the redaction of the whole text |
| RedactorOrder.StreamingEqualsBatchExactly | apps/agent/src/executor/redactor.ts:6-55 | any list of secrets without marker characters: every chunking gives the redaction of the whole text if and only if each secret occurs in those replaced before it at most as their end and no proper end of it begins them |
| RedactorBatch.EarlyPassShowsTheRest | apps/agent/src/executor/redactor.ts:17-36 | two secrets, one a prefix of the other, and two chunks: the end of the longer is shown |
| RedactorLaws.MarkerCharactersMatter | apps/agent/src/executor/redactor.ts:17-36 | a secret that overlaps the end of the marker is in the output: the concrete chunk |
| RedactorText.ScanMarks | apps/agent/src/executor/redactor.ts:20-24 | one scan: the text falls into plain pieces with a secret behind each and a rest, no secret starts earlier than the one taken, none is in the rest, and what is shown has `[REDACTED]` for each of them and all else unchanged |
| RedactorText.StreamMarks | apps/agent/src/executor/redactor.ts:12-55 | secrets that are apart, any chunking: the whole output is that text |
| RedactorText.ChunkMarks | apps/agent/src/executor/redactor.ts:12-55 | one secret, whatever it is, in a text given as one chunk: so it is |
| RedactorText.LongestFirst | apps/agent/src/executor/redactor.ts:6-10 | the secrets gone by are the non-empty ones, each as often as given, none before a longer one |
| ChunkIndex.ScanIndex | packages/executor/src/logs.ts:241-287 | the streaming reader over blocks cut anywhere yields the accepted, increasing records above the bound of all whole lines but those in which some block ends more than 1 MiB behind their beginning |
| ChunkIndex.ShownScans | packages/executor/src/logs.ts:241-287 | when no line over 1 MiB holds a record, that is the scan of all whole lines, however the blocks are cut |
| ChunkIndex.BlocksDecide | packages/executor/src/logs.ts:248-285 | the same overlong line is read from one block and given up from two |
| IndexCheckpoints.ScanIsTheRisingRecords | packages/executor/src/logs.ts:241-287 | the scan reads exactly the records that lie within their own stream file, are numbered from 1 and above every earlier such record, in order |
| IndexSeek.FindChunkCheckpoint | packages/executor/src/logs.ts:156-221 | the streaming search returns the newest usable checkpoint that the probe confirms, and none if the newest candidate fails |
| IndexSeek.ConfirmedIsLineStart | packages/executor/src/logs.ts:204-215 | a confirmed checkpoint points at the start of the line of the record after the one it names |
| IndexCheckpoints.FindsTheNewest | packages/executor/src/logs.ts:156-221 | the checkpoint found is the usable one of the highest sequence on any line met, if the line at its offset is numbered one above it, and otherwise none; a checkpoint file up to 64 KiB is met whole |
| IndexSeek.SeekRefinesScan | packages/executor/src/logs.ts:223-291 | whatever the checkpoint file holds, seeking then filtering is filtering the full scan, and the last sequence is the full scan's |
| IndexSeek.IterChunkIndexEntriesFrom | packages/executor/src/logs.ts:223-291 | from the chosen start, the records of the lines the reader does not give up, and the scan of all lines when none too long holds a record |
| IndexSeek.IterChunkIndexEntriesAfter | packages/executor/src/logs.ts:294-299 | on a well-formed index, exactly the records above the sequence |
| IndexSeek.ReadLastChunkSequence | packages/executor/src/logs.ts:133-141 | on a well-formed index, the last record's sequence |
| IndexTail.ReadChunkIndexTail | packages/executor/src/logs.ts:306-371 | the backward block loop returns what its specification `Tail` says for any file |
| IndexTail.TailRefinesScan | packages/executor/src/logs.ts:306-371 | on a well-formed index, the tail is the last n records of the full scan, whatever straddles a block edge |
| IndexTail.TailAgreesExactly | packages/executor/src/logs.ts:306-371 | with an unterminated piece behind the records, tail and scan agree if and only if the piece is no acceptable record, or repeats the last one to a caller asking for one |
| IndexTail.TailReadsTheCutRecord | packages/executor/src/logs.ts:306-371 | one record without its newline: the tail reads it, the scan does not |
| IndexText.FaithfulTextExists | packages/executor/src/logs.ts:99-131 | the assumptions on the text of index lines are consistent: a text with all of them exists |
| Spool.AttemptSpool.AppendChunk | packages/executor/src/spool.ts:105-132 | the three appends put the bytes, the record and at times a checkpoint at the ends of their files, and the position moves on |
| Spool.OpenAttemptSpool | packages/executor/src/spool.ts:41-103 | reopening drops the unterminated index tail and stands after the last record the reader meets, on a tidy index the last of the full scan, and at the streams' ends |
| Spool.WholeLength | packages/executor/src/spool.ts:46-59 | the block scan finds the length of the newline-terminated prefix |
| SpoolRuns.NextKeeps | packages/executor/src/spool.ts:105-132 | an append, an append cut at any byte and a reopening, or a reopening keep files, records and position in agreement |
| SpoolRuns.EveryLifeKeeps | packages/executor/src/spool.ts:41-132 | every run of them does |
| SpoolRuns.EveryLifeIsTidy | packages/executor/src/spool.ts:105-132 | every run leaves an index without overlong records |
| SpoolRuns.IterIndexedChunkBytesAfter | packages/executor/src/logs.ts:412-421 | reading by index after a sequence yields the bytes each record names |
| SpoolRuns.ReplayIsWhatWasRecorded | packages/executor/src/spool.ts:41-132 | after every run: sequences 1, 2, 3, ... without gap, every record names the bytes of its own call, and replay after k is exactly the recorded chunks above k in order |
| SpoolRuns.RecordedAreTheCalls | packages/executor/src/spool.ts:105-132 | in every run the recorded chunks are those of the calls, in order, numbered from 1: of every append, and of crashed ones only past their stream bytes |
| IndexCheckpoints.CheckpointsAreMarks | packages/executor/src/spool.ts:105-132 | after every run the checkpoint file holds a line for every 128th record, in order and nothing else, with the number and the index offset before that record; only a crash cuts one short |
| IndexCheckpoints.MarksNameTheNextRecord | packages/executor/src/spool.ts:105-132 | after every run the offset on such a line is where the record numbered one above it starts, and a probe of it there confirms it |
| SpoolSending.SpoolSender.PumpQueue | apps/agent/src/logs/spool-sender.ts:92-121 | the pump loop sends the head while the connection takes it, dropping acknowledged chunks |
| SpoolSending.SpoolSender.EnqueueChunk | apps/agent/src/logs/spool-sender.ts:42-58 | an enqueue ignores, defers to replay, or inserts in order and pumps |
| SpoolSending.SpoolSender.Acknowledge | apps/agent/src/logs/spool-sender.ts:60-76 | an acknowledgement drops what it covers, pumps, and starts an owed replay when there is room |
| SpoolSending.SpoolSender.SeedAcked | apps/agent/src/logs/spool-sender.ts:79-81 | the cursor is set, never below zero |
| SpoolSending.SpoolSender.StartReplay | apps/agent/src/logs/spool-sender.ts:87-92 | an uninterrupted replay enqueues every chunk in turn |
| SpoolSending.PumpAccounts | apps/agent/src/logs/spool-sender.ts:94-121 | what leaves the queue is a prefix; the connection took exactly its unacknowledged chunks, in order |
| SpoolSending.SenderLosesNothing | apps/agent/src/logs/spool-sender.ts:42-122 | in every run, each enqueued chunk is acknowledged, queued, sent, ahead of a running replay, or owed a replay; the queue is strictly increasing and bounded |
| SpoolAcknowledgements.CursorStands | apps/agent/src/logs/spool-sender.ts:60-81 | in every run the cursor is the largest sequence acknowledged since the last adoption at one, read off the events |
| SpoolAcknowledgements.StandingWasNamed | apps/agent/src/logs/spool-sender.ts:60-81 | that sequence was itself named by an event or the opening cursor, so the cursor is never above the largest one named |
| SpoolAcknowledgements.NothingUnacknowledgedIsLost | apps/agent/src/logs/spool-sender.ts:42-122 | in every run, each enqueued chunk was named as acknowledged by some event or the opening cursor, or is queued, sent, ahead of a running replay, or owed a replay |
| SpoolAcknowledgements.OwedReplayIsPaid | apps/agent/src/logs/spool-sender.ts:60-92 | an owed replay starts exactly at an acknowledgement that leaves room, an adoption always starts one and nothing else does; a replay comes to be owed only when an unacknowledged chunk that is not queued meets a full queue |
| SpoolSending.EnqueueSendsExactlyWhenItPumps | apps/agent/src/logs/spool-sender.ts:42-58 | against a willing connection, an enqueue empties the queue if and only if the chunk is new, unacknowledged and has room; otherwise nothing is sent |
| SpoolSending.ReplayDeliversExactlyWhenSomethingPumps | apps/agent/src/logs/spool-sender.ts:42-121 | against a willing connection a replay delivers every unacknowledged chunk of queue and replay if and only if there is none or some replayed chunk gets past the three early returns when its turn comes |
| SpoolSending.QueuedChunkReplaysSilently | apps/agent/src/logs/spool-sender.ts:42-58 | a replay of a chunk still queued sends nothing, with room in the queue |
| SpoolSending.FullQueueReplaysSilently | apps/agent/src/logs/spool-sender.ts:87-92 | a replay against a full queue sends nothing |
| WindowsFrames.WindowsHelperFrameReader.Append | packages/executor/src/windows-frames.ts:14-39 | one call hands out the payloads of the whole frames in old buffer and chunk, and keeps the rest |
| WindowsFrames.DecodeEncode | native/windows-executor/src/execute.rs:77-84 | frames written one after another decode to themselves with nothing left |
| WindowsFrames.FrameRoundTripsExactlyBelow4GiB | native/windows-executor/src/execute.rs:77-84 | a frame comes back if and only if its length fits 32 bits |
| WindowsFrames.DecodeStreams | packages/executor/src/windows-frames.ts:14-39 | decoding in two pieces is decoding in one |
| WindowsFrames.FramesIgnoreChunking | packages/executor/src/windows-frames.ts:14-39 | however the bytes are cut, all payloads arrive in order under their tags and nothing is kept back |
| WindowsFrames.BufferIsPrefixOfOneFrame | packages/executor/src/windows-frames.ts:14-39 | between calls the buffer is a strict prefix of one frame |
| WindowsFrames.SentIsReceived | native/windows-executor/src/execute.rs:73-84 | messages sent as a byte 1, 2 or 3, four bytes of length with the lowest first, and the data, cut anywhere: the data come out on standard output, standard error or control, in order, and nothing is kept back |
| TarHeader.OctalSurvives | packages/snapshot/src/archive.ts:22-28 | a number survives its octal field if and only if it has no more digits than the field has bytes |
| TarHeader.SplitUstarPath | packages/snapshot/src/archive.ts:40-65 | the loop from the right finds the last legal split, or reports that none exists |
| TarHeader.SplitThenJoin | packages/snapshot/src/archive.ts:40-65 | splitting succeeds if and only if a legal split exists, and rejoins to the path unless it is the one kind of absolute path that loses its slash |
| TarHeader.LongRootPathLosesItsSlash | packages/snapshot/src/archive.ts:40-65 | a slash and a hundred letters come back as the letters |
| TarHeader.WriteTarHeader | packages/snapshot/src/archive.ts:67-96 | the writes into the zeroed block produce the ustar layout field by field, checksum included |
| TarHeader.HeaderHasLayout | packages/snapshot/src/archive.ts:67-96 | every field of the header is at its place in the ustar format |
| TarHeader.ChecksumVerifies | packages/snapshot/src/archive.ts:30-38 | the checksum always fits its field and reads as the sum of the header with that field blank |
| TarHeader.HeaderRoundTrip | packages/snapshot/src/archive.ts:324-345 | a header reads back as written, its numbers exactly when they fit |
| TarFormat.HeaderIsText | packages/snapshot/src/archive.ts:67-96 | every byte of a header: texts behind zeros, octal numerals behind zeros and before a NUL or as far as they fit, `ustar`, NUL, `00`, the type digit, zeros elsewhere, and the sum of the bytes with blanks in its own field |
| TarFormat.SplitIsParts | packages/snapshot/src/archive.ts:40-65 | up to 100 bytes the path, backslashes turned, is the name; up to 255 it is cut at the last slash with 1 to 100 bytes behind it and at most 155 before |
| TarArchive.CreateTarChunks | packages/snapshot/src/archive.ts:99-122 | the writer's loop over sorted entries concatenates to the archive, or fails with the first entry's error |
| TarArchive.ArchiveIsWrittenExactlyWhenWritable | packages/snapshot/src/archive.ts:99-122 | an archive is written if and only if every path has a legal split, every target fits and no content is left on disk |
| TarFormat.ArchiveIsText | packages/snapshot/src/archive.ts:99-122 | the archive is, for the entries by ascending path, equals as they came, each header, its content and zeros up to a multiple of 512, and then 1024 zeros |
| TarArchive.ParseTarArchive | packages/snapshot/src/archive.ts:324-364 | the reader's offset loop computes `ParseTar`, for any bytes |
| TarArchive.TarRoundTrip | packages/snapshot/src/archive.ts:99-122 | reading back gives the entries in path order with path, type, mode, content and target if and only if every entry is in range and no path holds a backslash |
| TarArchive.EntryReadsBack | packages/snapshot/src/archive.ts:324-364 | at the front of an entry's bytes the reader reads that entry if and only if it is in range, and then goes on after its padding |
| TarArchive.ModeZeroComesBackAs0644 | packages/snapshot/src/archive.ts:337 | an empty file of mode 0 comes back with mode 0644 |
| TarArchive.BackslashComesBackAsSlash | packages/snapshot/src/archive.ts:41 | a file named with a backslash comes back in a directory |
| TarArchive.StreamingWritesTheSameArchive | packages/snapshot/src/archive.ts:194-282 | the streaming writer succeeds if and only if its files hold still and the in-memory writer would, and then yields the same bytes |
| TarArchive.ArchiveIgnoresOrder | packages/snapshot/src/archive.ts:99-122 | entries with distinct paths give one archive in whatever order they come |
| TarArchive.EstimateIsExact | packages/snapshot/src/capture.ts:177-186 | the estimate made from sizes and a directory count is the length of either archive |
| JsonText.EscapeInjective | packages/snapshot/src/canonical.ts:12-14 | strings written up to their closing quote can be told apart whatever follows, lone surrogates included |
| JsonText.DecimalInjective | packages/snapshot/src/canonical.ts:12-14 | so can integers before anything that is not a digit |
| Canonical.StringifyDecodes | packages/snapshot/src/canonical.ts:11-20 | the text of a value can be told from the text of any other with anything behind that ends a value |
| Canonical.StringifyIsCanonical | packages/snapshot/src/canonical.ts:11-20 | two values serialize alike if and only if they are the same JSON value, whatever the order of their keys |
| Canonical.HashInputDetermines | packages/snapshot/src/canonical.ts:24-28 | the hash inputs agree if and only if the manifest bodies and the lists of file hashes do |
| CanonicalForm.StringifyIsWritten | packages/snapshot/src/canonical.ts:10-20 | the text of every well-formed value: `null`, `true`, `false`, decimal numerals, quoted strings, arrays with commas, and objects with their members in the one order in which an earlier key is a proper prefix of a later one or has the smaller code unit where they first differ |
| CanonicalForm.OrderIsUnique | packages/snapshot/src/canonical.ts:18-19 | there is only one such order of the members of an object |
| CanonicalForm.QuoteIsQuoted | packages/snapshot/src/canonical.ts:11-13 | strings are quoted as section 25.5.2.3 of ECMA-262 says, unit by unit, lone surrogates and control characters escaped |
| CanonicalForm.DecimalIsInDecimal | packages/snapshot/src/canonical.ts:11-13 | integers are written as their shortest decimal numerals |
| CanonicalForm.HashInputIsLines | packages/snapshot/src/canonical.ts:24-28 | the hash input is the canonical text, a line feed, and the file hashes with a line feed between each two |
| Overlay.ComputeOverlayPlan | packages/snapshot/src/overlay.ts:46-141 | the plan lists, sorted and without repeats, exactly the shipped paths, exactly the removed paths that are not shipped, and exactly the pins no entry unpinned and no deletion covers |
| Overlay.TakeEntry | packages/snapshot/src/overlay.ts:61-117 | one round of the entry loop keeps sets and pins in step with the entries so far |
| Overlay.ParentPinsFirst | packages/snapshot/src/overlay.ts:127-135 | a submodule's pin comes before the pins inside it, and no pinned path is deleted |
| Overlay.PlanIsDetermined | packages/snapshot/src/overlay.ts:119-141 | the entries leave the plan no freedom, and no path is both shipped and deleted |
| OverlayTerms.PlanInTerms | packages/snapshot/src/overlay.ts:46-141 | the plan by status letters, kinds, mode 160000 and submodule fields: which paths it ships, which it removes, which commits it still pins, and the order of each list |
| OverlayTerms.IncludedMatches | packages/snapshot/src/overlay.ts:143-157 | a pattern takes itself, what is under it if it ends in a slash, and a directory with all below it if it ends in a slash and two stars |
| OverlayTerms.WireIsNormalized | packages/snapshot/src/git-status.ts:294-296 | every backslash becomes a slash, and then one leading `./` goes |
| OverlayApply.Worktree.ApplyGitOverlay | packages/snapshot/src/materialize.ts:304-370 | deletions then writes, in order, stopping at the first write that cannot be made |
| OverlayTerms.RemovalTakesTheSubtree | packages/snapshot/src/materialize.ts:304-313 | a removal takes the path and exactly what is within it |
| OverlayTerms.WriteNeedsItsPlace | packages/snapshot/src/materialize.ts:304-370 | a write succeeds if and only if no directory stands at its path and no file above it |
| OverlayLaws.OverlayGivesTheWorkingTree | packages/snapshot/src/materialize.ts:304-370 | for a faithful status, base plus plan is the working tree less what the policy withholds if and only if the status is clean; the order of the archive does not matter |
| OverlayLaws.ModifiedThenDeletedFails | packages/snapshot/src/overlay.ts:99-111 | MD: a faithful status for which every plan's capture fails |
| OverlayLaws.CopyLosesItsSource | packages/snapshot/src/overlay.ts:93-97 | a copy: a faithful status for which every plan removes an unchanged file |
| OverlayLaws.DirectoryInTheWayFails | packages/snapshot/src/materialize.ts:304-313 | whenever a shipped file stands in the place of a directory no deletion removes, the transfer fails |
| OverlayLaws.FileOverDirectoryFails | packages/snapshot/src/materialize.ts:304-313 | a file in the place of a directory: a faithful status for which every plan's transfer fails |
| BuildCache.CacheSlot.AcquireForJob | apps/agent/src/build-cache/store.ts:297-428 | disabled, hit, write-disabled or miss, with the lock, count and directory each leaves |
| BuildCache.CacheSlot.ReleaseHitHandle | apps/agent/src/build-cache/store.ts:350-369 | one user fewer under the lock, or a leaked user without it |
| BuildCache.CacheSlot.ReleaseMissHandle | apps/agent/src/build-cache/store.ts:401-421 | the publisher's user goes if the key is published, then the lock |
| BuildCache.CacheSlot.PublishIfAllowed | apps/agent/src/build-cache/store.ts:431-508 | refuse, or stage, move aside and promote; or stop where the rename aside fails, or roll back where the publishing one does |
| BuildCache.CacheSlot.LookForEviction | apps/agent/src/build-cache/store.ts:545-559 | the first look: a candidate exactly when published, without a living lock, with a readable count of no users |
| BuildCache.CacheSlot.EvictIfInactive | apps/agent/src/build-cache/store.ts:581-597 | the recheck and deletion: gone exactly when no living lock and no user is counted |
| CacheAnswers.AcquireAnswers | apps/agent/src/build-cache/store.ts:297-428 | each of the four answers exactly when it is due, with the handle, count, lock, writer and directory it leaves |
| CacheAnswers.ReleaseAnswers | apps/agent/src/build-cache/store.ts:350-421 | a release takes one off the count, never below zero, and frees the lock, unless a hit cannot have it |
| CacheAnswers.HandlesAreAnswers | apps/agent/src/build-cache/store.ts:297-428 | in every run, the live hit handles are those a job was told and that no release or death has ended since, and so is the writer |
| CacheAnswers.MissIsAlone | apps/agent/src/build-cache/store.ts:297-428 | in every run, while a miss is out no hit is, and no other miss |
| BuildCacheRuns.PublishIsItsMoves | apps/agent/src/build-cache/store.ts:431-508 | a publication, whichever of its renames fail, is the run of its moves, each enabled in turn |
| BuildCacheRuns.RunsKeep | apps/agent/src/build-cache/store.ts:297-508 | every run keeps the invariant: a writer excludes hits, counts are exact up to leaks, copies are what was written |
| BuildCacheRuns.FreeLockCountsHandles | apps/agent/src/build-cache/store.ts:322-369 | a lock nobody holds leaves at least as many users counted as live hit handles |
| BuildCacheRuns.EvictionSparesLiveHandles | apps/agent/src/build-cache/store.ts:581-597 | an eviction can delete a key only when no handle on it is live |
| BuildCacheRuns.IdleKeyIsEvictableExactlyWhenNotStranded | apps/agent/src/build-cache/store.ts:545-597 | in every run, a round can evict an idle published key (both looks let it) if and only if its count is readable and no release timed out and no crash had a handle out since the count began |
| BuildCacheRuns.CrashStrandsAKeyInUse | apps/agent/src/build-cache/store.ts:545-597 | a crash while a hit is out leaves a key without live handles that every later round spares |
| BuildCacheRuns.LeakedUserStaysCounted | apps/agent/src/build-cache/store.ts:350-369 | a run that ends with an idle key no round evicts, for a user left counted |
| BuildCacheRuns.TornCountIsNeverEvicted | apps/agent/src/build-cache/store.ts:556-559 | a run that ends with an idle key no round evicts, for an unreadable count |
| BuildCacheRuns.PublishFillsAnUnpublishedKey | apps/agent/src/build-cache/store.ts:476-498 | only the promoting rename of a finished job publishes a key, into an unpublished key without hits, and the copy has exactly the pieces since the last sweep |
| BuildCacheRuns.PublishedCopyStays | apps/agent/src/build-cache/store.ts:476-498 | no step replaces a published copy by another |
| BuildCacheRuns.PublishedCopyIsWholeExactlyWhenNotMetLate | apps/agent/src/build-cache/store.ts:531-543 | in every run, a published copy is the job's whole output if and only if no round met its temporary directory at or past the retention time after the first piece |
| BuildCacheRuns.SweptCopyIsPublishedIncomplete | apps/agent/src/build-cache/store.ts:531-543 | for every retention time, a run that publishes half a copy |
| CacheEviction.EvictInactive | apps/agent/src/build-cache/store.ts:510-610 | the two loops of a round compute `Evict` for any pair of observations |
| CacheEviction.EvictedWereInactive | apps/agent/src/build-cache/store.ts:545-597 | a key goes only if both looks found it without a living lock and without users |
| CacheEviction.RoundReachesItsTargets | apps/agent/src/build-cache/store.ts:565-610 | with nothing stirring, a round evicts a least-recently-used prefix, each key needed when its turn came, and ends with the inactive keys within quota, free space and retention or all gone |
| CacheRounds.RoundInPlainTerms | apps/agent/src/build-cache/store.ts:510-610 | a round, whatever stirs between its looks, from the meta files alone: which idle published keys go, oldest first, and for each that stays why no time, quota or disk space drives it out |
| CacheQuota.BytesLeft | apps/agent/src/build-cache/store.ts:510-610 | a round leaves the keys it does not look at and the candidates after its prefix |
| CacheQuota.StoreEndsWithinQuotaExactly | apps/agent/src/build-cache/store.ts:557-574 | the whole store ends a round within its quota if and only if some run of forced evictions leaves keys in use and the rest within it |
| CacheQuota.StoreEndsWithinQuotaBySize | apps/agent/src/build-cache/store.ts:557-574 | when neither time nor disk space presses: the whole store ends within its quota if and only if the keys in use do and no end of the candidates, oldest first, is within the quota without fitting beside them |
| CacheQuota.QuotaIsAboutInactiveKeys | apps/agent/src/build-cache/store.ts:557-574 | without keys in use the quota is always met; with more bytes in use than it allows, never |
| CacheQuota.BusyKeysAreNotCounted | apps/agent/src/build-cache/store.ts:557-574 | a key in use of 1000 bytes, an idle one of 1 byte, a quota of 10: nothing goes |

## Left out

- LogPresentation.PresentLogChunks: `presentLogTail` and the removal of residual control bytes are not modelled; they add no state.
- LogPages.PagesGiveTheWholeText: stated with collapsing off and a scan cap of at least four bytes, where no page is stuck; collapsing is page-local by design, so pages do not add up to one collapsed text.
- ControlSequences.BellCommandCloses: payloads of BEL- and ST-ended commands hold no BEL or ESC, which a command string cannot hold by section 8.3.89 of ECMA-48.
- RedactorBatch.StreamingEqualsBatch: sufficient for several secrets that share characters with the marker; exact for one secret and for any without (`RedactorAlone`, `RedactorOrder`). Texts are lists of UTF-16 units.
- ChunkIndex.ScanIndex: index text is bytes, not decoded strings; multi-byte characters cut by a read block and lines whose length differs in bytes and UTF-16 units are not modelled.
- ChunkIndex.Faithful: the JSON text of index and checkpoint lines is abstract (one line, reads back, nothing when cut); missing files and failing `stat` calls are not modelled.
- Spool.OpenAttemptSpool: `ack.json` and `appendIndexedLogChunk` are not modelled; a crash leaves a prefix of the bytes being appended, in write order.
- SpoolRuns.EveryLifeKeeps: stated while stream sizes stay within 2^53-1 bytes, past which the readers reject every record.
- SpoolSending.SenderLosesNothing: a replay is the list of chunks on disk above the cursor when it starts, one step per chunk; a read error that ends a replay early is not modelled, nor the conversion of bytes to text.
- SpoolSending.SpoolSender.StartReplay: the method is a replay that nothing interrupts; the runs of `SenderLosesNothing` interleave its chunks with every other call.
- WindowsFrames.DecodeEncode: a frame write is one atomic write.
- TarArchive.ParseTarArchive: numbers with a sign in a header field read as 0; the original accepts a sign, and a negative size would move its reader backwards.
- TarArchive.StreamingWritesTheSameArchive: hashing, compression and the candidate file are not modelled; a file on disk is what its two `stat` calls and its stream report.
- TarArchive.ArchiveIgnoresOrder: `localeCompare` is any total order on paths; paths are their UTF-8 bytes.
- Canonical.StableStringify: numbers are safe integers; fractions, `undefined` and cyclic values are not modelled. SHA-256 is left out: the theorem is about its input.
- Overlay.ComputeOverlayPlan: the two sort orders are parameters; porcelain parsing is not modelled.
- OverlayLaws.OverlayGivesTheWorkingTree: trees hold regular files and directories; symbolic links, file modes, additional roots, empty directories and path safety checks are not modelled.
- BuildCacheRuns.RunsKeep: living locks are not reclaimed for their age, a deletion is one step that no crash interrupts, the second look and its deletion are one step, a sweep may take a backup whatever its age, and one agent process uses the store.
- CacheEviction.EvictInactive: the removal of old temporary and backup directories is modelled per key, as the events `Sweeping` and `SweepingBackup` of `BuildCache`; metrics are not modelled.
- Process spawning, kill trees, cgroups, Docker, scheduling, leases, networking, configuration and command line: not part of this model.
