# DexDeck: verified core

A Dafny model of the state machines at the core of DexDeck, a terminal front end for Gradle and ADB, with proofs of
what they guarantee over every run. `dafny verify dfyconfig.toml` checks the whole project.

* **Secret redaction** (`Text`, `Redaction`, `RedactionSafety`, `StreamingRedaction`, `StreamEquivalence`,
  `StreamGuarantees`, `StreamCounterexamples`, `ApartValues`, `StreamPrefixes`, `StreamApartValues`,
  `StreamHiddenValues`, `OverlappingValues`, `AssignmentRedaction`, `Utf8`, `OutputPieces`, `SecretRedactor`).
  Registered values and sensitive assignments are hidden in whole texts. A stream holds text back so that it hides them
  too; it does for values that overlap no other, and for values without whitespace that no chain of overlaps connects
  to one with whitespace, but not for all.
* **Jobs** (`OutputBuffer`, `JobScheduling`, `JobRuns`, `JobOrder`, `JobStories`, `JobScheduler`). One Gradle job per root at a time,
  first come first served, with cancellation, bounded output and bounded history.
* **Logcat** (`LineAssembly`, `LogcatParsing`, `LogcatSessions`, `LogcatParser`, `LogcatCapture`, `CaptureLoop`, `LogBuffer`,
  `DiagnosticNormalizer`). Byte chunks become lines, records in groups, deduplicated batches, and a bounded buffer.
* **Project model service** (`ModelRefresh`, `ModelService`, `ModelServiceRuns`, `ModelServiceGuarantees`,
  `ModelServiceLimits`, `ServiceStories`, `ModelCache`, `ModelReopening`). Refreshes race with opens and invalidations under a generation
  counter; the model is one atomic step per lock section.
* **Bridge stream** (`BridgeProtocol`, `ModelAssembly`, `ModelCanonical`, `ModelOrder`, `ModelContents`,
  `ModelAcceptance`, `ModelBridge`, `BridgeRoundTrip`, with `Sorting`, `Ordering`, `Collecting`). The Java writer, the Rust reader, and the assembly that
  forgets the order of the records.
* **Base64** (`Base64`) for the clipboard escape sequence.

Each class has the fields of the source's type. Its methods update them step by step and are proved equal to a function
on values; the lemmas are about those functions, over all inputs and all runs. Where the source consults the outside
(bridge, cache, registrar, channel, file system), its answer is an argument or part of an event, so that every answer is
covered. Concurrency appears as interleavings of atomic steps; times and processes are not represented.

Seven things the code does, which its readers may not expect, are stated exactly or by a failing input:

* A registered value with whitespace in it can make a stream differ from the redacted whole
  (`StreamCounterexamples.OneValueStreamsExactly`).
* A stream that drops nothing can publish a registered value verbatim. A value with whitespace that overlaps another
  can be exposed (`OverlappingValues.OverlappingValuesLeak`), and so can a value without whitespace that a chain of
  overlaps connects to one with it (`OverlappingValues.ChainedValuesLeak`). All other values that the mark cannot spell
  are safe (`StreamHiddenValues.SeparateValuesAreNotStreamed`).
* A registered value that begins with whitespace can be published verbatim behind a dropped word; for one value it is
  stated exactly when (`StreamApartValues.OneValueIsHiddenExactly`, `StreamApartValues.LeadingBlankIsPublished`).
* `finish` accepts a job that is still queued, and then a root in use becomes free or is given to a second job
  (`JobScheduling.FinishIsSafeExactlyWhenNotWaiting`). Legal runs leave that call out.
* A refresh whose inputs cannot be listed, or whose model cannot be hashed, leaves the state Refreshing
  (`ModelServiceGuarantees.StepKeepsRefreshingExact`, `ModelServiceLimits.EarlyExitStaysRefreshing`).
* The model shown need not belong to the open root
  (`ModelServiceGuarantees.CommitShowsOpenRootExactly`, `ModelServiceLimits.AnotherRootIsReached`).
* A failure message with, say, a tab in it is written as invalid JSON and is not reported
  (`BridgeRoundTrip.FailureIsReportedExactly`).

## Model

| member | source | states |
|---|---|---|
| `StreamGuarantees.StreamEqualsWholeExactly` | crates/dexdeck-core/src/secret.rs:143-207 | for every set of whitespace-free values and every chunking, the concatenated stream equals the redaction of the whole text if and only if each stretch the stream dropped would have been redacted to the bare mark |
| `StreamGuarantees.StreamEqualsWhole` | crates/dexdeck-core/src/secret.rs:143-207 | hence the two are equal for every chunking when every word of the text, with a blank and the retained tail, fits the pending limit |
| `StreamHiddenValues.SeparateValuesAreNotStreamed` | crates/dexdeck-core/src/secret.rs:143-207 | for every set of values, every chunking and every value that the mark cannot spell: let a group without that value hold every other value with whitespace (every other value at all, if this one has whitespace), and let nobody outside the group be able to overlap anybody in it; then no stream that drops nothing contains the value, and no stream at all does unless it shows behind a drop. Within the group, and outside it, values may overlap each other |
| `StreamHiddenValues.NoValueIsStreamed` | crates/dexdeck-core/src/secret.rs:143-207 | hence, when all values are whitespace-free: no registered value that the mark cannot spell occurs anywhere in the concatenated stream, also across publications and also after words were dropped |
| `StreamHiddenValues.NoOccurrenceAcrossCut` | crates/dexdeck-core/src/secret.rs:160-197 | for such a value without whitespace: no occurrence in the text, however it goes on after this push, lies across the boundary chosen now |
| `StreamHiddenValues.PassedMatchIsInGroup` | crates/dexdeck-core/src/secret.rs:181-194 | every match in the stretch over which the boundary moves belongs to that group, by a chain of overlaps that leads back to the blank |
| `StreamPrefixes.TextBeginsKept` | crates/dexdeck-core/src/secret.rs:143-226 | whatever a stream publishes from some text on: each of its beginnings that holds no bracket is also a beginning of its own rewriting by `redact_assignments` |
| `StreamApartValues.ApartValuesAreNotStreamed` | crates/dexdeck-core/src/secret.rs:143-207 | a value that the mark cannot spell and that overlaps no other value in any text, whitespace or not and whatever the others are: it is in no stream that drops nothing, and in no stream at all unless it shows behind a drop |
| `StreamApartValues.OneValueIsHiddenExactly` | crates/dexdeck-core/src/secret.rs:143-207 | for one registered value that the mark cannot spell: no stream ever publishes it, if and only if it does not consist of a blank and a text that the rewriting of assignments keeps |
| `StreamApartValues.LeadingBlankIsPublished` | crates/dexdeck-core/src/secret.rs:146-158 | every value that consists of a blank and such a text is published verbatim when it follows a dropped word, since that blank is sent on its own |
| `StreamApartValues.NoAssignmentShows` | crates/dexdeck-core/src/secret.rs:210-226 | without an equals sign, a value is of that kind exactly when it begins with a blank |
| `OverlappingValues.OverlappingValuesLeak` | crates/dexdeck-core/src/secret.rs:181-197 | the values `wwx` and `x x`, which overlap, and the single chunk `wwx x xzz`: nothing is dropped and `x x` is published verbatim, because the cut is clean only for the greedy match that the longer value then destroys |
| `OverlappingValues.ChainedValuesLeak` | crates/dexdeck-core/src/secret.rs:181-197 | the values `aa b`, `bcd` and `def` and the chunks `aa bcd` and `ef`: nothing is dropped and `def`, which has no whitespace, is published verbatim, because the boundary moves along the overlaps into it |
| `StreamApartValues.NoMatchStraddlesLater` | crates/dexdeck-core/src/secret.rs:160-197 | no greedy match of a value that overlaps no other, however the text goes on after this push, straddles the boundary chosen now |
| `ApartValues.ReplaceAllInAnyOrder` | crates/dexdeck-core/src/secret.rs:82-86 | among values that the mark cannot spell, one that overlaps none of the others can be replaced first, with the same result as in the registered order |
| `ApartValues.RedactionMasksReplaced` | crates/dexdeck-core/src/secret.rs:82-88 | whatever the others are, redaction with such a value masks the text in which that value alone was replaced |
| `ApartValues.OccurrencesDoNotOverlap` | crates/dexdeck-core/src/secret.rs:82-86 | when no end of one value begins the other and neither is inside the other, their occurrences in one text never share a character |
| `StreamGuarantees.PendingIsBounded` | crates/dexdeck-core/src/secret.rs:144-198 | after every push no whitespace is left that ends at or before the pending length minus the retained tail, and the pending text is at most the limit, or the last chunk and the tail |
| `StreamGuarantees.TraceDropsOversizedWords` | crates/dexdeck-core/src/secret.rs:146-158 | a stretch is dropped only when its first word, a blank and the tail do not fit the limit |
| `StreamEquivalence.TraceCoversInput` | crates/dexdeck-core/src/secret.rs:144-198 | the published and dropped stretches of a run are, in order, all of its input |
| `StreamEquivalence.WholeIsRedactedPieces` | crates/dexdeck-core/src/secret.rs:82-88 | redacting the whole text is redacting the stretches one by one, whatever the run did with them |
| `Redaction.RedactionDistributes` | crates/dexdeck-core/src/secret.rs:82-88 | with whitespace-free values, redaction distributes over every cut next to whitespace, through all replacements and the rewriting of assignments |
| `StreamEquivalence.RedactionKeepsBlanks` | crates/dexdeck-core/src/secret.rs:82-88 | with whitespace-free values, redaction keeps the number of whitespace characters, whatever it replaces |
| `StreamingRedaction.NextCleanCutIsLeast` | crates/dexdeck-core/src/secret.rs:181-194 | the boundary the fixpoint loop looks for exists, is straddled by no greedy match, and is the first such boundary |
| `StreamingRedaction.ReplaceAcrossCleanCut` | crates/dexdeck-core/src/secret.rs:181-197 | replacing on both sides of a boundary that no greedy match straddles is replacing in the whole |
| `StreamingRedaction.CutsBehindWhitespaceAreClean` | crates/dexdeck-core/src/secret.rs:165-194 | with whitespace-free values the boundary behind whitespace never moves |
| `SecretRedactors.StreamingSecretRedactor.MoveOffMatches` | crates/dexdeck-core/src/secret.rs:181-194 | the loop over all matches of all values ends, at the least boundary that none of them straddles |
| `SecretRedactors.StreamingSecretRedactor.MoveOffPattern` | crates/dexdeck-core/src/secret.rs:183-190 | the pass for one value never moves past the least clean boundary, and stays only if no match straddles it |
| `SecretRedactors.StreamingSecretRedactor.Push` | crates/dexdeck-core/src/secret.rs:144-198 | the new pending text, the discard flag and the output follow the specification that the run theorems are about, within the bound on pending text |
| `SecretRedactors.StreamingSecretRedactor.Finish` | crates/dexdeck-core/src/secret.rs:200-207 | publishes the redacted pending text, or nothing while an oversized word is being discarded |
| `SecretRedactors.SecretRedactor.Register` | crates/dexdeck-core/src/secret.rs:63-73 | ignores empty, known and non-Unicode values, and otherwise adds the value exactly once, keeping the values longest first |
| `SecretRedactors.SecretRedactor.RedactText` | crates/dexdeck-core/src/secret.rs:81-88 | replaces the values in their order and then rewrites assignments |
| `AssignmentRedaction.AssignmentsAreHiddenExactly` | crates/dexdeck-core/src/secret.rs:210-247 | for every word `key=value` between blanks in which no value is registered: `key=[REDACTED]` comes out if and only if the key contains, at some offset, one of nine words that are written out (each character as it is, its capital in a written-out alphabet, or a hyphen for an underscore), or the value is the mark already; otherwise the word is kept, and so is the redaction of the text around it |
| `AssignmentRedaction.OtherWordsAreKept` | crates/dexdeck-core/src/secret.rs:210-247 | a word between blanks without an equals sign, in which no value is registered, is kept |
| `AssignmentRedaction.SensitiveExactly` | crates/dexdeck-core/src/secret.rs:228-247 | the name test of the code, which lowers and replaces characters first, is that spelling test |
| `Utf8.LengthIsByteCount` | crates/dexdeck-core/src/secret.rs:144-180 | the byte lengths that the limits count are those of the UTF-8 form (section 3 of RFC 3629) |
| `Utf8.CharIsReadBack` | crates/dexdeck-core/src/secret.rs:144-180 | that form is read back character by character, whatever follows |
| `Text.WhitespaceIsTheProperty` | crates/dexdeck-core/src/secret.rs:166-176 | the blanks are the characters with the Unicode property White_Space, and no others |
| `SecretRedactors.EmitOutput` | crates/dexdeck-gradle/src/task_runner.rs:152-170 | the captured bytes go out in pieces of 8192, each decoded on its own, until the channel closes: what is sent is the first `room` of the texts of that stream that are not empty, and it closes exactly when there are more; with whitespace-free values and fitting words all that is sent equals the redacted whole when no byte at a multiple of 8192 continues a character; and no value that is separate from the others, and does not show behind a drop, is sent |
| `OutputPieces.PiecesAgreeBetweenCharacters` | crates/dexdeck-gradle/src/task_runner.rs:158-160 | for a decoder that begins anew at every byte that begins a character, the pieces decode as the whole does when no byte at a multiple of 8192 is a continuation byte |
| `OutputPieces.CutValueIsPublished` | crates/dexdeck-gradle/src/task_runner.rs:158-160 | a value with one character across two pieces: the stream publishes all of it but that character, with the text around it, although redacting the whole output hides the value |
| `OutputPieces.TextsMakeTheStream` | crates/dexdeck-gradle/src/task_runner.rs:158-170 | these texts, none of them empty, make up the stream |
| `RedactionSafety.NoValueSurvives` | crates/dexdeck-core/src/secret.rs:82-88 | after redaction a registered value without brackets that the mark does not spell occurs nowhere, whatever the other values are |
| `RedactionSafety.HiddenExactlyWhenNotInTheMark` | crates/dexdeck-core/src/secret.rs:63-88 | for bracket-free values in the registered order, all values are hidden in every text if and only if none is a part of the word inside the mark |
| `RedactionSafety.MaskingCreatesNoValue` | crates/dexdeck-core/src/secret.rs:82-88 | putting marks over stretches of a text creates no occurrence of a value that was not there |
| `StreamCounterexamples.OneValueStreamsExactly` | crates/dexdeck-core/src/secret.rs:143-207 | for one registered value, every stream that drops nothing equals the redacted whole if and only if the value has no whitespace |
| `StreamCounterexamples.WhitespaceValueIsNotEqual` | crates/dexdeck-core/src/secret.rs:181-197 | for every value with whitespace: the single chunk `token=`, value, word is hidden in the whole but loses only the value in the stream, because the moved boundary splits the assignment |
| `StreamCounterexamples.CutMovesBehindTheValue` | crates/dexdeck-core/src/secret.rs:181-194 | a cut inside such a value moves exactly to its end |
| `StreamCounterexamples.OversizedWordIsNotEqual` | crates/dexdeck-core/src/secret.rs:173-180 | any word without whitespace and `=` over the limit and the tail, in which no registered value occurs, is published as the mark, although the whole text keeps it |
| `JobRuns.ReachableIsConsistent` | crates/dexdeck-core/src/job.rs:132-272 | in every state a legal run reaches: each active root has exactly one started job, no job waits for a free root, the queue lists exactly the waiting jobs without repeats, and the history is bounded and terminal |
| `JobRuns.RunsStayConsistent` | crates/dexdeck-core/src/job.rs:144-296 | the same from every consistent state |
| `JobScheduling.FinishIsSafeExactlyWhenNotWaiting` | crates/dexdeck-core/src/job.rs:239-272 | finishing a job keeps that invariant if and only if the job is not still waiting, which the code does not check; otherwise a root is held twice, or is held and free at once |
| `JobScheduling.FinishOfWaitingBreaksRoots` | crates/dexdeck-core/src/job.rs:247-270 | after finishing a waiting job the holder of its root still holds it, while the root is free if nobody else waits for it and has a second holder if somebody does |
| `JobRuns.WaitingJobCanBeFinished` | crates/dexdeck-core/src/job.rs:144-272 | two submissions on one root reach such a state: finishing the second frees the root that the first still holds |
| `JobScheduling.SubmitKeepsConsistent` | crates/dexdeck-core/src/job.rs:144-183 | every submission keeps the invariant, whether refused, started or queued |
| `JobScheduling.CancelKeepsConsistent` | crates/dexdeck-core/src/job.rs:211-237 | every cancellation keeps the invariant |
| `JobScheduling.FinishKeepsConsistent` | crates/dexdeck-core/src/job.rs:239-272 | finishing a started job keeps the invariant, with the hand-off to the next waiting job |
| `JobScheduling.ReleaseMakesConsistent` | crates/dexdeck-core/src/job.rs:261-271 | handing a root over repairs a state in which the root is active and held by nobody |
| `JobOrder.RunsStayInOrder` | crates/dexdeck-core/src/job.rs:144-272 | in every legal run and for every root, the submissions that were not withdrawn are exactly those started, in order, followed by those waiting, in order |
| `JobOrder.FirstSubmittedFirstStarted` | crates/dexdeck-core/src/job.rs:157-171 | jobs of one root start in the order in which they were submitted |
| `JobOrder.StartsFollowSubmissions` | crates/dexdeck-core/src/job.rs:132-272 | both, for every legal run from the start |
| `JobRuns.StepBringsForward` | crates/dexdeck-core/src/job.rs:261-270 | while a job waits, each end of a job of its root brings it one place forward and nothing sets it back |
| `JobRuns.WaitingIsBounded` | crates/dexdeck-core/src/job.rs:261-270 | a job with k jobs of its root ahead of it waits through at most k ends of jobs on that root |
| `JobRuns.FinishStartsTheNext` | crates/dexdeck-core/src/job.rs:261-270 | the end of a root's job starts exactly the waiting job of that root with nobody ahead |
| `JobRuns.HistoryIsNewestRecords` | crates/dexdeck-core/src/job.rs:366-373 | the history is the newest fifty of all terminal records since the start or the last restoration |
| `JobStories.RunsAreTold` | crates/dexdeck-core/src/job.rs:132-296 | over every legal run: each job in progress is what was submitted for it, with the diagnostics, the newest output and the cancellations told since; and the history is, newest last, how the last fifty jobs ended, field by field: as the finish said, or as cancelled, with the diagnostics added meanwhile |
| `JobStories.SubmissionsAreAnswered` | crates/dexdeck-core/src/job.rs:144-183 | refused for an id in progress or a terminal record; otherwise it waits if and only if a job in progress was submitted for the same root |
| `JobStories.CancellationsAreAnswered` | crates/dexdeck-core/src/job.rs:211-237 | no signal for a job that waits, graceful for the first request of a started one, force for every further one |
| `JobStories.CancellationsEscalate` | crates/dexdeck-core/src/job.rs:211-237 | the same after every legal run from the start, counting the requests since the submission |
| `JobStories.StartsAreAnswered` | crates/dexdeck-core/src/job.rs:185-187 | a start is taken once, for a job that has its root and was not cancelled |
| `JobStories.ReportsAreAnswered` | crates/dexdeck-core/src/job.rs:189-252 | output and diagnostics are taken for exactly the jobs in progress, and so is an end in a terminal state; otherwise the error says which of the two it was |
| `JobStories.EndedJobsAreLeftAlone` | crates/dexdeck-core/src/job.rs:189-252 | a job that is over is left as it is by every call, and the answer says so |
| `JobStories.FinishIsRecorded` | crates/dexdeck-core/src/job.rs:239-254 | the last record of the history has the state, time, duration and exit code of the finish, and the id, diagnostics and details of the job |
| `JobStories.WithdrawalIsRecorded` | crates/dexdeck-core/src/job.rs:218-225 | the last record is Cancelled, and otherwise the one that the job had |
| `JobSchedulers.JobScheduler.Submit` | crates/dexdeck-core/src/job.rs:144-183 | fields and result follow the specification, error cases included, and the invariant is kept |
| `JobSchedulers.JobScheduler.MarkRunning` | crates/dexdeck-core/src/job.rs:185-187 | only a starting job becomes running |
| `JobSchedulers.JobScheduler.AppendOutput` | crates/dexdeck-core/src/job.rs:189-196 | output is added to the bounded buffer of a job that has not ended |
| `JobSchedulers.JobScheduler.AddDiagnostic` | crates/dexdeck-core/src/job.rs:198-209 | a diagnostic is added to a job that has not ended |
| `JobSchedulers.JobScheduler.Cancel` | crates/dexdeck-core/src/job.rs:211-237 | a waiting job is withdrawn and recorded; a started one is asked to stop, then forced |
| `JobSchedulers.JobScheduler.Finish` | crates/dexdeck-core/src/job.rs:239-272 | records the job, frees its root and promotes the first waiting job of that root |
| `JobSchedulers.JobScheduler.RecordHistory` | crates/dexdeck-core/src/job.rs:366-373 | appends a record and drops the oldest when fifty are held |
| `JobSchedulers.JobScheduler.RestoreHistory` | crates/dexdeck-core/src/job.rs:285-296 | the history becomes the newest fifty of the terminal records given |
| `OutputBuffers.HoldsTheNewestBytes` | crates/dexdeck-core/src/job.rs:33-47 | after any appends the buffer holds the newest bytes of everything appended, as many as the capacity allows, and counts all others as discarded |
| `OutputBuffers.OutputBuffer.AppendBytes` | crates/dexdeck-core/src/job.rs:33-47 | the drain-and-extend of the code is that specification |
| `OutputBuffers.OutputBuffer.New` | crates/dexdeck-core/src/job.rs:22-31 | refuses exactly a capacity of zero |
| `LineAssembly.StreamIsFoldOfLines` | crates/dexdeck-android/src/logcat.rs:77-100 | any chunking, pushed and finished, yields the records and state of splitting on newlines, truncating each line at the limit and folding the line parser |
| `LineAssembly.PushConcat` | crates/dexdeck-android/src/logcat.rs:77-91 | pushing two chunks is pushing their concatenation |
| `LineAssembly.PushKeepsBound` | crates/dexdeck-android/src/logcat.rs:84-88 | the partial line never exceeds the limit, and is exactly full while bytes are discarded |
| `LineAssembly.SplitLinesExactly` | crates/dexdeck-android/src/logcat.rs:79-83 | the lines hold no newline, and together with their newlines are the stream |
| `LogcatSessions.SessionsAreGrouped` | crates/dexdeck-android/src/logcat.rs:77-186 | for all that the parser yields from any number of connections in chunks, with a restart behind each: headers open consecutive groups, continuations belong to the latest header since the restart; the records are those of the lines, field by field; and each of the statistics counts its lines |
| `LogcatSessions.SessionsAreLines` | crates/dexdeck-android/src/logcat.rs:77-107 | such a session yields, however its bytes are cut, what its truncated lines and restarts yield |
| `LogcatParsing.GroupsAreWellFormed` | crates/dexdeck-android/src/logcat.rs:102-186 | over lines and restarts: header records open consecutive groups; every continuation carries the group, time, ids, priority and tag of the latest header since the last restart, and none precedes one |
| `LogcatParsing.GroupIdsIncrease` | crates/dexdeck-android/src/logcat.rs:140-141 | group ids of headers strictly increase over a run with restarts |
| `LogcatParsing.RecordsTellTheLines` | crates/dexdeck-android/src/logcat.rs:109-186 | over every run the records are, in order, those of the lines: a header gives time, process, thread, user, priority, tag and message, and a marker from the untrimmed tag and the message; any further line gives the message, a marker from the tag of its group, and its own truncation flag, and has the rest from the group |
| `LogcatParsing.LineIsTold` | crates/dexdeck-android/src/logcat.rs:109-186 | the same for one line, and exactly when there is no record |
| `LogcatParsing.EveryLineIsAccounted` | crates/dexdeck-android/src/logcat.rs:109-186 | over every run each of the statistics grows by its lines: physical, oversized, truncated, invalid, malformed, restarts, records; and every line is a record, malformed or empty |
| `LogcatParsers.LogcatParser.Push` | crates/dexdeck-android/src/logcat.rs:77-91 | the byte loop is the specification of the line assembler with this parser |
| `LogcatParsers.LogcatParser.Finish` | crates/dexdeck-android/src/logcat.rs:93-100 | an unfinished line is parsed once, with its truncation flag |
| `LogcatParsers.LogcatParser.RestartStream` | crates/dexdeck-android/src/logcat.rs:102-107 | finishes, forgets the header and counts the restart |
| `LogcatParsers.LogcatParser.ParsePhysicalLine` | crates/dexdeck-android/src/logcat.rs:109-186 | header, continuation, malformed and empty lines, with their statistics |
| `LogcatCapture.RunsAreAccounted` | crates/dexdeck-android/src/logcat.rs:348-438 | over every run and any number of reconnects: queue and set hold the newest keys, equal keys are more than a window apart, admitted records equal sent, dropped and pending ones, in order, and batches taken and refused by the channel are counted apart |
| `LogcatCapture.TimestampIsLatest` | crates/dexdeck-android/src/logcat.rs:380-423 | over every run the time from which a reconnect continues is that of the latest selected record, also when it was suppressed or dropped |
| `LogcatCapture.StepKeepsAccounts` | crates/dexdeck-android/src/logcat.rs:414-438 | each record, tick and connection end keeps all of it; every batch has one to 256 records and fewer bytes than the limit without its last record |
| `LogcatCapture.SuppressedExactlyWhenRecent` | crates/dexdeck-android/src/logcat.rs:420-428 | a selected record is suppressed if and only if its key is among the window of the newest emitted ones |
| `LogcatCapture.RememberTracks` | crates/dexdeck-android/src/logcat.rs:424-428 | removing the oldest key from the set is safe, because no other kept key equals it |
| `CaptureLoops.CaptureIsBounded` | crates/dexdeck-android/src/logcat.rs:419-433 | over every run of the loop: each batch has one to 256 records, and without the last one fewer than 65536 bytes of texts, with 64 more for each record; records with one key are more than 4096 emissions apart |
| `CaptureLoops.CaptureLoop.AdmitRecord` | crates/dexdeck-android/src/logcat.rs:419-433 | the loop body is the specification, with the window of 4096 and the batch limits of the code |
| `CaptureLoops.CaptureLoop.FlushPending` | crates/dexdeck-android/src/logcat.rs:408-438 | the timer and the end of a connection flush the batch and keep the window |
| `CaptureLoops.CaptureLoop.FlushBatch` | crates/dexdeck-android/src/logcat.rs:501-523 | a batch is counted as sent or dropped as the channel answers, and nothing is counted for an empty one |
| `DiagnosticNormalizers.DiagnosticsNameTheLatestTask` | crates/dexdeck-core/src/diagnostic_parser.rs:67-198 | the n-th line adds what the patterns make of it behind the diagnostics of the lines before it: nothing, or one diagnostic with the severity, category, message, location, suggestion and truncation flag of the finding, the task of the latest failure line among the first n, and that task's module |
| `DiagnosticNormalizers.NormalizeFollowsTheTask` | crates/dexdeck-core/src/diagnostic_parser.rs:67-198 | over every run: lines, lines over the limit and diagnostics are counted, and the current task is that of the latest failure line |
| `DiagnosticNormalizers.TaskModuleExactly` | crates/dexdeck-core/src/diagnostic_parser.rs:242-244 | the module of a task is everything before its last colon |
| `DiagnosticNormalizers.DiagnosticNormalizer.PushBytes` | crates/dexdeck-core/src/diagnostic_parser.rs:42-56 | the second line assembler follows the same specification |
| `DiagnosticNormalizers.DiagnosticNormalizer.FinishStream` | crates/dexdeck-core/src/diagnostic_parser.rs:58-65 | an unfinished line is parsed once, with its truncation flag |
| `DiagnosticNormalizers.DiagnosticNormalizer.ParsePhysicalLine` | crates/dexdeck-core/src/diagnostic_parser.rs:67-174 | counts the line, follows the task, and emits at most one diagnostic |
| `LogBuffers.RunsAreDescribed` | crates/dexdeck-core/src/log_buffer.rs:84-122 | after any pushes and clears the buffer holds the longest suffix that fits of the records accepted since the clear, numbered without gaps; pushes and bytes since the clear equal buffered plus dropped, and all entries and bytes ever given up are counted |
| `LogBuffers.PushAnswersTheNumber` | crates/dexdeck-core/src/log_buffer.rs:84-104 | a push answers with the number of the entry it appended, or with none for a record over the capacity, which leaves the entries alone |
| `LogBuffers.LongestFitIsLongest` | crates/dexdeck-core/src/log_buffer.rs:90-96 | that suffix fits, and no longer suffix does |
| `LogBuffers.EvictKeepsFit` | crates/dexdeck-core/src/log_buffer.rs:90-96 | evicting from the front until the record fits gives the longest fitting suffix with the record, and counts every entry it drops |
| `LogBuffers.ByteBoundedLogBuffer.PushRecord` | crates/dexdeck-core/src/log_buffer.rs:84-104 | the eviction loop ends, since the byte count is the sum of the entries; an oversized record is dropped and gets no number |
| `LogBuffers.ByteBoundedLogBuffer.ClearRecords` | crates/dexdeck-core/src/log_buffer.rs:106-112 | forgets the entries and the counts since the clear, and keeps the totals and the numbering |
| `LogBuffers.ByteBoundedLogBuffer.New` | crates/dexdeck-core/src/log_buffer.rs:47-63 | accepts exactly the capacities from 8 MiB to 1 GiB |
| `ModelServiceRuns.RunsSimulate` | crates/dexdeck-gradle/src/service.rs:249-510 | every interleaving of opens, refreshes in flight, failures and invalidations leaves model, freshness and generation as the sequential refresh driven by the operations that took effect |
| `ModelServiceRuns.CommitIsComplete` | crates/dexdeck-gradle/src/service.rs:412-463 | a commit the outside does not reject is accepted exactly when the sequential refresh accepts it, with the same effect |
| `ModelServiceRuns.RunsKeepGenerations` | crates/dexdeck-gradle/src/service.rs:343-353 | the generation of the state is the counter, refreshes in flight have distinct generations up to it, and it never goes down |
| `ModelServiceRuns.SupersededLeavesNoTrace` | crates/dexdeck-gradle/src/service.rs:412-418 | taking every event of a superseded refresh out of any run leaves the same service and the same other refreshes |
| `ModelServiceRuns.SupersededChangesNothing` | crates/dexdeck-gradle/src/service.rs:416-418 | the step of that: a superseded refresh changes neither model, registrar nor cache, and its commit returns the state as it is |
| `ModelServiceRuns.SupersededStaysSuperseded` | crates/dexdeck-gradle/src/service.rs:412-418 | a refresh that is superseded stays so over every continuation of the run |
| `ModelServiceGuarantees.RunsAreSound` | crates/dexdeck-gradle/src/service.rs:249-510 | every reachable state keeps all of the invariants below together |
| `ModelServiceGuarantees.StartIsSound` | crates/dexdeck-gradle/src/service.rs:226-247 | a new service has them |
| `ServiceStories.RunsAreTold` | crates/dexdeck-gradle/src/service.rs:249-510 | over every interleaving, told from the events alone: model, freshness, support, reason, open project, watched files and cache are what the latest event that sets them set them to (an open by what it detected, a save to full support and no reason, a failure of the newest generation to degraded support and exactly its reason; nothing else touches these two), and every refresh returns what the outside told it |
| `ServiceStories.StartIsTold` | crates/dexdeck-gradle/src/service.rs:226-247 | a new service begins so |
| `ServiceStories.OpensAreAnswered` | crates/dexdeck-gradle/src/service.rs:249-322 | an open answers with the state it leaves and takes a generation, or with the first of its five failures in order, which take none |
| `ModelServiceGuarantees.StepKeepsCurrentCached` | crates/dexdeck-gradle/src/service.rs:268-321 | a Current state shows the model cached for the root it came from, stamped with its hash, this schema and this bridge version |
| `ModelServiceGuarantees.StepKeepsSavesIncreasing` | crates/dexdeck-gradle/src/service.rs:412-447 | cache saves carry strictly increasing generations |
| `ModelServiceGuarantees.StepKeepsRefreshingExact` | crates/dexdeck-gradle/src/service.rs:343-411 | the state is Refreshing if and only if the newest refresh is in flight, or has left through one of the exits that tell nobody |
| `ModelServiceGuarantees.CommitShowsOpenRootExactly` | crates/dexdeck-gradle/src/service.rs:337-353 | a saved refresh shows a model of the open root if and only if the root it captured was the open one when it took its generation |
| `ModelServiceLimits.EarlyExitStaysRefreshing` | crates/dexdeck-gradle/src/service.rs:380-382 | when the inputs cannot be listed or the model cannot be hashed, the state stays Refreshing with no refresh in flight |
| `ModelServiceLimits.ModelOfAnotherRoot` | crates/dexdeck-gradle/src/service.rs:337-353 | a refresh that captured one root and began after another was opened ends Current with the first root's model and watcher under the second |
| `ModelServiceLimits.AnotherRootIsReached` | crates/dexdeck-gradle/src/service.rs:249-463 | from the start of the service: open a root, ask for a refresh, open another root, and let the refresh run; it ends so |
| `ModelReopening.RefreshThenOpenIsCurrent` | crates/dexdeck-gradle/src/service.rs:249-463 | a refresh reads its files, is saved after any other events, and after any further ones that leave its cache entry an open with the same files reports Current and the same model |
| `ModelReopening.OpenIsCurrentExactly` | crates/dexdeck-gradle/src/service.rs:267-313 | an open reports Current if and only if the cache entry is stamped and holds the inputs a fingerprint from scratch gives today |
| `ModelReopening.RunsKeepTrue` | crates/dexdeck-gradle/src/service.rs:383-411 | over every run, each recorded hash stays the hash of what the file held |
| `ModelServices.ProjectModelService.Open` | crates/dexdeck-gradle/src/service.rs:249-322 | the section under the lock, with its four ways to fail; a late failure leaves the new watch behind |
| `ModelServices.ProjectModelService.Begin` | crates/dexdeck-gradle/src/service.rs:343-353 | takes the next generation and marks the state |
| `ModelServices.ProjectModelService.Commit` | crates/dexdeck-gradle/src/service.rs:412-463 | superseded, rejected by the registrar, rejected by the cache, or published |
| `ModelServices.ProjectModelService.Degrade` | crates/dexdeck-gradle/src/service.rs:494-510 | marks the state only for the newest generation |
| `ModelServices.ProjectModelService.Invalidate` | crates/dexdeck-gradle/src/service.rs:466-480 | takes a generation and settles the freshness |
| `ModelRefreshes.ModelRefresh.BeginRefresh` | crates/dexdeck-gradle/src/refresh.rs:32-36 | the sequential begin |
| `ModelRefreshes.ModelRefresh.CompleteRefresh` | crates/dexdeck-gradle/src/refresh.rs:37-44 | accepts exactly the newest generation |
| `ModelRefreshes.ModelRefresh.FailRefresh` | crates/dexdeck-gradle/src/refresh.rs:45-53 | fails exactly the newest generation and keeps the model |
| `ModelRefreshes.ModelRefresh.CancelRefresh` | crates/dexdeck-gradle/src/refresh.rs:54-61 | supersedes whatever is in flight |
| `ModelRefreshes.RefreshesAreTold` | crates/dexdeck-gradle/src/refresh.rs:32-61 | over every run: the generation counts begins and cancels, and model and freshness are what the latest event that was in time set them to |
| `ModelCaches.ChainEqualsScratch` | crates/dexdeck-config/src/model_cache.rs:109-146 | along any chain of calls in which path, size and time determine content, the incremental fingerprint has the inputs of one from scratch |
| `ModelCaches.FailsExactlyWhenUnavailable` | crates/dexdeck-config/src/model_cache.rs:114-131 | fingerprinting fails if and only if some file is missing, or is unreadable and not known unchanged |
| `ModelCaches.FirstFailureIsReported` | crates/dexdeck-config/src/model_cache.rs:114-131 | the error names the first such path, and whether it is missing or cannot be read |
| `ModelCaches.FingerprintIsHonest` | crates/dexdeck-config/src/model_cache.rs:121-139 | the recorded hashes are those of the contents, in whatever order they end up |
| `ModelCaches.InputsAreInOrder` | crates/dexdeck-config/src/model_cache.rs:109-146 | a fingerprint lists, in the order of the paths, for each given path the size and time the disk has, and the hash of the first input known with them, or else the hash of the bytes |
| `ModelCaches.ListingOrderDoesNotMatter` | crates/dexdeck-config/src/model_cache.rs:109-146 | and is the same in whatever order the files were listed |
| `ModelCaches.FingerprintsAreStamped` | crates/dexdeck-config/src/model_cache.rs:141-160 | a fingerprint has this format and the bridge version and model hash of the one before it, or the ones given for a model, with the same inputs and errors |
| `ModelCaches.ComputeFingerprint` | crates/dexdeck-config/src/model_cache.rs:109-146 | the loop over the paths is that specification, and stops at the first error |
| `ModelOrder.OrderDoesNotMatter` | crates/dexdeck-gradle/src/assembler.rs:85-218 | two accepted streams that permute the same records, with distinct diagnostic messages, assemble to the same model |
| `ModelOrder.SameModelExactly` | crates/dexdeck-gradle/src/assembler.rs:85-218 | two accepted streams that permute the same records assemble to the same model if and only if the diagnostics of each message arrive in the same order in both |
| `ModelContents.ModelsAreArranged` | crates/dexdeck-gradle/src/assembler.rs:177-218 | every model that a stream assembles to holds exactly what its records give, stated on the fields: modules, tasks and included builds by path or id; flavor dimensions by order, then name; product flavors by dimension, then name; build types, variants and test components by name; variant flavors by dimension, then flavor; artifacts by path; diagnostics by message. Each list is a permutation of what its records gave |
| `ModelAcceptance.AssemblesExactly` | crates/dexdeck-gradle/src/assembler.rs:67-218 | a stream assembles if and only if every line is a record, the last is the only completion and counts the others, each record fits those before it (build first and once, module before its components, every name, id and path once, no error record), one is the build, and the hash is that of the lines before the completion |
| `ModelAcceptance.PayloadFitsExactly` | crates/dexdeck-gradle/src/assembler.rs:85-175 | a record is accepted if and only if it fits the records before it |
| `ModelAcceptance.RefusalsAreExplained` | crates/dexdeck-gradle/src/assembler.rs:85-175 | a refusal names what was wrong: the error is true of the record and those before it |
| `ModelAcceptance.FinishRefusalsAreExplained` | crates/dexdeck-gradle/src/assembler.rs:177-217 | lines that were all accepted and do not assemble lack the completion, or else the build, or else have another hash, and the error says which, with both hashes |
| `BridgeRoundTrip.OppositeOrdersDiffer` | crates/dexdeck-gradle/src/assembler.rs:201 | two different diagnostics with one message, written in both orders, are both accepted and read back as two different models |
| `Ordering.SortsAlikeExactly` | crates/dexdeck-gradle/src/assembler.rs:180-201 | two sequences sort to the same one if and only if the elements of each key stand in the same order in both |
| `Ordering.SortIsStable` | crates/dexdeck-gradle/src/assembler.rs:180-201 | elements of one key keep their order |
| `ModelCanonical.PayloadKeepsTold` | crates/dexdeck-gradle/src/assembler.rs:85-175 | every accepted record keeps the order-free account of the state: maps by key, modules with exactly the components given to them, and names claimed once |
| `Ordering.SortByKeyCanonicalises` | crates/dexdeck-gradle/src/assembler.rs:180-201 | sorting by a key that holds a name no two elements share forgets the original order |
| `Sorting.SortCanonicalises` | crates/dexdeck-gradle/src/assembler.rs:180-201 | a stable sort by a total order on distinct keys depends only on what is sorted |
| `Ordering.KeysInOrderAreComplete` | crates/dexdeck-gradle/src/assembler.rs:205-207 | the sorted maps yield every key once, in order |
| `Ordering.AtMostIsLexicographic` | crates/dexdeck-gradle/src/assembler.rs:180-201 | strings are in order exactly when the first is a beginning of the second, or has the smaller character where they first differ |
| `Ordering.PathAtMostIsLexicographic` | crates/dexdeck-config/src/model_cache.rs:109-146 | paths likewise, component by component |
| `ModelAssembly.ModelAssembler.AcceptJsonLine` | crates/dexdeck-gradle/src/assembler.rs:67-73 | refuses text that is no record, and hashes the line as received |
| `ModelAssembly.ModelAssembler.Accept` | crates/dexdeck-gradle/src/assembler.rs:75-84 | validates first, then hashes every record but the completion, then assembles |
| `ModelAssembly.ModelAssembler.Add` | crates/dexdeck-gradle/src/assembler.rs:85-175 | the ten kinds of records with their errors and the exact state an error leaves |
| `ModelAssembly.ModelAssembler.AddModule` | crates/dexdeck-gradle/src/assembler.rs:109-148 | claims the names a module brings, up to the first that is taken |
| `ModelAssembly.ModelAssembler.AddComponent` | crates/dexdeck-gradle/src/assembler.rs:227-251 | claims one name in a known module |
| `ModelAssembly.ModelAssembler.FinishModel` | crates/dexdeck-gradle/src/assembler.rs:177-218 | sorts every module in place and reports the first of three errors, or the model |
| `BridgeProtocol.AcceptedExactlyWhenComplete` | crates/dexdeck-protocol/src/bridge.rs:111-142 | a stream is accepted with a completion if and only if it is records of this version and then one completion that counts them |
| `BridgeProtocol.RefusedByTheFirst` | crates/dexdeck-protocol/src/bridge.rs:111-137 | otherwise the first record that does not fit is refused, and the error says why, with the numbers of both sides |
| `BridgeProtocol.BridgeStreamValidator.Accept` | crates/dexdeck-protocol/src/bridge.rs:111-137 | version, then completion, then count |
| `BridgeProtocol.BridgeStreamValidator.Finish` | crates/dexdeck-protocol/src/bridge.rs:139-142 | the completion, or an error if there was none |
| `BridgeRoundTrip.WriterAndReaderUndoEachOther` | bridge/src/main/java/dev/dexdeck/bridge/ModelBridge.java:40-50 | reading what was written for records without line endings succeeds if and only if the records assemble with a build and no completion, and gives exactly their model |
| `BridgeRoundTrip.ReadingTheWritten` | crates/dexdeck-gradle/src/runner.rs:112-124 | for all newline-free records, also those ending in a carriage return, the exact outcome of writing and reading |
| `BridgeRoundTrip.LineEndingsAreDropped` | crates/dexdeck-gradle/src/runner.rs:112-124 | reading by lines drops a newline with the one carriage return before it, and nothing else |
| `BridgeRoundTrip.FinishedIsCountedAndHashed` | crates/dexdeck-gradle/src/assembler.rs:177-217 | a stream that finishes ends in one completion whose count and hash cover every record before it |
| `BridgeRoundTrip.FailureIsReportedExactly` | bridge/src/main/java/dev/dexdeck/bridge/ModelBridge.java:52-56 | a failure comes back with its code and message if and only if neither holds a control character other than CR and LF; otherwise the file is not valid |
| `ModelBridge.EscapeIsReadBackExactly` | bridge/src/main/java/dev/dexdeck/bridge/ModelBridge.java:92-95 | a JSON reader (section 7 of RFC 8259) gets an escaped text back exactly when it has no other control characters, and refuses it otherwise |
| `ModelBridge.EscapeIsCharByChar` | bridge/src/main/java/dev/dexdeck/bridge/ModelBridge.java:92-95 | the four replacements over the whole text do not disturb each other |
| `ModelBridge.WriteModel` | bridge/src/main/java/dev/dexdeck/bridge/ModelBridge.java:40-50 | the builder loop writes the records, then the completion with their count and the hash of their text |
| `ModelBridge.WriteFailure` | bridge/src/main/java/dev/dexdeck/bridge/ModelBridge.java:52-56 | writes one escaped error record as a model file |
| `ModelBridge.CompletionIsWritten` | bridge/src/main/java/dev/dexdeck/bridge/ModelBridge.java:40-50 | the completion as a JSON object spelled out, with digits that read back as the count |
| `ModelBridge.FailureIsWritten` | bridge/src/main/java/dev/dexdeck/bridge/ModelBridge.java:52-56 | the error record as a JSON object spelled out |
| `ModelBridge.DecimalIsReadBack` | bridge/src/main/java/dev/dexdeck/bridge/ModelBridge.java:40-50 | a count is written in decimal digits that stand for it, without a zero in front unless it is zero |
| `Base64.DecodeUndoesEncode` | crates/dexdeck-core/src/log_actions.rs:314-337 | the decoder of section 4 of RFC 4648 inverts the encoder on every byte sequence |
| `Base64.EncodeUndoesDecode` | crates/dexdeck-core/src/log_actions.rs:314-337 | whatever the decoder accepts is the encoding of its result |
| `Base64.EncodedLength` | crates/dexdeck-core/src/log_actions.rs:316-335 | four symbols for every three bytes begun |
| `Base64.PadsOnlyTheLastGroup` | crates/dexdeck-core/src/log_actions.rs:323-332 | padding is exactly what fills the last group up |
| `Base64.WriteBase64` | crates/dexdeck-core/src/log_actions.rs:314-337 | the loop over chunks of three is that encoder |

## Left out

* User interface, command line, process supervision, ADB, emulator, file watching, atomic writes: foreign calls and glue.
* `redact_argv`, `resolve_environment_references`, `persist_history`: one call of the redaction proved here per item.
* `LogFilterIndex`, the app reducer, configuration layers, run profiles, test history: easy, or weaker copies of the above.
* `matches_selection` and `enrich_record`: the capture model starts at the records that the selection lets through.
* UTF-8 decoding, regular expressions, JSON inside records and SHA-256 are parameters; two inputs may share a hash.
* Counters are unbounded; the saturation of `u64` counters is not modelled.
* Lock poisoning, and thereby the errors it causes; a lock section is one atomic step.
* Each fingerprint call sees one snapshot of the disk; a file that changes between two reads of one call is not modelled.
* A failed cache save leaves the cache entry as it was, as an atomic write does.
* Error texts of the model service are placeholders where the source formats or redacts another error's text.
* `ModelAssembler::accept`, which encodes a record again instead of taking its line, and the validator's own line parsing: the runner uses neither.
* Fields of bridge records that assembly does not look at are one text per record.
* `SecretRedactors.SecretRedactor.Register`: the order among values of equal length is the order of arrival; the source's unstable sort leaves it open.
* StreamGuarantees.StreamEqualsWhole: asks that all values are whitespace-free; for sets of several values this is proved enough, and nothing is claimed about which sets with whitespace also have equality.
* StreamHiddenValues.SeparateValuesAreNotStreamed: for values with whitespace that overlap another, and values that a chain of overlaps connects to one with whitespace, there are two failing inputs; which of those values are safe all the same is not characterised.
* LogcatSessions.SessionsAreGrouped: is about what the parser yields; the capture loop throws away the record that a restart returns for an unfinished line (crates/dexdeck-android/src/logcat.rs:448), so that record never reaches a batch.
* CaptureLoops.CaptureLoop.AdmitRecord: an error while reading from the device ends the session with the pending batch unsent; a run that stops there has it still pending.
* LogBuffers.ByteBoundedLogBuffer.PushRecord: the size of a record is a parameter, since it includes the size of a Rust struct.
* BridgeRoundTrip.WriterAndReaderUndoEachOther: the reader is assumed to understand the completion line written for these very records, and their hash to have no line ending.
* BridgeRoundTrip.FailureIsReportedExactly: the reader is assumed to take the error record written for this code and message as JSON does; nothing is assumed about other texts.
* ModelBridge.EscapeIsReadBackExactly: four-digit escapes are not read, since the writer never makes one.
* SecretRedactors.EmitOutput: says nothing of values in the undecoded output; one with a character across two pieces is published in fragments, as `CutValueIsPublished` shows.
* Sharing of a `SecretRedactor` between streams: a stream has a redactor of its own in the source; in the model nobody registers values while a stream is in use.
