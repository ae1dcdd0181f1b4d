# Verified model of the local audio library

Audux keeps a library of audio files: it scans folders, transcribes and describes recordings, searches
them, and backs its database up. This project models five parts of its backend in Dafny and proves what
they promise, for every input and every run.

* **Transcribing long recordings.** A voice activity detector turns frame probabilities into speech
  intervals (`VoiceActivity`), their complement is the silence (`Silence`, `SilencePipeline`), a greedy
  planner cuts the recording into overlapping chunks, in silence where it can (`ChunkPlanner`,
  `PlanGuarantees`), and the chunk transcripts are stitched together, without the text that consecutive
  chunks share and on one timeline (`Folding`, `Overlap`, `Stitching`, `NoWordsLost`, `RepeatsFound`,
  `SegmentTrimming`, `MergedTimeline`). An independent checker then looks at the result (`TranscriptValidation`) and keeps
  its issue table in line with what it finds (`ValidationIssues`).
* **Analyze tasks.** Service calls, one background worker, crashes and restart recovery act on two tables
  (`AnalyzeTasks`); every interleaving of their transactions is a run of one system (`AnalyzeProtocol`,
  `AnalyzeGuarantees`, `AnalyzeHistory`), whose answers are stripped as Python does (`Whitespace`).
* **Library scans.** A scan makes the table of audio items agree with a folder, recognises moved files by
  their fingerprint, and may be canceled or broken off anywhere (`LibraryScan`, `ScanGuarantees`,
  `ScanOutcome`).
* **Search.** A search text becomes a LIKE pattern (`LikeSearch`) and a full-text query (`PhraseQuery`),
  each judged by a model of the language that reads it; the results of both are merged (`SearchMerge`).
* **Scheduled database restore.** A start applies a pending restore and rolls back when it fails, with a
  possible error at every call (`DatabaseRestore`, `RestoreGuarantees`).

Code that updates rows, files or accumulators in place is modelled by methods, on classes where the
original has state, and each method is proved equal to a specification function or predicate; the
guarantees are then proved about that specification. Seconds are `real`. `dafny verify dfyconfig.toml`
checks everything.

Where the code falls short of a promise, the code is kept, a lemma gives an input that shows it, and
another says exactly when the promise holds:

* A character whose compatibility form has several letters or digits can be cut in the middle of them when
  overlapping text is removed; those letters are then missing from the full text (`LettersCanBeLost`). A
  chunk's folded text still ends the full text exactly when the text before it ends with what is not added
  (`ChunkEndsTextExactly`).
* The handler rejects an empty description before it strips white space, so a blank one is stored as the
  empty text. The task ends as done, unless the process stops before that is recorded; recovery then
  reports a failure (`BlankDescriptionIsLost`, `CommitSurvivesCrash`, `CleanEmpties`).
* A cancel request that comes between the handler's first check and the commit after it is hidden: the audio
  item says running (`RequestIsHidden`). It shows the request exactly when the handler committed nothing
  since (`RequestShownExactly`); the request itself is honoured all the same (`CancelIsHonoured`).
* A scan run as a task expires its session at every 25th row of the missing pass, which drops the flag that
  was set last: that row stays as if its file were there, in this scan and in the next (`FlagIsDropped`).
  The table agrees with the disk, and a second scan reports nothing, exactly when no gone row stands in such
  a place (`DoneAgreesWithDisk`, `SecondScanIdle`).
* A scan canceled during its missing pass rolls the flags back and still reports how many it had set
  (`CanceledScanMiscounts`, `CanceledCount`).
* If two open issues of a transcript share a key, reconciliation keeps one of them open without a finding,
  and a second run goes on to close it (`SharedKeyStaysOpen`). A segment listed twice among the suspect
  segments of the metrics gives two findings with one key, and `store_validation_issues` stores both. The
  table is in line exactly when the open issues had distinct keys (`InLineIffOnePerKey`), and a second run
  is idle exactly when no stale key was open twice (`SecondRunIdle`).
* SQLite reads patterns, texts and full-text queries up to their first NUL character: a LIKE query that
  begins with one is found everywhere (`NulQueryFindsAll`), and a word with one makes the full-text query an
  error (`NulBreaksQuery`). `LikeFindsLiterally` and `QueryRoundTrip` say what happens to every input.
* A restore request that names one snapshot as target and as safety copy is recorded as succeeded although
  the database keeps its content (`SameSnapshotRestoresNothing`, `SucceededMeansRestored`). Requests
  written by `schedule_database_restore` name a new safety copy, so they are not of that kind.
* When a finished restore cannot be recorded, the next start applies the request again and refreshes the
  safety snapshot from the restored database (`SecondStartMayLoseContent`). Over any number of starts the
  old content is retained exactly when no start does that (`RetainedExactly`); for two starts the condition
  is spelled out in what fails in each (`TwoStartsLoseExactly`).

## Model

| member | source | states |
|---|---|---|
| VoiceActivity.ProbabilitiesToSpeechIntervals | backend/app/services/silero_vad_service.py:149-197 | the automaton's result is the speech of a segmentation of the frames, which is stated without the automaton: where each burst must begin, and where the first long enough quiet run closes it |
| VoiceActivity.SegmentationUnique | backend/app/services/silero_vad_service.py:168-189 | a recording has one segmentation only, so the automaton's result is determined by the rules |
| VoiceActivity.DetectedSpeech | backend/app/services/silero_vad_service.py:160-197 | every speech interval starts on an at-threshold frame, has at least the minimum length, ends where a long enough pause begins or with the samples, lies inside the samples, and is at least the minimum silence away from the next; in seconds, milliseconds and frames of 512 samples |
| VoiceActivity.PauseIsSilent | backend/app/services/silero_vad_service.py:168-189 | no speech interval reaches into a long enough pause, which begins and ends with a frame below both thresholds and has none at the threshold between them |
| VoiceActivity.QuietExactly | backend/app/services/silero_vad_service.py:160-180 | a frame is quiet if and only if it is below the threshold and below the lower one, 0.15 less but at least 0.01 |
| VoiceActivity.LoudFramesCovered | backend/app/services/silero_vad_service.py:168-195 | every at-threshold frame that begins within the samples lies in an emitted interval or in a burst dropped for being shorter than the minimum speech |
| VoiceActivity.BurstsInOrder | backend/app/services/silero_vad_service.py:168-189 | a burst begins only after all earlier ones closed |
| Silence.SpeechToSilenceIntervals | backend/app/services/silero_vad_service.py:200-217 | the loop computes the complement of the speech within the recording |
| Silence.SilenceTiles | backend/app/services/silero_vad_service.py:200-217 | for speech in order of its starts, a moment of the recording is in silence if and only if it is in no speech |
| Silence.SilenceOrdered | backend/app/services/silero_vad_service.py:200-217 | for any input the silences are non-empty, in order, apart from each other and inside the recording |
| Silence.LengthsAddUp | backend/app/services/silero_vad_service.py:200-217 | lengths of separated speech and of its silence add up to the length of the recording |
| Silence.ComplementTwice | backend/app/services/silero_vad_service.py:200-217 | the silence of the silence is the speech again |
| Silence.ComplementTwiceClips | backend/app/services/silero_vad_service.py:200-217 | within a shorter recording the silence of the silence is the part of the speech before its end |
| SilencePipeline.DetectSilenceIntervals | backend/app/services/silero_vad_service.py:318-331 | an error exactly when there are no samples or no duration; otherwise the silence of the detected speech within the shorter of the two lengths |
| SilencePipeline.SilenceExactly | backend/app/services/silero_vad_service.py:326-331 | a moment within both the probed and the decoded length is silent if and only if no speech covers it, and no other moment is |
| SilencePipeline.VadCutsAvoidSpeech | backend/app/services/external_asr_service.py:155-228 | from probabilities to plan: every cut labelled as a silence cut is the midpoint of a detected silence whose length it carries, and lies strictly outside every speech interval |
| SilencePipeline.SilenceDeterminesSpeech | backend/app/services/silero_vad_service.py:326-331 | the silence of the silence handed to the planner is the detected speech, cut at the shorter of the two lengths; with the decoded length nothing is cut |
| ChunkPlanner.PlanAudioChunks | backend/app/services/external_asr_service.py:155-228 | the loop ends and yields a plan: every cut follows the local rules for natural and tail cuts, and the next chunk starts the overlap before it |
| ChunkPlanner.ChooseCut | backend/app/services/external_asr_service.py:180-211 | one cut is the latest silence midpoint in reach or the maximum, moved when it would leave a short tail |
| ChunkPlanner.AvoidShortTail | backend/app/services/external_asr_service.py:194-211 | for a short tail, the latest earlier midpoint that leaves at least half a chunk, or else the balanced point |
| PlanGuarantees.PlanShape | backend/app/services/external_asr_service.py:172-228 | the plan covers the recording, consecutive chunks overlap by exactly the configured amount, ends increase, and every chunk, the last included, is between half the maximum and the maximum |
| PlanGuarantees.ChunkCount | backend/app/services/external_asr_service.py:179-226 | fewer than 2 + (duration - M) / (M/2 - o) chunks |
| PlanGuarantees.TailClosesPlan | backend/app/services/external_asr_service.py:194-211 | a cut moved because of a short tail is followed by the last chunk only; without a silence the two last chunks have the same length and the clamps do not bind |
| PlanGuarantees.CutKinds | backend/app/services/external_asr_service.py:164-220 | for any silences, also ones that stick out of the recording: what silence cuts carry, and that a hard cut occurs only when no midpoint of a clipped silence is in reach, or none that leaves a long enough tail |
| PlanGuarantees.CutsDecided | backend/app/services/external_asr_service.py:164-211 | a cut is in silence if and only if a clipped silence has its midpoint between half the maximum and the maximum and leaves half a chunk; it is then the latest of those midpoints, with the length of the longest silence there; else it is the maximum, or the middle of what is left |
| PlanGuarantees.NoLaterSilence | backend/app/services/external_asr_service.py:182-205 | behind a silence cut no later midpoint is in reach, for a short tail none that leaves half a chunk, and no silence with that midpoint is longer |
| PlanGuarantees.LastExactly | backend/app/services/external_asr_service.py:179-182 | a chunk is the last one if and only if what is left fits in it |
| PlanGuarantees.ClippedIsInside | backend/app/services/external_asr_service.py:164-171 | of a silence counts what lies inside the recording: the point stands in the middle of it and carries its length |
| PlanGuarantees.PlanUnique | backend/app/services/external_asr_service.py:155-228 | a request has one plan only |
| PlanGuarantees.ShortAudioUncut | backend/app/services/external_asr_service.py:161-163 | a recording that fits in one request is one chunk |
| Folding.FoldAlphanumeric | backend/app/services/external_asr_service.py:268-277 | the folded letters and digits of a text and, for each, the source character it comes from |
| Folding.SourceIndexCharacterised | backend/app/services/external_asr_service.py:268-277 | that source character is the only one whose folding covers the position |
| Overlap.TrimLeadingCharacters | backend/app/services/external_asr_service.py:305-324 | removes the characters up to the one that yields the last folded character to go, and the separators after it |
| Overlap.TrimLeadingFolds | backend/app/services/external_asr_service.py:305-324 | what is left folds to the text's folding without the removed characters, up to the rest of a character that is cut |
| Overlap.TrimOverlap | backend/app/services/external_asr_service.py:327-360 | removes the overlap found by trying sizes from the largest down |
| Overlap.OverlapSizeIsLargest | backend/app/services/external_asr_service.py:331-360 | a size is the one found if and only if it is the largest that matches, has enough characters and splits no ASCII word |
| Overlap.OverlappingFolds | backend/app/services/external_asr_service.py:327-360 | what is removed is the end of the previous folded text, and what is left folds to the rest |
| Stitching.MergeChunkResults | backend/app/services/external_asr_service.py:395-563 | full text and timeline of the merge, for any number of chunks and either timestamp policy, as functions of the results that the rows below describe |
| Stitching.MergeSegment | backend/app/services/external_asr_service.py:484-528 | the branches for one provider segment: trimming, the proportional start, and the three reasons to drop it |
| NoWordsLost.ContextIsSuffix | backend/app/services/external_asr_service.py:441-449 | the bounded text a chunk is compared with always folds to the end of the folded full text |
| NoWordsLost.ChunkKept | backend/app/services/external_asr_service.py:412-449 | how many folded characters each chunk adds, and that its folded transcript replaces the matched end of the text so far if and only if no letter is cut off |
| NoWordsLost.ChunkEndsTextExactly | backend/app/services/external_asr_service.py:412-449 | the chunk's folded transcript ends the folded full text if and only if the text before it ends with what is not added: the overlap and the letters lost at the cut |
| NoWordsLost.ChunkFoundInFullText | backend/app/services/external_asr_service.py:544-549 | under that condition the chunk's folded transcript stands in the final folded full text, at a known place |
| NoWordsLost.SimpleChunkLosesNothing | backend/app/services/external_asr_service.py:305-360 | a chunk whose characters fold to one character at most loses nothing, and is found in the full text |
| NoWordsLost.AssembledGrows | backend/app/services/external_asr_service.py:412-449 | a later chunk changes nothing that earlier ones contributed |
| NoWordsLost.LettersCanBeLost | backend/app/services/external_asr_service.py:313-324 | two transcripts for which a character folding to two katakana loses one of them |
| RepeatsFound.RepeatFound | backend/app/services/external_asr_service.py:412-421 | for every chunk: what is removed is the largest admissible overlap of its text with the end of the full text so far, which is the whole full text up to 8000 characters; before there is any text nothing is removed |
| RepeatsFound.TailExactly | backend/app/services/external_asr_service.py:443-449 | that end is what stands after the leading white space of the last 8000 characters |
| RepeatsFound.ContextIsTail | backend/app/services/external_asr_service.py:441-449 | the text that the loop carries as context is that end of the full text, for any number of chunks |
| RepeatsFound.LongestRepeat | backend/app/services/external_asr_service.py:280-360 | the overlap found is a repeat or nothing, and no longer repeat exists; a repeat is a run of 2 to 2000 folded characters, at least 4 if all are ASCII, that ends the one text, begins the other and stands at word boundaries of both |
| RepeatsFound.CutExactly | backend/app/services/external_asr_service.py:305-324 | what is left of a text: all, nothing, or what stands behind the character that yields the last folded character to go and the white space and punctuation after it |
| RepeatsFound.TimelineRepeatFound | backend/app/services/external_asr_service.py:456-482 | a chunk with provider segments adds them without a count of folded characters: the largest admissible overlap of their joined texts with the same end of the full text if the first one starts early enough, and none otherwise |
| RepeatsFound.ChunkAsSegment | backend/app/services/external_asr_service.py:519-528 | a chunk without provider segments adds one segment that spans it, with the text it adds to the full text |
| RepeatsFound.TimelineSpellsFullText | backend/app/services/external_asr_service.py:453-549 | without provider segments the texts of the timeline are the lines of the full text; without timestamps there is no timeline |
| SegmentTrimming.SegmentwiseEqualsWhole | backend/app/services/external_asr_service.py:463-495 | trimming segment by segment removes exactly the overlap found on their joined text and leaves the same folded text, however the provider split it |
| SegmentTrimming.RemainingInMerge | backend/app/services/external_asr_service.py:484-495 | the count the merge loop carries is the one of segment-wise trimming |
| MergedTimeline.MergedInOrder | backend/app/services/external_asr_service.py:456-528 | for ordered provider segments the whole timeline has dense indexes, positive lengths and no overlaps, and every segment of a chunk lies between the end of the chunk before it and its own end |
| MergedTimeline.PlaceKept | backend/app/services/external_asr_service.py:490-520 | a kept segment starts no earlier than the provider said, in particular after a proportional shift, ends no later, and has text |
| MergedTimeline.MovedExactly | backend/app/services/external_asr_service.py:484-528 | start, end and text of a provider segment on the timeline: its start divides its length as the removed characters divide its text, but not before the chunk before ends |
| MergedTimeline.KeptExactly | backend/app/services/external_asr_service.py:482-528 | a segment that lies in its chunk is kept if and only if it goes on after the chunk before and some of its text is left; with nothing to remove, its text and times are kept |
| MergedTimeline.ChunkPlaced | backend/app/services/external_asr_service.py:456-528 | one chunk keeps the timeline in order and only appends to it |
| MergedTimeline.PlannedChunksAdvance | backend/app/services/external_asr_service.py:155-228 | the planner's chunks meet what the merge needs of them |
| TranscriptValidation.ValidateTimeline | backend/app/services/transcript_validation_service.py:22-92 | the loop over the segments in order of their numbers reports the findings of its specification, with code, severity and segment, in order |
| TranscriptValidation.SortedByIndex | backend/app/services/transcript_validation_service.py:29 | the order is ascending, has every segment as often as it is stored, and keeps those with one number in their stored order |
| TranscriptValidation.FindingsExact | backend/app/services/transcript_validation_service.py:32-92 | a finding is reported if and only if a segment with that number breaks that rule and the severity is the rule's |
| TranscriptValidation.FindingsInOrder | backend/app/services/transcript_validation_service.py:32-92 | every broken rule of every segment is reported once, segment by segment and for each in the order of the rules, and nothing else is |
| TranscriptValidation.PlannedMergeValidates | backend/app/services/transcript_validation_service.py:32-92 | planner, merge and checker together: the merged timeline of a planned transcription has no timeline finding and no empty segment |
| ValidationIssues.IssueTable.Reconcile | backend/app/services/transcript_validation_service.py:217-276 | the whole new table: which rows are resolved, which stay, which are created and in what order, and the three returned lists with the order of their ids |
| ValidationIssues.InLineIffOnePerKey | backend/app/services/transcript_validation_service.py:228-276 | exactly one open issue per finding and no other, if and only if the open issues had distinct keys |
| ValidationIssues.SecondRunIdle | backend/app/services/transcript_validation_service.py:228-276 | a second run changes nothing if and only if no two open issues shared a key that is not found any more |
| ValidationIssues.SharedKeyStaysOpen | backend/app/services/transcript_validation_service.py:228-251 | two open issues with one key and no finding: the first run leaves one open, and every second run changes the table |
| ValidationIssues.NeverReopens | backend/app/services/transcript_validation_service.py:241-257 | a row is left as it is or goes from open to resolved |
| ValidationIssues.FindingsAreOpen | backend/app/services/transcript_validation_service.py:252-276 | after a run every finding has an open issue |
| AnalyzeTasks.Database.EnqueueAnalyze | backend/app/services/ai_service.py:66-114 | which requests are refused and why, and both rows of an accepted one |
| AnalyzeTasks.Database.RetryTask | backend/app/services/ai_service.py:209-288 | only failed or canceled tasks without an active sibling; the retried task keeps no output |
| AnalyzeTasks.Database.CancelTask | backend/app/services/ai_service.py:291-326 | running tasks are asked to cancel, pending ones are canceled, and the audio item follows |
| AnalyzeTasks.Database.GetActiveTask | backend/app/task_repository.py:91-107 | finds an active task of the audio item if and only if there is one |
| AnalyzeTasks.Database.SelectPending | backend/app/task_runtime.py:28-34 | reads the oldest pending task |
| AnalyzeTasks.Database.ClaimPending | backend/app/task_runtime.py:36-55 | the conditional update takes the task if and only if it is still pending |
| AnalyzeTasks.Database.MarkTaskDone | backend/app/tasks.py:37-64 | done wins over a cancel request, in one transaction for task and audio item |
| AnalyzeTasks.Database.MarkTaskFailedOrCanceled | backend/app/tasks.py:67-104 | an error ends the task as failed, one after a cancel request as canceled, and a task that has ended stays as it is |
| AnalyzeTasks.Database.FinalizeCanceledTask | backend/app/task_repository.py:248-264 | task and audio item are canceled together |
| AnalyzeTasks.Database.MarkAnalyzing | backend/app/task_handlers.py:284-287 | the handler's first commit marks the audio item running, whatever the task's status |
| AnalyzeTasks.Database.SaveRawContent | backend/app/task_handlers.py:312-323 | the handler's second commit stores the raw reply as the task's output |
| AnalyzeTasks.Database.SaveAnalysis | backend/app/task_handlers.py:363-393 | description, audio status and task output in one commit |
| AnalyzeTasks.Database.RecoverInterruptedTasks | backend/app/task_repository.py:189-245 | the loop over all interrupted tasks, and how many it recovers |
| AnalyzeProtocol.FirstPendingIsOldest | backend/app/task_runtime.py:28-34 | the task selected is the oldest pending one, and none is selected if and only if none is pending |
| AnalyzeProtocol.StepKeeps | backend/app/tasks.py:107-130 | every service call, worker transaction, crash and restart keeps the invariant that ties tasks, audio items, worker and log together |
| AnalyzeProtocol.RunConsistent | backend/app/tasks.py:107-130 | the invariant holds in every reachable state |
| AnalyzeGuarantees.ReachableStates | backend/app/services/ai_service.py:66-114 | in every reachable state: at most one active task per audio item; a task is running or asked to cancel if and only if the worker holds it; its audio item then shows the last claim, cancel request or handler commit for it; and an item without active task shows how its last task ended |
| AnalyzeGuarantees.RequestShownExactly | backend/app/services/ai_service.py:291-326 | the audio item of a task that is asked to cancel says so if and only if the handler committed nothing for it since the request |
| AnalyzeGuarantees.RequestIsHidden | backend/app/task_handlers.py:240-287 | a run in which the request comes between the handler's check and its commit of the running status |
| AnalyzeGuarantees.WrittenOutputWins | backend/app/tasks.py:43-64 | once an attempt stored a description, through any cancel requests and restarts the task ends only as done, is never claimed again, and the one step left to it marks task and audio item done |
| AnalyzeGuarantees.CancelIsHonoured | backend/app/task_handlers.py:325-365 | a cancel request that comes before the handler's last check is honoured: whatever follows, the next thing decided about the task is that it ends as canceled |
| AnalyzeGuarantees.CancelTooLate | backend/app/task_handlers.py:363-393 | a request that comes between the last check and the commit loses: task and audio item end as done |
| AnalyzeGuarantees.RecoveryExact | backend/app/task_repository.py:152-245 | a restart marks the interrupted task done if and only if its current attempt stored a description, otherwise canceled or failed, and touches nothing else |
| AnalyzeGuarantees.CommitSurvivesCrash | backend/app/task_handlers.py:340-393 | a commit survives a crash if and only if the stored description is not empty; without a crash the task is done either way |
| AnalyzeGuarantees.CleanEmpties | backend/app/task_handlers.py:340-346 | the stored description is empty if and only if the answer is white space |
| AnalyzeGuarantees.BlankDescriptionIsLost | backend/app/task_handlers.py:340-346 | one run that ends as done, and the same run with a crash, which ends as failed |
| AnalyzeHistory.EveryEndJustified | backend/app/tasks.py:37-104 | in every run, a task ends as done only after its current attempt stored an output, as failed only when it was claimed, not asked to cancel and stored no description, and as canceled only when it waits or was asked to |
| AnalyzeHistory.ErrorsEndAsFailed | backend/app/tasks.py:67-104 | after any error of the handler the task and its audio item end as failed, or as canceled when that was requested |
| AnalyzeHistory.ErrorsAreFailures | backend/app/task_handlers.py:284-393 | a failing model call, an unusable answer and a failing commit each end the task so |
| AnalyzeHistory.AnswerIsStored | backend/app/task_handlers.py:329-393 | a usable answer that nobody cancels is stored, cleaned, in task and audio item, and the task ends as done |
| AnalyzeHistory.CleanExactly | backend/app/task_handlers.py:340-346 | the stored description is the stripped answer or, of a longer one, its first 800 characters without the white space at their end |
| AnalyzeHistory.EveryCheckSees | backend/app/task_handlers.py:240-365 | each of the three checks sees a request: the task ends as canceled with nothing begun or stored in between; without one the handler goes on |
| AnalyzeHistory.EveryRetryCounted | backend/app/services/ai_service.py:209-288 | in every run, the retry count of a task is how often it was queued again |
| AnalyzeHistory.EnqueueExactly | backend/app/services/ai_service.py:66-114 | for any tables: the answer of an enqueue in its order of refusals, and all that an accepted one changes |
| AnalyzeHistory.EnqueueAccepted | backend/app/services/ai_service.py:66-114 | in a reachable state a configured enqueue is accepted if and only if the audio item exists and all its tasks have ended |
| AnalyzeHistory.RetryExactly | backend/app/services/ai_service.py:209-288 | for any tables: the answer of a retry in its order of refusals, and that an accepted one starts the task over |
| AnalyzeHistory.CancelExactly | backend/app/services/ai_service.py:291-326 | a cancel call is refused if and only if the task has ended; it asks a running task, cancels a waiting one, and changes nothing else but the audio item |
| AnalyzeHistory.FinalizersExactly | backend/app/tasks.py:37-104 | what the three finalizers make of a row in any status |
| AnalyzeHistory.RecoverAny | backend/app/task_repository.py:152-245 | recovery of any tables, with several interrupted tasks: which final status each gets, and what stays |
| LibraryScan.ItemTable.ReconcileCandidate | backend/app/scan_reconciler.py:228-338 | all branches for one file: outside the root or gone, changed, touched, moved, new |
| LibraryScan.ItemTable.FindMoved | backend/app/scan_reconciler.py:119-172 | picks the row of the specification among those that may be the moved file |
| LibraryScan.ItemTable.ReconcileMissing | backend/app/scan_reconciler.py:341-360 | the missing pass with its looks for a cancel request, each of which drops the flag that is not written yet when the session expires there |
| LibraryScan.ItemTable.ScanLibraryRoot | backend/app/scanner.py:90-274 | table and report of a whole scan, with cancellation, failing enumeration, rollback and dropped flags |
| ScanGuarantees.BestMovedIsBest | backend/app/scan_reconciler.py:146-172 | the row taken is the most preferred candidate by root, missing flag and age, the first among equals, and there is none only if no row qualifies |
| ScanGuarantees.ImportedExactly | backend/app/scan_reconciler.py:292-338 | a file is imported if and only if no row has its path and no row has its fingerprint, a compatible size and a file that is gone |
| ScanGuarantees.ClaimedOnce | backend/app/scan_reconciler.py:139-158 | no row is claimed by two files in one scan |
| ScanGuarantees.ReconcileStep | backend/app/scan_reconciler.py:228-338 | one file changes one row at most, which then describes the file as it is on disk and keeps its users' data |
| ScanGuarantees.FoundExactly | backend/app/scan_reconciler.py:236-251 | the found paths are those of files under the root that are candidates or that a candidate links to |
| ScanGuarantees.ProgressCounts | backend/app/scan_reconciler.py:228-338 | the update counter is the number of rows that the candidates changed |
| ScanGuarantees.PassStops | backend/app/scan_reconciler.py:341-360 | where a cancel request stops the missing pass |
| ScanGuarantees.PassFlags | backend/app/scan_reconciler.py:341-360 | the pass flags the unseen rows of the root that it reaches, except each that stands last before a look of an expiring session, and no others |
| ScanOutcome.DoneAgreesWithDisk | backend/app/scanner.py:53-59 | after a finished scan every found path has one row, current and not missing, and no found row is flagged; every other row of the root is missing if and only if no flag was dropped, and otherwise all but those are |
| ScanOutcome.NothingDropped | backend/app/scanner.py:53-59 | no flag is dropped by a scan without a task, by a session that writes through, or in a root of at most 25 rows |
| ScanOutcome.FlagIsDropped | backend/app/scanner.py:212-220 | scans that end as done and leave a row as if its file were there |
| ScanOutcome.InterruptedSetsNoFlag | backend/app/scanner.py:160-225 | a canceled scan, or one whose enumeration fails, sets no missing flag |
| ScanOutcome.RowsSurvive | backend/app/scan_reconciler.py:119-225 | whatever happens, row ids and users' data stay, the table grows by exactly the imported files, a row changes path only for a file of its fingerprint when its own is gone, and other roots' rows change only for a found file |
| ScanOutcome.FoundRowsExactly | backend/app/scan_reconciler.py:228-338 | whatever becomes of the scan, the row of a found file is exactly known: size and time as on disk, the fingerprint taken anew if the file moved, changed or had none and kept otherwise; new rows are as on disk, and all others as before or flagged |
| ScanOutcome.UpdatesCounted | backend/app/scanner.py:90-247 | the reported number of updated rows is the number of rows that changed and whose file was found |
| ScanOutcome.EndsExactly | backend/app/scanner.py:160-274 | how a scan ends, and with which table, by where a cancel request is first seen and whether the listing breaks |
| ScanOutcome.SecondScanIdle | backend/app/scanner.py:90-274 | scanning the unchanged file system again, in any order, imports and updates nothing and changes no row; it reports 0/0/0 if and only if no flag was dropped, and else the dropped ones, in vain |
| ScanOutcome.DoneCountsMissing | backend/app/scanner.py:212-247 | the reported number of missing files is the number of rows that became missing and of flags that were dropped |
| ScanOutcome.CanceledCount | backend/app/scanner.py:199-225 | a canceled scan reports as missing the unseen rows that its missing pass reached, and none when it was canceled before |
| ScanOutcome.CanceledScanMiscounts | backend/app/scanner.py:199-225 | canceled scans that change no row and still report missing files |
| LikeSearch.EscapeIsEncode | backend/app/search.py:188-203 | the three replacements in their order amount to escaping each special character once |
| LikeSearch.LikeFindsLiterally | backend/app/search.py:225-246 | for every query and text: without a NUL character in the query, the text is found if and only if the query occurs in what the database reads of it; with one, if and only if that ends with what it reads of the query |
| LikeSearch.NulQueryFindsAll | backend/app/search.py:225-246 | queries that are found in texts in which they do not occur |
| LikeSearch.LikeEncoded | backend/app/search.py:188-203 | an escaped text matches itself and nothing else, letter case aside |
| LikeSearch.SameTextExactly | backend/app/search.py:225-246 | texts match when their characters are the same but for the case of the letters A to Z |
| PhraseQuery.TokensAreWords | backend/app/search.py:173-183 | stripping, splitting and filtering give the words of the input |
| PhraseQuery.SplitExactly | backend/app/search.py:181 | a list of words spells the text if and only if it is the split |
| Whitespace.SpacesExactly | backend/app/search.py:181 | the characters that separate words, listed |
| PhraseQuery.ReadDoubled | backend/app/search.py:169-170 | reading a quoted phrase gives the text back and stops at its closing quote |
| PhraseQuery.QueryRoundTrip | backend/app/search.py:169-185 | for every input: parsing what the database reads of the built query gives back exactly the words, or an error if and only if there is a NUL character; there is no query if and only if the input is blank |
| PhraseQuery.NulBreaksQuery | backend/app/search.py:169-185 | inputs whose query is an error |
| SearchMerge.SearchAudioIds | backend/app/search.py:249-296 | the ids of both searches, each once, in order, cut to the window; a failing search counts as empty |
| SearchMerge.MergedExactly | backend/app/search.py:249-296 | nothing for a blank query; otherwise the ids found, each once, in the order in which they are found first, full-text ones before the others: all of them, or as many as the limit allows, at least one |
| DatabaseRestore.AppData.InitializeDatabaseWithPendingRestore | backend/app/services/backup_service.py:643-720 | files and outcome of a start for every set of failing calls; what the database held is live or in the safety snapshot, and a start that returns leaves the current schema |
| DatabaseRestore.AppData.SwitchToSnapshot | backend/app/services/backup_service.py:659-684 | the checks in order, the refreshed safety snapshot, and the replacement |
| DatabaseRestore.AppData.ReplaceDatabaseFromSnapshot | backend/app/services/backup_service.py:614-621 | the database is the snapshot, or nothing changed |
| DatabaseRestore.AppData.CreateDbAndTables | backend/app/db.py:98-116 | another schema is refused, users' data is left alone also when it fails, and a failure may leave an empty database with any schema marker or none |
| DatabaseRestore.Launch.Initialize | backend/app/services/backup_service.py:643-720 | for every set of failing calls: what the database held is still live or in the safety snapshot, and a start that returns leaves the current schema, no request and a truthful record |
| RestoreGuarantees.SucceedsExactly | backend/app/services/backup_service.py:658-684 | success is recorded if and only if every check passes, the live database can be copied and no call on the way fails; the safety snapshot then holds what the database held |
| RestoreGuarantees.StartWithoutRequest | backend/app/services/backup_service.py:654-656 | a start without a request returns if and only if its initialization does not fail and the schema is the current one or none, and changes nothing but the schema of an empty database |
| RestoreGuarantees.RolledBackExactly | backend/app/services/backup_service.py:685-717 | rolled back is recorded if and only if the replaced database cannot be initialized and the old one is put back |
| RestoreGuarantees.FailsExactly | backend/app/services/backup_service.py:658-692 | failed is recorded if and only if the database is not replaced and can be initialized as it is |
| RestoreGuarantees.RecordsExactly | backend/app/services/backup_service.py:658-720 | what every start with a request records, also one that raises |
| RestoreGuarantees.DamagedRequestFails | backend/app/services/backup_service.py:643-657 | a damaged request is removed and recorded as failed, and the database started as it is |
| RestoreGuarantees.SucceededMeansRestored | backend/app/services/backup_service.py:677-684 | a recorded success put the checked snapshot in place if and only if it was not the safety snapshot as well, or held the same |
| RestoreGuarantees.SameSnapshotRestoresNothing | backend/app/services/backup_service.py:677-684 | a recorded success that restored nothing |
| RestoreGuarantees.BothFailedKeepsSafety | backend/app/services/backup_service.py:693-709 | when restore and rollback both fail the start raises and the safety snapshot holds the old content |
| RestoreGuarantees.RequestStaysExactly | backend/app/services/backup_service.py:643-720 | exactly when the request outlives the start |
| RestoreGuarantees.OtherSnapshotsStay | backend/app/services/backup_service.py:643-720 | no snapshot but the safety snapshot changes |
| RestoreGuarantees.StartsStayOnCourse | backend/app/services/backup_service.py:643-720 | over any number of starts with any failures, the database holds its old data or the requested snapshot's, and that snapshot stays intact |
| RestoreGuarantees.RecordedSuccessHolds | backend/app/services/backup_service.py:718-719 | over any number of starts, once the request is gone it has been answered, and a recorded success means that the database holds the requested snapshot |
| RestoreGuarantees.SettledForGood | backend/app/services/backup_service.py:655-657 | once a start has returned, later starts keep data, snapshots and record |
| RestoreGuarantees.SecondStartMayLoseContent | backend/app/services/backup_service.py:670-720 | two starts, the first unable to write its record, after which the old content is gone |
| RestoreGuarantees.RetainedExactly | backend/app/services/backup_service.py:643-720 | over any number of starts with any failures, what the database held stays live or in the safety snapshot if and only if no start finds the request pending on a switched database, passes every check and refreshes the safety snapshot |
| RestoreGuarantees.TwoStartsLoseExactly | backend/app/services/backup_service.py:643-720 | the exact failures and checks under which two starts lose it |

## Left out

- FFmpeg, the ONNX model, HTTP, temporary files and the upload pool: the models start from frame probabilities and from one result per chunk.
- Text formatting, glossary and artificial full stops (`formatting_enabled`): rewriting by regular expressions that changes text; the merge is modelled with formatting off.
- Language and model name of the merged transcript: passed through.
- Unicode tables: a character carries its folding and classes; case folding and normalisation themselves are not computed.
- Floating-point rounding of times and of stored segment times: seconds are real numbers.
- The other checks of `validate_transcript`: full text against segments, language, metrics.
- TranscriptValidation.ValidateTimeline: does not model the evidence dictionary stored with a finding, which repeats numbers and times of the segment.
- Transcribe tasks, whose recovery counts any older transcript, and organization runs.
- AnalyzeTasks.Database.SaveAnalysis: does not model tags, language and the search index written in the same commit.
- AnalyzeGuarantees.ReachableStates: each service call and each finalizer of the worker is one atomic step, while the handler's checks and commits are separate ones; a worker transaction between the read and the write of a cancel call is not modelled, nor a failing commit of a finalizer or a recovery that raises.
- Deleting an audio item while its task exists, and the heartbeat that only touches a timestamp.
- LibraryScan.ItemTable.ScanLibraryRoot: one timestamp stands for all writes of a scan; covers, metadata, logs and progress counters are not modelled. That reading an expired row first writes the pending flag is how SQLAlchemy's autoflush works; SQLAlchemy is not part of this model.
- A file system that changes during a scan.
- PhraseQuery.QueryRoundTrip: the reader knows strings, barewords and AND; other operators, column filters and the tokenizer are not part of this model.
- DatabaseRestore.AppData.ReplaceDatabaseFromSnapshot: removing the WAL files and replacing the database is one step, and power loss is not modelled.
- A copy of a database has the same content and hash as its source; temporary files, permissions and manifests are not modelled.
- Playlists, statistics, archive, MCP, routes, schemas, settings and the frontend: plumbing or easy members.
