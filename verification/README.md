# Verified models of the desktop shell and the release and gate scripts

This project models the parts of the village revitalisation management system whose logic is
hardest to get right by reading: the Electron shell's worker pool, backend supervision, file
encryption and chunked reading, the run lock of the segmented test runner, the compiler from
`CHANGELOG.md` to the in-app update log, the readers of binary release artefacts, and the gate
scripts that count, search and read diffs. `dafny verify dfyconfig.toml` checks everything.

## How the models are built

| files | what they model |
|---|---|
| `PoolSpec`, `WorkerPool` | the bounded first-in-first-out pool of worker threads |
| `SupervisorSpec`, `BackendSupervisor` | the restart quota with its stability timer, and `stopBackend` |
| `RunLock` | the cross-process lock file, for any number of interleaved processes |
| `ChangelogText`, `Changelog`, `ChangelogPatterns`, `ChangelogMarkup`, `ChangelogFacts`, `ChangelogEntries`, `ChangelogItems`, `ChangelogRoundTrip` | the changelog parser |
| `PythonLiteral`, `UpdateLogPrinter`, `UpdateLogLayout`, `UpdateLogRoundTrip`, `GeneratedModule` | the printer of Python literals, its undoing, and the way from the changelog to the generated value |
| `EncryptedFile` | the encrypted container and the two file jobs on a disk that may fail |
| `ChunkCursor` | reading a file chunk by chunk |
| `InstallerPayload`, `ArArchive` | the PE/7z installer check and the `ar` reader |
| `Ratchet`, `RatchetBaseline`, `RouteAuth`, `AssertionSearch`, `DiffLines` | the gate scripts |
| `Text`, `Utf8`, `Decimal`, `Wrappers` | white space, digits, stripping and splitting into lines, UTF-8, decimal numerals, the option type |

Code that updates state in place is a class or a method with loops, proved against a function
over values (`Step`, `HandleStop`, `Lines`, `Search`, ...); the results below are about these
functions, for all inputs and all runs. Event orders, failures of file operations, short reads,
answers of the liveness probe, the cipher and the checksum are unconstrained inputs.

## What the proofs found

- Worker pool (electron/worker-pool.js:63, 96): the clamp at zero never acts. A worker that
  exits with code 0 without a message keeps its slot until the job's timer fires, and a reported
  failure with an empty error text resolves the promise (line 105).
- Supervisor (electron/main.js:452): the exit handler installed at spawn drops the reference
  whichever process it names. It runs before the guard of line 527, which therefore never
  decides anything, and a late exit of an old process orphans a newer backend and schedules
  another one (`LateExitOrphansNewBackend`).
- Run lock (scripts/run_backend_tests_segmented.py:219-274): mutual exclusion needs four
  assumptions, and each one is necessary: create and pid write are not separated, reading the
  holder's pid and probing it are not separated, judging the lock stale and unlinking it are not
  separated, and the probe never reports a live process as dead, although line 212 takes every
  `OSError` for death. The docstring of `release_run_lock` says that only the own file is
  deleted; the code deletes whatever file is there. A process that gives up may have removed a
  stale lock before (`GivingUpAfterUnlink`), but has never created or written one.
- Changelog (scripts/sync_update_log.py:111-138): an indented line after a dropped bullet (the
  thirteenth, or one starting with `|`) or after a line at the margin that is no bullet (a heading
  of any level, a numbered item, a paragraph) is glued to the last bullet that was kept.
- Generated module (scripts/sync_update_log.py:33, 184-185): the version pattern accepts every
  Unicode decimal digit, but versions and dates are printed with ASCII escapes, so a digit beyond
  U+FFFF comes back as two surrogates. A heading with the mathematical bold digit one is such an
  input; without such digits the generated module is exactly the parsed changelog.
- Chunk cursor (electron/file-chunk.js:30-31): a request for a fraction of a byte is rounded to
  zero bytes and reports the end of the file.
- Encrypted file (electron/worker-tasks.js:71-74): the old output is removed before the rename,
  so a failed rename loses it, and the handler then removes the complete new file too.
- Installer check (scripts/verify_installer_payload.py:100-103): bytes appended to a good
  installer go unnoticed.
- Diff reader (scripts/check_pragma_reasons.py:104-113): an added line whose text starts with `++`
  is taken for a header, is not counted and shifts the lines after it. The lines of a file whose
  name git quotes, such as one with Chinese characters, are booked under the file before it.
- Ratchets (backend/scripts/_gate_common.py:35-47): reading a baseline strips its lines and drops
  comments, so entries that start with `#` or white space, or end with white space and have no
  colon, make the gate fail right after `--baseline`. The soft-delete gate counts duplicates,
  `run_gate` does not.
- Route authentication (scripts/check_route_auth.py:132-133): where a call occurs with different
  sub-dependencies, those of its later occurrences are never searched.
- Assertion search (backend/scripts/check_no_assert_tests.py:91-106): a helper cut off at the depth
  bound stays marked as seen, so a direct call of it later in the same test is skipped. The search
  is right wherever the assertions are exactly when every helper called is also walked.

## Model

| member | source | states |
|---|---|---|
| `PoolSpec.RunServesOldestFirst` | electron/worker-pool.js:44-120 | in every reachable state and for every order of events, the jobs in flight are exactly the `maxWorkers` oldest unsettled jobs, the queue holds the others in order of submission, the counter counts the jobs in flight, each promise is settled at most once, and jobs start in increasing id order |
| `PoolSpec.InFlightExactlyTheOldest` | electron/worker-pool.js:77-87 | an unsettled job has a worker if and only if fewer than `maxWorkers` unsettled jobs are older than it, and otherwise it is in the queue |
| `PoolSpec.RunConserves` | electron/worker-pool.js:46-96 | over any run, ids count the submissions, submitted = queued + active + settled, `0 <= active <= maxWorkers`, a waiting job means that all slots are taken, and the clamp at zero never acts |
| `PoolSpec.SettledByOwnEvent` | electron/worker-pool.js:57-115 | a promise is settled only by an event of its own job and with that event's outcome: its data, its error text, its non-zero exit code, or a timeout |
| `PoolSpec.RunExtendsSettled` | electron/worker-pool.js:92-99 | a settlement is final: later events only add settlements |
| `PoolSpec.MessageSettles` | electron/worker-pool.js:104-107 | after any run, a message of a working job rejects its promise with a non-empty error text and otherwise resolves it with the data |
| `PoolSpec.ErrorSettles` | electron/worker-pool.js:109 | after any run, an error of a working job rejects its promise with that reason |
| `PoolSpec.ExitSettles` | electron/worker-pool.js:111-115 | after any run, the exit of a working job settles its promise with the code if that is not 0, and settles nothing if it is |
| `PoolSpec.TimerSettles` | electron/worker-pool.js:57-70 | after any run, a timer settles the open promise of a submitted job with a timeout, working or waiting, and the job is settled from then on |
| `PoolSpec.StepStarts` | electron/worker-pool.js:77-87 | starts are final, an event starts at most one job, and only one whose promise is open |
| `PoolSpec.StepKeepsInv` | electron/worker-pool.js:44-120 | every single event keeps the oldest-first, settled-once and start-order invariants |
| `WorkerPool.WorkerPool.Exec` | electron/worker-pool.js:44-75 | submitting refines the `Submit` step: the new job gets the next id, is queued and started if a slot is free |
| `WorkerPool.WorkerPool.OnTimeout` | electron/worker-pool.js:57-70 | the timeout callback refines the `Timer` step and leaves the job done; a started job gives its slot back, a waiting one leaves the queue |
| `WorkerPool.WorkerPool.ProcessNext` | electron/worker-pool.js:77-87 | starts the job at the head of the queue exactly when there is one and a slot is free |
| `WorkerPool.WorkerPool.Finish` | electron/worker-pool.js:92-102 | the single end of a started job refines the `Finish` step; a second call changes nothing |
| `WorkerPool.WorkerPool.OnMessage` | electron/worker-pool.js:104-107 | a message rejects with its non-empty error text and otherwise resolves with its data |
| `WorkerPool.WorkerPool.OnError` | electron/worker-pool.js:109 | a worker error rejects the job |
| `WorkerPool.WorkerPool.OnExit` | electron/worker-pool.js:111-115 | only a non-zero exit code ends the job |
| `WorkerPool.WorkerPool.Cleanup` | electron/worker-pool.js:118-120 | takes exactly the job with this id out of the queue |
| `WorkerPool.WorkerPool.MarkDone` | electron/worker-pool.js:58-59 | sets the flag, disarms the timer and settles the promise once |
| `WorkerPool.WorkerPool.Enqueue` | electron/worker-pool.js:46-72 | the new job is undone, without worker and last in the queue |
| `WorkerPool.WorkerPool.constructor` | electron/worker-pool.js:26-32 | a new pool is empty and valid |
| `SupervisorSpec.RestartsBetweenResets` | electron/main.js:253-265 | between two resets of the counter at most three automatic restarts are scheduled |
| `SupervisorSpec.ResetMeansStable` | electron/main.js:253-269 | a reset comes at least 60 s after every backend exit before it |
| `SupervisorSpec.CrashDecision` | electron/main.js:455-492 | after any run, a backend exit is logged as ignored if and only if the application is quitting or the code is 0, as restarted if and only if otherwise fewer than three restarts were granted since the last reset, and as sent to the recovery page if and only if three were |
| `SupervisorSpec.QuotaIsGivenBack` | electron/main.js:253-265 | after any run, once a backend is ready and 60 s pass undisturbed, the timer clears the counter and logs exactly one reset; before that time it does nothing |
| `SupervisorSpec.NoResetWithoutReady` | electron/main.js:253-269 | after an exit, a reset or `before-quit` nothing is reset until a backend is ready again |
| `SupervisorSpec.ReferenceIsLastStarted` | electron/main.js:449-464 | the reference names the process started last, until any process exits |
| `SupervisorSpec.CrashLoopConverges` | electron/main.js:449-493 | a stretch whose successive exits are less than 60 s apart gets at most three restarts, and after the recovery page none |
| `SupervisorSpec.StopBackendResolvesOnce` | electron/main.js:498-551 | every call of `stopBackend` resolves at most once, and has resolved exactly when there was nothing to stop, the process has exited or the fallback timer has fired |
| `SupervisorSpec.ResolvesOnce` | electron/main.js:501-551 | a call with a process to stop resolves at most once, exactly when its fallback timer is no longer armed; while unresolved that timer is armed and no exit has been seen |
| `SupervisorSpec.ResolvesInTime` | electron/main.js:520-551 | under every interleaving of exit, response, failure and timers it resolves no later than the 5 s fallback |
| `SupervisorSpec.ResolvesAtFirstEnd` | electron/main.js:506-549 | the promise is resolved at the time of the first event that ends the wait, the exit of the process or the fallback timer after 5 s, and never before |
| `SupervisorSpec.EndDropsReference` | electron/main.js:521-549 | the fallback that ends the wait drops the reference to the own process and spares any other; the exit that ends it drops every reference and is decided as any exit |
| `SupervisorSpec.RequestFailureKills` | electron/main.js:507-542 | as long as no exit has been seen, a failed or timed-out request issues exactly one kill at once |
| `SupervisorSpec.GraceKills` | electron/main.js:537-540 | the first grace timer after the first response issues exactly one kill if 5 s have passed since that response and no exit has been seen, and none earlier |
| `SupervisorSpec.NothingElseKills` | electron/main.js:507-549 | no other event issues a kill: no grace timer without a response, and none after one that has killed |
| `SupervisorSpec.NoKillAfterExit` | electron/main.js:507-529 | once the exit event has been seen, no later event issues a kill |
| `SupervisorSpec.NewerReferenceSurvives` | electron/main.js:527-547 | a reference to a newer process survives the handlers of an old call if and only if the old process does not exit |
| `SupervisorSpec.LateExitOrphansNewBackend` | electron/main.js:449-460 | a run in which the late exit of an old process drops the reference to a new backend and schedules another restart |
| `BackendSupervisor.Supervisor.ScheduleBackendRestartCountReset` | electron/main.js:253-265 | arms the stability timer anew, 60 s from now |
| `BackendSupervisor.Supervisor.CancelBackendRestartCountReset` | electron/main.js:267-269 | leaves no stability timer pending |
| `BackendSupervisor.Supervisor.OnStableTimer` | electron/main.js:255-262 | a due stability timer clears the counter |
| `BackendSupervisor.Supervisor.OnBackendExit` | electron/main.js:449-493 | refines the exit step: drops the reference, cancels the timer, and restarts exactly when quota is left, the code is not 0 and the application is not quitting |
| `BackendSupervisor.Supervisor.OnBeforeQuit` | electron/main.js:1400-1403 | marks the application as quitting and cancels the timer |
| `BackendSupervisor.StopBackend` | electron/main.js:498-551 | resolves at once exactly when no process is referenced, otherwise begins a call for that process |
| `BackendSupervisor.StopCall.constructor` | electron/main.js:501-551 | a call starts unresolved with its fallback timer armed |
| `BackendSupervisor.StopCall.Finish` | electron/main.js:506 | resolves the promise on the first call only |
| `BackendSupervisor.StopCall.ForceKill` | electron/main.js:507-518 | kills unless the exit has been seen |
| `BackendSupervisor.StopCall.OnProcExit` | electron/main.js:449-529 | both exit handlers in their order refine the exit step of the call |
| `BackendSupervisor.StopCall.OnExitOnce` | electron/main.js:521-529 | the call's own exit handler spares a reference to any other process and resolves |
| `BackendSupervisor.StopCall.OnResponse` | electron/main.js:537-540 | an accepted shutdown starts the 5 s grace timer |
| `BackendSupervisor.StopCall.OnRequestFailure` | electron/main.js:541-542 | an HTTP error or timeout kills at once |
| `BackendSupervisor.StopCall.OnGraceTimer` | electron/main.js:539 | the end of the grace period kills a process that is still alive |
| `BackendSupervisor.StopCall.OnFallbackTimer` | electron/main.js:545-549 | the fallback resolves and drops the reference only to the own process |
| `RunLock.IntactIffUnlinksHarmless` | scripts/run_backend_tests_segmented.py:219-274 | for every interleaving of any number of processes, the lock file names its one owner at every moment if and only if no stale-lock unlink happens while a process creates or holds the lock |
| `RunLock.StepIntactIff` | scripts/run_backend_tests_segmented.py:234-263 | of all steps only an unlink that hits an owner breaks the lock |
| `RunLock.AtomicRunsExcludeEachOther` | scripts/run_backend_tests_segmented.py:219-265 | under the four assumptions at most one process holds the lock, and the file names it |
| `RunLock.LeftoverLockIsTakenOver` | scripts/run_backend_tests_segmented.py:242-262 | after any run at all, a lock left behind by crashed holders or creators is taken over by a process running alone within six steps |
| `RunLock.GivesUpIff` | scripts/run_backend_tests_segmented.py:263-265 | a step makes a process give up if and only if the holder was found alive and the deadline has passed; before the deadline it starts over |
| `RunLock.LiveHolderRefuses` | scripts/run_backend_tests_segmented.py:235-265 | a process that finds a live holder gives up after four steps when its deadline has passed, else is back at the start, and leaves the lock file as it is |
| `RunLock.ReleaseFrees` | scripts/run_backend_tests_segmented.py:268-274 | releasing takes two steps, after which the file is gone, or one if it is gone already |
| `RunLock.ReleasedLockIsTaken` | scripts/run_backend_tests_segmented.py:235-274 | wherever a process is waiting when the live holder releases, it holds the lock after at most five of its own steps if it then runs alone before its deadline |
| `RunLock.GivingUpLeavesFile` | scripts/run_backend_tests_segmented.py:235-265 | a process that gives up has changed the lock file at no step, except by unlinking one that it had found stale |
| `RunLock.GivingUpAfterUnlink` | scripts/run_backend_tests_segmented.py:257-265 | a careful run in which a process unlinks a stale lock, is overtaken and gives up |
| `RunLock.SlowCreatorLosesExclusion` | scripts/run_backend_tests_segmented.py:236-256 | two holders are reachable when create and pid write can be separated |
| `RunLock.SlowTakeoverLosesExclusion` | scripts/run_backend_tests_segmented.py:248-262 | two holders are reachable when judging stale and unlinking can be separated |
| `RunLock.SlowProbeLosesExclusion` | scripts/run_backend_tests_segmented.py:242-247 | two holders are reachable when reading the holder's pid and probing it can be separated, even with a truthful probe |
| `RunLock.WrongProbeLosesExclusion` | scripts/run_backend_tests_segmented.py:182-216 | two holders are reachable when the probe can report a live holder as dead |
| `PythonLiteral.LexEscaped` | scripts/sync_update_log.py:162-163 | a JSON-escaped character is read by Python as itself, except one beyond U+FFFF under ASCII escaping |
| `PythonLiteral.LexDumps` | scripts/sync_update_log.py:162-176 | a JSON string literal is one Python string token with the encoded text, whatever follows it |
| `UpdateLogPrinter.Literal` | scripts/sync_update_log.py:156-177 | prints exactly the reference layout of a literal: one piece if it fits, else a parenthesised row of pieces |
| `UpdateLogPrinter.SplitGreedily` | scripts/sync_update_log.py:165-174 | the character loop computes the split into longest fitting pieces |
| `UpdateLogPrinter.ChunksJoin` | scripts/sync_update_log.py:165-174 | the pieces concatenate to the text |
| `UpdateLogPrinter.ChunksFit` | scripts/sync_update_log.py:165-174 | all pieces are within the budget if and only if every single character is |
| `UpdateLogPrinter.SuffixNeedsNoMore` | scripts/sync_update_log.py:165-174 | dropping a prefix never makes the split longer |
| `UpdateLogPrinter.NoSplitIsShorter` | scripts/sync_update_log.py:165-174 | no split into pieces within the budget has fewer pieces |
| `UpdateLogLayout.RenderedLinesFit` | scripts/sync_update_log.py:156-193 | however long descriptions and features are, no line of the printed list is longer than the 120 characters that flake8 allows |
| `UpdateLogPrinter.Render` | scripts/sync_update_log.py:180-193 | prints the lines of all entries in order |
| `UpdateLogPrinter.RenderEntry` | scripts/sync_update_log.py:183-191 | prints the lines of one entry in order |
| `UpdateLogPrinter.RenderFeatures` | scripts/sync_update_log.py:188-189 | prints one line per feature in order |
| `UpdateLogRoundTrip.LiteralEvaluates` | scripts/sync_update_log.py:156-177 | evaluating a printed literal gives the text back, for every text, indentation and budget, if and only if the text is not empty or the budget is at least two |
| `UpdateLogRoundTrip.RenderEvaluates` | scripts/sync_update_log.py:180-193 | evaluating the printed list gives exactly the data, if and only if versions and dates have no character beyond U+FFFF |
| `UpdateLogRoundTrip.EntryValuesInjective` | scripts/sync_update_log.py:180-193 | different data have different values, so the printed module determines the data |
| `ChangelogText.HeadingRoundTrip` | scripts/sync_update_log.py:33-102 | a printed version heading is recognised with its version, date and title |
| `ChangelogPatterns.HeadingIff` | scripts/sync_update_log.py:33 | a line is a version heading if and only if it consists of two number signs, three numbers in brackets, a dash, a date and possibly a dash and a title, with any white space between; version, date and title are those parts |
| `ChangelogPatterns.SubItemIff` | scripts/sync_update_log.py:130 | a line is a sub-item if and only if it consists of white space, a list marker, white space and any text |
| `ChangelogText.CleanFacts` | scripts/sync_update_log.py:53-69 | cleaned text has only single spaces and none at its ends, no backtick, and no character that the original lacks but for spaces and an ellipsis |
| `ChangelogText.CleanKeepsPlainText` | scripts/sync_update_log.py:53-59 | text without decoration, of fitting length, is left as it is |
| `ChangelogText.Shorten` | scripts/sync_update_log.py:61-69 | an over-long text keeps a start of itself, within the limit plus one, that ends at a sentence mark of its second half or is followed by an ellipsis |
| `ChangelogMarkup.CleanUndecorates` | scripts/sync_update_log.py:53-60 | cleaning text decorated with links, bold, underlined and code markers gives the text behind the decoration |
| `ChangelogMarkup.ShortenCutsAtMark` | scripts/sync_update_log.py:63-66 | an over-long text ends behind the last mark in the second half of its first 220 characters, a full stop before a semicolon before an exclamation mark before a question mark |
| `ChangelogMarkup.ShortenCutsWithEllipsis` | scripts/sync_update_log.py:67-69 | without such a mark it is cut before the last comma there or after 220 characters, and an ellipsis follows |
| `Changelog.ParseChangelog` | scripts/sync_update_log.py:72-153 | on every text the line loop with its flags, the clean-up and the sort compute the reference result of the lines that `str.splitlines` gives |
| `Changelog.LinesSeeVisible` | scripts/sync_update_log.py:85-92 | the parser depends on the lines outside fences only |
| `Changelog.FencedBlockIsInvisible` | scripts/sync_update_log.py:88-92 | a complete fenced block at any line boundary outside a fence changes nothing |
| `ChangelogFacts.SortIsSorted` | scripts/sync_update_log.py:149-152 | the sort permutes and its result ascends by numeric version |
| `ChangelogFacts.SortIsStable` | scripts/sync_update_log.py:149-152 | entries with equal numeric versions keep their order |
| `ChangelogFacts.ParsedIsWellFormed` | scripts/sync_update_log.py:72-153 | every result has pairwise distinct ascending versions, and every entry has one to twelve non-empty features and a non-empty description of bounded length |
| `ChangelogFacts.ParsedCoversHeadings` | scripts/sync_update_log.py:94-105 | a version is in the result if and only if some visible heading has it |
| `ChangelogFacts.ParsedKeepsFirst` | scripts/sync_update_log.py:99-102 | every entry has the version, the date and, unless it is empty, the title of the first visible heading of its version |
| `ChangelogFacts.RepeatedReleaseIsInvisible` | scripts/sync_update_log.py:99-117 | a release whose version has come before can be put or left out, heading and body, without changing the result |
| `ChangelogEntries.ParsedShowsCleanedItems` | scripts/sync_update_log.py:140-147 | for every changelog, the features of each entry are exactly the non-empty cleaned items of its section, in order, or else the one description or the default text; the description is the cleaned title, or the first feature |
| `ChangelogEntries.VersionsCompareNumerically` | scripts/sync_update_log.py:149-152 | versions compare as the triples of their numbers |
| `ChangelogItems.FeaturesAsIntendedIff` | scripts/sync_update_log.py:102-138 | for every new release, whatever lines follow its heading: each feature is one bullet with its own continuation lines if and only if no continuation line follows a dropped bullet or a line at the margin that is no bullet: a heading of any level, a numbered item or a paragraph |
| `ChangelogItems.SubItemsAreLeftOut` | scripts/sync_update_log.py:128-132 | from a sub-item up to the next bullet at the margin nothing is added to the features |
| `ChangelogItems.TableRowGluedToItem` | scripts/sync_update_log.py:122-138 | an input on which the continuation of a dropped bullet ends up in another item |
| `ChangelogItems.LineBelowSubHeadingGluedToItem` | scripts/sync_update_log.py:111-138 | an input without a dropped bullet on which a line below a sub-heading ends up in the item above it |
| `ChangelogItems.LineBelowMarginTextGluedToItem` | scripts/sync_update_log.py:116-138 | two inputs on which a line below a numbered item or a heading of the fourth level ends up in the bullet above it |
| `ChangelogRoundTrip.ChangelogRoundTrip` | scripts/sync_update_log.py:72-153 | printing releases as the text of a canonical changelog, sub-headings and left-out sub-sections included, and parsing that text gives the same releases, cleaned and sorted |
| `ChangelogRoundTrip.PlainChangelogRoundTrip` | scripts/sync_update_log.py:72-153 | releases with plain titles and items come back word for word from the text of the printed changelog, in ascending order; items of the five kinds of sub-sections for maintainers are left out |
| `GeneratedModule.GeneratedModuleIsTheChangelogIff` | scripts/sync_update_log.py:72-193 | the generated module evaluates to exactly the parsed releases if and only if no first heading of a version has a character beyond U+FFFF in its version or date |
| `GeneratedModule.WideDigitVersionIsSplit` | scripts/sync_update_log.py:33-184 | a changelog that is parsed but whose generated module does not give its version back |
| `EncryptedFile.DecodeUndoesEncode` | electron/worker-tasks.js:83-151 | with a correct cipher, decoding undoes encoding for every plaintext |
| `EncryptedFile.ContainerLayout` | electron/worker-tasks.js:87-103 | a container is the initialisation vector, the tag and the ciphertext under the key derived from the password and the given salt, or the built-in salt if it is empty |
| `EncryptedFile.EncryptFile` | electron/worker-tasks.js:83-115 | whatever fails, in every disk state the output is as before, complete or absent, and as before throughout when there is no input; no other file but the two temporary ones is touched, a missing old output means a failed rename; on a reliable disk the job succeeds exactly when there is an input and leaves no temporary file |
| `EncryptedFile.EncryptSteps` | electron/worker-tasks.js:93-105 | in every disk state a missing old output can be recovered from the temporary file, and every failure but that of the rename leaves the output as before |
| `EncryptedFile.DecryptFile` | electron/worker-tasks.js:118-155 | as for encryption; when the input is missing, too short or not authentic, the output is as before in every disk state and at the end, so it only ever gets the authenticated plaintext; on a reliable disk the outcome is decided by the input alone |
| `EncryptedFile.DecryptSteps` | electron/worker-tasks.js:121-147 | success implies authentication; unauthenticated bytes reach the temporary file only, while the output stays as before in every disk state |
| `EncryptedFile.ReplaceAtomically` | electron/worker-tasks.js:71-74 | afterwards the output is complete, or on failure absent or as before |
| `EncryptedFile.StreamTemp` | electron/worker-tasks.js:52-59 | streaming into a temporary file may stop anywhere but keeps every state safe |
| `EncryptedFile.CleanUp` | electron/worker-tasks.js:62-68 | the quiet removal of a temporary file keeps every state safe |
| `EncryptedFile.EncryptThenDecrypt` | electron/worker-tasks.js:83-155 | when both jobs succeed, the decrypted file equals the original |
| `ChunkCursor.NormalizeChunkOptions` | electron/file-chunk.js:25-34 | the offset is the whole part of a positive finite one and else 0; the length is the whole part of a positive finite one, cut at 4 MiB, and else 256 KiB |
| `ChunkCursor.ReadFileChunk` | electron/file-chunk.js:44-74 | an offset past the end is rejected; otherwise the chunk holds the bytes at the offset, as many as were asked for, are there and were delivered, with the file size, the next offset and whether the end is reached |
| `ChunkCursor.FollowReadsWholeFileIff` | electron/file-chunk.js:44-74 | for every file, request and pattern of short reads, following the cursor collects the whole file if and only if a whole byte per chunk was asked for or the file is empty |
| `ChunkCursor.ReadAll` | electron/file-chunk.js:44-74 | the calling loop terminates and returns the file |
| `InstallerPayload.PeOverlaySize` | scripts/verify_installer_payload.py:56-83 | the overlay size is what is left after the furthest section end, or nothing if the image is malformed |
| `InstallerPayload.FurthestEnd` | scripts/verify_installer_payload.py:71-78 | the loop finds the furthest section end, or fails if a section header is cut off |
| `InstallerPayload.OverlayFollowsSections` | scripts/verify_installer_payload.py:71-81 | no section reaches into the overlay, and some section ends exactly where it starts |
| `InstallerPayload.Inspect` | scripts/verify_installer_payload.py:106-140 | reports a missing file, or the reference list of problems, or raises on an empty file |
| `InstallerPayload.AcceptedIff` | scripts/verify_installer_payload.py:56-140 | a file is accepted if and only if it is large enough, a PE image whose sections lie within it, and from its first archive signature on holds enough bytes and a start header with version 0, the checksum of its bytes 12 to 31 and an end within the file |
| `InstallerPayload.ProblemsIff` | scripts/verify_installer_payload.py:106-140 | each problem is listed if and only if its condition holds; only an empty file raises |
| `InstallerPayload.PrefixAcceptedIff` | scripts/verify_installer_payload.py:86-140 | a prefix of an accepted installer is accepted if and only if it reaches the end of the archive, the sections and both minimums |
| `InstallerPayload.AppendedBytesAccepted` | scripts/verify_installer_payload.py:100-103 | bytes appended to an accepted installer change nothing |
| `ArArchive.IterArMembers` | scripts/extract_deb.py:34-52 | the generator yields the reference listing and ends or raises as it does |
| `ArArchive.ReadMember` | scripts/extract_deb.py:39-52 | one round: a member, the end, a corrupted header or a truncated member |
| `ArArchive.ReadingAccountsForBytes` | scripts/extract_deb.py:38-52 | on arbitrary bytes each member follows the padded one before it, and reading ends with less than a header left or with an error |
| `ArArchive.SizeFieldIff` | scripts/extract_deb.py:43-46 | a size field is read if and only if it holds an optional sign and digits, with single underscores between digits and white space around, and then as their decimal value |
| `ArArchive.ArchiveRoundTrip` | scripts/extract_deb.py:34-52 | writing members and reading them gives the same names, UTF-8 included, and payloads back |
| `Utf8.DecodeUndoesEncode` | scripts/extract_deb.py:42 | decoding with replacement gives an encoded text back, whatever bytes follow it |
| `DiffLines.ChangedLines` | scripts/check_pragma_reasons.py:99-115 | on every text the loop over its lines computes the reader's set of places |
| `DiffLines.HeaderReadBack` | scripts/check_pragma_reasons.py:107-112 | a printed hunk header is read back as its new start and count |
| `DiffLines.DiffRead` | scripts/check_pragma_reasons.py:99-115 | from the text of a diff without added texts that start with `++`, the reader books each file's added lines under that file's stripped name, or under the one before if the file is quoted |
| `DiffLines.ReadsExactlyAddedIff` | scripts/check_pragma_reasons.py:99-115 | for the text of every well-formed zero-context diff whose lines have no break inside (one carriage return at the end of a line is allowed) the reader returns exactly the added lines if and only if no added text starts with `++` and no file whose name git quotes, or has a space at either end, adds a line |
| `DiffLines.QuotedFileIsMissed` | scripts/check_pragma_reasons.py:104-114 | a diff whose second file is quoted: its line is booked under the first file |
| `DiffLines.BreakInsideCountsTwice` | scripts/check_pragma_reasons.py:103-114 | why lines with a break inside are set apart: one added line with such a break in front of a plus sign counts as two |
| `Ratchet.Compare` | backend/scripts/_gate_common.py:48-58 | the new entries carry exactly the excess of key counts over the baseline; nothing is new if and only if the multiset of keys is included in the baseline's, nothing is stale if and only if it is the other way |
| `Ratchet.RunGate` | backend/scripts/_gate_common.py:27-66 | writes the sorted distinct entries, or compares, leaves the file alone and exits 0 if and only if the multiset of keys is included |
| `Ratchet.RunSoftDeleteGate` | backend/scripts/check_soft_delete_usage.py:87-131 | the same for the gate that keeps duplicates and has no comments |
| `Ratchet.NormalizedIsSortedSet` | backend/scripts/_gate_common.py:30 | the violations counted are sorted, each once, with forward slashes |
| `Ratchet.NotAfterIff` | backend/scripts/_gate_common.py:30 | entries are sorted in code point order |
| `RatchetBaseline.BaselinePassesIff` | backend/scripts/_gate_common.py:35-47 | for all single-line violations: right after `--baseline` the gate passes on the same violations if and only if each starts neither with white space nor with `#` and has a colon or no white space at its end |
| `RatchetBaseline.SoftDeleteBaselinePassesIff` | backend/scripts/check_soft_delete_usage.py:96-105 | for all single-line violations: right after `--baseline` the soft-delete gate passes on them if and only if each starts without white space and has a colon or no white space at its end |
| `RatchetBaseline.SoftDeleteIsStricter` | backend/scripts/check_soft_delete_usage.py:94-113 | on a baseline without comments, what passes the soft-delete gate passes `run_gate`, and on duplicate-free input the verdicts agree |
| `RatchetBaseline.DuplicatesTellApart` | backend/scripts/check_soft_delete_usage.py:94-113 | for all single-line violations with duplicates, the baseline that `run_gate` writes never passes the soft-delete gate, while it passes `run_gate` under the condition of `BaselinePassesIff` |
| `RatchetBaseline.SameVerdictIff` | backend/scripts/check_soft_delete_usage.py:74-131 | for all single-line violations: the two gates agree on all baselines without comments if and only if the violations are duplicate-free or the path of one starts with white space or `#`, so that both gates always fail |
| `Ratchet.KeyOfFinding` | backend/scripts/_gate_common.py:20-24 | the key of a printed finding is its path and its stripped code |
| `Ratchet.SameKeyIff` | backend/scripts/_gate_common.py:20-24 | two findings share a key if and only if they share path and stripped code |
| `Ratchet.RenumberingKeepsVerdict` | backend/scripts/_gate_common.py:20-24 | moving findings to other lines, injectively within each file, changes neither the key counts nor the verdict |
| `Ratchet.AnyRenumberingKeepsSoftDeleteVerdict` | backend/scripts/check_soft_delete_usage.py:74-113 | the soft-delete gate's verdict is kept by every renumbering, injective or not |
| `RouteAuth.HasAuth` | scripts/check_route_auth.py:125-137 | the recursion over the shared mutable set computes the search and leaves the set as the search does |
| `RouteAuth.FoundIsReachable` | scripts/check_route_auth.py:128-136 | what is found is reachable, for every tree and every set of seen calls |
| `RouteAuth.SearchFindsAuthIff` | scripts/check_route_auth.py:125-137 | the search succeeds if and only if an authentication call is reachable through calls, given that a call determines its name and sub-dependencies |
| `RouteAuth.SearchFollowsWalk` | scripts/check_route_auth.py:125-137 | for every tree, the search succeeds if and only if a dependency on its walk, which depends on the calls only, is an authentication call |
| `RouteAuth.VerdictWrongIff` | scripts/check_route_auth.py:125-137 | for every tree, the verdict is wrong if and only if an authentication call below is never looked at and no dependency looked at is one |
| `RouteAuth.ExactEverywhereIff` | scripts/check_route_auth.py:125-137 | for a given tree of calls, the search is exact whichever calls are authentication calls if and only if every call that can be reached is looked at |
| `RouteAuth.SecondOccurrenceIsSkipped` | scripts/check_route_auth.py:132-133 | a tree without that property on which authentication is missed |
| `RouteAuth.CheckRoutes` | scripts/check_route_auth.py:144-177 | reports exactly the offending routes in order and exits accordingly |
| `RouteAuth.ReportedIff` | scripts/check_route_auth.py:140-157 | a route is reported if and only if it reaches no authentication call and its path neither starts with a public prefix nor is one without its trailing slashes |
| `RouteAuth.ReportsInOrder` | scripts/check_route_auth.py:148-157 | reports keep the order of the routes |
| `RouteAuth.AuthenticatingNames` | scripts/check_route_auth.py:47-131 | a dependency authenticates if and only if it is a call of one of eleven functions |
| `AssertionSearch.HasAssertion` | backend/scripts/check_no_assert_tests.py:82-113 | the depth-bounded recursion over the shared mutable set computes the search and terminates |
| `AssertionSearch.FoundIsReachable` | backend/scripts/check_no_assert_tests.py:91-112 | what is found is there, at most three helpers away |
| `AssertionSearch.AcceptsOwnAssertions` | backend/scripts/check_no_assert_tests.py:95-112 | a test with an `assert`, a call whose name starts with "assert" or is one of six, or a `with` over one of these is accepted, and without helpers no other is |
| `AssertionSearch.SearchFindsWalkedIff` | backend/scripts/check_no_assert_tests.py:91-112 | the search succeeds if and only if the test or a helper on its walk, which depends on the calls only, has an assertion of its own |
| `AssertionSearch.VerdictWrongIff` | backend/scripts/check_no_assert_tests.py:91-106 | the verdict is wrong if and only if some helper called but not walked asserts, and neither the test nor a walked helper does |
| `AssertionSearch.ExactEverywhereIff` | backend/scripts/check_no_assert_tests.py:91-106 | for given calls, the search is exact for every choice of asserting helpers if and only if every helper called is walked |
| `AssertionSearch.ThreeDeepIsEnough` | backend/scripts/check_no_assert_tests.py:91-106 | without a chain of four distinct helpers every helper called is walked and the search is exact, whatever cycles the helpers form |
| `AssertionSearch.SharedSetMisses` | backend/scripts/check_no_assert_tests.py:91-106 | helpers on which an assertion one call away is missed |

## Left out

- Windows, tray, dialogs, IPC registration, session permissions and secrets of electron/main.js: platform calls.
- BackendSupervisor.Supervisor.OnBeforeQuit: the pending restart timer (electron/main.js:461-486), which line 1402 also clears, is not modelled; a restart counts when it is scheduled and may still be cancelled.
- Backend readiness, ports and HTTP: they appear as events; the 2 s restart delay and the awaits in `startBackend` are not timed.
- A failing `Worker` constructor (electron/worker-pool.js:84): assumed not to throw; if it did, the slot would leak.
- The other worker tasks (hashing, compression) and path validation: no state of interest here.
- AES-GCM, scrypt and CRC-32: parameters; the cipher is assumed to unseal exactly what it seals where a lemma says so.
- EncryptedFile.EncryptFile: an input path that is one of the job's own temporary paths is excluded, because the job then overwrites its own input.
- EncryptedFile.DecryptFile: an input path that is the job's own temporary path is excluded for the same reason.
- Base64 and the "not a file" check in electron/file-chunk.js: the chunk is its bytes, the file a regular one that does not change.
- Pid reuse and a failing unlink in the run lock: a pid names one process for the whole run, and unlinking succeeds or finds no file.
- Regular expressions: the patterns are written out as matchers.
- Numerals of more than 4300 digits in versions and hunk headers, on which Python's `int` raises: the models read them.
- The fixed header text of the generated module, and `sync_version_json` with its check: file plumbing around the printer.
- Python escapes that JSON never emits: the literal evaluator rejects them.
- Diffs printed under another git configuration, such as `core.quotePath` switched off: the printer follows git's defaults.
- Untracked files in scripts/check_pragma_reasons.py and its pragma pattern: only the diff reader is modelled.
- The scanners in front of the ratchets, the public prefixes' values and the syntax tree walk of the assertion gate: their results are inputs.
- Argument parsing, printing and exit plumbing of the scripts; the smaller gates, the `gh_*` and database scripts: they would add easy members only.
- backend/app/main.py and alembic: wiring around frameworks.
