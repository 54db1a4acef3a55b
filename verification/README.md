# klaudiush, modelled and proved

klaudiush validates the commands an assistant is about to run. This project models the parts of
it that keep state and proves what they promise, one module for each part. Methods and classes
follow the program's loops and objects; each is proved against functions over values, and the
main theorems are about those functions, about whole runs, or about every interleaving.

- **Markdown context** (`Text`, `MarkdownLines`, `MarkdownState`, `MarkdownMeaning`,
  `MarkdownDetector`, `Preamble`, `PreambleRoundTrip`, `FragmentReading`). Lines are character
  sequences. A detector folds a list stack over the lines before a fragment; what it knows then
  is told from the lines themselves: a code block is open behind an odd number of fences, and
  the stack holds the items that no later line closes. A generator prints synthetic markdown
  that is to put a reader back in the same place. It does exactly when every item on the stack
  is *faithful*: nothing but blanks and tabs in front of the marker, and, in an ordered list, a
  number that is positive and written without leading zeros; a numeral beyond 64 bits is read as
  zero. The fragment is then read as in its file unless it cuts a run of blank lines.
- **Executors** (`Executor`, `ExecutorRuns`). One goroutine a validator, three counting
  semaphores, one mutex, a wait group and cancellation, as a step system that is compared with
  the sequential loop. The verdict is that of the validators that failed and ask to block.
- **Exception limits** (`RateLimit`, `RateLimitRuns`, `ExceptionHandler`). Hour and day windows,
  global and per code, checked and recorded under separate locks. The event log and the clock
  are ghosts of the model.
- **Session poisoning** (`UnpoisonToken`, `Acknowledging`, `SessionTracker`, `Dispatcher`,
  `SessionRuns`). The printed token parses back, a session is poisoned exactly by what blocks
  behind the exception checker, and it is left exactly for a legitimate reason.
- **Rules** (`RuleRegistry`, `RuleEngine`, `ConfigMerge`, `RuleMerge`). A sorted array refines a
  map, the first match is the one of highest priority and least name, and both merges of the
  program commute with installing.
- **Backups** (`Retention`, `RetentionPolicies`, `BackupStore`, `BackupManager`,
  `BackupRestore`, `BackupFindings`, `SnapshotListing`). Retention meets its limits, keeps the
  newest and settles, index and files agree over all runs except for the files of passes that
  could not save their index, bytes are conserved, and a restore can be undone. File system
  failures are parameters.
- **Crash dumps** (`CrashDumps`) and **the cached git runner** (`CachedRunner`). A dry run
  predicts what pruning removes, and concurrent callers of the cache get one answer for each key.

What the code does differently from its comments or from what one would expect, each with the
lemmas that show it and say when it happens:

- An ordered item with leading zeros, or numbered zero, is not restored by the preamble
  (`FragmentReading.LeadingZerosAreLost`, `PreambleRoundTrip.PreambleRestoresContext`); a blank
  line that continues a run ends the list in the file but not in the fragment
  (`FragmentReading.SplitBlankLinesKeepTheList`, `FragmentReading.FragmentReadsTheSame`).
- The branch that renumbers the last list item cannot be reached
  (`MarkdownState.ItemIsAlwaysPushed`).
- Concurrent handlers can overshoot a limit by all but one of them
  (`RateLimitRuns.OvershootIsReached`, `RateLimitRuns.OvershootIsBounded`).
- A poison code that is not an error code can never be acknowledged by name
  (`SessionRuns.OddCodesOnlyAge`, `SessionRuns.OddCode`), and the audit entry of a release
  never carries the codes, because it is written after they are cleared
  (`Dispatcher.ReleaseWithCode`, `Dispatcher.Dispatcher.CheckUnpoisonAcknowledgment`).
- Disabled rules are dropped only after the merge, so that an earlier enabled duplicate comes
  back (`ConfigMerge.SwitchedOffTwice`, `ConfigMerge.WinnerIsInstalled`).
- The reported number of removed chains counts chains whose deletion failed
  (`BackupManager.ChainsRemovedExact`, `BackupFindings.NoChainRemoved`).
- A retention pass that cannot save the index leaves entries without files
  (`BackupManager.UnsavedIndexDisagrees`); no later pass removes them and no backup restores
  them (`BackupStore.LostForGood`), and a backup of the same content reports success though
  nothing holds it (`BackupFindings.BackupOfNothing`, `BackupManager.BackupHoldsContent`).
- A backup of a file whose content another file's backup already holds reports that entry, and
  restored without a target it goes to the other file (`BackupFindings.RestoredElsewhere`,
  `BackupRestore.BackupGoesHome`).
- The snapshot index lists its entries in no particular order, though its comments promise one
  (`SnapshotListing.OutOfOrder`, `SnapshotListing.ListIsChronological`,
  `SnapshotListing.ChainIsInSequence`). Chains of more than one snapshot do not occur yet
  (`SnapshotListing.ChainsAreSingle`).
- A denial counts an unlimited window as used up, where every other answer says unlimited
  (`ExceptionHandler.UnlimitedDayUsedUp`), and when a global window is used up it says that
  nothing is left for the code, whatever is (`ExceptionHandler.CodeWindowNotTold`). When it
  tells the truth: `ExceptionHandler.DenialTellsQuota`.
- One validator alone is run without a permit, also when its pool has none
  (`ExecutorRuns.PoolsAreRespectedIff`, `ExecutorRuns.ReturnsUncancelledIff`).

## Model

| member | source | states |
|---|---|---|
| FragmentReading.DetectionRoundTrip | internal/validators/markdown_utils.go:154-447 | For every content, line number and fragment: detecting over the generated preamble text with the fragment behind it restores the code block and the last heading level (at least 1), and restores list stack, in-list flag, indent and depth if and only if every stacked item is faithful |
| FragmentReading.FragmentReadsTheSame | internal/validators/markdown_utils.go:154-447 | After every fragment line the reader of preamble and fragment agrees with the reader of the whole file, if and only if every stacked item is faithful and the fragment does not cut a run of blank lines in two |
| FragmentReading.PreambleTextSplits | internal/validators/markdown_utils.go:154-276 | The printed preamble, with any fragment behind it, is scanned back into exactly the preamble lines and the fragment lines |
| FragmentReading.LeadingZerosAreLost | internal/validators/markdown_utils.go:132-147 | An ordered item written with leading zeros comes back with a different stack |
| FragmentReading.SplitBlankLinesKeepTheList | internal/validators/markdown_utils.go:298-305 | After a list item and a blank line, a fragment that starts with another blank line ends the list in the whole file, and keeps it behind the preamble |
| PreambleRoundTrip.PreambleRestoresContext | internal/validators/markdown_utils.go:154-447 | Reading the preamble generated from the state after any lines restores code block and heading, and the stack if and only if all its items are faithful |
| PreambleRoundTrip.ReadBackStack | internal/validators/markdown_utils.go:236-276 | The stack read back from the printed list levels is the printed one if and only if all items are faithful |
| PreambleRoundTrip.ReadHeadings | internal/validators/markdown_utils.go:216-232 | The printed heading hierarchy is read back as its last level |
| PreambleRoundTrip.ReadLevel | internal/validators/markdown_utils.go:241-273 | One printed list level is read back as one pushed item in canonical form |
| Preamble.ReadOrdered | internal/validators/markdown_utils.go:248-252 | Items 1 to n of an ordered list leave only item n on the stack |
| Preamble.CanonicalIsNarrower | internal/validators/markdown_utils.go:236-276 | An item is read back no wider than it was, and unchanged if and only if it is faithful |
| Preamble.GeneratePreamble | internal/validators/markdown_utils.go:154-165 | The text is the written form of the preamble lines and the count is their number; nothing for no state and at the start of a file |
| Preamble.PreambleLength | internal/validators/markdown_utils.go:169-276 | How many lines a preamble has: two for each heading or for the title, one for each printed item and between levels, the blank line only when there is neither heading nor list, and the fence |
| Preamble.GeneratePreambleWithContext | internal/validators/markdown_utils.go:169-212 | Headings, list levels, separating blank line and open fence are written in order and counted |
| Preamble.GenerateHeadingHierarchy | internal/validators/markdown_utils.go:216-232 | One heading and one blank line for each level up to the last, counted |
| Preamble.GenerateListPreamble | internal/validators/markdown_utils.go:236-276 | Every level of the stack is written and counted |
| Preamble.GenerateLevel | internal/validators/markdown_utils.go:241-273 | One level is written: its items and a blank line if a nested level follows |
| Preamble.GenerateOrderedItems | internal/validators/markdown_utils.go:248-252 | All preceding items of an ordered list are written and counted |
| MarkdownDetector.DetectMarkdownState | internal/validators/markdown_utils.go:392-447 | In a code block exactly behind an odd number of fences, under the last heading outside code blocks, in exactly the list items that no later line closes, behind a blank line exactly if the last line is one; indent and depth are those of the innermost item |
| MarkdownMeaning.StackIsOpenItems | internal/validators/markdown_utils.go:279-447 | Behind any lines the stack holds, in order, exactly the items outside code blocks that no later line closes: neither a second blank line in a row nor other prose indented less than their content |
| MarkdownMeaning.InCodeIffOddFences | internal/validators/markdown_utils.go:408-421 | Behind any lines a code block is open exactly if the number of fences is odd |
| MarkdownMeaning.HeadingIsLast | internal/validators/markdown_utils.go:423-426 | The level remembered is that of the last heading outside code blocks, or zero when there is none |
| MarkdownMeaning.BlankIsLast | internal/validators/markdown_utils.go:298-305 | The flag for a blank line is set exactly when the last line is blank and outside code blocks |
| MarkdownMeaning.PopToIsWithin | internal/validators/markdown_utils.go:344-367 | Popping from the inside leaves exactly the items whose content does not start right of the indent |
| MarkdownMeaning.ClosedBlock | internal/validators/markdown_utils.go:408-421 | A closed code block, whatever is in it, changes nothing but that it interrupts a run of blank lines |
| MarkdownMeaning.BlockIsClosed | internal/validators/markdown_utils.go:408-421 | Behind a fence, code, a fence and text the reader is in no code block, under no heading and in no list |
| MarkdownDetector.ReadLine | internal/validators/markdown_utils.go:406-441 | A fence opens or closes a code block, a heading outside one is remembered, and the list tracker takes one step |
| MarkdownDetector.ListTracker.ProcessListItem | internal/validators/markdown_utils.go:308-341 | Pops to the enclosing item, then updates or pushes |
| MarkdownDetector.ListTracker.ProcessNonListContent | internal/validators/markdown_utils.go:344-367 | Pops the items the content is not indented into |
| MarkdownDetector.ListTracker.ProcessEmptyLine | internal/validators/markdown_utils.go:298-305 | Counts blank lines and ends the list at the second |
| MarkdownDetector.ListTracker.GetState | internal/validators/markdown_utils.go:370-388 | Copy of the stack with the innermost content indent and the depth |
| MarkdownDetector.ListTracker.ProcessCodeBlockLine | internal/validators/markdown_utils.go:286-295 | Code block lines interrupt a run of blank lines and keep the stack |
| MarkdownState.ItemIsAlwaysPushed | internal/validators/markdown_utils.go:321-331 | On a well-nested stack the branch that renumbers the last item is never taken: its content indent exceeds its own marker indent, so it was popped |
| MarkdownState.ReadLinesReadable | internal/validators/markdown_utils.go:279-447 | After any lines the stack is well nested and holds only items as the line reader can read them |
| MarkdownLines.MarkedLine | internal/validators/markdown_utils.go:132-147 | A line of indent, marker, blank and text is recognised as a list item with exactly that indent, marker and content column, and as nothing else |
| MarkdownLines.HeadingLine | internal/validators/markdown_utils.go:107-128 | A line of 1 to 6 hashes, blank and text is a heading of that level and nothing else |
| MarkdownLines.CodeBlockMarkerIff | internal/validators/markdown_utils.go:95-95 | A line is a fence exactly if three backquotes follow nothing but white space |
| MarkdownLines.EmptyLineIff | internal/validators/markdown_utils.go:103-103 | A line is empty exactly if it is all white space |
| MarkdownLines.HeadingIff | internal/validators/markdown_utils.go:101-128 | The level of a line is n exactly if it starts with n hashes, at most six, and a white space character |
| MarkdownLines.MarkerIff | internal/validators/markdown_utils.go:96-147 | A line is read as an item with a marker exactly if the marker follows nothing but white space and is followed by a white space character |
| MarkdownLines.IndentationIff | internal/validators/markdown_utils.go:688-696 | The indent is the number of blanks and tabs in front |
| MarkdownState.ItemIs | internal/validators/markdown_utils.go:132-147 | The item read from a marked line: marker and kind, content one column behind the marker, blanks and tabs as its indent, and its number if that fits 64 bits, else zero |
| Text.SplitWritten | internal/validators/markdown_utils.go:399-405 | Scanning written lines gives them back, whatever text follows |
| Text.SplitCarriageReturn | internal/validators/markdown_utils.go:399-405 | One carriage return in front of a newline is dropped, and only one |
| Text.SplitLast | internal/validators/markdown_utils.go:399-405 | A last line needs no newline, and nothing follows a final one |
| Text.DecimalRoundTrip | internal/validators/markdown_utils.go:249-249 | A printed number reads back as itself |
| Text.DecimalIsShortest | internal/validators/markdown_utils.go:132-147 | No numeral of a number is shorter than the printed one |
| ExecutorRuns.PoolsAreRespected | internal/dispatcher/executor.go:133-180 | With several validators, in every reachable state of every interleaving no more validators of a category run than its pool has permits |
| ExecutorRuns.PoolsAreRespectedIff | internal/dispatcher/executor.go:114-192 | Counting the validator that is run directly when it is alone, which takes no permit: the pools are respected if and only if there is not exactly one validator or its pool has a permit |
| ExecutorRuns.RunningAtOnceIff | internal/dispatcher/executor.go:133-192 | Of several validators exactly as many of a category can run at once as there are and as its own pool has permits |
| ExecutorRuns.NoStartOnceCancelled | internal/dispatcher/executor.go:141-155 | Once the context is cancelled no validator is started any more, in any continuation of the run |
| ExecutorRuns.ParallelRefinesSequential | internal/dispatcher/executor.go:114-180 | Every returned error says field for field what some failed validator answered; the list is a sub-multiset of the sequential one, and without cancellation a permutation of it that blocks exactly if a failed validator asks to block |
| ExecutorRuns.EveryRunReturns | internal/dispatcher/executor.go:114-180 | No run has more than ten steps a validator and two, and with room in every needed pool a run that has not returned can go on |
| ExecutorRuns.NoPermitNoReturn | internal/dispatcher/executor.go:133-180 | With several validators, if a needed pool has no permit the executor returns only after cancellation |
| ExecutorRuns.ReturnsUncancelledIff | internal/dispatcher/executor.go:114-180 | Without cancellation the executor can return if and only if there is at most one validator or every needed pool has a permit |
| ExecutorRuns.StepKeepsInv | internal/dispatcher/executor.go:114-180 | Every step keeps: permits counted, mutex held once, slice reads current, results collected, wait group counted |
| ExecutorRuns.KeepsResults | internal/dispatcher/executor.go:167-173 | The read-append-store sequence under the mutex loses no error |
| ExecutorRuns.ParallelExecute | internal/dispatcher/executor.go:114-180 | Under an arbitrary scheduler the method returns a sub-multiset of the sequential errors, and unless the context may be and is cancelled all of them, blocking exactly if a failed validator asks to block; one validator alone needs no permit |
| Executor.SequentialExecute | internal/dispatcher/executor.go:42-63 | The errors of the failed validators in order, up to the first poll that finds the context done, each saying field for field what its validator answered; they block exactly if one of those validators failed and asks to block |
| Executor.FailuresReport | internal/dispatcher/executor.go:195-204 | The errors are those of the validators that failed, one for each, in order, and say field for field what those answered |
| Executor.FailuresBlock | internal/dispatcher/dispatcher.go:494-502 | The errors block exactly if a validator that failed asks to block; warnings do not |
| Executor.Polled | internal/dispatcher/executor.go:49-55 | The validators run are those before the first poll that finds the context done |
| Executor.CollectedWithinFailures | internal/dispatcher/executor.go:42-63 | What is recorded is a part of the sequential result, and all of it once every validator is recorded |
| RateLimitRuns.OvershootIsBounded | internal/exceptions/ratelimit.go:131-248 | With at most k handlers between check and record, no hour or day window ever holds more than its positive limit plus k - 1 bypasses, globally or for one code, whatever rollovers occur |
| RateLimitRuns.OneAtATimeNeverExceeds | internal/exceptions/ratelimit.go:131-248 | One handler at a time never exceeds a positive limit |
| RateLimitRuns.OvershootIsReached | internal/exceptions/ratelimit.go:131-248 | For every k, every positive limit, hours and days, globally and for each code, some run reaches the bound exactly |
| RateLimitRuns.CountersAreExact | internal/exceptions/ratelimit.go:236-257 | In every run each counter equals the number of logged bypasses of its window, usage per code sums to the global count, hourly counts do not exceed daily ones, and the day start is the truncated hour start |
| RateLimitRuns.NextKeepsInv | internal/exceptions/ratelimit.go:131-257 | Every move keeps counters exact and every window within its bound |
| RateLimitRuns.RecordedAddsUp | internal/exceptions/ratelimit.go:236-257 | Rolling and recording keep the sums over codes equal to the global counts |
| RateLimit.RolledAccurate | internal/exceptions/ratelimit.go:383-411 | Resetting expired windows keeps every counter equal to its count over the log |
| RateLimit.RecordedAccurate | internal/exceptions/ratelimit.go:236-257 | Recording keeps every counter equal to its count over the extended log |
| RateLimit.AllowsIff | internal/exceptions/ratelimit.go:131-232 | A use passes exactly if limiting was switched off or all four windows have room: ten an hour and fifty a day unless configured otherwise, and for the code what its policy says, if anything |
| RateLimit.CountIsUses | internal/exceptions/ratelimit.go:383-411 | A count over the log is the number of uses from the start of the window to its end |
| RateLimit.HourlyWithinDaily | internal/exceptions/ratelimit.go:383-411 | Hourly counters never exceed daily ones and the two window starts stay aligned |
| RateLimit.DayOfHour | internal/exceptions/ratelimit.go:383-411 | A day boundary is an hour boundary: truncating to the hour first does not change the day |
| ExceptionHandler.HandlerNeverExceeds | internal/exceptions/handler.go:139-263 | After any number of handler checks no window holds more bypasses than its positive limit |
| ExceptionHandler.Handler.Check | internal/exceptions/handler.go:139-167 | A request is bypassed exactly when the handler is enabled, the engine allows it and the rolled counters allow its code; then exactly one event is logged, and each decision adds one audit entry that says which it was; the answer in every case |
| ExceptionHandler.Handler.HandlePolicyDenial | internal/exceptions/handler.go:196-212 | Audits the denial and changes no counter |
| ExceptionHandler.Handler.HandleRateLimitDenial | internal/exceptions/handler.go:215-236 | Audits the entry as denied with the limiter's reason |
| ExceptionHandler.Handler.HandleAllowedException | internal/exceptions/handler.go:239-263 | Records the bypass and audits the entry |
| ExceptionHandler.RateLimiter.Check | internal/exceptions/ratelimit.go:131-232 | Rolls the windows; allowed exactly when no positive limit is used up, with what is left as quota; denied with the first exceeded limit as reason, where an unlimited window counts as used up; unlimited when disabled |
| ExceptionHandler.DenialTellsQuota | internal/exceptions/ratelimit.go:131-205 | A denial tells what is left of a global window if and only if it is limited and not overrun; of a window of the code if and only if it is limited and, when a global window is used up, used up to the last use itself, otherwise not overrun |
| ExceptionHandler.DenialTellsQuotaInTurn | internal/exceptions/ratelimit.go:131-205 | Where handlers check one at a time: of a global window if and only if it is limited, of a window of the code if and only if it is limited and used up, too, when a global one is |
| ExceptionHandler.CodeWindowNotTold | internal/exceptions/ratelimit.go:154-162 | With one use an hour and five for the code, the denial after the first use says that nothing is left for the code, of which four uses are |
| ExceptionHandler.UnlimitedDayUsedUp | internal/exceptions/ratelimit.go:154-163 | With one use an hour and no daily limit, the denial after the first use says that nothing is left for the day |
| ExceptionHandler.DenialNamesFirst | internal/exceptions/ratelimit.go:154-205 | A denial names the first full window: hours before days, all codes before one |
| ExceptionHandler.RateLimiter.Record | internal/exceptions/ratelimit.go:236-257 | Rolls the windows and counts one bypass globally and for its code |
| ExceptionHandler.RateLimiter.ResetIfExpired | internal/exceptions/ratelimit.go:383-411 | Clears exactly the windows that are over |
| ExceptionHandler.RateLimiter.Reset | internal/exceptions/ratelimit.go:351-364 | Back to a fresh state |
| SessionRuns.VerdictIsPoisonBit | internal/dispatcher/dispatcher.go:175-237 | After every tracked dispatch the session is poisoned exactly when the returned errors block, and poisoned exactly when its poisoning time is set, across expired, released, lenient, early-return and fresh cases |
| SessionRuns.ReleaseIsLegitimate | internal/dispatcher/dispatcher.go:175-237 | After a poisoning and any blocked retries, cleanups and other sessions, the next hook of the session reaches the validators if and only if all codes are named, or there are none, or it attempts a release that does not parse, or more than the maximum age has passed since the poisoning |
| SessionRuns.ReachesIffLegitimate | internal/dispatcher/dispatcher.go:181-198 | The same for one hook of a session that still carries its poisoning or was dropped for its age |
| SessionRuns.PoisonedIffLeft | internal/dispatcher/dispatcher.go:175-237 | A tracked hook that reaches the validators leaves its session poisoned if and only if the exception checker leaves a blocking error of the hook or of one of its file writes |
| SessionRuns.CommandsAreCounted | internal/session/tracker.go:207-246 | The count of a session never exceeds the number of its hooks that passed, and is that number where sessions do not expire |
| SessionRuns.OddCodesOnlyAge | internal/session/unpoison.go:276-326 | A session poisoned with something that is no error code can be left only by a parse failure or by age |
| SessionRuns.OddCode | internal/dispatcher/session_error.go:71-81 | A blocking error that refers to a link ending in a word such as "policy" poisons with that word, which no command can name |
| SessionRuns.OthersKeepHeld | internal/session/tracker.go:207-245 | Blocked retries, cleanups and other sessions neither release a poisoned session nor move its deadline |
| SessionRuns.RunSound | internal/session/tracker.go:114-357 | In every ordered run poisoned holds exactly when the poisoning time is set |
| Dispatcher.Dispatcher.Dispatch | internal/dispatcher/dispatcher.go:175-237 | Errors and session map after one dispatch are those of the specification; unless it fails fast the errors are exactly what the exception checker leaves of those of the hook and its file writes; no unpoison entry in the audit carries codes |
| Dispatcher.Dispatcher.Admit | internal/dispatcher/dispatcher.go:181-198 | Fails fast exactly for a poisoned session that the command does not release, with the printed session error and no state change |
| Dispatcher.Truncated | internal/dispatcher/dispatcher.go:464-469 | At most 500 characters of a command go to the audit, followed by three dots if there were more |
| Dispatcher.Dispatcher.CheckUnpoisonAcknowledgment | internal/dispatcher/dispatcher.go:373-449 | Releases exactly when the codes are acknowledged or the text cannot be parsed but attempts to; the audit entry is written after the record is cleared, so that it carries the codes if and only if there were none |
| Dispatcher.PrintedTokenReleases | internal/dispatcher/dispatcher.go:373-449 | The token printed for any error codes releases the session poisoned by them |
| Dispatcher.HintReleases | internal/dispatcher/session_error.go:19-68 | The error of a blocked command blocks, its hints print the token of the session's codes, and assigning that token releases the session |
| Dispatcher.ReleaseWithCode | internal/dispatcher/dispatcher.go:437-446 | A command that releases a session with a code, which its audit entry will not carry |
| Dispatcher.Dispatcher.RecordOutcome | internal/dispatcher/dispatcher.go:209-234 | Poisons on blocking errors with an audit entry of the codes and the message, otherwise counts the command |
| Dispatcher.ApplyExceptionChecking | internal/dispatcher/dispatcher.go:283-310 | What is left is exactly what the checker makes of each error it does not drop, and all errors when there is no checker |
| Dispatcher.AppliedPicks | internal/dispatcher/dispatcher.go:283-310 | The errors left are the checker's answers to those it does not drop, one for each, in order |
| Dispatcher.BlocksIffLeft | internal/dispatcher/dispatcher.go:240-280 | The errors of a hook block if and only if the checker leaves a blocking one |
| Dispatcher.ExtractSessionPoisonCodes | internal/dispatcher/session_error.go:71-81 | The codes of the blocking errors' references in order |
| Dispatcher.PoisonCodesPick | internal/dispatcher/session_error.go:71-81 | One code for each blocking error with a reference, in order: the end of the reference behind its last slash |
| Dispatcher.CodeOfIff | internal/validator/reference.go:182-191 | The code of a reference is what follows its last slash, or all of it when there is none |
| Dispatcher.PoisonMessageIsFirst | internal/dispatcher/session_error.go:85-93 | The message of the first blocking error that has one, or empty |
| Dispatcher.Dispatcher.RunValidators | internal/dispatcher/dispatcher.go:240-280 | The errors are exactly what the checker leaves of those of the validators and of the file writes |
| SessionTracker.Tracker.IsPoisoned | internal/session/tracker.go:114-133 | Poisoned exactly when the stored status is and it has not expired |
| SessionTracker.Tracker.Poison | internal/session/tracker.go:136-171 | Sets status, time, codes and message of the one session |
| SessionTracker.Tracker.Unpoison | internal/session/tracker.go:175-204 | Clears the one session, keeping its count |
| SessionTracker.Tracker.RecordCommand | internal/session/tracker.go:207-245 | Counts a command, resetting an expired session |
| SessionTracker.Tracker.CleanupExpired | internal/session/tracker.go:313-336 | Removes exactly the sessions idle for more than the maximal age at the moment they are looked at, and counts them |
| UnpoisonToken.TokenRoundTrip | internal/session/unpoison.go:276-326 | The printed token parses back to its codes if and only if there are codes and all are error codes |
| UnpoisonToken.CommentRoundTrip | internal/session/unpoison.go:258-272 | The token embedded behind any text without a token start, and before whitespace or the end, parses back to its codes |
| UnpoisonToken.ParsedHasErrorCodes | internal/session/unpoison.go:276-326 | A parsed token has at least one code and only error codes |
| UnpoisonToken.ParseToken | internal/session/unpoison.go:276-326 | The token found, or which error, for every text |
| UnpoisonToken.ParsedIff | internal/session/unpoison.go:276-326 | A text parses exactly if, trimmed, it is the prefix and pieces between commas of which none is neither blank nor an error code and not all are blank; which error otherwise |
| UnpoisonToken.ValidCodesPick | internal/session/unpoison.go:302-316 | The codes are the pieces that are not blank, trimmed, in order |
| UnpoisonToken.SplitCommasIs | internal/session/unpoison.go:302-302 | The pieces have no commas and joined with commas are the text |
| UnpoisonToken.TrimPadded | internal/session/unpoison.go:276-326 | Trimming drops the white space around a text and nothing else |
| UnpoisonToken.ErrorCodeIff | internal/session/unpoison.go:121-121 | An error code is two to ten capital letters and one to five digits |
| Acknowledging.AcknowledgedIffNamed | internal/session/unpoison.go:400-446 | Acknowledged if and only if no codes are stored or a found token names them all |
| Acknowledging.MissingCodes | internal/session/unpoison.go:400-446 | What is reported as missing are the codes that the token does not name, or all of them without a token |
| Acknowledging.AttemptIff | internal/session/unpoison.go:393-396 | A command is an attempt exactly if it contains one of the two markers |
| Acknowledging.OnlyErrorCodesCanBeNamed | internal/session/unpoison.go:276-326 | Only lists of error codes can be acknowledged by name |
| Acknowledging.PrintedTokenAcknowledges | internal/dispatcher/session_error.go:33-57 | The token printed for a session's codes, assigned in a command, acknowledges exactly them |
| Acknowledging.PrintedCommentAcknowledges | internal/dispatcher/session_error.go:33-57 | The same token in a comment acknowledges too |
| Acknowledging.CheckUnpoisonAcknowledgmentFull | internal/session/unpoison.go:400-446 | The acknowledgment, with what is missing and where the token was |
| RuleEngine.SameMapSameArray | internal/rules/registry.go:35-221 | Two registries with the same name-to-rule map hold the same array, so the order of insertions is irrelevant |
| RuleRegistry.ArrangementIsUnique | internal/rules/registry.go:175-185 | A map has only one arrangement in the order of the registry |
| RuleRegistry.OrderedIff | internal/rules/registry.go:175-185 | The order of the registry is falling priority, and rising names where that is equal |
| RuleRegistry.BeforeIff | internal/rules/registry.go:175-185 | One rule comes before another exactly if its priority is greater, or equal and its name is the lesser |
| RuleRegistry.LexLessIff | internal/rules/registry.go:175-185 | A name is the lesser exactly if it is a proper beginning of the other or has the smaller character where they first differ |
| RuleRegistry.SortedArranged | internal/rules/registry.go:175-185 | Sorting rules with distinct names arranges them |
| RuleRegistry.SortedKeepsMap | internal/rules/registry.go:175-185 | Sorting keeps the map |
| RuleEngine.Registry.Add | internal/rules/registry.go:35-85 | Installs the rule under its name with the matcher built for it, one that always matches if it has no conditions, or changes nothing exactly when the rule is missing, unnamed, without action or does not compile |
| RuleEngine.Registry.AddAll | internal/rules/registry.go:89-97 | Installs in order and stops at the first rule that is rejected |
| RuleEngine.Registry.Remove | internal/rules/registry.go:101-113 | Removes exactly the named rule and says whether it was there |
| RuleEngine.Registry.Merge | internal/rules/registry.go:189-221 | The map becomes this one overridden by the source's, also when the source is this registry |
| RuleEngine.Registry.Clear | internal/rules/registry.go:166-171 | The map is empty |
| RuleEngine.Registry.Get | internal/rules/registry.go:117-128 | The map's entry |
| RuleEngine.Registry.Sort | internal/rules/registry.go:175-185 | The array is arranged, by falling priority and rising names where that is equal, and the map stays |
| RuleEngine.Registry.GetEnabled | internal/rules/registry.go:142-155 | The enabled rules in order |
| RuleEngine.FirstMatchDecides | internal/rules/evaluator.go:50-84 | The first enabled match in the array precedes every other enabled rule of the map that matches |
| RuleEngine.DecisionIsUnique | internal/rules/evaluator.go:50-84 | At most one rule decides |
| RuleEngine.DecidesIffHighest | internal/rules/evaluator.go:50-84 | A rule decides exactly if it is enabled and matches, no such rule has a higher priority, and none of the same priority a lesser name |
| RuleEngine.AllMatchesInOrder | internal/rules/evaluator.go:88-113 | All enabled matches, in order, headed by the one that decides |
| RuleEngine.Evaluator.Evaluate | internal/rules/evaluator.go:50-84 | The action, message and reference of an enabled matching rule than which none has a higher priority and, at the same priority, none a lesser name; the default when no enabled rule matches |
| RuleEngine.Evaluator.EvaluateAll | internal/rules/evaluator.go:88-113 | The results of all enabled matches in order |
| ConfigMerge.MergedLookup | internal/config/koanf.go:269-319 | For all lists, with duplicates and early returns, the last rule of a name in the merge is the project's last one if any, else the global one |
| ConfigMerge.MergeRules | internal/config/koanf.go:269-319 | The three loops compute overridden global rules followed by remaining project rules |
| ConfigMerge.OverriddenIs | internal/config/koanf.go:287-305 | Every global rule keeps its place, or gives it to the project's last rule of its name |
| ConfigMerge.RemainingPick | internal/config/koanf.go:307-316 | Behind them follow, in order, the project's rules without a name and those whose name no global rule has |
| ConfigMerge.OnlyEnabledPick | pkg/config/rules.go:193-199 | The rules dropped are exactly those that are explicitly disabled; the others keep their order |
| ConfigMerge.InstalledIsLast | internal/rules/registry.go:89-97 | Adding a list installs for each name its last rule |
| ConfigMerge.WinnerIsInstalled | internal/config/factory/rules_factory.go:26-78 | What is installed for a name is the merge's winner if that is enabled and nothing otherwise, if and only if no enabled duplicate resurfaces behind a disabled winner |
| ConfigMerge.SwitchedOffTwice | internal/config/factory/rules_factory.go:26-78 | A rule with an action that compiles, switched off by a later duplicate in the same file, loses the merge and is installed all the same, enabled |
| ConfigMerge.CreateRegistry | internal/config/factory/rules_factory.go:26-78 | Merging, dropping disabled rules and adding gives for each name its last enabled rule, with its own priority, conditions and action |
| RuleMerge.MergeRules | internal/rules/registry.go:226-252 | The result holds the last rule of every name of both lists, and nothing else, by descending priority and ascending name |
| RuleMerge.MergeThenInstall | internal/rules/registry.go:226-252 | Installing the merged list gives the same registry map as installing one list after the other |
| RuleMerge.MergesAgree | internal/config/koanf.go:269-319 | For every name the two merges of the program look up the same rule |
| Retention.RetentionSettles | internal/backup/retention.go:61-203 | For every composition of count, age and size: what is kept is made of whole chains, is within every limit, and is kept entirely by a second pass |
| Retention.SizePolicyIsMinimal | internal/backup/retention.go:133-179 | The removed chains are the shortest oldest-first run whose removal brings the total within the limit |
| Retention.CountKeepsNewest | internal/backup/retention.go:61-83 | A count policy keeps as many chains as it allows or all there are, and every chain it keeps has a snapshot later than all those of any chain it removes |
| Retention.AgeRemovesOld | internal/backup/retention.go:105-113 | An age policy removes exactly the chains with a snapshot older than it allows |
| Retention.SizeRemovesOldest | internal/backup/retention.go:133-179 | Every chain a size policy removes has a snapshot earlier than all those of any chain it keeps |
| Retention.CompositeKeepsCommon | internal/backup/retention.go:195-203 | A composite policy keeps exactly what all its parts keep |
| Retention.KeptMeets | internal/backup/retention.go:195-203 | Any whole chains a policy keeps are within all its limits |
| Retention.MeetsKeepsAll | internal/backup/retention.go:195-203 | Within its limits a policy removes nothing |
| RetentionPolicies.ShouldRetain | internal/backup/retention.go:195-203 | Each call decides as the specification says for the chain, whatever order the maps are walked in |
| RetentionPolicies.CountShouldRetain | internal/backup/retention.go:61-85 | Kept exactly when fewer chains than the limit are newer |
| RetentionPolicies.AgeShouldRetain | internal/backup/retention.go:105-113 | Kept exactly when no snapshot of the chain is too old |
| RetentionPolicies.SizeShouldRetain | internal/backup/retention.go:133-179 | Kept exactly when removing all older chains suffices |
| RetentionPolicies.WalkDecides | internal/backup/retention.go:164-178 | Stopping the oldest-first walk at the first sufficient total removes exactly the chains whose older ones do not suffice |
| RetentionPolicies.Rank | internal/backup/retention.go:71-76 | The IDs in front of one in sorted order are those with smaller keys, and their number is its position |
| RetentionPolicies.ChainsOldestFirst | internal/backup/retention.go:151-162 | Every chain once, each older than all behind it |
| RetentionPolicies.ChainsNewestFirst | internal/backup/retention.go:64-76 | Every chain once, each newer than all behind it |
| RetentionPolicies.FirstChains | internal/backup/retention.go:78-84 | The first chains, as many as the limit allows or as there are |
| RetentionPolicies.RemoveOldest | internal/backup/retention.go:164-176 | Removes oldest chains up to the first total within the limit |
| RetentionPolicies.ChainSizes | internal/backup/retention.go:138-149 | The bytes of each chain |
| RetentionPolicies.SumSizes | internal/backup/manager.go:328-332 | The bytes of all snapshots |
| RetentionPolicies.GroupByChain | internal/backup/retention.go:208-216 | Each chain's group holds exactly its snapshots, once |
| RetentionPolicies.GetOldestSnapshot | internal/backup/retention.go:219-232 | A snapshot of the list that none is older than; the zero value for none |
| RetentionPolicies.GetNewestSnapshot | internal/backup/retention.go:235-248 | A snapshot of the list that none is newer than; the zero value for none |
| BackupStore.RunConserves | internal/backup/manager.go:86-389 | After any backups and retention passes, whatever writes and deletes fail: no two entries share content or a chain, every sequence number is 1, the bytes recorded are those saved less those freed, and every entry is backed by bytes with its hash and size except exactly those whose files a pass deleted without saving its index; so index and files agree if and only if there was no such loss |
| BackupStore.LostForGood | internal/backup/manager.go:114-117 | An entry whose file is gone stays in the index without it in every later state: no pass removes it and no backup brings its content back |
| BackupStore.AgreesIffNoneLost | internal/backup/manager.go:355-389 | Index and files agree exactly when no entry has lost its file |
| BackupStore.StepKeeps | internal/backup/manager.go:86-389 | One step keeps the store coherent, loses exactly the files of a pass that could not save its index, and accounts for every byte |
| BackupStore.NewID | internal/backup/snapshot.go:164-169 | New content gives an unused ID, whatever the clock says |
| BackupStore.ChainNameRoundTrip | internal/backup/manager.go:232-253 | A generated chain name scans back as its number |
| BackupStore.SnapshotIndex.Add | internal/backup/snapshot.go:188-191 | The entry is filed under its ID |
| BackupStore.SnapshotIndex.Delete | internal/backup/snapshot.go:204-213 | Exactly that entry goes |
| BackupStore.SnapshotIndex.List | internal/backup/snapshot.go:216-224 | Every entry once, in any order (the comment there promises chronological order) |
| BackupStore.SnapshotIndex.FindByHash | internal/backup/snapshot.go:227-235 | Some entry with the hash if and only if there is one |
| BackupStore.SnapshotIndex.GetChain | internal/backup/snapshot.go:238-248 | Exactly the entries of the chain, once, in any order (the comment there promises sequence order) |
| SnapshotListing.ListIsChronological | internal/backup/snapshot.go:215-224 | With distinct times, every listing the index permits is chronological if and only if there is at most one entry |
| SnapshotListing.ChainIsInSequence | internal/backup/snapshot.go:237-248 | With distinct sequence numbers, every listing of a chain that the index permits is in sequence if and only if the chain has at most one snapshot |
| SnapshotListing.ChainsAreSingle | internal/backup/manager.go:232-253 | In an index that the program wrote every chain has at most one snapshot |
| SnapshotListing.OutOfOrder | internal/backup/snapshot.go:215-248 | Two entries and a permitted listing that is not chronological; two of one chain and one that is not in sequence |
| BackupStore.SnapshotIndex.Get | internal/backup/snapshot.go:194-201 | The entry of that ID, if any |
| BackupStore.Storage.Initialize | internal/backup/storage.go:145-161 | The directory exists afterwards unless it could not be made; success needs the first index too |
| BackupStore.Storage.Save | internal/backup/storage.go:164-177 | Writes the file named after the ID; a failing write may leave something else there |
| BackupStore.Storage.Load | internal/backup/storage.go:180-192 | The bytes of the file if it exists and can be read |
| BackupStore.Storage.Delete | internal/backup/storage.go:195-205 | Removes the file if it exists and can be removed |
| BackupStore.Storage.SaveIndex | internal/backup/storage.go:232-245 | The stored index becomes the given one, or stays |
| BackupStore.Storage.LoadIndex | internal/backup/storage.go:248-267 | A fresh copy of the stored index |
| BackupManager.Manager.SaveNew | internal/backup/manager.go:119-173 | Saves new content as the first snapshot of a new chain |
| BackupManager.Manager.ChooseRemovals | internal/backup/manager.go:328-353 | Marks exactly the snapshots the policy does not keep, and their chains |
| BackupManager.Manager.RemoveAndSave | internal/backup/manager.go:355-408 | Removes the marked snapshots and saves the index if anything went |
| BackupManager.Manager.CreateBackup | internal/backup/manager.go:86-174 | When it succeeds is characterised by the faults; content already held changes nothing, new content adds one entry in a new chain, and a failure touches no entry and no file an entry refers to |
| BackupManager.BackupHoldsContent | internal/backup/manager.go:114-173 | A successful backup leaves an entry whose file holds exactly the content, also when an old entry was reused, if and only if no entry for this content had lost its file before |
| BackupManager.BackupRecords | internal/backup/manager.go:491-521 | A new entry records the file, the moment, the trigger, tag and description, the size and hash of the content, and is the first of its own chain |
| BackupRestore.BackupGoesHome | internal/backup/restore.go:78-95 | Restored without a target, what a backup of a file reports goes back to that file if and only if no entry already held the same content for another file |
| BackupFindings.RestoredElsewhere | internal/backup/restore.go:78-95 | A backup of a second file with the same content reports the entry of the first, which is restored to the first |
| BackupManager.BackupIsStep | internal/backup/manager.go:86-174 | A backup is a step of the store that leaves every older entry and its file alone |
| BackupManager.RetentionIsStep | internal/backup/manager.go:305-409 | A pass is a step of the store, also when it could not save the index |
| BackupFindings.BackupOfNothing | internal/backup/manager.go:114-117 | Two steps from an empty store, a pass that cannot save the index leaves an entry without file; a later backup of its content then succeeds and nothing holds the content |
| BackupFindings.NoChainRemoved | internal/backup/manager.go:403-408 | A pass whose only doomed file resists reports one removed chain |
| BackupManager.Manager.GenerateChainID | internal/backup/manager.go:232-253 | One more than the largest chain number in use, or the first: a well-formed name that no entry uses |
| BackupManager.Manager.GetNextSequenceNumber | internal/backup/manager.go:256-271 | One more than the largest positive number of the chain, and 1 if there is none |
| BackupManager.Manager.ApplyRetention | internal/backup/manager.go:305-409 | Removes exactly the doomed snapshots whose files exist and can be deleted from files and index, and reports their number, bytes and IDs; if the index cannot be saved the old one stays |
| BackupManager.Manager.RemoveAll | internal/backup/manager.go:355-375 | A failing delete leaves its file and its entry and the rest goes on |
| BackupManager.Manager.RemoveOne | internal/backup/manager.go:361-371 | Removes the file and the entry, or neither |
| BackupManager.RetentionConserves | internal/backup/manager.go:305-409 | A pass whose index was saved loses no file, whatever could not be deleted, and bytes before are bytes after plus bytes freed |
| BackupManager.PassSettles | internal/backup/manager.go:305-409 | When every doomed file can be deleted, what is left is what the policy keeps: whole chains, within all limits, and a second pass removes nothing |
| BackupManager.PassKeepsNewest | internal/backup/retention.go:61-83 | With a count policy, a pass that can delete all it should leaves the newest entries, as many as allowed or all there were |
| BackupManager.UnsavedIndexDisagrees | internal/backup/manager.go:377-389 | A pass loses the files it deletes exactly when the index cannot be saved; files and index agree afterwards if and only if no file was missing before and either nothing doomed can be deleted or the index can be saved |
| BackupManager.ChainsRemovedExact | internal/backup/manager.go:403-408 | The reported number of removed chains is the number that disappeared if and only if every doomed file is there and can be deleted |
| BackupRestore.Restorer.RestoreSnapshot | internal/backup/restore.go:78-164 | For an entry of the index it succeeds exactly when there is a target, the requested validation and backup succeed, the file can be read and the target can be written; then the target holds exactly the snapshot's bytes and nothing else moved; a failed validation changes nothing at all; any failure before the write leaves the target alone; once a requested backup was taken, even a failing write leaves the previous bytes recoverable |
| BackupRestore.Restorer.Prepare | internal/backup/restore.go:96-123 | Succeeds exactly when the requested validation and backup do; entries and their bytes survive, and the reported entry holds the target's bytes exactly when no entry for them had lost its file before |
| BackupRestore.Restorer.WriteTarget | internal/backup/restore.go:125-163 | Succeeds exactly when the snapshot can be read, is sound if that is asked for, and the target can be written; then it overwrites exactly the target with the snapshot's bytes |
| BackupRestore.Restorer.RestoreAndUndo | internal/backup/restore.go:78-164 | Restoring the reported backup puts every configuration file back as it was, and this succeeds exactly when the first restore does and the entry holding the old bytes can be read and written back |
| BackupRestore.BackupIsReadable | internal/backup/restore.go:103-122 | The reported backup can be read back exactly when the entry holding the content can, and then gives the content |
| BackupRestore.Restorer.RestoreByID | internal/backup/manager.go:412-462 | The same by ID: succeeds exactly when backups are enabled, the index is there, readable and has the ID, and its snapshot can be restored |
| BackupRestore.Restorer.ValidateSnapshot | internal/backup/restore.go:184-214 | Succeeds exactly for a readable full snapshot whose bytes have the recorded hash |
| BackupRestore.Restorer.ReconstructSnapshot | internal/backup/restore.go:169-181 | The stored bytes of a full snapshot; nothing for a patch or an unreadable file |
| CrashDumps.FilesystemStorage.Prune | internal/crashdump/storage.go:186-228 | Two passes with a new listing between them delete exactly the dumps that are too old or have too many newer ones, save those that resist, and report how many |
| CrashDumps.FilesystemStorage.Delete | internal/crashdump/storage.go:166-182 | Removes the dump if it is there and can be removed |
| CrashDumps.FilesystemStorage.DeleteOld | internal/crashdump/storage.go:199-209 | Removes the dumps that are too old, save those that resist |
| CrashDumps.FilesystemStorage.DeleteExcess | internal/crashdump/storage.go:217-225 | Removes the dumps with too many newer ones, save those that resist |
| CrashDumps.DetermineRemovableDumps | cmd/klaudiush/crash.go:378-440 | The dry run marks exactly those dumps, each once |
| CrashDumps.DryRunPredicts | cmd/klaudiush/crash.go:378-393 | The marked dumps are the ones pruning removes if and only if none of them resists deletion |
| CrashDumps.RemainderIsNewest | internal/crashdump/storage.go:186-228 | What stays is the longest newest-first run of at most the allowed number of dumps, none too old |
| CrashDumps.PruneKeepsNewest | internal/crashdump/storage.go:186-228 | What stays are the newest dumps, as many as are allowed and young enough; all are young when no positive age is given |
| CrashDumps.PruneIdempotent | internal/crashdump/storage.go:186-228 | A second pruning at the same time removes nothing |
| CrashDumps.TwoPasses | internal/crashdump/storage.go:200-226 | The excess of what the age pass left, together with what it removed, is what one look at the whole directory would remove |
| CrashDumps.Position | internal/crashdump/storage.go:68-100 | The position in a newest-first listing is the number of newer dumps |
| CrashDumps.FilesystemStorage.List | internal/crashdump/storage.go:68-100 | Every dump once, newest first |
| CrashDumps.AppendExcessDumps | cmd/klaudiush/crash.go:414-430 | Adds the dumps beyond the limit that are not marked yet |
| CrashDumps.AppendOldDumps | cmd/klaudiush/crash.go:395-412 | Adds the dumps beyond the age |
| CrashDumps.IsAlreadyMarked | cmd/klaudiush/crash.go:432-440 | Whether some marked dump has the ID |
| CachedRunner.DelegateCalledOnce | internal/git/cached_runner.go:160-214 | In every interleaving and for every sequence of delegate answers: at most one call for each key, and whoever returns got that call's answer, so all who asked for a key got the same |
| CachedRunner.HitStaysOut | internal/git/cached_runner.go:160-170 | A caller that starts when its key is in the cache returns without ever waiting for the write lock or asking the delegate |
| CachedRunner.CallsAreKeys | internal/git/cached_runner.go:160-214 | When all callers have returned, the delegate was called for exactly the keys asked for |
| CachedRunner.EveryCallerReturns | internal/git/cached_runner.go:160-214 | No run has more than eight steps a caller, and a run can go on exactly as long as some caller has not returned |
| CachedRunner.StepKeepsInv | internal/git/cached_runner.go:160-214 | Every step keeps: locks held as they are taken, calls recorded once, callers see what the cache holds |

## Left out

- ExecutorRuns.ParallelExecute: requires a permit in every pool that one of several validators needs, because without one the program waits until it is cancelled (ExecutorRuns.NoPermitNoReturn).
- ExecutorRuns.EveryRunReturns: any waiter may win a free permit; the first-come order of the semaphore library is not modelled, and validators are taken to return.
- Executor.SequentialExecute: a validator's verdict is a value; its running time and its own side effects are not modelled.
- FragmentReading.DetectionRoundTrip: the flag for a blank line before the fragment is not restored, and the 64 KB line limit of the scanner is not modelled.
- Preamble.GeneratePreamble: the loop counter over the preceding items is unbounded; in the program it wraps around behind the largest 64-bit integer, so that for an item of that number the loop does not end.
- ExceptionHandler.Handler.Check: exception policies and token parsing are one function from requests to results; storing the state file between calls is taken as the identity.
- Acknowledging.CheckUnpoisonAcknowledgmentFull: the shell parser is a function from text to the values of the variable and the comments it finds, in order.
- Dispatcher.Dispatcher.Dispatch: the errors of the validators and of the file writes in a command are given with the request; logging and the text of display messages are left out, and audit entries are cut after so many characters where the program counts bytes.
- Dispatcher.ApplyExceptionChecking: the checker is a function of the command and the error; the limits that the program's checker consults, and that its answers use up, are proved in ExceptionHandler and do not move within a dispatch.
- RuleEngine.Evaluator.Evaluate: patterns, globs and regular expressions are functions from contexts to answers.
- Dispatcher.Dispatcher.RunValidators: the validators' answers come with the request; how an executor collects them is proved in ExecutorRuns and Executor.
- RetentionPolicies.ShouldRetain: no two chains may tie for oldest or newest, because the program sorts ties by the order of map iteration, which differs between calls.
- RetentionPolicies.CountShouldRetain: the same, chains do not tie for newest.
- RetentionPolicies.SizeShouldRetain: the same, chains do not tie for oldest.
- RetentionPolicies.ChainsOldestFirst: the same, chains do not tie for oldest.
- RetentionPolicies.ChainsNewestFirst: the same, chains do not tie for newest.
- Retention.RetentionSettles: the same; with ties the calls for different snapshots may see different orders, so what is kept is not determined.
- Retention.SizePolicyIsMinimal: the same, chains do not tie for oldest.
- Retention.KeptMeets: the same, chains do not tie.
- BackupManager.Manager.ChooseRemovals: the same, chains do not tie.
- BackupManager.Manager.ApplyRetention: one clock reading for all snapshots and distinct timestamps; a nil policy and the audit log are left out.
- BackupManager.Manager.CreateBackup: the content hash and the snapshot ID are free of collisions; patch snapshots, which the program rejects, cannot arise; user, host and command of the metadata and the kind of configuration are left out.
- BackupManager.Manager.GenerateChainID: chain names are scanned as digits after the prefix; signs, blanks and numbers beyond the machine integer, which the program never writes, are not modelled.
- BackupStore.Storage.SaveIndex: an index is written whole or not at all, where the program may leave a truncated file behind; its layout as text is left out.
- BackupRestore.Restorer.RestoreSnapshot: a target that exists but cannot be inspected is not told apart from one that does not exist.
- CrashDumps.FilesystemStorage.List: dumps have distinct timestamps, because the program's sort may order ties differently from call to call.
- CrashDumps.FilesystemStorage.Prune: dumps have distinct timestamps and a limit that is not negative, as the program indexes the listing with it; unreadable dump files, which the program skips, and failing directory reads are left out.
- CachedRunner.DelegateCalledOnce: the two methods are steps of callers over one cache, since interleaving is the point; a writer that waits does not keep new readers out, as it does in the library's read-write lock, so that more interleavings are covered; a delegate that panics is not modelled.
- The once-guarded getters of the cached git runner and its status calls.
- The warnings and the table checks of the markdown analysis, which do not use the list stack.
- The rule queries by validator type, and the list of matching rules without their results.
- Loading of configuration from files, environment and flags around the merge of rules.
- Reading and writing of session and rate-limit state files, audit log rotation, command line, plugins, linters and git access.
