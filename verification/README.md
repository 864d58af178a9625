# Fossil: a verified model of six of its components

The project states and proves what six parts of Fossil are for.

* **The backoffice lease** (`src/backoffice.c`). Any number of processes, each of which may die at any moment,
  share one lease kept as text in the config table. `Leases` is the decision a process takes inside its write
  transaction, `LeaseText` the stored text and the C routines on it, `LeaseProtocol` the system of all
  processes: reading the clock and running the transaction are separate steps, so timestamps may be stale; pids may
  be reused; unrelated processes share the pid space. The loop of `backoffice_thread` is the cycle
  Pending, transaction, Asleep, Awake of a process there. `backofficeProcessExists` and `backofficeProcessDone` are
  taken to be exact.
* **Pending alerts** (`src/alerts.c`). `Alerts` runs `alert_backoffice` on top of that lease, one SQL statement a
  step, with web requests and crashes in between. `AlertModeration` is about events that await moderation, whose
  artifact ids may be used again, `AlertLosses` about what marking before sending can lose, `AlertDelivery` about
  what does get sent, `AlertDigests` about the daily digest. `Renewal` is the
  renewal-warning arithmetic over whole histories, crashes included; `QuotedPrintable` is the mail encoder against a
  decoder written from RFC 2045.
* **Bag** (`src/bag.c`). `BagTable` is the hash table as a value, `BagRuns` its whole runs and its iteration,
  `Bags` the C functions on an array, each proved equal to its function on values. Integers are unbounded.
* **Blob transformations** (`src/blob.c`). `Blobs` is the growable buffer. `Expansion` is the theory of the
  right-to-left in-place loops, used by `Cp1252` (decoded by `Utf8`, from RFC 3629) and `LineEndings`.
  `CommentLines`, `JsonLiteral` (decoder from RFC 8259) and `ShellArgs` (shell rules from POSIX XCU 2.2 and 2.3,
  code in `ShellArgsCode`) complete it.
* **The JavaScript request queue** (`src/builtin.c`). `JsModules` has the dependency table, any acyclic one, and what a
  good order is; `JsQueues` the queue and the recursive emitter. The table in the source is shown to be acyclic.
* **Notes** (`src/ai.c`). `Notes` has reinforcement, promotion and merging on tables as maps, `NoteWeights` and
  `NotePromotion` the theorems over runs, `NoteReviews` what a review records, `NoteStores` the step-by-step updates.
  Heat is a real number.

## Where the code and its comments differ

* `src/bag.c:20` promises no duplicates. Inserting an element that sits behind a deleted slot on its probe path adds
  a second copy (`BagRuns.DuplicateExample`); `BagTable.SecondCopyExactly` says exactly when. The general abstraction is a
  multiset; it is a set in runs that insert only absent elements or never remove. On a bag with a repeat the loop
  of `bag_first` and `bag_next` goes wrong (`BagRuns.IterationRightExactly`) and may never end
  (`BagRuns.IterationNeverEnds`).
* `src/backoffice.c:42` promises at most two processes at any time. That needs every waiting process to run its
  transaction again before another process runs one with a clock past the deadline it wrote
  (`LeaseProtocol.CalmExactly`); without that there can be three (`LeaseProtocol.ThreeWithoutPunctuality`). Mutual
  exclusion needs no such assumption.
* `src/alerts.c:3030` says that events awaiting moderation are shown to moderators only, and `src/alerts.c:3088` that
  they never enter a digest.
  A rejected post leaves its row in pending_alert, and SQLite gives its artifact id out again. If that happens
  between a snapshot and the reading of the events, the new post is mailed to everyone before any moderator has seen
  it (`AlertModeration.HeldPostMailedToAll`); `AlertModeration.HeldMailedExactly` has the exact condition.
* An argument that contains an apostrophe and ends in a space is not separated from the next one, and an empty
  argument vanishes: `ShellArgs.CommandLineRoundTrip` has the exact condition.
* Renewal warnings are mailed before the round is recorded, the opposite of the order chosen for alerts, so a crash in
  between mails the same days again (`Renewal.SuccessiveWindows`).
* A lease value of 2^63 or more does not survive being written and read (`LeaseText.LeaseRoundTrip`); runs never
  get there while clock and pids are smaller (`LeaseProtocol.TextIsFaithful`).
* `blob_strip_comment_lines` looks at the byte after the text if the last line is a lone backslash
  (`CommentLines.Strip`), and on the blob of `blob_zero` the in-place expansions write a zero over the terminator of
  the constant "" (`LineEndings.AddCr`, `Cp1252.ToUtf8`).
* A text that ends in a space may lose it in quoted-printable (`QuotedPrintable.RoundTripExactly`); `alert_send`
  appends a newline first, which is enough.

## Model

| member | source | states |
|---|---|---|
| LeaseProtocol.MutualExclusion | src/backoffice.c:484-513 | at every moment of every run, with stale clocks, reused pids and crashes, at most one process works; it is live and is the lease's idCurrent |
| LeaseProtocol.TakeoverSpacing | src/backoffice.c:98-98 | the times recorded by the j-th and k-th takeover of a run are more than (k-j) lease times apart |
| LeaseProtocol.AtMostTwo | src/backoffice.c:42-45 | if no waiter has been displaced, the processes past their first transaction are among idCurrent and idNext, and at most one of them waits |
| LeaseProtocol.CalmExactly | src/backoffice.c:526-528 | every waiter is the lease's idNext up to some moment of a run if and only if no transaction before displaced one, which takes a clock past the waiter's deadline |
| LeaseProtocol.PunctualIsCalm | src/backoffice.c:537-555 | waiters that run their transaction before the clock passes their deadline are never displaced |
| LeaseProtocol.NoOvertaking | src/backoffice.c:488-499 | from the moment a process is on deck until it stops waiting, and unless it is displaced, nobody takes over and the lease's holder stays the same |
| LeaseProtocol.TakesOverWhenHolderGone | src/backoffice.c:500-513 | a waiter's next transaction takes over if and only if its clock is past the tmCurrent it first saw and the process current then is gone |
| LeaseProtocol.DisplacedExactly | src/backoffice.c:526-528 | another process's transaction leaves the lease to a waiter if and only if it read a time no later than the waiter's deadline, or may neither work nor wait |
| LeaseProtocol.ThreeWithoutPunctuality | src/backoffice.c:42-45 | a run in which one process works and two are on deck |
| LeaseProtocol.TextIsFaithful | src/backoffice.c:274-282 | in every run from an empty lease the stored text reads back as the lease, while clock and pids fit 63 bits |
| Leases.OnDeckHasSlack | src/backoffice.c:526-555 | a process going on deck sleeps past the end of the current lease and has 59 seconds left before its own claim lapses |
| Leases.TransactExactly | src/backoffice.c:488-529 | a transaction is refused exactly if another live process has a claim that has not lapsed; otherwise it takes over exactly if the lease is over and its holder gone, and goes on deck if not; the lease it leaves is given field by field |
| Leases.CheckExactly | src/backoffice.c:414-433 | the check before a process is started says no exactly if a live process has an unexpired claim |
| Leases.CheckAgreesWithTransaction | src/backoffice.c:414-433 | the cheap check before starting a process answers "not needed" exactly when the transaction would |
| LeaseProtocol.LetInExactly | src/backoffice.c:488-529 | in every run, what becomes of a process at its transaction: it works, waits or is turned away, by who lives and what time it read |
| LeaseProtocol.CrashedOnesGiveWay | src/backoffice.c:488-513 | if the holder and the process on deck are gone and the lease has run out, a process that starts gets to work at once |
| LeaseProtocol.WaiterTakesOver | src/backoffice.c:500-513 | a process on deck that was not displaced takes over at its first look after the lease has run out and its holder is gone, and may come again when it has worked |
| LeaseProtocol.AlwaysRecovers | src/backoffice.c:484-529 | no run gets stuck: from every state there is a continuation in which a new process works |
| LeaseText.LeaseRoundTrip | src/backoffice.c:209-282 | writing a lease and reading it back is the identity if and only if all four values are below 2^63 |
| LeaseText.ParsedIntExactly | src/backoffice.c:209-218 | reading a number skips white space and gives the value of all the digits that follow, modulo 2^64 |
| LeaseText.PrintedExactly | src/backoffice.c:274-282 | what is printed has the digits of the value, or from 2^63 on a minus sign and those of its complement |
| LeaseText.ParseInt | src/backoffice.c:209-218 | the two scanning loops compute the specified value, modulo 2^64, and position |
| LeaseText.ConfigTable.RunTransaction | src/backoffice.c:484-529 | the code of the transaction, on the text, decides as the protocol's step does and leaves the text of that lease, or the old text |
| Alerts.NoDoubleAlert | src/alerts.c:3081-3276 | over every run of any number of leased processes, no subscriber gets two individual alerts, two moderator alerts or two digest entries about one row of pending_alert |
| AlertModeration.HeldMailedExactly | src/alerts.c:3086-3120 | mail to others than moderators speaks of an event awaiting moderation if and only if its id was not held at the sender's snapshot but was when the sender read the event, having come to be held in between |
| AlertModeration.HeldByRequest | src/tag.c:212-217 | an id comes to be held only by a new held post under an id not in use or by the private tag |
| AlertModeration.HeldPostMailedToAll | src/moderate.c:135-142 | a run in which a post awaiting moderation is mailed as an individual alert |
| AlertModeration.MailIsAboutPendingRows | src/alerts.c:3086-3109 | all mail is about a row pending without its mark at the sender's snapshot; it is a moderator alert exactly if the id was held then |
| AlertDelivery.SnapshotExactly | src/alerts.c:3086-3109 | a snapshot lists exactly the rows that wait for the round: unmarked for the way that applies, which is the digest, the moderators if held, everybody if not |
| AlertDelivery.RoundMails | src/alerts.c:3083-3270 | from any moment of any run, a row that waits for a round about to begin, and whose event exists, can be mailed to anybody in it, in the way that applies |
| AlertDelivery.StaysUntilListed | src/alerts.c:3122-3142 | a pending row not sent in some way stays so until a worker lists it for that way, a request withdraws it, or, if only moderators were never told, the clean-up finds it sent both other ways |
| AlertDelivery.RoundGoesOnExactly | src/alerts.c:3119-3120 | a round marks its rows exactly if it found events to describe |
| AlertDelivery.RoundEnds | src/alerts.c:3273-3276 | a round ends by removing exactly the rows marked both ways; then the day is looked at, or the work is over after a digest |
| AlertDelivery.WithdrawnIsNeverMailed | src/alerts.c:254-259 | a row withdrawn before a worker lists it is never mailed |
| AlertDelivery.PostQueues | src/alerts.c:187-193 | a new event has a pending row, without marks unless it had one before |
| AlertDelivery.HeldPostReachesModerator | src/alerts.c:3098-3107 | a run in which a held post is mailed to a moderator |
| AlertDelivery.ApprovedPostReachesAll | src/moderate.c:168-179 | a run in which an approved post is mailed to everybody |
| AlertDelivery.RowEntersDigest | src/alerts.c:3086-3095 | a run in which a row enters a digest |
| AlertLosses.RowsLeaveMarkedOrWithdrawn | src/alerts.c:3273-3276 | over whole runs a row leaves pending_alert only by a withdrawal, or by the clean-up at a moment when it is marked both ways |
| AlertLosses.MarksStay | src/alerts.c:3130-3140 | over whole runs no mark of a row is taken back |
| AlertLosses.SettledForGood | src/alerts.c:3083-3109 | once a row is marked and on no process's list, nobody is ever told about it in that way again |
| AlertLosses.CrashLosesExactly | src/alerts.c:3045-3050 | after a crash, an alert the process had recorded is ever mailed to a subscriber if and only if it had been mailed before; one it had not recorded is still pending without the mark |
| AlertDigests.OneDigestRoundADay | src/alerts.c:3357-3368 | any two digest rounds of all processes together read the clock on different days, from noon to noon, although the day is read, compared and recorded by three statements |
| AlertDigests.DigestBeginsWhenDue | src/alerts.c:3362-3366 | an undisturbed worker begins a digest round exactly if the clock is on a later day than the one recorded, and records it |
| Alerts.InvStep | src/alerts.c:3122-3142 | every statement, web request, protocol step and crash keeps the invariant linking rows, marks, snapshots and what was sent |
| Renewal.RecordedOnce | src/alerts.c:3286-3337 | windows of recorded rounds are disjoint and in order whatever the clock does, so a day is warned in at most one of them |
| Renewal.SuccessiveWindows | src/alerts.c:3286-3337 | successive windows are adjacent if the first round was recorded, and overlap if and only if it crashed before |
| Renewal.WindowExactly | src/alerts.c:3286-3307 | a round mails exactly if the interval is 14 or more and today less the interval has reached the mark; it covers exactly the days above the mark whose subscriptions have run out or will within seven days |
| Renewal.CutOffExactly | src/alerts.c:3331-3336 | after a complete round, the positive days cut off are exactly those mailed to in recorded rounds before it |
| Renewal.WarnedDaysAreOld | src/alerts.c:3287-3293 | every warned day is at least seven days old |
| Renewal.CutoffTrails | src/alerts.c:3331-3336 | the cutoff never passes the warning mark; it is unset or at least seven days below it if and only if the last round that changed a setting did not stop between recording the two |
| Renewal.CutoffCatchesUp | src/alerts.c:3331-3336 | a history with a crash there, after which the two are equal |
| Renewal.CutOffDaysWereWarned | src/alerts.c:3331-3336 | every positive day up to the cutoff was warned in a recorded round earlier than the one that set the cutoff |
| Renewal.Settings.SendWarnings | src/alerts.c:3286-3338 | one round warns, in order, exactly the subscribers in its window who may be mailed and take alerts, and records the window |
| QuotedPrintable.RoundTripExactly | src/alerts.c:462-492 | for every zero-free text, decoding by RFC 2045 gives the text with bare LF as CR LF if and only if it does not end in a space that no soft break follows |
| QuotedPrintable.RoundTrip | src/alerts.c:1000-1008 | in particular for every text ending in a newline |
| QuotedPrintable.SoftBreakAt70 | src/alerts.c:466-475 | visible characters stay as they are, and a soft break follows the one that fills column 70 |
| QuotedPrintable.OthersEscaped | src/alerts.c:483-490 | a space not at a line's end is treated like them; all other characters become an equals sign and two hexadecimal digits |
| QuotedPrintable.AppendQuoted | src/alerts.c:462-492 | the C loop appends exactly the specified encoding |
| BagTable.InsertCorrect | src/bag.c:125-145 | bag_insert keeps the table valid (probe invariant, exact counts, used below half), adds exactly one copy if it answers true and none otherwise, and answers false exactly when a probe over live slots reaches the element |
| BagTable.InsertAbsent | src/bag.c:125-145 | inserting what bag_find does not see adds exactly one copy |
| BagTable.SecondCopyExactly | src/bag.c:134-143 | inserting a present element adds a second copy if and only if the table is not resized and a deleted slot precedes it on its path |
| BagTable.FindCorrect | src/bag.c:150-162 | bag_find answers true exactly if some slot holds the element |
| BagTable.RemoveCorrect | src/bag.c:168-194 | bag_remove deletes exactly one copy and nothing else, through zeroing, clearing and shrinking, and keeps the table valid |
| BagTable.VacateKeepsProbed | src/bag.c:177-184 | writing 0 into a slot whose successor is 0, or -1 into any slot, breaks no other element's path |
| BagTable.ResizeCorrect | src/bag.c:89-117 | resizing keeps every element with its multiplicity, drops every deleted slot and makes used equal cnt |
| BagRuns.SameHomeExactly | src/bag.c:76-79 | two elements start their probes in the same slot exactly if the table size divides 101 times their difference |
| BagRuns.InsertSizeExactly | src/bag.c:129-132 | an insertion grows the table exactly when half of the slots would be used, to twice the size and 20 |
| BagRuns.RemoveExactly | src/bag.c:176-192 | what a removal does to the slots: all zeroed when nothing is left, halved when little is, otherwise one slot changed, to 0 if the next is 0 |
| BagRuns.RoomInRuns | src/bag.c:184-192 | in every run an empty bag has no used slots, and a used bag has 20 slots or more |
| BagRuns.Run | src/bag.c:29-50 | in every reachable state the table is valid and, if it has slots, one of them is zero, so every probe ends |
| BagRuns.DisciplinedRunIsSet | src/bag.c:29-45 | a run that inserts only what bag_find reports absent is a run of a set: same elements once each, same size, same answers |
| BagRuns.InsertOnlyRunIsSet | src/bag.c:120-145 | so is a run that never removes, and there bag_insert answers true exactly for absent elements |
| BagRuns.DuplicateExample | src/bag.c:18-20 | a run of four operations after which the bag holds 21 twice |
| BagRuns.IterationRightExactly | src/bag.c:200-230 | bag_first followed by bag_next visits every live element once, in slot order, and then returns 0, if and only if the bag has no repeats |
| BagRuns.IterationEnumeratesSet | src/bag.c:29-45 | after a disciplined run, or one without removals, the loop enumerates the set: no element twice, none missing, then 0 |
| BagRuns.IterationNeverEnds | src/bag.c:215-230 | on the bag of DuplicateExample the loop returns 21 for ever |
| Bags.Bag.Resize | src/bag.c:89-117 | the array code of bag_resize computes the table's resize, and both its asserts hold |
| Bags.Bag.Insert | src/bag.c:125-145 | the array code of bag_insert computes the table's insert and its answer |
| Bags.Bag.Find | src/bag.c:150-162 | the array code of bag_find decides membership |
| Bags.Bag.Remove | src/bag.c:168-194 | the array code of bag_remove computes the table's remove |
| Bags.Bag.First | src/bag.c:200-208 | the array code of bag_first finds the first element in slot order |
| Bags.Bag.Next | src/bag.c:215-230 | the array code of bag_next finds the element after the slot where e is found |
| Blobs.Blob.AppendFull | src/blob.c:339-367 | appends exactly the bytes, terminates them, grows by the stated amount, writes nothing borrowed; the overflow check cannot fail |
| Blobs.Blob.Append | src/blob.c:368-379 | the fast append does the same |
| Blobs.Blob.AppendChar | src/blob.c:385-391 | appends one byte and leaves room for a terminator |
| Blobs.Blob.Resize | src/blob.c:620-624 | sets the length, keeps what fits, terminates |
| Blobs.Blob.Str | src/blob.c:489-500 | afterwards the unchanged contents are followed by a zero byte, without writing to borrowed memory |
| Expansion.MidwayStep | src/blob.c:1538-1542 | a turn of a right-to-left loop leaves every unread byte intact and the expansion of the read ones complete, with the cursors as far apart as the text is still to grow |
| Cp1252.ConvertedDecodes | src/blob.c:1568-1575 | decoding the converted text as UTF-8 gives the table's code point for each byte |
| Cp1252.ConversionRecoverable | src/blob.c:1568-1575 | the original bytes can be computed back from the UTF-8 text |
| Cp1252.ConversionInjective | src/blob.c:1577-1614 | no two inputs convert to the same text |
| Cp1252.ControlsExactly | src/blob.c:1568-1575 | only the five unassigned bytes stand for control characters |
| Cp1252.ToUtf8 | src/blob.c:1577-1614 | the in-place code turns the buffer into the conversion of its old contents; borrowed bytes are left alone, except for a zero written into the blob of blob_zero |
| LineEndings.ToLfInvertsAddCr | src/blob.c:1525-1561 | blob_to_lf_only undoes blob_add_cr if and only if the text has neither a zero byte nor a CR |
| LineEndings.LineEndsAlike | src/blob.c:1551-1561 | wherever they stand CR LF, CR and LF become one LF, other bytes stay, and the text ends at a zero |
| LineEndings.LfOnlyIdempotent | src/blob.c:1551-1561 | doing it twice is doing it once |
| LineEndings.AddCr | src/blob.c:1525-1544 | the in-place code replaces each LF by CR LF; borrowed bytes are left alone, except for a zero written into the blob of blob_zero |
| LineEndings.ToLfOnly | src/blob.c:1551-1561 | the in-place compaction computes the specified text |
| CommentLines.Strip | src/blob.c:945-975 | the one-pass code equals the per-line filter that drops lines starting with a hash and unescapes those starting with an escaped one, if and only if it is not the case that the last line is a lone backslash and the byte after the text a hash; then that backslash is dropped |
| CommentLines.LinesKeptExactly | src/blob.c:938-941 | a line that starts with a hash vanishes, one that starts with a backslash and a hash loses the backslash, any other stays, wherever in the text it is |
| CommentLines.StripUndoesEscape | src/blob.c:938-941 | escaping every comment-like line and stripping gives the text back if and only if no line already starts with an escaped hash |
| JsonLiteral.JsonRoundTrip | src/blob.c:438-483 | every byte string, written as a JSON literal and decoded by RFC 8259, comes back |
| JsonLiteral.LiteralIsClean | src/blob.c:438-483 | the literal has no byte below 0x20 and no interior quote without a backslash before it |
| JsonLiteral.LiteralIsShortest | src/blob.c:438-483 | no JSON string that decodes to the same is shorter |
| JsonLiteral.NoCapitals | src/blob.c:446-458 | hexadecimal digits are in lower case |
| JsonLiteral.Switch | src/blob.c:442-480 | the arithmetic of every case of the switch gives the specified escape |
| JsonLiteral.AppendJsonLiteral | src/blob.c:438-483 | the C loop appends exactly the literal |
| ShellArgs.CommandLineRoundTrip | src/blob.c:1697-1797 | for every list of legal arguments the shell's parse of the command line exists, and is the list (with "./" before option-like file names) if and only if every argument is non-empty and none but the last contains an apostrophe and ends in a space |
| ShellArgs.RunWritten | src/blob.c:1739-1796 | read from any unquoted point, a written argument adds exactly itself to the current word and leaves the shell unquoted |
| ShellArgs.LegalExactly | src/blob.c:1657-1736 | an argument is legal if and only if it is a sequence of bytes 0x20 to 0x7F and of lead bytes from 0xC0 followed by one, two or three bytes 0x80 to 0xBF, as the lead announces |
| ShellArgs.PlainExactly | src/blob.c:1657-1678 | a legal argument is left unquoted if and only if it has only letters, digits and + , - . / : = _ ~ |
| ShellArgs.WrittenExactly | src/blob.c:1744-1796 | otherwise it goes between apostrophes if it has none itself, and byte by byte with a backslash before each that needs one if it has |
| ShellArgs.SeparatorExactly | src/blob.c:1739-1742 | a space goes before it exactly if the command line is not empty and does not end in white space |
| ShellArgsCode.CheckArg | src/blob.c:1709-1736 | the scanning loop accepts exactly the legal arguments and finds whether they need escaping |
| ShellArgsCode.AppendEscapedArg | src/blob.c:1697-1797 | the code appends the specified text for a legal argument, and nothing for another |
| JsModules.TransitivelyOrdered | src/builtin.c:734-754 | in an ordered queue every module comes after all its dependencies, direct or not |
| JsModules.OrderedPrefix | src/builtin.c:353-393 | what has been sent at any time is in a good order too |
| JsModules.Table.ClosureMembers | src/builtin.c:796-804 | a module's closure is the module, the closures of its dependencies and nothing else |
| JsModules.FossilTableIsAcyclic | src/builtin.c:765-780 | the table in the source is acyclic |
| JsModules.FossilClosures | src/builtin.c:765-780 | what asking for each module of the source brings in, in full |
| JsQueues.JsQueue.EmitOnce | src/builtin.c:755-814 | the recursion ends; the queue keeps its old part, has no duplicates, is in dependency order after the bootstrap file, and has grown by exactly the bootstrap file and the module's closure; it panics only if these are unknown or do not fit |
| JsQueues.JsQueue.EmitAll | src/builtin.c:785-790 | the call for all modules queues exactly all of them, in order |
| JsQueues.JsQueue.Request | src/builtin.c:331-344 | a file is queued once; unknown files and a full queue are refused |
| JsQueues.JsQueue.Fulfill | src/builtin.c:353-393 | in every mode exactly the files not yet sent go out, in queue order, in one element or one each |
| Notes.CoveredExactly | src/ai.c:905-918 | in every run a review of a query covers exactly the notes whose retrieval was recorded for that query |
| Notes.MergeTargetIsRoot | src/ai.c:983-1001 | in every run a merged note points to the smallest id with its hash, and that one is not merged |
| Notes.ReviewMergesDuplicates | src/ai.c:983-1004 | a review leaves a note merged exactly if it has a smaller twin |
| NoteWeights.WeightIsTogether | src/ai.c:929-942 | in every run the weight of every link is the number of reviews that found it plus what other code added: a co_retrieved link is found by a review of a query both notes were recorded for, a duplicate link by one of a query the note was recorded for while the other was its first twin |
| NoteWeights.ReviewAddsPairs | src/ai.c:929-942 | reviewing a retrieval of k notes adds k(k-1)/2 to the total weight |
| NotePromotion.PromotionClosedForm | src/ai.c:320-342 | a note without a twin, recorded with its tier's weight and reviewed after each retrieval, has tier 0, 1, 2, 3 exactly as its count is below 2, 4, 7 or not, except that a thin note stops at 2 and one that needs splitting at 1, whatever happens to other notes |
| NotePromotion.RaisesExactly | src/ai.c:320-342 | in every run, when a review raises any note to or past 1, 2 and 3, by its count, heat, atomicity and twins |
| NotePromotion.HeatClosedForm | src/ai.c:888-904 | the heat of such a note at the counts that matter |
| NotePromotion.HeatIsNeverShort | src/ai.c:163-170 | by the time the counts allow a promotion the heat allows it too |
| NotePromotion.TierNeverFalls | src/ai.c:1053-1075 | no operation of any run lowers a note's tier |
| NotePromotion.LabelMatchesTier | src/ai.c:1029-1075 | in every run, after a review each note it covers has the label of its tier, metadata, and the artifact status that promotion gives |
| NoteReviews.VerdictTellsChange | src/ai.c:1085-1088 | in every run the row a review writes about a note names its merge target, whether its title and label changed, its old and new tier if they differ, its atomicity and the number of its peers |
| NoteReviews.OneVerdictEach | src/ai.c:954-966 | a review writes one row for each existing note of the retrieval |
| NoteReviews.TitleExactly | src/ai.c:1006-1027 | a review changes a title exactly if it is empty or a stock phrase in any case, to the one guessed from the body |
| NoteReviews.CreatedExactly | src/ai.c:777-870 | the note made from a draft, column by column |
| NoteReviews.ReviewIsStable | src/ai.c:922-1097 | reviewing a retrieval again changes no note |
| NoteStores.NoteStore.ReviewRetrieval | src/ai.c:922-1097 | the code of the review, row by row in any order, computes the review: links, merges, titles, labels, tiers, artifact status and review rows |
| NoteStores.NoteStore.RecordRetrieval | src/ai.c:888-920 | the code updates count, heat and the retrieval table |
| NoteStores.NoteStore.CreateNote | src/ai.c:777-870 | the code creates a note with clamped tier, usable title, default source type, label and metadata, the weight of its source type, heat 1 and count 0 |
| NoteStores.NoteStore.LinkUpsert | src/ai.c:223-240 | adds to a link's weight or creates it, ignoring invalid ids and self-links |

## Left out

- Process creation, signals, the wait for a busy database, logging, Windows branches, `--poll`, `--nolease`, `--reset` and `SENDALERT_PRESERVE`: they bypass the lease or the marks by design.
- Whether `kill(pid,0)` can be wrong about a process of another user: liveness is exact in the model.
- The commands `fossil alerts send` and `test-add-alerts`, which send without a lease or replace rows; which subscribers receive which event, how mail is composed and sent, and suspension of expired subscribers.
- Shunning, which deletes events without freeing their ids; which of an event's texts are withheld because its manifest cannot be read.
- Alerts.NoDoubleAlert: a row deleted and queued again for the same event counts as a new row, because the code treats it so.
- SQL text, SQLite's own behaviour and schema migration: tables are maps and a statement is one step.
- 32-bit limits of `int` in Bag (a table of 2^30 slots) and the 2 GB limit of Blob, where the program ends.
- Blob cursors, flags and ephemeral blobs that share memory: each blob has its own array.
- Tilde expansion, reserved words and assignments in the shell: the code leaves `~` and `=` unquoted, and sections 2.2 and 2.3 say nothing else about them.
- Surrogate pairs in the JSON decoder: the encoder never produces them.
- The 76-column limit of RFC 2045: the code does not keep it, as escapes do not count towards soft breaks at once.
- The binary search of `builtin_file_index`, the text of the script elements and of the bootstrap script; files stand for their index.
- JsModules.Table.ClosureMembers: module names are limited to the 38 characters that fit the code's name buffer.
- NoteStores.NoteStore.CreateNote: the artifact columns are one flag, and source id, source reference and timestamps are left out, because nothing else looks at them; the body is trimmed before, and an empty body ends the program.
- NoteStores.NoteStore.ReviewRetrieval: rows are taken in any order, not by rank, and the review rows have no order and no summary text, which repeats their columns.
- How the body of a note determines its hash, its atomicity and the title guessed from it; vectors; rounding of heat.
- Deletion of notes, which only the self-test does.
