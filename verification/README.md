# Proofs about the C and C++ exercises

This project models the algorithms of the repository in Dafny and proves what they promise:
the Redis string library (`sds.c`, `sds.h`), the three timer containers, the io_uring file copy, the
incremental HTTP request parser, the spinlock thread pool, the two semaphore-guarded queues of the web
server, and the percent coding and line reading of the directory server.

`dafny verify dfyconfig.toml` checks everything. Each module stands for one source file or one part of it:

- `Bytes`, `Seqs`, `Counting`, `Timers` hold shared vocabulary.
- `SdsBuffer` is the string object with its header fields, truncation included; `SdsPrint` prints into it.
  `SdsRepr`, `SdsSplit` and `SdsDecimal` hold the values and the loops of the printers and parsers.
  `SdsGrammar` and `SdsFormat` say as grammars what an argument line and a format mean.
- `UringCopy` has the requests in flight, the actions of `copy_file` and the invariant that they keep.
  `UringRuns` runs the loops against an arbitrary schedule of what the kernel does: refuse, fail, or
  complete any request in flight with any allowed result. `UringReturns` tells from these events alone what
  the function returns.
- `TimeWheel` and `SortedTimerList` are pointer structures; `TimeHeap` works in place on its array.
  `WheelRuns` and `TimerEquivalence` say what runs of a timer container are and what follows from them;
  `WheelRequests` and `TimerRuns` prove that the code makes such runs, for every sequence of requests.
- `HttpGrammar` and `HttpVerdict` say what a request is and what it means to resume a parse;
  `HttpParser` is the code on its buffer.
- `SpinPool`, `WorkQueue` and `ConnPool` are transition systems over any number of threads. Bodies under a
  lock are single steps; semaphore, mutex and condition-variable operations are steps of their own.
  `SpinRuns` tells from the steps alone what becomes of the tasks.
- `UrlCodec` and `LineReader` are the two halves of `epoll.c` that transform bytes.

Conventions. Allocation succeeds, sizes stay below 2^64, the C locale applies. A C string is a byte sequence
read up to its terminator. Clocks, sockets and callbacks are parameters and logs: a tick takes the time and
returns the timers whose callbacks ran, in order. A timer that the source deletes is one that is no longer in
the structure.

Where the code differs from its comments or from what one would expect, the code is followed:

- A timer put on the wheel with `ticks` ticks fires on the (`ticks` + 1)-th later call of `tick`, because the
  current slot is served before the wheel turns; the comment at the computation says after `ticks` ticks.
- `copy_file` returns 1 when a peek finds no completion, so its completion loop never goes back to issue more
  reads. Unless a submit fails it can return 0 for exactly the files that fit in one window, 64 reads of 32 KiB.
- A failed submit of `copy_file` leaves the outer loop with no write to wait for: 0 is returned and nothing is
  copied. So a return of 0 means a faithful copy exactly when no submit failed and the drain loop got full writes.
- The drain loop of `copy_file` counts a short write as done; the copy is then incomplete and 0 is returned.
- `sdssplitargs` ends an unquoted word at blank, tab, CR, LF or NUL only; vertical tab and form feed belong to the word,
  although they separate arguments elsewhere. A quoted part ends the argument, an unquoted start of it may come before.
- `sdssplitlen` undoes a join for exactly the separators that do not overlap themselves.
- `sdstrim` also cuts off NUL bytes, since `strchr` finds the terminator of the set. It trims by the set alone
  exactly when that leaves nothing, or no NUL at either end.
- `adjust_timer` restores the order only if the timer does not expire before its predecessor; `EarlierExpiry` shows
  lists that it leaves out of order. A server that only prolongs timers never meets them.
- `time_heap` has nothing like `adjust_timer`. In its runs a prolongation is a deletion and an addition by the caller.
- Whatever stands behind a NUL in a request line is not looked at: `GET / HTTP/1.1` followed by a NUL and more bytes is
  accepted. A header line that starts with a NUL byte ends a request. Without NUL bytes the closing line is the empty
  one, and the request line is a request line as a whole.

## Model

| member | source | states |
|---|---|---|
| `SdsRepr.ReprBodyAppend` | redis-learnning/sds/sds.c:710-739 | printing is byte by byte: the text of a concatenation is the concatenation of the texts |
| `SdsRepr.ReprByteIs` | redis-learnning/sds/sds.c:711-737 | a byte prints as itself from 32 to 126, quote and backslash behind a backslash, five control bytes by their letter, any other as `\x` and two digits |
| `SdsPrint.CatReprByte` | redis-learnning/sds/sds.c:711-737 | the `switch` appends exactly the text of the byte to the string object |
| `SdsPrint.CatRepr` | redis-learnning/sds/sds.c:708-741 | appends the quoted text of any byte string and nothing else, through every regrowth |
| `SdsRepr.TakeTurn` | redis-learnning/sds/sds.c:811-896 | in each quoting mode a turn of the token loop strictly advances and never passes the terminator |
| `SdsRepr.DoubleArm` | redis-learnning/sds/sds.c:813-857 | the arm inside double quotes makes exactly the turn of that mode: escapes, closing quote and unbalanced quotes |
| `SdsRepr.SingleArm` | redis-learnning/sds/sds.c:859-873 | the same inside single quotes |
| `SdsRepr.PlainArm` | redis-learnning/sds/sds.c:875-892 | the same outside quotes, where a quote sets its flag; the two flags are never both set |
| `SdsRepr.GetToken` | redis-learnning/sds/sds.c:805-896 | the inner pointer loop computes the token function, unbalanced quotes included |
| `SdsRepr.SplitArgs` | redis-learnning/sds/sds.c:793-918 | the two nested loops compute the argument vector, or NULL, on every input |
| `SdsRepr.ScanReprByte` | redis-learnning/sds/sds.c:813-857 | reading one printed byte inside double quotes appends exactly that byte |
| `SdsRepr.ScanReprBody` | redis-learnning/sds/sds.c:811-896 | reading a printed byte string up to a closing quote that ends a token gives the byte string |
| `SdsRepr.SplitStep` | redis-learnning/sds/sds.c:799-908 | a quoted text where the scan stands becomes the next argument, and the scan goes on behind it |
| `SdsRepr.SplitInvertsReprLine` | redis-learnning/sds/sds.c:708-918 | for every list of byte strings, parsing the printed line gives the list back |
| `SdsGrammar.ScanWord` | redis-learnning/sds/sds.c:875-892 | reading a word outside quotes appends exactly its bytes, in order |
| `SdsGrammar.ScanItems` | redis-learnning/sds/sds.c:813-857 | reading items between double quotes appends exactly what they stand for: plain bytes, escapes, hexadecimal pairs |
| `SdsGrammar.ScanSingle` | redis-learnning/sds/sds.c:859-873 | reading between single quotes appends every byte, with `\'` for a quote |
| `SdsGrammar.ScanArg` | redis-learnning/sds/sds.c:805-908 | a whole argument gives its value, and the scan stands behind it |
| `SdsGrammar.LineParsed` | redis-learnning/sds/sds.c:793-918 | a line of good arguments with blanks around them gives their values |
| `SdsGrammar.BrokenRefused` | redis-learnning/sds/sds.c:828-873 | good arguments and then one whose quotes do not close, or close before something that is not a blank, give NULL |
| `SdsGrammar.Readable` | redis-learnning/sds/sds.c:793-918 | every C string is a line of the one kind or of the other |
| `SdsGrammar.SplitIffLine` | redis-learnning/sds/sds.c:793-918 | for every C string, the result is a vector if and only if the string is a line of the grammar whose arguments have these values |
| `SdsGrammar.NullIffBroken` | redis-learnning/sds/sds.c:793-918 | NULL is returned if and only if some argument of the line has unbalanced quotes |
| `SdsGrammar.SplitWords` | redis-learnning/sds/sds.c:793-918 | words without NUL, blanks and quotes, joined by single blanks, come back as they were |
| `SdsGrammar.SplitSingles` | redis-learnning/sds/sds.c:793-918 | so do byte strings between single quotes that do not end in a backslash |
| `SdsPrint.PrintAndParse` | redis-learnning/sds/sds.c:708-918 | the two pieces of code run one after the other return their input |
| `SdsSplit.SplitLen` | redis-learnning/sds/sds.c:646-689 | NULL exactly for an empty string or separator; else the tokens, and the token array is never overrun |
| `SdsSplit.EnsureSlots` | redis-learnning/sds/sds.c:662-672 | room for two more tokens, with the tokens found so far unchanged |
| `SdsSplit.Enlarge` | redis-learnning/sds/sds.c:663-671 | the reallocated token array keeps the tokens |
| `SdsSplit.JoinSds` | redis-learnning/sds/sds.c:946-956 | the loop computes the join |
| `SdsSplit.JoinInvertsSplit` | redis-learnning/sds/sds.c:646-689 | joining the tokens of a non-empty string restores it, for every non-empty separator |
| `SdsSplit.SplitSeparatorFree` | redis-learnning/sds/sds.c:661-684 | no token contains the separator |
| `SdsSplit.SplitIffLeftmost` | redis-learnning/sds/sds.c:646-689 | the tokens are the ones that join to the string with every separator at its leftmost place, and no others |
| `SdsSplit.EarlyMatch` | redis-learnning/sds/sds.c:673-681 | a match before the place of the separator lies inside the token or overlaps the separator with itself |
| `SdsSplit.PiecesOfJoin` | redis-learnning/sds/sds.c:661-689 | with an unbordered separator the scan of a join finds exactly the joined tokens |
| `SdsSplit.BorderedCounterexample` | redis-learnning/sds/sds.c:661-689 | for every bordered separator, two separator-free tokens whose join is split differently |
| `SdsSplit.SplitInvertsJoinIff` | redis-learnning/sds/sds.c:646-689 | splitting undoes joining for all separator-free tokens if and only if the separator is unbordered; one-byte separators are |
| `SdsDecimal.EmitDigits` | redis-learnning/sds/sds.c:346-350 | the `do` loop leaves the digits in reverse, in at most 20 places |
| `SdsDecimal.ReverseInPlace` | redis-learnning/sds/sds.c:356-363 | the two-pointer loop reverses the prefix and leaves the rest |
| `SdsDecimal.Ll2Str` | redis-learnning/sds/sds.c:333-365 | for every `long long`, LLONG_MIN included, the decimal text and its terminator stand within 21 bytes |
| `SdsDecimal.Ull2Str` | redis-learnning/sds/sds.c:367-386 | the same for every `unsigned long long` |
| `SdsDecimal.DecimalRoundTrip` | redis-learnning/sds/sds.c:332-386 | the text is canonical (no leading zero, no "-0") and reads back as the value |
| `SdsDecimal.DecimalUnique` | redis-learnning/sds/sds.c:332-386 | no other canonical text denotes the value |
| `SdsDecimal.DecimalFits` | redis-learnning/sds/sds.c:332-332 | text and terminator of any 64-bit value need at most SDS_LLSTR_SIZE bytes |
| `SdsBuffer.ReqType` | redis-learnning/sds/sds.c:28-42 | the chosen header holds the size, and no smaller header does |
| `SdsBuffer.FlagsByte` | redis-learnning/sds/sds.h:46-73 | type and type-5 length are recovered from the flags byte, from which the object reads both |
| `SdsBuffer.Stored` | redis-learnning/sds/sds.h:102-124 | a header field keeps a value that fits and truncates any other |
| `SdsBuffer.FieldWidths` | redis-learnning/sds/sds.h:13-43 | the length fields of the five headers have 5, 8, 16, 32 and 64 bits |
| `SdsBuffer.StoredTruncates` | redis-learnning/sds/sds.h:102-124 | what a field does not keep of a value is a multiple of its range |
| `SdsBuffer.Sds.SetLen` | redis-learnning/sds/sds.h:102-124 | the length becomes the new one as far as its field holds it, the flags byte for type 5; the header type stays |
| `SdsBuffer.Sds.IncLen` | redis-learnning/sds/sds.h:126-149 | the length grows by the increment as far as its field holds it |
| `SdsBuffer.Sds.SetAlloc` | redis-learnning/sds/sds.h:169-188 | the capacity field of the larger headers takes the new capacity as far as it holds it |
| `SdsBuffer.Sds.Reallocate` | redis-learnning/sds/sds.c:161-180 | the string survives a change of block size and header type |
| `SdsBuffer.Sds.constructor` | redis-learnning/sds/sds.c:44-102 | content, exact capacity, header type and terminator of a new string |
| `SdsBuffer.Sds.MakeRoomFor` | redis-learnning/sds/sds.c:129-182 | at least `addlen` bytes are free afterwards; when it grows, beyond them as many as the new length, up to 1 MiB; string and terminator are untouched, the header type is exact |
| `SdsBuffer.Sds.RemoveFreeSpace` | redis-learnning/sds/sds.c:184-219 | nothing is free afterwards, string and terminator are untouched, the header type is exact |
| `SdsBuffer.Sds.CatLen` | redis-learnning/sds/sds.c:302-312 | content becomes content plus bytes, terminated, inside the block |
| `SdsBuffer.Sds.CpyLen` | redis-learnning/sds/sds.c:318-328 | content becomes the bytes |
| `SdsBuffer.Sds.GrowZero` | redis-learnning/sds/sds.c:287-300 | content is extended with NULs to the length, never shortened |
| `SdsBuffer.Sds.Clear` | redis-learnning/sds/sds.c:124-127 | content becomes empty in the same block |
| `SdsBuffer.TrimBounds` | redis-learnning/sds/sds.c:565-574 | the two pointers stop around exactly the part that trimming keeps |
| `SdsBuffer.Sds.Trim` | redis-learnning/sds/sds.c:559-586 | content becomes the content trimmed by the set and NUL, moved in place |
| `SdsBuffer.TrimmedIsMaximal` | redis-learnning/sds/sds.c:569-573 | only bytes of the set are cut off, and neither end that remains is one |
| `SdsBuffer.TrimmedIsUnique` | redis-learnning/sds/sds.c:569-573 | that determines the result |
| `SdsBuffer.TrimsBySetIff` | redis-learnning/sds/sds.c:569-573 | the set alone decides if and only if trimming by it leaves nothing, or no NUL at either end |
| `SdsBuffer.TrimCutsNul` | redis-learnning/sds/sds.c:569-570 | a leading NUL is cut off although the set does not name it |
| `SdsBuffer.Sds.Range` | redis-learnning/sds/sds.c:588-616 | content becomes the selected slice, moved in place |
| `SdsBuffer.SliceBounds` | redis-learnning/sds/sds.c:591-611 | the clamping of negative and large positions selects the slice |
| `SdsBuffer.SliceSelects` | redis-learnning/sds/sds.c:588-616 | the slice keeps exactly the positions from start to end, both included, where negative ones count from the end of the string |
| `SdsBuffer.Perform` | redis-learnning/sds/sds.c:124-328 | each edit keeps the object valid and does to the content what it says |
| `SdsBuffer.Run` | redis-learnning/sds/sds.c:124-328 | under every sequence of edits both fields fit the header, length stays within capacity, the content is terminated and is the computed string |
| `SdsBuffer.Sds.PutAt` | redis-learnning/sds/sds.c:501-503 | bytes at the write index, length raised, no terminator yet |
| `SdsPrint.ArgBytes` | redis-learnning/sds/sds.c:494-537 | strings as they are, numbers through the 21-byte buffer |
| `SdsPrint.PutArg` | redis-learnning/sds/sds.c:494-538 | one specifier: room, copy, length, and the write index is the length again |
| `SdsPrint.FmtTurn` | redis-learnning/sds/sds.c:472-551 | one turn consumes one format item and appends exactly its text |
| `SdsPrint.CatFmt` | redis-learnning/sds/sds.c:462-557 | exactly what the format prescribes is appended; the write index equals the length across every regrowth |
| `SdsFormat.ArgTextShows` | redis-learnning/sds/sds.c:494-537 | strings show as themselves, numbers as their canonical decimal |
| `SdsFormat.RenderPieces` | redis-learnning/sds/sds.c:472-551 | a format of plain bytes, specifiers with their arguments and escaped bytes renders as what each piece shows, in order |
| `SdsFormat.FormatPieces` | redis-learnning/sds/sds.c:472-551 | every format with matching arguments is such a list of pieces |
| `UringCopy.IssueKeeps` | liburing-learnning/io_uring-cp.c:133-149 | queueing a read keeps the window, the byte account and the counters |
| `UringCopy.ProgressGood` | liburing-learnning/io_uring-cp.c:190-198 | what the kernel has read so far is the file's own bytes at the right place |
| `UringCopy.WrittenCorrect` | liburing-learnning/io_uring-cp.c:61-73 | no write ever puts a byte of the file anywhere but in its place |
| `UringCopy.ShortKeeps` | liburing-learnning/io_uring-cp.c:190-199 | a short completion re-queued for exactly the rest keeps the invariant and changes no other request |
| `UringCopy.ReadDoneKeeps` | liburing-learnning/io_uring-cp.c:200-204 | a finished read turned into a write of the same block keeps it |
| `UringCopy.WriteDoneKeeps` | liburing-learnning/io_uring-cp.c:205-209 | a finished write dropped keeps it |
| `UringCopy.DrainKeeps` | liburing-learnning/io_uring-cp.c:212-229 | a drained completion keeps it, and loses bytes exactly when it was short |
| `UringCopy.OnlyWrites` | liburing-learnning/io_uring-cp.c:127-127 | once `write_left` is 0 all reads are done and everything has been issued |
| `UringCopy.Finished` | liburing-learnning/io_uring-cp.c:212-230 | with nothing in flight, the output is the input exactly when no byte was lost |
| `UringRuns.WindowFits` | liburing-learnning/io_uring-cp.c:136-137 | reads and writes in flight are never more than QD, `write_left` never less than what is unissued |
| `UringRuns.IssueFills` | liburing-learnning/io_uring-cp.c:133-149 | reads are issued until nothing is left, the window is full or a read is refused |
| `UringRuns.ReapInv` | liburing-learnning/io_uring-cp.c:159-210 | over every sequence of completions the loop keeps the invariant and is left only with `write_left` at 0 or by a return other than 0 |
| `UringRuns.DrainInv` | liburing-learnning/io_uring-cp.c:212-229 | over every sequence of completions the drain loop keeps the invariant, and no wrong byte is written even after a failed submit |
| `UringRuns.LossIff` | liburing-learnning/io_uring-cp.c:212-229 | the drain loop loses nothing if and only if every completion it takes is full |
| `UringRuns.CopyGuarantees` | liburing-learnning/io_uring-cp.c:115-231 | in every run: no wrong byte; the invariant unless a submit failed; when 0 is returned, the output is the input if and only if no submit failed and the drain completions were full; without a failed submit the file then fits in one window |
| `UringRuns.SubmitFailure` | liburing-learnning/io_uring-cp.c:150-156 | a failed submit always ends in a return of 0 with nothing copied of a file that is not empty |
| `UringRuns.SubmitCanFail` | liburing-learnning/io_uring-cp.c:150-156 | and it can happen to every such file |
| `UringRuns.SuccessIffOneWindow` | liburing-learnning/io_uring-cp.c:115-231 | some run returns 0 with a faithful copy if and only if the file has at most QD * BS bytes |
| `UringRuns.GoodSchedule` | liburing-learnning/io_uring-cp.c:115-231 | completing every request in full is such a run, with any number of `-EAGAIN` completions first |
| `UringRuns.ShortDrainExample` | liburing-learnning/io_uring-cp.c:212-230 | a two-byte file whose write completes with one byte: 0 is returned, the output is not the file |
| `UringRuns.IssueReads` | liburing-learnning/io_uring-cp.c:133-149 | the loop that fills the window computes the window function |
| `UringRuns.Reap` | liburing-learnning/io_uring-cp.c:159-210 | the completion loop computes the completion function |
| `UringRuns.Drain` | liburing-learnning/io_uring-cp.c:212-229 | the drain loop computes the drain function |
| `UringRuns.CopyFile` | liburing-learnning/io_uring-cp.c:115-231 | the nested loops compute the run, for every schedule; the outer loop turns at most once |
| `UringReturns.ContinueIsEvents` | liburing-learnning/io_uring-cp.c:159-229 | completion loop and drain loop together are one loop that takes event after event until a fatal one or until everything is done |
| `UringReturns.EventsReturn` | liburing-learnning/io_uring-cp.c:159-230 | that loop returns 1 if and only if a taken event is fatal, 0 if and only if everything gets done before |
| `UringReturns.ReturnsIff` | liburing-learnning/io_uring-cp.c:115-231 | for every schedule: 1 if and only if the submit did not fail and a taken event is a failed wait, an error other than `-EAGAIN` before everything is read, or any error after; 0 if and only if the submit failed or everything gets done |
| `UringReturns.RetriesHarmless` | liburing-learnning/io_uring-cp.c:181-187 | `-EAGAIN` completions while something is left to read change nothing, however many there are |
| `UringReturns.RetriesAnywhere` | liburing-learnning/io_uring-cp.c:181-187 | wherever they come in the completion loop of a run |
| `UringReturns.RetriedCopy` | liburing-learnning/io_uring-cp.c:115-231 | a file of at most one window is copied and 0 returned after any number of them |
| `TimeWheel.LinkFirst` | network-programming/youshuang/timer/11-5tw_timer.h:73-82 | the new node in front, both directions linked |
| `TimeWheel.UnlinkFirst` | network-programming/youshuang/timer/11-5tw_timer.h:94-98 | the list without its first node, both directions linked |
| `TimeWheel.UnlinkInner` | network-programming/youshuang/timer/11-5tw_timer.h:101-104 | the list without an inner or last node, both directions linked |
| `TimeWheel.TickNode` | network-programming/youshuang/timer/11-5tw_timer.h:116-139 | a timer with rotations left loses one and stays, any other fires and leaves the list |
| `TimeWheel.TickList` | network-programming/youshuang/timer/11-5tw_timer.h:111-140 | the whole slot: exactly the timers without rotations fire, each once, the others turn and stay linked |
| `TimeWheel.Placed` | network-programming/youshuang/timer/11-5tw_timer.h:66-68 | slot and rotation put the timer exactly `ticks` turns ahead |
| `TimeWheel.Turns` | network-programming/youshuang/timer/11-5tw_timer.h:141-141 | a turn brings every other slot one nearer and the slot just left to the far end |
| `TimeWheel.TickCount` | network-programming/youshuang/timer/11-5tw_timer.h:60-64 | 1 for a timeout below the slot interval, else the number of whole intervals in it |
| `TimeWheel.TicksUnique` | network-programming/youshuang/timer/11-5tw_timer.h:60-64 | no other number does that |
| `TimeWheel.TimeWheel.constructor` | network-programming/youshuang/timer/11-5tw_timer.h:33-37 | an empty wheel at time 0 |
| `TimeWheel.TimeWheel.AddTimer` | network-programming/youshuang/timer/11-5tw_timer.h:51-84 | NULL for a negative timeout; else exactly the addition of a deadline so many ticks ahead as the timeout holds whole intervals, one at least |
| `TimeWheel.TimeWheel.DelTimer` | network-programming/youshuang/timer/11-5tw_timer.h:87-107 | exactly the removal of the timer's deadline |
| `TimeWheel.TimeWheel.Tick` | network-programming/youshuang/timer/11-5tw_timer.h:110-142 | fires exactly the due timers, each once; every other deadline stands |
| `TimeWheel.TimeWheel.ViewTicks` | network-programming/youshuang/timer/11-5tw_timer.h:116-141 | deadline = now + distance + N * rotation is not moved by a tick |
| `WheelRuns.PendingWhile` | network-programming/youshuang/timer/11-5tw_timer.h:51-142 | in every run, a timer left alone is pending exactly while at most `n` ticks have passed since its addition |
| `WheelRuns.FiresOnTime` | network-programming/youshuang/timer/11-5tw_timer.h:51-142 | in every interleaving, it fires on exactly the (n+1)-th later tick |
| `WheelRuns.FiresOnce` | network-programming/youshuang/timer/11-5tw_timer.h:51-142 | and never a second time |
| `WheelRuns.DeletedIsSilent` | network-programming/youshuang/timer/11-5tw_timer.h:87-107 | a deleted timer does not fire |
| `WheelRequests.Serve` | network-programming/youshuang/timer/11-5tw_timer.h:51-142 | each request to start, cancel or turn is one operation of the clock, negative timeouts and cancellations of timers that are gone included |
| `WheelRequests.ServeAll` | network-programming/youshuang/timer/11-5tw_timer.h:51-142 | every sequence of requests on a new wheel is a run of the clock, and each turn fires exactly what is due, each once |
| `WheelRequests.FiresExactly` | network-programming/youshuang/timer/11-5tw_timer.h:51-142 | in every such sequence, a started timer fires at a request if and only if that turns the wheel, it was not cancelled, and with t turns in between t = 1 for a timeout below TI, else t * TI <= timeout < (t + 1) * TI |
| `TimeHeap.SinkStep` | network-programming/youshuang/timer/11-6time_heap.h:161-172 | moving the smaller child up keeps every edge but those below the hole in order |
| `TimeHeap.RiseStep` | network-programming/youshuang/timer/11-6time_heap.h:92-98 | moving the parent down keeps every edge but the one above the hole in order |
| `TimeHeap.RootIsMin` | network-programming/youshuang/timer/11-6time_heap.h:114-119 | the root of a heap expires first |
| `TimeHeap.TimeHeap.PickChild` | network-programming/youshuang/timer/11-6time_heap.h:162-166 | the child that expires first |
| `TimeHeap.TimeHeap.PercolateDown` | network-programming/youshuang/timer/11-6time_heap.h:158-174 | the subtree becomes a heap, the timers stay the same |
| `TimeHeap.TimeHeap.FromArray` | network-programming/youshuang/timer/11-6time_heap.h:45-68 | a heap of exactly the given timers |
| `TimeHeap.NewHeap` | network-programming/youshuang/timer/11-6time_heap.h:45-68 | refused exactly when the capacity is too small, else a heap of exactly the given timers |
| `TimeHeap.TimeHeap.Resize` | network-programming/youshuang/timer/11-6time_heap.h:175-190 | twice the capacity, every timer in its place |
| `TimeHeap.TimeHeap.Rise` | network-programming/youshuang/timer/11-6time_heap.h:92-99 | a heap with one timer more |
| `TimeHeap.TimeHeap.AddTimer` | network-programming/youshuang/timer/11-6time_heap.h:80-100 | a heap with exactly the timer added, resized if full; NULL is ignored |
| `TimeHeap.TimeHeap.PopTimer` | network-programming/youshuang/timer/11-6time_heap.h:122-132 | a heap without its first timer, also when it becomes empty |
| `TimeHeap.TimeHeap.DelTimer` | network-programming/youshuang/timer/11-6time_heap.h:103-111 | the callback of this timer object is gone, and nothing else changes |
| `TimeHeap.TimeHeap.RunTop` | network-programming/youshuang/timer/11-6time_heap.h:145-151 | the expired root runs if its callback is set, and leaves |
| `TimeHeap.TimeHeap.Tick` | network-programming/youshuang/timer/11-6time_heap.h:134-153 | takes out exactly the expired timers in order of expiry; the callbacks run are a tick of the timers that were not deleted |
| `TimeHeap.ArmedOfSame` | network-programming/youshuang/timer/11-6time_heap.h:146-148 | the timers not deleted do not depend on the order of the heap |
| `TimeHeap.ArmedTick` | network-programming/youshuang/timer/11-6time_heap.h:134-153 | a tick of all timers is a tick of those not deleted: exactly the expired ones run, in order |
| `SortedTimerList.Link` | network-programming/youshuang/timer/11-2lst_timer.h:170-185 | a node linked in behind another, in both directions |
| `SortedTimerList.LinkFirst` | network-programming/youshuang/timer/11-2lst_timer.h:62-66 | a new first node |
| `SortedTimerList.Unlink` | network-programming/youshuang/timer/11-2lst_timer.h:84-128 | a node taken out, the others linked in order in both directions |
| `SortedTimerList.SortTimerLst.FindPlace` | network-programming/youshuang/timer/11-2lst_timer.h:164-178 | everything up to the place expires not later, everything behind it later |
| `SortedTimerList.SortTimerLst.AddAfter` | network-programming/youshuang/timer/11-2lst_timer.h:163-187 | the timer inserted there; ascending, acyclic, `tail` correct |
| `SortedTimerList.SortTimerLst.AddTimer` | network-programming/youshuang/timer/11-2lst_timer.h:50-69 | the timer inserted behind its equals; ascending, acyclic, `tail` correct, also when it was stale; NULL is ignored |
| `SortedTimerList.SortTimerLst.DelTimer` | network-programming/youshuang/timer/11-2lst_timer.h:99-129 | exactly the timer removed, in all four cases; NULL is ignored |
| `SortedTimerList.SortTimerLst.AdjustTimer` | network-programming/youshuang/timer/11-2lst_timer.h:73-96 | the others keep their order; the list is ascending again if and only if the timer does not expire before its predecessor; NULL is ignored |
| `SortedTimerList.EarlierExpiry` | network-programming/youshuang/timer/11-2lst_timer.h:73-82 | two timers, the second then made to expire before the first: adjusting it leaves a linked list that is not ascending |
| `SortedTimerList.SortTimerLst.Prolong` | network-programming/youshuang/timer/11-3nonactive_conn.cpp:177-182 | after an expiry has grown, adjusting leaves the same timers in ascending order |
| `SortedTimerList.SortTimerLst.Tick` | network-programming/youshuang/timer/11-2lst_timer.h:133-158 | fires exactly the expired timers in order of expiry; the nodes behind them stay, linked and in order |
| `SortedTimerList.SortedStays` | network-programming/youshuang/timer/11-2lst_timer.h:79-82 | where nothing is moved, only the predecessor can be out of order |
| `TimerEquivalence.TickDetermined` | network-programming/youshuang/timer/11-2lst_timer.h:133-158 | from the same timers at the same time, the same multiset fires with the same sequence of expiries and the same multiset stays |
| `TimerEquivalence.AgendaMeans` | network-programming/youshuang/timer/11-2lst_timer.h:50-129 | a timer is pending with an expiry if and only if the start, an addition or a prolongation gave it and no deletion, prolongation or due tick came since |
| `TimerEquivalence.FiresIff` | network-programming/youshuang/timer/11-2lst_timer.h:133-158 | in every log, a timer fires at an operation exactly once if that is a tick at or after its expiry and it is pending, else not at all; in order of expiry |
| `TimerEquivalence.LogsAgree` | network-programming/youshuang/timer/11-6time_heap.h:134-153 | over every run of additions, deletions, prolongations and ticks, two containers that serve it run the same callbacks with the same sequences of expiries |
| `TimerEquivalence.HoldsAll` | network-programming/youshuang/timer/11-6time_heap.h:59-62 | timers with distinct identities are the pending timers of their agenda, each once |
| `TimerRuns.ListProlong` | network-programming/youshuang/timer/11-3nonactive_conn.cpp:179-181 | a pending timer gets a later expiry and is adjusted: its expiry alone changes on the agenda, the list still serves it |
| `TimerRuns.ListStep` | network-programming/youshuang/timer/11-2lst_timer.h:50-158 | each operation on the list, prolongation included, does to the pending timers what it should, and the caller's handles stay good |
| `TimerRuns.Disarmed` | network-programming/youshuang/timer/11-6time_heap.h:103-111 | a lazily deleted timer is gone from the pending ones, and no other is |
| `TimerRuns.HeapStep` | network-programming/youshuang/timer/11-6time_heap.h:80-153 | the same for the heap with its lazy deletion |
| `TimerRuns.RunList` | network-programming/youshuang/timer/11-2lst_timer.h:50-158 | every proper sequence of additions, deletions, prolongations and ticks on a new list: each tick runs exactly the pending timers that have expired, each once, in order |
| `TimerRuns.RunHeap` | network-programming/youshuang/timer/11-6time_heap.h:45-153 | the same for a heap built from any array of timers with distinct identities, an empty one included |
| `TimerRuns.RunBoth` | network-programming/youshuang/timer/11-6time_heap.h:45-153 | a heap built from timers and a list to which the same timers were added, on the same operations, run the same callbacks with the same expiries and end with the same pending timers |
| `HttpGrammar.RequestLineIffGrammar` | network-programming/youshuang/8-3httpparser.cpp:77-119 | a request line is accepted if and only if it is GET, blanks, a URL, blanks, HTTP/1.1, each keyword in its spellings up to case, and the URL is a path or http://, a host without slash and a path |
| `HttpGrammar.UrlOkIff` | network-programming/youshuang/8-3httpparser.cpp:105-112 | the URL test accepts exactly a first slash without the scheme, or scheme, host and path |
| `HttpVerdict.ScanStops` | network-programming/youshuang/8-3httpparser.cpp:44-73 | the line scan stops at the first CR or LF, and the next byte decides |
| `HttpVerdict.ScanExtends` | network-programming/youshuang/8-3httpparser.cpp:44-73 | a scan that ended open goes on where it stopped; any other result is final |
| `HttpVerdict.Resume` | network-programming/youshuang/8-3httpparser.cpp:140-182 | stopping for want of data and going on is the same as having had the data at once; a verdict is final |
| `HttpVerdict.ChunkingIrrelevant` | network-programming/youshuang/8-3httpparser.cpp:221-247 | for every way of cutting the input, the verdict is that of one call on the whole |
| `HttpVerdict.GetIffGrammar` | network-programming/youshuang/8-3httpparser.cpp:140-182 | a request is correct if and only if it is a good request line, header lines and a line that is empty as a C string, each ended by CR LF |
| `HttpVerdict.NulHidesRest` | network-programming/youshuang/8-3httpparser.cpp:77-119 | for every good request line: with a NUL and any bytes behind it it is accepted, although the whole is not a request line |
| `HttpVerdict.NulDeviates` | network-programming/youshuang/8-3httpparser.cpp:122-137 | so such a line followed by any line that starts with NUL is a correct request, and not one in the sense of the grammar without NUL |
| `HttpVerdict.NulExample` | network-programming/youshuang/8-3httpparser.cpp:140-182 | `GET / HTTP/1.1`, NUL and a byte, closed by a line with NUL and a byte, is such an input |
| `HttpVerdict.GetIffPlainGrammar` | network-programming/youshuang/8-3httpparser.cpp:140-182 | without NUL bytes: if and only if it is a good request line, header lines that are not empty, and an empty line |
| `HttpVerdict.NoIffUnfinished` | network-programming/youshuang/8-3httpparser.cpp:140-182 | more data is wanted if and only if the input is good lines without a closing one and then a line that is still open |
| `HttpVerdict.BadIff` | network-programming/youshuang/8-3httpparser.cpp:140-182 | refused if and only if the first complete line is no request line, or before the request is complete a line ends in something other than CR LF; there is no fourth verdict |
| `HttpParser.TextCut` | network-programming/youshuang/8-3httpparser.cpp:83-83 | a NUL written into a C string leaves its front |
| `HttpParser.TextShift` | network-programming/youshuang/8-3httpparser.cpp:93-99 | a pointer moved along a C string sees the rest |
| `HttpParser.Parser.ParseLine` | network-programming/youshuang/8-3httpparser.cpp:38-74 | the scan of the received bytes, terminators overwritten; the lone-LF branch for a CR behind the scan position is never taken |
| `HttpParser.Parser.CutWord` | network-programming/youshuang/8-3httpparser.cpp:78-83 | the word and the rest of the line, separated in place |
| `HttpParser.Parser.ParseRequestLine` | network-programming/youshuang/8-3httpparser.cpp:77-119 | accepts exactly the request lines of the grammar, writing only inside the line |
| `HttpParser.CheckUrl` | network-programming/youshuang/8-3httpparser.cpp:105-112 | accepts exactly the URLs of the grammar |
| `HttpParser.Parser.ParseHeaders` | network-programming/youshuang/8-3httpparser.cpp:122-137 | ends the request exactly at a line that is empty as a C string |
| `HttpParser.Parser.JudgeLine` | network-programming/youshuang/8-3httpparser.cpp:152-174 | the main state machine's decision on a line |
| `HttpParser.Parser.ParseContent` | network-programming/youshuang/8-3httpparser.cpp:140-182 | result and reference arguments are those of the parse function; start_line <= checked_index <= read_index |
| `HttpParser.Parser.Receive` | network-programming/youshuang/8-3httpparser.cpp:232-234 | a read and its parse continue the parse of everything received |
| `HttpParser.Serve` | network-programming/youshuang/8-3httpparser.cpp:221-247 | the read loop gives the verdict on all bytes, for every sequence of reads that fits the buffer |
| `SpinPool.AddLinks` | system-programming/threadpool/spinlock-version/threadpool.c:75-84 | the locked part of an addition appends to the chain, through `head` or the last `next` cell |
| `SpinPool.PopLinks` | system-programming/threadpool/spinlock-version/threadpool.c:86-101 | the locked part of a removal takes the first task of the chain |
| `SpinPool.InvKept` | system-programming/threadpool/spinlock-version/threadpool.c:67-149 | every step of every thread keeps queue, mutex and shutdown invariants |
| `SpinPool.FifoAlways` | system-programming/threadpool/spinlock-version/threadpool.c:75-101 | in every run, tasks taken followed by the linked chain are the tasks added; `tail` designates the head cell exactly when the queue is empty, and the head task always has its cell |
| `SpinRuns.Recorded` | system-programming/threadpool/spinlock-version/threadpool.c:75-101 | in every run, the tasks recorded as added are those of the additions made, those recorded as popped are those whose handlers were started, each in order |
| `SpinRuns.TasksInOrder` | system-programming/threadpool/spinlock-version/threadpool.c:75-149 | handlers are started for the posted tasks in the order of posting, each once and none skipped; the others are linked in the queue |
| `SpinRuns.NextTask` | system-programming/threadpool/spinlock-version/threadpool.c:86-149 | a worker that looks for a task starts the first posted task that was not started yet, and goes on to the mutex only when there is none |
| `SpinRuns.SleepsOnlyWithoutTask` | system-programming/threadpool/spinlock-version/threadpool.c:104-118 | a worker takes the way to sleep only where every posted task has been started |
| `SpinRuns.PostCanLink` | system-programming/threadpool/spinlock-version/threadpool.c:216-228 | a post that has passed its check of `quit` can link its task in every state |
| `SpinRuns.PostLinks` | system-programming/threadpool/spinlock-version/threadpool.c:216-228 | and it does not get further without its task being linked |
| `SpinRuns.QuitIff` | system-programming/threadpool/spinlock-version/threadpool.c:189-193 | `quit` is set if and only if a terminate has set it |
| `SpinRuns.PostRefusedIff` | system-programming/threadpool/spinlock-version/threadpool.c:216-220 | a post is refused if and only if a terminate came before |
| `SpinRuns.NoEarlyExit` | system-programming/threadpool/spinlock-version/threadpool.c:104-149 | no worker exits before a terminate |
| `SpinPool.ShutdownStep` | system-programming/threadpool/spinlock-version/threadpool.c:104-149 | after the broadcast a worker's own steps use up a rank and its handlers a credit, and others' steps change neither |
| `SpinPool.Shutdown` | system-programming/threadpool/spinlock-version/threadpool.c:132-193 | in every continuation after the broadcast: no worker waits, at most six more own steps, at most one more handler, then it has exited |
| `SpinPool.Progress` | system-programming/threadpool/spinlock-version/threadpool.c:104-118 | a worker that is neither asleep nor gone can step, or waits for a mutex whose holder can |
| `WorkQueue.InvKept` | c-plus-plus-server/webserver/threadpool/threadpool.h:73-126 | list size = semaphore + threads between wait and pop + threads between push and post |
| `WorkQueue.QueueAlways` | c-plus-plus-server/webserver/threadpool/threadpool.h:73-126 | in every run: the limit holds, first in first out, no worker meets an empty queue, no request is left with everybody asleep |
| `WorkQueue.QueueHistory` | c-plus-plus-server/webserver/threadpool/threadpool.h:73-126 | in every run, the queue holds the requests accepted so far without as many first ones as were popped |
| `WorkQueue.AppendOutcome` | c-plus-plus-server/webserver/threadpool/threadpool.h:73-100 | a request is accepted and queued last if and only if fewer than the maximum are accepted and not popped |
| `WorkQueue.PopOutcome` | c-plus-plus-server/webserver/threadpool/threadpool.h:113-126 | a worker gets the first accepted request that was not popped, and goes back to wait if that is NULL |
| `ConnPool.InvKept` | c-plus-plus-server/webserver/CGImysql/sql_connection_pool.cpp:59-95 | the same balance for connections, unique ownership, and the counters |
| `ConnPool.TakeNeverBlocks` | c-plus-plus-server/webserver/CGImysql/sql_connection_pool.cpp:67-71 | the pop behind the wait never meets an empty list |
| `ConnPool.PoolAlways` | c-plus-plus-server/webserver/CGImysql/sql_connection_pool.cpp:59-95 | in every run each connection is free or held by one thread, free + in use = max, and with nobody inside the semaphore is the number of free ones |
| `ConnPool.PoolHistory` | c-plus-plus-server/webserver/CGImysql/sql_connection_pool.cpp:59-95 | in every run, the list is the connections of the start and those given back, without as many first ones as were taken |
| `ConnPool.TestOutcome` | c-plus-plus-server/webserver/CGImysql/sql_connection_pool.cpp:63-65 | NULL is returned if and only if as many were taken as were there and given back |
| `ConnPool.TakeOutcome` | c-plus-plus-server/webserver/CGImysql/sql_connection_pool.cpp:67-77 | the taker holds the first of the line that was not taken |
| `ConnPool.GiveOutcome` | c-plus-plus-server/webserver/CGImysql/sql_connection_pool.cpp:81-95 | a connection given back is held by nobody and is in the list |
| `UrlCodec.DecodeInvertsEncode` | network-programming/http/epollhttpd/epoll.c:287-316 | decoding undoes encoding, for every byte string |
| `UrlCodec.EncodeByteIs` | network-programming/http/epollhttpd/epoll.c:291-299 | letters, digits and `/_.-~` stand for themselves, any other byte becomes `%` and two digits |
| `UrlCodec.DecodePieces` | network-programming/http/epollhttpd/epoll.c:304-316 | a text of escapes and plain bytes decodes to what these stand for, in order |
| `UrlCodec.TextPieces` | network-programming/http/epollhttpd/epoll.c:304-316 | every byte string is such a text |
| `UrlCodec.TakenIs` | network-programming/http/epollhttpd/epoll.c:290-290 | a byte is taken if and only if what is encoded before it leaves more than four places, as is everything before it |
| `UrlCodec.TakenAllIff` | network-programming/http/epollhttpd/epoll.c:290-290 | the whole string is taken if and only if the last byte still finds more than four free places |
| `UrlCodec.RoundTripWhole` | network-programming/http/epollhttpd/epoll.c:287-316 | a string of length n survives whole when 3n + 1 < tosize |
| `UrlCodec.PutEncoded` | network-programming/http/epollhttpd/epoll.c:291-299 | one byte encoded behind what is there |
| `UrlCodec.EncodeStr` | network-programming/http/epollhttpd/epoll.c:287-302 | writes only inside tosize, and what it writes decodes to a prefix of the input |
| `UrlCodec.DecodeStr` | network-programming/http/epollhttpd/epoll.c:304-316 | computes the decoded string, also in place |
| `Bytes.HexValue` | network-programming/http/epollhttpd/epoll.c:269-278 | the place of a digit of either case among `0` to `9` and `a` to `f`, 0 for any other byte |
| `LineReader.NextByte` | network-programming/http/epollhttpd/epoll.c:205-220 | one byte of the normalised stream |
| `LineReader.GetLine` | network-programming/http/epollhttpd/epoll.c:200-224 | exactly the first line of the normalised stream and nothing of the rest; no CR in it, an LF only at its end; it stops only at the buffer's end, at an LF or when nothing is left |
| `LineReader.ReadAll` | network-programming/http/epollhttpd/epoll.c:200-224 | lines until one is empty are the whole stream with CRLF and lone CR as LF, for every buffer size from 2 |
| `LineReader.NormalizedHasNoCR` | network-programming/http/epollhttpd/epoll.c:207-215 | no CR is left |
| `LineReader.NormalizeUnits` | network-programming/http/epollhttpd/epoll.c:205-220 | a stream of CR LF, lone CR and other bytes reads as LF, LF and these bytes |
| `LineReader.StreamUnits` | network-programming/http/epollhttpd/epoll.c:205-220 | every byte string is such a stream |
| `LineReader.FirstLineFull` | network-programming/http/epollhttpd/epoll.c:204-204 | a line stops only at the limit, at an LF or at the end of the stream |
| `LineReader.ReadLine` | network-programming/http/epollhttpd/epoll.c:200-224 | the loop reads the first line of the normalised stream and leaves the rest unread |

## Left out

- SdsBuffer.Sds.MakeRoomFor: wrap-around of `size_t` sums is excluded by a bound on the requested size; failed allocation is not modelled.
- SdsPrint.CatFmt: arguments that do not match the format, undefined in C, are excluded.
- SdsSplit.SplitLen: token counts beyond the range of `int` are not modelled.
- TimeHeap.TimeHeap.AddTimer: a heap of capacity 0 is excluded, because doubling leaves it 0 and the source then writes outside the array.
- TimeHeap.TimeHeap.Tick: a heap of capacity 0 is excluded, because the source reads slot 0 first.
- UringRuns.CopyFile: claims nothing about waiting forever; a schedule that ends early leaves the function blocked.
- SpinPool.Shutdown: bounds each worker's own steps and shows that some step is possible; fairness of the scheduler is not modelled.
- Prompt wake-up of a sleeping worker after a post: the signal is sent without the mutex, so nothing is claimed about it.
- Destructors, `free` and `delete`: memory is not returned.
- `sdscatvprintf`, `sdscatprintf`: they rest on `vsnprintf`; the bytes that their uses print are written out.
- `sdsIncrLen`, `sdsmapchars`, `sdsjoin`, `sdstolower`, `sdstoupper`, `sdsdup`: single loops or calls that no modelled function uses.
- `sdsupdatelen` and `sdscmp`: the first discards what it builds and the second compares over the larger length.
- `DestroyPool`, which does not reset the semaphore, and all MySQL calls.
- The effects of callbacks and handlers on the containers that run them.
- `c-plus-plus-server/webserver/timer/lst_timer.cpp`, the other thread pools, `block_queue.h`: variants of what is modelled.
- Socket, epoll, select, fork, mmap, signal and pipe programs: plumbing without an algorithm.
- The small linked lists, the dictionary and the language samples.
