# gsh verification

A Dafny model of the fixed-capacity data structures and byte-level state machines
at the heart of `gsh`, with proofs of what they promise their users. Each core is
written twice. A *specification* (datatypes, functions, lemmas) says what the core
means: a map, a sorted permutation, a grammar, a log, a fold of merges. An
*imperative* class or method has the source's own arrays, cursors, loops, limits and
error branches, and its `ensures` ties every result and every new state to the
specification. The main results are lemmas about the specification, for every input,
every run or every reachable state.

| core | modules |
|---|---|
| listings: comparators, in-memory sort, two-spool merge sort, catalogue | `Ordering`, `StableSort`, `ListingOrder`, `Catalog` |
| command cache: packed arena, probe table, PATH search, validator | `Pigeonhole`, `CacheIndex`, `CacheLayout`, `PathSearch`, `CommandCache` |
| `test`: two-stack evaluator against a grammar | `TestEvaluator` |
| managed cells: scheduler and terminal capture | `Waiting`, `Scheduler`, `CommandLedger`, `Capture`, `CaptureText` |
| background jobs and pipeline status | `Waiting`, `Pipeline`, `JobEntry`, `JobTable`, `JobHistory`, `JobKept` |
| AI journal: frames, rotation, writer queue, context | `LittleEndian`, `Journal`, `JournalIntegrity`, `JournalQueue` |
| history: ring, text format, load, merge and save | `HistoryStore`, `HistoryFormat`, `HistoryFile`, `HistorySave` |
| JSON: string codec, bracket scanner, key lookup | `JsonString`, `JsonCodec`, `JsonScan`, `JsonLookup`, `JsonKeys` |
| shell lexer | `WordGrammar`, `WordTrees`, `DollarQuotes`, `Tokens`, `Lexer` |
| alias expansion | `AliasBlank`, `AliasFrames`, `AliasRun`, `AliasOrder`, `AliasExpansion` |

`Bytes` holds the shared vocabulary: a byte is a number below 256, and a C string is
the bytes before its NUL. Sizes are unbounded naturals; the source's widths appear
where it computes with them (32-bit hashes, checksums and job ids, 16-bit name
lengths, 64-bit event numbers). Assertions about "runs" quantify over every finite
sequence of the operations named in the model, including failing ones.

What stands for the outside world: `access`/`stat` is a predicate on paths, the
locale's `strcoll` is any total preorder, file tests and integer comparisons of
`test` are two functions, the shell parser and the alias store are functions, a
pipe or file takes any number of the bytes offered to it, and clock readings are
parameters. A spool is a sequence of records and a file a sequence of bytes; a crash
or a write error stops an append after any number of bytes.

Where the code differs from what one would expect of it:

- `test` with 129 or 130 operands can still be answered: the limit of 128 bounds
  where the last turn of the loop starts, not where it ends
  (`TestEvaluator.EvaluatorIsGrammar` has the exact condition,
  `TestEvaluator.AnswersBeyondLimit` an input).
- A substitution that overflows the lexer's context stack does not stop the word.
  The token is returned as valid, and only the next call reports the limit
  (`WordGrammar.OverflowIsNoticedLate`, `Tokens.LateLimit`); the scanner is right
  exactly when the nesting is at most 128 (`WordGrammar.ScanIsGrammar`).
- The JSON reader gives its caller no length, so a decoded string is seen whole
  exactly when it holds no NUL (`JsonString.SeenByCaller`), and it refuses escaped
  surrogates without a partner (`JsonString.LoneSurrogateIsRefused`).
- JSON key lookup steps over two bytes behind a string that is spelled like the key but
  has no colon behind it, and so can miss the member (`JsonKeys.EqualValueHidesKey`).
  It finds the member exactly when no such string makes it step over a single quote and
  none has a colon (`JsonKeys.FoundExactlyWhenClear`).
- A job whose last running member ends while others are stopped still counts as running
  (`JobEntry.EndLeavesRunning`); `JobEntry.StoppedExactlyWhen` has the exact condition.
- Inside double quotes `$'` opens a quote, which section 2.2.3 of XCU, POSIX.1-2024, does
  not say: `"$'"` does not end there (`DollarQuotes.ReadingsDiffer`). The readings agree
  wherever the scanner meets no such dollar sign (`DollarQuotes.ReadingsAgree`).

## Model

| member | source | states |
|---|---|---|
| Ordering.NaturalCompare | src/builtin_files.c:392-428 | the byte-walking loop computes the order of the names' keys (digit runs by value, other bytes as they are), then plain byte order |
| Ordering.NaturalOrderIsStrictTotal | src/builtin_files.c:392-428 | the natural order is antisymmetric, transitive and total, and zero for equal names only |
| Ordering.NameOrderIsTotal | src/builtin_files.c:461-486 | the name tie-break is total in natural mode and under any collation that is a total preorder, and zero for equal names only |
| Ordering.RecordOrderIsTotal | src/builtin_files.c:461-486 | every sort mode, reversed or not, is a total preorder; records tie exactly when option and name cannot tell them apart |
| ListingOrder.LexIsFirstDifference | src/builtin_files.c:461-486 | plain byte order is decided by the first differing byte, or by which name ends first |
| ListingOrder.NaturalByValue | src/builtin_files.c:392-428 | natural names that agree up to a number are in the order of its decimal value, whatever its leading zeros and whatever follows |
| ListingOrder.ListingIsOrdered | src/builtin_files.c:430-486 | in the listing that is left, larger files, newer files by the shown time, or earlier entries come first, and the name decides between equals; `reverse` turns all of it round |
| StableSort.StableSortUnique | src/builtin_files.c:488-575 | for a total preorder there is only one stable sort of a sequence, whichever algorithm finds it |
| StableSort.StableSortPermutes | src/builtin_files.c:488-575 | a stable sort is a permutation |
| StableSort.InsertionSortIsStable | src/builtin_files.c:488-504 | the insertion sort is sorted and keeps equal records in order |
| StableSort.MergeIsStable | src/builtin_files.c:506-538 | merging two stably sorted neighbours stably sorts their concatenation |
| StableSort.PassDoublesRuns | src/builtin_files.c:540-567 | a merge pass turns stably sorted runs of one width into runs of twice the width |
| StableSort.BottomUpAgrees | src/builtin_files.c:540-567 | when the width reaches the length the result is the insertion sort's |
| Catalog.FileCatalog.Spill | src/builtin_files.c:357-371 | moving memory to a spool leaves the records of the listing as they were |
| Catalog.FileCatalog.Add | src/builtin_files.c:373-390 | a record is appended to the listing, spilled or not, exactly while there is room |
| Catalog.InsertAt | src/builtin_files.c:488-504 | the shifting loop inserts one record into a sorted prefix in place |
| Catalog.FileCatalog.SortMemory | src/builtin_files.c:488-504 | the in-place sort leaves exactly the insertion sort of the old records |
| Catalog.MergePair | src/builtin_files.c:506-538 | the two-cursor loop appends the stable merge of two neighbouring runs |
| Catalog.FileCatalog.SortSpool | src/builtin_files.c:540-567 | the two-spool bottom-up sort leaves exactly the insertion sort of the old records |
| Catalog.FileCatalog.Sort | src/builtin_files.c:569-575 | whichever sort runs, the listing is the same function of its records |
| Catalog.SpillNeverShows | src/builtin_files.c:488-575 | the listing is the one stable sort of the records, a permutation of them, spilled or not |
| Catalog.FileCatalog.Get | src/builtin_files.c:577-586 | the record at an index wherever it is stored, none outside the range |
| Catalog.FileCatalog.FindName | src/builtin_files.c:700-722 | binary search on a listing sorted by name finds a record of that name exactly when there is one, and its turn limit is never reached |
| Pigeonhole.CoverNeedsSlots | src/command_cache.c:426-478 | covering m entries takes at least m occupied slots |
| Pigeonhole.DistinctFillsFew | src/command_cache.c:193-211 | slots with distinct values up to m are at most m |
| CacheIndex.InsertHashSlot | src/command_cache.c:193-211 | the entry goes into the first empty slot of its probe path, and the call fails only when there is none |
| CacheIndex.RoomToInsert | src/command_cache.c:193-211 | while fewer than 256 entries are indexed the full-table failure is unreachable |
| CacheIndex.InsertKeepsGood | src/command_cache.c:193-211 | filling that slot keeps every entry in exactly one slot reachable without a gap |
| CacheIndex.ReachedAndCountedIsGood | src/command_cache.c:426-478 | slot count plus one successful lookup for each entry force a bijection between slots and entries |
| CacheLayout.FindIsExact | src/command_cache.c:168-191 | linear probing finds a name exactly when it is stored, and at its index |
| CacheLayout.AppendRep | src/command_cache.c:278-300 | a pair behind the arena, its entry and its slot represent the longer list |
| CacheLayout.RemoveRep | src/command_cache.c:226-253 | closed gaps, shifted offsets and a rebuilt index represent the list without that entry |
| CacheLayout.PrefixIsRep | src/command_cache.c:426-478 | contiguous entries, unique names, the right totals and successful lookups are a representation |
| PathSearch.ComponentsPartition | src/command_cache.c:83-121 | splitting PATH at colons loses nothing, and no component holds a colon |
| PathSearch.FirstIsFirst | src/command_cache.c:73-122 | the answer is the candidate of the first usable component, none exactly when no component is usable |
| PathSearch.SearchIsFirstOpened | src/command_cache.c:43-122 | a name without a slash is found as `dir/name`, or `./name` for an empty component, of the first component whose path of that form is shorter than 4096 bytes and executable, and not found exactly when no component has one; a name with a slash is that file itself |
| PathSearch.SearchExternal | src/command_cache.c:73-122 | the scanning loop computes that answer on every input, so its component-count exit is never taken |
| CommandCache.WithoutDeletesKey | src/command_cache.c:226-253 | removing an entry deletes its key from the map and nothing else |
| CommandCache.StoreAddsKey | src/command_cache.c:255-301 | a pair stored under a new name sets its key in the map and nothing else |
| CommandCache.Cache.Index | src/command_cache.c:168-191 | the probing loop computes the lookup, on raw fields of any value |
| CommandCache.Cache.RebuildHash | src/command_cache.c:213-224 | a rebuilt table holds every entry in exactly one reachable slot |
| CommandCache.Cache.RemoveEntry | src/command_cache.c:226-253 | the moved arena and entries, lowered offsets and rebuilt index represent the list without the entry |
| CommandCache.Cache.RememberPath | src/command_cache.c:255-301 | the new state and the result are those of the list, keeping the path a name already has and refusing what does not fit |
| CommandCache.Cache.Lookup | src/command_cache.c:303-324 | the path found is the map's value for the name |
| CommandCache.Cache.RebindGeneration | src/command_cache.c:480-492 | the pairs stay for the parent's generation exactly when they were those of the final one |
| CommandCache.Cache.ResolveName | src/command_cache.c:326-394 | the in-place cache answers and changes as resolution on the list of pairs does |
| CommandCache.ResolveIsSearch | src/command_cache.c:326-394 | with a fixed file system, resolving answers the PATH search; only with `require_remember`, and only for a command that is found, may it answer one of the two storage errors instead |
| CommandCache.CacheIsInvisible | src/command_cache.c:124-486 | over every run of syncs, clears, commands with and without `require_remember`, and rebinds, each command gets that answer |
| CommandCache.UnrequiredAnswers | src/command_cache.c:326-394 | so in every such run each command without `require_remember` gets exactly what a search made then finds |
| CommandCache.RequiredIsRemembered | src/command_cache.c:326-394 | with `require_remember` a command that is answered is remembered, and one that is found but not answered has no room in the list as it is left |
| CommandCache.RoomIsUsed | src/command_cache.c:255-394 | with room for it any command that is found is remembered |
| CommandCache.RememberedIsAnswered | src/command_cache.c:326-394 | a remembered command is answered from memory, whatever PATH is by then, for as long as its file stays executable |
| CommandCache.MemoryLastsAGeneration | src/command_cache.c:124-492 | while the PATH generation stays no operation forgets a remembered command whose file is still executable; when it changes, at most the command resolved then is remembered |
| CommandCache.Cache.SyncGeneration | src/command_cache.c:144-153 | the pairs are dropped exactly when the generation changed |
| CommandCache.Cache.Validate | src/command_cache.c:426-478 | the validator accepts raw fields if and only if they represent some list of pairs |
| TestEvaluator.ParseIsGrammar | src/builtin_pure.c:1088-1140 | an operand list has at most one tree under or / and / not / parentheses / primary, left associative, and it is the one parsed |
| TestEvaluator.EvaluateIsParse | src/builtin_pure.c:1006-1140 | the two-stack machine without a limit computes the value of that tree |
| TestEvaluator.LimitIsExact | src/builtin_pure.c:1101 | the operand limit rejects exactly when the last turn would start behind it |
| TestEvaluator.EvaluatorIsGrammar | src/builtin_pure.c:1006-1140 | the evaluator answers v if and only if the list has a tree of value v and its last turn starts among the first 128 operands |
| TestEvaluator.LimitByLength | src/builtin_pure.c:1088-1140 | up to 128 operands the limit plays no part, beyond 130 the answer is always a failure |
| TestEvaluator.AnswersBeyondLimit | src/builtin_pure.c:1088-1140 | a concrete list of 129 operands that is answered |
| TestEvaluator.PrimaryIsRead | src/builtin_pure.c:1057-1086 | a primary is three operands around a binary operator, else two behind a unary one, else a lone string that is true when not empty; only a bad operand of a binary operator fails |
| TestEvaluator.WordsMeanWhatTheySay | src/builtin_pure.c:1006-1140 | words with negations joined by `-a` and `-o` are true exactly when in one of the `-o` terms every word behind an even number of negations is not empty and every other word is |
| TestEvaluator.Machine.ApplyOperator | src/builtin_pure.c:1014-1036 | the value stack after one operator, or the failure on missing values |
| TestEvaluator.Machine.ReduceOperators | src/builtin_pure.c:1038-1055 | the stacks after reducing to a precedence, within their arrays |
| TestEvaluator.Machine.Expression | src/builtin_pure.c:1088-1140 | the loop over two fixed arrays never overruns them and computes the machine's answer |
| Scheduler.StepKeepsInv | src/async_repl.c:244-573 | every call keeps ids unique, running commands ordered, live processes distinct and one slot for a control command |
| CommandLedger.MovedShows | src/async_repl.c:316-754 | every call other than an acceptance changes the cell of the command it is about, and what the cell shows is what the call told of that command |
| CommandLedger.RunsAreOrdered | src/async_repl.c:244-573 | over every run, in terms of the commands as they were accepted: every id is one command; a cell shows its command's flags and the state its reports imply, done exactly when it was not cancelled and its last reported end is exit status 0 of a started process; a command without a cell is over, its terminal closed and no receipt pending; every blocking command before a dispatched ordinary one is over, and for a barrier every non-AI one, and for a status dependency the newest non-AI one; only dispatched commands have processes, one AI command at a time, at most eight ordinary ones |
| CommandLedger.SelectionIsExact | src/async_repl.c:336-515 | over every run a dispatch selects the oldest command that may start and none exactly when none may: it is queued, no other AI command has a process if it is one, and an ordinary one finds fewer than eight working commands and nothing to wait for among the commands that still hold a slot |
| CommandLedger.AcceptsExactlyWhen | src/async_repl.c:91-124 | over every run an ordinary command finds a slot exactly while fewer than fifteen commands are unsettled, a control command while fewer than sixteen are |
| CommandLedger.EventsFindTheirCommand | src/async_repl.c:316-334 | over every run cancelling reaches the AI command that works, if one does, and a reaped process is found exactly among the commands that hold a slot |
| Scheduler.SettledStays | src/async_repl.c:91-124 | a command keeps its slot, and stays settled, until it has settled, its output is closed and no receipt is pending, and only an acceptance takes the slot then |
| Scheduler.NoDeadlock | src/async_repl.c:357-515 | with nothing live and the state lane free, a queue with a command has a dispatchable one |
| Scheduler.ControlIsNeverRefused | src/async_repl.c:91-124 | a control command finds a slot whenever no other one is unsettled |
| Scheduler.ManagedRepl.OldestReusable | src/async_repl.c:91-124 | a free slot or the settled cell with the smallest id, leaving one slot for control commands |
| Scheduler.ManagedRepl.AcceptCommand | src/async_repl.c:244-299 | acceptance stores the command with its flags under a fresh id in a reset slot, or empties the slot when a text does not fit |
| Scheduler.ManagedRepl.Previous | src/async_repl.c:336-355 | the newest non-AI cell older than an id |
| Scheduler.ManagedRepl.NextCommand | src/async_repl.c:488-515 | the dispatchable cell with the smallest id |
| Scheduler.ManagedRepl.AttachProcess | src/async_repl.c:527-549 | a starting cell gets its process and descriptor; any other cell, and bad process, group, terminal or resource numbers, are refused |
| Scheduler.ManagedRepl.DispatchNext | src/async_repl.c:488-570 | selection, start, and attach or finish are one step of the scheduler |
| Scheduler.ManagedRepl.ReapProcess | src/async_repl.c:718-754 | the exit, stop or continuation of a process changes exactly the cell that owns it |
| Scheduler.ManagedRepl.CancelActive | src/async_repl.c:316-334 | the cancelled AI cell settles while its process may still live |
| Scheduler.ManagedRepl.CloseCell | src/async_repl.c:1123-1152 | closing the open terminal of a cell is one step of the scheduler: that cell loses its descriptor and counts as closed, and no other changes |
| Capture.CapturedStylesAreWhole | src/async_repl.c:764-1046 | for every byte stream: line start, cursor and length stay in order below the capacity, so cursor recovery never acts, and every ESC kept begins a complete style sequence |
| Capture.AppendKeepsOk | src/async_repl.c:991-1046 | the same from any reachable state, so at any later time and at capacity |
| Capture.AppendChunks | src/async_repl.c:1024-1046 | how the stream is cut into reads does not matter |
| Capture.OverwriteKeepsStyled | src/async_repl.c:780-838 | overwriting part of a row, even across old style sequences, leaves whole sequences only |
| Capture.PlainOverwrites | src/async_repl.c:780-797 | plain text overlays the row from the cursor on and keeps the rest |
| Capture.CarriageReturnRewritesRow | src/async_repl.c:780-1022 | text, carriage return, text keeps earlier rows and overlays the second text on the first |
| Capture.ScalarIsAtomic | src/async_repl.c:909-989 | a well-formed UTF-8 scalar is written whole, and an encoded C1 control not at all |
| Capture.ClosedKeepsOk | src/async_repl.c:1123-1133 | closing replaces an unfinished scalar and keeps every style whole |
| CaptureText.PieceIsShown | src/async_repl.c:780-1022 | between two pieces of a stream, each kind that fits is shown as said: visible bytes, scalars, tabs as blanks and styles over the row at the cursor, newlines behind the text, carriage returns to the row's start, and other control sequences, titles, device strings, two-byte escapes and control bytes not at all |
| CaptureText.TextIsCaptured | src/async_repl.c:780-1060 | a stream without carriage returns that fits is captured as what stays of its pieces, untruncated, the cursor at its end and its row behind the last newline; so a text of visible bytes, scalars, styles and newlines is captured as it is |
| CaptureText.TruncatedExactly | src/async_repl.c:780-1060 | without carriage returns output counts as lost exactly when what stays of the stream does not fit 65535 bytes |
| CaptureText.BrokenScalarIsReplaced | src/async_repl.c:930-985 | a scalar broken off by another byte shows one replacement character, and that byte is taken by itself |
| CaptureText.ClosedIsReplaced | src/async_repl.c:1123-1133 | a scalar unfinished when the output is closed shows one replacement character, and between pieces closing shows nothing |
| Capture.OutputCell.AppendBytes | src/async_repl.c:1024-1046 | the cell's buffer and automaton state follow the specification byte by byte; a read longer than the buffer is refused whole, and the result tells whether output was lost |
| Capture.OutputCell.WriteVisible | src/async_repl.c:780-797 | one text written at the cursor of the fixed buffer |
| Capture.OutputCell.ConsumeEscape | src/async_repl.c:854-907 | the escape automaton's state and its output |
| Pipeline.RecordTracks | src/background_jobs.c:36-57 | one more report, in any order, keeps the accumulator in step with the reports so far |
| Pipeline.ResultIsFinal | src/background_jobs.c:59-70 | a result exists exactly when the last command has reported, and it is the status of section 2.9.2 of XCU for the reports so far |
| Pipeline.AnyArrivalOrder | src/background_jobs.c:27-70 | for every arrival order of the exits the result is the rightmost non-zero status under pipefail, else the last command's |
| JobEntry.ReportKeepsTracking | src/background_jobs.c:320-374 | every report keeps the count of unfinished members, the job state and the pipeline status in step with the exits |
| JobEntry.EveryJobRun | src/background_jobs.c:308-374 | over every run: `remaining` counts the unfinished members, the job is done exactly when all have ended, stopped means no member runs, and a done job has the pipeline's status, so the 125 fallback is never it |
| JobEntry.MembersFollowEvents | src/background_jobs.c:320-374 | over every run a member has ended once it was reported so, and is else halted or active by the last stop or continuation of it or of the whole job |
| JobEntry.StoppedExactlyWhen | src/background_jobs.c:308-374 | over every run a job counts as stopped exactly when members are left and some stop left none of them running, with nothing continued since |
| JobEntry.EndLeavesRunning | src/background_jobs.c:308-374 | a concrete job with no running member that does not count as stopped |
| JobTable.FreeIdExists | src/background_jobs.c:138-156 | among 129 consecutive wrapping ids one is free, because at most 128 are in use |
| JobTable.AddIffCapacity | src/background_jobs.c:187-298 | with valid arguments and fresh members, adding succeeds exactly when the table has capacity |
| JobTable.StepKeepsInv | src/background_jobs.c:187-448 | every operation keeps ids, members and sequence numbers of known jobs apart and each job's state in step with its members |
| JobTable.RunKeepsInv | src/background_jobs.c:187-448 | so does every run from the empty table |
| JobTable.RefreshIsNewest | src/background_jobs.c:158-185 | current and previous become the two newest known jobs |
| JobHistory.StepIsTraced | src/background_jobs.c:232-448 | every operation keeps each known job in step with the exits reported for its own members, under the options it was added with |
| JobHistory.ConsumedStatusIsReported | src/background_jobs.c:422-448 | over every run the status a job is consumed with is the pipeline status of exactly the exits reported for it, all of which have been |
| JobKept.SlotIsKept | src/background_jobs.c:82-90 | a known job changes by reports about its own members and by calls that name it, and by nothing else, until it is removed, its status is consumed, all are consumed when every job is done, or an addition finds it done and notified |
| JobKept.ReportedJobIsAnswered | src/background_jobs.c:82-448 | over every run a job stays on the table from its addition on while it is left alone, and once all its members have been reported, consuming its status pid answers its pipeline status |
| JobKept.DismissedIsGone | src/background_jobs.c:422-448 | a job that is removed, or whose status has been answered, is no longer on the table, so its status is answered once |
| JobKept.RunKeepsCurrent | src/background_jobs.c:158-185 | over every run the current job is a known one, and there is none exactly when no job is known |
| JobKept.TouchedIsCurrent | src/background_jobs.c:232-374 | a job that is added, stopped or continued, or whose last running member is reported stopped, becomes the current one, and the former current one the previous one |
| JobTable.BackgroundTable.NextJobId | src/background_jobs.c:138-156 | the first free candidate and the advanced counter |
| JobTable.BackgroundTable.AvailableSlot | src/background_jobs.c:187-211 | a reclaimed slot first, else a new one |
| JobTable.BackgroundTable.AddBackgroundJob | src/background_jobs.c:232-298 | the table after an addition, and which refusal is reported, an overlong command text included |
| JobTable.BackgroundTable.UpdateMemberState | src/background_jobs.c:320-374 | the table after a report about one process |
| JobTable.BackgroundTable.ConsumeStatus | src/background_jobs.c:422-448 | a done job's status is reported once and the job forgotten |
| JobTable.BackgroundTable.RefreshCurrent | src/background_jobs.c:158-185 | the in-place scan sets both ids as specified |
| LittleEndian.DecodeEncode | src/llm_journal.c:60-98 | decoding an encoded number gives it back if it fits the width |
| LittleEndian.EncodeDecode | src/llm_journal.c:60-98 | and the other way round, so both are bijections |
| LittleEndian.EncodeAt | src/llm_journal.c:60-76 | byte `i` of a number is the low byte of the value shifted down by `i` bytes |
| LittleEndian.Write | src/llm_journal.c:60-76 | the shifting loop writes exactly those bytes and no others |
| LittleEndian.Read | src/llm_journal.c:78-98 | the or-ing loop reads exactly that number |
| Journal.HeaderRoundTrip | src/llm_journal.c:167-193 | an encoded header decodes to its kind, length, sequence and checksum |
| Journal.ParseFrame | src/llm_journal.c:247-262 | a whole frame reads back as its record, whatever follows |
| Journal.ParseTorn | src/llm_journal.c:247-262 | every non-empty proper prefix of a frame is rejected |
| Journal.ReadsEveryRecord | src/llm_journal.c:247-262 | complete frames and a torn tail read as exactly the records of the frames |
| Journal.RotationIsExact | src/llm_journal.c:271-295 | a sound file is rotated exactly when it is torn or the next record would pass a limit |
| Journal.AppendKeepsSound | src/llm_journal.c:316-349 | whatever byte a crash stops at, the active file stays complete frames and at most one torn tail within the limits, and nothing is ever written behind a torn tail |
| Journal.RunIsSound | src/llm_journal.c:264-349 | so it is after every run of appends, each possibly cut short, within 4 MiB, 8192 records and 1024 prompts |
| Journal.CompletedAppendIsRead | src/llm_journal.c:247-349 | after each completed append a scan returns every active record, the new one last |
| Journal.JournalFile.Rotates | src/llm_journal.c:271-295 | the scanning loop decides rotation as specified |
| Journal.JournalFile.HeaderBytes | src/llm_journal.c:167-180 | the 32 header bytes written into a zeroed buffer |
| Journal.JournalFile.AppendRecord | src/llm_journal.c:316-349 | rotation, header and text leave the specified pair of files after any number of written bytes; a bad kind or an overlong text is refused and changes nothing; success is a whole frame |
| Journal.RenderedFits | src/llm_journal.c:449-471 | a context that fits its buffer is every labelled line, whole and in order |
| Journal.LabeledIsCut | src/llm_journal.c:449-471 | a line that does not fit is left out if its label has no room, else cut so that with its newline the text ends one byte below the capacity |
| Journal.JournalFile.Context | src/llm_journal.c:473-515 | the ring of ten slots yields exactly the last exchanges of the journal, oldest first, each cut to its slot, as labelled lines cut at the caller's capacity |
| JournalIntegrity.AlteredTextIsRejected | src/llm_journal.c:47-58 | a frame in whose text any one byte has changed is rejected, because a step of the hash loses neither the hash nor the byte |
| JournalIntegrity.HeaderBytesAre | src/llm_journal.c:167-180 | the header byte by byte: magic, version, kind, two zeros, and the four numbers from their low ends up |
| JournalIntegrity.LabelsAreNames | src/llm_journal.c:440-471 | the names of the five kinds of record |
| JournalIntegrity.ExchangesAreExact | src/llm_journal.c:473-515 | the exchanges are exactly the prompts and answers of the journal, in order, each cut to 8191 bytes |
| JournalIntegrity.JournalsRememberLatest | src/llm_journal.c:264-349 | over every run of appends, each possibly cut short, the previous journal and then the active one hold exactly the completed appends since the last but one rotation, in order |
| JournalQueue.ReceiveFrame | src/llm_journal.c:413-438 | a queued frame at the front of the stream is received as its request |
| JournalQueue.WorkerReceivesAll | src/llm_journal.c:413-438 | the writer receives exactly the requests, in order, each under its own HOME |
| JournalQueue.WrittenIsReceived | src/llm_journal.c:358-438 | at any time the writer has read back exactly the accepted requests whose frames have been written whole |
| JournalQueue.FlushedMeansReceived | src/llm_journal.c:358-438 | once everything is flushed, in whatever pieces, it has read back all accepted requests |
| JournalQueue.Queue.Enqueue | src/llm_journal.c:358-392 | a frame enters whole, exactly when it is acceptable and fits behind the unsent bytes, else nothing changes |
| JournalQueue.Queue.Flush | src/llm_journal.c:394-411 | the bytes taken are the oldest ones, and the rest stay in order |
| HistoryStore.RunKeepsLast | src/history_store.c:48-82 | after every run of additions the ring holds the last 1024 accepted commands and the counter counts all of them |
| HistoryStore.EventsNeverMove | src/history_store.c:146-188 | event e is the e-th accepted command while it is among the last 1024, and nothing otherwise |
| HistoryStore.LastOfExtend | src/history_store.c:59-66 | forgetting old entries never changes whether a command counts as a repetition |
| HistoryStore.RingAfterAdd | src/history_store.c:39-82 | writing behind the newest entry, or over the oldest, appends to what the ring holds |
| HistoryStore.Store.AddCommand | src/history_store.c:48-82 | the outcome and the contents after an addition: refused, repeated, or appended with the oldest dropped |
| HistoryStore.Store.FromNewest | src/history_store.c:84-99 | the entry at a distance from the newest, none beyond the oldest |
| HistoryStore.Store.SearchReverse | src/history_store.c:120-144 | the nearest entry from a position on that contains the query, and none exactly when there is none |
| HistoryStore.Store.Event | src/history_store.c:166-188 | the entry an event number names |
| HistoryStore.Store.FindPrefix | src/history_store.c:190-222 | the newest event up to a bound that starts with the prefix, and none exactly when there is none |
| HistoryFormat.UnescapeEscape | src/history_file.c:216-368 | unescaping an escaped command gives it back, whatever newlines, carriage returns and backslashes it holds |
| HistoryFormat.LineRoundTrip | src/history_file.c:190-368 | a written line has no newline, fits the line buffer and is accepted as its command |
| HistoryFormat.PlainLineIsCommand | src/history_file.c:250-270 | a line without a header is its command as it is, with or without a carriage return behind it |
| HistoryFormat.HeaderedLineIsCommand | src/history_file.c:190-270 | any time and duration make a header, and what follows is the escaped command |
| HistoryFormat.NothingToUnescape | src/history_file.c:216-248 | backslashes in front of anything but `n`, `r` and a backslash stand for themselves |
| HistoryFormat.ExtendedPayload | src/history_file.c:190-214 | where the command starts on a line with a header, none on a plain line |
| HistoryFormat.DecodeEntry | src/history_file.c:216-248 | the unescaped command, refused exactly when it does not fit an entry |
| HistoryFormat.WriteEntry | src/history_file.c:339-368 | the line of a command; the buffer is never too small |
| HistoryFile.LoadWritten | src/history_file.c:272-394 | loading a written file adds its entries one by one, in order |
| HistoryFile.OversizedFileLosesFirstLine | src/history_file.c:121-310 | of a file too long to be read whole, the line that is cut, or begins at the cut, is not read, and every later one is |
| HistoryFile.RunsCollapse | src/history_file.c:426-446 | with the duplicate rule exactly one command of each run of equal ones is kept, in order |
| HistoryFile.NothingCollapses | src/history_file.c:426-446 | without it every command is kept |
| HistoryFile.WrittenFileLoads | src/history_file.c:272-394 | a written file is below the size that is cut off and loads as exactly its entries |
| HistoryFile.ExtendAllLast | src/history_file.c:426-446 | a capacity never changes which recent entries a merge leaves |
| HistoryFile.SaveThenLoad | src/history_file.c:466-485 | reloading gives the last `max_entries` of the file's entries followed by the session's, repetitions dropped if asked |
| HistoryFile.SavesFoldMerges | src/history_file.c:466-485 | any sequence of locked saves equals folding the merges in lock order, for any old file |
| HistoryFile.SavesAreAdditive | src/history_file.c:466-485 | with one limit and one duplicate rule, several shells leave what one shell with all their commands would have left |
| HistorySave.Reader.NextByte | src/history_file.c:147-188 | the bytes come in order however the reads are cut |
| HistorySave.AcceptLine | src/history_file.c:250-270 | the store after a line, given the bounded buffer and the overflow flag |
| HistorySave.LoadHistory | src/history_file.c:272-316 | the store after the file; the byte limit on the loop is never what ends it |
| HistorySave.MergeSession | src/history_file.c:426-446 | the session's events are added in order, and the session is unchanged |
| HistorySave.WriteStore | src/history_file.c:370-394 | the file text of the newest entries |
| HistorySave.SharedFile.SaveSession | src/history_file.c:466-485 | load, merge and replacement under the lock leave the specified file, or the old one when the rename is not reached |
| JsonString.Utf8IsDecodable | src/llm_json.c:117-142 | the scalar can be read back from the front of its bytes, so encodings are distinct and prefix-free |
| JsonString.ReadPrinted | src/llm_json.c:144-253 | every legal string reads as what it means exactly when that fits, whatever follows |
| JsonString.ReadOnlyLegal | src/llm_json.c:144-253 | whatever is accepted is a legal string with that meaning |
| JsonString.LoneSurrogateIsRefused | src/llm_json.c:144-161 | an escaped surrogate without its partner, which section 7 of RFC 8259 allows, is refused |
| JsonString.ReadIsGrammar | src/llm_json.c:229-253 | up to the capacity the reader decides the strings of section 7 of RFC 8259 with paired surrogate escapes only, over bytes: any byte from 0x20 on but quote and backslash stands for itself |
| JsonString.EncodingSpells | src/llm_json.c:54-89 | the writer writes each byte string as a legal string that means it |
| JsonString.WrittenReadsBack | src/llm_json.c:54-253 | decoding an encoded byte string returns the same bytes exactly when they fit, whatever follows |
| JsonString.SeenByCaller | src/llm_json.c:229-253 | the caller's C string is the whole value exactly when it holds no NUL |
| JsonCodec.Writer.WriteBytes | src/llm_json.c:35-47 | all bytes or none, and a failed writer stays failed |
| JsonCodec.Writer.WriteString | src/llm_json.c:71-89 | succeeds exactly when the encoded string and a NUL fit, appends exactly it, and never disturbs what was there |
| JsonCodec.DecodeHexQuad | src/llm_json.c:99-115 | the value of four hexadecimal digits, none for anything else |
| JsonCodec.DecodeUnicode | src/llm_json.c:144-161 | a scalar or a surrogate pair, lone surrogates refused |
| JsonCodec.DecodeEscape | src/llm_json.c:163-184 | the byte or scalar an escape stands for, none for an unknown one |
| JsonCodec.DecodeString | src/llm_json.c:238-253 | from the opening quote on, the buffer holds the meaning and a NUL exactly when the text starts with a string that fits |
| JsonScan.ScanStopsAtMatch | src/llm_json.c:255-285 | from the opening bracket of any balanced text the scanner stops just past the matching one, whatever follows, exactly when it is within 1 MiB |
| JsonScan.ScanStopsAtTree | src/llm_json.c:255-285 | so it does for every printed JSON object or array |
| JsonScan.TreeIsBalanced | src/llm_json.c:255-285 | every printed JSON value is balanced text, whatever its strings hold |
| JsonScan.FindEnd | src/llm_json.c:255-285 | the scanning loop computes that end |
| JsonKeys.ClearIsFound | src/llm_json.c:197-227 | a member is found behind any legal strings and other bytes in which every string spelled like its key lets the search step over no quote, or over an empty string, and has no colon; whatever the blanks around the member's colon and whatever follows |
| JsonKeys.FoundExactlyWhenClear | src/llm_json.c:197-227 | for a non-empty key, strings without escaped quotes, and bytes between strings that hold no backslash and are not spelled like the key, it is found if and only if so |
| JsonKeys.EscapedQuoteComesBack | src/llm_json.c:197-227 | why the converse needs strings without escaped quotes: a concrete text where one brings the search back into step |
| JsonKeys.EqualValueHidesKey | src/llm_json.c:213-224 | a concrete object in which a value equal to the key hides the member |
| JsonKeys.EqualValueIsHarmless | src/llm_json.c:213-224 | the same object with a blank behind the comma, in which the member is found |
| JsonLookup.FindValue | src/llm_json.c:197-227 | the nested loops find the value where the specification does, the step too far included |
| JsonLookup.GetString | src/llm_json.c:229-253 | the string value of a key, decoded into the buffer, or failure |
| JsonLookup.GetObject | src/llm_json.c:287-299 | where the composite value of a key begins and how long it is |
| WordGrammar.ScanFits | src/posix_lexer.c:279-323 | up to 128 levels of nesting the stack scanner goes where the recursive grammar of quotes and substitutions says |
| WordGrammar.ScanOverruns | src/posix_lexer.c:279-323 | beyond that it has recorded the overflow by the time it stops |
| WordGrammar.ScanIsGrammar | src/posix_lexer.c:183-323 | it finds a word without overflow if and only if the grammar finds the same word with at most 128 levels |
| WordGrammar.OverflowIsNoticedLate | src/posix_lexer.c:136-237 | a concrete text whose nesting never ends is scanned as a word, with only the recorded offset to tell |
| WordGrammar.WordsAreMaximal | src/posix_lexer.c:279-323 | no word holds an unquoted separator, and a word ends only at one or at the end |
| WordGrammar.SingleQuotesEndAtNext | src/posix_lexer.c:205-215 | single quotes keep every byte up to the next quote |
| WordTrees.TreeIsScanned | src/posix_lexer.c:183-323 | for every tree of plain bytes, escapes, quotes, substitutions and dollar signs that open nothing, scanning its text leads to its end and nests as deep as the tree |
| WordTrees.ItemsAreTree | src/posix_lexer.c:183-323 | and every stretch the grammar ends is the text of such a tree, as deep as it says |
| WordTrees.WordsAreTrees | src/posix_lexer.c:183-323 | so from any place in any text the grammar ends a word exactly where the text of a tree ends in front of a separator or the end |
| WordTrees.ScannedWordsAreTrees | src/posix_lexer.c:279-323 | and the scanner with its stack finds a word without overflow if and only if the text there is a tree's that nests at most 128 deep |
| DollarQuotes.ReadingsAgree | src/posix_lexer.c:136-238 | a reading in which a dollar sign before a single quote is plain inside double quotes ends everything where the scanner does, as deep, wherever the scanner meets no such dollar sign |
| DollarQuotes.NothingDisputed | src/posix_lexer.c:159-167 | the readings agree on every text without a dollar sign in front of a single quote |
| DollarQuotes.ReadingsDiffer | src/posix_lexer.c:159-167 | a concrete word that is complete under that reading and open under the scanner's |
| Tokens.OperatorsAreLongest | src/posix_lexer.c:122-134 | the operator found is the longest one there, and there is one exactly at the operator bytes |
| Tokens.KindsAreNamed | src/posix_lexer.c:40-134 | exactly the operators of section 2.10 of XCU, POSIX.1-2024, are operators, and a lexer at the text of one of them returns its kind |
| Tokens.SkipIsTrivia | src/posix_lexer.c:339-375 | only blanks, escaped newlines and comments are skipped, and all of them |
| Tokens.TriviaLimitIsUnreachable | src/posix_lexer.c:353-380 | the trivia limit is out of reach for inputs up to 2 MiB |
| Tokens.WordsAreNotEmpty | src/posix_lexer.c:405-416 | the empty-word error is unreachable |
| Tokens.NextIsToken | src/posix_lexer.c:339-418 | a token returned by a lexer that stays usable is what its kind says, with only trivia in front |
| Tokens.LateLimit | src/posix_lexer.c:339-418 | after a token from an overrun scan the next call fails with the limit |
| Tokens.RunCovers | src/posix_lexer.c:339-418 | a run that reaches the end covers the input: tokens disjoint, ordered, nothing but trivia between |
| Tokens.CoverIsRun | src/posix_lexer.c:339-418 | a cover of the input is what the run returns |
| Tokens.LexerIsReference | src/posix_lexer.c:339-418 | for inputs up to 2 MiB the lexer reaches the end with given tokens if and only if they cover it with longest operators, newlines and words that are texts of trees, and trivia between them |
| Tokens.WordStatusIsExact | src/posix_lexer.c:294-434 | where a word begins that nests at most 128 deep, a call returns it, asks for more input if a construct is left open, and refuses a NUL at its place |
| Tokens.FailsExactlyWhenOpen | src/posix_lexer.c:294-434 | in an input up to 2 MiB without NULs, nesting at most 128 deep where the next token begins, a call fails only for want of more input, and exactly when no token begins behind the trivia |
| Lexer.PosixLexer.AdvanceOne | src/posix_lexer.c:66-76 | line and column count exactly the consumed prefix |
| Tokens.LineCountsNewlines | src/posix_lexer.c:66-80 | the line number counts the newlines in front |
| Lexer.PosixLexer.BeginSubstitution | src/posix_lexer.c:136-170 | the longest opening is pushed and consumed, or only the overflow is recorded |
| Lexer.PosixLexer.ScanPlain | src/posix_lexer.c:183-203 | the action on a byte outside quotes |
| Lexer.PosixLexer.ScanQuoted | src/posix_lexer.c:205-238 | the action on a byte inside quotes |
| Lexer.PosixLexer.ScanNested | src/posix_lexer.c:240-277 | the action on a byte inside a substitution |
| Lexer.PosixLexer.ScanWord | src/posix_lexer.c:279-323 | the loop with its 128-entry stack ends where the scanner does, with its status and error offset |
| Lexer.PosixLexer.SkipTrivia | src/posix_lexer.c:353-375 | the counted loop skips what the specification skips |
| Lexer.PosixLexer.NextToken | src/posix_lexer.c:339-418 | the returned status, the token with its line and column, and the whole new state |
| AliasFrames.OneTokenChanges | src/alias_expansion.c:174-228 | a rewrite replaces one token by the value and a blank, and nothing else |
| AliasFrames.ProvenanceAfter | src/alias_expansion.c:193-226 | the ancestors of every byte after a rewrite: the value gains the alias and all the token came from, the blank lies in what was around the token, survivors keep what undropped intervals say |
| AliasFrames.SurvivorsKeepAncestors | src/alias_expansion.c:196-215 | with intervals that nest around the token or lie apart, every surviving byte keeps exactly its ancestors |
| AliasFrames.KeepsExactlyWhen | src/alias_expansion.c:196-215 | in general survivors keep them if and only if no dropped interval is the only one to give a surviving byte an ancestor |
| AliasFrames.FencesStay | src/alias_expansion.c:193-226 | rewriting a name at the edge of a word keeps every interval between a word edge and its inserted blank |
| AliasFrames.FencesNest | src/alias_expansion.c:196-215 | so every name nests in each interval or lies apart from it, and none is ever dropped |
| AliasFrames.NamesNeverForget | src/alias_expansion.c:196-215 | rewriting a name never makes a surviving byte forget an ancestor |
| AliasBlank.BlankAsksUnlessQuoted | src/alias_expansion.c:128-172 | a value asks for the next word exactly when its last segment is a plain blank: not when it is escaped, in single or double quotes, or in a quote left open |
| AliasBlank.EveryValueIsRead | src/alias_expansion.c:128-172 | every value is a sequence of such segments with at most one open end, so this covers all of them |
| AliasRun.ExpansionIsChain | src/alias_expansion.c:230-371 | every expansion is at most 129 rewrites of unreserved names whose alias is not an ancestor of the token, below the capacity, and a parsed result has no alias left to expand |
| AliasOrder.ExpansionIsDirected | src/alias_expansion.c:230-371 | each rewrite is of the word behind the last value if that asked for it (it ended in an unquoted blank, and the last command word of a command's value was not `command`) and the word has an alias, else of the first command word that has one; the result is parsed exactly when fewer than 128 rewrites leave nothing to rewrite, and refused short of that only because the input or the next rewrite does not fit |
| AliasOrder.DirectedIsDetermined | src/alias_expansion.c:230-371 | that order determines the run: of two logs in order one begins with the other, and one that could go on is neither settled nor stuck |
| AliasRun.WordBeginsAtEdge | src/alias_expansion.c:237-253 | a word the lexer returns behind trivia begins at the start or behind a byte no name has |
| AliasRun.ChainNeverInsideItself | src/alias_expansion.c:41-228 | along any chain of rewrites no token is rewritten that holds a byte from the same alias, and the intervals say of every name byte exactly where it came from |
| AliasRun.NoAliasInsideItself | src/alias_expansion.c:284-371 | for every input, no alias is expanded inside its own expansion, directly or through others |
| AliasRun.WithheldExactlyInside | src/alias_expansion.c:61-87 | and nothing else is held back: in the final text a name with an alias is left alone exactly when it came from that alias |
| AliasExpansion.Expander.Ancestors | src/alias_expansion.c:41-59 | the union over the overlapping intervals |
| AliasExpansion.Expander.CompactFrames | src/alias_expansion.c:193-215 | the read and write cursors leave exactly the adjusted intervals, and collect the token's ancestors |
| AliasExpansion.Expander.RewriteAlias | src/alias_expansion.c:174-228 | the edited buffers are the specified rewrite, or untouched when it is refused |
| AliasExpansion.Expander.LookUp | src/alias_expansion.c:61-87 | the alias of a name that is valid, not reserved, and not its own ancestor |
| AliasExpansion.Expander.ForceFollowing | src/alias_expansion.c:230-270 | the words behind a value that ends in a blank, each lexed afresh |
| AliasExpansion.CheckBlank | src/alias_expansion.c:128-172 | the quote-tracking loop decides whether the last blank is unquoted |
| AliasExpansion.AliasParse | src/alias_expansion.c:284-371 | the loops end as the specified expansion does, parsed or refused at the same offset |

## Left out

- I/O failures other than the ones named above (a failed `open`, `rename`, `fsync` or lock) and the descriptors, modes and paths of files.
- Processes, terminals, signals and descriptors: a process is a number that an oracle reports on.
- `Ordering.RecordOrderIsTotal`: assumes that `strcoll` is a total preorder, because the locale is not part of the repository.
- The layout of directory listings, colours and Git columns: user interface and foreign programs.
- `CommandCache.Cache.Validate`: entry fields are taken within their 16-bit C widths; an entry that points outside the text buffer is treated as a non-match while probing.
- `EPROTO` from a failed validation inside resolution: unreachable, since every reachable cache is valid.
- `CommandCache.CacheIsInvisible`: a rebind must keep the PATH value, which is what its caller promises.
- `test` with up to three operands takes another path (`test_small_expression`), which adds only a finite table.
- `Scheduler`: dispatch is one step of select, start, and attach or finish; the handover of a running AI cell to a following command, the disabled mode and the previous status are not modelled, and stop and continue marks reach live cells only.
- `Scheduler.SettledStays`: does not say that a reused slot's process was reaped, because a cancelled AI cell is terminal while its process lives.
- Rendering, scrolling, resource hit boxes and the full-screen filter of `async_repl.c`.
- `JobTable.StepKeepsInv`: job command texts, job specifications and notices are left out; the current and previous ids may name a job that was reclaimed until the next refresh.
- `JobTable`: a process that ended is not reported again, and the members of one new job are distinct, as the callers ensure.
- `Journal.RunIsSound`: crashes stop a write after any number of bytes; the removal and the rename of a rotation are one step.
- Wrap-around of 64-bit counters other than the history event number, whose limit is modelled.
- History ring entries are byte sequences; the separate length array and the NUL behind each entry are not modelled. Locking is mutual exclusion of whole saves.
- Integers, booleans and the request-specific writers built on the JSON writer: thin wrappers.
- `Scheduler.ManagedRepl.AttachProcess`: the process group and the resource descriptor are checked and not stored.
- `JobTable.BackgroundTable.AddBackgroundJob`: the command text is checked and not stored.
- The journal search: it renders like the context.
- The parser, and the bodies of the alias, variable and function stores: functions with the bounds their callers rely on.
- `AliasExpansion.AliasParse`: the ancestor bit sets are sets of alias numbers below 128.
- `umask`, `ulimit`, `shift`, option tables, the setup wizard, hardware detection and the language-model worker.
