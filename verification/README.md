# Verified models of the D runtime and its example programs

This project models the algorithmic core of the repository in Dafny and proves what it promises.

* **Exception dispatch** (`ExceptionDispatch`, `DispatchLoops`, `DispatchRuns`). One `throw` has two
  implementations: a search phase and an unwind phase on Windows, a single walk on POSIX. Both are written as
  the loops of the source, and one theorem compares them on every stack: they always pick the same catch block,
  and run the same finally blocks exactly when no passed entry is both a catch and a finally. A run of calls,
  `try` regions and any number of throws never uses a region's finally or catch twice.
* **The import graph analyser** (`ImportLexer`, `ImportPieces`, `ImportReader`, `ImportRoundTrip`, `ModuleDiscovery`,
  `Paths`, `Peeling`, `TransitiveClosure`, `ImportCycles`). From file texts to colours: comment filter, tokenizer and
  import extractor as pull machines, the growing worklist, transposition, peeling by degree counters, the
  in-place closure and the marking. `ImportCycles.Analyse` states the whole program: a module is coloured exactly
  when it is reachable and lies on an import cycle, and each once.
* **FileBucket** (`BlockRounding`, `FileBucket.dfy`). Every run of `put`, `get` and `remove` over one flat file is
  tied to a value; it behaves as a map from keys to bytes, because live records keep disjoint slots below the
  waterline, and goes on doing so after a rounding has overflowed until something is put that needs a new slot.
  The block rounding is bit by bit and in 32 bits.
* **The source tokenizer** (`SourceTokens`, `NestedComments`). Maximal munch over abstract rules, and the
  in-place merging of nested comments, lossless and tied to a grammar of nested comments.
* **Lock protocols** (`MonitorProtocol`, `CriticalSections`, `ConditionProtocol`). Step machines for any number
  of threads, with theorems about every state of every interleaving.
* **Arithmetic** (`Sieve`, `ComplexNumbers`). What the bit-packed sieve marks in 32-bit arithmetic for every limit,
  and exactly when that is the odd composites; scaled complex division, absolute value and square root are right
  in every branch.
* **Struct declarations** (`StructLayout`). Exactly when a printed declaration has the layout it was asked for.

`Options`, `Sequences` and `TextLines` hold shared helpers. Imperative code is modelled as methods and classes
whose `ensures` tie them to a function; the theorems are lemmas about these functions.
`dafny verify dfyconfig.toml` checks everything.

Where the code does less than its comments or its reader expect, the model follows the code:

* `runtime/compiler/dmd/deh.c` comments an entry with catches as having no finally; if one had, POSIX would skip
  its finally where Windows runs it (`AlgorithmsAgree`; `MixedEntryIsSkipped` shows a table).
* On POSIX a handler table does not say where its regions end. A throw from behind a region runs its finally again
  when no other region has started since (`LeftRegionIsWalked`; `StartIndexIsInnermost` says exactly when the
  start index is right, as `ThrowOnBoth` takes for granted).
* In `doc/dimple.d` a `*` inside a block comment never leads back to the comment state, so the comment ends at
  the next `/` (`CommentEndsAtTerminator` says for which comments that is harmless, `StarredDivisionLeaks` shows
  one that is cut short).
* The tokenizer of `doc/dimple.d` knows a literal only where a token begins (`TokensOfLiteral`), so an import inside
  a string argument is read as one (`StringArgumentIsRead`).
* `runtime/compiler/dmd/critical.c` publishes `next` before the mutex is initialised. A thread can lock an
  uninitialised mutex (`UninitialisedIffBeingInserted`), and if it still owns it when it is initialised, two
  threads can be inside one section (`EarlyLockBreaksExclusion`) until the one that lost its hold has left
  (`LeavingEndsTheHarm`; `SectionsExclude` says exactly when).
* `finish_struct_ex` in `runtime/compiler/gdc/config/makestruct.h` leaves a union open that ends the struct
  (`EndingUnionIsUnfaithful`), and goes on from the last member of a union rather than its largest
  (`SmallerLastMemberIsUnfaithful`; `FaithfulIffFits` says exactly when all is well).
* The capacity of a FileBucket slot is -2^31 once the rounding overflows an `int` (`LargestIntOverflows`;
  `SlotHoldsData` says exactly when). All is still read back (`OverflowTips`), but the next new slot lies 2^31
  bytes too low, which fails or overwrites other keys (`NewSlotAfterOverflow`; `OverflowOverwrites` shows a run).
* In `example/logging/logging.d` the multiples of a prime wrap around at 2^32, and what they wrap to is marked too.
  For the largest limit 7 crosses out 17 (`SeventeenIsCrossed`; `RightIffNoPrimeVisitsPrime` says exactly when all
  is well).

## Model

| member | source | states |
|---|---|---|
| ExceptionDispatch.SearchFindsInnermost | runtime/compiler/dmd/deh.c:143-170 | the search of one frame finds a handler iff some catch on the chain accepts the class, and then the innermost handler and its first accepting block |
| ExceptionDispatch.SearchStackFindsInnermost | runtime/compiler/dmd/deh.c:105-170 | the search of the stack finds something iff some frame accepts the class, and then settles on the innermost such frame and what its chain offers |
| ExceptionDispatch.UnwindRunsPending | runtime/compiler/dmd/deh.c:407-429 | unwinding to a handler of the chain runs exactly the finally blocks strictly inside it, each once, innermost first |
| ExceptionDispatch.WalkMatchesSearch | runtime/compiler/dmd/deh.c:689-753 | in one frame the single walk finds what the search finds, and runs what the unwind to it runs iff no passed entry is both catch and finally |
| ExceptionDispatch.WalkSkipsMixed | runtime/compiler/dmd/deh.c:689-753 | the walk runs, each once and innermost first, exactly the pending finally blocks inside what it finds whose entries are no catches |
| ExceptionDispatch.CatchLeavesHandler | runtime/compiler/dmd/deh.c:181-189 | taking the catch of a handler leaves, of the chain of its frame, exactly the handlers outside it; the table of that frame and all other frames stay |
| ExceptionDispatch.AlgorithmsAgree | runtime/compiler/dmd/deh.c:642-754 | for every stack with well-formed tables both algorithms choose the same frame, handler and block; same finally blocks in the same order iff no passed entry is mixed; uncaught, Windows runs none |
| ExceptionDispatch.MixedEntryIsSkipped | runtime/compiler/dmd/deh.c:735-750 | a table with an entry that is both catch and finally, for which Windows runs the finally and POSIX does not |
| ExceptionDispatch.AlgorithmsAgreeOnCompiledTables | runtime/compiler/dmd/deh.c:149-209 | with tables as compilers emit them one throw has one outcome; uncaught, Windows runs nothing and POSIX what a full unwind of the stack runs |
| DispatchRuns.UnwindAllRunsPending | runtime/compiler/dmd/deh.c:407-429 | a full unwind of frames runs exactly the finally blocks pending in them, each once |
| DispatchRuns.UnwindAllInOrder | runtime/compiler/dmd/deh.c:122-126 | inner frames are unwound before outer ones |
| DispatchLoops.ScanCatches | runtime/compiler/dmd/deh.c:152-170 | the loop over catch blocks finds the first accepting one |
| DispatchLoops.SearchFrame | runtime/compiler/dmd/deh.c:143-209 | the handler loop is the search of the chain from `table_index` |
| DispatchLoops.AskHandlers | runtime/compiler/dmd/deh.c:112-212 | asking the registered frames innermost first finds what the search of the stack finds |
| DispatchLoops.Windows.LocalUnwind | runtime/compiler/dmd/deh.c:390-429 | appends exactly the finally calls of the chain from `table_index` up to the stop index |
| DispatchLoops.Windows.GlobalUnwind | runtime/compiler/dmd/deh.c:122-126 | the unwind branch on all inner frames appends all their pending finally calls, innermost frame first |
| DispatchLoops.Windows.TakeCatch | runtime/compiler/dmd/deh.c:181-187 | unwinds inner frames, then the catching frame, and then leaves of its chain exactly the handlers outside the catch; no other frame changes |
| DispatchLoops.Windows.Throw | runtime/compiler/dmd/deh.c:231-238 | target and finally calls are those of the two-phase outcome; the catching frame keeps exactly the handlers outside the catch, and without a catch nothing changes |
| DispatchLoops.EhFindData | runtime/compiler/dmd/deh.c:583-598 | the first function table whose address range holds the address, none iff no range does |
| DispatchLoops.StartIndex | runtime/compiler/dmd/deh.c:676-685 | the last handler whose region starts at or before the return address |
| DispatchLoops.PosixFramesAre | runtime/compiler/dmd/deh.c:656-685 | the frames walked are exactly those of the callers whose return address some table covers, in order, each with the handlers of the first such table from the last region starting at or before the address |
| DispatchLoops.StartIndexIsInnermost | runtime/compiler/dmd/deh.c:676-685 | with well-nested regions, the start index is the innermost region containing the return address, as `table_index` is, iff the last region to start has not ended; no region containing it is ever missed |
| DispatchLoops.LeftRegionIsWalked | runtime/compiler/dmd/deh.c:676-685 | a table and an address behind its only region, from which a throw still runs the finally of that region |
| DispatchLoops.Posix.WalkFrame | runtime/compiler/dmd/deh.c:687-753 | the body of the loop for one frame returns and runs what the walk of its chain does |
| DispatchLoops.Posix.Throw | runtime/compiler/dmd/deh.c:633-755 | target and finally calls of a throw are those of the one-pass outcome on the frames of the callers with handler data |
| DispatchLoops.ThrowOnBoth | runtime/compiler/dmd/deh.c:112-755 | both loops run on one stack land in the same catch block after the same finally blocks |
| DispatchRuns.ThrowRunsWhatWasPending | runtime/compiler/dmd/deh.c:181-185 | a caught throw runs exactly the finally blocks pending inside the chosen catch, none twice |
| DispatchRuns.StepMeans | runtime/compiler/dmd/deh.c:143-189 | calls, returns and quiet entries and exits change the regions of the innermost frame by one; a caught throw drops inner frames, leaves the regions outside the catch and notes what was run and taken; an uncaught one changes nothing |
| DispatchRuns.ThrowKeepsInv | runtime/compiler/dmd/deh.c:187-189 | after a throw no remaining chain holds a region whose finally was run or whose catch was taken |
| DispatchRuns.EachEntryIsUsedOnce | runtime/compiler/dmd/deh.c:143-188 | in every run, however many throws, the finally and the catch of each entered region are used at most once |
| ImportLexer.FilterKeepsLines | doc/dimple.d:45-116 | the filter keeps the number of line feeds and delivers no carriage return |
| ImportLexer.FilterIsIdempotent | doc/dimple.d:51-115 | filtering twice is filtering once |
| ImportPieces.ReturnsDoNotMatter | doc/dimple.d:51-55 | filtering a text is filtering it without its carriage returns, in any state |
| ImportPieces.FilterOfLiteral | doc/dimple.d:60-88 | every terminated literal of each of the three quotes, escapes and comment marks included, passes unchanged and ends at its closing quote |
| ImportPieces.FilterOfOpenLiteral | doc/dimple.d:60-88 | a literal that never ends passes unchanged to the end of the text |
| ImportPieces.FilterOfSlash | doc/dimple.d:91-96 | a slash that starts no comment passes with the character behind it, which opens no literal |
| ImportPieces.TokensOfLiteral | doc/dimple.d:158-189 | at the start of a token a terminated literal is one token |
| ImportPieces.TokensOfOpenLiteral | doc/dimple.d:158-189 | a literal that never ends is no token, and none follows |
| ImportPieces.TokensOfWord | doc/dimple.d:190-208 | a word, literals inside it included, is one token up to the next blank, semicolon or comma |
| ImportLexer.CommentEndsAtTerminator | doc/dimple.d:101-112 | a block comment is skipped up to its terminator iff its body has no slash after its first star |
| ImportLexer.StarredDivisionLeaks | doc/dimple.d:107-112 | a comment that is cut short, and what leaks from it |
| ImportRoundTrip.PrintedImportsAreRead | doc/dimple.d:45-239 | printing any import declarations among any other words, literals and marks, with any blanks and comments in the gaps, and reading that back gives exactly the declared names in order |
| ImportRoundTrip.NamesOfStatement | doc/dimple.d:223-239 | of any tokens, the names are, after each `import`, the next one and then every second one up to a semicolon or the end |
| ImportRoundTrip.StringArgumentIsRead | doc/dimple.d:190-208 | an import inside a string that does not begin its token is read as one |
| ImportReader.CommentFilter.Next | doc/dimple.d:45-55 | each call delivers the next character of the filtered text, through the one-character cache |
| ImportReader.CommentFilter.Consume | doc/dimple.d:56-113 | the switch over the states takes the state and releases the characters that the filter function says |
| ImportReader.TokenStream.QuotedToken | doc/dimple.d:158-189 | the literal loops return the literal up to its closing quote, escapes included, or none at the end of the text |
| ImportReader.TokenStream.WordToken | doc/dimple.d:190-208 | the word loop returns the word and keeps its delimiter for the next call |
| ImportReader.TokenStream.Next | doc/dimple.d:146-211 | each call delivers the next token of the text |
| ImportReader.ImportList.Next | doc/dimple.d:223-239 | each call delivers the next imported name |
| ImportReader.ReadImports | doc/dimple.d:310-335 | reading a file to exhaustion gives exactly its imports in order |
| ModuleDiscovery.Pathname | doc/dimple.d:252-257 | the path is the name with exactly its dots changed into slashes, and `.d` |
| ModuleDiscovery.ImportsAreRead | doc/dimple.d:304-335 | a module imports the names read from the file of its path, or nothing if it is excluded or there is no such file |
| ModuleDiscovery.Sources.FindOrAdd | doc/dimple.d:324-333 | the first module of that name, or a new one at the end |
| ModuleDiscovery.Sources.ReadModule | doc/dimple.d:304-335 | a readable, non-excluded module becomes visible and is linked from each of its imports once per import; others are skipped |
| ModuleDiscovery.Sources.Discover | doc/dimple.d:303-340 | the worklist ends, with every listed module read and all its imports listed and linked |
| ModuleDiscovery.DiscoveredIsReachable | doc/dimple.d:297-340 | the list holds exactly the names reachable through readable, non-excluded modules, without repeats iff the given names have none |
| ImportCycles.KeepVisible | doc/dimple.d:342-346 | the in-place filtering keeps exactly the visible modules, in their order |
| ImportCycles.Transpose | doc/dimple.d:348-350 | `link` is the exact multiset transpose of `linked`, with as many entries |
| ImportCycles.CountDegrees | doc/dimple.d:377-384 | the degree counters, and the asserted zero sum |
| Peeling.PeelKeepsCounts | doc/dimple.d:392-396 | the guarded decrements keep every counter equal to its number of edges with both ends unpeeled, duplicate edges included |
| Peeling.PeelKeepsCycles | doc/dimple.d:392-403 | a peeled module lies on no cycle |
| Peeling.PeelNode | doc/dimple.d:390-404 | each branch of the scan keeps the invariant, asks for a rescan exactly when it peels, and then leaves fewer modules |
| Peeling.Peel | doc/dimple.d:386-405 | the loop ends, with both counters zero or both positive for every module and every cycle left over |
| Peeling.CountersCountUnpeeledEdges | doc/dimple.d:376-405 | throughout, `din` and `dout` of a module not fully zeroed count its edges from and to such modules |
| Peeling.Candidates | doc/dimple.d:408-411 | the candidates are the modules with importers left, in order, and hold every module of a cycle |
| TransitiveClosure.FillMatrix | doc/dimple.d:412-420 | the matrix starts as direct import between candidates |
| TransitiveClosure.RowAndColumnStay | doc/dimple.d:422-426 | a round does not change its own row and column, which is why it may work in place |
| TransitiveClosure.ClosedIffWalk | doc/dimple.d:422-426 | after all rounds a cell is set iff a non-empty path of candidates joins its ends |
| TransitiveClosure.Close | doc/dimple.d:422-426 | the three nested loops compute the closure in place |
| TransitiveClosure.DiagonalMarksCycles | doc/dimple.d:428-429 | if the candidates hold every module of a cycle, the diagonal marks exactly those |
| TransitiveClosure.MarkCycles | doc/dimple.d:412-430 | the marked candidates are exactly the modules on a cycle, in order |
| ImportCycles.FindCycles | doc/dimple.d:374-430 | counting, peeling, closure and marking together find exactly the modules on a cycle |
| ImportCycles.Analyse | doc/dimple.d:297-432 | from file texts to colours: a name is coloured, and then once, iff it is reachable and has a non-empty import path back to itself in the full visible graph |
| BlockRounding.AndNotClearsLowBits | example/conduits/FileBucket.d:289-289 | `x & ~(2^k - 1)` rounds down to a multiple of 2^k |
| BlockRounding.RoundedUpIsLeast | example/conduits/FileBucket.d:289-289 | the rounded capacity is the least multiple of the block size at or above the byte count |
| BlockRounding.SlotHoldsData | example/conduits/FileBucket.d:286-289 | in 32-bit arithmetic the slot holds the data iff `bytes + mask` fits an `int`, and is negative otherwise |
| BlockRounding.LargestIntOverflows | example/conduits/FileBucket.d:286-289 | a byte count and a mask for which the capacity is negative |
| FileBuckets.Record.CreateBucket | example/conduits/FileBucket.d:286-301 | a new slot at the waterline, rounded up to blocks, or of capacity -2^31 when that overflows; the file doubles past the waterline when the slot does not fit |
| FileBuckets.Record.Write | example/conduits/FileBucket.d:266-282 | for any record and data of any 32-bit length: record, file and waterline become what `Rewrite` and `WriteSpace` say, and it fails iff the slot starts before the file |
| FileBuckets.Record.Read | example/conduits/FileBucket.d:248-257 | the bytes of the record, or an error when its position or length is negative or the file too short |
| FileBuckets.RewrittenFits | example/conduits/FileBucket.d:266-301 | if the rounded size fits: in place iff the bytes are at most the capacity, otherwise at the old waterline in the least number of blocks; relocations times the block size are at most the capacity, which is less than the largest length plus a block |
| FileBuckets.RelocationGrows | example/conduits/FileBucket.d:271-273 | each relocation gains at least one block, so relocations times the block size is at most the capacity |
| FileBuckets.WriteKeepsOthers | example/conduits/FileBucket.d:266-301 | writing, growing or relocating one record keeps the layout disjoint and every other key's bytes |
| FileBuckets.WriteFits | example/conduits/FileBucket.d:266-301 | if the rounded size fits, only the bytes of the slot change, the waterline stays the sum of all capacities ever created and within the file, and neither falls |
| FileBuckets.PutOnSound | example/conduits/FileBucket.d:187-198 | on a sound bucket: it stays sound iff the rounded size fits an `int`; any content shorter than 2^31 bytes is stored and no other key changes; waterline and file size do not fall when it fits |
| FileBuckets.OverflowTips | example/conduits/FileBucket.d:286-298 | right after an overflow everything is still read back, the new content lies behind all others and the waterline 2^31 too low |
| FileBuckets.HugeIsUnsound | example/conduits/FileBucket.d:268-274 | a content of 2^31 bytes or more gets a negative length and cannot be read back |
| FileBuckets.PutInPlaceAfterOverflow | example/conduits/FileBucket.d:266-282 | after an overflow a put that needs no new slot still does what it should |
| FileBuckets.NewSlotAfterOverflow | example/conduits/FileBucket.d:266-301 | after an overflow a put that needs a new slot fails if the lowered waterline is negative, losing that key only, and otherwise overwrites exactly the bytes of other keys that lie in its way |
| FileBuckets.OverflowOverwrites | example/conduits/FileBucket.d:187-198 | a run of four puts after which one key reads back what was put under another |
| FileBuckets.FileBucket.constructor | example/conduits/FileBucket.d:97-109 | an empty bucket over a zeroed file of the initial size, in 32-bit arithmetic |
| FileBuckets.FileBucket.Get | example/conduits/FileBucket.d:150-160 | the bytes of the record of the key, nothing for a missing key; on a sound bucket the stored bytes and never an error; state unchanged |
| FileBuckets.FileBucket.Remove | example/conduits/FileBucket.d:168-171 | removes exactly that key and keeps a sound bucket sound |
| FileBuckets.FileBucket.Put | example/conduits/FileBucket.d:187-198 | state and success, on any bucket, are those of `PutIn`; on a sound one it does what `PutOnSound` says |
| FileBuckets.Serve | example/conduits/FileBucket.d:97-198 | over any run from an empty bucket, overflows and errors included, state and replies are those of the store as a value |
| FileBuckets.HarmlessRunsAreMaps | example/conduits/FileBucket.d:150-198 | every run without contents of 2^31 bytes, and without new slots once a rounding has overflowed, replies as a map from keys to bytes, without errors |
| FileBuckets.FittingRunsAreMaps | example/conduits/FileBucket.d:150-198 | as long as everything put fits when rounded a run replies as a map and leaves the bucket sound, and one operation more keeps it sound iff that fits |
| SourceTokens.LongestMatchAt | doc/bin/dcode.d:275-297 | the loop over the rules keeps the first rule of greatest match length at this position |
| SourceTokens.FindBestMatch | doc/bin/dcode.d:271-314 | the two nested loops compute the best match |
| SourceTokens.BestMatchIsBest | doc/bin/dcode.d:273-313 | something is found iff some rule matches some text somewhere, and then the longest match from the first such position, by the first rule giving it |
| SourceTokens.TokensAreLossless | doc/bin/dcode.d:463-492 | token texts concatenate to the input, none is empty, and each token carries its line |
| SourceTokens.LinesFromCountsLineFeeds | doc/bin/dcode.d:481-486 | tokens carry their lines iff each line is the first one plus the line feeds in the text before the token |
| SourceTokens.TokensCutUp | doc/bin/dcode.d:463-492 | the tokens cut the text into the best match of what remains, again and again, each of the type of its rule; text skipped before a match, or left when nothing matches, is of type Other |
| SourceTokens.Tokenize | doc/bin/dcode.d:463-492 | the loop emits exactly those tokens, which cut up the text by best matches |
| NestedComments.MatchEndIsFirstZero | doc/bin/dcode.d:501-520 | the depth scan stops at the first token where the depth is used up, and fails only if there is none |
| NestedComments.FlattenSucceedsIffAllMatched | doc/bin/dcode.d:522-530 | flattening throws exactly when some opener has no matching closer |
| NestedComments.FlattenIsLossless | doc/bin/dcode.d:495-546 | no text is lost, line numbers stay right, and no nested-comment opener remains |
| NestedComments.FlattenedPieces | doc/bin/dcode.d:495-546 | the result is, in order, each token outside comments as it was and one token for each nested comment of the grammar, with its text and line |
| NestedComments.MergedSpanIsNestedComment | doc/bin/dcode.d:501-535 | each merged span is a nested comment of the grammar, and the only one that starts there |
| NestedComments.FindClose | doc/bin/dcode.d:501-520 | the loop returns the closer of the opener at `i`, if any |
| NestedComments.AppendTexts | doc/bin/dcode.d:532-533 | the opener's text becomes the text of the whole span, no other token changes |
| NestedComments.CloseGap | doc/bin/dcode.d:537-541 | the tokens behind the span move down over it, those before stay |
| NestedComments.FlattenComments | doc/bin/dcode.d:495-546 | the in-place compaction leaves exactly the flattened tokens, or reports the error |
| NestedComments.TokenizeData | doc/bin/dcode.d:550-558 | tokenizing and flattening any text gives the flattened tokens, piece by piece those of the grammar: lossless, lines right, no opener left |
| MonitorProtocol.StepKeepsInv | runtime/compiler/dmd/monitor.c:161-212 | every step of create, lock, unlock and destroy by any thread keeps the monitor invariant |
| MonitorProtocol.MonitorsAreSafe | runtime/compiler/dmd/monitor.c:161-212 | in every interleaving: at most one monitor per object lifetime, every visible monitor initialised, one owner at a time whose locks minus unlocks is the depth in the mutex, nothing lost, nothing freed twice |
| MonitorProtocol.CallsAreAnswered | runtime/compiler/dmd/monitor.c:161-212 | in every run each lock call adds one lock when it is over and each unlock call one unlock; when a create is over the object has a monitor until it is destroyed, and when a destroy is over it has none |
| MonitorProtocol.FreeIffBalanced | runtime/compiler/dmd/monitor.c:197-212 | a monitor in use is free iff every thread has unlocked it as often as it has locked it |
| CriticalSections.StepKeepsInv | runtime/compiler/dmd/critical.c:113-139 | every step of enter and exit by any thread, also an exit whose unlock has no effect, keeps the list and mutex invariant |
| CriticalSections.ListIsSound | runtime/compiler/dmd/critical.c:119-132 | in every interleaving the list from `dcs_list` is finite, has no repetition and ends at `critical_section`; `next` is set iff listed, but for one section being inserted; no mutex is initialised twice |
| CriticalSections.UninitialisedIffBeingInserted | runtime/compiler/dmd/critical.c:123-132 | a thread about to lock finds the mutex uninitialised iff another thread is between publishing `next` and initialising it |
| CriticalSections.SectionsExclude | runtime/compiler/dmd/critical.c:123-139 | entries and exits of a section balance for every thread iff no thread still counts on a hold that the initialisation of the mutex took away; two threads are inside at once iff one does and another owns the mutex; nothing is lost unless the mutex was initialised while owned |
| CriticalSections.CallsAreAnswered | runtime/compiler/dmd/critical.c:113-139 | in every run each enter call adds one entry when it is over and each exit call one exit, so entries minus exits are the calls of either kind that are over |
| CriticalSections.ExitUnlocksOnce | runtime/compiler/dmd/critical.c:134-139 | an exit by the owner lowers the depth by one, to a free mutex at last; by anybody else it changes no mutex |
| CriticalSections.FreeIffBalanced | runtime/compiler/dmd/critical.c:113-139 | a mutex is free and no hold on it lost iff every thread has left as often as it has entered |
| CriticalSections.NeverEarlyExcludes | runtime/compiler/dmd/critical.c:123-132 | a section never locked before its initialisation always has one owner at a time |
| CriticalSections.EarlyLockMayBeHarmless | runtime/compiler/dmd/critical.c:125-139 | a run with an early lock given back in time, after which all balances |
| CriticalSections.EarlyLockBreaksExclusion | runtime/compiler/dmd/critical.c:125-127 | a run of two threads in which a mutex is initialised while owned and both end up inside one section |
| CriticalSections.LeavingEndsTheHarm | runtime/compiler/dmd/critical.c:125-139 | that run goes on: once the thread that lost its hold has left, all balances again |
| CriticalSections.Terminate | runtime/compiler/dmd/critical.c:152-164 | the final walk ends and destroys the listed sections in order |
| CriticalSections.EachSectionDestroyedOnce | runtime/compiler/dmd/critical.c:152-164 | each listed section once, no other; these are the initialised ones iff no thread is about to initialise a listed one |
| ConditionProtocol.StepKeepsInv | example/synchronization/condition.d:79-139 | every step of a test thread, every spurious wakeup and every step of the main thread keeps the invariant |
| ConditionProtocol.PollFailsIffSomeoneIsMissing | example/synchronization/condition.d:252-265 | the main thread polls on exactly while some test thread has not counted itself |
| ConditionProtocol.NoWakeupIsLost | example/synchronization/condition.d:217-227 | when the main thread notifies, every thread is waiting or re-acquiring; afterwards none is in the wait set; at the end the counter is one more than the threads and the final check passes |
| ConditionProtocol.NeverStuck | example/synchronization/condition.d:61-146 | until the main thread has finished, some step other than a spurious wakeup is possible |
| ConditionProtocol.EveryStepHelps | example/synchronization/condition.d:267-284 | after the notification every step lowers a measure by one, so every schedule ends |
| ConditionProtocol.EveryRunCanFinish | example/synchronization/condition.d:61-146 | from every reachable state some steps without spurious wakeups lead to the end, with the final check passed |
| Sieve.SetChangesOneBit | example/logging/logging.d:28-36 | setting the bit of an odd number is seen by no other odd number |
| Sieve.ReachesLargest | example/logging/logging.d:50-51 | in 32 bits the multiples of every odd number reach 2^32 - 1, so the inner loop ends for every `max` |
| Sieve.Strike | example/logging/logging.d:50-51 | the inner loop ends for every `max` and marks exactly the odd multiples visited, wrapped around at 2^32, before the first that is not below `max` |
| Sieve.CompositeIsVisited | example/logging/logging.d:43-51 | every odd composite below `max` is visited by a smaller odd prime |
| Sieve.FindsPrimesIffNoneVisitsLater | example/logging/logging.d:43-44 | the outer loop finds exactly the odd primes iff no odd prime visits a larger prime |
| Sieve.RightIffNoPrimeVisitsPrime | example/logging/logging.d:41-51 | the marks are the odd composites iff no odd prime visits a prime, and then the primes are found |
| Sieve.Compute | example/logging/logging.d:19-55 | for every `max`, within `max/16+1` bytes: an odd x below `max` is marked iff some number found visits it; `hits` counts the numbers found, every sixteenth one announced; the marks are right iff no odd prime visits a prime, and `hits` is the number of odd primes below `max` if none visits a larger one |
| Sieve.UpToTwoFifths | example/logging/logging.d:50-51 | up to two fifths of 2^32 no prime visits a larger one, so `hits` is right, and the marks are right iff no triple of a prime wraps to a prime, which up to a third none does |
| Sieve.CrossedUpToTwoFifths | example/logging/logging.d:50-51 | up to two fifths of 2^32 an odd x is marked iff it is composite or a triple of a prime wraps to it |
| Sieve.SeventeenIsCrossed | example/logging/logging.d:50-51 | for the largest `max` the multiples of 7 wrap around to 3 and then 17, so that both conditions fail |
| ComplexNumbers.DivThenMul | runtime/compiler/dmd/complex.c:16-36 | quotient times divisor is the dividend for every non-zero divisor, in both scaling branches |
| ComplexNumbers.MulThenDiv | runtime/compiler/dmd/complex.c:16-45 | division undoes multiplication by a non-zero number |
| ComplexNumbers.NormOfProduct | runtime/compiler/dmd/complex.c:38-45 | multiplication multiplies squared lengths |
| ComplexNumbers.AbsSquared | runtime/compiler/dmd/complex.c:47-69 | the scaled absolute value is the non-negative root of the squared length |
| ComplexNumbers.AbsIsMultiplicative | runtime/compiler/dmd/complex.c:47-69 | the absolute value of a product is the product of the absolute values |
| ComplexNumbers.LargerPartSquared | runtime/compiler/dmd/complex.c:84-95 | in both scaling branches `w` is positive and its square is half of real part plus length |
| ComplexNumbers.SqrtSquaresBack | runtime/compiler/dmd/complex.c:71-107 | the root squares back to its argument in every scaling and sign branch, with non-negative real part |
| ComplexNumbers.SqrtUndoesSquareIffPrincipal | runtime/compiler/dmd/complex.c:71-107 | the root of a square is the number itself iff that lies in the principal half plane |
| StructLayout.FinishStruct | runtime/compiler/gdc/config/makestruct.h:83-115 | the loop prints the padding, braces and members that the closed form in terms of neighbours says |
| StructLayout.PrintedAreLines | runtime/compiler/gdc/config/makestruct.h:93-117 | for any fields: the members printed are the fields in order, each behind exactly the bytes missing up to its offset, inside a union iff it shares its offset with a neighbour; braces match, and the bytes missing at the end come last |
| StructLayout.FaithfulIffFits | runtime/compiler/gdc/config/makestruct.h:93-117 | read as a packed layout, the declaration has every field at its offset, the given size and balanced braces iff the last two fields do not share an offset, each union ends in one of its largest members, and nothing overlaps or exceeds the size |
| StructLayout.FaithfulInEveryOrder | runtime/compiler/gdc/config/makestruct.h:77-117 | the declaration is faithful in whatever order the sort leaves equal offsets iff unions have members of one size and do not end the struct, other fields lie apart, and all is within the size |
| StructLayout.EndingUnionIsUnfaithful | runtime/compiler/gdc/config/makestruct.h:106-121 | two fields for which the union stays open |
| StructLayout.SmallerLastMemberIsUnfaithful | runtime/compiler/gdc/config/makestruct.h:102-115 | three fields of which the last is misplaced |

## Left out

- Inline assembly, the switch to another stack, stores to catch variables and the translation of Windows exception codes in `deh.c`: a jump to a catch is a returned frame, handler and block.
- `_d_monitor_handler` and exceptions thrown from inside finally blocks.
- `__eh_find_caller` reading the stack: a call chain is a sequence of callers, which ends; a corrupt chain is not modelled.
- DispatchLoops.StartIndexIsInnermost: where regions end is known to the compiler only; it is a parameter, and that they are well nested and listed by where they start is an assumption about the compiler.
- DispatchLoops.Windows.GlobalUnwind: `_global_unwind` is external; it is modelled as the unwind branch of `_d_framehandler` on each inner frame in order.
- The near copies of `deh.c`, `monitor.c` and `critical.c` for other compilers, and the Windows branches of `monitor.c` and `critical.c`.
- Memory-model effects below sequential consistency, a failing `calloc`, the inside of mutexes and condition variables.
- CriticalSections.ListIsSound: runs start when `_STI_critical_init` has finished; two first calls racing for it, and sections entered again after `_STD_critical_term`, are not modelled.
- CriticalSections.SectionsExclude: what locking an uninitialised mutex does is undefined; the model lets it act as an unlocked one, which initialisation resets, and an unlock by a thread that does not own the mutex has no effect, as for an initialised recursive one.
- ConditionProtocol.NoWakeupIsLost: `notify` is modelled for the one test thread it is used with, `notifyAll` for any number; thread creation is the initial state.
- The usage text, the parsing of `-x=` and the Graphviz lines of `dimple.d`, other than which modules are coloured; the exclusion expression is any predicate on names.
- ImportReader.ReadImports: one file at a time from the initial blank; the characters that the function-static variables carry from one file to the next are not modelled.
- ImportCycles.Analyse: each file is read from the initial blank, as for `ImportReader.ReadImports`; a character that an unterminated literal hands to the next file is not modelled.
- ModuleDiscovery.Sources.Discover: `Source` objects are positions in the order of creation, so identity is position; errors other than a missing file are not modelled.
- The regular expressions of `dcode.d`: a rule is any function from a text to a match within it; the rules file, HTML output and keyword tables are left out.
- NestedComments.FlattenComments: the diagnostic lines before the error are left out; with fewer than five tokens they fail themselves, which is an error either way.
- FileBuckets.Serve: data of 2^32 bytes or more, short transfers, disk errors, `close` and 64-bit overflow of the waterline are left out; the file is external, and a seek before its start is taken to raise an error.
- Sieve.Compute: the trace loop at the end is left out.
- ComplexNumbers.SqrtSquaresBack: exact reals and an ideal `sqrt`; rounding, infinities and division by zero are left out.
- StructLayout.FinishStruct: the sort itself is external and taken as any sorted order; the numbering of padding fields, type names and the printed static assertions are left out.
