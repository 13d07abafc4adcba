# A verified model of the ggsql DuckDB extension

The extension lets a DuckDB query end in a `VISUALISE` clause. A scanner decides which queries are its
own; C++ and Rust run them across a C boundary with a second, inner connection; a small HTTP server keeps
the finished plots; and a viewer, half JavaScript and half wasm, shows them in a browser tab. This project
models the parts of that path whose correctness does not show in any one function, and proves what they
promise.

- **Scanner, Tokens, Parser, Dialect.** `ContainsVisualiseKeyword` jumps over comments, quotes and identifiers with
  inner loops and lookahead. It is proved to agree with an automaton that reads one character at a time.
  Stripping a terminator, and quoting text by doubling its quotes, are proved against that automaton.
- **Slab, SlabRuns.** The viewer's handle table: an array whose free slots form a linked list through the
  array itself. The specification keeps live handles and the free list apart.
- **Utf, Wasm, Marshal, Arrays.** Strings, bytes and arrays of handles on their way into wasm memory and
  back, through views that every growth of that memory detaches. The allocator is any one that meets its
  contract, and it may abort.
- **Interrupts, Cancellation, Ticks, Shutdown.** The thread that forwards interrupts to the inner connection, with the caller
  and the shutdown, as a step relation over every interleaving of any number of invocations.
- **Bridge, Arrow.** Who owns streams, error buffers and result buffers in one run, for every way each
  statement can end; and the normalisation of decimal columns behind it.
- **Registry, Trails, Locations.** Registrations split at their locks, against a tab that polls; what its
  back button finds; and how a plot's id travels in addresses.
- **PlotViews.** The view that keeps an SVG in step with container, theme and document.

Objects whose methods change their fields are classes whose methods are proved against a value: the heap
against a table, the glue code against a memory with its blocks. Threads and requests that interleave are
step relations, and what is proved of them holds in every reachable state or over every run. Where a
specification has characters, constants or messages of its own, a law spells them out.

## Findings

Where a property fails, the condition under which it holds is proved to be exact, or a run shows the failure.

- If the forwarder's thread cannot be made, `GetInnerConnection` throws but has already stored the inner
  connection; a later callback of the same invocation finds it and runs its query without any forwarder.
  An interrupt can still reach a running query exactly when its forwarder exists
  (`Cancellation.InterruptArrivesExactlyWhenForwarderExists`), which is when no step of its run failed to make
  one (`Cancellation.InterruptArrivesExactlyWhenForwarderWasMade`); `Cancellation.QueryCanRunWithoutForwarder`
  is a run that gets there, if the engine goes on after the error.
- Destroying a bridge has no bound of its own: the forwarder may take the mutex again and again while the
  destructor waits for it. The destructor is done after 14 steps of its invocation and 6 for each race that
  it lost (`Shutdown.ShutdownIsBounded`), so a bound exists exactly when the lost races are bounded
  (`Shutdown.BoundedExactlyWhenRacesAre`), and the protocol bounds them not at all
  (`Shutdown.BargingCanStarve`).
- If a wait of the forwarder ends in every K steps, K steps are not enough for a running query to see an
  interrupt. The best bound is 2K - 2 (`Cancellation.RunningQuerySeesInterrupt`,
  `Ticks.TwoPeriodsAreNeeded`).
- Dropping a handle twice closes the free list into a loop, and dropping one beyond the array breaks it. A
  drop keeps the table well formed exactly when the slot was reserved or live (`SlabRuns.DropKeepsChainExactlyWhenDroppable`).
- A text comes back from wasm unchanged exactly when it has no lone surrogate (`Utf.TextRoundTrip`); with a
  decoder that consumed byte order marks, exactly when it also does not start with one
  (`Utf.BomHandlingMatters`).
- What stands in the two arguments of `ST_Transform` is invisible to the scanner exactly when the column
  text ends at top level, or holds a keyword of its own (`Dialect.ArgumentsAreInvisibleExactlyWhen`).
- As soon as one decimal column is cast the schema loses its own metadata, and the cast fields lose theirs
  (`Arrow.MetadataSurvivesExactlyWhen`).

## Model

| member | source | states |
|---|---|---|
| Scanner.MatchesWholeWord | src/ggsql_parser.cpp:21-40 | True exactly when the word stands at the position, letters compared without case, with no identifier character on either side. |
| Scanner.ContainsVisualiseKeyword | src/ggsql_parser.cpp:46-121 | True exactly when the one-character automaton is at top level at some whole-word keyword, so lookahead, skipping and the boundary guard change nothing. |
| Scanner.SkipLineComment | src/ggsql_parser.cpp:52-58 | Stops where a token may start again, and no keyword at top level was passed. |
| Scanner.SkipBlockComment | src/ggsql_parser.cpp:60-71 | The same behind a block comment, closed or not. |
| Scanner.SkipQuoted | src/ggsql_parser.cpp:73-103 | The same behind quoted text; the end is the reference position at which doubled quotes count as one. |
| Scanner.SkipIdentifier | src/ggsql_parser.cpp:112-116 | No keyword starts inside an identifier that does not itself start with one. |
| Scanner.CommentOpens | src/ggsql_parser.cpp:52-61 | The two characters that open a comment put the automaton into that comment, and no keyword starts on them. |
| Scanner.NoKeywordOn | src/ggsql_parser.cpp:105-118 | The boundary guard loses nothing: no keyword starts off an identifier or inside one. |
| Scanner.KeywordLetters | src/ggsql_parser.cpp:21-40 | A keyword occurrence is nine identifier characters with no identifier character on either side. |
| Tokens.HitIsSpelledOut | src/ggsql_parser.cpp:15-42 | A keyword is seen exactly where the automaton is at top level, the nine letters are one of the two spellings in any case, and no letter, digit or underscore, all written out, stands on either side. |
| Tokens.WordCharacters | src/ggsql_parser.cpp:15-17 | The identifier characters are the ten digits, the two written-out alphabets and the underscore. |
| Tokens.LineCommentHides | src/ggsql_parser.cpp:51-58 | Behind two dashes nothing is at top level up to the line break, and what follows it is. |
| Tokens.BlockCommentHides | src/ggsql_parser.cpp:59-71 | Behind a slash and a star nothing is at top level up to the first star and slash, and what follows them is. |
| Tokens.QuoteHides | src/ggsql_parser.cpp:72-103 | Behind a quote nothing is at top level up to the next one of its kind, and what follows it is. |
| Tokens.OtherTextIsTop | src/ggsql_parser.cpp:104-118 | Text that opens neither a comment nor a quote stays at top level. |
| Scanner.HitSurvivesAppending | src/ggsql_parser.cpp:46-121 | Prefix determinism: a keyword that fits into the prefix is seen there exactly when it is seen with the tail, if the tail does not continue an identifier. |
| Scanner.HitSurvivesPrepending | src/ggsql_parser.cpp:46-121 | Text in front that ends at top level, off a word, changes no later answer. |
| Scanner.ClaimSurvivesAppending | src/ggsql_parser.cpp:46-121 | Appending such a tail never hides a keyword already found. |
| Scanner.ClaimIgnoresTail | src/ggsql_parser.cpp:46-121 | A tail without identifier characters changes the answer in neither direction. |
| Parser.ParseFunction | src/ggsql_parser.cpp:123-138 | The query is declined exactly when it has no keyword; otherwise the text handed over is the query without trailing blanks and then one terminator, and still has the keyword. |
| Parser.StrippedIsUnique | src/ggsql_parser.cpp:128-137 | Only one text fits that description, so the loop has no freedom. |
| Parser.StrippingIsSpelledOut | src/ggsql_parser.cpp:128-137 | Of any text followed by one `;` and blanks, the six blank characters written out, exactly that text is left; without the `;` the same, if the text ends in neither. |
| Parser.StrippingKeepsClaim | src/ggsql_parser.cpp:128-137 | The stripped text is a prefix, and the scanner gives both the same answer. |
| Dialect.UndoubleInvertsDouble | rust/src/dialect.rs:31-38 | Reading pairs of quotes as one undoes the doubling, for every text. |
| Dialect.TransformIsSpelledOut | rust/src/dialect.rs:31-38 | The expression, character by character, with both texts doubled. |
| Dialect.DoubledCharacter | rust/src/dialect.rs:31-38 | A quote becomes two, any other character stays. |
| Dialect.DoubleConcat | rust/src/dialect.rs:31-38 | Doubling works character by character. |
| Dialect.ScanLeavesAtRest | rust/src/dialect.rs:31-38 | The scanner's quote loop, entered at a doubled text in quotes, stops exactly at what follows, unless that starts with a quote. |
| Dialect.ScanRunsOnAtQuote | rust/src/dialect.rs:31-38 | If it does start with a quote, the loop always runs past the literal's end. |
| Dialect.DoubledStaysQuoted | rust/src/dialect.rs:31-38 | Inside doubled text the automaton is at top level only on the second quote of a pair. |
| Dialect.QuotedHidesText | rust/src/dialect.rs:31-38 | A literal that starts at top level ends at top level and shows the scanner no keyword. |
| Dialect.LiteralIsUnambiguous | rust/src/dialect.rs:31-38 | A literal and what follows it determine the quoted text and where it ends. |
| Dialect.ClaimDependsOnColumnOnly | rust/src/dialect.rs:31-38 | For a column text that ends at top level, the scanner's answer on the expression is its answer on the column. |
| Dialect.ArgumentsAreInvisibleExactlyWhen | rust/src/dialect.rs:31-38 | The answer is independent of both reference systems exactly when the column ends at top level or has a keyword itself. |
| Dialect.ExpressionIsUnambiguous | rust/src/dialect.rs:31-38 | Whatever the column text is, the expression determines it and both reference systems. |
| Dialect.LastLiteral | rust/src/dialect.rs:31-38 | The last literal behind a separator, and the text in front of it, can be told from the whole. |
| Slab.Heap.constructor | rust/assets/hep-viewer.js:355-357 | The initial array has 1028 slots, 1025 of them undefined and then null, true and false, and stands for the empty table. |
| Slab.ReservedSlotsAreSpelledOut | rust/assets/hep-viewer.js:355-357 | In every array that stands for a table those slots hold those constants, and reading them gives them. |
| Slab.Heap.AddHeapObject | rust/assets/hep-viewer.js:314-320 | The new handle is the head of the free list, or else the array's end; it was not live; the array stands for the table with it added. |
| Slab.Heap.GetObject | rust/assets/hep-viewer.js:352-354 | A live handle reads its object, a reserved one its constant. |
| Slab.Heap.DropObject | rust/assets/hep-viewer.js:321-325 | Reserved slots stay; any other live slot goes to the front of the free list. |
| Slab.Heap.TakeObject | rust/assets/hep-viewer.js:406-410 | Reads, then drops. |
| Slab.AddKeepsTable | rust/assets/hep-viewer.js:314-320 | Adding keeps every slot from 1028 on either live or free and listed once, and makes one more handle live. |
| Slab.DropKeepsTable | rust/assets/hep-viewer.js:321-325 | So does dropping a live handle, which makes one fewer live. |
| Slab.WalkVisitsFreeSlots | rust/assets/hep-viewer.js:314-325 | Following the links in the array itself visits exactly the free slots, in order, and then leaves the array. |
| Slab.ChainIsUnique | rust/assets/hep-viewer.js:314-325 | The array and its entry determine the table. |
| Slab.ReuseThreads | rust/assets/hep-viewer.js:314-320 | Where the entry is not the array's end it is a free slot, and overwriting it leaves the rest threaded. |
| Slab.GrowThreads | rust/assets/hep-viewer.js:314-320 | Where it is the end nothing is free, and pushing one slot keeps the chain. |
| Slab.DropThreads | rust/assets/hep-viewer.js:321-325 | Overwriting a live slot by the old entry makes it the new head. |
| SlabRuns.RunKeepsTable | rust/assets/hep-viewer.js:314-325 | From any well-formed table, every sequence of additions and of takes of live or reserved handles keeps the invariant. |
| SlabRuns.ArrayIsAsLongAsPeak | rust/assets/hep-viewer.js:314-325 | After every such run the table's slots above the reserved ones are as many as were ever live at once. |
| SlabRuns.Replay | rust/assets/hep-viewer.js:314-325 | Any such run of the real array ends as the table does, and every handle that was not taken still reads its own object there. |
| SlabRuns.ReplayFromStart | rust/assets/hep-viewer.js:314-357 | From the initial array, its length less 1028 is then the largest number of handles that were ever live at once, and the reserved slots hold what they held. |
| SlabRuns.HandleKeepsItsObject | rust/assets/hep-viewer.js:314-325 | Until it is taken, a live handle keeps its object through any run and is never granted again. |
| SlabRuns.DropKeepsChainExactlyWhenDroppable | rust/assets/hep-viewer.js:321-325 | Dropping any index at all, in the array or beyond it, keeps the array a well-formed table exactly when the slot was reserved or live. |
| SlabRuns.DroppingFreeClosesLoop | rust/assets/hep-viewer.js:321-325 | After dropping a free slot no table fits the array. |
| SlabRuns.DroppingBeyondBreaksChain | rust/assets/hep-viewer.js:321-325 | Nor does one after dropping an index beyond the array, which extends it. |
| SlabRuns.PassedObjectsAreRead | rust/assets/hep-viewer.js:367-375 | After an array was passed, its i-th handle reads its i-th element. |
| SlabRuns.ArrayRoundTrip | rust/assets/hep-viewer.js:326-334 | Taking all the handles of a passed array restores the live handles and leaves the used slots, reversed, in front of the rest of the free list. |
| SlabRuns.ArrayRoundTripKeepsTable | rust/assets/hep-viewer.js:326-334 | The table is well formed after it. |
| SlabRuns.GrantedOnce | rust/assets/hep-viewer.js:367-375 | The handles granted for an array are exactly the predicted ones, each for its own element. |
| SlabRuns.HandlesAreDistinct | rust/assets/hep-viewer.js:314-320 | They are new, not reserved and all different. |
| Utf.Utf16InvertsScalars | rust/assets/hep-viewer.js:376-405 | A string is rebuilt from its scalar values exactly when it has no lone surrogate; its length is kept in any case. |
| Utf.DecodeInvertsEncode | rust/assets/hep-viewer.js:411-423 | The strict decoder accepts exactly what the encoder of section 3 of RFC 3629 produces, and returns what was encoded. |
| Utf.DecodeFirstInvertsEncode | rust/assets/hep-viewer.js:411-423 | An encoded character is read back whatever follows it. |
| Utf.EncodeInvertsDecodeFirst | rust/assets/hep-viewer.js:411-423 | What the grammar of section 4 of RFC 3629 accepts is the encoding of its value, so no overlong form or surrogate gets in. |
| Utf.EncodingIsSpelledOut | rust/assets/hep-viewer.js:376-405 | The table of section 3 of RFC 3629: number of bytes, their ranges, and a payload that makes up the value. |
| Utf.ScalarsAreSpelledOut | rust/assets/hep-viewer.js:376-405 | A surrogate pair stands for one value, by the shifted-quotient formula, a lone surrogate for U+FFFD, any other code unit for itself. |
| Utf.DecodesExactlyWhen | rust/assets/hep-viewer.js:411-423 | Text is read exactly from the encodings of scalar values. |
| Utf.TextRoundTrip | rust/assets/hep-viewer.js:376-423 | Encoding and decoding return the string exactly when it has no lone surrogate, and otherwise the one with replacement characters. |
| Utf.EncodedBomIsFirst | rust/assets/hep-viewer.js:411-423 | The bytes start with a byte order mark exactly when the string starts with U+FEFF. |
| Utf.BomHandlingMatters | rust/assets/hep-viewer.js:411 | Without `ignoreBOM` the round trip holds exactly for strings that also do not start with U+FEFF. |
| Utf.EncodeIntoIsComplete | rust/assets/hep-viewer.js:394-400 | With three bytes for each code unit `encodeInto` reads the whole string and writes all of its encoding. |
| Utf.EncodeIntoStopsForRoomOnly | rust/assets/hep-viewer.js:394-400 | Whatever the room, what was written encodes what was read, fits, and leaves only a character that does not fit. |
| Utf.ThreeBytesAreNeeded | rust/assets/hep-viewer.js:394-400 | With any less room some string of that length is cut short. |
| Utf.AsciiPrefixSplits | rust/assets/hep-viewer.js:384-393 | Splitting behind an ASCII prefix splits the encoding and cuts no surrogate pair. |
| Wasm.ShiftRightZeroInvertsSigned | rust/assets/hep-viewer.js:362 | The unsigned shift recovers pointers at and above 2 GiB, which arrive as negative numbers. |
| Wasm.WordAt | rust/assets/hep-viewer.js:370-372 | The i-th of a run of words lies at four times i. |
| Wasm.FromLe32InvertsLe32 | rust/assets/hep-viewer.js:326-334 | A 32-bit word written in little-endian order reads back. |
| Wasm.WordsAreLittleEndian | rust/assets/hep-viewer.js:326-334 | The least significant byte comes first. |
| Wasm.PointersAreSpelledOut | rust/assets/hep-viewer.js:362 | A pointer arrives as a number of 32 bits with sign, and the shift gives the number below 2^32 with the same remainder. |
| Wasm.WriteKeepsOthers | rust/assets/hep-viewer.js:361-366 | A write inside one's own block leaves each other block its size and bytes. |
| Marshal.Glue.GetUint8ArrayMemory0 | rust/assets/hep-viewer.js:345-351 | The byte view returned is on the current, attached buffer, whatever was cached. |
| Marshal.Glue.GetDataViewMemory0 | rust/assets/hep-viewer.js:335-341 | So is the data view, whether or not the platform reports detached buffers. |
| Marshal.Glue.Commit | rust/assets/hep-viewer.js:335-351 | Growth replaces the buffer and detaches the old one; cached views stay on the current buffer or on a detached one. |
| Marshal.Glue.Malloc | rust/assets/hep-viewer.js:361-375 | What an allocation may do: a new block, perhaps a grown memory, all older blocks untouched. |
| Marshal.Glue.Realloc | rust/assets/hep-viewer.js:394-400 | What a reallocation may do, asked only with the block's true old size. |
| Marshal.Glue.PassArray8ToWasm0 | rust/assets/hep-viewer.js:361-366 | The bytes are in a new block of exactly their length; every older block is untouched. |
| Marshal.Glue.WriteAsciiPrefix | rust/assets/hep-viewer.js:384-392 | The block starts with the longest ASCII prefix of the string, and every other block is untouched. |
| Marshal.Glue.TextEncode | rust/assets/hep-viewer.js:424-434 | Both the native `encodeInto` and its replacement write everything when three bytes a code unit fit. |
| Marshal.Glue.EncodeRest | rust/assets/hep-viewer.js:393-401 | Both reallocations are given the true old size, and the shrunk block holds the encoding of the whole string. |
| Marshal.Glue.FillBlock | rust/assets/hep-viewer.js:383-403 | Both phases together leave exactly the encoding, in a block of exactly its length, and all older blocks untouched. |
| Marshal.Glue.PassEncodedString | rust/assets/hep-viewer.js:377-383 | So does the path without `realloc`. |
| Marshal.Glue.PassStringToWasm0 | rust/assets/hep-viewer.js:376-405 | For every string and either path, memory holds exactly its UTF-8 form at the pointer, with that length; older blocks are as they were. |
| Marshal.Glue.DeliveredReadsBack | rust/assets/hep-viewer.js:342-344 | What was delivered reads back as the original exactly when that has no lone surrogate. |
| Marshal.Glue.DecodeText | rust/assets/hep-viewer.js:411-423 | The text is the strict decoding of those bytes of the current memory, and a decoder is replaced before it has read as much as the Safari limit, unless one string alone is that long. |
| Marshal.Glue.GetStringFromWasm0 | rust/assets/hep-viewer.js:342-344 | The same for a pointer that arrives signed. |
| Marshal.Glue.StringRoundTrip | rust/assets/hep-viewer.js:342-423 | Passing any string by either path and reading it back at the signed pointer returns it exactly when it has no lone surrogate, and leaves every older block untouched. |
| Arrays.ArrayGlue.PassArrayJsValueToWasm0 | rust/assets/hep-viewer.js:367-375 | The new block holds, in order, the handles that stand for the elements; the table has exactly those added. |
| Arrays.ArrayGlue.GetArrayJsValueFromWasm0 | rust/assets/hep-viewer.js:326-334 | The result is what the handles in memory stand for, each taken in order. |
| Arrays.PassedHandlesAreDroppable | rust/assets/hep-viewer.js:326-334 | Each handle of a passed array is still live when its turn to be taken comes, and stands for its element. |
| Arrays.RoundTrip | rust/assets/hep-viewer.js:326-375 | Passing any array and reading it back gives that array, the same live handles, and the used slots reversed in front of the rest. |
| Arrays.RoundTripLater | rust/assets/hep-viewer.js:314-375 | So does reading it back after any legal run of the handle table that takes none of its handles and any growth or change of the memory that keeps its block; exactly its handles are gone then. |
| Arrays.RunKeepsHolding | rust/assets/hep-viewer.js:314-325 | Through such a run the array's handles still stand for its elements. |
| Interrupts.RunIsGood | src/ggsql_bridge.cpp:20-53 | The invariant on mutex, stop flag, both threads, connection and flag holds in every state of every interleaving. |
| Interrupts.StepKeepsGood | src/ggsql_bridge.cpp:20-73 | Each step of any caller, any forwarder or the environment keeps it, and keeps connections apart. |
| Interrupts.CallerKeepsGood | src/ggsql_bridge.cpp:26-33 | So does each step of one caller, destructor included. |
| Interrupts.WorkerKeepsGood | src/ggsql_bridge.cpp:36-45 | So does each step of one forwarder. |
| Interrupts.OneConnectionEach | src/ggsql_bridge.cpp:64-73 | All queries of one invocation run on its one connection, and on none that another invocation ever had. |
| Interrupts.ForwardingIsSafe | src/ggsql_bridge.cpp:36-45 | `Interrupt()` is called only on a living connection, and never once the stop flag was set. |
| Interrupts.StoppedForever | src/ggsql_bridge.cpp:26-33 | The stop flag is never cleared. |
| Interrupts.ConnectionOutlivesForwarder | src/include/ggsql_bridge.hpp:27-31 | The connection is closed only when the forwarder has ended or never existed, and at the end of the run it is. |
| Shutdown.ShutdownIsBounded | src/ggsql_bridge.cpp:26-45 | Under every schedule, wherever it found the forwarder, the destructor waits for at most 8 forwarder steps and 6 more for each race for the mutex that it lost; after 14 steps of its invocation and 6 more for each such race it is done. |
| Shutdown.StepsArePaid | src/ggsql_bridge.cpp:26-45 | Each step of either thread lowers what is left to do, save that a lost race adds six. |
| Shutdown.ShutdownGoesOn | src/ggsql_bridge.cpp:26-33 | At any moment the destructor is done exactly when neither the caller nor the forwarder has a step that is no lost race. |
| Shutdown.BoundedExactlyWhenRacesAre | src/ggsql_bridge.cpp:26-45 | Over any family of shutdowns, the number of steps is bounded exactly when the number of lost races is. |
| Shutdown.BargingCanStarve | src/ggsql_bridge.cpp:36-45 | From a contested mutex the forwarder can win any number n of races, in 5n steps, or 6n if there is an interrupt to forward, and come back to the same state. |
| Shutdown.ContestedIsReachable | src/ggsql_bridge.cpp:26-45 | Some run reaches such a mutex, with and without an interrupt. |
| Cancellation.NoInterruptIsLost | src/ggsql_bridge.cpp:36-45 | An iteration that begins with the outer flag set, and no query started since, leaves the inner flag set from its end until a query starts. |
| Cancellation.SecondTickFindsFlag | src/ggsql_bridge.cpp:36-45 | While one query runs, the second end of a wait finds the inner flag set. |
| Cancellation.RunningQuerySeesInterrupt | src/ggsql_bridge.cpp:36-45 | If a wait ends in every K steps, a running query has its flag set after 2K - 2 steps, although its start cleared it. |
| Ticks.TwoPeriodsAreNeeded | src/ggsql_bridge.cpp:36-45 | For every K of at least 6 there is such a run whose flag is clear up to step 2K - 3, so the bound is the best there is, and K steps are never enough. |
| Ticks.PeriodsAreLong | src/ggsql_bridge.cpp:36-45 | For no K below 6 can a wait end in every K steps, since an iteration that forwards takes that long. |
| Cancellation.ForwarderReachesFlag | src/ggsql_bridge.cpp:36-45 | From any state of a running query with a forwarder, forwarder steps alone set the flag. |
| Cancellation.InterruptArrivesExactlyWhenForwarderExists | src/ggsql_bridge.cpp:64-73 | The flag of a running, interrupted query can be set exactly when its forwarder exists. |
| Cancellation.InterruptArrivesExactlyWhenForwarderWasMade | src/ggsql_bridge.cpp:64-73 | Over every run from the start: it can be set exactly when no earlier step failed to make the forwarder. |
| Cancellation.NoForwarderNoFlag | src/ggsql_bridge.cpp:64-73 | A connection kept without a forwarder never gets one, nor an interrupt. |
| Cancellation.QueryCanRunWithoutForwarder | src/ggsql_bridge.cpp:64-73 | Some run reaches a query without a forwarder. |
| Cancellation.FlagHasItsOwnCause | src/ggsql_bridge.cpp:36-45 | An inner flag is set only if that invocation's own outer context was interrupted before. |
| Cancellation.CancelledRunReportsInterrupt | src/ggsql_exec.cpp:79-91 | If the outer flag is set and stays set before the final check, the run ends as interrupted, whatever the return code. |
| Cancellation.VerdictHasItsReason | src/ggsql_exec.cpp:62-92 | Every outcome was decided by a step of the run's own: interruption by the first or final check that saw the flag set, a payload or plain error by a final check that saw it clear, and by the return code. |
| Cancellation.ReturnCodeIsTheEngines | src/ggsql_exec.cpp:74-91 | That return code is the one the engine gave last. |
| Cancellation.RefusedAtEntry | src/ggsql_exec.cpp:63-65 | A run whose first check sees the flag ends as interrupted, without a connection or a query. |
| Cancellation.QueryFollowsClearCheck | src/ggsql_bridge.cpp:64-73 | No callback makes a connection or starts a query unless its own check saw the flag clear. |
| Cancellation.FlagIsOfThisQuery | src/ggsql_bridge.cpp:36-45 | The inner flag is set exactly when it was forwarded to and no query has started since. |
| Cancellation.IterationNeedsTimeout | src/ggsql_bridge.cpp:36-45 | Until it is stopped, the forwarder looks at the flag only at its start and after a wait that timed out. |
| Interrupts.OuterFollowsItsContext | src/ggsql_bridge.cpp:60-62 | An outer flag changes only by events of its own context. |
| Bridge.ReadsExactlyWhen | rust/src/reader.rs:27-63 | A statement yields rows exactly when nothing failed or panicked and none of its interrupt checks, first to last, saw the flag. |
| Bridge.ReadsOnExactlyWhen | src/ggsql_bridge.cpp:134-142 | The same for the rest of a stream, from any batch on. |
| Bridge.CallbackFailsExactlyWhen | src/ggsql_bridge.cpp:164-217 | The callback's error for each cause, in the source's own words and order. |
| Bridge.FailsExactlyWhen | rust/src/reader.rs:40-60 | A statement fails with exactly these messages: the callback's, or a substitute if there is none to hand over, or what the reader makes of the stream's first error. |
| Bridge.PanicsInStatementExactlyWhen | rust/src/reader.rs:47-52 | A statement panics exactly when a batch that reading reaches makes it. |
| Bridge.ConnectionIsKeptExactlyWhen | src/ggsql_bridge.cpp:68-71 | No later statement depends on making a connection exactly when there was one, or this one got as far as making it, be it without its forwarder. |
| Bridge.PanicsExactlyWhen | rust/src/lib.rs:69-86 | A run panics exactly when some statement does on the connection that those before it left. |
| Bridge.ReturnsExactlyWhen | src/ggsql_exec.cpp:62-92 | A run returns a payload exactly when neither outer check saw the flag, no argument was null, nothing panicked and the engine rendered that payload. |
| Bridge.InterruptsExactlyWhen | src/ggsql_exec.cpp:63-87 | It is interrupted exactly when one of the two checks saw the flag. |
| Bridge.RefusesExactlyWhen | src/ggsql_exec.cpp:88-90 | It fails with a message exactly for these causes: null arguments, a panic, or the engine's refusal, each with its own text. |
| Bridge.Books.WriteError | src/ggsql_bridge.cpp:92-110 | A non-empty message makes one new buffer that holds it; an empty one, or no memory, makes none. |
| Bridge.Books.CppFreeBuffer | src/ggsql_bridge.cpp:112-120 | Exactly that buffer is freed, and the struct is emptied; a null pointer frees nothing. |
| Bridge.Books.InnerRelease | src/ggsql_bridge.cpp:152-160 | Exactly that stream is deleted, while its connection is alive; a released struct deletes nothing. |
| Bridge.Books.InnerGetSchema | src/ggsql_bridge.cpp:124-132 | An interrupted stream is refused with EINTR and marked; otherwise the wrapped stream's answer is handed on. |
| Bridge.Books.InnerGetNext | src/ggsql_bridge.cpp:134-142 | So is a read, and a refused one takes no batch from the wrapped stream. |
| Bridge.Books.ExecSqlCallback | src/ggsql_bridge.cpp:164-225 | Either return code 0, one new stream and no error buffer, or another code, a zeroed stream, no stream left behind, and the message in a buffer of its own. |
| Bridge.Books.ReadErrBuffer | rust/src/reader.rs:136-145 | The message is taken and its buffer freed, by the side that made it. |
| Bridge.Books.ReadBatches | rust/src/reader.rs:50-52 | The batches come out in order, and an error carries the stream's own code and last error, which is the interruption once a read was refused. |
| Bridge.Books.ReadStream | rust/src/reader.rs:47-60 | However reading ends, panic included, the stream is deleted exactly once. |
| Bridge.Books.ExecSqlViaBridge | rust/src/reader.rs:27-63 | The result is the one of the same statement without a boundary, and the books are as before. |
| Bridge.Books.RunEngine | rust/src/lib.rs:66-68 | The same for any number of statements, until one panics. |
| Bridge.Books.FromVec | rust/src/ffi.rs:27-34 | The buffer carries length and capacity; only a vector with capacity owns memory. |
| Bridge.Books.GgsqlFreeBuffer | rust/src/lib.rs:96-105 | Exactly the vector handed over is freed, also when its content is empty but its capacity is not. |
| Bridge.Books.GgsqlExecute | rust/src/lib.rs:44-87 | The return code and the one result buffer for success, failure, a panic anywhere in the engine, and null arguments. |
| Bridge.Books.RunGgsqlQuery | src/ggsql_exec.cpp:62-92 | The payload, interruption or message exactly as those conditions say, and at its end every stream, error buffer and result buffer has been freed, once, and the connection is closed. |
| Arrow.NormalizeArrowTypes | rust/src/reader.rs:72-109 | It succeeds exactly when every decimal column can be cast; such a column is then of type Float64 with each cell the cast of its own; otherwise the error names the first that cannot. |
| Arrow.DecimalsBecomeFloats | rust/src/reader.rs:87-99 | The column-by-column map makes every decimal column one of doubles, cell by cell. |
| Arrow.NormalKeepsShape | rust/src/reader.rs:72-109 | No decimal is left; names, nullability, order and row count are kept; other columns are untouched; a second pass does nothing. |
| Arrow.NormalIsValid | rust/src/reader.rs:107-108 | The rebuilt batch passes the checks of `RecordBatch::try_new`, so that error never arises. |
| Arrow.NormalCommutesWithConcat | rust/src/reader.rs:50-61 | Normalising the concatenation of any batches equals concatenating the normalised ones, also for none at all. |
| Arrow.ConcatAppends | rust/src/reader.rs:50-57 | Concatenation keeps the batches' rows in order. |
| Arrow.ConcatOfOne | rust/src/reader.rs:50-57 | Of one batch it is that batch. |
| Arrow.MetadataSurvivesExactlyWhen | rust/src/reader.rs:93-108 | The schema's metadata survives exactly when it was empty or no column was cast, a field's exactly when it was empty or that field was not cast. |
| Registry.RunIsGood | rust/src/server.rs:41-78 | The invariant on map, pointer, order of stores and tab holds in every state of every run. |
| Registry.LatestCanBeFetched | rust/src/server.rs:41-78 | `latest`, and any id the tab was told or knows, names a stored plot; a registered id maps to its own bytes. |
| Registry.PlotsNeverChange | rust/src/server.rs:48-56 | A known id maps to the same bytes ever after. |
| Registry.PlotsComeFromRegistrations | rust/src/server.rs:48-56 | Every known id is one registration's, with that registration's bytes. |
| Registry.WritesFollowStores | rust/assets/app.html:113-135 | The poll loop writes ids to the history in the order in which they were stored, and none twice. |
| Registry.LocationIsLeftAlone | rust/assets/app.html:113-142 | While the tab knows the latest plot and no other is stored, only the user's own steps change the history. |
| Registry.PollBringsUpToDate | rust/assets/app.html:113-135 | However a poll interleaves with the server and the user: if it does not fail and nothing new is stored meanwhile, the tab knows the latest plot when it is over. |
| Registry.PollShowsLatest | rust/assets/app.html:113-135 | If that plot was new to the tab and the user stays, it is then on show. |
| Registry.RestEndsInPoll | rust/assets/app.html:113-135 | A tab at rest polls again: four of its own steps bring it up to date and to rest, its heartbeat noted. |
| Registry.StartUpFollowsLocation | rust/assets/app.html:81-111 | At start-up it asks for the latest plot exactly when its address names none, and an old-style address takes the new form. |
| Registry.WayBackIsKept | rust/assets/app.html:119-127 | Over any stretch in which the user does not move, as many steps back as the tab has advanced show what was shown before. |
| Trails.HistoryListsPlotsInOrder | rust/assets/app.html:81-135 | In a tab that the user leaves alone, the history is a list of plots in the order in which they were stored, none twice, no blank page before the first, the newest known one on show. |
| Trails.StepExtendsTrail | rust/assets/app.html:81-135 | Each step of the server or the tab keeps that; the list grows by an answer that is new to the tab when it is handled, and by nothing else. |
| Registry.LastPollIsLastHeartbeat | rust/src/server.rs:80-84 | The noted poll is the last request for the latest plot. |
| Registry.OpensExactlyWhenNoTabPolls | rust/src/server.rs:63-71 | A browser is asked for exactly when every such request so far is older than the window. |
| Registry.AnswersExactlyWhenNoTabPolls | rust/src/server.rs:63-77 | A registration answers that a browser should open exactly when every request for the latest plot before its third lock is over five seconds old. |
| Registry.AnswersAreFinal | rust/src/server.rs:73-77 | What a registration answered never changes. |
| Registry.LocksAreTakenInTurn | rust/src/server.rs:41-78 | A registration takes its three locks in turn, whatever happens in between, and then is over. |
| Registry.ClockCountsSeconds | rust/src/server.rs:14 | The clock is the number of seconds gone by. |
| Locations.MatchesExactlyWhen | rust/assets/app.html:49-56 | The pattern matches exactly an id behind the prefix with at most one slash, and finds that id. |
| Locations.IdCharactersAreSpelledOut | rust/assets/app.html:49-56 | The characters of an id are the written-out letters and digits and the dash. |
| Locations.LocationNamesPlotExactlyWhen | rust/assets/app.html:49-56 | An address names a plot exactly when its hash does, or its hash names none and its old-style path does. |
| Locations.OnlyPlotRequestsAreRouted | rust/src/server.rs:127-155 | Only requests below the plot endpoint are looked up. |
| Locations.RequestFindsId | rust/src/server.rs:127-155 | A request for an id is routed to that id, whatever slashes and query string follow. |
| Locations.PlotUrlLeadsToPlot | rust/src/server.rs:73-77 | The address handed out leads the tab to ask for that plot. |
| PlotViews.Create | rust/assets/hep-viewer.js:558-587 | An unknown scheme throws, draws and attaches nothing, and leaves the document alive; otherwise the new view shows the plot at the measured size under the wanted theme, with no frame pending. |
| PlotViews.PlotView.SizesAreSpelledOut | rust/assets/hep-viewer.js:810-814 | The measured width is the nearest whole number, at least one, to the container's, else the document's, else one; the height the same, or follows from width and aspect. |
| PlotViews.PixelsAreNearest | rust/assets/hep-viewer.js:597-600 | That number, with halves upwards, is the only one. |
| PlotViews.PlotView.SetColorScheme | rust/assets/hep-viewer.js:610-628 | A known scheme sets the theme, attaches the listener exactly for `auto`, and has one frame pending; an unknown one changes nothing. |
| PlotViews.PlotView.Schedule | rust/assets/hep-viewer.js:802-808 | One frame is pending afterwards, the old one if there was one. |
| PlotViews.PlotView.RenderNow | rust/assets/hep-viewer.js:787-794 | The page shows the current plot at the measured size, and a pending frame is cancelled. |
| PlotViews.PlotView.Draw | rust/assets/hep-viewer.js:771-775 | The page is drawn at that size, and not drawn again exactly when that was the last size. |
| PlotViews.PlotView.Emit | rust/assets/hep-viewer.js:776-785 | The markup is the document's at that size and theme, and the render object is freed. |
| PlotViews.PlotView.Resize | rust/assets/hep-viewer.js:597-600 | The last size is the one asked for; the page is current unless a frame is pending. |
| PlotViews.PlotView.OnObserved | rust/assets/hep-viewer.js:757-763 | The same for the content box, or the client size where there is none. |
| PlotViews.PlotView.OnMedia | rust/assets/hep-viewer.js:617-620 | The theme follows the system, and a frame is pending. |
| PlotViews.PlotView.OnFrame | rust/assets/hep-viewer.js:802-814 | The frame leaves the page current at the measured size, with no frame pending. |
| PlotViews.PlotView.Free | rust/assets/hep-viewer.js:736-743 | The document is released once, no frame or listener is left, and nothing is drawn. |
| PlotViews.Deliver | rust/assets/hep-viewer.js:588-821 | Each event keeps the invariant, and a freed view neither draws nor sets the theme. |
| PlotViews.Run | rust/assets/hep-viewer.js:588-821 | After any sequence of events a view that was not freed is current or has its one frame pending, listens exactly under `auto`, and one that was freed before never calls its document. |

## Left out

- The ggsql engine, its writers, DuckDB's query execution and Arrow's readers and cast kernels: each is a
  parameter, so the proofs hold whatever it decides; a cast refuses a column, or converts it cell by cell and keeps nulls.
- Concatenation errors of Arrow appear only as an error message that a statement may end with, and so does the text that its reader makes of a stream's error code and last error.
- HTTP headers, static assets, the page shell, sockets, browser opening, file writing, base64: input and output.
- Picking, fonts, wasm loading, warnings and the id prefix of the markup: user interface and foreign calls.
- Overlapping `renderPlot` calls, `currentUuid`, failing plot fetches, and navigation back to an address without a hash: the code promises nothing about them that the poll loop depends on.
- The wall clock: the 10 ms wait is a step that may end at any time, and five seconds are five ticks.
- A lock that is poisoned by a panic: registrations then fail, which is not a step of the model.
- Locales: `isalnum`, `isspace` and `tolower` are those of the C locale.
- `String::from_utf8_lossy` in `read_err_buffer`: an error message arrives as it was written.
- NaN, infinite or negative measurements of a container: sizes are real numbers, rounded as `Math.round` does.
- Whether an explicit size survives the next frame: a frame measures the container again, so it does not.
- Idempotence of stripping: it does not hold, since a blank in front of the terminator stays.
- Cancellation.RunningQuerySeesInterrupt: two periods less two steps rather than one period, because one is not enough: Ticks.TwoPeriodsAreNeeded.
- Shutdown.ShutdownIsBounded: the bound counts lost races, because C++ promises no fairness and without them there is no bound: Shutdown.BargingCanStarve.
- Marshal.Glue.PassStringToWasm0: says nothing of what memory holds after the allocator aborted, because the exception leaves the glue code; the views stay valid then too.
- Arrays.RoundTrip: as Arrays.RoundTripLater, asks that handles stay below 2^32, the longest array JavaScript has.
- PlotViews.Run: delivers an event only to a listener that is attached and for a frame that is owed, as browsers do.
