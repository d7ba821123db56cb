# Virtual-memory simulator and shell parser, modelled in Dafny

This project models two C programs from an operating-systems course repository.

**The virtual-memory translation simulator** (`Project3/.../part2.c`) reads logical addresses and translates each one to a physical address. The simulator has these parts:

- a logical address splits into a 10-bit page number and a 10-bit offset;
- a 16-entry TLB, whose slots are replaced by a clock sweep over reference bits;
- a 1024-entry page table;
- 256 frames of 1024 bytes, loaded on demand from a backing store;
- a per-frame second-chance (Clock) bit and a per-frame LRU age.

When every frame has been filled, a page fault first evicts a frame. The run's policy flag decides whether that eviction uses the Clock sweep or the largest LRU age. The C globals are the fields of one `Simulator` object (`vm.dfy`), which updates them in place:

- `Translate` is one pass of the main loop (`Fetch` finds the frame and reads the byte, `RecordUse` ages the frames);
- `Run` is the loop itself, one `Step` per address;
- `Simulate` is `main` without its file I/O.

Several pure functions specify the methods, and lemmas prove properties of them:

- `Clock` is the sweep shared by the TLB and the frames.
- `Lru` holds the ages and the victim scan.
- `Search` is the first-match scan.
- `AddressCodec` is the address split.

**The shell** (`Project1/.../src/shell-skeleton.c`) contributes four functions:

- `parse_command`: `ParseCommand` (`command.dfy`) follows the C loops: trimming, the `strtok` walk, the pipe recursion and the argument shift. It is proved to compute `ParseTokens(Split(line))`, a token-level definition whose properties are proved as lemmas.
- `add_dir`: the directory history is a class over a fixed array (`dir_history.dfy`).
- `is_dotfile`: see `files.dfy`.
- `count_lines` of the `cloc` command: a three-state line scanner (`line_counter.dfy`), run over the lines `fgets` returns.

Points where the C code's behaviour is easy to misread:

- Address decoding never fails: the masks bring every `int` into range.
- Only the first TLB slot that matches is invalidated, and under LRU the match is on the page number, not the frame.
- Under Clock, the faulting page is loaded into frame `free_page % FRAMES`, not into the frame the sweep unmapped.
- The LRU ages are updated on every address under both policies.

## Model

| member | source | states |
|---|---|---|
| AddressCodec.Decode | Project3/project-3---virtual-memory-bisey/part2.c:134-135 | page and offset are in range for every 32-bit address, negative ones included, and `page * 1024 + offset` is the address's low 20 bits |
| AddressCodec.Compose | Project3/project-3---virtual-memory-bisey/part2.c:234 | the physical address divides back into the frame and the offset |
| AddressCodec.DecodeComposeRoundTrip | Project3/project-3---virtual-memory-bisey/part2.c:134-135 | composing a decoded address gives its low 20 bits, and decoding a composed address gives the pair back |
| AddressCodec.BitMasksAgree | Project3/project-3---virtual-memory-bisey/part2.c:134-135 | on 32-bit words, `& OFFSET_MASK` is the remainder by 1024, `(& PAGE_MASK) >> 10` is the quotient of the low 20 bits, and `(page << 10) \| offset` restores them |
| Search.FirstIndex | Project3/project-3---virtual-memory-bisey/part2.c:55-62 | the index of the first matching element, with no match before it, or the length when nothing matches |
| Search.FirstIndexAfterWrite | Project3/project-3---virtual-memory-bisey/part2.c:55-78 | writing `x` at `j` makes `j` the first match unless an earlier match exists |
| Search.FirstIndexUnaffected | Project3/project-3---virtual-memory-bisey/part2.c:55-62 | writing some other value at a later position does not move the first match |
| Clock.Slot | Project3/project-3---virtual-memory-bisey/part2.c:169 | the slot `j` steps ahead of the hand is a slot of the clock |
| Clock.Ahead | Project3/project-3---virtual-memory-bisey/part2.c:169 | the distance from the hand to a slot, inverse to Slot |
| Clock.SweepFrom | Project3/project-3---virtual-memory-bisey/part2.c:149-171 | the sweep passes only slots whose bit is set and stops at the first clear one |
| Clock.SweepLength | Project3/project-3---virtual-memory-bisey/part2.c:149-171 | the whole sweep from the hand: every passed slot had its bit set, and it stops at a clear bit or after one full turn |
| Clock.Stop | Project3/project-3---virtual-memory-bisey/part2.c:149-171 | the victim slot is a slot of the clock |
| Clock.Swept | Project3/project-3---virtual-memory-bisey/part2.c:167-169 | the bits after the sweep keep the clock's length |
| Clock.SweepStopsOnClearSlot | Project3/project-3---virtual-memory-bisey/part2.c:149-171 | the victim's bit is clear after the sweep; the sweep only clears bits; it stops at the first clear slot, or back at the hand with every bit cleared after a full turn |
| Lru.AgeStep | Project3/project-3---virtual-memory-bisey/part2.c:237-241 | one ageing step keeps one age per frame |
| Lru.AgesAfter | Project3/project-3---virtual-memory-bisey/part2.c:237-241 | ages after a sequence of uses keep one age per frame |
| Lru.AgesAfterUse | Project3/project-3---virtual-memory-bisey/part2.c:237-241 | one more use is one more ageing step |
| Lru.LastUse | Project3/project-3---virtual-memory-bisey/part2.c:241 | the position of the frame's last use, with no use of it after that position, or -1 |
| Lru.UsedHasLastUse | Project3/project-3---virtual-memory-bisey/part2.c:241 | a frame that was used has a last use |
| Lru.AgeIsTimeSinceLastUse | Project3/project-3---virtual-memory-bisey/part2.c:237-241 | a frame's age is the number of translations since its last use |
| Lru.LruVictim | Project3/project-3---virtual-memory-bisey/part2.c:176-183 | the chosen frame has the largest age, and every later frame is strictly younger, so ties go to the highest index |
| Lru.LruVictimIsLeastRecentlyUsed | Project3/project-3---virtual-memory-bisey/part2.c:173-183 | once every frame has been used, the largest age belongs to the frame whose last use lies strictly furthest back |
| VirtualMemory.TlbAfterInsert | Project3/project-3---virtual-memory-bisey/part2.c:65-78 | the TLB after an insertion has the same number of slots |
| VirtualMemory.TlbInsertIsClockSweep | Project3/project-3---virtual-memory-bisey/part2.c:65-78 | insertion is the clock sweep over the reference bits: the victim slot gets the new page, frame and a set bit, the passed slots lose their bits, and no other page or frame changes |
| VirtualMemory.LookupIgnoresReference | Project3/project-3---virtual-memory-bisey/part2.c:55-60 | setting a reference bit leaves every page, every frame and every lookup result unchanged |
| VirtualMemory.EmptyTlbMisses | Project3/project-3---virtual-memory-bisey/part2.c:108-113 | the initial TLB holds no valid page, so every lookup misses |
| VirtualMemory.PageLoaded | Project3/project-3---virtual-memory-bisey/part2.c:199-219 | after a load, the frame's 1024 bytes are the page's bytes in the backing store, and memory outside the frame is unchanged |
| VirtualMemory.LoadedByte | Project3/project-3---virtual-memory-bisey/part2.c:230-235 | the byte read at an offset of a freshly loaded frame is the backing store's byte at that offset of the page |
| VirtualMemory.TraceExtends | Project3/project-3---virtual-memory-bisey/part2.c:199-235 | a memory trace extended by one translation that loads its page or changes nothing is still a memory trace |
| VirtualMemory.AllReadExtends | Project3/project-3---virtual-memory-bisey/part2.c:234-235 | one more result read from its frame and memory extends the results read so far |
| VirtualMemory.UseKeepsFilledUsed | Project3/project-3---virtual-memory-bisey/part2.c:205-241 | after a fill, every filled frame has been used, including the one just filled |
| VirtualMemory.OldestIsLeastRecentlyUsed | Project3/project-3---virtual-memory-bisey/part2.c:173-183 | once all frames are filled, the LRU scan over the ages picks the least recently used frame |
| VirtualMemory.MapKeepsBelow | Project3/project-3---virtual-memory-bisey/part2.c:211-221 | mapping a page to the next frame to fill keeps every table entry a filled frame or -1 |
| VirtualMemory.InvalidatedInRange | Project3/project-3---virtual-memory-bisey/part2.c:160-165 | invalidating a slot keeps the pages, and turns at most one frame into -1 |
| VirtualMemory.FillKeepsMapping | Project3/project-3---virtual-memory-bisey/part2.c:205-214 | before any eviction, loading into the next free frame keeps every filled frame owned by exactly one page |
| VirtualMemory.ReplaceKeepsMapping | Project3/project-3---virtual-memory-bisey/part2.c:184-224 | an LRU replacement unmaps the victim's page and maps the new one, keeping every frame owned by exactly one page |
| VirtualMemory.Simulator.constructor | Project3/project-3---virtual-memory-bisey/part2.c:103-126 | the page table and TLB hold -1 everywhere, all counters and hands are zero, and the state invariant holds |
| VirtualMemory.Simulator.SearchTlb | Project3/project-3---virtual-memory-bisey/part2.c:55-63 | returns the frame of the first slot holding the page, or -1, and sets that slot's reference bit and nothing else |
| VirtualMemory.Simulator.AddToTlb | Project3/project-3---virtual-memory-bisey/part2.c:65-78 | the TLB becomes TlbAfterInsert of the old TLB, and the hand stands one slot past the victim |
| VirtualMemory.Simulator.SweepTlb | Project3/project-3---virtual-memory-bisey/part2.c:66-77 | the hand stops at the sweep's victim, and exactly the passed slots have lost their reference bits |
| VirtualMemory.Simulator.UnmapFrame | Project3/project-3---virtual-memory-bisey/part2.c:153-158 | unmaps the first page mapped to the frame and returns it, or returns -1 and changes nothing |
| VirtualMemory.Simulator.InvalidateTlbFrame | Project3/project-3---virtual-memory-bisey/part2.c:160-165 | the first slot holding the frame gets frame -1, and nothing else changes |
| VirtualMemory.Simulator.InvalidateTlbPage | Project3/project-3---virtual-memory-bisey/part2.c:191-196 | the first slot holding the page gets frame -1, and nothing else changes |
| VirtualMemory.Simulator.EvictClock | Project3/project-3---virtual-memory-bisey/part2.c:149-171 | the frame hand stops at the sweep's victim, the passed chance bits are cleared, the victim's first page is unmapped, and its first TLB slot is invalidated |
| VirtualMemory.Simulator.SweepClock | Project3/project-3---virtual-memory-bisey/part2.c:149-171 | the loop of the Clock eviction is the Clock sweep |
| VirtualMemory.Simulator.EvictLru | Project3/project-3---virtual-memory-bisey/part2.c:173-196 | the victim is LruVictim of the ages; the page that owns it is always found and unmapped, leaving no page on the victim; that page's first TLB slot is invalidated |
| VirtualMemory.Simulator.FindLruVictim | Project3/project-3---virtual-memory-bisey/part2.c:176-183 | the scan returns LruVictim of the ages |
| VirtualMemory.Simulator.LoadPage | Project3/project-3---virtual-memory-bisey/part2.c:199-219 | memory becomes PageLoaded: the page copied into the frame |
| VirtualMemory.Simulator.AgeFrames | Project3/project-3---virtual-memory-bisey/part2.c:237-241 | the ages become one AgeStep with the frame used |
| VirtualMemory.Simulator.Evict | Project3/project-3---virtual-memory-bisey/part2.c:147-198 | the eviction of the chosen policy, with its exact new state, keeping the TLB's pages and its frames in range |
| VirtualMemory.Simulator.HandleFault | Project3/project-3---virtual-memory-bisey/part2.c:146-229 | the frame is `free_page % FRAMES`, or the LRU victim once LRU has evicted; memory is PageLoaded, the page is mapped to it after the eviction's unmapping, the fault is counted, and the state invariant is kept |
| VirtualMemory.Simulator.MakeRoom | Project3/project-3---virtual-memory-bisey/part2.c:147-224 | the eviction and the choice of frame, with the page-table invariants stated for the table after the page is mapped |
| VirtualMemory.Simulator.Install | Project3/project-3---virtual-memory-bisey/part2.c:205-228 | the page is copied into the frame and mapped to it, and `free_page` and the fault count each grow by one |
| VirtualMemory.Simulator.ResolveMiss | Project3/project-3---virtual-memory-bisey/part2.c:144-231 | a page-table hit keeps the table, memory, counters and frame hand, sets the frame's chance bit and inserts the page into the TLB; a fault evicts (once every frame is filled), loads the page into `free_page % FRAMES` or the LRU victim, maps it, counts the fault, and then does the same; each case gives the whole new table, TLB, chance bits, hands and memory; a page that had no TLB slot is then found in the TLB |
| VirtualMemory.Simulator.FindFrame | Project3/project-3---virtual-memory-bisey/part2.c:138-232 | LookedUp: a TLB hit counts a hit, sets the slot's reference bit and leaves the table, chance bits, hands, memory and fault count unchanged; a miss gives the page-table hit or page-fault state of ResolveMiss; hits plus faults grow by at most one, and `free_page` grows by at most one, filling frame `free_page` while frames remain |
| VirtualMemory.Simulator.Fetch | Project3/project-3---virtual-memory-bisey/part2.c:130-235 | LookedUp for the address's page, and the result is read from the new memory at `frame * 1024 + offset`; memory changes at most by loading the page; a fault reads the backing store's byte |
| VirtualMemory.Simulator.Translate | Project3/project-3---virtual-memory-bisey/part2.c:128-242 | one address: LookedUp for its page; the result carries the address and `frame * 1024 + offset`, and its value is the byte at that physical address of the new memory; memory changes at most by loading the page into the frame; a fault reads the backing store's byte; the ages step and the frame is appended to the use history; the state invariant is kept |
| VirtualMemory.Simulator.RecordUse | Project3/project-3---virtual-memory-bisey/part2.c:237-241 | ageing the frames keeps the ages equal to AgesAfter of every frame used so far |
| VirtualMemory.Simulator.Run | Project3/project-3---virtual-memory-bisey/part2.c:128-244 | `frames` is the use history and `memories` a MemoryTrace from the starting memory: result `i` is `frames[i] * 1024 + offset` of address `i` and the byte there in `memories[i]`, the last memory is the final one; the first address faults and reads the backing store; addresses all on one page give one fault and a TLB hit on every later address |
| VirtualMemory.Simulator.Step | Project3/project-3---virtual-memory-bisey/part2.c:128-244 | one iteration of the address loop keeps Progress: the results, frames and memory snapshots so far, the fault of the first address and the one-page hit count |
| VirtualMemory.InsertKeepsRange | Project3/project-3---virtual-memory-bisey/part2.c:65-78 | inserting a frame or -1 keeps every TLB frame in range |
| VirtualMemory.InsertedLookup | Project3/project-3---virtual-memory-bisey/part2.c:55-78 | after a missed page is inserted, a lookup finds the new frame or -1, and finds the new frame whenever no slot held the page |
| VirtualMemory.LruEvictsLeastRecentlyUsed | Project3/project-3---virtual-memory-bisey/part2.c:173-196 | in every reachable state under LRU with all frames filled, the next victim is the least recently used frame |
| VirtualMemory.StaleSlotShadowsInsert | Project3/project-3---virtual-memory-bisey/part2.c:191-196 | a slot invalidated while holding page 5 still matches page 5, so after page 5 is inserted in frame 7, the lookup still misses |
| VirtualMemory.FirstValid | Project3/project-3---virtual-memory-bisey/part2.c:55-62 | the first slot holding the page together with a frame, with no such slot before it |
| VirtualMemory.ValidLookup | Project3/project-3---virtual-memory-bisey/part2.c:55-62 | the corrected lookup misses exactly when no slot holds the page with a frame, and otherwise returns a frame some slot holds for the page |
| VirtualMemory.ValidLookupAgrees | Project3/project-3---virtual-memory-bisey/part2.c:55-62 | with no invalidated slot for the page, the corrected lookup returns what `search_tlb` returns |
| VirtualMemory.CorrectedInsertedLookup | Project3/project-3---virtual-memory-bisey/part2.c:55-78 | with the corrected lookup, a page that missed is always found in its new frame right after insertion |
| VirtualMemory.Simulate | Project3/project-3---virtual-memory-bisey/part2.c:103-250 | a whole run from zeroed memory: one result per address, each read from its frame in its memory snapshot, the snapshots a MemoryTrace; hits plus faults never exceed the total; the first address faults; one-page input gives one fault and n-1 hits |
| Tokens.WordLength | Project1/project-1---shell-bisey-master/project-1---shell-bisey-master/src/shell-skeleton.c:154 | the length of the leading run of non-splitters, which ends at a splitter or the end |
| Tokens.Split | Project1/project-1---shell-bisey-master/project-1---shell-bisey-master/src/shell-skeleton.c:137-156 | every token that `strtok` returns is non-empty and holds no space or tab |
| Tokens.Leading | Project1/project-1---shell-bisey-master/project-1---shell-bisey-master/src/shell-skeleton.c:116-120 | the number of leading splitters; the next character is not one |
| Tokens.Kept | Project1/project-1---shell-bisey-master/project-1---shell-bisey-master/src/shell-skeleton.c:122-125 | the length without trailing splitters; the last kept character is not one |
| Tokens.Trim | Project1/project-1---shell-bisey-master/project-1---shell-bisey-master/src/shell-skeleton.c:116-125 | a non-empty trimmed line does not end in a splitter |
| Tokens.SplitSkipsSplitter | Project1/project-1---shell-bisey-master/project-1---shell-bisey-master/src/shell-skeleton.c:154 | a splitter contributes no token |
| Tokens.SplitAtWord | Project1/project-1---shell-bisey-master/project-1---shell-bisey-master/src/shell-skeleton.c:154 | a maximal run of non-splitters is the next token |
| Tokens.SplitIgnoresTrailingSplitter | Project1/project-1---shell-bisey-master/project-1---shell-bisey-master/src/shell-skeleton.c:122-125 | a splitter appended at the end adds no token |
| Tokens.WordLengthOfExtension | Project1/project-1---shell-bisey-master/project-1---shell-bisey-master/src/shell-skeleton.c:154 | a splitter appended at the end does not change the first word |
| Tokens.SplitOfTrim | Project1/project-1---shell-bisey-master/project-1---shell-bisey-master/src/shell-skeleton.c:116-137 | trimming does not change the tokens |
| Tokens.SplitSkipsLeading | Project1/project-1---shell-bisey-master/project-1---shell-bisey-master/src/shell-skeleton.c:116-120 | dropping the leading splitters does not change the tokens |
| Tokens.SplitSkipsTrailing | Project1/project-1---shell-bisey-master/project-1---shell-bisey-master/src/shell-skeleton.c:122-125 | dropping the trailing splitters does not change the tokens |
| Tokens.LastTokenEndsLine | Project1/project-1---shell-bisey-master/project-1---shell-bisey-master/src/shell-skeleton.c:127-137 | a line ending in a non-splitter has tokens, and its last token ends with that character |
| Tokens.TrimmedEndIsLastToken | Project1/project-1---shell-bisey-master/project-1---shell-bisey-master/src/shell-skeleton.c:127-144 | the trimmed line is empty exactly when there are no tokens; otherwise its last character ends the last token |
| Tokens.EndsOfUntrailed | Project1/project-1---shell-bisey-master/project-1---shell-bisey-master/src/shell-skeleton.c:127-137 | a line without a trailing splitter is empty exactly when it has no tokens, and otherwise its last character ends its last token |
| CommandParser.RedirectIndex | Project1/project-1---shell-bisey-master/project-1---shell-bisey-master/src/shell-skeleton.c:203-217 | a token is a redirect exactly when it starts with `<` or `>`; the slot is 0, 1 or 2 |
| CommandParser.Unquote | Project1/project-1---shell-bisey-master/project-1---shell-bisey-master/src/shell-skeleton.c:228-235 | an argument longer than two characters, wrapped in matching quotes, loses both quotes; every other argument is unchanged |
| CommandParser.Gather | Project1/project-1---shell-bisey-master/project-1---shell-bisey-master/src/shell-skeleton.c:152-242 | the token loop keeps exactly three redirect slots |
| CommandParser.NextToken | Project1/project-1---shell-bisey-master/project-1---shell-bisey-master/src/shell-skeleton.c:154 | `strtok(NULL, " \t")` returns the first remaining token, or NULL when none is left, and the rest of the buffer holds exactly the remaining tokens |
| CommandParser.WordThenRest | Project1/project-1---shell-bisey-master/project-1---shell-bisey-master/src/shell-skeleton.c:154 | the word found after skipping splitters is the first token, and the tokens after it are the rest |
| CommandParser.SkipSplitters | Project1/project-1---shell-bisey-master/project-1---shell-bisey-master/src/shell-skeleton.c:154 | skipping splitters stops at a non-splitter or the end and loses no token |
| CommandParser.WordEnd | Project1/project-1---shell-bisey-master/project-1---shell-bisey-master/src/shell-skeleton.c:154 | the scan stops at the end of the run of non-splitters |
| CommandParser.TrimLine | Project1/project-1---shell-bisey-master/project-1---shell-bisey-master/src/shell-skeleton.c:116-125 | the two trimming loops produce Trim of the line |
| CommandParser.ParseCommand | Project1/project-1---shell-bisey-master/project-1---shell-bisey-master/src/shell-skeleton.c:111-261 | `parse_command` computes ParseTokens of the line's tokens |
| CommandParser.GatherTokens | Project1/project-1---shell-bisey-master/project-1---shell-bisey-master/src/shell-skeleton.c:148-243 | the `strtok` loop, including the recursive parse after a pipe, gathers what Gather gives for the remaining tokens |
| CommandParser.BuildArgv | Project1/project-1---shell-bisey-master/project-1---shell-bisey-master/src/shell-skeleton.c:245-258 | the shifted argument array is the name, then the arguments in order, then NULL |
| CommandParser.ArgvShape | Project1/project-1---shell-bisey-master/project-1---shell-bisey-master/src/shell-skeleton.c:250-258 | an array with the name first, NULL last and the arguments in between is exactly that sequence |
| CommandParser.ArgumentVectorShape | Project1/project-1---shell-bisey-master/project-1---shell-bisey-master/src/shell-skeleton.c:243-258 | every parsed command has `arg_count` entries, the name first, NULL last, no NULL in between, and three redirect slots |
| CommandParser.NameAndFlags | Project1/project-1---shell-bisey-master/project-1---shell-bisey-master/src/shell-skeleton.c:127-144 | the name is the first token, or empty; background is set exactly when the trimmed line ends with `&`; auto-complete is set exactly when it ends with `?` |
| CommandParser.LastCharOfLine | Project1/project-1---shell-bisey-master/project-1---shell-bisey-master/src/shell-skeleton.c:127-135 | the last character of the last token is the last character of the trimmed line |
| CommandParser.GatherPlain | Project1/project-1---shell-bisey-master/project-1---shell-bisey-master/src/shell-skeleton.c:228-241 | plain tokens become arguments, unquoted, in input order, with nothing else changed |
| CommandParser.PlainLine | Project1/project-1---shell-bisey-master/project-1---shell-bisey-master/src/shell-skeleton.c:137-258 | a line of plain tokens parses to its name, the other tokens unquoted, NULL, no redirect and no pipe |
| CommandParser.RedirectTakesNextToken | Project1/project-1---shell-bisey-master/project-1---shell-bisey-master/src/shell-skeleton.c:203-226 | a redirect stores the next token in its slot, and neither token becomes an argument |
| CommandParser.NoPipeNoSuccessor | Project1/project-1---shell-bisey-master/project-1---shell-bisey-master/src/shell-skeleton.c:182-195 | without a `\|` token there is no piped command |
| CommandParser.PipeSplitsLine | Project1/project-1---shell-bisey-master/project-1---shell-bisey-master/src/shell-skeleton.c:182-195 | at a `\|` token, the tokens after it form the piped command, parsed on its own, and the first command's arguments end |
| FileFilters.IsDotfile | Project1/project-1---shell-bisey-master/project-1---shell-bisey-master/src/shell-skeleton.c:526-528 | only a non-empty name can be a dotfile |
| FileFilters.DotfileIffDotPrefix | Project1/project-1---shell-bisey-master/project-1---shell-bisey-master/src/shell-skeleton.c:526-528 | a name is a dotfile exactly when it is a dot followed by anything |
| FileFilters.HasExtension | Project1/project-1---shell-bisey-master/project-1---shell-bisey-master/src/shell-skeleton.c:541-544 | a match needs an extension no longer than the path |
| FileFilters.ExtensionIsSuffix | Project1/project-1---shell-bisey-master/project-1---shell-bisey-master/src/shell-skeleton.c:541-544 | every name ending in the extension matches, and every matching path is a stem followed by the extension |
| LineCounter.ScanLine | Project1/project-1---shell-bisey-master/project-1---shell-bisey-master/src/shell-skeleton.c:591-620 | with `//` comments ending at their line, a line never ends in the line-comment state |
| LineCounter.CountLines | Project1/project-1---shell-bisey-master/project-1---shell-bisey-master/src/shell-skeleton.c:539-626 | returns 0 and leaves the counters alone for a wrong extension or an unopened file; otherwise returns 1 with the counters of the scanner run over every line |
| LineCounter.SkipBlanks | Project1/project-1---shell-bisey-master/project-1---shell-bisey-master/src/shell-skeleton.c:570-573 | stops at the first character that is not a space or tab |
| LineCounter.ScanRest | Project1/project-1---shell-bisey-master/project-1---shell-bisey-master/src/shell-skeleton.c:591-620 | the character loop ends in the scanner's state and adds one comment per comment opened |
| LineCounter.BlankLines | Project1/project-1---shell-bisey-master/project-1---shell-bisey-master/src/shell-skeleton.c:575-577 | there are at most as many blank lines as lines |
| LineCounter.EveryLineClassified | Project1/project-1---shell-bisey-master/project-1---shell-bisey-master/src/shell-skeleton.c:568-590 | `blanks` counts exactly the blank lines; blanks plus code never exceed the lines; the three counters together cover every line |
| LineCounter.LineCommentAbsorbs | Project1/project-1---shell-bisey-master/project-1---shell-bisey-master/src/shell-skeleton.c:608-610 | as written, scanning from the line-comment state stays there and opens nothing |
| LineCounter.LineCommentNeverEnds | Project1/project-1---shell-bisey-master/project-1---shell-bisey-master/src/shell-skeleton.c:592-620 | as written, once the state is LINE_COMMENT it stays there to the end of the file and no later line counts as code |
| LineCounter.CommentThenStatement | Project1/project-1---shell-bisey-master/project-1---shell-bisey-master/src/shell-skeleton.c:592-620 | for a comment line followed by a statement, as written the counts are (0, 2, 1); with comments ending at their line they are (0, 1, 2) |
| LineCounter.CorrectedLineWithoutBlockComment | Project1/project-1---shell-bisey-master/project-1---shell-bisey-master/src/shell-skeleton.c:591-620 | with `//` comments ending at their line, a line without a block-comment opener ends in code |
| LineCounter.CorrectedCountsCode | Project1/project-1---shell-bisey-master/project-1---shell-bisey-master/src/shell-skeleton.c:568-620 | with `//` comments ending at their line, a file without block comments counts every non-blank line as code |
| DirHistory.Stored | Project1/project-1---shell-bisey-master/project-1---shell-bisey-master/src/shell-skeleton.c:486-492 | every directory other than `..` is stored as given |
| DirHistory.Pushed | Project1/project-1---shell-bisey-master/project-1---shell-bisey-master/src/shell-skeleton.c:477-494 | the new entry comes first, followed by the old entries in order, dropping the oldest one when the history is full |
| DirHistory.AddAll | Project1/project-1---shell-bisey-master/project-1---shell-bisey-master/src/shell-skeleton.c:477-494 | the history never exceeds MAX_DIRS entries |
| DirHistory.HistoryIsMostRecentFirst | Project1/project-1---shell-bisey-master/project-1---shell-bisey-master/src/shell-skeleton.c:477-494 | after any sequence of additions, the history holds the last MAX_DIRS directories, or all of them, most recent first |
| DirHistory.PushKeepsMostRecentFirst | Project1/project-1---shell-bisey-master/project-1---shell-bisey-master/src/shell-skeleton.c:477-494 | one addition keeps the history most recent first |
| DirHistory.History.constructor | Project1/project-1---shell-bisey-master/project-1---shell-bisey-master/src/shell-skeleton.c:18-19 | the history starts empty, with MAX_DIRS slots |
| DirHistory.History.AddDir | Project1/project-1---shell-bisey-master/project-1---shell-bisey-master/src/shell-skeleton.c:477-494 | the array's entries become Pushed of the old entries |
| DirHistory.AddEach | Project1/project-1---shell-bisey-master/project-1---shell-bisey-master/src/shell-skeleton.c:676-677 | a series of `cd` commands leaves the history equal to AddAll of their directories |

## Left out

- Reading the command line, the input file and the backing-store file, and printing the results. Addresses arrive as a sequence of `int` values, which is what `atoi` returns. The backing store arrives as a byte sequence. That sequence stands for both the `mmap` of the file, which the C code never reads, and the `fopen`/`fseek`/`fread` it repeats on every page fault.
- The policy selector check and its usage errors (`main`, lines 81-94): the policy is a boolean parameter.
- The final rates, which are floating-point divisions.
- VirtualMemory.Simulator.Run: requires every address's page to lie inside the backing store. Beyond its end, the C `fread` fails and the frame receives whatever the stack buffer held, which the model does not represent.
- VirtualMemory.Simulator.Translate: requires the same of its one address.
- VirtualMemory.Simulator.Fetch: requires the same of its one address.
- VirtualMemory.Simulator.Step: requires the same of the address it translates.
- VirtualMemory.Simulate: requires the same of every address.
- The `-1` sentinel of the unsigned TLB fields is the integer -1. The unsigned comparison in `search_tlb` never matches a page in 0..1023 against it, and the integer comparison behaves the same way.
- CommandParser.ParseCommand: models a command structure that starts zeroed. A caller that passes a used structure keeps its old flags and redirects in the C code.
- CommandParser.ParseCommand: leaves out the 1024-byte `temp_buf`, so a token longer than 1023 characters is not modelled as an overflow.
- CommandParser.ParseCommand: the per-token trimming at lines 161-180 is not modelled as separate steps. `strtok` never returns a token that is empty or holds a splitter, so those branches cannot be taken.
- CommandParser.GatherTokens: after a `|`, the piped command is parsed from the rest of the line. The outer loop then ends, because the nested call has run the shared `strtok` state to the end.
- CommandParser.GatherTokens: for `ls |`, the model parses the piped command from an empty rest of the line. In the C code, `pch[l] = splitters[0]` (lines 185-186) overwrites the string terminator, so the nested parse reads whatever bytes follow in the line buffer.
- CommandParser.GatherTokens: the piped command is `malloc`ed without being zeroed (line 184), so in the C code its background and auto-complete flags, its redirects and its `next` are indeterminate. The model gives them false and None.
- Memory management in `parse_command` and `add_dir` (`malloc`, `realloc`, `free`, `strdup`) is left out. That includes `add_dir` freeing the literal it stored for `..`.
- DirHistory.History.constructor: the C slots start as NULL pointers; here they start as empty strings. `navigate_dir` (lines 502-517), which is not part of this model, reads slot `index - 1` whatever `num_dirs` is: letters `a` to `i` and characters `1` to `;` pick slots 0 to 10, and any other character reads `dirs[-2]`.
- `navigate_dir` and `print_dirs` are not part of this model.
- The simulator's counters (`totalAddresses`, `tlbHits`, `pageFaults`) and the LRU ages are unbounded naturals. In the C code they are `int` (part2.c lines 47, 119-121 and 238), which overflows after 2^31 addresses.
- The directory walk of `cloc` is not part of this model. Neither is `is_binary`, which calls `stat`.
- LineCounter.CountLines: the file is given as the lines `fgets` returns, or as None when `fopen` fails. A line longer than 1023 characters reaches the scanner as several chunks, exactly as `fgets` splits it.
- FileFilters.HasExtension: when the extension is longer than the path, the C code compares from before the start of the string. The model treats that as no match.

## Findings

| source | as written | input that shows it | evidently intended | confidence | as-written member | corrected member |
|---|---|---|---|---|---|---|
| Project1/project-1---shell-bisey-master/project-1---shell-bisey-master/src/shell-skeleton.c:592-620 | the LINE_COMMENT state is never left: neither the newline nor the end of the line resets it to CODE, so every line after the first `//` comment counts as a comment | the file `// c` then `x;` gives blanks 0, comments 2, code 1 | a `//` comment ends with its line, so `x;` is code: blanks 0, comments 1, code 2 | not executed | LineCounter.CommentThenStatement | LineCounter.CorrectedCountsCode |
| Project3/project-3---virtual-memory-bisey/part2.c:160-196 | eviction sets a TLB slot's frame to -1 but leaves its page number; `search_tlb` stops at that slot and reports a miss, even after the page is loaded again and inserted into a later slot | slot 0 holds page 5 with frame -1 and the hand is at slot 1; after page 5 is inserted in frame 7, looking up page 5 still returns -1 | an evicted translation no longer matches its page, so the reinserted page is found in its new frame | not executed | VirtualMemory.StaleSlotShadowsInsert | VirtualMemory.CorrectedInsertedLookup |
