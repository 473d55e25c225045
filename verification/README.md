# Winix in Dafny

A model of the parts of Winix, a small UNIX-style kernel with a C library, that carry the hardest
invariants, with proofs that hold for every input, every state and every sequence of calls.

`dafny verify dfyconfig.toml` checks the whole project.

## What is modelled

**Regular expressions** (`lib/regex/regexp.c`; files `RegexSyntax` to `RegexTheorems`, `CStrings`). The two-pass
recursive-descent compiler is the class `RegexCompile.Comp`, which emits into an array of exactly the size that the
first pass counted. Patterns have a syntax tree, and `RegexSyntax.Parse` is proved to be the inverse of printing
it, so the tree is what the compiled text means and not a convention of the model. Code is given in closed
form by `RegexCode.CodeProgram`; every `regtail` is a change from one closed form to the next. The matcher is the class
`RegexExec.Exec`, whose methods terminate because every node of a compiled program has a rank that falls along
links which consume nothing. Matching is related to an ordered list of ways to match, and that to a textbook
denotation `RegexSemantics.MatchAlts`. The denotation takes a flag: read strictly, a literal must stand at the
position; read loosely, it must occur somewhere from there on, which is what the `strstr` in `regmatch` tests. The program is complete
for the strict reading, sound for the loose one, and both readings agree exactly when literals have one character. Which of several
matches is reported is stated with traces (`RegexTraces`): the choices made and the groups passed through, defined without
backtracking. The match reported is that of the trace whose choices come first, and each submatch is the last passage through its group.

**Block cache and files** (`fs/cache.c`, `fs/rootfs.c`, `fs/inode.c`; `BlockCache`, `FileIO`). The abstract
content of a block is what its buffer holds, or else what the disk holds. No operation changes it except a write to a
held buffer, and file reads and writes over the cache agree with one sequence of cells per file.

**Memory** (`winix/bitmap.c`, `winix/mm.c`, `winix/slab.c` and their callers; `Bitmap`, `Pages`, `Slab`). The
ghost owner of every page ties the system bitmap to all protection tables and address ranges. The kernel heap's
blocks tile exactly the pages obtained, and these are pages that the page allocator gave to the kernel.

**Pipes, timers, messages, signals, paths, numbers** (`Pipes`, `Timers`, `Ipc`, `Signals`, `Paths`, `Numbers`).
Each is a class or a set of methods with the invariant that every call keeps, and theorems about it.

Code that changes state is modelled by classes and methods with loops, code that computes by functions. A table of
structures is a sequence of records, with indices for links. What comes from elsewhere is a parameter: whether kernel memory
was available to a pipe, the uninitialised words of a signal frame, what lies beyond the terminator of an empty string or
beyond a bitmap.

## Where the program does not do what one would expect

- A literal of several characters in a pattern matches if it occurs anywhere later (`LooseTestIsExactIff`, `AnchoredExactIff`).
- On an empty subject a pattern with a known first character is searched beyond the terminator (`OverrunCounterexample`).
- A block number beyond the disk is refused on a miss but not on the next call (`AskTwice`). When the disk is full,
  a write goes on to such a block exactly if the bitmap has a clear bit for one (`RootFsWrite`).
- A read past the end of a file stops there only if the recorded size is in the first block and is what was written, or if
  the file ends at a block's end with no zone after it (`ReadStopsAtEndIff`, `ReadsBeyondEnd`).
- `fork` does not move the top of the heap. So the child's heap shrinks like the parent's only if the parent's break is not
  above the heap's top, and there is room for the child low enough (`ForkedHeapShrinks`, `ForkedHeapStuck`).
- `kmalloc` of more than 1018 words is met only if a free block is large enough; memory for a new one is too small
  (`Kmalloc`, `TooSmall`).
- `kfree` does not merge with the next block when the previous one is free but elsewhere (`Kfree`, `StuckHeap`).
- A read of nothing from a pipe destroys what it holds (`PipeRead`), and a second waiting reader may be left behind
  (`PipeWrite`).
- Removing the only timer leaves `next_timeout` behind (`RemoveTimer`).
- The deadlock check of a blocking send looks one step ahead only (`SendClosesCycleIff`, `RingOfThree`).
- A message that waits to be received is overwritten if its sender waits for a reply and is sent something meanwhile
  (`DoSend`, `OverwrittenMessage`).
- There is one saved signal mask only. After nested handlers the mask is the one that was in force when the last interrupted
  handler was interrupted (`MaskRestoredIff`, `ThreeDeep`).
- Resolving "/" finds the root as last directory, not as the inode looked for (`CwdLeadsBack`).
- The decimal digits of a negative number are not read back (`AtoiUndoesKputdIff`).

## Model

| member | source | states |
|---|---|---|
| RegexSyntax.ParseIsInverseOfPrint | lib/regex/regexp.c:249-533 | The compiler's grammar accepts a text as a tree exactly if the tree is well formed and prints as that text; so every text has at most one tree |
| RegexSyntax.ParseAtomSound | lib/regex/regexp.c:429-533 | An accepted atom is well formed, prints as the text consumed and numbers its parentheses as the counter says |
| RegexSyntax.ParseAtomComplete | lib/regex/regexp.c:429-533 | Every well-formed atom that stands in the text is what the compiler reads there |
| RegexErrors.ErrorIsThere | lib/regex/regexp.c:249-533 | The error of a rejected pattern names a fault that is there, at a place in the text |
| RegexErrors.WidthIff | lib/regex/regexp.c:371-382 | An atom is flagged HASWIDTH exactly if it matches the empty stretch of no subject |
| RegexCode.LinkRoundTrip | lib/regex/regexp.c:597-617 | A link below 2^15 survives its encoding in two cells |
| RegexCode.HookAtom | lib/regex/regexp.c:597-617 | Setting the open link of an atom's code yields the code of the atom with that exit, so code can be relocated |
| RegexCode.HookBranch | lib/regex/regexp.c:597-617 | The same for an alternative |
| RegexCode.ChainBranch | lib/regex/regexp.c:597-612 | The chain of links from an alternative's first node leads through all its pieces to its open end or its exit |
| RegexTie.StarTies | lib/regex/regexp.c:390-396 | The link operations of x* turn the emitted nodes into the loop's closed form |
| RegexTie.PlusTies | lib/regex/regexp.c:399-405 | The same for x+ |
| RegexTie.QuestTies | lib/regex/regexp.c:406-413 | The same for x? |
| RegexCompile.Comp.RegC | lib/regex/regexp.c:560-571 | Emits one cell, or counts it |
| RegexCompile.Comp.RegNode | lib/regex/regexp.c:538-558 | Emits a node with a null link, or counts three cells |
| RegexCompile.Comp.RegInsert | lib/regex/regexp.c:576-592 | Puts a node before the operand, whose code moves up unchanged |
| RegexCompile.Comp.RegTail | lib/regex/regexp.c:597-617 | Ties the end of the chain from p to val and changes nothing else |
| RegexCompile.Comp.RegOpTail | lib/regex/regexp.c:622-632 | The same for the operand of a BRANCH; nothing for other nodes |
| RegexCompile.Comp.RegSet | lib/regex/regexp.c:450-484 | A bracketed set: its members in order, or the error of the grammar |
| RegexCompile.Comp.RegLiteral | lib/regex/regexp.c:510-529 | Gathers the longest run of ordinary characters that leaves a repeated one alone |
| RegexCompile.Comp.RegAtom | lib/regex/regexp.c:429-533 | Emits the atom's code, or counts it, with the flags and the error the grammar says |
| RegexCompile.Comp.RegRep | lib/regex/regexp.c:388-413 | Wraps the operand just emitted into the code of its repetition |
| RegexCompile.Comp.RegPiece | lib/regex/regexp.c:360-419 | The same as RegAtom for an atom with its repetition |
| RegexCompile.Comp.RegBranch | lib/regex/regexp.c:319-355 | The same for one alternative, its pieces linked in order |
| RegexCompile.Comp.RegHookAll | lib/regex/regexp.c:291-297 | The final loop of reg hooks the tail of every alternative to the closing node |
| RegexCompile.Comp.Reg | lib/regex/regexp.c:249-314 | The same for a choice, with or without parentheses, including all errors |
| RegexComp.RegComp | lib/regex/regexp.c:160-243 | Rejects exactly what the grammar rejects and what is too big; otherwise the program is the closed form, of the size the first pass counted, with the right hints |
| RegexComp.DigHints | lib/regex/regexp.c:200-235 | The hints read off the program are those that follow from the pattern |
| RegexComp.LongestOnChain | lib/regex/regexp.c:224-232 | The last longest literal on the top-level chain |
| RegexHints.WalkProgram | lib/regex/regexp.c:224-232 | The walk along the top-level chain finds the last longest literal of the pattern that is not repeated |
| RegexHints.LongestMeaning | lib/regex/regexp.c:224-232 | The required literal is the last of the longest unrepeated top-level literals, and none only if there is none |
| RegexHints.StartRulesOut | lib/regex/regexp.c:205-211 | Where the first character differs from regstart there is no way to match |
| RegexHints.AnchorRulesOut | lib/regex/regexp.c:212-213 | An anchored pattern matches only at the beginning |
| RegexHints.MustRulesOut | lib/regex/regexp.c:214-233 | That literal is one that every match contains: a subject without it has no match |
| RegexRank.EntryAtomIndependent | lib/regex/regexp.c:280-289 | HASWIDTH is sound: the rank of such an atom does not depend on what follows, so a loop over it is well founded |
| RegexRank.CompiledIsRanked | lib/regex/regexp.c:754-909 | Every compiled program has ranks that fall along all links that consume nothing, and every link lands on a node of the program |
| RegexSemantics.AltsWidth | lib/regex/regexp.c:280-289 | A match stays inside the subject, and one of a pattern flagged HASWIDTH is not empty |
| RegexSemantics.AltsAgree | lib/regex/regexp.c:754-909 | The ordered ways to match reach exactly the ends that the denotation allows |
| RegexSemantics.SetMeaning | lib/regex/regexp.c:450-484 | A set lists the characters written in it and those in its ranges |
| RegexSemantics.LooseTestIsExactIff | lib/regex/regexp.c:791-803 | The strstr test is the test for a literal at this place exactly for literals of one character |
| RegexSemantics.LooseCounterexample | lib/regex/regexp.c:791-803 | For every longer literal, a subject that the test wrongly accepts |
| RegexSemantics.RereadAlts | lib/regex/regexp.c:791-803 | A strict match is a loose one; the converse holds if all literals have one character |
| RegexMatch.RunProgram | lib/regex/regexp.c:754-909 | Running a compiled program yields the first of the ordered ways to match its pattern |
| RegexTraces.AltsTraces | lib/regex/regexp.c:754-909 | The ordered ways to match are all the traces of the pattern, once each, in the order of their choices, with the last passage through each group |
| RegexTraces.FirstIsPreferred | lib/regex/regexp.c:857-897 | The first way is that of the trace preferred to all others: earlier alternatives and more iterations first |
| RegexTraces.PreferredUnique | lib/regex/regexp.c:857-897 | There is only one such trace |
| RegexTraces.TracesReach | lib/regex/regexp.c:754-909 | Traces end exactly where the pattern matches |
| RegexExec.Exec.RegMatch | lib/regex/regexp.c:754-909 | regmatch terminates and computes that run, recording the submatches |
| RegexExec.Exec.MatchTest | lib/regex/regexp.c:765-820 | The nodes that test the input |
| RegexExec.Exec.MatchGroup | lib/regex/regexp.c:825-856 | Parentheses: the record of the last passage through a group stays, and only on success |
| RegexExec.Exec.MatchBranches | lib/regex/regexp.c:857-875 | Alternatives are tried in order |
| RegexExec.Exec.MatchLoop | lib/regex/regexp.c:876-897 | The simple loops try the longest repetition first, and the look at the next character loses nothing |
| RegexExec.Exec.RegRepeat | lib/regex/regexp.c:914-946 | How often the operand matches in a row |
| RegexExec.Exec.RegTry | lib/regex/regexp.c:718-748 | Clears the records, runs the program and records the whole match |
| RegexExec.NextCharRulesOut | lib/regex/regexp.c:876-891 | A literal whose first character is not the next one fails |
| RegexSearch.SearchFrom | lib/regex/regexp.c:699-705 | Trying only where the first character stands finds what trying everywhere finds |
| RegexSearch.SearchAll | lib/regex/regexp.c:707-711 | Trying everywhere in order |
| RegexSearch.RegExec | lib/regex/regexp.c:664-713 | With all shortcuts the answer is that of trying every position in order, with the same submatches, for every non-empty subject and for every pattern without a known first character; otherwise both are those of a search behind the terminator |
| RegexTheorems.SearchMeaning | lib/regex/regexp.c:664-713 | The search succeeds exactly if the pattern matches somewhere, at the leftmost place where it does |
| RegexTheorems.SearchComplete | lib/regex/regexp.c:754-909 | What the textbook meaning matches is found, for all patterns |
| RegexTheorems.SearchSound | lib/regex/regexp.c:754-909 | What is found matches, if all literals have one character |
| RegexTheorems.AnchoredExactIff | lib/regex/regexp.c:791-803 | The search for ^text agrees with its textbook meaning on all subjects exactly if text has one character |
| RegexTheorems.EmptySubject | lib/regex/regexp.c:699-705 | A pattern with a known first character does not match the empty subject |
| RegexTheorems.OverrunCounterexample | lib/regex/regexp.c:699-705 | Yet the search may report a match, in memory after the terminator |
| RegexTheorems.GroupsAreMatches | lib/regex/regexp.c:825-856 | Every recorded submatch is a match of its parenthesised pattern |
| RegexTheorems.PreferredIsReported | lib/regex/regexp.c:664-713 | The search reports the preferred match at the leftmost place, and the last passage through every group |
| RegexTheorems.CompileAndSearch | lib/regex/regexp.c:160-713 | regcomp and then regexec: what the textbook meaning matches is found, at a place left of which nothing matches even loosely; what is found matches if all literals have one character; the arrays hold the bounds of the preferred match and of the last passage through each group, -1 for none |
| CStrings.StrChr | lib/ansi/string.c:125-130 | The first occurrence from i on, or none |
| CStrings.Compare | lib/ansi/string.c:135-147 | Whether Y stands at the head of X |
| CStrings.StrStr | lib/ansi/string.c:150-162 | Whether the needle occurs from i on; an empty needle never does |
| CStrings.StrCSpn | lib/ansi/string.c:164-173 | The longest run without the given characters |
| CStrings.StrSpn | lib/ansi/string.c:175-181 | The longest run of the given characters |
| CStrings.MemMove | lib/ansi/string.c:183-213 | Copies correctly also when the ranges overlap |
| BlockCache.Cache.constructor | fs/cache.c:203-221 | An empty cache: every block has the content of the disk |
| BlockCache.Cache.RmLru | fs/cache.c:48-60 | Takes a buffer out of the linked list wherever it is, also the only one |
| BlockCache.Cache.DequeueBuf | fs/cache.c:62-72 | Takes off the buffer put back longest ago, if there is one; after the only one the list's front is stale |
| BlockCache.Cache.EnqueueBuf | fs/cache.c:74-81 | Appends a buffer |
| BlockCache.Cache.DevRead | fs/rootfs.c:24-41 | As many cells as the disk has from there; the rest of the buffer is kept |
| BlockCache.Cache.DevWrite | fs/rootfs.c:43-59 | As many cells as fit are written, and no others |
| BlockCache.SplicedBlock | fs/rootfs.c:43-59 | Writing one block of the disk changes that block and no other |
| BlockCache.WriteBackKeeps | fs/cache.c:170-174 | A write-back changes neither the content of any block nor the invariant |
| BlockCache.ReuseKeeps | fs/cache.c:176-187 | Neither does reusing a clean buffer for another block |
| BlockCache.Cache.GetBlockBuffer | fs/cache.c:150-190 | Hit, miss and failure; no content changes; only the buffer evicted gets another block; evictions follow the order of puts; at most one buffer per block; the reference counts |
| BlockCache.Cache.AskTwice | fs/cache.c:150-190 | A block beyond the disk that is refused at the first call and granted at the second |
| BlockCache.Cache.PutBlockBuffer | fs/cache.c:138-148 | The buffer becomes the last to be evicted; no content changes |
| BlockCache.Cache.PutBlockBufferDirt | fs/cache.c:133-136 | The same, and what was written to the buffer is safe |
| BlockCache.Cache.FlushAll | fs/cache.c:83-94 | No content changes, no buffer stays dirty, and if no write is pending the disk equals the content |
| FileIO.FileSystem.AllocBlock | fs/inode.c:64-90 | The lowest free block is marked and counted, or all are in use and nothing changes |
| FileIO.SearchOutcome | fs/inode.c:64-90 | The search for a block finds one of the disk exactly if one is free, else a bit beyond the disk exactly if one is clear |
| FileIO.AllocKeeps | fs/inode.c:64-90 | A new zone keeps all files, and no block backs two zones |
| FileIO.WriteKeeps | fs/rootfs.c:184-200 | A write in one zone changes one file's sequence as an overwrite there, and no other file |
| FileIO.FileSystem.RootFsWrite | fs/rootfs.c:160-214 | The file's sequence is overwritten at the position by what was written: all of it exactly if there are as many free blocks as zones missing; else up to the zone without one, with ENOSPC or a block beyond the disk, and which; what is left is exactly the free blocks less the zones given, in the bitmap and in the counts |
| FileIO.FileSystem.RootFsRead | fs/rootfs.c:101-148 | How many cells any read delivers and which; below the highest position written they are the latest ones; exactly when a read past the end stops there |
| FileIO.ReadStopsAtEndIff | fs/rootfs.c:101-148 | A read past the end stops there exactly if the recorded size is in the first block and is what was written, or the file ends at a block's end with no zone after it |
| FileIO.ReadsBeyondEnd | fs/rootfs.c:101-148 | A write and then a read that delivers cells never written |
| Bitmap.InitBitmap | winix/bitmap.c:19-25 | Mask j has bit j on, counted from the most significant one |
| Bitmap.OnAfterSet | winix/bitmap.c:163-173 | Setting a bit of a word changes no other |
| Bitmap.OnAfterClear | winix/bitmap.c:178-188 | Nor does clearing one |
| Bitmap.SearchFrom | winix/bitmap.c:79-103 | The lowest run of clear bits from start on, across words, exactly if there is one |
| Bitmap.SearchReverse | winix/bitmap.c:117-137 | The highest run, exactly if there is one |
| Bitmap.SetBits | winix/bitmap.c:163-173 | Exactly the bits of the range are set, or an error and nothing |
| Bitmap.ClearBits | winix/bitmap.c:178-188 | Exactly the bits of the range are cleared, or an error and nothing |
| Bitmap.IsBitOn | winix/bitmap.c:377-383 | The bit, and false beyond the map, exactly if it is not the first bit after the map, or that one is clear |
| Pages.Memory.constructor | winix/mm.c:263-276 | The kernel's image and the last page are reserved, all else is free |
| Pages.Memory.GetFreePages | winix/mm.c:87-101 | The lowest or highest free run, exactly if one exists, and it is always marked |
| Pages.Memory.UserGetFreePages | winix/mm.c:112-125 | The lowest or highest free run, exactly if one exists, is marked in the protection table too |
| Pages.Memory.UserGetFreePagesFrom | winix/mm.c:133-165 | Succeeds exactly if the pages asked for, from the page of the address on, are free |
| Pages.Memory.KernelGetPages | winix/mm.c:87-101 | The highest free run passes to the kernel, exactly if there is one, and the invariant is kept |
| Pages.Memory.ReleasePages | winix/mm.c:185-191 | The pages become free, or an error and nothing; the invariant is kept exactly if they were no process's and not in the kernel's image |
| Pages.Memory.AllocMemWelf | kernel/proc.c:454-501 | The layout of a new process, its pages, what is zeroed, and every error |
| Pages.Memory.Sbrk | kernel/system/do_brk.c:45-83 | The break moves exactly if it can, by the size asked for, with the fewest pages that suffice and nothing else changed |
| Pages.Memory.Brk | kernel/system/do_brk.c:94-121 | The same for an address, with the break reported back |
| Pages.Memory.Fork | kernel/system/do_fork.c:60-101 | The child gets pages of its own and sees at every virtual address of the image what its parent sees; its addresses are the parent's, relocated, but for the top of the heap; nothing else in memory changes; and whether its heap will shrink like the parent's, by the parent and the bitmap before the call |
| Pages.Memory.ReleaseProcMem | winix/mm.c:233-239 | Exactly the pages of the process become free |
| Pages.PageOwnership | winix/mm.c:112-239 | A protection table covers exactly its process's range, inside marked memory, and no page is in two tables |
| Pages.ForkedHeapShrinks | kernel/system/do_fork.c:93-101 | The child's heap can shrink by exactly the amounts the parent's can, exactly if the parent's break is not above its heap top and free memory for the child starts low enough |
| Pages.Memory.ForkedHeapStuck | kernel/system/do_fork.c:93-101 | fork and then sbrk in both processes: the parent gives a word back and its child cannot |
| Slab.FuseUndoesSplit | winix/slab.c:84-103 | fusion is the inverse of split_block |
| Slab.SplitGood | winix/slab.c:84-103 | Splitting keeps the tiling, the list, the sum of sizes and the live allocations |
| Slab.FuseGood | winix/slab.c:196-212 | So does fusing two free blocks that touch |
| Slab.PushGood | winix/slab.c:121-134 | A new page joins the tiling as one block |
| Slab.BlocksApart | winix/slab.c:72-181 | Blocks, headers included, never overlap |
| Slab.GrantedIsFresh | winix/slab.c:108-118 | Pages that were free hold no block of the heap, and with them the heap still lies in the kernel's pages |
| Slab.KernelHeap.ExtendHeap | winix/slab.c:108-142 | The new block lies in pages of its own and is ready for the request, less than two headers larger, exactly if there is room; beyond a page it spills |
| Slab.KernelHeap.FindBlock | winix/slab.c:72-79 | The last free block that is large enough, exactly if there is one |
| Slab.KernelHeap.Kmalloc | winix/slab.c:144-181 | For every size: fails exactly if nothing fits and there is no room; else the block was not live, has the size asked for and leaves all others alone exactly if a free block held it or it is no more than 1018 words; it is less than two headers larger than needed; contiguity and merging are kept |
| Slab.TooSmall | winix/slab.c:108-142 | A request for 1020 words that is not met |
| Slab.KernelHeap.Kfree | winix/slab.c:216-240 | The allocation is gone, all others stay, and touching free blocks are merged exactly unless the previous block is free but elsewhere; contiguity is kept |
| Slab.ContiguousNeverStuck | winix/slab.c:216-240 | In contiguous memory, which kmalloc and kfree keep, touching free blocks are always merged |
| Slab.NoFreeNeighbours | winix/slab.c:216-240 | So in every such state no two neighbouring blocks are both free |
| Slab.StuckHeap | winix/slab.c:216-240 | A heap of two pages on which kfree leaves two touching free blocks |
| Pipes.Pipe.ShiftPipeData | fs/system/pipe.c:124-138 | The data moves to the front, or is erased for a shift by nothing |
| Pipes.Pipe.TakeOut | fs/system/pipe.c:140-151 | The first cells are taken and the rest kept, exactly if something was asked for or the rest was zero anyway |
| Pipes.Pipe.PutIn | fs/system/pipe.c:153-164 | As much as fits is appended |
| Pipes.Pipe.PipeRead | fs/system/pipe.c:166-208 | When a read delivers, waits or fails; what was accepted is what was delivered followed by what the pipe holds, exactly unless nothing is asked for and something other than zeros is there; who is served and with how much; progress with one reader |
| Pipes.Pipe.PipeWrite | fs/system/pipe.c:212-268 | The same for writers; and when a second reader is left waiting |
| Timers.Clock.InsertTimer | winix/timer.c:79-106 | Sorted insertion into the linked list, before equal times |
| Timers.Clock.NewTimer | winix/timer.c:34-51 | Armed exactly if the time is positive and the timer not in use |
| Timers.Clock.DequeueAlarm | winix/timer.c:58-72 | The first timer, and next_timeout is that of the new first |
| Timers.Clock.RemoveTimer | winix/timer.c:112-132 | Only this timer leaves the list, keeping its time; the invariant is kept exactly if another one stays |
| Timers.Clock.DoTicks | kernel/clock.c:45-50 | Ends without panic; exactly the due timers go off, once each and in order; the scheduler's timer is pending again |
| Timers.Clock.ClockHandler | kernel/clock.c:72-87 | Every timer goes off at the very tick it is due |
| Timers.Clock.DoAlarm | kernel/system/do_alarm.c:29-51 | Replaces or cancels this process's alarm and touches no other; returns the time last set, also of an alarm gone off or cancelled |
| Timers.Clock.constructor | kernel/sched.c:20-23 | The scheduler's timer is the only one pending |
| Ipc.Kernel.DoSend | kernel/wini_ipc.c:32-78 | Delivery, blocking and every error, with the whole table after each; queues stay linked, disjoint and never mutual; waiting messages stay what was sent exactly unless the receiver is itself waiting to send |
| Ipc.Kernel.SendRec | kernel/exception.c:220-228 | The same for a send that then waits for the reply |
| Ipc.SurviveIff | kernel/wini_ipc.c:53-54 | Messages that wait survive a send exactly unless its destination both waits to send and to receive, and the messages differ |
| Ipc.IntactIff | kernel/wini_ipc.c:53-54 | A send keeps every waiting message what was sent exactly unless it overwrites one |
| Ipc.OverwrittenMessage | kernel/wini_ipc.c:53-54 | Three calls after which a process receives another one's message |
| Ipc.Kernel.DoReceive | kernel/wini_ipc.c:88-128 | Whose message is received, which is the one sent if none was overwritten; who is unblocked, and when the receiver blocks; no waiting message changes |
| Ipc.Kernel.ClearSendingMesg | kernel/system/do_exit_wait.c:95-111 | The process leaves every queue and all other members keep their order and their messages |
| Ipc.SendClosesCycleIff | kernel/wini_ipc.c:41-51 | A send closes a cycle of waiting processes exactly if its destination already waits, through others, for the sender |
| Ipc.RingOfThree | kernel/wini_ipc.c:41-51 | Three sends that the check lets through and that deadlock |
| Signals.Process.CopyToUserStack | kernel/proc.c:568-574 | Pushes words onto the user stack |
| Signals.Process.BuildSignalCtx | kernel/signal.c:60-85 | Saves the 21-word context and a sigreturn frame whose pm is the address of its own message; the registers and masks with which the handler starts; all earlier frames and all memory beside it survive |
| Signals.Process.Restorer | lib/syscall/__sigreturn.s:28-29 | After popping signum the top of the stack is a sigreturn call for this signal |
| Signals.Process.DoSigreturn | kernel/system/do_sigreturn.c:19-74 | At any depth every word of the context of the matching delivery comes back, the state reduced to waiting for a reply if it included that; SIGABRT becomes pending again with its default action |
| Signals.MaskRestoredIff | kernel/signal.c:79-81 | For every tree of handlers: the mask is restored exactly if the handler was not interrupted, or the mask in force when the last interrupted handler was is the right one |
| Signals.ThreeDeep | kernel/signal.c:79-81 | Three deep, a handler that keeps the mask may lose it, and one that changes it may find it restored |
| Paths.GetName | fs/path.c:17-47 | The next component, cut to the buffer, and what follows it; null exactly if that is PATH_MAX away |
| Paths.FieldsIff | fs/path.c:9-16 | The pieces of a path are those of the only way to take it apart at all its slashes |
| Paths.NamesAreComponents | fs/path.c:9-16 | Repeated calls deliver the non-empty pieces between slashes, whatever the slashes |
| Paths.Advance | fs/path.c:51-78 | The inode of the first entry with this name; none exactly if no entry has it |
| Paths.GetChildInodeName | fs/path.c:106-133 | The name of the first entry for this inode |
| Paths.EatPath | fs/path.c:137-188 | Resolves the components one by one, with the errors of a step-by-step walk, and there is a route of directories that shows it |
| Paths.WalkResolves | fs/path.c:137-188 | Resolving comes to a thing that is no directory, or to the last directory and what has the last name there, file or directory, or to a name in the middle that is missing |
| Paths.ResolvesIsWalk | fs/path.c:137-188 | It comes to nothing else |
| Paths.SysGetcwd | fs/system/getcwd.c:16-46 | Builds the names from the root to the directory, or reports exactly that the buffer is too small |
| Paths.CwdFields | fs/system/getcwd.c:22-46 | The string has one slash at the beginning, one at the end and one between each two names |
| Paths.CwdLeadsBack | fs/system/getcwd.c:22-46 | Resolving that string leads back to the directory, except that the root is found as last directory only |
| Paths.CwdAndBack | fs/system/getcwd.c:16-46 | getcwd and then the resolution of what it left in the buffer: the directory comes back, or the buffer was too small |
| Numbers.KputdBuf | winix/sys_stdio.c:115-146 | A sign if negative, then the digits whose value the number has, without leading zeros, and their number |
| Numbers.KputxBuf | winix/sys_stdio.c:79-107 | The hexadecimal digits whose value the 32-bit word has, without leading zeros, and their number |
| Numbers.PrintedIff | winix/sys_stdio.c:79-146 | What is printed is the only text of digits without leading zeros that has this value |
| Numbers.Atoi | lib/stdlib/atoi.c:2-21 | The value modulo 2^32 of a text of digits, 0 for any other |
| Numbers.Hex2Int | lib/util/util.c:17-30 | The value modulo 2^32 |
| Numbers.AtoiUndoesKputdIff | lib/stdlib/atoi.c:2-21 | atoi undoes kputd_buf exactly for numbers that are not negative |
| Numbers.Hex2IntUndoesKputx | lib/util/util.c:17-30 | hex2int undoes kputx_buf for every 32-bit word |

## Left out

- Regular expressions: null arguments, running out of memory, the check of the magic number, `regsub`, error texts and the debugging output.
- GetBlockBuffer: one device, block numbers from 1 on, at least two buffers in the list, and not a buffer already held; with fewer buffers the list's front goes stale, and a buffer that is held still has its old links.
- EnqueueBuf: only for a list that is not empty; the program follows the front without looking.
- PutBlockBuffer: only for a buffer that was not written to; `release_block` breaks this rule (`fs/inode.c:105-110`).
- AllocBlock: a bitmap of one block, whose bit for block 0 is set.
- RootFsRead: below eight blocks, and not from beyond the end in the first block, where the length computed is negative. O_DIRECT, holes in files and `release_block` are not modelled.
- RootFsWrite: not from beyond the end, and below eight blocks; what a write to a block beyond the disk does to memory is not modelled; 32-bit overflow of positions and sizes neither.
- UserGetFreePagesFrom: addresses in memory, not in its first page, and sizes above 0.
- AllocMemWelf: stack and heap of whole, non-zero pages, as its callers pass them.
- Brk: not for physical address 0, which the program takes for failure.
- Kmalloc: what a request that is not met does to memory beyond the block is not modelled.
- Kfree: only an address right after a header in the list, of a block in use or free.
- PipeRead: no other reader of nothing waits; closing an end, and signals to writers, are not modelled beyond the value returned.
- Timers: `rebalance_queues` also resets priorities, `deliver_alarm` sends a signal; both only appear as firings. `fork` copying an alarm, reuse of process slots and wrap-around of the clock are not modelled.
- DoSend: not to oneself. Ready queues and the copying of registers are not modelled, nor is `winix_notify`.
- BuildSignalCtx: needs room on the stack, which the program does not check. `handle_sig`, pending sets and `send_sig` are not modelled.
- DoSigreturn: that the SIGABRT sent again ends a `pause` is not modelled.
- EatPath: names of `NAME_MAX` characters or more, and paths of `PATH_MAX` or more, whose comparison reads past a buffer. Reference counts of inodes are not modelled, and directories are read as lists of entries.
- SysGetcwd: only for directories that form a tree.
- KputdBuf: not for the smallest 32-bit number, for which it does not end.
- Hex2Int: up to eight digits; more would shift by more than a word.
- Scheduling, exec, vfork, process exit, `truncate`, link and unlink, terminals, exceptions, user programs and the disk image tools.
