# Verification of the Beryllium2 kernel's core components

Dafny models of the algorithmic parts of the Beryllium2 kernel, with proofs of what they promise:

- `HeapChain`, `HeapMemory`, `DoubleFree`, `Heap`: the kernel heap. The list of blocks is described as a
  sequence (`HeapChain`); the allocator itself works on headers lying in memory among the payload bytes
  (`HeapMemory`), and each pointer write is proved against that sequence (`Heap`). Writing a header
  destroys the bytes under it, so that a payload byte survives only because no header is ever written
  over it. A byte or header written over another header would go unnoticed: that it does not happen is
  what `Layout` and `AllClear` say. The break grows contiguously by whole pages, as `sbrk` does on the ARM
  Integrator board, up to a fixed limit. `DoubleFree` says what `realloc(p, 0)` does.
- `Lists`, `CStrings`, `Trees`: the kernel's linked list, its tokenizer, and its tree.
- `Paths`, `MountSpec`, `Vfs`: the path canonicalizer, the mount tree, and opening a file. The driver
  callback that looks up a name in a directory is an arbitrary function.
- `Timing`: the timer table and its tick loop. What handlers do to the table while the loop runs is an
  arbitrary list of registrations and removals for every tick and slot; so is what the kernel does
  between ticks.
- `PrintfSpec`, `Printf`: the formatter. The format string has a grammar and a meaning (`PrintfSpec`), and
  the scanner with its states that fall through is proved to compute it (`Printf`).
- `Frames`: the bitmap of physical frames. `Scheduler`: the round-robin queue of threads.

State the kernel updates in place is a class or an array here, and each method is proved against a
function of the old state; the laws are then proved about those functions. Some proofs use `hide` to keep
definitions they do not need from the solver.

Where the code does not keep what it promises, the exact condition is proved, with an input that breaks
it:

- `realloc(p, 0)` frees p twice. That breaks the heap exactly when, before the call, the block before p is
  free and is not both the first free block and too small to be split by `malloc(0)`.
- The canonicalizer's result is stable exactly when the input is absolute or climbs, with its "..", out of
  every "." and ".." of the working directory.
- `vfs_mount` does not canonicalize. Opening the path finds what was mounted there exactly when no piece of
  the path is empty, "." or "..", or the path starts with two separators and climbs out of everything it
  descends into (or the same file was mounted before where `kopen` looks).
- A timer registered by a handler fires at its delay, unless it repeats, has been given the slot of that
  very handler, and its period differs from its delay: it then first fires after its period.
- `do_printf` steps over the end of the format exactly when, directive by directive, a lone "%", "%0" or
  "%-0" is left at the end.
- `pa_alloc_frame` hands out frames that are in use once none below 2^20 is free, since a page names its
  frame by 20 bits; the kernel's own bitmap has 60 times as many frames. Up to there no frame is handed
  out twice.
- `pa_free_frame` clears a different frame, and the next page then gets a frame in use exactly when every
  frame up to that one was.

## Model

| member | source | states |
|---|---|---|
| HeapChain.Layout | kernel/malloc.c:86-95 | blocks that tile the heap lie in address order inside it, and no header or payload overlaps another block |
| HeapChain.FirstFit | kernel/malloc.c:38-42 | the search ends at the first free block that is large enough, or at the tail when none is |
| HeapChain.Grow | kernel/malloc.c:79-84 | the break ends where there is room, or where one more page would exceed memory |
| HeapChain.GrowPages | kernel/malloc.c:79-84 | it gets there by whole pages within the limit, and stops as soon as there is room |
| HeapChain.CarveShape | kernel/malloc.c:42-69 | taking a free block, split or not, leaves no two free blocks next to each other |
| HeapChain.CarveInv | kernel/malloc.c:42-69 | taking a free block, split or not, keeps the heap well-formed and adds exactly one live block, of at least the requested size |
| HeapChain.ExtendInv | kernel/malloc.c:86-95 | a block added at the end of the used range keeps the heap well-formed and is the only change to what is live |
| HeapChain.MergeTwice | kernel/malloc.c:105-118 | joining left then right, as free does, is joining right then left |
| HeapChain.ReleaseShape | kernel/malloc.c:103-118 | after free, joined with both neighbours, still no two neighbouring blocks are free |
| HeapChain.ReleaseInv | kernel/malloc.c:100-120 | free keeps the heap well-formed and removes exactly the freed block from what is live |
| HeapChain.MallocStepInv | kernel/malloc.c:32-97 | malloc keeps tiling, address order and "no two neighbours free"; the pointer is new and owns at least the rounded-up size; every other live block stays; NULL only when nothing fits and memory is exhausted |
| HeapChain.MallocReuses | kernel/malloc.c:38-70 | when some free block is large enough, the first such one is used, in place: it is cut down to the request, the rest becoming one free block right behind it, exactly when a header and a word are left over, and handed out whole otherwise; no other block changes, nor does the break |
| HeapChain.MallocExtends | kernel/malloc.c:72-95 | when none is, a block of just the request is added at the end of the used range, if and only if the break is or can be moved far enough by whole pages; no other block changes |
| HeapChain.FreeStepInv | kernel/malloc.c:100-120 | free on a live pointer keeps the invariant, and of all pointers ends exactly that one |
| HeapChain.InitialInv | kernel/malloc.c:25-30 | the list of the two static sentinels is well-formed and holds nothing |
| HeapChain.Enabled | kernel/malloc.c:32-145 | in a well-formed heap malloc can always be called, free exactly on live pointers, and realloc exactly on NULL or a live pointer, not with size 0 where Corrupts holds |
| HeapChain.ReallocInv | kernel/malloc.c:133-145 | realloc, as a step on the list, keeps the invariant; of all pointers exactly the old one ends and the new one begins to be live, unless malloc fails with a size above 0 |
| HeapChain.RunInv | kernel/malloc.c:32-145 | the invariant holds after any run of malloc, free and realloc |
| HeapChain.RunToEmpty | kernel/malloc.c:32-145 | after any such run that leaves nothing in use, the heap is one free block spanning everything ever used |
| HeapChain.FreeAll | kernel/malloc.c:100-120 | freeing all live pointers in any order is possible and empties the heap |
| HeapMemory.AllClear | kernel/malloc.c:46-55 | no header of the list covers a payload byte in use |
| HeapMemory.LinkedSplit | kernel/malloc.c:46-60 | the split's pointer writes leave a consistent doubly linked list of the split blocks |
| HeapMemory.LinkedMerge | kernel/malloc.c:107-117 | the pointer writes of a join leave a consistent list with the two blocks as one |
| HeapMemory.LinkedExtend | kernel/malloc.c:86-93 | the pointer writes of an append leave a consistent list with the new block last |
| Heap.Heap.SplitOff | kernel/malloc.c:44-68 | splitting in memory; the branch that would join the rest with a free block after it is never taken; payloads in use keep their bytes |
| Heap.Heap.Sbrk | kernel/arch/arm/integrator-cp/memory.c:28-94 | the break moves contiguously by the whole pages in the amount, by one for less than a page, and not at all for 0 |
| Heap.Heap.Find | kernel/malloc.c:38-42 | following the next pointers finds the first block that fits |
| Heap.Heap.Malloc | kernel/malloc.c:32-97 | in memory, malloc does to the list exactly what MallocStep says, and changes no byte of a live payload |
| Heap.Heap.Free | kernel/malloc.c:100-120 | in memory, free does exactly what FreeStep says, nothing for NULL, and changes no byte of another live payload |
| Heap.Heap.FreeBlock | kernel/malloc.c:102-118 | the header writes of free, whatever lies at the address it is given |
| Heap.Heap.MemCpy | kernel/lib/string.c:11-27 | copying between disjoint ranges copies exactly those bytes |
| Heap.Heap.Realloc | kernel/malloc.c:133-145 | pointer and final list are those of malloc followed by free; the new block holds the first min(old, new) bytes of the old one, and every other payload is unchanged; when allocation fails the old block is intact, but for size 0, where it is freed; the heap stays well-formed exactly unless the size is 0 and Corrupts holds |
| HeapMemory.FreeLinked | kernel/malloc.c:100-120 | free, as a function of raw memory, on a block of the list: memory then holds the list with that block released, and no other payload byte has changed |
| DoubleFree.SecondFreeHarmless | kernel/malloc.c:135-143 | a second free changes no header when the block before is in use |
| DoubleFree.SecondFreeGrows | kernel/malloc.c:135-143 | otherwise the block before is enlarged a second time, and nothing is moved to make room |
| DoubleFree.MallocZero | kernel/malloc.c:38-70 | what lies before p after malloc(0) is free exactly when Corrupts holds before it |
| DoubleFree.FreeTwice | kernel/malloc.c:135-143 | after two frees of one block the headers form a list exactly when the block before it was in use, and then the list left by the first |
| DoubleFree.ReallocZero | kernel/malloc.c:133-145 | from the heap the call is made on: after realloc(p, 0) the headers form a list tiling the heap if and only if Corrupts does not hold, that is, unless the block before p is free and is not both the first free block and too small to split |
| DoubleFree.SecondFreeKeeps | kernel/malloc.c:135-143 | even then no byte of a live payload changes |
| DoubleFree.CorruptionReached | kernel/malloc.c:133-145 | allocating 32 bytes, then 4 for p, and freeing the first leads to a heap that realloc(p, 0) breaks |
| Lists.List.constructor | kernel/lib/list.c:80-87 | a new list is empty |
| Lists.List.Append | kernel/lib/list.c:23-35 | the node becomes the last one; links, ends and length stay consistent |
| Lists.List.Insert | kernel/lib/list.c:37-46 | a fresh node with the item goes to the end |
| Lists.List.AppendAfter | kernel/lib/list.c:48-69 | the node goes right after `before`, or first when that is null; into an empty list in any case; the list stays well-formed exactly unless a link of the node that the code does not write was set: the back link at the front, the forward link at the end |
| Lists.List.InsertAfter | kernel/lib/list.c:71-78 | the same with a fresh node: insertion at any position of the sequence |
| Lists.List.Find | kernel/lib/list.c:89-96 | the first node holding the value; null exactly when none does |
| Lists.List.IndexOf | kernel/lib/list.c:98-107 | the first position of the value; -1 exactly when it does not occur |
| Lists.List.Remove | kernel/lib/list.c:109-119 | removal at a position; nothing happens beyond the length; at the length exactly, the code deletes a null node |
| Lists.List.Delete | kernel/lib/list.c:121-138 | the node leaves the sequence, the others keep their order, and it forgets its neighbours |
| Lists.List.Pop | kernel/lib/list.c:140-149 | the last node is removed and returned; null on an empty list |
| Lists.List.Dequeue | kernel/lib/list.c:151-156 | the first node is removed and returned; null on an empty list |
| CStrings.RunsAreMaximal | kernel/lib/string.c:85-105 | the tokens are exactly the maximal delimiter-free runs of the string |
| CStrings.RunsOrdered | kernel/lib/string.c:85-105 | tokens come in order and never touch |
| CStrings.WordsAreRuns | kernel/lib/string.c:85-105 | the token texts are those of the runs, one by one |
| CStrings.StrLen | kernel/lib/string.c:72-78 | the length up to the NUL |
| CStrings.StrSpn | kernel/lib/string.c:106-124 | how far the characters all lie in the accepted set |
| CStrings.StrPBrk | kernel/lib/string.c:126-150 | the first character in the set; NULL when there is none, also at once on an empty string |
| CStrings.StrTokR | kernel/lib/string.c:85-105 | the next token, the place to go on from, and a buffer changed in at most the one delimiter after the token |
| CStrings.Tokenize | kernel/lib/string.c:85-105 | calling it until NULL gives all the tokens in order, and cuts the buffer exactly at the delimiter after each |
| Paths.WordsAppend | kernel/vfs.c:174-188 | two strings joined by a separator have the components of both |
| Paths.PrintRoundTrip | kernel/vfs.c:217-243 | tokenizing a printed stack gives back the stack |
| Paths.CanonicalPrints | kernel/vfs.c:144-252 | the result is absolute, and its components are exactly those left on the stack |
| Paths.Composition | kernel/vfs.c:144-252 | resolving a and then a relative b against the result is resolving a/b |
| Paths.Climb | kernel/vfs.c:188-198 | n times ".." climbs n levels and stops at the root |
| Paths.BackToRoot | kernel/vfs.c:188-214 | a path leads to the root if and only if from every component on it has as many ".." as names |
| Paths.ResolveRemains | kernel/vfs.c:188-214 | what resolving leaves is exactly, and in order, the stack entries and the names that nothing after them climbs out of |
| Paths.ComponentsRemain | kernel/vfs.c:144-214 | so too for the whole canonicalizer: the entries of the working directory, for a relative input, and then the names of the input |
| Paths.CanonicalClean | kernel/vfs.c:144-252 | unless the working directory brings dots in, no component of the result is empty, "." or ".." |
| Paths.DotsKept | kernel/vfs.c:144-252 | dots are left exactly when one is among the entries the ".." components never reach |
| Paths.Idempotent | kernel/vfs.c:144-252 | canonicalizing a result again changes nothing if and only if the input is absolute or the entries of the working directory that its ".." components never reach hold no "." or ".." |
| Paths.DotsInCwdSurvive | kernel/vfs.c:162-170 | with working directory ".." the result keeps the dots and is not stable |
| Paths.PushResolved | kernel/vfs.c:188-214 | the second loop resolves "." and ".." on the list used as a stack |
| Paths.TotalSize | kernel/vfs.c:217-222 | the sizing loop computes the length of the printed path |
| Paths.Join | kernel/vfs.c:224-243 | the join loop fills exactly the size + 1 bytes allocated with the printed path and its NUL; "/" for an empty stack |
| Paths.CanonicalizePath | kernel/vfs.c:144-252 | the whole routine over buffers and a linked list computes the canonical path |
| Trees.Tree.constructor | kernel/lib/tree.c:7-13 | a new tree is empty |
| Trees.Tree.SetRoot | kernel/lib/tree.c:15-20 | the tree is a single root, whatever it was |
| Trees.Tree.InsertChild | kernel/lib/tree.c:60-72 | one fresh node is added, last under its parent; the count and every parent field stay right |
| Trees.Tree.AllReachable | kernel/lib/tree.c:60-72 | every counted node is reached from the root |
| Trees.Tree.Apart | kernel/lib/tree.c:60-72 | no node lies under two children of one node |
| Trees.Tree.CountChildren | kernel/lib/tree.c:95-104 | the recursion inside the loop computes Count |
| Trees.Tree.CountIsSize | kernel/lib/tree.c:95-104 | Count is the size of the subtree without its root |
| Trees.Tree.Remove | kernel/lib/tree.c:106-124 | a branch below the root leaves the tree, the count drops by exactly its size, every other child list stays, and the tree stays consistent; for the root the tree is emptied and the code then goes on into a null parent |
| Trees.Tree.BranchClosed | kernel/lib/tree.c:106-124 | a node is in a branch exactly when it is its root or its parent is in it |
| Trees.Tree.NodeFind | kernel/lib/tree.c:153-163 | the recursive search computes Match |
| Trees.Tree.MatchIsFirst | kernel/lib/tree.c:153-163 | Match is the first node in pre-order that the comparator accepts; null exactly when none is accepted |
| Trees.Tree.PreOrderCovers | kernel/lib/tree.c:153-163 | the pre-order lists exactly the nodes of the subtree |
| Trees.Tree.PreOrderOnce | kernel/lib/tree.c:153-163 | and as many entries as there are nodes, so each once |
| Trees.Tree.PreOrderSorted | kernel/lib/tree.c:153-163 | of any two entries the one listed first lies above the other, or under an earlier child of a common node |
| Trees.Tree.MatchPrecedes | kernel/lib/tree.c:153-163 | the search finds an accepted node of the subtree that comes, in that sense, before every other one, and null exactly when there is none |
| Trees.Tree.FindParent | kernel/lib/tree.c:74-93 | the search for a parent computes ParentBelow |
| Trees.Tree.SearchAgrees | kernel/lib/tree.c:74-93 | searching finds exactly the stored parent for every node below the start, and nothing for any other |
| MountSpec.LongestMounted | kernel/vfs.c:375-400 | the longest mounted prefix: itself mounted, and nothing longer is |
| MountSpec.NullCopyExactly | kernel/vfs.c:429-475 | opening copies from a null mount point if and only if no prefix of the path is mounted, so never once a root is |
| MountSpec.LookupMounted | kernel/vfs.c:470-473 | a mounted path opens as a copy of what is mounted there |
| MountSpec.LookupBelow | kernel/vfs.c:85-97 | below the deepest mounted prefix opening finds n, opened, if and only if the remaining names lead from what is mounted to n through directories whose callbacks find each next one; NULL exactly when they lead nowhere |
| MountSpec.LookupElsewhere | kernel/vfs.c:360-500 | mounting elsewhere than at a prefix of a path does not change what the path opens to |
| MountSpec.MountsStay | kernel/vfs.c:306-353 | over any run of mounts, what is bound stays bound to the same file |
| MountSpec.MountedFirst | kernel/vfs.c:281-352 | over any run of mounts from none, a place is bound to the file of the first call with an absolute path that means it and a file, and to nothing without such a call |
| MountSpec.MountKeyPrints | kernel/vfs.c:292-344 | the place a path means: the root when nothing or a second separator follows the first, otherwise the components that print as the path, less one separator at its end |
| MountSpec.MountKeyIsCanonical | kernel/vfs.c:292-344 | vfs_mount means the place kopen looks for if and only if every piece of the path is plain, or it starts with two separators and climbs out of everything it descends into |
| MountSpec.PiecesOfPrint | kernel/vfs.c:441-454 | cutting a printed path at its separators gives its components |
| MountSpec.MountThenOpen | kernel/vfs.c:276-500 | on the bindings: after mounting n at a path, opening it gives a copy of n if and only if that condition holds or the same n was bound before where kopen looks |
| MountSpec.DoubledSeparatorMisses | kernel/vfs.c:292-344 | a mount at "/a//b" is not found |
| Vfs.CutPath | kernel/vfs.c:441-454 | every separator becomes a NUL, and the depth is their number |
| Vfs.Vfs.constructor | kernel/vfs.c:15-24 | a tree with an empty, unmounted root |
| Vfs.Vfs.ChildIsIndexed | kernel/vfs.c:327-335 | the path of a child, its parent's with its own name added, leads to that child |
| Vfs.Vfs.SiblingsDiffer | kernel/vfs.c:327-342 | no two children of a node have the same name |
| Vfs.Vfs.FindChild | kernel/vfs.c:381-395 | the loop over the children finds the one node the longer path leads to, and null exactly when it leads nowhere |
| Vfs.Vfs.WalkOrMake | kernel/vfs.c:319-344 | the walk reaches the path's place, making exactly the missing entries on the way and no mount |
| Vfs.Vfs.Mount | kernel/vfs.c:276-358 | 2 exactly for a null or relative path; otherwise 3 exactly when something is mounted at its place; otherwise 0, with exactly that binding added and the places above it; any other return leaves the whole tree unchanged |
| Vfs.Vfs.GetMountPoint | kernel/vfs.c:360-410 | the file at the longest mounted prefix, that prefix's component count, and the offset of the first unmatched component |
| Vfs.Vfs.Kopen | kernel/vfs.c:412-500 | equals Lookup: canonicalize, deepest mounted prefix, then finddir over the remaining components; the last return is unreachable |
| Vfs.Vfs.OpenAfterMount | kernel/vfs.c:276-500 | on the tree: when mounting n returns 0, opening the path gives a copy of n under exactly that condition |
| Timing.ScanSound | kernel/timing.c:130-149 | whatever the handlers do mid-scan, slots passed are sound for this tick and slots ahead for the one before |
| Timing.TicksSound | kernel/timing.c:130-149 | after every tick an occupied slot fires in the future or is a spent one-shot |
| Timing.ReaperHarmless | kernel/timing.c:104-121 | wherever in the scan it runs, the reaper clears only timers that can no longer fire |
| Timing.FiresExactly | kernel/timing.c:130-149 | a timer with delay d and period r fires exactly at d, d+r, d+2r and so on; only once with r = 0 |
| Timing.RegisteredLeft | kernel/timing.c:130-149 | a timer registered by a handler mid-scan, or after the scan, is left by that tick due at its delay, but at its period when it repeats and was given the slot being visited |
| Timing.RegisteredFires | kernel/timing.c:11-40 | such a timer then fires at d, d+r, d+2r and so on if and only if it was not given the slot being visited, or r = 0, or r = d; otherwise at r, 2r and so on |
| Timing.ReusedSlotFiresLate | kernel/timing.c:139-145 | a handler that gives up its own slot and registers delay 10 and period 50: the timer first fires after 50 ticks |
| Timing.SpentGivenBack | kernel/timing.c:104-149 | from the initial table on, a one-shot due at d is cleared by the first multiple of 100 above d, so that its slot can be given out again |
| Timing.RemovedFiresOnce | kernel/timing.c:65-68 | a timer removed by index fires at the time it is waiting for and never again |
| Timing.DeregisteredSilent | kernel/timing.c:42-63 | the first timer with a handler, deregistered, never fires; no other slot changes |
| Timing.TimerTable.constructor | kernel/timing.c:123-128 | an empty table but for the reaper in slot 0 |
| Timing.TimerTable.RegisterTimer | kernel/timing.c:11-40 | the first empty slot is filled; 0xFF and no change when there is none |
| Timing.TimerTable.DeregisterTimer | kernel/timing.c:42-63 | the first slot with the handler is cleared, and no other |
| Timing.TimerTable.RemoveTimer | kernel/timing.c:65-68 | the slot stops repeating, and nothing else changes |
| Timing.TimerTable.ReapTimers | kernel/timing.c:104-121 | exactly the slots whose time is past are cleared, and no other changes |
| Timing.TimerTable.CyclicTasks | kernel/timing.c:129-149 | the loop computes Scan, and never calls a null handler |
| Timing.TimerTable.ReceiveTick | kernel/timer.c:30-42 | one tick: the clock advances, the scan runs, and the table is sound again |
| PrintfSpec.DigitsRoundTrip | kernel/printf.c:174-190 | the digits denote the number they were made from, in radix 8, 10 and 16 |
| PrintfSpec.DigitsMinimal | kernel/printf.c:174-190 | no superfluous zero: only zero starts with '0' |
| PrintfSpec.NumberWidth | kernel/printf.c:205-247 | a number field has width max(width, digits + sign) |
| PrintfSpec.NumberDecodes | kernel/printf.c:165-247 | without its blanks a number field is the sign and digits that denote the 32-bit magnitude |
| PrintfSpec.NumberPrinted | kernel/printf.c:126-247 | each numeric conversion prints padding on the side and of the kind its flags say, a minus sign for a negative %d or %i, and the digits of the 32-bit magnitude in its radix and alphabet, without superfluous zeroes |
| PrintfSpec.TextPrinted | kernel/printf.c:192-247 | %s prints its string and %c its character, in blanks on the side the flag says |
| PrintfSpec.OthersPrinted | kernel/printf.c:53-58 | a plain character prints itself, an unknown conversion nothing |
| PrintfSpec.DigitTable | kernel/printf.c:178-187 | the digits are those of the hexadecimal alphabets |
| PrintfSpec.ReadDirective | kernel/printf.c:59-121 | a directive is read as exactly its flags, its width in decimal modulo 2^32, and its conversion, whatever modifiers it has |
| PrintfSpec.ReadLiteral | kernel/printf.c:52-58 | any other character is read as itself |
| PrintfSpec.ReadPercent | kernel/printf.c:65-79 | "%%" and "%-%" are read as a percent sign, "%--" as nothing |
| PrintfSpec.ReadUnfinished | kernel/printf.c:47-121 | a directive that the format ends in is dropped, or overruns the end |
| PrintfSpec.RenderDefined | kernel/printf.c:146-204 | a format can be rendered if and only if there are arguments enough, each of the kind needed |
| PrintfSpec.RenderSnoc | kernel/printf.c:47-256 | one more directive at the end prints its own text, from the arguments left over |
| PrintfSpec.RenderGrows | kernel/printf.c:47-256 | the text of a format is that of its items one after the other, each taking the first argument not used yet |
| PrintfSpec.ParseDefined | kernel/printf.c:47-120 | the scanner steps over the end if and only if, item by item, a lone "%", "%0" or "%-0" is left |
| PrintfSpec.PercentAtEnd | kernel/printf.c:59-70 | "100%" steps over its end, "100%%" does not |
| Printf.ConvertDigits | kernel/printf.c:124-190 | the conversion loop gives the digits, at most 11, so that the 16-byte buffer is never underrun |
| Printf.EmitField | kernel/printf.c:205-247 | sign, padding and text in the order the flags ask for |
| Printf.Convert | kernel/printf.c:122-251 | each conversion character prints its item from the next argument |
| Printf.TakeTurn | kernel/printf.c:47-256 | one turn of the loop, with its states falling through, consumes what the grammar says |
| Printf.DoPrintf | kernel/printf.c:37-258 | emits exactly what the format means and returns the number of characters emitted |
| Printf.VSprintf | kernel/printf.c:274-281 | the buffer holds the text with a NUL right after its last character, and nothing after that is touched |
| Frames.SetBit | kernel/arch/x86/page_allocator.c:26-32 | or-ing a mask in sets one bit and no other |
| Frames.ClearBit | kernel/arch/x86/page_allocator.c:33-39 | masking it out clears one bit and no other |
| Frames.FullWord | kernel/arch/x86/page_allocator.c:53-58 | a word is all ones if and only if every bit is set |
| Frames.SetUsed | kernel/arch/x86/page_allocator.c:26-32 | setting a bit inserts one frame into the set |
| Frames.ClearUsed | kernel/arch/x86/page_allocator.c:33-39 | clearing a bit deletes one frame from the set |
| Frames.GivenWraps | kernel/arch/x86/page_allocator.c:88-92 | the frame handed out is the frame found, less a multiple of 2^20 |
| Frames.GivenInUse | kernel/arch/x86/page_allocator.c:79-92 | an allocation hands out a frame that is in use if and only if no free frame below 2^20 is left while there are free ones beyond |
| Frames.NeverTwice | kernel/arch/x86/page_allocator.c:67-93 | a run of n allocations hands out no frame twice and none in use before if and only if n frames below 2^20 are free, or none beyond is |
| Frames.RunEnds | kernel/arch/x86/page_allocator.c:67-93 | a run stops short only when every frame is in use |
| Frames.SameForever | kernel/arch/x86/page_allocator.c:67-93 | once that condition fails every page gets the same frame |
| Frames.KernelBitmapRunsOver | kernel/arch/x86/page_allocator.c:108-120 | on the kernel's own bitmap, from cleared, n allocations hand out fresh frames if and only if n is at most 2^20; with those in use, every page gets frame 0 |
| Frames.PageAllocator.SetFrame | kernel/arch/x86/page_allocator.c:26-32 | insertion of address / 0x1000 |
| Frames.PageAllocator.ClearFrame | kernel/arch/x86/page_allocator.c:33-39 | deletion of address / 0x1000 |
| Frames.PageAllocator.TestFrame | kernel/arch/x86/page_allocator.c:40-46 | membership |
| Frames.PageAllocator.FirstFrame | kernel/arch/x86/page_allocator.c:48-65 | the least frame not in use; -1 exactly when every word is full |
| Frames.PageAllocator.AllocFrame | kernel/arch/x86/page_allocator.c:67-93 | a page without a frame gets the least free one, its number cut down to 20 bits, and whether that one was in use is said exactly; every early return leaves all as it was |
| Frames.PageAllocator.FreeFrame | kernel/arch/x86/page_allocator.c:95-107 | the frame cleared is the page's frame number divided by 0x1000, so the page's own frame stays in use |
| Frames.ClearedIsNext | kernel/arch/x86/page_allocator.c:95-107 | with frame q cleared, the least free frame was in use before if and only if every frame up to q was, and then it is q |
| Frames.PageAllocator.FreeThenAlloc | kernel/arch/x86/page_allocator.c:67-107 | so the next page gets a frame that was in use exactly in that case |
| Frames.PageAllocator.FrameShared | kernel/arch/x86/page_allocator.c:67-107 | with frames 0 to 0x1000 in use, giving back 0x1000 puts frame 1, still held by one page, into another |
| Frames.PageAllocator.AllocPages | kernel/arch/x86/page_allocator.c:67-93 | a run of allocations on the bitmap gives the frames of AllocRun, of which NeverTwice speaks |
| Scheduler.RoundHolds | kernel/scheduler.c:13-54 | until a thread's next turn, the turn goes once around whatever threads are added meanwhile |
| Scheduler.Fairness | kernel/scheduler.c:13-54 | between two successive turns of a thread every other thread queued at the first has exactly one |
| Scheduler.EveryUpdateSelects | kernel/scheduler.c:13-54 | no thread is selected before one is added; from then on every update selects one |
| Scheduler.InTurn | kernel/scheduler.c:19-23 | each selection is the thread queued after the one selected before it, or the first after the last |
| Scheduler.Scheduler.constructor | kernel/scheduler.c:56-64 | one thread queued, not yet scheduling |
| Scheduler.Scheduler.Update | kernel/scheduler.c:13-30 | the next thread's turn, after the last one the first; nothing before scheduling begins |
| Scheduler.Scheduler.AddThread | kernel/scheduler.c:32-54 | the queue grows by one thread at its end, the rest as before |

## Left out

- Sizes, addresses, ticks and counts are unbounded: 32-bit wrap-around of request sizes, of the clock and of the tree and list lengths is not modelled. Field widths, digit values and bitmap words are 32 bits wide.
- Heap.Heap.MemCpy: copies byte by byte, where the C code copies words first; the ranges never overlap.
- calloc and memset, and the allocator's use on other architectures, whose sbrk mixes page numbers and addresses.
- Allocation failure inside the list, tree, path and mount code, which does not check for it, and the freeing of its buffers.
- Lists.List.AppendAfter: a node that is already in the list is excluded, as it is for appending; `before`, when not null, is a node of the list.
- Lists.List.Remove: at an index equal to the length the C code dereferences a null node; the model reports that and stops. list_copy, which never ends on a non-empty list, and list_merge are not modelled.
- Trees.Tree.Remove: for the root the C code goes on to remove the node from a null parent; the model reports that and stops. tree_remove, which merges lists, is not modelled. A node's child list is a sequence; the linked list under it is the subject of Lists, which proves the sequence behaviour.
- Paths.PushResolved: the tokenizer runs to its end before the components are pushed; the C code does both in turns, on separate buffers, with the same result.
- Vfs.Vfs.Mount: mounting before vfs_init (return value 1) is not modelled, as the object exists only once initialized. strcmp on entry names is string equality.
- Vfs.Vfs.Kopen: a copied node equals the original; whether the open callback runs is part of the result, what it does is not, and flags are ignored. A finddir callback is a function, so it always gives the same answer, and changes no mount.
- create_file_vfs, the device nodes, sysfs, the initial ramdisk, and reading, writing and closing of nodes.
- Timing.TimerTable.CyclicTasks: handlers do not write to the timer they are passed, and do not call cyclic_tasks again. Callers respect delays of at least one tick, periods of zero or more and non-null handlers, and remove only indices inside the table.
- Timer names and their index field, the list of timers, the choice of tick device, and the low-resolution clock.
- Printf.DoPrintf: the characters go to a string rather than to a callback; the modifiers h, l, F and N are read and have no effect, since all integers are 32 bits wide; a missing argument, one of the wrong kind, or a format that runs over its end has no defined result. The printing routines for the screen and the serial line are not modelled.
- Frames.PageAllocator.AllocFrame: disabling interrupts and halting is a result of the call. The bitmap is arbitrary, of fewer than 2^32 frames; that init_page_allocator reserves and clears only as many bytes as the bitmap has words is not modelled.
- Scheduler.Scheduler.Update: switching to the thread is not modelled (the C code has it commented out), nor is the registration of the scheduler's timer.
- Logging throughout, the mutexes, memory regions, ordered arrays, devices and drivers, terminal and video output, and start-up code.
