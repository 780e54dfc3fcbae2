# Verification of the Popcorn compiler's run-time libraries

This project models three components of the repository and proves what they are for.

**Stack transformation** (`lib/stack_transformation`). `st_rewrite_stack` takes a thread stopped on one
architecture and builds its stack for another. The model has byte-addressed memory, register sets of 8-byte
words, the call-site, live-value and unwind tables, and an architecture as a record of parameters, with x86-64
and AArch64 as instances. `Machine`, `SiteSearch`, `Context` (unwind.c), `Data` (data.c), `Rewriting`, `Whole` and
`StackRewrite` (rewrite.c) follow the source; `Frames` says where everything in the new stack belongs and what
an ordinary unwinder sees there, `Pairing` how the records of two architectures match, `Transform` what a
correct result is, `Progress` and `Links` what every write keeps, and `Outcome` that the loop's invariant is the
promised result. `FixupList` is the linked list of list.h.

**libelf** (`lib/libelf/lib`). `Sections` is the linked section list; `Bytes` and `Records` translate headers;
`Layout` and `Update` place the parts of a file, `LayoutLaws` says field by field what that makes and `Placement`
what it guarantees, `Image` writes the file, `Cook` reads it back and `ElfUpdate` puts them together. `ElfFormat` is
the file format in numbers. `SectionData` translates tables of records when a
section's data is first asked for, in the image itself if it may. `Versions` and `VersionXlt` translate version
records, whose chains in the bytes `VersionChains` describes. `Archive` counts references, `NList` looks symbols up.

**The OpenMP runtime** (`lib/libbomp`). `StaticFor` and `ChunkedFor` are the static loop schedules in machine
arithmetic. `Barrier`, `PoolSteps` and `ForkJoin` are interleavings of atomic steps, `PoolRuns` and `ForkJoinRuns` draw
the conclusions for every run, and `MissedFlip` builds a run; `ThreadPool` is the ring buffer that `PoolSteps`
uses, as a class and as a value.

`Arithmetic`, `Sequences` and `ElfConstants` hold what several of these modules use.

Code that updates state is written as methods over arrays or fields, each proved against a function of its
inputs or old state; the properties are proved about those functions. Concurrent code is a step function, and
the theorems speak about every schedule.

## What does not hold

Some things the code might be expected to do are false. For each there is a concrete case and a
condition under which the code is right, in most cases the exact one.

- Unsigned loops counting down by more than one get a wrong trip count (`StaticFor.TripsRight`).
- A signed static loop on one thread can overflow although its bounds leave room (`StaticFor.StaticNoOverflow`).
- A thread without iterations runs some when a step beyond the upper bound wraps around (`StaticFor.StaticShareRight`).
- Chunk bounds that wrap around lose iterations, repeat them or run others (`ChunkedFor.VisitsOnce`).
- On x86-64 a transformed stack can end 8 bytes above its base (`StackRewrite.ArchesFit`).
- Eight-byte constants take their upper half from the field beside them (`Transform.ConstantMeaning`).
- With a worker to spare, a barrier waiter can miss its flip (`MissedFlip.FlipMissed`), and only then
  (`ForkJoinRuns.NoFlipMissed`); the regions still join and end (`ForkJoinRuns.RegionsJoin`, `ForkJoinRuns.EveryRegionEnds`).
- `elf_delscn` does not use extended numbering (`Sections.DelscnCount`).
- Buffers of mixed alignments that are not powers of two can be misaligned (`Placement.OddAlignments`): a buffer is
  aligned in every file exactly if its alignment divides the largest of its section (`Placement.BufferAlignedExactly`).
- A 64-bit section end that wraps around hides an overlap (`Placement.UserLayoutWraps`, `Placement.UserExtentReserved`),
  and sections are never checked against the headers (`Placement.UserLayoutOnHeader`, `Placement.UserLayoutAccepted`).
- Sections that share bytes can read wrong when they are translated in place, exactly if a field of one is moved that
  the other has a byte of (`SectionData.InPlaceExactly`).

## Assumptions

- Stack metadata: slots of a frame are disjoint and inside it, paired values have equal sizes and kinds, a frame
  with a value in a callee-saved register has an unwind record for it, and the table has one more record that is
  no duplicate after each site's (`StackRewrite.MetadataOk`, which the stack of `StackExample` meets).
- The stack transformation is built with its checks (`_CHECKS`), so that it gives up where it asserts.
- The barrier of a parallel region admits exactly the team (`max == nthreads`), and the pool has workers and
  room for its items, as omp.c:77 and omp.c:97 establish.
- A cooked file whose section table is announced with no entries makes the code touch memory it does not own; the
  reader of the model answers `OutOfBounds` there.

## Model

| member | source | states |
|---|---|---|
| StackRewrite.StRewriteStack | lib/stack_transformation/src/rewrite.c:92-185 | it succeeds exactly if the outermost site, its function and a stack are known and the source can be unwound to a start function within the frames and half of the stack size allowed, with a partner for every site; and then the program counter is the start of the function that the source stands in, and an unwinder run from the returned registers over the returned memory walks exactly the matched frames; every live value that is no stack pointer reads as in the source; every pointer into a rewritten alloca reads as that alloca's new address plus the old offset; the fixups left over are exactly the pointers without such a target |
| StackRewrite.RewriteInto | lib/stack_transformation/src/rewrite.c:123-168 | the same from the destination context on, for a source context that stands on its outermost activation |
| StackRewrite.AcceptsIf | lib/stack_transformation/src/rewrite.c:115-138 | whether a stack is accepted depends on the one outermost site only |
| StackRewrite.TransformStack | lib/stack_transformation/src/rewrite.c:140-168 | the part after sizing: the same promise, for the job given by the two unwound activation lists |
| StackRewrite.RewriteFrames | lib/stack_transformation/src/rewrite.c:147-168 | the main loop takes a stack whose entry is linked to a fully transformed one, over any number of frames |
| StackRewrite.RewriteOneFrame | lib/stack_transformation/src/rewrite.c:151-163 | one iteration completes one frame, links it to its caller, keeps everything done before, and leaves both contexts on the next activation |
| StackRewrite.EnterDestination | lib/stack_transformation/src/rewrite.c:143-144 | the entered function returns to the first call site, and its caller's bounds are the planned ones |
| StackRewrite.InitSrcContext | lib/stack_transformation/src/rewrite.c:212-246 | no context exactly for an unknown call site; otherwise the context stands on the outermost activation |
| StackRewrite.RunIsOk | lib/stack_transformation/src/rewrite.c:338-406 | well-formed metadata and a well-formed source stack make every run a well-formed transformation job |
| StackRewrite.CfaIsSum | lib/stack_transformation/src/rewrite.c:364 | each destination CFA is the entry's plus the sizes of the frames below it |
| StackRewrite.LastCfaFits | lib/stack_transformation/src/rewrite.c:388-391 | the last CFA is at most the stack base exactly if aligning the stack pointer makes room for what a call has pushed already |
| StackRewrite.ArchesFit | lib/stack_transformation/src/rewrite.c:388-391 | on x86-64 that is so exactly if the unaligned stack pointer is not 8 modulo 16; on AArch64 always |
| StackExample.Example | lib/stack_transformation/src/rewrite.c:92-185 | a source stack with an array and a pointer into it, and metadata for both architectures, that meet all requirements and are accepted |
| Whole.UnwindAndSize | lib/stack_transformation/src/rewrite.c:338-406 | succeeds exactly if there is a way to unwind to a start function, with a partner for every site, within the frames and the size allowed; then that is the one taken, and the destination stack is placed below its base by the sum of the frame sizes |
| Whole.UnwindAll | lib/stack_transformation/src/rewrite.c:345-377 | every activation follows from the one before by unwinding, and only the last is a start function; it gives up only if nothing within the frames there are does |
| Whole.UnwindOne | lib/stack_transformation/src/rewrite.c:347-376 | one step extends the unwound chain and the matching exactly if the return address has a call site with a partner |
| Whole.MatchUnique | lib/stack_transformation/src/rewrite.c:345-377 | there is one way to unwind: any two agree on the number of frames and the size |
| Whole.PlaceStack | lib/stack_transformation/src/rewrite.c:387-403 | the destination's stack pointer and outermost activation |
| Outcome.Finished | lib/stack_transformation/src/rewrite.c:147-168 | the invariant of the loop, at its end, is what an unwinder observes: a value reads on the new stack, from the unwinder's registers, as it read on the old one, and a pointer as the address in those registers of the allocation it points into, plus the old offset |
| Outcome.FinishedList | lib/stack_transformation/src/rewrite.c:443-498 | the pending fixups at the end are exactly the pointers whose target lies in no rewritten alloca |
| Outcome.VisibleIsNow | lib/stack_transformation/src/data.c:297-326 | what an unwinder reads for a live value is what the planned home of that value holds |
| Transform.AllocaUnique | lib/stack_transformation/src/data.c:232-259 | a source address lies in at most one alloca of all rewritten frames |
| Transform.SourceReads | lib/stack_transformation/src/data.c:297-350 | a value reads as the low-order bytes of its register, or as what memory holds from register plus offset on, or as its record's constant, and as nothing else; the bytes copied are those |
| Transform.TargetIs | lib/stack_transformation/src/data.c:180-227 | the stack address of a pointer is the one its eight bytes make, if it lies in the stack |
| Transform.ConstantMeaning | lib/stack_transformation/src/data.c:331-357 | a constant copied from its record is right up to four bytes, and in eight exactly if the alloca size beside it holds its sign |
| Frames.UnwinderSees | lib/stack_transformation/src/unwind.c:40-72 | popping frames one by one over a linked stack sees each frame's stack pointer, frame pointer and return address, and every other register at its planned place |
| Frames.RegPlacesApart | lib/stack_transformation/src/data.c:370-395 | two frames that both keep a value in a register never share its location |
| Frames.HomesApart | lib/stack_transformation/src/data.c:370-395 | no two live values of any two frames share a location |
| Frames.LinkSlotsApart | lib/stack_transformation/src/data.c:264-292 | return-address and frame-pointer slots lie in their own frame, apart from each other and from every live value of every frame |
| Frames.RegPlaceCases | lib/stack_transformation/src/data.c:370-395 | a register's place is the slot of the nearest inner frame that saves it, or the outermost register set if none does |
| Context.SetupActivation | lib/stack_transformation/src/unwind.c:159-170 | the next activation starts from the register values of the one below, with nothing marked as saved |
| Context.RestoreCalleeSavedRegs | lib/stack_transformation/src/unwind.c:40-72 | every register with an unwind record is read from its slot into the caller's set and marked, and no other register changes |
| Context.SetupFrameBounds | lib/stack_transformation/src/unwind.c:84-103 | stack pointer, CFA and frame pointer of the new activation |
| Context.PopFrame | lib/stack_transformation/src/unwind.c:159-182 | one unwinding step, with or without frame bounds |
| Context.BootstrapFirstFrame | lib/stack_transformation/src/unwind.c:133-141 | the outermost source activation's CFA |
| Context.BootstrapFirstFrameFuncEntry | lib/stack_transformation/src/unwind.c:146-154 | the outermost destination activation's CFA at a function's entry |
| Context.PopFrameFuncEntry | lib/stack_transformation/src/unwind.c:189-223 | leaving a function that has just been entered: return address, bounds, and the callee's frame pointer |
| Context.GetRegisterSaveLoc | lib/stack_transformation/src/unwind.c:228-251 | the slot that the activation's unwind records give for a register |
| Context.CalleeSavedLoc | lib/stack_transformation/src/data.c:370-395 | the location found is exactly the one from which unwinding restores the register for that frame |
| Data.CopyTo | lib/stack_transformation/src/data.c:76-116 | the bytes go to the register or memory location of the value and nowhere else |
| Data.PutBytes | lib/stack_transformation/src/data.c:359-395 | a value written for an activation lands in its planned home, and its bounds stay |
| Data.PutVal | lib/stack_transformation/src/data.c:76-116 | the bytes that the source value reads as land in the destination value's home |
| Data.PutValData | lib/stack_transformation/src/data.c:149-175 | the same for a resolved pointer, in any earlier activation |
| Data.PointsToStack | lib/stack_transformation/src/data.c:180-227 | the stack address a pointer value holds, or none |
| Data.PointsToData | lib/stack_transformation/src/data.c:232-259 | for an address inside the source alloca, the address at the same offset of the destination's |
| Data.SetReturnAddress | lib/stack_transformation/src/data.c:264-270 | the return-address slot of the frame |
| Data.SetReturnAddressFuncEntry | lib/stack_transformation/src/data.c:276-283 | the return address where the architecture's entered function expects it |
| Rewriting.RewriteVal | lib/stack_transformation/src/rewrite.c:411-498 | one live value: copied or recorded, and every pending pointer into it resolved; all earlier values and pointers stay as they are |
| Rewriting.ResolveCovered | lib/stack_transformation/src/rewrite.c:474-494 | exactly the pending fixups that point into the alloca are resolved and removed |
| Rewriting.ResolveFixup | lib/stack_transformation/src/rewrite.c:479-490 | one fixup is resolved without disturbing any other value |
| Rewriting.AddFixup | lib/stack_transformation/src/rewrite.c:449-463 | a pointer into the stack is recorded once |
| Rewriting.FixupLocalPointers | lib/stack_transformation/src/rewrite.c:503-571 | after it, no pending fixup of the frame points into an alloca of the frame |
| Rewriting.FindLocal | lib/stack_transformation/src/rewrite.c:530-567 | the search over the frame's records finds the alloca that covers an address, if there is one |
| Rewriting.SkipDuplicates | lib/stack_transformation/src/rewrite.c:546-547 | the index after a value's last duplicate |
| Rewriting.NextValue | lib/stack_transformation/src/rewrite.c:600-618 | source and destination indices stay paired across duplicates |
| Rewriting.RewriteValue | lib/stack_transformation/src/rewrite.c:588-618 | one destination record, duplicate or not, of the frame |
| Rewriting.RewriteFrame | lib/stack_transformation/src/rewrite.c:576-629 | all records of a frame are handled, its local pointers resolved, and nothing of an earlier frame is disturbed |
| Pairing.HeadCounts | lib/stack_transformation/src/rewrite.c:588-618 | walking two record lists with duplicates in lockstep pairs the n-th value of one with the n-th value of the other |
| Pairing.HeadsDiffer | lib/stack_transformation/src/rewrite.c:588-618 | different values are paired with different values |
| SiteSearch.GetSiteByAddr | lib/stack_transformation/src/util.c:113-140 | binary search by return address: found exactly if the table has the address |
| SiteSearch.GetSiteById | lib/stack_transformation/src/util.c:145-176 | binary search by call-site id |
| SiteSearch.GetUnwindOffsetByAddr | lib/stack_transformation/src/util.c:181-226 | binary search for the function that encloses an address |
| FixupList.List.constructor | lib/stack_transformation/include/list.h:50-56 | an empty list |
| FixupList.List.Add | lib/stack_transformation/include/list.h:137-162 | appends one node; the links lead through the old nodes and then the new one, both ways |
| FixupList.List.Remove | lib/stack_transformation/include/list.h:173-209 | unlinks exactly the given node, wherever it is, and answers the one after it |
| FixupList.List.Clear | lib/stack_transformation/include/list.h:216-220 | the list is empty |
| FixupList.List.RemoveSettled | lib/stack_transformation/src/rewrite.c:474-494 | the walk that removes while it goes on leaves the other nodes, in order |
| FixupList.PendingExactly | lib/stack_transformation/src/rewrite.c:474-494 | nothing settled stays and nothing else is lost |
| StaticFor.ForStaticInit | lib/libbomp/kmp.c:130-189 | the bounds, stride and flag of a thread, as truncating machine arithmetic gives them; and, where the trip count is right, the thread's exact share of the iterations |
| StaticFor.TotalTrips | lib/libbomp/kmp.c:148-151 | the trip count is the number of iterations, under the condition of TripsRight |
| StaticFor.TripsRight | lib/libbomp/kmp.c:148-151 | for a loop whose span fits its type the trip count is right exactly if the type is signed, or the loop goes up, or down by one, or has one iteration or a single step |
| StaticFor.UnsignedDownLosesIterations | lib/libbomp/kmp.c:148-151 | an unsigned loop from 10 down to 0 by 2 runs only its first iteration |
| StaticFor.SharesTile | lib/libbomp/kmp.c:162-168 | consecutive shares, from the first iteration to the last, whose sizes differ by at most one |
| StaticFor.OwnerExistsUniquely | lib/libbomp/kmp.c:155-170 | every iteration belongs to exactly one thread |
| StaticFor.StaticShareRight | lib/libbomp/kmp.c:154-171 | in wrap-around arithmetic of all four types each thread gets exactly the bounds of its share, and exactly the owner of the final iteration the flag; a thread without iterations gets a loop that does not run exactly if one step beyond the upper bound fits |
| StaticFor.IdleThreadRuns | lib/libbomp/kmp.c:158 | three threads that count from 1 down to 0 in an unsigned type: the one without iterations starts at the largest number |
| StaticFor.StaticNoOverflow | lib/libbomp/kmp.c:148-171 | no thread of a team overflows on a signed loop exactly if the caller's guard holds |
| StaticFor.GuardNotImplied | lib/libbomp/kmp.c:162-168 | upper - lower + 1 and upper + incr fitting is not enough: a loop on one thread that overflows |
| ChunkedFor.RoundIs | lib/libbomp/kmp.c:172-182 | round j of thread t has the bounds of chunk t + j * n, wrapped around |
| ChunkedFor.OwnerRuns | lib/libbomp/kmp.c:172-182 | round (k/chunk)/n of thread (k/chunk) mod n runs iteration k exactly if the type holds the end of its chunk |
| ChunkedFor.VisitsOnce | lib/libbomp/kmp.c:172-182 | for a team whose threads go on until a round is empty: every iteration is run exactly once and nothing else is run, exactly if the end of the last chunk fits and each thread's first chunk after it comes out empty |
| ChunkedFor.VisitsOnceFits | lib/libbomp/kmp.c:172-182 | where a chunk takes at most half of the type, and no more than the loop's end is from the type's far end, that is so exactly if one number fits: the start of the chunk n after the last |
| ChunkedFor.EndLost | lib/libbomp/kmp.c:177-178 | one thread counting from 0 to 2^31 - 2 in chunks of 3 never runs 2^31 - 2 |
| ChunkedFor.ChunkedWrapsAround | lib/libbomp/kmp.c:172-178 | chunks of 2^30 start the third of four threads before the loop |
| ChunkedFor.HarmlessWrap | lib/libbomp/kmp.c:172-178 | a start that does not fit may wrap around to beyond the loop and do no harm |
| ChunkedFor.ChunkedLastRight | lib/libbomp/kmp.c:179-180 | the flag marks the thread that runs the final iteration |
| Barrier.StepInv | lib/libbomp/spin.h:82-103 | every atomic step of every thread keeps: counter is the number of arrivals, and while one thread closes a generation all others spin on its cycle |
| Barrier.NobodyLeavesEarly | lib/libbomp/spin.h:82-103 | in every run nobody has left a generation that somebody has not entered, and nobody is two generations ahead |
| Barrier.FlipNotMissed | lib/libbomp/spin.h:90-92 | a waiter sees a flipped cycle exactly if its generation is over, and keeps seeing it until it moves, although cycle is one bit |
| Barrier.StuckIsDone | lib/libbomp/spin.h:82-103 | if no thread can move, every thread is out: no deadlock |
| Barrier.EveryGenerationEnds | lib/libbomp/spin.h:82-103 | when each of max threads waits a given number of times, at most 5 * rounds * max steps that are not spinning are possible, and then all are out |
| ThreadPool.PushedAppends | lib/libbomp/popcorn_threadpool.c:96-119 | a push appends to the ring's contents and keeps tail == head + count modulo the size |
| ThreadPool.PoppedTakesFirst | lib/libbomp/popcorn_threadpool.c:218-222 | a pop takes the oldest task |
| ThreadPool.Pool.constructor | lib/libbomp/popcorn_threadpool.c:36-46 | an empty ring |
| ThreadPool.Pool.Add | lib/libbomp/popcorn_threadpool.c:83-135 | which of the four answers is given, a full queue before a shutdown, and the queue afterwards |
| ThreadPool.Pool.Take | lib/libbomp/popcorn_threadpool.c:218-222 | the first task leaves the queue |
| ThreadPool.Pool.ShutDownPool | lib/libbomp/popcorn_threadpool.c:148-155 | shutdown is set and the queue kept |
| PoolSteps.StepInv | lib/libbomp/popcorn_threadpool.c:83-241 | every step of every worker, caller and of the destroyer keeps the pool's invariants |
| PoolRuns.Fifo | lib/libbomp/popcorn_threadpool.c:101-122 | over all interleavings the accepted tasks are the taken ones followed by the ring's contents, in order, and each taken task is with the one worker that took it or has been run |
| PoolRuns.NoLostWakeUp | lib/libbomp/popcorn_threadpool.c:207-210 | with the lock free no worker sleeps while there is a task or a shutdown, whatever spurious wake-ups occur |
| PoolRuns.LeavesDrained | lib/libbomp/popcorn_threadpool.c:212-215 | a worker leaves only a drained queue, and nothing is accepted or taken afterwards |
| PoolRuns.DestroyCompletesAll | lib/libbomp/popcorn_threadpool.c:148-173 | when destroy has joined the workers every accepted task has been run and the pool is freed |
| PoolRuns.NoDeadlock | lib/libbomp/popcorn_threadpool.c:197-241 | the holder of the lock can always go on, and with the lock free and a task unfinished a worker can |
| PoolRuns.EveryTaskFinishes | lib/libbomp/popcorn_threadpool.c:83-241 | in every run the steps that change something are bounded by the calls and spurious wake-ups, and when none is left every accepted task has been run and no caller is still waiting |
| PoolRuns.AddsExactly | lib/libbomp/popcorn_threadpool.c:92-123 | with the lock held a task goes to the end of the queue exactly if there is room and no shutdown, and nothing else changes otherwise |
| PoolRuns.EveryCallAnswered | lib/libbomp/popcorn_threadpool.c:83-135 | over all interleavings each call gets one answer, in its caller's order, and the accepted tasks are exactly those of the calls answered with success |
| PoolRuns.CallAlone | lib/libbomp/popcorn_threadpool.c:83-135 | a call that nobody comes between, in any state: its task is queued if there is room and no shutdown, and which answer it gets |
| PoolRuns.WorkAlone | lib/libbomp/popcorn_threadpool.c:204-236 | a worker that nobody comes between runs the oldest task |
| PoolRuns.ShutDownAlone | lib/libbomp/popcorn_threadpool.c:148-160 | a destroyer that nobody comes between shuts down and wakes everybody up |
| ForkJoinRuns.StepInv | lib/libbomp/processing.c:33-111 | every step of the master and of every worker keeps: items are conserved, counter counts the current generation only, and few workers have missed a flip |
| ForkJoinRuns.RegionsJoin | lib/libbomp/processing.c:95-111 | whenever the master is out of its regions, the items 1 to n-1 of each region were taken exactly once, in order, and completed, and the queue is empty |
| ForkJoinRuns.StaleNeverCount | lib/libbomp/spin.h:82-88 | waiters of earlier regions never count as arrivals |
| ForkJoinRuns.NoFlipMissed | lib/libbomp/spin.h:90-92 | with exactly n-1 workers every waiter whose generation is over sees the flip |
| MissedFlip.FlipMissed | lib/libbomp/spin.h:90-92 | whenever a team of at least two has a worker to spare there is a run in which a waiter misses its flip |
| ForkJoinRuns.NoDeadlock | lib/libbomp/processing.c:33-111 | in a region some thread can always take a step that changes something, however many waiters have missed their flip |
| ForkJoinRuns.EveryRegionEnds | lib/libbomp/processing.c:33-111 | once begun, a region ends within 8 * n - 2 steps that change something and one more for each worker, whatever the schedule, and then exactly one more region is over |
| Sections.CountRoundTrip | lib/libelf/lib/newscn.c:26-62 | reading the stored section count gives it back exactly if it fits sh_size |
| Sections.DelscnCount | lib/libelf/lib/opt.delscn.c:35 | elf_delscn's count can be read back exactly below 2^16, and is the canonical one exactly if the old count was below SHN_LORESERVE |
| Sections.NewIndexNames | lib/libelf/lib/opt.delscn.c:26-29 | a renumbered index names the section it named, or none if that was deleted |
| Sections.MovedFrom | lib/libelf/lib/x.movscn.c:82-97 | which section each place of a moved list holds |
| Sections.MovedMeans | lib/libelf/lib/x.movscn.c:82-97 | the moved section comes right after the other one, and without it the list is as before without it |
| Sections.Elf.constructor | lib/libelf/lib/newscn.c:85-91 | an object without sections |
| Sections.Elf.UpdateShnum | lib/libelf/lib/newscn.c:26-62 | the count is stored in the header or, from SHN_LORESERVE, in section 0 |
| Sections.Elf.FirstScn | lib/libelf/lib/newscn.c:85-102 | section 0 is made once, with its count |
| Sections.Elf.NewScn | lib/libelf/lib/newscn.c:104-145 | a section is appended, with index and last pointer, and the count is stored right, whatever it was before |
| Sections.Elf.RemScn | lib/libelf/lib/x.remscn.c:26-118 | unlinks exactly the given section, renumbers the rest and stores the count right; which calls fail |
| Sections.Elf.MovScn | lib/libelf/lib/x.movscn.c:26-112 | the list becomes "remove, then insert after", with index equal to position throughout, and the stored count is left as it is; which calls fail |
| Sections.Elf.ShiftMoved | lib/libelf/lib/x.movscn.c:67-80 | one pass gives every section between the two places its new index |
| Sections.Elf.DelScn | lib/libelf/lib/opt.delscn.c:107-199 | sh_link and sh_info of the remaining sections, by their types as numbers, name the sections they named before, or none; other sections keep them; and when the count stored is right |
| Sections.Elf.UpdateShdr | lib/libelf/lib/opt.delscn.c:31-65 | every header is renumbered according to its type |
| Bytes.RoundTrip16 | lib/libelf/lib/byteswap.h:28-51 | 16-bit load and store undo each other in both byte orders |
| Bytes.RoundTrip32 | lib/libelf/lib/byteswap.h:37-60 | so do 32-bit ones |
| Bytes.RoundTripI32 | lib/libelf/lib/byteswap.h:41-64 | and signed ones |
| Bytes.RoundTrip64 | lib/libelf/lib/swap64.c:29-71 | and 64-bit ones, built from two halves |
| ElfFormat.ScalarIs | lib/libelf/lib/byteswap.h:28-60 | the load macros give the number that the bytes make, least or most significant first |
| ElfFormat.SignedIs | lib/libelf/lib/byteswap.h:41-64 | the signed load gives it in two's complement |
| Records.RecordRoundTrip | lib/libelf/lib/32.xlatetof.c:61-95 | translating a record to the file and back gives the record |
| Records.BytesRoundTrip | lib/libelf/lib/32.xlatetof.c:61-95 | translating to memory and back gives the bytes |
| Records.EhdrRoundTrip | lib/libelf/lib/64.xlatetof.c:149-170 | the ELF header survives, for both classes and byte orders |
| Records.PhdrRoundTrip | lib/libelf/lib/ext_types.h:192-214 | program headers survive, although the classes order their fields differently |
| Records.ShdrRoundTrip | lib/libelf/lib/ext_types.h:96-121 | section headers survive |
| ElfFormat.EhdrIs | lib/libelf/lib/ext_types.h:56-90 | the fields of the ELF header are at the gABI's offsets, given as numbers, for both classes and byte orders |
| ElfFormat.PhdrIs | lib/libelf/lib/ext_types.h:192-214 | so are those of program headers |
| ElfFormat.ShdrIs | lib/libelf/lib/ext_types.h:96-121 | and those of section headers |
| Layout.DataLayout | lib/libelf/lib/update.c:44-104 | offsets, length and alignment of a section's buffers, or failure exactly for one of unknown version or that cannot be translated |
| Update.Elf.LayOut | lib/libelf/lib/update.c:123-321 | both layouts, for both classes: when they fail, and every header field and offset afterwards, as LayoutLaws has them |
| Update.Elf.PassScn | lib/libelf/lib/update.c:188-278 | what one section is given, or whether it passes |
| LayoutLaws.AutoLayout | lib/libelf/lib/update.c:123-321 | the laid-out object field by field, in numbers: what every field of the headers and every buffer's place becomes, or that it is kept; the layout makes that object and no other |
| LayoutLaws.UserLayout | lib/libelf/lib/update.c:123-321 | the same for a program's layout, whose length is the largest of the ends |
| LayoutLaws.UserAccepted | lib/libelf/lib/update.c:241-276 | where no end wraps around, or overlaps are allowed, a program's layout is accepted exactly if its sections have room for their buffers and, unless allowed, do not overlap |
| Update.Elf.Clashes | lib/libelf/lib/update.c:254-271 | the scan finds a section that overlaps exactly if there is one |
| Placement.AutoLayoutOrdered | lib/libelf/lib/update.c:147-307 | header, program headers, sections in order and section headers occupy disjoint increasing ranges inside the returned length |
| Placement.BuffersOrdered | lib/libelf/lib/update.c:90-97 | a section's buffers follow each other inside it |
| Placement.DivisorAligned | lib/libelf/lib/update.c:226-234 | the "if" half of that for one file, however large |
| Placement.BuffersAligned | lib/libelf/lib/update.c:38-39 | so with powers of two every buffer is aligned in the file, not only in its section |
| Placement.BufferAlignedExactly | lib/libelf/lib/update.c:226-234 | whatever the alignments, a buffer is aligned in every file that holds its section exactly if its alignment divides the largest of the section's |
| Placement.OddAlignments | lib/libelf/lib/update.c:226-234 | with alignments 2 and 3 in one section a buffer is not |
| Placement.LayoutTwice | lib/libelf/lib/update.c:35-36 | a second layout changes no value |
| Placement.UserLayoutDisjoint | lib/libelf/lib/update.c:241-276 | a program's layout that is accepted has disjoint extents that hold their buffers and lie below the returned length, although the scan is mostly skipped |
| Placement.UserLayoutAccepted | lib/libelf/lib/update.c:241-276 | where no end wraps around a program's layout is accepted exactly if its sections hold their buffers and no two overlap |
| Placement.UserExtentReserved | lib/libelf/lib/update.c:455-478 | the file reaches to a section's end exactly if that end does not wrap around; in 32-bit objects it never does |
| Placement.UserLayoutWraps | lib/libelf/lib/update.c:431-480 | in a 64-bit object an end that wraps around hides that two sections overlap |
| Placement.UserLayoutOnHeader | lib/libelf/lib/update.c:241-276 | so whatever is accepted is accepted with the headers' tables anywhere |
| Placement.SectionOnHeader | lib/libelf/lib/update.c:241-276 | a section may lie on the ELF header |
| Placement.FindBuffer | lib/libelf/lib/strptr.c:72-126 | the buffer found holds the offset, at the d_off that layout assigns; none is found exactly if none holds it |
| Image.Write | lib/libelf/lib/update.c:633-737 | writing fails exactly for a buffer without memory or that cannot be translated; otherwise, if no two parts overlap, the image holds every part |
| Cook.LaidWritable | lib/libelf/lib/update.c:633-700 | after automatic layout all parts fit the returned length and no two overlap |
| Cook.CookShdrs | lib/libelf/lib/cook.c:211-460 | the section headers read, or which error is given |
| Cook.CookPhdrs | lib/libelf/lib/cook.c:125-209 | the program headers read, or which error is given |
| Cook.CookFile | lib/libelf/lib/cook.c:462-501 | the whole reader: it succeeds exactly if the bytes describe headers, and gives those |
| Cook.ReadIs | lib/libelf/lib/cook.c:211-501 | what is read is exactly what the bytes say: magic number, class and byte order, the fields of every header at their offsets, and the counts |
| Cook.CookUndoesWrite | lib/libelf/lib/cook.c:462-478 | reading a written file gives back the ELF header, the program headers and the section headers, with extended counts, in both byte orders |
| Cook.WrittenBytes | lib/libelf/lib/update.c:633-737 | the bytes of a written file, in the gABI's terms, describe the laid-out object, and hold its buffers |
| Cook.DataRead | lib/libelf/lib/getdata.c:97-157 | and what elf_getdata then gives for a section holds the program's buffers at their offsets |
| ElfUpdate.UpdateImage | lib/libelf/lib/update.c:968-1021 | fails exactly for an unknown version or byte order, a buffer that cannot be translated, or one without memory; otherwise every part is in its place, the bytes of the file describe the object, and cooking them gives it back |
| SectionData.TableRoundTrip | lib/libelf/lib/32.xlatetof.c:61-95 | a table of whole records of any format survives translation there and back, in any byte orders |
| SectionData.TableAt | lib/libelf/lib/32.xlatetof.c:61-95 | translation to the other byte order turns every field of every whole record around and moves nothing else |
| SectionData.Translate | lib/libelf/lib/32.xlatetof.c:61-86 | writes the translated whole records over the destination and nothing else, also when that is the source |
| SectionData.File.constructor | lib/libelf/lib/getdata.c:37-45 | no section has been asked for |
| SectionData.File.GetData | lib/libelf/lib/getdata.c:97-157 | which error is given; otherwise a section's data is the translation of the bytes the file had at first, however often and in whatever order sections are asked for, also if they overlap harmlessly |
| SectionData.File.CookScn | lib/libelf/lib/getdata.c:26-94 | a section is translated once, into the image or into memory of its own if the image is frozen |
| SectionData.File.OthersSpared | lib/libelf/lib/getdata.c:66-86 | translating a section in place leaves the records of such sections alone |
| SectionData.InPlaceExactly | lib/libelf/lib/getdata.c:66-86 | two sections translated in place read right for every image and in either order exactly if the byte order is the machine's or no field of more than one byte in a whole record of one lies on a whole record of the other |
| SectionData.AllInPlaceExactly | lib/libelf/lib/getdata.c:66-86 | the same for all sections of a file: what File requires is necessary |
| SectionData.SharedByte | lib/libelf/lib/getdata.c:66-86 | two tables of halves that share a byte: safe in the machine's own byte order only |
| Versions.WalkInside | lib/libelf/lib/verdef.h:131-231 | whatever the buffer holds, only records inside it are read or written |
| Versions.SameWalk | lib/libelf/lib/verdef.h:146-229 | a walk is determined by the values in the records it visits |
| VersionChains.WalkFollows | lib/libelf/lib/verdef.h:146-229 | the records visited are those of the chains that the bytes make, with counts, distances and versions at the offsets of their fields as numbers |
| VersionChains.AuxWalk | lib/libelf/lib/verneed.h:186-220 | the same for the auxiliary records of one record, in both directions |
| VersionChains.Links | lib/libelf/lib/verdef.h:146-229 | each record lies where the one before it leads, and the chain stops exactly at a record that leads nowhere or beyond the buffer |
| VersionChains.AuxLinks | lib/libelf/lib/verdef.h:187-220 | so do auxiliary records, which also stop at their count |
| Versions.AppliedEach | lib/libelf/lib/verneed.h:150-233 | every record visited is translated, if none overlaps another |
| VersionChains.FieldsKept | lib/libelf/lib/verdef.h:70-120 | every field of every visited record has the same number afterwards, in the other byte order |
| Versions.RoundTrip | lib/libelf/lib/verdef.h:131-231 | translating to the file and back restores every record visited, in either byte order |
| Versions.InPlaceSame | lib/libelf/lib/verneed.h:135-235 | in place, the visited records get the same bytes |
| VersionXlt.Xlt | lib/libelf/lib/verdef.h:131-231 | the translators end for every buffer; they succeed exactly if it holds a chain of records, and write exactly the records of the chain; also in place, if those do not overlap |
| VersionXlt.XltAux | lib/libelf/lib/verneed.h:180-220 | the chain of auxiliary records of one record |
| Archive.Library.Begin | lib/libelf/lib/begin.c:270-293 | a descriptor of its own with one reference |
| Archive.Library.BeginRef | lib/libelf/lib/begin.c:245-369 | which calls fail: a descriptor that cannot be read, writing to what is not writable or to a member, another file, no header; otherwise a handle on the descriptor itself, on a member that is open already, or on a new one |
| Archive.Library.AddMember | lib/libelf/lib/begin.c:312-369 | a new member is listed first and keeps its archive open, whose offset moves behind it |
| Archive.Library.FindMember | lib/libelf/lib/begin.c:319-331 | the scan finds an open member with the same base, if there is one |
| Archive.Library.End | lib/libelf/lib/end.c:74-118 | one handle is given up; nothing with a handle or an open member is released |
| Archive.Library.Release | lib/libelf/lib/end.c:81-117 | references are dropped up the chain of archives exactly as far as counts reach zero |
| Archive.Library.Unlink | lib/libelf/lib/end.c:87-93 | exactly the member leaves its archive's list |
| Archive.AncestorsOpen | lib/libelf/lib/end.c:74-118 | no archive is released while a member is open, however deeply nested |
| Archive.CountsHandlesAndMembers | lib/libelf/lib/begin.c:361-366 | a count is the number of handles and listed members, and listed members have different bases |
| Archive.AllReleased | lib/libelf/lib/end.c:74-118 | when no handle is left everything has been released |
| NList.ScanFinds | lib/libelf/lib/nlist.c:205-217 | what a backward scan finds: the last symbol from 1 on with the name |
| NList.AnswerTells | lib/libelf/lib/nlist.c:205-227 | an answer gives the value and the section of the last symbol with the name, or zeros |
| NList.Index.Build | lib/libelf/lib/nlist.c:180-202 | fails exactly for a symbol without a name; otherwise every chain leads through its bucket, last symbol first |
| NList.Index.Lookup | lib/libelf/lib/nlist.c:205-213 | for any hash function a lookup gives the answer of the backward scan |
| NList.Index.LookupAll | lib/libelf/lib/nlist.c:205-227 | that answer for every name up to the first empty one |

## Left out

- found_fixup (lib/stack_transformation/src/rewrite.c:506-569) is read before it is set and not reset between nodes; the model resets it for every node.
- The callee-saved bitmaps (lib/stack_transformation/include/bitmap.h:66, lib/stack_transformation/src/unwind.c:32-33) shift an int and mix bytes with words; the model has sets that start empty.
- The two address spaces of source and destination are two memories, so that writing one never changes the other.
- `put_val_arch`, `apply_arch_operation`: their load case ends in an error, and the operation types come from a file that is not part of this model.
- Live values with the sizes 24 and 32 of va_list, on-demand rewriting, registers wider than 8 bytes, and the register-capture code in userspace.c.
- AArch64 does not number its program counter; the model calls it register 1000.
- `Rewriting` keeps the pending fixups as a sequence; `FixupList` shows that the linked list realises the same operations.
- Opening binaries, mapping files, timers, logging and environment variables.
- Trip counts of loops whose span does not fit the type, dynamic schedules, and the code a compiler puts around `__kmpc_for_static_init`: `ChunkedFor` lets it add the stride to both bounds, clamp the upper one to the loop's, and stop at the first empty round.
- Changes of the number of threads while regions run, thread-local data, allocation failures, and a second `threadpool_destroy`.
- Memory models weaker than sequential consistency; `bomp_lock`, whose two forms are inline assembly.
- `size_t` sums that pass 2^64 in the layouts, apart from the end of a section; files with 2^32 or more section headers.
- Program headers from PN_XNUM on in 64-bit objects: the code writes them through the 32-bit view of section 0 (lib/libelf/lib/update.c:381-389).
- Dirty flags, `_elf_update_pointers`, `elf_fill`, checksums, error strings and the GElf copies.
- What a translator gives while a file is written: `Layout` takes the size and bytes as they are, and `Cook.DataRead` is about sections of bytes.
- SectionData.File.GetData: data added by the program, more than one buffer in a section, and a raw image kept beside the working one are not modelled; where an end that wraps around passes the test, the model answers `OutOfBounds` instead of reading beyond the image.
- Placement.BufferAlignedExactly: requires room for the section behind two of its alignments, since otherwise no file may hold it misaligned; `Placement.DivisorAligned` does not.
- ChunkedFor.VisitsOnce: says nothing about a single chunk that goes round the whole type.
- Translators for memory structures whose size differs from the file's; there are none for the versions modelled.
- Freeing of section data on removal, and descriptors used after their last `elf_end`.
- `elf_newscn` on a file that has not been cooked, and parsing of archive headers: what a header says, or that it is malformed, is a parameter.
- Sections.Elf.MovScn: requires that a section that claims to belong to the object is in its list, which the code asserts.
- VersionXlt.Xlt: in place it says nothing when visited records overlap, except that it ends and stays inside the buffer.
