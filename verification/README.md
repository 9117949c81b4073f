# Verified models of four systems programs

A Dafny 4.11 project about four C programs of this repository. Each is modelled twice: as values with
their invariants and theorems, and as the imperative code (classes over arrays, fields and linked
nodes, or a step relation between threads) proved to do exactly what the values say.

| part | files | about |
|---|---|---|
| heap allocator (`hw3`) | `Heap*.dfy`, `Allocator.dfy` | boundary tags, segregated free lists, splitting, coalescing, growth, `realloc`, `memalign` |
| decision diagrams (`hw1`) | `Bdd*.dfy`, `Birp.dfy` | hash-consed multi-terminal BDDs of images, canonicity, transformations, byte code |
| mailboxes (`hw5`) | `Mailbox*.dfy` | semaphores, mutexes, a linked queue and reference counts shared by any number of threads |
| print spooler (`hw4`) | `Spool*.dfy` | jobs, printers and child processes driven by commands, scans and signals |

`Powers.dfy` and `Counting.dfy` hold the arithmetic and the pigeonhole principle that the parts share.
`dafny verify dfyconfig.toml` checks everything.

## The heap allocator

`HeapModel.Heap` is a heap as a value: which tag stands at which address, and which blocks each of the
eight lists holds in which order. `Inv` says that the blocks tile the heap, every prev-alloc bit is the
alloc bit of the block before, no two free blocks touch, and each free block is in exactly one list, the
right one. Operations on values have no case distinctions on neighbours (`Freed` merges whatever is
free around a block); the branches of `sf_free` are proved to come to the same. `HeapMemory.Represents`
says how words in memory stand for a value: headers, footers of free blocks, and the links of eight
circular lists. `Allocator.SfHeap` is the code over an `array<int>` of words, write by write; every
method ends with memory that represents the value its specification names, and with the payload of
every other live block as it was. `HeapRuns` draws the consequences for whole runs of calls. `HeapFormat`
reads the layout off the words, bit by bit, and `HeapPolicy` says which block a request gets.

## The decision diagrams

`BddTable.Table` is the node array as a sequence. `Val` is the value of a node at a position, `Pixel`
at a row and a column; row and column digits interleave into a position (`Morton`). Canonicity
(`Canonical`, `ImageCanonical`) turns every statement about pixels into one about node indices: four
rotations, double negation, zooming in and out, and reading serialized code in the same table give the
very same index. `BddStore.Bdd` has the three arrays of the source. The node of level 69 in the last
slot stands for an image of one colour, and denotes its leaf. An operation requires that the table its
specification yields stays below that slot, because the source never checks for space; `BddGrowth` bounds
that table by what is known before the call. Two predicates describe the arrays: `InOrder` survives
reading any stream, `Valid` says in addition that levels go down from parents to children. `BddFormat` gives
the bytes of serialized diagrams, and `Birp` the transformations of the program, pixel by pixel.

## The mailboxes

`MailboxProtocol` has one step for every wait on or post to a semaphore; steps of different threads
interleave freely. Auxiliary fields name the reasons a reference count stands for, the threads past the
items semaphore, and the entries added and delivered so far; delivered is what a consumer read at the head
before it released the sender, while what leaves the queue is whatever is the head afterwards.
`MailboxCounts` says what the counts amount to over whole runs, `MailboxSenders` what becomes of the
senders of delivered messages. `MailboxHistory` tells every field of a mailbox from the calls and the order in
which threads got the semaphores, and `MailboxShutdown` what becomes of consumers. `MailboxQueue` is the linked queue that is worked on while the mutex is held.

## The print spooler

`SpoolModel` describes commands, the scan and the reports of `waitpid` as functions on states, with the
coupling of jobs, printers and processes as invariant; `Spooler` is the code on the global arrays.
`SpoolHistory` tells the status of every job and printer in every run from the commands, the reports and
the sweeps that came before.

## Where code and documentation differ

The models follow the code.

- `hw3/include/sfmm.h` describes size classes up to 256M; the code puts everything above 1024 bytes into list 6 and keeps list 7 for the last block (`HeapTags.ClassIndexBounds`, `HeapRuns.FiledOnce`).
- `powerOf2` works on an `int`, so `sf_memalign` refuses alignments from 2^31 on (`HeapTags.PowerOf2` says exactly when it accepts). `hw3/include/sfmm.h` also refuses alignments below the least block size; the code accepts every power of two, 1 included. Sizes below 32 are refused rather than aligned.
- `hw1/include/bdd.h` gives the last opcode as that of level 31; the code reads and writes levels up to 32.
- `hw1/include/bdd.h` asks for an error on a stream that is not in the documented format. Two kinds of such streams are accepted, and no others (`BddSerial.AcceptedIllFormed`): those that end with a lone opcode of a leaf, because the test of the value's byte can never be true and end-of-file becomes the value -1 (`BddSerial.CutOffLeafIsAccepted`); and those that name a child by 0 or by a serial number not given out yet, which reads as leaf 0 (`BddSerial.MissingChildIsAccepted`). Levels are not compared either, so a stream may build a node on a level that is not above its children's; `BddSerial.DiagramsIffDescends` and `BddSerial.DescendsAnywhere` say exactly when, and `BddSerial.UpsideIsAccepted` gives one.
- `hw5/include/mailbox.h` makes the consumer of a message responsible for releasing the sender, so that the sender outlives the message; the code releases it inside `mb_next_entry`, before the message leaves the queue. The message returned then names a live sender if and only if something else still refers to it (`MailboxSenders.SenderSurvives`), and need not (`MailboxSenders.SenderFreedIsReached`), although `hw5/src/server.c` goes on to notify that sender. Finalization discards messages without releasing their senders, whether the last reference was a caller's or that of a message. A count equals the references there are exactly as long as no mailbox was freed with a message from that sender in its queue (`MailboxCounts.CountExact`); after that the sender is never freed (`MailboxCounts.LostForever`), and a run of one thread gets there (`MailboxCounts.LossIsReached`).
- `hw5/include/mailbox.h` says that a message from the mailbox that is being finalized reaches the discard hook with its sender replaced by NULL; the code passes it on unchanged (`MailboxQueue.Queue.Discard`).
- `hw5/include/mailbox.h` takes NULL as the sign for the thread that serves a mailbox to stop. `mb_shutdown` posts once, so of several waiting consumers one is let through (`MailboxShutdown.OnePostOneConsumer`).
- `birp_to_birp` leaves constant images as they are when it zooms, though zooming out makes every pixel white that is not black (`Birp.GreyStaysGrey`).
- Nothing keeps `findJobIndex` from a slot that remembers an older process of the same number: when the system reuses a number that an earlier slot remembers, the process is taken for that slot's (`SpoolModel.ReusedNumber`), until the slot is started again (`SpoolModel.MisledOn`), and the search for its printer fails. A short run gets there (`SpoolModel.ReuseIsReached`).
- `enable` makes a printer idle even while it works; the scan is safe all the same because it also asks for a printer without a job (`SpoolModel.Coupling`).

## Model

| member | source | states |
|---|---|---|
| HeapTags.PackUnpack | hw3/src/helpingFunction.c:89-104 | a header word determines size, alloc bit and prev-alloc bit, and setting either bit in the word sets it in the tag |
| HeapFormat.HeaderWords | hw3/include/sfmm.h:22-71 | in a heap in order every header word is the length, plus 1 if the block is allocated, plus 2 if the one before it is; its upper bits lead to the next header, up to an allocated one of length 0 in the last 8 bytes; a free block repeats it in its last word |
| HeapFormat.LinkWords | hw3/include/sfmm.h:76-84 | the links of each node, at 8 and 16 bytes, are the next and the previous node of its list around the dummy |
| HeapFormat.ListedBySize | hw3/src/helpingFunction.c:6-22 | list 0 holds length 32, list 1 up to 64, and so on to 1024 in list 5; longer ones are in list 6 and the last block of the heap in list 7 |
| HeapTags.PowerOf2 | hw3/src/helpingFunction.c:106-128 | the alignment test accepts exactly the powers of two below 2^31 |
| HeapTags.ComputeMemorySize | hw3/src/helpingFunction.c:36-49 | rounds up to a multiple of 16, for all sizes whose result an `int` holds |
| HeapTags.RoundUpIsLeast | hw3/src/helpingFunction.c:36-49 | no smaller multiple of 16 would do |
| HeapTags.ClassIndexBounds | hw3/src/helpingFunction.c:6-22 | class i holds sizes above 32*2^(i-1) and up to 32*2^i, class 6 has no upper bound |
| HeapTags.ComputeMemoryIndex | hw3/src/helpingFunction.c:6-22 | the loop finds the class of every size |
| HeapTags.LowerClassIsTooSmall | hw3/src/sfmm.c:77-89 | blocks of a lower class than the request's are too small for it |
| HeapModel.WalkExact | hw3/src/sfmm.c:23-51 | walking by block sizes meets every block once, in address order, and the sizes add up to the span walked |
| HeapModel.FreedInv | hw3/src/sfmm.c:482-757 | freeing keeps tiling, prev-alloc bits, coalescing and filing, whatever the neighbours are |
| HeapOperations.FreedCorrect | hw3/src/sfmm.c:374-760 | exactly the freed block stops being live; all other live blocks keep address and length |
| HeapAllocation.FirstFitMeaning | hw3/src/sfmm.c:89-135 | a block is found if any free block from the given list on fits, and it comes from the lowest such list |
| HeapAllocation.SkippingLosesNothing | hw3/src/sfmm.c:77-89 | starting at the request's class gives the result of searching all lists |
| HeapAllocation.PlacedCorrect | hw3/src/sfmm.c:274-372 | taking or splitting a block keeps the invariant and makes exactly that block live, at most a splinter too long |
| HeapAllocation.InitialInv | hw3/src/sfmm.c:18-58 | the first page becomes a heap in order with nothing live |
| HeapAllocation.WildernessIsLast | hw3/src/sfmm.c:141-182 | list 7 holds at most one block, the last one, and is empty exactly when the epilogue's prev-alloc bit is set |
| HeapAllocation.ExtendedCorrect | hw3/src/sfmm.c:144-206 | one more page keeps the invariant and every live block, and adds a page to the wilderness |
| HeapAllocation.GrownIsLeast | hw3/src/sfmm.c:208-271 | the growth loop ends with the least number of pages that suffices, or fails exactly when all pages left would not suffice |
| HeapAllocation.GrowsAtLeast | hw3/src/sfmm.c:88-272 | sf_malloc grows the heap only if no free block in any list fits, and then by the least number of pages |
| HeapPolicy.TakesFirstFit | hw3/src/sfmm.c:74-135 | if any free block is long enough, the request gets the first such one in the order of the lists, and within a list from its front; the heap does not grow and is that of HeapPolicy.PlacedInFront |
| HeapPolicy.PlacedInFront | hw3/src/sfmm.c:274-372 | the front of the block is handed out; 32 bytes or more that remain are a free block, first in its list, less than that goes with the block |
| HeapPolicy.FreedIsFirst | hw3/src/sfmm.c:482-757 | the freed block, with its free neighbours, is the first of its list |
| HeapAllocation.MallocCorrect | hw3/src/sfmm.c:13-372 | one new live block, aligned and long enough, or NULL exactly when memory is exhausted; nothing else live changes |
| HeapOperations.TrimmedCorrect | hw3/src/sfmm.c:923-941 | shrinking in place keeps the invariant; only the given block changes its length |
| HeapOperations.ReallocCorrect | hw3/src/sfmm.c:860-943 | one block for the new size replaces the old one, at the same address when that was long enough; NULL exactly when it had to move and memory is exhausted |
| HeapAlignment.AlignedRoom | hw3/src/sfmm.c:988-1034 | the aligned address lies inside the block, the piece cut off in front is a whole block of at least 32 bytes, and the subtraction of lengths never goes below zero |
| HeapAlignment.CarvedCorrect | hw3/src/sfmm.c:1010-1063 | both cuts and both frees keep the invariant; the aligned block takes the place of the large one |
| HeapAlignment.MemalignCorrect | hw3/src/sfmm.c:945-1064 | for size at least 32 and a power of two below 2^31: a new block at a multiple of the alignment, or NULL exactly when no block of size + align + 32 bytes can be had |
| HeapMemory.RingUnlinked | hw3/src/sfmm.c:287-290 | unlinking takes exactly one element out of a circular doubly linked list |
| HeapMemory.RingPushed | hw3/src/sfmm.c:359-366 | the push puts the block at the front of a circular doubly linked list |
| HeapRefinement.FreedRepresents | hw3/src/sfmm.c:482-757 | the words written by freeing stand for the freed heap: headers, footers and all eight lists |
| HeapRefinement.FreedSpares | hw3/src/sfmm.c:482-757 | freeing writes no payload word of another live block |
| HeapPlacementWords.TakenRepresents | hw3/src/sfmm.c:280-302 | the words written when a whole block is taken stand for the new heap |
| HeapPlacementWords.SplitRepresents | hw3/src/sfmm.c:303-368 | the words written when a block is split stand for the new heap |
| HeapPlacementWords.CutRepresents | hw3/src/sfmm.c:924-934 | cutting a live block in two touches no other payload and not the front part's |
| HeapGrowthWords.ExtendedRepresents | hw3/src/sfmm.c:157-206 | the words written when the heap grows stand for the extended heap |
| HeapGrowthWords.InitialRepresents | hw3/src/sfmm.c:18-58 | the words written on the first page stand for the initial heap |
| HeapGrowthWords.PayloadWriteRepresents | hw3/include/sfmm.h:76-92 | whatever a program writes into the payload of a live block leaves the heap as it is |
| HeapFreeBranches.LivePassesChecks | hw3/src/sfmm.c:419-460 | a live block is aligned, long enough and within the heap, as sf_free and sf_realloc check |
| Allocator.SfHeap.PassesChecks | hw3/src/sfmm.c:374-474 | for a live block none of the checks fires, those of its alloc bit and of the block before it included |
| HeapFreeBranches.MergingWilderness | hw3/src/sfmm.c:640-653 | overwriting list 7 without unlinking the old wilderness amounts to unlinking and pushing |
| HeapRuns.ReachableHeap | hw3/src/sfmm.c:13-1064 | after any run of calls on pointers the program holds the heap has the whole invariant, and block sizes sum to the heap's length minus 48 |
| HeapRuns.PayloadsApart | hw3/src/sfmm.c:13-1064 | what a program holds is aligned, inside the heap and pairwise disjoint, headers included |
| HeapRuns.AllGivenBack | hw3/src/sfmm.c:482-757 | with nothing held there is one free block over the whole heap, in list 7, and all other lists are empty |
| HeapRuns.FiledOnce | hw3/src/sfmm.c:482-757 | a free block is in exactly one list, once: list 7 if and only if it is the last block, else the list of its size |
| Allocator.SfHeap.Free | hw3/src/sfmm.c:374-760 | the seven branches on the words do what freeing means on heap values; no abort for a live block; no other payload changes |
| Allocator.SfHeap.FreeWithBoth | hw3/src/sfmm.c:680-757 | the branch with both neighbours free, wilderness or not, writes the words of the specification |
| Allocator.SfHeap.FreeLastWithPrevious | hw3/src/sfmm.c:510-548 | the branch for the last block after a free one |
| Allocator.SfHeap.Search | hw3/src/sfmm.c:74-135 | walking the linked lists through memory finds the block first fit finds |
| Allocator.SfHeap.Extend | hw3/src/sfmm.c:144-206 | growing by a page, or ENOMEM with memory and heap untouched |
| Allocator.SfHeap.GrowTo | hw3/src/sfmm.c:208-271 | the growth loop terminates with the heap of the specification; live payloads unchanged on ENOMEM too |
| Allocator.SfHeap.Malloc | hw3/src/sfmm.c:13-372 | heap and pointer are those of the specification, errno is ENOMEM exactly for a failed request, no live payload changes |
| Allocator.SfHeap.Realloc | hw3/src/sfmm.c:762-943 | the same for realloc; the first min(old payload, new size) bytes are at the returned address, no other live payload changes, and none at all when the request fails; EINVAL for NULL or a misaligned pointer |
| Allocator.SfHeap.FindAligned | hw3/src/sfmm.c:988-1008 | the byte-wise search ends at the first aligned address at a distance of 32 from the header |
| Allocator.SfHeap.Memalign | hw3/src/sfmm.c:945-1064 | heap and pointer are those of the specification, EINVAL for bad arguments, no live payload changes |
| BddTable.LookupWf | hw1/src/bdd.c:27-180 | a sound lookup keeps the table well-formed and every old index in place |
| BddTable.LookupAgain | hw1/src/bdd.c:123-139 | looking a stored node up gives its index and adds nothing |
| BddTable.ExtendedVal | hw1/src/bdd.c:81-101 | adding nodes changes the meaning of no older index |
| BddTable.LookupVal | hw1/src/bdd.c:27-180 | a looked-up node chooses by its level's digit, also when no node was made because the children are equal |
| BddTable.Canonical | hw1/src/bdd.c:27-180 | different indices differ at a position of the square their levels span |
| BddImage.ImageCanonical | hw1/src/bdd.c:27-180 | two nodes show the same image if and only if they are the same index |
| BddImage.NeverConstant | hw1/src/bdd.c:290-311 | a node with children never shows an image of one colour |
| BddImage.MortonSurjective | hw1/include/bdd.h:237-261 | every position of a square is that of a pixel |
| BddTransforms.MortonInjective | hw1/include/bdd.h:237-261 | and of one pixel only |
| BddImage.JoinRows | hw1/src/bdd.c:213-226 | a node on an even level puts one image above the other |
| BddImage.JoinCols | hw1/src/bdd.c:255-270 | a node on an odd level puts two images side by side |
| BddImage.RasterRoundTrip | hw1/src/bdd.c:273-372 | reading back the diagram of a raster gives the raster; the rest of the square is 0 |
| BddTransforms.MapVal | hw1/src/bdd.c:1054-1127 | mapping commutes with evaluation, also when the function merges nodes |
| BddTransforms.MapPixels | hw1/src/bdd.c:1054-1155 | every pixel of the mapped diagram is the function of the old one |
| BddTransforms.NegatePixels | hw1/src/birp.c:79-85 | every pixel and its negative add up to 255 |
| BddTransforms.ThresholdPixels | hw1/src/birp.c:87-109 | 255 from the threshold on, the threshold included, and 0 below |
| BddTransforms.MapTwice | hw1/src/bdd.c:1129-1155 | mapping twice gives the very node that mapping with the composition gives |
| BddTransforms.NegateTwice | hw1/src/birp.c:82-85 | negating twice gives back the very same index |
| BddTransforms.ThresholdTwice | hw1/src/birp.c:92-109 | thresholding again changes nothing, not even the index |
| BddTransforms.ZoomInPixels | hw1/src/bdd.c:1211-1279 | zooming in by k: pixel (r, c) is the old (r / 2^k, c / 2^k) |
| BddTransforms.ZoomOutPixels | hw1/src/bdd.c:1281-1342 | zooming out by k: 0 exactly when the whole 2^k x 2^k block is 0, else 255 |
| BddTransforms.ZoomInOut | hw1/src/bdd.c:1344-1380 | in and out again by k is the very node of mapping non-zero to 255 |
| BddTransforms.RotatePixels | hw1/src/bdd.c:1157-1209 | rotation: pixel (r, c) is the old (c, side - 1 - r) |
| BddTransforms.RotateKeepsNodes | hw1/src/bdd.c:1194-1209 | the result of rotating a diagram that is not constant is never a leaf, though the source does not check |
| BddTransforms.RotateFourTimes | hw1/src/bdd.c:1157-1209 | four rotations give back the very same index, also for skipped levels at the root |
| Birp.Program.Transform | hw1/src/birp.c:111-308 | for each transformation, constant images included: what the resulting root shows at every pixel, the new width and height, and -1 exactly for zooms out of range |
| Birp.GreyStaysGrey | hw1/src/birp.c:209-230 | zooming a grey image out as a diagram would make it white |
| BddSerial.CountBytes | hw1/src/helpingFunctions.c:244-279 | counting up gives the four little-endian bytes |
| BddSerial.FourBytesOfLe32 | hw1/src/helpingFunctions.c:301-304 | reading four bytes undoes writing them |
| BddSerial.EmitWrites | hw1/src/bdd.c:377-512 | serializing gives every reachable node exactly one serial, children smaller ones than parents |
| BddSerial.OneInstructionEach | hw1/src/bdd.c:514-548 | there are exactly as many instructions as reachable nodes |
| BddFormat.CodeLayout | hw1/include/bdd.h:111-131 | the code of a diagram has one instruction for every reachable node, in the order of the serial numbers, the root's last: 64 and the value for a leaf; 64 + l, the left child's serial number in four bytes and the right child's in four for a node of level l |
| BddFormat.ReadLeaf | hw1/src/bdd.c:566-586 | the bytes 64 and v give leaf v the next serial number |
| BddFormat.ReadNodeShows | hw1/src/bdd.c:589-646 | 64 + l and two serial numbers, lowest byte first, give the next serial number to a node that shows the first node where digit l - 1 of the position is 0, and the second one elsewhere |
| BddFormat.SmallStream | hw1/src/bdd.c:377-692 | the thirteen bytes of a node of level 1 with 0 on its left and 255 on its right, written and read |
| BddSerial.ReplayAppend | hw1/src/bdd.c:562-655 | code can be read piece by piece |
| BddSerial.SerializeRoundTrip | hw1/src/bdd.c:377-692 | reading the code back in a table that holds the diagram gives the very same node and adds nothing; in any other table it gives a node with the same image and level |
| BddSerial.AcceptedIffTiles | hw1/src/bdd.c:562-655 | a stream is accepted if and only if it consists of whole instructions, the last of which may be a leaf's opcode alone |
| BddSerial.TilesFormat | hw1/include/bdd.h:114-133 | the documented format is just those streams, less the ones that end cut off and the ones that name a serial number not given out |
| BddSerial.AcceptedIllFormed | hw1/include/bdd.h:141-152 | a stream in the format is never rejected; one outside it is accepted exactly if it ends cut off or names a missing child after whole instructions |
| BddSerial.CutOffLeafIsAccepted | hw1/src/bdd.c:566-586 | a stream that is accepted although it is cut off |
| BddSerial.MissingChildIsAccepted | hw1/src/bdd.c:608-636 | a stream that is accepted although it names a serial number never given out, which reads as leaf 0 |
| BddSerial.DiagramsIffDescends | hw1/src/bdd.c:638-640 | the table holds diagrams after reading if and only if every node read is on a level above its children's |
| BddSerial.DescendsAnywhere | hw1/src/bdd.c:562-655 | whether that is so is a matter of the stream alone, whatever the table already holds |
| BddSerial.UpsideIsAccepted | hw1/src/bdd.c:589-646 | a stream in the documented format that is accepted and puts a node of level 1 above one of level 2 |
| BddGrowth.RasterGrowth | hw1/src/bdd.c:273-311 | the diagram of a raster adds fewer nodes than its square has pixels |
| BddGrowth.RotateGrowth | hw1/src/bdd.c:1157-1209 | so does a rotation |
| BddGrowth.MapGrowth | hw1/src/bdd.c:1054-1155 | mapping adds at most as many nodes as the diagram has, however they are shared |
| BddGrowth.ZoomGrowth | hw1/src/bdd.c:1211-1380 | zooming in or out adds at most as many nodes as the diagram has |
| BddGrowth.ReplayGrowth | hw1/src/bdd.c:562-655 | reading code adds at most one node for every nine bytes |
| BddHash.NotThere | hw1/src/bdd.c:103-121 | an empty slot ends the probing only for a node that is nowhere in the table |
| BddHash.Inserted | hw1/src/bdd.c:103-121 | inserting at that slot keeps every probe path free of gaps |
| BddHash.SomeSlotIsEmpty | hw1/src/bdd.c:90-160 | the map never fills up, so the probe loop stops at a match or an empty slot |
| BddStore.Bdd.FindSlot | hw1/src/bdd.c:90-160 | probing ends at the node's slot or at the empty slot that shows it is missing |
| BddStore.Bdd.BddLookup | hw1/src/bdd.c:27-180 | the probing lookup gives what a linear search gives for any children within bounds, and appends at most one node |
| BddStore.Bdd.SplitRow | hw1/src/bdd.c:192-226 | the recursive split of a square builds the specified diagram in the arrays |
| BddStore.Bdd.BddMinLevel | hw1/src/bdd.c:1390-1419 | the least even level whose square covers the raster, with no product beyond an `int` |
| BddStore.Bdd.BddFromRaster | hw1/src/bdd.c:273-318 | builds the diagram of the raster; a one-colour image becomes the node in the last slot; NULL for negative sizes |
| BddStore.Bdd.BddApply | hw1/src/bdd.c:983-1048 | the masks pick exactly the row or column digit of each level, across skipped levels and a skipped root |
| BddStore.Bdd.ApplyFrom | hw1/src/bdd.c:694-981 | the masks on the way down belong to the level of the node reached |
| BddStore.Bdd.BddToRaster | hw1/src/bdd.c:320-372 | writes the top left pixels in row-major order and nothing beyond |
| BddStore.Bdd.BddMap | hw1/src/bdd.c:1129-1155 | the recursive map on the arrays, constant images included, is the specified one; every pixel of the result is the function of the old one |
| BddStore.Bdd.BddRotate | hw1/src/bdd.c:1194-1209 | the recursive rotation on the arrays is the specified one, and its result is a node |
| BddStore.Bdd.BddZoom | hw1/src/bdd.c:1344-1380 | both zooms on the arrays are the specified ones, within the bounds that hw1/src/birp.c checks first |
| BddStore.Bdd.BddSerialize | hw1/src/bdd.c:514-548 | writes the specified code, whose bytes are those of BddFormat.CodeLayout, and adds no node |
| BddStore.Bdd.BddDeserialize | hw1/src/bdd.c:550-692 | replays code as specified, and so as BddFormat.ReadLeaf and BddFormat.ReadNodeShows say; NULL exactly for an empty stream or one that is not made of whole instructions, but for a lone at-sign at the end; the result is a diagram unless the stream is cut off; the table holds diagrams afterwards exactly if the stream's levels descend |
| MailboxProtocol.ActKeeps | hw5/src/mailbox.c:24-247 | every step of every thread keeps the invariant and none crashes |
| MailboxProtocol.NeverCrashes | hw5/src/mailbox.c:69-247 | no interleaving touches a freed mailbox or takes from an empty queue |
| MailboxProtocol.SomethingQueued | hw5/src/mailbox.c:208-223 | a consumer past the items semaphore finds the head not NULL unless the mailbox is defunct; what it returns in either case is the matter of MailboxShutdown.DefunctGivesNull and MailboxShutdown.OthersGiveFirst |
| MailboxShutdown.DefunctGivesNull | hw5/src/mailbox.c:208-219 | in any run, a consumer that gets the mutex of a defunct mailbox takes nothing, delivers nothing and goes on to release the mutex |
| MailboxShutdown.OthersGiveFirst | hw5/src/mailbox.c:221-246 | from any other mailbox it gets the first entry: at once, or after releasing the sender, the mailbox's own messages and notices excepted |
| MailboxShutdown.DefunctDeliversNothing | hw5/include/mailbox.h:184-186 | once a mailbox is defunct nothing is delivered from it in the rest of any run, whatever its queue holds or is added to it |
| MailboxShutdown.ShutdownWakes | hw5/src/mailbox.c:116-123 | the post of a shutdown makes the semaphore positive, so that every consumer that waits may go on |
| MailboxShutdown.OnePostOneConsumer | hw5/src/mailbox.c:116-219 | in every run the semaphore has the posts less the consumers that got past, and while that is 0 no waiting consumer can go on |
| MailboxHistory.RunTold | hw5/src/mailbox.c:24-247 | in every run, from the steps of the threads alone: a mailbox exists while references counted outnumber those given up, its count is the difference, its semaphore posts less waits, its entries those added in the order of the mutex, and it is defunct if and only if a shutdown got the mutex |
| MailboxHistory.CallsBegin | hw5/src/mailbox.c:59-247 | the semaphore each call waits on first |
| MailboxHistory.CallsInOrder | hw5/src/mailbox.c:59-247 | the order of the waits and posts of each call, and when a sender's count decides what comes next |
| MailboxProtocol.ReadStaysFirst | hw5/src/mailbox.c:221-229 | the entry read at the head is still the head when the consumer has released the sender and takes the head out |
| MailboxProtocol.DequeuedKeepsOrder | hw5/src/mailbox.c:221-245 | delivering the entry read before keeps first in, first out if and only if it is the one taken out |
| MailboxProtocol.FifoAlways | hw5/src/mailbox.c:130-247 | the entries consumers are given, as they read them, followed by those queued are those added, in every state of every run |
| MailboxProtocol.ItemsAlways | hw5/src/mailbox.c:116-247 | items plus consumers past the semaphore equals the queue length while the mutex is free, but for shutdowns |
| MailboxProtocol.MutualExclusion | hw5/src/mailbox.c:52-247 | no two threads hold one mutex, nested locks included |
| MailboxCounts.CountBound | hw5/src/mailbox.c:59-79 | a count is at least the references held outside plus the messages queued in other unlocked mailboxes |
| MailboxCounts.CountExact | hw5/src/mailbox.c:59-112 | with all mutexes free they are equal if and only if no earlier step freed a mailbox with a message from that sender in its queue |
| MailboxCounts.SenderAlive | hw5/src/mailbox.c:164-166 | no message in an unlocked queue names a freed sender |
| MailboxProtocol.FinalizedInv | hw5/src/mailbox.c:81-112 | freeing a mailbox when its count drops to 0 is safe for every other thread |
| MailboxCounts.LossAtFinalization | hw5/src/mailbox.c:81-112 | when a count drops to 0, by a caller or by a consumer, the references lost are exactly those of the messages in the queue |
| MailboxCounts.LossStep | hw5/src/mailbox.c:24-247 | no other action of any thread loses a reference, and none finds a lost one again |
| MailboxCounts.RunLoss | hw5/src/mailbox.c:86-104 | over every run a reference is lost if and only if an earlier step freed the mailbox with the message in its queue |
| MailboxCounts.LostForever | hw5/src/mailbox.c:86-104 | in the rest of any run such a sender is not freed, and its count stays above the references it has |
| MailboxCounts.LossIsReached | hw5/src/mailbox.c:69-168 | a run of one thread and two mailboxes that ends with a count of 2 and one reference |
| MailboxSenders.ExistsIffReferred | hw5/src/mailbox.c:59-112 | over every run a mailbox exists if and only if there is a reason to keep it: a thread's reference or a counted message |
| MailboxSenders.SenderSurvives | hw5/src/mailbox.c:224-229 | when a consumer releases the sender of the message it is about to return, the sender survives if and only if its count is above 1, that is, if something else refers to it |
| MailboxSenders.DeliveredSenderLives | hw5/include/mailbox.h:45-58 | the sender of a delivered message lives as long as some thread holds a reference to it |
| MailboxSenders.SenderFreedIsReached | hw5/src/mailbox.c:208-246 | a run of one thread that delivers a message whose sender has been freed |
| MailboxQueue.Queue.Add | hw5/src/mailbox.c:146-162 | the linked queue gets the entry at its end, empty or not |
| MailboxQueue.Queue.Next | hw5/src/mailbox.c:221-245 | the linked queue loses its first entry, the only one or not |
| MailboxQueue.Queue.Discard | hw5/src/mailbox.c:86-104 | finalization visits every node once and passes the messages to the hook in order |
| SpoolModel.ActiveIffHeld | hw4/src/cli.c:874-915 | a job runs or is paused if and only if exactly one printer holds its index |
| SpoolModel.QuitWaits | hw4/src/cli.c:799-832 | the count that quitting waits for is 0 exactly when no job runs or is paused; then no process is left and no printer holds a job |
| SpoolModel.ReusedNumber | hw4/src/cli.c:57-75 | with a process number that the system uses again, a start keeps everything in order if and only if no earlier slot remembers the number; else the process is taken for that of an earlier slot, which has neither an active job nor a printer |
| SpoolModel.MisledOn | hw4/src/cli.c:57-140 | through all later events, until that slot is started again, all reports of the process go to it, and the report of its end finds no printer |
| SpoolModel.ReuseIsReached | hw4/src/cli.c:842-917 | a run of six events that leads to such a start |
| SpoolModel.LookupsSucceed | hw4/src/cli.c:57-75 | for a process that was alive the handler finds its job and the printer that holds it |
| SpoolModel.SubmittedInv | hw4/src/cli.c:842-860 | a new job never gets the slot of an active one |
| SpoolModel.SwitchedInv | hw4/src/cli.c:590-651 | enabling or disabling a printer in any state keeps the coupling |
| SpoolModel.SweptInv | hw4/include/helpingFunction.h:191-205 | deleting old jobs keeps the coupling |
| SpoolModel.DispatchedInv | hw4/src/cli.c:901-917 | starting a job keeps the coupling and the count |
| SpoolModel.ScanMissesNothing | hw4/src/cli.c:874-1177 | after a scan no job waits while a suitable printer is idle |
| SpoolModel.ReportedInv | hw4/src/cli.c:55-140 | every report of a child keeps the coupling and the count |
| SpoolModel.Coupling | hw4/src/cli.c:41-1177 | the coupling over every run of commands, scans and reports from the start, with numbers reused wherever that is in order |
| SpoolModel.SlotKept | hw4/src/cli.c:842-860 | a slot whose process lives keeps its job through every event but the process's end |
| SpoolHistory.PausedIffStopped | hw4/src/cli.c:84-94 | in every run an active job was started by a scan, keeps its document and process, and is paused if and only if the last stop or continuation reported of that process is a stop; otherwise it is running |
| SpoolHistory.WasStarted | hw4/src/cli.c:874-1177 | every active job has such a start |
| SpoolHistory.EndedByReport | hw4/src/cli.c:62-139 | in every run a job stops being active exactly by the report that its process ended: finished if and only if it exited, else aborted, with the time of the report; its printer has no job, disabled if it was and idle if not; all other slots and printers stay |
| SpoolHistory.WasEnded | hw4/src/cli.c:62-139 | in every run a finished or aborted job has been through such an end, and no sweep since came ten seconds after it |
| SpoolHistory.KeptTenSeconds | hw4/include/helpingFunction.h:191-205 | in every run, whatever else happens, a job that ended is kept until the first sweep at least ten seconds after the report, and that one frees the slot with status DELETED |
| SpoolHistory.SweepSpares | hw4/include/helpingFunction.h:191-205 | no sweep touches a waiting, running or paused job, a printer or a process |
| SpoolHistory.StartedOnSuitable | hw4/src/cli.c:896-917 | a job that a scan starts runs on a printer that suits it and was idle without a job, as the process forked for its slot |
| SpoolHistory.ScanOnPrinter | hw4/src/cli.c:896-917 | a scan changes a printer only by giving it, idle and without a job, a waiting job that it suits |
| SpoolHistory.DisabledIffToldSo | hw4/src/cli.c:554-651 | in every run, whatever jobs it gets and whatever becomes of them, a printer is disabled unless it was enabled and not disabled since |
| Spooler.Spooler.AddJobToList | hw4/src/cli.c:842-860 | the first slot that is free or deleted takes the new job, with status CREATED; -1 and no change if there is none |
| Spooler.Spooler.ScanJobs | hw4/src/cli.c:874-1177 | the nested loops start the jobs of the specification on its printers |
| Spooler.Spooler.HandleReport | hw4/src/cli.c:55-140 | the job is paused by a stop, running by a continuation, finished by an exit and aborted by any other end, with the time if it ended; then its printer is freed, disabled if it was and idle if not; no table is indexed outside its bounds |
| Spooler.Spooler.MasterSigHandler | hw4/src/cli.c:41-146 | all pending reports, in their order, as a run of the state machine |
| Spooler.Spooler.DeleteJobs | hw4/include/helpingFunction.h:191-205 | the loop frees exactly the slots of jobs that ended ten seconds ago or more, with status DELETED, and leaves all others as they are |

## Left out

- hw3, pointers: free and realloc are given NULL, misaligned (realloc) or live pointers; what the checks make of other pointers is not modelled, because they read tags before they check ranges.
- hw3, memory: `sf_mem_grow` adds a page or fails; it is assumed to succeed for the first page, as the code does. The other `sf_mem_*` and `sf_show_*` functions are library code.
- hw3, layout: the dummy heads lie below the heap at fixed addresses; the heap starts at any multiple of 16 above them. Words are unbounded integers; every value stored is a tag or an address.
- Allocator.SfHeap.Initialize: the prologue's header is stated when it is written; nothing reads it afterwards, and it is not part of what memory represents.
- HeapTags.ComputeMemorySize: sizes whose rounding overflows the source's `int` are excluded (`Roundable`), unless they are multiples of 16 already.
- Allocator.SfHeap.Realloc: memcpy moves whole words; both lengths are multiples of 8.
- HeapRuns.ReachableHeap: only for memalign, malloc, free and realloc on pointers the program holds; nothing is claimed after a call with a stale pointer.
- hw1, streams: PGM and BIRP headers, ASCII output, option parsing and `main`; `birp_to_birp` is modelled between reading the image and writing it. Child bytes come from the stream the opcodes come from, as in the program's use.
- BddStore.Bdd.BddDeserialize: streams with a serial number beyond the source's index map, or with more instructions than it holds, are excluded (`Undefined`), as are tables that would run full. What the other operations do on a table with a node that is not above its children is not modelled.
- Birp.Program.Transform: requires that the width and height read go with the diagram's level, which the source does not check, and room for the nodes to be added. The constant nodes that the source makes on its stack are values, though it uses one of them after its block has ended.
- BddStore.Bdd.BddMinLevel: sides above 2^30 are excluded, because the source's product overflows there; images on up to 32 levels have sides up to 2^16.
- BddStore.Bdd.BddRotate: not for constant images, which the program handles before it calls.
- BddStore.Bdd.SplitCol: the source's test for a single pixel is dropped, because a half of a square is never one.
- hw1, widths: a node's level is an unbounded integer kept between 1 and 32.
- hw5: sockets, packets, server threads and registries; the discard hook's own effects; deadlock freedom is not claimed, because adding a message locks two mailboxes in nested order.
- MailboxProtocol.NeverCrashes: a mailbox made after another was freed is a new one, wherever it lies in memory; threads use only mailboxes they have a reference to.
- hw4: fork, pipe, exec, signal masks, printer connections and the parsing of commands; which printers suit a job is a parameter of the scan, since the mask is shifted cumulatively and the search for conversions is library code.
- Spooler.Spooler.ScanJobs: fork succeeds and returns a number that no unreported process has and no earlier slot remembers (`Fresh`); SpoolModel.ReusedNumber shows that this is exactly what the code needs.
- Spooler.Spooler.MasterSigHandler: commands, scans and handler runs are taken as atomic, as the scan and the handler are by blocking signals.
- hw2: chess notation on a fixed board would mostly add case-by-case facts. hw0, tests and images are no subject of this project.
