# A model of the allocator, the Rio package and the word ring

Three components of the repository share no code and are modelled one by one. `dafny verify dfyconfig.toml`
(Dafny 4.11) checks everything.

**The allocator** (`proj1_malloc/my_malloc.c`). `BlockList` says what an arena means: an address-ordered list
of live and free blocks that tile `[0, MAX)`, with `Malloc` and `Free` on it. `FreeList` treats the doubly-linked
list of headers as data. `ArenaModule.Arena` is the real thing: an array of words with the headers in it, changed
in place, proved after every call to hold exactly the headers that the block list calls for, links in both
directions included. `AllocatorProperties` proves what follows for whole runs, and `ArenaRuns` lets the program
that owns the payloads take part in those runs.

The file does not do what its comments and `testmymalloc.c` ask for. `ArenaModule` repairs it and marks each
repair; `LiteralArena`, `LiteralRuns` and `LiteralMixedRuns` keep the code as it is written and prove exactly when
it does what is intended. Since no split sets the `buffer` of the new node, they do so twice: for the representation
that `ArenaModule` keeps, and for a loose one that ignores the `buffer` of every free node (`Loose`). `Memories`
treats memory as a value; what a literal call leaves there is a function of what it found, given field by field.
`LiteralExamples` has two families of runs on which the list goes wrong. The departures are:

- lines 131-136: the search stops at the last node even if that is too small, and reads `head->right` when `head`
  is NULL; `testmymalloc.c:52-60` wants NULL returned;
- line 155: the size shrinks although the block is not split; `testmymalloc.c:126-144` wants it back whole;
- lines 171-173 and 184-186: the node split off never gets its `buffer`, which lines 206 and 216 read;
- lines 183-187: the successor of the head is not pointed back to the new head;
- line 188: the rest of the list is lost when the head is taken whole;
- lines 94-97: the successor of an inserted node is not pointed back to it, nor is the successor of a merged one
  in lines 209 and 219;
- lines 208 and 218: the header of the absorbed node is not added to the size;
- line 212: the right merge looks at the left neighbour even when that was not merged.

Pointers are offsets into `BigBuffer`, NULL is -1, a word is 8 bytes, and `HEADER_SIZE` is 32 as on LP64.

**The Rio package** (`proj3_web_crawler/cs537.c`, lines 267-414, and `grab_page` in `web_tester.c`), as written.
A `Kernel` object holds the byte stream of a descriptor and a finite script of short counts, interrupts and hard
errors. The specification is a plain cursor over the stream, in `RioSpec`. What a line is, and what
`rio_readlineb` really returns (one more than it stored unless the piece ends in a newline), is stated there.
`PageSpec` compares the page that `grab_page` builds with the page it is meant to build. The two differ in two
ways: a header line of which the last piece of at most 8191 bytes is `"\r\n"` ends the header early, and bytes
between a NUL and the end of its piece are lost. `PageIsBody` says exactly on which streams the page is right all
the same; besides the streams that have neither fault, those are the ones whose header ends early, whose body is
empty, and of which nothing but lost bytes remains. An empty body leaves the page without a terminator.

**The ring** (`read_word_thread.c`), as written, for any number N of at least two threads. `RingSpec` is a
transition system whose steps are the regions between lock, wait and unlock, the unlocked test of line 53, and
spurious wakeups; `RingWords` says what its words are. `RingModule.Ring` runs the same regions on shared mutable state and is proved to take those steps.
`RingProperties` proves safety over all schedules, that no wakeup is lost, and how schedules end.

## Model

| member | source | states |
|---|---|---|
| ArenaModule.Arena.constructor | proj1_malloc/my_malloc.c:44-51 | memory represents one free block that covers the arena |
| ArenaModule.Arena.MyMalloc | proj1_malloc/my_malloc.c:53-57 | refinement: returned pointer and new blocks are those of first fit on the block list; memory represents them; every word of every live block, header or payload, is unchanged, and so is every word in no header |
| ArenaModule.Arena.FirstFitAlgorithm | proj1_malloc/my_malloc.c:127-144 | NULL and no change if and only if no free block is large enough, else the first large enough block is given out (repaired) |
| ArenaModule.Arena.ProcessNodeFound | proj1_malloc/my_malloc.c:151-195 | the list left is the old one with the node cut or removed, linked in both directions; the header given out is detached and has the size of its block (repaired) |
| ArenaModule.Arena.RelinkFound | proj1_malloc/my_malloc.c:163-189 | exactly which header fields around the node change when it is split or unlinked, as head or not (repaired) |
| ArenaModule.Arena.TakeWhole | proj1_malloc/my_malloc.c:165-169 | unlinking a node joins its two neighbours, and moves head when it was the head (repaired) |
| ArenaModule.Arena.TakeFront | proj1_malloc/my_malloc.c:170-187 | the node split off takes over both links of the node given out (repaired) |
| ArenaModule.Arena.Detach | proj1_malloc/my_malloc.c:191-194 | the allocated header has no links and points to its payload |
| ArenaModule.Arena.AllocRepresents | proj1_malloc/my_malloc.c:127-195 | with other live headers kept, memory represents the allocation if and only if the remaining list is linked and the new live header is right |
| ArenaModule.ComputeNewSize | proj1_malloc/my_malloc.c:153 | the mixed int and size_t subtraction is exact when the difference fits an int |
| ArenaModule.Arena.MyFree | proj1_malloc/my_malloc.c:59-110 | refinement: the blocks are those with the freed one merged with its free neighbours; memory represents them; no word of another live block changes, nor any word in no header (repaired) |
| ArenaModule.Arena.PutBack | proj1_malloc/my_malloc.c:66-108 | the node is inserted and, unless it is alone, coalesced: the list left is the merged one, linked in both directions (repaired) |
| ArenaModule.Arena.Insert | proj1_malloc/my_malloc.c:66-105 | the node is put at its place by address, and the list is linked in both directions (repaired) |
| ArenaModule.Arena.InsertBehind | proj1_malloc/my_malloc.c:94-97 | exactly which links change when a node is put behind another (repaired) |
| ArenaModule.Arena.InsertFront | proj1_malloc/my_malloc.c:99-105 | exactly which links change when a node becomes the head |
| ArenaModule.Arena.CoalesceFreeNodes | proj1_malloc/my_malloc.c:197-224 | the list left is the old one with the node merged left and right wherever it touches, linked in both directions (repaired) |
| ArenaModule.Arena.Absorb | proj1_malloc/my_malloc.c:206-219 | merging two touching nodes leaves a well-linked list with the two replaced by the block that covers both (repaired) |
| ArenaModule.Arena.LiveKept | proj1_malloc/my_malloc.c:92-104 | writing only to words of free blocks leaves every word of live blocks alone |
| Memories.WriteIs | proj1_malloc/my_malloc.c:12-17 | memory that holds given headers, and elsewhere what it held, is the old memory with those headers written |
| Memories.Written | proj1_malloc/my_malloc.c:12-17 | and the headers written there read back |
| BlockList.Align8IsLeastMultiple | proj1_malloc/my_malloc.c:146-149 | rounding gives the least multiple of 8 that is not smaller |
| BlockList.FirstFit | proj1_malloc/my_malloc.c:131-134 | the block found fits and none before it does |
| BlockList.Conservation | proj1_malloc/my_malloc.c:44-57 | headers and payloads of live and free blocks add up to the whole region |
| BlockList.Ordered | proj1_malloc/my_malloc.c:61-62 | blocks later in the list lie wholly to the right |
| BlockList.AllocAtWellFormed | proj1_malloc/my_malloc.c:151-195 | giving out a block keeps the arena tiled, aligned and coalesced |
| BlockList.FreeAtWellFormed | proj1_malloc/my_malloc.c:197-224 | freeing and merging keeps the arena tiled, aligned and coalesced |
| BlockList.SelectLiveAfterFreeAt | proj1_malloc/my_malloc.c:197-224 | merging takes the freed block, and no other, from the live ones |
| FreeList.WalkFindsFirstFit | proj1_malloc/my_malloc.c:131-134 | a walk of the free list to the first large enough node finds what first fit on the blocks finds, or the end when nothing fits |
| FreeList.ProcessedLinks | proj1_malloc/my_malloc.c:163-189 | the field updates of a split or an unlinking turn the links of a list into those of the list after it |
| FreeList.InsertedLinks | proj1_malloc/my_malloc.c:94-105 | the field updates of an insertion turn the links of a list into those of the longer list |
| FreeList.AbsorbedLinks | proj1_malloc/my_malloc.c:204-220 | the field updates of a merge turn the links of a list into those of the merged list |
| FreeList.CoalesceIsFreeAt | proj1_malloc/my_malloc.c:197-224 | merging touching list nodes gives the free blocks of the arena after the free, although the list does not see live blocks |
| FreeList.LiveIsNotFree | proj1_malloc/my_malloc.c:151-224 | no word belongs to both a live and a free block |
| AllocatorProperties.StepWellFormed | proj1_malloc/my_malloc.c:53-110 | each call keeps the arena tiled, aligned and coalesced |
| AllocatorProperties.RunWellFormed | proj1_malloc/my_malloc.c:53-110 | so does every run, and all bytes stay accounted for |
| AllocatorProperties.Canonical | proj1_malloc/my_malloc.c:197-224 | the free list is exactly the maximal gaps between live blocks, and the state is determined by the live blocks |
| AllocatorProperties.StateIsItsLiveBlocks | proj1_malloc/my_malloc.c:59-110 | two runs that end with the same live blocks end in the same state |
| AllocatorProperties.NothingLiveIsInit | proj1_malloc/my_malloc.c:44-51 | after any run, nothing is live if and only if the arena is as InitMyMalloc left it |
| AllocatorProperties.FreeRemovesOne | proj1_malloc/my_malloc.c:59-110 | a free takes exactly the freed block out of the live ones |
| AllocatorProperties.FreesRemove | proj1_malloc/my_malloc.c:59-110 | frees in sequence take exactly the freed blocks out |
| AllocatorProperties.FreeKeepsLive | proj1_malloc/my_malloc.c:59-110 | after a free, merges included, exactly the other live pointers are live |
| AllocatorProperties.FreesAreLegal | proj1_malloc/my_malloc.c:59-110 | frees may be made one after the other if and only if each non-NULL pointer is live at the start and occurs once |
| AllocatorProperties.SamePointersFreed | proj1_malloc/my_malloc.c:59-110 | two legal sequences of frees of the same pointers end in the same arena |
| AllocatorProperties.OrderIndependence | proj1_malloc/testmymalloc.c:154-184 | live pointers may be freed in any order at all, and every order ends in the same arena |
| AllocatorProperties.FreeingEverything | proj1_malloc/testmymalloc.c:154-184 | all live pointers may be freed in any order, and that always restores the initial block |
| AllocatorProperties.FreeUndoesMalloc | proj1_malloc/testmymalloc.c:126-144 | a successful malloc and its free restore the arena block for block, split or not |
| AllocatorProperties.MallocIsFirstFit | proj1_malloc/my_malloc.c:127-149 | NULL exactly when no free block holds the rounded size; else the lowest such block, with less than a header to spare |
| AllocatorProperties.MallocAddsOne | proj1_malloc/my_malloc.c:53-57 | a successful malloc adds one live block and leaves the others |
| AllocatorProperties.FreeCount | proj1_malloc/my_malloc.c:197-224 | at most one free block more than live blocks |
| AllocatorProperties.GuaranteedFit | proj1_malloc/my_malloc.c:127-224 | with k live blocks that span U bytes, a request of rounded size s with (k+1)(s-8+H) < MAX-U succeeds, and so in particular one with (k+1)(s+H) <= MAX-U |
| AllocatorProperties.GuaranteedFitIsTight | proj1_malloc/my_malloc.c:127-224 | at k = 1 the first bound is tight: a reachable arena with one live block refuses a request for which its two sides are equal |
| ArenaRuns.MallocKeepsPayloads | proj1_malloc/my_malloc.c:151-195 | payloads stay payloads across a malloc |
| ArenaRuns.PayloadNotHeader | proj1_malloc/my_malloc.c:12-17 | a word of a payload is in no header |
| ArenaRuns.Store | proj1_malloc/my_malloc.c:22-24 | a store into a live payload changes that word only and leaves the arena valid |
| ArenaRuns.Execute | proj1_malloc/my_malloc.c:53-110 | non-interference: over any run of mallocs, frees and stores, what the program stored in payloads still live reads back, and the results are the intended ones |
| LiteralArena.LiteralNewSize | proj1_malloc/my_malloc.c:153 | the exact value of newSize, and when it wraps around |
| LiteralArena.RepresentsIsLoose | proj1_malloc/my_malloc.c:171-187 | the representation is the one that ignores the buffers of free nodes, which a split never sets, together with those buffers |
| LiteralArena.ProcessNodeFound | proj1_malloc/my_malloc.c:151-195 | every field the code as written changes, at the head and elsewhere, split or not |
| LiteralArena.RelinkInner | proj1_malloc/my_malloc.c:163-180 | the same for a node that is not the head |
| LiteralArena.Bypassing | proj1_malloc/my_malloc.c:166-169 | of these, an unsplit node: its neighbours are linked to each other |
| LiteralArena.HandingOver | proj1_malloc/my_malloc.c:171-178 | and a split one: the new node gets its links and size, but no buffer |
| LiteralArena.RelinkHead | proj1_malloc/my_malloc.c:181-189 | the same for the head, whose successors are lost when it is not split |
| LiteralArena.Walk | proj1_malloc/my_malloc.c:129-134 | the loop as written stops at the first large enough node or at the last one |
| LiteralArena.TakeFit | proj1_malloc/my_malloc.c:136-143 | a large enough block is given out: the memory left, and when it is the intended one |
| LiteralArena.AgreesSplit | proj1_malloc/my_malloc.c:170-187 | a literal split links the rest as intended if and only if the block is no head with successors and stale memory holds the missing buffer pointer |
| LiteralArena.AgreesWhole | proj1_malloc/my_malloc.c:155-189 | a literal unsplit allocation is as intended if and only if the size is exact and no list follows a head taken whole |
| LiteralArena.TakenLoosely | proj1_malloc/my_malloc.c:151-195 | up to the buffers of free nodes, the list and the header given out are the intended ones if and only if the block is no head with successors and is split or exact |
| LiteralArena.TakenBuffers | proj1_malloc/my_malloc.c:171-187 | right buffers stay right if and only if the node split off, if any, finds its own already in memory |
| LiteralArena.TakeTooSmall | proj1_malloc/my_malloc.c:131-140 | a last node that is too small is given out, claiming the size asked for; the list left is the one without it; live blocks are kept |
| LiteralArena.AllocFields | proj1_malloc/my_malloc.c:151-195 | field by field what any literal malloc leaves, intended or not: split or whole, at the head or not, with the link that is not updated, the successors that are lost, and the buffer that is not set; no other word changes |
| LiteralArena.FirstFitAlgorithm | proj1_malloc/my_malloc.c:127-144 | exactly when the code as written faults, which pointer it returns, every word it leaves in memory, and exactly when that is the intended arena, strictly or up to the buffers of free nodes; no word of a live block changes |
| LiteralArena.MyMalloc | proj1_malloc/my_malloc.c:53-57 | against the intended malloc: whenever something fits the pointer is the intended one, and the representation is kept if and only if the block is no head with successors and is split or exact (and, for the strict one, stale memory holds the missing buffer pointer); when nothing fits the last free block is returned; memory and every header field after the call, in every case |
| LiteralArena.Insert | proj1_malloc/my_malloc.c:66-105 | the list after the literal insertion, with the one left link it leaves stale |
| LiteralArena.CoalesceFreeNodes | proj1_malloc/my_malloc.c:197-224 | the headers after the literal merge: which neighbour is taken for one that touches, on the word of a buffer that may be stale, the sizes it gets wrong and the merge it skips |
| LiteralArena.NoSecondMerge | proj1_malloc/my_malloc.c:212-219 | after the left neighbour was looked at the right merge never happens |
| LiteralArena.CoalescedChain | proj1_malloc/my_malloc.c:197-224 | that list is, up to the buffers, the intended one if and only if the node touches no neighbour, line 206 does not claim that it does, and the node is first or last |
| LiteralArena.AdjacentIsMerge | proj1_malloc/my_malloc.c:206-216 | a list node touches its neighbour on the list if and only if the block next to it is free |
| LiteralArena.FreeRepresents | proj1_malloc/my_malloc.c:59-110 | hence memory represents the intended arena, strictly or up to buffers, under exactly these conditions said of the blocks and one word of memory |
| LiteralArena.FreeFields | proj1_malloc/my_malloc.c:66-105 | field by field what any literal free leaves: merged left, on the word of a buffer that may be stale, or right at the head, with both sizes but not the header between; no other size and no other word changes |
| LiteralArena.MyFree | proj1_malloc/my_malloc.c:59-110 | the code as written leaves the intended arena if and only if neither neighbour is free and free blocks lie on one side at most; up to buffers, if and only if moreover the stale buffer to the left does not mislead line 206; memory and every header field after the call, in every case; no word of another live block changes |
| LiteralRuns.MyMallocOnTail | proj1_malloc/my_malloc.c:53-195 | one literal malloc on a list of a single node: pointer, fault and the node left |
| LiteralRuns.AllocOnly | proj1_malloc/my_malloc.c:44-57 | literal runs of mallocs alone: every result, and the single node left at the end |
| LiteralRuns.AllocOnlyPayloads | proj1_malloc/my_malloc.c:53-57 | the payloads of such a run never overlap |
| LiteralRuns.AllSucceed | proj1_malloc/my_malloc.c:53-57 | every request gets a payload inside the arena if and only if all rounded sizes and headers fit it together |
| LiteralRuns.ConsecutivePayloads | proj1_malloc/my_malloc.c:53-57 | and then each pointer is the sum of the rounded sizes and headers before it, and one header |
| LiteralRuns.TooLargeRequest | proj1_malloc/testmymalloc.c:52-60 | for a request of the whole arena the pointer that AllocOnly proves the code to return is no NULL, which is intended |
| LiteralRuns.FirstMalloc | proj1_malloc/my_malloc.c:184-186 | the first literal malloc leaves the intended arena up to buffers, and the strict one if and only if memory happens to hold the buffer pointer that is not set |
| LiteralRuns.FreeNextToFree | proj1_malloc/my_malloc.c:206-219 | whatever memory holds, a literal malloc and free from the initial arena do not lead back to it: a header is lost from the size |
| LiteralExamples.MergeLosesHeader | proj1_malloc/my_malloc.c:206-209 | for a hole of any size s below a live block of 8 bytes: freeing that block merges it into the hole with size s + 8, so its header is lost |
| LiteralExamples.SplitHead | proj1_malloc/my_malloc.c:184-187 | or 8 bytes are taken from the hole: what is left of it is the head and keeps the rest of the list, whose left link still names the old head |
| LiteralMixedRuns.LiteralStep | proj1_malloc/my_malloc.c:53-110 | one literal malloc or free: its result, fault included, every word it leaves in memory, and that these are the intended ones up to buffers if and only if its condition holds before it |
| LiteralMixedRuns.LiteralRun | proj1_malloc/my_malloc.c:53-110 | a literal run from any initial memory: its results and memory are functions of that memory and the calls; all are as intended as long as the condition of each call holds of the memory before it, and at the first call of which it fails they are not |
| LiteralMixedRuns.CallIsDone | proj1_malloc/my_malloc.c:53-110 | in such a run each call up to and including the first that goes wrong writes the fields, and returns the result, that the code prescribes for its branch |
| KernelModule.Kernel.Read | proj3_web_crawler/cs537.c:274 | read(2) as the code meets it: any short count, an interrupt, a hard error, the end of the stream; exactly which, by event |
| KernelModule.Kernel.Write | proj3_web_crawler/cs537.c:300 | write(2) likewise, with a count of 0 as well |
| RioModule.ReadN | proj3_web_crawler/cs537.c:267-286 | bytes read and bytes left make up the stream; n bytes or all there are; -1 exactly when a hard error was met, and then fewer than n; no read follows one that found the end; no event is met needlessly; nothing beyond the bytes read changes in the caller's buffer |
| RioModule.WriteN | proj3_web_crawler/cs537.c:293-310 | on success all n bytes were emitted, on -1 a proper prefix; -1 if and only if the last event met is a hard error, or a write of 0 when errno was not EINTR before the call and no interrupt has set it since; no earlier event is one of these; errno afterwards |
| RioModule.Rio.constructor | proj3_web_crawler/cs537.c:355-360 | an empty buffer in front of the stream |
| RioModule.Rio.ReadBuffered | proj3_web_crawler/cs537.c:323-348 | delivers min(n, rio_cnt), refilling only when the buffer is empty; delivered and unread bytes make up what was unread; never fails with EINTR; 0 only at the end; nothing else in the caller's buffer changes |
| RioModule.Rio.Refill | proj3_web_crawler/cs537.c:327-338 | the first read that is not interrupted, of a full buffer, decides; interrupts are retried; no byte is lost |
| RioModule.Rio.Narrow | proj3_web_crawler/cs537.c:341-343 | the int holds min(n, rio_cnt) for every size_t n |
| RioModule.Rio.Deliver | proj3_web_crawler/cs537.c:341-347 | copies the next bytes of the buffer and moves past them |
| RioModule.Rio.ReadNB | proj3_web_crawler/cs537.c:367-386 | bytes stored and bytes unread make up what was unread; n bytes or all there are; -1 exactly when a hard error was met, and then fewer than n, its EINTR branch being unreachable; no read follows one that found the end; nothing beyond the bytes stored changes |
| RioModule.Rio.ReadLineB | proj3_web_crawler/cs537.c:393-414 | stores the longest allowed piece and its terminator, returns what the specification says, and touches nothing else; on -1 the piece was not complete; no read follows one that found the end |
| RioModule.Rio.FillLine | proj3_web_crawler/cs537.c:398-410 | the loop stops with exactly the longest allowed piece stored |
| RioSpec.LineLenSpec | proj3_web_crawler/cs537.c:398-402 | a piece has no newline before its last byte, and stops only at a newline, a full buffer or the end |
| RioSpec.LineLenUnique | proj3_web_crawler/cs537.c:398-410 | no other length does that |
| RioSpec.LineReturnSpec | proj3_web_crawler/cs537.c:403-413 | 0 only at the end of the stream; the stored count if the piece ends in a newline, else one more; 1 with nothing stored when there is no room |
| RioSpec.LineEnds | proj3_web_crawler/cs537.c:398-402 | a newline within the room ends the piece, and the stored count is returned |
| RioSpec.LineCut | proj3_web_crawler/cs537.c:398-412 | without one the piece is all that fits or all there is, and one more is returned |
| RioSpec.PiecesAreMaximal | proj3_web_crawler/cs537.c:393-414 | the pieces of a stream concatenate to it, and each is the longest allowed |
| RioSpec.PiecesAreUnique | proj3_web_crawler/cs537.c:393-414 | no other list of pieces does that |
| RioRuns.CursorConserves | proj3_web_crawler/cs537.c:393-414 | delivered and remaining bytes are the whole stream, whatever the calls |
| RioRuns.Attempt | proj3_web_crawler/cs537.c:367-414 | one buffered call over any script: bytes stored, at most those the cursor would give, and bytes unread make up what was unread; it fails exactly on a hard error, and otherwise answers like the cursor |
| RioRuns.Perform | proj3_web_crawler/cs537.c:367-414 | one buffered call answers like the cursor |
| RioRuns.PerformAll | proj3_web_crawler/cs537.c:323-414 | chunking independence: any mix of calls over any script without hard errors gives the cursor's bytes and return values |
| RioRuns.ServedConserves | proj3_web_crawler/cs537.c:323-414 | if each call stores a prefix of what the cursor gives it, no byte is lost or stored twice, whatever fails |
| RioRuns.AttemptAll | proj3_web_crawler/cs537.c:323-414 | any mix of calls over any script, hard errors included: stored and unread bytes are the stream, as many calls return -1 as hard errors were met, and the others answer like the cursor |
| RioRuns.ReadLines | proj3_web_crawler/cs537.c:393-414 | reading lines until 0 terminates and takes the stream apart into its longest allowed pieces |
| RioRuns.RoundTrip | proj3_web_crawler/cs537.c:267-310 | what any writes put into a pipe any reads of the same total size take out, in order |
| GrabPage.ReadLine | proj3_web_crawler/cs537.c:393-414 | a returned count is at least the stored length, which is what the room check of grab_page rests on |
| GrabPage.SkipHeader | proj3_web_crawler/web_tester.c:49-58 | stops right after the first piece that is a blank line, or at the end |
| GrabPage.Append | proj3_web_crawler/web_tester.c:71 | appends the bytes before the first NUL of the piece, and a terminator |
| GrabPage.Grow | proj3_web_crawler/web_tester.c:66-70 | makes room for the piece and its terminator, by the count returned and only when needed, and keeps the page |
| GrabPage.CollectBody | proj3_web_crawler/web_tester.c:60-73 | the page is all pieces up to their NULs, every append fits, and the page grows to at most twice the body |
| GrabPage.Grab | proj3_web_crawler/web_tester.c:40-76 | the page is the specified one; the program exits exactly when a hard error was met; terminated unless the body is empty; no int overflows on a stream below 2^30 bytes |
| PageSpec.PageKeepsAll | proj3_web_crawler/web_tester.c:65-73 | the page is what follows the header if and only if there is no NUL in it |
| PageSpec.BodyAfter | proj3_web_crawler/web_tester.c:49-58 | what is meant to be the page: whatever follows the first line that is a carriage return and a newline |
| PageSpec.NoBody | proj3_web_crawler/web_tester.c:49-58 | and nothing without such a line |
| PageSpec.SkipLine | proj3_web_crawler/web_tester.c:50-52 | the search stops at the end of a line if and only if the line is blank or its last piece looks blank |
| PageSpec.BodyIsFound | proj3_web_crawler/web_tester.c:49-58 | the header ends where it should if and only if none of its lines, unless it ends the stream, has a last piece that looks blank |
| PageSpec.ShortHeaderIsPlain | proj3_web_crawler/web_tester.c:49-58 | header lines of at most MAXBUF-1 bytes are such |
| PageSpec.HeaderLengthens | proj3_web_crawler/web_tester.c:60-73 | a stream that still has its header makes a longer page than its body, if that is not empty and has no NUL |
| PageSpec.SameBody | proj3_web_crawler/web_tester.c:49-58 | a header that ends early leaves the same body behind |
| PageSpec.PageIsBody | proj3_web_crawler/web_tester.c:40-76 | the page is everything after the first blank line if and only if that has no NUL and either the header is plain, or nothing follows the blank line and each piece taken for the body starts with a NUL |
| PageSpec.ShortHeaderSuffices | proj3_web_crawler/web_tester.c:49-73 | with header lines of at most MAXBUF-1 bytes the page is the body if and only if there is no NUL in it |
| PageSpec.NulInBody | proj3_web_crawler/web_tester.c:71 | a stream of which part of the body is lost to a NUL |
| PageSpec.EarlyEndByCoincidence | proj3_web_crawler/web_tester.c:50-73 | a stream whose header ends early and whose page is right all the same |
| PageSpec.LongHeaderLine | proj3_web_crawler/web_tester.c:50-52 | a stream whose header is taken to end early: nothing is meant to be on the page, and one byte is |
| RingModule.Ring.constructor | read_word_thread.c:8-13 | the shared state before any thread moves |
| RingModule.Ring.GetChar | read_word_thread.c:21 | the next character, or the end of the file and its sticky flag |
| RingModule.Ring.GetTheWord | read_word_thread.c:15-29 | the buffer holds the characters up to the next blank or newline, and a NUL; the file position is past that blank or newline, or the end of the file was met |
| RingModule.Ring.PrintWord | read_word_thread.c:31-46 | prints the next word, or sets every token and wakes everybody |
| RingModule.Ring.Broadcast | read_word_thread.c:39-44 | all tokens set, all waiters woken |
| RingModule.Ring.PostToken | read_word_thread.c:94-98 | the step of main that starts the ring |
| RingModule.Ring.TestFeof | read_word_thread.c:53 | the test without the lock: exit, or go for the lock |
| RingModule.Ring.EnterRegion | read_word_thread.c:55-72 | from the lock, or the wakeup, to the next wait or unlock |
| RingModule.Ring.HandOn | read_word_thread.c:64-66 | the token moves to the next thread, which is woken |
| RingModule.Ring.LeaveRegion | read_word_thread.c:67-72 | a thread woken at the end-of-file wait waits again or unlocks |
| RingModule.Ring.RunSchedule | read_word_thread.c:48-98 | any schedule of regions on the shared state is a run of the transition system |
| RingSpec.WordEnd | read_word_thread.c:19-26 | the first blank or newline at or after a position |
| RingWords.WordsSplit | read_word_thread.c:19-26 | the words of a file have no blank or newline, and with the blank or newline after each they make up the file, up to a tail without any |
| RingWords.SplitIsWords | read_word_thread.c:19-26 | no other words do |
| RingProperties.StepInv | read_word_thread.c:48-75 | every step keeps the invariant |
| RingProperties.HolderIsNext | read_word_thread.c:58-63 | a thread that gets past line 58 before the end of the file is the one to print the next word |
| RingProperties.PrintStep | read_word_thread.c:63-72 | such a thread prints exactly the next word, passes the token to thread t+1 mod N, and waits |
| RingProperties.EofInv | read_word_thread.c:37-45 | finding the end of the file wakes all that wait |
| RingProperties.Safety | read_word_thread.c:48-98 | over every schedule: the first t words printed in order by threads 0..t-1, one token at t mod N, no lost wakeup |
| RingProperties.MeasureDecreases | read_word_thread.c:53-72 | every step but a spurious wakeup lowers a measure, which a spurious wakeup raises by one |
| RingProperties.SchedulesAreFinite | read_word_thread.c:53-72 | a bound on the steps of any schedule by its start and its spurious wakeups |
| RingProperties.RunsAreShort | read_word_thread.c:48-98 | a run of n threads has at most n(n+5)+2 steps, and two for each spurious wakeup |
| RingProperties.StuckIsFinal | read_word_thread.c:53-74 | nothing but spurious wakeups can happen if and only if the ring is in its final state |
| RingProperties.CanFinish | read_word_thread.c:53-74 | from every reachable state the end can be reached |
| RingProperties.OutputGrows | read_word_thread.c:36 | what is printed stays printed |
| RingProperties.Dichotomy | read_word_thread.c:77-101 | fewer than N words: all printed and all threads gone; else N words printed and all threads wait for good |

## Left out

- `PrintMyMallocFreeList` (`my_malloc.c:112-122`), which only prints, and the mask test on line 64, which holds of every address from 256 up.
- LiteralMixedRuns.LiteralRun: no stores into payloads between the calls, and nothing after the first call that does not do what is intended; memory at the start is arbitrary, where C zero-fills `BigBuffer`.
- Negative sizes, sizes above INT_MAX-7 (the rounding overflows), double frees and frees of other pointers: preconditions of `MyMalloc` and `MyFree`.
- Memory finer than 8-byte words: sizes and addresses are multiples of 8, an int field takes a word, and stores into payloads are whole words.
- ArenaModule.Arena.MyMalloc: the result is an offset; the NULL of C is -1 here, so that offset 0 stays an address.
- The wrappers, sockets and name lookup of `cs537.c` outside lines 267-414, and everything in `web_tester.c` but `grab_page`: plumbing around system calls. A wrapper's exit on error is the result `exited`.
- `sscanf` of Content-Length in `grab_page`: its result is never used.
- RioModule.Rio.ReadLineB: maxlen above INT_MAX is excluded, where the int loop counter overflows.
- GrabPage.Grab: the ints `pos` and `page_len` are unbounded; that they cannot overflow is proved for streams below 2^30 bytes only. `malloc` and `realloc` are taken to succeed, as the code asserts.
- Descriptors: the kernel's script is finite, and a read at the end of the stream always gives 0; data that arrives after that is not modelled.
- In `read_word_thread.c`: `sleep`, the tracing output, NUL and 0xFF characters in the file (the latter compare equal to EOF), words of ten characters or more (they overrun the buffer), and a file that grows.
- RingModule.Ring.EnterRegion: a region under the mutex is one atomic step; the mutex and the condition variables are modelled by where each thread is, not by queues.
- `proj3_web_crawler/crawler.c`, whose `crawl` is a stub, `proj2_MakingShell`, `proj4_client-servers`, `randLearn` and `miscCode`: process and socket demonstrations, or one-pass loops that would add only easy members.
