# Verified models of course-project algorithms

The repository is a collection of course projects. This project models the eight pieces with the
hardest behaviour and proves what each of them is for. `dafny verify dfyconfig.toml` checks everything.

- **Page replacement** (`Belady`, `WriteBack`, `OptCache`, `LruCache`, `LruSpec`, `Cache`, `Vmsim`).
  The two-pass OPT simulation, with its queues of access times, is proved optimal against every
  demand-paging schedule. The LRU list with its table refines a recency order, for which the stack
  property holds.
- **Museum monitor** (`MuseumSteps`, `MuseumProofs`, `Museum`). Visitors and guides as threads whose
  steps are critical sections; safety, conservation of tickets, no deadlock and termination hold for all
  interleavings of any number of threads.
- **MIPS code generator** (`Mips`, `SyntaxTree`, `Codegen`, `ExprProofs`, `StmtProofs`). Source semantics,
  emitted code, a machine, and compiler correctness in both directions, with the exact window of stack that
  the code may use.
- **Graph algorithms** (`Graph`, `UnionFind`, `HeapOrder`, `MinHeap`, `SpanningTree`, `NetAnalysis`,
  `Dijkstra`). Kruskal's algorithm over union-find and a binary heap, and Dijkstra's algorithm over arrays.
- **File transfer** (`Packets`, `GapList`, `RcvBuffer`, `Receiver`, `SenderSpec`, `Sender`, `Transfer`,
  `TransferProgress`, `Exchange`). The negative-acknowledgement protocol over a network that may lose,
  repeat and reorder every message.
- **Allocator** (`HeapLayout`, `HeapSteps`, `Allocator`, `Client`). The explicit-free-list allocator over one
  array of words, with boundary tags and links in the same words as the payloads, and whole histories of a
  client that stores into its blocks.
- **Big integers** (`Bytes`, `Division`, `Numerals`, `DigitProofs`, `HeftyInteger`, `ModPow`).
  Two's-complement arithmetic over byte arrays of any length.
- **Indexed priority queue** (`ProbeTable`, `LinearProbingHashST`, `IndirectedPQ`). A linear-probing table
  that indexes a heap, over the same heap order as the other queue.

`Extrema`, `Sequences`, `Options` and `Division` hold what several of them use.

How the sources are rendered:

- A Java exception or a null result is `None` (for `mm_init` and `mem_sbrk`, -1; for blocks, 0; for
  `modPow`, `Rejected`). Where the code would crash, the method has a precondition, named under "Left out".
- Time-outs, the choice of the next thread, the order of a hash set and the arrival of messages are
  arbitrary. Clocks, sockets, files and printing appear only as such choices or as sequences of bytes.
- Bytes of `HeftyInteger` are the numbers 0 to 255 with the sign in the first one; masks with 0xFF, masks
  of low bits and shifts are written as remainders, products and quotients, `|` and `&` as bitwise
  functions. Allocator addresses count words of 8 bytes from the start of the heap.
- Latencies and ranks are real numbers, and `Double.MAX_VALUE` is a distance of its own.
- The parent of the root of a heap is the root itself: the code divides (0 - 1) by 2, which is 0 in Java,
  although its comment says -1. The model follows the code.
- A long Java array, a signed 32-bit sequence number and other widths are unbounded, except in the size
  computation of `mm_malloc`, where 64-bit wrap-around is modelled.

Some properties the code is expected to have do not hold for all inputs; each is proved with its exact
condition: removing an inner item of a heap keeps the order only if the last item fits (`MinHeaps.PQ.Remove`,
`IndirectedPQs.IndirectedPQ.Remove`, `HeapOrder.RemovalCanFail`), a file with a NUL byte does not arrive whole (`Transfers.FileArrives`),
constant comparisons are evaluated to 0 at compile time (`StmtProofs.ComparisonsDiffer`,
`StmtProofs.TrueComparisonsFail`), `equals` compares lengths (`HeftyIntegers.HeftyInteger.Equals`,
`DigitProofs.SpareBytesDiffer`), `modPow` with modulus 1 and exponent 0 gives 1 (`ModPowers.ModPow`) and does
not end for a negative exponent (`ModPowers.RoundsEnd`), and the block size wraps around for requests near 2^64
(`Allocators.AdjustedSizeIsEnough`).

## Model

| member | source | states |
|---|---|---|
| `Belady.OptIsOptimal` | CS1550/cs1550-project3-birjusuketupatel/Cache.java:130-186 | an OPT schedule has at most as many page faults as any demand-paging schedule of the same references with the same number of frames, from any common starting cache |
| `Belady.OptStep` | CS1550/cs1550-project3-birjusuketupatel/Cache.java:404-449 | after serving one reference the OPT way, any schedule can be turned into one that goes on from OPT's cache with no more faults |
| `Belady.ExchangeCost` | CS1550/cs1550-project3-birjusuketupatel/Cache.java:404-449 | a cache that differs in one page from another, and holds the page that is used sooner, can be run with no more faults |
| `Belady.LagCost` | CS1550/cs1550-project3-birjusuketupatel/Cache.java:130-186 | a cache that lacks some pages of another can follow its schedule at the cost of one fault per missing page |
| `Belady.OptIsSchedule` | CS1550/cs1550-project3-birjusuketupatel/Cache.java:130-186 | OPT itself is a demand-paging schedule: it loads only the referenced page and stays within the frames |
| `OptPaging.QueueHeadIsNextUse` | CS1550/cs1550-project3-birjusuketupatel/Cache.java:369-399 | the head of a page's queue of access times is the time of its true next use, and the queue is empty when there is none |
| `OptPaging.InitKeepsSync` | CS1550/cs1550-project3-birjusuketupatel/Cache.java:454-473 | reading one more trace line in the first pass keeps every queue equal to the times of that page |
| `OptPaging.AccessKeepsSync` | CS1550/cs1550-project3-birjusuketupatel/Cache.java:369-399 | popping the head of the accessed page's queue keeps all queues equal to the remaining accesses; the popped head is the current time |
| `OptPaging.VictimIsFarthest` | CS1550/cs1550-project3-birjusuketupatel/Cache.java:404-449 | what the eviction loop selects is a page whose next use is farthest, and among ties the least recently accessed one |
| `OptPaging.OptCache.InitTable` | CS1550/cs1550-project3-birjusuketupatel/Cache.java:454-473 | a time is appended to the queue of its page; a new page gets the tie-breaking time Long.MAX_VALUE - 1 |
| `OptPaging.OptCache.Hit` | CS1550/cs1550-project3-birjusuketupatel/Cache.java:369-381 | the head of the queue moves to lastAccess; an empty queue changes nothing |
| `OptPaging.OptCache.Add` | CS1550/cs1550-project3-birjusuketupatel/Cache.java:386-399 | as a hit, and the page enters the cache; a page with an empty queue is not cached |
| `OptPaging.OptCache.Evict` | CS1550/cs1550-project3-birjusuketupatel/Cache.java:404-449 | the loop over the cached pages in any order ends with a victim of greatest next use and, among those, least lastAccess; exactly it leaves the cache, and -1 is returned for an empty one |
| `CacheSimulator.OptSimulator.OptAccess` | CS1550/cs1550-project3-birjusuketupatel/Cache.java:130-186 | one access serves the reference as OPT demands, counts a fault exactly on a miss and a disk write exactly for a dirty victim |
| `CacheSimulator.OptSimulator.EvictFarthest` | CS1550/cs1550-project3-birjusuketupatel/Cache.java:159-185 | on a miss in a full cache a farthest page gives way to the new one |
| `CacheSimulator.LruSimulator.LruAccess` | CS1550/cs1550-project3-birjusuketupatel/Cache.java:72-128 | one access moves or puts the page in front of the recency order, dropping the last page of a full cache, with the fault and write counts and the dirty table to match |
| `CacheSimulator.LruSimulator.EvictOldest` | CS1550/cs1550-project3-birjusuketupatel/Cache.java:102-127 | on a miss in a full cache the least recently used page gives way to the new one |
| `LruPaging.LruCache.Add` | CS1550/cs1550-project3-birjusuketupatel/Cache.java:268-280 | the doubly linked nodes and the table represent the recency order with the page in front |
| `LruPaging.LruCache.Remove` | CS1550/cs1550-project3-birjusuketupatel/Cache.java:285-300 | the last page leaves nodes and table; an empty list is the exception |
| `LruPaging.LruCache.UpdatePos` | CS1550/cs1550-project3-birjusuketupatel/Cache.java:305-319 | the page moves to the front by relinking its node; all others keep their order |
| `LruPaging.LruCache.LinkInFront` | CS1550/cs1550-project3-birjusuketupatel/Cache.java:314-318 | a node is linked in behind the front sentinel |
| `LruPaging.LruCache.Unlink` | CS1550/cs1550-project3-birjusuketupatel/Cache.java:308-312 | a node is bypassed in both directions |
| `LruPaging.MoveToFront` | CS1550/cs1550-project3-birjusuketupatel/Cache.java:305-319 | moving a page to the front permutes the order and keeps it free of duplicates |
| `LruSpec.StackProperty` | CS1550/cs1550-project3-birjusuketupatel/Cache.java:72-128 | the pages held with k frames are the k most recent of those held with n >= k frames, hence a subset of them |
| `LruSpec.MoreFramesFewerFaults` | CS1550/cs1550-project3-birjusuketupatel/Cache.java:72-128 | with more frames LRU never has more page faults on the same references |
| `LruSpec.ContentsAreLatest` | CS1550/cs1550-project3-birjusuketupatel/Cache.java:72-128 | with k frames LRU holds the k pages referenced last, or all if they are fewer, in the order of their last references |
| `LruSpec.LruIsSchedule` | CS1550/cs1550-project3-birjusuketupatel/Cache.java:72-128 | LRU is a demand-paging schedule with the faults it counts |
| `WriteBack.AccessKeepsCoherence` | CS1550/cs1550-project3-birjusuketupatel/Cache.java:72-186 | a clean cached page equals its disk copy and every page shows its newest store, kept by an access with any victim |
| `WriteBack.NoStoreIsLost` | CS1550/cs1550-project3-birjusuketupatel/Cache.java:72-186 | over any demand-paging run, writing back exactly the dirty victims loses no store |
| `WriteBack.WritesBoundedByStores` | CS1550/cs1550-project3-birjusuketupatel/Cache.java:107-110 | there are at most as many disk writes as stores and initially dirty pages |
| `Vmsim.FillTable` | CS1550/cs1550-project3-birjusuketupatel/Vmsim.java:60-81 | the first pass leaves every queue equal to the times of its page in the trace |
| `Vmsim.SimulateOpt` | CS1550/cs1550-project3-birjusuketupatel/Vmsim.java:60-101 | the faults and writes reported for OPT are those of an OPT schedule, and no demand-paging schedule with as many frames has fewer faults |
| `Vmsim.ReplayOpt` | CS1550/cs1550-project3-birjusuketupatel/Vmsim.java:83-97 | the second pass follows an OPT schedule access by access |
| `Vmsim.SimulateLru` | CS1550/cs1550-project3-birjusuketupatel/Vmsim.java:83-97 | the faults and writes reported for LRU are those of the recency order run over the trace |
| `Vmsim.ReplayLru` | CS1550/cs1550-project3-birjusuketupatel/Vmsim.java:83-97 | the pass over the trace keeps list, table and counters equal to the recency order |
| `Vmsim.CompareAlgorithms` | CS1550/cs1550-project3-birjusuketupatel/Vmsim.java:60-101 | on one trace OPT never faults more than LRU, and LRU never more with more frames |
| `MuseumProofs.StepInv` | CS1550/cs1550-project2-birjusuketupatel/project2/museumsim.c:71-191 | every critical section keeps the counters equal to what the threads' positions say, the ledger of tickets within the guides' capacity, and no lost wakeup on any of the four conditions |
| `MuseumProofs.InitialInv` | CS1550/cs1550-project2-birjusuketupatel/project2/museumsim.c:37-49 | the state set up by museum_init satisfies the invariant |
| `MuseumProofs.NoDeadlock` | CS1550/cs1550-project2-birjusuketupatel/project2/museumsim.c:71-191 | while a thread is unfinished, some thread can run, for any number of guides and visitors |
| `MuseumProofs.WithinLimits` | CS1550/cs1550-project2-birjusuketupatel/project2/museumsim.c:124-188 | at most two guides are inside, and at most ten visitors for each of them |
| `MuseumProofs.DoorIsOpen` | CS1550/cs1550-project2-birjusuketupatel/project2/museumsim.c:124-131 | in every state of every run a guide waits at the door only behind two guides that got in before it; with two guides or fewer none ever waits |
| `MuseumProofs.DoorOpensWhenEmpty` | CS1550/cs1550-project2-birjusuketupatel/project2/museumsim.c:176-184 | a guide at the door is called in only when the last one inside has left, and then alone |
| `MuseumProofs.AdmittedVisitorTours` | CS1550/cs1550-project2-birjusuketupatel/project2/museumsim.c:91-101 | an admitted visitor never waits again: the test of its loop does not fire |
| `MuseumProofs.RunsAreSafe` | CS1550/cs1550-project2-birjusuketupatel/project2/museumsim.c:37-191 | in every state of every run at most two guides are inside and at most ten visitors for each, and tickets left, waiting, inside and used up add up to ten for each guide or one for each visitor |
| `MuseumProofs.RemainingDecreases` | CS1550/cs1550-project2-birjusuketupatel/project2/museumsim.c:71-191 | every critical section brings the whole system closer to its end |
| `MuseumProofs.RunsAreBounded` | CS1550/cs1550-project2-birjusuketupatel/project2/museumsim.c:71-191 | every run has a bounded number of critical sections |
| `MuseumProofs.MaximalRunsFinish` | CS1550/cs1550-project2-birjusuketupatel/project2/museumsim.c:71-191 | a run that cannot go on has finished all threads, and ten visitors for each guide have toured, or all if they are fewer |
| `MuseumSteps.RunnableSteps` | CS1550/cs1550-project2-birjusuketupatel/project2/museumsim.c:71-191 | a thread that is not asleep or gone can do its next critical section |
| `Museum.Shared.Init` | CS1550/cs1550-project2-birjusuketupatel/project2/museumsim.c:37-49 | the tickets are the smaller of ten per guide and one per visitor; nobody is inside |
| `Museum.Shared.VisitorArrive` | CS1550/cs1550-project2-birjusuketupatel/project2/museumsim.c:73-98 | a visitor takes a ticket, announces itself and sleeps, or leaves if there is none |
| `Museum.Shared.VisitorResume` | CS1550/cs1550-project2-birjusuketupatel/project2/museumsim.c:95-98 | a woken visitor goes on to tour, or announces itself again while the museum is over capacity |
| `Museum.Shared.VisitorLeave` | CS1550/cs1550-project2-birjusuketupatel/project2/museumsim.c:104-111 | a visitor leaves and wakes the lingering guides |
| `Museum.Shared.GuideEnter` | CS1550/cs1550-project2-birjusuketupatel/project2/museumsim.c:119-132 | a guide enters if fewer than two are inside, else sleeps; MuseumProofs.DoorIsOpen and RunsAreSafe bound the guides inside from both sides |
| `Museum.Shared.GuideServe` | CS1550/cs1550-project2-birjusuketupatel/project2/museumsim.c:136-168 | a guide admits one waiting visitor, sleeps, or stops when neither visitors nor tickets are left |
| `Museum.Shared.GuideLeave` | CS1550/cs1550-project2-birjusuketupatel/project2/museumsim.c:171-190 | a guide waits until the museum is empty, leaves, and wakes those who may go on |
| `Museum.Simulate` | CS1550/cs1550-project2-birjusuketupatel/project2/museumsim.c:71-191 | scheduling runnable threads in any order ends with all visitors gone, exactly the ticket holders having toured, within the bound on steps |
| `StmtProofs.CompilerCorrect` | CS2210/codegen.c:481-509 | the emitted code, run from its first instruction, reaches its end exactly when the statement terminates; then stack and frame pointer are restored, and every word above or below the stack window, whose size is the depth of the statement, is what the statement says: locals in the frame as well as globals in the data segment |
| `StmtProofs.CodeRuns` | CS2210/codegen.c:481-509 | the code reaches its end after a terminating statement, with the memory it says outside the stack window, and runs forever along a diverging one |
| `StmtProofs.StmtRuns` | CS2210/codegen.c:481-509 | anywhere in a program with unique labels, the code of a statement does what the statement does and ends behind itself |
| `StmtProofs.LoopRuns` | CS2210/codegen.c:685-715 | the labelled loop tests, runs its body and branches back as often as the loop says |
| `StmtProofs.ChainRuns` | CS2210/codegen.c:717-761 | an if / else-if / else chain runs the first branch whose condition is not zero and continues at the common label |
| `StmtProofs.GlobalsAreCovered` | CS2210/codegen.c:779-789 | a store to a global below the stack is defined and covered by the theorem |
| `StmtProofs.StmtLabels` | CS2210/codegen.c:685-761 | all labels emitted for a statement are distinct and taken from the counter's range |
| `ExprProofs.ExprRuns` | CS2210/codegen.c:851-959 | the code of an expression pushes exactly its value and writes nothing but the words from the stack pointer down to its depth |
| `ExprProofs.ComparisonRuns` | CS2210/codegen.c:868-918 | the code of a comparison of a with b pushes 1 exactly when a < b, a > b, a == b, a != b, a <= b or a >= b, and else 0 |
| `ExprProofs.ArithmeticRuns` | CS2210/codegen.c:864-897 | an operation is undefined exactly for a division by zero; else its code pushes the sum, difference, product, or the quotient whose remainder is smaller than the divisor and has the sign of the dividend |
| `ExprProofs.NegationRuns` | CS2210/codegen.c:920-931 | the code of a negation pushes the negative |
| `ExprProofs.DepthIsReached` | CS2210/codegen.c:851-959 | the stack window is as small as it can be: at some point of its run the code of an expression has its whole depth on the stack |
| `ExprProofs.VarRuns` | CS2210/codegen.c:763-849 | the code of a variable pushes the address its base and its selectors give, and writes nothing else outside the stack window |
| `ExprProofs.SelectsRun` | CS2210/codegen.c:807-831 | the code of field and index selectors adds their distances to the running sum on the stack, and writes nothing else outside the stack window |
| `StmtProofs.EvalExpressionMeaning` | CS2210/codegen.c:448-479 | compile-time evaluation is the value of the expression with variables and comparisons taken as 0; it has no value exactly when some division inside has a divisor that evaluates to 0 |
| `StmtProofs.ConstantsAgree` | CS2210/codegen.c:448-479 | on every expression without variables in which no comparison holds, compile-time evaluation and the emitted code give the same value or both divide by zero |
| `StmtProofs.ComparisonsDiffer` | CS2210/codegen.c:448-479 | on a comparison of any operands with values they agree exactly when the comparison is false, since compile-time evaluation has no case for comparisons |
| `StmtProofs.TrueComparisonsFail` | CS2210/codegen.c:448-479 | 1 < 2 is evaluated to 0 and 1 + (1 < 2) to 1 at compile time |
| `Mips.EndIsUnique` | CS2210/codegen.c:481-509 | the machine is deterministic: a run that has reached the end of the code is the only one, and the longest |
| `Mips.DistinctResolved` | CS2210/codegen.c:685-761 | with distinct labels every branch goes to the one position of its label |
| `Codegen.Generator.GenExpression` | CS2210/codegen.c:851-959 | the instructions appended are those of the expression |
| `Codegen.Generator.GenVar` | CS2210/codegen.c:763-849 | the instructions appended are those of the variable's address |
| `Codegen.Generator.GenStmt` | CS2210/codegen.c:481-509 | the instructions appended and the labels consumed are those of the statement |
| `Codegen.Generator.AssignmentStmt` | CS2210/codegen.c:961-993 | the instructions appended are those of the assignment |
| `Codegen.Generator.LoopStmt` | CS2210/codegen.c:685-715 | the instructions appended and the labels consumed are those of the loop |
| `Codegen.Generator.IfElseStmt` | CS2210/codegen.c:717-761 | the instructions appended and the labels consumed are those of the chain |
| `Division.QuotientTruncates` | CS1501/cs1501_p5/HeftyInteger.java:237-299 | the quotient of C, Java and the emitted div leaves a remainder smaller than the divisor with the sign of the dividend |
| `Networks.NetAnalysis.LowestAvgLatST` | CS1501/cs1501_p4/NetAnalysis.java:299-332 | None exactly for a network that is not connected; otherwise the pairs of ends, one by one, of an acyclic spanning set of n - 1 of its cables whose total latency no connecting set of its cables undercuts |
| `Networks.GreedyResult` | CS1501/cs1501_p4/NetAnalysis.java:312-329 | the greedy choice over cables drawn in latency order connects exactly what all cables connect, and is a minimum spanning tree if that is everything |
| `SpanningTree.GreedyIsLightest` | CS1501/cs1501_p4/NetAnalysis.java:312-324 | the edges chosen in latency order weigh no more than any edges that connect the same |
| `SpanningTree.Exchange` | CS1501/cs1501_p4/NetAnalysis.java:312-324 | in any connecting edge set some edge across the same cut can be replaced by the chosen one |
| `SpanningTree.SpanningForestIsTree` | CS1501/cs1501_p4/NetAnalysis.java:326-329 | a spanning forest has n - 1 edges and no edge that a detour replaces |
| `Networks.NetAnalysis.NextEdge` | CS1501/cs1501_p4/NetAnalysis.java:314-315 | the edge drawn is one of least latency, and the queue loses exactly it |
| `Networks.NetAnalysis.CopperOnlyConnected` | CS1501/cs1501_p4/NetAnalysis.java:210-227 | true exactly when the copper cables alone connect all nodes |
| `Graph.ComponentsAreWalks` | CS1501/cs1501_p4/UnionFind.java:75-109 | two nodes are in one class of the merged partition exactly when a walk along the edges joins them |
| `Graph.OneClassIsConnected` | CS1501/cs1501_p4/UnionFind.java:58-69 | there is one class exactly when the edges connect all nodes |
| `UnionFinds.UnionFind.Union` | CS1501/cs1501_p4/UnionFind.java:86-109 | exactly the classes of the two ends become one, by rank |
| `UnionFinds.UnionFind.FindParent` | CS1501/cs1501_p4/UnionFind.java:115-125 | the walk to the root ends, the root is in the class of the node, and compression changes no class |
| `UnionFinds.UnionFind.Connected` | CS1501/cs1501_p4/UnionFind.java:75-80 | true exactly for two nodes of one class |
| `UnionFinds.UnionFind.ConnectedGraph` | CS1501/cs1501_p4/UnionFind.java:58-69 | true exactly when there is one class |
| `UnionFinds.CompressKeeps` | CS1501/cs1501_p4/UnionFind.java:121-124 | pointing a node at its root keeps the forest, the classes and the ranks consistent |
| `UnionFinds.LinkMerges` | CS1501/cs1501_p4/UnionFind.java:95-108 | hanging a root under one of higher rank represents the merged classes |
| `UnionFinds.LinkBalanced` | CS1501/cs1501_p4/UnionFind.java:95-108 | union by rank keeps at least 2^(r - 1) nodes in the class of a root of rank r |
| `UnionFinds.WalkIsShort` | CS1501/cs1501_p4/UnionFind.java:115-125 | the walk from a node to its root takes at most log2 of the number of nodes steps |
| `MinHeaps.PQ.Add` | CS1501/cs1501_p4/PQ.java:89-104 | the contents of any heap grow by exactly the new edge, and an ordered one stays ordered |
| `MinHeaps.PQ.PullUp` | CS1501/cs1501_p4/PQ.java:109-116 | swapping upward keeps the contents, and restores the order that holds everywhere but above the new item |
| `MinHeaps.PQ.Remove` | CS1501/cs1501_p4/PQ.java:121-140 | the contents of any heap lose exactly the target; the order of an ordered one survives exactly when the last item fits below the parent of the place, as it always does at the root |
| `MinHeaps.PQ.PushDown` | CS1501/cs1501_p4/PQ.java:145-166 | pushing down keeps the contents, and ends in heap order exactly when the item fits below the parent of its place |
| `HeapOrder.StepUp` | CS1501/cs1501_p4/PQ.java:107-116 | one exchange with a greater parent moves the only violation of the order up |
| `HeapOrder.StepDown` | CS1501/cs1501_p4/PQ.java:145-166 | one exchange with the smallest child moves the only violation of the order down |
| `HeapOrder.SinkEnd` | CS1501/cs1501_p4/PQ.java:145-166 | when no child is smaller, the order holds if and only if the item fitted below its parent |
| `HeapOrder.RootIsSmallest` | CS1501/cs1501_p4/PQ.java:77-84 | the root of an ordered heap has the least rank |
| `HeapOrder.RemovalCanFail` | CS1501/cs1501_p4/PQ.java:121-140 | there is an ordered heap and an item in it whose removal leaves an unordered one |
| `Dijkstra.Search.LowestLatencyPath` | CS1501/cs1501_p4/NetAnalysis.java:75-159 | None for ends out of bounds or equal, and otherwise exactly when there is no route; else nodes from u to w, each joined to the next one by a cable, with a total latency that no route undercuts |
| `Dijkstra.StopsArePath` | CS1501/cs1501_p4/NetAnalysis.java:139-158 | the nodes collected along a route start at u, end at w and are joined by its cables |
| `Dijkstra.PathIsRoute` | CS1501/cs1501_p4/NetAnalysis.java:139-158 | and only routes have such lists of nodes |
| `Dijkstra.Search.Explore` | CS1501/cs1501_p4/NetAnalysis.java:99-137 | at the end every distance is that of a recorded route, the parents agree with the routes, and no cable shortens any distance |
| `Dijkstra.Search.Relax` | CS1501/cs1501_p4/NetAnalysis.java:106-116 | relaxing the cables of the closest node keeps settled distances settled |
| `Dijkstra.Search.PathTo` | CS1501/cs1501_p4/NetAnalysis.java:139-158 | following the parents ends, and lists a shortest route exactly when one exists |
| `Dijkstra.NoShorterRoute` | CS1501/cs1501_p4/NetAnalysis.java:99-137 | with every cable relaxed no route is shorter than the recorded distance |
| `Dijkstra.SettledStep` | CS1501/cs1501_p4/NetAnalysis.java:106-116 | a relaxation never makes a checked node or the current one farther than an open one |
| `Transfers.StepInv` | CS2520/project1/ncp.c:275-416 | every step of either end over a network that loses, repeats and reorders keeps the invariant across both ends and all messages |
| `Transfers.WrittenIsPrefix` | CS2520/project1/rcv.c:173-213 | at every moment of every run the receiver has written exactly the first aru chunks, in order and once each |
| `Transfers.DoneMeansWritten` | CS2520/project1/ncp.c:369-371 | the sender leaves its loop only when the receiver has written every chunk |
| `Transfers.TransferIsCorrect` | CS2520/project1/ncp.c:275-371 | after a finished transfer the written text equals the source file exactly when the source has no NUL byte |
| `Transfers.FileArrives` | CS2520/project1/ncp.c:309-332 | the chunks put together are the file exactly when the file has no NUL byte, at which strlen and fputs cut a chunk off |
| `Packets.CString` | CS2520/project1/ncp.c:309-332 | the payload is the part of a chunk in front of its first NUL |
| `Transfers.WindowIsSafe` | CS2520/project1/ncp.c:286-365 | the next number is at most a window above what is written; the ring slot of every sent packet the receiver lacks holds that packet; reports have at most half a window of gaps and fit their array |
| `Transfers.MissingIsResent` | CS2520/project1/ncp.c:278-307 | a number that the last report asks for and the receiver still lacks: the next pass sends exactly that packet again |
| `SenderSpec.PassSends` | CS2520/project1/ncp.c:275-398 | a packet is sent by a pass if and only if it is in the ring slot of a number asked for, is the next chunk, or is one of the first two in flight after a time-out |
| `SenderSpec.PassMoves` | CS2520/project1/ncp.c:309-367 | a report with gaps, and only such a one, is remembered; a report with a positive number moves the window there; next number, place in the file and ring move on by the chunk sent |
| `Transfers.RingAdvances` | CS2520/project1/ncp.c:309-331 | filling the next slot overwrites only the oldest packet of the ring |
| `Transfers.IterateKeeps` | CS2520/project1/ncp.c:275-401 | a pass of the loop, with any report or none and a time-out or not, keeps the sender's invariant and sends only genuine packets |
| `Transfers.ReportIsGood` | CS2520/project1/rcv.c:609-632 | a report never claims more than was sent, and at most every second number of the window starts a gap |
| `Transfers.GapsSpread` | CS2520/project1/rcv.c:229-259 | every gap is followed by a received packet, so gap k ends at least 2k + 1 above the window |
| `TransferProgress.CanFinish` | CS2520/project1/ncp.c:275-416 | from every state that satisfies the invariant some behaviour of the network completes the transfer, without a report from a connection that no data packet has made active |
| `TransferProgress.NeverStuck` | CS2520/project1/ncp.c:275-416 | every run can be prolonged to a finished transfer |
| `TransferProgress.DueIsSent` | CS2520/project1/ncp.c:334-401 | a delivered report and a time-out make the sender send the packet that is due, unless it is done |
| `Exchanges.Exchange` | CS2520/project1/ncp.c:275-416 | sender and receiver objects joined by a network in any order of events produce a prefix of chunks, and the file itself when the sender is done and the file has no NUL byte |
| `Senders.Sender.Iteration` | CS2520/project1/ncp.c:275-416 | one pass of the loop over the ring-buffer array; what it sends is exactly the ring slot of every number of every gap still to be filled, the next chunk if the window allows, and after a time-out the first two packets in flight |
| `Senders.Sender.FillReportedGaps` | CS2520/project1/ncp.c:278-307 | the ring slot of every number of every reported gap is sent, in order |
| `Senders.Sender.SendNextChunk` | CS2520/project1/ncp.c:309-332 | the next chunk goes into its slot and is sent if the window allows and the file has not ended |
| `Senders.Sender.HandleReport` | CS2520/project1/ncp.c:336-367 | a report with a positive aru moves the window there, even backward, without changing the next number |
| `Senders.Sender.ResendStart` | CS2520/project1/ncp.c:376-398 | at most two packets from the start of the window, and no more than are in flight, are sent again |
| `Receivers.Receiver.DataPacket` | CS2520/project1/rcv.c:155-273 | after any packet the window, the buffer, the gap list and the file are exactly determined by the set of packets received; reports describe that state, one for a new gap and one when due |
| `Receivers.Receiver.WriteInOrder` | CS2520/project1/rcv.c:178-213 | the packet that follows the window and all buffered ones that follow it in turn are written |
| `Receivers.Receiver.KeepForLater` | CS2520/project1/rcv.c:229-256 | a packet ahead of the window is buffered once, splits its gap or opens a new one, and a new gap is reported at once |
| `Receivers.Receiver.PrepareMessage` | CS2520/project1/rcv.c:609-632 | the report has the number written and all gaps, cut off at MAX_GAPS |
| `Receivers.Receiver.Timeout` | CS2520/project1/rcv.c:298-311 | the time-out of an active connection sends a report of the current state |
| `Receivers.InOrder` | CS2520/project1/rcv.c:178-199 | writing the next packet keeps gaps, buffer and file exact |
| `Receivers.FromBuffer` | CS2520/project1/rcv.c:202-213 | so does writing the head of the buffer |
| `Receivers.AheadGaps` | CS2520/project1/rcv.c:236-259 | the gap list covers exactly the missing numbers after a packet ahead of the window |
| `Receivers.AheadBuffer` | CS2520/project1/rcv.c:233-233 | the buffer holds exactly the received packets above the window |
| `GapLists.GapList.SplitGap` | CS2520/project1/gap_list.c:71-170 | true exactly when a gap contains the number; that gap is replaced by its non-empty pieces, the others stay, and the links in both directions are consistent |
| `GapLists.GapList.Insert` | CS2520/project1/gap_list.c:41-87 | a gap is appended |
| `GapLists.GapList.Unlink` | CS2520/project1/gap_list.c:132-160 | a node is taken out of the doubly linked list, at either end or in between |
| `GapLists.SplitUncovers` | CS2520/project1/gap_list.c:71-170 | splitting takes exactly one number out of the covered ones |
| `GapLists.SplitIsSeparated` | CS2520/project1/gap_list.c:71-170 | the gaps stay non-empty, ascending and apart by at least one number |
| `GapLists.AppendCovers` | CS2520/project1/gap_list.c:73-83 | an appended gap behind all others covers exactly its own numbers in addition |
| `RcvBuffers.RcvBuffer.Insert` | CS2520/project1/rcv_buffer.c:36-99 | the packet is put in at its place in the ascending order; false, without a change, exactly for a number that is there already |
| `RcvBuffers.RcvBuffer.FreeHead` | CS2520/project1/rcv_buffer.c:101-114 | the first packet is dropped; false exactly for an empty buffer |
| `RcvBuffers.PutInKeeps` | CS2520/project1/rcv_buffer.c:60-95 | the buffer stays ascending and gains exactly the packet |
| `Allocators.Allocator.Malloc` | CS449/malloclab-handout/mm.c:222-263 | terminates for every size. Below 2^64 - 31 bytes: the heap stays well formed; NULL only for size 0 or when no block fits and the heap cannot grow; otherwise a 16-byte aligned payload of at least the size in a block that was not live, at most 16 bytes beyond the adjusted size; a smallest sufficient block if there was any, else the one at which the heap grew, which reaches beyond the old end; the heap grows by chunks of 512 words, and by no more of them than needed; all live blocks and their payloads stay. From there on: NULL with the heap unchanged in its live blocks, or a block of at most 32 bytes, or one that is marked free |
| `Allocators.Allocator.CutShort` | CS449/malloclab-handout/mm.c:444-464 | what split_block writes for a wrapped size of 0 or 16 bytes: the header handed out says 16 bytes, or free, and for 0 the footer of the block in front is overwritten |
| `Allocators.Allocator.Store` | CS449/malloclab-handout/mm.c:28-43 | a store into the payload of a live block changes one word and keeps the heap well formed |
| `Allocators.GrownFit` | CS449/malloclab-handout/mm.c:240-247 | after the heap has grown only the block at which it grew can be sufficient |
| `Allocators.Allocator.Free` | CS449/malloclab-handout/mm.c:269-296 | the heap stays well formed, exactly the block stops being live, all other live payloads stay; NULL, a free block and the dummy blocks change nothing |
| `Allocators.Allocator.Init` | CS449/malloclab-handout/mm.c:191-217 | a heap with one free block, or -1 exactly when there is not enough room |
| `Allocators.Allocator.ExtendHeap` | CS449/malloclab-handout/mm.c:472-519 | the new words become part of a free block in front of the new epilogue, or nothing changes and NULL is returned exactly when mem_sbrk fails |
| `Allocators.Allocator.CoalesceBlock` | CS449/malloclab-handout/mm.c:393-434 | in all four cases no two neighbouring blocks are free afterwards and no live block changes |
| `Allocators.Allocator.SplitBlock` | CS449/malloclab-handout/mm.c:444-464 | what is beyond the size becomes a listed free block if it is at least the minimum size |
| `Allocators.Allocator.FindFit` | CS449/malloclab-handout/mm.c:350-387 | a smallest free block that is large enough, or NULL exactly if there is none |
| `Allocators.Allocator.InsertBlock` | CS449/malloclab-handout/mm.c:301-317 | the links are those of the list with the block in front |
| `Allocators.Allocator.RemoveBlock` | CS449/malloclab-handout/mm.c:322-345 | the links are those of the list without the block |
| `Allocators.Allocator.FindPrev` | CS449/malloclab-handout/mm.c:718-729 | the footer in front leads to the block in front, or to the prologue |
| `Allocators.Allocator.FindNext` | CS449/malloclab-handout/mm.c:700-703 | the size leads to the next block, or to the epilogue |
| `Allocators.Allocator.MemSbrk` | CS449/malloclab-handout/memlib.c:55-65 | the break moves unless it would pass the end of the memory |
| `Allocators.AdjustedSizeIsEnough` | CS449/malloclab-handout/mm.c:224-235 | the block size has room for the request and both tags exactly when the request is below 2^64 - 31; from there on the 64-bit sums wrap around |
| `Allocators.BestOfAll` | CS449/malloclab-handout/mm.c:350-387 | the best of all list entries is the best of all free blocks |
| `HeapLayout.EveryWordIsInABlock` | CS449/malloclab-handout/mm.c:28-43 | every word between prologue and epilogue belongs to exactly one block |
| `HeapLayout.NextBlock` | CS449/malloclab-handout/mm.c:700-703 | where a block ends another one starts, or the heap ends |
| `HeapLayout.InsertLinked` | CS449/malloclab-handout/mm.c:301-317 | after the writes of insert_block the list is consistently linked in both directions |
| `HeapLayout.RemoveLinked` | CS449/malloclab-handout/mm.c:322-345 | after the writes of remove_block so is the shorter list |
| `HeapLayout.MergeTiles` | CS449/malloclab-handout/mm.c:405-428 | joining two neighbours tiles the heap again |
| `HeapLayout.SplitTiles` | CS449/malloclab-handout/mm.c:451-459 | cutting a block in two tiles the heap again |
| `HeapSteps.Detach` | CS449/malloclab-handout/mm.c:322-345 | taking a block off the list keeps tiling, tags and links, and all live payloads |
| `HeapSteps.Attach` | CS449/malloclab-handout/mm.c:301-317 | so does putting it on the list |
| `HeapSteps.CutLive` | CS449/malloclab-handout/mm.c:451-459 | so does writing the tags of both parts of a block |
| `HeapSteps.Join` | CS449/malloclab-handout/mm.c:405-420 | so does writing the tags of a joined block |
| `HeapSteps.JoinBoth` | CS449/malloclab-handout/mm.c:421-428 | and of three joined blocks |
| `HeapSteps.GrowLast` | CS449/malloclab-handout/mm.c:494-503 | and growing the last block into new words |
| `HeapSteps.StorePayload` | CS449/malloclab-handout/mm.c:28-43 | and a store of a client into the payload of a live block |
| `HeapSteps.JoinedBoth` | CS449/malloclab-handout/mm.c:421-428 | after joining both free neighbours no two neighbouring blocks are free |
| `Clients.Serve` | CS449/malloclab-handout/mm.c:222-296 | over every history of malloc, free and stores by a client on a new heap: the heap is well formed, every block handed out and not returned is live, large enough and aligned, each of its words holds what was last stored in it, and every live block is held; a request is refused only if another chunk does not fit into the memory |
| `Clients.AskIsServed` | CS449/malloclab-handout/mm.c:222-263 | an allocation keeps what the client has and adds a block of its own |
| `Clients.ReturnIsServed` | CS449/malloclab-handout/mm.c:269-296 | freeing a block keeps all other blocks and their contents |
| `Clients.WriteIsServed` | CS449/malloclab-handout/mm.c:28-43 | a store into one block changes no word of another |
| `Clients.HoldingsAreApart` | CS449/malloclab-handout/mm.c:28-43 | blocks held at the same time share no word |
| `HeftyIntegers.HeftyInteger.Add` | CS1501/cs1501_p5/HeftyInteger.java:63-132 | the exact sum of two numbers of any lengths, one byte longer than the longer operand exactly when the sum does not fit |
| `HeftyIntegers.HeftyInteger.Negate` | CS1501/cs1501_p5/HeftyInteger.java:138-170 | the exact negative, one byte longer exactly for the least number of a length |
| `HeftyIntegers.HeftyInteger.Subtract` | CS1501/cs1501_p5/HeftyInteger.java:177-179 | the exact difference |
| `HeftyIntegers.HeftyInteger.Multiply` | CS1501/cs1501_p5/HeftyInteger.java:186-230 | the exact product for all signs |
| `HeftyIntegers.HeftyInteger.Divide` | CS1501/cs1501_p5/HeftyInteger.java:237-299 | the quotient truncated toward zero; the exception exactly for divisor zero; the operands keep their bytes although setBit writes in place |
| `HeftyIntegers.HeftyInteger.Modulo` | CS1501/cs1501_p5/HeftyInteger.java:306-331 | for a positive modulus the congruent number from 0 up to the modulus; the exception exactly otherwise |
| `HeftyIntegers.HeftyInteger.XGCD` | CS1501/cs1501_p5/HeftyInteger.java:342-372 | for operands that are not negative the greatest common divisor g and x, y with this * x + other * y = g; the exception exactly otherwise |
| `HeftyIntegers.HeftyInteger.RecXGCD` | CS1501/cs1501_p5/HeftyInteger.java:378-407 | the recursion ends, since the second operand decreases, and gives a greatest common divisor with its factors |
| `HeftyIntegers.HeftyInteger.LeftShift` | CS1501/cs1501_p5/HeftyInteger.java:576-630 | multiplication by 2^n for either sign |
| `HeftyIntegers.HeftyInteger.RightShift` | CS1501/cs1501_p5/HeftyInteger.java:414-460 | floor division by 2^n for either sign |
| `HeftyIntegers.HeftyInteger.ByteRightShift` | CS1501/cs1501_p5/HeftyInteger.java:544-569 | floor division by a power of 256, down to 0 or -1 |
| `HeftyIntegers.HeftyInteger.ByteLeftShift` | CS1501/cs1501_p5/HeftyInteger.java:635-652 | multiplication by a power of 256 |
| `HeftyIntegers.HeftyInteger.GetBit` | CS1501/cs1501_p5/HeftyInteger.java:658-669 | the bit of the two's-complement digits; the exception exactly out of range |
| `HeftyIntegers.HeftyInteger.SetBit` | CS1501/cs1501_p5/HeftyInteger.java:676-697 | exactly the chosen bit changes, in the shared bytes |
| `HeftyIntegers.HeftyInteger.Prune` | CS1501/cs1501_p5/HeftyInteger.java:499-538 | the value is kept, in the least number of bytes plus one if the first byte was spare |
| `HeftyIntegers.HeftyInteger.Equals` | CS1501/cs1501_p5/HeftyInteger.java:466-494 | true exactly for equal values that are zero or both have, or both lack, a spare byte; so it implies equal values and is exact against zero |
| `DigitProofs.SpareBytesDiffer` | CS1501/cs1501_p5/HeftyInteger.java:466-494 | 05 and 00 05 have the same value but differ in having a spare byte, so they are not equal |
| `HeftyIntegers.HeftyInteger.Extend` | CS1501/cs1501_p5/HeftyInteger.java:41-48 | the byte is put in front |
| `HeftyIntegers.HeftyInteger.DividePositive` | CS1501/cs1501_p5/HeftyInteger.java:259-284 | bit-by-bit long division gives the quotient |
| `DigitProofs.DivisionStep` | CS1501/cs1501_p5/HeftyInteger.java:268-281 | one round of long division keeps quotient and remainder of the bits seen so far, and never meets a bit already set |
| `DigitProofs.SumExtends` | CS1501/cs1501_p5/HeftyInteger.java:111-127 | the sign tests after the addition extend exactly the sums that overflow |
| `DigitProofs.ShiftExtends` | CS1501/cs1501_p5/HeftyInteger.java:605-624 | the overflow and sign cases after a left shift give the shifted value |
| `DigitProofs.NextShift` | CS1501/cs1501_p5/HeftyInteger.java:439-451 | a byte shifted right with the bits of the byte in front keeps the floor quotient of the prefix |
| `DigitProofs.ProductStep` | CS1501/cs1501_p5/HeftyInteger.java:212-222 | adding the shifted operand for one more bit gives the product with one more bit |
| `DigitProofs.PrunedPositive` | CS1501/cs1501_p5/HeftyInteger.java:507-531 | cutting leading zeros but one keeps the value and gives the pruned length |
| `DigitProofs.SignedDigitsUnique` | CS1501/cs1501_p5/HeftyInteger.java:478-486 | digits of one length are equal exactly when their values are |
| `DigitProofs.GcdStep` | CS1501/cs1501_p5/HeftyInteger.java:391-391 | a greatest common divisor of b and a mod b is one of a and b |
| `Numerals.SignedUnique` | CS1501/cs1501_p5/HeftyInteger.java:96-109 | a value that fits a length is determined by its unsigned digits |
| `Numerals.ByteOfBit` | CS1501/cs1501_p5/HeftyInteger.java:663-667 | bit i of a number is bit i mod 8 of byte i / 8 from the end |
| `Numerals.SignExtendBy` | CS1501/cs1501_p5/HeftyInteger.java:76-94 | padding with the sign keeps the value |
| `ModPowers.ModPow` | CS1657/project1/app/Server.java:69-85 | in any number of rounds of the loop: it is still running exactly if the exponent has not been shifted to 0; if it has ended the result is y^x mod n, except that modulus 1 and exponent 0 give 1; the exception exactly for a modulus that is not positive |
| `ModPowers.RoundsEnd` | CS1657/project1/app/Server.java:75-82 | the loop ends exactly for exponents that are not negative |
| `ModPowers.RoundKeeps` | CS1657/project1/app/Server.java:76-82 | one round of squaring keeps result * y^x modulo n |
| `LinearProbing.LinearProbingHashST.Put` | CS1501/cs1501_p3/LinearProbingHashST.java:45-54 | the contents are the map with the pair, the count grows by a new key, and the table doubles exactly if it was half full |
| `LinearProbing.LinearProbingHashST.Get` | CS1501/cs1501_p3/LinearProbingHashST.java:56-62 | the probe ends, with the value of the key, or null exactly if it is not there |
| `LinearProbing.LinearProbingHashST.Delete` | CS1501/cs1501_p3/LinearProbingHashST.java:69-91 | the contents are the map without the key; the cluster behind it is inserted again, and the table is halved exactly if an eighth of it is left |
| `LinearProbing.LinearProbingHashST.Resize` | CS1501/cs1501_p3/LinearProbingHashST.java:33-43 | a table of another size with the same contents and count |
| `LinearProbing.LinearProbingHashST.Contains` | CS1501/cs1501_p3/LinearProbingHashST.java:64-67 | whether the key is there |
| `LinearProbing.LinearProbingHashST.MoveCluster` | CS1501/cs1501_p3/LinearProbingHashST.java:77-87 | re-insertion up to the next empty slot makes every key reachable again |
| `ProbeTables.MovingStep` | CS1501/cs1501_p3/LinearProbingHashST.java:78-87 | re-inserting one key of the cluster makes it reachable and breaks no other key's path, and the end of the cluster stays empty |
| `ProbeTables.MovingStarts` | CS1501/cs1501_p3/LinearProbingHashST.java:71-77 | emptying a slot endangers only the keys from there to the next empty slot |
| `ProbeTables.InsertKeeps` | CS1501/cs1501_p3/LinearProbingHashST.java:49-53 | a new key in the first empty slot keeps all keys reachable and adds exactly the pair |
| `ProbeTables.PassedAll` | CS1501/cs1501_p3/LinearProbingHashST.java:58-61 | a probe that ends at an empty slot has found out that the key is not there |
| `IndirectedPQs.IndirectedPQ.Add` | CS1501/cs1501_p3/IndirectedPQ.java:215-241 | index agreement is kept and the contents gain the item, unless its key is there already; an ordered heap stays ordered |
| `IndirectedPQs.IndirectedPQ.Update` | CS1501/cs1501_p3/IndirectedPQ.java:95-139 | agreement is kept, and so is the order of an ordered heap; the item is replaced exactly if its key is there and the new item has that key |
| `IndirectedPQs.IndirectedPQ.UpdateAt` | CS1501/cs1501_p3/IndirectedPQ.java:119-139 | the changed item moves up or down as needed; agreement holds in any case |
| `IndirectedPQs.IndirectedPQ.RemoveMin` | CS1501/cs1501_p3/IndirectedPQ.java:78-90 | the item at the root leaves, in an ordered heap one of least rank; agreement is kept, and so is order; null exactly for an empty queue |
| `IndirectedPQs.IndirectedPQ.Remove` | CS1501/cs1501_p3/IndirectedPQ.java:146-158 | the item of the key leaves and the index agrees in any case; the order of an ordered heap survives exactly when the last item fits below the parent of the place, since removal only pushes down |
| `IndirectedPQs.IndirectedPQ.GetMin` | CS1501/cs1501_p3/IndirectedPQ.java:63-73 | the item at the root, in an ordered heap one of least rank; null exactly for an empty queue |
| `IndirectedPQs.IndirectedPQ.Get` | CS1501/cs1501_p3/IndirectedPQ.java:48-58 | the item of the key, found through the table |
| `IndirectedPQs.IndirectedPQ.Swap` | CS1501/cs1501_p3/IndirectedPQ.java:304-320 | two items and their table entries change places together |
| `IndirectedPQs.IndirectedPQ.PushDown` | CS1501/cs1501_p3/IndirectedPQ.java:189-210 | agreement is kept by every exchange in any heap, and the order results exactly when the item fits below its parent |
| `IndirectedPQs.IndirectedPQ.PullUp` | CS1501/cs1501_p3/IndirectedPQ.java:267-274 | agreement is kept by every exchange in any heap, and the order results if it was broken only above the item |
| `IndirectedPQs.SwapIndexed` | CS1501/cs1501_p3/IndirectedPQ.java:304-320 | the two puts of a swap keep the index exact, also when both positions are the same |

## Left out

- CacheSimulator: the shift from addresses to pages, the checks of frame count, page size and algorithm name, and the choice among processes; one process's cache is modelled.
- Vmsim.SimulateOpt: access times are trace line numbers below Long.MAX_VALUE, as a file of lines gives them; the trace must be the one the table was filled from.
- MuseumSteps: spurious wakeups; a signal wakes exactly one waiter. The rule that no guide enters until all have left is not kept by the guard at CS1550/cs1550-project2-birjusuketupatel/project2/museumsim.c:124, and is not claimed.
- StmtProofs.CompilerCorrect: method calls and argument registers, return, println and readln, class-qualified names, and the operators And, Or and Not, for which GenExpression has no case; 32-bit overflow. Division by zero, an unaligned address and access to the words of the stack window make the source undefined.
- Codegen: variables arrive as frame offsets or data labels; the symbol table that produces them is not part of this model.
- UnionFinds.UnionFind.ConnectedGraph: a graph without nodes, for which the code indexes an empty array; LowestAvgLatST and CopperOnlyConnected inherit this.
- Networks: reading the graph file, bandwidth along a path, connectedTwoVertFail and articulation points.
- Dijkstra: rounding of floating-point latencies.
- Transfers: the INIT, SLEEP and FIN handshake, the queue of clients, statistics and round-trip times. One connection is modelled up to FIN; a data packet after FIN reopens and truncates the file.
- RcvBuffers: the size counter, which is raised before the duplicate check (CS2520/project1/rcv_buffer.c:51).
- Receivers.Receiver.DataPacket: messages of other types and the wake-up of a sleeping connection.
- Allocators.Allocator.Malloc: what the client does with the block that a request of 2^64 - 31 bytes or more returns, and operations on the heap after it; such requests are not part of the histories of Clients.Serve.
- Allocators.Allocator.Free: pointers that were never returned by malloc, or whose block has been coalesced away; the code trusts its caller.
- HeftyIntegers: numbers of zero bytes, on which isNegative fails, and array lengths whose eightfold exceeds 32 bits.
- HeftyIntegers.HeftyInteger.IsZero: the three-line comparison with a one-byte zero that the code repeats, as one method.
- LinearProbing: null keys and values, and tables of fewer than two slots. Inside resize and delete the resize test of put is false, so the insertion without the test is used there.
- IndirectedPQs: the negative and too large indices that the private update and remove test for, which the table never yields.
- Sorting exercises, lists, trees, games, web applications and scripts of the repository, which would only add easy members.
