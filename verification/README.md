# Verified models of the repository's algorithmic cores

This project models, in Dafny, the parts of the repository that have invariants worth proving, and
proves them. `dafny verify dfyconfig.toml` checks all of it.

| files | what they model |
|---|---|
| `Calculator.dfy`, `CalculatorGrouping.dfy`, `CalculatorErrors.dfy`, `CalculatorProgram.dfy`, `CalculatorSigns.dfy`, `Stack.dfy` | the calculator: a table-driven machine over two bounded stacks, proved to compute the trees of the usual grammar and to report each error exactly where it should |
| `ThreadPool.dfy`, `ThreadPoolProgress.dfy` | the thread pool with its pause and stop "bad apples", as a transition system of one controller and any number of workers |
| `VsaBlocks.dfy`, `VsaSpace.dfy`, `Vsa.dfy` | the variable-size allocator: signed headers in a word array, refined to a list of blocks |
| `HostSearch.dfy`, `Trie.dfy`, `Dhcp.dfy` | the search for a free host on sets, the binary trie that does it, and the address allocator on the trie (prefix and host in the sense of section 3.1 of RFC 4632) |
| `Avl.dfy`, `AvlNodes.dfy` | the AVL tree as values, and the nodes in memory that refine them |
| `BstShape.dfy`, `BstPlaces.dfy`, `BstRemoval.dfy`, `Bst.dfy` | the search tree with parent pointers and a stub, over an explicit memory of cells |
| `Vector.dfy`, `Heap.dfy`, `Scheduler.dfy` | the growing array, the heap and priority queue on it, and the scheduler on the heap |
| `CountingByKey.dfy`, `LinearSorting.dfy` | counting sort and radix sort by stable passes |
| `MergingWords.dfy`, `ParallelSort.dfy` | the multithreaded sort: any interleaving of chunk sorts, then bottom-up merging |
| `LinkedList.dfy`, `ListMemory.dfy`, `BoundedQueue.dfy`, `BoundedQueueAnswers.dfy`, `BoundedQueueLoss.dfy` | the list with a moving dummy, and the two-lock, two-semaphore queue on it, write by write over a shared memory |
| `Wrappers.dfy`, `Arithmetic.dfy`, `Bits.dfy` | optional values, maxima, and bits of numbers |

Code that changes state is a class or a method over arrays, proved against functions on sequences,
sets and trees; concurrent code is a step relation, and what holds is proved for every run of it.

## What turned out differently

* A sign before a bracket goes to the first literal inside it, so `-(2+3)` is 1. The value agrees
  with the usual reading exactly under `NoPendingMinus`.
* `Stop` on a pool without threads leaves queued tasks unexecuted; with a thread it executes all.
* `PopMin` in the AVL tree does not rebalance. Removal keeps balance exactly under `SafeRemove`.
* The trie can answer that no host is available though many are free. A taken host sends the search
  to the right only where a right child exists (`projects/dhcp/src/trie.c:192`), that is where some
  host ever inserted went, so a wholly free right half is never entered; and once it has turned at a
  bit it never comes back above it. The answer is NO_IP_AVAILABLE exactly if all candidates of the
  search, `Tried`, are taken. Requests for 0.0.0.0 get at most depth - 1 of the 2^depth - 3 hosts;
  with three host bits the third one is refused.
* A request for a taken host makes the trie give another host first, which is marked as taken
  though nobody receives it; the contract names it `wasted`.
* `FSQEnqueue` compares, after giving up the lock, a node that may have been freed and handed out
  again. It then reports failure though the item is in the list, and the list can outgrow the
  capacity. This happens only through such reuse, and can happen through every such reuse.
* `MergeSortedParts` never ends when there are more threads than words.
* `SchedRemove` removes another task than the one asked for, since `HeapRemove` takes 0 for a match
  and `TaskIsMatch` answers 1. The header promises the named task; the model follows the code.

## Model

| member | source | states |
|---|---|---|
| `Calculator.EvaluateIffParses` | projects/calculator/src/calculator.c:120-195 | the machine succeeds with v exactly on the texts that spell a grammatical tree (right-associative ^ over left-associative * / over left-associative + -, three bracket kinds, sign runs) whose value is v |
| `Calculator.GrammaticalComputed` | projects/calculator/src/calculator.c:295-398 | every printed grammatical tree evaluates to its value, and to MATH_ERROR exactly when some operation in it is a math error |
| `Calculator.AcceptedGrammatical` | projects/calculator/src/calculator.c:333-398 | no input at all makes a stack underflow, and a successful run has read one grammatical tree, so that its brackets nest and match in kind |
| `Calculator.ExprComputes` | projects/calculator/src/calculator.c:295-366 | in any context of pending operators that binds weaker, running over a printed tree leaves what the reference value says, after the reduction that follows it |
| `Calculator.RunReads` | projects/calculator/src/calculator.c:295-398 | along every run the two stacks spell out, as a partly built tree, exactly the tokens read so far |
| `Calculator.ReduceSound` | projects/calculator/src/calculator.c:333-366 | the eager reduction loop builds the tree of the operands and never changes the text that the stacks stand for |
| `Calculator.BracketSound` | projects/calculator/src/calculator.c:368-398 | closing a bracket yields the bracketed tree with the matching closing character |
| `Calculator.RunAt` | projects/calculator/src/calculator.c:160-195 | walking over the characters with the cursor is running the machine on their tokens |
| `Calculator.StepAtAdvances` | projects/calculator/src/calculator.c:581-593 | every step of the loop that goes on consumes at least one character and stays within the text |
| `CalculatorGrouping.GrammaticalIffSum` | projects/calculator/src/calculator.c:214-220 | the trees that are bracketed enough are exactly those of the usual grammar: sums of products of powers, + - and * / grouping to the left and ^ to the right |
| `CalculatorGrouping.SumComputed` | projects/calculator/src/calculator.c:295-398 | every tree of that grammar, printed, gives its result, written out with the five operations and their math errors |
| `CalculatorGrouping.SumRead` | projects/calculator/src/calculator.c:295-398 | and a run that succeeds has read such a tree |
| `CalculatorGrouping.TwoNumbers` | projects/calculator/src/calculator.c:222-331 | x op y is num.add, num.sub, num.mul, num.div or num.pow of x and y in this order, with MATH_ERROR exactly for division by zero, zero to the zero and a negative to a fraction |
| `CalculatorGrouping.ThreeNumbers` | projects/calculator/src/calculator.c:214-366 | x a y b z, for each of the 25 pairs of operators: the second takes the middle number exactly if it is ^, or * or / after + or - |
| `CalculatorGrouping.BracketedPair` | projects/calculator/src/calculator.c:368-398 | a pair in brackets of either kind is computed first |
| `CalculatorGrouping.MismatchedPair` | projects/calculator/src/calculator.c:368-398 | an opening bracket closed by another kind is a SYNTAX_ERROR |
| `CalculatorGrouping.TextComputed` | projects/calculator/src/calculator.c:228-254 | a text of digits, points, signs, brackets and blanks that spells a tree of the usual grammar gets its result |
| `CalculatorGrouping.TextRead` | projects/calculator/src/calculator.c:228-254 | and a text that gets a value spells such a tree |
| `CalculatorGrouping.ThreeComputed` | projects/calculator/src/calculator.c:160-254 | in texts, too, three numbers with two operators between them are grouped as they should be |
| `CalculatorProgram.CalcData.ApplyTopOperator` | projects/calculator/src/calculator.c:295-331 | the bounded stacks hold what the machine on values says; division by zero and pow errors stop with MATH_ERROR; no pop of an empty stack |
| `CalculatorProgram.CalcData.ReduceOperators` | projects/calculator/src/calculator.c:333-366 | the loop over the stacks refines the recursive reduction, with a left-over bracket at the end a SYNTAX_ERROR |
| `CalculatorProgram.CalcData.ReduceUntilOpen` | projects/calculator/src/calculator.c:368-398 | the loop refines closing a bracket: up to the opening one of the same kind, else an error |
| `CalculatorProgram.CalcData.ActPushNumber` | projects/calculator/src/calculator.c:420-440 | takes the sign collected so far into the number, moves the cursor past it and resets the sign |
| `CalculatorProgram.CalcData.ActPushBinaryOp` | projects/calculator/src/calculator.c:442-453 | reduces what binds at least as strongly, then pushes; no push past the capacity |
| `CalculatorProgram.CalcData.ActEnd` | projects/calculator/src/calculator.c:546-573 | reduces everything and delivers the single value left |
| `CalculatorProgram.CalcData.FsmStep` | projects/calculator/src/calculator.c:581-593 | one turn of the table-driven machine is one step of the machine on values, in every reachable state |
| `CalculatorProgram.Calculate` | projects/calculator/src/calculator.c:160-195 | SUCCESS if and only if the text spells a tree of the usual grammar whose result is a number, which is then delivered; three numbers with two operators are grouped as written out; MATH_ERROR if and only if some operation fails that the tokens before the first illegal one force; so SYNTAX_ERROR in exactly the other cases |
| `CalculatorErrors.ValuesCounted` | projects/calculator/src/calculator.c:295-398 | in every state the machine can get to there is one value for each pending operator, and one more when an operator is awaited |
| `CalculatorErrors.FailingStops` | projects/calculator/src/calculator.c:295-366 | an operation whose operands and everything pending before it have values, which is itself a math error and which the next token or the end forces, ends the run with MATH_ERROR, whatever follows |
| `CalculatorErrors.RunFails` | projects/calculator/src/calculator.c:295-398 | and a run that ends with MATH_ERROR has met such an operation: it is named, with the prefix of the tokens that contains it |
| `CalculatorErrors.MathErrorIff` | projects/calculator/src/calculator.c:120-195 | so MATH_ERROR is reported if and only if there is one, in grammatical texts and in others |
| `CalculatorErrors.ErrorsOf` | projects/calculator/src/calculator.c:120-195 | every text gets its value, MATH_ERROR or else SYNTAX_ERROR, each under its own exact condition |
| `CalculatorSigns.ConventionalWhenNoPendingMinus` | projects/calculator/src/calculator.c:406-435 | where no pending minus reaches past a literal, the sign-folding value is the value of the usual reading |
| `CalculatorSigns.ConventionalOnlyWhenNoPendingMinus` | projects/calculator/src/calculator.c:406-435 | the condition is exact: the two readings perform the same operations if and only if it holds |
| `CalculatorSigns.SignBeforeBracketExample` | projects/calculator/src/calculator.c:406-435 | -(2+3) comes out as 1 |
| `Stacks.Stack.constructor` | ds/src/stack.c:25-55 | an empty stack of the given capacity |
| `Stacks.Stack.Push` | ds/src/stack.c:70-84 | appends to the contents, within the capacity |
| `Stacks.Stack.Pop` | ds/src/stack.c:87-93 | drops the last element |
| `Stacks.Stack.Peek` | ds/src/stack.c:96-103 | the last element |
| `ThreadPool.NextInvariant` | projects/final_project/framework/src/thread_pool.cpp:7-176 | every step of controller or worker keeps: pause apples + blocked workers - permits, threads started and joined, stop apples, and every task in exactly one of queue, worker, executed |
| `ThreadPool.RunInvariant` | projects/final_project/framework/src/thread_pool.cpp:7-176 | the invariant holds after every finite interleaving |
| `ThreadPool.InitialInvariant` | projects/final_project/framework/src/thread_pool.cpp:7-14 | the pool starts within the invariant |
| `ThreadPool.ApplesConserved` | projects/final_project/framework/src/thread_pool.cpp:30-53 | after any run, between two calls, apples + blocked workers - permits is the number of threads when paused and 0 when running, with exactly that many workers alive |
| `ThreadPoolProgress.RunOpens` | projects/final_project/framework/src/thread_pool.cpp:30-39 | after Run the pool is not paused and there is exactly one permit for every queued pause apple and every blocked worker; nothing else has changed |
| `ThreadPoolProgress.RunningNotStuck` | projects/final_project/framework/src/thread_pool.cpp:140-157 | in a running pool with a thread, as long as a task has not been executed, some worker can take a step |
| `ThreadPoolProgress.WorkerProgresses` | projects/final_project/framework/src/thread_pool.cpp:140-157 | and every step of a worker lessens what is left to do |
| `ThreadPoolProgress.RunningEnds` | projects/final_project/framework/src/thread_pool.cpp:140-157 | a running pool takes no more steps than what is left to do and four for each task added |
| `ThreadPoolProgress.RunningExecutesAll` | projects/final_project/framework/src/thread_pool.cpp:30-39 | when its workers can go no further, under whatever schedule, every task ever added has been executed |
| `ThreadPoolProgress.RunningCanFinish` | projects/final_project/framework/src/thread_pool.cpp:30-39 | and they can get there within that many steps |
| `ThreadPoolProgress.PauseReturns` | projects/final_project/framework/src/thread_pool.cpp:41-53 | when Pause returns the pool is paused, as many apples and blocked workers as threads hold it, and no worker can start a task |
| `ThreadPoolProgress.PausedFinishesOnly` | projects/final_project/framework/src/thread_pool.cpp:41-53 | from then on, until the controller is called again, only tasks are finished that were being executed already |
| `ThreadPoolProgress.AddedWaits` | projects/final_project/framework/src/thread_pool.cpp:23-28 | in any run a task waits with the priority it was added with until it is taken, and never again |
| `ThreadPoolProgress.HigherFirst` | projects/final_project/framework/inc/thread_pool.hpp:30-46 | in any run, as long as a task waits, none that was added with a lower priority is taken, nor a stop apple; a pause apple comes before all tasks |
| `ThreadPool.PausedStartsNothing` | projects/final_project/framework/src/thread_pool.cpp:41-53 | once Pause has returned no worker can start a user task, and when the apples are used up every worker is blocked |
| `ThreadPool.CollectingNotStuck` | projects/final_project/framework/src/thread_pool.cpp:95-118 | no deadlock while ShrinkThreads waits for exiting workers: somebody can always go on |
| `ThreadPool.CollectingProgresses` | projects/final_project/framework/src/thread_pool.cpp:95-118 | every step of that wait, other than a new Add, lessens what is left to do |
| `ThreadPool.CollectingEnds` | projects/final_project/framework/src/thread_pool.cpp:95-118 | so the wait ends under every schedule: it takes fewer steps than what is left to do, plus four for each task added meanwhile |
| `ThreadPool.ReturnsResized` | projects/final_project/framework/src/thread_pool.cpp:64-118 | every run to the return of SetNumOfThreads, from any place within it, ends with the thread count asked for |
| `ThreadPool.SetNumOfThreadsReturns` | projects/final_project/framework/src/thread_pool.cpp:64-93 | on return exactly the number of workers asked for is alive, none is on its way out, and no stop apple is left behind |
| `ThreadPool.ShrinkDrains` | projects/final_project/framework/src/thread_pool.cpp:95-155 | a stop apple is popped only when no user task waits, so none of the earlier tasks is queued when the resize returns |
| `ThreadPool.StopExecutesAll` | projects/final_project/framework/src/thread_pool.cpp:55-62 | when Stop returns a task added before has been executed, exactly if the pool had a thread or the task was not waiting any more |
| `ThreadPool.EmptyPoolStops` | projects/final_project/framework/src/thread_pool.cpp:55-118 | a pool without threads that is told to stop keeps its queue |
| `ThreadPool.ShrinkLeavesNoneWaiting` | projects/final_project/framework/src/thread_pool.cpp:95-118 | after a shrinking resize every earlier task is being executed or has been |
| `VsaBlocks.LongestRunBounds` | projects/vsa/src/vsa.c:152-188 | no stretch of neighbouring free blocks is longer than the longest run |
| `VsaBlocks.LongestRunReached` | projects/vsa/src/vsa.c:152-188 | some stretch is as long |
| `VsaBlocks.MergedKeeps` | projects/vsa/src/vsa.c:219-238 | coalescing keeps the longest run and the blocks in use and leaves no two free neighbours |
| `VsaBlocks.LargestOfMerged` | projects/vsa/src/vsa.c:112-134 | the largest free block after explicit coalescing is the largest chunk that the search could have put together |
| `VsaBlocks.FirstFitIff` | projects/vsa/src/vsa.c:152-188 | the search that coalesces as it goes succeeds if and only if some stretch of free blocks is long enough |
| `VsaBlocks.AllocatedIff` | projects/vsa/src/vsa.c:152-188 | a request is served if and only if the largest chunk has one word to spare |
| `VsaBlocks.AllocatedMeaning` | projects/vsa/src/vsa.c:190-217 | serving a request adds one block in use, of the length asked for and at most one header more, keeps all others and the filling of the pool |
| `VsaSpace.CommittedExact` | projects/vsa/src/vsa.c:190-217 | a run is split exactly when what is left can hold a block, into the words asked for and one free block; else it is handed out whole |
| `VsaSpace.FirstFitIsFirst` | projects/vsa/src/vsa.c:152-188 | the stretch that is taken begins where its run begins, and no stretch before it is long enough |
| `VsaSpace.AllocatedLeaves` | projects/vsa/src/vsa.c:152-217 | the largest chunk falls by the request and two headers at most, and by one where no two free blocks were neighbours |
| `VsaSpace.AllocatedFree` | projects/vsa/src/vsa.c:190-217 | the words in free blocks fall by the request and one header at most |
| `VsaSpace.AllocatedApart` | projects/vsa/src/vsa.c:190-217 | serving a request makes no two free blocks neighbours |
| `VsaBlocks.FreedMeaning` | projects/vsa/src/vsa.c:89-110 | freeing takes exactly that block out of those in use |
| `Vsa.TilesUnique` | projects/vsa/src/vsa.c:136-150 | the headers in memory determine the block list |
| `Vsa.TilesDisjoint` | projects/vsa/src/vsa.c:136-150 | the blocks lie in the pool, in order, without overlap |
| `Vsa.PayloadWritten` | projects/vsa/src/vsa.c:72-87 | a client that writes any payload word of its block leaves the headers, the block list and every other block as they are |
| `Vsa.VSAInit` | projects/vsa/src/vsa.c:39-70 | NULL exactly if the aligned buffer is too small; else one free block fills the pool, which leaves less than a word of the buffer unused at either end |
| `Vsa.ScanTake` | projects/vsa/src/vsa.c:152-188 | a free block met by the search joins the stretch before it, which is the fit as soon as its bytes reach what is needed and is not before |
| `Vsa.Vsa.FindFit` | projects/vsa/src/vsa.c:152-188 | the walk over the headers finds the first stretch of free blocks that is long enough |
| `Vsa.Vsa.FindFitAndCommit` | projects/vsa/src/vsa.c:152-188 | and commits it, changing no word outside that stretch |
| `Vsa.Vsa.CommitAlloc` | projects/vsa/src/vsa.c:190-217 | splits off what is left exactly when it can hold a block, as written out; the headers still tile the pool |
| `Vsa.Vsa.VSAAlloc` | projects/vsa/src/vsa.c:72-87 | succeeds if and only if n > 0 and VSALargestChunkAvailable is at least ALIGN_UP(n) + WORD_SIZE; then one block of at least ALIGN_UP(n) bytes and less than a header and a word more is added, the first stretch that is long enough gives it, the free space falls by no more than that and a header, and no word of another block in use changes |
| `Vsa.FitIsFirst` | projects/vsa/src/vsa.c:152-188 | every stretch of free blocks that begins further down is too short |
| `Vsa.FreshPoolServes` | projects/vsa/src/vsa.c:39-87 | a fresh pool serves k equal requests whenever they fit one after the other, headers included, with a word to spare |
| `Vsa.Vsa.VSAFree` | projects/vsa/src/vsa.c:89-110 | the block and no other leaves those in use; only its header changes; NULL does nothing |
| `Vsa.Vsa.Coalesce` | projects/vsa/src/vsa.c:219-238 | the inner loop joins a free block with all free ones behind it |
| `Vsa.Vsa.Defrag` | projects/vsa/src/vsa.c:219-238 | the pool becomes the merged block list with every block in use untouched |
| `Vsa.Vsa.LargestFreeBlock` | projects/vsa/src/vsa.c:112-134 | the scan finds the largest free block |
| `Vsa.Vsa.VSALargestChunkAvailable` | projects/vsa/src/vsa.c:112-134 | returns the largest chunk there was before the call, and later calls return the same |
| `Trie.PivotKeys` | projects/dhcp/src/trie.c:192-196 | a right child is there exactly if some host ever inserted went that way, so the search turns only where one agrees with the host above a bit and has the bit set |
| `Trie.LeafEver` | projects/dhcp/src/trie.c:267-284 | a host has its node exactly if it was inserted at some time |
| `HostSearch.NextHostIsFirstFree` | projects/dhcp/src/trie.c:175-265 | the search gives the first free one of its candidates, a list that does not depend on what is taken, and nothing if and only if all of them are taken |
| `HostSearch.NearestFirst` | projects/dhcp/src/trie.c:192-196 | for a taken host the first other candidate has the lowest clear bit set at which some host ever inserted went to the right; if it is free it is given |
| `HostSearch.TriedAscends` | projects/dhcp/src/trie.c:250-265 | the candidates ascend strictly from the host asked for and stay in range |
| `HostSearch.TriedFew` | projects/dhcp/src/trie.c:250-265 | there are at most one more of them than the host has clear bits |
| `HostSearch.NextHostMeaning` | projects/dhcp/src/trie.c:175-265 | a host that the search finds is free, in range, the one asked for if that is free and else strictly greater |
| `HostSearch.TriedStable` | projects/dhcp/src/trie.c:175-265 | handing out a candidate makes no new ones, though it adds nodes |
| `HostSearch.AskedStays` | projects/dhcp/src/trie.c:69-82 | repeated requests for one host get only the candidates of the first one |
| `HostSearch.AskedDry` | projects/dhcp/src/trie.c:69-82 | and nothing once there were as many requests as candidates |
| `Bits.SetBit` | projects/dhcp/src/trie.c:250-265 | setting the pivot bit keeps the bits above it, sets it and is an addition |
| `Trie.Trie.TraversePath` | projects/dhcp/src/trie.c:267-284 | the node for the host, or none |
| `Trie.Trie.TRIESearch` | projects/dhcp/src/trie.c:84-94 | membership in the set of hosts handed out |
| `Trie.Trie.AllocateAtTarget` | projects/dhcp/src/trie.c:222-248 | the missing part of the path is made and exactly that host is added |
| `Trie.Trie.WalkDown` | projects/dhcp/src/trie.c:185-211 | the walk ends at the node of the host, or at the missing one on its way, and has remembered the lowest pivot |
| `Trie.Trie.TRIEInsertHelper` | projects/dhcp/src/trie.c:175-220 | adds exactly the host that the search on sets finds, with SUCCESS for the one asked for and OCCUPIED for another; terminates because the pivot bit falls |
| `Trie.Trie.FindAndAllocateNextFree` | projects/dhcp/src/trie.c:250-265 | the same below the pivot bit; NO_IP_AVAILABLE changes nothing |
| `Trie.Trie.TRIEInsert` | projects/dhcp/src/trie.c:69-82 | SUCCESS if and only if the host is free; NO_IP_AVAILABLE if and only if every candidate is taken, with nothing changed; else exactly the first free candidate is added |
| `Trie.Trie.TRIEFree` | projects/dhcp/src/trie.c:96-127 | SUCCESS if and only if the host was taken, and then exactly it is removed; DOUBLE_FREE for one that was inserted at some time, IP_NOT_FOUND for one that never was, with nothing changed |
| `Trie.Trie.HostsEver` | projects/dhcp/src/trie.c:96-127 | what is taken was inserted at some time, whatever was freed in between |
| `Trie.Trie.TRIECountFree` | projects/dhcp/src/trie.c:142-152 | counts, below any node, what is not taken there |
| `Trie.Trie.CountFreeComplements` | projects/dhcp/src/trie.c:142-152 | from the root, the count and the number of hosts taken add up to 2^depth |
| `Dhcp.ToNumber` | projects/dhcp/src/dhcp.c:175-220 | the four bytes as one number |
| `Dhcp.ConvertSubnetToUInt` | projects/dhcp/src/dhcp.c:175-198 | the address with the host bits cleared |
| `Dhcp.ExtractHostFromIp` | projects/dhcp/src/dhcp.c:200-220 | the host bits of the address |
| `Dhcp.NetworkBits` | projects/dhcp/src/dhcp.c:193-197 | clearing the host bits keeps exactly the bits from there on |
| `Dhcp.HostBits` | projects/dhcp/src/dhcp.c:217-219 | masking with the host mask keeps exactly the bits below |
| `Dhcp.BothBits` | projects/dhcp/src/dhcp.c:222-232 | network and host joined have exactly the bits of either |
| `Dhcp.BuildFullIp` | projects/dhcp/src/dhcp.c:222-232 | bytes that spell network plus host |
| `Dhcp.HostRoundTrip` | projects/dhcp/src/dhcp.c:200-232 | extracting the host from the built address gives it back, and the prefix is the configured one |
| `Dhcp.TrieWithReserved` | projects/dhcp/src/dhcp.c:42-87 | the network, the gateway and the broadcast host are taken from the start, and no other |
| `Dhcp.Dhcp.constructor` | projects/dhcp/src/dhcp.c:42-87 | nothing is held at the start |
| `Dhcp.Dhcp.AllocateNextAvailable` | projects/dhcp/src/dhcp.c:264-276 | the first free candidate of the search for the lowest host that may be handed out; NO_IP_AVAILABLE if and only if all of them are taken |
| `Dhcp.Dhcp.ChooseNamed` | projects/dhcp/src/dhcp.c:122-131 | for a host that is named: SUCCESS if and only if it is free; else what the trie gave is wasted and the lowest allocatable host is searched for; NO_IP_AVAILABLE if and only if one of the two searches has only taken candidates |
| `Dhcp.Dhcp.ChooseHost` | projects/dhcp/src/dhcp.c:113-131 | the same, told by the bytes of the request: 0.0.0.0 and reserved hosts name no host |
| `Dhcp.Dhcp.Deliver` | projects/dhcp/src/dhcp.c:133-136 | the address of the host picked has the configured prefix, was not held and is held now |
| `Dhcp.Dhcp.DHCPAllocateIP` | projects/dhcp/src/dhcp.c:98-139 | never hands out an address that is held or reserved, always with the configured prefix; from the bytes of the request: a host that is neither reserved nor taken is given with SUCCESS, an address of the network as it was asked for; 0.0.0.0 and the reserved hosts take one host at most and a taken host gets no SUCCESS; NO_IP_AVAILABLE if and only if the candidates searched are all taken |
| `Dhcp.OutcomeServes` | projects/dhcp/src/dhcp.c:98-139 | what the outcome means for the caller, from the bytes of the request |
| `Dhcp.SameNumber` | projects/dhcp/src/dhcp.c:175-232 | an address is determined by its network and its host |
| `Dhcp.FewCandidates` | projects/dhcp/src/dhcp.c:264-276 | of the candidates for a request without a host at most depth - 1 are not reserved, whatever was handed out before |
| `Dhcp.ZeroRequestsRunDry` | projects/dhcp/src/dhcp.c:264-276 | so a fresh manager answers requests for 0.0.0.0 with at most depth - 1 of its 2^depth - 3 hosts, and refuses after depth requests |
| `Dhcp.ThirdRequestRefused` | projects/dhcp/src/dhcp.c:98-139 | on a manager fresh from its constructor with three host bits the third request for 0.0.0.0 gets NO_IP_AVAILABLE while 3, 4 and 5 are free |
| `Dhcp.Dhcp.DHCPFreeIP` | projects/dhcp/src/dhcp.c:141-160 | SUCCESS if and only if the host was taken and is not reserved, and then exactly it becomes free; DOUBLE_FREE and IP_NOT_FOUND tell whether it was ever handed out |
| `Avl.RebalanceKeeps` | ds/src/avl.c:434-457 | rotations keep the sequence of keys and exact heights |
| `Avl.RebalanceBalances` | ds/src/avl.c:434-457 | a node off balance by at most two is set right and loses at most one level |
| `Avl.InsertKeeps` | ds/src/avl.c:216-242 | on any ordered tree with exact heights the key goes where it belongs and heights stay exact |
| `Avl.InsertBalances` | ds/src/avl.c:216-242 | insertion keeps balance and raises the height by at most one |
| `Avl.BuiltMeaning` | ds/src/avl.c:216-242 | every run of insertions of distinct keys gives an ordered, balanced tree with exact heights and exactly those keys |
| `Avl.HeightBound` | ds/src/avl.c:391-457 | a balanced tree of height h has at least Fib(h + 2) - 1 nodes |
| `Avl.PopMinKeeps` | ds/src/avl.c:288-308 | the least key comes out, the others stay in order, heights stay exact |
| `Avl.PopMinBalanced` | ds/src/avl.c:288-308 | popping the least key without rebalancing keeps balance if and only if a condition on the left spine holds |
| `Avl.RemoveKeeps` | ds/src/avl.c:244-286 | on any ordered tree with exact heights exactly the matching key goes, and heights stay exact |
| `Avl.RemoveBalancedIff` | ds/src/avl.c:244-308 | removal from a balanced tree leaves a balanced one if and only if the node removed, when it has two children, meets that condition |
| `Avl.RemovalCanUnbalance` | ds/src/avl.c:288-308 | a family of balanced trees whose root cannot be removed without losing balance |
| `Avl.LopsidedBuilt` | ds/src/avl.c:216-242 | these trees come from seven insertions into the empty one |
| `Avl.RemoveAbsentIff` | ds/src/avl.c:244-286 | removing an absent key leaves the tree as it is if and only if the search path is in balance |
| `Avl.FindIsMembership` | ds/src/avl.c:163-186 | the search finds exactly the keys in the tree |
| `AvlNodes.RotateLeftAt` | ds/src/avl.c:406-418 | relinking the nodes is the rotation of the tree they make up, with the same nodes |
| `AvlNodes.RotateRightAt` | ds/src/avl.c:420-432 | relinking the nodes is the rotation of the tree they make up, with the same nodes |
| `AvlNodes.RebalanceAt` | ds/src/avl.c:434-457 | the nodes stay the same and make up the rebalanced tree |
| `AvlNodes.Settle` | ds/src/avl.c:240-241 | correcting the height and then the balance gives the rebalanced tree of the same nodes |
| `AvlNodes.InsertRec` | ds/src/avl.c:216-242 | the nodes and one fresh one make up the tree after insertion |
| `AvlNodes.PopMinRec` | ds/src/avl.c:288-308 | the least node is unlinked, the others make up the rest |
| `AvlNodes.RemoveRec` | ds/src/avl.c:244-286 | the nodes left make up the tree after removal |
| `AvlNodes.FindRec` | ds/src/avl.c:163-186 | a node with that key exactly if there is one |
| `AvlNodes.AvlTree.AVLInsert` | ds/src/avl.c:96-106 | the key and no other joins the keys, which ascend; balance is kept |
| `AvlNodes.AvlTree.AVLRemove` | ds/src/avl.c:108-114 | the key and no other leaves the keys, which ascend; balance is kept exactly under the removal condition |
| `AvlNodes.AvlTree.AVLFind` | ds/src/avl.c:141-147 | membership |
| `AvlNodes.AvlTree.AVLHeight` | ds/src/avl.c:116-121 | the height of the tree, which for a balanced tree is logarithmic in its keys |
| `BstShape.Locate` | ds/src/bst.c:318-341 | every node of the tree is the root of a subtree at a place with all nodes before it on one side and all behind it on the other |
| `BstShape.Graft` | ds/src/bst.c:413-420 | linking a subtree at a place makes it the subtree there; only the two linked cells change, and no data |
| `BstPlaces.ClimbTest` | ds/src/bst.c:335-340 | the test of the climbing loop tells on which side a node hangs, the stub included |
| `BstPlaces.ClimbEnds` | ds/src/bst.c:335-340 | where the climb ends the parent is the neighbour in order, or the end |
| `BstPlaces.StepFrom` | ds/src/bst.c:318-341 | a step starts with a subtree on that side, whose outermost node is the neighbour, or else with a climb |
| `BstPlaces.Descend` | ds/src/bst.c:145-160 | following the comparison keeps all smaller keys before the place and all larger ones behind it |
| `BstRemoval.ReplacesAtPlace` | ds/src/bst.c:422-435 | the replacement goes to the side on which the old node hung, also below the stub |
| `BstRemoval.CutOne` | ds/src/bst.c:187-199 | a node with at most one child is replaced by it and all other nodes stay in order |
| `BstRemoval.CutMin` | ds/src/bst.c:201-207 | the least node of a subtree has no left child and is cut out of its place |
| `BstRemoval.SuccessorReady` | ds/src/bst.c:201-211 | after the relinking of a two-child removal, next to the node or further down, the memory is a whole tree in which the successor stands for the removed node |
| `Bst.BST.constructor` | ds/src/bst.c:52-72 | the empty tree, whose begin is its end |
| `Bst.BST.Outermost` | ds/src/bst.c:437-453 | Leftmost and Rightmost: the first and the last node of a subtree in order |
| `Bst.BST.StepInOrder` | ds/src/bst.c:318-341 | the neighbour in order on either side, for every node and the end |
| `Bst.BST.Climb` | ds/src/bst.c:335-340 | the climbing loop ends at the neighbour |
| `Bst.BST.BSTBegin` | ds/src/bst.c:233-242 | the first iterator, the end for an empty tree |
| `Bst.BST.BSTNext` | ds/src/bst.c:258-263 | the next iterator in ascending order, at last the end |
| `Bst.BST.BSTPrev` | ds/src/bst.c:251-256 | the one before, so that it undoes BSTNext |
| `Bst.BST.BSTForEach` | ds/src/bst.c:292-314 | from any iterator to any later one it visits exactly the keys in between, strictly ascending, and stops early exactly where an action answers non-zero, with that answer |
| `Bst.BST.BSTFind` | ds/src/bst.c:276-290 | a node with that key, or the end exactly if there is none |
| `Bst.BST.DescendToLeaf` | ds/src/bst.c:145-160 | the empty link where the key belongs |
| `Bst.BST.BSTInsert` | ds/src/bst.c:119-174 | the new node is inserted in the ascending sequence, every other node keeps its data and its relative place |
| `Bst.BST.ReplaceBySuccessor` | ds/src/bst.c:201-211 | the successor takes the place of a node with two children; the order of all others is kept |
| `Bst.BST.Unlink` | ds/src/bst.c:177-213 | in each of the three cases the tree loses exactly that node |
| `Bst.BST.BSTRemove` | ds/src/bst.c:177-214 | exactly that element leaves the sequence; every other node keeps its address and data, so that iterators to it stay valid |
| `CountingByKey.GatheredPermutes` | projects/sorting/src/linear_sorting.c:56-70 | gathering by key loses and makes up nothing |
| `CountingByKey.GatheredSorted` | projects/sorting/src/linear_sorting.c:124-148 | gathering a sequence sorted by one rank sorts it by the key and then by that rank, which is what stability is for |
| `CountingByKey.CountKeys` | projects/sorting/src/linear_sorting.c:56-59 | the number of elements of each key |
| `CountingByKey.AccumulateCounts` | projects/sorting/src/linear_sorting.c:61-64 | the running sums |
| `CountingByKey.Distribute` | projects/sorting/src/linear_sorting.c:66-70 | from the last element to the first, each goes to its place: the result is the buckets one after the other, each in its order |
| `CountingByKey.SortByKey` | projects/sorting/src/linear_sorting.c:56-75 | all loops together gather the array by key, stably |
| `LinearSorting.MinAndMax` | projects/sorting/src/linear_sorting.c:30-42 | least and greatest element |
| `LinearSorting.CountingSort` | projects/sorting/src/linear_sorting.c:19-80 | a sorted permutation, for every non-empty array |
| `LinearSorting.ModStep` | projects/sorting/src/linear_sorting.c:126-140 | the digit and the lower digits make up the remainder by the next power of ten |
| `LinearSorting.PassSorts` | projects/sorting/src/linear_sorting.c:112-152 | a stable pass over an array sorted by its lower digits sorts it by one digit more |
| `LinearSorting.CountingSortDigit` | projects/sorting/src/linear_sorting.c:112-152 | the pass does so in place, as a permutation, and stably |
| `LinearSorting.GetMax` | projects/sorting/src/linear_sorting.c:96-110 | the greatest element |
| `LinearSorting.RadixSort` | projects/sorting/src/linear_sorting.c:82-94 | a sorted permutation for every non-empty array of values from 0 below 10^9, with exp never above 10^9 |
| `MergingWords.CompareTransitive` | projects/sorting/src/mt_q_sort.c:265-277 | the order of words is transitive |
| `MergingWords.CompareMeaning` | projects/sorting/src/mt_q_sort.c:265-277 | a word is not behind another exactly if they agree up to where the first ends or has the smaller byte |
| `MergingWords.MergedSorted` | projects/sorting/src/mt_q_sort.c:294-344 | merging two sorted parts gives a sorted one |
| `MergingWords.MergedPermutes` | projects/sorting/src/mt_q_sort.c:294-344 | with exactly their words |
| `MergingWords.MergeInto` | projects/sorting/src/mt_q_sort.c:311-336 | the loops of Merge fill the buffer with the merge |
| `MergingWords.Merge` | projects/sorting/src/mt_q_sort.c:294-344 | the two parts are replaced by their merge and nothing else changes |
| `MergingWords.RoundSorts` | projects/sorting/src/mt_q_sort.c:362-373 | a round turns sorted blocks into sorted blocks of twice the length, the last one perhaps shorter |
| `MergingWords.RoundsSort` | projects/sorting/src/mt_q_sort.c:362-373 | all rounds together give a sorted permutation |
| `MergingWords.ChunksAreBlocks` | projects/sorting/src/mt_q_sort.c:346-374 | cutting the longer last chunk at multiples of the chunk size leaves sorted blocks |
| `MergingWords.MergeNeighbours` | projects/sorting/src/mt_q_sort.c:364-371 | the inner loop is one round |
| `MergingWords.MergeSortedParts` | projects/sorting/src/mt_q_sort.c:346-374 | from sorted chunks to a sorted permutation, for every length not below the number of threads |
| `ParallelSort.ChunksPartition` | projects/sorting/src/mt_q_sort.c:55-64 | every index belongs to one chunk and only one |
| `ParallelSort.StepInv` | projects/sorting/src/mt_q_sort.c:279-292 | a write of one thread touches no chunk of another: given chunks, untouched chunks and finished chunks stay as they are |
| `ParallelSort.RunInv` | projects/sorting/src/mt_q_sort.c:57-79 | this holds along every interleaving of creating, writing and returning threads |
| `ParallelSort.JoinedChunks` | projects/sorting/src/mt_q_sort.c:55-79 | after the last join, whatever the interleaving, the chunks are sorted and no word is lost |
| `ParallelSort.MTQuickSort` | projects/sorting/src/mt_q_sort.c:31-85 | for every interleaving and every length not below the number of threads, a permutation whose texts are in the order of their bytes |
| `ParallelSort.MergingEndsIff` | projects/sorting/src/mt_q_sort.c:346-374 | the merging loops end if and only if there are no more threads than words |
| `Vectors.Vector.constructor` | ds/src/vector.c:25-51 | an empty array with at least the default capacity |
| `Vectors.Vector.VectorReserve` | ds/src/vector.c:123-141 | the elements that fit move to a buffer of the new capacity, never below the default; the contents are kept if and only if the size fits |
| `Vectors.Vector.VectorPushBack` | ds/src/vector.c:62-81 | appends; grows when full; the size stays within the capacity |
| `Vectors.Vector.VectorPopBack` | ds/src/vector.c:84-99 | drops the last element; the capacity is halved, down to the default, exactly if the array was a quarter full; the size stays within it |
| `Heaps.RootIsLargest` | ds/src/heap.c:66-72 | heap order makes the root a largest element |
| `Heaps.UpStep` | ds/src/heap.c:188-210 | one swap upwards keeps the order but for one place, one level higher |
| `Heaps.DownStep` | ds/src/heap.c:212-231 | one swap with the larger child keeps the order but for one place, one level lower |
| `Heaps.ReplacedOrder` | ds/src/heap.c:127-148 | whatever element comes to the place of a removed one, one direction is enough to restore the order |
| `Heaps.Heap.constructor` | ds/src/heap.c:34-55 | an empty heap |
| `Heaps.Heap.HeapifyUp` | ds/src/heap.c:188-210 | restores heap order as a permutation |
| `Heaps.Heap.LargerChild` | ds/src/heap.c:233-258 | a child not smaller than the other |
| `Heaps.Heap.HeapifyDown` | ds/src/heap.c:212-231 | restores heap order as a permutation |
| `Heaps.Heap.HeapPeek` | ds/src/heap.c:66-72 | an element that no other exceeds |
| `Heaps.Heap.HeapPush` | ds/src/heap.c:74-89 | heap order is kept and exactly the element is added |
| `Heaps.Heap.HeapPop` | ds/src/heap.c:91-107 | heap order is kept and exactly the element that HeapPeek shows is removed |
| `Heaps.Heap.RemoveAt` | ds/src/heap.c:127-150 | heap order is kept and exactly that element is removed |
| `Heaps.Heap.HeapRemove` | ds/src/heap.c:109-156 | the first element in array order for which is_match answers 0 is removed, or none exactly if there is none |
| `Heaps.PQ.constructor` | ds/src/pq.c:19-39 | an empty queue |
| `Heaps.PQ.PQEnqueue` | ds/src/pq.c:52-57 | exactly the element is added |
| `Heaps.PQ.PQDequeue` | ds/src/pq.c:59-70 | an element that no other exceeds leaves |
| `Heaps.PQ.PQClear` | ds/src/pq.c:93-101 | draining takes out a non-increasing permutation of the contents |
| `Scheduler.ExactlyOnePlace` | projects/sched/src/sched.c:60-106 | every task ever added is exactly one of queued, running or destroyed, and destroyed only once |
| `Scheduler.PutInBalances` | projects/sched/src/sched.c:115-137 | adding a new task and queueing the running one again keep that |
| `Scheduler.TakeOutBalances` | projects/sched/src/sched.c:163-175 | taking a task out to run or to destroy it keeps that |
| `Scheduler.DestroyRunningBalances` | projects/sched/src/task.c:57-64 | destroying the running task keeps that |
| `Scheduler.WrapperOrders` | projects/sched/src/sched.c:184-187 | with its arguments swapped the comparison of due times orders the heap, earliest first |
| `Scheduler.Sched.constructor` | projects/sched/src/sched.c:28-48 | no task anywhere |
| `Scheduler.Sched.SchedAdd` | projects/sched/src/sched.c:115-137 | a fresh task is queued, due the interval after the clock reading |
| `Scheduler.Sched.SchedStop` | projects/sched/src/sched.c:108-113 | sets the flag |
| `Scheduler.Sched.SchedClear` | projects/sched/src/sched.c:163-175 | every queued task is destroyed and a running one is not |
| `Scheduler.Sched.SchedRemove` | projects/sched/src/sched.c:139-154 | another task than the one asked for is removed and destroyed, and 1 is answered exactly if no other one is queued |
| `Scheduler.Sched.TakeEarliest` | projects/sched/src/sched.c:72-73 | no task left in the heap is due earlier |
| `Scheduler.Sched.WaitUntil` | projects/sched/src/sched.c:76-80 | however often the sleep is interrupted, the clock has reached the due time afterwards |
| `Scheduler.Sched.TaskRun` | projects/sched/src/task.c:73-78 | whatever a task adds, clears or stops, the accounting holds |
| `Scheduler.Sched.Requeue` | projects/sched/src/task.c:87-92 | the task is queued again, due the interval after the clock reading |
| `Scheduler.Sched.RunEarliest` | projects/sched/src/sched.c:71-82 | a task due first runs, never before it is due |
| `Scheduler.Sched.Settle` | projects/sched/src/sched.c:84-102 | a task that returned n > 0 is in the heap again, due n after the clock reading; else it is destroyed |
| `Scheduler.Sched.Turn` | projects/sched/src/sched.c:69-103 | one turn of the loop keeps the accounting and the order of all runs; the heap afterwards is what the task left, and the task itself with its new time if it is to run again |
| `Scheduler.OneMoreTold` | projects/sched/src/sched.c:69-103 | each turn starts from the heap that the one before has left, and none follows one that had the scheduler stop |
| `Scheduler.Sched.SchedRun` | projects/sched/src/sched.c:60-106 | over any number of turns every run was due and earliest in the heap, each begins with what the one before has left, and none comes after the flag was set; the run has ended exactly if the flag is set or the heap is empty, and else has made all the turns; the status tells exactly whether some task failed and whether the heap is empty |
| `LinkedList.SList.constructor` | ds/src/sll.c:35-63 | the empty list: a dummy that knows its list |
| `LinkedList.SLLInsert` | ds/src/sll.c:119-146 | the element is put in at the iterator; the node of the iterator holds it and a fresh node comes behind it, the new tail at the end |
| `LinkedList.SLLRemove` | ds/src/sll.c:149-165 | the element at the iterator leaves; its node stays and the node behind it goes, the tail moving when that was the last |
| `ListMemory.ChainedSpells` | ds/src/sll.c:119-165 | walking from any node of a linked chain to the dummy passes exactly the items from there on |
| `ListMemory.WriteEnd` | ds/src/sll.c:137-137 | hooking the new node behind the last one leaves the chain of nodes before it as it was |
| `ListMemory.WriteLast` | ds/src/sll.c:138-138 | writing the item into the last node makes the hooked node, a copy of the dummy, the new end of the list |
| `ListMemory.CopyData` | ds/src/sll.c:154-154 | copying the data of the second node into the first changes no other node |
| `ListMemory.CopyNext` | ds/src/sll.c:155-155 | taking over its link takes the second node out of the list and keeps the rest |
| `BoundedQueue.StepInv` | system_programming/src/producer_consumer/fsq.c:68-126 | every step keeps the locks, the permits and the list in memory: whatever writes are under way, the nodes from the head to the dummy carry the items inserted and not yet removed |
| `BoundedQueue.RunInv` | system_programming/src/producer_consumer/fsq.c:68-126 | along every interleaving |
| `BoundedQueue.PermitsConserved` | system_programming/src/producer_consumer/fsq.c:68-126 | enqueue_sem + dequeue_sem + threads between wait and post is the capacity, in every reachable state |
| `BoundedQueue.ListBounded` | system_programming/src/producer_consumer/fsq.c:68-90 | the list exceeds the capacity at most by the lost items, and exactly when these exceed the free slots |
| `BoundedQueue.InOrder` | system_programming/src/producer_consumer/fsq.c:68-126 | in every reachable state what dequeuers read at the head is a prefix of what was inserted, and walking the memory from the head passes exactly the rest |
| `BoundedQueue.ReadsFirst` | system_programming/src/producer_consumer/fsq.c:112-113 | the data that a dequeuer finds at the head is the oldest item not yet removed |
| `BoundedQueue.NeverFaults` | system_programming/src/producer_consumer/fsq.c:68-126 | whoever holds a lock touches only live nodes: no read or write of a freed node; a reader finds an element and a writer the last node at the tail |
| `BoundedQueue.DisjointNodes` | system_programming/src/producer_consumer/fsq.c:68-126 | two threads in their critical sections work on different nodes |
| `BoundedQueue.DisjointFromWriter` | system_programming/src/producer_consumer/fsq.c:93-126 | and a reader beside a writer is one that does not hold the write lock |
| `BoundedQueue.NotStuck` | system_programming/src/producer_consumer/fsq.c:68-126 | while some thread is between its wait and its post, such a thread can go on |
| `BoundedQueue.StuckIff` | system_programming/src/producer_consumer/fsq.c:68-126 | all threads wait for ever if and only if all want to add to a full queue or all want to take from an empty one |
| `BoundedQueueAnswers.ReturnedAsTaken` | system_programming/src/producer_consumer/fsq.c:110-125 | in every reachable state what was taken out of the list has been returned by FSQDequeue as it was, or is in the hands of a thread on its way |
| `BoundedQueueAnswers.InsertedAsOffered` | system_programming/src/producer_consumer/fsq.c:68-80 | and what was handed to FSQEnqueue has been inserted as it was, or is in the hands of a thread |
| `BoundedQueueAnswers.ReachableHoldsLast` | system_programming/src/producer_consumer/fsq.c:112-121 | while a dequeuer still holds the read lock after the cut, the item in its hands is the last one taken out |
| `BoundedQueueAnswers.SingleIff` | system_programming/src/producer_consumer/fsq.c:105-110 | a dequeuer takes the write lock, too, exactly if it finds one item in the list, or two while the tail is about to be moved behind the second |
| `BoundedQueueAnswers.ReturnedInOrder` | system_programming/src/producer_consumer/fsq.c:93-126 | with one dequeuer, what FSQDequeue has returned is a prefix of what was inserted |
| `BoundedQueueAnswers.AllIdle` | system_programming/src/producer_consumer/fsq.c:68-126 | when no call is under way every item handed in is answered for, the failures answered are exactly the lost items, and what was returned is a permutation of the front of what was inserted |
| `BoundedQueueLoss.NothingLost` | system_programming/src/producer_consumer/fsq.c:68-90 | as long as malloc hands out no node that an enqueuer still remembers, no enqueue fails and the list stays within the capacity |
| `BoundedQueueLoss.ReuseLoses` | system_programming/src/producer_consumer/fsq.c:82-86 | and wherever it does, the remembering enqueuer can come next and report failure though its item is in the list |
| `BoundedQueueLoss.InsertAlone` | ds/src/sll.c:119-146 | the writes of an insertion without interruption lead to the list with the item at its end |
| `BoundedQueueLoss.RemoveAlone` | ds/src/sll.c:149-165 | the writes of a removal without interruption lead to the list without its first item, its node kept and the second one freed |
| `BoundedQueueLoss.ListOutgrowsCapacity` | system_programming/src/producer_consumer/fsq.c:82-86 | a run with three threads and capacity two, from the start, that ends with three items in the list |

## Left out

- Failing memory allocation and failing thread creation, in all parts.
- Floating point: numbers, the five operations, their errors and `strtod` are parameters of the calculator; `strtod` is assumed to consume at least one character and to stay within the text.
- Semaphore bounds (INT_MAX) and exceptions in the thread pool; several controllers calling at once; tasks that never return.
- The allocator's arithmetic near SIZE_MAX, where a request plus the header size would wrap; payload bytes are whole words.
- Dhcp.Dhcp.constructor: masks 0 and 1, which the assertions of DHCPCreate let through: the broadcast host is then computed by shifting a signed 1 by 31 or 32 places, which C leaves undefined.
- DHCPCountFree, which subtracts the reserved hosts twice; addresses of another network given to DHCPFreeIP are taken by their host bits, as in the code.
- AVL traversal orders, AVLCount and AVLDestroy; BSTDestroy, BSTSize and BSTIsEmpty.
- Bst.BST: the nodes are cells in a map from addresses, not Dafny objects; BSTPrev at the beginning and BSTNext at the end are excluded, as by the assertions of the code.
- BSTForEach: the action does not change the tree, and `to` does not come before `from`, where the code would run past the end.
- Radix sort of negative values or of values from 10^9 on, for which the code indexes out of bounds or overflows; counting sort of an empty array, which reads its first element.
- ParallelSort.MTQuickSort: the threads' part enters as the run between the first creation and the last join, with qsort's own promise for each thread; the merging is the program's.
- Heap.HeapRemove and PQErase through a match function with side effects.
- Scheduler.Sched.SchedRun: the first `turns` turns of a loop that need not end; sleep is interrupted finitely often; cleanup functions do not call the scheduler; time_t does not overflow.
- FSQIsEmpty, FSQSize and FSQPeek, which read the list under the read lock alone; SLLAppend, SLLFind and SLLForEach.
- BoundedQueue: a step does at most one write to the shared memory, together with the reads that go into it; the two reads of the test for a single element are one step. Weak memory is not modelled.
- The rest of the repository: sorts.c, bit arrays, the watchdog, ext2 reader, sockets, shell, reactor, logger, the bank project and the exercises, which are system calls, user interface or small pieces.
