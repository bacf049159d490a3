# Verified models of the engine's stateful kernels

This project models seven kernels of a Go entity-component engine and proves what they are
for. `dafny verify dfyconfig.toml` checks all of it.

1. **Work-stealing tasks** (`Ring`, `Deque*`, `Scope`, `Progress`, `Int64`,
   `Strides`, `Dispatch`, `ForBatched`, `ChunkMap`, `Fork`, `Returns`, `Joined`).
   The Chase-Lev deque is a transition system with one step per atomic load, store or
   compare-and-swap, under the sequential consistency the program relies on: one owner, any
   number of thieves, growable rings that stay readable after they are replaced, and cells
   that are recycled through a pool which may hand out any free cell. RunScope runs on
   top of that same system, and ForBatched and ParChunkMap are their children interleaved
   with it, in 64-bit integers that wrap.
2. **Archetype storage** (`Bits`, `Layout`, `Geometry`, `TableSpec`, `Table`, `Ticks`).
   A chunked struct-of-arrays table over byte arrays refines a sequence of rows.
3. **Graphs** (`Graphs`, `Dfs`, `Includes`, `VisualGraph`, `Meaning`, `Interpreter`, `Topo`,
   `RenderGraph`, `Required`, `Leftover`, `Registration`). The three-colour search, the
   visual-graph interpreter against recursion without a memo, the render graph's sort, and
   the required-component resolver that reads a registry while filling it, panics recovered
   from included.
4. **Event streams** (`Streams`, `EventBus`, `Channel`). Both refine windows over one
   append-only log.
5. **Entity allocator** (`Entities`, `Allocator`, `AllocatorHistory`), restore path included.
6. **Scene codec** (`SceneCodec`, `SceneBinary`, `SceneAccepts`).
7. **Sets** (`SparseSpec`, `SparseSet`, `EntitySet`).

Objects the program updates in place are classes; each method is proved against a function
of the old state, and the lemmas are about those functions. Algorithms whose order of steps is
chosen by a scheduler are state machines, and their theorems quantify over all runs. The runs
of the event streams are tied to the classes: each method does to its fields what the step of
that name does to the state of a run.

Where the code and its own comments part, the model follows the code:

- The cycle error of the render graph is said to name the passes that participate. It names
  the passes on or downstream of a cycle (`RenderGraph.Build`, `NamedOnCyclesIff`,
  `NamesABystander`), or, when a pass reads its own output, that pass alone.
- `ForBatched` gives `fn` nothing at all when len(items) + batchSize - 1 does not fit in 64
  bits (`ForBatchedIsExactIff`, `HugeBatchDropsEverything`).
- On slices longer than 2^48, which only elements of size zero allow, sums can wrap elsewhere:
  a claim of `ForBatched` (`ClaimCanWrap`), the loop of `ParChunkMap`
  (`ParChunkMapIsMapIff`) and the chunk size of `ParSplatMap` (`SplatWithinTasksIff`).
- A registration that panics leaves types half registered. Once the panic is recovered from,
  registering one of them, or a type that requires one, succeeds though the requirements are
  circular (`RightIff`, `Registration.RegisterType`, `CircleTwice`).
- A generation that wraps makes a slot issue handles again (`FreeKeepsIff`, `WrapReissues`),
  and `PlaceAt` does not return for index 2^32 - 1 (`PaddingEndsIff`).
- `IsAlive` and `Free` take the next handle of a free slot for a live one (`AliveIff`,
  `FreeKeepsDistinctIff`, `ForgedFree`): the promises hold for handles the allocator issued.
- `SparseSet.Add` appends a second row when an older generation of the slot is still there
  (`AddKeepsLinkedIff`, `OlderIsOrphaned`): the older one must be removed first.
- `Table.AddRow` counts a row before it looks at the values, so a panic over a value leaves a
  row without tick slots (`Table.AddRow`).
- After 2^32 registrations a message channel hands out the IDs of live readers (`TakenOver`).
- The binary scene format cuts indices to 32 bits, so round trips hold exactly for indices in
  range (`RoundTripIff`, `WideIndicesAreCut`). It accepts version 0, which nothing writes.

What callers must respect, as preconditions: columns have distinct IDs, power-of-two
alignments and sizes that are multiples of them; indices of cells are in range, and
SetCell is given a value of its column, the program panicking otherwise; a value of a column's
type has that column's size; a table row fits in a chunk;
Spawn is called by the scope's owner; node behaviours are functions of their arguments; a
message consumer does not write to the channel it reads; the allocator stays below 2^32 slots.
JSON encoding and decoding of a property value are parameters, and the round trip assumes
that decoding undoes encoding on the values of the scene.

## Model

| member | source | states |
|---|---|---|
| `Ring.CircArray.Grow` | pkg/task/deque.go:59-69 | The doubled ring holds, slot for slot, what copying the live range one logical index at a time into an empty ring gives; the old ring is untouched. |
| `Ring.CopiedReads` | pkg/task/deque.go:59-69 | Every logical index of a copied range that fits in the new ring reads back as in the old one, though the indices wrap at a different size. |
| `Arith.SlotsDiffer` | pkg/task/deque.go:55-56 | Two logical indices less than one ring size apart never share a slot. |
| `Ring.SlotIsMask` | pkg/task/deque.go:55-56 | In a ring of a power-of-two size the slot, `i & mask`, is the remainder of the index. |
| `DequeSafety.StepKeepsSafe` | pkg/task/deque.go:91-142 | Every single atomic load, store or compare-and-swap of the owner or of a thief keeps: no nil is dereferenced, each live index has its own cell, each cell has one holder, and what a thief has read is still true while `top` has not moved. |
| `DequeHistory.StepLinearized` | pkg/task/deque.go:91-142 | Every single atomic step extends a history of abstract push, pop and steal operations that a sequential deque accepts and that ends in the contents of [top, bottom). |
| `DequeHistory.RunsAreLinearizable` | pkg/task/deque.go:77-142 | The two invariants above hold in every state of every run, for any number of thieves and any interleaving. |
| `DequeConservation.EveryRun` | pkg/task/deque.go:71-142 | In every run: no crash; the history is a legal sequential one (owner last-in-first-out, thieves first-in-first-out) that ends in the contents; each agent gets back exactly what its own operations took, in order; and as bags, tasks pushed = tasks returned + tasks held by one winner + tasks live + the task being pushed. |
| `DequeConservation.ReplayConserves` | pkg/task/deque.go:104-142 | A legal sequential history neither loses nor duplicates: what was pushed is what was taken plus what is left. |
| `DequeReasons.WinnerHasTheCell` | pkg/task/deque.go:129-142 | A thief whose compare-and-swap is going to succeed holds the cell now live at that logical index, whichever ring it read it from and however often cells were recycled since. |
| `DequeAnswers.StealEmptyReason` | pkg/task/deque.go:131-135 | A thief whose step ends its steal before the compare-and-swap, that is with the answer empty, does so only when at most one task is left, and when one is, only because the owner is in the middle of popping it. |
| `DequeAnswers.StealLostReason` | pkg/task/deque.go:138-140 | In every run a thief whose compare-and-swap ends its steal without a task lost it to an operation that took the very task it was after: the history holds the steal, or the pop of the last task, of that logical index. |
| `DequeAnswers.StealTakes` | pkg/task/deque.go:129-142 | From every reachable state with a task the owner is not about to take, whatever the other thieves are in the middle of, any thief left alone is handed the oldest task, after what it may hold already. |
| `DequeAnswers.PushAppends` | pkg/task/deque.go:91-102 | From every reachable state with the owner between operations, a push left alone ends with its task last in the deque, having grown the ring when it had to, and hands nothing over. |
| `DequeAnswers.PopTakesNewest` | pkg/task/deque.go:104-127 | From every such state a pop left alone is handed the newest task, or nothing exactly when the deque is empty. |
| `DequeAnswers.PopsAreAnswered` | pkg/task/deque.go:104-127 | In every run each pop begun has taken effect exactly once, by taking the newest task or by finding the deque empty, unless it is the one in progress. |
| `DequeReasons.PublishedIsGrown` | pkg/task/deque.go:96-99 | In every run, thieves stealing during the copy included, the ring a push publishes is twice the old one with the range from the top it read up to bottom copied, as `grow` returns it. |
| `Scope.NextOk` | pkg/task/scope.go:26-54 | Every step of the owner, of a stealing worker, of Spawn and of a finishing child keeps the books: children begun = finished + held, running, queued or being pushed, on top of the step-by-step deque. |
| `Scope.NothingPending` | pkg/task/scope.go:33-41 | Whenever `pending` reads zero or less between spawns, every child begun has finished, the deque is empty, and nobody holds or runs a child. |
| `Scope.JoinIsComplete` | pkg/task/scope.go:26-42 | In every interleaving `pending` is begun minus finished, and once RunScope has returned every child has finished exactly once and the deque is empty. |
| `Progress.OwnerReturns` | pkg/task/scope.go:14-16 | From every reachable state in which the scope joins and no worker has a child, the steps of the owner alone, draining its own deque and running what it finds, lead to the return: it cannot deadlock on its own scope. |
| `Progress.OwnerCannotStray` | pkg/task/scope.go:26-42 | In such a state every sequence of owner steps is bounded by a number the state gives, and as long as the owner has not returned it has a next step. |
| `Progress.JoinCanEnd` | pkg/task/scope.go:26-42 | From every reachable joining state, workers in the middle of a steal or of a child included, some continuation returns: the workers finish what they have, then the owner drains the rest. |
| `Returns.WorkerTakes` | pkg/task/scope.go:12-14 | From every reachable state a worker that has no child takes the oldest one by its own steps, unless the deque is empty or the owner is about to take its last child. |
| `Returns.CanReturn` | pkg/task/scope.go:26-54 | No interleaving of the steps of a scope with those of its children leads to a state from which RunScope cannot return, as long as each child can be brought to its end. |
| `ChunkMap.Cut` | pkg/task/scope.go:68-76 | The spawning loop creates exactly the strides that cover the input, the last one cut short; when the last sum wraps around 64 bits, one more chunk with a negative start comes after them. |
| `Fork.AllDone` | pkg/task/scope.go:26-54 | Whatever the children of a scope do, once RunScope has returned, in any interleaving of its steps with theirs, each has reached its end, and their joint effect is that of their own steps in the same order. |
| `Joined.ParChunkMapIsMapIff` | pkg/task/scope.go:59-79 | When ParChunkMap returns, whatever the pool, the deque and the interleaving of elements and scheduling steps, its output is the sequential map of the function over the input, and nothing was indexed out of range, if and only if the first multiple of the chunk size at or above the length fits in 64 bits; of elements that take up memory it always does. |
| `Joined.ParChunkMapCanReturn` | pkg/task/scope.go:59-79 | When no sum wraps, no interleaving leads to a state from which ParChunkMap cannot return. |
| `ChunkMap.SplatWithinTasksIff` | pkg/task/scope.go:83-95 | ParSplatMap creates at most maxTasks chunks (one when maxTasks is less), although it rounds up twice, if and only if the sum in its own division fits in 64 bits or there are no more elements than tasks. |
| `ChunkMap.SplatIsLeast` | pkg/task/scope.go:92-94 | Without a wrap the chunk size is the least at which that many chunks hold all elements, for min(max(maxTasks, 1), n) chunks. |
| `Joined.ForBatchedIsExactIff` | pkg/task/dispatch.go:13-42 | When ForBatched returns, in any interleaving, the batches given to `fn` are the strides covering [0, n), each once, every item is in exactly one of them and nothing is sliced out of range, if and only if neither the sum in the batch count nor the cursor of a claim passes 2^63 - 1; of elements that take up memory, if and only if n + batchSize - 1 does not. When only a claim passes it, ForBatched never returns. |
| `Joined.ForBatchedCanReturn` | pkg/task/dispatch.go:13-42 | When neither does, or the batch count is not positive, no interleaving leads to a state from which ForBatched cannot return. |
| `ForBatched.RunnersAre` | pkg/task/dispatch.go:22-27 | As many runners are spawned as there are workers, at least one, but no more than batches. |
| `ForBatched.EveryItemOnceIff` | pkg/task/dispatch.go:22-41 | The same of the claim loop once its runners have stopped; when the sum wraps there is no runner and nothing is given to `fn`, and when only a claim does they never all stop, the runner that sliced at a negative start having panicked. |
| `ForBatched.BatchesIff` | pkg/task/dispatch.go:24 | The 64-bit count is the number of strides that cover n items exactly when its sum does not wrap, and is otherwise zero or negative. |
| `ForBatched.HugeBatchDropsEverything` | pkg/task/dispatch.go:24-28 | Two items and the largest batch size: no runner is spawned and nothing is given to `fn`. |
| `ForBatched.CursorBounded` | pkg/task/dispatch.go:28-38 | At every moment of every interleaving the cursor is the 64-bit wrap of the claims made; unless one has wrapped, they are at most one per batch and one more per runner. |
| `ForBatched.ExactIsFits` | pkg/task/dispatch.go:24-38 | On a slice of elements that take up memory (at most 2^48 of them) no claim wraps, so the batch count alone decides. |
| `ForBatched.ClaimCanWrap` | pkg/task/dispatch.go:31-38 | 2^62 + 1 elements of size zero in batches of 2^62 - 1: the count is right, and with two workers the last claim wraps. |
| `Layout.AlignUpIsLeast` | internal/ecs/component/column.go:34-39 | For zero, one or a power of two, the bit mask gives the least multiple of the alignment not below the offset. |
| `Layout.SortColumns` | internal/ecs/component/column.go:44-71 | The result is a permutation with its original indices, ordered by alignment descending, then size descending, then ID ascending, then original position. |
| `Layout.OrderIsCanonical` | internal/ecs/component/column.go:41-61 | Two sorted listings of the same columns with distinct IDs are equal: the layout does not depend on the order the columns came in. |
| `Layout.NoPadding` | internal/ecs/component/table.go:380-389 | With columns in descending alignment and sizes that are multiples of their alignment, every offset is rows times the sizes before it: no byte is lost to padding. |
| `Layout.LayoutOffsets` | internal/ecs/component/table.go:380-389 | The loop computes the recursive offsets and their end. |
| `Layout.ComputeLayout` | internal/ecs/component/table.go:347-378 | A stride larger than the chunk is reported, and only that; for sorted Go columns the first guess fits, rows per chunk is chunkSize / stride (1024 for tags only), and the second panic cannot be reached. |
| `Geometry.LayoutIsSound` | internal/ecs/component/table.go:347-389 | The computed layout keeps the regions of different columns apart and inside the chunk, each aligned. |
| `Geometry.CellsDisjoint` | internal/ecs/component/table.go:401-408 | The byte ranges of two different (column, row) cells of a chunk never meet. |
| `Geometry.CellInside` | internal/ecs/component/table.go:401-408 | Every cell lies in its column region and in the chunk. |
| `Geometry.CellAligned` | internal/ecs/component/table.go:401-408 | Every cell starts at a multiple of its column alignment. |
| `Geometry.WriteReads` | internal/ecs/component/table.go:412-428 | A cell written is read back by its own (column, row) and leaves every other cell, of any chunk, as it was. |
| `Table.Table.constructor` | internal/ecs/component/table.go:57-82 | A new table has no rows and the layout above, for columns with distinct IDs and Go alignments whose row fits the chunk. |
| `Table.Table.AddRow` | internal/ecs/component/table.go:111-143 | The rows become the old rows plus one with the supplied values, zeros elsewhere and unstamped ticks, whatever order the value map is walked in; a chunk is added only when the rows held fill those there are. It panics exactly when given an unknown component or a value of another type for a column that is no tag; the row is then counted without tick slots, each of its cells zero or as supplied, and all earlier rows are as they were. |
| `Table.Table.TakesIff` | internal/ecs/component/table.go:122-133 | A value is taken exactly when some column has its ID and is a tag or has its type. |
| `TableSpec.NewRowCells` | internal/ecs/component/table.go:118-143 | Each cell of the new row is unstamped and has the bytes supplied, or as many zeros. |
| `Table.NeededStays` | internal/ecs/component/table.go:189-198 | Chunks no more than the rows need are so again after a removal, by the test that releases one. |
| `Table.Table.SetCell` | internal/ecs/component/table.go:147-150 | Exactly one cell changes its bytes; no other cell and no tick does; a tag column changes nothing. |
| `Table.Table.RemoveRow` | internal/ecs/component/table.go:167-199 | The rows become the swap-and-pop of the old rows, ticks moving with their bytes; the result names the moved row; the last chunk is released exactly when the rows left fill the other chunks, so that where no chunk was without a live row none is afterwards. |
| `Table.Table.Reset` | internal/ecs/component/table.go:203-209 | No rows, fresh aggregates, chunks kept. |
| `Table.Table.Stamp` | internal/ecs/component/table.go:250-288 | One tick slot is overwritten and folded into the aggregate; bytes and other ticks are unchanged. |
| `Table.Table.StampAddedByID` | internal/ecs/component/table.go:250-260 | Both ticks of one cell become the given one, so that it is added and changed for exactly the systems that ran before it; or false for an unknown component. |
| `Table.Table.StampChangedByID` | internal/ecs/component/table.go:265-274 | The changed tick of one cell becomes the given one and its added tick stays; or false for an unknown component. |
| `Table.Table.SetTicksByID` | internal/ecs/component/table.go:279-288 | The ticks of one cell are replaced, or false for an unknown component. |
| `Table.Table.SkipColumn` | internal/ecs/component/table.go:228-245 | A column whose aggregate may not have changed (or have been added to) holds no changed (or added) row. |
| `Table.TrailingChunk` | internal/ecs/component/table.go:194-197 | The condition that releases a chunk holds only if the rows left fit in the other chunks. |
| `TableSpec.SwapPopRemovesOne` | internal/ecs/component/table.go:164-193 | Swap-and-pop loses the removed row and no other, as a bag. |
| `TableSpec.FilledCells` | internal/ecs/component/table.go:118-133 | Zeroing the row and storing values in any order gives those cells the values, the others zeros, and leaves the rows below. |
| `TableSpec.RemovedIsSwapPop` | internal/ecs/component/table.go:171-197 | Copying the last row column by column and keeping a prefix of the chunks is swap-and-pop on rows. |
| `Ticks.ColumnTicks.Observe` | internal/ecs/changedetect/ticks.go:72-79 | Folding bounds the new ticks, keeps every bound already held, and never exceeds what was observed. |
| `Ticks.SkipIsSound` | internal/ecs/changedetect/ticks.go:88-97 | If an aggregate bounds all ticks of a column, a false MayHaveChanged or MayHaveAdded means no tick of it is newer. |
| `Ticks.ObservedExactly` | internal/ecs/changedetect/ticks.go:72-97 | An aggregate folded from given ticks says that its column may have changed, or been added to, exactly when one of them is later. |
| `Dfs.Search.Visit` | pkg/visualgraph/validate.go:79-93 | A visit that succeeds leaves everything below the node black and on no cycle, and terminates on every graph; a visit that fails names a node on a cycle, the one that exploring without colours first meets on its own path. |
| `Dfs.FindCycle` | pkg/visualgraph/validate.go:94-101 | The three-colour search reports nothing exactly when the graph is acyclic, and otherwise a node on a cycle: the very node that depth-first exploration of all paths, which remembers nothing, comes upon first. |
| `Includes.CheckIncludeDAG` | pkg/definition/validate.go:101-139 | The include check succeeds exactly when no definition includes itself, directly or not. The node it reports does, and is the one that exploring every include path depth first from the paths in ascending order, nothing remembered, first meets again on its own path: a function of the graph alone. |
| `Includes.OneListing` | pkg/definition/validate.go:125-129 | A set of paths has one ascending listing, so the order of the search does not depend on map iteration. |
| `Includes.LessIff` | pkg/definition/validate.go:125-129 | Paths are ordered as strings: by the first character in which they differ, a prefix first. |
| `VisualGraph.CheckDataAcyclic` | pkg/visualgraph/validate.go:63-102 | No error exactly when the data dependencies have no cycle; the node reported lies on one and is the first that exploring all paths from the nodes in order comes back to. |
| `VisualGraph.DepsArePulls` | pkg/visualgraph/validate.go:65-72 | The dependencies collected, one connection after the other, hold b for a exactly when a data connection leads from b to a. |
| `VisualGraph.ValidateGraph` | pkg/visualgraph/validate.go:21-58 | Accepts exactly the graphs in which every connection has known ends, goes from an output to an input of the same kind and, for data, between equal types or into an input typed any or not at all, and whose data dependencies are acyclic. Otherwise the first bad connection decides the error, by the first of these that it fails; without one the node reported is the one above. |
| `Meaning.EvalEnds` | pkg/visualgraph/interpreter.go:143-178 | On an accepted graph plain recursion without a memo always ends, within a depth given by how many nodes the node reaches. |
| `Meaning.OutputsAnyDepth` | pkg/visualgraph/interpreter.go:161-178 | Whatever depth finds an answer, it is the same answer. |
| `Meaning.OutputsAt` | pkg/visualgraph/interpreter.go:161-178 | A known node with an evaluator has the outputs that gives for its inputs; any other has none. |
| `Meaning.PulledPin` | pkg/visualgraph/interpreter.go:143-157 | A data input has the output of the first data connection into it, nil if that is absent, or its default without one. |
| `Meaning.PulledOnly` | pkg/visualgraph/interpreter.go:143-157 | Nothing but data inputs is an input. |
| `Meaning.TargetIsFirst` | pkg/visualgraph/interpreter.go:195-205 | An execution pin leads to the node that the first connection from it names, and nowhere when there is no such connection or node. |
| `Interpreter.Run.EvalData` | pkg/visualgraph/interpreter.go:161-178 | Memoised evaluation terminates and gives what plain recursion gives, and no node is evaluated twice in a pass. |
| `Interpreter.Run.PullDataInputs` | pkg/visualgraph/interpreter.go:143-157 | The gathered inputs are those of plain recursion, defaults for unconnected pins included. |
| `Interpreter.Run.ExecChain` | pkg/visualgraph/interpreter.go:106-139 | Outcome, emitted commands and trace are those of the pass that evaluates without a memo. |
| `Meaning.ChainFollows` | pkg/visualgraph/interpreter.go:106-139 | A pass starts at the entry; each node executed after it is the one that the first connection from the pin named by the answer before leads to; the commands are those of the answers, in order; it is done only when an answer names no pin or one that leads nowhere, fails only when an answer does, and stops for want of a handler only at a node that has none. |
| `Meaning.ChainBounded` | pkg/visualgraph/interpreter.go:106-129 | A pass executes at most the step limit, its frames numbered in order by the 32-bit cut of the step, even when the chain loops, and has used the limit up when it reports it. |
| `Interpreter.RunTraced` | pkg/visualgraph/interpreter.go:95-139 | On an accepted graph the pass ends within the limit, 10000 unless a positive one is given, follows the answers as above and does exactly what unmemoised evaluation does, traced or not; an unknown entry is reported and does nothing. |
| `Topo.Kahn` | internal/render/graph.go:154-173 | With a sorted frontier each step places the least node whose predecessors are all placed, until none is left. |
| `Topo.AllPlacedIffAcyclic` | internal/render/graph.go:174-182 | Every node is placed exactly when the graph is acyclic. |
| `Topo.PlacedIsTopological` | internal/render/graph.go:161-173 | A complete placement respects every edge. |
| `Topo.LeastIsLexLeast` | internal/render/graph.go:154-173 | It is the lexicographically least of all topological orders. |
| `Topo.SearchPosition` | internal/render/graph.go:169 | The binary search finds the insertion point in a sorted frontier. |
| `RenderGraph.FindEdges` | internal/render/graph.go:126-152 | Either a pass that reads its own output, or every producer-to-consumer edge once, with matching in-degrees and ascending lists. |
| `RenderGraph.RenderGraph.Build` | internal/render/graph.go:78-211 | Succeeds exactly when the producer-to-consumer relation, self-reads included, is acyclic. The order is then the lexicographically least topological permutation; there is one barrier for each time a pass reads what another pass, the last to write it, produces, from the position of the one to that of the other, and no other barrier; they go forward and are sorted by both positions and resource. A cycle error lists the first self-reader or, in ascending order, exactly the passes on or downstream of a cycle, and leaves the graph unbuilt. |
| `RenderGraph.NamedOnCyclesIff` | internal/render/graph.go:174-182 | For every graph: each pass the cycle error names lies on a cycle, as the comment on the error (lines 12-15) says, if and only if no pass on a cycle produces something for a pass on none. |
| `RenderGraph.NamesABystander` | internal/render/graph.go:174-182 | A graph of three passes where it does, so that the error names a pass on no cycle. |
| `RenderGraph.RenderGraph.AddPass` | internal/render/graph.go:68-71 | One more pass at the end, and the graph is unbuilt again. |
| `RenderGraph.RenderGraph.Execute` | internal/render/graph.go:215-223 | Runs each pass once, in the built order, or reports an unbuilt graph. |
| `Required.Emit` | internal/ecs/component/required.go:67-79 | Merging a dependency keeps a list duplicate-free with every entry after all it requires, and adds exactly the dependency and its list. |
| `Registration.Registry.RegisterType` | internal/ecs/component/required.go:92-106 | Met while other types are being resolved, a type ends registered with a final list, or panics for a stated reason and leaves half registered just the types it was being resolved through; every earlier entry is unchanged. |
| `Registration.Registry.ResolveRequired` | internal/ecs/component/required.go:40-82 | The list is ordered, covers exactly the transitive requirements, and nothing below the type is circular or nil; otherwise the panic is explained by a cycle through the named type, a nil value, or a bound name. |
| `Registration.Registry.Insert` | internal/ecs/component/registry.go:68-93 | The next sequential ID, both indexes updated, earlier final lists kept; or, when the name is bound, nothing changes. |
| `Registration.Registry.Register` | internal/ecs/component/registry.go:49-61 | Re-registration returns the ID and changes nothing; a new type gets the next ID, the name given or its own, and its final list, all earlier entries kept. A panic, whose reason is stated, keeps every entry and leaves the type, and those it was being resolved through, bound with the lists they were entered with; every other list is final. It may come after any number of recovered panics. |
| `Registration.Registry.RegisterByType` | internal/ecs/component/registry.go:151-159 | The same with the default name; nil is refused. |
| `Registration.RegisterType` | internal/ecs/component/registry.go:141-147 | With each type under its own name it panics exactly when what the types not left behind by earlier panics declare is circular or nil below the type, and, where nothing is nil, over a circle exactly when there is one; and it does what it is for, a final list or a panic on exactly a circular or nil requirement, if and only if the type neither is nor requires one left behind, or the other declarations are circular or nil anyway. Where nothing ever panicked that is always. |
| `Registration.RegisterTwice` | internal/ecs/component/required.go:92-106 | A type whose registration panics on a circle registers at the next call with an empty list, the circle still there. |
| `Registration.CircleTwice` | internal/ecs/component/required.go:92-106 | A requires B and B requires A: the first registration of A panics, and the second succeeds. |
| `Leftover.FinalIffUntainted` | internal/ecs/component/required.go:36-39 | A registered type has the list all declarations call for exactly when it is not, and does not require, a type an earlier panic left half registered. |
| `Leftover.RightIff` | internal/ecs/component/required.go:36-106 | So registering it did what it is for exactly then, or when the other declarations are circular or nil anyway. |
| `Required.FinalList` | internal/ecs/component/required.go:36-39 | A final list has no repeats, not the type itself, and exactly the types reachable through declared requirements. |
| `Required.FinalLeavesFirst` | internal/ecs/component/required.go:67-79 | Every entry of a final list comes after each entry it declares itself. |
| `EventBus.Bus.Send` | internal/ecs/event/bus.go:70-73 | The log grows by the event. |
| `EventBus.Bus.SendBatch` | internal/ecs/event/bus.go:146-152 | The log grows by the events in order, as that many sends would make it. |
| `EventBus.Bus.Swap` | internal/ecs/event/bus.go:80-85 | The window moves: what was current becomes previous, what was previous is dropped. |
| `EventBus.Bus.ReadAt` | internal/ecs/event/bus.go:103-123 | Yields log[max(cursor, oldest)] and advances, or reports the end of the log. |
| `EventBus.EventReader.All` | internal/ecs/event/bus.go:204-216 | Yields the unread suffix of the log, or as much of it as the consumer takes, and resumes there; what the consumer sends while it is being fed joins the log and is yielded in its turn. |
| `EventBus.EventReader.Len` | internal/ecs/event/bus.go:186-191 | The number of entries a full traversal would yield. |
| `EventBus.RunsAreFaithful` | internal/ecs/event/bus.go:70-123 | In every run of sends, swaps and partial reads a reader is handed entries in send order, none twice, and each entry it has passed was handed over or lost. |
| `EventBus.DrainedEachFrame` | internal/ecs/event/bus.go:75-85 | A reader that catches up at least once between swaps has been handed exactly the entries from its start to its cursor. |
| `EventBus.UnreadableAtSecondSwap` | internal/ecs/event/bus.go:12-24 | An event is kept after any further operations exactly when fewer than two swaps have come since it was sent. |
| `Streams.CompleteIffNothingLost` | internal/ecs/event/bus.go:100-110 | A reader has been handed every entry since its start, in order, exactly when it lost none. |
| `Channel.MessageChannel.constructor` | internal/ecs/event/channel.go:30-39 | A capacity of zero or less becomes 64; the channel starts empty with no readers. |
| `Channel.MessageChannel.Write` | internal/ecs/event/channel.go:86-90 | The log grows by one, and the ring still holds its last `capacity` entries. |
| `Channel.MessageChannel.Read` | internal/ecs/event/channel.go:112-136 | Yields log[max(cursor, head - capacity)..head], or as much as the consumer takes, moves only this cursor, and nothing for an unknown reader. |
| `Channel.MessageChannel.Len` | internal/ecs/event/channel.go:184-196 | What a full read would yield; zero for an unknown reader. |
| `Channel.MessageChannel.RegisterReader` | internal/ecs/event/channel.go:96-101 | The next 32-bit ID in turn, positioned at the head; an ID that is in use has its cursor replaced. |
| `Channel.MessageChannel.UnregisterReader` | internal/ecs/event/channel.go:105-107 | Drops one cursor and no other. |
| `Channel.CompleteIffNeverLapped` | internal/ecs/event/channel.go:109-136 | Over a run with any number of readers, a reader whose ID is not handed out again gets the whole log from its start to its cursor exactly when no read of its came more than `capacity` messages late. |
| `Channel.TakenOver` | internal/ecs/event/channel.go:96-101 | In every run with more registrations than there are IDs before a given one, whatever else it does, that ID is at some point started afresh at the head. |
| `Channel.RunsAreFaithful` | internal/ecs/event/channel.go:112-136 | In every run with any number of readers that come and go, each of them has been handed messages in the order written, none twice, and each it has passed was handed over or lost. |
| `Channel.ReadersAreIndependent` | internal/ecs/event/channel.go:112-136 | Leaving out everything the other readers do changes nothing a reader is handed. |
| `Entities.PackRoundTrip` | internal/ecs/entity/entity.go:21-33 | A handle has its index in the low and its generation in the high 32 bits; both are recovered from a packed handle and back; only slot zero at generation zero is null. |
| `Allocator.EntityAllocator.Allocate` | internal/ecs/entity/allocator.go:44-55 | Pops the last free index or adds a slot at generation 1, with the 32-bit counters wrapping. |
| `Allocator.EntityAllocator.AllocateMany` | internal/ecs/entity/allocator.go:60-93 | State and handles are those of n single allocations; nothing for n below one. |
| `Allocator.EntityAllocator.Free` | internal/ecs/entity/allocator.go:98-114 | Advances the slot and frees it exactly when the handle is current; otherwise nothing changes. |
| `Allocator.EntityAllocator.IsAlive` | internal/ecs/entity/allocator.go:119-130 | True exactly of handles at the current generation of an existing slot. |
| `Allocator.EntityAllocator.PlaceAt` | internal/ecs/entity/allocator.go:182-195 | The slot is forced to the generation, lower slots padded unused, alive counted once; for index 2^32 - 1, and for that one only, the padding loop does not end. |
| `Allocator.PaddingEndsIff` | internal/ecs/entity/allocator.go:187 | A length cut to 32 bits ever exceeds the index, however long the padding gets, exactly when the index is not 2^32 - 1. |
| `Allocator.EntityAllocator.RebuildFreeList` | internal/ecs/entity/allocator.go:205-215 | The unused slots become the free list, highest first, at generation 1. |
| `AllocatorHistory.AliveIff` | internal/ecs/entity/allocator.go:119-130 | IsAlive holds of exactly the handles issued and not freed, and of the next handle of each free slot. |
| `AllocatorHistory.EveryHistory` | internal/ecs/entity/allocator.go:38-114 | In every history no handle is issued twice or null, free indices are distinct, alive plus free is the number of slots, and an issued handle is alive exactly until freed. |
| `AllocatorHistory.EveryFreshHistory` | internal/ecs/entity/allocator.go:38-114 | That holds of every history of a new allocator, in which every handle a slot ever stood for was issued. |
| `AllocatorHistory.HistoryIsAsked` | internal/ecs/entity/allocator.go:44-114 | A history has as many handles more as were asked for, and has freed those it was asked to. |
| `AllocatorHistory.IssueKeeps` | internal/ecs/entity/allocator.go:44-55 | A handle issued is new, alive, and of a slot no live handle is in. |
| `AllocatorHistory.FreeKeeps` | internal/ecs/entity/allocator.go:98-114 | Freeing an issued handle keeps all of that; freeing it again changes nothing. |
| `AllocatorHistory.FreeKeepsDistinctIff` | internal/ecs/entity/allocator.go:98-114 | Freeing an arbitrary handle keeps the free list distinct exactly when the handle is not the next one of a free slot. |
| `AllocatorHistory.ForgedFree` | internal/ecs/entity/allocator.go:98-114 | Freeing such a never-issued handle makes two later allocations return the same entity. |
| `AllocatorHistory.FreeKeepsIff` | internal/ecs/entity/allocator.go:98-114 | Freeing a live handle of any slot keeps the account of handles, on which no handle being issued twice or null rests, exactly when its generation is below 2^32 - 1. |
| `AllocatorHistory.WrapReissues` | internal/ecs/entity/allocator.go:111-113 | At that generation slot zero gives out the null handle next, and every other slot, once the handle it gives out is freed, the handle of generation 1 that it gave out first. |
| `AllocatorHistory.RestoredIsSound` | internal/ecs/entity/allocator.go:182-215 | After any PlaceAt calls on a fresh allocator and one RebuildFreeList, every placed handle is alive and everything proved of histories holds from there, so no placed index is given out before it is freed. |
| `AllocatorHistory.LowestGapFirst` | internal/ecs/entity/allocator.go:203-214 | After a rebuild the lowest unused slot is given out first, at generation one. |
| `SceneBinary.MarshalBinary` | pkg/scene/codec.go:115-147 | Writes the specified encoding, or fails exactly when some variant has no JSON text. |
| `SceneBinary.UnmarshalBinary` | pkg/scene/codec.go:151-247 | Computes the specified decoding, first failure included; an accepted scene has every index in range. |
| `SceneCodec.RoundTripIff` | pkg/scene/codec.go:115-247 | Decoding what was encoded, followed by any bytes, returns the scene and those bytes exactly when the indices are in range and lengths fit in 32 bits. |
| `SceneCodec.PrefixFree` | pkg/scene/codec.go:115-147 | Two such scenes whose encodings agree up to trailing bytes are equal, and so are the trailing bytes. |
| `SceneCodec.DecodedFits` | pkg/scene/codec.go:200-244 | Every byte string the decoder accepts gives a scene whose indices are in range. |
| `SceneAccepts.AcceptsIff` | pkg/scene/codec.go:151-247 | The decoder accepts exactly the encodings, of this version or version 0, of scenes whose indices are in range, with any variant texts that JSON decodes; and returns that scene and what follows it. |
| `SceneAccepts.FutureIff` | pkg/scene/codec.go:155-166 | A scene is reported to be from the future exactly when it begins with the magic and a later version, whatever else it holds. |
| `SceneBinary.EntityFormat` | pkg/scene/codec.go:100-106 | An entity spelled out, byte by byte: the documented order of its fields and of those of a component, little-endian. |
| `SceneBinary.WireFormat` | pkg/scene/codec.go:92-101 | A scene spelled out likewise. |
| `SceneCodec.RoundTripString` | pkg/scene/codec.go:254-257 | A length-prefixed string is read back, whatever follows. |
| `SceneCodec.RoundTrip32` | pkg/scene/codec.go:253-267 | A 32-bit little-endian word reads back as the low 32 bits of what was written. |
| `SceneBinary.WideIndicesAreCut` | pkg/scene/codec.go:135-142 | A scene with an index outside 32 bits encodes as the scene with that index cut to 32 bits, and decodes to it if that one is in range. |
| `SceneBinary.DecodedRoundTrips` | pkg/scene/codec.go:151-247 | A scene the decoder accepted survives being written and read again. |
| `SceneBinary.DecodedLookups` | pkg/scene/codec.go:39-72 | On a decoded scene a lookup misses only for a position the scene does not have, and otherwise gives the name or variant that the index there refers to. |
| `SparseSet.SparseSet.Has` | internal/ecs/component/sparseset.go:43-49 | Membership in the map the set stands for. |
| `SparseSet.SparseSet.Add` | internal/ecs/component/sparseset.go:58-88 | Sets the entry: ticks kept when overwriting, unstamped when new, at the end of the dense order; null changes nothing; a value of another type panics. With another generation of the slot in the set, and only then, the row is added but the set is no longer consistent. |
| `SparseSet.SparseSet.Remove` | internal/ecs/component/sparseset.go:92-117 | Removes exactly this entry, the last dense row taking its place with its bytes and ticks. |
| `SparseSet.SparseSet.Get` | internal/ecs/component/sparseset.go:122-131 | The bytes stored for the entity, if any. |
| `SparseSet.SparseSet.Iter` | internal/ecs/component/sparseset.go:135-143 | Every entry once, in dense order. |
| `SparseSet.SparseSet.Clear` | internal/ecs/component/sparseset.go:146-156 | Empty map, zero aggregate. |
| `SparseSet.SparseSet.StampAdded` | internal/ecs/component/sparseset.go:174-183 | Both ticks of one entry become the given one, and the aggregate still bounds every tick. |
| `SparseSet.SparseSet.StampChanged` | internal/ecs/component/sparseset.go:187-195 | One entry has its changed tick set, its added tick kept. |
| `SparseSet.SparseSet.SetTicks` | internal/ecs/component/sparseset.go:199-207 | One entry has its ticks replaced. |
| `SparseSet.SkipSet` | internal/ecs/component/sparseset.go:168-169 | A set whose aggregate may not have changed holds no changed entry; likewise for added. |
| `SparseSpec.AddKeepsLinkedIff` | internal/ecs/component/sparseset.go:70-87 | Adding a new row keeps the sparse and dense sides consistent exactly when no other generation of the slot is in the set. |
| `SparseSpec.OlderIsOrphaned` | internal/ecs/component/sparseset.go:77-87 | Otherwise that generation keeps its dense row but is no longer found, and every other entity of the set is. |
| `SparseSpec.AddModel` | internal/ecs/component/sparseset.go:77-87 | The new row adds one binding to the map. |
| `SparseSpec.RemoveModel` | internal/ecs/component/sparseset.go:96-116 | Swap-and-pop on both sides removes one binding from the map. |
| `SparseSpec.SplicedCells` | internal/ecs/component/sparseset.go:211-230 | Writing one row of the flat byte array changes that row only. |
| `EntitySet.EntitySet.Insert` | internal/ecs/entity/set.go:33-43 | Adds the entity and reports whether it did; null and members are refused. |
| `EntitySet.EntitySet.Remove` | internal/ecs/entity/set.go:47-61 | Removes exactly the entity, by swap-and-pop, and reports whether it was there. |
| `EntitySet.EntitySet.Contains` | internal/ecs/entity/set.go:64-67 | Membership. |
| `EntitySet.EntitySet.Iter` | internal/ecs/entity/set.go:77-81 | Every member once, in dense order. |
| `EntitySet.EntitySet.Len` | internal/ecs/entity/set.go:70-72 | The number of members. |
| `EntitySet.EntitySet.Clear` | internal/ecs/entity/set.go:84-89 | No members. |
| `EntitySet.RemoveKeepsLinked` | internal/ecs/entity/set.go:47-61 | Swap-and-pop keeps the index and the list pointing at each other. |

## Left out

- Pool parking, waking and `Shutdown` (`pkg/task/pool.go`): workers are modelled as thieves only. That a joining scope can always return is proved (`Progress`); that the scheduler runs whoever must act next is not part of this model.
- Weak memory: steps are sequentially consistent, which is what Go's atomics promise.
- Task bodies that panic, and `Spawn` from another goroutine.
- 64-bit overflow of the deque's logical indices, of byte offsets, and of the streams' counters: these are unbounded here. Entity handles, generations and the codec's words are 32-bit and wrap or are cut as in the program.
- `RenderGraph.RenderGraph.Build`: without a resource tracker; liveness checks and pinning are not part of this model. Handles have kinds below 128, so that comparing them as signed numbers is comparing them.
- Library sorts: columns, barriers and include paths are sorted by insertion, which gives the same result because the orders decide every pair (columns with equal keys keep their order). Sorting the render graph's adjacency lists is shown to have nothing to do, since they come out ascending.
- Reading typed values out of a table row (`RowValues`, `CellPtr`) and reflection: values are a type name and bytes.
- `Registration.Registry.Register`: a caller that presets the list of required IDs keeps it on a panic; what later registrations make of such a list is not stated. Whether a panic is recovered from is the caller's affair.
- `Registration.Registry.RegisterType`: assigns the list after the recursive call has returned and reads the slice anew, which is how the Go compiler orders that statement; the language leaves it open. Storage kind, size, alignment and hooks of a component are not modelled.
- `Interpreter.Run.ExecChain`: commands an Exec emits are part of its result, and an Exec that fails still emits them; the sink itself is not modelled.
- `EventBus.EventReader.All`: a consumer may send while it is fed; one that swaps the buffers or reads with the same reader is not modelled. `Channel.MessageChannel.Read`: the consumer decides only when to stop; one that writes to the channel is not modelled.
- `Allocator.EntityAllocator.Allocate`: the mutex is not modelled; each operation is atomic. `Reserve` only changes capacities.
- The JSON text form of a scene: it is the library's encoding.
- Memory the decoder allocates for a declared length before reading it.
- `SparseSet.SparseSet.Get`: returns the bytes, not a pointer that aliases them. Capacity growth of the sparse array does not show in its contents.
- World, archetypes, scheduler, queries, rollback, assets, physics, audio, rendering back ends and tools: not part of this model.
