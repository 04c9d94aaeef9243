# Fraud-Detection-Network cycle detection, modelled in Dafny

This project models the cycle-detection core of Fraud-Detection-Network (C):

- the graph store: users, an append-only transaction log and a flat N×N matrix of pair counts;
- the growable cycle store;
- the bounded brute-force depth-first search;
- Tarjan's strongly connected component search;
- the subnetwork table that files cycles by their first node, and the cycle comparator.

The store, the search contexts and the subnetwork table are classes whose fields change in place. The
searches are methods over those classes, with recursion and loops. Each method is proved against
specification functions and predicates on the contents of its arrays.

Modules, one or more per source file:

- `GraphStore` (graph.dfy): graph.c and the records of graph.h.
- `Cycles` (cycles.dfy): the vocabulary both finders share: pairs, paths, simple cycles, and the
  weight of a closed walk.
- `BruteForce` (bruteforce.dfy): `dfs_bruteforce_recursive` and `find_cycles_dfs_bruteforce`.
- `TarjanInvariant` (tarjan_invariant.dfy): the bookkeeping invariant of Tarjan's search (numbers,
  stack, low links, popped groups) and the `tarjan_context_t` class.
- `TarjanScc` (tarjan_scc.dfy): the reachability invariant, which shows the popped groups are exactly
  the strongly connected components.
- `Tarjan` (tarjan.dfy): `tarjan_dfs` and `find_cycles_tarjan`.
- `Subnetworks` (subnetworks.dfy): `subnetwork_add` with its table, the grouping loop of `main`, and
  `compare_cycles`.

Behaviour of the C code worth noting, which the model keeps:

- `graph_add_transaction` does not reject self-loops.
- `cycle_result_add` neither canonicalises nor deduplicates; every submission is appended.
- The brute-force depth bound is `min(N, 8)`. There is no dense-graph reduction and no exploration
  budget.
- The Tarjan finder records each component of more than one node once, as its members in pop order,
  with the sum of the counts around that sequence. It does no secondary search for a simple cycle.
- Subnetworks are keyed by `cycle[0]`, not by a minimum id.
- A failed reallocation of the transaction log makes the call return with nothing changed; it is not
  fatal.

## Model

| member | source | states |
|---|---|---|
| GraphStore.Graph.Create | src/graph.c:15-35 | the log is empty; capacity is the hint when positive, else 1; user i has id i; every matrix cell is 0; the store invariant holds |
| GraphStore.Graph.AddTransaction | src/graph.c:37-60 | an id outside [0, N), or a failed growth of a full buffer, changes nothing. Otherwise the transaction is appended after the earlier log, the count rises by one, capacity doubles exactly when the log was full, and only the sender-receiver cell rises, by one. The invariant "cell = number of logged transactions of its pair" is kept |
| GraphStore.Graph.Record | src/graph.c:52-59 | the transaction is stored at the old count, the log grows by exactly it, and only its pair's cell rises by one |
| GraphStore.Graph.GrowTransactions | src/graph.c:40-50 | the buffer is replaced by a fresh one of twice the capacity that holds the same log |
| GraphStore.CountAppend | src/graph.c:52-59 | appending a transaction raises the count of its own pair by one and no other count |
| GraphStore.CountsAfterAppend | src/graph.c:58-59 | raising the cell of the new pair keeps every cell equal to the count of its pair in the extended log |
| GraphStore.CellIndexInjective | src/graph.c:58-59 | the row-major position `from * N + to` of two in-range pairs coincides only for the same pair |
| GraphStore.CountPositiveIff | src/graph.c:58-59 | a pair's count is positive exactly when some logged transaction has that pair |
| GraphStore.EdgeIffLogged | src/graph.c:58-59 | a matrix cell is positive exactly when some logged transaction goes from its row to its column |
| GraphStore.CountPositiveCells | src/graph.c:67-73 | the double loop counts exactly the positive cells of the matrix |
| GraphStore.Graph.EdgeCount | src/graph.c:67-73 | the edge count is the number of positive cells, at most N·N |
| GraphStore.Graph.GetNumUsers | src/graph.c:82-84 | the result is the size of the user table, and its square is the matrix size |
| GraphStore.Graph.GetUsers | src/graph.c:78-80 | the user table, where user i carries id i |
| GraphStore.Graph.GetAdjList | src/graph.c:86-88 | the matrix, N·N cells, each equal to the count of its pair in the log |
| GraphStore.CycleResult.Create | src/graph.c:97-103 | an empty store of capacity 1000 |
| GraphStore.CycleResult.Add | src/graph.c:105-116 | a copy of the first `length` ids and the amount is appended after the unchanged earlier entries; the count rises by one; capacity doubles exactly when full; duplicates are not refused |
| GraphStore.GuardAdmitsNegative | src/graph.c:38 | the guard as written lets a negative sender through, and its row offset is then negative |
| Cycles.ClosedWalkTotal | src/algorithms.c:29-35 | the total is the weight of the closed walk: the sum of the cells `nodes[i] -> nodes[(i + 1) % len]` (the same loop as algorithms.c:134-140) |
| Cycles.WeightAtLeastLength | src/algorithms.c:29-35 | a closed walk along positive cells weighs at least its length |
| Cycles.NoRepeatCount | src/algorithms.c:81 | a store with no cycle twice holds as many distinct cycles as entries, so `cycles_found` counts cycles |
| Cycles.DistinctBound | src/algorithms.c:37-39 | a path of distinct ids below N has at most N nodes |
| BruteForce.PushTrack | src/algorithms.c:37-39 | pushing an unvisited successor keeps the path simple and starting at the start node, and the marks flag exactly its nodes; there is room for it |
| BruteForce.DfsBruteforceRecursive | src/algorithms.c:18-45 | path length, path contents and visited marks are restored. What is appended is exactly the recordable cycles (simple, at least 3 nodes, at most max_depth + 1 nodes) that extend the current path, each once and with its weight |
| BruteForce.VisitNext | src/algorithms.c:26-43 | one turn of the successor loop: a zero cell appends nothing, and otherwise what is appended keeps the store so far sound, repeat-free and covering every cycle whose continuation is at most `next` |
| BruteForce.RecordClosedPath | src/algorithms.c:28-36 | the current path is appended with the sum of the counts around it |
| BruteForce.Descend | src/algorithms.c:37-43 | push, recurse and pop: path and marks are restored, and what is appended is exactly the recordable cycles extending the path by `next`, each once |
| BruteForce.SearchFrom | src/algorithms.c:67-73 | one start node: exactly the recordable cycles that begin at it are appended, each once |
| BruteForce.StartDone | src/algorithms.c:61-74 | after start node s, the store holds exactly the recordable cycles beginning below s + 1, none twice, grouped by start in increasing order |
| BruteForce.RecordableBounds | src/algorithms.c:59 | a recordable cycle has between 3 and N nodes and at most max_depth + 1 |
| BruteForce.MaxDepth | src/algorithms.c:59 | the depth bound is the smaller of N and 8 |
| BruteForce.DfsContext.constructor | src/algorithms.c:54-58 | the context holds the given path and visited buffers, store, graph and depth bound; the path length and start node, which the C sets only at :67-68, start at 0 |
| BruteForce.FindCyclesDfsBruteforce | src/algorithms.c:47-85 | a node sequence is in the store if and only if it is a simple cycle of 3 to min(N, 8) + 1 nodes; each is there once (its rotations are other sequences), with its weight, grouped by start node in increasing order; cycles_found equals the number of such sequences |
| Tarjan.Discover | src/algorithms.c:102-106 | `node` gets the next number as its number and link, is pushed and flagged; both invariants are kept |
| Tarjan.Number | src/algorithms.c:102-104 | number and link of `node` become the counter, which rises by one |
| Tarjan.Push | src/algorithms.c:105-106 | `node` goes on top of the stack and is flagged |
| Tarjan.OrderFits | src/algorithms.c:102-104 | no more users are numbered than there are users |
| TarjanInvariant.Min | src/algorithms.c:118 | `fmin` of two links is the smaller of them |
| Tarjan.LowerLink | src/algorithms.c:117-119 | a successor still on the stack lowers the link of `node` to the smaller of the two links; afterwards that link is no greater than the successor's link and number |
| Tarjan.SearchUnvisited | src/algorithms.c:113-115 | an undiscovered successor is searched; afterwards it is numbered, earlier numbers and links are kept (except the link of `node`), and the stack gains only newly numbered users |
| Tarjan.LowerThrough | src/algorithms.c:117-119 | after that search, a successor still on the stack lowers the link of `node` and leaves the call path, whose reachability invariant still holds |
| Tarjan.VisitSuccessor | src/algorithms.c:111-119 | one turn of the successor loop: afterwards every successor up to `next` is numbered, and each one still stacked has a number no lower than the link of `node` |
| Tarjan.SearchSuccessors | src/algorithms.c:110-120 | all successors are numbered, each one still on the stack is numbered no lower than the link of `node`, and the link of `node` stays at most its number |
| Tarjan.PopUntil | src/algorithms.c:126-131 | pops down to `node` and unflags what it pops; the buffer holds the popped segment reversed |
| Tarjan.RecordGroup | src/algorithms.c:133-142 | a popped group of more than one node is appended with the sum of the counts around it; a single node is not |
| Tarjan.PopAndRecord | src/algorithms.c:122-142 | the stack is cut back to `node`; the popped segment, in pop order, becomes a new group; it is recorded when larger than one node |
| Tarjan.PopComponent | src/algorithms.c:122-145 | popping a root keeps both invariants: the group is rooted and its members are mutually reachable |
| Tarjan.TarjanDfs | src/algorithms.c:98-146 | either the stack returns to its entry height with the invariant restored for the caller, or `node` stays on it with a link below its number; earlier numbers and links are kept |
| Tarjan.TopLevel | src/algorithms.c:168-172 | a top-level call leaves the stack empty and numbers its start |
| Tarjan.NewContext | src/algorithms.c:155-166 | numbers and links are all -1, nothing is flagged, the stack is empty and the counter is 0 |
| Tarjan.SearchAll | src/algorithms.c:168-172 | after the loop every user is numbered and the stack is empty |
| Tarjan.FindCyclesTarjan | src/algorithms.c:148-185 | the groups partition the users; numbers are distinct and in [0, N) with 0 <= link <= number; each group ends with its root; members of a group are mutually reachable and members of different groups are not; the store holds exactly the groups of more than one node, in pop order, with their weights; cycles_found is the count |
| TarjanInvariant.DiscoverStep | src/algorithms.c:102-106 | numbering and pushing an undiscovered user keeps the bookkeeping invariant |
| TarjanInvariant.HeldDiscover | src/algorithms.c:102-106 | the same step on the sealed invariant, with room for the push |
| TarjanInvariant.LowerStep | src/algorithms.c:117-119 | lowering a stacked node's link through a stacked successor keeps the invariant |
| TarjanInvariant.PoppedRooted | src/algorithms.c:122-131 | the segment popped at a node whose link is its number is a group that ends with that root, numbered in decreasing pop order |
| TarjanInvariant.StackDistinct | src/algorithms.c:126-131 | the stack holds distinct in-range users |
| TarjanInvariant.PopStep | src/algorithms.c:126-131 | popping a root's segment into a new group keeps the invariant |
| TarjanInvariant.TarjanContext.constructor | src/algorithms.c:155-163 | the context holds the given buffers, store and graph, with an empty stack, counter 0 and no popped groups |
| TarjanInvariant.InitialState | src/algorithms.c:155-166 | the set-up state satisfies the invariant |
| TarjanInvariant.FinalState | src/algorithms.c:168-172 | with everyone numbered and the stack empty, the groups partition the users, numbers are distinct in [0, N) and links satisfy 0 <= link <= number |
| TarjanScc.SccInitial | src/algorithms.c:165-166 | the reachability invariant holds initially |
| TarjanScc.SccDiscover | src/algorithms.c:102-106 | discovering a successor of the call path keeps the reachability invariant |
| TarjanScc.SccLower | src/algorithms.c:117-119 | lowering a link through a stacked successor keeps it |
| TarjanScc.SccRetire | src/algorithms.c:113-119 | a searched successor left on the stack leaves the call path and the invariant still holds |
| TarjanScc.SccPop | src/algorithms.c:122-131 | popping a root's segment adds a group that is a strongly connected component |
| TarjanScc.SccFinal | src/algorithms.c:98-131 | members of one group reach each other; members of two different groups do not reach each other both ways |
| Subnetworks.SubnetTable.constructor | src/main.c:16-17 | the table starts empty |
| Subnetworks.SubnetTable.FindGroup | src/main.c:22-23 | the position of the group with the given root, or the count when there is none |
| Subnetworks.SubnetTable.SubnetworkAdd | src/main.c:19-43 | the cycle joins the group of its first node, which grows by it (capacity doubling when full) while every other group is unchanged; or a new group with that root, count 1 and capacity 8 goes at the end. The table invariant is kept |
| Subnetworks.Grown | src/main.c:25-29 | filing `c` into a group appends it and adds one to the count; the capacity at most doubles, and a group within its capacity stays within it |
| Subnetworks.AddToGroup | src/main.c:22-30 | filing into the existing group keeps the table invariant: distinct roots, items of each group are exactly the cycles filed under its root in insertion order, count <= capacity, groups in first-seen order |
| Subnetworks.AddNewGroup | src/main.c:34-42 | opening a group for a new root keeps the table invariant |
| Subnetworks.GrownOnlyAt | src/main.c:22-30 | with distinct roots, the group of the cycle's root is the only one that changes |
| Subnetworks.GroupCycles | src/main.c:157-158 | the table has filed exactly the Tarjan cycles, in store order |
| Subnetworks.CountsSumToFiled | src/main.c:157-158 | the group counts add up to the number of filed cycles |
| Subnetworks.InExactlyOneGroup | src/main.c:157-158 | every filed cycle is in the group of its first node and in no other |
| Subnetworks.Wrap32 | src/main.c:61 | the difference reduced to a 32-bit int by two's-complement wrap-around (the model's choice; C leaves the overflow undefined), equal to the true difference when that fits |
| Subnetworks.CompareFrom | src/main.c:59-63 | zero exactly when the remaining suffixes are equal; always a 32-bit int |
| Subnetworks.CompareCycles | src/main.c:53-64 | zero exactly when both cycles have the same length and elements |
| Subnetworks.CompareIsLex | src/main.c:53-64 | on node ids, negative exactly when the first cycle is lexicographically before the second, a proper prefix first |
| Subnetworks.CompareAntisymmetric | src/main.c:57-63 | on node ids, swapping the arguments flips the sign |

## Left out

- Amounts and balances are `double` in the source and carry no logic. They are not modelled. A
  cycle's total is an `int`, since it is only ever a sum of integer counts.
- Account-number formatting (`snprintf`), the random initial balances, timestamps beyond being stored,
  and the user labels are not modelled.
- The timers, `printf` reporting, progress output, `graph_print_stats`'s other output and its density
  ratio, `cycle_result_print` and `print_cycle_id` are left out: they are I/O and floating point.
- src/utils.c is not part of this model: clocks, JSON loading through a foreign library, file I/O and
  random data generation.
- The random graph built in `main` is not modelled: it is driven by `rand` and `time`.
- `qsort` is a library routine and is not modelled; only its comparator is. The call at main.c:166
  sorts pointers with a comparator that reads its arguments as cycles, and is left out.
- Memory release (`graph_free`, `cycle_result_free`, the `free` of scratch buffers) is not modelled,
  and neither is allocation failure, except the explicit no-change path of graph.c:44-47. There the
  outcome of `realloc` is the parameter `growthSucceeds`.
- Graph.AddTransaction: uses the corrected guard that refuses negative ids (see Findings). For ids
  that are not negative it behaves as the source does.
- Graph.Create: assumes a non-negative user count, which is `nat` here; a negative count has no
  meaning in the source either.
- Subnetworks.SubnetTable.SubnetworkAdd: items are held as cycle values, not pointers into the
  Tarjan store. `realloc`'s moving of the table and of each group's buffer is modelled only by the
  capacity field.
- Subnetworks.CompareIsLex and Subnetworks.CompareAntisymmetric: proved for ids in [0, 2^31), where no
  difference overflows. For other ids `ca->cycle[i] - cb->cycle[i]` can overflow a signed `int`,
  which C leaves undefined; `compare_cycles` is modelled with two's-complement wrap-around there, an
  assumption of the model and not C's semantics.
- Integer width: counts, ids and sizes are unbounded integers. Overflow of a 32-bit matrix cell or of
  `num_users * num_users` is not modelled.
- Tarjan.TarjanDfs and Tarjan.FindCyclesTarjan: the ghost discovery order, popped groups and call path
  are proof-only state with no counterpart in the source.

## Findings

| source | as written | input that shows it | evidently intended | confidence | as-written member | corrected member |
|---|---|---|---|---|---|---|
| src/graph.c:38 | only `from_user >= num_users` or `to_user >= num_users` is refused | `from_user = -1`, `to_user = 0` on any graph with users: the guard passes, and `row = adj_list + (-1) * num_users` points before the matrix | refuse every id outside [0, num_users) | high (by reading; not executed) | GraphStore.GuardAdmitsNegative | GraphStore.Graph.AddTransaction |
