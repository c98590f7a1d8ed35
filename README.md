# Topological sort by node types — a Dafny model of NodeUtil

`NodeUtil` sorts a collection of nodes. Each node has:

- an id;
- a set of *type* labels;
- two maps from type label to an integral weight: the types it must come *before* and the types it must come *after*.

A node is ordered relative to every node that carries a type it references. Sorting runs in four stages, all in memory:

1. **Type indexing** (`findNodeTypes`). Build the map from each type label to the ids of the nodes that carry it.
2. **Edge resolution** (`findNodeOrders`).
   - Every reference of a node becomes a weighted edge to each node listed under the referenced type.
   - Duplicate edges are combined with `mergeNodeRanks`, which keeps the larger weight and never adds them.
   - With reverse inference on, every before-edge x → y is also recorded as an after-edge y → x, and the other way round. Both reversals are taken from the forward maps before either is merged in, so a reversed edge is never reversed again.
3. **Ordering** (`sortNodeIds` and the sweep in `findNodesSorted`).
   - A depth-first traversal along the after-edges emits each node after every node it must follow.
   - Meeting a node that is still being checked is a cycle, and raises `IllegalArgumentException`.
4. **Ranking** (`findNodesSorted`).
   - Walk the sorted ids in order. Each id's cumulative rank is the base rank raised to every earlier id's rank plus the weight of the after-edge to it: the longest weighted path.
   - Deal the nodes into a rank-to-nodes map.
   - The list overload flattens that map in ascending rank order.
   - Each id's node is listed once (`NodeUtil.ListsEachInputOnce`). An after-edge of non-negative weight lists its target first (`NodeUtil.ListedRespectsEdges`). A negative weight can reverse that order (see Findings).

## How the model is built

The source works by in-place mutation, and the model keeps that shape:

- Each loop is a `method` with a `while` or `for` loop and its invariants, and is proved against a ghost specification function.
- Each collection the source mutates is a value threaded in and back out. No two of them alias.
- Java's `HashMap`/`HashSet` iteration is a free choice (`:|`) of the next key. Every contract is therefore independent of iteration order.
- The cycle exception is the `Failure` value of `Result`, or the `Fail` value of `Outcome`.
- `DataUtil`'s blank-string checks are `requires NonBlank(...)`, meaning some character is above a space, which is what `trim()` leaves.

The specification functions are:

- `TypeIndexing.Indexed` for type indexing.
- `EdgeResolver.Forward`, `Transpose`, `MergeEdges` and `Resolved` for edge resolution. `RankMerge.IsMaxOf` characterises a max-merge independently of merge order.
- `Sequencer.Settled` and `Sequencer.HasCycle` for ordering.
- `Ranker.IsRanking` and `Buckets.Bucketed` / `Buckets.AscendingConcat` for ranking and output.

Modules, one file each:

- `wrappers.dfy` — `Result`, `Outcome`
- `nodes.dfy` — `NodeData`, `Side`, id helpers
- `rank_merge.dfy` — `mergeNodeRanks`
- `type_index.dfy` — `findNodeTypes`
- `edge_resolver.dfy` and `node_orders.dfy` — `findNodeOrders`
- `sequencer.dfy` — `sortNodeIds` and the sweep
- `ranker.dfy` — the rank loops
- `buckets.dfy` — the input index, the bucketing and the list flattening
- `node_util.dfy` — the two `findNodesSorted` entry points

Two facts about the source come out of the proofs:

- **The sweep always stops after one pass.** After one pass over the work ids, every one of them is done (the `workNodes <= done'` clause of `Sequencer.Sweep`), so the `while (true)` loop of `findNodesSorted` (lines 431-458) either stopped at the exception or breaks on its first test. Its `prevSize` repetition therefore never runs a second pass.
- **The orphan branch never fires.** The orphan prepending (lines 461-467) always meets an empty set. `SortAll` keeps the loop, with `more ==> initial state` as an invariant. It keeps the orphan step as `PrependOrphans`, called on the (empty) leftover set. The source's `if (!workNodes.isEmpty())` guard is redundant with the `for` it surrounds, so it is not written separately.

## Model

| member | source | states |
|---|---|---|
| RankMerge.MergeNodeRanks | src/main/java/com/opsysinc/example/sort/topological/NodeUtil.java:287-312 | The flag is true iff the key was absent. The new map sets the key to the offered weight if it was absent, and otherwise to the max of the old and the offered weight, never their sum. Every other key is unchanged. The result is the max-merge of the old entries plus the offer. |
| RankMerge.MaxOfUnique | src/main/java/com/opsysinc/example/sort/topological/NodeUtil.java:287-312 | Two max-merges of the same offers are equal, so repeated mergeNodeRanks calls give the same map whatever order the hash iteration takes. |
| RankMerge.MaxOfCompose | src/main/java/com/opsysinc/example/sort/topological/NodeUtil.java:143-146 | Merging further offers into a max-merge yields the max-merge of all offers together. |
| RankMerge.PairsMaxOf | src/main/java/com/opsysinc/example/sort/topological/NodeUtil.java:124-130 | A weight map is the max-merge of its own entries, which is the starting point of every merge loop. |
| RankMerge.MergeAll | src/main/java/com/opsysinc/example/sort/topological/NodeUtil.java:143-146 | One mergeNodeRanks call per offer, in any order, leaves the max-merge of the target's entries and all the offers. |
| RankMerge.MaxExists | src/main/java/com/opsysinc/example/sort/topological/NodeUtil.java:308 | Helper of MaxOfSet: a non-empty set of weights has a largest element, which is the weight repeated max-merging converges to. |
| RankMerge.MaxOfSet | src/main/java/com/opsysinc/example/sort/topological/NodeUtil.java:308 | Helper of MaxMap (the `Math.max` of mergeNodeRanks): the result belongs to the set and bounds every element of it. |
| RankMerge.MaxMap | src/main/java/com/opsysinc/example/sort/topological/NodeUtil.java:287-312 | Its closed-form map of largest offers per target is a max-merge of the offers. |
| RankMerge.MergeWeights | src/main/java/com/opsysinc/example/sort/topological/NodeUtil.java:242-245 | Merging one row into another gives the max-merge of both rows' entries, keyed by the union of their keys. |
| RankMerge.MergeWeightsAt | src/main/java/com/opsysinc/example/sort/topological/NodeUtil.java:242-245 | A key is present iff either row has it. The merged weight is at least each side's weight and equal to one of them. |
| TypeIndexing.FindNodeTypes | src/main/java/com/opsysinc/example/sort/topological/NodeUtil.java:39-79 | The new index is the (optionally cleared) target extended by every input node's id under each of its types. The result is true iff the target was cleared or some input type was not yet a key. |
| TypeIndexing.IndexNode | src/main/java/com/opsysinc/example/sort/topological/NodeUtil.java:58-75 | One node adds its id under each of its types. The created flag is true iff one of its types was not yet a key. |
| TypeIndexing.IndexedMembership | src/main/java/com/opsysinc/example/sort/topological/NodeUtil.java:55-75 | An id is listed under a type iff the base already listed it there or some input node with that id carries the type. Every node's id is added under each of its types, and nothing else is added. |
| TypeIndexing.IndexedSnoc | src/main/java/com/opsysinc/example/sort/topological/NodeUtil.java:55-76 | Indexing one more node is adding its id under each of its types. |
| TypeIndexing.AddUnderStep | src/main/java/com/opsysinc/example/sort/topological/NodeUtil.java:61-74 | Adding the id under one more type updates that key alone. |
| TypeIndexing.AllTypesSnoc | src/main/java/com/opsysinc/example/sort/topological/NodeUtil.java:55-58 | The types of a node list grow by exactly the types of the node appended. |
| TypeIndexing.IdsWithTypeSnoc | src/main/java/com/opsysinc/example/sort/topological/NodeUtil.java:55-74 | The ids carrying a type grow by the appended node's id exactly when it carries that type. |
| EdgeResolver.ResolveRefs | src/main/java/com/opsysinc/example/sort/topological/NodeUtil.java:133-148 | Resolving a node's references leaves its row as the max-merge of its old entries and the weight of each reference offered to every node listed under the referenced type. A type missing from the index offers nothing. |
| EdgeResolver.ReverseRow | src/main/java/com/opsysinc/example/sort/topological/NodeUtil.java:191-204 | Recording one forward row x reversed turns the transpose of the rows seen so far into the transpose of those rows plus x. |
| EdgeResolver.ReverseStep | src/main/java/com/opsysinc/example/sort/topological/NodeUtil.java:194-203 | Helper of ReverseRow: reversing one edge x → y adds x, with the edge's weight, to y's reversed row, where x was not yet present. |
| EdgeResolver.ReverseEdges | src/main/java/com/opsysinc/example/sort/topological/NodeUtil.java:188-226 | The reverse map built from a forward map is its exact transpose: every edge x → y of weight w becomes y → x of weight w, and nothing else. |
| EdgeResolver.TransposeEdge | src/main/java/com/opsysinc/example/sort/topological/NodeUtil.java:188-205 | y → x is a reversed edge iff x → y is a forward edge, with the same weight. |
| EdgeResolver.TransposeAdd | src/main/java/com/opsysinc/example/sort/topological/NodeUtil.java:194-203 | Adding a forward edge adds exactly its reversal to the transpose. |
| EdgeResolver.TransposeAt | src/main/java/com/opsysinc/example/sort/topological/NodeUtil.java:188-205 | The reversed row of y holds the sources of all edges into y, with their weights. |
| EdgeResolver.TransposeEmptyRow | src/main/java/com/opsysinc/example/sort/topological/NodeUtil.java:188-205 | A source with no edges adds nothing to the transpose. |
| EdgeResolver.IntegrateRow | src/main/java/com/opsysinc/example/sort/topological/NodeUtil.java:230-246 | Integrating one reversed row max-merges it into that node's row, creating the row when missing. |
| EdgeResolver.IntegrateReverse | src/main/java/com/opsysinc/example/sort/topological/NodeUtil.java:228-266 | Integrating a reverse map gives the node-by-node max-merge of the forward map and the reverse map. |
| EdgeResolver.MergeEdgesStep | src/main/java/com/opsysinc/example/sort/topological/NodeUtil.java:230-246 | Integrating one more reversed row changes only that node's merged row. |
| EdgeResolver.MergeEdgesAt | src/main/java/com/opsysinc/example/sort/topological/NodeUtil.java:228-266 | After integration an edge x → y exists iff it is forward or reversed. Its weight is at least each of those and equal to one of them. |
| EdgeResolver.ReverseAlso | src/main/java/com/opsysinc/example/sort/topological/NodeUtil.java:181-267 | Both forward maps are reversed before either is merged. The new before-map is the before-map max-merged with the transposed after-map, and the reverse for the after-map. There is one level of reverse inference, not a closure. |
| EdgeResolver.TransposeTargetsNonBlank | src/main/java/com/opsysinc/example/sort/topological/NodeUtil.java:242-244 | The ids the integration loop hands to mergeNodeRanks are forward sources, hence non-blank. |
| EdgeResolver.NodeOffersSnoc | src/main/java/com/opsysinc/example/sort/topological/NodeUtil.java:121-176 | One more node adds its own reference offers to the offers of its id, and nothing to other ids. |
| EdgeResolver.NodeOffersAbsent | src/main/java/com/opsysinc/example/sort/topological/NodeUtil.java:121-176 | An id no node carries receives no offers. |
| NodeOrders.ResolveNode | src/main/java/com/opsysinc/example/sort/topological/NodeUtil.java:123-148 | Resolving one more node gets or creates its row and keeps the invariant of the forward loop: every id seen so far has a row that is the max-merge of the offers of the nodes carrying it. |
| NodeOrders.ForwardOrders | src/main/java/com/opsysinc/example/sort/topological/NodeUtil.java:114-176 | The forward loop builds exactly the forward before-map and after-map. |
| NodeOrders.NodeOffersAreLinks | src/main/java/com/opsysinc/example/sort/topological/NodeUtil.java:133-146 | Id x is offered (y, w) iff some node with id x references with weight w a type that some node with id y carries. |
| NodeOrders.ForwardKeys | src/main/java/com/opsysinc/example/sort/topological/NodeUtil.java:124-130 | Every input id, and only an input id, has a row in each forward map, possibly empty. |
| NodeOrders.ForwardEdge | src/main/java/com/opsysinc/example/sort/topological/NodeUtil.java:121-176 | Forward edge x → y exists on a side iff some node with id x references on that side a type some node with id y carries. Types nobody carries contribute nothing. |
| NodeOrders.ForwardWeight | src/main/java/com/opsysinc/example/sort/topological/NodeUtil.java:121-176 | A forward edge's weight is at least every weight linking x to y, and is one of them: the maximum over the referenced types. |
| NodeOrders.ForwardTargets | src/main/java/com/opsysinc/example/sort/topological/NodeUtil.java:136-146 | Forward edges point only to input ids. |
| NodeOrders.ResolvedKeys | src/main/java/com/opsysinc/example/sort/topological/NodeUtil.java:121-270 | The resolved maps have a row for exactly the input ids. |
| NodeOrders.ResolvedEdge | src/main/java/com/opsysinc/example/sort/topological/NodeUtil.java:181-267 | With reverse inference, x → y is on a side iff x links to y on that side or y links to x on the opposite side. Its weight is at least every such link's weight and equal to one of them. |
| NodeOrders.ResolvedTargets | src/main/java/com/opsysinc/example/sort/topological/NodeUtil.java:181-267 | Resolved edges point only to input ids. |
| NodeOrders.PartialForwardDone | src/main/java/com/opsysinc/example/sort/topological/NodeUtil.java:121-176 | When the forward loop's invariant holds over all the input, the maps built are the forward maps. |
| NodeOrders.RefTargetsNonBlank | src/main/java/com/opsysinc/example/sort/topological/NodeUtil.java:143-146 | The ids the forward loop hands to mergeNodeRanks carry a referenced type, hence are non-blank. |
| NodeOrders.ForwardSourcesNonBlank | src/main/java/com/opsysinc/example/sort/topological/NodeUtil.java:203 | The ids the reverse builds hand to mergeNodeRanks are sources of forward edges, hence non-blank. |
| NodeOrders.FindNodeOrders | src/main/java/com/opsysinc/example/sort/topological/NodeUtil.java:97-274 | Each output map is the (optionally cleared) original overwritten, key by key, with the resolved map of its side. The result is true iff the input is non-empty. |
| Sequencer.SortNodeIds | src/main/java/com/opsysinc/example/sort/topological/NodeUtil.java:542-588 | An id still being checked fails with that id and the checking set. A done id is a no-op. A failure implies the after-edges have a cycle. On success: the checking set is restored, the id is done, and the new done ids are each appended once, each after the targets of its after-edges. |
| Sequencer.VisitTargets | src/main/java/com/opsysinc/example/sort/topological/NodeUtil.java:566-576 | Recursing into every after-target either fails on a cycle or leaves every target done, appended in post-order. |
| Sequencer.Sweep | src/main/java/com/opsysinc/example/sort/topological/NodeUtil.java:434-448 | One pass over the work ids either fails on a cycle or leaves every work id done, checking empty, and the appended ids settled. |
| Sequencer.PrependOrphans | src/main/java/com/opsysinc/example/sort/topological/NodeUtil.java:461-467 | Every leftover id is put in front, once each, and the sorted ids follow unchanged. |
| Sequencer.PrependOne | src/main/java/com/opsysinc/example/sort/topological/NodeUtil.java:465 | Helper of PrependOrphans: one leftover id goes in front of the list. |
| Sequencer.SortAll | src/main/java/com/opsysinc/example/sort/topological/NodeUtil.java:417-467 | On success, every id appears once and after each target of its after-edges. A failure implies a cycle, and when every edge source is an id, fails iff the after-edges have a cycle. |
| Sequencer.SettledAcyclic | src/main/java/com/opsysinc/example/sort/topological/NodeUtil.java:556-558 | An order listing every edge source after its targets rules out a cycle, so a cycle is the only way to fail. |
| Sequencer.PathPositions | src/main/java/com/opsysinc/example/sort/topological/NodeUtil.java:561-586 | Along any after-path, each step moves strictly earlier in a settled order. |
| Sequencer.CycleFromStack | src/main/java/com/opsysinc/example/sort/topological/NodeUtil.java:556-558 | Reaching an id that is still on the checking path closes a cycle. |
| Sequencer.SettledAppend | src/main/java/com/opsysinc/example/sort/topological/NodeUtil.java:440-443 | Appending a traversal's settled ids to a settled list keeps it settled. |
| Sequencer.SettledSnoc | src/main/java/com/opsysinc/example/sort/topological/NodeUtil.java:582-586 | Appending an id whose targets are all listed or done keeps the list settled. |
| Sequencer.SettledEdge | src/main/java/com/opsysinc/example/sort/topological/NodeUtil.java:584-586 | In a settled list, each after-target of an id is done or listed earlier. |
| Sequencer.ExtendsTrans | src/main/java/com/opsysinc/example/sort/topological/NodeUtil.java:572-575 | Two successive traversals together extend the list and done set as one does. |
| Sequencer.ExtendsSnoc | src/main/java/com/opsysinc/example/sort/topological/NodeUtil.java:579-586 | Marking the current id done and appending it extends the traversal. |
| Sequencer.ExtendsShift | src/main/java/com/opsysinc/example/sort/topological/NodeUtil.java:437-443 | A traversal into a fresh list extends the aggregate list when its ids are appended. |
| Sequencer.ExtendsInit | src/main/java/com/opsysinc/example/sort/topological/NodeUtil.java:427 | Helper of SortAll (the empty sets and lists it starts from): a traversal from no done ids and an empty list yields exactly a settled list. |
| Sequencer.IndexOf | src/main/java/com/opsysinc/example/sort/topological/NodeUtil.java:488 | Helper of RankOf (the `allSortedNodeIds.get` lookups): the result is the first position of the id in the list. |
| Sequencer.IndexOfUnique | src/main/java/com/opsysinc/example/sort/topological/NodeUtil.java:488 | Helper of RankOf: in a list without duplicates, an id's position is its only one. |
| Ranker.RankOf | src/main/java/com/opsysinc/example/sort/topological/NodeUtil.java:477-504 | One id's rank is at least the base rank and at least each earlier id's rank plus its after-edge weight to it, and equals one of those bounds. |
| Ranker.ComputeRanks | src/main/java/com/opsysinc/example/sort/topological/NodeUtil.java:471-505 | The ranks list has one rank per sorted id, each defined as in RankOf. |
| Ranker.RankFloor | src/main/java/com/opsysinc/example/sort/topological/NodeUtil.java:477-485 | Every rank is at least the base rank, and the first id's rank is exactly the base rank. |
| Ranker.RankingUnique | src/main/java/com/opsysinc/example/sort/topological/NodeUtil.java:471-505 | The ranks are determined by the order, the edges and the base rank. |
| Ranker.RankingUniqueAt | src/main/java/com/opsysinc/example/sort/topological/NodeUtil.java:485-500 | A rank is determined by the ranks before it. |
| Ranker.RanksRespectEdges | src/main/java/com/opsysinc/example/sort/topological/NodeUtil.java:485-500 | In a settled order, every after-edge x → y points to an earlier y, and x's rank is at least y's rank plus the weight. |
| Ranker.RankOkExtend | src/main/java/com/opsysinc/example/sort/topological/NodeUtil.java:504 | Appending a rank leaves the earlier ranks valid. |
| Buckets.BuildInputMap | src/main/java/com/opsysinc/example/sort/topological/NodeUtil.java:404-409 | The index of the input by id, later ids overwriting earlier ones. |
| Buckets.InputMapLast | src/main/java/com/opsysinc/example/sort/topological/NodeUtil.java:404-409 | An id is a key iff some node carries it, and it maps to the last input node with that id. |
| Buckets.InputMapKeys | src/main/java/com/opsysinc/example/sort/topological/NodeUtil.java:404-409 | The index's keys are exactly the input ids. |
| Buckets.BucketNodes | src/main/java/com/opsysinc/example/sort/topological/NodeUtil.java:508-524 | Over as many positions as both lists have, each sorted id's node is appended, in order, to the bucket of its rank. Missing buckets are created and existing ones are kept. |
| Buckets.BucketOne | src/main/java/com/opsysinc/example/sort/topological/NodeUtil.java:512-523 | Helper of BucketNodes: one position's node is appended to the bucket of its rank. |
| Buckets.BucketedStep | src/main/java/com/opsysinc/example/sort/topological/NodeUtil.java:515-523 | Dealing one more position appends its node to its rank's bucket and changes no other key. |
| Buckets.BucketedMembership | src/main/java/com/opsysinc/example/sort/topological/NodeUtil.java:508-524 | A node is in bucket r iff it was there before or it is the node of a sorted id of rank r. |
| Buckets.PlacedMembership | src/main/java/com/opsysinc/example/sort/topological/NodeUtil.java:508-524 | The nodes dealt into bucket r are exactly those of the sorted ids of rank r. |
| Buckets.PlacedSize | src/main/java/com/opsysinc/example/sort/topological/NodeUtil.java:508-524 | Bucket r receives one node per sorted id of rank r. |
| Buckets.PlacedNone | src/main/java/com/opsysinc/example/sort/topological/NodeUtil.java:515-521 | A rank no sorted id has receives nothing. |
| Buckets.MinExists | src/main/java/com/opsysinc/example/sort/topological/NodeUtil.java:351 | Helper of MinKey: a non-empty set of ranks has a smallest element, the first key a TreeMap yields. |
| Buckets.MinKey | src/main/java/com/opsysinc/example/sort/topological/NodeUtil.java:351 | Helper of AppendAscending (the TreeMap's key order): the result belongs to the key set and bounds every key from below. |
| Buckets.AppendAscending | src/main/java/com/opsysinc/example/sort/topological/NodeUtil.java:351-363 | The target gains the buckets' nodes in ascending rank order. The flag is true iff some node was appended. |
| Buckets.AscendingOrdered | src/main/java/com/opsysinc/example/sort/topological/NodeUtil.java:351-363 | In the flattened list, the rank of each position never decreases, and each node is in the bucket of its position's rank. |
| Buckets.AscendingComplete | src/main/java/com/opsysinc/example/sort/topological/NodeUtil.java:351-363 | Every node of every bucket appears in the flattened list. |
| Buckets.BucketedMultiset | src/main/java/com/opsysinc/example/sort/topological/NodeUtil.java:508-524 | Flattening the buckets dealt into an empty map gives the sorted ids' nodes, each as often as in the sorted order. |
| Buckets.NodesOfOnce | src/main/java/com/opsysinc/example/sort/topological/NodeUtil.java:508-524 | When every sorted id's node carries that id and no id repeats, each sorted id's node occurs exactly once among the dealt nodes. |
| Buckets.PlacedPrecedes | src/main/java/com/opsysinc/example/sort/topological/NodeUtil.java:520-523 | Inside a bucket, the node of an earlier sorted id comes before the node of a later one. |
| Buckets.AscendingPrecedes | src/main/java/com/opsysinc/example/sort/topological/NodeUtil.java:354-362 | In the flattened list, a node of a lower-rank bucket comes before a node of a higher-rank one, and inside one bucket the bucket's order is kept. |
| Buckets.AscendingRemove | src/main/java/com/opsysinc/example/sort/topological/NodeUtil.java:354-362 | Flattening loses no bucket: it holds, as a multiset, the nodes of any one bucket plus the flattening of the others. |
| Buckets.ListedPrecedes | src/main/java/com/opsysinc/example/sort/topological/NodeUtil.java:351-363 | In the list output, the node of a lower-rank sorted id comes first, and of two ids of equal rank the earlier-sorted one comes first. |
| Buckets.ListedOnce | src/main/java/com/opsysinc/example/sort/topological/NodeUtil.java:351-363 | The list output holds each sorted id's node exactly once and nothing else. |
| NodeUtil.SortInputIds | src/main/java/com/opsysinc/example/sort/topological/NodeUtil.java:417-467 | The traversal fails iff the after-edges have a cycle. On success, every input id appears exactly once, after each target of its after-edges. |
| NodeUtil.FindNodesSortedRanks | src/main/java/com/opsysinc/example/sort/topological/NodeUtil.java:389-527 | Fails iff the resolved after-edges have a cycle, leaving the target only cleared. On success: every input id is sorted once, after its after-targets; the ranks are the cumulative ranks from the base rank; each id's node is dealt into the bucket of its rank in the (optionally cleared) target; the result is true iff the input is non-empty. |
| NodeUtil.RankAndBucket | src/main/java/com/opsysinc/example/sort/topological/NodeUtil.java:471-524 | The ranks are the cumulative ranks of the order, and the target is dealt by them. |
| NodeUtil.NonEmptyIds | src/main/java/com/opsysinc/example/sort/topological/NodeUtil.java:526 | The sorted list is non-empty iff the input is. |
| NodeUtil.OneBucket | src/main/java/com/opsysinc/example/sort/topological/NodeUtil.java:508-524 | In the rank map dealt by a successful sort, each id's node sits in the bucket of its own rank and in no other. |
| NodeUtil.OrderIndexed | src/main/java/com/opsysinc/example/sort/topological/NodeUtil.java:523 | Every sorted id is a key of the input index, so `inputMap.get` never returns null. |
| NodeUtil.NodeIdOf | src/main/java/com/opsysinc/example/sort/topological/NodeUtil.java:408 | The node indexed under an id carries that id. |
| NodeUtil.FindNodesSortedList | src/main/java/com/opsysinc/example/sort/topological/NodeUtil.java:335-366 | Fails iff the after-edges have a cycle, leaving the target only cleared. On success the (optionally cleared) target gains the sorted nodes in ascending rank order. The result is true iff the target was cleared or some node was appended. |
| NodeUtil.ListsEachInputOnce | src/main/java/com/opsysinc/example/sort/topological/NodeUtil.java:351-363 | On success the list overload appends each input id's node exactly once, and every node it appends is the indexed node of an input id. |
| NodeUtil.RankedListRespects | src/main/java/com/opsysinc/example/sort/topological/NodeUtil.java:485-500 | For the ranks of a settled order, an after-edge of non-negative weight x → y lists y's node before x's. |
| NodeUtil.ListedRespectsEdges | src/main/java/com/opsysinc/example/sort/topological/NodeUtil.java:351-363 | For every resolved after-edge x → y of non-negative weight, the list overload appends y's node before x's. |
| NodeUtil.NegativeWeightMisorders | src/main/java/com/opsysinc/example/sort/topological/NodeUtil.java:497-499 | On the example of the findings table, every successful sort lists B before C although B has an after-edge to C of weight −5. |
| NodeUtil.MisorderSorts | src/main/java/com/opsysinc/example/sort/topological/NodeUtil.java:556-558 | The example has no cycle, so both overloads succeed on it. |
| NodeUtil.MisorderEdges | src/main/java/com/opsysinc/example/sort/topological/NodeUtil.java:181-267 | The example's resolved after-edges are exactly C → A of weight 10 and B → C of weight −5. |
| NodeUtil.MisorderRank | src/main/java/com/opsysinc/example/sort/topological/NodeUtil.java:477-504 | Helper of NegativeWeightMisorders: in the example, A, C and B get ranks 0, 10 and 5. |
| NodeUtil.ListByClampedRanks | src/main/java/com/opsysinc/example/sort/topological/NodeUtil.java:351-363 | Corrected listing: ranks are computed with every negative after-edge weight raised to zero, and then every after-edge x → y, whatever its weight, lists y's node before x's. |
| Ranker.ClampEdge | src/main/java/com/opsysinc/example/sort/topological/NodeUtil.java:497-499 | Clamping keeps every edge and makes its weight non-negative, at least the original and equal to it when the original is non-negative. |
| Ranker.SettledClamp | src/main/java/com/opsysinc/example/sort/topological/NodeUtil.java:556-586 | An order settled for the after-edges is settled for the clamped ones. |
| Ranker.ClampAgrees | src/main/java/com/opsysinc/example/sort/topological/NodeUtil.java:471-505 | With no negative weight, the clamped ranks are the ranks findNodesSorted computes, so the correction changes nothing on such inputs. |

## Left out

- Integer width: ranks and weights are unbounded integers. Java's `long` wrap-around in `prevRank + nodeRank` (NodeUtil.java line 499) is not modelled.
- Iteration order: Java hash iteration order and the `LinkedHashSet` order of the checking and done sets. Contracts are order-independent, so the exact order of ids between unrelated nodes, and of nodes inside a bucket, is not pinned down.
- Null checks and message text:
  - `DataUtil`'s null checks and their logging are not modelled; absent collections cannot occur here.
  - The exception's message text is reduced to the checking set and the id: `SortError.CycleDetected`.
  - `Logger` and `toString` are not modelled.
- Container types:
  - General `Collection` targets are not modelled. A `Set` target whose `add` reports false is not covered; the list overload is modelled on a list and the rank map on lists as buckets.
  - `NodeData`'s lazy initialisation and synchronized wrappers are not modelled; a node is an immutable value.
- Aliasing: collections are passed by value and returned. The source mutates the caller's objects in place, and the model does not capture any aliasing between them.
- On the exception path, the model reports only the cleared target. It does not model the source's partly built temporaries: the done and checking sets and the sorted-id lists.
- Sequencer.SortNodeIds: requires every after-edge target to be non-blank, which is stronger than the source. The source checks only each id it actually traverses. In context, all targets are input ids.
- Sequencer.SortAll: requires every edge target to be one of the ids. This holds for the resolved after-edges, where both ends are input ids. The iff with `HasCycle` is stated only when every edge source is an id too.
- NodeUtil.FindNodesSortedRanks: requires every input id to be non-blank. This excludes only inputs the source rejects: the sweep starts from every key of `inputMap` (`workNodes`, line 417), whatever the reverse flag, and sortNodeIds checks each id it is given (line 549), so a blank id always ends in `IllegalArgumentException`.
- EdgeResolver.ReverseRow: requires the source id to be non-blank only when its row has an edge. This is when the source calls mergeNodeRanks on it.
- Buckets.BucketNodes: requires every sorted id to be indexed. For an id that is not, the source would put a `null` into the bucket (`inputMap.get` at line 523 returns `null`, which `ArrayList.add` accepts); this cannot happen, because the sorted ids are exactly the input ids (`NodeUtil.OrderIndexed`).
- A `null` edge row (`afterNodes.get` of an id without a row) cannot occur, because every input id has a row (`NodeOrders.ResolvedKeys`). In the model, `EdgesOf` returns the empty row. That is what sortNodeIds does with a `null` row (line 569); the rank loop would instead throw a `NullPointerException` at `nodeRanks.get` (lines 481 and 493).

## Findings

| source | as written | input that shows it | evidently intended | confidence | as-written member | corrected member |
|---|---|---|---|---|---|---|
| src/main/java/com/opsysinc/example/sort/topological/NodeUtil.java:351-363 | The list overload orders nodes by cumulative rank (`tempMap` is a `TreeMap`). A rank is `max(baseRank, prevRank + nodeRank)` (lines 497-499), and a negative weight can give a node a lower rank than a node it must follow. | Nodes A (types {a}), C (types {c}, after {a: 10}) and B (types {b}, after {c: −5}), base rank 0. The sort is A, C, B with ranks 0, 10, 5, so the list is A, B, C: B comes before C although B must follow C. | The list is in dependency order: every node comes after each node it must follow, as the sorted ids do. | low, not executed | NodeUtil.NegativeWeightMisorders | NodeUtil.ListByClampedRanks |

The entry points `NodeUtil.FindNodesSortedRanks` and `NodeUtil.FindNodesSortedList` model the code as written. `NodeUtil.ListByClampedRanks` is the corrected listing: it ranks with negative weights raised to zero (`Ranker.ClampWeights`), and every after-edge then lists its target first. `Ranker.ClampAgrees` shows it computes the same ranks whenever no weight is negative.
