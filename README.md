# data-storage placement, modelled in Dafny

This project models how the data-storage system (package
`net.nowtryz.datastorage`) places data items on the storage nodes of a
weighted graph of users and storage nodes. Each user is interested in some
data ids, each item has a size, and each storage node has a capacity. The
model covers:

- **Registry**: the global `Data` registry (`entity/Data.java`): ids from a
  counter, lookup by id, `null` for an unknown id.
- **EntityNode**: the storage node of `entity/SystemNode.java`. It is a
  class whose `storage` field (a `LinkedList` in the source) is a
  `seq<int>`. It has its used space, free space, room test and overweight
  test, and an explicit id counter.
- **VerticesNode**: the earlier storage node of `vertices/SystemNode.java`.
  Its `storage` is an `array<int>` that `addToStorage` replaces with a
  rebuilt, longer array. The constructor with data keeps the caller's array
  and does not copy it.
- **ArraysUtils**: `util/ArraysUtils.java`, the two linear membership scans.
- **Ledger**: what the placement code computes over stored lists: used
  space, `List.remove(Object)` (the first occurrence only),
  `Stream.distinct()`, the kept and evicted entries of a knapsack
  selection, and the multiset of everything stored.
- **Topology**: the helpers shared by all three graph classes
  (`graph/AbstractDataGraph.java`, copied into `graph/DataGraph.java` and,
  for the vertex classes, into `graphs/DataGraph.java`). They cover the two
  vertex kinds, the `nextSystemNode` step of a closest-first traversal, the
  guard in `addEdge` that rejects a User-User edge, the vertex filters,
  `getData`, the per-user filter and `computeScores`.
- **Knapsack**: `OptimizedDataGraph.KnapSack`, the exhaustive 0/1
  recursion. It is shown to return an optimal feasible selection whenever
  every position has a score and a weight.
- **Optimized**: `graph/OptimizedDataGraph.java`. Every pending item goes
  on its best node regardless of room (`putOnBestSpot`). Then each
  overweight node is retired and runs the knapsack, and the entries it does
  not select are evicted and queued again (`removeInvalidData`). This
  repeats until nothing is pending or no node remains.
- **Makeshift**: `graph/MakeshiftDataGraph.java`, with `placeData`,
  `placeSpecificData` and the closest-first walk of `placeUserData`.
  `graph/DataGraph.java` repeats this code equivalently (it inlines the
  storage-node filter, and its `getData` is a parallel stream), so
  Makeshift models both. `Makeshift.OptimizedPlacement`
  is the no-argument `optimizedPlacement()` of `graph/DataGraph.java`, whose
  per-item step is empty.
- **Traversal**: the record of a closest-first walk that Makeshift and
  LegacyGraph share. It records the position each interest was sent to,
  the ids each node received, the nodes passed over without room, and the
  fact that the walk never turns back.
- **LegacyGraph**: `graphs/DataGraph.java`, where `placeData(User)` runs
  the same walk over the array-based nodes of VerticesNode. Its walk
  members (`Seek`, `Locate`, `Advance`, `PlaceInterest`, `WalkInterests`
  and their helpers) repeat Makeshift's on purpose, because the source
  writes the walk twice over two node classes.

Input and output of the graph library become parameters:

- The closest-first order of the vertices from a user is a sequence.
- A vertex set is a duplicate-free sequence.
- A shortest-path term (`1 / (d * d)`, or `d * d` in `placeSpecificData`)
  is a function parameter.

Java exceptions become an `Outcome` or `Result` error:

- `NullPointer` for an unboxed or dereferenced `null`;
- `NotEnoughSpace` for the `"There isn't enough space"` runtime exception;
- `DuplicateKey` for `Collectors.toMap` on a repeated key;
- `IllegalArgument` for the User-User edge.

On an error the state is what the code leaves behind at the point of the
throw.

The model keeps some behaviours exactly as the code has them:

- **The knapsack position/id mix-up.** In its include branch the knapsack
  adds its position `pos` to the selection, but it looks values and weights
  up in maps keyed by data id. As long as the capacity is non-negative, it
  therefore throws unless the distinct stored ids are exactly
  `0 .. n-1`. `Optimized.KnapsackNeedsIdsAsPositions` proves this, and
  `Optimized.IdsOneTwoThrow` gives a node storing ids 1 and 2.
- **Where `placeUserData` and `placeData(User)` give up.** They report
  "not enough space" only when the traversal runs out without reaching a
  storage node after the current one (`Traversal.Halted`). When the last
  vertex of the order is a storage node, the walk stops there and adds the
  item whatever its room. This differs from a reading where every
  traversal that runs out fails. An unregistered interest mostly fails
  with a null-pointer error, because its size is asked for as soon as a
  node is current and the traversal goes on. It reports "not enough
  space" only as the first interest of an order holding no storage vertex.
- **The `null` filter in `getData`.** It runs on the boxed ids before the
  lookup, so an unregistered id still yields a `null` `Data`. The next
  dereference throws.
- **The placement rules of `placeSpecificData` and `putOnBestSpot`.**
  `placeSpecificData` picks a node of minimal summed squared distance
  among the nodes with room. `putOnBestSpot` picks a node of maximal
  summed inverse squared distance among all remaining nodes.

## Model

| member | source | states |
|---|---|---|
| Registry.GetFromId | src/main/java/net/nowtryz/datastorage/entity/Data.java:25-27 | the lookup of an id yields its registered item, and null exactly when the id was never registered |
| Registry.SizeOf | src/main/java/net/nowtryz/datastorage/entity/SystemNode.java:57-59 | an id adds its registered size to the used space; an unregistered id is filtered out and adds 0 |
| Registry.DataRegistry.constructor | src/main/java/net/nowtryz/datastorage/entity/Data.java:7-8 | the counter starts at 0 with an empty registry, which is consistent |
| Registry.DataRegistry.NewData | src/main/java/net/nowtryz/datastorage/entity/Data.java:9-15 | `new Data(size)` takes the current counter value as a fresh id, registers itself under it and bumps the counter, keeping every item under its own id below the counter |
| Registry.DataRegistry.Lookup | src/main/java/net/nowtryz/datastorage/entity/Data.java:25-27 | `getFromId` consults the registry and is null for every id at or above the counter |
| Registry.CreateTwo | src/main/java/net/nowtryz/datastorage/entity/Data.java:9-15 | two items created in a row get consecutive distinct ids, keep their sizes and can both be looked up |
| Ledger.UsedSpace | src/main/java/net/nowtryz/datastorage/entity/SystemNode.java:57-59 | the summed sizes of a stored list are never negative while no registered size is |
| Ledger.UsedSpaceAppend | src/main/java/net/nowtryz/datastorage/entity/SystemNode.java:57-59 | appending an id to a storage list adds exactly that id's registered size to the used space |
| Ledger.UsedSpaceConcat | src/main/java/net/nowtryz/datastorage/entity/SystemNode.java:57-59 | the used space of two lists put together is the sum of their used spaces |
| Ledger.UsedSpacePermutation | src/main/java/net/nowtryz/datastorage/entity/SystemNode.java:57-59 | the used space depends only on the multiset of stored ids, not on their order |
| Ledger.FirstIndex | src/main/java/net/nowtryz/datastorage/entity/SystemNode.java:49-51 | the index found holds the id and no earlier entry does |
| Ledger.RemoveFirst | src/main/java/net/nowtryz/datastorage/entity/SystemNode.java:49-51 | `List.remove(Object)` leaves a list without the id unchanged, and takes exactly one entry out of a list with it |
| Ledger.RemoveFirstSpec | src/main/java/net/nowtryz/datastorage/entity/SystemNode.java:49-51 | on a list with the id, `List.remove(Object)` cuts out exactly its first occurrence and keeps the rest in order |
| Ledger.RemoveFirstAccounting | src/main/java/net/nowtryz/datastorage/entity/SystemNode.java:49-51 | removing a stored id frees exactly its registered size and drops one occurrence from the multiset of stored ids |
| Ledger.RemoveFirstNoDuplicates | src/main/java/net/nowtryz/datastorage/graph/OptimizedDataGraph.java:43 | removing a node from a duplicate-free node list keeps exactly the other nodes, one fewer when it was there |
| Ledger.Kept | src/main/java/net/nowtryz/datastorage/graph/OptimizedDataGraph.java:95-98 | what stays on a node after the eviction stream holds only stored entries that are selected |
| Ledger.Evicted | src/main/java/net/nowtryz/datastorage/graph/OptimizedDataGraph.java:95-99 | the entries the eviction stream returns are stored entries that are not selected |
| Ledger.KeptEvictedPartition | src/main/java/net/nowtryz/datastorage/graph/OptimizedDataGraph.java:95-99 | every stored entry is either kept (exactly when selected) or evicted (exactly when not), and together they are the stored multiset |
| Ledger.KeptStep | src/main/java/net/nowtryz/datastorage/graph/OptimizedDataGraph.java:95-98 | one step of the stream over the snapshot: a selected entry stays, and `removeFromStorage` on an unselected one drops it from the remaining stored list |
| Ledger.KeptNoDuplicates | src/main/java/net/nowtryz/datastorage/graph/OptimizedDataGraph.java:95-98 | the kept entries of a duplicate-free list have no duplicates either |
| Ledger.Distinct | src/main/java/net/nowtryz/datastorage/graph/AbstractDataGraph.java:98 | `distinct()` yields each element of the stream once and nothing else, in the order of first occurrence |
| Ledger.DistinctFrom | src/main/java/net/nowtryz/datastorage/graph/AbstractDataGraph.java:98 | `distinct()` past the elements already seen: each unseen element once, nothing seen, in the order of first occurrence |
| Ledger.DistinctOfDistinct | src/main/java/net/nowtryz/datastorage/graph/AbstractDataGraph.java:98 | `distinct()` leaves a duplicate-free stream unchanged |
| Ledger.SameElementsPermutation | src/main/java/net/nowtryz/datastorage/graph/AbstractDataGraph.java:98 | two duplicate-free lists with the same elements are permutations of each other |
| Ledger.AllStoredUpdate | src/main/java/net/nowtryz/datastorage/graph/OptimizedDataGraph.java:61-75 | changing one node's list swaps that node's old ids for its new ones in the union of everything stored |
| ArraysUtils.ArrayContains | src/main/java/net/nowtryz/datastorage/util/ArraysUtils.java:4-7 | the generic scan answers true exactly when the value is in the array, at its first occurrence |
| ArraysUtils.ArrayContainsInt | src/main/java/net/nowtryz/datastorage/util/ArraysUtils.java:9-12 | the `int[]` scan answers true exactly when some element equals the value |
| ArraysUtils.ContainsIsSetMembership | src/main/java/net/nowtryz/datastorage/util/ArraysUtils.java:9-12 | the answer depends only on which values the array holds, and is false on an empty array |
| EntityNode.IdCounter.constructor | src/main/java/net/nowtryz/datastorage/entity/SystemNode.java:14 | the static id counter starts at its initial value |
| EntityNode.SystemNode.constructor | src/main/java/net/nowtryz/datastorage/entity/SystemNode.java:22-25 | a new node takes the counter's next id, has the given capacity and stores nothing |
| EntityNode.SystemNode.WithData | src/main/java/net/nowtryz/datastorage/entity/SystemNode.java:32-35 | a node built with data ids stores exactly those ids in array order, through one `addToStorage` each |
| EntityNode.SystemNode.AddToStorage | src/main/java/net/nowtryz/datastorage/entity/SystemNode.java:41-43 | the id is appended at the end of the storage list |
| EntityNode.SystemNode.RemoveFromStorage | src/main/java/net/nowtryz/datastorage/entity/SystemNode.java:49-51 | the first occurrence of the id is dropped, the list is unchanged when the id is absent, and it shrinks by one otherwise |
| EntityNode.SystemNode.GetFreeSpace | src/main/java/net/nowtryz/datastorage/entity/SystemNode.java:65-67 | free and used space add up to the capacity, so free space is negative on an overweight node |
| EntityNode.SystemNode.GetData | src/main/java/net/nowtryz/datastorage/entity/SystemNode.java:86-88 | the copy is fresh and holds the stored ids in order |
| EntityNode.SystemNode.GetCapacity | src/main/java/net/nowtryz/datastorage/entity/SystemNode.java:90-92 | yields the capacity fixed at construction |
| EntityNode.SystemNode.GetUsedSpace | src/main/java/net/nowtryz/datastorage/entity/SystemNode.java:57-59 | the used space is never negative while no registered size is |
| EntityNode.SystemNode.HasEnoughSpace | src/main/java/net/nowtryz/datastorage/entity/SystemNode.java:74-76 | `hasEnoughSpace(need)` holds exactly when the used space plus the need is within the capacity |
| EntityNode.SystemNode.IsOverweight | src/main/java/net/nowtryz/datastorage/entity/SystemNode.java:82-84 | a node is overweight exactly when it has no room even for a need of 0, that is exactly when its free space is negative |
| EntityNode.AddWithinCapacity | src/main/java/net/nowtryz/datastorage/entity/SystemNode.java:41-43 | adding an item that had room keeps the node within capacity, its used space growing by the item's size |
| EntityNode.AddIfRoom | src/main/java/net/nowtryz/datastorage/entity/SystemNode.java:74-76 | a check-then-add adds exactly when `hasEnoughSpace` held, leaving the node within capacity, and otherwise leaves the storage untouched, whatever is done to a `getData` copy |
| EntityNode.Storages | src/main/java/net/nowtryz/datastorage/entity/SystemNode.java:86-88 | the stored lists of a list of nodes, node by node |
| EntityNode.StoragesAfterOne | src/main/java/net/nowtryz/datastorage/graph/OptimizedDataGraph.java:98 | when only one node's list changed, the union of all stored ids swapped that node's old ids for its new ones |
| VerticesNode.SystemNode.constructor | src/main/java/net/nowtryz/datastorage/vertices/SystemNode.java:23-26 | a new node takes the counter's next id, the given capacity and a fresh empty array |
| VerticesNode.SystemNode.WithData | src/main/java/net/nowtryz/datastorage/vertices/SystemNode.java:33-36 | the caller's array itself becomes the storage, without a copy |
| VerticesNode.SystemNode.AddToStorage | src/main/java/net/nowtryz/datastorage/vertices/SystemNode.java:42-46 | the storage becomes a fresh array holding the old contents followed by the id |
| VerticesNode.SystemNode.GetFreeSpace | src/main/java/net/nowtryz/datastorage/vertices/SystemNode.java:60-62 | free and used space add up to the capacity |
| VerticesNode.SystemNode.GetNeighbours | src/main/java/net/nowtryz/datastorage/vertices/SystemNode.java:77-79 | always a fresh empty array |
| VerticesNode.SystemNode.GetUsedSpace | src/main/java/net/nowtryz/datastorage/vertices/SystemNode.java:52-54 | the used space of the array is never negative while no registered size is |
| VerticesNode.SystemNode.HasEnoughSpace | src/main/java/net/nowtryz/datastorage/vertices/SystemNode.java:69-71 | `hasEnoughSpace(need)` holds exactly when the used space plus the need is within the capacity |
| VerticesNode.SharedArray | src/main/java/net/nowtryz/datastorage/vertices/SystemNode.java:33-36 | two nodes built on one array share it, and so their used space, and take consecutive ids |
| Topology.NextSystemNode | src/main/java/net/nowtryz/datastorage/graph/AbstractDataGraph.java:28-35 | the step stops just past the first storage vertex from the cursor, passing over only users, and yields null only when the order runs out with users alone left |
| Topology.AddEdge | src/main/java/net/nowtryz/datastorage/graph/AbstractDataGraph.java:45-48 | the edge is refused with an illegal-argument error exactly when the other endpoint is a user, and is otherwise added from the user |
| Topology.AddEdgeNodeFirst | src/main/java/net/nowtryz/datastorage/graph/AbstractDataGraph.java:59-61 | the swapped overload behaves as the user-first one |
| Topology.UserUserEdgeRejected | src/main/java/net/nowtryz/datastorage/graphs/DataGraph.java:23-39 | neither overload ever connects two users |
| Topology.GetUsers | src/main/java/net/nowtryz/datastorage/graph/AbstractDataGraph.java:67-72 | the result holds exactly the users of the vertex set |
| Topology.GetSystemNodes | src/main/java/net/nowtryz/datastorage/graph/AbstractDataGraph.java:78-83 | the result holds exactly the storage nodes of the vertex set |
| Topology.FiltersListEachOnce | src/main/java/net/nowtryz/datastorage/graph/AbstractDataGraph.java:67-83 | from a vertex set, both filters list each vertex of their kind once |
| Topology.AllInterests | src/main/java/net/nowtryz/datastorage/graph/AbstractDataGraph.java:93-97 | the flattened stream holds exactly the interests of the users |
| Topology.DataIds | src/main/java/net/nowtryz/datastorage/graph/AbstractDataGraph.java:93-98 | the distinct interest ids: each id some user is interested in, once, in the order of first occurrence over the users and their interests |
| Topology.GetData | src/main/java/net/nowtryz/datastorage/graph/AbstractDataGraph.java:92-103 | one entry per distinct interest id, in their order, null exactly when the id is unregistered, otherwise its registered item |
| Topology.PendingIdsOfData | src/main/java/net/nowtryz/datastorage/graph/AbstractDataGraph.java:92-103 | a `getData` list without nulls carries exactly the distinct interest ids |
| Topology.Interested | src/main/java/net/nowtryz/datastorage/graph/MakeshiftDataGraph.java:33-35 | the filtered users are exactly those whose interests contain the id |
| Topology.ComputeScoresConcat | src/main/java/net/nowtryz/datastorage/graph/AbstractDataGraph.java:114-120 | the score of no users is 0 and the score splits over a concatenation of users |
| Topology.ComputeScores | src/main/java/net/nowtryz/datastorage/graph/AbstractDataGraph.java:114-120 | the score of a node is non-negative when every user's term is |
| Knapsack.SumsConcat | src/main/java/net/nowtryz/datastorage/graph/OptimizedDataGraph.java:126-129 | the summed value and weight of a selection are additive |
| Knapsack.Compute | src/main/java/net/nowtryz/datastorage/graph/OptimizedDataGraph.java:123-152 | a selection entry with no score or weight throws a null-pointer error, and an overweight selection gives the null selection with zero totals. Otherwise the result extends the selection by increasing positions below n, is within capacity, and reports its own value and weight |
| Knapsack.StartCompute | src/main/java/net/nowtryz/datastorage/graph/OptimizedDataGraph.java:119-121 | a non-null result is an increasing selection of positions within capacity |
| Knapsack.ComputeStep | src/main/java/net/nowtryz/datastorage/graph/OptimizedDataGraph.java:145-151 | the recursive case returns the include branch only when it is strictly more valuable, so the exclude branch wins ties |
| Knapsack.ComputeOptimal | src/main/java/net/nowtryz/datastorage/graph/OptimizedDataGraph.java:123-152 | from any feasible partial selection, with every position keyed and non-negative data, the recursion returns a non-null selection worth at least every feasible completion |
| Knapsack.BranchOptimal | src/main/java/net/nowtryz/datastorage/graph/OptimizedDataGraph.java:145-151 | both branches optimal make their better one optimal |
| Knapsack.StartComputeOptimal | src/main/java/net/nowtryz/datastorage/graph/OptimizedDataGraph.java:119-121 | with non-negative capacity, every position keyed and non-negative data, the result is a feasible selection worth at least every feasible subset of positions |
| Knapsack.LastPosition | src/main/java/net/nowtryz/datastorage/graph/OptimizedDataGraph.java:138-140 | past the last position a feasible selection is returned as it is, with its value and weight, and no completion of it is better |
| Knapsack.ComputeReachesMissing | src/main/java/net/nowtryz/datastorage/graph/OptimizedDataGraph.java:126-129 | a position without a score or weight is always reached by a feasible selection, so the recursion throws |
| Knapsack.StartComputeNeedsPositionKeys | src/main/java/net/nowtryz/datastorage/graph/OptimizedDataGraph.java:119-129 | with non-negative capacity, the knapsack returns only if every position is a key of both maps |
| Knapsack.NegativeCapacityGivesNull | src/main/java/net/nowtryz/datastorage/graph/OptimizedDataGraph.java:135 | a negative capacity prunes the empty selection at once, giving the null selection |
| Optimized.ScoreMap | src/main/java/net/nowtryz/datastorage/graph/OptimizedDataGraph.java:83-91 | the score map succeeds exactly when every stored id is registered and none repeats; otherwise it fails with a null-pointer or duplicate-key error. It maps each stored id to the score of the users interested in it |
| Optimized.KnapsackFor | src/main/java/net/nowtryz/datastorage/graph/OptimizedDataGraph.java:83-93 | the knapsack call fails, with a null-pointer or duplicate-key error only, whenever some stored id is unregistered or repeated. A selection it returns lists increasing positions of the storage and weighs at most the capacity |
| Optimized.WeightMap | src/main/java/net/nowtryz/datastorage/graph/OptimizedDataGraph.java:114-116 | the weight map has the registered stored ids as keys and their sizes as values |
| Optimized.Ids | src/main/java/net/nowtryz/datastorage/graph/OptimizedDataGraph.java:99 | the ids of a list of items, one for one |
| Optimized.RemoveInvalidData | src/main/java/net/nowtryz/datastorage/graph/OptimizedDataGraph.java:82-102 | it fails exactly when the knapsack throws or returns the null set over a non-empty storage. The error is the knapsack's own in the first case and a null-pointer error in the second, and the node is left as it was. Otherwise the node keeps its selected entries, returns the others as their registered items, and ends within capacity or empty, with nothing lost |
| Optimized.EvictUnselected | src/main/java/net/nowtryz/datastorage/graph/OptimizedDataGraph.java:95-99 | the stream leaves the node with the selected entries of its snapshot and returns the registered items of the others, in storage order |
| Optimized.EvictTracked | src/main/java/net/nowtryz/datastorage/graph/OptimizedDataGraph.java:82-102 | `removeInvalidData` seen from the whole node list: on success the node is settled, the ghost copy of the lists follows it, and the evicted ids leave the stored union |
| Optimized.WeightIsUsedSpace | src/main/java/net/nowtryz/datastorage/graph/OptimizedDataGraph.java:114-116 | the knapsack weight of a selection of stored ids is their used space |
| Optimized.EvictionWithinCapacity | src/main/java/net/nowtryz/datastorage/graph/OptimizedDataGraph.java:93-98 | after a non-null knapsack selection, the entries kept use no more space than the capacity |
| Optimized.KnapsackNeedsIdsAsPositions | src/main/java/net/nowtryz/datastorage/graph/OptimizedDataGraph.java:93 | with non-negative capacity, the knapsack on a node returns only if the stored ids are distinct and are exactly 0 .. n-1 |
| Optimized.IdsOneTwoThrow | src/main/java/net/nowtryz/datastorage/graph/OptimizedDataGraph.java:145-147 | a node storing registered ids 1 and 2 makes the knapsack throw |
| Optimized.PutOnBestSpot | src/main/java/net/nowtryz/datastorage/graph/OptimizedDataGraph.java:61-75 | it fails on a repeated node or on no node at all, changing nothing. Otherwise the id is appended to a node of maximal score whatever its room, and no other node changes |
| Optimized.PlaceTracked | src/main/java/net/nowtryz/datastorage/graph/OptimizedDataGraph.java:61-75 | `putOnBestSpot` seen from the whole node list: it fails with a duplicate key on a repeated open node and with not-enough-space on no open node, changing nothing. Otherwise one node of highest score gains the id and the stored union gains it once |
| Optimized.PlaceRound | src/main/java/net/nowtryz/datastorage/graph/OptimizedDataGraph.java:30-36 | the pending entries go in order, each to an open node of highest score for the users interested in it (recorded as `where`, with the lists before each step in `hist`); nodes that are not open do not change. It stops at the first null (null-pointer), on a repeated open node (duplicate key) or with no open node (not enough space). A round that placed everything added exactly the pending ids to the stored union |
| Optimized.BestRunSnoc | src/main/java/net/nowtryz/datastorage/graph/OptimizedDataGraph.java:31-36 | a `forEach` step that put the next entry on a best open node extends the record of the round by that step |
| Optimized.EvictRound | src/main/java/net/nowtryz/datastorage/graph/OptimizedDataGraph.java:39-47 | an open node is retired exactly when it was overweight at the start of the eviction (its list then is `orig`); every retired node ends settled, and the retained ones stay within capacity. An open node that was not overweight keeps its list, even when a later `removeInvalidData` fails. The evicted entries leave the stored union and form the next pending list, and a round that left work shrinks the open list |
| Optimized.Examine | src/main/java/net/nowtryz/datastorage/graph/OptimizedDataGraph.java:40-45 | one open node of the eviction stream: retired when it is overweight, kept otherwise, moving the round's invariant on by one node; a failure leaves every node that was not overweight as it was |
| Optimized.Retire | src/main/java/net/nowtryz/datastorage/graph/OptimizedDataGraph.java:43-45 | an overweight open node leaves the open list and is settled by `removeInvalidData`, its evicted entries joining the pending list; no other node changes |
| Optimized.RetireStep | src/main/java/net/nowtryz/datastorage/graph/OptimizedDataGraph.java:43-45 | a settled, dropped node and an unchanged rest move the round's invariant on by one node |
| Optimized.CloseRound | src/main/java/net/nowtryz/datastorage/graph/OptimizedDataGraph.java:39-47 | after the last open node the invariant yields what a round promises: the open nodes left are those that were not overweight, every other node is settled, and the stored and pending ids add up to what was stored |
| Optimized.DropOpen | src/main/java/net/nowtryz/datastorage/graph/OptimizedDataGraph.java:43 | `nodes::remove` on an open node takes exactly that node out of the remaining list |
| Optimized.PlaceData | src/main/java/net/nowtryz/datastorage/graph/OptimizedDataGraph.java:22-53 | on success every node is within capacity or empty, and the stored union grew by exactly the distinct interest ids |
| Makeshift.FitsIsRoom | src/main/java/net/nowtryz/datastorage/graph/MakeshiftDataGraph.java:47 | the walk's room test on a looked-up item is exactly the room a registered id has on the node |
| Makeshift.Fits | src/main/java/net/nowtryz/datastorage/graph/MakeshiftDataGraph.java:47 | `node.hasEnoughSpace(data.getSize())`: never true of a null entry, and otherwise true exactly when the used space plus the size is within the capacity |
| Makeshift.PlaceSpecificData | src/main/java/net/nowtryz/datastorage/graph/MakeshiftDataGraph.java:63-83 | it fails with not-enough-space, changing nothing, exactly when no node has room. Otherwise the id goes to a node with room of minimal cost among those with room, that node stays within capacity, and no other node changes |
| Makeshift.PlaceTracked | src/main/java/net/nowtryz/datastorage/graph/MakeshiftDataGraph.java:63-83 | `placeSpecificData` seen from the whole node list: on success a node of least cost with room gains the id; otherwise nothing changes and no node has room. No node within capacity goes over |
| Makeshift.PlaceNext | src/main/java/net/nowtryz/datastorage/graph/MakeshiftDataGraph.java:31-36 | one turn of the `forEach`: a null entry fails with a null-pointer error, an entry no node has room for with not-enough-space, and nothing changes then. Otherwise the entry is placed at a node of least cost with room and the run moves on by one entry (`EachInv`) |
| Makeshift.PlaceEach | src/main/java/net/nowtryz/datastorage/graph/MakeshiftDataGraph.java:31-36 | items are placed in list order until the first null (null-pointer) or the first item no node has room for. Each placed item went to a node of least cost among those with room at its turn (recorded as `where`, with the lists before each step in `hist`). The stored union gains exactly the placed ids, and no node within capacity goes over |
| Makeshift.CheapestRunSnoc | src/main/java/net/nowtryz/datastorage/graph/MakeshiftDataGraph.java:31-36 | a `forEach` step that put the next item on a cheapest node with room extends the record of the run by that step |
| Makeshift.PlaceData | src/main/java/net/nowtryz/datastorage/graph/MakeshiftDataGraph.java:26-37 | the distinct interest ids are placed in order, stopping at the first unregistered id (null-pointer) or at the first with no room anywhere (not-enough-space). Each placed item went to a node of least cost among those with room at its turn. The stored union gains exactly the ids placed, and no node within capacity goes over |
| Makeshift.OptimizedPlacement | src/main/java/net/nowtryz/datastorage/graph/DataGraph.java:111-122 | with an empty per-item step the only effect is the null-pointer error of the first null item's `getId`, and nothing is stored |
| Makeshift.Seek | src/main/java/net/nowtryz/datastorage/graph/MakeshiftDataGraph.java:47-49 | the inner loop stops at the current or a later storage node with room, or at the last vertex, passing over only nodes without room. It yields null when the order runs out with users alone left. The size of a null item is asked for exactly when a storage vertex, the current one included, stands before the last vertex; otherwise a null item yields null only when the order has no storage vertex at all |
| Makeshift.Locate | src/main/java/net/nowtryz/datastorage/graph/MakeshiftDataGraph.java:46-50 | the lookup and inner loop of one interest: the node it goes to, which has room or is the last vertex, with only nodes without room passed over; otherwise the error `Traversal.Halted` allows. Nothing changes |
| Makeshift.StoredAlong | src/main/java/net/nowtryz/datastorage/graph/MakeshiftDataGraph.java:43-53 | the stored lists of the storage vertices, position by position along the order |
| Makeshift.Capacities | src/main/java/net/nowtryz/datastorage/graph/MakeshiftDataGraph.java:43-53 | the capacities of the storage vertices, position by position along the order |
| Makeshift.DepositTracked | src/main/java/net/nowtryz/datastorage/graph/MakeshiftDataGraph.java:51 | `addToStorage` on the node the walk stopped at extends the walk's record by one interest, and no other node changes |
| Makeshift.Settle | src/main/java/net/nowtryz/datastorage/graph/MakeshiftDataGraph.java:47-51 | the end of a round records the interest at the node the walk stopped at, after the nodes passed over without room |
| Makeshift.Advance | src/main/java/net/nowtryz/datastorage/graph/MakeshiftDataGraph.java:47-51 | a node found with room, or the last one, takes the id and the walk moves on to it by one recorded interest |
| Makeshift.ProgressStep | src/main/java/net/nowtryz/datastorage/graph/MakeshiftDataGraph.java:46-52 | a round that advanced the walk moves the loop state on by one interest |
| Makeshift.PlaceInterest | src/main/java/net/nowtryz/datastorage/graph/MakeshiftDataGraph.java:46-52 | one interest: on an error nothing changes and the error is a null item or a walk that ran out without room (for an unregistered id, only at the first interest of an order without storage vertices); otherwise the walk advances by one recorded interest |
| Makeshift.WalkInterests | src/main/java/net/nowtryz/datastorage/graph/MakeshiftDataGraph.java:46-52 | the loop places interests in order and succeeds exactly when all are placed; otherwise it stops at the first one that halted the walk, with the error `Traversal.Halted` allows there |
| Makeshift.PlaceUserData | src/main/java/net/nowtryz/datastorage/graph/MakeshiftDataGraph.java:43-53 | each placed interest is registered and went to a storage vertex no earlier than the previous one, each node gaining exactly the ids sent to it. Every storage vertex passed over had no room, and each interest went where it had room unless that was the last vertex. It fails on an unregistered interest or, when the order ends on users, with no storage vertex from the current one on having room. An unregistered interest runs out of room only as the first one of an order without storage vertices |
| Traversal.Routed | src/main/java/net/nowtryz/datastorage/graph/MakeshiftDataGraph.java:51 | the ids sent to a position, in order, no more than there are ids |
| Traversal.RoutedSnoc | src/main/java/net/nowtryz/datastorage/graph/MakeshiftDataGraph.java:51 | sending one more id to a position extends that position's list and no other |
| Traversal.RoutedMembers | src/main/java/net/nowtryz/datastorage/graph/MakeshiftDataGraph.java:51 | with distinct ids, an id is in a position's list exactly when it was sent there |
| Traversal.RoutedNotIn | src/main/java/net/nowtryz/datastorage/graph/MakeshiftDataGraph.java:51 | an id that is not among the ids is sent nowhere |
| Traversal.Prev | src/main/java/net/nowtryz/datastorage/graph/MakeshiftDataGraph.java:45-47 | the walk for an interest starts at the node that took the previous one, or at the first vertex |
| Traversal.RoutedStep | src/main/java/net/nowtryz/datastorage/graph/MakeshiftDataGraph.java:51 | one more id added at a position keeps every node's list equal to its initial list plus the ids sent to it |
| Traversal.SkippedStep | src/main/java/net/nowtryz/datastorage/graph/MakeshiftDataGraph.java:47-48 | passing over nodes without room and adding at the next keeps the record of the skipped nodes |
| Traversal.RoomOrLastStep | src/main/java/net/nowtryz/datastorage/graph/MakeshiftDataGraph.java:47-51 | an interest placed with room, or at the last vertex, joins the record of where room was found |
| Traversal.PositionsStep | src/main/java/net/nowtryz/datastorage/graph/MakeshiftDataGraph.java:47-48 | taking the storage vertex just before a cursor that only moved forward extends the recorded positions |
| Traversal.ForwardSnoc | src/main/java/net/nowtryz/datastorage/graph/MakeshiftDataGraph.java:44-48 | a position no earlier than the last keeps the walk going forward |
| Traversal.ForwardOrdered | src/main/java/net/nowtryz/datastorage/graph/MakeshiftDataGraph.java:44-48 | in a forward walk every position is no earlier than all those before it, since the one iterator is never restarted |
| Traversal.OnceDistinct | src/main/java/net/nowtryz/datastorage/graph/MakeshiftDataGraph.java:44 | a closest-first order visits each vertex once, so two positions hold different vertices |
| Traversal.NoDuplicatesOnce | src/main/java/net/nowtryz/datastorage/graph/MakeshiftDataGraph.java:44 | a duplicate-free order lists each vertex once, position by position |
| Traversal.WalkStart | src/main/java/net/nowtryz/datastorage/graph/MakeshiftDataGraph.java:44-45 | before the first interest the walk has no current node and has recorded nothing |
| Traversal.AdvancedWalk | src/main/java/net/nowtryz/datastorage/graph/MakeshiftDataGraph.java:46-52 | a round that advanced the walk moves the walk's state on by one interest, still forward |
| LegacyGraph.Nodes | src/main/java/net/nowtryz/datastorage/graphs/DataGraph.java:41-51 | every storage vertex of the order is among the nodes the walk may change |
| LegacyGraph.Arrays | src/main/java/net/nowtryz/datastorage/graphs/DataGraph.java:41-51 | every storage vertex's current array is among the arrays the walk reads |
| LegacyGraph.FitsIsRoom | src/main/java/net/nowtryz/datastorage/graphs/DataGraph.java:45 | the room test on a looked-up item is exactly the room a registered id has on the array-based node |
| LegacyGraph.Fits | src/main/java/net/nowtryz/datastorage/graphs/DataGraph.java:45 | `node.hasEnoughSpace(data.getSize())`: never true of a null entry, and otherwise true exactly when the used space plus the size is within the capacity |
| LegacyGraph.Seek | src/main/java/net/nowtryz/datastorage/graphs/DataGraph.java:45-47 | the inner loop stops at the current or a later storage node with room, or at the last vertex, passing over only nodes without room, and yields null when users alone are left. The size of a null item is asked for exactly when a storage vertex, the current one included, stands before the last vertex; otherwise a null item yields null only when the order has no storage vertex at all |
| LegacyGraph.Locate | src/main/java/net/nowtryz/datastorage/graphs/DataGraph.java:44-48 | the lookup and inner loop of one interest: the node it goes to, which has room or is the last vertex, with only nodes without room passed over; otherwise the error `Traversal.Halted` allows. Nothing changes |
| LegacyGraph.StoredAlong | src/main/java/net/nowtryz/datastorage/graphs/DataGraph.java:41-51 | the array contents of the storage vertices, position by position |
| LegacyGraph.Capacities | src/main/java/net/nowtryz/datastorage/graphs/DataGraph.java:41-51 | the capacities of the storage vertices, position by position |
| LegacyGraph.DepositTracked | src/main/java/net/nowtryz/datastorage/graphs/DataGraph.java:49 | `addToStorage` rebuilds only the chosen node's array and extends the walk's record by one interest |
| LegacyGraph.Settle | src/main/java/net/nowtryz/datastorage/graphs/DataGraph.java:45-49 | the end of a round records the interest at the node the walk stopped at |
| LegacyGraph.Advance | src/main/java/net/nowtryz/datastorage/graphs/DataGraph.java:45-49 | a node found with room, or the last one, takes the id and the walk moves on to it by one recorded interest |
| LegacyGraph.ProgressStep | src/main/java/net/nowtryz/datastorage/graphs/DataGraph.java:44-50 | a round that advanced the walk moves the loop state on by one interest |
| LegacyGraph.PlaceInterest | src/main/java/net/nowtryz/datastorage/graphs/DataGraph.java:44-50 | one interest: on an error nothing changes and the error is a null item or a walk that ran out without room (for an unregistered id, only at the first interest of an order without storage vertices); otherwise the walk advances by one recorded interest |
| LegacyGraph.WalkInterests | src/main/java/net/nowtryz/datastorage/graphs/DataGraph.java:44-50 | the loop succeeds exactly when all interests are placed, and otherwise stops where the walk halted, with the error `Traversal.Halted` allows there |
| LegacyGraph.PlaceData | src/main/java/net/nowtryz/datastorage/graphs/DataGraph.java:41-51 | the same walk as `placeUserData` over array-based nodes: forward positions at storage vertices, each node's array its old contents plus the ids sent to it, skipped nodes without room, and the same two ways to fail, an unregistered interest running out of room only as the first one of an order without storage vertices |

## Left out

- The graph library (jgrapht) is not modelled. The closest-first order of
  a traversal is an input sequence, and a vertex set is a duplicate-free
  sequence. Shortest-path weights enter only through the score term, cost
  term or ordering given as parameters.
- `double` arithmetic becomes `real`; rounding and infinities (a user at
  distance 0) are not modelled.
- `int` arithmetic is unbounded: sizes and sums that wrap around 32 bits
  in Java are not modelled.
- The parallel stream of `getData` in `graph/DataGraph.java` is modelled
  as the sequential stream of `AbstractDataGraph`. Its order of
  encounter, and any concurrency, are not modelled.
- Ties among best nodes come from `HashMap` key order, which is not
  modelled. The contracts allow any node of maximal score (`putOnBestSpot`)
  or minimal cost (`placeSpecificData`).
- The static counters and the static `Data` map become explicit objects
  (`IdCounter`, `DataRegistry`) or a registry map parameter.
- `entity/Node.java`, `entity/User.java` and `vertices/Node.java`/`User.java`
  become the `Vertex` and `User` datatypes. Their own id counters are not
  modelled.
- net/nowtryz/datastorage/Data.java is not part of this model. The
  array-based nodes use the same id-to-item map as `entity/Data.java`.
- `toString`, the GUI, the `DataStorage` driver and `SimpleWeightedGraph`
  are not modelled. Neither is the edge weight an `addEdge` stores: the
  edge list is the graph's only state.
- ArraysUtils.ArrayContains: a `null` element of the array, whose `equals`
  throws in Java, is not modelled.
- Optimized.PlaceData: states only the successful outcome. On an error it
  promises nothing about the state the nodes are left in or about which
  error occurs.
- Optimized.EvictRound: on an error it states only that every open node
  that was not overweight keeps its list. Which error occurs and what the
  other nodes hold then are not stated.
- A user the node cannot reach is not modelled. `findPathBetween` then
  yields `null`, and its `getWeight()` throws a `NullPointerException` in
  `computeScores` (graph/AbstractDataGraph.java:117, reached from
  `putOnBestSpot` and `removeInvalidData`) and in `placeSpecificData`
  (graph/MakeshiftDataGraph.java:70). The score and cost terms are total
  functions, so every user counts as reachable.
- Topology.AddEdge: a second edge between the same two vertices is not
  modelled; the model appends it to the edge list. `AbstractDataGraph`
  extends the `SimpleWeightedGraph` of its own package `graph`, and
  graph/SimpleWeightedGraph.java is not part of this model. Its
  counterpart graphs/SimpleWeightedGraph.java shows what a duplicate does
  there. The Javadoc (graphs/SimpleWeightedGraph.java:30-38) promises
  `null` and an unchanged graph. The code, however, hands the `null` edge
  that the simple graph's `addEdge` gives for a duplicate straight to
  `setEdgeWeight` (graphs/SimpleWeightedGraph.java:47-48), and jgrapht's
  `setEdgeWeight` throws on a `null` or unknown edge. So a duplicate edge
  throws and never returns `null`.
- A knapsack selection is an increasing sequence of positions rather
  than a `LinkedHashSet`; both hold the same members in the same order.
- The two branches of the `KnapSack` recursion are computed in full, as in
  the code. Their exponential cost is not modelled.
