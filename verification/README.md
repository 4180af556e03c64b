# A verified model of go-kd-tree

go-kd-tree is a generic k-d tree for Go. The tree stores values that supply three things:

- a rotating "super-key" order `Order(rhs, dim)`, which compares on `dim` first and then on the following axes in turn;
- a squared Euclidean distance `Dist`;
- a single-axis squared distance `DistDim`.

The tree supports these operations:

- balanced bulk construction from a slice, by lower-median partitioning of one sorted index list per axis;
- insertion, and removal by replacement with a subtree minimum;
- minimum and maximum on a chosen axis;
- nearest-neighbour and k-nearest-neighbour search, both branch-and-bound;
- orthogonal range search through a caller-supplied classifier;
- pre-order listing of the values, and rebalancing;
- serialisation as pre-order items plus an in-order to pre-order index table.

k-nearest-neighbour search keeps its candidates in a capacity-bounded max-heap. That heap is built on a copy of Go's `container/heap` algorithms.

This project models all of that in Dafny as pure functions over an immutable tree and heap methods over sequences, and proves the properties the library relies on.

The modules are:

- `Outcomes` (points.dfy): `Option` and `Result`. A Go panic is the `Panic` result.
- `Points` (points.dfy): the value contract on integer points of any fixed length `d`. The order is the rotating lexicographic super-key of tensor2d.go, generalised to `d` axes.
- `Tensor3D` (points.dfy): the hand-optimised 3-D order of tensor3d.go, proved to be the same super-key.
- `Trees` (trees.dfy): the tree, the k-d invariant, and the test-side helpers.
- `Comparables` (comparables.dfy): the tie-breaking helpers `min`, `max`, `closest` and `midValue`.
- `Sorting` (sorting.dfy): the sort the construction code asks `sort.Slice` for.
- `Construction` (build.dfy): bulk construction, meaning the multi-list partitioning builder and the sort-and-split reference builder, plus `Balance`.
- `Mutation` (mutation.dfy): insert, remove, `findMin` and `findMax`.
- `Search` (search.dfy): nearest neighbour and range search.
- `Heap` (heap.dfy): the binary heap algorithms of internal/utils/generic_pq.go.
- `BoundedQueues` (queue.dfy): the capacity-bounded priority queue.
- `Knn` (knn.dfy): k-nearest-neighbour search.
- `Codec` (codec.dfy): Encode, the in-order table, and rebuilding from the encoded form.

A tree is `Valid` when all of these hold:

- it has at least one axis;
- its root satisfies the k-d invariant from axis 0;
- no value is stored twice;
- its `size` bookkeeping equals its node count.

Under the k-d invariant, every value of a node's left subtree orders `Lesser` than the node on the node's axis, and no value of the right subtree does. The axis advances by one, modulo `d`, per level.

## Model

| member | source | states |
|---|---|---|
| Points.NextAxis | kdtree.go:376-378 | the next splitting axis `(cd + 1) % d` is an axis, and wraps to 0 after the last |
| Points.PrevAxis | kdtree.go:508 | stepping back one axis `(cd - 1 + d) % d` is an axis and undoes NextAxis |
| Points.Order | internal/types/tensor2d.go:12-25 | the super-key orders Lesser only when the coordinate on `dim` is not larger, Greater only when it is not smaller, and a strict difference on `dim` decides the answer |
| Points.OrderConverse | internal/types/tensor2d.go:12-25 | swapping the operands swaps Lesser and Greater (antisymmetry) |
| Points.OrderTransitive | internal/types/tensor2d.go:12-25 | Lesser is transitive for every starting axis |
| Points.OrderLeTransitive | internal/types/tensor2d.go:12-25 | not-Greater is transitive, and strictly so when either step is strict |
| Points.OrderEqualIff | internal/types/tensor2d.go:12-25 | the order answers Equal exactly when the two points are equal |
| Points.DistDim | internal/types/tensor2d.go:27-31 | the single-axis squared distance is never negative |
| Points.DistFrom | internal/types/tensor2d.go:33-45 | the partial sum of squared differences from axis i on is non-negative, dominates each of its terms, and is 0 exactly when the points agree from axis i on |
| Points.Dist | internal/types/tensor2d.go:33-45 | the squared distance is 0 exactly when the points are equal and is at least the single-axis distance on every axis |
| Points.DistDimAcrossPlane | kdtree.go:444-449 | a plane point between the query and a value on one axis is no farther from the query on that axis than the value is, which makes the pruning sound |
| Tensor3D.OrderIsSuperKey | internal/types/tensor3d.go:10-31 | the 3-D order, which checks `dim` and then loops over the other two axes in rotation, is the rotating super-key, and is Equal exactly on equal points |
| Tensor3D.DistIsThreeSquares | internal/types/tensor3d.go:39-51 | the 3-D distance is the sum of the three single-axis squared distances |
| Trees.CountNodes | kdtree_internal_utils_test.go:13-18 | the node count is the number of stored values and is 0 only for the empty tree |
| Trees.Values | kdtree.go:133-141 | pre-order listing holds every stored value with its multiplicity, one entry per node |
| Trees.ValuesOf | kdtree.go:108-112 | listing a tree's values panics exactly when its size bookkeeping is negative, since the buffer is allocated with that capacity; otherwise it holds every stored value with its multiplicity, one entry per node |
| Trees.NewTestKDTree | kdtree_internal_utils_test.go:3-11 | the test constructor keeps the given root and dimension count, sets size to the node count, and is valid exactly when the root is a k-d tree without duplicates |
| Trees.SetLeft | kdtree_internal_utils_test.go:20-23 | only the left child changes, and the stored values change by exactly the swapped subtree |
| Trees.SetRight | kdtree_internal_utils_test.go:25-28 | only the right child changes, and the stored values change by exactly the swapped subtree |
| Trees.IdenticalTrees | kdtree_internal_utils_test.go:30-43 | the stack-based comparison answers true exactly when the two roots have the same shape and the same values |
| Comparables.Min | comparable_utils.go:3-8 | the result is one of the two operands; it is lhs exactly when lhs orders Lesser or the operands are equal, so ties go to rhs; it orders not-Greater than both |
| Comparables.Max | comparable_utils.go:10-15 | the result is one of the two operands; it is lhs exactly when lhs orders Greater or the operands are equal; it orders not-Lesser than both |
| Comparables.Closest | comparable_utils.go:21-36 | panics exactly when both candidates are missing; otherwise returns a present candidate at least as near as each present one, and returns nn1 over a different nn2 only when nn1 is strictly nearer |
| Comparables.MidValue | comparable_utils.go:38-42 | the value returned is the one stored at the returned index, and that index sits at the lower median position of the cut |
| Comparables.MedianIndex | comparable_utils.go:38-42 | the lower median position `(n - 1) / 2` has equally many positions on each side, or one more above |
| Sorting.SortPoints | kdtree_bench_approaches_test.go:18-20 | sorting on an axis returns a permutation of the input in super-key order |
| Sorting.SortedUnique | kdtree_bench_approaches_test.go:18-20 | two sorted permutations of the same values are equal, so the unstable sort's output does not depend on how it breaks ties |
| Sorting.SortPointsPerm | kdtree_bench_approaches_test.go:18-20 | sorting depends only on the multiset of inputs |
| Sorting.SortPointsOfSorted | kdtree_bench_approaches_test.go:18-20 | sorting an already sorted sequence leaves it unchanged |
| Sorting.SortIndices | kdtree.go:21-27 | sorting index lists returns a permutation of the indices ordered by the super-key of the values they name |
| Sorting.Iota | kdtree.go:23 | the initial index list is 0, 1, ..., n - 1 |
| Construction.Partition | kdtree.go:356-373 | splitting an index list around the median keeps only indices into the values and never grows the list |
| Construction.PartitionCount | kdtree.go:356-373 | each index goes to the low list exactly when its value orders Lesser than the median, to the high list exactly when it does not, and the median's own index to neither, with multiplicity kept |
| Construction.EqualBeforeMedianOverflows | kdtree.go:356-373 | when a value Equal to the median sorts before it in the cut list, partitioning any permutation of the cut routes more indices high than the upper half's slot holds, so the write at line 369 runs past its length |
| Construction.PartitionSorted | kdtree.go:356-373 | partitioning keeps each list sorted on its own axis |
| Construction.PartitionLikeCut | kdtree.go:349-373 | with distinct values, partitioning any list of the cut's indices gives exactly the cut's prefix below the median and the suffix above it |
| Construction.Halves | kdtree.go:343-374 | the rotated halves hold one index list per axis |
| Construction.HalvesWF | kdtree.go:340-378 | the median is the lower median of the axis-0 list, and both halves are again well-formed (each axis's list is a sorted permutation of the same index set) with the cut axis's successor rotated into slot 0 |
| Construction.HalvesFit | kdtree.go:349-354 | every list of the low half has `(n - 1) / 2` entries and every list of the high half the rest but one |
| Construction.MidIsMedian | comparable_utils.go:38-42 | the median picked for a cut is the value at its lower median position |
| Construction.BuildNew | kdtree.go:334-380 | the multi-list builder makes one node per index of the cut |
| Construction.BuildNewStep | kdtree.go:340-378 | the recursive calls receive well-formed halves whose sizes add up to the parent's less one |
| Construction.SplitAtMedian | kdtree_bench_approaches_test.go:18-32 | the sort-and-split step returns the lower median, the values at or below it and the values at or above it, with every input kept exactly once |
| Construction.CutSorted | kdtree_bench_approaches_test.go:21-32 | cutting a sorted sequence at an index splits it into a prefix ordered not after the pivot and a suffix ordered not before it |
| Construction.BuildOld | kdtree_bench_approaches_test.go:14-33 | the sort-and-split reference builder stores exactly the input values |
| Construction.BuildOldPerm | kdtree_bench_approaches_test.go:14-33 | the reference builder's tree depends only on the multiset of input values |
| Construction.BuildOldBalanced | kdtree_bench_approaches_test.go:14-33 | the reference builder's tree is balanced: at every node the two subtrees differ in size by at most one, with the larger on the right |
| Construction.BuildNewIsOld | kdtree.go:334-380 | the multi-list builder builds exactly the tree the sort-and-split reference builds from the same values |
| Construction.BuildNewElems | kdtree.go:334-380 | the multi-list builder stores exactly the values its index list names |
| Construction.ChildElems | kdtree.go:376-378 | the children built from the two halves store exactly the values below and above the median position |
| Construction.BuildNewIsKD | kdtree.go:334-380 | the multi-list builder's tree satisfies the k-d invariant |
| Construction.InitialIndices | kdtree.go:21-27 | one initial index list per axis |
| Construction.InitialIndicesWF | kdtree.go:21-27 | with distinct values, the initial lists are well-formed: each is a sorted permutation of 0, ..., n - 1 |
| Construction.NewKDTreeWithValues | kdtree.go:19-35 | panics for fewer than one axis; otherwise the tree is valid, has size `len(vs)`, stores exactly the inputs, is the reference builder's tree and is balanced |
| Construction.NewTreeFacts | kdtree.go:19-35 | the root built from the initial lists is a duplicate-free k-d tree with one node per value, equal to the reference builder's tree |
| Construction.OldKDTreeWithValues | kdtree_bench_approaches_test.go:5-12 | the reference constructor stores exactly the inputs but leaves size at 0, and otherwise agrees with NewKDTreeWithValues on distinct values |
| Construction.OldValues | kdtree_bench_approaches_test.go:35-49 | the reference listing, which appends to an unallocated slice and so never panics, is the same pre-order listing as Values |
| Construction.ValuesShape | kdtree.go:133-141 | the listing of a tree whose values have d coordinates has d-coordinate entries, and a duplicate-free tree lists no value twice |
| Construction.Balance | kdtree.go:269-272 | panics exactly when the size bookkeeping is negative (in Values) or there are fewer than one axis; otherwise keeps dims, size and the stored values, and gives a balanced duplicate-free k-d tree that is valid exactly when the size bookkeeping matched |
| Construction.BalanceIdempotent | kdtree.go:269-272 | balancing succeeds exactly when the size bookkeeping is non-negative, and then rebalancing the result changes nothing |
| Mutation.InsertAt | kdtree.go:408-427 | insertion leaves a non-empty tree; when it reports failure the tree is unchanged and already held the value; on success exactly one copy of the value is added |
| Mutation.InsertAtFinds | kdtree.go:408-427 | on a k-d tree, insertion succeeds exactly when the value is not stored yet |
| Mutation.InsertAtKD | kdtree.go:408-427 | insertion preserves the k-d invariant |
| Mutation.Insert | kdtree.go:114-122 | into an empty root, the value becomes the root and size is left as it was; otherwise, on a k-d tree, the value is added once unless already present, the invariant is kept, and size grows by one exactly when it was added |
| Mutation.InsertIntoEmptyLosesCount | kdtree.go:114-118 | inserting into a valid empty tree gives a one-node tree whose size is still 0, which is not valid |
| Mutation.InsertCounted | kdtree.go:114-122 | the corrected Insert builds the same root as Insert and differs from it only on an empty root |
| Mutation.LostCountPanicsBalance | kdtree.go:108-131 | inserting into an empty tree, removing that value and inserting another leaves the size at -1, after which Balance panics in Values |
| Mutation.InsertCountedValid | kdtree.go:114-122 | the corrected Insert keeps a valid tree valid and adds the value exactly when it was absent |
| Mutation.FindMinAt | kdtree.go:542-574 | the minimum search answers nothing only on the empty subtree, and otherwise returns a stored value |
| Mutation.Smallest | kdtree.go:553-573 | findMin's choice at a node is the node's value or a present child's answer; it orders no later than any of them; a value other than the node's is chosen only when strictly before it, and the right child's answer over the left's only when strictly before that |
| Mutation.FindMinIsLeast | kdtree.go:542-574 | on a k-d tree, the value found orders not-Greater than every stored value on the target axis |
| Mutation.FindMaxAt | kdtree.go:576-603 | the maximum search answers nothing only on the empty subtree, and otherwise returns a stored value |
| Mutation.Largest | kdtree.go:588-602 | findMax's choice at a node is the node's value or a present child's answer; it orders no earlier than any of them; a value other than the node's is chosen only when strictly after it, and the right child's answer over the left's only when strictly after that |
| Mutation.FindMaxIsGreatest | kdtree.go:576-603 | on a k-d tree, the value found orders not-Lesser than every stored value on the target axis |
| Mutation.FindMin | kdtree.go:72-81 | reports nothing exactly for an empty tree or a target axis out of range; otherwise returns a stored value that is least on that axis when the tree is a k-d tree |
| Mutation.FindMax | kdtree.go:83-92 | reports nothing exactly for an empty tree or a target axis out of range; otherwise returns a stored value that is greatest on that axis when the tree is a k-d tree |
| Mutation.RemoveAt | kdtree.go:382-406 | on success exactly one copy of the value is removed; the empty tree is returned unchanged with failure |
| Mutation.RemoveMatched | kdtree.go:388-401 | removing the node's own value (replacing it by the right subtree's minimum, or by the left subtree's minimum with the pruned left subtree moved to the right, or dropping a leaf) removes exactly that one copy |
| Mutation.RemoveAtFinds | kdtree.go:382-406 | on a k-d tree, removal succeeds exactly when the value is stored, and on failure the tree is unchanged |
| Mutation.RemoveAtKD | kdtree.go:382-406 | removal preserves the k-d invariant |
| Mutation.RemoveAtValid | kdtree.go:124-131 | removal with size decremented on success keeps a valid tree valid |
| Mutation.Remove | kdtree.go:124-131 | on success the value was stored, exactly one copy is gone and size drops by one; on a k-d tree it succeeds exactly when the value is stored and otherwise changes nothing; validity is preserved |
| Search.NearestAt | kdtree.go:429-452 | the recursive nearest-neighbour search answers nothing exactly on the empty subtree |
| Search.NearestAtStored | kdtree.go:429-452 | the answer is a stored value |
| Search.FarSide | kdtree.go:444-449 | every value on the far side of a node's splitting plane is at least the plane's single-axis distance from the query |
| Search.NearestVia | kdtree.go:434-451 | one node's step of the nearest-neighbour search answers a point never farther from the query than the node's own value |
| Search.NearestViaNearest | kdtree.go:434-451 | one node's step, which combines the near branch's answer with the node and explores the far branch only when the plane is no farther than the best, is nearest among the node and both branches |
| Search.NearestIsNearest | kdtree.go:429-452 | on a k-d tree, no stored value is nearer to the query than the answer |
| Search.NearestNeighbor | kdtree.go:94-100 | reports nothing exactly for an empty tree; otherwise returns a stored value which, on a k-d tree, has the least distance to the query |
| Search.RangeAt | kdtree.go:274-296 | every value returned is stored and in range |
| Search.Follow | kdtree.go:285-289 | a panic in the one searched branch propagates; otherwise the node's contribution comes first |
| Search.Both | kdtree.go:290-292 | a panic in either branch propagates; otherwise the results are the node's, then the left branch's, then the right branch's |
| Search.InRangeValuesMembers | kdtree.go:274-296 | the reference answer holds exactly the members the classifier puts in range |
| Search.RangeAtComplete | kdtree.go:274-296 | with a classifier that answers only before, inside or after and prunes honestly, range search on a k-d tree does not panic and returns exactly the stored in-range values, in pre-order |
| Search.RangeNode | kdtree.go:279-295 | one node's step: right branch only when the node is before the range, left only when after, both when inside |
| Search.PrunedLeft | kdtree.go:286-287 | a node before the range on its axis has nothing in range in its left branch |
| Search.PrunedRight | kdtree.go:288-289 | a node after the range on its axis has nothing in range in its right branch |
| Search.RangeSearch | kdtree.go:102-106 | every value returned is stored and in range; with an honest classifier on a k-d tree the answer is exactly the in-range values in pre-order |
| Search.BoxClassifier | kdtree_2d_test.go:900-925 | the tests' box classifier puts a value in range exactly when it lies in the half-open box |
| Search.BoxHonest | kdtree_2d_test.go:900-925 | the box classifier answers within range on every axis and prunes honestly |
| Search.RangeSearchBox | kdtree_2d_test.go:900-925 | range search with the box classifier on a valid tree returns exactly the stored values inside the box |
| Heap.Parent | internal/utils/generic_pq.go:53 | the parent of position 0 is 0, which stops sift-up at the root, and every other position's parent is a smaller position having it as a child |
| Heap.Swap | priorityQueue.go:32-34 | exchanges two slots and leaves the rest and the multiset of items alone |
| Heap.RootIsMax | priorityQueue.go:27-30 | since Less means higher priority, the root of a heap has the highest priority |
| Heap.Up | internal/utils/generic_pq.go:51-60 | sift-up restores the heap over the prefix, keeps the multiset, leaves the suffix and an already-ordered heap unchanged |
| Heap.Down | internal/utils/generic_pq.go:62-80 | sift-down orders the subtree under i0, keeps the multiset and touches only that subtree; when it reports no move nothing changed, and when it reports a move slot i0 holds one of i0's former children |
| Heap.LessChild | internal/utils/generic_pq.go:69-72 | sift-down compares with a child inside the heap of highest priority, and takes the right child exactly when it lies inside the heap and has strictly higher priority than the left |
| Heap.Init | internal/utils/generic_pq.go:14-20 | heapify gives a heap with the same items |
| Heap.Push | internal/utils/generic_pq.go:22-25 | append then sift-up keeps a heap and adds exactly the new item |
| Heap.Pop | internal/utils/generic_pq.go:27-32 | removes and returns the root, an item of highest priority, and leaves a heap of the rest |
| Heap.Remove | internal/utils/generic_pq.go:34-43 | removes and returns the item at position i and leaves a heap of the rest |
| Heap.Fix | internal/utils/generic_pq.go:45-49 | after one position of a heap changes, sift-down or else sift-up restores a heap with the same items |
| BoundedQueues.NewQueue | priorityQueue.go:18-23 | a new queue is an empty heap with the given capacity |
| BoundedQueues.PeekIsMax | priorityQueue.go:56-58 | peeking returns a stored item of highest priority |
| BoundedQueues.Take | priorityQueue.go:49-54 | the queue's own Pop removes the last slot only and keeps the capacity |
| BoundedQueues.TakeUndoesAppend | priorityQueue.go:49-54 | taking after appending gives back the queue and the item |
| BoundedQueues.Offer | priorityQueue.go:36-47 | below capacity the item is appended; at capacity an empty queue panics, an item whose priority is not below the head's is rejected and the queue is unchanged, and otherwise the head is evicted through the heap before the item is appended |
| BoundedQueues.UpFromLast | internal/utils/generic_pq.go:22-25 | sifting the appended last item up gives a heap with the same items, changing nothing when it already was one |
| BoundedQueues.Push | internal/utils/generic_pq.go:22-25 | pushing into the bounded queue grows it by one below capacity, keeps it at capacity otherwise, keeps a heap, and keeps the lowest-priority items among everything offered |
| BoundedQueues.RetainsAfterPush | priorityQueue.go:36-47 | each of the three outcomes of a push keeps the property that the queue holds the lowest priorities offered so far, never more than its capacity |
| BoundedQueues.PushAll | priorityQueue.go:36-47 | after pushing a sequence into a queue of positive capacity, it holds the capacity-many lowest-priority items, or all of them when fewer |
| Knn.PopLast | kdtree.go:534-540 | popping an empty path gives no node and the left direction; otherwise the last step comes off |
| Knn.PopLastUndoesAppend | kdtree.go:534-540 | popping after appending gives back the path and the step |
| Knn.Descend | kdtree.go:489-506 | the descent records a path of nodes from the root to a leaf, each step going to the query's side of the split, and ends on the axis after the leaf's |
| Knn.DescendStep | kdtree.go:492-505 | one descent step goes left exactly when the query orders Lesser on the node's axis, into a strictly smaller subtree that keeps the invariant |
| Knn.Visit | kdtree.go:509-525 | offering a node and then searching its far branch only when the queue is not full or the plane is strictly nearer than the farthest kept item panics exactly at capacity 0, and accounts for the node and the far branch as either offered or pruned |
| Knn.Climb | kdtree.go:508-526 | one step of the walk back up keeps the walk's bookkeeping and panics exactly at capacity 0 |
| Knn.KnnAt | kdtree.go:484-527 | the search of a subtree panics exactly when the queue has capacity 0 and the subtree is non-empty; otherwise every value of the subtree has been offered to the queue or pruned, and what the queue keeps is still the lowest of what it was offered |
| Knn.Drain | kdtree.go:461-467 | popping k times panics exactly when the queue holds fewer than k items; otherwise it gives k values in non-increasing priority order and, from a queue of exactly k items, all of them |
| Knn.KNN | kdtree.go:454-470 | returns nothing when the root is nil or size is below k; otherwise panics exactly when k is 0 or the tree has fewer than k nodes (possible only when size overstates the count), and else returns k stored values, farthest first, which on a k-d tree are no farther than any value left out, and are distinct when the tree holds no duplicates |
| Knn.NoNeighboursPanics | kdtree.go:454-470 | asking a one-node tree for zero neighbours panics |
| Knn.KNearest | kdtree.go:454-470 | the corrected search never panics on a valid tree, returns nothing for k = 0, and otherwise gives the same guarantees as KNN |
| Knn.AnswerNearest | kdtree.go:454-470 | on a k-d tree, each value returned is no farther from the query than any stored value left out |
| Knn.AnswerOrder | kdtree.go:461-467 | the values come out farthest first |
| Knn.AnswerDistinct | kdtree.go:461-467 | a duplicate-free tree gives distinct answers |
| Knn.ItemsOfCount | kdtree.go:510-514 | each stored value is offered (as the item built by Knn.ItemOf) with its distance as priority, with its multiplicity |
| Codec.PreorderIsValues | kdtree.go:298-311 | the items written are the values Values lists, in the same order |
| Codec.InorderElems | kdtree.go:313-332 | in-order lists the same values as pre-order |
| Codec.InorderFromMeaning | kdtree.go:313-332 | for a subtree whose root is at pre-order position p, the table lists, for each in-order position, the pre-order position holding that value, and is a permutation of the subtree's positions |
| Codec.TableStep | kdtree.go:321-332 | the node's table is its left table, then its own position, then its right table |
| Codec.Encode | kdtree.go:216-267 | panics exactly when the item count disagrees with size; otherwise writes the current version, the dimension count, the values in pre-order and one table entry per value |
| Codec.EncodeTable | kdtree.go:223 | the written table is a permutation of the item positions with entry i naming the item at in-order position i |
| Codec.Decode | kdtree.go:37-70 | panics exactly on a version other than the current one, on tables of unequal length, or on fewer than one axis; otherwise returns a valid tree of the items, one node each |
| Codec.DecodeEncode | kdtree.go:37-70 | reading back what a valid tree wrote gives the tree rebalanced |
| Codec.DecodeEncodeBuilt | kdtree.go:37-70 | a bulk-built tree reads back as exactly itself |

## Left out

- The FlatBuffers byte layout of Encode (kdtree.go:225-266) and the generated encoding package are not modelled. The container is a record of its four fields.
- The per-value JSON encoding and decoding of the tensor types are foreign library calls. Each value stands for its own encoding, so decoding an item gives back the value.
- Codec.Decode: the index table is read only for its length, as in the source (kdtree.go:48-59), so the tree read back is the balanced rebuild of the items, not the written shape.
- String and Dot rendering (kdtree.go:143-212) and the LLQueue they use are diagnostic text only.
- Random data generators and all benchmarks are nondeterministic test data and I/O.
- Go's fixed-width integers are left out. `Dist` and `DistDim` use unbounded integers, and the decoder's `uint32` dimension count is a `nat`.
- Heap.Down: the int-overflow guard `j1 < 0` (internal/utils/generic_pq.go:66) cannot fire on `nat` positions.
- Mutation.FindMin, Mutation.FindMax: a negative target axis is excluded by typing it `nat`. The source reports nothing for `tcd >= dims`, which the model keeps.
- Knn.KNN: a negative k is excluded. With `k < 0` the source builds a queue of negative capacity.
- Construction.NewKDTreeWithValues, Codec.Decode, Construction.Balance: the values must be distinct and have the tree's dimension count. With two or more axes, a value Equal to a level's median that sorts before it in the cut list sends too many indices to the upper half. The write at kdtree.go:369 then indexes past that half's length and Go panics with index out of range (Construction.EqualBeforeMedianOverflows). Otherwise the duplicates are stored, for instance when every copy sorts after the median, and always with a single axis, where the partition loop never runs. Neither outcome is modelled, so the builders require distinct values.
- Search.NearestNeighbor, Mutation.Insert, Mutation.Remove, Knn.KNN: the values stored and the query must have `dims` coordinates. The tensor types have a fixed array length, but the caller passes the dimension count separately, and only a count equal to that length is modelled. A larger count indexes past the array and panics; a smaller one builds a tree that splits on fewer axes.
- Mutation.Insert, Mutation.Remove, Search.NearestNeighbor, Search.RangeSearch, Knn.KNN, Construction.OldKDTreeWithValues: trees with zero axes are excluded. NewKDTreeWithValues and the decoder panic on them, so only the zero-value struct has zero axes. In Go, an empty such tree answers nothing, and a non-empty one panics dividing by zero at `(cd + 1) % d`.
- Search.NearestAt: the incoming best-so-far argument of nearestNeighbor is never read before it is overwritten, so it is not a parameter.
- Knn.KNN: "the k nearest" is stated on k-d trees only. The other contracts (stored values, farthest first, distinct) hold for every tree.
- Heap.Pop, Heap.Remove, Heap.Fix, BoundedQueues.Take: these require a non-empty heap or an index in range. There the source fails with a Go index-out-of-range panic, which is not modelled as a result.
- Heap.Push: models generic Push over a plain append. The bounded queue's own append-or-evict is BoundedQueues.Offer.
- All in-place mutation (nodes changed through references, slices shared with the caller) is modelled functionally. The operations return the new tree or heap.
- internal.Abs is not part of this model. nearestNeighbor applies it only to squared distances (kdtree.go:444-445), where it changes nothing, so the model compares the distances directly.
- `defs.go` redeclares types already in kdtree_types.go and client_types.go, and these duplicates are not modelled. The unused `isSetup`, `zeroVal` and `ErrTreeNotSetup` are left out too.
- The tests call the operations `Add`, `Delete`, `KNearestNeighbor` and `Query`. They are modelled as Insert, Remove, KNN and RangeSearch.

## Findings

| source | as written | input that shows it | evidently intended | confidence | as-written member | corrected member |
|---|---|---|---|---|---|---|
| kdtree.go:114-118 | Insert into an empty root sets the root and returns without incrementing size | a fresh tree with no values, then Insert of one point | size becomes 1, as on every other successful insert | not executed; after this, Encode panics on the size check and KNN with k = 1 returns nothing | Mutation.InsertIntoEmptyLosesCount | Mutation.InsertCountedValid |
| kdtree.go:454-470 | KNN with k = 0 on a non-empty tree builds a queue of capacity 0; the first Push finds it full and reads `data[0]` of an empty slice | a one-node tree and k = 0 | an empty answer | not executed | Knn.NoNeighboursPanics | Knn.KNearest |
