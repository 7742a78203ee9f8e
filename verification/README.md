# kingpin core in Dafny

kingpin clusters map annotations. Its algorithmic core has four parts, all modelled here:

- **The 2-d tree annotation index.** The build is iterative. It works from two copies of the annotations, one sorted on x and one on y. It keeps an explicit stack of pending frames and a pool of nodes handed out in order. Each frame takes the median at `count >> 1`, moved to the front of its run of equal coordinates. The other annotations are split stably into a "below the split" side and an "at or above the split" side.
- **The range query.** There are two versions. The older one (`src/`) recurses. The framework one walks the tree with an explicit stack. It starts at the root on axis x and flips the axis at every level.
- **The geometry of the grid clustering.** This covers the quadrant of a cell a point lies in, and the three constant neighbour tables: conformity, adjacency and position deltas. It also covers the cluster grid with its blank one-cell margin, its validation, the bump allocator for cluster cells, and the order on cell positions.
- **Supporting pieces.** These are map-rect normalisation to a cell size, the access to a coordinate by axis number, the fixed-capacity pointer stack, and two test-suite helpers: the Fisher–Yates shuffle and the duplicate check by hash.

The modules follow the headers:

| module | what it holds |
|---|---|
| `Geometry` | map points, sizes and rects; axes; normalisation |
| `KpStack` | the pointer stack |
| `KdTree` | the functional specification: frames, median, partition, `Build`, the recursive `Search` and its reference `Scan` |
| `KdTreeBuild` | the iterative build over the node pool, proved to produce `Build` |
| `Tree2d` | the framework handle: empty-safe create, free, and the stack-based search |
| `Grid` | quadrants, the neighbour tables, positions and their order |
| `ClusterGrid` | both cluster grid layouts, the margin validations, and the cell allocator |
| `TestHelpers` | the shuffle and the duplicate check |
| `Seqs`, `Wrappers` | generic filter lemmas and `Option` |

Map coordinates are doubles in the source. Here they are integers. The tree, the quadrant classifier and the grid decide by comparisons alone, which integers model exactly. The cell-size normalisation also uses `fmod` and `ceil`, and it is modelled for whole-number coordinates and sizes only (see "Left out"). Annotations carry a distinct `id`, which stands for the object identity that `isEqual:` tests.

## Model

| member | source | states |
|---|---|---|
| Geometry.AxisAtLevelParity | src/kp_2dtree.h:202 | the splitting axis of a level is X exactly on even levels, as `(level & 1) == 0` selects |
| Geometry.Complement | kingpin-frameworks/iOS/kingpin.framework/PrivateHeaders/kp_2dtree.h:351 | `axis ^ 1` is the other axis |
| Geometry.CoordForAxis | kingpin/KPGeometry.h:37-45 | reading the field at the offset table entry for an axis gives x for axis 0 and y for axis 1 |
| Geometry.FMod | kingpin/KPGeometry.h:24-28 | C `fmod` on whole numbers differs from the dividend by a multiple of the divisor, and carries the dividend's sign with magnitude below the divisor |
| Geometry.AlignOrigin | kingpin/KPGeometry.h:24-25 | the normalised origin lies on the cell lattice, no more than the original and less than one cell from it when non-negative, and symmetrically when negative |
| Geometry.GrowToCells | kingpin/KPGeometry.h:27-28 | the normalised extent is a whole number of cells and grows by between 1 and one cell; an aligned extent gains a full cell |
| Geometry.NormalizeToCellSize | kingpin/KPGeometry.h:21-35 | width and height become multiples of the cell size (the guard assertions), the origin is cell-aligned and within one cell of the original, and each size grows by at most one cell; the earlier version in src/KPGeometry.h does the same |
| Geometry.NormalizeAlignedSizeGrowsByOneCell | kingpin/KPGeometry.h:27-28 | a size that already spans whole cells still grows by exactly one cell on each axis |
| Geometry.NormalizeAlignedOriginIsFixed | src/KPGeometry.h:16-17 | an origin already on the lattice does not move |
| Geometry.NormalizeAxesIndependent | src/KPGeometry.h:16-20 | x and width depend only on the cell width, and y and height only on the cell height |
| KpStack.Create | src/kp_stack.h:17-24 | a fresh stack is empty: top equals storage |
| KpStack.Push | src/kp_stack.h:26-28 | pushing, with room guaranteed by the caller, adds the entry on top and deepens the stack by one |
| KpStack.Pop | src/kp_stack.h:30-32 | popping a non-empty stack returns the top entry and leaves the rest |
| KpStack.Reset | kingpin-frameworks/iOS/kingpin.framework/PrivateHeaders/kp_2dtree.h:80-82 | a reset stack is empty and keeps its capacity |
| KpStack.PopAfterPush | src/kp_stack.h:26-32 | a pop right after a push returns the pushed entry and the stack as it was |
| KpStack.ResetIsFresh | kingpin-frameworks/iOS/kingpin.framework/PrivateHeaders/kp_2dtree.h:80-82 | after a reset nothing of earlier use remains: the stack equals a freshly created one |
| KpStack.PushAllPopMany | src/kp_stack.h:26-32 | last in, first out: popping what was pushed returns it in reverse order and restores the stack |
| KdTree.TieWalk | src/kp_2dtree.h:222-224 | the walk stops at the front of the run of coordinates equal to the starting one |
| KdTree.MedianIndex | src/kp_2dtree.h:204-224 | the median index is at most `count / 2`; everything before it is strictly smaller on the axis and everything from it on is at least as large; it is 0 exactly when the first element ties with the one at `count >> 1`; the element picked has the same coordinate as the one at `count >> 1`, so the walk only moves left past ties |
| KdTree.FilterSorted | src/kp_2dtree.h:244-268 | the stable partition keeps each side sorted on the complementary axis |
| KdTree.FilterDistinct | src/kp_2dtree.h:244-268 | each side of the partition keeps distinct annotations |
| KdTree.PartitionBelowIsPrefix | src/kp_2dtree.h:259-261 | the annotations sent below the split are exactly those before the median in current-axis order |
| KdTree.PartitionAboveIsSuffix | src/kp_2dtree.h:259-263 | the annotations sent at or above the split, with the median skipped, are exactly those after the median |
| KdTree.LeftFrame | src/kp_2dtree.h:289-295 | the left child is one level deeper and holds `medianIdx` annotations |
| KdTree.RightFrame | src/kp_2dtree.h:273-279 | the right child is one level deeper and holds `count - medianIdx - 1` annotations |
| KdTree.LeftFrameValid | src/kp_2dtree.h:289-292 | the left child's two arrays are again a frame: the same distinct annotations, sorted on its two axes |
| KdTree.RightFrameValid | src/kp_2dtree.h:273-276 | the right child's two arrays are again a frame |
| KdTree.ChildrenCover | src/kp_2dtree.h:226-271 | the median and the two children hold exactly the frame's annotations, each once |
| KdTree.LeftBelow | src/kp_2dtree.h:260-261 | every annotation of the left child lies strictly below the splitting coordinate |
| KdTree.RightAtOrAbove | src/kp_2dtree.h:262-263 | every annotation of the right child lies at or above the splitting coordinate |
| KdTree.BuildFrameStep | src/kp_2dtree.h:200-306 | one build step over correct subtrees gives a node whose tree holds the frame's annotations, has `count` nodes and is 2-d ordered |
| KdTree.Build | src/kp_2dtree.h:107-318 | the built tree holds every input annotation in exactly one node, has `count` nodes, and keeps every left subtree below and every right subtree at or above its node on the node's axis |
| KdTree.Search | src/kp_2dtree.h:73-101 | the recursive query reports only stored annotations lying in the closed rectangle, no more than the tree holds |
| KdTree.SearchMatchesScan | src/kp_2dtree.h:85-100 | on a 2-d ordered tree the pruning skips only subtrees with no match, so the query equals a scan of the tree in pre-order |
| KdTree.SearchMembership | src/kp_2dtree.h:78-83 | an annotation is reported exactly when it is in the tree and within the rectangle, inclusive on both axes |
| KdTree.RangeQueryExact | src/kp_2dtree.h:73-101 | over a built tree every annotation in the closed rectangle is reported exactly once and nothing else is |
| KdTree.TiedFrameHasNoLeftChild | src/kp_2dtree.h:222-224 | a frame whose annotations all tie on its axis builds a node with no left child |
| KdTree.CoincidentPointsHaveNoLeftChildren | src/kp_2dtree.h:289-303 | when all annotations share one map point, no node of the tree gets a left child |
| KdTreeBuild.FindMedian | src/kp_2dtree.h:204-224 | the loop computes the median index of the specification |
| KdTreeBuild.PartitionInPlace | src/kp_2dtree.h:244-268 | the backward pass writes the below side into the front of the temporary storage and the above side into the back of the complementary array, each in stable order |
| KdTreeBuild.SplitFrame | src/kp_2dtree.h:204-271 | after median and partition, the two child frames are read from the storages the source hands downstream |
| KdTreeBuild.ProcessFrame | src/kp_2dtree.h:200-303 | one iteration fills the popped node and produces the child entries the source builds: right first, reusing the parent's temporary storage; then left |
| KdTreeBuild.PushKids | src/kp_2dtree.h:273-303 | the children with a non-zero count are pushed, right before left |
| KdTreeBuild.KidsCount | src/kp_2dtree.h:270-271 | a frame's children hold one annotation fewer than it does, so the pending work shrinks |
| KdTreeBuild.StepBounds | src/kp_2dtree.h:186-190 | the sentinel and the pending entries never exceed the `count` stack slots, and handed-out nodes never exceed the pool |
| KdTreeBuild.StepInv | src/kp_2dtree.h:200-306 | one loop iteration keeps the build invariant: finished nodes hold their frame's median and link to their children's nodes, and every other handed-out node is pending on the stack |
| KdTreeBuild.BuildIteration | src/kp_2dtree.h:200-306 | one iteration keeps the invariant and strictly decreases the work left |
| KdTreeBuild.InitInv | src/kp_2dtree.h:183-198 | the root frame on top of the NULL sentinel, with node 0 handed out, satisfies the invariant |
| KdTreeBuild.FinalInv | src/kp_2dtree.h:305 | when the sentinel comes back, all `count` nodes have been handed out and finished |
| KdTreeBuild.FinalTree | src/kp_2dtree.h:305-317 | at the end the pool read from node 0 is the specified tree |
| KdTreeBuild.DecodeIsBuild | src/kp_2dtree.h:281-302 | a pool of finished nodes reads back, from any node, as the tree its frame specifies |
| KdTreeBuild.ChildSizes | src/kp_2dtree.h:270-271 | the below side has `medianIdx` annotations and the above side `count - medianIdx - 1` |
| KdTreeBuild.Create | src/kp_2dtree.h:107-318 | a non-empty build uses exactly `count` nodes and the pool read from node 0 is the specified 2-d tree; node order and pool contents are those of both builds, while the stack slot bookkeeping (`Info.slot`) follows the framework loop's `top++` (kingpin-frameworks/iOS/kingpin.framework/PrivateHeaders/kp_2dtree.h:278-305) rather than the older build's `stack_info_iterator`, which advances in step with the node index |
| Tree2d.CreateTree | kingpin-frameworks/iOS/kingpin.framework/PrivateHeaders/kp_2dtree.h:105-326 | an empty input gives a zeroed handle of size 0; otherwise `size` is the count and the handle holds the specified tree |
| Tree2d.Free | kingpin-frameworks/iOS/kingpin.framework/PrivateHeaders/kp_2dtree.h:97-103 | freeing an empty handle releases nothing; a non-empty one releases its node pool, stack and search entries |
| Tree2d.SearchFw | kingpin-frameworks/iOS/kingpin.framework/PrivateHeaders/kp_2dtree.h:341-398 | the walk reports only stored annotations in the closed rectangle, even where a NULL favoured child sends it to both sides |
| Tree2d.SearchFwMatchesScan | kingpin-frameworks/iOS/kingpin.framework/PrivateHeaders/kp_2dtree.h:355-395 | on a 2-d ordered tree the fall-through visits extra subtrees that report nothing outside the rectangle, so the walk equals the pre-order scan |
| Tree2d.SearchFwAgrees | kingpin-frameworks/iOS/kingpin.framework/PrivateHeaders/kp_2dtree.h:328-399 | the stack-based walk and the recursive query give the same result on 2-d ordered trees |
| Tree2d.PushChildren | kingpin-frameworks/iOS/kingpin.framework/PrivateHeaders/kp_2dtree.h:355-395 | only the favoured child is pushed when it exists; otherwise right then left, so left is popped first |
| Tree2d.Visit | kingpin-frameworks/iOS/kingpin.framework/PrivateHeaders/kp_2dtree.h:341-397 | one iteration keeps the stack within its `count` slots, reports the popped node when inside the rectangle, and leaves the overall result unchanged while the work left shrinks |
| Tree2d.SearchInit | kingpin-frameworks/iOS/kingpin.framework/PrivateHeaders/kp_2dtree.h:331-339 | the root entry on axis X above the NULL sentinel stands for the whole walk |
| Tree2d.SearchStep | kingpin-frameworks/iOS/kingpin.framework/PrivateHeaders/kp_2dtree.h:341-397 | a step keeps the stack shape and the `count` bound and strictly decreases the nodes still below the stack |
| Tree2d.SearchDone | kingpin-frameworks/iOS/kingpin.framework/PrivateHeaders/kp_2dtree.h:341 | once the sentinel is popped nothing remains to report |
| Tree2d.SearchTree | kingpin-frameworks/iOS/kingpin.framework/PrivateHeaders/kp_2dtree.h:328-399 | an empty handle adds nothing; otherwise the walk from the reset stack is the specified walk, whatever the stack held before, and the handle is unchanged for the next search |
| Tree2d.CreateAndSearch | kingpin-frameworks/iOS/kingpin.framework/PrivateHeaders/kp_2dtree.h:105-399 | creating and then searching reports every annotation in the closed rectangle exactly once and nothing else |
| Grid.BitsAreSingle | src/KPGridClusteringAlgorithm_Private.h:28-33 | each quadrant flag is one of 1, 2, 4, 8 and shares no bit with another quadrant's |
| Grid.QuadrantForPoint | src/KPGridClusteringAlgorithm_Private.h:181-197 | the quadrant's east half is chosen exactly when the point is at or east of the rectangle's centre, and its south half exactly when at or south of it, so a point on the centre goes to quadrant Four |
| Grid.QuadrantSides | kingpin/KPGridClusteringAlgorithm_Private.h:148-164 | the quadrant found lies east exactly when the point is at or east of the centre, south exactly when at or south of it, and is a single flag; the older classifier is the same |
| Grid.CentreIsSouthEast | src/KPGridClusteringAlgorithm_Private.h:184-186 | the centre itself falls in quadrant four, the south-east one |
| Grid.ConformityIsFacing | src/KPGridClusteringAlgorithm_Private.h:36-59 | each conformity mask names exactly the neighbour's quadrants facing the current cell: two for an edge neighbour, one for a corner; the newer table is the same |
| Grid.AdjacencyRows | src/KPGridClusteringAlgorithm_Private.h:79-84 | row q is `2q, 2q + 1, (2q + 2) mod 8` |
| Grid.AdjacencyCovers | kingpin/KPGridClusteringAlgorithm_Private.h:76-81 | together the rows name all eight neighbours |
| Grid.AdjacencyIsNearSide | src/KPGridClusteringAlgorithm_Private.h:62-84 | a neighbour is listed for a quadrant exactly when it lies on that quadrant's sides of the cell |
| Grid.DeltasMatchLayout | src/KPGridClusteringAlgorithm_Private.h:87-96 | the 16-bit stored deltas, read back as signed values, are the offsets of the neighbour layout |
| Grid.NeighboursDistinct | kingpin/KPGridClusteringAlgorithm_Private.h:83-92 | the eight offsets are distinct, non-zero and within one cell |
| Grid.NeighboursComplete | src/KPGridClusteringAlgorithm_Private.h:87-96 | every non-zero offset in {-1, 0, 1} on both axes is one of the eight |
| Grid.NeighbourPosition | src/KPGridClusteringAlgorithm_Private.h:87-96 | adding a delta to a 16-bit position field gives a 16-bit field again |
| Grid.NeighbourInside | src/KPGridClusteringAlgorithm_Private.h:87-96 | around an inner cell the wrapped sums are the true neighbour, and all eight neighbours lie inside the grid with its margin |
| Grid.CompareByKey | src/KPGridClusteringAlgorithm_Private.h:200-220 | positions compare as the 32-bit word made of the two 16-bit fields, column high |
| Grid.Compare | src/KPGridClusteringAlgorithm_Private.h:206-220 | positions compare lexicographically on (column, row): Ascending exactly when the column is smaller or the columns tie and the row is smaller, Descending in the mirror case, Same exactly for equal positions |
| Grid.CompareIsTotalOrder | kingpin/KPGridClusteringAlgorithm_Private.h:171-185 | the comparison is Same exactly for equal positions, is antisymmetric, and is transitive; the older comparison is the same |
| ClusterGrid.Layout | src/KPGridClusteringAlgorithm_Private.h:144-156 | the grid has `sizeY + 2` columns of `sizeX + 2` cells; the first and last columns are zeroed, each column's first and last cell overwritten from what the allocator gave, and each inner cell keeps its own allocator contents |
| ClusterGrid.NullMarginIsEdges | src/KPGridClusteringAlgorithm_Private.h:114-123 | the edges the validation inspects are exactly the one-cell margin |
| ClusterGrid.ValidateNullMargin | src/KPGridClusteringAlgorithm_Private.h:114-123 | the validation passes exactly when every margin cell is NULL |
| ClusterGrid.CreateSlotGrid | src/KPGridClusteringAlgorithm_Private.h:137-163 | after create `used` is 0, the storage holds `sizeX * sizeY` clusters, and every margin cell is NULL |
| ClusterGrid.EmptyMarginIsEdges | kingpin/KPGridClusteringAlgorithm_Private.h:107-117 | the edges the newer validation inspects are exactly the margin |
| ClusterGrid.ValidateEmptyMargin | kingpin/KPGridClusteringAlgorithm_Private.h:107-117 | the newer validation passes exactly when every margin cell is Empty |
| ClusterGrid.CreateClusterGrid | kingpin/KPGridClusteringAlgorithm_Private.h:119-139 | for a grid of at least one cell, every margin cell ends up Empty and the first and last columns are all-zero cells |
| ClusterGrid.CellCreateAsWritten | src/KPGridClusteringAlgorithm_Private.h:176-178 | cell creation hands out the slot at `used` and moves the 16-bit counter on |
| ClusterGrid.AsWrittenSlots | src/KPGridClusteringAlgorithm_Private.h:110 | as written, the i-th slot handed out is the start plus i, wrapped at 65536 |
| ClusterGrid.AsWrittenReusesSlot | src/KPGridClusteringAlgorithm_Private.h:110 | with more than 65536 storage cells, slot 0 is handed out twice |
| ClusterGrid.CellCreate | src/KPGridClusteringAlgorithm_Private.h:176-178 | with a free slot guaranteed, creation hands out the next slot inside the storage and counts it |
| ClusterGrid.CreateCells | src/KPGridClusteringAlgorithm_Private.h:176-178 | successive creations hand out consecutive slots from `used` on |
| ClusterGrid.SlotsDistinct | src/KPGridClusteringAlgorithm_Private.h:142 | the slots handed out lie inside the `sizeX * sizeY` storage and no two are the same |
| TestHelpers.Swap | kingpinTests/TestHelpers.h:14 | the two entries change places and nothing else moves |
| TestHelpers.ShuffleFrom | kingpinTests/TestHelpers.h:12-15 | the shuffle permutes its input, and positions from `i` on stay fixed |
| TestHelpers.Shuffle | kingpinTests/TestHelpers.h:8-18 | the result is a new array with the same entries and count, as the draws dictate |
| TestHelpers.ShuffleReachesEveryPermutation | kingpinTests/TestHelpers.h:8-18 | every reordering of the input is the result of some draws |
| TestHelpers.HasDuplicates | kingpinTests/TestHelpers.h:21-36 | the answer is YES exactly when two entries share a hash, and then the pair logged is the first clash found |
| TestHelpers.ShortArraysHaveNoDuplicates | kingpinTests/TestHelpers.h:24-35 | empty and one-entry arrays have no duplicates |

## Left out

- `MKMapPointForCoordinate` is not modelled: annotations arrive with their map points. Its `dispatch_apply` precomputation is concurrency.
- `qsort_b` is not modelled: the build takes an x-sorted and a y-sorted copy of the same distinct annotations as its precondition.
- Doubles are modelled as integers. `ceil` of a whole number is the number itself. `fmod` is modelled with C's sign rule. The `uint32_t` casts in the normalisation's guard assertions are not modelled; the divisibility they check is proved over the integers.
- Geometry.NormalizeToCellSize: its cell-aligned origin and multiple-of-cell size hold only for whole-number coordinates and sizes. For fractional doubles, `fmod` and `ceil` give results off the cell lattice: origin 1234.5 with cell 100 becomes 1199.5, and width 1000.5 becomes 1100.5. The truncating `uint32_t` casts still let those through the guard assertions. The integer model does not represent such inputs.
- `malloc`, `memset` and `free` are modelled by sequences. Uninitialised memory is a `garbage` parameter. `Tree2d.Free` names the blocks released rather than releasing them.
- Pointer aliasing of the temporary storages is modelled by the sequence values each frame reads.
- The `level` field of tree nodes is never written, and the one in search entries is never read, so neither is modelled.
- `KPTemporaryPointStorage` only holds precomputed map points, so it is not modelled.
- KdTreeBuild.Create: requires a count that fits the `uint32_t` frame count; the truncating cast is not modelled for larger inputs.
- Tree2d.CreateTree: requires the same `uint32_t` bound on the count, because the framework create makes the same `(uint32_t)count` cast; larger inputs are not modelled.
- KdTreeBuild.Create: requires a non-empty input, because the older create has no empty guard and reads element 0.
- `NSLog` and `NSCAssert` are left out. The `#if DEBUG` validation is modelled as a method that returns whether its assertions hold.
- Cluster state values are a datatype, so a cell's state is always Empty, HasData or Merged by construction.
- `arrayShuffle`'s `arc4random_uniform` draws are a parameter. The shuffle returns a new sequence, so its input is never changed.
- `NSArrayHasDuplicates`' element hash is a parameter.
- `randomWithinRange` and the other float, random and benchmark test helpers are left out. So are the dataset files.
- The merge routine `_mergeOverlappingClusters` is only declared in these headers, so it is not modelled.
- The clustering controllers, delegates, configuration and example apps are GUI glue and are not modelled.

## Findings

| source | as written | input that shows it | evidently intended | confidence | as-written member | corrected member |
|---|---|---|---|---|---|---|
| src/KPGridClusteringAlgorithm_Private.h:110, 176-178 | `used` is a `uint16_t`, so `storage + used++` wraps from 65535 to 0 | a grid with more than 65536 inner cells (for example 300 x 300) and 65537 cell creations from `used = 0`: the first and the 65537th return the same storage cell | the count of cells handed out grows without wrapping, so every cluster gets its own storage cell | not executed | ClusterGrid.AsWrittenReusesSlot | ClusterGrid.SlotsDistinct |
