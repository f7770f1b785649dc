# Constant-time LCA, RMQ and next-node-on-path, modelled in Dafny

The repository answers three kinds of query over static data after linear
preprocessing:

- **Lowest common ancestor** (`LCA`). The Bender–Farach-Colton scheme:
  1. An Euler tour of the tree records every node each time the walk passes
     it, together with the depth of each tour entry and each node's first
     tour position.
  2. The depth sequence moves by exactly one per step.
  3. It is cut into blocks of `floor(log2 n)` entries. Each position gets a
     prefix minimum and a suffix minimum within its block, and each whole
     block gets its minimum.
  4. A sparse table holds minima over power-of-two runs of whole blocks.
  5. Every block gets a bit key recording where its depth rises. One
     in-block minimum table per key that occurs answers ranges inside a
     block.
  6. A query maps both nodes to their first tour positions and takes the
     shallowest tour entry between them. Inside one block that comes from
     the block's table. Across blocks it combines the suffix minimum, the
     prefix minimum and the sparse table for the whole blocks in between.
- **Range minimum** (`RMQ`). The sequence's Cartesian tree is built with a
  monotone stack. The minimum of `[i, j]` is the value at the lowest common
  ancestor of `i` and `j` in that tree. Ranges of one or two positions are
  answered directly.
- **Next node on a path** (`NextNodeOnPath`). When `j` is not in `i`'s
  subtree, the answer is `i`'s parent. Otherwise it is the child of `i`
  whose subtree holds `j`. That child is found with a range-minimum query
  over the pre-order labels of the nodes, listed in post-order.

The project follows the source's structure:

- Each preprocessing pass is a method with loops over arrays or sequences,
  proved against a specification function or predicate.
- Each query is a function. Its contract states what the source promises:
  - LCA: the answer is *the* lowest common ancestor;
  - RMQ: the answer is the minimum value of the range;
  - next node on a path: the answer is adjacent to `i` and lies on the
    path to `j`.
  Every query also has an `OutOfRange` error case wherever the source
  throws.
- The three C++ classes become Dafny classes:
  - `Lca.LcaIndex`
  - `Rmq.Rmq`
  - `NextNode.NextNodeOnPath`

  Their fields are `const`, because the source fills them once in its
  constructor.

Modules:

- `Errors`: the `Result` type and the two exception kinds.
- `Log2`: powers of two and `floor(log2 x)`.
- `Trees`: the tree, its well-formedness, depths, ancestors and LCA.
- `TreeOrders`: pre-order, post-order and Euler tour as functions, with
  their properties.
- `TraversalPositions`: where subtrees sit in the two orders.
- `EulerTour`: the `dfs`/`eulerTour` pass.
- `Blocks`: the prefix, suffix and block-minimum pass.
- `SparseTable`: the table over whole blocks.
- `BlockTables`: the block keys and in-block minimum tables.
- `Lca`: the preprocessing and the `LCA` class.
- `Cartesian`: the Cartesian tree and its stack construction.
- `Rmq`: the `RMQ` class.
- `NextNode`: the two numberings and the `NextNodeOnPath` class, plus the
  example from `main.cpp`.

## Model

| member | source | states |
|---|---|---|
| Log2.Pow2 | LCA.cpp:72 | `1 << e` as an unbounded power of two: at least 1, even from exponent 1 on |
| Log2.FloorLog2 | LCA.cpp:82 | the block-size exponent `floor(log2 x)`: `2^e <= x < 2^(e+1)` |
| Log2.FloorLog2Unique | LCA.cpp:71 | any `e` with `2^e <= x < 2^(e+1)` is `floor(log2 x)` |
| Log2.TwoBlocks | LCA.cpp:82-87 | for depth sequences of three or more entries the block size is at least 1 and there are at least two whole blocks |
| Trees.Depth | LCA.cpp:192-203 | the depths `dfs` assigns form a levelling: root 0, each child one deeper than its parent |
| Trees.ChildDepth | LCA.cpp:198-200 | each child of v is a node other than the root, its parent link is v and its depth is v's plus one |
| Trees.LcaUnique | LCA.hpp:31-36 | two nodes have at most one lowest common ancestor |
| Trees.ChildToward | NextNodeOnPath.cpp:36-37 | for j strictly below v: a child of v (parent link back to v) whose subtree holds j |
| Trees.ChildTowardOfChild | NextNodeOnPath.cpp:36-37 | a child of v whose subtree holds x is exactly the child toward x |
| TreeOrders.PreOrderMembers | NextNodeOnPath.cpp:40-49 | the pre-order walk from v lists exactly v's subtree |
| TreeOrders.PostOrderMembers | NextNodeOnPath.cpp:51-61 | the post-order walk from v lists exactly v's subtree |
| TreeOrders.PreOrderIsPermutation | NextNodeOnPath.cpp:40-49 | the pre-order from the root lists every node exactly once, the root first |
| TreeOrders.PostOrderIsPermutation | NextNodeOnPath.cpp:51-61 | the post-order from the root lists every node exactly once, the root last |
| TreeOrders.OrderLengths | LCA.cpp:192-203 | the two orders have equal length and the Euler tour from v has `2·size-1` entries |
| TreeOrders.TourLength | LCA.cpp:205-211 | the tour of the whole tree has `2n-1` entries |
| TreeOrders.TourSteps | LCA.cpp:194-202 | the tour from v starts and ends at v and each step moves between a parent and its child |
| TreeOrders.TourLca | LCA.cpp:26-50 | between any two tour positions an entry is an ancestor of every entry in between and is the LCA of the two end nodes |
| TreeOrders.TourMinDepthIsLca | LCA.cpp:37-50 | a minimum-depth tour entry between two positions is the LCA of the nodes there |
| EulerTour.Dfs | LCA.cpp:192-203 | appends exactly the tour of v's subtree and records first occurrence and depth for v's subtree only, every other entry unchanged |
| EulerTour.DepthsAlong | LCA.cpp:213-218 | `depthEtSeq[k] == depth[etSeq[k]]` for every tour position |
| EulerTour.TourDepthsPlusMinusOne | LCA.cpp:213-218 | consecutive tour depths differ by exactly one |
| EulerTour.EulerTour | LCA.cpp:205-219 | the tour equals `Tour(root)` with `2n-1` entries, `firstOccurrence[x]` is x's first tour position, depths are the tree depths, and the depth sequence moves by one |
| Blocks.MinByDepth | LCA.cpp:187-190 | one of the two positions, of depth no greater than the other's, and the second on a tie |
| Blocks.MinOfCover | LCA.cpp:39 | the `minByDepth` of the minima of two touching ranges is a minimum of their union |
| Blocks.PrefixAt | LCA.cpp:95-102 | one step of the prefix pass: entry i is a minimum from its block's start to i, the running minimum restarts at a block boundary, and a completed block records its minimum |
| Blocks.SuffixAt | LCA.cpp:104-110 | one step of the suffix pass: entry `n-1-i` is a minimum from it to its block's end |
| Blocks.PrefixSuffixMinima | LCA.cpp:85-111 | every prefix entry is a minimum from its block's start, every suffix entry a minimum to its block's end (or the sequence's), and each whole block's minimum is recorded |
| Blocks.AsWrittenPrefix | LCA.cpp:89-102 | the prefix entry the loop writes as written, starting at `i = 1`: never beyond i |
| Blocks.AsWrittenPrefixAgrees | LCA.cpp:89-102 | with a block size of two or more the as-written prefix entry is a minimum from its block's start |
| Blocks.AsWrittenPrefixLeavesBlock | LCA.cpp:89-102 | over depths `[0, 1, 0]` with block size 1 the as-written entry 1 is position 0, outside block 1 |
| SparseTable.WindowsCombine | LCA.cpp:74 | the minima of two overlapping runs of blocks combine into a minimum of their union |
| SparseTable.FirstLevel | LCA.cpp:117-122 | first-level entry i is a minimum over blocks `i..i+1` |
| SparseTable.NextLevel | LCA.cpp:124-133 | level-j entry i is a minimum over blocks `i..i+2^j-1`, from two halves of level j-1 |
| SparseTable.BuildTable | LCA.cpp:113-133 | for every level e up to `floor(log2 nb)` each entry is a minimum over its `2^e` whole blocks |
| SparseTable.RangeLevel | LCA.cpp:70-72 | for two or more blocks the exponent exists in the table and two windows of `2^e` cover the run |
| SparseTable.BlockRangeRmq | LCA.cpp:62-75 | a minimum position over whole blocks `k..l` |
| BlockTables.Key | LCA.cpp:150-152 | a block's key fits in `m-1` bits: it is below `2^(m-1)` |
| BlockTables.KeyBit | LCA.cpp:150-152 | bit `j-1` of a block's key is set iff the depth rises at offset j |
| BlockTables.SameKeySameRises | LCA.cpp:163-166 | blocks with equal keys rise and fall at the same offsets |
| BlockTables.KeyPastEnd | LCA.cpp:141 | the key of the truncated last block stops growing at the end of the sequence |
| BlockTables.BlockKeys | LCA.cpp:138-157 | each `blockBinaryString[b]` is the key of block b and `maxBinaryString` is at least every key and is either 0 or one of them |
| BlockTables.TableRow | LCA.cpp:169-181 | row i of a block's table: entry j is the offset of a minimum over offsets `i..j` inside the sequence |
| BlockTables.BlockTable | LCA.cpp:168-182 | the table built at a block answers every in-block range of it |
| BlockTables.SameProfile | LCA.cpp:163-166 | in a sequence moving by one, blocks with equal keys have the same depth profile relative to their start |
| BlockTables.TableTransfer | LCA.cpp:163-166 | a table right for one block is right for every later block with the same key, so it is reused |
| BlockTables.TableOfBlock | LCA.cpp:161-182 | one step of the table loop: builds the key's table, or keeps the existing one, which is already right |
| BlockTables.MinTables | LCA.cpp:159-183 | `MIN` has `maxBinaryString + 1` slots and the slot for every block's key answers that block's in-block ranges |
| Lca.Preprocess | LCA.cpp:77-184 | every table holds what the queries need over the depth sequence, with block size `floor(log2 n)` |
| Lca.SingleBlockRmq | LCA.cpp:53-57 | a minimum position between offsets i and j of block b |
| Lca.SameBlock | LCA.cpp:45-47 | two positions in one block split into the block and two in-block offsets |
| Lca.ApartBlocks | LCA.cpp:34-44 | positions in different blocks: p's block ends before q's begins, both within the sequence's blocks |
| Lca.AdjacentBlocks | LCA.cpp:39 | for neighbouring blocks, suffix minimum and prefix minimum combine into the range minimum |
| Lca.BlocksBetween | LCA.cpp:40-43 | with whole blocks in between, the three minima combine into the range minimum |
| Lca.WithinBlock | LCA.cpp:45-48 | a minimum position of a range inside one block |
| Lca.AcrossBlocks | LCA.cpp:37-44 | a minimum position of a range across blocks |
| Lca.RangeMinPos | LCA.cpp:34-48 | a minimum-depth position between any two tour positions |
| Lca.LcaIndex.constructor | LCA.cpp:8-17 | the index over a well-formed tree holds its Euler tour, depths, first occurrences and tables |
| Lca.LcaIndex.Lca | LCA.cpp:19-51 | OutOfRange iff a node index is outside the tree, otherwise the lowest common ancestor |
| Lca.LcaIndex.LcaOfMinimum | LCA.cpp:50 | the node at a minimum-depth tour position between two tour positions is the LCA of their nodes |
| Lca.LcaIndex.LcaIsSymmetric | LCA.cpp:31-32 | `lca(i, j) == lca(j, i)` |
| Cartesian.CartesianParent | RMQ.cpp:41-58 | the stack's parent of x: -1 or another position above x (smaller, or equal and later) |
| Cartesian.LastMinimum | RMQ.cpp:62-65 | the last position of the sequence's minimum value |
| Cartesian.RootIff | RMQ.cpp:62-65 | a position has no parent iff it is the last position of the minimum |
| Cartesian.RightChildrenDistinct | RMQ.cpp:66-69 | no two positions right of their parents share a parent |
| Cartesian.LeftChildrenDistinct | RMQ.cpp:70-73 | no two positions left of their parents share a parent |
| Cartesian.CartesianDepth | RMQ.cpp:41-58 | the parent links have a levelling: node depths below n, root 0, child one deeper |
| Cartesian.ChildLists | RMQ.cpp:60-74 | a node's child list holds exactly its recorded left and right children, one entry per child present, the left child first |
| Cartesian.CartesianShaped | RMQ.cpp:60-74 | the parent links and child lists agree with each other |
| Cartesian.CartesianWellFormed | RMQ.cpp:38-75 | the Cartesian tree is a well-formed rooted tree whose depths are the levelling above |
| Cartesian.AncestorIffCovers | RMQ.cpp:38-75 | a is an ancestor of x iff a lies above every position between a and x |
| Cartesian.InOrderSides | RMQ.cpp:66-73 | everything below a left child lies left of its parent, everything below a right child right of it |
| Cartesian.RangeTop | RMQ.cpp:35 | the position in `[lo, hi]` above all the others |
| Cartesian.RangeTopIsMinimum | RMQ.cpp:35 | the value at that position is the range's minimum |
| Cartesian.CartesianLca | RMQ.cpp:35 | the LCA of i and j in the Cartesian tree is the top position of the range between them |
| Cartesian.PopAtLeast | RMQ.cpp:47-52 | pops exactly the stack's top entries with values at least x and returns the last one popped, or -1 |
| Cartesian.StackStep | RMQ.cpp:45-57 | one push step keeps the stack increasing, each entry's parent link fixed or pending |
| Cartesian.StackParents | RMQ.cpp:41-58 | after the stack loop every `parent[x]` is x's Cartesian parent |
| Cartesian.ChildSides | RMQ.cpp:60-74 | the second loop records the root and puts each node on its parent's left or right side |
| Cartesian.BuildCartesianTree | RMQ.cpp:38-75 | parent links, child sides and root of the Cartesian tree |
| Rmq.ShortRange | RMQ.cpp:31-32 | for ends at most one apart the smaller of the two values is the range's minimum |
| Rmq.MinOfUnique | RMQ.hpp:21-27 | a range has exactly one minimum value |
| Rmq.Rmq.constructor | RMQ.cpp:8-21 | a non-empty sequence; the tree and its LCA index exactly when it has more than two values |
| Rmq.Rmq.Create | RMQ.cpp:8-21 | InvalidArgument iff the sequence is empty, otherwise a valid index over it |
| Rmq.Rmq.LcaIsRangeMin | RMQ.cpp:35 | the value at the Cartesian LCA of i and j is the minimum of the range between them |
| Rmq.Rmq.RangeMin | RMQ.cpp:23-36 | OutOfRange iff an end is outside the sequence, otherwise the minimum value over the range between the ends |
| Rmq.Rmq.RangeMinIs | RMQ.hpp:21-27 | over `lo <= hi` the query answers exactly the range's minimum |
| Rmq.Rmq.RangeMinSymmetric | RMQ.cpp:31-35 | `rangeMin(i, j) == rangeMin(j, i)` |
| Rmq.Rmq.RangeMinAsWritten | RMQ.cpp:23-36 | as written: for ends two or more apart the answer is the top position of the range, not its value |
| Rmq.Rmq.AsWrittenReturnsPosition | RMQ.cpp:35 | over `[5, 3, 7]` the as-written query (0, 2) answers 1 where the minimum is 3 |
| Rmq.AsWrittenTourReadsPastEnd | LCA.cpp:198 | as written, the root is a position of the sequence but the child-list vector has no entries, so the tour's first read `children[root]` is out of bounds; the tree is not shaped |
| NextNode.NextOnPathIs | NextNodeOnPath.hpp:22-27 | the next node from i toward j is the child toward j when j is below i, otherwise i's parent |
| NextNode.NextOnPathUnique | NextNodeOnPath.hpp:22-27 | there is only one next node from i toward j |
| NextNode.PreOrderWalk | NextNodeOnPath.cpp:40-49 | appends the pre-order of v's subtree and numbers exactly those nodes by position |
| NextNode.PreOrderNumbering | NextNodeOnPath.cpp:40-49 | the traversal is the pre-order and `nodeToPreOrderPosition` is its inverse |
| NextNode.PostOrderWalk | NextNodeOnPath.cpp:51-61 | appends the post-order of v's subtree, numbering those nodes and labelling their positions, nothing else |
| NextNode.PostOrderNumbering | NextNodeOnPath.cpp:51-61 | the traversal is the post-order, positions are its inverse, and each label is its node's pre-order position |
| NextNode.SmallestLabel | NextNodeOnPath.cpp:36-37 | a node whose pre-order position is smallest among the post-order range has the range's minimum label |
| TraversalPositions.PreRange | NextNodeOnPath.cpp:40-49 | y is in x's subtree iff its pre-order position is in x's contiguous block |
| TraversalPositions.PostRange | NextNodeOnPath.cpp:51-61 | y is in x's subtree iff its post-order position is in x's contiguous block ending at x |
| TraversalPositions.PreSiblings | NextNodeOnPath.cpp:45-48 | an earlier child's pre-order block ends before a later child's begins |
| TraversalPositions.PostSiblings | NextNodeOnPath.cpp:53-56 | an earlier child's post-order block ends before a later child's begins |
| TraversalPositions.DescentRange | NextNodeOnPath.cpp:36-37 | over post-order positions `post[j]..post[i]-1` the child toward j has the smallest pre-order position |
| NextNode.NextNodeOnPath.constructor | NextNodeOnPath.cpp:4-27 | both numberings, the labels, their range-minimum index and the tree's LCA index |
| NextNode.NextNodeOnPath.LabelOf | NextNodeOnPath.cpp:58-59 | the label at v's post-order position is v's pre-order position |
| NextNode.NextNodeOnPath.LabelsArePermutation | NextNodeOnPath.cpp:51-61 | the labels are a permutation of the pre-order positions |
| NextNode.NextNodeOnPath.RootPositions | NextNodeOnPath.cpp:40-61 | the root is first in pre-order and last in post-order |
| NextNode.NextNodeOnPath.AncestorOrder | NextNodeOnPath.cpp:40-61 | an ancestor comes no later in pre-order and no earlier in post-order |
| NextNode.NextNodeOnPath.DescentLabel | NextNodeOnPath.cpp:36-37 | the range `post[j]..post[i]-1` is non-empty and its minimum label is the child toward j's pre-order position |
| NextNode.NextNodeOnPath.DescentStep | NextNodeOnPath.cpp:36-37 | the range-minimum query there answers that label, and the pre-order traversal maps it back to the child |
| NextNode.NextNodeOnPath.LcaIsSelf | NextNodeOnPath.cpp:31 | `lca(i, j) == i` iff j is in i's subtree, and otherwise i is not the root |
| NextNode.NextNodeOnPath.SelfRange | NextNodeOnPath.cpp:36-37 | for `j == i` the range is out of range iff i is first in post-order, otherwise it answers a label |
| NextNode.NextNodeOnPath.ClimbIsNext | NextNodeOnPath.cpp:31-34 | for j outside i's subtree, i is not the root and its parent is next on the path |
| NextNode.NextNodeOnPath.DescentIsNext | NextNodeOnPath.cpp:36-37 | for j strictly inside i's subtree, the child toward j is next on the path |
| NextNode.NextNodeOnPath.Descend | NextNodeOnPath.cpp:36-37 | the descent answers the child toward j; for `j == i` it is the out-of-range case or some node |
| NextNode.NextNodeOnPath.Query | NextNodeOnPath.cpp:29-38 | OutOfRange for an index outside the tree; for `i != j` the next node on the path (child toward j, or parent); for `i == j` what the source's own range gives |
| NextNode.ExampleWellFormed | main.cpp:81-84 | the fifteen-node example tree is well formed |
| NextNode.ExampleAnswer | main.cpp:86-89 | over the example tree `query(4, 10)` answers 6 |
| NextNode.ExampleQuery | main.cpp:86-89 | building the index over the example tree and querying (4, 10) gives 6 |

## Left out

- Input and output: the printing in `main.cpp`, the random stress test and `TestUtils`, which compares against a linear scan.
- Exceptions are modelled as a `Result`: `std::out_of_range` as `OutOfRange`, `std::invalid_argument` as `InvalidArgument`.
- Machine integers are modelled as unbounded. `int` overflow, including `1 << (j - 1)` for block sizes of 32 or more, would need sequences of more than 2^32 entries.
- `floor(log2(x))` over doubles is modelled as the exact integer `FloorLog2`.
- Recursion depth, running time, memory, and the choice of `std::vector`, `std::deque` and `std::stack`.
- The input tree is not checked by the source. Here it is a precondition: the `Trees.WellFormed` shape and levelling.
  - A child list is the `deque` in order. Node values are carried along but never read.
- Lca.LcaIndex.constructor and NextNode.NextNodeOnPath.constructor require at least two nodes.
  - For a single node the Euler tour has one entry, the block size is `floor(log2 1) = 0`, and `LCA.cpp:87` then divides by zero.
- Rmq.Rmq.constructor requires a non-empty sequence. Rmq.Rmq.Create models the source's check for the empty one.
- Header mismatch between `RMQ.hpp` and `RMQ.cpp`:
  - `RMQ.hpp` declares `RMQ` without the base class that `RMQ.cpp` uses (`: LCA()`, inherited `nodeVals` and `lca`).
  - The model follows `RMQ.cpp`: an `Rmq` owns its Cartesian tree and an `LcaIndex` over that tree.
- Methods that fill member vectors are modelled as methods that return the filled sequences. The class stores them in constructor-initialised constants. Aliasing of those vectors does not arise.
- The stack in Cartesian.StackParents is a sequence whose prefix is popped.
- Blocks.PrefixSuffixMinima runs its loop from position 0, so the prefix reset after position 0 happens; the finding below explains why.
  - For the suffix pass, step 0 writes the same entry the source writes before its loop.
- The `MIN` tables hold entries only for `i <= j`, as in the source. The model states nothing about the other entries.
- NextNode.NextNodeOnPath.Query for `i == j` is modelled as the source computes it, not as a meaningful answer.
  - The source takes the range minimum of the labels between post-order positions `post[i]` and `post[i] - 1`.
  - That is `OutOfRange` when `post[i] == 0`, and otherwise the node at the smaller label of two neighbouring positions. The contract states only that it is some node.
- Rmq.AsWrittenTourReadsPastEnd: proves only that the first child-list read of the Euler tour is out of bounds; what the program does after that undefined read is not modelled.
- Rmq.Rmq is built over the corrected Cartesian tree (`Cartesian.CartesianTree`) and its `RangeMin` returns the value, as `RMQ.hpp` documents. The as-written behaviour of both is listed under Findings.

## Findings

| source | as written | input that shows it | evidently intended | confidence | as-written member | corrected member |
|---|---|---|---|---|---|---|
| LCA.cpp:89-102 | the prefix loop starts at `i = 1`, so the block-boundary reset after position 0 never happens when the block size is 1 | a two-node tree: depths `[0, 1, 0]`, block size 1, `prefixMinIndex[1] == 0` lies in block 0 | each prefix entry is a minimum from its own block's start (whether an LCA answer changes is not modelled) | not executed | Blocks.AsWrittenPrefixLeavesBlock | Blocks.PrefixSuffixMinima |
| RMQ.cpp:35 | `rangeMin` returns `lca(i, j)`, a position in the sequence, for ends two or more apart | `[5, 3, 7]`, query (0, 2): answers 1 | the value at that position, the minimum of the range, as `RMQ.hpp:21-27` documents | not executed | Rmq.Rmq.AsWrittenReturnsPosition | Rmq.Rmq.RangeMin |
| RMQ.cpp:38-75 | `buildCartesianTree` fills `leftChild` and `rightChild`, but the Euler tour walks the inherited `children` vector (`LCA.cpp:198`), which the default `LCA()` constructor (`RMQ.cpp:8`) leaves with no entries | any sequence of three or more values: `dfs(root)` reads `children[root]` past the end of an empty vector | the child lists are the left and right children | not executed | Rmq.AsWrittenTourReadsPastEnd | Cartesian.CartesianWellFormed |
