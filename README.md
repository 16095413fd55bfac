# Isolation forest — a Dafny model

This project models the core of a Java Isolation Forest, an unsupervised anomaly
detector. An *isolation tree* (`IsolationTreeNode`) is built by recursive random
partitioning. Each node picks one attribute (a function from item to `Double`) and a
threshold. Items whose attribute is below the threshold go left, the rest go right. A
node becomes an external leaf that records how many items it holds as soon as one side
is empty. The *forest* (`IsolationForest`) keeps its configuration together: the number
of trees, the sampling size, the height limit, and the correction factor `c` for the
sampling size. It builds one tree per random sample of the data. It scores an item by
the path length of the item through a tree: edges walked, cut off at the height limit,
plus `c` of the size of the node where the walk stopped.

Modules:

- `Sequences` (`sequences.dfy`) holds sequence helpers:
  - `Without`, the order-preserving removal of the items that occur in another list;
  - subsequences and duplicate-freedom.
- `IsolationTree` (`isolation_tree.dfy`) holds the node record and the recursive construction:
  - the node is a datatype with optional children, so a half-built node can be represented;
  - construction is the function `Build`;
  - the partition, its minimum and maximum, and the routing rule that scoring follows.
- `Forest` (`forest.dfy`) holds:
  - the correction factor and the path length;
  - `randomSample` as a method with its loops, specified by the function `Sample`;
  - the class `IsolationForest`, whose constructor and `SetSamplingSize` update its fields in place, and whose `BuildForest` loop replaces the trees.

Randomness and the logarithm are parameters:

- A node's draw is a `Draw`: an attribute index, reduced modulo the number of attributes as `nextInt` would be, and the `Math.random()` factor. A `Chooser` gives that draw as a function of the node's value list.
- The threshold formula is a parameter of `Build` too, so every structural property holds for any threshold.
- Sampling reads `nextInt(n)` as `roll(j) % n`.
- `H(i) = ln(i) + γ` is a function parameter `h`. `Constants` (which defines `γ`) is not part of this model.

The Isolation Forest algorithm draws each tree's sample without replacement and of exactly the requested size, draws each threshold uniformly from [min, max], stops at a node whose attribute is constant, and rejects a sampling size larger than the population. The model follows the code wherever it departs from that:

- The code samples with replacement (`DirectSampleRepeats`), and its complement branch keeps every item not drawn. So the sample can be larger than requested (`ComplementSampleTooLarge`), and on repeated items it can even be empty (`ComplementSampleEmpty`).
- A sampling size larger than the population is not rejected: the code returns every item (`SampleAll`).
- The code has no separate check for a constant attribute, but such a node still becomes a leaf, whatever the threshold (`ConstantAttributeIsLeaf`).
- The code's threshold `min + Math.random() * max` is not a point of [min, max] (see "## Findings"). The model keeps it as `IsolationTree.SplitValue`. Tree building and the forest take the threshold formula as a parameter, so the forest the code builds is the instance with `SplitValue`, and the corrected forest is the instance with `IntendedSplitValue`.

## Model

| member | source | states |
|---|---|---|
| IsolationTree.Pick | src/main/java/itree/IsolationTreeNode.java:26 | the attribute drawn with `nextInt(attributes.size())` is always one of the supplied attributes |
| IsolationTree.MinOf | src/main/java/itree/IsolationTreeNode.java:27 | the minimum of the chosen attribute bounds it from below on every value |
| IsolationTree.MaxOf | src/main/java/itree/IsolationTreeNode.java:28 | the maximum of the chosen attribute bounds it from above on every value |
| IsolationTree.MinMaxAttained | src/main/java/itree/IsolationTreeNode.java:27-28 | the minimum and the maximum are values the attribute actually takes |
| IsolationTree.Side | src/main/java/itree/IsolationTreeNode.java:30-33 | one side of the partition holds only values whose comparison with the threshold is the side's, and is no longer than the input |
| IsolationTree.Below | src/main/java/itree/IsolationTreeNode.java:30-31 | the left side holds only values whose attribute is below the threshold |
| IsolationTree.AtOrAbove | src/main/java/itree/IsolationTreeNode.java:32-33 | the right side holds only values whose attribute is at or above the threshold |
| IsolationTree.Partition | src/main/java/itree/IsolationTreeNode.java:30-33 | a value is on the left exactly when it is an input whose attribute is below the threshold, and on the right exactly when it is an input whose attribute is at or above it |
| IsolationTree.PartitionSizes | src/main/java/itree/IsolationTreeNode.java:30-33 | the two sides together are as long as the input |
| IsolationTree.PartitionCounts | src/main/java/itree/IsolationTreeNode.java:30-33 | both sides keep the input order, and together they hold each value as many times as the input does |
| IsolationTree.SplitOf | src/main/java/itree/IsolationTreeNode.java:26-33 | a node's choice is a supplied attribute, and its two sides split the node's values |
| IsolationTree.Build | src/main/java/itree/IsolationTreeNode.java:25-40 | every constructed tree is well formed (leaves of size at least 1, internal nodes with two children and size 0), and its leaf sizes sum to the number of values |
| IsolationTree.BuildSplitsOrStops | src/main/java/itree/IsolationTreeNode.java:34-39 | a node is external exactly when a side is empty, and then records all its values; an internal node's children are built from non-empty, strictly smaller sides whose leaf counts they carry |
| IsolationTree.SplitAttributesSupplied | src/main/java/itree/IsolationTreeNode.java:26 | every node of a constructed tree splits on a supplied attribute |
| IsolationTree.DepthBound | src/main/java/itree/IsolationTreeNode.java:34-39 | construction terminates, and a tree built from n values has depth at most n - 1 |
| IsolationTree.Node.IsInternal | src/main/java/itree/IsolationTreeNode.java:42-48 | a node with both children (internal) is never one with neither child (external) |
| IsolationTree.Node.IsIndeterminate | src/main/java/itree/IsolationTreeNode.java:50-52 | a node is indeterminate exactly when one child is set and the other is not |
| IsolationTree.NeverIndeterminate | src/main/java/itree/IsolationTreeNode.java:42-52 | every node of a well-formed tree is exactly one of external and internal, never indeterminate; only external nodes carry a size |
| IsolationTree.ConstantAttributeIsLeaf | src/main/java/itree/IsolationTreeNode.java:30-37 | a node whose chosen attribute is constant on its values is an external node counting them all, whatever the threshold |
| IsolationTree.SingletonIsLeaf | src/main/java/itree/IsolationTreeNode.java:30-37 | a node built from one value is an external node of size 1 |
| IsolationTree.SplitValue | src/main/java/itree/IsolationTreeNode.java:29 | the threshold as written, `min + random * max`, with a non-negative factor and a non-positive maximum, is at most the minimum |
| IsolationTree.NonPositiveAttributeNeverSplits | src/main/java/itree/IsolationTreeNode.java:29-37 | with the threshold as written, a node whose chosen attribute is nowhere positive is always external |
| IsolationTree.IntendedSplitValueWithin | src/main/java/itree/IsolationTreeNode.java:29 | the corrected threshold `min + random * (max - min)` lies in [min, max], strictly inside for a factor strictly between 0 and 1 |
| IsolationTree.IntendedSplitSeparates | src/main/java/itree/IsolationTreeNode.java:29-39 | with the corrected threshold, a node whose chosen attribute is not constant is always internal (for a factor strictly between 0 and 1) |
| IsolationTree.ThresholdFormulaExample | src/main/java/itree/IsolationTreeNode.java:29 | on values -2 and -1 with factor 0.5, the code's threshold gives a leaf and the corrected one an internal node |
| IsolationTree.Next | src/main/java/itree/IsolationForest.java:112-116 | one step of the walk goes to one of the node's two children, and the child of a well-formed node is well formed |
| IsolationTree.Locate | src/main/java/itree/IsolationForest.java:109-116 | descending by `attribute(value) < splitValue` always ends at an external node of size at least 1 |
| IsolationTree.NodeAt | src/main/java/itree/IsolationForest.java:112-116 | every node reached by the descent is well formed |
| IsolationTree.RouteWithinDepth | src/main/java/itree/IsolationForest.java:112-116 | the route from the root to a value's leaf is no longer than the tree's depth |
| IsolationTree.NodeAtOnRoute | src/main/java/itree/IsolationForest.java:109-116 | before the end of its route a value is at an internal node; at the end it is at its leaf |
| IsolationTree.SampledValueReachesItsLeaf | src/main/java/itree/IsolationForest.java:112-116 | descending uses the same comparison as the partition, so a value the tree was built from reaches the leaf that was built from the subset holding it; that subset is part of the values, and its size is the leaf's size |
| Forest.CFactor | src/main/java/itree/IsolationForest.java:147-152 | the correction factor is 0 below 2 (including 0 and 1) and exactly 1 at 2 |
| Forest.PathLength | src/main/java/itree/IsolationForest.java:108-117 | the path length is the edge count on entry plus the edges walked (the route to the value's leaf, cut off by the height limit) plus the correction factor of the stopping node's size |
| Forest.PathLengthBounds | src/main/java/itree/IsolationForest.java:104-117 | from the root, the edges walked never exceed the height limit (0 when that is negative) nor the tree's depth |
| Forest.HeightCutoffAddsNothing | src/main/java/itree/IsolationForest.java:109-110 | a walk cut off by the height limit stops at an internal node of size 0, so the path length is the height limit itself |
| Forest.FullWalkEndsAtLeaf | src/main/java/itree/IsolationForest.java:109-116 | without a cutoff, the path length is the route length plus the correction factor of the value's leaf |
| Forest.SampledPathLength | src/main/java/itree/IsolationForest.java:104-117 | with a height limit of at least n - 1, a value the tree was built from scores its route length plus the correction factor of the construction-time subset holding it |
| Forest.Draws | src/main/java/itree/IsolationForest.java:138-142 | the direct branch returns exactly m items (none when m is not positive), each one of `items` |
| Sequences.Without | src/main/java/itree/IsolationForest.java:133-137 | the kept items are items of the list that do not occur in the excluded list, and there are no more of them than items |
| Sequences.WithoutCount | src/main/java/itree/IsolationForest.java:133-137 | the kept list holds no copy of an excluded item and every copy of any other item |
| Forest.Sample | src/main/java/itree/IsolationForest.java:127-145 | every sampled item is one of `items`; for m <= n/2 the sample has exactly max(m, 0) items; otherwise it has at most n |
| Forest.RandomSample | src/main/java/itree/IsolationForest.java:127-145 | the loops and the one-level recursion compute `Sample` |
| Forest.SampleComplement | src/main/java/itree/IsolationForest.java:131-137 | for m > n/2 the complementary call takes the direct branch (recursion depth at most 1), and the result is the order-preserving subsequence of `items` that keeps every occurrence of each item not drawn and no occurrence of a drawn one |
| Forest.SampleAll | src/main/java/itree/IsolationForest.java:131-137 | asking for more than n items returns all of `items` |
| Forest.SampleSizeDistinct | src/main/java/itree/IsolationForest.java:131-137 | on duplicate-free items with n/2 < m <= n, the complement branch returns between m and n items |
| Forest.SampleNonEmpty | src/main/java/itree/IsolationForest.java:127-145 | duplicate-free, non-empty items give a non-empty sample for any m >= 1 |
| Forest.DirectSampleRepeats | src/main/java/itree/IsolationForest.java:138-142 | the direct branch samples with replacement: it can return an item twice |
| Forest.ComplementSampleTooLarge | src/main/java/itree/IsolationForest.java:131-137 | a repeated draw makes the complement branch return more than m items (4 of 5 for m = 3) |
| Forest.ComplementSampleEmpty | src/main/java/itree/IsolationForest.java:131-137 | on repeated items the complement branch removes every copy of a drawn item, so the sample can be empty |
| Forest.TreeFor | src/main/java/itree/IsolationForest.java:99-100 | with the threshold formula as a parameter, a tree is built exactly when the sample and the attribute list are non-empty; it is then well formed and its leaves count the sample |
| Forest.NewTree | src/main/java/itree/IsolationForest.java:99-100 | one iteration samples and builds the tree `TreeFor` describes for the same threshold formula |
| Forest.IsolationForest.constructor | src/main/java/itree/IsolationForest.java:77-84 | stores the values, attributes and tree count; sets the sampling size and its correction factor; leaves the height limit at min(requested, samplingSize - 1); no trees yet |
| Forest.IsolationForest.Default | src/main/java/itree/IsolationForest.java:86-88 | 100 trees, samples of 256, height limit 255 and the factor for 256 |
| Forest.IsolationForest.SetSamplingSize | src/main/java/itree/IsolationForest.java:90-94 | sets the sampling size, the height limit to samplingSize - 1 and the correction factor together, and changes no other field |
| Forest.IsolationForest.BuildForest | src/main/java/itree/IsolationForest.java:96-102 | keeps the configuration invariant; replaces the trees with at most numberOfTrees trees, tree j built from the j-th sample; it succeeds exactly when all are built; a failure means the next sample or the attribute list was empty; with duplicate-free non-empty values, sampling size >= 1 and attributes, it always succeeds |

## Left out

- `anomalyScore` (`IsolationForest.java:119-125`) is not modelled. It needs `Math.pow` and a stream average over doubles, and it divides by the correction factor, which is 0 for a sampling size below 2.
- `H` and `Math.log` are a parameter `h`. So the value of `c` above 2, and the monotonicity and logarithmic growth of `c`, are not stated. `Constants` is not part of this model.
- `Forest.CFactor`: for sizes above 2 it states only the small cases, because `h` is abstract.
- The forest is a `HashSet` in the code. The model keeps a sequence of every tree built. Deduplication depends on Lombok's generated `equals`/`hashCode` over function references and doubles, so only the bound "at most numberOfTrees" carries over.
- Lombok's other generated accessors (`@Data`) are not modelled. The class's own methods are: both constructors, `setSamplingSize`, `buildForest`, `pathLength`, `randomSample` and `computeCFactor`.
- Doubles are modelled as mathematical reals: there is no rounding, no NaN, no infinities, and no null `Double` from an attribute.
- Java `int` overflow is not modelled: `samplingSize - 1`, `n - m`, and the edge counter.
- Distributions of `Random` and `Math.random()` are not modelled. Draws are parameters: any sequence of draws is covered, and none is preferred.
- `Forest.PathLength` requires a well-formed tree. The code throws a `NullPointerException` only when the walk, still below the height limit, reaches a half-built node and steps into its missing child. Every tree the constructor builds is well formed, so that case does not arise.
- An exception in `buildForest` is modelled as `ok == false` with the trees built so far kept. The exception's type and message are not modelled.
- The console driver (`Main.java`) and the example item type (`Point.java`) are not part of this model. Items are generic.

## Findings

| source | as written | input that shows it | evidently intended | confidence | as-written member | corrected member |
|---|---|---|---|---|---|---|
| src/main/java/itree/IsolationTreeNode.java:29 | `splitValue = min + Math.random() * max`, which is not a point of [min, max]; when the chosen attribute is nowhere positive, the threshold is at most the minimum, nothing goes left, and the node never splits | the values -2 and -1 with the identity attribute and `Math.random()` = 0.5 give threshold -2.5 and a leaf | `min + Math.random() * (max - min)`, a threshold inside [min, max] that separates any node whose attribute is not constant | not executed | IsolationTree.NonPositiveAttributeNeverSplits | IsolationTree.IntendedSplitSeparates |

The formula as written is `IsolationTree.SplitValue`, and the corrected one is `IsolationTree.IntendedSplitValue`. Tree building (`IsolationTree.Build`) and the forest (`Forest.TreeFor`, `Forest.NewTree`, `Forest.IsolationForest.BuildForest`) take the formula as a parameter. So every structural property proved about them holds for the code's formula and for the corrected one.
