/** The forest: its configuration (`samplingSize`, `heightLimit` and the correction
    factor kept together), the sampling of each tree's values, tree building, and
    the path length scoring relies on.

    `H(i) = ln(i) + γ` is a parameter `h` throughout: the logarithm and the
    Euler–Mascheroni constant are not part of this model. A `Random` is a parameter
    too: `roll(j)` is the raw value behind the `j`-th `nextInt(n)` of one sampling
    call, reduced modulo `n`. */
module Forest {
  import opened Sequences
  import opened IsolationTree

  const DefaultNumberOfTrees := 100
  const DefaultSamplingSize := 256

  // ---------------------------------------------------------------------------
  // Correction factor and path length

  /** `computeCFactor`: the average path length of an unsuccessful search in a
      tree built from `psi` values. */
  function CFactor(psi: int, h: real -> real): (c: real)
    ensures psi < 2 ==> c == 0.0
    ensures psi == 2 ==> c == 1.0
  {
    if psi > 2 then 2.0 * h((psi - 1) as real) - 2.0 * ((psi - 1) as real) / (psi as real)
    else if psi == 2 then 1.0
    else 0.0
  }

  /** `pathLength(value, iTree, heightLimit, pathLength)`: walk down from `tree`
      counting edges from `pathLength`; at a leaf or once the count reaches the
      height limit, add the correction factor of the node's size. The result is
      the edge count on entry, plus the edges walked (the route to `value`'s leaf
      cut off by the height limit), plus the correction factor of the node where
      the walk stops. */
  function PathLength<T>(value: T, tree: Node<T>, heightLimit: int, pathLength: int, h: real -> real): (r: real)
    requires WellFormed(tree)
    ensures var k := EdgesWalked(value, tree, heightLimit, pathLength);
            r == (pathLength + k) as real + CFactor(NodeAt(value, tree, k).size, h)
    decreases tree
  {
    if tree.IsExternal() || pathLength >= heightLimit then pathLength as real + CFactor(tree.size, h)
    else PathLength(value, Next(value, tree), heightLimit, pathLength + 1, h)
  }

  /** Edges `PathLength` walks when it starts counting at `pathLength`: the route
      to `value`'s leaf, cut off by the height limit. */
  function EdgesWalked<T>(value: T, tree: Node<T>, heightLimit: int, pathLength: int): nat
    requires WellFormed(tree)
  {
    Min(Max(heightLimit - pathLength, 0), RouteLength(value, tree))
  }

  /** `pathLength(value, iTree, heightLimit)`, which starts at 0: the edges walked
      never exceed the height limit (or 0 when it is negative) nor the depth. */
  lemma PathLengthBounds<T>(value: T, tree: Node<T>, heightLimit: int, h: real -> real)
    requires WellFormed(tree)
    ensures var k := EdgesWalked(value, tree, heightLimit, 0);
            k <= Max(heightLimit, 0) && k <= Depth(tree)
            && PathLength(value, tree, heightLimit, 0, h) == k as real + CFactor(NodeAt(value, tree, k).size, h)
  {
    RouteWithinDepth(value, tree);
  }

  /** A walk cut off by the height limit stops at an internal node, whose size 0
      contributes no correction: the result is the height limit itself. */
  lemma HeightCutoffAddsNothing<T>(value: T, tree: Node<T>, heightLimit: int, h: real -> real)
    requires WellFormed(tree) && 0 <= heightLimit < RouteLength(value, tree)
    ensures PathLength(value, tree, heightLimit, 0, h) == heightLimit as real
  {
    NodeAtOnRoute(value, tree, heightLimit);
  }

  /** Without a cutoff, the walk ends at the leaf `value` is routed to. */
  lemma FullWalkEndsAtLeaf<T>(value: T, tree: Node<T>, heightLimit: int, h: real -> real)
    requires WellFormed(tree) && RouteLength(value, tree) <= heightLimit
    ensures PathLength(value, tree, heightLimit, 0, h)
            == RouteLength(value, tree) as real + CFactor(Locate(value, tree).size, h)
  {
    NodeAtOnRoute(value, tree, RouteLength(value, tree));
  }

  /** Scoring a value the tree was built from, with a height limit of at least
      `|values| - 1` (the default `samplingSize - 1` for a full sample), walks to the
      leaf of the construction-time subset holding it and adds that subset's
      correction factor. */
  lemma SampledPathLength<T>(values: seq<T>, attributes: seq<T -> real>, choose: Chooser<T>, rule: ThresholdRule, x: T, heightLimit: int, h: real -> real)
    requires |attributes| > 0 && x in values && heightLimit >= |values| - 1
    ensures var tree := Build(values, attributes, choose, rule);
            PathLength(x, tree, heightLimit, 0, h)
              == RouteLength(x, tree) as real + CFactor(|Cell(values, attributes, choose, rule, x)|, h)
  {
    var tree := Build(values, attributes, choose, rule);
    DepthBound(values, attributes, choose, rule);
    RouteWithinDepth(x, tree);
    FullWalkEndsAtLeaf(x, tree, heightLimit, h);
    SampledValueReachesItsLeaf(values, attributes, choose, rule, x);
  }

  // ---------------------------------------------------------------------------
  // Sampling

  /** The direct branch of `randomSample`: `k` draws `items.get(nextInt(n))`, with
      replacement. */
  function Draws<T>(items: seq<T>, k: int, roll: nat -> nat): (r: seq<T>)
    requires k <= 0 || |items| > 0
    ensures |r| == Max(k, 0)
    ensures forall i :: 0 <= i < |r| ==> r[i] in items
    decreases k
  {
    if k <= 0 then [] else Draws(items, k - 1, roll) + [items[roll(k - 1) % |items|]]
  }

  /** `randomSample(items, m)`: draw directly when `m <= n / 2`; otherwise draw
      `n - m` items and keep, in order, the items that were not drawn. */
  function Sample<T(==)>(items: seq<T>, m: int, roll: nat -> nat): (r: seq<T>)
    ensures forall i :: 0 <= i < |r| ==> r[i] in items
    ensures m <= |items| / 2 ==> |r| == Max(m, 0)
    ensures m > |items| / 2 ==> |r| <= |items|
    decreases if m > |items| / 2 then 1 else 0
  {
    var n := |items|;
    if m > n / 2 then
      var drawn := Sample(items, n - m, roll);
      Without(items, drawn)
    else Draws(items, m, roll)
  }

  /** The loops of `randomSample`, recursing once for the complement. */
  method RandomSample<T(==)>(items: seq<T>, m: int, roll: nat -> nat) returns (sample: seq<T>)
    ensures sample == Sample(items, m, roll)
    decreases if m > |items| / 2 then 1 else 0
  {
    sample := [];
    var n := |items|;
    if m > n / 2 {
      var negativeSet := RandomSample(items, n - m, roll);
      var i := 0;
      while i < n
        invariant 0 <= i <= n
        invariant sample == Without(items[..i], negativeSet)
      {
        assert items[..i + 1][..i] == items[..i];
        if items[i] !in negativeSet {
          sample := sample + [items[i]];
        }
        i := i + 1;
      }
      assert items[..n] == items;
    } else {
      while |sample| < m
        invariant |sample| <= Max(m, 0)
        invariant sample == Draws(items, |sample|, roll)
        decreases m - |sample|
      {
        var randPos := roll(|sample|) % n;
        sample := sample + [items[randPos]];
      }
    }
  }

  /** With `m > n / 2` the complementary call draws directly (so the recursion is
      one level deep), and the result is the items not drawn, in their order, each
      as many times as it occurs in `items`. */
  lemma SampleComplement<T>(items: seq<T>, m: int, roll: nat -> nat)
    requires m > |items| / 2
    ensures |items| - m <= |items| / 2
    ensures var drawn := Draws(items, |items| - m, roll);
            var r := Sample(items, m, roll);
            Subsequence(r, items) && forall x :: x in r <==> x in items && x !in drawn
  ensures var drawn := Draws(items, |items| - m, roll);
          var r := Sample(items, m, roll);
          forall x :: multiset(r)[x] == if x in drawn then 0 else multiset(items)[x]
  {
    var drawn := Draws(items, |items| - m, roll);
    WithoutIsSubsequence(items, drawn);
    WithoutMembers(items, drawn);
    WithoutCount(items, drawn);
  }

  /** Asking for more than there are returns every item. */
  lemma SampleAll<T>(items: seq<T>, m: int, roll: nat -> nat)
    requires m > |items|
    ensures Sample(items, m, roll) == items
  {
    WithoutNothing(items, Draws(items, |items| - m, roll));
  }

  /** On duplicate-free items the complement branch keeps at least `m` items. */
  lemma SampleSizeDistinct<T>(items: seq<T>, m: int, roll: nat -> nat)
    requires Distinct(items) && |items| / 2 < m <= |items|
    ensures m <= |Sample(items, m, roll)| <= |items|
  {
    RemovalBound(items, Draws(items, |items| - m, roll));
  }

  /** Duplicate-free, non-empty items give a non-empty sample for any `m >= 1`. */
  lemma SampleNonEmpty<T>(items: seq<T>, m: int, roll: nat -> nat)
    requires Distinct(items) && |items| > 0 && m >= 1
    ensures Sample(items, m, roll) != []
  {
    if m > |items| {
      SampleAll(items, m, roll);
    } else if m > |items| / 2 {
      SampleSizeDistinct(items, m, roll);
    }
  }

  /** The direct branch draws with replacement: it can repeat an item. */
  lemma DirectSampleRepeats()
    ensures Sample([1, 2, 3, 4], 2, _ => 0) == [1, 1]
  {
    assert Draws([1, 2, 3, 4], 1, _ => 0) == [1];
  }

  /** The complement branch removes fewer than `n - m` items when a draw repeats. */
  lemma ComplementSampleTooLarge()
    ensures |Sample([0, 1, 2, 3, 4], 3, _ => 0)| == 4
  {
    var items := [0, 1, 2, 3, 4];
    var drawn := Draws(items, 2, _ => 0);
    assert drawn == [0, 0] by {
      assert Draws(items, 1, _ => 0) == [0];
    }
    assert Sample(items, 3, _ => 0) == Without(items, drawn);
    assert Without(items, drawn) == [1, 2, 3, 4] by {
      assert Without(items[..1], drawn) == [] by { assert items[..1][..0] == []; }
      assert Without(items[..2], drawn) == [1] by { assert items[..2][..1] == items[..1]; }
      assert Without(items[..3], drawn) == [1, 2] by { assert items[..3][..2] == items[..2]; }
      assert Without(items[..4], drawn) == [1, 2, 3] by { assert items[..4][..3] == items[..3]; }
      assert items[..5][..4] == items[..4] && items[..5] == items;
    }
  }

  /** On repeated items the complement branch removes every copy of a drawn item:
      the sample can be empty. */
  lemma ComplementSampleEmpty()
    ensures Sample([7, 7, 7], 2, _ => 0) == []
  {
    var items := [7, 7, 7];
    var drawn := Draws(items, 1, _ => 0);
    assert drawn == [7];
    assert Without(items[..1], drawn) == [] by { assert items[..1][..0] == []; }
    assert Without(items[..2], drawn) == [] by { assert items[..2][..1] == items[..1]; }
    assert items[..3][..2] == items[..2] && items[..3] == items;
  }

  // ---------------------------------------------------------------------------
  // The forest

  /** The tree the constructor builds from the sample drawn with `roll`, splitting
      with `choose` and the threshold formula `rule` (`SplitValue` as written,
      `IntendedSplitValue` corrected); `None` when the constructor throws because
      the sample or the attribute list is empty. A tree it builds is well formed
      and its leaves count the sample. */
  function TreeFor<T(==)>(values: seq<T>, attributes: seq<T -> real>, samplingSize: int, roll: nat -> nat, choose: Chooser<T>, rule: ThresholdRule): (r: Option<Node<T>>)
    ensures r.Some? <==> |Sample(values, samplingSize, roll)| > 0 && |attributes| > 0
    ensures r.Some? ==> WellFormed(r.value) && LeafSizeSum(r.value) == |Sample(values, samplingSize, roll)|
  {
    var sample := Sample(values, samplingSize, roll);
    if |sample| > 0 && |attributes| > 0 then Some(Build(sample, attributes, choose, rule)) else None
  }

  /** One iteration's `new IsolationTreeNode<>(randomSample(values, samplingSize),
      attributes)`, `None` when the constructor throws. */
  method NewTree<T(==)>(values: seq<T>, attributes: seq<T -> real>, samplingSize: int, roll: nat -> nat, choose: Chooser<T>, rule: ThresholdRule) returns (tree: Option<Node<T>>)
    ensures tree == TreeFor(values, attributes, samplingSize, roll, choose, rule)
  {
    var sample := RandomSample(values, samplingSize, roll);
    if |sample| == 0 || |attributes| == 0 {
      return None;
    }
    return Some(Build(sample, attributes, choose, rule));
  }

  /** `IsolationForest`: the configuration and the trees last built. Before
      `BuildForest` the trees are absent (`None`), as the Java field is `null`. */
  class IsolationForest<T(==)> {
    var numberOfTrees: int
    var samplingSize: int
    var heightLimit: int
    var values: seq<T>
    var attributes: seq<T -> real>
    var isolationForest: Option<seq<Node<T>>>
    var cFactor: real
    /** `H`, fixed for the forest's lifetime. */
    const h: real -> real

    /** The height limit never exceeds `samplingSize - 1`, and the correction
        factor is the one for the sampling size. */
    ghost predicate Valid()
      reads this
    {
      heightLimit <= samplingSize - 1 && cFactor == CFactor(samplingSize, h)
    }

    constructor(values: seq<T>, attributes: seq<T -> real>, numberOfTrees: int, samplingSize: int, heightLimit: int, h: real -> real)
      ensures this.values == values && this.attributes == attributes && this.h == h
      ensures this.numberOfTrees == numberOfTrees && this.samplingSize == samplingSize
      ensures this.heightLimit == Min(heightLimit, samplingSize - 1)
      ensures cFactor == CFactor(samplingSize, h)
      ensures isolationForest.None?
      ensures Valid()
    {
      this.numberOfTrees := numberOfTrees;
      this.values := values;
      this.attributes := attributes;
      this.h := h;
      isolationForest := None;
      new;
      SetSamplingSize(samplingSize);
      this.heightLimit := Min(heightLimit, this.heightLimit);
    }

    /** The two-argument constructor: 100 trees, samples of 256, height limit 255. */
    constructor Default(values: seq<T>, attributes: seq<T -> real>, h: real -> real)
      ensures this.values == values && this.attributes == attributes && this.h == h
      ensures numberOfTrees == DefaultNumberOfTrees && samplingSize == DefaultSamplingSize
      ensures heightLimit == DefaultSamplingSize - 1
      ensures cFactor == CFactor(DefaultSamplingSize, h)
      ensures isolationForest.None?
      ensures Valid()
    {
      this.numberOfTrees := DefaultNumberOfTrees;
      this.values := values;
      this.attributes := attributes;
      this.h := h;
      isolationForest := None;
      new;
      SetSamplingSize(DefaultSamplingSize);
      this.heightLimit := Min(DefaultSamplingSize - 1, this.heightLimit);
    }

    /** Sets the sampling size, resets the height limit to `samplingSize - 1` and
        recomputes the correction factor, touching nothing else. */
    method SetSamplingSize(samplingSize: int)
      modifies this`samplingSize, this`heightLimit, this`cFactor
      ensures this.samplingSize == samplingSize && heightLimit == samplingSize - 1
      ensures cFactor == CFactor(samplingSize, h)
      ensures Valid()
    {
      this.samplingSize := samplingSize;
      heightLimit := samplingSize - 1;
      cFactor := CFactor(samplingSize, h);
    }

    /** `buildForest`: replace the trees with one tree per iteration, tree `j`
        built from the `j`-th sample (drawn with `sampling(j)`) splitting with
        `splitting(j)` and the threshold formula `rule` (`SplitValue` as written). The tree constructor throws on an empty attribute list
        (`nextInt(0)`) or an empty sample (`getAsDouble` of an empty stream): then
        `ok` is false and the trees built so far stay in place. */
    method BuildForest(sampling: nat -> nat -> nat, splitting: nat -> Chooser<T>, rule: ThresholdRule) returns (ok: bool)
      modifies this`isolationForest
      ensures Valid() == old(Valid())
      ensures isolationForest.Some?
      ensures var forest := isolationForest.value;
              |forest| <= Max(numberOfTrees, 0) && (ok <==> |forest| == Max(numberOfTrees, 0))
      ensures forall j :: 0 <= j < |isolationForest.value| ==>
                TreeFor(values, attributes, samplingSize, sampling(j), splitting(j), rule) == Some(isolationForest.value[j])
      ensures !ok ==> var j := |isolationForest.value|;
                      TreeFor(values, attributes, samplingSize, sampling(j), splitting(j), rule).None?
      ensures Distinct(values) && |values| > 0 && samplingSize >= 1 && |attributes| > 0 ==> ok
    {
      var forest := [];
      var i := 0;
      while i < numberOfTrees
        invariant 0 <= i <= Max(numberOfTrees, 0) && |forest| == i
        invariant forall j :: 0 <= j < i ==>
                    TreeFor(values, attributes, samplingSize, sampling(j), splitting(j), rule) == Some(forest[j])
      {
        var tree := NewTree(values, attributes, samplingSize, sampling(i), splitting(i), rule);
        if tree.None? {
          assert Distinct(values) && |values| > 0 && samplingSize >= 1 ==> |attributes| == 0 by {
            if Distinct(values) && |values| > 0 && samplingSize >= 1 {
              SampleNonEmpty(values, samplingSize, sampling(i));
            }
          }
          isolationForest := Some(forest);
          return false;
        }
        forest := forest + [tree.value];
        i := i + 1;
      }
      isolationForest := Some(forest);
      ok := true;
    }
  }
}
