/** One isolation tree: the node record of `IsolationTreeNode`, its recursive
    construction by random partitioning, and the routing rule that scoring follows.

    The random choices a node makes (which attribute, and the `Math.random()` factor
    of its threshold) are an input: a `Chooser` gives the draw a node makes from the
    list of values it was built from. Within one tree the lists of distinct nodes
    are distinct (a child's list is shorter than its parent's, and the lists of two
    siblings lie on either side of the parent's threshold), so every way of drawing
    per node is expressible. The threshold formula is an input as well, so that the
    structural properties are proved whatever threshold is chosen. */
module IsolationTree {
  import opened Sequences

  datatype Option<T> = None | Some(value: T)

  /** What one node draws: an index into the attribute list (`nextInt`, taken modulo
      the number of attributes, so any in-range index is itself) and the factor
      `Math.random()` of the threshold formula. */
  datatype Draw = Draw(attribute: nat, random: real)

  type Chooser<-T> = seq<T> -> Draw

  /** A threshold formula: from the minimum and maximum of the chosen attribute over
      the node's values and the random factor, the split value. */
  type ThresholdRule = (real, real, real) -> real

  /** The fields of a Java `IsolationTreeNode`: children are nullable references, so
      a half-built node is representable; `WellFormed` rules it out. */
  datatype Node<!T> = Node(
    splitAttribute: T -> real,
    splitValue: real,
    left: Option<Node<T>>,
    right: Option<Node<T>>,
    size: int)
  {
    /** `isExternal`: neither child is set. */
    predicate IsExternal()
    {
      left.None? && right.None?
    }

    /** `isInternal`: both children are set, so never also external. */
    predicate IsInternal(): (b: bool)
      ensures b ==> !IsExternal()
    {
      left.Some? && right.Some?
    }

    /** `isIndeterminate`: neither external nor internal, that is, exactly one
        child is set. */
    predicate IsIndeterminate(): (b: bool)
      ensures b <==> left.Some? != right.Some?
    {
      !IsExternal() && !IsInternal()
    }
  }

  /** The shape every constructed tree has: each node is a leaf that counts at least
      one value, or an internal node with two children and size 0. */
  predicate WellFormed<T>(n: Node<T>)
    decreases n
  {
    (n.IsExternal() && n.size >= 1)
    || (n.IsInternal() && n.size == 0 && WellFormed(n.left.value) && WellFormed(n.right.value))
  }

  function Max(a: int, b: int): int { if a < b then b else a }
  function Min(a: int, b: int): int { if a < b then a else b }

  /** Number of edges on the longest root-to-leaf path. */
  function Depth<T>(n: Node<T>): nat
    requires WellFormed(n)
    decreases n
  {
    if n.IsExternal() then 0 else 1 + Max(Depth(n.left.value), Depth(n.right.value))
  }

  /** Sum of the sizes recorded at the leaves. */
  function LeafSizeSum<T>(n: Node<T>): int
    requires WellFormed(n)
    decreases n
  {
    if n.IsExternal() then n.size else LeafSizeSum(n.left.value) + LeafSizeSum(n.right.value)
  }

  /** Every node of `n` splits on one of `attributes`. */
  ghost predicate AttributesFrom<T>(n: Node<T>, attributes: seq<T -> real>)
    requires WellFormed(n)
    decreases n
  {
    n.splitAttribute in attributes
    && (n.IsInternal() ==> AttributesFrom(n.left.value, attributes) && AttributesFrom(n.right.value, attributes))
  }

  /** The node reached from the root `n` by following `path` (false = left). */
  function Follow<T>(n: Node<T>, path: seq<bool>): Option<Node<T>>
    decreases |path|
  {
    if path == [] then Some(n)
    else
      var child := if path[0] then n.right else n.left;
      if child.None? then None else Follow(child.value, path[1..])
  }

  // ---------------------------------------------------------------------------
  // Partition and the minimum / maximum of an attribute

  /** One side of the partition at threshold `t`: the values whose attribute is
      below `t` when `below` holds, the others otherwise, in their original order. */
  function Side<T>(values: seq<T>, a: T -> real, t: real, below: bool): (r: seq<T>)
    ensures |r| <= |values|
    ensures forall i :: 0 <= i < |r| ==> (a(r[i]) < t) == below
    decreases |values|
  {
    if values == [] then []
    else Side(values[..|values| - 1], a, t, below)
         + (if (a(values[|values| - 1]) < t) == below then [values[|values| - 1]] else [])
  }

  /** The left side, `filter(x -> splitAttribute.apply(x) < splitValue)`. */
  function Below<T>(values: seq<T>, a: T -> real, t: real): (r: seq<T>)
    ensures forall i :: 0 <= i < |r| ==> a(r[i]) < t
  {
    Side(values, a, t, true)
  }

  /** The right side, `filter(x -> splitAttribute.apply(x) >= splitValue)`. */
  function AtOrAbove<T>(values: seq<T>, a: T -> real, t: real): (r: seq<T>)
    ensures forall i :: 0 <= i < |r| ==> a(r[i]) >= t
  {
    Side(values, a, t, false)
  }

  lemma {:induction false} SideMembers<T>(values: seq<T>, a: T -> real, t: real, below: bool)
    ensures forall x :: x in Side(values, a, t, below) <==> x in values && (a(x) < t) == below
    decreases |values|
  {
    if values != [] {
      var init := values[..|values| - 1];
      assert values == init + [values[|values| - 1]];
      SideMembers(init, a, t, below);
    }
  }

  /** A side is empty when no value falls on it. */
  lemma {:induction false} SideEmpty<T>(values: seq<T>, a: T -> real, t: real, below: bool)
    requires forall i :: 0 <= i < |values| ==> (a(values[i]) < t) != below
    ensures Side(values, a, t, below) == []
    decreases |values|
  {
    if values != [] {
      SideEmpty(values[..|values| - 1], a, t, below);
    }
  }

  /** Partition correctness: each value lands on exactly one side, left exactly
      when its attribute is below the threshold. */
  lemma Partition<T>(values: seq<T>, a: T -> real, t: real)
    ensures forall x :: x in Below(values, a, t) <==> x in values && a(x) < t
    ensures forall x :: x in AtOrAbove(values, a, t) <==> x in values && a(x) >= t
  {
    SideMembers(values, a, t, true);
    SideMembers(values, a, t, false);
  }

  /** The two sides hold as many values as the input. */
  lemma {:induction false} PartitionSizes<T>(values: seq<T>, a: T -> real, t: real)
    ensures |Below(values, a, t)| + |AtOrAbove(values, a, t)| == |values|
    decreases |values|
  {
    if values != [] {
      PartitionSizes(values[..|values| - 1], a, t);
    }
  }

  /** A side keeps the input order. */
  lemma {:induction false} SideIsSubsequence<T>(values: seq<T>, a: T -> real, t: real, below: bool)
    ensures Subsequence(Side(values, a, t, below), values)
    decreases |values|
  {
    if values != [] {
      var init := values[..|values| - 1];
      SideIsSubsequence(init, a, t, below);
      var r := Side(values, a, t, below);
      if (a(values[|values| - 1]) < t) == below {
        assert r[..|r| - 1] == Side(init, a, t, below);
      } else {
        assert r == Side(init, a, t, below);
      }
    }
  }

  /** Together the two sides hold every value as many times as the input does. */
  lemma {:induction false} PartitionMultisets<T>(values: seq<T>, a: T -> real, t: real)
    ensures multiset(Below(values, a, t)) + multiset(AtOrAbove(values, a, t)) == multiset(values)
    decreases |values|
  {
    if values != [] {
      var init, last := values[..|values| - 1], values[|values| - 1];
      PartitionMultisets(init, a, t);
      assert values == init + [last];
      var l, r := Below(init, a, t), AtOrAbove(init, a, t);
      if a(last) < t {
        assert multiset(Below(values, a, t)) == multiset(l) + multiset{last} by {
          assert Below(values, a, t) == l + [last];
        }
        assert AtOrAbove(values, a, t) == r;
      } else {
        assert Below(values, a, t) == l;
        assert multiset(AtOrAbove(values, a, t)) == multiset(r) + multiset{last} by {
          assert AtOrAbove(values, a, t) == r + [last];
        }
      }
    }
  }

  /** Both sides of a partition keep the input order, and together they hold
      every value as many times as the input does. */
  lemma PartitionCounts<T>(values: seq<T>, a: T -> real, t: real)
    ensures Subsequence(Below(values, a, t), values) && Subsequence(AtOrAbove(values, a, t), values)
    ensures multiset(Below(values, a, t)) + multiset(AtOrAbove(values, a, t)) == multiset(values)
  {
    SideIsSubsequence(values, a, t, true);
    SideIsSubsequence(values, a, t, false);
    PartitionMultisets(values, a, t);
  }

  /** `mapToDouble(a).min()`: a lower bound on `a` over `values` that is attained. */
  function MinOf<T>(values: seq<T>, a: T -> real): (lo: real)
    requires |values| > 0
    ensures forall i :: 0 <= i < |values| ==> lo <= a(values[i])
    decreases |values|
  {
    if |values| == 1 then a(values[0])
    else
      var m := MinOf(values[..|values| - 1], a);
      var v := a(values[|values| - 1]);
      if v < m then v else m
  }

  /** `mapToDouble(a).max()`: an upper bound on `a` over `values` that is attained. */
  function MaxOf<T>(values: seq<T>, a: T -> real): (hi: real)
    requires |values| > 0
    ensures forall i :: 0 <= i < |values| ==> a(values[i]) <= hi
    decreases |values|
  {
    if |values| == 1 then a(values[0])
    else
      var m := MaxOf(values[..|values| - 1], a);
      var v := a(values[|values| - 1]);
      if m < v then v else m
  }

  /** The minimum and the maximum are values the attribute takes. */
  lemma {:induction false} MinMaxAttained<T>(values: seq<T>, a: T -> real)
    requires |values| > 0
    ensures exists i :: 0 <= i < |values| && a(values[i]) == MinOf(values, a)
    ensures exists i :: 0 <= i < |values| && a(values[i]) == MaxOf(values, a)
    decreases |values|
  {
    if |values| == 1 {
      assert a(values[0]) == MinOf(values, a) == MaxOf(values, a);
    } else {
      var init := values[..|values| - 1];
      MinMaxAttained(init, a);
      var i :| 0 <= i < |init| && a(init[i]) == MinOf(init, a);
      var j :| 0 <= j < |init| && a(init[j]) == MaxOf(init, a);
      var last := |values| - 1;
      assert values[i] == init[i] && values[j] == init[j];
      assert a(values[if a(values[last]) < MinOf(init, a) then last else i]) == MinOf(values, a);
      assert a(values[if MaxOf(init, a) < a(values[last]) then last else j]) == MaxOf(values, a);
    }
  }

  // ---------------------------------------------------------------------------
  // Construction

  /** The threshold formula as the constructor writes it: `min + Math.random() * max`.
      With a non-negative random factor and a maximum that is not positive, it never
      exceeds the minimum. */
  function SplitValue(min: real, max: real, random: real): (v: real)
    ensures 0.0 <= random && max <= 0.0 ==> v <= min
  {
    min + random * max
  }

  /** The threshold Isolation Forest prescribes: a point of `[min, max]`, drawn
      uniformly when the random factor is uniform on `[0, 1)`. */
  function IntendedSplitValue(min: real, max: real, random: real): real
  {
    min + random * (max - min)
  }

  /** The intended threshold stays inside `[min, max]`, strictly inside when the
      random factor is strictly between 0 and 1. */
  lemma IntendedSplitValueWithin(min: real, max: real, random: real)
    requires 0.0 <= random <= 1.0 && min <= max
    ensures min <= IntendedSplitValue(min, max, random) <= max
    ensures 0.0 < random < 1.0 && min < max ==> min < IntendedSplitValue(min, max, random) < max
  {
    var d := max - min;
    var t := IntendedSplitValue(min, max, random);
    assert t == min + random * d;
    assert max - t == (1.0 - random) * d;
    if 0.0 < random < 1.0 && min < max {
      MulPos(random, d);
      MulPos(1.0 - random, d);
    } else {
      MulNonneg(random, d);
      MulNonneg(1.0 - random, d);
    }
  }

  lemma MulNonneg(a: real, b: real)
    requires 0.0 <= a && 0.0 <= b
    ensures 0.0 <= a * b
  {
  }

  lemma MulPos(a: real, b: real)
    requires 0.0 < a && 0.0 < b
    ensures 0.0 < a * b
  {
  }

  /** `attributes.get(nextInt(attributes.size()))`: the draw `k` reduced modulo the
      number of attributes, so that any in-range draw picks itself. */
  function Pick<T>(attributes: seq<T -> real>, k: nat): (a: T -> real)
    requires |attributes| > 0
    ensures a in attributes
    decreases k
  {
    if k < |attributes| then attributes[k] else Pick(attributes, k - |attributes|)
  }

  /** The choices one node makes and the partition they induce. */
  datatype Split<!T> = Split(attribute: T -> real, value: real, left: seq<T>, right: seq<T>)

  function SplitOf<T>(values: seq<T>, attributes: seq<T -> real>, choose: Chooser<T>, rule: ThresholdRule): (s: Split<T>)
    requires |values| > 0 && |attributes| > 0
    ensures s.attribute in attributes
    ensures |s.left| + |s.right| == |values|
  {
    var d := choose(values);
    var a := Pick(attributes, d.attribute);
    var t := rule(MinOf(values, a), MaxOf(values, a), d.random);
    PartitionSizes(values, a, t);
    Split(a, t, Below(values, a, t), AtOrAbove(values, a, t))
  }

  /** The `IsolationTreeNode` constructor: choose an attribute and a threshold,
      partition, and stop with a leaf counting the values when a side is empty;
      otherwise build both children from the two sides. */
  function Build<T>(values: seq<T>, attributes: seq<T -> real>, choose: Chooser<T>, rule: ThresholdRule): (r: Node<T>)
    requires |values| > 0 && |attributes| > 0
    ensures WellFormed(r)
    ensures LeafSizeSum(r) == |values|
    decreases |values|
  {
    var s := SplitOf(values, attributes, choose, rule);
    if s.left == [] || s.right == [] then
      Node(s.attribute, s.value, None, None, |values|)
    else
      Node(s.attribute, s.value,
           Some(Build(s.left, attributes, choose, rule)),
           Some(Build(s.right, attributes, choose, rule)),
           0)
  }

  /** Every node of a constructed tree splits on one of the supplied attributes. */
  lemma {:induction false} SplitAttributesSupplied<T>(values: seq<T>, attributes: seq<T -> real>, choose: Chooser<T>, rule: ThresholdRule)
    requires |values| > 0 && |attributes| > 0
    ensures AttributesFrom(Build(values, attributes, choose, rule), attributes)
    decreases |values|
  {
    var s := SplitOf(values, attributes, choose, rule);
    if s.left != [] && s.right != [] {
      SplitAttributesSupplied(s.left, attributes, choose, rule);
      SplitAttributesSupplied(s.right, attributes, choose, rule);
    }
  }

  /** Every child is built from a strictly smaller non-empty list, so construction
      terminates and a tree built from `n` values has depth at most `n - 1`. */
  lemma {:induction false} DepthBound<T>(values: seq<T>, attributes: seq<T -> real>, choose: Chooser<T>, rule: ThresholdRule)
    requires |values| > 0 && |attributes| > 0
    ensures Depth(Build(values, attributes, choose, rule)) < |values|
    decreases |values|
  {
    var s := SplitOf(values, attributes, choose, rule);
    if s.left != [] && s.right != [] {
      DepthBound(s.left, attributes, choose, rule);
      DepthBound(s.right, attributes, choose, rule);
    }
  }

  /** No node of a well-formed tree is half built: it is exactly one of external
      and internal, and only leaves carry a size. */
  lemma {:induction false} NeverIndeterminate<T>(n: Node<T>, path: seq<bool>)
    requires WellFormed(n) && Follow(n, path).Some?
    ensures var m := Follow(n, path).value;
            !m.IsIndeterminate() && m.IsExternal() != m.IsInternal()
            && (m.IsExternal() ==> m.size >= 1) && (m.IsInternal() ==> m.size == 0)
    decreases |path|
  {
    if path != [] {
      if path[0] {
        NeverIndeterminate(n.right.value, path[1..]);
      } else {
        NeverIndeterminate(n.left.value, path[1..]);
      }
    }
  }

  /** A node is internal exactly when both sides of its partition are non-empty;
      then its children are built from strictly smaller non-empty lists whose leaf
      counts add up to the node's. */
  lemma BuildSplitsOrStops<T>(values: seq<T>, attributes: seq<T -> real>, choose: Chooser<T>, rule: ThresholdRule)
    requires |values| > 0 && |attributes| > 0
    ensures var r := Build(values, attributes, choose, rule);
            var s := SplitOf(values, attributes, choose, rule);
            (r.IsExternal() <==> s.left == [] || s.right == [])
            && (r.IsExternal() ==> r.size == |values|)
            && (r.IsInternal() ==>
                  0 < |s.left| < |values| && 0 < |s.right| < |values|
                  && LeafSizeSum(r.left.value) == |s.left| && LeafSizeSum(r.right.value) == |s.right|)
  {
  }

  /** A node whose chosen attribute takes one value on all its values is a leaf,
      whatever the threshold formula gives. */
  lemma ConstantAttributeIsLeaf<T>(values: seq<T>, attributes: seq<T -> real>, choose: Chooser<T>, rule: ThresholdRule)
    requires |values| > 0 && |attributes| > 0
    requires var a := Pick(attributes, choose(values).attribute);
             forall i :: 0 <= i < |values| ==> a(values[i]) == a(values[0])
    ensures var r := Build(values, attributes, choose, rule);
            r.IsExternal() && r.size == |values|
  {
    var s := SplitOf(values, attributes, choose, rule);
    var a := s.attribute;
    SideEmpty(values, a, s.value, !(a(values[0]) < s.value));
  }

  /** A node built from a single value is a leaf of size 1. */
  lemma SingletonIsLeaf<T>(x: T, attributes: seq<T -> real>, choose: Chooser<T>, rule: ThresholdRule)
    requires |attributes| > 0
    ensures var r := Build([x], attributes, choose, rule);
            r.IsExternal() && r.size == 1
  {
    ConstantAttributeIsLeaf([x], attributes, choose, rule);
  }

  // ---------------------------------------------------------------------------
  // Routing: the rule scoring follows to descend a tree

  /** One step down: left exactly when the attribute is below the split value,
      the same comparison the partition uses. */
  function Next<T>(x: T, n: Node<T>): (child: Node<T>)
    requires n.IsInternal()
    ensures child == n.left.value || child == n.right.value
    ensures WellFormed(n) ==> WellFormed(child)
  {
    if n.splitAttribute(x) < n.splitValue then n.left.value else n.right.value
  }

  /** The leaf `x` is routed to. */
  function Locate<T>(x: T, n: Node<T>): (leaf: Node<T>)
    requires WellFormed(n)
    ensures leaf.IsExternal() && leaf.size >= 1
    decreases n
  {
    if n.IsExternal() then n else Locate(x, Next(x, n))
  }

  /** Number of edges from `n` to the leaf `x` is routed to. */
  function RouteLength<T>(x: T, n: Node<T>): nat
    requires WellFormed(n)
    decreases n
  {
    if n.IsExternal() then 0 else 1 + RouteLength(x, Next(x, n))
  }

  /** The node `x` reaches after `k` steps (staying put at a leaf). */
  function NodeAt<T>(x: T, n: Node<T>, k: nat): (m: Node<T>)
    requires WellFormed(n)
    ensures WellFormed(m)
    decreases n
  {
    if k == 0 || n.IsExternal() then n else NodeAt(x, Next(x, n), k - 1)
  }

  lemma {:induction false} RouteWithinDepth<T>(x: T, n: Node<T>)
    requires WellFormed(n)
    ensures RouteLength(x, n) <= Depth(n)
    decreases n
  {
    if n.IsInternal() {
      RouteWithinDepth(x, Next(x, n));
    }
  }

  /** Before the end of its route, `x` is at an internal node; at the end, at its leaf. */
  lemma {:induction false} NodeAtOnRoute<T>(x: T, n: Node<T>, k: nat)
    requires WellFormed(n) && k <= RouteLength(x, n)
    ensures k < RouteLength(x, n) ==> NodeAt(x, n, k).IsInternal()
    ensures k == RouteLength(x, n) ==> NodeAt(x, n, k) == Locate(x, n)
    decreases n
  {
    if k > 0 && n.IsInternal() {
      NodeAtOnRoute(x, Next(x, n), k - 1);
    }
  }

  /** The values that end up in the same leaf as `x` when the tree is built from
      `values`: the construction-time subset that the routing of `x` follows. */
  ghost function Cell<T>(values: seq<T>, attributes: seq<T -> real>, choose: Chooser<T>, rule: ThresholdRule, x: T): seq<T>
    requires |values| > 0 && |attributes| > 0
    decreases |values|
  {
    var s := SplitOf(values, attributes, choose, rule);
    if s.left == [] || s.right == [] then values
    else if s.attribute(x) < s.value then Cell(s.left, attributes, choose, rule, x)
    else Cell(s.right, attributes, choose, rule, x)
  }

  /** Construction and routing take the same step: an internal root sends `x` to
      the child built from the side of its partition that `x` falls on. */
  lemma RouteStep<T>(values: seq<T>, attributes: seq<T -> real>, choose: Chooser<T>, rule: ThresholdRule, x: T)
    requires |values| > 0 && |attributes| > 0
    requires var s := SplitOf(values, attributes, choose, rule); s.left != [] && s.right != []
    ensures var s := SplitOf(values, attributes, choose, rule);
            var side := if s.attribute(x) < s.value then s.left else s.right;
            var tree := Build(values, attributes, choose, rule);
            tree.IsInternal() && Next(x, tree) == Build(side, attributes, choose, rule)
            && Cell(values, attributes, choose, rule, x) == Cell(side, attributes, choose, rule, x)
  {
  }

  /** A value the tree was built from is routed to the leaf of the subset that
      contained it during construction, and that leaf records the subset's size. */
  lemma {:induction false} SampledValueReachesItsLeaf<T>(values: seq<T>, attributes: seq<T -> real>, choose: Chooser<T>, rule: ThresholdRule, x: T)
    requires |attributes| > 0 && x in values
    ensures var c := Cell(values, attributes, choose, rule, x);
            var leaf := Locate(x, Build(values, attributes, choose, rule));
            x in c && multiset(c) <= multiset(values) && leaf.size == |c|
            && leaf == Build(c, attributes, choose, rule)
    decreases |values|
  {
    var s := SplitOf(values, attributes, choose, rule);
    var tree := Build(values, attributes, choose, rule);
    if s.left == [] || s.right == [] {
      assert tree.IsExternal() && Cell(values, attributes, choose, rule, x) == values;
    } else {
      var side := if s.attribute(x) < s.value then s.left else s.right;
      assert x in side && multiset(side) <= multiset(values) by {
        Partition(values, s.attribute, s.value);
        PartitionMultisets(values, s.attribute, s.value);
      }
      RouteStep(values, attributes, choose, rule, x);
      SampledValueReachesItsLeaf(side, attributes, choose, rule, x);
    }
  }

  // ---------------------------------------------------------------------------
  // The threshold formula as written

  /** With the formula as written, a node whose chosen attribute is nowhere
      positive is always a leaf (for a non-negative random factor): the threshold
      `min + u * max` is at most `min`, so no value is below it. */
  lemma NonPositiveAttributeNeverSplits<T>(values: seq<T>, attributes: seq<T -> real>, choose: Chooser<T>)
    requires |values| > 0 && |attributes| > 0 && 0.0 <= choose(values).random
    requires var a := Pick(attributes, choose(values).attribute);
             forall i :: 0 <= i < |values| ==> a(values[i]) <= 0.0
    ensures var r := Build(values, attributes, choose, SplitValue);
            r.IsExternal() && r.size == |values|
  {
    var s := SplitOf(values, attributes, choose, SplitValue);
    var a := s.attribute;
    var lo, hi, u := MinOf(values, a), MaxOf(values, a), choose(values).random;
    assert hi <= 0.0 by {
      MinMaxAttained(values, a);
    }
    assert s.value <= lo;
    forall i | 0 <= i < |values| ensures !(a(values[i]) < s.value) {
      assert lo <= a(values[i]);
    }
    SideEmpty(values, a, s.value, true);
  }

  /** With the intended formula, a random factor strictly between 0 and 1 always
      separates a node whose chosen attribute is not constant. */
  lemma IntendedSplitSeparates<T>(values: seq<T>, attributes: seq<T -> real>, choose: Chooser<T>)
    requires |values| > 0 && |attributes| > 0 && 0.0 < choose(values).random < 1.0
    requires var a := Pick(attributes, choose(values).attribute);
             MinOf(values, a) < MaxOf(values, a)
    ensures Build(values, attributes, choose, IntendedSplitValue).IsInternal()
  {
    var s := SplitOf(values, attributes, choose, IntendedSplitValue);
    var a := s.attribute;
    var lo, hi, u := MinOf(values, a), MaxOf(values, a), choose(values).random;
    IntendedSplitValueWithin(lo, hi, u);
    MinMaxAttained(values, a);
    var i :| 0 <= i < |values| && a(values[i]) == lo;
    var j :| 0 <= j < |values| && a(values[j]) == hi;
    Partition(values, a, s.value);
    assert values[i] in s.left;
    assert values[j] in s.right;
  }

  /** Two values whose attribute differs but is negative: the code's threshold
      leaves them unsplit, the intended one separates them. */
  lemma ThresholdFormulaExample()
    ensures var attributes := [(v: real) => v];
            var choose := (s: seq<real>) => Draw(0, 0.5);
            Build([-2.0, -1.0], attributes, choose, SplitValue).IsExternal()
            && Build([-2.0, -1.0], attributes, choose, IntendedSplitValue).IsInternal()
  {
    var attributes := [(v: real) => v];
    var choose := (s: seq<real>) => Draw(0, 0.5);
    var values := [-2.0, -1.0];
    assert MinOf(values, attributes[0]) == -2.0;
    assert MaxOf(values, attributes[0]) == -1.0;
    NonPositiveAttributeNeverSplits(values, attributes, choose);
    IntendedSplitSeparates(values, attributes, choose);
  }
}
