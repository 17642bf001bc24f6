/** The portable form of a gradient-boosted forest. */
module PortableForest {
  import opened Wrappers

  // Trees as node tables, what a forest means for a feature row, the flat arrays
  // it is exported to, and the check those arrays must pass when they are loaded.
  // Leaf values are added by an arbitrary operation, so every result holds for
  // floating point as well.

  /** Addition of leaf values, the NaN test and the comparison of a feature with a threshold. */
  datatype Arithmetic<!V, !F> = Arithmetic(add: (V, V) -> V, isNaN: F -> bool, atMost: (F, F) -> bool)

  datatype Node<V, F> = Node(
    value: V, feature: int, threshold: F, missingLeft: bool, left: int, right: int, isLeaf: bool, isCategorical: bool)

  type Tree<V, F> = seq<Node<V, F>>

  datatype ClassTree<V, F> = ClassTree(class_: int, nodes: Tree<V, F>)

  // ----- what a forest computes

  function GoesLeft<V, F>(a: Arithmetic<V, F>, n: Node<V, F>, row: seq<F>): bool
    requires 0 <= n.feature < |row|
  {
    if a.isNaN(row[n.feature]) then n.missingLeft else a.atMost(row[n.feature], n.threshold)
  }

  function Child<V, F>(a: Arithmetic<V, F>, n: Node<V, F>, row: seq<F>): int
    requires 0 <= n.feature < |row|
  {
    if GoesLeft(a, n, row) then n.left else n.right
  }

  predicate IsForward<V, F>(n: Node<V, F>, i: int, features: nat) {
    !n.isLeaf ==> 0 <= n.feature < features && (n.left < 0 || n.left > i) && (n.right < 0 || n.right > i)
  }

  /** Inner nodes test existing features and their children come later in the table
      (or are invalid); the traversal loops rely on both. */
  predicate IsTraversable<V, F>(t: Tree<V, F>, features: nat) {
    t != [] && forall i :: 0 <= i < |t| ==> IsForward(t[i], i, features)
  }

  /** The leaf that a row reaches from node i, or None if the walk leaves the tree. */
  function Walk<V, F>(a: Arithmetic<V, F>, t: Tree<V, F>, row: seq<F>, i: int): (leaf: Option<nat>)
    requires IsTraversable(t, |row|)
    ensures leaf.Some? ==> leaf.value < |t| && t[leaf.value].isLeaf
    decreases |t| - i
  {
    if i < 0 || i >= |t| then None
    else if t[i].isLeaf then Some(i)
    else
      assert IsForward(t[i], i, |row|);
      var c := Child(a, t[i], row);
      if c < 0 then None else Walk(a, t, row, c)
  }

  predicate AllTraversable<V, F>(trees: seq<ClassTree<V, F>>, features: nat, classes: nat) {
    forall k :: 0 <= k < |trees| ==> IsTraversable(trees[k].nodes, features) && 0 <= trees[k].class_ < classes
  }

  /** The scores of one row: the baseline, plus each tree's leaf value added to
      that tree's class, in the order of the trees. */
  function Scores<V, F>(
    a: Arithmetic<V, F>, trees: seq<ClassTree<V, F>>, baseline: seq<V>, row: seq<F>): (s: Option<seq<V>>)
    requires AllTraversable(trees, |row|, |baseline|)
    ensures s.Some? ==> |s.value| == |baseline|
  {
    if trees == [] then Some(baseline)
    else
      var last := trees[|trees| - 1];
      var before := Scores(a, trees[..|trees| - 1], baseline, row);
      var leaf := Walk(a, last.nodes, row, 0);
      if before.None? || leaf.None? then None
      else
        Some(before.value[last.class_ := a.add(before.value[last.class_], last.nodes[leaf.value].value)])
  }

  // ----- walks as paths, scores as sums

  /** Whether a row goes from a node to a child: a missing value by the node's
      default, any other one by comparison with the threshold. */
  predicate GoesTo<V, F>(a: Arithmetic<V, F>, n: Node<V, F>, row: seq<F>, child: int)
    requires 0 <= n.feature < |row|
  {
    var value := row[n.feature];
    || (a.isNaN(value) && n.missingLeft && child == n.left)
    || (a.isNaN(value) && !n.missingLeft && child == n.right)
    || (!a.isNaN(value) && a.atMost(value, n.threshold) && child == n.left)
    || (!a.isNaN(value) && !a.atMost(value, n.threshold) && child == n.right)
  }

  /** Inside the tree and, unless a leaf, with an existing feature. */
  predicate IsInner<V, F>(t: Tree<V, F>, row: seq<F>, i: int) {
    0 <= i < |t| && !t[i].isLeaf && 0 <= t[i].feature < |row|
  }

  predicate IsDecisionPath<V, F>(a: Arithmetic<V, F>, t: Tree<V, F>, row: seq<F>, path: seq<int>) {
    && path != [] && 0 <= path[|path| - 1] < |t| && t[path[|path| - 1]].isLeaf
    && forall k :: 0 <= k < |path| - 1 ==> IsInner(t, row, path[k]) && GoesTo(a, t[path[k]], row, path[k + 1])
  }

  /** The walk from a node ends at a leaf exactly if the row's decisions lead there. */
  lemma {:induction false} WalkIffPath<V, F>(a: Arithmetic<V, F>, t: Tree<V, F>, row: seq<F>, i: nat, leaf: nat)
    requires IsTraversable(t, |row|) && i < |t|
    ensures Walk(a, t, row, i) == Some(leaf) <==>
              exists path: seq<int> :: IsDecisionPath(a, t, row, path) && path[0] == i && path[|path| - 1] == leaf
    decreases |t| - i
  {
    assert IsForward(t[i], i, |row|);
    if t[i].isLeaf {
      assert IsDecisionPath(a, t, row, [i]);
      forall path: seq<int> | IsDecisionPath(a, t, row, path) && path[0] == i
        ensures path[|path| - 1] == i
      {
        assert !IsInner(t, row, path[0]);
      }
    } else {
      var child := Child(a, t[i], row);
      if 0 <= child < |t| {
        WalkIffPath(a, t, row, child, leaf);
        if Walk(a, t, row, child) == Some(leaf) {
          var rest: seq<int> :| IsDecisionPath(a, t, row, rest) && rest[0] == child && rest[|rest| - 1] == leaf;
          PathExtends(a, t, row, i, rest);
        }
      }
      forall path: seq<int> | IsDecisionPath(a, t, row, path) && path[0] == i && path[|path| - 1] == leaf
        ensures Walk(a, t, row, i) == Some(leaf)
      {
        assert |path| > 1 && GoesTo(a, t[path[0]], row, path[1]);
        PathShrinks(a, t, row, path);
      }
    }
  }

  lemma PathExtends<V, F>(a: Arithmetic<V, F>, t: Tree<V, F>, row: seq<F>, i: nat, rest: seq<int>)
    requires IsDecisionPath(a, t, row, rest) && IsInner(t, row, i) && GoesTo(a, t[i], row, rest[0])
    ensures IsDecisionPath(a, t, row, [i] + rest)
  {
    var path := [i] + rest;
    forall k | 0 <= k < |path| - 1
      ensures IsInner(t, row, path[k]) && GoesTo(a, t[path[k]], row, path[k + 1])
    {
      if k > 0 {
        assert path[k] == rest[k - 1] && path[k + 1] == rest[k];
      }
    }
  }

  lemma PathShrinks<V, F>(a: Arithmetic<V, F>, t: Tree<V, F>, row: seq<F>, path: seq<int>)
    requires IsDecisionPath(a, t, row, path) && |path| > 1
    ensures IsDecisionPath(a, t, row, path[1..]) && 0 <= path[1] < |t|
  {
    var rest := path[1..];
    forall k | 0 <= k < |rest| - 1
      ensures IsInner(t, row, rest[k]) && GoesTo(a, t[rest[k]], row, rest[k + 1])
    {
      assert rest[k] == path[k + 1] && rest[k + 1] == path[k + 2];
    }
    assert |path| > 2 ==> IsInner(t, row, rest[0]);
  }

  /** Leaf values added to a start value, from left to right. */
  function AddUp<V, F>(a: Arithmetic<V, F>, start: V, values: seq<V>): V {
    if values == [] then start else a.add(AddUp(a, start, values[..|values| - 1]), values[|values| - 1])
  }

  /** The leaf values that a row gets from the trees of one class, in tree order. */
  function LeafValues<V, F>(a: Arithmetic<V, F>, trees: seq<ClassTree<V, F>>, row: seq<F>, c: nat): seq<V>
    requires forall k :: 0 <= k < |trees| ==> IsTraversable(trees[k].nodes, |row|)
  {
    if trees == [] then []
    else
      var last := trees[|trees| - 1];
      var leaf := Walk(a, last.nodes, row, 0);
      LeafValues(a, trees[..|trees| - 1], row, c)
      + if last.class_ == c && leaf.Some? then [last.nodes[leaf.value].value] else []
  }

  /** Each class has its own sum: the baseline and the leaf values of its own trees. */
  lemma {:induction false} ScoreOfClass<V, F>(
    a: Arithmetic<V, F>, trees: seq<ClassTree<V, F>>, baseline: seq<V>, row: seq<F>, c: nat)
    requires AllTraversable(trees, |row|, |baseline|) && c < |baseline|
    ensures Scores(a, trees, baseline, row).Some? ==>
              Scores(a, trees, baseline, row).value[c] == AddUp(a, baseline[c], LeafValues(a, trees, row, c))
  {
    if trees != [] {
      ScoreOfClass(a, trees[..|trees| - 1], baseline, row, c);
      var values := LeafValues(a, trees[..|trees| - 1], row, c);
      var last := trees[|trees| - 1];
      var leaf := Walk(a, last.nodes, row, 0);
      if leaf.Some? {
        var value := last.nodes[leaf.value].value;
        assert (values + [value])[..|values|] == values && values + [] == values;
      }
    }
  }

  /** A row has no scores exactly if it leaves one of the trees. */
  lemma {:induction false} NoScoresIff<V, F>(
    a: Arithmetic<V, F>, trees: seq<ClassTree<V, F>>, baseline: seq<V>, row: seq<F>)
    requires AllTraversable(trees, |row|, |baseline|)
    ensures Scores(a, trees, baseline, row).None? <==>
              exists k :: 0 <= k < |trees| && Walk(a, trees[k].nodes, row, 0).None?
  {
    if trees != [] {
      var init := trees[..|trees| - 1];
      NoScoresIff(a, init, baseline, row);
      assert forall k :: 0 <= k < |init| ==> init[k] == trees[k];
      var last := trees[|trees| - 1];
      if Walk(a, last.nodes, row, 0).None? {
        assert trees[|trees| - 1] == last;
      }
    }
  }

  // ----- the artifact

  datatype Artifact<V, F> = Artifact(
    nFeatures: nat,
    nClasses: nat,
    classes: seq<int>,
    baseline: seq<V>,
    calibrationA: seq<V>,
    calibrationB: seq<V>,
    treeOffsets: seq<int>,
    treeClasses: seq<int>,
    nodeValue: seq<V>,
    nodeFeature: seq<int>,
    nodeThreshold: seq<F>,
    nodeMissingLeft: seq<bool>,
    nodeLeft: seq<int>,
    nodeRight: seq<int>,
    nodeIsLeaf: seq<bool>)

  predicate SameLengths<V, F>(p: Artifact<V, F>) {
    |p.nodeValue| == |p.nodeFeature| == |p.nodeThreshold| == |p.nodeMissingLeft|
    == |p.nodeLeft| == |p.nodeRight| == |p.nodeIsLeaf|
  }

  /** The check made when an artifact is loaded. */
  predicate Validate<V, F>(p: Artifact<V, F>) {
    && |p.classes| == p.nClasses
    && |p.baseline| == p.nClasses
    && |p.calibrationA| == p.nClasses
    && |p.calibrationB| == p.nClasses
    && |p.treeOffsets| == |p.treeClasses| + 1
    && p.treeOffsets[0] == 0 && p.treeOffsets[|p.treeOffsets| - 1] == |p.nodeValue|
    && SameLengths(p)
    && forall k :: 0 <= k < |p.treeClasses| ==> 0 <= p.treeClasses[k] < p.nClasses
  }

  function NodeAt<V, F>(p: Artifact<V, F>, g: nat): Node<V, F>
    requires SameLengths(p) && g < |p.nodeValue|
  {
    Node(p.nodeValue[g], p.nodeFeature[g], p.nodeThreshold[g], p.nodeMissingLeft[g],
         p.nodeLeft[g], p.nodeRight[g], p.nodeIsLeaf[g], false)
  }

  predicate IsSpan(offsets: seq<int>, k: nat, total: nat) {
    k + 1 < |offsets| && 0 <= offsets[k] <= offsets[k + 1] <= total
  }

  /** Offsets and classes delimit the node table into trees. */
  predicate IsDelimited<V, F>(p: Artifact<V, F>) {
    && SameLengths(p)
    && |p.treeOffsets| == |p.treeClasses| + 1
    && forall k :: 0 <= k < |p.treeClasses| ==> IsSpan(p.treeOffsets, k, |p.nodeValue|)
  }

  function TreeAt<V, F>(p: Artifact<V, F>, k: nat): Tree<V, F>
    requires IsDelimited(p) && k < |p.treeClasses|
  {
    assert IsSpan(p.treeOffsets, k, |p.nodeValue|);
    seq(p.treeOffsets[k + 1] - p.treeOffsets[k],
        i requires 0 <= i < p.treeOffsets[k + 1] - p.treeOffsets[k] => NodeAt(p, p.treeOffsets[k] + i))
  }

  /** The trees an artifact holds. */
  function TreesOf<V, F>(p: Artifact<V, F>): (trees: seq<ClassTree<V, F>>)
    requires IsDelimited(p)
    ensures |trees| == |p.treeClasses|
  {
    seq(|p.treeClasses|, k requires 0 <= k < |p.treeClasses| => ClassTree(p.treeClasses[k], TreeAt(p, k)))
  }

  /** What `decision_function` needs of a loaded artifact beyond the check. */
  predicate IsRunnable<V, F>(p: Artifact<V, F>) {
    Validate(p) && IsDelimited(p) && AllTraversable(TreesOf(p), p.nFeatures, p.nClasses)
  }

  // ----- flattening

  /** The trees of nested iterations, iteration by iteration, each with its class index. */
  function ClassTrees<V, F>(iteration: seq<Tree<V, F>>): (trees: seq<ClassTree<V, F>>)
    ensures |trees| == |iteration|
  {
    seq(|iteration|, c requires 0 <= c < |iteration| => ClassTree(c, iteration[c]))
  }

  function AllTrees<V, F>(iterations: seq<seq<Tree<V, F>>>): seq<ClassTree<V, F>> {
    if iterations == [] then []
    else AllTrees(iterations[..|iterations| - 1]) + ClassTrees(iterations[|iterations| - 1])
  }

  predicate HasCategorical<V, F>(t: Tree<V, F>) {
    exists i :: 0 <= i < |t| && t[i].isCategorical
  }

  // ----- forests that never leave their trees

  predicate IsComplete<V, F>(t: Tree<V, F>) {
    forall i :: 0 <= i < |t| && !t[i].isLeaf ==> HasChildren(t, i)
  }

  predicate HasChildren<V, F>(t: Tree<V, F>, i: nat) {
    i < |t| && i < t[i].left < |t| && i < t[i].right < |t|
  }

  lemma {:induction false} CompleteTreeHasLeaf<V, F>(a: Arithmetic<V, F>, t: Tree<V, F>, row: seq<F>, i: nat)
    requires IsTraversable(t, |row|) && IsComplete(t) && i < |t|
    ensures Walk(a, t, row, i).Some?
    decreases |t| - i
  {
    if !t[i].isLeaf {
      assert IsForward(t[i], i, |row|) && HasChildren(t, i);
      CompleteTreeHasLeaf(a, t, row, Child(a, t[i], row));
    }
  }

  /** With all child indexes inside their tree no row is ever refused, NaN features included. */
  lemma {:induction false} CompleteForestScores<V, F>(
    a: Arithmetic<V, F>, trees: seq<ClassTree<V, F>>, baseline: seq<V>, row: seq<F>)
    requires AllTraversable(trees, |row|, |baseline|)
    requires forall k :: 0 <= k < |trees| ==> IsComplete(trees[k].nodes)
    ensures Scores(a, trees, baseline, row).Some?
  {
    if trees != [] {
      CompleteForestScores(a, trees[..|trees| - 1], baseline, row);
      var last := trees[|trees| - 1];
      assert IsTraversable(last.nodes, |row|);
      CompleteTreeHasLeaf(a, last.nodes, row, 0);
    }
  }
}
