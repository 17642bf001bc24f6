/** Export to the portable arrays and the two interpreters over them. */
module PortableModel {
  import opened Wrappers
  import opened PortableForest

  // ----- export

  datatype Exported<V, F> = Exported(artifact: Artifact<V, F>) | CategoricalSplit | NoTrees | CalibratorMismatch

  /** The lists the export loop has grown so far hold exactly `trees`. */
  ghost predicate Holds<V, F>(p: Artifact<V, F>, trees: seq<ClassTree<V, F>>) {
    && IsDelimited(p)
    && p.treeOffsets[0] == 0 && p.treeOffsets[|p.treeClasses|] == |p.nodeValue|
    && TreesOf(p) == trees
  }

  function AppendTree<V, F>(p: Artifact<V, F>, t: ClassTree<V, F>): Artifact<V, F>
    requires p.treeOffsets != []
  {
    var n := |t.nodes|;
    p.(nodeValue := p.nodeValue + seq(n, i requires 0 <= i < n => t.nodes[i].value),
       nodeFeature := p.nodeFeature + seq(n, i requires 0 <= i < n => t.nodes[i].feature),
       nodeThreshold := p.nodeThreshold + seq(n, i requires 0 <= i < n => t.nodes[i].threshold),
       nodeMissingLeft := p.nodeMissingLeft + seq(n, i requires 0 <= i < n => t.nodes[i].missingLeft),
       nodeLeft := p.nodeLeft + seq(n, i requires 0 <= i < n => t.nodes[i].left),
       nodeRight := p.nodeRight + seq(n, i requires 0 <= i < n => t.nodes[i].right),
       nodeIsLeaf := p.nodeIsLeaf + seq(n, i requires 0 <= i < n => t.nodes[i].isLeaf),
       treeClasses := p.treeClasses + [t.class_],
       treeOffsets := p.treeOffsets + [p.treeOffsets[|p.treeOffsets| - 1] + n])
  }

  lemma AppendedLengths<V, F>(p: Artifact<V, F>, t: ClassTree<V, F>)
    requires IsDelimited(p) && p.treeOffsets[|p.treeClasses|] == |p.nodeValue|
    ensures IsDelimited(AppendTree(p, t))
    ensures var q := AppendTree(p, t); q.treeOffsets[|q.treeClasses|] == |q.nodeValue| == |p.nodeValue| + |t.nodes|
  {
    var q := AppendTree(p, t);
    forall k | 0 <= k < |q.treeClasses|
      ensures IsSpan(q.treeOffsets, k, |q.nodeValue|)
    {
      if k < |p.treeClasses| {
        assert IsSpan(p.treeOffsets, k, |p.nodeValue|);
      }
    }
  }

  lemma AppendedOldTree<V, F>(p: Artifact<V, F>, t: ClassTree<V, F>, k: nat)
    requires IsDelimited(p) && p.treeOffsets[|p.treeClasses|] == |p.nodeValue|
    requires k < |p.treeClasses| && IsDelimited(AppendTree(p, t))
    ensures TreeAt(AppendTree(p, t), k) == TreeAt(p, k)
  {
    var q := AppendTree(p, t);
    assert IsSpan(p.treeOffsets, k, |p.nodeValue|);
    assert q.treeOffsets[k] == p.treeOffsets[k] && q.treeOffsets[k + 1] == p.treeOffsets[k + 1];
    forall i | 0 <= i < |TreeAt(p, k)|
      ensures TreeAt(q, k)[i] == TreeAt(p, k)[i]
    {
      assert NodeAt(q, p.treeOffsets[k] + i) == NodeAt(p, p.treeOffsets[k] + i);
    }
  }

  lemma AppendedNewTree<V, F>(p: Artifact<V, F>, t: ClassTree<V, F>)
    requires IsDelimited(p) && p.treeOffsets[|p.treeClasses|] == |p.nodeValue|
    requires !HasCategorical(t.nodes) && IsDelimited(AppendTree(p, t))
    ensures TreeAt(AppendTree(p, t), |p.treeClasses|) == t.nodes
  {
    var q := AppendTree(p, t);
    assert q.treeOffsets[|p.treeClasses| + 1] == |p.nodeValue| + |t.nodes|;
    forall i | 0 <= i < |t.nodes|
      ensures TreeAt(q, |p.treeClasses|)[i] == t.nodes[i]
    {
      assert !t.nodes[i].isCategorical;
      assert q.treeOffsets[|p.treeClasses|] == |p.nodeValue|;
      assert NodeAt(q, |p.nodeValue| + i) == t.nodes[i];
    }
  }

  lemma AppendTreeHolds<V, F>(p: Artifact<V, F>, trees: seq<ClassTree<V, F>>, t: ClassTree<V, F>)
    requires Holds(p, trees) && !HasCategorical(t.nodes)
    ensures Holds(AppendTree(p, t), trees + [t])
  {
    var q := AppendTree(p, t);
    AppendedLengths(p, t);
    AppendedNewTree(p, t);
    forall k | 0 <= k < |trees|
      ensures TreesOf(q)[k] == trees[k]
    {
      AppendedOldTree(p, t, k);
      assert TreesOf(p)[k] == trees[k];
    }
  }

  lemma SameTables<V, F>(p: Artifact<V, F>, q: Artifact<V, F>, trees: seq<ClassTree<V, F>>)
    requires Holds(p, trees)
    requires q == p.(calibrationA := q.calibrationA, calibrationB := q.calibrationB)
    ensures Holds(q, trees)
  {
    assert IsDelimited(q);
    forall k | 0 <= k < |trees|
      ensures TreesOf(q)[k] == trees[k]
    {
      assert IsSpan(p.treeOffsets, k, |p.nodeValue|);
      assert forall g :: 0 <= g < |p.nodeValue| ==> NodeAt(q, g) == NodeAt(p, g);
      assert TreeAt(q, k) == TreeAt(p, k);
      assert TreesOf(p)[k] == trees[k];
    }
  }

  /** Refuses categorical splits, then a model without exactly one calibrator per
      class (two classes calibrated by one sigmoid are such a model), then a model
      without trees; anything else is exported. */
  method Export<V, F>(
    nFeatures: nat, classes: seq<int>, baseline: seq<V>, calibrators: seq<(V, V)>,
    iterations: seq<seq<Tree<V, F>>>)
    returns (r: Exported<V, F>)
    ensures r.CategoricalSplit? <==>
              exists k :: 0 <= k < |AllTrees(iterations)| && HasCategorical(AllTrees(iterations)[k].nodes)
    ensures r.CalibratorMismatch? <==> !r.CategoricalSplit? && |calibrators| != |classes|
    ensures r.NoTrees? <==> |calibrators| == |classes| && AllTrees(iterations) == []
    ensures r.Exported? ==>
              var p := r.artifact;
              && Holds(p, AllTrees(iterations))
              && p.nFeatures == nFeatures && p.nClasses == |classes| && p.classes == classes && p.baseline == baseline
              && |p.calibrationA| == |p.calibrationB| == |calibrators| == |classes|
              && forall c :: 0 <= c < |classes| ==>
                   p.calibrationA[c] == calibrators[c].0 && p.calibrationB[c] == calibrators[c].1
  {
    var p: Artifact<V, F> :=
      Artifact(nFeatures, |classes|, classes, baseline, [], [], [0], [], [], [], [], [], [], [], []);
    assert Holds(p, []);
    for i := 0 to |iterations|
      invariant Holds(p, AllTrees(iterations[..i]))
      invariant forall k :: 0 <= k < |AllTrees(iterations[..i])| ==> !HasCategorical(AllTrees(iterations[..i])[k].nodes)
      invariant p.nFeatures == nFeatures && p.nClasses == |classes| && p.classes == classes && p.baseline == baseline
    {
      ghost var before := AllTrees(iterations[..i]);
      var iteration := iterations[i];
      for c := 0 to |iteration|
        invariant Holds(p, before + ClassTrees(iteration)[..c])
        invariant forall k :: 0 <= k < c ==> !HasCategorical(iteration[k])
        invariant p.nFeatures == nFeatures && p.nClasses == |classes| && p.classes == classes && p.baseline == baseline
      {
        if exists j :: 0 <= j < |iteration[c]| && iteration[c][j].isCategorical {
          ghost var k := InnerTree(iterations, i, c);
          return CategoricalSplit;
        }
        var t := ClassTree(c, iteration[c]);
        AppendTreeHolds(p, before + ClassTrees(iteration)[..c], t);
        assert ClassTrees(iteration)[..c + 1] == ClassTrees(iteration)[..c] + [t];
        assert before + ClassTrees(iteration)[..c + 1] == (before + ClassTrees(iteration)[..c]) + [t];
        p := AppendTree(p, t);
      }
      assert ClassTrees(iteration)[..|iteration|] == ClassTrees(iteration);
      assert iterations[..i + 1][..i] == iterations[..i];
    }
    assert iterations[..|iterations|] == iterations;
    if |calibrators| != |classes| {
      return CalibratorMismatch;
    }
    if |p.treeClasses| == 0 {
      return NoTrees;
    }
    ghost var uncalibrated := p;
    p := p.(calibrationA := seq(|calibrators|, i requires 0 <= i < |calibrators| => calibrators[i].0),
            calibrationB := seq(|calibrators|, i requires 0 <= i < |calibrators| => calibrators[i].1));
    SameTables(uncalibrated, p, AllTrees(iterations));
    return Exported(p);
  }

  lemma {:induction false} InnerTree<V, F>(iterations: seq<seq<Tree<V, F>>>, i: nat, c: nat) returns (k: nat)
    requires i < |iterations| && c < |iterations[i]|
    ensures k < |AllTrees(iterations)| && AllTrees(iterations)[k] == ClassTree(c, iterations[i][c])
  {
    var init := iterations[..|iterations| - 1];
    if i < |init| {
      k := InnerTree(init, i, c);
    } else {
      k := |AllTrees(init)| + c;
    }
  }

  // ----- loading what was exported

  /** An exported artifact passes the loader's check exactly when the model has one
      baseline per class and at most one tree per class and iteration. */
  lemma ExportedValidatesIff<V, F>(p: Artifact<V, F>, iterations: seq<seq<Tree<V, F>>>)
    requires Holds(p, AllTrees(iterations))
    requires |p.classes| == |p.calibrationA| == |p.calibrationB| == p.nClasses
    ensures Validate(p) <==>
              |p.baseline| == p.nClasses && forall i :: 0 <= i < |iterations| ==> |iterations[i]| <= p.nClasses
  {
    var trees := AllTrees(iterations);
    assert forall k :: 0 <= k < |trees| ==> TreesOf(p)[k].class_ == p.treeClasses[k];
    if Validate(p) {
      forall i | 0 <= i < |iterations|
        ensures |iterations[i]| <= p.nClasses
      {
        if |iterations[i]| > p.nClasses {
          var k := InnerTree(iterations, i, p.nClasses);
        }
      }
    }
    if forall i :: 0 <= i < |iterations| ==> |iterations[i]| <= p.nClasses {
      ClassesInRange(iterations, p.nClasses);
    }
  }

  /** Each inconsistency that the loader looks for makes it refuse the artifact, and
      there is no other reason. */
  lemma RefusedIff<V, F>(p: Artifact<V, F>)
    ensures !Validate(p) <==>
              || |p.classes| != p.nClasses || |p.baseline| != p.nClasses
              || |p.calibrationA| != p.nClasses || |p.calibrationB| != p.nClasses
              || |p.treeOffsets| != |p.treeClasses| + 1
              || p.treeOffsets[0] != 0 || p.treeOffsets[|p.treeClasses|] != |p.nodeValue|
              || |p.nodeFeature| != |p.nodeValue| || |p.nodeThreshold| != |p.nodeValue|
              || |p.nodeMissingLeft| != |p.nodeValue| || |p.nodeLeft| != |p.nodeValue|
              || |p.nodeRight| != |p.nodeValue| || |p.nodeIsLeaf| != |p.nodeValue|
              || exists k :: 0 <= k < |p.treeClasses| && (p.treeClasses[k] < 0 || p.treeClasses[k] >= p.nClasses)
  {
  }

  lemma {:induction false} ClassesInRange<V, F>(iterations: seq<seq<Tree<V, F>>>, n: nat)
    requires forall i :: 0 <= i < |iterations| ==> |iterations[i]| <= n
    ensures forall k :: 0 <= k < |AllTrees(iterations)| ==> 0 <= AllTrees(iterations)[k].class_ < n
  {
    if iterations != [] {
      ClassesInRange(iterations[..|iterations| - 1], n);
    }
  }

  /** Exporting a multiclass forest whose trees can be traversed gives an artifact
      that passes the check and that the interpreters can run. */
  lemma ExportedIsRunnable<V, F>(p: Artifact<V, F>, iterations: seq<seq<Tree<V, F>>>)
    requires Holds(p, AllTrees(iterations))
    requires |p.classes| == |p.calibrationA| == |p.calibrationB| == |p.baseline| == p.nClasses
    requires forall i :: 0 <= i < |iterations| ==> |iterations[i]| <= p.nClasses
    requires forall i, c :: 0 <= i < |iterations| && 0 <= c < |iterations[i]| ==>
               IsTraversable(iterations[i][c], p.nFeatures)
    ensures IsRunnable(p)
  {
    ExportedValidatesIff(p, iterations);
    ClassesInRange(iterations, p.nClasses);
    TreesTraversable(iterations, p.nFeatures);
  }

  lemma {:induction false} TreesTraversable<V, F>(iterations: seq<seq<Tree<V, F>>>, features: nat)
    requires forall i, c :: 0 <= i < |iterations| && 0 <= c < |iterations[i]| ==>
               IsTraversable(iterations[i][c], features)
    ensures forall k :: 0 <= k < |AllTrees(iterations)| ==> IsTraversable(AllTrees(iterations)[k].nodes, features)
  {
    if iterations != [] {
      TreesTraversable(iterations[..|iterations| - 1], features);
    }
  }

  // ----- the scalar interpreter

  lemma TreeNode<V, F>(p: Artifact<V, F>, k: nat, i: nat)
    requires IsRunnable(p) && k < |p.treeClasses|
    requires i < |TreeAt(p, k)|
    ensures TreesOf(p)[k].nodes == TreeAt(p, k) && IsTraversable(TreeAt(p, k), p.nFeatures)
    ensures 0 <= p.treeOffsets[k] && p.treeOffsets[k] + |TreeAt(p, k)| == p.treeOffsets[k + 1] <= |p.nodeValue|
    ensures TreeAt(p, k)[i] == NodeAt(p, p.treeOffsets[k] + i)
    ensures IsForward(NodeAt(p, p.treeOffsets[k] + i), i, p.nFeatures)
  {
    assert IsSpan(p.treeOffsets, k, |p.nodeValue|);
    assert TreesOf(p)[k].nodes == TreeAt(p, k);
    assert IsForward(TreeAt(p, k)[i], i, p.nFeatures);
  }

  lemma TreeIsNotEmpty<V, F>(p: Artifact<V, F>, k: nat)
    requires IsRunnable(p) && k < |p.treeClasses|
    ensures TreesOf(p)[k].nodes == TreeAt(p, k) && IsTraversable(TreeAt(p, k), p.nFeatures) && |TreeAt(p, k)| > 0
    ensures TreesOf(p)[k].class_ == p.treeClasses[k] && 0 <= p.treeClasses[k] < p.nClasses == |p.baseline|
  {
    assert IsTraversable(TreesOf(p)[k].nodes, p.nFeatures);
  }

  lemma {:induction false} MissingStaysMissing<V, F>(
    a: Arithmetic<V, F>, trees: seq<ClassTree<V, F>>, baseline: seq<V>, row: seq<F>, k: nat)
    requires AllTraversable(trees, |row|, |baseline|) && k <= |trees|
    requires Scores(a, trees[..k], baseline, row).None?
    ensures Scores(a, trees, baseline, row).None?
    decreases |trees|
  {
    if k < |trees| {
      assert trees[..|trees| - 1][..k] == trees[..k];
      MissingStaysMissing(a, trees[..|trees| - 1], baseline, row, k);
    } else {
      assert trees[..k] == trees;
    }
  }

  lemma ScoresStep<V, F>(a: Arithmetic<V, F>, trees: seq<ClassTree<V, F>>, baseline: seq<V>, row: seq<F>, k: nat)
    requires AllTraversable(trees, |row|, |baseline|) && k < |trees|
    requires Scores(a, trees[..k], baseline, row).Some?
    ensures var t := trees[k];
            var leaf := Walk(a, t.nodes, row, 0);
            var before := Scores(a, trees[..k], baseline, row).value;
            Scores(a, trees[..k + 1], baseline, row)
              == if leaf.None? then None
                 else Some(before[t.class_ := a.add(before[t.class_], t.nodes[leaf.value].value)])
  {
    assert trees[..k + 1][..k] == trees[..k];
  }

  /** One row against one tree: the index of the leaf, or None on a bounds error. */
  method TraverseOne<V, F>(a: Arithmetic<V, F>, p: Artifact<V, F>, k: nat, row: seq<F>) returns (leaf: Option<nat>)
    requires IsRunnable(p) && k < |p.treeClasses| && |row| == p.nFeatures
    ensures IsTraversable(TreeAt(p, k), |row|) && leaf == Walk(a, TreeAt(p, k), row, 0)
  {
    TreeIsNotEmpty(p, k);
    var start, end := p.treeOffsets[k], p.treeOffsets[k + 1];
    var local := 0;
    TreeNode(p, k, 0);
    while !p.nodeIsLeaf[start + local]
      invariant 0 <= local < |TreeAt(p, k)|
      invariant 0 <= start && start + |TreeAt(p, k)| == end <= |p.nodeValue|
      invariant Walk(a, TreeAt(p, k), row, local) == Walk(a, TreeAt(p, k), row, 0)
      decreases |TreeAt(p, k)| - local
    {
      TreeNode(p, k, local);
      var global := start + local;
      var value := row[p.nodeFeature[global]];
      var goLeft := if a.isNaN(value) then p.nodeMissingLeft[global] else a.atMost(value, p.nodeThreshold[global]);
      local := if goLeft then p.nodeLeft[global] else p.nodeRight[global];
      if local < 0 || start + local >= end {
        return None;
      }
    }
    TreeNode(p, k, local);
    return Some(local);
  }

  /** The interpreter used for a single row. */
  method ScoreOne<V, F>(a: Arithmetic<V, F>, p: Artifact<V, F>, row: seq<F>) returns (r: Option<seq<V>>)
    requires IsRunnable(p) && |row| == p.nFeatures
    ensures r == Scores(a, TreesOf(p), p.baseline, row)
  {
    var raw := p.baseline;
    ghost var trees := TreesOf(p);
    for k := 0 to |p.treeClasses|
      invariant Scores(a, trees[..k], p.baseline, row) == Some(raw)
    {
      TreeIsNotEmpty(p, k);
      var leaf := TraverseOne(a, p, k, row);
      ScoresStep(a, trees, p.baseline, row, k);
      if leaf.None? {
        MissingStaysMissing(a, trees, p.baseline, row, k + 1);
        return None;
      }
      TreeNode(p, k, leaf.value);
      var c := p.treeClasses[k];
      raw := raw[c := a.add(raw[c], p.nodeValue[p.treeOffsets[k] + leaf.value])];
    }
    assert trees[..|p.treeClasses|] == trees;
    return Some(raw);
  }

  // ----- the lock-step interpreter

  /** How many steps are left at most, over all rows. */
  function Remaining(locals: seq<int>, size: nat): int {
    if locals == [] then 0
    else size - locals[|locals| - 1] + Remaining(locals[..|locals| - 1], size)
  }

  lemma {:induction false} RemainingDecreases(before: seq<int>, after: seq<int>, size: nat)
    requires |before| == |after|
    requires forall r :: 0 <= r < |before| ==> before[r] <= after[r]
    ensures Remaining(after, size) <= Remaining(before, size)
    ensures (exists r :: 0 <= r < |before| && before[r] < after[r]) ==> Remaining(after, size) < Remaining(before, size)
  {
    if before != [] {
      RemainingDecreases(before[..|before| - 1], after[..|before| - 1], size);
    }
  }

  lemma {:induction false} RemainingIsBounded(locals: seq<int>, size: nat)
    requires forall r :: 0 <= r < |locals| ==> locals[r] <= size
    ensures Remaining(locals, size) >= 0
  {
    if locals != [] {
      RemainingIsBounded(locals[..|locals| - 1], size);
    }
  }

  predicate IsRowLeaf<V, F>(p: Artifact<V, F>, start: int, local: int) {
    0 <= start + local < |p.nodeIsLeaf| && p.nodeIsLeaf[start + local]
  }

  function NextLocal<V, F>(a: Arithmetic<V, F>, p: Artifact<V, F>, start: int, local: int, row: seq<F>): int
    requires SameLengths(p) && 0 <= start + local < |p.nodeValue|
    requires 0 <= p.nodeFeature[start + local] < |row|
  {
    var global := start + local;
    var value := row[p.nodeFeature[global]];
    var goLeft := if a.isNaN(value) then p.nodeMissingLeft[global] else a.atMost(value, p.nodeThreshold[global]);
    if goLeft then p.nodeLeft[global] else p.nodeRight[global]
  }

  /** A row's position is inside the tree and still leads where the root leads. */
  ghost predicate OnPath<V, F>(a: Arithmetic<V, F>, p: Artifact<V, F>, k: nat, row: seq<F>, local: int)
    requires IsRunnable(p) && k < |p.treeClasses|
  {
    && IsTraversable(TreeAt(p, k), |row|) && 0 <= local < |TreeAt(p, k)|
    && Walk(a, TreeAt(p, k), row, local) == Walk(a, TreeAt(p, k), row, 0)
  }

  lemma StepOnPath<V, F>(a: Arithmetic<V, F>, p: Artifact<V, F>, k: nat, row: seq<F>, local: int)
    requires IsRunnable(p) && k < |p.treeClasses| && |row| == p.nFeatures
    requires OnPath(a, p, k, row, local)
    ensures var start := p.treeOffsets[k];
            && 0 <= start <= start + local < |p.nodeValue|
            && start + |TreeAt(p, k)| == p.treeOffsets[k + 1] <= |p.nodeValue|
            && (IsRowLeaf(p, start, local) ==> Walk(a, TreeAt(p, k), row, 0) == Some(local))
            && (!IsRowLeaf(p, start, local) ==>
                  && 0 <= p.nodeFeature[start + local] < |row|
                  && var next := NextLocal(a, p, start, local, row);
                     && (0 <= next < |TreeAt(p, k)| ==> next > local && OnPath(a, p, k, row, next))
                     && (next < 0 || next >= |TreeAt(p, k)| ==> Walk(a, TreeAt(p, k), row, 0).None?))
  {
    TreeNode(p, k, local);
    var start := p.treeOffsets[k];
    if !IsRowLeaf(p, start, local) {
      var next := NextLocal(a, p, start, local, row);
      assert next == Child(a, TreeAt(p, k)[local], row);
      assert next >= |TreeAt(p, k)| ==> Walk(a, TreeAt(p, k), row, next).None?;
    }
  }

  /** The row has left the tree, or it has moved on along its path. */
  ghost predicate Moved<V, F>(a: Arithmetic<V, F>, p: Artifact<V, F>, k: nat, row: seq<F>, before: int, after: int)
    requires IsRunnable(p) && k < |p.treeClasses| && |row| == p.nFeatures
  {
    TreeIsNotEmpty(p, k);
    if 0 <= after < |TreeAt(p, k)| then before < after && OnPath(a, p, k, row, after)
    else Walk(a, TreeAt(p, k), row, 0).None?
  }

  /** One step of all rows that are not at a leaf, at once. */
  method StepAll<V, F>(a: Arithmetic<V, F>, p: Artifact<V, F>, k: nat, x: seq<seq<F>>, local: array<int>)
    requires IsRunnable(p) && k < |p.treeClasses| && local.Length == |x|
    requires forall r :: 0 <= r < |x| ==> |x[r]| == p.nFeatures && OnPath(a, p, k, x[r], local[r])
    modifies local
    ensures forall r :: 0 <= r < |x| ==>
              if IsRowLeaf(p, p.treeOffsets[k], old(local[r])) then local[r] == old(local[r])
              else Moved(a, p, k, x[r], old(local[r]), local[r])
  {
    hide Walk, OnPath, IsRunnable;
    var start := Start(p, k);
    forall r | 0 <= r < |x|
      ensures 0 <= start + local[r] < |p.nodeValue|
      ensures !IsRowLeaf(p, start, local[r]) ==>
                && 0 <= p.nodeFeature[start + local[r]] < |x[r]|
                && Moved(a, p, k, x[r], local[r], NextLocal(a, p, start, local[r], x[r]))
    {
      StepOnPath(a, p, k, x[r], local[r]);
    }
    forall r | 0 <= r < |x| && !IsRowLeaf(p, start, local[r]) {
      local[r] := NextLocal(a, p, start, local[r], x[r]);
    }
  }

  function Start<V, F>(p: Artifact<V, F>, k: nat): (start: int)
    requires IsRunnable(p) && k < |p.treeClasses|
    ensures k < |p.treeOffsets| && start == p.treeOffsets[k] && SameLengths(p)
  {
    p.treeOffsets[k]
  }

  /** Every row against one tree, all rows one step at a time. */
  method TraverseMany<V, F>(
    a: Arithmetic<V, F>, p: Artifact<V, F>, k: nat, x: seq<seq<F>>)
    returns (leaves: Option<seq<int>>)
    requires IsRunnable(p) && k < |p.treeClasses|
    requires forall r :: 0 <= r < |x| ==> |x[r]| == p.nFeatures
    ensures forall r :: 0 <= r < |x| ==> IsTraversable(TreeAt(p, k), |x[r]|)
    ensures leaves.None? <==> exists r :: 0 <= r < |x| && Walk(a, TreeAt(p, k), x[r], 0).None?
    ensures leaves.Some? ==>
              && |leaves.value| == |x|
              && forall r :: 0 <= r < |x| ==>
                   leaves.value[r] >= 0 && Walk(a, TreeAt(p, k), x[r], 0) == Some(leaves.value[r])
  {
    hide Walk, AllTraversable, TreesOf;
    TreeIsNotEmpty(p, k);
    var start, end := p.treeOffsets[k], p.treeOffsets[k + 1];
    ghost var size := |TreeAt(p, k)|;
    TreeNode(p, k, 0);
    var local := new int[|x|](_ => 0);
    RemainingIsBounded(local[..], size);
    while exists r :: 0 <= r < |x| && !IsRowLeaf(p, start, local[r])
      invariant local.Length == |x|
      invariant forall r :: 0 <= r < |x| ==> OnPath(a, p, k, x[r], local[r])
      invariant Remaining(local[..], size) >= 0
      decreases Remaining(local[..], size)
    {
      ghost var before := local[..];
      StepAll(a, p, k, x, local);
      if exists r :: 0 <= r < |x| && (local[r] < 0 || start + local[r] >= end) {
        return None;
      }
      RemainingDecreases(before, local[..], size);
      RemainingIsBounded(local[..], size);
    }
    forall r | 0 <= r < |x|
      ensures Walk(a, TreeAt(p, k), x[r], 0) == Some(local[r]) && local[r] >= 0
    {
      StepOnPath(a, p, k, x[r], local[r]);
    }
    return Some(local[..]);
  }

  /** Adding the leaf a row reached in the next tree. */
  lemma LeafAdded<V, F>(a: Arithmetic<V, F>, p: Artifact<V, F>, k: nat, row: seq<F>, leaf: int, before: seq<V>)
    requires IsRunnable(p) && k < |p.treeClasses| && |row| == p.nFeatures
    requires Scores(a, TreesOf(p)[..k], p.baseline, row) == Some(before)
    requires leaf >= 0 && IsTraversable(TreeAt(p, k), |row|) && Walk(a, TreeAt(p, k), row, 0) == Some(leaf)
    ensures 0 <= p.treeOffsets[k] + leaf < |p.nodeValue| && 0 <= p.treeClasses[k] < |before|
    ensures var c := p.treeClasses[k];
            Scores(a, TreesOf(p)[..k + 1], p.baseline, row)
            == Some(before[c := a.add(before[c], p.nodeValue[p.treeOffsets[k] + leaf])])
  {
    TreeIsNotEmpty(p, k);
    ScoresStep(a, TreesOf(p), p.baseline, row, k);
    TreeNode(p, k, leaf);
  }

  /** The scores of a row over the first k trees. */
  ghost predicate IsScored<V, F>(a: Arithmetic<V, F>, p: Artifact<V, F>, k: nat, row: seq<F>, scores: seq<V>)
    requires IsRunnable(p) && k <= |p.treeClasses| && |row| == p.nFeatures
  {
    Scores(a, TreesOf(p)[..k], p.baseline, row) == Some(scores)
  }

  lemma AllTreesScored<V, F>(a: Arithmetic<V, F>, p: Artifact<V, F>, x: seq<seq<F>>, raw: seq<seq<V>>)
    requires IsRunnable(p) && |raw| == |x| && forall r :: 0 <= r < |x| ==> |x[r]| == p.nFeatures
    requires forall r :: 0 <= r < |x| ==> IsScored(a, p, |p.treeClasses|, x[r], raw[r])
    ensures forall r :: 0 <= r < |x| ==> Scores(a, TreesOf(p), p.baseline, x[r]) == Some(raw[r])
  {
    hide Scores;
    assert TreesOf(p)[..|p.treeClasses|] == TreesOf(p);
  }

  lemma LeavesAdded<V, F>(
    a: Arithmetic<V, F>, p: Artifact<V, F>, k: nat, x: seq<seq<F>>, leaves: seq<int>, before: seq<seq<V>>)
    requires IsRunnable(p) && k < |p.treeClasses| && |leaves| == |x| == |before|
    requires forall r :: 0 <= r < |x| ==> |x[r]| == p.nFeatures && IsTraversable(TreeAt(p, k), |x[r]|)
    requires forall r :: 0 <= r < |x| ==> IsScored(a, p, k, x[r], before[r])
    requires forall r :: 0 <= r < |x| ==> leaves[r] >= 0 && Walk(a, TreeAt(p, k), x[r], 0) == Some(leaves[r])
    ensures forall r :: 0 <= r < |x| ==>
              && 0 <= p.treeOffsets[k] + leaves[r] < |p.nodeValue| && 0 <= p.treeClasses[k] < |before[r]|
              && var c := p.treeClasses[k];
                 IsScored(a, p, k + 1, x[r],
                          before[r][c := a.add(before[r][c], p.nodeValue[p.treeOffsets[k] + leaves[r]])])
  {
    hide Walk, Scores;
    forall r | 0 <= r < |x|
      ensures 0 <= p.treeOffsets[k] + leaves[r] < |p.nodeValue| && 0 <= p.treeClasses[k] < |before[r]|
      ensures var c := p.treeClasses[k];
              IsScored(a, p, k + 1, x[r],
                       before[r][c := a.add(before[r][c], p.nodeValue[p.treeOffsets[k] + leaves[r]])])
    {
      LeafAdded(a, p, k, x[r], leaves[r], before[r]);
    }
  }

  /** A row that leaves a tree has no scores. */
  lemma LeafMissing<V, F>(a: Arithmetic<V, F>, p: Artifact<V, F>, k: nat, row: seq<F>, before: seq<V>)
    requires IsRunnable(p) && k < |p.treeClasses| && |row| == p.nFeatures
    requires IsScored(a, p, k, row, before)
    requires IsTraversable(TreeAt(p, k), |row|) && Walk(a, TreeAt(p, k), row, 0).None?
    ensures Scores(a, TreesOf(p), p.baseline, row).None?
  {
    TreeIsNotEmpty(p, k);
    ScoresStep(a, TreesOf(p), p.baseline, row, k);
    MissingStaysMissing(a, TreesOf(p), p.baseline, row, k + 1);
  }

  /** The interpreter used for several rows. */
  method ScoreMany<V, F>(a: Arithmetic<V, F>, p: Artifact<V, F>, x: seq<seq<F>>) returns (result: Option<seq<seq<V>>>)
    requires IsRunnable(p)
    requires forall r :: 0 <= r < |x| ==> |x[r]| == p.nFeatures
    ensures result.None? <==> exists r :: 0 <= r < |x| && Scores(a, TreesOf(p), p.baseline, x[r]).None?
    ensures result.Some? ==>
              && |result.value| == |x|
              && forall r :: 0 <= r < |x| ==> Scores(a, TreesOf(p), p.baseline, x[r]) == Some(result.value[r])
  {
    hide Walk, TreesOf, TreeAt;
    assert forall r :: 0 <= r < |x| ==> IsScored(a, p, 0, x[r], p.baseline);
    hide Scores, IsScored;
    var raw := new seq<V>[|x|](_ => p.baseline);
    for k := 0 to |p.treeClasses|
      invariant raw.Length == |x|
      invariant forall r :: 0 <= r < |x| ==> IsScored(a, p, k, x[r], raw[r])
    {
      var leaves := TraverseMany(a, p, k, x);
      if leaves.None? {
        ghost var r :| 0 <= r < |x| && Walk(a, TreeAt(p, k), x[r], 0).None?;
        LeafMissing(a, p, k, x[r], raw[r]);
        return None;
      }
      var c, start := p.treeClasses[k], p.treeOffsets[k];
      LeavesAdded(a, p, k, x, leaves.value, raw[..]);
      forall r | 0 <= r < |x| {
        raw[r] := raw[r][c := a.add(raw[r][c], p.nodeValue[start + leaves.value[r]])];
      }
    }
    AllTreesScored(a, p, x, raw[..]);
    return Some(raw[..]);
  }

  // ----- decision_function

  datatype Decision<V> = Raw(rows: seq<seq<V>>) | ShapeError | BoundsError

  /** Which interpreter runs makes no difference: each row gets the scores of the
      forest, and there is a bounds error exactly when some row's walk leaves a tree. */
  method DecisionFunction<V, F>(
    a: Arithmetic<V, F>, p: Artifact<V, F>, x: seq<seq<F>>, columns: nat)
    returns (d: Decision<V>)
    requires IsRunnable(p)
    requires forall r :: 0 <= r < |x| ==> |x[r]| == columns
    ensures d.ShapeError? <==> columns != p.nFeatures
    ensures columns == p.nFeatures ==>
              (d.BoundsError? <==> exists r :: 0 <= r < |x| && Scores(a, TreesOf(p), p.baseline, x[r]).None?)
    ensures d.Raw? ==>
              && |d.rows| == |x|
              && forall r :: 0 <= r < |x| ==> Scores(a, TreesOf(p), p.baseline, x[r]) == Some(d.rows[r])
  {
    if columns != p.nFeatures {
      return ShapeError;
    }
    if |x| == 1 {
      var one := ScoreOne(a, p, x[0]);
      if one.None? {
        return BoundsError;
      }
      return Raw([one.value]);
    }
    var many := ScoreMany(a, p, x);
    if many.None? {
      return BoundsError;
    }
    return Raw(many.value);
  }

  // ----- from the fitted model to its scores

  lemma AllTreesTraversable<V, F>(iterations: seq<seq<Tree<V, F>>>, features: nat, classes: nat)
    requires forall i :: 0 <= i < |iterations| ==> |iterations[i]| <= classes
    requires forall i, c :: 0 <= i < |iterations| && 0 <= c < |iterations[i]| ==>
               IsTraversable(iterations[i][c], features)
    ensures AllTraversable(AllTrees(iterations), features, classes)
  {
    ClassesInRange(iterations, classes);
    TreesTraversable(iterations, features);
  }

  /** Exporting a well-formed multiclass model and scoring with what was exported
      gives every row the scores of the nested forest it was fitted as. */
  method ScoreExported<V, F>(
    a: Arithmetic<V, F>, nFeatures: nat, classes: seq<int>, baseline: seq<V>, calibrators: seq<(V, V)>,
    iterations: seq<seq<Tree<V, F>>>, x: seq<seq<F>>)
    returns (d: Decision<V>)
    requires |calibrators| == |classes| == |baseline| && AllTrees(iterations) != []
    requires forall k :: 0 <= k < |AllTrees(iterations)| ==> !HasCategorical(AllTrees(iterations)[k].nodes)
    requires forall i :: 0 <= i < |iterations| ==> |iterations[i]| <= |classes|
    requires forall i, c :: 0 <= i < |iterations| && 0 <= c < |iterations[i]| ==>
               IsTraversable(iterations[i][c], nFeatures)
    requires forall r :: 0 <= r < |x| ==> |x[r]| == nFeatures
    ensures AllTraversable(AllTrees(iterations), nFeatures, |baseline|)
    ensures d.BoundsError? <==> exists r :: 0 <= r < |x| && Scores(a, AllTrees(iterations), baseline, x[r]).None?
    ensures !d.BoundsError? ==>
              && d.Raw? && |d.rows| == |x|
              && forall r :: 0 <= r < |x| ==> Scores(a, AllTrees(iterations), baseline, x[r]) == Some(d.rows[r])
  {
    hide Scores, IsRunnable, AllTrees, HasCategorical, IsTraversable, IsDelimited;
    AllTreesTraversable(iterations, nFeatures, |baseline|);
    var exported := Export(nFeatures, classes, baseline, calibrators, iterations);
    var p := exported.artifact;
    ExportedIsRunnable(p, iterations);
    d := DecisionFunction(a, p, x, nFeatures);
  }
}
