/** Directed multigraphs given as a list of edges: walks, cycles, in-degrees
    that count parallel edges, and the facts both Kahn loops rest on. */
module GraphTheory {
  import opened LexOrder
  import opened Schema

  // ----- walks and cycles

  predicate HasArc(edges: seq<Edge>, a: string, b: string) {
    exists e :: e in edges && e.source == a && e.target == b
  }

  ghost predicate IsWalk(edges: seq<Edge>, p: seq<string>) {
    p != [] && forall i :: 0 <= i < |p| - 1 ==> HasArc(edges, p[i], p[i + 1])
  }

  ghost predicate IsClosedWalk(edges: seq<Edge>, p: seq<string>) {
    |p| >= 2 && IsWalk(edges, p) && p[0] == p[|p| - 1]
  }

  ghost predicate HasCycle(edges: seq<Edge>) {
    exists p: seq<string> :: IsClosedWalk(edges, p)
  }

  ghost predicate IsWalkBetween(edges: seq<Edge>, p: seq<string>, a: string, b: string) {
    IsWalk(edges, p) && p[0] == a && p[|p| - 1] == b
  }

  /** b can be reached from a along zero or more edges. */
  ghost predicate Reaches(edges: seq<Edge>, a: string, b: string) {
    exists p: seq<string> :: IsWalkBetween(edges, p, a, b)
  }

  // ----- what obstructs Kahn's loop

  /** Some edge enters v from S. */
  predicate HasPred(edges: seq<Edge>, S: set<string>, v: string) {
    exists e :: e in edges && e.target == v && e.source in S
  }

  /** Every member has a predecessor among the members, so none is ever released. */
  predicate SelfSupported(edges: seq<Edge>, C: set<string>) {
    forall v :: v in C ==> HasPred(edges, C, v)
  }

  /** The vertices of a closed walk support each other. */
  lemma ClosedWalkIsSelfSupported(edges: seq<Edge>, p: seq<string>)
    requires IsClosedWalk(edges, p)
    ensures SelfSupported(edges, Elements(p))
  {
    forall v | v in Elements(p)
      ensures HasPred(edges, Elements(p), v)
    {
      var i :| 0 <= i < |p| && p[i] == v;
      var k := if i == 0 then |p| - 2 else i - 1;
      assert HasArc(edges, p[k], p[k + 1]);
    }
  }

  /** Walking backwards inside a self-supported set, for as long as one likes. */
  lemma {:induction false} BackwardWalk(edges: seq<Edge>, C: set<string>, n: nat) returns (p: seq<string>)
    requires C != {} && SelfSupported(edges, C)
    ensures |p| == n + 1 && IsWalk(edges, p)
    ensures forall x :: x in p ==> x in C
  {
    if n == 0 {
      var v :| v in C;
      p := [v];
    } else {
      var q := BackwardWalk(edges, C, n - 1);
      assert q[0] in C;
      var e :| e in edges && e.target == q[0] && e.source in C;
      p := [e.source] + q;
      forall i | 0 <= i < |p| - 1
        ensures HasArc(edges, p[i], p[i + 1])
      {
        if i > 0 {
          assert HasArc(edges, q[i - 1], q[i - 1 + 1]);
        }
      }
    }
  }

  /** A cycle exists exactly when some non-empty vertex set supports itself. */
  lemma CycleIffSelfSupported(edges: seq<Edge>)
    ensures HasCycle(edges) <==> exists C: set<string> :: C != {} && SelfSupported(edges, C)
  {
    if HasCycle(edges) {
      var p :| IsClosedWalk(edges, p);
      ClosedWalkIsSelfSupported(edges, p);
      assert p[0] in Elements(p);
    }
    if C: set<string> :| C != {} && SelfSupported(edges, C) {
      SelfSupportedHasCycle(edges, C);
    }
  }

  lemma SelfSupportedHasCycle(edges: seq<Edge>, C: set<string>)
    requires C != {} && SelfSupported(edges, C)
    ensures HasCycle(edges)
  {
    var p := BackwardWalk(edges, C, |C|);
    var i, j := Pigeonhole(p, C);
    var c := p[i..j + 1];
    forall k | 0 <= k < |c| - 1
      ensures HasArc(edges, c[k], c[k + 1])
    {
      assert HasArc(edges, p[i + k], p[i + k + 1]);
    }
    assert IsClosedWalk(edges, c);
  }

  ghost function CycleSupport(edges: seq<Edge>): (C: set<string>)
    ensures SelfSupported(edges, C)
    ensures C == {} <==> !HasCycle(edges)
  {
    CycleIffSelfSupported(edges);
    if HasCycle(edges) then
      var C :| C != {} && SelfSupported(edges, C);
      C
    else {}
  }

  lemma LoopIsCycle(edges: seq<Edge>, e: Edge)
    requires e in edges && e.source == e.target
    ensures HasCycle(edges)
  {
    assert HasArc(edges, e.source, e.target);
    assert IsClosedWalk(edges, [e.source, e.source]);
  }

  // ----- sub-graphs and extension by one edge

  lemma FewerEdgesNoCycle(edges: seq<Edge>, sub: seq<Edge>)
    requires !HasCycle(edges)
    requires forall e :: e in sub ==> e in edges
    ensures !HasCycle(sub)
  {
    if HasCycle(sub) {
      var C := CycleSupport(sub);
      forall v | v in C
        ensures HasPred(edges, C, v)
      {
        assert HasPred(sub, C, v);
      }
      SelfSupportedHasCycle(edges, C);
    }
  }

  lemma ReachesItself(edges: seq<Edge>, a: string)
    ensures Reaches(edges, a, a)
  {
    assert IsWalkBetween(edges, [a], a, a);
  }

  lemma ReachesStep(edges: seq<Edge>, a: string, b: string, c: string)
    requires Reaches(edges, a, b) && HasArc(edges, b, c)
    ensures Reaches(edges, a, c)
  {
    var p :| IsWalkBetween(edges, p, a, b);
    var q := p + [c];
    forall i | 0 <= i < |q| - 1
      ensures HasArc(edges, q[i], q[i + 1])
    {
      if i < |p| - 1 {
        assert HasArc(edges, p[i], p[i + 1]);
      }
    }
    assert IsWalkBetween(edges, q, a, c);
  }

  lemma MoreEdgesMoreArcs(edges: seq<Edge>, e: Edge)
    ensures forall a, b :: HasArc(edges + [e], a, b) <==> HasArc(edges, a, b) || (e.source == a && e.target == b)
    ensures forall S, v :: HasPred(edges + [e], S, v) <==> HasPred(edges, S, v) || (e.source in S && e.target == v)
  {
    var more := edges + [e];
    assert forall x :: x in more <==> x in edges || x == e;
    assert e in more;
  }

  lemma ReturnPathMakesCycle(edges: seq<Edge>, e: Edge)
    requires Reaches(edges, e.target, e.source)
    ensures HasCycle(edges + [e])
  {
    MoreEdgesMoreArcs(edges, e);
    var p :| IsWalkBetween(edges, p, e.target, e.source);
    var q := p + [e.target];
    forall i | 0 <= i < |q| - 1
      ensures HasArc(edges + [e], q[i], q[i + 1])
    {
      if i < |p| - 1 {
        assert HasArc(edges, p[i], p[i + 1]);
      }
    }
    assert IsClosedWalk(edges + [e], q);
  }

  /** The members of a self-supported set that a vertex does not reach support
      each other without the edges leaving that vertex's reach. */
  lemma UnreachedPartIsSelfSupported(edges: seq<Edge>, e: Edge, C: set<string>, D: set<string>)
    requires SelfSupported(edges + [e], C)
    requires forall v :: v in D <==> v in C && !Reaches(edges, e.target, v)
    ensures SelfSupported(edges, D)
  {
    hide Reaches;
    ReachesItself(edges, e.target);
    forall v | v in D
      ensures HasPred(edges, D, v)
    {
      assert HasPred(edges + [e], C, v);
      var f :| f in edges + [e] && f.target == v && f.source in C;
      assert f != e;
      if Reaches(edges, e.target, f.source) {
        assert HasArc(edges, f.source, v);
        ReachesStep(edges, e.target, f.source, v);
      }
    }
  }

  lemma UnusedEdge(edges: seq<Edge>, e: Edge, C: set<string>)
    requires SelfSupported(edges + [e], C) && e.source !in C
    ensures SelfSupported(edges, C)
  {
    MoreEdgesMoreArcs(edges, e);
    forall v | v in C
      ensures HasPred(edges, C, v)
    {
      assert HasPred(edges + [e], C, v);
    }
  }

  ghost function Unreached(edges: seq<Edge>, a: string, C: set<string>): (D: set<string>)
    ensures forall v :: v in D <==> v in C && !Reaches(edges, a, v)
  {
    set v | v in C && !Reaches(edges, a, v)
  }

  lemma CycleUsesReturnPath(edges: seq<Edge>, e: Edge)
    requires !HasCycle(edges)
    requires HasCycle(edges + [e])
    ensures Reaches(edges, e.target, e.source)
  {
    var C := CycleSupport(edges + [e]);
    var D := Unreached(edges, e.target, C);
    UnreachedPartIsSelfSupported(edges, e, C, D);
    if D != {} {
      SelfSupportedHasCycle(edges, D);
    } else if e.source !in C {
      UnusedEdge(edges, e, C);
      SelfSupportedHasCycle(edges, C);
    } else {
      assert e.source !in D;
    }
  }

  /** In an acyclic graph an added edge closes a cycle exactly when its target
      already reaches its source. */
  lemma NewEdgeCyclesIffReturnPath(edges: seq<Edge>, e: Edge)
    requires !HasCycle(edges)
    ensures HasCycle(edges + [e]) <==> Reaches(edges, e.target, e.source)
  {
    if Reaches(edges, e.target, e.source) {
      ReturnPathMakesCycle(edges, e);
    }
    if HasCycle(edges + [e]) {
      CycleUsesReturnPath(edges, e);
    }
  }

  lemma ReachedIsEntered(edges: seq<Edge>, a: string, b: string) returns (e: Edge)
    requires Reaches(edges, a, b) && a != b
    ensures e in edges && e.target == b
  {
    var p :| IsWalkBetween(edges, p, a, b);
    assert HasArc(edges, p[|p| - 2], p[|p| - 2 + 1]);
    e :| e in edges && e.source == p[|p| - 2] && e.target == b;
  }

  /** A vertex no edge enters can be given any out-edge. */
  lemma UnenteredSourceNeverCycles(edges: seq<Edge>, e: Edge)
    requires !HasCycle(edges)
    requires e.source != e.target
    requires forall f :: f in edges ==> f.target != e.source
    ensures !HasCycle(edges + [e])
  {
    if HasCycle(edges + [e]) {
      CycleUsesReturnPath(edges, e);
      var f := ReachedIsEntered(edges, e.target, e.source);
    }
  }

  // ----- in-degrees with multiplicity

  /** The adjacency list of a, one entry per edge, in the order of the edges. */
  function Targets(edges: seq<Edge>, a: string): seq<string> {
    if edges == [] then []
    else
      var e := edges[|edges| - 1];
      Targets(edges[..|edges| - 1], a) + if e.source == a then [e.target] else []
  }

  /** Number of edges entering v from S. */
  function InDegree(edges: seq<Edge>, S: set<string>, v: string): nat {
    if edges == [] then 0
    else
      var e := edges[|edges| - 1];
      InDegree(edges[..|edges| - 1], S, v) + if e.target == v && e.source in S then 1 else 0
  }

  lemma {:induction false} InDegreeIffPred(edges: seq<Edge>, S: set<string>, v: string)
    ensures InDegree(edges, S, v) > 0 <==> HasPred(edges, S, v)
  {
    if edges != [] {
      var init := edges[..|edges| - 1];
      InDegreeIffPred(init, S, v);
      assert edges == init + [edges[|edges| - 1]];
      MoreEdgesMoreArcs(init, edges[|edges| - 1]);
    }
  }

  /** Releasing a subtracts exactly its adjacency list, parallel edges included. */
  lemma {:induction false} InDegreeWithout(edges: seq<Edge>, S: set<string>, a: string, v: string)
    requires a in S
    ensures InDegree(edges, S, v) == InDegree(edges, S - {a}, v) + multiset(Targets(edges, a))[v]
  {
    if edges != [] {
      InDegreeWithout(edges[..|edges| - 1], S, a, v);
    }
  }

  function TargetSet(edges: seq<Edge>): set<string> {
    set e | e in edges :: e.target
  }

  function SourceSet(edges: seq<Edge>): set<string> {
    set e | e in edges :: e.source
  }

  // ----- topological orders

  predicate Respects(edges: seq<Edge>, order: seq<string>) {
    forall e, k :: e in edges && 0 <= k < |order| && order[k] == e.target ==> e.source in order[..k]
  }

  predicate IsTopologicalOrder(nodes: set<string>, edges: seq<Edge>, order: seq<string>) {
    NoDup(order) && Elements(order) == nodes && Respects(edges, order)
  }

  /** v is not yet placed and all its predecessors are. */
  predicate IsReady(nodes: set<string>, edges: seq<Edge>, placed: set<string>, v: string) {
    v in nodes && v !in placed && !HasPred(edges, nodes - placed, v)
  }

  predicate IsLeastReady(nodes: set<string>, edges: seq<Edge>, placed: set<string>, v: string) {
    IsReady(nodes, edges, placed, v) &&
    forall w :: w in nodes && IsReady(nodes, edges, placed, w) ==> !Less(w, v)
  }

  /** Every element is the least of those that could come next. */
  predicate IsGreedy(nodes: set<string>, edges: seq<Edge>, order: seq<string>) {
    forall k :: 0 <= k < |order| ==> IsLeastReady(nodes, edges, Elements(order[..k]), order[k])
  }

  predicate LexBefore(a: seq<string>, b: seq<string>, k: nat) {
    k < |a| && k < |b| && a[..k] == b[..k] && Less(a[k], b[k])
  }

  ghost predicate LexAtMost(a: seq<string>, b: seq<string>) {
    a == b || exists k: nat :: LexBefore(a, b, k)
  }

  predicate Closed(nodes: set<string>, edges: seq<Edge>) {
    forall e :: e in edges ==> e.source in nodes && e.target in nodes
  }

  lemma {:induction false} FirstDifference(a: seq<string>, b: seq<string>) returns (k: nat)
    requires |a| == |b| && a != b
    ensures k < |a| && a[..k] == b[..k] && a[k] != b[k]
  {
    k := 0;
    while a[k] == b[k]
      invariant k < |a| && a[..k] == b[..k]
      invariant exists i :: k <= i < |a| && a[i] != b[i]
      decreases |a| - k
    {
      k := k + 1;
    }
  }

  /** In a topological order each element was ready when it was placed. */
  lemma TopologicalPlacesReady(nodes: set<string>, edges: seq<Edge>, order: seq<string>, k: nat)
    requires IsTopologicalOrder(nodes, edges, order)
    requires k < |order|
    ensures IsReady(nodes, edges, Elements(order[..k]), order[k])
  {
    assert order[k] in Elements(order);
  }

  /** The exchange argument: a complete greedy order is lexicographically least
      among all topological orders. */
  lemma GreedyIsLeast(nodes: set<string>, edges: seq<Edge>, order: seq<string>, other: seq<string>)
    requires IsGreedy(nodes, edges, order) && NoDup(order) && Elements(order) == nodes
    requires IsTopologicalOrder(nodes, edges, other)
    ensures LexAtMost(order, other)
  {
    ElementsCount(order);
    ElementsCount(other);
    if order != other {
      var k := FirstDifference(order, other);
      TopologicalPlacesReady(nodes, edges, other, k);
      assert other[k] in Elements(other);
      assert IsLeastReady(nodes, edges, Elements(order[..k]), order[k]);
      LessTotal(order[k], other[k]);
      assert LexBefore(order, other, k);
    }
  }

  lemma GreedyRespects(nodes: set<string>, edges: seq<Edge>, order: seq<string>)
    requires IsGreedy(nodes, edges, order) && Closed(nodes, edges)
    ensures Respects(edges, order)
  {
    forall e, k | e in edges && 0 <= k < |order| && order[k] == e.target
      ensures e.source in order[..k]
    {
      assert IsLeastReady(nodes, edges, Elements(order[..k]), order[k]);
      assert !HasPred(edges, nodes - Elements(order[..k]), order[k]);
    }
  }

  ghost predicate IsLeastOrder(nodes: set<string>, edges: seq<Edge>, order: seq<string>) {
    && IsTopologicalOrder(nodes, edges, order)
    && forall other :: IsTopologicalOrder(nodes, edges, other) ==> LexAtMost(order, other)
  }

  /** The least order depends on the sets of nodes and edges alone: however two
      edge lists with the same members were built, they have the same one. */
  lemma LeastOrderIsUnique(nodes: set<string>, edges: seq<Edge>, edges': seq<Edge>, a: seq<string>, b: seq<string>)
    requires forall e :: e in edges <==> e in edges'
    requires IsLeastOrder(nodes, edges, a) && IsLeastOrder(nodes, edges', b)
    ensures a == b
  {
    assert IsTopologicalOrder(nodes, edges', a) && IsTopologicalOrder(nodes, edges, b);
    AtMostIsAntisymmetric(a, b);
  }

  lemma AtMostIsAntisymmetric(a: seq<string>, b: seq<string>)
    requires LexAtMost(a, b) && LexAtMost(b, a)
    ensures a == b
  {
    if a != b {
      var i: nat :| LexBefore(a, b, i);
      var j: nat :| LexBefore(b, a, j);
      if i < j {
        assert b[..j][i] == a[..j][i];
        LessAsymmetric(a[i], b[i]);
      } else if j < i {
        assert b[..i][j] == a[..i][j];
        LessAsymmetric(a[j], b[j]);
      } else {
        LessAsymmetric(a[i], b[i]);
      }
    }
  }
}
