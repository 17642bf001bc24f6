/** The two in-degree loops of the evidence graph. */
module Kahn {
  import opened LexOrder
  import opened Schema
  import opened GraphTheory

  // The cycle test has a stack and an unspecified start order, the topological
  // order a queue kept sorted. Both are proved against the definitions of
  // `GraphTheory`.

  // ----- facts about the index that both loops build

  lemma {:induction false} TargetsOfEdges(edges: seq<Edge>, a: string)
    ensures forall t :: t in Targets(edges, a) ==> t in TargetSet(edges)
    ensures a !in SourceSet(edges) ==> Targets(edges, a) == []
  {
    if edges != [] {
      var init, e := edges[..|edges| - 1], edges[|edges| - 1];
      TargetsOfEdges(init, a);
      assert edges == init + [e];
      assert e in edges && forall x :: x in init ==> x in edges;
      if a !in SourceSet(edges) {
        assert a !in SourceSet(init);
      }
    }
  }

  lemma {:induction false} NotATargetNoInDegree(edges: seq<Edge>, S: set<string>, v: string)
    requires v !in TargetSet(edges)
    ensures InDegree(edges, S, v) == 0
  {
    InDegreeIffPred(edges, S, v);
  }

  lemma IndexStep(edges: seq<Edge>, i: nat, all: set<string>)
    requires i < |edges|
    ensures TargetSet(edges[..i + 1]) == TargetSet(edges[..i]) + {edges[i].target}
    ensures SourceSet(edges[..i + 1]) == SourceSet(edges[..i]) + {edges[i].source}
    ensures forall a :: Targets(edges[..i + 1], a)
                        == Targets(edges[..i], a) + if edges[i].source == a then [edges[i].target] else []
    ensures forall v :: InDegree(edges[..i + 1], all, v)
                        == InDegree(edges[..i], all, v)
                           + if edges[i].target == v && edges[i].source in all then 1 else 0
  {
    var prefix := edges[..i + 1];
    assert prefix[..i] == edges[..i];
    assert prefix == edges[..i] + [edges[i]];
    assert forall e :: e in prefix <==> e in edges[..i] || e == edges[i];
  }

  ghost predicate IsAdjacency(nodes: set<string>, edges: seq<Edge>, adjacency: map<string, seq<string>>) {
    && adjacency.Keys == nodes + SourceSet(edges)
    && forall a :: a in adjacency ==> adjacency[a] == Targets(edges, a)
  }

  ghost predicate IsInDegree(nodes: set<string>, edges: seq<Edge>, all: set<string>, indegree: map<string, int>) {
    && indegree.Keys == nodes + TargetSet(edges)
    && forall v :: v in indegree ==> indegree[v] == InDegree(edges, all, v)
  }

  function ListAt(adjacency: map<string, seq<string>>, a: string): seq<string> {
    if a in adjacency then adjacency[a] else []
  }

  function DegreeAt(indegree: map<string, int>, v: string): int {
    if v in indegree then indegree[v] else 0
  }

  lemma AdjacencyStep(nodes: set<string>, edges: seq<Edge>, i: nat, adjacency: map<string, seq<string>>)
    requires i < |edges| && IsAdjacency(nodes, edges[..i], adjacency)
    ensures IsAdjacency(nodes, edges[..i + 1],
              adjacency[edges[i].source := ListAt(adjacency, edges[i].source) + [edges[i].target]])
  {
    hide Targets, SourceSet;
    var e := edges[i];
    IndexStep(edges, i, {});
    TargetsOfEdges(edges[..i], e.source);
    var more := adjacency[e.source := ListAt(adjacency, e.source) + [e.target]];
    assert more.Keys == nodes + SourceSet(edges[..i + 1]);
    forall a | a in more
      ensures more[a] == Targets(edges[..i + 1], a)
    {
      if a != e.source {
        assert Targets(edges[..i], a) + [] == Targets(edges[..i], a);
      }
    }
  }

  lemma InDegreeStep(nodes: set<string>, edges: seq<Edge>, all: set<string>, i: nat, indegree: map<string, int>)
    requires i < |edges| && edges[i].source in all && IsInDegree(nodes, edges[..i], all, indegree)
    ensures IsInDegree(nodes, edges[..i + 1], all,
              indegree[edges[i].target := DegreeAt(indegree, edges[i].target) + 1])
  {
    IndexStep(edges, i, all);
    if edges[i].target !in indegree {
      NotATargetNoInDegree(edges[..i], all, edges[i].target);
    }
  }

  lemma EmptyIndex(
    nodes: set<string>, edges: seq<Edge>, all: set<string>, adjacency: map<string, seq<string>>,
    indegree: map<string, int>)
    requires adjacency.Keys == indegree.Keys == nodes
    requires forall v :: v in nodes ==> adjacency[v] == [] && indegree[v] == 0
    ensures IsAdjacency(nodes, edges[..0], adjacency) && IsInDegree(nodes, edges[..0], all, indegree)
  {
  }

  method BuildIndex(nodes: set<string>, edges: seq<Edge>, ghost all: set<string>)
    returns (adjacency: map<string, seq<string>>, indegree: map<string, int>)
    requires SourceSet(edges) <= all
    ensures IsAdjacency(nodes, edges, adjacency)
    ensures IsInDegree(nodes, edges, all, indegree)
  {
    hide IsAdjacency, IsInDegree;
    adjacency := map v | v in nodes :: [];
    indegree := map v | v in nodes :: 0;
    EmptyIndex(nodes, edges, all, adjacency, indegree);
    for i := 0 to |edges|
      invariant IsAdjacency(nodes, edges[..i], adjacency)
      invariant IsInDegree(nodes, edges[..i], all, indegree)
    {
      var e := edges[i];
      assert e.source in SourceSet(edges);
      AdjacencyStep(nodes, edges, i, adjacency);
      InDegreeStep(nodes, edges, all, i, indegree);
      adjacency := adjacency[e.source := ListAt(adjacency, e.source) + [e.target]];
      indegree := indegree[e.target := DegreeAt(indegree, e.target) + 1];
    }
    assert edges[..|edges|] == edges;
  }

  /** What holds whenever the outer loop is about to pop: the in-degree of every
      key counts the edges from vertices not yet released, and the queue holds
      exactly the unreleased keys of in-degree zero. */
  ghost predicate KahnState(
    edges: seq<Edge>, keys: set<string>, all: set<string>, done: set<string>,
    indegree: map<string, int>, queue: seq<string>)
  {
    && indegree.Keys == keys
    && done <= keys <= all
    && (forall v :: v in keys ==> indegree[v] == InDegree(edges, all - done, v))
    && NoDup(queue)
    && (forall v :: v in queue <==> v in keys && v !in done && indegree[v] == 0)
    && (forall v :: v in done ==> indegree[v] == 0)
  }

  function Count(taken: seq<string>, v: string): nat {
    multiset(taken)[v]
  }

  lemma MultiplicityBound(edges: seq<Edge>, S: set<string>, a: string, targets: seq<string>, k: nat, v: string)
    requires a in S
    requires multiset(targets) == multiset(Targets(edges, a))
    requires k <= |targets|
    ensures Count(targets[..k], v) <= InDegree(edges, S, v)
  {
    InDegreeWithout(edges, S, a, v);
    assert targets == targets[..k] + targets[k..];
    assert multiset(targets)[v] == multiset(targets[..k])[v] + multiset(targets[k..])[v];
  }

  lemma TargetIsKey(edges: seq<Edge>, keys: set<string>, a: string, targets: seq<string>, k: nat)
    requires TargetSet(edges) <= keys && k < |targets|
    requires multiset(targets) == multiset(Targets(edges, a))
    ensures targets[k] in keys
  {
    TargetsOfEdges(edges, a);
    SameMultisetSameElements(targets, Targets(edges, a));
    assert targets[k] in targets;
  }

  ghost predicate DegreesMatch(
    edges: seq<Edge>, keys: set<string>, live: set<string>, taken: seq<string>, indegree: map<string, int>)
  {
    && indegree.Keys == keys
    && forall v :: v in keys ==> indegree[v] == InDegree(edges, live, v) - Count(taken, v)
  }

  ghost predicate QueueMatches(keys: set<string>, gone: set<string>, indegree: map<string, int>, queue: seq<string>) {
    && indegree.Keys == keys && NoDup(queue)
    && (forall v :: v in queue <==> v in keys && v !in gone && indegree[v] == 0)
    && (forall v :: v in gone ==> v in keys && indegree[v] == 0)
  }

  /** Between two steps of the inner loop: `taken` are the out-edges of `current`
      already subtracted. */
  ghost predicate Releasing(
    edges: seq<Edge>, keys: set<string>, live: set<string>, gone: set<string>, taken: seq<string>,
    indegree: map<string, int>, queue: seq<string>)
  {
    DegreesMatch(edges, keys, live, taken, indegree) && QueueMatches(keys, gone, indegree, queue)
  }

  lemma TakenGrows(taken: seq<string>, t: string, v: string)
    ensures Count(taken + [t], v) == Count(taken, v) + if v == t then 1 else 0
  {
  }

  lemma QueueStep(
    keys: set<string>, gone: set<string>, indegree: map<string, int>, queue: seq<string>, t: string,
    longer: seq<string>)
    requires QueueMatches(keys, gone, indegree, queue)
    requires t in keys && indegree[t] > 0
    requires if indegree[t] == 1 then multiset(longer) == multiset(queue + [t]) else longer == queue
    ensures QueueMatches(keys, gone, indegree[t := indegree[t] - 1], longer)
  {
    var grown := queue + [t];
    assert forall v :: v in grown <==> v in queue || v == t;
    if indegree[t] == 1 {
      NoDupPermutation(grown, longer);
    }
  }

  lemma DegreeStep(
    edges: seq<Edge>, keys: set<string>, live: set<string>, taken: seq<string>, indegree: map<string, int>, t: string)
    requires DegreesMatch(edges, keys, live, taken, indegree) && t in keys
    requires Count(taken + [t], t) <= InDegree(edges, live, t)
    ensures indegree[t] > 0
    ensures DegreesMatch(edges, keys, live, taken + [t], indegree[t := indegree[t] - 1])
  {
    hide InDegree, Count;
    TakenGrows(taken, t, t);
    var lower := indegree[t := indegree[t] - 1];
    forall v | v in keys
      ensures lower[v] == InDegree(edges, live, v) - Count(taken + [t], v)
    {
      TakenGrows(taken, t, v);
    }
  }

  lemma ReleaseStep(
    edges: seq<Edge>, keys: set<string>, live: set<string>, gone: set<string>, taken: seq<string>,
    indegree: map<string, int>, queue: seq<string>, t: string, longer: seq<string>)
    requires Releasing(edges, keys, live, gone, taken, indegree, queue)
    requires t in keys && Count(taken + [t], t) <= InDegree(edges, live, t)
    requires multiset(longer) == multiset(queue + [t])
    ensures t in indegree && indegree[t] > 0
    ensures Releasing(edges, keys, live, gone, taken + [t], indegree[t := indegree[t] - 1],
              if indegree[t] == 1 then longer else queue)
  {
    assert indegree.Keys == keys;
    hide DegreesMatch, QueueMatches;
    DegreeStep(edges, keys, live, taken, indegree, t);
    QueueStep(keys, gone, indegree, queue, t, if indegree[t] == 1 then longer else queue);
  }

  lemma NextTarget(
    edges: seq<Edge>, keys: set<string>, live: set<string>, gone: set<string>, current: string, targets: seq<string>,
    k: nat,
    indegree: map<string, int>, queue: seq<string>, longer: seq<string>)
    requires k < |targets| && multiset(targets) == multiset(Targets(edges, current))
    requires TargetSet(edges) <= keys && current in live
    requires Releasing(edges, keys, live, gone, targets[..k], indegree, queue)
    requires multiset(longer) == multiset(queue + [targets[k]])
    ensures targets[k] in indegree && indegree[targets[k]] > 0
    ensures Releasing(edges, keys, live, gone, targets[..k + 1], indegree[targets[k] := indegree[targets[k]] - 1],
              if indegree[targets[k]] == 1 then longer else queue)
  {
    hide Releasing, InDegree, Targets, TargetSet, Count;
    assert targets[..k + 1] == targets[..k] + [targets[k]];
    TargetIsKey(edges, keys, current, targets, k);
    MultiplicityBound(edges, live, current, targets, k + 1, targets[k]);
    ReleaseStep(edges, keys, live, gone, targets[..k], indegree, queue, targets[k], longer);
  }

  lemma ReleaseDone(
    edges: seq<Edge>, keys: set<string>, all: set<string>, done: set<string>, current: string,
    taken: seq<string>, indegree: map<string, int>, queue: seq<string>)
    requires done <= keys <= all && current in keys && current !in done
    requires multiset(taken) == multiset(Targets(edges, current))
    requires Releasing(edges, keys, all - done, done + {current}, taken, indegree, queue)
    ensures KahnState(edges, keys, all, done + {current}, indegree, queue)
  {
    forall v | v in keys
      ensures indegree[v] == InDegree(edges, all - (done + {current}), v)
    {
      InDegreeWithout(edges, all - done, current, v);
      assert all - done - {current} == all - (done + {current});
    }
  }

  /** `queue.append`, followed by `queue.sort` where the code sorts. */
  function Queued(queue: seq<string>, t: string, keepSorted: bool): (longer: seq<string>)
    ensures multiset(longer) == multiset(queue + [t])
    ensures keepSorted ==> IsSorted(longer)
  {
    if keepSorted then SortedIsSorted(queue + [t]); Sorted(queue + [t]) else queue + [t]
  }

  /** The inner loop: take `current`'s out-edges away and queue what they free. */
  method Release(
    ghost edges: seq<Edge>, ghost keys: set<string>, ghost all: set<string>, ghost done: set<string>,
    current: string, targets: seq<string>, keepSorted: bool,
    indegree0: map<string, int>, rest: seq<string>)
    returns (indegree: map<string, int>, queue: seq<string>)
    requires done <= keys <= all && TargetSet(edges) <= keys
    requires current in keys && current !in done
    requires Releasing(edges, keys, all - done, done + {current}, [], indegree0, rest)
    requires multiset(targets) == multiset(Targets(edges, current))
    requires keepSorted ==> IsSorted(rest)
    ensures KahnState(edges, keys, all, done + {current}, indegree, queue)
    ensures keepSorted ==> IsSorted(queue)
  {
    assert indegree0.Keys == keys;
    hide Releasing, KahnState, InDegree, Targets, Queued, IsSorted, TargetSet, Count;
    indegree, queue := indegree0, rest;
    for k := 0 to |targets|
      invariant indegree.Keys == keys
      invariant Releasing(edges, keys, all - done, done + {current}, targets[..k], indegree, queue)
      invariant keepSorted ==> IsSorted(queue)
    {
      var t := targets[k];
      NextTarget(edges, keys, all - done, done + {current}, current, targets, k, indegree, queue,
        Queued(queue, t, keepSorted));
      indegree := indegree[t := indegree[t] - 1];
      if indegree[t] == 0 {
        queue := Queued(queue, t, keepSorted);
      }
    }
    assert targets[..|targets|] == targets;
    ReleaseDone(edges, keys, all, done, current, targets, indegree, queue);
  }

  /** The keys of in-degree zero, in the unspecified iteration order of a dict. */
  method ZeroKeys(indegree: map<string, int>) returns (queue: seq<string>)
    ensures NoDup(queue)
    ensures forall v :: v in queue <==> v in indegree && indegree[v] == 0
  {
    queue := [];
    var left := indegree.Keys;
    while left != {}
      invariant left <= indegree.Keys
      invariant NoDup(queue)
      invariant forall v :: v in queue <==> v in indegree && v !in left && indegree[v] == 0
      decreases |left|
    {
      var v :| v in left;
      left := left - {v};
      if indegree[v] == 0 {
        queue := queue + [v];
      }
    }
  }

  // ----- the cycle test

  /** An edge leaves a vertex that is neither a node nor a target. */
  predicate HasDanglingSource(nodes: set<string>, edges: seq<Edge>) {
    exists e :: e in edges && e.source !in nodes + TargetSet(edges)
  }

  /** The cycle test is exact on every graph whose edges start at known vertices.
      An edge from an unknown vertex is reported as a cycle too, since its target
      is never released; the store never holds one. */
  method DetectCycle(nodes: set<string>, edges: seq<Edge>) returns (cyclic: bool)
    ensures cyclic <==> HasCycle(edges) || HasDanglingSource(nodes, edges)
  {
    hide KahnState, HasCycle, HasDanglingSource, IsAdjacency, InDegree, Targets;
    ghost var all := nodes + TargetSet(edges) + SourceSet(edges);
    var adjacency, indegree := BuildIndex(nodes, edges, all);
    ghost var keys := indegree.Keys;
    var queue := ZeroKeys(indegree);
    var visited := 0;
    ghost var done: set<string> := {};
    ghost var support := CycleSupport(edges);
    SupportIsTargets(edges, support);
    StartState(nodes, edges, all, indegree, queue);
    while queue != []
      invariant KahnState(edges, keys, all, done, indegree, queue)
      invariant visited == |done| && done <= keys
      invariant support !! done
      decreases keys - done
    {
      var current := queue[|queue| - 1];
      var rest := queue[..|queue| - 1];
      assert current in queue;
      PopLast(edges, keys, all, done, indegree, queue);
      PopStartsRelease(edges, keys, all, done, indegree, queue, current, rest);
      SupportNotReleased(edges, all - done, current, support);
      var targets := ListAt(adjacency, current);
      ListIsTargets(nodes, edges, adjacency, current);
      indegree, queue := Release(edges, keys, all, done, current, targets, false, indegree, rest);
      visited := visited + 1;
      done := done + {current};
    }
    KeysStay(edges, keys, all, done, indegree, queue);
    CardinalityMonotone(done, keys);
    if visited == |indegree| {
      AllReleased(edges, nodes, keys, all, indegree, queue, support);
    } else {
      SomeLeft(edges, nodes, keys, all, done, indegree, queue);
    }
    cyclic := visited != |indegree|;
  }

  lemma StartState(
    nodes: set<string>, edges: seq<Edge>, all: set<string>, indegree: map<string, int>, queue: seq<string>)
    requires IsInDegree(nodes, edges, all, indegree) && nodes + TargetSet(edges) <= all
    requires NoDup(queue) && forall v :: v in queue <==> v in indegree && indegree[v] == 0
    ensures KahnState(edges, nodes + TargetSet(edges), all, {}, indegree, queue)
    ensures indegree.Keys == nodes + TargetSet(edges)
  {
    hide InDegree;
    assert all - {} == all;
  }

  lemma KeysStay(
    edges: seq<Edge>, keys: set<string>, all: set<string>, done: set<string>,
    indegree: map<string, int>, queue: seq<string>)
    requires KahnState(edges, keys, all, done, indegree, queue)
    ensures indegree.Keys == keys && |indegree| == |keys|
  {
    assert |indegree| == |indegree.Keys|;
  }

  lemma ListIsTargets(nodes: set<string>, edges: seq<Edge>, adjacency: map<string, seq<string>>, a: string)
    requires IsAdjacency(nodes, edges, adjacency)
    ensures ListAt(adjacency, a) == Targets(edges, a)
  {
    TargetsOfEdges(edges, a);
  }

  /** Popping an element of the queue sets the inner loop up. */
  lemma PopStartsRelease(
    edges: seq<Edge>, keys: set<string>, all: set<string>, done: set<string>,
    indegree: map<string, int>, queue: seq<string>, current: string, rest: seq<string>)
    requires KahnState(edges, keys, all, done, indegree, queue)
    requires current in queue && NoDup(rest)
    requires forall v :: v in rest <==> v in queue && v != current
    ensures current in keys && current !in done && done <= keys <= all
    ensures InDegree(edges, all - done, current) == 0
    ensures Releasing(edges, keys, all - done, done + {current}, [], indegree, rest)
  {
    hide InDegree;
    assert indegree[current] == InDegree(edges, all - done, current);
  }

  lemma PopLast(
    edges: seq<Edge>, keys: set<string>, all: set<string>, done: set<string>,
    indegree: map<string, int>, queue: seq<string>)
    requires KahnState(edges, keys, all, done, indegree, queue) && queue != []
    ensures NoDup(queue[..|queue| - 1])
    ensures forall v :: v in queue[..|queue| - 1] <==> v in queue && v != queue[|queue| - 1]
  {
    hide InDegree;
    var rest := queue[..|queue| - 1];
    assert queue == rest + [queue[|queue| - 1]];
  }

  lemma SupportIsTargets(edges: seq<Edge>, support: set<string>)
    requires SelfSupported(edges, support)
    ensures support <= TargetSet(edges)
  {
    forall v | v in support
      ensures v in TargetSet(edges)
    {
      assert HasPred(edges, support, v);
    }
  }

  lemma SupportNotReleased(edges: seq<Edge>, live: set<string>, current: string, support: set<string>)
    requires SelfSupported(edges, support) && support <= live
    requires InDegree(edges, live, current) == 0
    ensures current !in support
  {
    InDegreeIffPred(edges, live, current);
    assert HasPred(edges, support, current) ==> HasPred(edges, live, current);
  }

  lemma AllReleased(
    edges: seq<Edge>, nodes: set<string>, keys: set<string>, all: set<string>,
    indegree: map<string, int>, queue: seq<string>, support: set<string>)
    requires keys == nodes + TargetSet(edges) && SourceSet(edges) <= all
    requires KahnState(edges, keys, all, keys, indegree, queue)
    requires support == CycleSupport(edges) && support !! keys
    ensures !HasCycle(edges) && !HasDanglingSource(nodes, edges)
  {
    SupportIsTargets(edges, support);
    assert support == {};
    forall e | e in edges
      ensures e.source in keys
    {
      InDegreeIffPred(edges, all - keys, e.target);
      assert e.target in keys && e.source in SourceSet(edges);
    }
  }

  lemma SomeLeft(
    edges: seq<Edge>, nodes: set<string>, keys: set<string>, all: set<string>, done: set<string>,
    indegree: map<string, int>, queue: seq<string>)
    requires keys == nodes + TargetSet(edges) && all == keys + SourceSet(edges)
    requires KahnState(edges, keys, all, done, indegree, queue) && queue == []
    requires done != keys
    ensures HasCycle(edges) || HasDanglingSource(nodes, edges)
  {
    if !HasDanglingSource(nodes, edges) {
      var left := keys - done;
      assert keys == done + left;
      assert all == keys by {
        forall s | s in SourceSet(edges)
          ensures s in keys
        {
          var e :| e in edges && e.source == s;
        }
      }
      forall v | v in left
        ensures HasPred(edges, left, v)
      {
        assert v !in queue;
        InDegreeIffPred(edges, all - done, v);
      }
      SelfSupportedHasCycle(edges, left);
    }
  }

  // ----- the topological order

  /** The sorted-queue loop. On an acyclic graph it returns the lexicographically
      least topological order; the order is complete exactly when there is no cycle. */
  method TopologicalOrder(nodes: set<string>, edges: seq<Edge>) returns (order: seq<string>)
    requires Closed(nodes, edges)
    ensures NoDup(order) && Elements(order) <= nodes
    ensures IsGreedy(nodes, edges, order)
    ensures |order| == |nodes| <==> !HasCycle(edges)
    ensures !HasCycle(edges) ==>
              && IsTopologicalOrder(nodes, edges, order)
              && forall other :: IsTopologicalOrder(nodes, edges, other) ==> LexAtMost(order, other)
  {
    hide KahnState, HasCycle, IsAdjacency, InDegree, Targets, IsGreedy, IsLeastReady, Respects;
    ClosedKeys(nodes, edges);
    var adjacency, indegree := BuildIndex(nodes, edges, nodes);
    var queue := ZeroKeys(indegree);
    SortedIsSorted(queue);
    NoDupPermutation(queue, Sorted(queue));
    queue := Sorted(queue);
    order := [];
    ghost var support := CycleSupport(edges);
    SupportIsTargets(edges, support);
    StartState(nodes, edges, nodes, indegree, queue);
    EmptyIsGreedy(nodes, edges);
    while queue != []
      invariant KahnState(edges, nodes, nodes, Elements(order), indegree, queue)
      invariant IsSorted(queue) && Elements(order) <= nodes
      invariant NoDup(order) && IsGreedy(nodes, edges, order)
      invariant support !! Elements(order)
      decreases nodes - Elements(order)
    {
      var current, rest := queue[0], queue[1..];
      ghost var done := Elements(order);
      assert current in queue;
      PopFirst(edges, nodes, nodes, done, indegree, queue);
      PopStartsRelease(edges, nodes, nodes, done, indegree, queue, current, rest);
      SupportNotReleased(edges, nodes - done, current, support);
      HeadIsLeastReady(edges, nodes, done, indegree, queue);
      GreedyExtends(nodes, edges, order, current);
      ListIsTargets(nodes, edges, adjacency, current);
      SortedIsSorted(ListAt(adjacency, current));
      indegree, queue := Release(edges, nodes, nodes, done, current, Sorted(ListAt(adjacency, current)), true,
        indegree, rest);
      order := order + [current];
    }
    ElementsCount(order);
    CardinalityMonotone(Elements(order), nodes);
    if Elements(order) == nodes {
      AllReleased(edges, nodes, nodes, nodes, indegree, queue, support);
      CompleteGreedyIsLeast(nodes, edges, order);
    } else {
      SomeLeft(edges, nodes, nodes, nodes, Elements(order), indegree, queue);
      NoDanglingSource(nodes, edges);
    }
  }

  lemma EmptyIsGreedy(nodes: set<string>, edges: seq<Edge>)
    ensures IsGreedy(nodes, edges, []) && Elements([]) == {}
  {
  }

  lemma NoDanglingSource(nodes: set<string>, edges: seq<Edge>)
    requires Closed(nodes, edges)
    ensures !HasDanglingSource(nodes, edges)
  {
  }

  lemma CompleteGreedyIsLeast(nodes: set<string>, edges: seq<Edge>, order: seq<string>)
    requires Closed(nodes, edges) && IsGreedy(nodes, edges, order) && NoDup(order) && Elements(order) == nodes
    ensures IsTopologicalOrder(nodes, edges, order)
    ensures forall other :: IsTopologicalOrder(nodes, edges, other) ==> LexAtMost(order, other)
  {
    hide IsGreedy;
    GreedyRespects(nodes, edges, order);
    forall other | IsTopologicalOrder(nodes, edges, other)
      ensures LexAtMost(order, other)
    {
      GreedyIsLeast(nodes, edges, order, other);
    }
  }

  lemma ClosedKeys(nodes: set<string>, edges: seq<Edge>)
    requires Closed(nodes, edges)
    ensures nodes + TargetSet(edges) == nodes == nodes + SourceSet(edges)
    ensures TargetSet(edges) <= nodes && SourceSet(edges) <= nodes
  {
  }

  lemma PopFirst(
    edges: seq<Edge>, keys: set<string>, all: set<string>, done: set<string>,
    indegree: map<string, int>, queue: seq<string>)
    requires KahnState(edges, keys, all, done, indegree, queue) && IsSorted(queue) && queue != []
    ensures NoDup(queue[1..]) && IsSorted(queue[1..])
    ensures forall v :: v in queue[1..] <==> v in queue && v != queue[0]
  {
    hide InDegree;
    assert queue == [queue[0]] + queue[1..];
  }

  lemma HeadIsLeastReady(
    edges: seq<Edge>, nodes: set<string>, done: set<string>, indegree: map<string, int>, queue: seq<string>)
    requires KahnState(edges, nodes, nodes, done, indegree, queue)
    requires IsSorted(queue) && queue != []
    ensures IsLeastReady(nodes, edges, done, queue[0])
  {
    assert queue[0] in queue;
    InDegreeIffPred(edges, nodes - done, queue[0]);
    forall w | w in nodes && IsReady(nodes, edges, done, w)
      ensures !Less(w, queue[0])
    {
      InDegreeIffPred(edges, nodes - done, w);
      assert w in queue;
      SortedHeadIsLeast(queue, w);
    }
  }

  lemma GreedyExtends(nodes: set<string>, edges: seq<Edge>, order: seq<string>, v: string)
    requires NoDup(order) && IsGreedy(nodes, edges, order)
    requires IsLeastReady(nodes, edges, Elements(order), v)
    ensures NoDup(order + [v]) && IsGreedy(nodes, edges, order + [v])
    ensures Elements(order + [v]) == Elements(order) + {v}
  {
    var longer := order + [v];
    forall k | 0 <= k < |longer|
      ensures IsLeastReady(nodes, edges, Elements(longer[..k]), longer[k])
    {
      if k < |order| {
        assert longer[..k] == order[..k];
      } else {
        assert longer[..k] == order;
      }
    }
  }
}
