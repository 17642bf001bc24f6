/** The evidence graph store: nodes and edges updated in place. */
module EvidenceGraphStore {
  import opened Wrappers
  import opened Schema
  import opened GraphTheory
  import G = EvidenceGraph
  import Kahn

  // Every edge goes through one guarded insert that is rolled back when it closes
  // a cycle. Each method is proved against the corresponding function of
  // `EvidenceGraph`.

  class Store {
    var nodes: map<string, Node>
    var edges: seq<Edge>

    ghost function Value(): G.Graph
      reads this
    {
      G.Graph(nodes, edges)
    }

    ghost predicate Valid()
      reads this
    {
      G.IsDag(Value())
    }

    constructor ()
      ensures Valid() && Value() == G.Empty
    {
      nodes, edges := map[], [];
      new;
      G.EmptyIsDag();
    }

    method PutNode(node: Node)
      requires Valid()
      modifies this
      ensures Valid() && Value() == G.PutNode(old(Value()), node)
    {
      G.PutNodeKeepsDag(Value(), node);
      nodes := nodes[node.id := node];
    }

    /** True exactly when the stored edges contain a directed cycle. */
    method ContainsCycle() returns (cyclic: bool)
      requires Closed(nodes.Keys, edges)
      ensures cyclic <==> HasCycle(edges)
    {
      cyclic := Kahn.DetectCycle(nodes.Keys, edges);
    }

    method FindTriple(source: string, target: string, kind: EdgeKind) returns (found: bool)
      ensures found <==> G.HasTriple(edges, source, target, kind)
    {
      found := false;
      for i := 0 to |edges|
        invariant !found && !G.HasTriple(edges[..i], source, target, kind)
      {
        if G.IsTriple(edges[i], source, target, kind) {
          return true;
        }
        assert edges[..i + 1] == edges[..i] + [edges[i]];
      }
      assert edges[..|edges|] == edges;
    }

    /** The guarded insert: the edge is stored, the cycle test is run, and on a
        cycle the edge is taken out again. */
    method EnsureEdge(e: Edge) returns (r: Outcome)
      requires Valid()
      modifies this
      ensures Valid() && (Value(), r) == G.EnsureEdge(old(Value()), e)
    {
      G.EnsureEdgeKeepsDag(Value(), e);
      if e.source == e.target {
        return Err(SelfLoop);
      }
      if e.source !in nodes {
        return Err(UnknownNode(e.source));
      }
      if e.target !in nodes {
        return Err(UnknownNode(e.target));
      }
      var existing := FindTriple(e.source, e.target, e.kind);
      if existing {
        return Ok;
      }
      edges := edges + [e];
      var cyclic := ContainsCycle();
      if cyclic {
        edges := edges[..|edges| - 1];
        assert edges == old(edges);
        return Err(WouldCycle);
      }
      return Ok;
    }

    method EnsureBranch(branch: Branch) returns (r: Outcome)
      requires Valid()
      modifies this
      ensures Valid() && (Value(), r) == G.EnsureBranch(old(Value()), branch)
    {
      PutNode(G.ClaimNode(branch));
      r := Ok;
      if branch.parent.Some? {
        var parentClaim := G.ClaimId(branch.parent.value);
        if parentClaim in nodes {
          r := EnsureEdge(Edge(G.ClaimId(branch.id), parentClaim, ForkedFrom, Some(branch.id)));
        }
      }
    }

    method Attach(node: Node, target: string, kind: EdgeKind, branch: Option<string>) returns (r: Outcome)
      requires Valid()
      modifies this
      ensures Valid() && (Value(), r) == G.Attach(old(Value()), node, target, kind, branch)
    {
      PutNode(node);
      r := EnsureEdge(Edge(node.id, target, kind, branch));
    }

    method AddRecord(branch: Branch, node: Node, kind: EdgeKind) returns (r: Outcome)
      requires Valid()
      modifies this
      ensures Valid() && (Value(), r) == G.AddRecord(old(Value()), branch, node, kind)
    {
      r := EnsureBranch(branch);
      if r.Ok? {
        r := Attach(node, G.ClaimId(branch.id), kind, Some(branch.id));
      }
    }

    method AddEvidence(branch: Branch, record: EvidenceRecord) returns (r: Outcome)
      requires Valid()
      modifies this
      ensures Valid()
      ensures (Value(), r) == G.AddRecord(old(Value()), branch, G.EvidenceNode(branch.id, record), Supports)
    {
      r := AddRecord(branch, G.EvidenceNode(branch.id, record), Supports);
    }

    method AddCounterexample(branch: Branch, record: CounterexampleRecord) returns (r: Outcome)
      requires Valid()
      modifies this
      ensures Valid()
      ensures (Value(), r) == G.AddRecord(old(Value()), branch, G.CounterexampleNode(branch.id, record), Contradicts)
    {
      r := AddRecord(branch, G.CounterexampleNode(branch.id, record), Contradicts);
    }

    method AddExperiment(branch: Branch, record: ExperimentRecord) returns (r: Outcome)
      requires Valid()
      modifies this
      ensures Valid()
      ensures (Value(), r) == G.AddRecord(old(Value()), branch, G.ExperimentNode(branch.id, record), Tests)
    {
      r := AddRecord(branch, G.ExperimentNode(branch.id, record), Tests);
    }

    method AddReview(branch: Branch, record: ReviewRecord, verifier: bool) returns (r: Outcome)
      requires Valid()
      modifies this
      ensures Valid()
      ensures (Value(), r) == G.AddRecord(old(Value()), branch, G.ReviewNode(branch.id, record),
                                          if verifier then Verifies else Reviews)
    {
      r := AddRecord(branch, G.ReviewNode(branch.id, record), if verifier then Verifies else Reviews);
    }

    method UpdateMetadata(id: string, metadata: Metadata) returns (r: Outcome)
      requires Valid()
      modifies this
      ensures Valid() && (Value(), r) == G.UpdateMetadata(old(Value()), id, metadata)
    {
      G.ApplyKeepsDag(Value(), G.MetadataOp(id, metadata));
      if id !in nodes {
        return Err(UnknownNode(id));
      }
      nodes := nodes[id := nodes[id].(metadata := metadata)];
      return Ok;
    }

    method SetResult(branch: Branch) returns (r: Outcome)
      requires Valid()
      modifies this
      ensures Valid() && (Value(), r) == G.SetResult(old(Value()), branch)
    {
      if branch.result.None? || branch.result.value == "" {
        return Ok;
      }
      r := EnsureBranch(branch);
      if r.Err? {
        return;
      }
      PutNode(G.ResultNode(branch.id, branch.result.value));
      ghost var goal := G.DeriveAll(Value(), G.ResultId(branch.id), G.RecordIds(branch), branch.id);
      var ids := G.RecordIds(branch);
      var i := 0;
      while i < |ids|
        invariant 0 <= i <= |ids| && Valid()
        invariant G.DeriveAll(Value(), G.ResultId(branch.id), ids[i..], branch.id) == goal
      {
        assert ids[i..][0] == ids[i] && ids[i..][1..] == ids[i + 1..];
        r := EnsureEdge(Edge(G.ResultId(branch.id), ids[i], DerivedFrom, Some(branch.id)));
        if r.Err? {
          return;
        }
        i := i + 1;
      }
      r := Ok;
    }

    method AddCouncilReview(branchId: string, node: Node) returns (r: Outcome)
      requires Valid()
      modifies this
      ensures Valid() && (Value(), r) == G.Attach(old(Value()), node, G.ClaimId(branchId), Reviews, Some(branchId))
    {
      r := Attach(node, G.ClaimId(branchId), Reviews, Some(branchId));
    }

    method AddKnowledge(id: string, branchId: string, statement: string) returns (r: Outcome)
      requires Valid()
      modifies this
      ensures Valid() && (Value(), r) == G.AddKnowledge(old(Value()), id, branchId, statement)
    {
      PutNode(Node(id, Some(branchId), Knowledge, statement, Plain));
      var target := if G.ResultId(branchId) in nodes then G.ResultId(branchId) else G.ClaimId(branchId);
      r := Ok;
      if target in nodes {
        r := EnsureEdge(Edge(id, target, DerivedFrom, Some(branchId)));
      }
    }

    method AddChallenge(id: string, knowledge: string, branch: Option<string>, statement: string) returns (r: Outcome)
      requires Valid()
      modifies this
      ensures Valid() && (Value(), r) == G.AddChallenge(old(Value()), id, knowledge, branch, statement)
    {
      if knowledge !in nodes {
        return Err(UnknownNode(knowledge));
      }
      r := Attach(Node(id, branch, Challenge, statement, Plain), knowledge, Challenges, branch);
    }

    method LinkTransition(newId: string, oldId: string, kind: EdgeKind) returns (r: Outcome)
      requires Valid()
      modifies this
      ensures Valid() && (Value(), r) == G.LinkTransition(old(Value()), newId, oldId, kind)
    {
      r := EnsureEdge(Edge(newId, oldId, kind, if newId in nodes then nodes[newId].branch else None));
    }

    method AddEdge(source: string, target: string, kind: EdgeKind) returns (r: Outcome)
      requires Valid()
      modifies this
      ensures Valid() && (Value(), r) == G.AddEdge(old(Value()), source, target, kind)
    {
      if source !in nodes {
        return Err(UnknownNode(source));
      }
      r := EnsureEdge(Edge(source, target, kind, nodes[source].branch));
    }

    /** The nodes of one branch (or all), the edges among them, and their order.
        Whatever was stored, the order is complete, so the gate's acyclicity
        check passes, and it is the least one, so it depends on nothing but the
        selected nodes and edges. */
    method Snapshot(branch: Option<string>)
      returns (selected: map<string, Node>, among: seq<Edge>, order: seq<string>)
      requires Valid()
      ensures forall id :: id in selected <==> id in nodes && (branch.None? || nodes[id].branch == branch)
      ensures forall id :: id in selected ==> selected[id] == nodes[id]
      ensures multiset(among) <= multiset(edges)
      ensures forall e :: e in among <==> e in edges && e.source in selected && e.target in selected
      ensures |order| == |selected|
      ensures IsTopologicalOrder(selected.Keys, among, order)
      ensures forall other :: IsTopologicalOrder(selected.Keys, among, other) ==> LexAtMost(order, other)
    {
      selected := map id | id in nodes && (branch.None? || nodes[id].branch == branch) :: nodes[id];
      among := [];
      for i := 0 to |edges|
        invariant multiset(among) <= multiset(edges[..i])
        invariant forall e :: e in among <==> e in edges[..i] && e.source in selected && e.target in selected
      {
        assert edges[..i + 1] == edges[..i] + [edges[i]];
        if edges[i].source in selected && edges[i].target in selected {
          among := among + [edges[i]];
        }
      }
      assert edges[..|edges|] == edges;
      FewerEdgesNoCycle(edges, among);
      order := Kahn.TopologicalOrder(selected.Keys, among);
      assert |selected| == |selected.Keys|;
    }
  }
}
