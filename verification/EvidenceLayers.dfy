/** Layers of the evidence graph: what callers must not draw. */
module EvidenceLayers {
  import opened Wrappers
  import opened Schema
  import opened GraphTheory
  import opened Research
  import opened ResearchInvariant
  import opened ResearchRuns
  import G = EvidenceGraph

  // Every operation but an edge drawn by hand leads from a layer to one that is not
  // higher, and then nothing is ever refused.

  /** Claims below their records, records below results, and so on. */
  function Rank(kind: NodeKind): nat {
    match kind
    case Claim => 0
    case Evidence | Counterexample | Experiment | Review | CouncilReview => 1
    case Result => 2
    case Knowledge => 3
    case Challenge => 4
  }

  /** Ids of the reserved forms belong to claims and results. */
  predicate IsOfItsForm(node: Node) {
    && ("claim:" <= node.id ==> node.kind == Claim)
    && ("result:" <= node.id ==> node.kind == Result)
  }

  predicate IsDownward(nodes: map<string, Node>, e: Edge) {
    e.source in nodes && e.target in nodes && Rank(nodes[e.source].kind) >= Rank(nodes[e.target].kind)
  }

  predicate Layered(g: G.Graph) {
    && G.KeyedById(g.nodes)
    && (forall id :: id in g.nodes ==> IsOfItsForm(g.nodes[id]))
    && forall e :: e in g.edges ==> IsDownward(g.nodes, e)
  }

  // ----- walks

  lemma {:induction false} WalkGoesDown(g: G.Graph, p: seq<string>, a: string, b: string)
    requires Layered(g) && IsWalkBetween(g.edges, p, a, b) && a in g.nodes
    ensures b in g.nodes && Rank(g.nodes[a].kind) >= Rank(g.nodes[b].kind)
    decreases |p|
  {
    if |p| > 1 {
      var init := p[..|p| - 1];
      forall i | 0 <= i < |init| - 1
        ensures HasArc(g.edges, init[i], init[i + 1])
      {
        assert HasArc(g.edges, p[i], p[i + 1]);
      }
      WalkGoesDown(g, init, a, p[|p| - 2]);
      assert HasArc(g.edges, p[|p| - 2], p[|p| - 1]);
    }
  }

  /** Nothing is reached from a lower layer. */
  lemma ReachedIsNotHigher(g: G.Graph, a: string, b: string)
    requires Layered(g) && Reaches(g.edges, a, b) && a in g.nodes
    ensures b in g.nodes && Rank(g.nodes[a].kind) >= Rank(g.nodes[b].kind)
  {
    var p :| IsWalkBetween(g.edges, p, a, b);
    WalkGoesDown(g, p, a, b);
  }

  // ----- what the operations of the graph keep

  lemma PutKeepsLayers(g: G.Graph, node: Node)
    requires Layered(g) && IsOfItsForm(node) && (node.id in g.nodes ==> g.nodes[node.id].kind == node.kind)
    ensures Layered(G.PutNode(g, node))
  {
    var h := G.PutNode(g, node);
    forall e | e in h.edges
      ensures IsDownward(h.nodes, e)
    {
      assert IsDownward(g.nodes, e);
    }
  }

  lemma EdgeKeepsLayers(g: G.Graph, e: Edge)
    requires Layered(g) && (e.source in g.nodes && e.target in g.nodes ==> IsDownward(g.nodes, e))
    ensures Layered(G.EnsureEdge(g, e).0)
  {
    var h := G.EnsureEdge(g, e).0;
    assert forall x :: x in h.edges ==> x in g.edges || x == e;
  }

  lemma AttachKeepsLayers(g: G.Graph, node: Node, target: string, kind: EdgeKind, b: Option<string>)
    requires Layered(g) && IsRecordId(node.id) && node.id !in g.nodes
    requires target in g.nodes ==> Rank(node.kind) >= Rank(g.nodes[target].kind)
    ensures Layered(G.Attach(g, node, target, kind, b).0)
  {
    PutKeepsLayers(g, node);
    EdgeKeepsLayers(G.PutNode(g, node), Edge(node.id, target, kind, b));
  }

  lemma ReservedForms(b: string)
    ensures "claim:" <= G.ClaimId(b) && "result:" <= G.ResultId(b)
    ensures !("claim:" <= G.ResultId(b)) && !("result:" <= G.ClaimId(b))
  {
    assert G.ClaimId(b)[..6] == "claim:" && G.ResultId(b)[..7] == "result:";
    assert G.ClaimId(b)[0] == 'c' && G.ResultId(b)[0] == 'r';
    assert "claim:"[0] == 'c' && "result:"[0] == 'r';
  }

  lemma ClaimKeepsLayers(g: G.Graph, branch: Branch)
    requires Layered(g)
    ensures Layered(G.EnsureBranch(g, branch).0)
    ensures G.EnsureBranch(g, branch).0.nodes == g.nodes[G.ClaimId(branch.id) := G.ClaimNode(branch)]
  {
    ReservedForms(branch.id);
    PutKeepsLayers(g, G.ClaimNode(branch));
    var g1 := G.PutNode(g, G.ClaimNode(branch));
    if branch.parent.Some? {
      ReservedForms(branch.parent.value);
      EdgeKeepsLayers(g1, Edge(G.ClaimId(branch.id), G.ClaimId(branch.parent.value), ForkedFrom, Some(branch.id)));
    }
  }

  lemma RecordKeepsLayers(g: G.Graph, branch: Branch, node: Node, kind: EdgeKind)
    requires Layered(g) && IsRecordId(node.id) && node.id !in g.nodes && Rank(node.kind) == 1
    ensures Layered(G.AddRecord(g, branch, node, kind).0)
  {
    ClaimKeepsLayers(g, branch);
    ClaimIsNoRecordId(branch.id);
    var (g1, r1) := G.EnsureBranch(g, branch);
    if r1.Ok? {
      AttachKeepsLayers(g1, node, G.ClaimId(branch.id), kind, Some(branch.id));
    }
  }

  lemma MetadataKeepsLayers(g: G.Graph, id: string, metadata: Metadata)
    requires Layered(g)
    ensures Layered(G.UpdateMetadata(g, id, metadata).0)
  {
    if id in g.nodes {
      PutKeepsLayers(g, g.nodes[id].(metadata := metadata));
    }
  }

  lemma {:induction false} DeriveKeepsLayers(g: G.Graph, source: string, ids: seq<string>, b: string)
    requires Layered(g) && source in g.nodes
    requires forall id :: id in ids && id in g.nodes ==> Rank(g.nodes[source].kind) >= Rank(g.nodes[id].kind)
    ensures Layered(G.DeriveAll(g, source, ids, b).0)
    decreases |ids|
  {
    if ids != [] {
      assert ids[0] in ids;
      EdgeKeepsLayers(g, Edge(source, ids[0], DerivedFrom, Some(b)));
      var (g1, r1) := G.EnsureEdge(g, Edge(source, ids[0], DerivedFrom, Some(b)));
      if r1.Ok? {
        DeriveKeepsLayers(g1, source, ids[1..], b);
      }
    }
  }

  predicate AreRecords(g: G.Graph, ids: seq<string>) {
    forall id :: id in ids ==> IsRecordId(id) && id in g.nodes && Rank(g.nodes[id].kind) == 1
  }

  lemma ResultKeepsLayers(g: G.Graph, branch: Branch)
    requires Layered(g) && AreRecords(g, G.RecordIds(branch))
    ensures Layered(G.SetResult(g, branch).0)
  {
    if branch.result.Some? && branch.result.value != "" {
      ClaimKeepsLayers(g, branch);
      var (g1, r1) := G.EnsureBranch(g, branch);
      var node := G.ResultNode(branch.id, branch.result.value);
      ReservedForms(branch.id);
      PutKeepsLayers(g1, node);
      ClaimIsNoRecordId(branch.id);
      DeriveKeepsLayers(G.PutNode(g1, node), G.ResultId(branch.id), G.RecordIds(branch), branch.id);
    }
  }

  lemma KnowledgeKeepsLayers(g: G.Graph, id: string, b: string, statement: string)
    requires Layered(g) && IsRecordId(id) && id !in g.nodes
    ensures Layered(G.AddKnowledge(g, id, b, statement).0)
  {
    var node := Node(id, Some(b), Knowledge, statement, Plain);
    PutKeepsLayers(g, node);
    ReservedForms(b);
    ClaimIsNoRecordId(b);
    var g1 := G.PutNode(g, node);
    var target := if G.ResultId(b) in g1.nodes then G.ResultId(b) else G.ClaimId(b);
    EdgeKeepsLayers(g1, Edge(id, target, DerivedFrom, Some(b)));
  }

  // ----- a result on a layered graph

  /** The record ids of a stored branch are record nodes of the graph. */
  lemma BranchRecordsAreRecords(s: State, b: string)
    requires Invariant(s) && b in s.branches
    ensures AreRecords(s.graph, G.RecordIds(s.branches[b]))
  {
    var branch := s.branches[b];
    assert IsKnownBranch(s.graph, s.branches, b);
    forall id | id in G.RecordIds(branch)
      ensures IsRecordId(id) && id in s.graph.nodes && Rank(s.graph.nodes[id].kind) == 1
    {
      var e := EntryWithId(branch, id);
      assert IsMirrored(s.graph, b, e);
    }
  }

  lemma EntryWithId(branch: Branch, id: string) returns (e: Entry)
    requires id in G.RecordIds(branch)
    ensures e in Entries(branch) && e.node.id == id && Rank(e.node.kind) == 1
  {
    if id in G.EvidenceIds(branch.evidence) {
      var i :| 0 <= i < |branch.evidence| && G.EvidenceIds(branch.evidence)[i] == id;
      assert branch.evidence[i] in branch.evidence;
      e := Entry(G.EvidenceNode(branch.id, branch.evidence[i]), Supports);
    } else {
      assert id in G.ExperimentIds(branch.experiments);
      var i :| 0 <= i < |branch.experiments| && G.ExperimentIds(branch.experiments)[i] == id;
      assert branch.experiments[i] in branch.experiments;
      e := Entry(G.ExperimentNode(branch.id, branch.experiments[i]), Tests);
    }
  }

  /** On a layered graph a result is never refused. */
  lemma LayeredResultIsAccepted(s: State, b: string, result: string)
    requires Invariant(s) && Layered(s.graph) && b in s.branches
    ensures SetResult(s, b, result).1.Ok?
  {
    var branch := s.branches[b].(result := Some(result));
    BranchFacts(s, b);
    BranchRecordsAreRecords(s, b);
    hide Invariant;
    if result != "" {
      assert G.RecordIds(branch) == G.RecordIds(s.branches[b]);
      G.SetResultAcceptedIff(s.graph, branch);
      ClaimIsNoRecordId(b);
      ReservedForms(b);
      forall id | id in G.RecordIds(branch)
        ensures !Reaches(s.graph.edges, id, G.ResultId(b))
      {
        if Reaches(s.graph.edges, id, G.ResultId(b)) {
          ReachedIsNotHigher(s.graph, id, G.ResultId(b));
        }
      }
    }
  }

  // ----- runs

  /** Nodes and edges that callers supply lead downward; every other operation
      does so by itself. */
  predicate GoesDown(s: State, op: Operation) {
    match op
    case OtherNodeOp(node, target, _, _) =>
      target in s.graph.nodes ==> Rank(node.kind) >= Rank(s.graph.nodes[target].kind)
    case EdgeOp(e) => e.source in s.graph.nodes && e.target in s.graph.nodes ==> IsDownward(s.graph.nodes, e)
    case _ => true
  }

  /** What the other components attach goes down: a council review to a claim, a
      challenge to anything, a successor to a knowledge item. */
  lemma ComponentsGoDown(s: State, node: Node, target: string, kind: EdgeKind, branch: Option<string>, b: string)
    requires Layered(s.graph)
    requires || (node.kind == CouncilReview && target == G.ClaimId(b))
             || node.kind == Challenge
             || (node.kind == Knowledge && target in s.graph.nodes && s.graph.nodes[target].kind == Knowledge)
    ensures GoesDown(s, OtherNodeOp(node, target, kind, branch))
  {
    ReservedForms(b);
  }

  lemma ResultStepKeepsLayers(s: State, b: string, result: string)
    requires Invariant(s) && Layered(s.graph)
    ensures Layered(SetResult(s, b, result).0.graph)
  {
    hide Layered, G.SetResult;
    if b in s.branches {
      var branch := s.branches[b].(result := Some(result));
      BranchFacts(s, b);
      BranchRecordsAreRecords(s, b);
      assert G.RecordIds(branch) == G.RecordIds(s.branches[b]);
      ResultKeepsLayers(s.graph, branch);
    }
  }

  lemma RecordStepKeepsLayers(s: State, branch: Branch, node: Node, kind: EdgeKind)
    requires Layered(s.graph) && IsFresh(s, node.id) && Rank(node.kind) == 1
    ensures Layered(AddEntry(s, branch, node, kind).0.graph)
  {
    hide Layered, G.AddRecord;
    RecordKeepsLayers(s.graph, branch, node, kind);
  }

  lemma ApplyKeepsLayers(s: State, op: Operation)
    requires Invariant(s) && Layered(s.graph) && Draws(s, op) && GoesDown(s, op)
    ensures Layered(Apply(s, op).0.graph)
  {
    hide Invariant, Layered, AddEntry, Touch, G.EnsureBranch, G.Attach, G.EnsureEdge, G.AddKnowledge, G.UpdateMetadata;
    hide SetResult, IsDownward;
    match op
    case CreateOp(id, hypothesis, parent) => ClaimKeepsLayers(s.graph, NewBranch(id, hypothesis, parent));
    case ArchiveOp(b) =>
    case EvidenceOp(b, r) =>
      if b in s.branches {
        var branch := s.branches[b].(evidence := s.branches[b].evidence + [r]);
        RecordStepKeepsLayers(s, branch, G.EvidenceNode(branch.id, r), Supports);
      }
    case CounterexampleOp(b, r) =>
      if b in s.branches {
        var branch := s.branches[b].(counterexamples := s.branches[b].counterexamples + [r]);
        RecordStepKeepsLayers(s, branch, G.CounterexampleNode(branch.id, r), Contradicts);
      }
    case ExperimentOp(b, r) =>
      if b in s.branches {
        var branch := s.branches[b].(experiments := s.branches[b].experiments + [r]);
        RecordStepKeepsLayers(s, branch, G.ExperimentNode(branch.id, r), Tests);
      }
    case ReviewOp(b, r, verifier) => ReviewStepKeepsLayers(s, b, r, verifier);
    case ResolveOp(b, id, resolution) => ResolveStepKeepsLayers(s, b, id, resolution);
    case UpdateExperimentOp(b, id, status, actual) => UpdateStepKeepsLayers(s, b, id, status, actual);
    case ResultOp(b, result) => ResultStepKeepsLayers(s, b, result);
    case AcceptOp(b, id, gatePassed) => AcceptStepKeepsLayers(s, b, id, gatePassed);
    case OtherNodeOp(node, target, kind, branch) => AttachKeepsLayers(s.graph, node, target, kind, branch);
    case EdgeOp(e) => EdgeKeepsLayers(s.graph, e);
  }

  lemma ReviewStepKeepsLayers(s: State, b: string, r: ReviewRecord, verifier: bool)
    requires Layered(s.graph) && IsFresh(s, r.id)
    ensures Layered(AddReview(s, b, r, verifier).0.graph)
  {
    hide Layered, AddEntry;
    if b in s.branches {
      var old_ := s.branches[b];
      var branch := if verifier then old_.(verifierReviews := old_.verifierReviews + [r])
        else old_.(criticReviews := old_.criticReviews + [r]);
      RecordStepKeepsLayers(s, branch, G.ReviewNode(branch.id, r), if verifier then Verifies else Reviews);
    }
  }

  lemma ResolveStepKeepsLayers(s: State, b: string, id: string, resolution: string)
    requires Layered(s.graph)
    ensures Layered(ResolveCounterexample(s, b, id, resolution).0.graph)
  {
    hide Layered, G.UpdateMetadata, Touch;
    MetadataKeepsLayers(s.graph, id, CounterexampleData(true, Some(resolution)));
  }

  lemma UpdateStepKeepsLayers(s: State, b: string, id: string, status: ExperimentStatus, actual: string)
    requires Layered(s.graph)
    ensures Layered(UpdateExperiment(s, b, id, status, actual).0.graph)
  {
    hide Layered, G.UpdateMetadata, Touch;
    MetadataKeepsLayers(s.graph, id, ExperimentData(status, Some(actual)));
  }

  lemma AcceptStepKeepsLayers(s: State, b: string, id: string, gatePassed: bool)
    requires Layered(s.graph) && IsFresh(s, id)
    ensures Layered(Accept(s, b, id, gatePassed).0.graph)
  {
    hide Layered, G.AddKnowledge;
    if b in s.branches {
      var branch := s.branches[b];
      var statement := if branch.result.Some? && branch.result.value != "" then branch.result.value
        else branch.hypothesis;
      KnowledgeKeepsLayers(s.graph, id, b, statement);
    }
  }

  ghost predicate AllGoDown(ops: seq<Operation>) {
    ops == [] || (AllGoDown(ops[..|ops| - 1]) && GoesDown(Run(ops[..|ops| - 1]), ops[|ops| - 1]))
  }

  lemma {:induction false} EveryRunIsLayered(ops: seq<Operation>)
    requires DrawsFreshIds(ops) && AllGoDown(ops)
    ensures Layered(Run(ops).graph)
  {
    if ops != [] {
      hide Layered;
      var init := ops[..|ops| - 1];
      EveryRunIsLayered(init);
      EveryRunKeepsInvariant(init);
      ApplyKeepsLayers(Run(init), ops[|ops| - 1]);
    }
  }

  /** The graph turned an edge down, as opposed to a caller naming something unknown. */
  predicate IsRefusal(r: Outcome) {
    r.Err? && (r.error.SelfLoop? || r.error.UnknownNode? || r.error.WouldCycle?)
  }

  /** In a run where callers draw no edge upward, the graph refuses nothing that
      the service does by itself; an attached node is refused only if its target
      is unknown. */
  lemma NothingIsRefused(ops: seq<Operation>, op: Operation)
    requires DrawsFreshIds(ops) && AllGoDown(ops) && Draws(Run(ops), op)
    ensures IsRefusal(Apply(Run(ops), op).1) ==>
              op.EdgeOp? || (op.OtherNodeOp? && op.target !in Run(ops).graph.nodes)
  {
    EveryRunKeepsInvariant(ops);
    EveryRunIsLayered(ops);
    hide Run, DrawsFreshIds, AllGoDown;
    LayeredIsAccepted(Run(ops), op);
  }

  lemma LayeredIsAccepted(s: State, op: Operation)
    requires Invariant(s) && Layered(s.graph) && Draws(s, op)
    ensures IsRefusal(Apply(s, op).1) ==> op.EdgeOp? || (op.OtherNodeOp? && op.target !in s.graph.nodes)
  {
    hide Invariant, Layered, AddEntry, Touch, G.EnsureBranch, G.Attach, G.AddKnowledge, UpdateEntry, SetResult;
    match op
    case CreateOp(id, hypothesis, parent) => CreateKeepsInvariant(s, id, hypothesis, parent);
    case ArchiveOp(b) =>
    case EvidenceOp(b, r) => if b in s.branches { EvidenceKeepsInvariant(s, b, r); }
    case CounterexampleOp(b, r) => if b in s.branches { CounterexampleKeepsInvariant(s, b, r); }
    case ResolveOp(b, id, resolution) => ResolveKeepsInvariant(s, b, id, resolution);
    case ExperimentOp(b, r) => if b in s.branches { ExperimentKeepsInvariant(s, b, r); }
    case UpdateExperimentOp(b, id, status, actual) => UpdateExperimentKeepsInvariant(s, b, id, status, actual);
    case ResultOp(b, result) =>
      if b in s.branches {
        LayeredResultIsAccepted(s, b, result);
      } else {
        UnknownIsNoRefusal(s, b, result);
      }
    case ReviewOp(b, r, verifier) => if b in s.branches { ReviewKeepsInvariant(s, b, r, verifier); }
    case AcceptOp(b, id, gatePassed) => AcceptKeepsInvariant(s, b, id, gatePassed);
    case OtherNodeOp(node, target, kind, branch) => AttachKeepsInvariant(s, node, target, kind, branch);
    case EdgeOp(e) =>
  }

  lemma UnknownIsNoRefusal(s: State, b: string, result: string)
    requires b !in s.branches
    ensures !IsRefusal(SetResult(s, b, result).1)
  {
  }

  /** A result is refused only after a caller has drawn an edge upward. */
  lemma RefusedResultHasUpwardEdge(ops: seq<Operation>, b: string, result: string)
    requires DrawsFreshIds(ops) && b in Run(ops).branches
    requires SetResult(Run(ops), b, result).1.Err?
    ensures exists n: nat :: n < |ops| && !GoesDown(Run(ops[..n]), ops[n])
  {
    if AllGoDown(ops) {
      EveryRunIsLayered(ops);
      EveryRunKeepsInvariant(ops);
      hide Run;
      LayeredResultIsAccepted(Run(ops), b, result);
      assert false;
    } else {
      var n := FirstUpward(ops);
    }
  }

  lemma {:induction false} FirstUpward(ops: seq<Operation>) returns (n: nat)
    requires !AllGoDown(ops)
    ensures n < |ops| && !GoesDown(Run(ops[..n]), ops[n])
  {
    var init := ops[..|ops| - 1];
    if AllGoDown(init) {
      n := |init|;
    } else {
      n := FirstUpward(init);
      assert init[..n] == ops[..n];
    }
  }
}
