/** Contradiction propagation over whole runs. */
module PropagationRuns {
  import opened Wrappers
  import opened Schema
  import opened Research
  import opened ResearchRuns
  import opened GraphGains
  import opened Propagation
  import G = EvidenceGraph
  import Lineage

  // As long as only the service itself writes records with the reserved prefix, a
  // fresh counterexample reaches every strict descendant, and every receiver that
  // can be blocked is blocked.

  /** The id that a propagated record carries in its source. */
  function MarkedId(r: CounterexampleRecord): string
    requires IsPropagated(r)
  {
    r.source[|PREFIX|..]
  }

  predicate IsKnownMarker(g: G.Graph, r: CounterexampleRecord) {
    IsPropagated(r) ==> MarkedId(r) in g.nodes
  }

  /** Every propagated record names a node of the graph. */
  predicate MarkersKnown(s: State) {
    forall b, r :: b in s.branches && r in s.branches[b].counterexamples ==> IsKnownMarker(s.graph, r)
  }

  /** Callers leave the reserved prefix to propagation, which names a stored
      counterexample or a stored challenge. */
  predicate KeepsPrefix(s: State, op: Operation) {
    op.CounterexampleOp? ==> IsKnownMarker(s.graph, op.counterexample)
  }

  /** What propagation adds keeps the prefix. */
  lemma InheritedKeepsPrefix(s: State, b: string, id: string, origin: string, source: CounterexampleRecord)
    requires Invariant(s) && origin in s.branches && source in s.branches[origin].counterexamples
    ensures KeepsPrefix(s, CounterexampleOp(b, Inherited(id, origin, source)))
  {
    CounterexampleIsStored(s, origin, source);
    MarkerNamesId(Inherited(id, origin, source), source.id);
  }

  lemma MarkerNamesId(r: CounterexampleRecord, id: string)
    requires r.source == Marker(id)
    ensures IsPropagated(r) && MarkedId(r) == id
  {
  }

  lemma CounterexampleIsStored(s: State, b: string, r: CounterexampleRecord)
    requires Invariant(s) && b in s.branches && r in s.branches[b].counterexamples
    ensures r.id in s.graph.nodes
  {
    assert IsKnownBranch(s.graph, s.branches, b);
    var e := Entry(G.CounterexampleNode(b, r), Contradicts);
    assert e in CounterexampleEntries(b, s.branches[b].counterexamples);
    assert IsMirrored(s.graph, b, e);
  }

  // ----- what a step does to nodes and sources

  lemma NodesStay(s: State, op: Operation)
    requires Invariant(s) && Draws(s, op)
    ensures s.graph.nodes.Keys <= Apply(s, op).0.graph.nodes.Keys
  {
    hide Mirrored, Backed, RecordsDistinct, BranchesLinked, NodeIdsKnown, CreatedInOrder, Lineage.IsForest, G.IsDag;
    hide G.EnsureBranch, G.AddRecord, G.SetResult, G.EnsureEdge, Touch;
    match op
    case CreateOp(id, hypothesis, parent) => G.EnsureBranchKeepsDag(s.graph, NewBranch(id, hypothesis, parent));
    case ArchiveOp(b) =>
    case EvidenceOp(b, r) =>
      if b in s.branches {
        var branch := s.branches[b].(evidence := s.branches[b].evidence + [r]);
        G.AddRecordKeepsDag(s.graph, branch, G.EvidenceNode(branch.id, r), Supports);
      }
    case CounterexampleOp(b, r) =>
      if b in s.branches {
        var branch := s.branches[b].(counterexamples := s.branches[b].counterexamples + [r]);
        G.AddRecordKeepsDag(s.graph, branch, G.CounterexampleNode(branch.id, r), Contradicts);
      }
    case ExperimentOp(b, r) =>
      if b in s.branches {
        var branch := s.branches[b].(experiments := s.branches[b].experiments + [r]);
        G.AddRecordKeepsDag(s.graph, branch, G.ExperimentNode(branch.id, r), Tests);
      }
    case ReviewOp(b, r, verifier) => ReviewKeepsNodes(s, b, r, verifier);
    case ResolveOp(b, id, resolution) =>
    case UpdateExperimentOp(b, id, status, actual) =>
    case ResultOp(b, result) =>
      if b in s.branches {
        G.SetResultKeepsDag(s.graph, s.branches[b].(result := Some(result)));
      }
    case AcceptOp(b, id, gatePassed) => AcceptKeepsNodes(s, b, id, gatePassed);
    case OtherNodeOp(node, target, kind, branch) => G.AttachKeepsDag(s.graph, node, target, kind, branch);
    case EdgeOp(e) => G.EnsureEdgeKeepsDag(s.graph, e);
  }

  lemma ReviewKeepsNodes(s: State, b: string, r: ReviewRecord, verifier: bool)
    requires G.IsDag(s.graph)
    ensures s.graph.nodes.Keys <= AddReview(s, b, r, verifier).0.graph.nodes.Keys
  {
    hide G.IsDag, G.AddRecord, Touch;
    if b in s.branches {
      var old_ := s.branches[b];
      var branch := if verifier then old_.(verifierReviews := old_.verifierReviews + [r])
        else old_.(criticReviews := old_.criticReviews + [r]);
      G.AddRecordKeepsDag(s.graph, branch, G.ReviewNode(branch.id, r), if verifier then Verifies else Reviews);
    }
  }

  lemma AcceptKeepsNodes(s: State, b: string, id: string, gatePassed: bool)
    requires G.IsDag(s.graph)
    ensures s.graph.nodes.Keys <= Accept(s, b, id, gatePassed).0.graph.nodes.Keys
  {
    hide G.IsDag, G.Apply, G.AddKnowledge;
    if b in s.branches {
      var branch := s.branches[b];
      var statement := if branch.result.Some? && branch.result.value != "" then branch.result.value
        else branch.hypothesis;
      var op := G.KnowledgeOp(id, b, statement);
      assert G.Apply(s.graph, op) == G.AddKnowledge(s.graph, id, b, statement) by { KnowledgeApplies(s.graph, op); }
      G.ApplyKeepsDag(s.graph, op);
    }
  }

  lemma KnowledgeApplies(g: G.Graph, op: G.Operation)
    requires op.KnowledgeOp?
    ensures G.Apply(g, op) == G.AddKnowledge(g, op.id, op.branchId, op.statement)
  {
  }

  /** A counterexample after a step has the source of one before, or it is the one
      just added. */
  predicate HasOldSource(s: State, b: string, r: CounterexampleRecord) {
    b in s.branches && exists old_ :: old_ in s.branches[b].counterexamples && old_.source == r.source
  }

  lemma SourcesStay(s: State, op: Operation, b: string, r: CounterexampleRecord)
    requires Invariant(s) && Draws(s, op)
    requires b in Apply(s, op).0.branches && r in Apply(s, op).0.branches[b].counterexamples
    ensures HasOldSource(s, b, r) || (op.CounterexampleOp? && r == op.counterexample)
  {
    hide Mirrored, Backed, RecordsDistinct, NodeIdsKnown, CreatedInOrder, Lineage.IsForest, G.IsDag;
    hide BranchesLinked, G.EnsureBranch, G.AddRecord, G.SetResult, G.EnsureEdge, G.AddKnowledge, G.Attach,
      G.UpdateMetadata;
    BranchIds(s);
    hide Invariant, Touch, HasOldSource, AddEvidence, AddExperiment, AddCounterexample, AddReview,
      ResolveCounterexample;
    match op
    case ResolveOp(x, id, resolution) => ResolveKeepsSources(s, x, id, resolution, b, r);
    case EvidenceOp(_, _) => RecordKeepsSources(s, op, b, r);
    case ExperimentOp(_, _) => RecordKeepsSources(s, op, b, r);
    case CounterexampleOp(_, _) => RecordKeepsSources(s, op, b, r);
    case ReviewOp(_, _, _) => RecordKeepsSources(s, op, b, r);
    case _ => OtherKeepsSources(s, op, b, r);
  }

  lemma OtherKeepsSources(s: State, op: Operation, b: string, r: CounterexampleRecord)
    requires op.CreateOp? || op.ArchiveOp? || op.UpdateExperimentOp? || op.ResultOp? || op.AcceptOp?
      || op.OtherNodeOp? || op.EdgeOp?
    requires forall x :: x in s.branches ==> s.branches[x].id == x
    requires b in Apply(s, op).0.branches && r in Apply(s, op).0.branches[b].counterexamples
    ensures HasOldSource(s, b, r)
  {
    hide Touch, FindExperiment, G.EnsureBranch, G.SetResult, G.EnsureEdge, G.AddKnowledge, G.Attach, G.UpdateMetadata;
    TouchKeepsAll();
    assert b in s.branches ==> Apply(s, op).0.branches[b].counterexamples == s.branches[b].counterexamples;
  }

  lemma RecordKeepsSources(s: State, op: Operation, b: string, r: CounterexampleRecord)
    requires op.EvidenceOp? || op.ExperimentOp? || op.CounterexampleOp? || op.ReviewOp?
    requires forall x :: x in s.branches ==> s.branches[x].id == x
    requires b in Apply(s, op).0.branches && r in Apply(s, op).0.branches[b].counterexamples
    ensures HasOldSource(s, b, r) || (op.CounterexampleOp? && r == op.counterexample)
  {
    hide Touch, G.AddRecord;
    TouchKeepsAll();
  }

  lemma BranchIds(s: State)
    requires Invariant(s)
    ensures forall b :: b in s.branches ==> s.branches[b].id == b
  {
    assert forall b :: b in s.branches ==> IsKnownBranch(s.graph, s.branches, b);
  }

  lemma TouchKeepsAll()
    ensures forall b :: Touch(b).counterexamples == b.counterexamples
  {
  }

  lemma ResolveKeepsSources(s: State, x: string, id: string, resolution: string, b: string, r: CounterexampleRecord)
    requires forall y :: y in s.branches ==> s.branches[y].id == y
    requires var t := ResolveCounterexample(s, x, id, resolution).0;
             b in t.branches && r in t.branches[b].counterexamples
    ensures HasOldSource(s, b, r)
  {
    hide Touch, G.UpdateMetadata;
    TouchKeepsAll();
    if b == x && FindCounterexample(s.branches[x].counterexamples, id).Some? {
      var records := s.branches[x].counterexamples;
      var i := FindCounterexample(records, id).value;
      assert r == records[i].(resolved := true, resolution := Some(resolution)) || r in records;
    }
  }

  // ----- the markers of every run

  lemma ApplyKeepsMarkers(s: State, op: Operation)
    requires Invariant(s) && MarkersKnown(s) && Draws(s, op) && KeepsPrefix(s, op)
    ensures MarkersKnown(Apply(s, op).0)
  {
    var t := Apply(s, op).0;
    NodesStay(s, op);
    forall b, r | b in t.branches && r in t.branches[b].counterexamples
      ensures IsKnownMarker(t.graph, r)
    {
      SourcesStay(s, op, b, r);
      hide Invariant, Apply, Draws;
      if HasOldSource(s, b, r) {
        var old_ :| old_ in s.branches[b].counterexamples && old_.source == r.source;
        assert IsKnownMarker(s.graph, old_);
      } else {
        assert IsKnownMarker(s.graph, r);
      }
    }
  }

  ghost predicate AllKeepPrefix(ops: seq<Operation>) {
    ops == [] || (AllKeepPrefix(ops[..|ops| - 1]) && KeepsPrefix(Run(ops[..|ops| - 1]), ops[|ops| - 1]))
  }

  /** In every run that leaves the prefix to propagation, markers name stored nodes. */
  lemma {:induction false} EveryRunKnowsMarkers(ops: seq<Operation>)
    requires DrawsFreshIds(ops) && AllKeepPrefix(ops)
    ensures MarkersKnown(Run(ops))
  {
    if ops != [] {
      var init := ops[..|ops| - 1];
      EveryRunKnowsMarkers(init);
      EveryRunKeepsInvariant(init);
      hide Invariant, MarkersKnown, KeepsPrefix, Apply, Draws;
      ApplyKeepsMarkers(Run(init), ops[|ops| - 1]);
    }
  }

  /** The marker of a fresh id occurs nowhere. */
  lemma FreshIsUnmarked(s: State, id: string, b: string)
    requires MarkersKnown(s) && IsFresh(s, id) && b in s.branches
    ensures !HasMarker(s.branches[b], Marker(id))
  {
    var records := s.branches[b].counterexamples;
    forall i | 0 <= i < |records|
      ensures records[i].source != Marker(id)
    {
      assert IsKnownMarker(s.graph, records[i]);
      if records[i].source == Marker(id) {
        MarkerNamesId(records[i], id);
      }
    }
  }

  // ----- an original counterexample

  /** A fresh original counterexample is inherited by every strict descendant, and
      the store it leaves is again one whose markers are known. */
  lemma EveryDescendantInherits(s: State, t: State, origin: string, r: CounterexampleRecord, added: Added)
    requires Lineage.IsForest(ParentsOf(s.branches), s.createdAt) && ReachesDescendants(s, t, origin, r, added)
    requires MarkersKnown(s) && IsFresh(s, r.id) && !IsPropagated(r)
    ensures added.Keys == {origin} + Lineage.Descendants(ParentsOf(s.branches), s.createdAt, origin)
    ensures MarkersKnown(t)
  {
    var D := Lineage.Descendants(ParentsOf(s.branches), s.createdAt, origin);
    AllDescendantsInheritIff(s, t, origin, r, added);
    forall b | b in D
      ensures !HasMarker(s.branches[b], Marker(r.id))
    {
      FreshIsUnmarked(s, r.id, b);
    }
    SpreadKeepsMarkers(s, t, origin, r, added);
  }

  /** So in every such run a fresh original counterexample reaches them all. */
  lemma EveryRunReachesDescendants(
    ops: seq<Operation>, t: State, origin: string, r: CounterexampleRecord, added: Added)
    requires DrawsFreshIds(ops) && AllKeepPrefix(ops) && IsFresh(Run(ops), r.id) && !IsPropagated(r)
    requires Lineage.IsForest(ParentsOf(Run(ops).branches), Run(ops).createdAt)
    requires ReachesDescendants(Run(ops), t, origin, r, added)
    ensures added.Keys == {origin} + Lineage.Descendants(ParentsOf(Run(ops).branches), Run(ops).createdAt, origin)
  {
    EveryRunKnowsMarkers(ops);
    EveryDescendantInherits(Run(ops), t, origin, r, added);
  }

  lemma ReceivingKeepsNodes(s: State, t: State, added: Added, b: string)
    requires Receives(s, t, added) && b in added
    ensures s.graph.nodes.Keys <= t.graph.nodes.Keys && added[b].id in t.graph.nodes
  {
    assert IsStored(s.graph.nodes, t.graph.nodes, s.branches, added, b);
  }

  lemma ReceivedSources(s: State, t: State, added: Added, b: string, r: CounterexampleRecord)
    requires Receives(s, t, added) && b in t.branches && r in t.branches[b].counterexamples
    ensures r in s.branches[b].counterexamples || (b in added && r == added[b])
  {
    hide GraphGain;
    assert IsReceived(s.branches, t.branches, added, b);
  }

  lemma SpreadKeepsMarkers(s: State, t: State, origin: string, r: CounterexampleRecord, added: Added)
    requires Lineage.IsForest(ParentsOf(s.branches), s.createdAt) && ReachesDescendants(s, t, origin, r, added)
    requires MarkersKnown(s) && !IsPropagated(r)
    ensures MarkersKnown(t)
  {
    hide Lineage.IsForest, Lineage.Descendants, ParentsOf, Receives, Unmarked;
    ReceivingKeepsNodes(s, t, added, origin);
    forall b, x | b in t.branches && x in t.branches[b].counterexamples
      ensures IsKnownMarker(t.graph, x)
    {
      ReceivedSources(s, t, added, b, x);
      if b in added && x == added[b] {
        if b != origin {
          assert b in added - {origin};
          MarkerNamesId(x, r.id);
        }
      } else {
        SameKeys(s, t, added);
        assert IsKnownMarker(s.graph, x);
      }
    }
  }

  lemma SameKeys(s: State, t: State, added: Added)
    requires Receives(s, t, added)
    ensures t.branches.Keys == s.branches.Keys
  {
  }

  /** Propagating a stored counterexample keeps the markers known as well. */
  lemma PropagationKeepsMarkers(s: State, t: State, origin: string, id: string, D: set<string>, added: Added)
    requires Invariant(s) && MarkersKnown(s) && Propagates(s, t, origin, id, D, added)
    ensures MarkersKnown(t)
  {
    hide Lineage.IsForest, Lineage.Descendants, ParentsOf, Receives, Unmarked;
    var source := s.branches[origin].counterexamples[FindCounterexample(s.branches[origin].counterexamples, id).value];
    CounterexampleIsStored(s, origin, source);
    hide Invariant;
    SameKeys(s, t, added);
    forall b, x | b in t.branches && x in t.branches[b].counterexamples
      ensures IsKnownMarker(t.graph, x)
    {
      ReceivedSources(s, t, added, b, x);
      NodesGrow(s, t, added);
      if b in added && x == added[b] {
        MarkerNamesId(x, source.id);
      } else {
        assert IsKnownMarker(s.graph, x);
      }
    }
  }

  lemma NodesGrow(s: State, t: State, added: Added)
    requires Receives(s, t, added)
    ensures s.graph.nodes.Keys <= t.graph.nodes.Keys
  {
  }

  /** Whoever receives an unresolved counterexample ends blocked, unless its status
      is terminal, and has one record more than before. */
  lemma ReceiversAreBlocked(s: State, t: State, origin: string, r: CounterexampleRecord, added: Added, b: string)
    requires Lineage.IsForest(ParentsOf(s.branches), s.createdAt) && ReachesDescendants(s, t, origin, r, added)
    requires !r.resolved && b in added
    ensures b in s.branches && b in t.branches
    ensures t.branches[b].counterexamples == s.branches[b].counterexamples + [added[b]]
    ensures t.branches[b].status == if IsTerminal(s.branches[b].status) then s.branches[b].status else Blocked
  {
    hide Lineage.IsForest, Lineage.Descendants, ParentsOf, Unmarked, GraphGain, Touch;
    assert IsReceived(s.branches, t.branches, added, b);
    assert !added[b].resolved by {
      if b != origin {
        assert b in added - {origin};
      }
    }
    UnresolvedBlocks(s.branches[b], added[b]);
  }
}
