/** What each operation of the evidence graph stores, field by field. */
module EvidenceEffects {
  import opened Wrappers
  import opened Schema
  import opened GraphTheory
  import opened EvidenceGraph

  /** One edge more, or none if the same triple is there already; no node changes. */
  lemma EdgeIsStored(g: Graph, e: Edge)
    requires IsDag(g) && EnsureEdge(g, e).1.Ok?
    ensures EnsureEdge(g, e).0.nodes == g.nodes
    ensures EnsureEdge(g, e).0.edges
         == if exists x :: x in g.edges && x.source == e.source && x.target == e.target && x.kind == e.kind
            then g.edges else g.edges + [e]
  {
    if HasTriple(g.edges, e.source, e.target, e.kind) {
      var x :| x in g.edges && IsTriple(x, e.source, e.target, e.kind);
    } else {
      forall x | x in g.edges
        ensures !(x.source == e.source && x.target == e.target && x.kind == e.kind)
      {
        assert !IsTriple(x, e.source, e.target, e.kind);
      }
    }
  }

  function ClaimOf(b: Branch): Node {
    Node("claim:" + b.id, Some(b.id), Claim, b.hypothesis, Plain)
  }

  function ResultOf(b: Branch, statement: string): Node {
    Node("result:" + b.id, Some(b.id), Result, statement, Plain)
  }

  /** A new branch gets its claim and, under a parent whose claim is known, one edge
      from it to the parent's claim. */
  lemma BranchIsStored(g: Graph, b: Branch)
    requires IsDag(g) && ("claim:" + b.id) !in g.nodes && b.parent != Some(b.id)
    ensures EnsureBranch(g, b).1.Ok?
    ensures EnsureBranch(g, b).0.nodes == g.nodes["claim:" + b.id := ClaimOf(b)]
    ensures EnsureBranch(g, b).0.edges
         == if b.parent.Some? && ("claim:" + b.parent.value) in g.nodes
            then g.edges + [Edge("claim:" + b.id, "claim:" + b.parent.value, ForkedFrom, Some(b.id))]
            else g.edges
  {
    if b.parent.Some? {
      ClaimIdsDiffer(b.id, b.parent.value);
      if ClaimId(b.parent.value) in g.nodes {
        FreshNodeIsAccepted(g, ClaimNode(b), ClaimId(b.parent.value), ForkedFrom, Some(b.id));
      }
    }
  }

  /** A fresh record of a linked branch is stored with its edge into the claim. */
  lemma RecordIsStored(g: Graph, b: Branch, node: Node, kind: EdgeKind)
    requires IsDag(g) && IsLinked(g, b) && node.id !in g.nodes
    ensures AddRecord(g, b, node, kind).1.Ok?
    ensures AddRecord(g, b, node, kind).0.nodes == g.nodes["claim:" + b.id := ClaimOf(b)][node.id := node]
    ensures AddRecord(g, b, node, kind).0.edges == g.edges + [Edge(node.id, "claim:" + b.id, kind, Some(b.id))]
  {
    FreshRecordIsAccepted(g, b, node, kind);
  }

  lemma MetadataIsStored(g: Graph, id: string, metadata: Metadata)
    ensures UpdateMetadata(g, id, metadata).1.Ok? <==> id in g.nodes
    ensures UpdateMetadata(g, id, metadata).0.edges == g.edges
    ensures UpdateMetadata(g, id, metadata).0.nodes.Keys == g.nodes.Keys
    ensures forall x :: x in g.nodes ==>
              UpdateMetadata(g, id, metadata).0.nodes[x]
              == if x == id then g.nodes[x].(metadata := metadata) else g.nodes[x]
  {
  }

  // ----- results

  lemma {:induction false} DerivedEdges(g: Graph, source: string, ids: seq<string>, branch: string)
    requires IsDag(g) && DeriveAll(g, source, ids, branch).1.Ok?
    ensures var h := DeriveAll(g, source, ids, branch).0;
            && g.edges <= h.edges
            && (forall id :: id in ids ==> HasTriple(h.edges, source, id, DerivedFrom))
            && (forall k :: |g.edges| <= k < |h.edges| ==>
                  h.edges[k].target in ids && h.edges[k] == Edge(source, h.edges[k].target, DerivedFrom, Some(branch)))
    decreases |ids|
  {
    if ids != [] {
      var e := Edge(source, ids[0], DerivedFrom, Some(branch));
      EnsureEdgeKeepsDag(g, e);
      var (g1, r1) := EnsureEdge(g, e);
      DerivedEdges(g1, source, ids[1..], branch);
      var h := DeriveAll(g, source, ids, branch).0;
      var x :| x in g1.edges && IsTriple(x, source, ids[0], DerivedFrom);
      assert x in h.edges;
      assert forall id :: id in ids <==> id == ids[0] || id in ids[1..];
      forall k | |g.edges| <= k < |h.edges|
        ensures h.edges[k].target in ids && h.edges[k] == Edge(source, h.edges[k].target, DerivedFrom, Some(branch))
      {
        if k < |g1.edges| {
          assert h.edges[k] == g1.edges[k] == e;
        }
      }
    }
  }

  predicate IsEvidenceOrExperiment(b: Branch, id: string) {
    (exists r :: r in b.evidence && r.id == id) || (exists r :: r in b.experiments && r.id == id)
  }

  lemma RecordIdsAre(b: Branch, id: string)
    ensures id in RecordIds(b) <==> IsEvidenceOrExperiment(b, id)
  {
    var e, x := EvidenceIds(b.evidence), ExperimentIds(b.experiments);
    assert id in RecordIds(b) <==> id in e || id in x;
    if id in e {
      var i :| 0 <= i < |e| && e[i] == id;
      assert b.evidence[i] in b.evidence;
    }
    if id in x {
      var i :| 0 <= i < |x| && x[i] == id;
      assert b.experiments[i] in b.experiments;
    }
    if r :| r in b.evidence && r.id == id {
      var i :| 0 <= i < |b.evidence| && b.evidence[i] == r;
      assert e[i] == id;
    }
    if r :| r in b.experiments && r.id == id {
      var i :| 0 <= i < |b.experiments| && b.experiments[i] == r;
      assert x[i] == id;
    }
  }

  /** A recorded result is stored with its statement and derives from every evidence
      record and every experiment of the branch, and from nothing else; an empty
      result changes nothing. */
  lemma ResultIsStored(g: Graph, b: Branch)
    requires IsDag(g) && IsLinked(g, b) && SetResult(g, b).1.Ok?
    ensures var h := SetResult(g, b).0;
            if b.result.None? || b.result.value == "" then h == g
            else
              && h.nodes == g.nodes["claim:" + b.id := ClaimOf(b)]["result:" + b.id := ResultOf(b, b.result.value)]
              && g.edges <= h.edges
              && (forall id :: IsEvidenceOrExperiment(b, id) ==>
                    HasTriple(h.edges, "result:" + b.id, id, DerivedFrom))
              && forall k :: |g.edges| <= k < |h.edges| ==>
                   && IsEvidenceOrExperiment(b, h.edges[k].target)
                   && h.edges[k] == Edge("result:" + b.id, h.edges[k].target, DerivedFrom, Some(b.id))
  {
    if b.result.Some? && b.result.value != "" {
      LinkedBranchIsAccepted(g, b);
      var g1 := PutNode(g, ClaimNode(b));
      var node := ResultNode(b.id, b.result.value);
      PutNodeKeepsDag(g, ClaimNode(b));
      PutNodeKeepsDag(g1, node);
      DerivedEdges(PutNode(g1, node), ResultId(b.id), RecordIds(b), b.id);
      DeriveAllKeepsDag(PutNode(g1, node), ResultId(b.id), RecordIds(b), b.id);
      forall id
        ensures id in RecordIds(b) <==> IsEvidenceOrExperiment(b, id)
      {
        RecordIdsAre(b, id);
      }
      hide IsEvidenceOrExperiment, RecordIds, DeriveAll;
    }
  }

  // ----- knowledge and what happens to it

  /** Accepted knowledge derives from the branch's result, or from its claim if there
      is no result yet. */
  lemma KnowledgeIsStored(g: Graph, id: string, b: string, statement: string)
    requires IsDag(g) && id !in g.nodes && id != "result:" + b && id != "claim:" + b
    ensures AddKnowledge(g, id, b, statement).1.Ok?
    ensures AddKnowledge(g, id, b, statement).0.nodes
         == g.nodes[id := Node(id, Some(b), Knowledge, statement, Plain)]
    ensures AddKnowledge(g, id, b, statement).0.edges
         == if ("result:" + b) in g.nodes then g.edges + [Edge(id, "result:" + b, DerivedFrom, Some(b))]
            else if ("claim:" + b) in g.nodes then g.edges + [Edge(id, "claim:" + b, DerivedFrom, Some(b))]
            else g.edges
  {
    var node := Node(id, Some(b), Knowledge, statement, Plain);
    if ResultId(b) in g.nodes {
      FreshNodeIsAccepted(g, node, ResultId(b), DerivedFrom, Some(b));
    } else if ClaimId(b) in g.nodes {
      FreshNodeIsAccepted(g, node, ClaimId(b), DerivedFrom, Some(b));
    }
  }

  /** A challenge is stored with its edge to the challenged item, or refused because
      there is no such item. */
  lemma ChallengeIsStored(g: Graph, id: string, knowledge: string, b: Option<string>, statement: string)
    requires IsDag(g) && id !in g.nodes
    ensures AddChallenge(g, id, knowledge, b, statement).1.Ok? <==> knowledge in g.nodes
    ensures AddChallenge(g, id, knowledge, b, statement).0
         == if knowledge in g.nodes
            then Graph(g.nodes[id := Node(id, b, Challenge, statement, Plain)],
                       g.edges + [Edge(id, knowledge, Challenges, b)])
            else g
  {
    if knowledge in g.nodes {
      FreshNodeIsAccepted(g, Node(id, b, Challenge, statement, Plain), knowledge, Challenges, b);
    }
  }

  /** A council review is stored with its edge to the claim it is about. */
  lemma CouncilReviewIsStored(g: Graph, b: string, node: Node)
    requires IsDag(g) && node.id !in g.nodes && ("claim:" + b) in g.nodes
    ensures Apply(g, CouncilOp(b, node))
         == (Graph(g.nodes[node.id := node], g.edges + [Edge(node.id, "claim:" + b, Reviews, Some(b))]), Ok)
  {
    FreshNodeIsAccepted(g, node, ClaimId(b), Reviews, Some(b));
  }

  /** Edges drawn by callers and between versions carry the branch of their source. */
  lemma DrawnEdgeIsStored(g: Graph, source: string, target: string, kind: EdgeKind)
    requires IsDag(g) && source in g.nodes && target in g.nodes && source != target
    requires !HasTriple(g.edges, source, target, kind) && !Reaches(g.edges, target, source)
    ensures AddEdge(g, source, target, kind)
         == (Graph(g.nodes, g.edges + [Edge(source, target, kind, g.nodes[source].branch)]), Ok)
    ensures LinkTransition(g, source, target, kind) == AddEdge(g, source, target, kind)
  {
    EdgeAcceptedIff(g, Edge(source, target, kind, g.nodes[source].branch));
  }
}
