/** The evidence DAG as values. */
module EvidenceGraph {
  import opened Wrappers
  import opened Schema
  import opened GraphTheory

  // Every operation of the store is a function from graph to graph. The lemmas say
  // what each of them keeps, and exactly when an edge is refused.

  datatype Graph = Graph(nodes: map<string, Node>, edges: seq<Edge>)

  const Empty := Graph(map[], [])

  function ClaimId(branch: string): string { "claim:" + branch }

  function ResultId(branch: string): string { "result:" + branch }

  predicate IsTriple(e: Edge, source: string, target: string, kind: EdgeKind) {
    e.source == source && e.target == target && e.kind == kind
  }

  predicate HasTriple(edges: seq<Edge>, source: string, target: string, kind: EdgeKind) {
    exists e :: e in edges && IsTriple(e, source, target, kind)
  }

  predicate UniqueTriples(edges: seq<Edge>) {
    forall i, j :: 0 <= i < j < |edges| ==> !IsTriple(edges[i], edges[j].source, edges[j].target, edges[j].kind)
  }

  predicate KeyedById(nodes: map<string, Node>) {
    forall id :: id in nodes ==> nodes[id].id == id
  }

  /** The invariant of the store. */
  ghost predicate IsDag(g: Graph) {
    && KeyedById(g.nodes)
    && Closed(g.nodes.Keys, g.edges)
    && UniqueTriples(g.edges)
    && !HasCycle(g.edges)
  }

  // ----- the operations

  function PutNode(g: Graph, node: Node): Graph {
    g.(nodes := g.nodes[node.id := node])
  }

  ghost function EnsureEdge(g: Graph, e: Edge): (Graph, Outcome) {
    if e.source == e.target then (g, Err(SelfLoop))
    else if e.source !in g.nodes then (g, Err(UnknownNode(e.source)))
    else if e.target !in g.nodes then (g, Err(UnknownNode(e.target)))
    else if HasTriple(g.edges, e.source, e.target, e.kind) then (g, Ok)
    else if HasCycle(g.edges + [e]) then (g, Err(WouldCycle))
    else (g.(edges := g.edges + [e]), Ok)
  }

  ghost function Attach(
    g: Graph, node: Node, target: string, kind: EdgeKind, branch: Option<string>): (Graph, Outcome)
  {
    EnsureEdge(PutNode(g, node), Edge(node.id, target, kind, branch))
  }

  function ClaimNode(branch: Branch): Node {
    Node(ClaimId(branch.id), Some(branch.id), Claim, branch.hypothesis, Plain)
  }

  ghost function EnsureBranch(g: Graph, branch: Branch): (Graph, Outcome) {
    var g1 := PutNode(g, ClaimNode(branch));
    if branch.parent.Some? && ClaimId(branch.parent.value) in g1.nodes then
      EnsureEdge(g1, Edge(ClaimId(branch.id), ClaimId(branch.parent.value), ForkedFrom, Some(branch.id)))
    else (g1, Ok)
  }

  /** add_evidence, add_counterexample, add_experiment and add_review: the claim,
      then the record's node, then its typed edge into the claim. */
  ghost function AddRecord(g: Graph, branch: Branch, node: Node, kind: EdgeKind): (Graph, Outcome) {
    var (g1, r1) := EnsureBranch(g, branch);
    if r1.Err? then (g1, r1)
    else Attach(g1, node, ClaimId(branch.id), kind, Some(branch.id))
  }

  function EvidenceNode(branch: string, r: EvidenceRecord): Node {
    Node(r.id, Some(branch), Evidence, r.claim, Plain)
  }

  function CounterexampleNode(branch: string, r: CounterexampleRecord): Node {
    Node(r.id, Some(branch), Counterexample, r.description, CounterexampleData(r.resolved, r.resolution))
  }

  function ExperimentNode(branch: string, r: ExperimentRecord): Node {
    Node(r.id, Some(branch), Experiment, r.protocol, ExperimentData(r.status, r.actualResult))
  }

  function ReviewNode(branch: string, r: ReviewRecord): Node {
    Node(r.id, Some(branch), Review, r.summary, Plain)
  }

  function ResultNode(branch: string, statement: string): Node {
    Node(ResultId(branch), Some(branch), Result, statement, Plain)
  }

  function UpdateMetadata(g: Graph, id: string, metadata: Metadata): (Graph, Outcome) {
    if id !in g.nodes then (g, Err(UnknownNode(id)))
    else (g.(nodes := g.nodes[id := g.nodes[id].(metadata := metadata)]), Ok)
  }

  /** One derived_from edge per record, stopping at the first refusal; edges
      added before it stay. */
  ghost function DeriveAll(g: Graph, source: string, ids: seq<string>, branch: string): (Graph, Outcome)
    decreases |ids|
  {
    if ids == [] then (g, Ok)
    else
      var (g1, r1) := EnsureEdge(g, Edge(source, ids[0], DerivedFrom, Some(branch)));
      if r1.Err? then (g1, r1) else DeriveAll(g1, source, ids[1..], branch)
  }

  function EvidenceIds(s: seq<EvidenceRecord>): seq<string> {
    seq(|s|, i requires 0 <= i < |s| => s[i].id)
  }

  function ExperimentIds(s: seq<ExperimentRecord>): seq<string> {
    seq(|s|, i requires 0 <= i < |s| => s[i].id)
  }

  function RecordIds(branch: Branch): seq<string> {
    EvidenceIds(branch.evidence) + ExperimentIds(branch.experiments)
  }

  ghost function SetResult(g: Graph, branch: Branch): (Graph, Outcome) {
    if branch.result.None? || branch.result.value == "" then (g, Ok)
    else
      var (g1, r1) := EnsureBranch(g, branch);
      if r1.Err? then (g1, r1)
      else
        DeriveAll(PutNode(g1, ResultNode(branch.id, branch.result.value)), ResultId(branch.id), RecordIds(branch),
          branch.id)
  }

  ghost function AddKnowledge(g: Graph, id: string, branch: string, statement: string): (Graph, Outcome) {
    var g1 := PutNode(g, Node(id, Some(branch), Knowledge, statement, Plain));
    var target := if ResultId(branch) in g1.nodes then ResultId(branch) else ClaimId(branch);
    if target in g1.nodes then EnsureEdge(g1, Edge(id, target, DerivedFrom, Some(branch))) else (g1, Ok)
  }

  ghost function AddChallenge(
    g: Graph, id: string, knowledge: string, branch: Option<string>, statement: string): (Graph, Outcome)
  {
    if knowledge !in g.nodes then (g, Err(UnknownNode(knowledge)))
    else Attach(g, Node(id, branch, Challenge, statement, Plain), knowledge, Challenges, branch)
  }

  ghost function LinkTransition(g: Graph, newId: string, oldId: string, kind: EdgeKind): (Graph, Outcome) {
    EnsureEdge(g, Edge(newId, oldId, kind, if newId in g.nodes then g.nodes[newId].branch else None))
  }

  ghost function AddEdge(g: Graph, source: string, target: string, kind: EdgeKind): (Graph, Outcome) {
    if source !in g.nodes then (g, Err(UnknownNode(source)))
    else EnsureEdge(g, Edge(source, target, kind, g.nodes[source].branch))
  }

  // ----- what every operation keeps

  /** Nodes are never removed and edges are only appended. */
  predicate Extends(g: Graph, h: Graph) {
    g.nodes.Keys <= h.nodes.Keys && g.edges <= h.edges
  }

  lemma EnsureEdgeKeepsDag(g: Graph, e: Edge)
    requires IsDag(g)
    ensures IsDag(EnsureEdge(g, e).0) && Extends(g, EnsureEdge(g, e).0)
    ensures EnsureEdge(g, e).0.nodes == g.nodes
    ensures EnsureEdge(g, e).1.Err? ==> EnsureEdge(g, e).0 == g
    ensures EnsureEdge(g, e).1.Ok? ==> HasTriple(EnsureEdge(g, e).0.edges, e.source, e.target, e.kind)
  {
    var h := EnsureEdge(g, e).0;
    if h != g {
      assert e in h.edges;
      assert forall i :: 0 <= i < |g.edges| ==> g.edges[i] in g.edges;
    }
  }

  /** Exactly when an edge is refused, in terms a caller can check beforehand. */
  lemma EdgeAcceptedIff(g: Graph, e: Edge)
    requires IsDag(g)
    ensures EnsureEdge(g, e).1.Ok? <==>
              && e.source != e.target && e.source in g.nodes && e.target in g.nodes
              && (HasTriple(g.edges, e.source, e.target, e.kind) || !Reaches(g.edges, e.target, e.source))
  {
    NewEdgeCyclesIffReturnPath(g.edges, e);
  }

  lemma PutNodeKeepsDag(g: Graph, node: Node)
    requires IsDag(g)
    ensures IsDag(PutNode(g, node)) && Extends(g, PutNode(g, node))
  {
  }

  /** A node that is new to the graph is never refused its first edge. */
  lemma FreshNodeIsAccepted(g: Graph, node: Node, target: string, kind: EdgeKind, branch: Option<string>)
    requires IsDag(g)
    requires node.id !in g.nodes && target in g.nodes
    ensures Attach(g, node, target, kind, branch)
         == (Graph(g.nodes[node.id := node], g.edges + [Edge(node.id, target, kind, branch)]), Ok)
  {
    var e := Edge(node.id, target, kind, branch);
    UnenteredSourceNeverCycles(g.edges, e);
  }

  lemma AttachKeepsDag(g: Graph, node: Node, target: string, kind: EdgeKind, branch: Option<string>)
    requires IsDag(g)
    ensures IsDag(Attach(g, node, target, kind, branch).0) && Extends(g, Attach(g, node, target, kind, branch).0)
  {
    PutNodeKeepsDag(g, node);
    EnsureEdgeKeepsDag(PutNode(g, node), Edge(node.id, target, kind, branch));
  }

  lemma EnsureBranchKeepsDag(g: Graph, branch: Branch)
    requires IsDag(g)
    ensures IsDag(EnsureBranch(g, branch).0) && Extends(g, EnsureBranch(g, branch).0)
    ensures EnsureBranch(g, branch).0.nodes == g.nodes[ClaimId(branch.id) := ClaimNode(branch)]
  {
    var g1 := PutNode(g, ClaimNode(branch));
    PutNodeKeepsDag(g, ClaimNode(branch));
    if branch.parent.Some? {
      EnsureEdgeKeepsDag(g1, Edge(ClaimId(branch.id), ClaimId(branch.parent.value), ForkedFrom, Some(branch.id)));
    }
  }

  lemma AddRecordKeepsDag(g: Graph, branch: Branch, node: Node, kind: EdgeKind)
    requires IsDag(g)
    ensures IsDag(AddRecord(g, branch, node, kind).0) && Extends(g, AddRecord(g, branch, node, kind).0)
  {
    EnsureBranchKeepsDag(g, branch);
    var (g1, r1) := EnsureBranch(g, branch);
    PutNodeKeepsDag(g1, node);
    EnsureEdgeKeepsDag(PutNode(g1, node), Edge(node.id, ClaimId(branch.id), kind, Some(branch.id)));
  }

  lemma {:induction false} DeriveAllKeepsDag(g: Graph, source: string, ids: seq<string>, branch: string)
    requires IsDag(g)
    ensures IsDag(DeriveAll(g, source, ids, branch).0) && Extends(g, DeriveAll(g, source, ids, branch).0)
    ensures DeriveAll(g, source, ids, branch).0.nodes == g.nodes
    decreases |ids|
  {
    if ids != [] {
      var e := Edge(source, ids[0], DerivedFrom, Some(branch));
      EnsureEdgeKeepsDag(g, e);
      var (g1, r1) := EnsureEdge(g, e);
      if r1.Ok? {
        DeriveAllKeepsDag(g1, source, ids[1..], branch);
      }
    }
  }

  lemma SetResultKeepsDag(g: Graph, branch: Branch)
    requires IsDag(g)
    ensures IsDag(SetResult(g, branch).0) && Extends(g, SetResult(g, branch).0)
  {
    if branch.result.Some? && branch.result.value != "" {
      EnsureBranchKeepsDag(g, branch);
      var (g1, r1) := EnsureBranch(g, branch);
      var node := ResultNode(branch.id, branch.result.value);
      PutNodeKeepsDag(g1, node);
      DeriveAllKeepsDag(PutNode(g1, node), ResultId(branch.id), RecordIds(branch), branch.id);
    }
  }

  // ----- runs

  datatype Operation =
    | BranchOp(branch: Branch)
    | RecordOp(branch: Branch, node: Node, kind: EdgeKind)
    | CouncilOp(branchId: string, node: Node)
    | MetadataOp(id: string, metadata: Metadata)
    | ResultOp(branch: Branch)
    | KnowledgeOp(id: string, branchId: string, statement: string)
    | ChallengeOp(id: string, knowledge: string, branchOption: Option<string>, statement: string)
    | PutOp(node: Node)
    | LinkOp(newId: string, oldId: string, kind: EdgeKind)
    | EdgeOp(source: string, target: string, kind: EdgeKind)

  ghost function Apply(g: Graph, op: Operation): (Graph, Outcome) {
    match op
    case BranchOp(b) => EnsureBranch(g, b)
    case RecordOp(b, node, kind) => AddRecord(g, b, node, kind)
    case CouncilOp(b, node) => Attach(g, node, ClaimId(b), Reviews, Some(b))
    case MetadataOp(id, metadata) => UpdateMetadata(g, id, metadata)
    case ResultOp(b) => SetResult(g, b)
    case KnowledgeOp(id, b, statement) => AddKnowledge(g, id, b, statement)
    case ChallengeOp(id, knowledge, b, statement) => AddChallenge(g, id, knowledge, b, statement)
    case PutOp(node) => (PutNode(g, node), Ok)
    case LinkOp(newId, oldId, kind) => LinkTransition(g, newId, oldId, kind)
    case EdgeOp(source, target, kind) => AddEdge(g, source, target, kind)
  }

  ghost function Run(ops: seq<Operation>): Graph {
    if ops == [] then Empty else Apply(Run(ops[..|ops| - 1]), ops[|ops| - 1]).0
  }

  lemma ApplyKeepsDag(g: Graph, op: Operation)
    requires IsDag(g)
    ensures IsDag(Apply(g, op).0) && Extends(g, Apply(g, op).0)
  {
    match op
    case BranchOp(b) => EnsureBranchKeepsDag(g, b);
    case RecordOp(b, node, kind) => AddRecordKeepsDag(g, b, node, kind);
    case CouncilOp(b, node) => AttachKeepsDag(g, node, ClaimId(b), Reviews, Some(b));
    case MetadataOp(id, metadata) =>
    case ResultOp(b) => SetResultKeepsDag(g, b);
    case KnowledgeOp(id, b, statement) =>
      var node := Node(id, Some(b), Knowledge, statement, Plain);
      var g1 := PutNode(g, node);
      PutNodeKeepsDag(g, node);
      var target := if ResultId(b) in g1.nodes then ResultId(b) else ClaimId(b);
      EnsureEdgeKeepsDag(g1, Edge(id, target, DerivedFrom, Some(b)));
    case ChallengeOp(id, knowledge, b, statement) =>
      AttachKeepsDag(g, Node(id, b, Challenge, statement, Plain), knowledge, Challenges, b);
    case PutOp(node) =>
    case LinkOp(newId, oldId, kind) =>
      EnsureEdgeKeepsDag(g, Edge(newId, oldId, kind, if newId in g.nodes then g.nodes[newId].branch else None));
    case EdgeOp(source, target, kind) =>
      if source in g.nodes {
        EnsureEdgeKeepsDag(g, Edge(source, target, kind, g.nodes[source].branch));
      }
  }

  lemma EmptyIsDag()
    ensures IsDag(Empty)
  {
    var C := CycleSupport(Empty.edges);
    assert forall v :: v in C ==> HasPred(Empty.edges, C, v);
  }

  /** Whatever is called in whatever order, refused calls included, the graph
      stays a DAG and no node or edge is ever lost. */
  lemma {:induction false} EveryRunIsDag(ops: seq<Operation>, n: nat)
    requires n <= |ops|
    ensures IsDag(Run(ops)) && Extends(Run(ops[..n]), Run(ops))
  {
    if ops == [] {
      EmptyIsDag();
    } else {
      var init := ops[..|ops| - 1];
      EveryRunIsDag(init, if n < |ops| then n else n - 1);
      ApplyKeepsDag(Run(init), ops[|ops| - 1]);
      if n < |ops| {
        assert init[..n] == ops[..n];
      } else {
        assert ops[..n] == ops;
      }
    }
  }

  // ----- when recording a result is refused

  /** Edges leaving `hub` do not change who reaches `hub`. */
  lemma OutEdgesKeepReach(edges: seq<Edge>, e: Edge, a: string)
    ensures Reaches(edges + [e], a, e.source) <==> Reaches(edges, a, e.source)
  {
    MoreEdgesMoreArcs(edges, e);
    if Reaches(edges, a, e.source) {
      var p :| IsWalkBetween(edges, p, a, e.source);
      forall i | 0 <= i < |p| - 1
        ensures HasArc(edges + [e], p[i], p[i + 1])
      {
        assert HasArc(edges, p[i], p[i + 1]);
      }
      assert IsWalkBetween(edges + [e], p, a, e.source);
    }
    if Reaches(edges + [e], a, e.source) {
      var p :| IsWalkBetween(edges + [e], p, a, e.source);
      var k := FirstVisit(p, e.source);
      var q := p[..k + 1];
      forall i | 0 <= i < |q| - 1
        ensures HasArc(edges, q[i], q[i + 1])
      {
        assert HasArc(edges + [e], p[i], p[i + 1]);
      }
      assert IsWalkBetween(edges, q, a, e.source);
    }
  }

  lemma {:induction false} FirstVisit(p: seq<string>, x: string) returns (k: nat)
    requires p != [] && p[|p| - 1] == x
    ensures k < |p| && p[k] == x && x !in p[..k]
  {
    k := 0;
    while p[k] != x
      invariant k < |p| && x !in p[..k]
      decreases |p| - k
    {
      assert p[..k + 1] == p[..k] + [p[k]];
      k := k + 1;
    }
  }

  predicate Derivable(g: Graph, source: string, id: string, reaches: bool) {
    id != source && id in g.nodes && (HasTriple(g.edges, source, id, DerivedFrom) || !reaches)
  }

  /** Recording a result succeeds exactly when every evidence and experiment node
      is known and either is linked already or does not lead to the result. */
  lemma {:induction false} DeriveAllAcceptedIff(g: Graph, source: string, ids: seq<string>, branch: string)
    requires IsDag(g) && source in g.nodes
    ensures DeriveAll(g, source, ids, branch).1.Ok? <==>
              forall id :: id in ids ==> Derivable(g, source, id, Reaches(g.edges, id, source))
    decreases |ids|
  {
    if ids != [] {
      var e := Edge(source, ids[0], DerivedFrom, Some(branch));
      var (g1, r1) := EnsureEdge(g, e);
      EdgeAcceptedIff(g, e);
      EnsureEdgeKeepsDag(g, e);
      assert ids[0] in ids;
      assert forall id :: id in ids <==> id == ids[0] || id in ids[1..];
      if r1.Ok? {
        DeriveAllAcceptedIff(g1, source, ids[1..], branch);
        forall id | id in ids
          ensures Derivable(g1, source, id, Reaches(g1.edges, id, source))
             <==> Derivable(g, source, id, Reaches(g.edges, id, source)) || (id == ids[0] && r1.Ok?)
        {
          TripleStep(g, g1, e, id);
        }
      }
    }
  }

  lemma TripleStep(g: Graph, g1: Graph, e: Edge, id: string)
    requires IsDag(g) && (g1, Ok) == EnsureEdge(g, e)
    requires e.kind == DerivedFrom
    ensures Reaches(g1.edges, id, e.source) <==> Reaches(g.edges, id, e.source)
    ensures HasTriple(g1.edges, e.source, id, DerivedFrom)
       <==> HasTriple(g.edges, e.source, id, DerivedFrom) || id == e.target
    ensures g1.nodes == g.nodes
  {
    if g1 != g {
      assert g1.edges == g.edges + [e];
      OutEdgesKeepReach(g.edges, e, id);
      assert e in g1.edges && IsTriple(e, e.source, e.target, DerivedFrom);
      assert forall x :: x in g1.edges <==> x in g.edges || x == e;
    }
  }

  /** The branch's claim is in the graph, with its lineage edge if it has a parent. */
  predicate IsLinked(g: Graph, branch: Branch) {
    && ClaimId(branch.id) in g.nodes
    && (branch.parent.Some? ==>
          HasTriple(g.edges, ClaimId(branch.id), ClaimId(branch.parent.value), ForkedFrom))
  }

  lemma ClaimIdsDiffer(a: string, b: string)
    ensures ClaimId(a) == ClaimId(b) ==> a == b
    ensures ClaimId(a) != ResultId(b)
    ensures ResultId(a) == ResultId(b) ==> a == b
  {
    assert ClaimId(a)[6..] == a && ClaimId(b)[6..] == b;
    assert ResultId(a)[7..] == a && ResultId(b)[7..] == b;
    assert ClaimId(a)[0] == 'c' && ResultId(b)[0] == 'r';
  }

  lemma LinkedBranchIsAccepted(g: Graph, branch: Branch)
    requires IsDag(g) && IsLinked(g, branch)
    ensures EnsureBranch(g, branch) == (PutNode(g, ClaimNode(branch)), Ok)
  {
    if branch.parent.Some? {
      var e :| e in g.edges && IsTriple(e, ClaimId(branch.id), ClaimId(branch.parent.value), ForkedFrom);
      if e.source == e.target {
        LoopIsCycle(g.edges, e);
      }
    }
  }

  lemma FreshBranchIsAccepted(g: Graph, branch: Branch)
    requires IsDag(g)
    requires ClaimId(branch.id) !in g.nodes
    requires branch.parent.Some? ==> ClaimId(branch.parent.value) in g.nodes
    ensures EnsureBranch(g, branch).1.Ok?
    ensures IsLinked(EnsureBranch(g, branch).0, branch)
  {
    if branch.parent.Some? {
      FreshNodeIsAccepted(g, ClaimNode(branch), ClaimId(branch.parent.value), ForkedFrom, Some(branch.id));
      var e := Edge(ClaimId(branch.id), ClaimId(branch.parent.value), ForkedFrom, Some(branch.id));
      var h := EnsureBranch(g, branch).0;
      assert h.edges[|h.edges| - 1] == e;
      assert e in h.edges && IsTriple(e, e.source, e.target, ForkedFrom);
    }
  }

  /** Attaching a fresh record to a linked branch always succeeds, and the effect
      is exactly two nodes written and one edge appended. */
  lemma FreshRecordIsAccepted(g: Graph, branch: Branch, node: Node, kind: EdgeKind)
    requires IsDag(g) && IsLinked(g, branch) && node.id !in g.nodes
    ensures AddRecord(g, branch, node, kind)
         == (Graph(g.nodes[ClaimId(branch.id) := ClaimNode(branch)][node.id := node],
                   g.edges + [Edge(node.id, ClaimId(branch.id), kind, Some(branch.id))]), Ok)
  {
    LinkedBranchIsAccepted(g, branch);
    var g1 := PutNode(g, ClaimNode(branch));
    PutNodeKeepsDag(g, ClaimNode(branch));
    FreshNodeIsAccepted(g1, node, ClaimId(branch.id), kind, Some(branch.id));
  }

  /** Exactly when recording a result goes through. */
  lemma SetResultAcceptedIff(g: Graph, branch: Branch)
    requires IsDag(g) && IsLinked(g, branch)
    requires branch.result.Some? && branch.result.value != ""
    ensures SetResult(g, branch).1.Ok? <==>
              forall id :: id in RecordIds(branch) ==>
                && id != ResultId(branch.id)
                && (id in g.nodes || id == ClaimId(branch.id))
                && (HasTriple(g.edges, ResultId(branch.id), id, DerivedFrom)
                     || !Reaches(g.edges, id, ResultId(branch.id)))
  {
    LinkedBranchIsAccepted(g, branch);
    var g1 := PutNode(g, ClaimNode(branch));
    var node := ResultNode(branch.id, branch.result.value);
    var g2 := PutNode(g1, node);
    PutNodeKeepsDag(g, ClaimNode(branch));
    PutNodeKeepsDag(g1, node);
    DeriveAllAcceptedIff(g2, ResultId(branch.id), RecordIds(branch), branch.id);
    assert forall id :: id in RecordIds(branch) ==>
      (Derivable(g2, ResultId(branch.id), id, Reaches(g2.edges, id, ResultId(branch.id))) <==>
         && id != ResultId(branch.id)
         && (id in g.nodes || id == ClaimId(branch.id))
         && (HasTriple(g.edges, ResultId(branch.id), id, DerivedFrom) || !Reaches(g.edges, id, ResultId(branch.id))));
  }

  /** The first result of a branch is never refused. */
  lemma FirstResultIsAccepted(g: Graph, branch: Branch)
    requires IsDag(g) && IsLinked(g, branch)
    requires branch.result.Some? && branch.result.value != ""
    requires ResultId(branch.id) !in g.nodes
    requires forall id :: id in RecordIds(branch) ==> id in g.nodes
    ensures SetResult(g, branch).1.Ok?
  {
    SetResultAcceptedIff(g, branch);
    forall id | id in RecordIds(branch)
      ensures !Reaches(g.edges, id, ResultId(branch.id))
    {
      if Reaches(g.edges, id, ResultId(branch.id)) {
        var e := ReachedIsEntered(g.edges, id, ResultId(branch.id));
      }
    }
  }

  /** A repeated result can be refused: evidence attached after the first result
      may be linked to it by hand, and recording the result again then fails. */
  lemma LaterEvidenceCanBlockTheResult(g: Graph, branch: Branch, record: EvidenceRecord, h: Graph)
    requires IsDag(g) && IsLinked(g, branch)
    requires branch.result.Some? && branch.result.value != ""
    requires ResultId(branch.id) in g.nodes && record.id !in g.nodes && record in branch.evidence
    requires h == AddRecord(g, branch, EvidenceNode(branch.id, record), Supports).0
    ensures AddEdge(h, record.id, ResultId(branch.id), Supports).1.Ok?
    ensures SetResult(AddEdge(h, record.id, ResultId(branch.id), Supports).0, branch).1.Err?
  {
    var node := EvidenceNode(branch.id, record);
    FreshRecordIsAccepted(g, branch, node, Supports);
    AddRecordKeepsDag(g, branch, node, Supports);
    NoWayBack(g, h, branch, record.id);
    var e := Edge(record.id, ResultId(branch.id), Supports, h.nodes[record.id].branch);
    EdgeAcceptedIff(h, e);
    EnsureEdgeKeepsDag(h, e);
    var k := EnsureEdge(h, e).0;
    assert HasTriple(k.edges, record.id, ResultId(branch.id), Supports);
    assert HasArc(k.edges, record.id, ResultId(branch.id));
    ReachesItself(k.edges, record.id);
    ReachesStep(k.edges, record.id, record.id, ResultId(branch.id));
    SetResultAcceptedIff(k, branch);
    var i :| 0 <= i < |branch.evidence| && branch.evidence[i] == record;
    assert RecordIds(branch)[i] == record.id;
    NoTripleToFreshRecord(g, h, k, branch, record.id);
  }

  lemma NoWayBack(g: Graph, h: Graph, branch: Branch, id: string)
    requires IsDag(g) && id !in g.nodes && ResultId(branch.id) in g.nodes
    requires h.edges == g.edges + [Edge(id, ClaimId(branch.id), Supports, Some(branch.id))]
    requires ClaimId(branch.id) in g.nodes
    ensures !Reaches(h.edges, ResultId(branch.id), id)
  {
    assert forall e :: e in h.edges ==> e.target in g.nodes;
    if Reaches(h.edges, ResultId(branch.id), id) {
      var e := ReachedIsEntered(h.edges, ResultId(branch.id), id);
    }
  }

  lemma NoTripleToFreshRecord(g: Graph, h: Graph, k: Graph, branch: Branch, id: string)
    requires IsDag(g) && id !in g.nodes && ResultId(branch.id) in g.nodes && ClaimId(branch.id) in g.nodes
    requires h.edges == g.edges + [Edge(id, ClaimId(branch.id), Supports, Some(branch.id))]
    requires k.edges == h.edges || exists b :: k.edges == h.edges + [Edge(id, ResultId(branch.id), Supports, b)]
    ensures !HasTriple(k.edges, ResultId(branch.id), id, DerivedFrom)
  {
  }
}
