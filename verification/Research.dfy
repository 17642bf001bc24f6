/** The research store as values: branches with their records, and the evidence
    graph that mirrors them. Every operation of the service is a function on
    this state; new ids are arguments that the caller draws fresh. */
module Research {
  import opened Wrappers
  import opened Schema
  import G = EvidenceGraph
  import Lineage

  /** `createdAt` orders branches by creation; `accepted` maps knowledge to its branch. */
  datatype State = State(
    branches: map<string, Branch>, createdAt: map<string, nat>, graph: G.Graph, accepted: map<string, string>)

  const Initial := State(map[], map[], G.Empty, map[])

  function ParentsOf(branches: map<string, Branch>): Lineage.Parents {
    map b | b in branches :: branches[b].parent
  }

  // ----- status

  predicate IsTerminal(status: BranchStatus) {
    status in {Verified, Rejected, Archived}
  }

  predicate HasUnresolved(b: Branch) {
    exists i :: 0 <= i < |b.counterexamples| && !b.counterexamples[i].resolved
  }

  function Touch(b: Branch): Branch {
    if IsTerminal(b.status) then b
    else if HasUnresolved(b) then b.(status := Blocked)
    else if b.criticReviews != [] || b.verifierReviews != [] then b.(status := UnderReview)
    else b.(status := Active)
  }

  // ----- the operations

  function NewBranch(id: string, hypothesis: string, parent: Option<string>): Branch {
    Branch(id, hypothesis, parent, [], [], [], None, Active, [], [])
  }

  ghost function CreateBranch(s: State, id: string, hypothesis: string, parent: Option<string>): (State, Outcome) {
    if parent.Some? && parent.value !in s.branches then (s, Err(UnknownBranch(parent.value)))
    else
      var branch := NewBranch(id, hypothesis, parent);
      var (g, r) := G.EnsureBranch(s.graph, branch);
      (s.(branches := s.branches[id := branch], createdAt := s.createdAt[id := |s.branches|], graph := g), r)
  }

  function ArchiveBranch(s: State, b: string): (State, Outcome) {
    if b !in s.branches then (s, Err(UnknownBranch(b)))
    else (s.(branches := s.branches[b := s.branches[b].(status := Archived)]), Ok)
  }

  /** A branch with one record more: the record's node and edge first, then the status. */
  ghost function AddEntry(s: State, branch: Branch, node: Node, kind: EdgeKind): (State, Outcome) {
    var (g, r) := G.AddRecord(s.graph, branch, node, kind);
    (s.(branches := s.branches[branch.id := if r.Ok? then Touch(branch) else branch], graph := g), r)
  }

  ghost function AddEvidence(s: State, b: string, r: EvidenceRecord): (State, Outcome) {
    if b !in s.branches then (s, Err(UnknownBranch(b)))
    else
      var branch := s.branches[b].(evidence := s.branches[b].evidence + [r]);
      AddEntry(s, branch, G.EvidenceNode(branch.id, r), Supports)
  }

  /** add_counterexample without the propagation that may follow it. */
  ghost function AddCounterexample(s: State, b: string, r: CounterexampleRecord): (State, Outcome) {
    if b !in s.branches then (s, Err(UnknownBranch(b)))
    else
      var branch := s.branches[b].(counterexamples := s.branches[b].counterexamples + [r]);
      AddEntry(s, branch, G.CounterexampleNode(branch.id, r), Contradicts)
  }

  ghost function AddExperiment(s: State, b: string, r: ExperimentRecord): (State, Outcome) {
    if b !in s.branches then (s, Err(UnknownBranch(b)))
    else
      var branch := s.branches[b].(experiments := s.branches[b].experiments + [r]);
      AddEntry(s, branch, G.ExperimentNode(branch.id, r), Tests)
  }

  ghost function AddReview(s: State, b: string, r: ReviewRecord, verifier: bool): (State, Outcome) {
    if b !in s.branches then (s, Err(UnknownBranch(b)))
    else if exists id :: id in r.checkedEvidence && id !in G.EvidenceIds(s.branches[b].evidence)
              then (s, Err(UnknownEvidence))
    else
      var old_ := s.branches[b];
      var branch := if verifier then old_.(verifierReviews := old_.verifierReviews + [r])
                    else old_.(criticReviews := old_.criticReviews + [r]);
      AddEntry(s, branch, G.ReviewNode(branch.id, r), if verifier then Verifies else Reviews)
  }

  /** The first record with an id, as `next(...)` finds it. */
  function FindCounterexample(records: seq<CounterexampleRecord>, id: string): (i: Option<nat>)
    ensures i.Some? ==>
              i.value < |records| && records[i.value].id == id && forall k :: 0 <= k < i.value ==> records[k].id != id
    ensures i.None? ==> forall k :: 0 <= k < |records| ==> records[k].id != id
  {
    if records == [] then None
    else if records[0].id == id then Some(0)
    else
      var rest := FindCounterexample(records[1..], id);
      assert forall k :: 1 <= k < |records| ==> records[k] == records[1..][k - 1];
      if rest.None? then None
      else Some(rest.value + 1)
  }

  function FindExperiment(records: seq<ExperimentRecord>, id: string): (i: Option<nat>)
    ensures i.Some? ==>
              i.value < |records| && records[i.value].id == id && forall k :: 0 <= k < i.value ==> records[k].id != id
    ensures i.None? ==> forall k :: 0 <= k < |records| ==> records[k].id != id
  {
    if records == [] then None
    else if records[0].id == id then Some(0)
    else
      var rest := FindExperiment(records[1..], id);
      assert forall k :: 1 <= k < |records| ==> records[k] == records[1..][k - 1];
      if rest.None? then None
      else Some(rest.value + 1)
  }

  /** A branch with one record rewritten: its node's metadata, then the status. */
  function UpdateEntry(s: State, branch: Branch, id: string, metadata: Metadata): (State, Outcome) {
    var (g, r) := G.UpdateMetadata(s.graph, id, metadata);
    (s.(branches := s.branches[branch.id := if r.Ok? then Touch(branch) else branch], graph := g), r)
  }

  function ResolveCounterexample(s: State, b: string, id: string, resolution: string): (State, Outcome) {
    if b !in s.branches then (s, Err(UnknownBranch(b)))
    else
      var branch := s.branches[b];
      var found := FindCounterexample(branch.counterexamples, id);
      if found.None? then (s, Err(UnknownRecord(id)))
      else
        var r := branch.counterexamples[found.value].(resolved := true, resolution := Some(resolution));
        UpdateEntry(s, branch.(counterexamples := branch.counterexamples[found.value := r]), id,
                    CounterexampleData(r.resolved, r.resolution))
  }

  function UpdateExperiment(
    s: State, b: string, id: string, status: ExperimentStatus, actual: string): (State, Outcome)
  {
    if b !in s.branches then (s, Err(UnknownBranch(b)))
    else
      var branch := s.branches[b];
      var found := FindExperiment(branch.experiments, id);
      if found.None? then (s, Err(UnknownRecord(id)))
      else
        var r := branch.experiments[found.value].(status := status, actualResult := Some(actual));
        UpdateEntry(s, branch.(experiments := branch.experiments[found.value := r]), id,
                    ExperimentData(r.status, r.actualResult))
  }

  ghost function SetResult(s: State, b: string, result: string): (State, Outcome) {
    if b !in s.branches then (s, Err(UnknownBranch(b)))
    else
      var branch := s.branches[b].(result := Some(result));
      var (g, r) := G.SetResult(s.graph, branch);
      (s.(branches := s.branches[b := if r.Ok? then Touch(branch) else branch], graph := g), r)
  }

  /** Promotion after the gate; the gate's verdict is an input. */
  ghost function Accept(s: State, b: string, id: string, gatePassed: bool): (State, Outcome) {
    if b !in s.branches then (s, Err(UnknownBranch(b)))
    else if !gatePassed then (s, Err(GateRejected))
    else if exists k :: k in s.accepted && s.accepted[k] == b then (s, Ok)
    else
      var branch := s.branches[b];
      var statement := if branch.result.Some? && branch.result.value != "" then branch.result.value
        else branch.hypothesis;
      var (g, r) := G.AddKnowledge(s.graph, id, b, statement);
      (s.(branches := if r.Ok? then s.branches[b := branch.(status := Verified)] else s.branches,
          graph := g, accepted := s.accepted[id := b]), r)
  }

  // ----- how branches and graph correspond

  /** What a record looks like in the graph: its node, and its edge into the claim. */
  datatype Entry = Entry(node: Node, kind: EdgeKind)

  function EvidenceEntries(b: string, s: seq<EvidenceRecord>): set<Entry> {
    set r | r in s :: Entry(G.EvidenceNode(b, r), Supports)
  }

  function CounterexampleEntries(b: string, s: seq<CounterexampleRecord>): set<Entry> {
    set r | r in s :: Entry(G.CounterexampleNode(b, r), Contradicts)
  }

  function ExperimentEntries(b: string, s: seq<ExperimentRecord>): set<Entry> {
    set r | r in s :: Entry(G.ExperimentNode(b, r), Tests)
  }

  function ReviewEntries(b: string, s: seq<ReviewRecord>, verifier: bool): set<Entry> {
    set r | r in s :: Entry(G.ReviewNode(b, r), if verifier then Verifies else Reviews)
  }

  function Entries(b: Branch): set<Entry> {
    EvidenceEntries(b.id, b.evidence) + CounterexampleEntries(b.id, b.counterexamples)
    + ExperimentEntries(b.id, b.experiments)
    + ReviewEntries(b.id, b.criticReviews, false) + ReviewEntries(b.id, b.verifierReviews, true)
  }

  /** Ids of records, as opposed to those of claims and results. */
  predicate IsRecordId(id: string) {
    !("claim:" <= id) && !("result:" <= id)
  }

  predicate IsRecordKind(kind: NodeKind) {
    kind.Evidence? || kind.Counterexample? || kind.Experiment? || kind.Review?
  }

  predicate IsMirrored(g: G.Graph, b: string, e: Entry) {
    && IsRecordId(e.node.id) && e.node.id in g.nodes && g.nodes[e.node.id] == e.node
    && G.HasTriple(g.edges, e.node.id, G.ClaimId(b), e.kind)
  }

  /** Every record has its node, up to date, and its typed edge into the claim. */
  predicate Mirrored(g: G.Graph, branches: map<string, Branch>) {
    forall b, e :: b in branches && e in Entries(branches[b]) ==> IsMirrored(g, b, e)
  }

  predicate IsBacked(branches: map<string, Branch>, n: Node) {
    && n.branch.Some? && n.branch.value in branches
    && exists e :: e in Entries(branches[n.branch.value]) && e.node == n
  }

  /** Every record node belongs to a record. */
  predicate Backed(g: G.Graph, branches: map<string, Branch>) {
    forall id :: id in g.nodes && IsRecordKind(g.nodes[id].kind) ==> IsBacked(branches, g.nodes[id])
  }

  /** No two entries of a branch share an id. */
  predicate DistinctIds(b: Branch) {
    forall e, e' :: e in Entries(b) && e' in Entries(b) && e.node.id == e'.node.id ==> e == e'
  }

  predicate UniqueEvidence(s: seq<EvidenceRecord>) {
    forall i, j :: 0 <= i < j < |s| ==> s[i].id != s[j].id
  }

  predicate UniqueCounterexamples(s: seq<CounterexampleRecord>) {
    forall i, j :: 0 <= i < j < |s| ==> s[i].id != s[j].id
  }

  predicate UniqueExperiments(s: seq<ExperimentRecord>) {
    forall i, j :: 0 <= i < j < |s| ==> s[i].id != s[j].id
  }

  predicate UniqueReviews(s: seq<ReviewRecord>) {
    forall i, j :: 0 <= i < j < |s| ==> s[i].id != s[j].id
  }

  /** No two records of one list of a branch share an id. */
  predicate UniqueRecords(b: Branch) {
    && UniqueEvidence(b.evidence) && UniqueCounterexamples(b.counterexamples) && UniqueExperiments(b.experiments)
    && UniqueReviews(b.criticReviews) && UniqueReviews(b.verifierReviews)
  }

  predicate HasDistinctRecords(b: Branch) {
    DistinctIds(b) && UniqueRecords(b)
  }

  predicate RecordsDistinct(branches: map<string, Branch>) {
    forall b {:trigger HasDistinctRecords(branches[b])} :: b in branches ==> HasDistinctRecords(branches[b])
  }

  predicate IsKnownBranch(g: G.Graph, branches: map<string, Branch>, b: string)
    requires b in branches
  {
    && branches[b].id == b && G.IsLinked(g, branches[b])
    && (branches[b].parent.Some? ==> branches[b].parent.value in branches)
  }

  predicate BranchesLinked(g: G.Graph, branches: map<string, Branch>) {
    forall b {:trigger IsKnownBranch(g, branches, b)} :: b in branches ==> IsKnownBranch(g, branches, b)
  }

  predicate IsKnownId(branches: map<string, Branch>, id: string) {
    IsRecordId(id) || exists b :: b in branches && (id == G.ClaimId(b) || id == G.ResultId(b))
  }

  predicate NodeIdsKnown(g: G.Graph, branches: map<string, Branch>) {
    forall id :: id in g.nodes ==> IsKnownId(branches, id)
  }

  predicate CreatedInOrder(branches: map<string, Branch>, createdAt: map<string, nat>) {
    && createdAt.Keys == branches.Keys
    && forall b :: b in createdAt ==> createdAt[b] < |branches|
  }

  ghost predicate Invariant(s: State) {
    && G.IsDag(s.graph)
    && Mirrored(s.graph, s.branches)
    && Backed(s.graph, s.branches)
    && RecordsDistinct(s.branches)
    && BranchesLinked(s.graph, s.branches)
    && NodeIdsKnown(s.graph, s.branches)
    && CreatedInOrder(s.branches, s.createdAt)
    && Lineage.IsForest(ParentsOf(s.branches), s.createdAt)
  }
}
