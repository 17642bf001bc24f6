/** What each operation of the research service changes, field by field. */
module ResearchEffects {
  import opened Wrappers
  import opened Schema
  import opened Research
  import opened ResearchInvariant
  import opened ResearchRuns
  import opened EvidenceEffects
  import G = EvidenceGraph

  // ----- the status

  predicate IsUnresolvedIn(b: Branch) {
    exists r :: r in b.counterexamples && !r.resolved
  }

  /** What the records say of the status of a branch that is not terminal. */
  predicate FollowsRecords(b: Branch, status: BranchStatus) {
    && (status == Blocked <==> IsUnresolvedIn(b))
    && (status == UnderReview <==> !IsUnresolvedIn(b) && (b.criticReviews != [] || b.verifierReviews != []))
    && (status == Active <==> !IsUnresolvedIn(b) && b.criticReviews == [] && b.verifierReviews == [])
  }

  predicate IsDone(status: BranchStatus) {
    status == Verified || status == Rejected || status == Archived
  }

  /** The branch as given, but with the status its records call for. */
  predicate IsTouched(b: Branch, touched: Branch) {
    && touched == b.(status := touched.status)
    && (if IsDone(b.status) then touched.status == b.status else FollowsRecords(b, touched.status))
  }

  lemma UnresolvedIff(b: Branch)
    ensures HasUnresolved(b) <==> IsUnresolvedIn(b)
  {
    if r :| r in b.counterexamples && !r.resolved {
      var i :| 0 <= i < |b.counterexamples| && b.counterexamples[i] == r;
    }
  }

  lemma TouchFollowsRecords(b: Branch)
    ensures IsTouched(b, Touch(b))
  {
    UnresolvedIff(b);
  }

  // ----- one branch changes

  /** Only branch b and the graph differ, and b is the given branch with its status recomputed. */
  predicate Rewrites(s: State, t: State, b: string, branch: Branch) {
    && t.createdAt == s.createdAt && t.accepted == s.accepted
    && t.branches.Keys == s.branches.Keys && b in t.branches
    && (forall x :: x in s.branches && x != b ==> t.branches[x] == s.branches[x])
    && IsTouched(branch, t.branches[b])
  }

  /** The graph has the record's node and its edge into the claim, and nothing else new. */
  predicate StoresRecord(g: G.Graph, h: G.Graph, b: Branch, node: Node, kind: EdgeKind) {
    && h.nodes == g.nodes["claim:" + b.id := ClaimOf(b)][node.id := node]
    && h.edges == g.edges + [Edge(node.id, "claim:" + b.id, kind, Some(b.id))]
  }

  lemma EntryIsStored(s: State, branch: Branch, node: Node, kind: EdgeKind)
    requires Invariant(s) && branch.id in s.branches && IsFresh(s, node.id)
    requires SameBranch(s.branches[branch.id], branch)
    ensures AddEntry(s, branch, node, kind).1.Ok?
    ensures Rewrites(s, AddEntry(s, branch, node, kind).0, branch.id, branch)
    ensures StoresRecord(s.graph, AddEntry(s, branch, node, kind).0.graph, branch, node, kind)
  {
    assert IsKnownBranch(s.graph, s.branches, branch.id);
    hide Mirrored, Backed, RecordsDistinct, BranchesLinked, NodeIdsKnown, CreatedInOrder, Touch, IsTouched;
    assert G.IsLinked(s.graph, branch);
    RecordIsStored(s.graph, branch, node, kind);
    TouchFollowsRecords(branch);
  }

  lemma BranchId(s: State, b: string)
    requires Invariant(s) && b in s.branches
    ensures s.branches[b].id == b
  {
    assert IsKnownBranch(s.graph, s.branches, b);
  }

  lemma EvidenceIsAdded(s: State, b: string, r: EvidenceRecord)
    requires Invariant(s) && b in s.branches && IsFresh(s, r.id)
    ensures var old_, t := s.branches[b], AddEvidence(s, b, r).0;
            && Rewrites(s, t, b, old_.(evidence := old_.evidence + [r]))
            && StoresRecord(s.graph, t.graph, old_, Node(r.id, Some(b), Evidence, r.claim, Plain), Supports)
  {
    BranchId(s, b);
    hide Invariant, AddEntry, Rewrites;
    var branch := s.branches[b].(evidence := s.branches[b].evidence + [r]);
    EntryIsStored(s, branch, G.EvidenceNode(b, r), Supports);
  }

  lemma CounterexampleIsAdded(s: State, b: string, r: CounterexampleRecord)
    requires Invariant(s) && b in s.branches && IsFresh(s, r.id)
    ensures var old_, t := s.branches[b], AddCounterexample(s, b, r).0;
            var data := CounterexampleData(r.resolved, r.resolution);
            && Rewrites(s, t, b, old_.(counterexamples := old_.counterexamples + [r]))
            && StoresRecord(s.graph, t.graph, old_, Node(r.id, Some(b), Counterexample, r.description, data),
                 Contradicts)
  {
    BranchId(s, b);
    hide Invariant, AddEntry, Rewrites;
    var branch := s.branches[b].(counterexamples := s.branches[b].counterexamples + [r]);
    EntryIsStored(s, branch, G.CounterexampleNode(b, r), Contradicts);
  }

  lemma ExperimentIsAdded(s: State, b: string, r: ExperimentRecord)
    requires Invariant(s) && b in s.branches && IsFresh(s, r.id)
    ensures var old_, t := s.branches[b], AddExperiment(s, b, r).0;
            var data := ExperimentData(r.status, r.actualResult);
            && Rewrites(s, t, b, old_.(experiments := old_.experiments + [r]))
            && StoresRecord(s.graph, t.graph, old_, Node(r.id, Some(b), Experiment, r.protocol, data), Tests)
  {
    BranchId(s, b);
    hide Invariant, AddEntry, Rewrites;
    var branch := s.branches[b].(experiments := s.branches[b].experiments + [r]);
    EntryIsStored(s, branch, G.ExperimentNode(b, r), Tests);
  }

  /** A review goes to the critics' or the verifiers' list, with the edge kind of
      that list; one that names unknown evidence changes nothing. */
  lemma ReviewIsAdded(s: State, b: string, r: ReviewRecord, verifier: bool)
    requires Invariant(s) && b in s.branches && IsFresh(s, r.id)
    ensures var old_, (t, outcome) := s.branches[b], AddReview(s, b, r, verifier);
            if exists id :: id in r.checkedEvidence && forall e :: e in old_.evidence ==> e.id != id
            then t == s && outcome == Err(UnknownEvidence)
            else
              && outcome.Ok?
              && StoresRecord(s.graph, t.graph, old_, Node(r.id, Some(b), Review, r.summary, Plain),
                   if verifier then Verifies else Reviews)
              && Rewrites(s, t, b,
                   if verifier then old_.(verifierReviews := old_.verifierReviews + [r])
                   else old_.(criticReviews := old_.criticReviews + [r]))
  {
    BranchId(s, b);
    hide Invariant, AddEntry, Rewrites, StoresRecord;
    var old_ := s.branches[b];
    forall id
      ensures id in G.EvidenceIds(old_.evidence) <==> exists e :: e in old_.evidence && e.id == id
    {
      KnownEvidence(old_.evidence, id);
    }
    var branch := if verifier then old_.(verifierReviews := old_.verifierReviews + [r])
      else old_.(criticReviews := old_.criticReviews + [r]);
    EntryIsStored(s, branch, G.ReviewNode(b, r), if verifier then Verifies else Reviews);
    SameClaimStores(s.graph, AddEntry(s, branch, G.ReviewNode(b, r), if verifier then Verifies else Reviews).0.graph,
      branch, old_, G.ReviewNode(b, r), if verifier then Verifies else Reviews);
  }

  lemma SameClaimStores(g: G.Graph, h: G.Graph, b: Branch, b': Branch, node: Node, kind: EdgeKind)
    requires StoresRecord(g, h, b, node, kind) && SameBranch(b, b')
    ensures StoresRecord(g, h, b', node, kind)
  {
  }

  lemma KnownEvidence(s: seq<EvidenceRecord>, id: string)
    ensures id in G.EvidenceIds(s) <==> exists e :: e in s && e.id == id
  {
    if e :| e in s && e.id == id {
      var i :| 0 <= i < |s| && s[i] == e;
      assert G.EvidenceIds(s)[i] == id;
    }
    if id in G.EvidenceIds(s) {
      var i :| 0 <= i < |s| && G.EvidenceIds(s)[i] == id;
      assert s[i] in s;
    }
  }

  // ----- records rewritten

  lemma StoredIdsAreNodes(s: State, b: string)
    requires Invariant(s) && b in s.branches
    ensures forall r :: r in s.branches[b].counterexamples ==> r.id in s.graph.nodes
    ensures forall r :: r in s.branches[b].experiments ==> r.id in s.graph.nodes
  {
    BranchId(s, b);
    forall r | r in s.branches[b].counterexamples
      ensures r.id in s.graph.nodes
    {
      var e := Entry(G.CounterexampleNode(b, r), Contradicts);
      assert e in CounterexampleEntries(b, s.branches[b].counterexamples);
      assert IsMirrored(s.graph, b, e);
    }
    forall r | r in s.branches[b].experiments
      ensures r.id in s.graph.nodes
    {
      var e := Entry(G.ExperimentNode(b, r), Tests);
      assert e in ExperimentEntries(b, s.branches[b].experiments);
      assert IsMirrored(s.graph, b, e);
    }
  }

  /** Record i of the list is the first with the id, and it is now resolved. */
  predicate ResolvesFirst(
    old_: seq<CounterexampleRecord>, new_: seq<CounterexampleRecord>, i: nat, id: string, resolution: string)
  {
    && i < |old_| == |new_| && old_[i].id == id && (forall k :: 0 <= k < i ==> old_[k].id != id)
    && new_[i].resolved && new_[i].resolution == Some(resolution)
    && new_[i].id == id && new_[i].description == old_[i].description && new_[i].source == old_[i].source
    && forall k :: 0 <= k < |old_| && k != i ==> new_[k] == old_[k]
  }

  /** Only the metadata of one node differ. */
  predicate StoresMetadata(g: G.Graph, h: G.Graph, id: string, data: Metadata) {
    && id in g.nodes && h.edges == g.edges && h.nodes == g.nodes[id := g.nodes[id].(metadata := data)]
  }

  lemma UpdateIsStored(s: State, branch: Branch, id: string, data: Metadata)
    requires branch.id in s.branches && id in s.graph.nodes
    ensures Rewrites(s, UpdateEntry(s, branch, id, data).0, branch.id, branch)
    ensures StoresMetadata(s.graph, UpdateEntry(s, branch, id, data).0.graph, id, data)
  {
    TouchFollowsRecords(branch);
    hide Touch, IsTouched;
  }

  /** Resolving rewrites the first counterexample with the id, in the branch and in
      the graph, and recomputes the status. */
  lemma CounterexampleIsResolved(s: State, b: string, id: string, resolution: string) returns (i: nat)
    requires Invariant(s) && b in s.branches && exists r :: r in s.branches[b].counterexamples && r.id == id
    ensures var old_, t := s.branches[b], ResolveCounterexample(s, b, id, resolution).0;
            && b in t.branches
            && ResolvesFirst(old_.counterexamples, t.branches[b].counterexamples, i, id, resolution)
            && Rewrites(s, t, b, old_.(counterexamples := t.branches[b].counterexamples))
            && StoresMetadata(s.graph, t.graph, id, CounterexampleData(true, Some(resolution)))
  {
    BranchId(s, b);
    StoredIdsAreNodes(s, b);
    hide Invariant;
    var records := s.branches[b].counterexamples;
    i := FindCounterexample(records, id).value;
    assert records[i] in records;
    var record := records[i].(resolved := true, resolution := Some(resolution));
    var branch := s.branches[b].(counterexamples := records[i := record]);
    UpdateIsStored(s, branch, id, CounterexampleData(true, Some(resolution)));
    hide UpdateEntry, StoresMetadata;
  }

  predicate UpdatesFirst(
    old_: seq<ExperimentRecord>, new_: seq<ExperimentRecord>, i: nat, id: string, status: ExperimentStatus,
    actual: string)
  {
    && i < |old_| == |new_| && old_[i].id == id && (forall k :: 0 <= k < i ==> old_[k].id != id)
    && new_[i] == ExperimentRecord(id, old_[i].protocol, status, Some(actual))
    && forall k :: 0 <= k < |old_| && k != i ==> new_[k] == old_[k]
  }

  lemma ExperimentIsUpdated(s: State, b: string, id: string, status: ExperimentStatus, actual: string)
    returns (i: nat)
    requires Invariant(s) && b in s.branches && exists r :: r in s.branches[b].experiments && r.id == id
    ensures var old_, t := s.branches[b], UpdateExperiment(s, b, id, status, actual).0;
            && b in t.branches
            && UpdatesFirst(old_.experiments, t.branches[b].experiments, i, id, status, actual)
            && Rewrites(s, t, b, old_.(experiments := t.branches[b].experiments))
            && StoresMetadata(s.graph, t.graph, id, ExperimentData(status, Some(actual)))
  {
    BranchId(s, b);
    StoredIdsAreNodes(s, b);
    hide Invariant;
    var records := s.branches[b].experiments;
    i := FindExperiment(records, id).value;
    assert records[i] in records;
    var record := records[i].(status := status, actualResult := Some(actual));
    var branch := s.branches[b].(experiments := records[i := record]);
    UpdateIsStored(s, branch, id, ExperimentData(status, Some(actual)));
    hide UpdateEntry, StoresMetadata;
  }

  // ----- branches, results and knowledge

  /** A new branch is empty and active, is created after all others, and has its
      claim and its lineage edge; an unknown parent changes nothing. */
  lemma BranchIsCreated(s: State, id: string, hypothesis: string, parent: Option<string>)
    requires Invariant(s) && id !in s.branches
    ensures var (t, outcome) := CreateBranch(s, id, hypothesis, parent);
            if parent.Some? && parent.value !in s.branches then t == s && outcome == Err(UnknownBranch(parent.value))
            else
              var b := Branch(id, hypothesis, parent, [], [], [], None, Active, [], []);
              && outcome.Ok? && t.branches == s.branches[id := b] && t.accepted == s.accepted
              && t.createdAt.Keys == s.createdAt.Keys + {id}
              && (forall x :: x in s.createdAt ==> t.createdAt[x] == s.createdAt[x] < t.createdAt[id])
              && t.graph.nodes == s.graph.nodes["claim:" + id := ClaimOf(b)]
              && t.graph.edges
                 == (if parent.None? then s.graph.edges
                     else s.graph.edges + [Edge("claim:" + id, "claim:" + parent.value, ForkedFrom, Some(id))])
  {
    if parent.None? || parent.value in s.branches {
      FreshBranchHasNoClaim(s, id);
      if parent.Some? {
        ClaimIsStored(s, parent.value);
      }
      BranchIsStored(s.graph, NewBranch(id, hypothesis, parent));
    }
    hide Mirrored, Backed, RecordsDistinct, BranchesLinked, NodeIdsKnown, G.EnsureBranch;
  }

  /** Archiving changes the status of one branch and nothing else. */
  lemma BranchIsArchived(s: State, b: string)
    ensures var (t, outcome) := ArchiveBranch(s, b);
            if b !in s.branches then t == s && outcome == Err(UnknownBranch(b))
            else outcome.Ok? && t == s.(branches := s.branches[b := s.branches[b].(status := Archived)])
  {
  }

  /** A recorded result is stored in the branch and in the graph, where it derives
      from every evidence record and experiment, and the status is recomputed. */
  lemma ResultIsRecorded(s: State, b: string, result: string)
    requires Invariant(s) && b in s.branches && result != "" && SetResult(s, b, result).1.Ok?
    ensures var old_, t := s.branches[b], SetResult(s, b, result).0;
            && Rewrites(s, t, b, old_.(result := Some(result)))
            && "result:" + b in t.graph.nodes
            && t.graph.nodes["result:" + b] == Node("result:" + b, Some(b), Result, result, Plain)
            && forall id :: IsEvidenceOrExperiment(old_, id) ==>
                 G.HasTriple(t.graph.edges, "result:" + b, id, DerivedFrom)
  {
    BranchFacts(s, b);
    BranchId(s, b);
    var branch := s.branches[b].(result := Some(result));
    ResultIsStored(s.graph, branch);
    forall id
      ensures IsEvidenceOrExperiment(branch, id) == IsEvidenceOrExperiment(s.branches[b], id)
    {
    }
    TouchFollowsRecords(branch);
    hide Invariant, Touch, IsTouched, G.SetResult, IsEvidenceOrExperiment;
  }

  predicate IsPromoted(s: State, b: string) {
    exists k :: k in s.accepted && s.accepted[k] == b
  }

  /** Promotion needs a known branch and a passed gate. It happens once: the branch is
      verified and one knowledge node states its result, or its hypothesis if it has
      none; asking again changes nothing. */
  lemma KnowledgeIsAccepted(s: State, b: string, id: string, gatePassed: bool)
    requires Invariant(s) && IsFresh(s, id)
    ensures var (t, outcome) := Accept(s, b, id, gatePassed);
            if b !in s.branches then t == s && outcome == Err(UnknownBranch(b))
            else if !gatePassed then t == s && outcome == Err(GateRejected)
            else if IsPromoted(s, b) then t == s && outcome.Ok?
            else
              var result := s.branches[b].result;
              var statement := if result.Some? && result.value != "" then result.value else s.branches[b].hypothesis;
              && outcome.Ok? && IsPromoted(t, b) && t.accepted == s.accepted[id := b] && t.createdAt == s.createdAt
              && t.branches == s.branches[b := s.branches[b].(status := Verified)]
              && t.graph.nodes == s.graph.nodes[id := Node(id, Some(b), Knowledge, statement, Plain)]
              && t.graph.edges
                 == s.graph.edges + [Edge(id, if ("result:" + b) in s.graph.nodes then "result:" + b else "claim:" + b,
                                          DerivedFrom, Some(b))]
  {
    if b in s.branches && gatePassed && !IsPromoted(s, b) {
      ClaimIsStored(s, b);
      ClaimIsNoRecordId(b);
      var result := s.branches[b].result;
      var statement := if result.Some? && result.value != "" then result.value else s.branches[b].hypothesis;
      hide Mirrored, Backed, RecordsDistinct, BranchesLinked, NodeIdsKnown, CreatedInOrder, G.AddKnowledge, IsRecordId;
      KnowledgeIsStored(s.graph, id, b, statement);
      assert Accept(s, b, id, gatePassed).0.accepted[id] == b;
    }
  }

  // ----- the status over whole runs

  /** A branch is terminal, or its status is the one its records call for. */
  predicate StatusesFollow(branches: map<string, Branch>) {
    forall b :: b in branches ==> IsDone(branches[b].status) || FollowsRecords(branches[b], branches[b].status)
  }

  lemma TouchedFollows(b: Branch)
    ensures IsDone(Touch(b).status) || FollowsRecords(Touch(b), Touch(b).status)
  {
    TouchFollowsRecords(b);
    assert Touch(b).counterexamples == b.counterexamples;
    assert IsUnresolvedIn(Touch(b)) == IsUnresolvedIn(b);
  }

  lemma RewriteFollows(branches: map<string, Branch>, x: string, b: Branch)
    requires StatusesFollow(branches) && (IsDone(b.status) || FollowsRecords(b, b.status))
    ensures StatusesFollow(branches[x := b])
  {
  }

  lemma EntryFollows(s: State, branch: Branch, node: Node, kind: EdgeKind)
    requires Invariant(s) && StatusesFollow(s.branches) && branch.id in s.branches && IsFresh(s, node.id)
    requires SameBranch(s.branches[branch.id], branch)
    ensures StatusesFollow(AddEntry(s, branch, node, kind).0.branches)
  {
    EntryIsStored(s, branch, node, kind);
    TouchedFollows(branch);
    hide Invariant, Touch, FollowsRecords, G.AddRecord;
  }

  lemma RecordStepFollows(s: State, op: Operation)
    requires Invariant(s) && StatusesFollow(s.branches) && Draws(s, op)
    requires op.EvidenceOp? || op.CounterexampleOp? || op.ExperimentOp?
    ensures StatusesFollow(Apply(s, op).0.branches)
  {
    if op.b in s.branches {
      BranchId(s, op.b);
      var old_ := s.branches[op.b];
      hide Invariant, StatusesFollow, AddEntry;
      match op
      case EvidenceOp(b, r) => EntryFollows(s, old_.(evidence := old_.evidence + [r]), G.EvidenceNode(b, r), Supports);
      case CounterexampleOp(b, r) =>
        EntryFollows(s, old_.(counterexamples := old_.counterexamples + [r]), G.CounterexampleNode(b, r), Contradicts);
      case ExperimentOp(b, r) =>
        EntryFollows(s, old_.(experiments := old_.experiments + [r]), G.ExperimentNode(b, r), Tests);
    }
  }

  lemma ReviewStepFollows(s: State, b: string, r: ReviewRecord, verifier: bool)
    requires Invariant(s) && StatusesFollow(s.branches) && IsFresh(s, r.id)
    ensures StatusesFollow(AddReview(s, b, r, verifier).0.branches)
  {
    if b in s.branches {
      BranchId(s, b);
      var old_ := s.branches[b];
      hide Invariant, StatusesFollow, AddEntry;
      var branch := if verifier then old_.(verifierReviews := old_.verifierReviews + [r])
        else old_.(criticReviews := old_.criticReviews + [r]);
      EntryFollows(s, branch, G.ReviewNode(b, r), if verifier then Verifies else Reviews);
    }
  }

  lemma UpdateFollows(s: State, branch: Branch, id: string, data: Metadata)
    requires StatusesFollow(s.branches) && branch.id in s.branches && id in s.graph.nodes
    ensures StatusesFollow(UpdateEntry(s, branch, id, data).0.branches)
  {
    TouchedFollows(branch);
    hide Touch, FollowsRecords;
  }

  lemma UpdateStepFollows(s: State, op: Operation)
    requires Invariant(s) && StatusesFollow(s.branches) && (op.ResolveOp? || op.UpdateExperimentOp?)
    ensures StatusesFollow(Apply(s, op).0.branches)
  {
    if op.b in s.branches {
      BranchId(s, op.b);
      StoredIdsAreNodes(s, op.b);
      var old_ := s.branches[op.b];
      hide Invariant, StatusesFollow, UpdateEntry;
      match op
      case ResolveOp(b, id, resolution) =>
        var found := FindCounterexample(old_.counterexamples, id);
        if found.Some? {
          var r := old_.counterexamples[found.value].(resolved := true, resolution := Some(resolution));
          UpdateFollows(s, old_.(counterexamples := old_.counterexamples[found.value := r]), id,
            CounterexampleData(true, Some(resolution)));
        }
      case UpdateExperimentOp(b, id, status, actual) =>
        var found := FindExperiment(old_.experiments, id);
        if found.Some? {
          var r := old_.experiments[found.value].(status := status, actualResult := Some(actual));
          UpdateFollows(s, old_.(experiments := old_.experiments[found.value := r]), id,
            ExperimentData(status, Some(actual)));
        }
    }
  }

  lemma ResultStepFollows(s: State, b: string, result: string)
    requires StatusesFollow(s.branches)
    ensures StatusesFollow(SetResult(s, b, result).0.branches)
  {
    if b in s.branches {
      var branch := s.branches[b].(result := Some(result));
      TouchedFollows(branch);
      assert FollowsRecords(s.branches[b], branch.status) == FollowsRecords(branch, branch.status) by {
        assert IsUnresolvedIn(branch) == IsUnresolvedIn(s.branches[b]);
      }
      hide Touch, FollowsRecords, G.SetResult;
    }
  }

  lemma ApplyKeepsStatuses(s: State, op: Operation)
    requires Invariant(s) && StatusesFollow(s.branches) && Draws(s, op)
    ensures StatusesFollow(Apply(s, op).0.branches)
  {
    hide Invariant, G.EnsureBranch, G.Attach, G.EnsureEdge, G.AddKnowledge, SetResult;
    match op
    case EvidenceOp(_, _) => RecordStepFollows(s, op);
    case CounterexampleOp(_, _) => RecordStepFollows(s, op);
    case ExperimentOp(_, _) => RecordStepFollows(s, op);
    case ReviewOp(b, r, verifier) => ReviewStepFollows(s, b, r, verifier);
    case ResolveOp(_, _, _) => UpdateStepFollows(s, op);
    case UpdateExperimentOp(_, _, _, _) => UpdateStepFollows(s, op);
    case ResultOp(b, result) => ResultStepFollows(s, b, result);
    case _ =>
  }

  /** In every reachable store a branch that is not terminal is blocked exactly while
      it has an unresolved counterexample, under review exactly if it has none but has
      a review, and active otherwise. */
  lemma {:induction false} EveryRunStatusesFollow(ops: seq<Operation>)
    requires DrawsFreshIds(ops)
    ensures StatusesFollow(Run(ops).branches)
  {
    if ops != [] {
      var init := ops[..|ops| - 1];
      EveryRunStatusesFollow(init);
      EveryRunKeepsInvariant(init);
      hide Invariant, StatusesFollow, Apply, Draws;
      ApplyKeepsStatuses(Run(init), ops[|ops| - 1]);
    }
  }
}
