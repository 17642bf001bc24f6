/** All operations of the research service over all runs. */
module ResearchRuns {
  import opened Wrappers
  import opened Schema
  import opened Research
  import opened ResearchInvariant
  import G = EvidenceGraph
  import Lineage

  /** An id just drawn: no node has it, and it is not of the reserved forms. */
  predicate IsFresh(s: State, id: string) {
    IsRecordId(id) && id !in s.graph.nodes
  }

  /** No entry of the branch has this id. */
  predicate IsNewTo(b: Branch, id: string) {
    forall e :: e in Entries(b) ==> e.node.id != id
  }

  lemma FreshIsNew(s: State, b: string, id: string)
    requires Invariant(s) && b in s.branches && IsFresh(s, id)
    ensures IsNewTo(s.branches[b], id) && UniqueRecords(s.branches[b]) && s.branches[b].id == b
  {
    assert IsKnownBranch(s.graph, s.branches, b) && HasDistinctRecords(s.branches[b]);
    forall e | e in Entries(s.branches[b])
      ensures e.node.id != id
    {
      assert IsMirrored(s.graph, b, e);
    }
  }

  // ----- each kind of record appends one entry

  lemma AppendsEvidence(b: Branch, r: EvidenceRecord)
    requires UniqueRecords(b) && IsNewTo(b, r.id) && IsRecordId(r.id)
    ensures AddsEntry(b, b.(evidence := b.evidence + [r]), Entry(G.EvidenceNode(b.id, r), Supports))
  {
    forall x | x in b.evidence
      ensures x.id != r.id
    {
      assert Entry(G.EvidenceNode(b.id, x), Supports) in Entries(b);
    }
    assert EvidenceEntries(b.id, b.evidence + [r])
      == EvidenceEntries(b.id, b.evidence) + {Entry(G.EvidenceNode(b.id, r), Supports)};
    hide EvidenceEntries, CounterexampleEntries, ExperimentEntries, ReviewEntries;
  }

  lemma AppendsCounterexample(b: Branch, r: CounterexampleRecord)
    requires UniqueRecords(b) && IsNewTo(b, r.id) && IsRecordId(r.id)
    ensures AddsEntry(b, b.(counterexamples := b.counterexamples + [r]),
              Entry(G.CounterexampleNode(b.id, r), Contradicts))
  {
    forall x | x in b.counterexamples
      ensures x.id != r.id
    {
      assert Entry(G.CounterexampleNode(b.id, x), Contradicts) in Entries(b);
    }
    assert CounterexampleEntries(b.id, b.counterexamples + [r])
        == CounterexampleEntries(b.id, b.counterexamples) + {Entry(G.CounterexampleNode(b.id, r), Contradicts)};
    hide EvidenceEntries, CounterexampleEntries, ExperimentEntries, ReviewEntries;
  }

  lemma AppendsExperiment(b: Branch, r: ExperimentRecord)
    requires UniqueRecords(b) && IsNewTo(b, r.id) && IsRecordId(r.id)
    ensures AddsEntry(b, b.(experiments := b.experiments + [r]), Entry(G.ExperimentNode(b.id, r), Tests))
  {
    forall x | x in b.experiments
      ensures x.id != r.id
    {
      assert Entry(G.ExperimentNode(b.id, x), Tests) in Entries(b);
    }
    assert ExperimentEntries(b.id, b.experiments + [r])
        == ExperimentEntries(b.id, b.experiments) + {Entry(G.ExperimentNode(b.id, r), Tests)};
    hide EvidenceEntries, CounterexampleEntries, ExperimentEntries, ReviewEntries;
  }

  function WithReview(b: Branch, r: ReviewRecord, verifier: bool): Branch {
    if verifier then b.(verifierReviews := b.verifierReviews + [r]) else b.(criticReviews := b.criticReviews + [r])
  }

  lemma AppendsReview(b: Branch, r: ReviewRecord, verifier: bool)
    requires UniqueRecords(b) && IsNewTo(b, r.id) && IsRecordId(r.id)
    ensures AddsEntry(b, WithReview(b, r, verifier),
              Entry(G.ReviewNode(b.id, r), if verifier then Verifies else Reviews))
  {
    var list := if verifier then b.verifierReviews else b.criticReviews;
    var kind := if verifier then Verifies else Reviews;
    forall x | x in list
      ensures x.id != r.id
    {
      assert Entry(G.ReviewNode(b.id, x), kind) in Entries(b);
    }
    assert ReviewEntries(b.id, list + [r], verifier)
      == ReviewEntries(b.id, list, verifier) + {Entry(G.ReviewNode(b.id, r), kind)};
    hide EvidenceEntries, CounterexampleEntries, ExperimentEntries, ReviewEntries;
  }

  // ----- rewriting a record

  lemma RewritesCounterexample(b: Branch, i: nat, r: CounterexampleRecord)
    requires UniqueRecords(b) && DistinctIds(b) && i < |b.counterexamples|
    requires r == b.counterexamples[i].(resolved := r.resolved, resolution := r.resolution)
    ensures RewritesEntry(b, b.(counterexamples := b.counterexamples[i := r]),
              Entry(G.CounterexampleNode(b.id, b.counterexamples[i]), Contradicts),
              Entry(G.CounterexampleNode(b.id, r), Contradicts))
  {
    var s := b.counterexamples;
    var e, e' := Entry(G.CounterexampleNode(b.id, s[i]), Contradicts),
      Entry(G.CounterexampleNode(b.id, r), Contradicts);
    CounterexampleEntriesReplaced(b.id, s, i, r);
    assert e in CounterexampleEntries(b.id, s);
    forall f | f in EvidenceEntries(b.id, b.evidence) + ExperimentEntries(b.id, b.experiments)
                    + ReviewEntries(b.id, b.criticReviews, false) + ReviewEntries(b.id, b.verifierReviews, true)
      ensures f != e
    {}
    assert UniqueCounterexamples(s[i := r]);
    hide EvidenceEntries, CounterexampleEntries, ExperimentEntries, ReviewEntries, UniqueCounterexamples, DistinctIds;
  }

  lemma CounterexampleEntriesReplaced(b: string, s: seq<CounterexampleRecord>, i: nat, r: CounterexampleRecord)
    requires UniqueCounterexamples(s) && i < |s| && r.id == s[i].id
    ensures CounterexampleEntries(b, s[i := r])
         == CounterexampleEntries(b, s)
            - {Entry(G.CounterexampleNode(b, s[i]), Contradicts)}
            + {Entry(G.CounterexampleNode(b, r), Contradicts)}
  {
    var t := s[i := r];
    forall x | x in t
      ensures x == r || (x in s && x.id != s[i].id)
    {
      var k :| 0 <= k < |t| && t[k] == x;
      assert k != i ==> s[k] == x;
    }
    forall x | x in s
      ensures x == s[i] || x in t
    {
      var k :| 0 <= k < |s| && s[k] == x;
      assert k != i ==> t[k] == x;
    }
    assert t[i] == r;
  }

  lemma RewritesExperiment(b: Branch, i: nat, r: ExperimentRecord)
    requires UniqueRecords(b) && DistinctIds(b) && i < |b.experiments|
    requires r == b.experiments[i].(status := r.status, actualResult := r.actualResult)
    ensures RewritesEntry(b, b.(experiments := b.experiments[i := r]),
              Entry(G.ExperimentNode(b.id, b.experiments[i]), Tests), Entry(G.ExperimentNode(b.id, r), Tests))
  {
    var s := b.experiments;
    var e, e' := Entry(G.ExperimentNode(b.id, s[i]), Tests), Entry(G.ExperimentNode(b.id, r), Tests);
    ExperimentEntriesReplaced(b.id, s, i, r);
    assert e in ExperimentEntries(b.id, s);
    forall f | f in EvidenceEntries(b.id, b.evidence) + CounterexampleEntries(b.id, b.counterexamples)
                    + ReviewEntries(b.id, b.criticReviews, false) + ReviewEntries(b.id, b.verifierReviews, true)
      ensures f != e
    {}
    assert UniqueExperiments(s[i := r]);
    hide EvidenceEntries, CounterexampleEntries, ExperimentEntries, ReviewEntries, UniqueExperiments, DistinctIds;
  }

  lemma ExperimentEntriesReplaced(b: string, s: seq<ExperimentRecord>, i: nat, r: ExperimentRecord)
    requires UniqueExperiments(s) && i < |s| && r.id == s[i].id
    ensures ExperimentEntries(b, s[i := r])
         == ExperimentEntries(b, s) - {Entry(G.ExperimentNode(b, s[i]), Tests)} + {Entry(G.ExperimentNode(b, r), Tests)}
  {
    var t := s[i := r];
    forall x | x in t
      ensures x == r || (x in s && x.id != s[i].id)
    {
      var k :| 0 <= k < |t| && t[k] == x;
      assert k != i ==> s[k] == x;
    }
    forall x | x in s
      ensures x == s[i] || x in t
    {
      var k :| 0 <= k < |s| && s[k] == x;
      assert k != i ==> t[k] == x;
    }
    assert t[i] == r;
  }

  // ----- record operations

  lemma EvidenceKeepsInvariant(s: State, b: string, r: EvidenceRecord)
    requires Invariant(s) && b in s.branches && IsFresh(s, r.id)
    ensures AddEvidence(s, b, r).1.Ok? && Invariant(AddEvidence(s, b, r).0)
  {
    FreshIsNew(s, b, r.id);
    AppendsEvidence(s.branches[b], r);
    hide Invariant, AddEntry, AddsEntry;
    AddEntryKeepsInvariant(s, s.branches[b].(evidence := s.branches[b].evidence + [r]),
      Entry(G.EvidenceNode(b, r), Supports));
  }

  lemma CounterexampleKeepsInvariant(s: State, b: string, r: CounterexampleRecord)
    requires Invariant(s) && b in s.branches && IsFresh(s, r.id)
    ensures AddCounterexample(s, b, r).1.Ok? && Invariant(AddCounterexample(s, b, r).0)
    ensures AddCounterexample(s, b, r).0.branches
         == s.branches[b := Touch(s.branches[b].(counterexamples := s.branches[b].counterexamples + [r]))]
  {
    FreshIsNew(s, b, r.id);
    AppendsCounterexample(s.branches[b], r);
    hide Invariant, AddEntry, AddsEntry, Touch;
    AddEntryKeepsInvariant(s, s.branches[b].(counterexamples := s.branches[b].counterexamples + [r]),
                           Entry(G.CounterexampleNode(b, r), Contradicts));
  }

  lemma ExperimentKeepsInvariant(s: State, b: string, r: ExperimentRecord)
    requires Invariant(s) && b in s.branches && IsFresh(s, r.id)
    ensures AddExperiment(s, b, r).1.Ok? && Invariant(AddExperiment(s, b, r).0)
  {
    FreshIsNew(s, b, r.id);
    AppendsExperiment(s.branches[b], r);
    hide Invariant, AddEntry, AddsEntry;
    AddEntryKeepsInvariant(s, s.branches[b].(experiments := s.branches[b].experiments + [r]),
      Entry(G.ExperimentNode(b, r), Tests));
  }

  predicate ReviewsKnownEvidence(s: State, b: string, r: ReviewRecord) {
    b in s.branches && forall id :: id in r.checkedEvidence ==> id in G.EvidenceIds(s.branches[b].evidence)
  }

  lemma ReviewKeepsInvariant(s: State, b: string, r: ReviewRecord, verifier: bool)
    requires Invariant(s) && b in s.branches && IsFresh(s, r.id)
    ensures AddReview(s, b, r, verifier).1.Ok? <==> ReviewsKnownEvidence(s, b, r)
    ensures Invariant(AddReview(s, b, r, verifier).0)
  {
    hide Invariant, AddEntry, AddsEntry, Entries, UniqueRecords, Touch, G.EvidenceIds;
    FreshIsNew(s, b, r.id);
    AppendsReview(s.branches[b], r, verifier);
    AddEntryKeepsInvariant(s, WithReview(s.branches[b], r, verifier),
      Entry(G.ReviewNode(b, r), if verifier then Verifies else Reviews));
    assert ReviewsKnownEvidence(s, b, r) <==>
      !(exists id :: id in r.checkedEvidence && id !in G.EvidenceIds(s.branches[b].evidence));
    assert ReviewsKnownEvidence(s, b, r) ==>
      AddReview(s, b, r, verifier) == AddEntry(s, WithReview(s.branches[b], r, verifier), G.ReviewNode(b, r),
        if verifier then Verifies else Reviews);
  }

  lemma ResolveKeepsInvariant(s: State, b: string, id: string, resolution: string)
    requires Invariant(s)
    ensures Invariant(ResolveCounterexample(s, b, id, resolution).0)
    ensures ResolveCounterexample(s, b, id, resolution).1.Ok? <==>
              b in s.branches && exists r :: r in s.branches[b].counterexamples && r.id == id
  {
    if b in s.branches {
      BranchFacts(s, b);
      var branch := s.branches[b];
      var found := FindCounterexample(branch.counterexamples, id);
      if found.Some? {
        var i := found.value;
        var r := branch.counterexamples[i].(resolved := true, resolution := Some(resolution));
        RewritesCounterexample(branch, i, r);
        hide Invariant, UpdateEntry, RewritesEntry;
        UpdateEntryKeepsInvariant(s, branch.(counterexamples := branch.counterexamples[i := r]),
          Entry(G.CounterexampleNode(b, branch.counterexamples[i]), Contradicts),
            Entry(G.CounterexampleNode(b, r), Contradicts));
      }
    }
  }

  lemma BranchFacts(s: State, b: string)
    requires Invariant(s) && b in s.branches
    ensures s.branches[b].id == b && UniqueRecords(s.branches[b]) && DistinctIds(s.branches[b])
    ensures G.IsLinked(s.graph, s.branches[b])
  {
    assert IsKnownBranch(s.graph, s.branches, b) && HasDistinctRecords(s.branches[b]);
  }

  lemma UpdateExperimentKeepsInvariant(s: State, b: string, id: string, status: ExperimentStatus, actual: string)
    requires Invariant(s)
    ensures Invariant(UpdateExperiment(s, b, id, status, actual).0)
    ensures UpdateExperiment(s, b, id, status, actual).1.Ok? <==>
              b in s.branches && exists r :: r in s.branches[b].experiments && r.id == id
  {
    hide Invariant, UpdateEntry, RewritesEntry, FindExperiment;
    if b in s.branches {
      BranchFacts(s, b);
      var branch := s.branches[b];
      var found := FindExperiment(branch.experiments, id);
      if found.Some? {
        var i := found.value;
        var r := branch.experiments[i].(status := status, actualResult := Some(actual));
        RewritesExperiment(branch, i, r);
        UpdateEntryKeepsInvariant(s, branch.(experiments := branch.experiments[i := r]),
          Entry(G.ExperimentNode(b, branch.experiments[i]), Tests), Entry(G.ExperimentNode(b, r), Tests));
      }
    }
  }

  // ----- branches

  lemma FreshBranchHasNoClaim(s: State, id: string)
    requires Invariant(s) && id !in s.branches
    ensures G.ClaimId(id) !in s.graph.nodes && G.ResultId(id) !in s.graph.nodes
  {
    hide Mirrored, Backed, RecordsDistinct, BranchesLinked, CreatedInOrder, Lineage.IsForest, G.IsDag;
    forall x | x in {G.ClaimId(id), G.ResultId(id)}
      ensures x !in s.graph.nodes
    {
      ClaimIsNoRecordId(id);
      if x in s.graph.nodes {
        assert IsKnownId(s.branches, x);
        var b :| b in s.branches && (x == G.ClaimId(b) || x == G.ResultId(b));
        G.ClaimIdsDiffer(b, id);
        G.ClaimIdsDiffer(id, b);
      }
    }
  }

  lemma NewBranchLinked(s: State, h: G.Graph, branch: Branch)
    requires Invariant(s) && branch.id !in s.branches && G.Extends(s.graph, h) && G.IsLinked(h, branch)
    requires branch.parent.Some? ==> branch.parent.value in s.branches
    ensures BranchesLinked(h, s.branches[branch.id := branch])
  {
    LinksStay(s.graph, h, s.branches);
    var more := s.branches[branch.id := branch];
    forall b | b in more
      ensures IsKnownBranch(h, more, b)
    {
      if b != branch.id {
        assert IsKnownBranch(h, s.branches, b);
      }
    }
  }

  lemma NewBranchMirrored(s: State, h: G.Graph, branch: Branch)
    requires Invariant(s) && branch.id !in s.branches && Entries(branch) == {} && UniqueRecords(branch)
    requires RecordsUntouched(s.graph, h)
    requires forall id :: id in h.nodes && IsRecordKind(h.nodes[id].kind) ==>
               id in s.graph.nodes && h.nodes[id] == s.graph.nodes[id]
    ensures Mirrored(h, s.branches[branch.id := branch]) && Backed(h, s.branches[branch.id := branch])
    ensures RecordsDistinct(s.branches[branch.id := branch])
  {
    MirrorStays(s.graph, h, s.branches);
    var more := s.branches[branch.id := branch];
    hide Entries, UniqueRecords;
    forall id | id in h.nodes && IsRecordKind(h.nodes[id].kind)
      ensures IsBacked(more, h.nodes[id])
    {
      assert IsBacked(s.branches, s.graph.nodes[id]);
    }
    assert DistinctIds(branch);
  }

  lemma CreateKeepsOrder(s: State, id: string, branch: Branch)
    requires Invariant(s) && id !in s.branches
    requires branch.parent.Some? ==> branch.parent.value in s.branches
    ensures CreatedInOrder(s.branches[id := branch], s.createdAt[id := |s.branches|])
    ensures Lineage.IsForest(ParentsOf(s.branches[id := branch]), s.createdAt[id := |s.branches|])
  {
    hide Mirrored, Backed, RecordsDistinct, BranchesLinked, NodeIdsKnown, Lineage.IsForest, G.IsDag;
    var more := s.branches[id := branch];
    assert more.Keys == s.branches.Keys + {id};
    assert |more.Keys| == |s.branches.Keys| + 1 && |more| == |more.Keys| && |s.branches| == |s.branches.Keys|;
    assert ParentsOf(more) == ParentsOf(s.branches)[id := branch.parent];
    Lineage.NewBranchKeepsForest(ParentsOf(s.branches), s.createdAt, id, branch.parent, |s.branches|);
  }

  /** A branch under a known parent, or none, is created with its claim and its
      lineage edge; nothing is refused. */
  lemma CreateKeepsInvariant(s: State, id: string, hypothesis: string, parent: Option<string>)
    requires Invariant(s) && id !in s.branches
    ensures Invariant(CreateBranch(s, id, hypothesis, parent).0)
    ensures CreateBranch(s, id, hypothesis, parent).1.Ok? <==> (parent.Some? ==> parent.value in s.branches)
  {
    hide Mirrored, Backed, RecordsDistinct, NodeIdsKnown, CreatedInOrder, Lineage.IsForest, G.IsDag, BranchesLinked;
    hide Entries, UniqueRecords, G.EnsureBranch, ParentsOf;
    if parent.Some? ==> parent.value in s.branches {
      var branch := NewBranch(id, hypothesis, parent);
      FreshBranchHasNoClaim(s, id);
      if parent.Some? {
        BranchFacts(s, parent.value);
      }
      G.FreshBranchIsAccepted(s.graph, branch);
      G.EnsureBranchKeepsDag(s.graph, branch);
      var h := G.EnsureBranch(s.graph, branch).0;
      ClaimIsNoRecordId(id);
      NewBranchLinked(s, h, branch);
      NewBranchHasNoEntries(id, hypothesis, parent);
      NewBranchMirrored(s, h, branch);
      CreateKeepsOrder(s, id, branch);
      NodeIdsAfterCreate(s, h, branch);
    }
  }

  lemma NewBranchHasNoEntries(id: string, hypothesis: string, parent: Option<string>)
    ensures Entries(NewBranch(id, hypothesis, parent)) == {} && UniqueRecords(NewBranch(id, hypothesis, parent))
  {
  }

  lemma NodeIdsAfterCreate(s: State, h: G.Graph, branch: Branch)
    requires Invariant(s) && h.nodes == s.graph.nodes[G.ClaimId(branch.id) := G.ClaimNode(branch)]
    ensures NodeIdsKnown(h, s.branches[branch.id := branch])
  {
    var more := s.branches[branch.id := branch];
    hide Mirrored, Backed, RecordsDistinct, BranchesLinked, CreatedInOrder, Lineage.IsForest, G.IsDag;
    forall id | id in h.nodes
      ensures IsKnownId(more, id)
    {
      if id == G.ClaimId(branch.id) {
        ClaimIdKnown(more, branch.id);
      } else {
        assert IsKnownId(s.branches, id);
        if !IsRecordId(id) {
          var x :| x in s.branches && (id == G.ClaimId(x) || id == G.ResultId(x));
          assert x in more;
        }
      }
    }
  }

  lemma ArchiveKeepsInvariant(s: State, b: string)
    requires Invariant(s)
    ensures Invariant(ArchiveBranch(s, b).0)
    ensures ArchiveBranch(s, b).1.Ok? <==> b in s.branches
  {
    hide Invariant, Entries, UniqueRecords;
    if b in s.branches {
      BranchFacts(s, b);
      var branch := s.branches[b].(status := Archived);
      StatusKeepsEntries(s.branches[b], branch);
      StatusStepKeepsInvariant(s, b, branch);
    }
  }

  lemma StatusKeepsEntries(b: Branch, b': Branch)
    requires b' == b.(status := b'.status, result := b'.result)
    ensures Entries(b') == Entries(b) && UniqueRecords(b') == UniqueRecords(b)
  {
  }

  // ----- results, knowledge and other graph steps

  lemma SetResultNodes(g: G.Graph, branch: Branch)
    requires G.IsDag(g)
    ensures var h := G.SetResult(g, branch).0;
            forall id :: id in h.nodes ==>
              (id in g.nodes && h.nodes[id] == g.nodes[id]) || h.nodes[id] == G.ClaimNode(branch)
              || (branch.result.Some? && h.nodes[id] == G.ResultNode(branch.id, branch.result.value))
    ensures var h := G.SetResult(g, branch).0;
            forall id :: id in h.nodes && id !in {G.ClaimId(branch.id), G.ResultId(branch.id)} ==>
              id in g.nodes && h.nodes[id] == g.nodes[id]
  {
    if branch.result.Some? && branch.result.value != "" {
      G.EnsureBranchKeepsDag(g, branch);
      var (g1, r1) := G.EnsureBranch(g, branch);
      var node := G.ResultNode(branch.id, branch.result.value);
      G.PutNodeKeepsDag(g1, node);
      G.DeriveAllKeepsDag(G.PutNode(g1, node), G.ResultId(branch.id), G.RecordIds(branch), branch.id);
    }
  }

  lemma ResultAddsOnlyOthers(s: State, b: string, branch: Branch)
    requires Invariant(s) && b in s.branches && branch.id == b
    ensures AddsOnlyOthers(s.graph, G.SetResult(s.graph, branch).0, s.branches)
    ensures G.IsDag(G.SetResult(s.graph, branch).0)
  {
    hide Mirrored, Backed, RecordsDistinct, BranchesLinked, CreatedInOrder, Lineage.IsForest, G.IsDag, G.SetResult,
      NodeIdsKnown;
    hide IsKnownId, IsRecordId;
    var g, h := s.graph, G.SetResult(s.graph, branch).0;
    SetResultNodes(g, branch);
    G.SetResultKeepsDag(g, branch);
    ClaimIsNoRecordId(b);
    ClaimIdKnown(s.branches, b);
    forall id | id in g.nodes && IsRecordId(id)
      ensures h.nodes[id] == g.nodes[id]
    {
      assert id in h.nodes;
    }
  }

  /** Recording a result keeps the correspondence even when an edge is refused. */
  lemma ResultKeepsInvariant(s: State, b: string, result: string)
    requires Invariant(s)
    ensures Invariant(SetResult(s, b, result).0)
  {
    hide Invariant, Entries, UniqueRecords, AddsOnlyOthers, G.SetResult, Touch, G.IsDag;
    if b in s.branches {
      BranchFacts(s, b);
      var branch := s.branches[b].(result := Some(result));
      var t := s.(graph := G.SetResult(s.graph, branch).0);
      ResultAddsOnlyOthers(s, b, branch);
      StatusKeepsEntries(s.branches[b], branch);
      TouchKeepsRecords(branch);
      GraphStepKeepsInvariant(s, t.graph);
      StatusStepKeepsInvariant(t, b, branch);
      StatusStepKeepsInvariant(t, b, Touch(branch));
    }
  }

  /** Attaching a fresh node that is no record's. */
  lemma AttachKeepsInvariant(s: State, node: Node, target: string, kind: EdgeKind, branch: Option<string>)
    requires Invariant(s) && IsFresh(s, node.id) && !IsRecordKind(node.kind)
    ensures Invariant(s.(graph := G.Attach(s.graph, node, target, kind, branch).0))
    ensures target in s.graph.nodes ==> G.Attach(s.graph, node, target, kind, branch).1.Ok?
  {
    hide Mirrored, Backed, RecordsDistinct, BranchesLinked, CreatedInOrder, Lineage.IsForest, G.IsDag, NodeIdsKnown,
      G.EnsureEdge;
    hide IsRecordId;
    var g1 := G.PutNode(s.graph, node);
    G.PutNodeKeepsDag(s.graph, node);
    var e := Edge(node.id, target, kind, branch);
    G.EnsureEdgeKeepsDag(g1, e);
    if target in s.graph.nodes {
      G.FreshNodeIsAccepted(s.graph, node, target, kind, branch);
    }
    var h := G.EnsureEdge(g1, e).0;
    assert h.nodes == s.graph.nodes[node.id := node];
    assert AddsOnlyOthers(s.graph, h, s.branches);
    GraphStepKeepsInvariant(s, h);
  }

  lemma EdgeKeepsInvariant(s: State, e: Edge)
    requires Invariant(s)
    ensures Invariant(s.(graph := G.EnsureEdge(s.graph, e).0))
  {
    hide Mirrored, Backed, RecordsDistinct, BranchesLinked, CreatedInOrder, Lineage.IsForest, G.IsDag, NodeIdsKnown,
      G.EnsureEdge;
    G.EnsureEdgeKeepsDag(s.graph, e);
    var h := G.EnsureEdge(s.graph, e).0;
    assert AddsOnlyOthers(s.graph, h, s.branches);
    GraphStepKeepsInvariant(s, h);
  }

  lemma SameGraphInvariant(s: State, accepted: map<string, string>)
    requires Invariant(s)
    ensures Invariant(s.(accepted := accepted))
  {
  }

  /** Promotion of a verified branch is never refused by the graph. */
  lemma AcceptKeepsInvariant(s: State, b: string, id: string, gatePassed: bool)
    requires Invariant(s) && IsFresh(s, id)
    ensures Invariant(Accept(s, b, id, gatePassed).0)
    ensures Accept(s, b, id, gatePassed).1.Ok? <==> b in s.branches && gatePassed
  {
    hide Invariant, Entries, UniqueRecords, G.Attach, G.IsLinked, IsRecordKind;
    if b in s.branches && gatePassed && !(exists k :: k in s.accepted && s.accepted[k] == b) {
      BranchFacts(s, b);
      ClaimIsStored(s, b);
      var branch := s.branches[b];
      var statement := if branch.result.Some? && branch.result.value != "" then branch.result.value
        else branch.hypothesis;
      var node := Node(id, Some(b), Knowledge, statement, Plain);
      var target := if G.ResultId(b) in s.graph.nodes then G.ResultId(b) else G.ClaimId(b);
      ClaimIsNoRecordId(b);
      KnowledgeIsNoRecord(node);
      AttachKeepsInvariant(s, node, target, DerivedFrom, Some(b));
      KnowledgeIsAttached(s.graph, id, b, statement, node, target);
      var t := s.(graph := G.AddKnowledge(s.graph, id, b, statement).0);
      var verified := branch.(status := Verified);
      StatusKeepsEntries(branch, verified);
      StatusStepKeepsInvariant(t, b, verified);
      SameGraphInvariant(t.(branches := t.branches[b := verified]), s.accepted[id := b]);
    }
  }

  lemma KnowledgeIsNoRecord(node: Node)
    ensures node.kind.Knowledge? || node.kind.Challenge? || node.kind.CouncilReview? ==> !IsRecordKind(node.kind)
  {
  }

  lemma ClaimIsStored(s: State, b: string)
    requires Invariant(s) && b in s.branches
    ensures G.ClaimId(b) in s.graph.nodes
  {
    assert IsKnownBranch(s.graph, s.branches, b);
  }

  lemma KnowledgeIsAttached(g: G.Graph, id: string, b: string, statement: string, node: Node, target: string)
    requires node == Node(id, Some(b), Knowledge, statement, Plain)
    requires target == if G.ResultId(b) in g.nodes then G.ResultId(b) else G.ClaimId(b)
    requires target in g.nodes && id != G.ResultId(b)
    ensures G.AddKnowledge(g, id, b, statement) == G.Attach(g, node, target, DerivedFrom, Some(b))
  {
  }

  // ----- runs

  datatype Operation =
    | CreateOp(id: string, hypothesis: string, parent: Option<string>)
    | ArchiveOp(b: string)
    | EvidenceOp(b: string, evidence: EvidenceRecord)
    | CounterexampleOp(b: string, counterexample: CounterexampleRecord)
    | ResolveOp(b: string, record: string, resolution: string)
    | ExperimentOp(b: string, experiment: ExperimentRecord)
    | UpdateExperimentOp(b: string, record: string, status: ExperimentStatus, actual: string)
    | ResultOp(b: string, result: string)
    | ReviewOp(b: string, review: ReviewRecord, verifier: bool)
    | AcceptOp(b: string, id: string, gatePassed: bool)
    | OtherNodeOp(node: Node, target: string, kind: EdgeKind, branch: Option<string>)
    | EdgeOp(edge: Edge)

  /** The ids an operation draws are fresh; council, challenge and successor nodes
      (OtherNodeOp) are no records. */
  predicate Draws(s: State, op: Operation) {
    match op
    case CreateOp(id, _, _) => id !in s.branches
    case EvidenceOp(_, r) => IsFresh(s, r.id)
    case CounterexampleOp(_, r) => IsFresh(s, r.id)
    case ExperimentOp(_, r) => IsFresh(s, r.id)
    case ReviewOp(_, r, _) => IsFresh(s, r.id)
    case AcceptOp(_, id, _) => IsFresh(s, id)
    case OtherNodeOp(node, _, _, _) => IsFresh(s, node.id) && !IsRecordKind(node.kind)
    case _ => true
  }

  ghost function Apply(s: State, op: Operation): (State, Outcome) {
    match op
    case CreateOp(id, hypothesis, parent) => CreateBranch(s, id, hypothesis, parent)
    case ArchiveOp(b) => ArchiveBranch(s, b)
    case EvidenceOp(b, r) => AddEvidence(s, b, r)
    case CounterexampleOp(b, r) => AddCounterexample(s, b, r)
    case ResolveOp(b, id, resolution) => ResolveCounterexample(s, b, id, resolution)
    case ExperimentOp(b, r) => AddExperiment(s, b, r)
    case UpdateExperimentOp(b, id, status, actual) => UpdateExperiment(s, b, id, status, actual)
    case ResultOp(b, result) => SetResult(s, b, result)
    case ReviewOp(b, r, verifier) => AddReview(s, b, r, verifier)
    case AcceptOp(b, id, gatePassed) => Accept(s, b, id, gatePassed)
    case OtherNodeOp(node, target, kind, branch) =>
      var (g, r) := G.Attach(s.graph, node, target, kind, branch); (s.(graph := g), r)
    case EdgeOp(e) => var (g, r) := G.EnsureEdge(s.graph, e); (s.(graph := g), r)
  }

  lemma ApplyKeepsInvariant(s: State, op: Operation)
    requires Invariant(s) && Draws(s, op)
    ensures Invariant(Apply(s, op).0)
  {
    hide Invariant;
    match op
    case CreateOp(id, hypothesis, parent) => CreateKeepsInvariant(s, id, hypothesis, parent);
    case ArchiveOp(b) => ArchiveKeepsInvariant(s, b);
    case EvidenceOp(b, r) => if b in s.branches { EvidenceKeepsInvariant(s, b, r); }
    case CounterexampleOp(b, r) => if b in s.branches { CounterexampleKeepsInvariant(s, b, r); }
    case ResolveOp(b, id, resolution) => ResolveKeepsInvariant(s, b, id, resolution);
    case ExperimentOp(b, r) => if b in s.branches { ExperimentKeepsInvariant(s, b, r); }
    case UpdateExperimentOp(b, id, status, actual) => UpdateExperimentKeepsInvariant(s, b, id, status, actual);
    case ResultOp(b, result) => ResultKeepsInvariant(s, b, result);
    case ReviewOp(b, r, verifier) => if b in s.branches { ReviewKeepsInvariant(s, b, r, verifier); }
    case AcceptOp(b, id, gatePassed) => AcceptKeepsInvariant(s, b, id, gatePassed);
    case OtherNodeOp(node, target, kind, branch) => AttachKeepsInvariant(s, node, target, kind, branch);
    case EdgeOp(e) => EdgeKeepsInvariant(s, e);
  }

  ghost function Run(ops: seq<Operation>): State {
    if ops == [] then Initial else Apply(Run(ops[..|ops| - 1]), ops[|ops| - 1]).0
  }

  ghost predicate DrawsFreshIds(ops: seq<Operation>) {
    ops == [] || (DrawsFreshIds(ops[..|ops| - 1]) && Draws(Run(ops[..|ops| - 1]), ops[|ops| - 1]))
  }

  /** In every reachable state branches and graph correspond, parents form a
      forest and the graph is a DAG. */
  lemma {:induction false} EveryRunKeepsInvariant(ops: seq<Operation>)
    requires DrawsFreshIds(ops)
    ensures Invariant(Run(ops))
  {
    if ops == [] {
      G.EmptyIsDag();
      assert ParentsOf(Initial.branches) == map[];
    } else {
      EveryRunKeepsInvariant(ops[..|ops| - 1]);
      ApplyKeepsInvariant(Run(ops[..|ops| - 1]), ops[|ops| - 1]);
    }
  }

  /** In every reachable store the depths of all branches sum to their descendant counts. */
  lemma ReachableDepthsSum(ops: seq<Operation>, depth: map<string, nat>, descendants: map<string, nat>)
    requires DrawsFreshIds(ops)
    requires depth.Keys == descendants.Keys == Run(ops).branches.Keys
    ensures Lineage.IsForest(ParentsOf(Run(ops).branches), Run(ops).createdAt)
    ensures var parents, rank := ParentsOf(Run(ops).branches), Run(ops).createdAt;
            (forall b :: b in parents ==> depth[b] == |Lineage.Ancestors(parents, rank, b)|)
            && (forall b :: b in parents ==> descendants[b] == |Lineage.Descendants(parents, rank, b)|)
            ==> Lineage.Sum(parents.Keys, depth) == Lineage.Sum(parents.Keys, descendants)
  {
    EveryRunKeepsInvariant(ops);
    hide Run, DrawsFreshIds, Lineage.IsForest, Lineage.Ancestors, Lineage.Descendants, Lineage.Sum;
    var parents, rank := ParentsOf(Run(ops).branches), Run(ops).createdAt;
    if (forall b :: b in parents ==> depth[b] == |Lineage.Ancestors(parents, rank, b)|)
       && (forall b :: b in parents ==> descendants[b] == |Lineage.Descendants(parents, rank, b)|) {
      Lineage.DepthsSumToDescendants(parents, rank, depth, descendants);
    }
  }

  lemma EntryIsInGraph(s: State, b: string, e: Entry)
    requires Invariant(s) && b in s.branches && e in Entries(s.branches[b])
    ensures e.node.id in s.graph.nodes && s.graph.nodes[e.node.id] == e.node
    ensures G.HasTriple(s.graph.edges, e.node.id, G.ClaimId(b), e.kind)
  {
    assert IsMirrored(s.graph, b, e);
  }

  lemma NodeHasEntry(s: State, b: string, id: string) returns (e: Entry)
    requires Invariant(s) && b in s.branches && id in s.graph.nodes
    requires IsRecordKind(s.graph.nodes[id].kind) && s.graph.nodes[id].branch == Some(b)
    ensures e in Entries(s.branches[b]) && e.node == s.graph.nodes[id] && e.node.id == id
  {
    assert IsBacked(s.branches, s.graph.nodes[id]);
    e :| e in Entries(s.branches[b]) && e.node == s.graph.nodes[id];
  }

  lemma CounterexampleEntry(b: Branch, e: Entry) returns (r: CounterexampleRecord)
    requires e in Entries(b) && e.node.kind.Counterexample?
    ensures r in b.counterexamples && e == Entry(G.CounterexampleNode(b.id, r), Contradicts)
  {
    assert e in CounterexampleEntries(b.id, b.counterexamples);
    r :| r in b.counterexamples && e == Entry(G.CounterexampleNode(b.id, r), Contradicts);
  }

  lemma ExperimentEntry(b: Branch, e: Entry) returns (r: ExperimentRecord)
    requires e in Entries(b) && e.node.kind.Experiment?
    ensures r in b.experiments && e == Entry(G.ExperimentNode(b.id, r), Tests)
  {
    assert e in ExperimentEntries(b.id, b.experiments);
    r :| r in b.experiments && e == Entry(G.ExperimentNode(b.id, r), Tests);
  }

  lemma RecordsHaveEntries(b: Branch)
    ensures forall r :: r in b.counterexamples ==> Entry(G.CounterexampleNode(b.id, r), Contradicts) in Entries(b)
    ensures forall r :: r in b.experiments ==> Entry(G.ExperimentNode(b.id, r), Tests) in Entries(b)
  {
  }

  /** One to one: every evidence, counterexample, experiment and review record of a
      branch has exactly its own node and its typed edge into the claim, and the
      graph has no other record nodes of the branch. */
  lemma RecordsMatchNodes(s: State, b: string)
    requires Invariant(s) && b in s.branches
    ensures forall e :: e in Entries(s.branches[b]) ==>
              && e.node.id in s.graph.nodes && s.graph.nodes[e.node.id] == e.node
              && G.HasTriple(s.graph.edges, e.node.id, G.ClaimId(b), e.kind)
    ensures forall id ::
              id in s.graph.nodes && IsRecordKind(s.graph.nodes[id].kind) && s.graph.nodes[id].branch == Some(b) ==>
              exists e :: e in Entries(s.branches[b]) && e.node == s.graph.nodes[id] && e.node.id == id
    ensures forall e, f ::
              e in Entries(s.branches[b]) && f in Entries(s.branches[b]) && e.node.id == f.node.id ==> e == f
  {
    BranchFacts(s, b);
    hide Invariant, Entries;
    forall e | e in Entries(s.branches[b])
      ensures e.node.id in s.graph.nodes && s.graph.nodes[e.node.id] == e.node
      ensures G.HasTriple(s.graph.edges, e.node.id, G.ClaimId(b), e.kind)
    {
      EntryIsInGraph(s, b, e);
    }
    forall id | id in s.graph.nodes && IsRecordKind(s.graph.nodes[id].kind) && s.graph.nodes[id].branch == Some(b)
      ensures exists e :: e in Entries(s.branches[b]) && e.node == s.graph.nodes[id] && e.node.id == id
    {
      var e := NodeHasEntry(s, b, id);
    }
  }

  /** One to one: a counterexample of a branch has exactly its own node, with the
      current resolution, and a contradicts edge into the claim; and every
      counterexample node of the branch is one of its counterexamples. */
  lemma CounterexamplesMatchNodes(s: State, b: string)
    requires Invariant(s) && b in s.branches
    ensures forall r :: r in s.branches[b].counterexamples ==>
              && r.id in s.graph.nodes
              && s.graph.nodes[r.id] == G.CounterexampleNode(b, r)
              && G.HasTriple(s.graph.edges, r.id, G.ClaimId(b), Contradicts)
    ensures forall id ::
              id in s.graph.nodes && s.graph.nodes[id].kind.Counterexample? && s.graph.nodes[id].branch == Some(b) ==>
                exists r ::
                  r in s.branches[b].counterexamples && r.id == id && s.graph.nodes[id] == G.CounterexampleNode(b, r)
  {
    hide Invariant, Entries, G.HasTriple;
    BranchFacts(s, b);
    RecordsHaveEntries(s.branches[b]);
    forall r | r in s.branches[b].counterexamples
      ensures r.id in s.graph.nodes && s.graph.nodes[r.id] == G.CounterexampleNode(b, r)
      ensures G.HasTriple(s.graph.edges, r.id, G.ClaimId(b), Contradicts)
    {
      EntryIsInGraph(s, b, Entry(G.CounterexampleNode(b, r), Contradicts));
    }
    forall id | id in s.graph.nodes && s.graph.nodes[id].kind.Counterexample? && s.graph.nodes[id].branch == Some(b)
      ensures exists r ::
                r in s.branches[b].counterexamples && r.id == id && s.graph.nodes[id] == G.CounterexampleNode(b, r)
    {
      var e := NodeHasEntry(s, b, id);
      var r := CounterexampleEntry(s.branches[b], e);
    }
  }

  /** The same for experiments and their status. */
  lemma ExperimentsMatchNodes(s: State, b: string)
    requires Invariant(s) && b in s.branches
    ensures forall r :: r in s.branches[b].experiments ==>
              && r.id in s.graph.nodes
              && s.graph.nodes[r.id] == G.ExperimentNode(b, r)
              && G.HasTriple(s.graph.edges, r.id, G.ClaimId(b), Tests)
    ensures forall id ::
              id in s.graph.nodes && s.graph.nodes[id].kind.Experiment? && s.graph.nodes[id].branch == Some(b) ==>
              exists r :: r in s.branches[b].experiments && r.id == id && s.graph.nodes[id] == G.ExperimentNode(b, r)
  {
    hide Invariant, Entries, G.HasTriple;
    BranchFacts(s, b);
    RecordsHaveEntries(s.branches[b]);
    forall r | r in s.branches[b].experiments
      ensures r.id in s.graph.nodes && s.graph.nodes[r.id] == G.ExperimentNode(b, r)
      ensures G.HasTriple(s.graph.edges, r.id, G.ClaimId(b), Tests)
    {
      EntryIsInGraph(s, b, Entry(G.ExperimentNode(b, r), Tests));
    }
    forall id | id in s.graph.nodes && s.graph.nodes[id].kind.Experiment? && s.graph.nodes[id].branch == Some(b)
      ensures exists r :: r in s.branches[b].experiments && r.id == id && s.graph.nodes[id] == G.ExperimentNode(b, r)
    {
      var e := NodeHasEntry(s, b, id);
      var r := ExperimentEntry(s.branches[b], e);
    }
  }
}
