/** Every operation of the research service keeps branches and evidence graph in
    one-to-one correspondence, and none of the record operations is refused. Adding
    a record and rewriting one are treated once for all kinds of records. */
module ResearchInvariant {
  import opened Wrappers
  import opened Schema
  import opened Research
  import G = EvidenceGraph
  import GraphTheory
  import Lineage

  // ----- growing graphs

  /** Record nodes stay as they are and edges are only added. */
  predicate RecordsUntouched(g: G.Graph, h: G.Graph) {
    && G.Extends(g, h)
    && forall id :: id in g.nodes && IsRecordId(id) ==> h.nodes[id] == g.nodes[id]
  }

  lemma TripleStays(edges: seq<Edge>, more: seq<Edge>, a: string, b: string, kind: EdgeKind)
    requires edges <= more && G.HasTriple(edges, a, b, kind)
    ensures G.HasTriple(more, a, b, kind)
  {
    var e :| e in edges && G.IsTriple(e, a, b, kind);
    assert e in more;
  }

  lemma MirrorStays(g: G.Graph, h: G.Graph, branches: map<string, Branch>)
    requires RecordsUntouched(g, h) && Mirrored(g, branches)
    ensures Mirrored(h, branches)
  {
    forall b, e | b in branches && e in Entries(branches[b])
      ensures IsMirrored(h, b, e)
    {
      assert IsMirrored(g, b, e);
      TripleStays(g.edges, h.edges, e.node.id, G.ClaimId(b), e.kind);
    }
  }

  lemma LinksStay(g: G.Graph, h: G.Graph, branches: map<string, Branch>)
    requires G.Extends(g, h) && BranchesLinked(g, branches)
    ensures BranchesLinked(h, branches)
  {
    forall b | b in branches
      ensures IsKnownBranch(h, branches, b)
    {
      assert IsKnownBranch(g, branches, b);
      var p := branches[b].parent;
      if p.Some? {
        TripleStays(g.edges, h.edges, G.ClaimId(b), G.ClaimId(p.value), ForkedFrom);
      }
    }
  }

  // ----- rewriting one branch

  /** Same identity and lineage. */
  predicate SameBranch(old_: Branch, new_: Branch) {
    new_.id == old_.id && new_.parent == old_.parent && new_.hypothesis == old_.hypothesis
  }

  lemma TouchKeepsRecords(b: Branch)
    ensures SameBranch(b, Touch(b)) && Entries(Touch(b)) == Entries(b)
    ensures UniqueRecords(Touch(b)) == UniqueRecords(b) && DistinctIds(Touch(b)) == DistinctIds(b)
  {
    assert Entries(Touch(b)) == Entries(b);
  }

  lemma RewriteKeepsLineage(
    branches: map<string, Branch>, createdAt: map<string, nat>, g: G.Graph, b: string, branch: Branch)
    requires b in branches && SameBranch(branches[b], branch)
    requires BranchesLinked(g, branches) && CreatedInOrder(branches, createdAt)
    requires Lineage.IsForest(ParentsOf(branches), createdAt)
    ensures BranchesLinked(g, branches[b := branch]) && CreatedInOrder(branches[b := branch], createdAt)
    ensures Lineage.IsForest(ParentsOf(branches[b := branch]), createdAt)
    ensures ParentsOf(branches[b := branch]) == ParentsOf(branches)
  {
    var more := branches[b := branch];
    assert more.Keys == branches.Keys;
    assert |more| == |more.Keys| && |branches| == |branches.Keys|;
    assert ParentsOf(more) == ParentsOf(branches);
    forall x | x in more
      ensures IsKnownBranch(g, more, x)
    {
      assert IsKnownBranch(g, branches, x);
    }
  }

  lemma RewriteKeepsNodeIds(g: G.Graph, branches: map<string, Branch>, b: string, branch: Branch)
    requires NodeIdsKnown(g, branches) && b in branches
    ensures NodeIdsKnown(g, branches[b := branch])
  {
    forall id | id in g.nodes
      ensures IsKnownId(branches[b := branch], id)
    {
      assert IsKnownId(branches, id);
      if !IsRecordId(id) {
        var x :| x in branches && (id == G.ClaimId(x) || id == G.ResultId(x));
        assert x in branches[b := branch];
      }
    }
  }

  lemma KnownIdsGrow(g: G.Graph, h: G.Graph, branches: map<string, Branch>)
    requires NodeIdsKnown(g, branches)
    requires forall id :: id in h.nodes && id !in g.nodes ==> IsKnownId(branches, id)
    ensures NodeIdsKnown(h, branches)
  {
  }

  lemma ClaimIsNoRecordId(b: string)
    ensures !IsRecordId(G.ClaimId(b)) && !IsRecordId(G.ResultId(b))
  {
    assert G.ClaimId(b)[..6] == "claim:" && G.ResultId(b)[..7] == "result:";
  }

  // ----- adding a record

  predicate AddsEntry(old_: Branch, new_: Branch, e: Entry) {
    && SameBranch(old_, new_) && Entries(new_) == Entries(old_) + {e}
    && e.node.branch == Some(old_.id) && IsRecordKind(e.node.kind) && IsRecordId(e.node.id)
    && UniqueRecords(new_)
  }

  lemma AddedEntryIsMirrored(g: G.Graph, h: G.Graph, branches: map<string, Branch>, b: string, branch: Branch, e: Entry)
    requires RecordsUntouched(g, h) && Mirrored(g, branches) && b in branches
    requires Entries(branch) == Entries(branches[b]) + {e} && IsMirrored(h, b, e)
    ensures Mirrored(h, branches[b := branch])
  {
    MirrorStays(g, h, branches);
    forall x, f | x in branches[b := branch] && f in Entries(branches[b := branch][x])
      ensures IsMirrored(h, x, f)
    {
      if !(x == b && f == e) {
        assert f in Entries(branches[x]);
      }
    }
  }

  lemma AddedEntryIsBacked(g: G.Graph, h: G.Graph, branches: map<string, Branch>, b: string, branch: Branch, e: Entry)
    requires Backed(g, branches) && b in branches
    requires Entries(branch) == Entries(branches[b]) + {e} && e.node.branch == Some(b)
    requires forall id :: id in h.nodes && IsRecordKind(h.nodes[id].kind) ==>
               h.nodes[id] == e.node || (id in g.nodes && h.nodes[id] == g.nodes[id])
    ensures Backed(h, branches[b := branch])
  {
    var more := branches[b := branch];
    forall id | id in h.nodes && IsRecordKind(h.nodes[id].kind)
      ensures IsBacked(more, h.nodes[id])
    {
      var n := h.nodes[id];
      if n == e.node {
        assert e in Entries(more[b]);
      } else {
        assert IsBacked(branches, n);
        var f :| f in Entries(branches[n.branch.value]) && f.node == n;
        assert f in Entries(more[n.branch.value]);
      }
    }
  }

  lemma AddedEntryIsDistinct(g: G.Graph, branches: map<string, Branch>, b: string, branch: Branch, e: Entry)
    requires Mirrored(g, branches) && RecordsDistinct(branches) && b in branches
    requires Entries(branch) == Entries(branches[b]) + {e} && e.node.id !in g.nodes && UniqueRecords(branch)
    ensures RecordsDistinct(branches[b := branch])
  {
    hide Entries, UniqueRecords, G.HasTriple, IsRecordId;
    forall f | f in Entries(branches[b])
      ensures f.node.id != e.node.id
    {
      assert IsMirrored(g, b, f);
    }
    assert HasDistinctRecords(branches[b]);
    assert DistinctIds(branch);
  }

  /** Adding a fresh record is never refused and keeps the correspondence. */
  lemma AddEntryKeepsInvariant(s: State, branch: Branch, e: Entry)
    requires Invariant(s) && branch.id in s.branches
    requires AddsEntry(s.branches[branch.id], branch, e) && e.node.id !in s.graph.nodes
    ensures AddEntry(s, branch, e.node, e.kind).1.Ok?
    ensures Invariant(AddEntry(s, branch, e.node, e.kind).0)
    ensures AddEntry(s, branch, e.node, e.kind).0.branches == s.branches[branch.id := Touch(branch)]
  {
    hide Mirrored, Backed, RecordsDistinct, NodeIdsKnown, CreatedInOrder, Entries, DistinctIds, UniqueRecords;
    hide Lineage.IsForest, G.IsDag, G.AddRecord, Touch, BranchesLinked;
    var b := branch.id;
    var g := s.graph;
    KnownBranchIsLinked(s, branch);
    G.FreshRecordIsAccepted(g, branch, e.node, e.kind);
    G.AddRecordKeepsDag(g, branch, e.node, e.kind);
    var h := G.AddRecord(g, branch, e.node, e.kind).0;
    ClaimIsNoRecordId(b);
    NewEdgeIsStored(h, e, b);
    var touched := Touch(branch);
    TouchKeepsRecords(branch);
    AddedEntryIsMirrored(g, h, s.branches, b, touched, e);
    AddedEntryIsBacked(g, h, s.branches, b, touched, e);
    AddedEntryIsDistinct(g, s.branches, b, touched, e);
    RewriteKeepsLineage(s.branches, s.createdAt, g, b, touched);
    LinksStay(g, h, s.branches[b := touched]);
    RewriteKeepsNodeIds(g, s.branches, b, touched);
    ClaimIdKnown(s.branches[b := touched], b);
    KnownIdsGrow(g, h, s.branches[b := touched]);
  }

  lemma ClaimIdKnown(branches: map<string, Branch>, b: string)
    requires b in branches
    ensures IsKnownId(branches, G.ClaimId(b)) && IsKnownId(branches, G.ResultId(b))
  {
  }

  lemma KnownBranchIsLinked(s: State, branch: Branch)
    requires Invariant(s) && branch.id in s.branches && SameBranch(s.branches[branch.id], branch)
    ensures G.IsLinked(s.graph, branch)
  {
    assert IsKnownBranch(s.graph, s.branches, branch.id);
  }

  lemma NewEdgeIsStored(h: G.Graph, e: Entry, b: string)
    requires h.edges != [] && h.edges[|h.edges| - 1] == Edge(e.node.id, G.ClaimId(b), e.kind, Some(b))
    ensures G.HasTriple(h.edges, e.node.id, G.ClaimId(b), e.kind)
  {
    var x := h.edges[|h.edges| - 1];
    assert x in h.edges && G.IsTriple(x, e.node.id, G.ClaimId(b), e.kind);
  }

  // ----- rewriting a record

  predicate RewritesEntry(old_: Branch, new_: Branch, e: Entry, e': Entry) {
    && SameBranch(old_, new_) && e in Entries(old_)
    && Entries(new_) == Entries(old_) - {e} + {e'}
    && e'.kind == e.kind && e'.node == e.node.(metadata := e'.node.metadata)
    && UniqueRecords(new_)
  }

  lemma EntryNamesItsBranch(b: Branch, f: Entry)
    requires f in Entries(b)
    ensures f.node.branch == Some(b.id)
  {
  }

  predicate IdsMatch(branches: map<string, Branch>) {
    forall b :: b in branches ==> branches[b].id == b
  }

  /** Over the whole store an id belongs to one entry. */
  lemma OneEntryPerId(g: G.Graph, branches: map<string, Branch>, b: string, e: Entry, x: string, f: Entry)
    requires Mirrored(g, branches) && RecordsDistinct(branches) && IdsMatch(branches)
    requires b in branches && e in Entries(branches[b]) && x in branches && f in Entries(branches[x])
    requires e.node.id == f.node.id
    ensures x == b && e == f
  {
    hide Entries, UniqueRecords;
    assert IsMirrored(g, b, e) && IsMirrored(g, x, f);
    EntryNamesItsBranch(branches[b], e);
    EntryNamesItsBranch(branches[x], f);
    assert HasDistinctRecords(branches[b]);
  }

  lemma RewrittenEntryIsMirrored(
    g: G.Graph, h: G.Graph, branches: map<string, Branch>, b: string, branch: Branch, e: Entry, e': Entry)
    requires Mirrored(g, branches) && RecordsDistinct(branches) && IdsMatch(branches) && b in branches
    requires RewritesEntry(branches[b], branch, e, e')
    requires h == g.(nodes := g.nodes[e.node.id := e'.node])
    ensures Mirrored(h, branches[b := branch])
  {
    hide Entries, UniqueRecords, RecordsDistinct, G.HasTriple, IsRecordId;
    var more := branches[b := branch];
    assert IsMirrored(g, b, e);
    forall x, f | x in more && f in Entries(more[x])
      ensures IsMirrored(h, x, f)
    {
      if !(x == b && f == e') {
        assert f in Entries(branches[x]) && !(x == b && f == e);
        assert IsMirrored(g, x, f);
        if f.node.id == e.node.id {
          OneEntryPerId(g, branches, b, e, x, f);
        }
      }
    }
  }

  lemma RewrittenEntryIsBacked(
    g: G.Graph, h: G.Graph, branches: map<string, Branch>, b: string, branch: Branch, e: Entry, e': Entry)
    requires Mirrored(g, branches) && Backed(g, branches) && IdsMatch(branches) && b in branches
    requires RewritesEntry(branches[b], branch, e, e')
    requires h == g.(nodes := g.nodes[e.node.id := e'.node]) && G.KeyedById(g.nodes)
    ensures Backed(h, branches[b := branch])
  {
    hide UniqueRecords, RecordsDistinct, G.HasTriple, IsRecordId, Entries;
    var more := branches[b := branch];
    EntryNamesItsBranch(branches[b], e);
    forall id | id in h.nodes && IsRecordKind(h.nodes[id].kind)
      ensures IsBacked(more, h.nodes[id])
    {
      if id == e.node.id {
        assert e' in Entries(more[b]);
      } else {
        var n := g.nodes[id];
        assert IsBacked(branches, n) && n.id == id;
        var f :| f in Entries(branches[n.branch.value]) && f.node == n;
        assert f in Entries(more[n.branch.value]);
      }
    }
  }

  lemma RewrittenEntryIsDistinct(
    g: G.Graph, branches: map<string, Branch>, b: string, branch: Branch, e: Entry, e': Entry)
    requires RecordsDistinct(branches) && b in branches
    requires RewritesEntry(branches[b], branch, e, e')
    ensures RecordsDistinct(branches[b := branch])
  {
    hide Entries, UniqueRecords;
    assert HasDistinctRecords(branches[b]);
    assert DistinctIds(branch);
  }

  /** Rewriting a record updates its node and keeps the correspondence. */
  lemma UpdateEntryKeepsInvariant(s: State, branch: Branch, e: Entry, e': Entry)
    requires Invariant(s) && branch.id in s.branches
    requires RewritesEntry(s.branches[branch.id], branch, e, e')
    ensures UpdateEntry(s, branch, e.node.id, e'.node.metadata).1.Ok?
    ensures Invariant(UpdateEntry(s, branch, e.node.id, e'.node.metadata).0)
    ensures UpdateEntry(s, branch, e.node.id, e'.node.metadata).0.branches == s.branches[branch.id := Touch(branch)]
  {
    hide Backed, NodeIdsKnown, CreatedInOrder, Entries, DistinctIds, UniqueRecords, RecordsDistinct;
    hide Lineage.IsForest, Touch, G.UniqueTriples, GraphTheory.HasCycle;
    var b, g := branch.id, s.graph;
    assert IsMirrored(g, b, e);
    var h := g.(nodes := g.nodes[e.node.id := e'.node]);
    assert h == G.UpdateMetadata(g, e.node.id, e'.node.metadata).0;
    G.ApplyKeepsDag(g, G.MetadataOp(e.node.id, e'.node.metadata));
    IdsMatchLinked(g, s.branches);
    var touched := Touch(branch);
    TouchKeepsRecords(branch);
    RewrittenEntryIsMirrored(g, h, s.branches, b, touched, e, e');
    RewrittenEntryIsBacked(g, h, s.branches, b, touched, e, e');
    RewrittenEntryIsDistinct(g, s.branches, b, touched, e, e');
    RewriteKeepsLineage(s.branches, s.createdAt, g, b, touched);
    LinksStay(g, h, s.branches[b := touched]);
    RewriteKeepsNodeIds(g, s.branches, b, touched);
    KnownIdsGrow(g, h, s.branches[b := touched]);
  }

  lemma IdsMatchLinked(g: G.Graph, branches: map<string, Branch>)
    requires BranchesLinked(g, branches)
    ensures IdsMatch(branches)
  {
    forall b | b in branches
      ensures branches[b].id == b
    {
      assert IsKnownBranch(g, branches, b);
    }
  }

  // ----- steps that touch no record

  /** A graph step that adds only non-record nodes under fresh record ids, and edges. */
  predicate AddsOnlyOthers(g: G.Graph, h: G.Graph, branches: map<string, Branch>) {
    && RecordsUntouched(g, h)
    && (forall id :: id in h.nodes && id !in g.nodes ==> IsKnownId(branches, id))
    && (forall id :: id in h.nodes && IsRecordKind(h.nodes[id].kind) ==> id in g.nodes && h.nodes[id] == g.nodes[id])
  }

  lemma GraphStepKeepsInvariant(s: State, h: G.Graph)
    requires Invariant(s) && G.IsDag(h) && AddsOnlyOthers(s.graph, h, s.branches)
    ensures Invariant(s.(graph := h))
  {
    hide Mirrored, RecordsDistinct, CreatedInOrder, Entries, Lineage.IsForest, G.IsDag, IsBacked, BranchesLinked;
    MirrorStays(s.graph, h, s.branches);
    LinksStay(s.graph, h, s.branches);
    KnownIdsGrow(s.graph, h, s.branches);
    forall id | id in h.nodes && IsRecordKind(h.nodes[id].kind)
      ensures IsBacked(s.branches, h.nodes[id])
    {
      assert IsBacked(s.branches, s.graph.nodes[id]);
    }
  }

  lemma StatusStepKeepsInvariant(s: State, b: string, branch: Branch)
    requires Invariant(s) && b in s.branches
    requires SameBranch(s.branches[b], branch) && Entries(branch) == Entries(s.branches[b])
    requires UniqueRecords(branch)
    ensures Invariant(s.(branches := s.branches[b := branch]))
  {
    hide CreatedInOrder, Entries, UniqueRecords, Lineage.IsForest, G.IsDag, BranchesLinked, NodeIdsKnown, IsMirrored;
    RewriteKeepsLineage(s.branches, s.createdAt, s.graph, b, branch);
    RewriteKeepsNodeIds(s.graph, s.branches, b, branch);
    SameEntriesDistinct(s.branches[b], branch);
    var more := s.branches[b := branch];
    forall id | id in s.graph.nodes && IsRecordKind(s.graph.nodes[id].kind)
      ensures IsBacked(more, s.graph.nodes[id])
    {
      assert IsBacked(s.branches, s.graph.nodes[id]);
    }
    assert HasDistinctRecords(s.branches[b]);
    assert RecordsDistinct(more);
    assert Mirrored(s.graph, more);
  }

  lemma SameEntriesDistinct(b: Branch, b': Branch)
    requires Entries(b) == Entries(b')
    ensures DistinctIds(b) == DistinctIds(b')
  {
  }
}
