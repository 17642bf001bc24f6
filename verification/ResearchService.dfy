/** The research orchestrator object: branch records updated in place beside the
    evidence graph store, and contradiction propagation over the lineage. Each
    method is proved against the operation of `Research` that it performs and
    keeps the invariant of `ResearchInvariant`; propagation, which is a loop
    here, is proved against the relation `SpreadsTo` of `Propagation`. */
module ResearchService {
  import opened Wrappers
  import opened LexOrder
  import opened Schema
  import R = Research
  import Runs = ResearchRuns
  import P = Propagation
  import PR = PropagationRuns
  import opened GraphGains
  import G = EvidenceGraph
  import Lineage
  import EvidenceGraphStore

  class Orchestrator {
    var branches: map<string, Branch>
    var createdAt: map<string, nat>
    var accepted: map<string, string>
    const graph: EvidenceGraphStore.Store

    ghost function Value(): R.State
      reads this, graph
    {
      R.State(branches, createdAt, graph.Value(), accepted)
    }

    ghost predicate Valid()
      reads this, graph
    {
      graph.Valid() && R.Invariant(Value())
    }

    constructor ()
      ensures Valid() && Value() == R.Initial && fresh(graph)
    {
      branches, createdAt, accepted := map[], map[], map[];
      graph := new EvidenceGraphStore.Store();
      new;
      Runs.EveryRunKeepsInvariant([]);
    }

    method CreateBranch(id: string, hypothesis: string, parent: Option<string>) returns (r: Outcome)
      requires Valid() && Runs.Draws(Value(), Runs.CreateOp(id, hypothesis, parent))
      modifies this, graph
      ensures Valid() && (Value(), r) == R.CreateBranch(old(Value()), id, hypothesis, parent)
    {
      hide R.Invariant, G.IsDag;
      Runs.CreateKeepsInvariant(Value(), id, hypothesis, parent);
      if parent.Some? && parent.value !in branches {
        return Err(UnknownBranch(parent.value));
      }
      var branch := R.NewBranch(id, hypothesis, parent);
      createdAt := createdAt[id := |branches|];
      branches := branches[id := branch];
      r := graph.EnsureBranch(branch);
    }

    method ArchiveBranch(b: string) returns (r: Outcome)
      requires Valid()
      modifies this
      ensures Valid() && (Value(), r) == R.ArchiveBranch(old(Value()), b)
    {
      hide R.Invariant, G.IsDag;
      Runs.ArchiveKeepsInvariant(Value(), b);
      if b !in branches {
        return Err(UnknownBranch(b));
      }
      branches := branches[b := branches[b].(status := Archived)];
      return Ok;
    }

    method AddEvidence(b: string, record: EvidenceRecord) returns (r: Outcome)
      requires Valid() && Runs.IsFresh(Value(), record.id)
      modifies this, graph
      ensures Valid() && (Value(), r) == R.AddEvidence(old(Value()), b, record)
      ensures r.Ok? <==> b in old(branches)
    {
      hide R.Invariant, G.IsDag, G.AddRecord, R.Touch;
      if b !in branches {
        return Err(UnknownBranch(b));
      }
      Runs.EvidenceKeepsInvariant(Value(), b, record);
      Runs.BranchFacts(Value(), b);
      var branch := branches[b].(evidence := branches[b].evidence + [record]);
      branches := branches[b := branch];
      r := graph.AddEvidence(branch, record);
      if r.Ok? {
        branches := branches[b := R.Touch(branch)];
      }
      assert branches == old(branches)[b := branches[b]];
    }

    /** add_counterexample before any propagation. */
    method StoreCounterexample(b: string, record: CounterexampleRecord) returns (r: Outcome)
      requires Valid() && Runs.IsFresh(Value(), record.id)
      modifies this, graph
      ensures Valid() && (Value(), r) == R.AddCounterexample(old(Value()), b, record)
      ensures r.Ok? <==> b in old(branches)
    {
      hide R.Invariant, G.IsDag, G.AddRecord, R.Touch;
      if b !in branches {
        return Err(UnknownBranch(b));
      }
      Runs.CounterexampleKeepsInvariant(Value(), b, record);
      Runs.BranchFacts(Value(), b);
      var branch := branches[b].(counterexamples := branches[b].counterexamples + [record]);
      branches := branches[b := branch];
      r := graph.AddCounterexample(branch, record);
      if r.Ok? {
        branches := branches[b := R.Touch(branch)];
      }
      assert branches == old(branches)[b := branches[b]];
    }

    method AddExperiment(b: string, record: ExperimentRecord) returns (r: Outcome)
      requires Valid() && Runs.IsFresh(Value(), record.id)
      modifies this, graph
      ensures Valid() && (Value(), r) == R.AddExperiment(old(Value()), b, record)
      ensures r.Ok? <==> b in old(branches)
    {
      hide R.Invariant, G.IsDag, G.AddRecord, R.Touch;
      if b !in branches {
        return Err(UnknownBranch(b));
      }
      Runs.ExperimentKeepsInvariant(Value(), b, record);
      Runs.BranchFacts(Value(), b);
      var branch := branches[b].(experiments := branches[b].experiments + [record]);
      branches := branches[b := branch];
      r := graph.AddExperiment(branch, record);
      if r.Ok? {
        branches := branches[b := R.Touch(branch)];
      }
      assert branches == old(branches)[b := branches[b]];
    }

    method AddReview(b: string, record: ReviewRecord, verifier: bool) returns (r: Outcome)
      requires Valid() && Runs.IsFresh(Value(), record.id)
      modifies this, graph
      ensures Valid() && (Value(), r) == R.AddReview(old(Value()), b, record, verifier)
    {
      hide R.Invariant, G.IsDag, G.AddRecord, R.Touch, G.EvidenceIds;
      if b !in branches {
        return Err(UnknownBranch(b));
      }
      Runs.ReviewKeepsInvariant(Value(), b, record, verifier);
      Runs.BranchFacts(Value(), b);
      if exists id :: id in record.checkedEvidence && id !in G.EvidenceIds(branches[b].evidence) {
        return Err(UnknownEvidence);
      }
      var branch := if verifier then branches[b].(verifierReviews := branches[b].verifierReviews + [record])
                    else branches[b].(criticReviews := branches[b].criticReviews + [record]);
      branches := branches[b := branch];
      r := graph.AddReview(branch, record, verifier);
      if r.Ok? {
        branches := branches[b := R.Touch(branch)];
      }
      assert branches == old(branches)[b := branches[b]];
    }

    method ResolveCounterexample(b: string, id: string, resolution: string) returns (r: Outcome)
      requires Valid()
      modifies this, graph
      ensures Valid() && (Value(), r) == R.ResolveCounterexample(old(Value()), b, id, resolution)
    {
      hide R.Invariant, G.IsDag, R.Touch;
      Runs.ResolveKeepsInvariant(Value(), b, id, resolution);
      if b !in branches {
        return Err(UnknownBranch(b));
      }
      Runs.BranchFacts(Value(), b);
      var branch := branches[b];
      var found := R.FindCounterexample(branch.counterexamples, id);
      if found.None? {
        return Err(UnknownRecord(id));
      }
      var record := branch.counterexamples[found.value].(resolved := true, resolution := Some(resolution));
      branch := branch.(counterexamples := branch.counterexamples[found.value := record]);
      branches := branches[b := branch];
      r := graph.UpdateMetadata(id, CounterexampleData(record.resolved, record.resolution));
      if r.Ok? {
        branches := branches[b := R.Touch(branch)];
      }
      assert branches == old(branches)[b := branches[b]];
    }

    method UpdateExperiment(b: string, id: string, status: ExperimentStatus, actual: string) returns (r: Outcome)
      requires Valid()
      modifies this, graph
      ensures Valid() && (Value(), r) == R.UpdateExperiment(old(Value()), b, id, status, actual)
    {
      hide R.Invariant, G.IsDag, R.Touch;
      Runs.UpdateExperimentKeepsInvariant(Value(), b, id, status, actual);
      if b !in branches {
        return Err(UnknownBranch(b));
      }
      Runs.BranchFacts(Value(), b);
      var branch := branches[b];
      var found := R.FindExperiment(branch.experiments, id);
      if found.None? {
        return Err(UnknownRecord(id));
      }
      var record := branch.experiments[found.value].(status := status, actualResult := Some(actual));
      branch := branch.(experiments := branch.experiments[found.value := record]);
      branches := branches[b := branch];
      r := graph.UpdateMetadata(id, ExperimentData(record.status, record.actualResult));
      if r.Ok? {
        branches := branches[b := R.Touch(branch)];
      }
      assert branches == old(branches)[b := branches[b]];
    }

    method SetResult(b: string, result: string) returns (r: Outcome)
      requires Valid()
      modifies this, graph
      ensures Valid() && (Value(), r) == R.SetResult(old(Value()), b, result)
    {
      hide R.Invariant, G.IsDag, R.Touch, G.SetResult;
      Runs.ResultKeepsInvariant(Value(), b, result);
      if b !in branches {
        return Err(UnknownBranch(b));
      }
      var branch := branches[b].(result := Some(result));
      branches := branches[b := branch];
      r := graph.SetResult(branch);
      if r.Ok? {
        branches := branches[b := R.Touch(branch)];
      }
      assert branches == old(branches)[b := branches[b]];
    }

    method Accept(b: string, id: string, gatePassed: bool) returns (r: Outcome)
      requires Valid() && Runs.IsFresh(Value(), id)
      modifies this, graph
      ensures Valid() && (Value(), r) == R.Accept(old(Value()), b, id, gatePassed)
    {
      hide R.Invariant, G.IsDag, G.AddKnowledge;
      Runs.AcceptKeepsInvariant(Value(), b, id, gatePassed);
      if b !in branches {
        return Err(UnknownBranch(b));
      }
      if !gatePassed {
        return Err(GateRejected);
      }
      if exists k :: k in accepted && accepted[k] == b {
        return Ok;
      }
      var branch := branches[b];
      var statement := if branch.result.Some? && branch.result.value != "" then branch.result.value
        else branch.hypothesis;
      accepted := accepted[id := b];
      r := graph.AddKnowledge(id, b, statement);
      if r.Ok? {
        branches := branches[b := branch.(status := Verified)];
      }
    }

    // ----- propagation

    method CarriesMarker(b: string, marker: string) returns (already: bool)
      requires b in branches
      ensures already == P.HasMarker(branches[b], marker)
    {
      var records := branches[b].counterexamples;
      for i := 0 to |records|
        invariant forall k :: 0 <= k < i ==> records[k].source != marker
      {
        if records[i].source == marker {
          return true;
        }
      }
      return false;
    }

    /** propagate_counterexample: every strict descendant of the origin that does
        not carry the marker yet inherits one unresolved record, and nothing else
        changes. `ids` supplies the ids of the new records. */
    method PropagateCounterexample(origin: string, id: string, ids: seq<string>)
      returns (affected: seq<string>, inherited: Added, r: Outcome)
      requires Valid() && P.FreshIds(Value(), ids) && |ids| >= |branches|
      modifies this, graph
      ensures Valid()
      ensures r.Err? ==> Value() == old(Value()) && affected == [] && inherited == map[]
      ensures r.Ok? <==>
                origin in old(branches) && R.FindCounterexample(old(branches)[origin].counterexamples, id).Some?
      ensures r.Ok? ==>
                NoDup(affected) && P.Propagates(old(Value()), Value(), origin, id, Elements(affected), inherited)
    {
      hide R.Invariant, G.IsDag, Lineage.IsForest, Lineage.Descendants, R.ParentsOf, P.SpreadsTo, P.HasMarker,
        P.Inherited;
      affected, inherited := [], map[];
      if origin !in branches {
        return affected, inherited, Err(UnknownBranch(origin));
      }
      var found := R.FindCounterexample(branches[origin].counterexamples, id);
      if found.None? {
        return affected, inherited, Err(UnknownRecord(id));
      }
      var source := branches[origin].counterexamples[found.value];
      ForestHolds();
      var parents := R.ParentsOf(branches);
      var descendants := Lineage.FindDescendants(parents, origin, createdAt);
      DescendantsAreBranches(origin);
      ElementsCount(descendants);
      CardinalityMonotone(Elements(descendants), branches.Keys);
      ghost var before := Value();
      P.SpreadStarts(before, origin, source);
      var i := 0;
      while i < |descendants|
        invariant 0 <= i <= |descendants| && Valid()
        invariant P.FreshIds(Value(), ids[i..])
        invariant P.SpreadsTo(before, Value(), Elements(descendants[..i]), origin, source, inherited)
        invariant branches.Keys == before.branches.Keys
      {
        inherited := InheritNext(before, descendants, i, origin, source, ids, inherited);
        i := i + 1;
      }
      assert descendants[..|descendants|] == descendants;
      return descendants, inherited, Ok;
    }

    /** One pass of the loop over the descendants. */
    method InheritNext(
      ghost before: R.State, descendants: seq<string>, i: nat, origin: string, source: CounterexampleRecord,
      ids: seq<string>, inherited: Added)
      returns (more: Added)
      requires Valid() && R.Invariant(before) && i < |descendants| && NoDup(descendants) && i < |ids|
      requires Elements(descendants) <= branches.Keys == before.branches.Keys
      requires P.FreshIds(Value(), ids[i..])
      requires P.SpreadsTo(before, Value(), Elements(descendants[..i]), origin, source, inherited)
      modifies this, graph
      ensures Valid() && branches.Keys == old(branches).Keys && P.FreshIds(Value(), ids[i + 1..])
      ensures P.SpreadsTo(before, Value(), Elements(descendants[..i + 1]), origin, source, more)
    {
      hide R.Invariant, G.IsDag, R.ParentsOf, P.SpreadsTo, P.HasMarker, P.Inherited, R.AddCounterexample, P.Receives;
      hide Elements, P.FreshIds, R.Touch;
      InheritAt(descendants, i, ids);
      var b := descendants[i];
      ghost var t := Value();
      more := inherited;
      var already := CarriesMarker(b, P.Marker(source.id));
      if already {
        P.PassOver(before, t, Elements(descendants[..i]), origin, source, inherited, b);
      } else {
        var record := P.Inherited(ids[i], origin, source);
        InheritedFacts(ids[i], origin, source);
        P.StoredKeepsShape(t, b, record);
        P.IdsStayFresh(t, b, record, ids[i + 1..]);
        ReceivedKeys(t, R.AddCounterexample(t, b, record).0, b, record);
        var outcome := StoreCounterexample(b, record);
        ClaimsHold(before);
        P.InheritOneMore(before, t, Elements(descendants[..i]), origin, source, inherited, b, record, Value());
        more := inherited[b := record];
      }
    }

    lemma InheritedFacts(id: string, origin: string, source: CounterexampleRecord)
      ensures P.Inherited(id, origin, source).id == id
    {
    }

    lemma ReceivedKeys(s: R.State, t: R.State, b: string, r: CounterexampleRecord)
      requires P.Receives(s, t, map[b := r])
      ensures t.branches.Keys == s.branches.Keys
    {
    }

    lemma ClaimsHold(s: R.State)
      requires R.Invariant(s)
      ensures P.ClaimsStored(s)
    {
      forall b | b in s.branches
        ensures G.ClaimId(b) in s.graph.nodes
      {
        Runs.ClaimIsStored(s, b);
      }
    }

    /** The branch and all its strict descendants. */
    ghost predicate ReachesAll(s: R.State, origin: string, added: Added)
      requires Lineage.IsForest(R.ParentsOf(s.branches), s.createdAt)
    {
      added.Keys == {origin} + Lineage.Descendants(R.ParentsOf(s.branches), s.createdAt, origin)
    }

    lemma InheritedByAll(s: R.State, origin: string, r: CounterexampleRecord, added: Added)
      requires Lineage.IsForest(R.ParentsOf(s.branches), s.createdAt)
      requires P.ReachesDescendants(s, Value(), origin, r, added)
      requires Runs.IsFresh(s, r.id) && !P.IsPropagated(r)
      ensures PR.MarkersKnown(s) ==> PR.MarkersKnown(Value()) && ReachesAll(s, origin, added)
    {
      hide PR.MarkersKnown, P.ReachesDescendants;
      if PR.MarkersKnown(s) {
        PR.EveryDescendantInherits(s, Value(), origin, r, added);
      }
    }

    /** add_counterexample with the autonomy controller attached. An original
        counterexample reaches its branch and the strict descendants that do not
        carry its marker, which are all of them as long as callers leave the
        reserved prefix alone; a propagated one stays where it is. */
    method AddCounterexample(b: string, id: string, description: string, source: string, ids: seq<string>)
      returns (r: Outcome, ghost added: Added)
      requires Valid() && Runs.IsFresh(Value(), id)
      requires P.FreshIds(Value(), ids) && id !in ids && |ids| >= |branches|
      modifies this, graph
      ensures Valid()
      ensures r.Ok? <==> b in old(branches)
      ensures r.Err? ==> Value() == old(Value())
      ensures var record := CounterexampleRecord(id, description, source, false, None);
              r.Ok? ==>
                if P.IsPropagated(record) then Value() == R.AddCounterexample(old(Value()), b, record).0
                else
                  && Lineage.IsForest(R.ParentsOf(old(branches)), old(createdAt))
                  && P.ReachesDescendants(old(Value()), Value(), b, record, added)
                  && (PR.MarkersKnown(old(Value())) ==> PR.MarkersKnown(Value()) && ReachesAll(old(Value()), b, added))
    {
      hide R.Invariant, G.IsDag, Lineage.IsForest, Lineage.Descendants, R.ParentsOf, P.SpreadsTo, P.ReachesDescendants;
      hide R.Touch, R.AddCounterexample, R.FindCounterexample, P.Receives, P.Propagates, PR.MarkersKnown, ReachesAll;
      var record := CounterexampleRecord(id, description, source, false, None);
      added := map[];
      ghost var s := Value();
      if b in branches {
        Runs.CounterexampleKeepsInvariant(s, b, record);
        P.IdsStayFresh(s, b, record, ids);
        P.StoredIsFound(s, R.AddCounterexample(s, b, record).0, b, record);
        P.StoredKeepsShape(s, b, record);
      } else {
        P.UnknownBranchChangesNothing(s, b, record);
      }
      r := StoreCounterexample(b, record);
      if r.Err? || P.IsPropagated(record) {
        return;
      }
      ghost var s1 := Value();
      var affected, inherited, outcome := PropagateCounterexample(b, id, ids);
      P.StoreThenPropagate(s, s1, Value(), b, record, Elements(affected), inherited);
      added := map[b := record] + inherited;
      InheritedByAll(s, b, record, added);
    }

    lemma ForestHolds()
      requires R.Invariant(Value())
      ensures Lineage.IsForest(R.ParentsOf(branches), createdAt)
    {
    }

    lemma DescendantsAreBranches(origin: string)
      requires Lineage.IsForest(R.ParentsOf(branches), createdAt)
      ensures Lineage.Descendants(R.ParentsOf(branches), createdAt, origin) <= branches.Keys
    {
    }

    lemma InheritAt(descendants: seq<string>, i: nat, ids: seq<string>)
      requires i < |descendants| && NoDup(descendants) && i < |ids|
      requires P.FreshIds(Value(), ids[i..])
      ensures descendants[i] !in Elements(descendants[..i]) && descendants[i] in Elements(descendants)
      ensures Elements(descendants[..i + 1]) == Elements(descendants[..i]) + {descendants[i]}
      ensures Runs.IsFresh(Value(), ids[i]) && ids[i] !in ids[i + 1..] && P.FreshIds(Value(), ids[i + 1..])
    {
      assert ids[i..][0] == ids[i];
      assert ids[i..] == [ids[i]] + ids[i + 1..];
      assert descendants[..i + 1] == descendants[..i] + [descendants[i]];
    }
  }
}
