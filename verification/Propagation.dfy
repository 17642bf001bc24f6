/** Contradiction propagation: an original counterexample reaches exactly the
    strict descendants of its branch, once. */
module Propagation {
  import opened Wrappers
  import opened LexOrder
  import opened Schema
  import opened Research
  import opened ResearchRuns
  import opened GraphGains
  import G = EvidenceGraph
  import Lineage

  const PREFIX := "propagated:"

  function Marker(id: string): string { PREFIX + id }

  predicate IsPropagated(r: CounterexampleRecord) {
    PREFIX <= r.source
  }

  function WithCounterexample(b: Branch, r: CounterexampleRecord): Branch {
    b.(counterexamples := b.counterexamples + [r])
  }

  /** The record a descendant inherits. */
  function Inherited(id: string, origin: string, source: CounterexampleRecord): CounterexampleRecord {
    CounterexampleRecord(id, "Inherited from ancestor " + origin + ": " + source.description, Marker(source.id),
      false, None)
  }

  /** An inherited record is open, carries the marker and tells its origin. */
  lemma InheritedRecord(id: string, origin: string, source: CounterexampleRecord)
    ensures var r := Inherited(id, origin, source);
            && r.id == id && !r.resolved && r.resolution.None?
            && r.source == "propagated:" + source.id
            && r.description == "Inherited from ancestor " + origin + ": " + source.description
            && IsPropagated(r)
  {
    assert ("propagated:" + source.id)[..|PREFIX|] == PREFIX;
  }

  predicate HasMarker(b: Branch, marker: string) {
    exists i :: 0 <= i < |b.counterexamples| && b.counterexamples[i].source == marker
  }

  predicate AreInherited(added: Added, origin: string, source: CounterexampleRecord) {
    forall b :: b in added ==> added[b] == Inherited(added[b].id, origin, source)
  }

  predicate IsReceived(branches: map<string, Branch>, branches': map<string, Branch>, added: Added, b: string)
    requires b in branches && b in branches'
  {
    branches'[b] == if b in added then Touch(WithCounterexample(branches[b], added[b])) else branches[b]
  }

  /** From s to t each branch of `added` receives its record, and nothing else
      changes: no other branch, and in the graph only what those records bring. */
  predicate Receives(s: State, t: State, added: Added) {
    && added.Keys <= s.branches.Keys && t.branches.Keys == s.branches.Keys
    && t.createdAt == s.createdAt && t.accepted == s.accepted
    && (forall b {:trigger IsReceived(s.branches, t.branches, added, b)} ::
          b in s.branches ==> IsReceived(s.branches, t.branches, added, b))
    && GraphGain(s.graph, t.graph, s.branches, added)
  }

  /** The branches of D that a propagation has not reached yet. */
  function Unmarked(branches: map<string, Branch>, D: set<string>, marker: string): set<string> {
    set b | b in branches && b in D && !HasMarker(branches[b], marker)
  }

  /** From s to t exactly the unmarked branches of D inherit, and nothing else changes. */
  predicate SpreadsTo(s: State, t: State, D: set<string>, origin: string, source: CounterexampleRecord, added: Added) {
    && added.Keys == Unmarked(s.branches, D, Marker(source.id))
    && AreInherited(added, origin, source) && Receives(s, t, added)
  }

  lemma SpreadStarts(s: State, origin: string, source: CounterexampleRecord)
    ensures SpreadsTo(s, s, Elements([]), origin, source, map[])
  {
    NoGainIff(s.graph, s.graph, s.branches);
  }

  predicate FreshIds(s: State, ids: seq<string>) {
    NoDup(ids) && forall id :: id in ids ==> IsFresh(s, id)
  }

  predicate ClaimsStored(s: State) {
    forall b :: b in s.branches ==> G.ClaimId(b) in s.graph.nodes
  }

  /** A marked branch is passed over. */
  lemma PassOver(
    s: State, t: State, D: set<string>, origin: string, source: CounterexampleRecord, added: Added, b: string)
    requires SpreadsTo(s, t, D, origin, source, added) && b in s.branches && b !in D
    requires HasMarker(t.branches[b], Marker(source.id))
    ensures SpreadsTo(s, t, D + {b}, origin, source, added)
  {
    hide HasMarker, Touch, Receives, Unmarked;
    UnmarkedGrows(s.branches, D, Marker(source.id), b);
    OthersKeep(s, t, added, b);
  }

  /** An unmarked branch inherits. */
  lemma InheritOneMore(
    s: State, t: State, D: set<string>, origin: string, source: CounterexampleRecord, added: Added,
    b: string, r: CounterexampleRecord, t': State)
    requires ClaimsStored(s) && SpreadsTo(s, t, D, origin, source, added) && b in s.branches && b !in D
    requires !HasMarker(t.branches[b], Marker(source.id)) && r == Inherited(r.id, origin, source)
    requires Receives(t, t', map[b := r])
    ensures SpreadsTo(s, t', D + {b}, origin, source, added[b := r])
  {
    hide HasMarker, Touch, Inherited, Receives, Unmarked;
    UnmarkedGrows(s.branches, D, Marker(source.id), b);
    OthersKeep(s, t, added, b);
    assert added[b := r] == added + map[b := r];
    ReceivesTwice(s, t, t', added, map[b := r]);
  }

  lemma OthersKeep(s: State, t: State, added: Added, b: string)
    requires Receives(s, t, added) && b in s.branches && b !in added
    ensures b in t.branches && t.branches[b] == s.branches[b]
  {
    assert IsReceived(s.branches, t.branches, added, b);
  }

  lemma UnmarkedGrows(branches: map<string, Branch>, D: set<string>, marker: string, b: string)
    requires b in branches && b !in D
    ensures b !in Unmarked(branches, D, marker)
    ensures Unmarked(branches, D + {b}, marker)
         == Unmarked(branches, D, marker) + if HasMarker(branches[b], marker) then {} else {b}
  {
    hide HasMarker;
  }

  lemma ReceivesTwice(s: State, t: State, u: State, one: Added, two: Added)
    requires ClaimsStored(s) && one.Keys !! two.Keys && Receives(s, t, one) && Receives(t, u, two)
    ensures Receives(s, u, one + two)
  {
    hide Touch, GraphGain;
    forall b | b in s.branches
      ensures IsReceived(s.branches, u.branches, one + two, b)
      ensures b in two ==> t.branches[b] == s.branches[b]
    {
      assert IsReceived(s.branches, t.branches, one, b) && IsReceived(t.branches, u.branches, two, b);
    }
    GraphGainTwice(s.graph, t.graph, u.graph, s.branches, t.branches, one, two);
  }

  lemma IdsStayFresh(s: State, b: string, r: CounterexampleRecord, ids: seq<string>)
    requires Invariant(s) && b in s.branches && IsFresh(s, r.id) && FreshIds(s, ids) && r.id !in ids
    ensures FreshIds(AddCounterexample(s, b, r).0, ids)
  {
    BranchFacts(s, b);
    var branch := WithCounterexample(s.branches[b], r);
    G.FreshRecordIsAccepted(s.graph, branch, G.CounterexampleNode(b, r), Contradicts);
    ClaimIsStored(s, b);
    hide Invariant, IsRecordId, G.AddRecord;
    assert AddCounterexample(s, b, r).0.graph.nodes
        == s.graph.nodes[G.ClaimId(b) := G.ClaimNode(branch)][r.id := G.CounterexampleNode(b, r)];
  }

  /** An unresolved counterexample blocks every branch that is not terminal. */
  lemma UnresolvedBlocks(b: Branch, r: CounterexampleRecord)
    requires !r.resolved
    ensures var t := Touch(WithCounterexample(b, r));
            && t.counterexamples == b.counterexamples + [r]
            && (if IsTerminal(b.status) then t.status == b.status else t.status == Blocked)
  {
    var more := WithCounterexample(b, r);
    assert !more.counterexamples[|b.counterexamples|].resolved;
  }

  lemma ReceivingKeepsParents(s: State, t: State, added: Added)
    requires Receives(s, t, added)
    ensures ParentsOf(t.branches) == ParentsOf(s.branches)
  {
    hide GraphGain;
    forall b | b in s.branches
      ensures t.branches[b].parent == s.branches[b].parent
    {
      assert IsReceived(s.branches, t.branches, added, b);
    }
  }

  lemma ReceivingSetsMarker(b: Branch, r: CounterexampleRecord)
    ensures HasMarker(Touch(WithCounterexample(b, r)), r.source)
  {
    var c := Touch(WithCounterexample(b, r)).counterexamples;
    assert c[|c| - 1] == r;
  }

  // ----- one propagation call, and a second one

  /** The contract of one propagation: the record is the first one of the origin
      with the id, and its unmarked strict descendants D inherit it. */
  ghost predicate Propagates(s: State, t: State, origin: string, id: string, D: set<string>, added: Added) {
    && origin in s.branches && Lineage.IsForest(ParentsOf(s.branches), s.createdAt)
    && D == Lineage.Descendants(ParentsOf(s.branches), s.createdAt, origin)
    && var found := FindCounterexample(s.branches[origin].counterexamples, id);
       found.Some? && SpreadsTo(s, t, D, origin, s.branches[origin].counterexamples[found.value], added)
  }

  /** Propagating the same counterexample again visits the same branches and
      changes nothing at all: no branch, no node and no edge. */
  lemma PropagatingAgainChangesNothing(
    s: State, t: State, u: State, origin: string, id: string, D: set<string>, added: Added, D': set<string>,
    added': Added)
    requires Propagates(s, t, origin, id, D, added) && Propagates(t, u, origin, id, D', added')
    ensures D' == D && added' == map[] && u == t
  {
    hide Lineage.IsForest, Lineage.Descendants, HasMarker, Touch, GraphGain, ParentsOf;
    ReceivingKeepsParents(s, t, added);
    assert added'.Keys == {} by {
      forall b | b in t.branches && b in D
        ensures HasMarker(t.branches[b], Marker(id))
      {
        assert b in s.branches && IsReceived(s.branches, t.branches, added, b);
        if b in added {
          ReceivingSetsMarker(s.branches[b], added[b]);
        }
      }
    }
    assert added' == map[];
    ReceivingNothing(t, u);
  }

  lemma ReceivingNothing(s: State, t: State)
    requires Receives(s, t, map[])
    ensures t == s
  {
    hide GraphGain;
    NoGainIff(s.graph, t.graph, s.branches);
    assert t.branches == s.branches by {
      forall b | b in s.branches
        ensures t.branches[b] == s.branches[b]
      {
        assert IsReceived(s.branches, t.branches, map[], b);
      }
    }
  }

  // ----- adding an original counterexample

  /** What adding an original counterexample does to the whole store: the branch
      receives it, its strict descendants inherit it unless they carry its marker
      already, and nothing else changes. */
  ghost predicate ReachesDescendants(s: State, t: State, origin: string, r: CounterexampleRecord, added: Added)
    requires Lineage.IsForest(ParentsOf(s.branches), s.createdAt)
  {
    var D := Lineage.Descendants(ParentsOf(s.branches), s.createdAt, origin);
    && added.Keys == {origin} + Unmarked(s.branches, D, Marker(r.id))
    && added[origin] == r && AreInherited(added - {origin}, origin, r)
    && Receives(s, t, added)
  }

  lemma OriginIsNoDescendant(parents: Lineage.Parents, rank: map<string, nat>, origin: string)
    requires Lineage.IsForest(parents, rank)
    ensures origin !in Lineage.Descendants(parents, rank, origin)
    ensures Lineage.Descendants(parents, rank, origin) <= parents.Keys
  {
  }

  lemma AddThenSpread(
    s: State, s1: State, t: State, origin: string, r: CounterexampleRecord, D: set<string>, inherited: Added)
    requires Lineage.IsForest(ParentsOf(s.branches), s.createdAt) && ClaimsStored(s)
    requires D == Lineage.Descendants(ParentsOf(s.branches), s.createdAt, origin)
    requires Receives(s, s1, map[origin := r]) && SpreadsTo(s1, t, D, origin, r, inherited)
    ensures ReachesDescendants(s, t, origin, r, map[origin := r] + inherited)
  {
    hide Lineage.IsForest, Lineage.Descendants, ParentsOf, Marker, Inherited, Receives, Unmarked, AreInherited,
      ClaimsStored;
    OriginIsNoDescendant(ParentsOf(s.branches), s.createdAt, origin);
    SameUnmarkedElsewhere(s, s1, map[origin := r], D, Marker(r.id));
    ReceivesTwice(s, s1, t, map[origin := r], inherited);
    OriginAndInherited(origin, r, inherited);
  }

  lemma OriginAndInherited(origin: string, r: CounterexampleRecord, inherited: Added)
    requires origin !in inherited
    ensures var added := map[origin := r] + inherited;
            added.Keys == {origin} + inherited.Keys && added[origin] == r && added - {origin} == inherited
  {
  }

  lemma SameUnmarkedElsewhere(s: State, t: State, added: Added, D: set<string>, marker: string)
    requires Receives(s, t, added) && D !! added.Keys
    ensures Unmarked(t.branches, D, marker) == Unmarked(s.branches, D, marker)
    ensures Unmarked(s.branches, D, marker) !! added.Keys
  {
    hide HasMarker, Touch, GraphGain;
    forall b | b in D && b in s.branches
      ensures t.branches[b] == s.branches[b]
    {
      assert IsReceived(s.branches, t.branches, added, b);
    }
  }

  /** Every strict descendant inherits exactly when none carried the marker before. */
  lemma AllDescendantsInheritIff(s: State, t: State, origin: string, r: CounterexampleRecord, added: Added)
    requires Lineage.IsForest(ParentsOf(s.branches), s.createdAt) && ReachesDescendants(s, t, origin, r, added)
    ensures var D := Lineage.Descendants(ParentsOf(s.branches), s.createdAt, origin);
            && D <= s.branches.Keys
            && (added.Keys == {origin} + D <==> forall b :: b in D ==> !HasMarker(s.branches[b], Marker(r.id)))
  {
    hide Lineage.IsForest, Lineage.Descendants, ParentsOf, Marker, ReachesDescendants, Unmarked, HasMarker;
    var D := Lineage.Descendants(ParentsOf(s.branches), s.createdAt, origin);
    OriginIsNoDescendant(ParentsOf(s.branches), s.createdAt, origin);
    BranchesAreParents(s.branches);
    ReachedKeys(s, t, origin, r, added);
    AllUnmarkedIff(s.branches, D, Marker(r.id), origin);
  }

  lemma BranchesAreParents(branches: map<string, Branch>)
    ensures ParentsOf(branches).Keys == branches.Keys
  {
  }

  lemma ReachedKeys(s: State, t: State, origin: string, r: CounterexampleRecord, added: Added)
    requires Lineage.IsForest(ParentsOf(s.branches), s.createdAt) && ReachesDescendants(s, t, origin, r, added)
    ensures var D := Lineage.Descendants(ParentsOf(s.branches), s.createdAt, origin);
            added.Keys == {origin} + Unmarked(s.branches, D, Marker(r.id))
  {
    hide Receives, AreInherited, Lineage.IsForest, Lineage.Descendants, ParentsOf, Unmarked, Marker;
  }

  lemma AllUnmarkedIff(branches: map<string, Branch>, D: set<string>, marker: string, origin: string)
    requires D <= branches.Keys && origin !in D
    ensures {origin} + Unmarked(branches, D, marker) == {origin} + D <==>
              forall b :: b in D ==> !HasMarker(branches[b], marker)
  {
    hide HasMarker;
    var U := Unmarked(branches, D, marker);
    if {origin} + U == {origin} + D {
      forall b | b in D
        ensures b in U
      {
        assert b in {origin} + U;
      }
    }
  }

  lemma UnknownBranchChangesNothing(s: State, b: string, r: CounterexampleRecord)
    requires b !in s.branches
    ensures AddCounterexample(s, b, r).0 == s && AddCounterexample(s, b, r).1.Err?
  {
  }

  lemma StoreFacts(s: State)
    requires Invariant(s)
    ensures G.IsDag(s.graph) && ClaimsStored(s) && Lineage.IsForest(ParentsOf(s.branches), s.createdAt)
  {
    hide Mirrored, Backed, RecordsDistinct, BranchesLinked, NodeIdsKnown, CreatedInOrder, G.IsDag, Lineage.IsForest;
    forall x | x in s.branches
      ensures G.ClaimId(x) in s.graph.nodes
    {
      ClaimIsStored(s, x);
    }
  }

  lemma StoredKeepsShape(s: State, b: string, r: CounterexampleRecord)
    requires Invariant(s) && b in s.branches && IsFresh(s, r.id)
    ensures Receives(s, AddCounterexample(s, b, r).0, map[b := r])
    ensures |AddCounterexample(s, b, r).0.branches| == |s.branches|
    ensures ParentsOf(AddCounterexample(s, b, r).0.branches) == ParentsOf(s.branches)
    ensures Lineage.IsForest(ParentsOf(s.branches), s.createdAt) && ClaimsStored(s)
  {
    hide Invariant, G.IsDag, G.IsLinked, GraphGain, Touch, G.AddRecord, ParentsOf, Lineage.IsForest, ClaimsStored;
    hide UniqueRecords, DistinctIds, IsRecordId;
    StoreFacts(s);
    CounterexampleKeepsInvariant(s, b, r);
    BranchFacts(s, b);
    BranchIsLinked(s, b, r);
    OneGain(s.graph, s.branches, b, WithCounterexample(s.branches[b], r), r);
    var t := AddCounterexample(s, b, r).0;
    assert |t.branches| == |t.branches.Keys| && |s.branches| == |s.branches.Keys|;
    ReceivingKeepsParents(s, t, map[b := r]);
  }

  lemma BranchIsLinked(s: State, b: string, r: CounterexampleRecord)
    requires b in s.branches && G.IsLinked(s.graph, s.branches[b])
    ensures G.IsLinked(s.graph, WithCounterexample(s.branches[b], r))
  {
  }

  /** The record just stored is the one its id finds. */
  lemma StoredIsFound(s: State, s1: State, b: string, r: CounterexampleRecord)
    requires Invariant(s) && b in s.branches && IsFresh(s, r.id)
    requires s1 == AddCounterexample(s, b, r).0
    ensures b in s1.branches
    ensures var found := FindCounterexample(s1.branches[b].counterexamples, r.id);
            found.Some? && s1.branches[b].counterexamples[found.value] == r
  {
    hide Invariant, Entries, Touch;
    CounterexampleKeepsInvariant(s, b, r);
    TouchKeepsCounterexamples(WithCounterexample(s.branches[b], r));
    FreshIsNew(s, b, r.id);
    var old_ := s.branches[b].counterexamples;
    RecordsHaveEntries(s.branches[b]);
    forall x | x in old_
      ensures x.id != r.id
    {
      assert Entry(G.CounterexampleNode(b, x), Contradicts) in Entries(s.branches[b]);
    }
    var stored := s1.branches[b].counterexamples;
    assert stored == old_ + [r];
    assert stored[|old_|].id == r.id;
    assert forall k :: 0 <= k < |old_| ==> stored[k] == old_[k] && old_[k] in old_;
  }

  lemma TouchKeepsCounterexamples(b: Branch)
    ensures Touch(b).counterexamples == b.counterexamples
  {
  }

  /** Storing a record and propagating it is one spread from the state before. */
  lemma StoreThenPropagate(
    s: State, s1: State, t: State, b: string, r: CounterexampleRecord, D: set<string>, inherited: Added)
    requires Invariant(s) && b in s.branches && IsFresh(s, r.id) && s1 == AddCounterexample(s, b, r).0
    requires Propagates(s1, t, b, r.id, D, inherited)
    ensures Lineage.IsForest(ParentsOf(s.branches), s.createdAt)
    ensures ReachesDescendants(s, t, b, r, map[b := r] + inherited)
  {
    hide Invariant, IsFresh, AddCounterexample, ReachesDescendants, SpreadsTo, Lineage.IsForest, Lineage.Descendants,
      ParentsOf;
    hide Receives;
    StoredKeepsShape(s, b, r);
    StoredIsFound(s, s1, b, r);
    SameCreation(s, s1, map[b := r]);
    AddThenSpread(s, s1, t, b, r, D, inherited);
  }

  lemma SameCreation(s: State, t: State, added: Added)
    requires Receives(s, t, added)
    ensures t.createdAt == s.createdAt && t.branches.Keys == s.branches.Keys
  {
  }
}
