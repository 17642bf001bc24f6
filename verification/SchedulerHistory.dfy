/** Whole histories of scheduler ticks: at most once, and quiescence. */
module SchedulerHistory {
  import opened Wrappers
  import opened LexOrder
  import opened Schema
  import opened SchedulerTick
  import opened SchedulerRuns
  import G = EvidenceGraph
  import Research
  import ResearchInvariant
  import ResearchRuns

  // ----- at most once

  datatype TickInput = TickInput(world: World, policy: Policy, dry: bool, listing: seq<string>, ids: seq<string>)

  predicate IsValidTick(t: TickInput) {
    IsListing(t.world, t.listing) && AreNew(t.world, t.ids, |t.listing|)
  }

  predicate AreValid(h: seq<TickInput>) {
    forall i :: 0 <= i < |h| ==> IsValidTick(h[i])
  }

  predicate AreDistinct(h: seq<TickInput>) {
    forall i :: 0 <= i < |h| ==> TriggersDistinct(h[i].world)
  }

  function Decisions(t: TickInput, processed: set<string>): seq<Decision>
    requires IsValidTick(t)
  {
    Tick(t.world, t.policy, processed, t.dry, t.listing, t.ids).decisions
  }

  /** The related ids recorded by the real runs of a history. */
  function Processed(h: seq<TickInput>): set<string>
    requires AreValid(h)
  {
    if h == [] then {}
    else
      var before := Processed(h[..|h| - 1]);
      var t := h[|h| - 1];
      assert IsValidTick(t);
      if t.dry then before else before + Related(Decisions(t, before))
  }

  /** All related ids of the real runs, one entry per decision. */
  function ActedOn(h: seq<TickInput>): seq<string>
    requires AreValid(h)
  {
    if h == [] then []
    else
      var init, t := h[..|h| - 1], h[|h| - 1];
      assert IsValidTick(t);
      ActedOn(init) + if t.dry then [] else RelatedIds(Decisions(t, Processed(init)))
  }

  lemma {:induction false} RelatedElements(s: seq<Decision>)
    ensures Elements(RelatedIds(s)) == Related(s)
  {
    if s != [] {
      var init, d := s[..|s| - 1], s[|s| - 1];
      RelatedElements(init);
      assert s == init + [d];
      assert Related(s) == Related(init) + if d.related.Some? then {d.related.value} else {};
      assert forall x :: x in RelatedIds(s) <==> x in RelatedIds(init) || d.related == Some(x);
    } else {
      assert Related(s) == {} && Elements(RelatedIds(s)) == {};
    }
  }

  lemma NoDupConcat(a: seq<string>, b: seq<string>)
    requires NoDup(a) && NoDup(b) && forall x :: x in b ==> x !in a
    ensures NoDup(a + b) && Elements(a + b) == Elements(a) + Elements(b)
  {
    forall i, j | 0 <= i < j < |a + b|
      ensures (a + b)[i] != (a + b)[j]
    {
      if i < |a| <= j {
        assert b[j - |a|] in b;
      }
    }
  }

  /** Across all real runs, whatever the records, policies and dry runs in
      between, no related id is acted on twice. */
  lemma {:induction false} ActedOnAtMostOnce(h: seq<TickInput>)
    requires AreValid(h) && AreDistinct(h)
    ensures NoDup(ActedOn(h)) && Elements(ActedOn(h)) == Processed(h)
  {
    if h != [] {
      var init, t := h[..|h| - 1], h[|h| - 1];
      ActedOnAtMostOnce(init);
      assert IsValidTick(t);
      if !t.dry {
        TickActsOnPending(t.world, t.policy, Processed(init), false, t.listing, t.ids);
        var new_ := RelatedIds(Decisions(t, Processed(init)));
        RelatedElements(Decisions(t, Processed(init)));
        hide Tick, Triggers, IsValidTick;
        assert forall x :: x in new_ ==> x !in Elements(ActedOn(init));
        NoDupConcat(ActedOn(init), new_);
      } else {
        assert ActedOn(h) == ActedOn(init);
      }
    } else {
      assert Elements(ActedOn(h)) == {};
    }
  }

  // ----- a real tick creates no trigger

  /** The branches of p are those of w, some archived, and new ones without records. */
  predicate DescendsFrom(w: World, branches: map<string, Branch>) {
    forall b :: b in branches ==> IsOldOrNew(w, b, branches[b])
  }

  predicate IsOldOrNew(w: World, b: string, branch: Branch) {
    if b in w.branches then branch == w.branches[b] || branch == w.branches[b].(status := Archived)
    else
      && b !in w.council && branch.status != Rejected
      && branch == Research.NewBranch(b, "", branch.parent).(status := branch.status)
  }

  lemma ActDescends(w: World, p: Progress, d: Decision, parent: Option<string>, ids: seq<string>)
    requires DescendsFrom(w, p.branches) && p.drawn < |ids|
    requires ids[p.drawn] !in w.branches && ids[p.drawn] !in w.council
    ensures DescendsFrom(w, Act(p, d, parent, false, ids).branches)
  {
    var q := Act(p, d, parent, false, ids).branches;
    forall b | b in q
      ensures IsOldOrNew(w, b, q[b])
    {
      if b in p.branches {
        assert IsOldOrNew(w, b, p.branches[b]);
      }
    }
  }

  lemma {:induction false} VisitsDescend(
    w: World, policy: Policy, processed: set<string>, ids: seq<string>, listing: seq<string>, p: Progress)
    requires forall b :: b in listing ==> b in w.branches
    requires forall id :: id in ids ==> id !in w.branches && id !in w.council
    requires p.drawn + |listing| <= |ids| && DescendsFrom(w, p.branches)
    ensures DescendsFrom(w, VisitBranches(w, policy, processed, false, ids, listing, p).branches)
    decreases |listing|
  {
    hide DescendsFrom, Act, Decide;
    if listing != [] {
      var b := listing[0];
      assert b in listing && ids[p.drawn] in ids;
      var d := Decide(w.branches[b], SessionOf(w, b), policy, processed, CanSpawn(p, policy, Some(b)));
      if d.Some? {
        ActDescends(w, p, d.value, Some(b), ids);
      }
      VisitDraws(w, policy, processed, false, ids, b, p);
      VisitsDescend(w, policy, processed, ids, listing[1..], VisitBranch(w, policy, processed, false, ids, b, p));
    }
  }

  lemma TickDescends(w: World, policy: Policy, processed: set<string>, listing: seq<string>, ids: seq<string>)
    requires IsListing(w, listing) && AreNew(w, ids, |listing|)
    ensures DescendsFrom(w, Tick(w, policy, processed, false, listing, ids).branches)
  {
    ListingCovers(w, listing);
    var p0 := Start(w);
    VisitsDescend(w, policy, processed, ids, listing, p0);
    hide DescendsFrom, Act, VisitBranches, FirstDigest, FirstChallenge;
    var p1 := VisitBranches(w, policy, processed, false, ids, listing, p0);
    assert ids[p1.drawn] in ids;
    var d := FirstDigest(w.digests, processed);
    if policy.onObstacle && d.Some? && CanSpawn(p1, policy, None) {
      ActDescends(w, p1, Decision(Generate, Some(d.value.source), None, Some(DigestMarker(d.value))), None, ids);
    }
    var p2 := ObstaclePhase(w, policy, processed, false, ids, p1);
    assert ids[p2.drawn] in ids;
    var c := FirstChallenge(w.challenges, w.versions, processed);
    if policy.onChallenge && c.Some? && CanSpawn(p2, policy, None) {
      ChallengeKnown(w, processed);
      var parent := w.versions[c.value.knowledge];
      ActDescends(w, p2, Decision(Fork, Some(parent), None, Some(c.value.id)), Some(parent), ids);
    }
  }

  lemma ChallengeKnown(w: World, processed: set<string>)
    ensures var c := FirstChallenge(w.challenges, w.versions, processed); c.Some? ==> c.value.knowledge in w.versions
  {
  }

  lemma OldTriggersRemain(w: World, w': World, b: string)
    requires w' == w.(branches := w'.branches) && b in w'.branches && IsOldOrNew(w, b, w'.branches[b])
    ensures if b in w.branches then BranchTriggers(w', b) <= BranchTriggers(w, b) else BranchTriggers(w', b) == {}
  {
  }

  lemma NoNewTriggers(w: World, w': World)
    requires w' == w.(branches := w'.branches) && DescendsFrom(w, w'.branches)
    ensures Triggers(w') <= Triggers(w)
  {
    assert DigestTriggers(w') == DigestTriggers(w) && ChallengeTriggers(w') == ChallengeTriggers(w);
    hide BranchTriggers, DigestTriggers, ChallengeTriggers;
    forall b, t | b in w'.branches && t in BranchTriggers(w', b)
      ensures t in Triggers(w)
    {
      assert IsOldOrNew(w, b, w'.branches[b]);
      OldTriggersRemain(w, w', b);
    }
  }

  function Pending(w: World, processed: set<string>): set<string> {
    Triggers(w) - processed
  }

  /** A real tick that decides anything leaves strictly fewer pending triggers. */
  lemma ActingTickShrinksPending(
    w: World, policy: Policy, processed: set<string>, listing: seq<string>, ids: seq<string>)
    requires IsListing(w, listing) && AreNew(w, ids, |listing|) && TriggersDistinct(w)
    ensures var p := Tick(w, policy, processed, false, listing, ids);
            var left := Pending(After(w, p), processed + Related(p.decisions));
            && left <= Pending(w, processed)
            && (p.decisions != [] ==> |left| < |Pending(w, processed)|)
  {
    TickActsOnPending(w, policy, processed, false, listing, ids);
    TickDescends(w, policy, processed, listing, ids);
    var p := Tick(w, policy, processed, false, listing, ids);
    NoNewTriggers(w, After(w, p));
    RelatedElements(p.decisions);
    hide Tick, Triggers, DescendsFrom;
    var left := Pending(After(w, p), processed + Related(p.decisions));
    CardinalityMonotone(left, Pending(w, processed));
    if p.decisions != [] {
      var d := p.decisions[0];
      assert d in p.decisions && d.related.value in Related(p.decisions);
      assert d.related.value in RelatedIds(p.decisions) by {
        assert d.related.value in Elements(RelatedIds(p.decisions));
      }
      assert d.related.value in Pending(w, processed) && d.related.value !in left;
    }
  }

  // ----- idle ticks

  /** No branch and no phase has anything to act on; no listing is mentioned. */
  predicate IsIdle(w: World, policy: Policy, processed: set<string>) {
    && (forall b :: b in w.branches ==> BranchIsIdle(w, policy, processed, b))
    && (policy.onObstacle && FirstDigest(w.digests, processed).Some? ==> !CanSpawn(Start(w), policy, None))
    && (policy.onChallenge && FirstChallenge(w.challenges, w.versions, processed).Some? ==>
         !CanSpawn(Start(w), policy, None))
  }

  predicate BranchIsIdle(w: World, policy: Policy, processed: set<string>, b: string)
    requires b in w.branches
  {
    Decide(w.branches[b], SessionOf(w, b), policy, processed, CanSpawn(Start(w), policy, Some(b))).None?
  }

  lemma {:induction false} VisitsDecideOrStay(
    w: World, policy: Policy, processed: set<string>, dry: bool, ids: seq<string>, listing: seq<string>, p: Progress)
    requires forall b :: b in listing ==> b in w.branches
    requires p.drawn + |listing| <= |ids|
    ensures var q := VisitBranches(w, policy, processed, dry, ids, listing, p);
            && |q.decisions| >= |p.decisions|
            && (|q.decisions| == |p.decisions| ==> q == p)
    ensures var q := VisitBranches(w, policy, processed, dry, ids, listing, p);
            (|q.decisions| == |p.decisions|) <==>
              forall b :: b in listing ==>
                Decide(w.branches[b], SessionOf(w, b), policy, processed, CanSpawn(p, policy, Some(b))).None?
    decreases |listing|
  {
    hide Decide;
    if listing != [] {
      var b := listing[0];
      assert b in listing;
      assert forall x :: x in listing <==> x == b || x in listing[1..];
      VisitDraws(w, policy, processed, dry, ids, b, p);
      VisitsDecideOrStay(w, policy, processed, dry, ids, listing[1..],
        VisitBranch(w, policy, processed, dry, ids, b, p));
    }
  }

  /** A tick decides nothing exactly when the world is idle, whatever the listing
      order, and then it changes nothing. */
  lemma IdleTick(w: World, policy: Policy, processed: set<string>, listing: seq<string>, ids: seq<string>)
    requires IsListing(w, listing) && AreNew(w, ids, |listing|)
    ensures var p := Tick(w, policy, processed, false, listing, ids);
            && (p.decisions == [] <==> IsIdle(w, policy, processed))
            && (p.decisions == [] ==> After(w, p) == w && Related(p.decisions) == {})
  {
    hide Decide, VisitBranches, CanSpawn, FirstDigest, FirstChallenge, Start;
    ListingCovers(w, listing);
    var p0 := Start(w);
    StartsEmpty(w);
    VisitsDecideOrStay(w, policy, processed, false, ids, listing, p0);
    assert (forall b :: b in listing ==>
              Decide(w.branches[b], SessionOf(w, b), policy, processed, CanSpawn(p0, policy, Some(b))).None?)
      <==> forall b :: b in w.branches ==> BranchIsIdle(w, policy, processed, b);
    var p1 := VisitBranches(w, policy, processed, false, ids, listing, p0);
    var p2 := ObstaclePhase(w, policy, processed, false, ids, p1);
    PhasesDecideOrStay(w, policy, processed, ids, p1);
    PhasesDecideOrStay(w, policy, processed, ids, p2);
    hide ObstaclePhase, ChallengePhase, BranchIsIdle;
  }

  lemma StartsEmpty(w: World)
    ensures Start(w).decisions == [] && Start(w).branches == w.branches && Start(w).drawn == 0
    ensures After(w, Start(w)) == w && Related([]) == {}
  {
  }

  lemma PhasesDecideOrStay(w: World, policy: Policy, processed: set<string>, ids: seq<string>, p: Progress)
    requires p.drawn < |ids|
    ensures var q := ObstaclePhase(w, policy, processed, false, ids, p);
            if policy.onObstacle && FirstDigest(w.digests, processed).Some? && CanSpawn(p, policy, None)
            then |q.decisions| == |p.decisions| + 1 else q == p
    ensures var q := ChallengePhase(w, policy, processed, false, ids, p);
            if policy.onChallenge && FirstChallenge(w.challenges, w.versions, processed).Some?
              && CanSpawn(p, policy, None)
            then |q.decisions| == |p.decisions| + 1 else q == p
  {
  }

  predicate HasOnlyOldTriggers(w: World, w': World, b: string)
    requires b in w'.branches
  {
    if b in w.branches then BranchTriggers(w', b) <= BranchTriggers(w, b) else BranchTriggers(w', b) == {}
  }

  /** Distinct triggers stay distinct: a tick removes some and adds none. */
  lemma TickKeepsTriggersDistinct(
    w: World, policy: Policy, processed: set<string>, listing: seq<string>, ids: seq<string>)
    requires IsListing(w, listing) && AreNew(w, ids, |listing|) && TriggersDistinct(w)
    ensures TriggersDistinct(After(w, Tick(w, policy, processed, false, listing, ids)))
  {
    hide Tick, TriggersDistinct, BranchTriggers;
    TickDescends(w, policy, processed, listing, ids);
    var w' := After(w, Tick(w, policy, processed, false, listing, ids));
    forall b | b in w'.branches
      ensures HasOnlyOldTriggers(w, w', b)
    {
      assert IsOldOrNew(w, b, w'.branches[b]);
      OldTriggersRemain(w, w', b);
    }
    FewerTriggersDistinct(w, w');
  }

  lemma FewerTriggersDistinct(w: World, w': World)
    requires TriggersDistinct(w) && w' == w.(branches := w'.branches)
    requires forall b :: b in w'.branches ==> HasOnlyOldTriggers(w, w', b)
    ensures TriggersDistinct(w')
  {
    assert DigestTriggers(w') == DigestTriggers(w) && ChallengeTriggers(w') == ChallengeTriggers(w);
    hide BranchTriggers, DigestTriggers, ChallengeTriggers, HasOnlyOldTriggers;
    forall b, c | b in w'.branches && c in w'.branches && b != c
      ensures BranchTriggers(w', b) !! BranchTriggers(w', c)
    {
      OldTriggersOnly(w, w', b);
      OldTriggersOnly(w, w', c);
    }
    forall b | b in w'.branches
      ensures BranchTriggers(w', b) !! DigestTriggers(w') && BranchTriggers(w', b) !! ChallengeTriggers(w')
    {
      OldTriggersOnly(w, w', b);
    }
  }

  lemma OldTriggersOnly(w: World, w': World, b: string)
    requires b in w'.branches && HasOnlyOldTriggers(w, w', b)
    ensures BranchTriggers(w', b) != {} ==> b in w.branches && BranchTriggers(w', b) <= BranchTriggers(w, b)
  {
    hide BranchTriggers;
  }

  // ----- quiescence

  /** Consecutive real ticks under one policy with no other change: whether each acted. */
  ghost function Activity(
    w: World, policy: Policy, processed: set<string>, inputs: seq<(seq<string>, seq<string>)>): seq<bool>
    requires RunsOn(w, policy, processed, inputs)
    decreases |inputs|
  {
    if inputs == [] then []
    else
      var p := Tick(w, policy, processed, false, inputs[0].0, inputs[0].1);
      [p.decisions != []] + Activity(After(w, p), policy, processed + Related(p.decisions), inputs[1..])
  }

  /** Listings and ids fit the world each tick finds. */
  ghost predicate RunsOn(w: World, policy: Policy, processed: set<string>, inputs: seq<(seq<string>, seq<string>)>)
    decreases |inputs|
  {
    inputs == [] ||
    (&& IsListing(w, inputs[0].0) && AreNew(w, inputs[0].1, |inputs[0].0|)
     && var p := Tick(w, policy, processed, false, inputs[0].0, inputs[0].1);
        RunsOn(After(w, p), policy, processed + Related(p.decisions), inputs[1..]))
  }

  lemma {:induction false} IdleForever(
    w: World, policy: Policy, processed: set<string>, inputs: seq<(seq<string>, seq<string>)>)
    requires RunsOn(w, policy, processed, inputs) && IsIdle(w, policy, processed)
    ensures forall a :: a in Activity(w, policy, processed, inputs) ==> !a
    decreases |inputs|
  {
    hide IsIdle, Tick;
    if inputs != [] {
      IdleTick(w, policy, processed, inputs[0].0, inputs[0].1);
      assert processed + {} == processed;
      IdleForever(w, policy, processed, inputs[1..]);
    }
  }

  /** Without new records the scheduler acts in finitely many ticks, at most one
      per pending trigger, and skips in every tick after the first skip. */
  lemma {:induction false} SchedulerComesToRest(
    w: World, policy: Policy, processed: set<string>, inputs: seq<(seq<string>, seq<string>)>)
    returns (acting: nat)
    requires RunsOn(w, policy, processed, inputs) && TriggersDistinct(w)
    ensures acting <= |Pending(w, processed)|
    ensures forall i :: 0 <= i < |Activity(w, policy, processed, inputs)| ==>
              (Activity(w, policy, processed, inputs)[i] <==> i < acting)
    decreases |inputs|
  {
    hide IsIdle, Tick, Pending, TriggersDistinct;
    acting := 0;
    if inputs != [] {
      var p := Tick(w, policy, processed, false, inputs[0].0, inputs[0].1);
      IdleTick(w, policy, processed, inputs[0].0, inputs[0].1);
      if p.decisions == [] {
        IdleForever(w, policy, processed, inputs);
        var a := Activity(w, policy, processed, inputs);
        assert forall i :: 0 <= i < |a| ==> a[i] in a;
      } else {
        ActingTickShrinksPending(w, policy, processed, inputs[0].0, inputs[0].1);
        TickKeepsTriggersDistinct(w, policy, processed, inputs[0].0, inputs[0].1);
        var more := SchedulerComesToRest(After(w, p), policy, processed + Related(p.decisions), inputs[1..]);
        acting := more + 1;
      }
    }
  }

  // ----- why triggers are distinct

  /** Drawn ids are a prefix, a dash and hexadecimal digits: no colon. */
  predicate IsDrawn(id: string) {
    ':' !in id
  }

  /** Records, challenges and sessions have drawn ids; no two branches share a
      record or a session, and no challenge shares a record's id. */
  predicate IdsAreDrawn(w: World) {
    && (forall b :: b in w.branches ==> w.branches[b].id == b)
    && (forall b, r :: b in w.branches && r in w.branches[b].counterexamples ==> IsDrawn(r.id))
    && (forall b, r :: b in w.branches && r in w.branches[b].experiments ==> IsDrawn(r.id))
    && (forall c :: c in w.challenges ==> IsDrawn(c.id))
  }

  function RecordIds(b: Branch): set<string> {
    (set r | r in b.counterexamples :: r.id) + (set r | r in b.experiments :: r.id)
  }

  predicate IdsAreUnique(w: World) {
    && (forall b, c :: b in w.branches && c in w.branches && b != c ==>
          RecordIds(w.branches[b]) !! RecordIds(w.branches[c]))
    && (forall b, c :: b in w.branches && c in w.challenges ==> c.id !in RecordIds(w.branches[b]))
    && (forall b, c :: b in w.council && c in w.council && b != c ==> w.council[b].id != w.council[c].id)
  }

  lemma MarkersDiffer(b: string, c: string, s: string, t: string, d: Digest)
    ensures RejectedMarker(b) == RejectedMarker(c) ==> b == c
    ensures CouncilMarker(s) == CouncilMarker(t) ==> s == t
    ensures RejectedMarker(b) != CouncilMarker(s) && RejectedMarker(b) != DigestMarker(d)
              && CouncilMarker(s) != DigestMarker(d)
    ensures !IsDrawn(RejectedMarker(b)) && !IsDrawn(CouncilMarker(s)) && !IsDrawn(DigestMarker(d))
  {
    assert RejectedMarker(b)[9..] == b && RejectedMarker(c)[9..] == c;
    assert CouncilMarker(s)[15..] == s && CouncilMarker(t)[15..] == t;
    assert RejectedMarker(b)[0] == 'r' && CouncilMarker(s)[0] == 'c' && DigestMarker(d)[0] == 'p';
    assert RejectedMarker(b)[8] == ':' && CouncilMarker(s)[14] == ':' && DigestMarker(d)[11] == ':';
  }

  /** A branch trigger is the branch's rejection, its council session, or one of its records. */
  lemma TriggerForms(w: World, b: string, t: string)
    requires IdsAreDrawn(w) && b in w.branches && t in BranchTriggers(w, b)
    ensures t == RejectedMarker(b) || (b in w.council && t == CouncilMarker(w.council[b].id))
              || (t in RecordIds(w.branches[b]) && IsDrawn(t))
  {
  }

  /** Ids as the stores draw them make all triggers distinct. */
  lemma DrawnIdsMakeTriggersDistinct(w: World)
    requires IdsAreDrawn(w) && IdsAreUnique(w)
    ensures TriggersDistinct(w)
  {
    hide BranchTriggers, IsDrawn, RejectedMarker, CouncilMarker, DigestMarker, RecordIds;
    forall b, c, t | b in w.branches && c in w.branches && b != c && t in BranchTriggers(w, b)
      && t in BranchTriggers(w, c)
      ensures false
    {
      TriggerForms(w, b, t);
      TriggerForms(w, c, t);
      var d := Digest("", "", None);
      var x, y := if b in w.council then w.council[b].id else "", if c in w.council then w.council[c].id else "";
      MarkersDiffer(b, c, x, y, d);
      MarkersDiffer(c, b, x, y, d);
      MarkersDiffer(b, c, y, x, d);
      MarkersDiffer(c, b, y, x, d);
    }
    forall b, t | b in w.branches && t in BranchTriggers(w, b)
      ensures t !in DigestTriggers(w) && t !in ChallengeTriggers(w)
    {
      TriggerForms(w, b, t);
      forall d: Digest
        ensures t != DigestMarker(d)
      {
        MarkersDiffer(b, b, if b in w.council then w.council[b].id else "", "", d);
      }
      MarkersDiffer(b, b, if b in w.council then w.council[b].id else "", "", Digest("", "", None));
    }
    forall d | d in w.digests
      ensures !IsDrawn(DigestMarker(d))
    {
      MarkersDiffer("", "", "", "", d);
    }
  }

  /** In a reachable research store no two branches share a record, so it remains
      only that challenges and council sessions have ids of their own. */
  lemma StoredRecordsAreUnique(s: Research.State, w: World)
    requires Research.Invariant(s) && w.branches == s.branches
    ensures forall b, c :: b in w.branches && c in w.branches && b != c ==>
              RecordIds(w.branches[b]) !! RecordIds(w.branches[c])
    ensures forall b :: b in w.branches ==> w.branches[b].id == b
  {
    hide Research.Invariant;
    forall b | b in w.branches
      ensures w.branches[b].id == b
    {
      ResearchRuns.BranchFacts(s, b);
    }
    forall b, c, id | b in w.branches && c in w.branches && b != c && id in RecordIds(w.branches[b])
      && id in RecordIds(w.branches[c])
      ensures false
    {
      var e := RecordEntry(s, b, id);
      var f := RecordEntry(s, c, id);
      hide RecordIds;
      EntriesShareNoId(s, b, e, c, f);
    }
  }

  lemma RecordEntry(s: Research.State, b: string, id: string) returns (e: Research.Entry)
    requires Research.Invariant(s) && b in s.branches && id in RecordIds(s.branches[b])
    ensures e in Research.Entries(s.branches[b]) && e.node.id == id
  {
    hide Research.Invariant, Research.Entries;
    var branch := s.branches[b];
    ResearchRuns.RecordsHaveEntries(branch);
    if r :| r in branch.counterexamples && r.id == id {
      e := Research.Entry(G.CounterexampleNode(branch.id, r), Contradicts);
    } else {
      var r :| r in branch.experiments && r.id == id;
      e := Research.Entry(G.ExperimentNode(branch.id, r), Tests);
    }
  }

  lemma EntriesShareNoId(s: Research.State, b: string, e: Research.Entry, c: string, f: Research.Entry)
    requires Research.Invariant(s) && b in s.branches && c in s.branches
    requires e in Research.Entries(s.branches[b]) && f in Research.Entries(s.branches[c]) && e.node.id == f.node.id
    ensures b == c
  {
    hide Research.Mirrored, Research.RecordsDistinct, Research.Backed, Research.Entries, G.IsDag;
    ResearchInvariant.IdsMatchLinked(s.graph, s.branches);
    ResearchInvariant.OneEntryPerId(s.graph, s.branches, b, e, c, f);
  }
}
