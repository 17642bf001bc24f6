/** What real ticks keep: counters that agree with the branches, limits on live
    branches and children with the one exception of the revalidation fork, and
    decisions that answer distinct pending triggers. */
module SchedulerRuns {
  import opened Wrappers
  import opened LexOrder
  import opened Schema
  import opened SchedulerTick

  function Max(a: nat, b: nat): nat { if a < b then b else a }

  // ----- capacity

  /** The tick's counters against the branches it has changed: live is an upper
      bound, since a kill is not subtracted, and the child counts are exact. */
  ghost predicate Counted(p: Progress) {
    && |LiveBranches(p.branches)| <= p.live
    && forall b :: Count(p.children, b) == |ChildrenOf(p.branches, b)|
  }

  /** The ids not yet drawn are still new. */
  predicate IdsLeft(p: Progress, ids: seq<string>) {
    NoDup(ids) && forall k :: p.drawn <= k < |ids| ==> ids[k] !in p.branches
  }

  lemma SpawnCountsLive(branches: map<string, Branch>, id: string, parent: Option<string>)
    requires id !in branches
    ensures |LiveBranches(SpawnBranch(branches, id, parent))| == |LiveBranches(branches)| + 1
  {
    assert LiveBranches(SpawnBranch(branches, id, parent)) == LiveBranches(branches) + {id};
  }

  lemma SpawnCountsChildren(branches: map<string, Branch>, id: string, parent: Option<string>, b: string)
    requires id !in branches
    ensures |ChildrenOf(SpawnBranch(branches, id, parent), b)|
         == |ChildrenOf(branches, b)| + (if parent == Some(b) then 1 else 0)
  {
    var more := SpawnBranch(branches, id, parent);
    if parent == Some(b) {
      assert ChildrenOf(more, b) == ChildrenOf(branches, b) + {id};
    } else {
      assert ChildrenOf(more, b) == ChildrenOf(branches, b);
    }
  }

  lemma ArchiveCounts(branches: map<string, Branch>, x: string, b: string)
    ensures var less := ArchiveIn(branches, x);
            && |LiveBranches(less)| <= |LiveBranches(branches)|
            && ChildrenOf(less, b) == ChildrenOf(branches, b)
            && less.Keys == branches.Keys
  {
    var less := ArchiveIn(branches, x);
    assert LiveBranches(less) <= LiveBranches(branches);
    CardinalityMonotone(LiveBranches(less), LiveBranches(branches));
  }

  lemma StartCounted(w: World, ids: seq<string>)
    requires AreNew(w, ids, 0)
    ensures Counted(Start(w)) && IdsLeft(Start(w), ids)
  {
    forall b
      ensures Count(ChildCounts(w.branches), b) == |ChildrenOf(w.branches, b)|
    {
      if b !in ChildCounts(w.branches) {
        assert ChildrenOf(w.branches, b) == {};
      }
    }
    assert forall k :: 0 <= k < |ids| ==> ids[k] in ids;
  }

  lemma ActKeepsCounted(p: Progress, d: Decision, parent: Option<string>, ids: seq<string>)
    requires p.drawn < |ids| && Counted(p) && IdsLeft(p, ids)
    ensures Counted(Act(p, d, parent, false, ids)) && IdsLeft(Act(p, d, parent, false, ids), ids)
    ensures Act(p, d, parent, false, ids).live == p.live + (if d.action == Kill then 0 else 1)
    ensures forall b :: Count(Act(p, d, parent, false, ids).children, b)
                     == Count(p.children, b) + (if d.action != Kill && parent == Some(b) then 1 else 0)
  {
    hide LiveBranches, ChildrenOf, ArchiveIn, SpawnBranch;
    var q := Act(p, d, parent, false, ids);
    forall b
      ensures Count(q.children, b) == |ChildrenOf(q.branches, b)|
    {
      if d.action == Kill {
        if d.source.Some? {
          ArchiveCounts(p.branches, d.source.value, b);
        }
      } else {
        SpawnCountsChildren(p.branches, ids[p.drawn], parent, b);
      }
    }
    if d.action == Kill {
      if d.source.Some? {
        ArchiveCounts(p.branches, d.source.value, "");
      }
    } else {
      SpawnCountsLive(p.branches, ids[p.drawn], parent);
    }
    KeysAfterAct(p, d, parent, ids);
    assert forall k :: q.drawn <= k < |ids| ==> ids[k] != ids[p.drawn] || k == p.drawn;
  }

  lemma KeysAfterAct(p: Progress, d: Decision, parent: Option<string>, ids: seq<string>)
    requires p.drawn < |ids|
    ensures Act(p, d, parent, false, ids).branches.Keys
         == p.branches.Keys + if d.action == Kill then {} else {ids[p.drawn]}
  {
  }

  /** Room was checked before every spawn, so the limits hold afterwards. */
  ghost predicate WithinLimits(p: Progress, policy: Policy, w: World, extra: Option<string>) {
    && p.live <= Max(|LiveBranches(w.branches)|, policy.maxLive)
    && forall b :: Count(p.children, b)
         <= Max(|ChildrenOf(w.branches, b)|, policy.maxChildren) + (if extra == Some(b) then 1 else 0)
  }

  lemma ForkHadRoom(b: Branch, session: Option<Session>, policy: Policy, processed: set<string>, room: bool)
    ensures var d := Decide(b, session, policy, processed, room);
            d.Some? && d.value.action != Kill ==> room
  {
  }

  lemma VisitKeepsLimits(w: World, policy: Policy, processed: set<string>, ids: seq<string>, b: string, p: Progress)
    requires b in w.branches && p.drawn < |ids| && Counted(p) && IdsLeft(p, ids) && WithinLimits(p, policy, w, None)
    ensures var q := VisitBranch(w, policy, processed, false, ids, b, p);
            Counted(q) && IdsLeft(q, ids) && WithinLimits(q, policy, w, None)
  {
    var room := CanSpawn(p, policy, Some(b));
    ForkHadRoom(w.branches[b], SessionOf(w, b), policy, processed, room);
    hide Counted, IdsLeft, Decide, Act;
    var d := Decide(w.branches[b], SessionOf(w, b), policy, processed, room);
    if d.Some? {
      ActKeepsCounted(p, d.value, Some(b), ids);
    }
  }

  lemma {:induction false} VisitsKeepLimits(
    w: World, policy: Policy, processed: set<string>, ids: seq<string>, listing: seq<string>, p: Progress)
    requires forall b :: b in listing ==> b in w.branches
    requires p.drawn + |listing| <= |ids| && Counted(p) && IdsLeft(p, ids) && WithinLimits(p, policy, w, None)
    ensures var q := VisitBranches(w, policy, processed, false, ids, listing, p);
            Counted(q) && IdsLeft(q, ids) && WithinLimits(q, policy, w, None)
    decreases |listing|
  {
    hide Counted, IdsLeft, WithinLimits, VisitBranch;
    if listing != [] {
      assert listing[0] in listing;
      VisitKeepsLimits(w, policy, processed, ids, listing[0], p);
      VisitDraws(w, policy, processed, false, ids, listing[0], p);
      VisitsKeepLimits(w, policy, processed, ids, listing[1..],
        VisitBranch(w, policy, processed, false, ids, listing[0], p));
    }
  }

  lemma ObstacleKeepsLimits(w: World, policy: Policy, processed: set<string>, ids: seq<string>, p: Progress)
    requires p.drawn < |ids| && Counted(p) && IdsLeft(p, ids) && WithinLimits(p, policy, w, None)
    ensures var q := ObstaclePhase(w, policy, processed, false, ids, p);
            Counted(q) && IdsLeft(q, ids) && WithinLimits(q, policy, w, None)
  {
    hide Counted, IdsLeft, Act;
    var d := FirstDigest(w.digests, processed);
    if policy.onObstacle && d.Some? && CanSpawn(p, policy, None) {
      ActKeepsCounted(p, Decision(Generate, Some(d.value.source), None, Some(DigestMarker(d.value))), None, ids);
    }
  }

  /** The branch whose knowledge is being revalidated, if the tick does that. */
  function Revalidated(w: World, policy: Policy, processed: set<string>): Option<string> {
    var c := FirstChallenge(w.challenges, w.versions, processed);
    if policy.onChallenge && c.Some? then Some(w.versions[c.value.knowledge]) else None
  }

  lemma ChallengeKeepsLimits(w: World, policy: Policy, processed: set<string>, ids: seq<string>, p: Progress)
    requires p.drawn < |ids| && Counted(p) && IdsLeft(p, ids) && WithinLimits(p, policy, w, None)
    ensures var q := ChallengePhase(w, policy, processed, false, ids, p);
            Counted(q) && WithinLimits(q, policy, w, Revalidated(w, policy, processed))
  {
    hide Counted, IdsLeft, Act;
    var c := FirstChallenge(w.challenges, w.versions, processed);
    if policy.onChallenge && c.Some? && CanSpawn(p, policy, None) {
      var parent := w.versions[c.value.knowledge];
      ActKeepsCounted(p, Decision(Fork, Some(parent), None, Some(c.value.id)), Some(parent), ids);
    }
  }

  /** A real tick leaves at most max(before, limit) live branches, and each branch
      at most max(before, limit) children, plus one only for the branch whose
      knowledge is revalidated, because that fork does not check the parent. */
  lemma RealTickRespectsLimits(
    w: World, policy: Policy, processed: set<string>, listing: seq<string>, ids: seq<string>, b: string)
    requires IsListing(w, listing) && AreNew(w, ids, |listing|)
    ensures var after := Tick(w, policy, processed, false, listing, ids).branches;
            && |LiveBranches(after)| <= Max(|LiveBranches(w.branches)|, policy.maxLive)
            && |ChildrenOf(after, b)| <= Max(|ChildrenOf(w.branches, b)|, policy.maxChildren)
                 + (if Revalidated(w, policy, processed) == Some(b) then 1 else 0)
  {
    ListingCovers(w, listing);
    StartCounted(w, ids);
    assert WithinLimits(Start(w), policy, w, None);
    var p0 := Start(w);
    VisitsKeepLimits(w, policy, processed, ids, listing, p0);
    var p1 := VisitBranches(w, policy, processed, false, ids, listing, p0);
    ObstacleKeepsLimits(w, policy, processed, ids, p1);
    var p2 := ObstaclePhase(w, policy, processed, false, ids, p1);
    ChallengeKeepsLimits(w, policy, processed, ids, p2);
  }

  // ----- triggers and what a tick acts on

  /** Everything the records of a world could make a tick act on. */
  function BranchTriggers(w: World, b: string): set<string>
    requires b in w.branches
  {
    var branch := w.branches[b];
    (if branch.status == Rejected then {RejectedMarker(branch.id)} else {})
    + (if b in w.council && w.council[b].failed then {CouncilMarker(w.council[b].id)} else {})
    + (set r | r in branch.counterexamples && !r.resolved :: r.id)
    + (set r | r in branch.experiments && IsSetback(r.status) :: r.id)
  }

  function DigestTriggers(w: World): set<string> {
    set d | d in w.digests && HasObstacle(d) :: DigestMarker(d)
  }

  function ChallengeTriggers(w: World): set<string> {
    set c | c in w.challenges && IsActionable(c, w.versions) :: c.id
  }

  function Triggers(w: World): set<string> {
    (set b, t | b in w.branches && t in BranchTriggers(w, b) :: t) + DigestTriggers(w) + ChallengeTriggers(w)
  }

  lemma DecisionComesFromTrigger(w: World, b: string, policy: Policy, processed: set<string>, room: bool)
    requires b in w.branches
    ensures var d := Decide(w.branches[b], SessionOf(w, b), policy, processed, room);
            d.Some? ==> d.value.related.Some? && d.value.related.value in BranchTriggers(w, b) - processed
  {
  }

  /** Triggers of different origin never coincide. */
  predicate TriggersDistinct(w: World) {
    && (forall b, c :: b in w.branches && c in w.branches && b != c ==> BranchTriggers(w, b) !! BranchTriggers(w, c))
    && (forall b :: b in w.branches ==>
          BranchTriggers(w, b) !! DigestTriggers(w) && BranchTriggers(w, b) !! ChallengeTriggers(w))
    && DigestTriggers(w) !! ChallengeTriggers(w)
  }

  function RelatedIds(s: seq<Decision>): seq<string> {
    if s == [] then []
    else RelatedIds(s[..|s| - 1]) + if s[|s| - 1].related.Some? then [s[|s| - 1].related.value] else []
  }

  lemma RelatedAppend(s: seq<Decision>, d: Decision)
    ensures RelatedIds(s + [d]) == RelatedIds(s) + if d.related.Some? then [d.related.value] else []
  {
    assert (s + [d])[..|s|] == s;
  }

  function TriggersOf(w: World, visited: set<string>): set<string> {
    set b, t | b in visited && b in w.branches && t in BranchTriggers(w, b) :: t
  }

  /** So far each decision answers a pending trigger of a visited branch, no two the same. */
  predicate ActsOn(p: Progress, allowed: set<string>, processed: set<string>) {
    && NoDup(RelatedIds(p.decisions))
    && (forall t :: t in RelatedIds(p.decisions) ==> t in allowed && t !in processed)
    && (forall d :: d in p.decisions ==> d.related.Some?)
  }

  lemma ActRelated(p: Progress, d: Decision, parent: Option<string>, dry: bool, ids: seq<string>)
    requires p.drawn < |ids| && d.related.Some?
    ensures var q := Act(p, d, parent, dry, ids);
            && RelatedIds(q.decisions) == RelatedIds(p.decisions) + [d.related.value]
            && |q.decisions| == |p.decisions| + 1
            && forall x :: x in q.decisions ==> x in p.decisions || x.related.Some?
  {
    var q := Act(p, d, parent, dry, ids);
    var last := q.decisions[|p.decisions|];
    assert q.decisions == p.decisions + [last];
    RelatedAppend(p.decisions, last);
  }

  lemma ActActsOn(
    p: Progress, d: Decision, parent: Option<string>, dry: bool, ids: seq<string>, allowed: set<string>,
    more: set<string>, processed: set<string>)
    requires p.drawn < |ids| && ActsOn(p, allowed, processed)
    requires d.related.Some? && d.related.value in more && d.related.value !in allowed && d.related.value !in processed
    requires allowed <= more
    ensures ActsOn(Act(p, d, parent, dry, ids), more, processed)
    ensures |Act(p, d, parent, dry, ids).decisions| == |p.decisions| + 1
  {
    ActRelated(p, d, parent, dry, ids);
    hide Act, RelatedIds;
    assert d.related.value !in RelatedIds(p.decisions);
  }

  lemma MoreAllowed(p: Progress, allowed: set<string>, more: set<string>, processed: set<string>)
    requires ActsOn(p, allowed, processed) && allowed <= more
    ensures ActsOn(p, more, processed)
  {
  }

  lemma VisitActsOn(
    w: World, policy: Policy, processed: set<string>, dry: bool, ids: seq<string>, b: string, p: Progress,
    visited: set<string>)
    requires TriggersDistinct(w) && b in w.branches && b !in visited && p.drawn < |ids|
    requires visited <= w.branches.Keys && ActsOn(p, TriggersOf(w, visited), processed)
    ensures ActsOn(VisitBranch(w, policy, processed, dry, ids, b, p), TriggersOf(w, visited + {b}), processed)
  {
    hide ActsOn, Act, Decide, BranchTriggers;
    var allowed, more := TriggersOf(w, visited), TriggersOf(w, visited + {b});
    assert allowed <= more && BranchTriggers(w, b) <= more && BranchTriggers(w, b) !! allowed;
    DecisionComesFromTrigger(w, b, policy, processed, CanSpawn(p, policy, Some(b)));
    var d := Decide(w.branches[b], SessionOf(w, b), policy, processed, CanSpawn(p, policy, Some(b)));
    if d.Some? {
      ActActsOn(p, d.value, Some(b), dry, ids, allowed, more, processed);
    } else {
      MoreAllowed(p, allowed, more, processed);
    }
  }

  lemma {:induction false} VisitsActOn(
    w: World, policy: Policy, processed: set<string>, dry: bool, ids: seq<string>, listing: seq<string>, p: Progress,
    visited: set<string>)
    requires TriggersDistinct(w) && NoDup(listing)
    requires forall b :: b in listing ==> b in w.branches && b !in visited
    requires visited <= w.branches.Keys && p.drawn + |listing| <= |ids|
    requires ActsOn(p, TriggersOf(w, visited), processed)
    ensures ActsOn(VisitBranches(w, policy, processed, dry, ids, listing, p),
              TriggersOf(w, visited + Elements(listing)), processed)
    decreases |listing|
  {
    hide ActsOn, TriggersDistinct, VisitBranch, TriggersOf;
    if listing != [] {
      var b := listing[0];
      assert b in listing;
      VisitActsOn(w, policy, processed, dry, ids, b, p, visited);
      VisitDraws(w, policy, processed, dry, ids, b, p);
      assert listing == [b] + listing[1..];
      assert visited + Elements(listing) == (visited + {b}) + Elements(listing[1..]);
      VisitsActOn(w, policy, processed, dry, ids, listing[1..], VisitBranch(w, policy, processed, dry, ids, b, p),
        visited + {b});
    } else {
      assert visited + Elements(listing) == visited;
    }
  }

  lemma ObstacleActsOn(w: World, policy: Policy, processed: set<string>, dry: bool, ids: seq<string>, p: Progress)
    requires TriggersDistinct(w) && p.drawn < |ids| && ActsOn(p, TriggersOf(w, w.branches.Keys), processed)
    ensures ActsOn(ObstaclePhase(w, policy, processed, dry, ids, p),
              TriggersOf(w, w.branches.Keys) + DigestTriggers(w), processed)
  {
    hide ActsOn, Act, BranchTriggers;
    var allowed := TriggersOf(w, w.branches.Keys);
    var more := allowed + DigestTriggers(w);
    assert allowed !! DigestTriggers(w);
    var d := FirstDigest(w.digests, processed);
    MoreAllowed(p, allowed, more, processed);
    if policy.onObstacle && d.Some? && CanSpawn(p, policy, None) {
      assert DigestMarker(d.value) in DigestTriggers(w);
      ActActsOn(p, Decision(Generate, Some(d.value.source), None, Some(DigestMarker(d.value))), None, dry, ids,
        allowed, more, processed);
    }
  }

  lemma ChallengeActsOn(w: World, policy: Policy, processed: set<string>, dry: bool, ids: seq<string>, p: Progress)
    requires TriggersDistinct(w) && p.drawn < |ids|
    requires ActsOn(p, TriggersOf(w, w.branches.Keys) + DigestTriggers(w), processed)
    ensures ActsOn(ChallengePhase(w, policy, processed, dry, ids, p), Triggers(w), processed)
  {
    hide ActsOn, Act, BranchTriggers;
    var allowed := TriggersOf(w, w.branches.Keys) + DigestTriggers(w);
    var more := Triggers(w);
    assert allowed <= more && allowed !! ChallengeTriggers(w);
    var c := FirstChallenge(w.challenges, w.versions, processed);
    MoreAllowed(p, allowed, more, processed);
    if policy.onChallenge && c.Some? && CanSpawn(p, policy, None) {
      assert c.value.id in ChallengeTriggers(w);
      var parent := w.versions[c.value.knowledge];
      ActActsOn(p, Decision(Fork, Some(parent), None, Some(c.value.id)), Some(parent), dry, ids, allowed, more,
        processed);
    }
  }

  /** Every decision of a tick answers a different trigger that was pending. */
  lemma TickActsOnPending(
    w: World, policy: Policy, processed: set<string>, dry: bool, listing: seq<string>, ids: seq<string>)
    requires IsListing(w, listing) && AreNew(w, ids, |listing|) && TriggersDistinct(w)
    ensures ActsOn(Tick(w, policy, processed, dry, listing, ids), Triggers(w), processed)
  {
    hide TriggersDistinct, BranchTriggers, ActsOn, VisitBranches, ObstaclePhase, ChallengePhase;
    ListingCovers(w, listing);
    var p0 := Start(w);
    NothingYet(p0, w, processed);
    VisitsActOn(w, policy, processed, dry, ids, listing, p0, {});
    assert {} + Elements(listing) == w.branches.Keys;
    var p1 := VisitBranches(w, policy, processed, dry, ids, listing, p0);
    ObstacleActsOn(w, policy, processed, dry, ids, p1);
    var p2 := ObstaclePhase(w, policy, processed, dry, ids, p1);
    ChallengeActsOn(w, policy, processed, dry, ids, p2);
  }

  lemma NothingYet(p: Progress, w: World, processed: set<string>)
    requires p.decisions == []
    ensures ActsOn(p, TriggersOf(w, {}), processed)
  {
  }
}
