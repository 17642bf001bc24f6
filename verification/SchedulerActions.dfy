/** What a tick does about each branch, digest and challenge, and to the branches. */
module SchedulerActions {
  import opened Wrappers
  import opened LexOrder
  import opened Schema
  import opened SchedulerTick
  import opened SchedulerRuns

  // ----- what the records of a branch call for

  predicate IsRejectedFor(w: World, policy: Policy, b: string)
    requires b in w.branches
  {
    policy.killRejected && w.branches[b].status == Rejected
  }

  predicate IsFailedFor(w: World, policy: Policy, b: string)
    requires b in w.branches
  {
    policy.killFailedCouncil && b in w.council && w.council[b].failed
  }

  /** A branch is killed for a marker that no earlier run has acted on: of its
      rejection, or else of its failed council session. */
  predicate IsKillDue(w: World, policy: Policy, processed: set<string>, b: string, marker: string)
    requires b in w.branches
  {
    && marker !in processed
    && (if IsRejectedFor(w, policy, b) then marker == "rejected:" + b
        else IsFailedFor(w, policy, b) && marker == "council-failed:" + w.council[b].id)
  }

  predicate IsUnresolvedAt(b: Branch, processed: set<string>, i: nat)
    requires i < |b.counterexamples|
  {
    !b.counterexamples[i].resolved && b.counterexamples[i].id !in processed
  }

  predicate IsSetbackAt(b: Branch, processed: set<string>, i: nat)
    requires i < |b.experiments|
  {
    && (b.experiments[i].status == Failed || b.experiments[i].status == Inconclusive)
    && b.experiments[i].id !in processed
  }

  predicate IsFirstUnresolved(b: Branch, processed: set<string>, id: string) {
    exists i :: 0 <= i < |b.counterexamples| && IsUnresolvedAt(b, processed, i) && b.counterexamples[i].id == id
      && forall k :: 0 <= k < i ==> !IsUnresolvedAt(b, processed, k)
  }

  predicate IsFirstSetback(b: Branch, processed: set<string>, id: string) {
    exists i :: 0 <= i < |b.experiments| && IsSetbackAt(b, processed, i) && b.experiments[i].id == id
      && forall k :: 0 <= k < i ==> !IsSetbackAt(b, processed, k)
  }

  predicate HasUnresolvedPending(b: Branch, processed: set<string>) {
    exists i :: 0 <= i < |b.counterexamples| && IsUnresolvedAt(b, processed, i)
  }

  /** A branch that is not to be killed is forked for its first unresolved
      counterexample, or without one for its first setback. */
  predicate IsForkDue(w: World, policy: Policy, processed: set<string>, b: string, id: string)
    requires b in w.branches
  {
    && !IsRejectedFor(w, policy, b) && !IsFailedFor(w, policy, b)
    && (if policy.onCounterexample && HasUnresolvedPending(w.branches[b], processed)
        then IsFirstUnresolved(w.branches[b], processed, id)
        else policy.onExperiment && IsFirstSetback(w.branches[b], processed, id))
  }

  // ----- reading decisions

  predicate HasDecision(decisions: seq<Decision>, action: Action, b: string, id: string) {
    exists d :: d in decisions && d.action == action && d.source == Some(b) && d.related == Some(id)
  }

  predicate IsForkOf(d: Decision, among: seq<string>) {
    d.action == Fork && d.source.Some? && d.source.value in among
  }

  /** How many of the decisions fork one of the given branches. */
  function ForksOf(decisions: seq<Decision>, among: seq<string>): nat {
    if decisions == [] then 0 else (if IsForkOf(decisions[0], among) then 1 else 0) + ForksOf(decisions[1..], among)
  }

  lemma {:induction false} ForksOfSame(decisions: seq<Decision>, a: seq<string>, b: seq<string>)
    requires forall d :: d in decisions ==> IsForkOf(d, a) == IsForkOf(d, b)
    ensures ForksOf(decisions, a) == ForksOf(decisions, b)
  {
    if decisions != [] {
      assert decisions[0] in decisions;
      ForksOfSame(decisions[1..], a, b);
    }
  }

  // ----- one visit

  predicate IdsMatch(w: World) {
    forall b :: b in w.branches ==> w.branches[b].id == b
  }

  function Spent(dry: bool, forks: nat): nat { if dry then 0 else forks }

  predicate HasRoom(w: World, policy: Policy, b: string, live: nat) {
    live < policy.maxLive && |set c | c in w.branches && w.branches[c].parent == Some(b)| < policy.maxChildren
  }

  /** The decision about one branch, for a given number of live branches. */
  ghost predicate AnswersBranch(
    w: World, policy: Policy, processed: set<string>, made: seq<Decision>, b: string, live: nat)
    requires b in w.branches
  {
    && |made| <= 1
    && (forall d :: d in made ==> (d.action == Kill || d.action == Fork) && d.source == Some(b) && d.related.Some?)
    && (forall m :: HasDecision(made, Kill, b, m) <==> IsKillDue(w, policy, processed, b, m))
    && (forall c :: HasDecision(made, Fork, b, c) <==>
          IsForkDue(w, policy, processed, b, c) && HasRoom(w, policy, b, live))
  }

  lemma UnresolvedIsFirst(b: Branch, processed: set<string>, id: string)
    ensures FirstUnresolved(b.counterexamples, processed).Some? <==> HasUnresolvedPending(b, processed)
    ensures FirstUnresolved(b.counterexamples, processed) == Some(id) <==> IsFirstUnresolved(b, processed, id)
  {
    var found := FirstUnresolved(b.counterexamples, processed);
    hide FirstUnresolved;
    var s := b.counterexamples;
    if i :| 0 <= i < |s| && IsUnresolvedAt(b, processed, i) {
      assert !s[i].resolved && s[i].id !in processed;
    }
    if found.Some? {
      var i :| 0 <= i < |s| && !s[i].resolved && s[i].id == found.value
        && forall k :: 0 <= k < i ==> s[k].resolved || s[k].id in processed;
      assert IsUnresolvedAt(b, processed, i);
      if IsFirstUnresolved(b, processed, id) {
        var j :| 0 <= j < |s| && IsUnresolvedAt(b, processed, j) && s[j].id == id
          && forall k :: 0 <= k < j ==> !IsUnresolvedAt(b, processed, k);
        assert i == j;
      }
    }
  }

  lemma SetbackIsFirst(b: Branch, processed: set<string>, id: string)
    ensures FirstSetback(b.experiments, processed) == Some(id) <==> IsFirstSetback(b, processed, id)
  {
    var found := FirstSetback(b.experiments, processed);
    hide FirstSetback;
    var s := b.experiments;
    if i :| 0 <= i < |s| && IsSetbackAt(b, processed, i) {
      assert IsSetback(s[i].status) && s[i].id !in processed;
    }
    if found.Some? {
      var i :| 0 <= i < |s| && IsSetback(s[i].status) && s[i].id == found.value
        && forall k :: 0 <= k < i ==> !IsSetback(s[k].status) || s[k].id in processed;
      assert IsSetbackAt(b, processed, i);
      if IsFirstSetback(b, processed, id) {
        var j :| 0 <= j < |s| && IsSetbackAt(b, processed, j) && s[j].id == id
          && forall k :: 0 <= k < j ==> !IsSetbackAt(b, processed, k);
        assert i == j;
      }
    }
  }

  lemma DecideKills(w: World, policy: Policy, processed: set<string>, b: string, room: bool, id: string)
    requires b in w.branches && IdsMatch(w)
    ensures var d := Decide(w.branches[b], SessionOf(w, b), policy, processed, room);
            (d.Some? && d.value.action == Kill && d.value.related == Some(id)) <==>
              IsKillDue(w, policy, processed, b, id)
  {
    hide FirstUnresolved, FirstSetback;
  }

  lemma DecideForks(w: World, policy: Policy, processed: set<string>, b: string, room: bool, id: string)
    requires b in w.branches && IdsMatch(w)
    ensures var d := Decide(w.branches[b], SessionOf(w, b), policy, processed, room);
            (d.Some? && d.value.action == Fork && d.value.related == Some(id)) <==>
              IsForkDue(w, policy, processed, b, id) && room
  {
    UnresolvedIsFirst(w.branches[b], processed, id);
    SetbackIsFirst(w.branches[b], processed, id);
    hide IsFirstUnresolved, IsFirstSetback, HasUnresolvedPending, FirstUnresolved, FirstSetback;
  }

  lemma DecideIsAboutTheBranch(w: World, policy: Policy, processed: set<string>, b: string, room: bool)
    requires b in w.branches && IdsMatch(w)
    ensures var d := Decide(w.branches[b], SessionOf(w, b), policy, processed, room);
            d.Some? ==>
              && d.value.source == Some(b) && d.value.related.Some? && d.value.target.None?
              && (d.value.action == Kill || d.value.action == Fork)
  {
    hide FirstUnresolved, FirstSetback;
  }

  lemma {:induction false} ForksOfConcat(a: seq<Decision>, b: seq<Decision>, among: seq<string>)
    ensures ForksOf(a + b, among) == ForksOf(a, among) + ForksOf(b, among)
  {
    if a == [] {
      assert a + b == b;
    } else {
      assert (a + b)[1..] == a[1..] + b;
      ForksOfConcat(a[1..], b, among);
    }
  }

  lemma {:induction false} NoForksOfNone(decisions: seq<Decision>)
    ensures ForksOf(decisions, []) == 0
  {
    if decisions != [] {
      NoForksOfNone(decisions[1..]);
    }
  }

  lemma VisitAnswers(
    w: World, policy: Policy, processed: set<string>, dry: bool, ids: seq<string>, b: string, p: Progress)
    returns (made: seq<Decision>)
    requires b in w.branches && p.drawn < |ids| && IdsMatch(w)
    requires Count(p.children, b) == |ChildrenOf(w.branches, b)|
    ensures var q := VisitBranch(w, policy, processed, dry, ids, b, p);
            && q.decisions == p.decisions + made
            && q.live == p.live + Spent(dry, ForksOf(made, [b]))
            && forall x :: x != b ==> Count(q.children, x) == Count(p.children, x)
    ensures AnswersBranch(w, policy, processed, made, b, p.live)
  {
    var room := CanSpawn(p, policy, Some(b));
    var d := Decide(w.branches[b], SessionOf(w, b), policy, processed, room);
    forall id
      ensures (d.Some? && d.value.action == Kill && d.value.related == Some(id)) <==>
                IsKillDue(w, policy, processed, b, id)
      ensures (d.Some? && d.value.action == Fork && d.value.related == Some(id)) <==>
                IsForkDue(w, policy, processed, b, id) && room
    {
      DecideKills(w, policy, processed, b, room, id);
      DecideForks(w, policy, processed, b, room, id);
    }
    DecideIsAboutTheBranch(w, policy, processed, b, room);
    hide Decide, IsKillDue, IsForkDue, AnswersBranch;
    if d.None? {
      made := [];
    } else {
      made := ActRecords(p, d.value, b, dry, ids);
    }
    MadeAnswers(w, policy, processed, d, made, b, p.live, room);
  }

  /** Acting records the decision, with a target if it spawns a branch. */
  lemma ActRecords(p: Progress, d: Decision, b: string, dry: bool, ids: seq<string>) returns (made: seq<Decision>)
    requires p.drawn < |ids| && (d.action == Kill || d.action == Fork) && d.source == Some(b)
    ensures |made| == 1 && made[0] == d.(target := made[0].target)
    ensures var q := Act(p, d, Some(b), dry, ids);
            && q.decisions == p.decisions + made
            && q.live == p.live + Spent(dry, ForksOf(made, [b]))
            && forall x :: x != b ==> Count(q.children, x) == Count(p.children, x)
  {
    hide ArchiveIn, SpawnBranch;
    var q := Act(p, d, Some(b), dry, ids);
    made := [q.decisions[|p.decisions|]];
    assert ForksOf(made[1..], [b]) == 0;
  }

  lemma MadeAnswers(
    w: World, policy: Policy, processed: set<string>, d: Option<Decision>, made: seq<Decision>, b: string, live: nat,
    room: bool)
    requires b in w.branches && room == HasRoom(w, policy, b, live)
    requires d.None? ==> made == []
    requires d.Some? ==>
               && |made| == 1 && made[0] == d.value.(target := made[0].target)
               && d.value.source == Some(b) && d.value.related.Some?
               && (d.value.action == Kill || d.value.action == Fork)
    requires forall id :: (d.Some? && d.value.action == Kill && d.value.related == Some(id)) <==>
               IsKillDue(w, policy, processed, b, id)
    requires forall id :: (d.Some? && d.value.action == Fork && d.value.related == Some(id)) <==>
               IsForkDue(w, policy, processed, b, id) && room
    ensures AnswersBranch(w, policy, processed, made, b, live)
  {
    hide IsKillDue, IsForkDue, HasRoom;
    if d.Some? {
      assert made[0] in made;
    }
  }

  /** What the branches of a listing are answered, one after the other. */
  ghost predicate AnswersAll(
    w: World, policy: Policy, processed: set<string>, dry: bool, made: seq<Decision>, listing: seq<string>, live: nat)
    requires forall b :: b in listing ==> b in w.branches
  {
    && (forall d :: d in made ==>
          (d.action == Kill || d.action == Fork) && d.source.Some? && d.source.value in listing && d.related.Some?)
    && (forall i, j :: 0 <= i < j < |made| ==> made[i].source != made[j].source)
    && (forall i, id :: 0 <= i < |listing| ==> AnswersAt(w, policy, processed, dry, made, listing, i, id, live))
  }

  /** The branch at a place of the listing is killed, or forked, for an id exactly if
      that is due and, for a fork, if the forks before it have left room. */
  predicate AnswersAt(
    w: World, policy: Policy, processed: set<string>, dry: bool, made: seq<Decision>, listing: seq<string>, i: nat,
    id: string, live: nat)
    requires i < |listing| && listing[i] in w.branches
  {
    && KillsExactly(w, policy, processed, made, listing[i], id)
    && ForksExactly(w, policy, processed, made, listing[i], id, live + Spent(dry, ForksOf(made, listing[..i])))
  }

  predicate KillsExactly(
    w: World, policy: Policy, processed: set<string>, made: seq<Decision>, b: string, marker: string)
    requires b in w.branches
  {
    HasDecision(made, Kill, b, marker) <==> IsKillDue(w, policy, processed, b, marker)
  }

  predicate ForksExactly(
    w: World, policy: Policy, processed: set<string>, made: seq<Decision>, b: string, id: string, live: nat)
    requires b in w.branches
  {
    HasDecision(made, Fork, b, id) <==> IsForkDue(w, policy, processed, b, id) && HasRoom(w, policy, b, live)
  }

  lemma OwnDecisions(one: seq<Decision>, others: seq<Decision>, b: string, action: Action, x: string, id: string)
    requires forall d :: d in one ==> d.source == Some(b)
    requires forall d :: d in others ==> d.source != Some(b)
    ensures HasDecision(one + others, action, x, id)
       <==> if x == b then HasDecision(one, action, x, id) else HasDecision(others, action, x, id)
  {
    assert forall d :: d in one + others <==> d in one || d in others;
  }

  lemma ForksOfListed(one: seq<Decision>, others: seq<Decision>, listing: seq<string>, i: nat)
    requires listing != [] && NoDup(listing) && i <= |listing|
    requires forall d :: d in one ==> d.source == Some(listing[0])
    requires forall d :: d in others ==> d.source.Some? && d.source.value in listing[1..]
    ensures ForksOf(one + others, listing[..i])
         == if i == 0 then 0 else ForksOf(one, [listing[0]]) + ForksOf(others, listing[1..][..i - 1])
  {
    ForksOfConcat(one, others, listing[..i]);
    if i == 0 {
      NoForksOfNone(one);
      NoForksOfNone(others);
    } else {
      assert listing[0] in listing[..i];
      ForksOfSame(one, listing[..i], [listing[0]]);
      assert listing[..i] == [listing[0]] + listing[1..][..i - 1];
      assert listing[0] !in listing[1..];
      ForksOfSame(others, listing[..i], listing[1..][..i - 1]);
    }
  }

  lemma AnswersOneMore(
    w: World, policy: Policy, processed: set<string>, dry: bool, one: seq<Decision>, others: seq<Decision>,
    listing: seq<string>, live: nat)
    requires listing != [] && NoDup(listing) && forall b :: b in listing ==> b in w.branches
    requires AnswersBranch(w, policy, processed, one, listing[0], live)
    requires forall b :: b in listing[1..] ==> b in w.branches
    requires AnswersAll(w, policy, processed, dry, others, listing[1..],
               live + Spent(dry, ForksOf(one, [listing[0]])))
    ensures AnswersAll(w, policy, processed, dry, one + others, listing, live)
  {
    hide IsKillDue, IsForkDue, HasRoom, ForksOf, HasDecision;
    var b, rest, made := listing[0], listing[1..], one + others;
    assert b !in rest && forall x :: x in rest ==> x in listing;
    assert forall d :: d in others ==> d.source != Some(b);
    forall d | d in made
      ensures (d.action == Kill || d.action == Fork) && d.source.Some? && d.source.value in listing && d.related.Some?
    {
      assert d in one || d in others;
    }
    forall i, j | 0 <= i < j < |made|
      ensures made[i].source != made[j].source
    {
      if i < |one| <= j {
        assert made[i] in one && made[j] in others;
      }
    }
    forall i, id | 0 <= i < |listing|
      ensures AnswersAt(w, policy, processed, dry, made, listing, i, id, live)
    {
      OwnDecisions(one, others, b, Kill, listing[i], id);
      OwnDecisions(one, others, b, Fork, listing[i], id);
      ForksOfListed(one, others, listing, i);
      if i > 0 {
        assert listing[i] == rest[i - 1] && listing[i] != b;
        assert AnswersAt(w, policy, processed, dry, others, rest, i - 1, id, live + Spent(dry, ForksOf(one, [b])));
      }
    }
  }

  lemma {:induction false} VisitsAnswer(
    w: World, policy: Policy, processed: set<string>, dry: bool, ids: seq<string>, listing: seq<string>, p: Progress)
    returns (made: seq<Decision>)
    requires NoDup(listing) && IdsMatch(w) && p.drawn + |listing| <= |ids|
    requires forall b :: b in listing ==> b in w.branches && Count(p.children, b) == |ChildrenOf(w.branches, b)|
    ensures var q := VisitBranches(w, policy, processed, dry, ids, listing, p);
            q.decisions == p.decisions + made && q.live == p.live + Spent(dry, ForksOf(made, listing))
    ensures AnswersAll(w, policy, processed, dry, made, listing, p.live)
    decreases |listing|
  {
    hide VisitBranch, AnswersBranch, AnswersAll, ChildrenOf, ForksOf, Count;
    if listing == [] {
      made := [];
      NothingAnswered(w, policy, processed, dry, p.live);
    } else {
      var b, rest := listing[0], listing[1..];
      assert b in listing && b !in rest && forall x :: x in rest ==> x in listing;
      var one := VisitAnswers(w, policy, processed, dry, ids, b, p);
      VisitDraws(w, policy, processed, dry, ids, b, p);
      var others := VisitsAnswer(w, policy, processed, dry, ids, rest,
        VisitBranch(w, policy, processed, dry, ids, b, p));
      made := one + others;
      AnswersOneMore(w, policy, processed, dry, one, others, listing, p.live);
      AnswersSources(w, policy, processed, dry, one, others, b, rest, p.live);
      ForksOfListed(one, others, listing, |listing|);
      assert listing[..|listing|] == listing && rest[..|rest|] == rest;
    }
  }

  lemma NothingAnswered(w: World, policy: Policy, processed: set<string>, dry: bool, live: nat)
    ensures AnswersAll(w, policy, processed, dry, [], [], live) && ForksOf([], []) == 0
  {
  }

  lemma AnswersSources(
    w: World, policy: Policy, processed: set<string>, dry: bool, one: seq<Decision>, others: seq<Decision>, b: string,
    rest: seq<string>, live: nat)
    requires b in w.branches && AnswersBranch(w, policy, processed, one, b, live)
    requires forall x :: x in rest ==> x in w.branches
    requires AnswersAll(w, policy, processed, dry, others, rest, live + Spent(dry, ForksOf(one, [b])))
    ensures forall d :: d in one ==> d.source == Some(b)
    ensures forall d :: d in others ==> d.source.Some? && d.source.value in rest
  {
  }

  // ----- the whole tick

  /** The generation from a digest: from the first one with an obstacle that is
      pending, if there is live capacity. */
  predicate AnswersDigests(w: World, policy: Policy, processed: set<string>, made: seq<Decision>, live: nat) {
    && |made| <= 1
    && (made != [] <==> policy.onObstacle && live < policy.maxLive && HasPendingDigest(w, processed))
    && (made != [] ==>
          && made[0].action == Generate && made[0].source.Some? && made[0].related.Some?
          && exists i :: 0 <= i < |w.digests| && IsFirstDigest(w, processed, i)
               && made[0].source.value == w.digests[i].source
               && made[0].related.value == MarkerOf(w.digests[i]))
  }

  function MarkerOf(d: Digest): string { "pollination:" + d.generatedAt + ":" + d.source }

  predicate IsDigestAt(w: World, processed: set<string>, i: nat)
    requires i < |w.digests|
  {
    && w.digests[i].obstacle.Some? && w.digests[i].obstacle.value != ""
    && MarkerOf(w.digests[i]) !in processed
  }

  predicate HasPendingDigest(w: World, processed: set<string>) {
    exists i :: 0 <= i < |w.digests| && IsDigestAt(w, processed, i)
  }

  predicate IsFirstDigest(w: World, processed: set<string>, i: nat)
    requires i < |w.digests|
  {
    IsDigestAt(w, processed, i) && forall k :: 0 <= k < i ==> !IsDigestAt(w, processed, k)
  }

  predicate IsChallengeAt(w: World, processed: set<string>, i: nat)
    requires i < |w.challenges|
  {
    && w.challenges[i].isOpen && w.challenges[i].knowledge in w.versions
    && w.challenges[i].id !in processed
  }

  predicate HasPendingChallenge(w: World, processed: set<string>) {
    exists i :: 0 <= i < |w.challenges| && IsChallengeAt(w, processed, i)
  }

  predicate IsFirstChallenge(w: World, processed: set<string>, i: nat)
    requires i < |w.challenges|
  {
    IsChallengeAt(w, processed, i) && forall k :: 0 <= k < i ==> !IsChallengeAt(w, processed, k)
  }

  /** The fork that revalidates challenged knowledge, of the branch of its version. */
  predicate AnswersChallenges(w: World, policy: Policy, processed: set<string>, made: seq<Decision>, live: nat) {
    && |made| <= 1
    && (made != [] <==> policy.onChallenge && live < policy.maxLive && HasPendingChallenge(w, processed))
    && (made != [] ==>
          && made[0].action == Fork && made[0].source.Some? && made[0].related.Some?
          && exists i :: 0 <= i < |w.challenges| && IsFirstChallenge(w, processed, i)
               && made[0].source.value == w.versions[w.challenges[i].knowledge]
               && made[0].related.value == w.challenges[i].id)
  }

  lemma DigestAnswers(
    w: World, policy: Policy, processed: set<string>, dry: bool, ids: seq<string>, p: Progress)
    returns (made: seq<Decision>)
    requires p.drawn < |ids|
    ensures var q := ObstaclePhase(w, policy, processed, dry, ids, p);
            q.decisions == p.decisions + made && q.live == p.live + Spent(dry, |made|)
    ensures AnswersDigests(w, policy, processed, made, p.live)
  {
    var found := FirstDigest(w.digests, processed);
    hide FirstDigest, SpawnBranch;
    var q := ObstaclePhase(w, policy, processed, dry, ids, p);
    made := q.decisions[|p.decisions|..];
    if i :| 0 <= i < |w.digests| && IsDigestAt(w, processed, i) {
      assert HasObstacle(w.digests[i]) && DigestMarker(w.digests[i]) !in processed;
    }
    if found.Some? {
      var i :| 0 <= i < |w.digests| && w.digests[i] == found.value
        && forall k :: 0 <= k < i ==> !HasObstacle(w.digests[k]) || DigestMarker(w.digests[k]) in processed;
      assert IsDigestAt(w, processed, i) && IsFirstDigest(w, processed, i);
    }
  }

  lemma ChallengeAnswers(
    w: World, policy: Policy, processed: set<string>, dry: bool, ids: seq<string>, p: Progress)
    returns (made: seq<Decision>)
    requires p.drawn < |ids|
    ensures ChallengePhase(w, policy, processed, dry, ids, p).decisions == p.decisions + made
    ensures AnswersChallenges(w, policy, processed, made, p.live)
  {
    var found := FirstChallenge(w.challenges, w.versions, processed);
    hide FirstChallenge, SpawnBranch;
    var q := ChallengePhase(w, policy, processed, dry, ids, p);
    made := q.decisions[|p.decisions|..];
    if i :| 0 <= i < |w.challenges| && IsChallengeAt(w, processed, i) {
      assert IsActionable(w.challenges[i], w.versions) && w.challenges[i].id !in processed;
    }
    if found.Some? {
      var i :| 0 <= i < |w.challenges| && w.challenges[i] == found.value
        && forall k :: 0 <= k < i ==> !IsActionable(w.challenges[k], w.versions) || w.challenges[k].id in processed;
      assert IsChallengeAt(w, processed, i) && IsFirstChallenge(w, processed, i);
    }
  }

  /** A tick decides about every branch in listing order, then about the digests,
      then about the challenges: exactly what the records call for, as far as live
      and child capacity go, which a dry run does not use up. */
  lemma TickAnswers(
    w: World, policy: Policy, processed: set<string>, dry: bool, listing: seq<string>, ids: seq<string>)
    returns (visits: seq<Decision>, generated: seq<Decision>, revalidated: seq<Decision>)
    requires IsListing(w, listing) && AreNew(w, ids, |listing|) && IdsMatch(w)
    ensures Tick(w, policy, processed, dry, listing, ids).decisions == visits + generated + revalidated
    ensures forall b :: b in listing ==> b in w.branches
    ensures var live := |set b | b in w.branches && w.branches[b].status !in {Archived, Rejected}|;
            && AnswersAll(w, policy, processed, dry, visits, listing, live)
            && AnswersDigests(w, policy, processed, generated, live + Spent(dry, ForksOf(visits, listing)))
            && AnswersChallenges(w, policy, processed, revalidated,
                 live + Spent(dry, ForksOf(visits, listing) + |generated|))
  {
    hide VisitBranches, ObstaclePhase, ChallengePhase, AnswersAll, AnswersDigests, AnswersChallenges, ForksOf;
    ListingCovers(w, listing);
    assert LiveBranches(w.branches) == set b | b in w.branches && w.branches[b].status !in {Archived, Rejected};
    forall b
      ensures Count(ChildCounts(w.branches), b) == |ChildrenOf(w.branches, b)|
    {
      if b !in ChildCounts(w.branches) {
        assert ChildrenOf(w.branches, b) == {};
      }
    }
    visits := VisitsAnswer(w, policy, processed, dry, ids, listing, Start(w));
    var p1 := VisitBranches(w, policy, processed, dry, ids, listing, Start(w));
    generated := DigestAnswers(w, policy, processed, dry, ids, p1);
    var p2 := ObstaclePhase(w, policy, processed, dry, ids, p1);
    revalidated := ChallengeAnswers(w, policy, processed, dry, ids, p2);
  }

  lemma TickNeverSkips(
    w: World, policy: Policy, processed: set<string>, dry: bool, listing: seq<string>, ids: seq<string>)
    requires IsListing(w, listing) && AreNew(w, ids, |listing|) && IdsMatch(w)
    ensures forall d :: d in Tick(w, policy, processed, dry, listing, ids).decisions ==> d.action != Skip
  {
    hide Tick, AnswersAll, AnswersDigests, AnswersChallenges;
    var visits, generated, revalidated := TickAnswers(w, policy, processed, dry, listing, ids);
    var live := |set b | b in w.branches && w.branches[b].status !in {Archived, Rejected}|;
    var forks := ForksOf(visits, listing);
    AnswersNeverSkip(w, policy, processed, dry, listing, live, visits, generated, revalidated,
      live + Spent(dry, forks), live + Spent(dry, forks + |generated|));
  }

  lemma AnswersNeverSkip(
    w: World, policy: Policy, processed: set<string>, dry: bool, listing: seq<string>, live: nat,
    visits: seq<Decision>, generated: seq<Decision>, revalidated: seq<Decision>, live1: nat, live2: nat)
    requires (forall b :: b in listing ==> b in w.branches)
    requires AnswersAll(w, policy, processed, dry, visits, listing, live)
    requires AnswersDigests(w, policy, processed, generated, live1)
    requires AnswersChallenges(w, policy, processed, revalidated, live2)
    ensures forall d :: d in visits + generated + revalidated ==> d.action != Skip
  {
    hide AnswersAt, HasPendingDigest, HasPendingChallenge, IsFirstDigest, IsFirstChallenge;
  }

  /** What is recorded of a tick are its decisions, or a single skip if it made none. */
  lemma RunIsRecorded(
    w: World, policy: Policy, processed: set<string>, dry: bool, listing: seq<string>, ids: seq<string>)
    requires IsListing(w, listing) && AreNew(w, ids, |listing|) && IdsMatch(w)
    ensures var made := Tick(w, policy, processed, dry, listing, ids).decisions;
            var recorded := Recorded(made);
            && recorded != []
            && ((exists d :: d in recorded && d.action == Skip) <==> made == [])
            && (made == [] ==> recorded == [Decision(Skip, None, None, None)])
            && (made != [] ==> recorded == made)
  {
    TickNeverSkips(w, policy, processed, dry, listing, ids);
    hide Tick;
    assert Recorded([])[0].action == Skip;
  }

  // ----- the branches after a real tick

  predicate IsKilled(decisions: seq<Decision>, b: string) {
    exists d :: d in decisions && d.action == Kill && d.source == Some(b)
  }

  predicate IsSpawn(d: Decision) {
    d.action == Generate || d.action == Fork
  }

  /** The branch that a decision spawned: empty, active, and a child of the branch
      it forks, if it forks one. */
  predicate IsSpawned(branches: map<string, Branch>, branches': map<string, Branch>, d: Decision) {
    && d.target.Some? && d.target.value !in branches && d.target.value in branches'
    && branches'[d.target.value]
       == Branch(d.target.value, "", if d.action == Fork then d.source else None, [], [], [], None, Active, [], [])
  }

  predicate IsTargetOf(decisions: seq<Decision>, x: string) {
    exists d :: d in decisions && IsSpawn(d) && d.target == Some(x)
  }

  predicate IsKeptOrKilled(branches: map<string, Branch>, branches': map<string, Branch>, ds: seq<Decision>, b: string)
    requires b in branches
  {
    b in branches' && branches'[b] == if IsKilled(ds, b) then branches[b].(status := Archived) else branches[b]
  }

  /** Killed branches are archived, the other old ones stay, and every new one is
      the target of exactly one decision. */
  predicate Carries(branches: map<string, Branch>, branches': map<string, Branch>, ds: seq<Decision>) {
    && (forall b {:trigger IsKeptOrKilled(branches, branches', ds, b)} ::
          b in branches ==> IsKeptOrKilled(branches, branches', ds, b))
    && (forall d :: d in ds && IsSpawn(d) ==> IsSpawned(branches, branches', d))
    && (forall x :: x in branches' && x !in branches ==> IsTargetOf(ds, x))
    && (forall i, j :: 0 <= i < j < |ds| && IsSpawn(ds[i]) && IsSpawn(ds[j]) ==> ds[i].target != ds[j].target)
  }

  /** A decision as the tick makes it: it kills an old branch, or forks or generates
      under the branch it names. */
  predicate IsSound(branches: map<string, Branch>, d: Decision, parent: Option<string>) {
    match d.action
    case Kill => d.source.Some? && d.source.value in branches
    case Fork => parent == d.source
    case Generate => parent == None
    case Skip => false
  }

  lemma KillCarries(branches: map<string, Branch>, mid: map<string, Branch>, ds: seq<Decision>, d: Decision)
    requires Carries(branches, mid, ds) && d.action == Kill && d.source.Some? && d.source.value in branches
    ensures d.source.value in mid
    ensures Carries(branches, mid[d.source.value := mid[d.source.value].(status := Archived)], ds + [d])
  {
    var b := d.source.value;
    assert IsKeptOrKilled(branches, mid, ds, b);
    var after := mid[b := mid[b].(status := Archived)];
    var more := ds + [d];
    assert forall x :: x in more <==> x in ds || x == d;
    forall x | x in branches
      ensures IsKeptOrKilled(branches, after, more, x)
    {
      assert IsKeptOrKilled(branches, mid, ds, x);
      assert IsKilled(more, x) <==> IsKilled(ds, x) || x == b;
    }
    forall x | x in more && IsSpawn(x)
      ensures IsSpawned(branches, after, x)
    {
      assert x in ds && IsSpawned(branches, mid, x);
    }
    forall x | x in after && x !in branches
      ensures IsTargetOf(more, x)
    {
      assert IsTargetOf(ds, x);
    }
  }

  lemma SpawnCarries(
    branches: map<string, Branch>, mid: map<string, Branch>, ds: seq<Decision>, d: Decision, id: string)
    requires Carries(branches, mid, ds) && IsSpawn(d) && d.target == Some(id) && id !in mid && id !in branches
    ensures var parent := if d.action == Fork then d.source else None;
            Carries(branches, mid[id := Branch(id, "", parent, [], [], [], None, Active, [], [])], ds + [d])
  {
    var parent := if d.action == Fork then d.source else None;
    var after := mid[id := Branch(id, "", parent, [], [], [], None, Active, [], [])];
    var more := ds + [d];
    assert forall x :: x in more <==> x in ds || x == d;
    forall x | x in branches
      ensures IsKeptOrKilled(branches, after, more, x)
    {
      assert IsKeptOrKilled(branches, mid, ds, x);
      assert IsKilled(more, x) <==> IsKilled(ds, x);
    }
    forall x | x in more && IsSpawn(x)
      ensures IsSpawned(branches, after, x)
    {
      assert x in ds ==> IsSpawned(branches, mid, x);
    }
    forall x | x in after && x !in branches
      ensures IsTargetOf(more, x)
    {
      assert x in mid ==> IsTargetOf(ds, x);
    }
    forall i, j | 0 <= i < j < |more| && IsSpawn(more[i]) && IsSpawn(more[j])
      ensures more[i].target != more[j].target
    {
      assert more[i] in ds && IsSpawned(branches, mid, more[i]);
    }
  }

  lemma ActCarries(
    branches: map<string, Branch>, p: Progress, d: Decision, parent: Option<string>, ids: seq<string>)
    requires p.drawn < |ids| && IdsLeft(p, ids) && branches.Keys <= p.branches.Keys
    requires Carries(branches, p.branches, p.decisions) && IsSound(branches, d, parent)
    ensures var q := Act(p, d, parent, false, ids);
            && Carries(branches, q.branches, q.decisions) && branches.Keys <= q.branches.Keys
            && IdsLeft(q, ids)
  {
    hide Carries;
    var q := Act(p, d, parent, false, ids);
    KeysAfterAct(p, d, parent, ids);
    if d.action == Kill {
      KillCarries(branches, p.branches, p.decisions, d);
    } else {
      assert ids[p.drawn] !in p.branches;
      SpawnCarries(branches, p.branches, p.decisions, d.(target := Some(ids[p.drawn])), ids[p.drawn]);
    }
  }

  ghost predicate CarriesSoFar(branches: map<string, Branch>, p: Progress, ids: seq<string>) {
    Carries(branches, p.branches, p.decisions) && branches.Keys <= p.branches.Keys && IdsLeft(p, ids)
  }

  lemma VisitCarries(
    w: World, policy: Policy, processed: set<string>, ids: seq<string>, b: string, p: Progress)
    requires b in w.branches && p.drawn < |ids| && IdsMatch(w) && CarriesSoFar(w.branches, p, ids)
    ensures CarriesSoFar(w.branches, VisitBranch(w, policy, processed, false, ids, b, p), ids)
  {
    var d := Decide(w.branches[b], SessionOf(w, b), policy, processed, CanSpawn(p, policy, Some(b)));
    DecideIsAboutTheBranch(w, policy, processed, b, CanSpawn(p, policy, Some(b)));
    hide Decide, Act, Carries, IdsLeft, IsKillDue, IsForkDue;
    if d.Some? {
      ActCarries(w.branches, p, d.value, Some(b), ids);
    }
  }

  lemma {:induction false} VisitsCarry(
    w: World, policy: Policy, processed: set<string>, ids: seq<string>, listing: seq<string>, p: Progress)
    requires (forall b :: b in listing ==> b in w.branches) && p.drawn + |listing| <= |ids| && IdsMatch(w)
    requires CarriesSoFar(w.branches, p, ids)
    ensures CarriesSoFar(w.branches, VisitBranches(w, policy, processed, false, ids, listing, p), ids)
    decreases |listing|
  {
    hide VisitBranch, CarriesSoFar;
    if listing != [] {
      assert listing[0] in listing;
      VisitCarries(w, policy, processed, ids, listing[0], p);
      VisitDraws(w, policy, processed, false, ids, listing[0], p);
      VisitsCarry(w, policy, processed, ids, listing[1..],
        VisitBranch(w, policy, processed, false, ids, listing[0], p));
    }
  }

  lemma PhasesCarry(
    w: World, policy: Policy, processed: set<string>, ids: seq<string>, p: Progress)
    requires p.drawn < |ids| && CarriesSoFar(w.branches, p, ids)
    ensures CarriesSoFar(w.branches, ObstaclePhase(w, policy, processed, false, ids, p), ids)
    ensures CarriesSoFar(w.branches, ChallengePhase(w, policy, processed, false, ids, p), ids)
  {
    hide Act, Carries, IdsLeft, FirstDigest, FirstChallenge;
    var digest := FirstDigest(w.digests, processed);
    if policy.onObstacle && digest.Some? && CanSpawn(p, policy, None) {
      ActCarries(w.branches, p,
        Decision(Generate, Some(digest.value.source), None, Some(DigestMarker(digest.value))), None, ids);
    }
    var c := FirstChallenge(w.challenges, w.versions, processed);
    if policy.onChallenge && c.Some? && CanSpawn(p, policy, None) {
      var parent := w.versions[c.value.knowledge];
      ActCarries(w.branches, p, Decision(Fork, Some(parent), None, Some(c.value.id)), Some(parent), ids);
    }
  }

  /** After a real tick the branches are those before it, the killed ones archived,
      and one new branch for each generation and fork. */
  lemma TickCarries(w: World, policy: Policy, processed: set<string>, listing: seq<string>, ids: seq<string>)
    requires IsListing(w, listing) && AreNew(w, ids, |listing|) && IdsMatch(w)
    ensures var p := Tick(w, policy, processed, false, listing, ids);
            Carries(w.branches, After(w, p).branches, p.decisions)
  {
    ListingCovers(w, listing);
    assert forall k :: 0 <= k < |ids| ==> ids[k] in ids;
    assert CarriesSoFar(w.branches, Start(w), ids) by {
      forall b | b in w.branches
        ensures IsKeptOrKilled(w.branches, w.branches, [], b)
      {
      }
    }
    hide VisitBranches, ObstaclePhase, ChallengePhase, Carries, IdsLeft;
    VisitsCarry(w, policy, processed, ids, listing, Start(w));
    var p1 := VisitBranches(w, policy, processed, false, ids, listing, Start(w));
    PhasesCarry(w, policy, processed, ids, p1);
    PhasesCarry(w, policy, processed, ids, ObstaclePhase(w, policy, processed, false, ids, p1));
  }
}
