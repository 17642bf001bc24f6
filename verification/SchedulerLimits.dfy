/** Exactly when a real tick pushes a branch over its limit of children: the fork
    that revalidates challenged knowledge does not look at its parent. */
module SchedulerLimits {
  import opened Wrappers
  import opened LexOrder
  import opened SchedulerTick
  import opened SchedulerRuns
  import opened SchedulerDryRun
  import Research

  /** The most children a branch should have after a tick. */
  function ChildLimit(w: World, policy: Policy, b: string): nat {
    Max(|ChildrenOf(w.branches, b)|, policy.maxChildren)
  }

  /** A real tick up to its last phase. */
  function BeforeRevalidation(
    w: World, policy: Policy, processed: set<string>, listing: seq<string>, ids: seq<string>): (p: Progress)
    requires IsListing(w, listing) && AreNew(w, ids, |listing|)
    ensures p.drawn < |ids|
  {
    ListingCovers(w, listing);
    var p := VisitBranches(w, policy, processed, false, ids, listing, Start(w));
    ObstaclePhase(w, policy, processed, false, ids, p)
  }

  /** The revalidation fork goes to b, there is live capacity, and b is full. */
  predicate Overfills(w: World, policy: Policy, processed: set<string>, p: Progress, b: string) {
    && Revalidated(w, policy, processed) == Some(b)
    && p.live < policy.maxLive
    && |ChildrenOf(p.branches, b)| >= ChildLimit(w, policy, b)
  }

  lemma PhaseOverfillsIff(
    w: World, policy: Policy, processed: set<string>, ids: seq<string>, p: Progress, b: string)
    requires p.drawn < |ids| && Counted(p) && IdsLeft(p, ids) && WithinLimits(p, policy, w, None)
    ensures |ChildrenOf(ChallengePhase(w, policy, processed, false, ids, p).branches, b)| > ChildLimit(w, policy, b)
       <==> Overfills(w, policy, processed, p, b)
  {
    hide IdsLeft, Act, ChildrenOf;
    var c := FirstChallenge(w.challenges, w.versions, processed);
    assert Count(p.children, b) == |ChildrenOf(p.branches, b)|;
    if policy.onChallenge && c.Some? && CanSpawn(p, policy, None) {
      var parent := w.versions[c.value.knowledge];
      var d := Decision(Fork, Some(parent), None, Some(c.value.id));
      ActKeepsCounted(p, d, Some(parent), ids);
      assert Count(Act(p, d, Some(parent), false, ids).children, b)
          == |ChildrenOf(Act(p, d, Some(parent), false, ids).branches, b)|;
    }
  }

  lemma LimitsBeforeRevalidation(
    w: World, policy: Policy, processed: set<string>, listing: seq<string>, ids: seq<string>)
    requires IsListing(w, listing) && AreNew(w, ids, |listing|)
    ensures var p := BeforeRevalidation(w, policy, processed, listing, ids);
            Counted(p) && IdsLeft(p, ids) && WithinLimits(p, policy, w, None)
  {
    hide Counted, IdsLeft, VisitBranches, ObstaclePhase;
    ListingCovers(w, listing);
    StartCounted(w, ids);
    StartWithinLimits(w, policy);
    hide WithinLimits;
    VisitsKeepLimits(w, policy, processed, ids, listing, Start(w));
    ObstacleKeepsLimits(w, policy, processed, ids, VisitBranches(w, policy, processed, false, ids, listing, Start(w)));
  }

  lemma StartWithinLimits(w: World, policy: Policy)
    ensures WithinLimits(Start(w), policy, w, None)
  {
    forall b
      ensures Count(ChildCounts(w.branches), b) == |ChildrenOf(w.branches, b)|
    {
      if b !in ChildCounts(w.branches) {
        assert ChildrenOf(w.branches, b) == {};
      }
    }
  }

  /** A branch ends a real tick over its limit exactly when the revalidation fork
      finds it full and finds live capacity. */
  lemma RealTickOverfillsIff(
    w: World, policy: Policy, processed: set<string>, listing: seq<string>, ids: seq<string>, b: string)
    requires IsListing(w, listing) && AreNew(w, ids, |listing|)
    ensures |ChildrenOf(Tick(w, policy, processed, false, listing, ids).branches, b)| > ChildLimit(w, policy, b)
       <==> Overfills(w, policy, processed, BeforeRevalidation(w, policy, processed, listing, ids), b)
  {
    LimitsBeforeRevalidation(w, policy, processed, listing, ids);
    hide Counted, IdsLeft, WithinLimits, Overfills, ChallengePhase, ObstaclePhase, VisitBranches, ChildrenOf;
    PhaseOverfillsIff(w, policy, processed, ids, BeforeRevalidation(w, policy, processed, listing, ids), b);
  }

  // ----- in terms of the state before the tick

  /** A branch that a tick forks whenever it finds live capacity. */
  predicate WouldFork(w: World, policy: Policy, processed: set<string>, b: string)
    requires b in w.branches
  {
    var room := |ChildrenOf(w.branches, b)| < policy.maxChildren;
    var d := Decide(w.branches[b], SessionOf(w, b), policy, processed, room);
    d.Some? && d.value.action == Fork
  }

  function Forks(w: World, policy: Policy, processed: set<string>): set<string> {
    set b | b in w.branches && WouldFork(w, policy, processed, b)
  }

  predicate HasPendingObstacle(w: World, policy: Policy, processed: set<string>) {
    policy.onObstacle && FirstDigest(w.digests, processed).Some?
  }

  /** How many branches a tick with enough live capacity adds before it revalidates. */
  function Spawning(w: World, policy: Policy, processed: set<string>): nat {
    |Forks(w, policy, processed)| + One(HasPendingObstacle(w, policy, processed))
  }

  lemma ObstacleSpawns(w: World, policy: Policy, processed: set<string>, ids: seq<string>, p: Progress)
    requires p.drawn < |ids|
    ensures var q := ObstaclePhase(w, policy, processed, false, ids, p);
            && q.live == p.live + One(HasPendingObstacle(w, policy, processed) && p.live < policy.maxLive)
            && q.children == p.children
  {
    hide SpawnBranch, FirstDigest;
  }

  function One(b: bool): nat { if b then 1 else 0 }

  function ForksIn(w: World, policy: Policy, processed: set<string>, listing: seq<string>): set<string>
    requires forall b :: b in listing ==> b in w.branches
  {
    set b | b in listing && WouldFork(w, policy, processed, b)
  }

  /** How many of the listed branches would fork. */
  function ForkCount(w: World, policy: Policy, processed: set<string>, listing: seq<string>): nat
    requires forall b :: b in listing ==> b in w.branches
  {
    if listing == [] then 0
    else
      assert listing[0] in listing;
      One(WouldFork(w, policy, processed, listing[0])) + ForkCount(w, policy, processed, listing[1..])
  }

  lemma {:induction false} ForkCountIsSize(w: World, policy: Policy, processed: set<string>, listing: seq<string>)
    requires NoDup(listing) && forall b :: b in listing ==> b in w.branches
    ensures ForkCount(w, policy, processed, listing) == |ForksIn(w, policy, processed, listing)|
  {
    hide WouldFork;
    if listing != [] {
      ForkCountIsSize(w, policy, processed, listing[1..]);
      FirstFork(w, policy, processed, listing);
    } else {
      assert ForksIn(w, policy, processed, listing) == {};
    }
  }

  lemma FirstFork(w: World, policy: Policy, processed: set<string>, listing: seq<string>)
    requires listing != [] && NoDup(listing) && forall b :: b in listing ==> b in w.branches
    ensures ForksIn(w, policy, processed, listing)
         == ForksIn(w, policy, processed, listing[1..])
            + if WouldFork(w, policy, processed, listing[0]) then {listing[0]} else {}
    ensures listing[0] !in listing[1..]
  {
    hide WouldFork;
    assert listing == [listing[0]] + listing[1..];
  }

  /** The children of b are those it had before the tick. */
  predicate Untouched(w: World, p: Progress, b: string) {
    Count(p.children, b) == |ChildrenOf(w.branches, b)|
  }

  lemma VisitForks(w: World, policy: Policy, processed: set<string>, ids: seq<string>, b: string, p: Progress)
    requires b in w.branches && p.drawn < |ids| && Untouched(w, p, b)
    ensures var q := VisitBranch(w, policy, processed, false, ids, b, p);
            && p.live <= q.live
            && (forall x :: x != b ==> Count(q.children, x) == Count(p.children, x))
            && (p.live < policy.maxLive ==>
                  && q.live == p.live + One(WouldFork(w, policy, processed, b))
                  && Count(q.children, b) == Count(p.children, b) + One(WouldFork(w, policy, processed, b)))
  {
    hide ArchiveIn, SpawnBranch, ChildrenOf;
  }

  /** Live capacity is left after all visits exactly when it suffices for every
      fork, and then every fork has been made. */
  lemma {:induction false} VisitsFork(
    w: World, policy: Policy, processed: set<string>, ids: seq<string>, listing: seq<string>, p: Progress)
    requires NoDup(listing) && (forall b :: b in listing ==> b in w.branches && Untouched(w, p, b))
    requires p.drawn + |listing| <= |ids|
    ensures var q := VisitBranches(w, policy, processed, false, ids, listing, p);
            && (q.live < policy.maxLive <==> p.live + ForkCount(w, policy, processed, listing) < policy.maxLive)
            && (q.live < policy.maxLive ==>
                  && q.live == p.live + ForkCount(w, policy, processed, listing)
                  && forall x :: Count(q.children, x)
                              == Count(p.children, x) + One(x in listing && WouldFork(w, policy, processed, x)))
    decreases |listing|
  {
    hide VisitBranch, WouldFork, Count, ChildrenOf;
    if listing != [] {
      var b, rest := listing[0], listing[1..];
      assert b in listing && b !in rest && forall x :: x in rest ==> x in listing;
      VisitForks(w, policy, processed, ids, b, p);
      VisitDraws(w, policy, processed, false, ids, b, p);
      var q := VisitBranch(w, policy, processed, false, ids, b, p);
      assert forall x :: x in rest ==> Untouched(w, q, x);
      VisitsFork(w, policy, processed, ids, rest, q);
      assert forall x :: x in listing <==> x == b || x in rest;
    }
  }

  /** What the tick knows when the revalidation fork is due. */
  lemma CapacityBeforeRevalidation(
    w: World, policy: Policy, processed: set<string>, listing: seq<string>, ids: seq<string>, b: string)
    requires IsListing(w, listing) && AreNew(w, ids, |listing|)
    ensures var p := BeforeRevalidation(w, policy, processed, listing, ids);
            && (p.live < policy.maxLive <==>
                  |LiveBranches(w.branches)| + Spawning(w, policy, processed) < policy.maxLive)
            && (p.live < policy.maxLive ==>
                  Count(p.children, b) == |ChildrenOf(w.branches, b)| + One(b in Forks(w, policy, processed)))
  {
    hide WouldFork, VisitBranches, ObstaclePhase, HasPendingObstacle;
    ListingCovers(w, listing);
    forall x
      ensures Untouched(w, Start(w), x)
    {
      if x !in ChildCounts(w.branches) {
        assert ChildrenOf(w.branches, x) == {};
      }
    }
    VisitsFork(w, policy, processed, ids, listing, Start(w));
    ObstacleSpawns(w, policy, processed, ids, VisitBranches(w, policy, processed, false, ids, listing, Start(w)));
    ForkCountIsSize(w, policy, processed, listing);
    assert Forks(w, policy, processed) == ForksIn(w, policy, processed, listing);
  }

  /** A branch ends a real tick over its limit exactly when it is the one to be
      revalidated, live capacity suffices for every fork and generation before
      that, and it is full by then. The order of the listing does not matter. */
  lemma TickOverfillsIff(
    w: World, policy: Policy, processed: set<string>, listing: seq<string>, ids: seq<string>, b: string)
    requires IsListing(w, listing) && AreNew(w, ids, |listing|)
    ensures |ChildrenOf(Tick(w, policy, processed, false, listing, ids).branches, b)| > ChildLimit(w, policy, b)
       <==> && Revalidated(w, policy, processed) == Some(b)
            && |LiveBranches(w.branches)| + Spawning(w, policy, processed) < policy.maxLive
            && |ChildrenOf(w.branches, b)| + One(b in Forks(w, policy, processed)) >= ChildLimit(w, policy, b)
  {
    RealTickOverfillsIff(w, policy, processed, listing, ids, b);
    LimitsBeforeRevalidation(w, policy, processed, listing, ids);
    CapacityBeforeRevalidation(w, policy, processed, listing, ids, b);
    var p := BeforeRevalidation(w, policy, processed, listing, ids);
    hide BeforeRevalidation, Tick, Forks, Spawning, Revalidated, WithinLimits, IdsLeft, ChildrenOf;
    assert Count(p.children, b) == |ChildrenOf(p.branches, b)|;
  }

  /** No branch and no digest calls for a decision, even with unlimited room. */
  predicate IsQuiet(w: World, policy: Policy, processed: set<string>) {
    && (forall b :: b in w.branches ==> Decide(w.branches[b], SessionOf(w, b), policy, processed, true).None?)
    && !HasPendingObstacle(w, policy, processed)
  }

  lemma QuietTickOverfillsIff(
    w: World, policy: Policy, processed: set<string>, listing: seq<string>, ids: seq<string>, b: string)
    requires IsListing(w, listing) && AreNew(w, ids, |listing|) && IsQuiet(w, policy, processed)
    ensures |ChildrenOf(Tick(w, policy, processed, false, listing, ids).branches, b)| > ChildLimit(w, policy, b)
       <==> && Revalidated(w, policy, processed) == Some(b)
            && |LiveBranches(w.branches)| < policy.maxLive
            && |ChildrenOf(w.branches, b)| >= policy.maxChildren
  {
    hide Tick, Decide, Revalidated;
    forall x | x in w.branches
      ensures !WouldFork(w, policy, processed, x)
    {
      RoomOnlyAdds(w.branches[x], SessionOf(w, x), policy, processed, |ChildrenOf(w.branches, x)| < policy.maxChildren);
    }
    assert Forks(w, policy, processed) == {};
    TickOverfillsIff(w, policy, processed, listing, ids, b);
  }

  // ----- one such tick

  /** A branch with one child, which is its limit, and an open challenge to its knowledge. */
  function FullBranch(): World {
    World(map["b" := Research.NewBranch("b", "", None), "c" := Research.NewBranch("c", "", Some("b"))],
          map[], [], [OpenOrClosed("x", "k", true)], map["k" := "b"])
  }

  const STRICT := Policy(3, 1, true, true, true, true, true, true)

  lemma FullBranchIsOverfilled(listing: seq<string>, ids: seq<string>)
    requires IsListing(FullBranch(), listing) && AreNew(FullBranch(), ids, |listing|)
    ensures |ChildrenOf(FullBranch().branches, "b")| == 1 == STRICT.maxChildren
    ensures |ChildrenOf(Tick(FullBranch(), STRICT, {}, false, listing, ids).branches, "b")| > STRICT.maxChildren
  {
    var w := FullBranch();
    hide Tick;
    assert ChildrenOf(w.branches, "b") == {"c"};
    assert LiveBranches(w.branches) == {"b", "c"};
    assert IsQuiet(w, STRICT, {});
    assert FirstChallenge(w.challenges, w.versions, {}) == Some(OpenOrClosed("x", "k", true));
    QuietTickOverfillsIff(w, STRICT, {}, listing, ids, "b");
  }
}
