/** Dry runs predict real runs. */
module SchedulerDryRun {
  import opened Wrappers
  import opened LexOrder
  import opened Schema
  import opened SchedulerTick

  function Strip(d: Decision): Decision {
    d.(target := None)
  }

  function StripAll(s: seq<Decision>): (r: seq<Decision>)
    ensures |r| == |s|
  {
    if s == [] then [] else StripAll(s[..|s| - 1]) + [Strip(s[|s| - 1])]
  }

  predicate IsSubsequence(a: seq<Decision>, b: seq<Decision>)
    decreases |b|
  {
    if a == [] then true
    else if b == [] then false
    else
      || (a[|a| - 1] == b[|b| - 1] && IsSubsequence(a[..|a| - 1], b[..|b| - 1]))
      || IsSubsequence(a, b[..|b| - 1])
  }

  lemma ExtendSubsequence(a: seq<Decision>, b: seq<Decision>, x: Decision)
    requires IsSubsequence(a, b)
    ensures IsSubsequence(a, b + [x]) && IsSubsequence(a + [x], b + [x])
  {
    assert (b + [x])[..|b|] == b && (a + [x])[..|a|] == a;
  }

  lemma StripAppend(s: seq<Decision>, d: Decision)
    ensures StripAll(s + [d]) == StripAll(s) + [Strip(d)]
  {
    assert (s + [d])[..|s|] == s;
  }

  // ----- a dry run changes nothing

  predicate OnlyDecides(p: Progress, q: Progress) {
    q == p.(decisions := q.decisions) && p.decisions <= q.decisions
  }

  lemma {:induction false} DryVisitOnlyDecides(
    w: World, policy: Policy, processed: set<string>, ids: seq<string>, listing: seq<string>, p: Progress)
    requires forall b :: b in listing ==> b in w.branches
    requires p.drawn + |listing| <= |ids|
    ensures OnlyDecides(p, VisitBranches(w, policy, processed, true, ids, listing, p))
    decreases |listing|
  {
    if listing != [] {
      assert listing[0] in listing;
      DryVisitOnlyDecides(w, policy, processed, ids, listing[1..],
        VisitBranch(w, policy, processed, true, ids, listing[0], p));
    }
  }

  lemma DryTickChangesNothing(w: World, policy: Policy, processed: set<string>, listing: seq<string>, ids: seq<string>)
    requires IsListing(w, listing) && AreNew(w, ids, |listing|)
    ensures After(w, Tick(w, policy, processed, true, listing, ids)) == w
  {
    ListingCovers(w, listing);
    DryVisitOnlyDecides(w, policy, processed, ids, listing, Start(w));
  }

  // ----- real decisions are among the dry ones

  /** Real progress r and dry progress d when the branches in `rest` are still to be visited. */
  predicate Shadows(r: Progress, d: Progress, rest: seq<string>) {
    && d.live <= r.live
    && (forall b :: b in rest ==> Count(r.children, b) == Count(d.children, b))
    && IsSubsequence(StripAll(r.decisions), d.decisions)
  }

  /** A decision that needs no room, or finds it, is the decision made with room. */
  lemma RoomOnlyAdds(b: Branch, session: Option<Session>, policy: Policy, processed: set<string>, canSpawn: bool)
    ensures Decide(b, session, policy, processed, canSpawn).Some? ==>
              Decide(b, session, policy, processed, true) == Decide(b, session, policy, processed, canSpawn)
    ensures Decide(b, session, policy, processed, canSpawn).Some? ==>
              Strip(Decide(b, session, policy, processed, canSpawn).value)
                == Decide(b, session, policy, processed, canSpawn).value
  {
  }

  /** Either both act alike, or only the dry run acts. */
  lemma ActAlike(r: Progress, d: Progress, x: Decision, parent: Option<string>, ids: seq<string>, ids': seq<string>)
    requires r.drawn < |ids| && d.drawn < |ids'| && Strip(x) == x
    requires IsSubsequence(StripAll(r.decisions), d.decisions) && d.live <= r.live
    ensures var r', d' := Act(r, x, parent, false, ids), Act(d, x, parent, true, ids');
            IsSubsequence(StripAll(r'.decisions), d'.decisions) && d'.live <= r'.live
    ensures IsSubsequence(StripAll(r.decisions), Act(d, x, parent, true, ids').decisions)
    ensures forall b :: parent != Some(b) ==> Count(Act(r, x, parent, false, ids).children, b) == Count(r.children, b)
  {
    ExtendSubsequence(StripAll(r.decisions), d.decisions, x);
    var last := Act(r, x, parent, false, ids).decisions[|r.decisions|];
    StripAppend(r.decisions, last);
    assert Strip(last) == x;
  }

  lemma VisitShadows(
    w: World, policy: Policy, processed: set<string>, ids: seq<string>, ids': seq<string>,
    rest: seq<string>, r: Progress, d: Progress)
    requires rest != [] && NoDup(rest) && rest[0] in w.branches && Shadows(r, d, rest)
    requires r.drawn < |ids| && d.drawn < |ids'|
    ensures Shadows(VisitBranch(w, policy, processed, false, ids, rest[0], r),
                    VisitBranch(w, policy, processed, true, ids', rest[0], d), rest[1..])
  {
    hide Decide, IsSubsequence, Act, Count;
    var b := rest[0];
    assert b in rest;
    assert forall x :: x in rest[1..] ==> x in rest && x != b;
    var roomR, roomD := CanSpawn(r, policy, Some(b)), CanSpawn(d, policy, Some(b));
    assert roomR ==> roomD;
    RoomOnlyAdds(w.branches[b], SessionOf(w, b), policy, processed, roomR);
    RoomOnlyAdds(w.branches[b], SessionOf(w, b), policy, processed, roomD);
    var x := Decide(w.branches[b], SessionOf(w, b), policy, processed, roomR);
    var y := Decide(w.branches[b], SessionOf(w, b), policy, processed, roomD);
    if y.Some? {
      ActAlike(r, d, y.value, Some(b), ids, ids');
      DryActKeeps(d, y.value, Some(b), ids');
    }
    if x.Some? {
      RoomBothWays(w.branches[b], SessionOf(w, b), policy, processed, roomR, roomD);
      assert x == y;
    }
  }

  lemma RoomBothWays(
    b: Branch, session: Option<Session>, policy: Policy, processed: set<string>, roomR: bool, roomD: bool)
    requires roomR ==> roomD
    requires Decide(b, session, policy, processed, roomR).Some?
    ensures Decide(b, session, policy, processed, roomD) == Decide(b, session, policy, processed, roomR)
  {
  }

  lemma DryActKeeps(d: Progress, x: Decision, parent: Option<string>, ids: seq<string>)
    requires d.drawn < |ids|
    ensures OnlyDecides(d, Act(d, x, parent, true, ids))
  {
  }

  lemma {:induction false} VisitsShadow(
    w: World, policy: Policy, processed: set<string>, ids: seq<string>, ids': seq<string>,
    rest: seq<string>, r: Progress, d: Progress)
    requires NoDup(rest) && Shadows(r, d, rest) && forall b :: b in rest ==> b in w.branches
    requires r.drawn + |rest| <= |ids| && d.drawn + |rest| <= |ids'|
    ensures Shadows(VisitBranches(w, policy, processed, false, ids, rest, r),
                    VisitBranches(w, policy, processed, true, ids', rest, d), [])
    decreases |rest|
  {
    hide Shadows, VisitBranch, NoDup;
    if rest != [] {
      assert rest[0] in rest;
      VisitShadows(w, policy, processed, ids, ids', rest, r, d);
      TailNoDup(rest);
      VisitDraws(w, policy, processed, false, ids, rest[0], r);
      VisitDraws(w, policy, processed, true, ids', rest[0], d);
      VisitsShadow(w, policy, processed, ids, ids', rest[1..],
        VisitBranch(w, policy, processed, false, ids, rest[0], r),
          VisitBranch(w, policy, processed, true, ids', rest[0], d));
    } else {
      assert rest == [];
    }
  }

  lemma TailNoDup(s: seq<string>)
    requires NoDup(s) && s != []
    ensures NoDup(s[1..])
  {
  }

  lemma ObstacleShadows(
    w: World, policy: Policy, processed: set<string>, ids: seq<string>, ids': seq<string>, r: Progress, d: Progress)
    requires Shadows(r, d, []) && r.drawn < |ids| && d.drawn < |ids'|
    ensures Shadows(ObstaclePhase(w, policy, processed, false, ids, r),
              ObstaclePhase(w, policy, processed, true, ids', d), [])
  {
    var x := FirstDigest(w.digests, processed);
    if policy.onObstacle && x.Some? {
      ActAlike(r, d, Decision(Generate, Some(x.value.source), None, Some(DigestMarker(x.value))), None, ids, ids');
    }
  }

  lemma ChallengeShadows(
    w: World, policy: Policy, processed: set<string>, ids: seq<string>, ids': seq<string>, r: Progress, d: Progress)
    requires Shadows(r, d, []) && r.drawn < |ids| && d.drawn < |ids'|
    ensures Shadows(ChallengePhase(w, policy, processed, false, ids, r),
              ChallengePhase(w, policy, processed, true, ids', d), [])
  {
    var c := FirstChallenge(w.challenges, w.versions, processed);
    if policy.onChallenge && c.Some? {
      var parent := w.versions[c.value.knowledge];
      ActAlike(r, d, Decision(Fork, Some(parent), None, Some(c.value.id)), Some(parent), ids, ids');
    }
  }

  /** From the same state, the real tick decides nothing that a dry tick does not
      announce, in the same order, and the dry tick leaves the state alone. */
  lemma RealIsAmongDry(
    w: World, policy: Policy, processed: set<string>, listing: seq<string>, ids: seq<string>, ids': seq<string>)
    requires IsListing(w, listing) && AreNew(w, ids, |listing|) && AreNew(w, ids', |listing|)
    ensures IsSubsequence(StripAll(Tick(w, policy, processed, false, listing, ids).decisions),
                          Tick(w, policy, processed, true, listing, ids').decisions)
  {
    ListingCovers(w, listing);
    var s := Start(w);
    assert Shadows(s, s, listing);
    VisitsShadow(w, policy, processed, ids, ids', listing, s, s);
    var r1 := VisitBranches(w, policy, processed, false, ids, listing, s);
    var d1 := VisitBranches(w, policy, processed, true, ids', listing, s);
    ObstacleShadows(w, policy, processed, ids, ids', r1, d1);
    var r2 := ObstaclePhase(w, policy, processed, false, ids, r1);
    var d2 := ObstaclePhase(w, policy, processed, true, ids', d1);
    ChallengeShadows(w, policy, processed, ids, ids', r2, d2);
  }

  // ----- with enough room they coincide

  function Spawns(s: seq<Decision>): nat {
    if s == [] then 0 else Spawns(s[..|s| - 1]) + if s[|s| - 1].action == Kill then 0 else 1
  }

  lemma SpawnsAppend(s: seq<Decision>, d: Decision)
    ensures Spawns(s + [d]) == Spawns(s) + if d.action == Kill then 0 else 1
  {
    assert (s + [d])[..|s|] == s;
  }

  lemma {:induction false} SpawnsPrefix(s: seq<Decision>, t: seq<Decision>)
    requires s <= t
    ensures Spawns(s) <= Spawns(t)
  {
    if s != t {
      SpawnsPrefix(s, t[..|t| - 1]);
    }
  }

  predicate Mirrors(r: Progress, d: Progress, rest: seq<string>) {
    && r.live == d.live + Spawns(d.decisions)
    && (forall b :: b in rest ==> Count(r.children, b) == Count(d.children, b))
    && StripAll(r.decisions) == d.decisions
  }

  lemma ActMirrors(r: Progress, d: Progress, x: Decision, parent: Option<string>, ids: seq<string>, ids': seq<string>)
    requires r.drawn < |ids| && d.drawn < |ids'| && Strip(x) == x && Mirrors(r, d, [])
    ensures var r', d' := Act(r, x, parent, false, ids), Act(d, x, parent, true, ids');
            && Mirrors(r', d', []) && OnlyDecides(d, d')
            && d'.decisions == d.decisions + [x]
            && Spawns(d'.decisions) == Spawns(d.decisions) + (if x.action == Kill then 0 else 1)
            && forall b :: parent != Some(b) ==> Count(r'.children, b) == Count(r.children, b)
  {
    hide SpawnBranch, ArchiveIn, StripAll, Spawns;
    var last := Act(r, x, parent, false, ids).decisions[|r.decisions|];
    StripAppend(r.decisions, last);
    SpawnsAppend(d.decisions, x);
    assert Strip(last) == x;
    assert Act(r, x, parent, false, ids).decisions == r.decisions + [last];
    assert Act(d, x, parent, true, ids').decisions == d.decisions + [x];
  }

  lemma ForkNeedsRoom(
    b: Branch, session: Option<Session>, policy: Policy, processed: set<string>, room: bool, other: bool)
    ensures var y := Decide(b, session, policy, processed, room);
            (y.Some? && y.value.action == Kill) || y.None? || room
    ensures var y := Decide(b, session, policy, processed, room);
            y.Some? && (y.value.action == Kill || other) ==> Decide(b, session, policy, processed, other) == y
    ensures Decide(b, session, policy, processed, room).None? && (other ==> room) ==>
              Decide(b, session, policy, processed, other).None?
  {
  }

  lemma VisitMirrors(
    w: World, policy: Policy, processed: set<string>, ids: seq<string>, ids': seq<string>,
    rest: seq<string>, r: Progress, d: Progress)
    requires rest != [] && NoDup(rest) && rest[0] in w.branches && Mirrors(r, d, rest)
    requires r.drawn < |ids| && d.drawn < |ids'|
    requires d.live + Spawns(VisitBranch(w, policy, processed, true, ids', rest[0], d).decisions) <= policy.maxLive
    ensures Mirrors(VisitBranch(w, policy, processed, false, ids, rest[0], r),
                    VisitBranch(w, policy, processed, true, ids', rest[0], d), rest[1..])
    ensures OnlyDecides(d, VisitBranch(w, policy, processed, true, ids', rest[0], d))
  {
    hide Decide, Act, Count, Spawns, StripAll;
    var b := rest[0];
    assert b in rest;
    assert forall x :: x in rest[1..] ==> x in rest && x != b;
    var roomR, roomD := CanSpawn(r, policy, Some(b)), CanSpawn(d, policy, Some(b));
    assert roomR ==> roomD;
    ForkNeedsRoom(w.branches[b], SessionOf(w, b), policy, processed, roomD, roomR);
    RoomOnlyAdds(w.branches[b], SessionOf(w, b), policy, processed, roomD);
    var y := Decide(w.branches[b], SessionOf(w, b), policy, processed, roomD);
    if y.Some? {
      ActMirrors(r, d, y.value, Some(b), ids, ids');
    }
  }

  lemma {:induction false} VisitsMirror(
    w: World, policy: Policy, processed: set<string>, ids: seq<string>, ids': seq<string>,
    rest: seq<string>, r: Progress, d: Progress)
    requires NoDup(rest) && Mirrors(r, d, rest) && forall b :: b in rest ==> b in w.branches
    requires r.drawn + |rest| <= |ids| && d.drawn + |rest| <= |ids'|
    requires d.live + Spawns(VisitBranches(w, policy, processed, true, ids', rest, d).decisions) <= policy.maxLive
    ensures Mirrors(VisitBranches(w, policy, processed, false, ids, rest, r),
                    VisitBranches(w, policy, processed, true, ids', rest, d), [])
    decreases |rest|
  {
    hide Mirrors, VisitBranch, NoDup, Spawns;
    if rest != [] {
      assert rest[0] in rest;
      var d' := VisitBranch(w, policy, processed, true, ids', rest[0], d);
      VisitDraws(w, policy, processed, false, ids, rest[0], r);
      VisitDraws(w, policy, processed, true, ids', rest[0], d);
      DryVisitOnlyDecides(w, policy, processed, ids', rest[1..], d');
      SpawnsPrefix(d'.decisions, VisitBranches(w, policy, processed, true, ids', rest[1..], d').decisions);
      VisitMirrors(w, policy, processed, ids, ids', rest, r, d);
      TailNoDup(rest);
      VisitsMirror(w, policy, processed, ids, ids', rest[1..],
        VisitBranch(w, policy, processed, false, ids, rest[0], r), d');
    } else {
      assert rest == [];
    }
  }

  lemma ObstacleMirrors(
    w: World, policy: Policy, processed: set<string>, ids: seq<string>, ids': seq<string>, r: Progress, d: Progress)
    requires Mirrors(r, d, []) && r.drawn < |ids| && d.drawn < |ids'|
    requires d.live + Spawns(ObstaclePhase(w, policy, processed, true, ids', d).decisions) <= policy.maxLive
    ensures Mirrors(ObstaclePhase(w, policy, processed, false, ids, r),
              ObstaclePhase(w, policy, processed, true, ids', d), [])
    ensures OnlyDecides(d, ObstaclePhase(w, policy, processed, true, ids', d))
  {
    hide Spawns, StripAll;
    var x := FirstDigest(w.digests, processed);
    if policy.onObstacle && x.Some? {
      ActMirrors(r, d, Decision(Generate, Some(x.value.source), None, Some(DigestMarker(x.value))), None, ids, ids');
    }
  }

  lemma ChallengeMirrors(
    w: World, policy: Policy, processed: set<string>, ids: seq<string>, ids': seq<string>, r: Progress, d: Progress)
    requires Mirrors(r, d, []) && r.drawn < |ids| && d.drawn < |ids'|
    requires d.live + Spawns(ChallengePhase(w, policy, processed, true, ids', d).decisions) <= policy.maxLive
    ensures Mirrors(ChallengePhase(w, policy, processed, false, ids, r),
              ChallengePhase(w, policy, processed, true, ids', d), [])
    ensures OnlyDecides(d, ChallengePhase(w, policy, processed, true, ids', d))
  {
    hide Spawns, StripAll;
    var c := FirstChallenge(w.challenges, w.versions, processed);
    if policy.onChallenge && c.Some? {
      var parent := w.versions[c.value.knowledge];
      ActMirrors(r, d, Decision(Fork, Some(parent), None, Some(c.value.id)), Some(parent), ids, ids');
    }
  }

  /** When the live capacity covers every spawn a dry tick announces, the real
      tick makes exactly the announced decisions. */
  lemma DryIsExactWithRoom(
    w: World, policy: Policy, processed: set<string>, listing: seq<string>, ids: seq<string>, ids': seq<string>)
    requires IsListing(w, listing) && AreNew(w, ids, |listing|) && AreNew(w, ids', |listing|)
    requires |LiveBranches(w.branches)| + Spawns(Tick(w, policy, processed, true, listing, ids').decisions)
             <= policy.maxLive
    ensures StripAll(Tick(w, policy, processed, false, listing, ids).decisions)
         == Tick(w, policy, processed, true, listing, ids').decisions
  {
    hide Spawns, VisitBranches, ObstaclePhase, ChallengePhase, Mirrors;
    ListingCovers(w, listing);
    var s := Start(w);
    StartMirrors(s, listing);
    var d1 := VisitBranches(w, policy, processed, true, ids', listing, s);
    var d2 := ObstaclePhase(w, policy, processed, true, ids', d1);
    var d3 := ChallengePhase(w, policy, processed, true, ids', d2);
    DryVisitOnlyDecides(w, policy, processed, ids', listing, s);
    DryPhasesOnlyDecide(w, policy, processed, ids', d1, d2);
    SpawnsPrefix(d1.decisions, d2.decisions);
    SpawnsPrefix(d2.decisions, d3.decisions);
    VisitsMirror(w, policy, processed, ids, ids', listing, s, s);
    var r1 := VisitBranches(w, policy, processed, false, ids, listing, s);
    ObstacleMirrors(w, policy, processed, ids, ids', r1, d1);
    var r2 := ObstaclePhase(w, policy, processed, false, ids, r1);
    ChallengeMirrors(w, policy, processed, ids, ids', r2, d2);
    MirrorsStrip(ChallengePhase(w, policy, processed, false, ids, r2), d3);
  }

  lemma MirrorsStrip(r: Progress, d: Progress)
    requires Mirrors(r, d, [])
    ensures StripAll(r.decisions) == d.decisions
  {
  }

  lemma StartMirrors(s: Progress, listing: seq<string>)
    requires s.decisions == []
    ensures Mirrors(s, s, listing)
  {
  }

  lemma DryPhasesOnlyDecide(
    w: World, policy: Policy, processed: set<string>, ids: seq<string>, p: Progress, q: Progress)
    requires p.drawn < |ids| && q.drawn < |ids|
    ensures OnlyDecides(p, ObstaclePhase(w, policy, processed, true, ids, p))
    ensures OnlyDecides(q, ChallengePhase(w, policy, processed, true, ids, q))
  {
  }
}
