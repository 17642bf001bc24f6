/** One scheduler tick as a function: recorded triggers become kill, fork and
    generate decisions under the capacity limits of the policy. */
module SchedulerTick {
  import opened Wrappers
  import opened LexOrder
  import opened Schema
  import Research

  datatype Policy = Policy(
    maxLive: nat, maxChildren: nat,
    onCounterexample: bool, onExperiment: bool, onObstacle: bool, onChallenge: bool,
    killRejected: bool, killFailedCouncil: bool)

  datatype Session = Session(id: string, failed: bool)

  datatype Digest = Digest(generatedAt: string, source: string, obstacle: Option<string>)

  datatype OpenOrClosed = OpenOrClosed(id: string, knowledge: string, isOpen: bool)

  /** What a tick sees: branches, each branch's latest council session, digests
      and challenges in listing order, and the branch of each knowledge version. */
  datatype World = World(
    branches: map<string, Branch>,
    council: map<string, Session>,
    digests: seq<Digest>,
    challenges: seq<OpenOrClosed>,
    versions: map<string, string>)

  datatype Action = Generate | Fork | Kill | Skip

  datatype Decision = Decision(action: Action, source: Option<string>, target: Option<string>, related: Option<string>)

  function RejectedMarker(b: string): string { "rejected:" + b }

  function CouncilMarker(session: string): string { "council-failed:" + session }

  function DigestMarker(d: Digest): string { "pollination:" + d.generatedAt + ":" + d.source }

  // ----- triggers

  function FirstUnresolved(s: seq<CounterexampleRecord>, processed: set<string>): (id: Option<string>)
    ensures id.Some? <==> exists i :: 0 <= i < |s| && !s[i].resolved && s[i].id !in processed
    ensures id.Some? ==>
              && id.value !in processed
              && exists i ::
                   && 0 <= i < |s| && !s[i].resolved && s[i].id == id.value
                   && forall k :: 0 <= k < i ==> s[k].resolved || s[k].id in processed
  {
    if s == [] then None
    else if !s[0].resolved && s[0].id !in processed then Some(s[0].id)
    else
      assert s == [s[0]] + s[1..];
      FirstUnresolved(s[1..], processed)
  }

  predicate IsSetback(status: ExperimentStatus) {
    status.Failed? || status.Inconclusive?
  }

  function FirstSetback(s: seq<ExperimentRecord>, processed: set<string>): (id: Option<string>)
    ensures id.Some? <==> exists i :: 0 <= i < |s| && IsSetback(s[i].status) && s[i].id !in processed
    ensures id.Some? ==>
              && id.value !in processed
              && exists i ::
                   && 0 <= i < |s| && IsSetback(s[i].status) && s[i].id == id.value
                   && forall k :: 0 <= k < i ==> !IsSetback(s[k].status) || s[k].id in processed
  {
    if s == [] then None
    else if IsSetback(s[0].status) && s[0].id !in processed then Some(s[0].id)
    else
      assert s == [s[0]] + s[1..];
      FirstSetback(s[1..], processed)
  }

  predicate HasObstacle(d: Digest) {
    d.obstacle.Some? && d.obstacle.value != ""
  }

  function FirstDigest(s: seq<Digest>, processed: set<string>): (d: Option<Digest>)
    ensures d.Some? <==> exists i :: 0 <= i < |s| && HasObstacle(s[i]) && DigestMarker(s[i]) !in processed
    ensures d.Some? ==>
              && HasObstacle(d.value) && DigestMarker(d.value) !in processed
              && exists i ::
                   && 0 <= i < |s| && s[i] == d.value
                   && forall k :: 0 <= k < i ==> !HasObstacle(s[k]) || DigestMarker(s[k]) in processed
  {
    if s == [] then None
    else if HasObstacle(s[0]) && DigestMarker(s[0]) !in processed then Some(s[0])
    else
      assert s == [s[0]] + s[1..];
      FirstDigest(s[1..], processed)
  }

  predicate IsActionable(c: OpenOrClosed, versions: map<string, string>) {
    c.isOpen && c.knowledge in versions
  }

  function FirstChallenge(
    s: seq<OpenOrClosed>, versions: map<string, string>, processed: set<string>): (c: Option<OpenOrClosed>)
    ensures c.Some? <==> exists i :: 0 <= i < |s| && IsActionable(s[i], versions) && s[i].id !in processed
    ensures c.Some? ==>
              && IsActionable(c.value, versions) && c.value.id !in processed
              && exists i ::
                   && 0 <= i < |s| && s[i] == c.value
                   && forall k :: 0 <= k < i ==> !IsActionable(s[k], versions) || s[k].id in processed
  {
    if s == [] then None
    else if IsActionable(s[0], versions) && s[0].id !in processed then Some(s[0])
    else
      assert s == [s[0]] + s[1..];
      FirstChallenge(s[1..], versions, processed)
  }

  /** The decision for one branch, if any; a fork needs room. */
  function Decide(
    b: Branch, session: Option<Session>, policy: Policy, processed: set<string>, canSpawn: bool): Option<Decision>
  {
    if policy.killRejected && b.status == Rejected then
      if RejectedMarker(b.id) in processed then None
      else Some(Decision(Kill, Some(b.id), None, Some(RejectedMarker(b.id))))
    else if policy.killFailedCouncil && session.Some? && session.value.failed then
      if CouncilMarker(session.value.id) in processed then None
      else Some(Decision(Kill, Some(b.id), None, Some(CouncilMarker(session.value.id))))
    else if policy.onCounterexample && FirstUnresolved(b.counterexamples, processed).Some? && canSpawn then
      Some(Decision(Fork, Some(b.id), None, FirstUnresolved(b.counterexamples, processed)))
    else if policy.onExperiment && FirstSetback(b.experiments, processed).Some? && canSpawn then
      Some(Decision(Fork, Some(b.id), None, FirstSetback(b.experiments, processed)))
    else None
  }

  // ----- the running tick

  /** The tick's local state: the branches as changed so far, its view of the
      number of live branches and of children, and the decisions made. */
  datatype Progress = Progress(
    branches: map<string, Branch>, live: nat, children: map<string, nat>, decisions: seq<Decision>, drawn: nat)

  function Count(children: map<string, nat>, b: string): nat {
    if b in children then children[b] else 0
  }

  predicate CanSpawn(p: Progress, policy: Policy, parent: Option<string>) {
    p.live < policy.maxLive && (parent.Some? ==> Count(p.children, parent.value) < policy.maxChildren)
  }

  function SpawnBranch(branches: map<string, Branch>, id: string, parent: Option<string>): map<string, Branch> {
    branches[id := Research.NewBranch(id, "", parent)]
  }

  function ArchiveIn(branches: map<string, Branch>, b: string): map<string, Branch> {
    if b in branches then branches[b := branches[b].(status := Archived)] else branches
  }

  /** Acting on a decision: a dry run only records it. */
  function Act(p: Progress, d: Decision, parent: Option<string>, dry: bool, ids: seq<string>): Progress
    requires p.drawn < |ids|
  {
    if dry then p.(decisions := p.decisions + [d])
    else if d.action == Kill then
      p.(branches := if d.source.Some? then ArchiveIn(p.branches, d.source.value) else p.branches,
         decisions := p.decisions + [d])
    else
      Progress(
        SpawnBranch(p.branches, ids[p.drawn], parent),
        p.live + 1,
        if parent.Some? then p.children[parent.value := Count(p.children, parent.value) + 1] else p.children,
        p.decisions + [d.(target := Some(ids[p.drawn]))],
        p.drawn + 1)
  }

  function SessionOf(w: World, b: string): Option<Session> {
    if b in w.council then Some(w.council[b]) else None
  }

  function VisitBranch(
    w: World, policy: Policy, processed: set<string>, dry: bool, ids: seq<string>, b: string, p: Progress): Progress
    requires b in w.branches && p.drawn < |ids|
  {
    var d := Decide(w.branches[b], SessionOf(w, b), policy, processed, CanSpawn(p, policy, Some(b)));
    if d.None? then p else Act(p, d.value, Some(b), dry, ids)
  }

  lemma VisitDraws(
    w: World, policy: Policy, processed: set<string>, dry: bool, ids: seq<string>, b: string, p: Progress)
    requires b in w.branches && p.drawn < |ids|
    ensures VisitBranch(w, policy, processed, dry, ids, b, p).drawn <= p.drawn + 1
  {
  }

  function VisitBranches(
    w: World, policy: Policy, processed: set<string>, dry: bool, ids: seq<string>, listing: seq<string>,
    p: Progress): (q: Progress)
    requires forall b :: b in listing ==> b in w.branches
    requires p.drawn + |listing| <= |ids|
    ensures q.drawn <= p.drawn + |listing|
    decreases |listing|
  {
    if listing == [] then p
    else
      assert listing[0] in listing;
      VisitBranches(w, policy, processed, dry, ids, listing[1..],
        VisitBranch(w, policy, processed, dry, ids, listing[0], p))
  }

  function ObstaclePhase(
    w: World, policy: Policy, processed: set<string>, dry: bool, ids: seq<string>, p: Progress): (q: Progress)
    requires p.drawn < |ids|
    ensures q.drawn <= p.drawn + 1
  {
    var d := FirstDigest(w.digests, processed);
    if !policy.onObstacle || d.None? || !CanSpawn(p, policy, None) then p
    else Act(p, Decision(Generate, Some(d.value.source), None, Some(DigestMarker(d.value))), None, dry, ids)
  }

  function ChallengePhase(
    w: World, policy: Policy, processed: set<string>, dry: bool, ids: seq<string>, p: Progress): Progress
    requires p.drawn < |ids|
  {
    var c := FirstChallenge(w.challenges, w.versions, processed);
    if !policy.onChallenge || c.None? || !CanSpawn(p, policy, None) then p
    else
      var parent := w.versions[c.value.knowledge];
      Act(p, Decision(Fork, Some(parent), None, Some(c.value.id)), Some(parent), dry, ids)
  }

  predicate IsLive(b: Branch) {
    b.status != Archived && b.status != Rejected
  }

  function LiveBranches(branches: map<string, Branch>): set<string> {
    set b | b in branches && IsLive(branches[b])
  }

  function ChildrenOf(branches: map<string, Branch>, b: string): set<string> {
    set c | c in branches && branches[c].parent == Some(b)
  }

  /** Only branches that have children appear in the counts. */
  function ChildCounts(branches: map<string, Branch>): map<string, nat> {
    map b | b in (set c | c in branches && branches[c].parent.Some? :: branches[c].parent.value) ::
      |ChildrenOf(branches, b)|
  }

  function Start(w: World): Progress {
    Progress(w.branches, |LiveBranches(w.branches)|, ChildCounts(w.branches), [], 0)
  }

  /** The listing is every branch once; the ids are new. */
  predicate IsListing(w: World, listing: seq<string>) {
    NoDup(listing) && Elements(listing) == w.branches.Keys
  }

  predicate AreNew(w: World, ids: seq<string>, n: nat) {
    NoDup(ids) && |ids| >= n + 2 && forall id :: id in ids ==> id !in w.branches && id !in w.council
  }

  function Tick(
    w: World, policy: Policy, processed: set<string>, dry: bool, listing: seq<string>, ids: seq<string>): Progress
    requires IsListing(w, listing) && AreNew(w, ids, |listing|)
  {
    ListingCovers(w, listing);
    var p1 := VisitBranches(w, policy, processed, dry, ids, listing, Start(w));
    var p2 := ObstaclePhase(w, policy, processed, dry, ids, p1);
    ChallengePhase(w, policy, processed, dry, ids, p2)
  }

  lemma ListingCovers(w: World, listing: seq<string>)
    requires IsListing(w, listing)
    ensures forall b :: b in listing <==> b in w.branches
  {
    assert forall b :: b in listing <==> b in Elements(listing);
  }

  /** The recorded run: a tick without decisions records a skip. */
  function Recorded(decisions: seq<Decision>): seq<Decision> {
    if decisions == [] then [Decision(Skip, None, None, None)] else decisions
  }

  function After(w: World, p: Progress): World {
    w.(branches := p.branches)
  }

  function Related(decisions: seq<Decision>): set<string> {
    set d | d in decisions && d.related.Some? :: d.related.value
  }
}
