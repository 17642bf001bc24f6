/** End-to-end delivery of one edge node's frames: what the gateway holds, what
    the spool holds, and what was produced, under an adversarial network. */
module Delivery {
  import opened Wrappers
  import opened Gateway

  /** The fate of one POST: `analysis` None means that processing fails. */
  datatype Fate =
    | RequestLost
    | ReplyLost(analysis: Option<string>)
    | Answered(analysis: Option<string>)

  /** A whole ingest call with nothing in between, and whether it succeeds. */
  function IngestCall(g: State, call: nat, f: Frame, analysis: Option<string>): (State, bool) {
    var reply := ClaimReply(g, f);
    var h := Claim(g, call, f);
    if reply.Claimed? then
      assert call in h.inFlight;
      if analysis.Some? then (Commit(h, call, analysis.value), true) else (Rollback(h, call), false)
    else (h, reply.Cached?)
  }

  /** The gateway after one POST, and whether the client sees a success. */
  function Attempt(g: State, call: nat, f: Frame, fate: Fate): (State, bool) {
    match fate
    case RequestLost => (g, false)
    case ReplyLost(analysis) => (IngestCall(g, call, f, analysis).0, false)
    case Answered(analysis) => IngestCall(g, call, f, analysis)
  }

  /** The frame that an attempt newly completes, if any. */
  function NewlyCompleted(g: State, f: Frame, fate: Fate): seq<Frame> {
    if !fate.RequestLost? && ClaimReply(g, f).Claimed? && fate.analysis.Some? then [f] else []
  }

  // ----- what a client sees of its POSTs

  /** One published frame: the fates of its POSTs, and whether one was acknowledged. */
  datatype Sent = Sent(frame: Frame, fates: seq<Fate>, ok: bool)

  /** The POST reached the gateway and its analysis succeeded. */
  predicate Processes(fate: Fate) {
    !fate.RequestLost? && fate.analysis.Some?
  }

  /** Whether POST k is acknowledged: its reply arrives, and the frame has been
      processed by it or before it. */
  predicate IsAcknowledged(done: bool, fates: seq<Fate>, k: nat)
    requires k < |fates|
  {
    && fates[k].Answered?
    && (done || exists j :: 0 <= j <= k && Processes(fates[j]))
  }

  /** The client POSTs until the first acknowledgement and gives up after
      `retries` further POSTs; `done` says that the frame was completed before. */
  predicate IsPosted(s: Sent, done: bool, retries: nat) {
    && 1 <= |s.fates| <= retries + 1
    && (forall k :: 0 <= k < |s.fates| - 1 ==> !IsAcknowledged(done, s.fates, k))
    && (s.ok <==> IsAcknowledged(done, s.fates, |s.fates| - 1))
    && (!s.ok ==> |s.fates| == retries + 1)
  }

  /** If the first POST is answered after a successful analysis, there is no other. */
  lemma HonestPostSucceeds(s: Sent, done: bool, retries: nat)
    requires IsPosted(s, done, retries) && s.fates[0].Answered? && s.fates[0].analysis.Some?
    ensures s.ok && |s.fates| == 1
  {
    assert Processes(s.fates[0]) && IsAcknowledged(done, s.fates, 0);
  }

  predicate AllOk(posts: seq<Sent>) {
    forall s :: s in posts ==> s.ok
  }

  /** How many of the posted frames leave the queue: all but a last one that failed. */
  function DeliveredBy(posts: seq<Sent>): nat {
    if posts == [] then 0 else if posts[|posts| - 1].ok then |posts| else |posts| - 1
  }

  function Bound(limit: int, n: nat): (b: nat)
    ensures b <= n
  {
    if limit < 0 then 0 else if limit < n then limit else n
  }

  predicate IsSomehowPosted(s: Sent, retries: nat) {
    IsPosted(s, true, retries) || IsPosted(s, false, retries)
  }

  /** A queue is posted from its front, one frame after the other, until one fails
      or the limit is reached; what was acknowledged leaves it, and nothing else. */
  predicate IsFlush(queue: seq<Frame>, after: seq<Frame>, posts: seq<Sent>, limit: int, retries: nat) {
    && |posts| <= Bound(limit, |queue|)
    && (forall k :: 0 <= k < |posts| ==> posts[k].frame == queue[k] && IsSomehowPosted(posts[k], retries))
    && (forall k :: 0 <= k < |posts| - 1 ==> posts[k].ok)
    && after == queue[DeliveredBy(posts)..]
    && (AllOk(posts) ==> |posts| == Bound(limit, |queue|))
  }

  lemma FlushAll(queue: seq<Frame>, after: seq<Frame>, posts: seq<Sent>, limit: int, retries: nat)
    requires IsFlush(queue, after, posts, limit, retries) && AllOk(posts)
    ensures |after| == |queue| - Bound(limit, |queue|)
  {
    assert posts != [] ==> posts[|posts| - 1] in posts;
  }

  /** The queue that is left when a session starts with a backlog, n windows are
      published and no POST fails. */
  function Backlog(start: nat, limit: int, n: nat): nat {
    if n == 0 then start
    else
      var before := Backlog(start, limit, n - 1);
      if before == 0 then 0 else before + 1 - Bound(limit, before + 1)
  }

  /** Each window takes limit - 1 frames off the backlog until it is gone. */
  lemma {:induction false} BacklogShrinks(start: nat, limit: nat, n: nat)
    requires limit >= 1
    ensures Backlog(start, limit, n) == if n * (limit - 1) < start then start - n * (limit - 1) else 0
  {
    if n > 0 {
      BacklogShrinks(start, limit, n - 1);
      assert n * (limit - 1) == (n - 1) * (limit - 1) + (limit - 1);
    }
  }

  // ----- the invariant

  predicate Increasing(frames: seq<Frame>, node: string) {
    && (forall i :: 0 <= i < |frames| ==> frames[i].node == node)
    && (forall i, j :: 0 <= i < j < |frames| ==> frames[i].sequence < frames[j].sequence)
  }

  function LastOf(frames: seq<Frame>): Option<nat> {
    if frames == [] then None else Some(frames[|frames| - 1].sequence)
  }

  /** The gateway has completed exactly `completed` for the node, in that order,
      and holds nothing of it in flight. */
  ghost predicate ServerHolds(g: State, node: string, completed: seq<Frame>) {
    && Increasing(completed, node)
    && Last(g, node) == LastOf(completed)
    && (forall k :: k in g.frameHashes && k.0 == node ==> KeyOf(g.frameHashes[k]) == k && g.frameHashes[k] in completed)
    && (forall f :: f in completed ==> KeyOf(f) in g.frameHashes && g.frameHashes[KeyOf(f)] == f)
    && (forall c :: c in g.inFlight ==> g.inFlight[c].frame.node != node)
    && g.frameHashes.Keys == g.analyses.Keys
  }

  /** Completed is a prefix of produced, queued is a suffix, together they cover
      everything, and they overlap in at most the head of the queue. */
  predicate Pipeline(produced: seq<Frame>, completed: seq<Frame>, queued: seq<Frame>) {
    && completed <= produced
    && |queued| <= |produced| && queued == produced[|produced| - |queued|..]
    && |produced| <= |completed| + |queued| <= |produced| + 1
  }

  /** The server refuses the node's frames through the sequence rules only. */
  predicate Admits(g: State, frames: seq<Frame>) {
    forall f :: f in frames ==> AdmissionRefusal(g, f).None?
  }

  // ----- what the invariant says

  /** No loss: every produced frame is completed or queued. No duplication and no
      reordering: only the queue's head can also be completed, and then it is the
      last frame the gateway completed. */
  lemma PipelineMeansExactlyOnce(
    g: State, node: string, produced: seq<Frame>, completed: seq<Frame>, queued: seq<Frame>)
    requires Increasing(produced, node) && Pipeline(produced, completed, queued) && ServerHolds(g, node, completed)
    ensures forall f :: f in produced <==> f in completed || f in queued
    ensures forall f :: f in completed && f in queued ==>
              f == queued[0] && f == completed[|completed| - 1] && Last(g, node) == Some(f.sequence)
  {
    PipelineCovers(produced, completed, queued);
    forall f | f in completed && f in queued
      ensures f == queued[0] && f == completed[|completed| - 1]
    {
      PipelineOverlap(node, produced, completed, queued, f);
    }
  }

  lemma PipelineCovers(produced: seq<Frame>, completed: seq<Frame>, queued: seq<Frame>)
    requires Pipeline(produced, completed, queued)
    ensures forall f :: f in produced <==> f in completed || f in queued
  {
    var start := |produced| - |queued|;
    assert produced == produced[..start] + queued;
    assert produced == completed + produced[|completed|..];
    assert forall i :: 0 <= i < start ==> produced[i] == completed[i];
    assert forall f :: f in produced[..start] ==> f in completed;
  }

  lemma PipelineOverlap(node: string, produced: seq<Frame>, completed: seq<Frame>, queued: seq<Frame>, f: Frame)
    requires Increasing(produced, node) && Pipeline(produced, completed, queued)
    requires f in completed && f in queued
    ensures f == queued[0] && f == completed[|completed| - 1]
  {
    var i :| 0 <= i < |completed| && completed[i] == f;
    var j :| 0 <= j < |queued| && queued[j] == f;
    var k := |produced| - |queued| + j;
    assert produced[i] == f && produced[k] == f;
    assert i == k;
  }

  // ----- one attempt at the head of the queue

  /** Admission looks at node, asset and campaign only. */
  predicate SameHeader(f: Frame, f': Frame) {
    f.node == f'.node && f.asset == f'.asset && f.campaign == f'.campaign
  }

  lemma NewestIsAdmitted(g: State, f: Frame, template: Frame, frames: seq<Frame>)
    requires Admits(g, frames + [template]) && SameHeader(f, template)
    ensures Admits(g, (frames + [f]) + [template])
  {
    assert template in frames + [template];
    forall x | x in (frames + [f]) + [template]
      ensures AdmissionRefusal(g, x).None?
    {
      assert x != f ==> x in frames + [template];
    }
  }

  predicate SameAssets(a: map<string, NodeState>, b: map<string, NodeState>) {
    a.Keys == b.Keys && forall n :: n in a ==> b[n].asset == a[n].asset
  }

  predicate SameHeads(a: map<string, CampaignState>, b: map<string, CampaignState>) {
    && a.Keys == b.Keys
    && forall m :: m in a ==> b[m].active == a[m].active && b[m].node == a[m].node && b[m].asset == a[m].asset
  }

  predicate SameAdmission(g: State, h: State) {
    SameAssets(g.nodes, h.nodes) && SameHeads(g.campaigns, h.campaigns)
  }

  lemma SameAdmissionSameRefusal(g: State, h: State, frames: seq<Frame>)
    requires SameAdmission(g, h) && Admits(g, frames)
    ensures Admits(h, frames)
  {
    forall x | x in frames
      ensures AdmissionRefusal(h, x).None?
    {
      assert AdmissionRefusal(g, x).None?;
    }
  }

  lemma NodeUpdateKeepsAssets(nodes: map<string, NodeState>, n: string, x: NodeState)
    requires n in nodes && x.asset == nodes[n].asset
    ensures SameAssets(nodes, nodes[n := x])
  {
  }

  lemma CampaignUpdateKeepsHeads(campaigns: map<string, CampaignState>, m: string, x: CampaignState)
    requires m in campaigns && x.active == campaigns[m].active
    requires x.node == campaigns[m].node && x.asset == campaigns[m].asset
    ensures SameHeads(campaigns, campaigns[m := x])
  {
  }

  lemma RejectionKeepsAdmission(g: State, f: Frame, reason: Rejection)
    ensures SameAdmission(g, CountRejection(g, f, reason))
  {
    hide SameAssets, SameHeads;
    var h := CountRejection(g, f, reason);
    SameAdmissionReflexive(g);
    if f.node in g.nodes {
      NodeUpdateKeepsAssets(g.nodes, f.node, h.nodes[f.node]);
    }
    if f.campaign.Some? && f.campaign.value in g.campaigns {
      CampaignUpdateKeepsHeads(g.campaigns, f.campaign.value, h.campaigns[f.campaign.value]);
    }
  }

  lemma SameAdmissionReflexive(g: State)
    ensures SameAssets(g.nodes, g.nodes) && SameHeads(g.campaigns, g.campaigns)
  {
  }

  lemma AcceptKeepsAdmission(g: State, call: nat, f: Frame)
    requires f.node in g.nodes && (f.campaign.Some? ==> f.campaign.value in g.campaigns)
    ensures SameAdmission(g, Accept(g, call, f))
  {
    var h := Accept(g, call, f);
    assert SameAssets(g.nodes, h.nodes);
    assert SameHeads(g.campaigns, h.campaigns);
  }

  lemma ClaimKeepsAdmission(g: State, call: nat, f: Frame)
    ensures SameAdmission(g, Claim(g, call, f))
  {
    match ClaimReply(g, f)
    case Claimed => AcceptKeepsAdmission(g, call, f);
    case Cached(_) =>
    case Rejected(reason) => RejectionKeepsAdmission(g, f, reason);
  }

  lemma RollbackKeepsAdmission(g: State, call: nat)
    requires call in g.inFlight
    ensures SameAdmission(g, Rollback(g, call))
  {
    var h := Rollback(g, call);
    assert SameAssets(g.nodes, h.nodes);
    assert SameHeads(g.campaigns, h.campaigns);
  }

  lemma CallKeepsAdmission(g: State, call: nat, f: Frame, analysis: Option<string>, frames: seq<Frame>)
    requires Admits(g, frames)
    ensures Admits(IngestCall(g, call, f, analysis).0, frames)
  {
    var h := Claim(g, call, f);
    ClaimKeepsAdmission(g, call, f);
    SameAdmissionSameRefusal(g, h, frames);
    if ClaimReply(g, f).Claimed? {
      if analysis.Some? {
        SameAdmissionSameRefusal(h, Commit(h, call, analysis.value), frames);
      } else {
        RollbackKeepsAdmission(h, call);
        SameAdmissionSameRefusal(h, Rollback(h, call), frames);
      }
    }
  }

  /** The reply to the head of the queue: cached if it is already completed,
      claimed otherwise; the sequence rules never reject it. */
  lemma HeadReply(g: State, node: string, produced: seq<Frame>, completed: seq<Frame>, queued: seq<Frame>)
    requires Increasing(produced, node) && Pipeline(produced, completed, queued) && ServerHolds(g, node, completed)
    requires queued != [] && AdmissionRefusal(g, queued[0]).None?
    ensures if |completed| + |queued| == |produced|
            then ClaimReply(g, queued[0]).Claimed?
            else ClaimReply(g, queued[0]).Cached?
    ensures |completed| + |queued| == |produced| ==> queued[0] == produced[|completed|]
  {
    var f := queued[0];
    assert f == produced[|produced| - |queued|];
    if |completed| + |queued| == |produced| + 1 {
      assert f == completed[|completed| - 1];
    } else {
      assert completed != [] ==> completed[|completed| - 1] == produced[|completed| - 1];
    }
  }

  /** What a POST of the queue's head does depends on its fate and on whether the
      frame is completed already. */
  lemma HeadOutcome(
    g: State, call: nat, node: string, produced: seq<Frame>, completed: seq<Frame>, queued: seq<Frame>, fate: Fate)
    requires Increasing(produced, node) && Pipeline(produced, completed, queued) && ServerHolds(g, node, completed)
    requires queued != [] && AdmissionRefusal(g, queued[0]).None?
    ensures var f := queued[0];
            && (Attempt(g, call, f, fate).1 <==> fate.Answered? && (f in completed || Processes(fate)))
            && NewlyCompleted(g, f, fate) == if f !in completed && Processes(fate) then [f] else []
  {
    var f := queued[0];
    HeadReply(g, node, produced, completed, queued);
    hide ServerHolds, ClaimReply, Claim;
    assert f == produced[|produced| - |queued|];
    if |completed| + |queued| == |produced| {
      forall i | 0 <= i < |completed|
        ensures completed[i] != f
      {
        assert completed[i] == produced[i];
      }
    } else {
      assert completed[|completed| - 1] == f;
    }
  }

  lemma CallCompletes(g: State, call: nat, f: Frame, analysis: string)
    requires call !in g.inFlight && ClaimReply(g, f).Claimed?
    ensures var h := IngestCall(g, call, f, Some(analysis)).0;
            && h.frameHashes == g.frameHashes[KeyOf(f) := f]
            && h.analyses == g.analyses[KeyOf(f) := analysis]
            && h.inFlight == g.inFlight
            && Last(h, f.node) == Some(f.sequence)
  {
  }

  lemma CompletionExtends(g: State, call: nat, node: string, completed: seq<Frame>, f: Frame, analysis: string)
    requires ServerHolds(g, node, completed) && f.node == node && call !in g.inFlight
    requires ClaimReply(g, f).Claimed?
    ensures ServerHolds(IngestCall(g, call, f, Some(analysis)).0, node, completed + [f])
  {
    CallCompletes(g, call, f, analysis);
    hide IngestCall, AdmissionRefusal;
    assert Last(g, node) == LastOf(completed);
    assert Increasing(completed + [f], node);
    forall x | x in completed
      ensures x.sequence < f.sequence
    {
      var i :| 0 <= i < |completed| && completed[i] == x;
    }
  }

  lemma FailureKeeps(g: State, call: nat, node: string, completed: seq<Frame>, f: Frame)
    requires ServerHolds(g, node, completed) && f.node == node && call !in g.inFlight
    requires ClaimReply(g, f).Claimed?
    ensures ServerHolds(IngestCall(g, call, f, None).0, node, completed)
  {
    var h := IngestCall(g, call, f, None).0;
    assert h.frameHashes == g.frameHashes && h.analyses == g.analyses;
    assert h.inFlight == g.inFlight;
    assert Last(h, node) == Last(g, node);
  }

  lemma PipelineMoves(produced: seq<Frame>, completed: seq<Frame>, queued: seq<Frame>)
    requires Pipeline(produced, completed, queued) && queued != []
    ensures |completed| + |queued| == |produced| ==> Pipeline(produced, completed + [queued[0]], queued)
    ensures |completed| + |queued| == |produced| + 1 ==> Pipeline(produced, completed, queued[1..])
  {
    assert queued[1..] == produced[|produced| - |queued| + 1..];
  }

  lemma CallKeepsServer(g: State, call: nat, node: string, completed: seq<Frame>, f: Frame, fate: Fate)
    requires ServerHolds(g, node, completed) && f.node == node && call !in g.inFlight
    requires ClaimReply(g, f).Claimed? || ClaimReply(g, f).Cached?
    ensures ServerHolds(Attempt(g, call, f, fate).0, node, completed + NewlyCompleted(g, f, fate))
    ensures Attempt(g, call, f, fate).1 ==> ClaimReply(g, f).Cached? || NewlyCompleted(g, f, fate) == [f]
  {
    if !fate.RequestLost? && ClaimReply(g, f).Claimed? {
      if fate.analysis.Some? {
        CompletionExtends(g, call, node, completed, f, fate.analysis.value);
      } else {
        FailureKeeps(g, call, node, completed, f);
        assert completed + [] == completed;
      }
    } else {
      assert completed + [] == completed;
    }
  }

  /** Any fate of one POST of the queue's head keeps the pipeline, and after a
      success the head may be taken off. */
  lemma AttemptKeepsPipeline(
    g: State, call: nat, node: string, produced: seq<Frame>, completed: seq<Frame>, queued: seq<Frame>,
    frames: seq<Frame>, fate: Fate)
    requires Increasing(produced, node) && Pipeline(produced, completed, queued) && ServerHolds(g, node, completed)
    requires queued != [] && queued[0] in frames && Admits(g, frames) && call !in g.inFlight
    ensures var (h, ok) := Attempt(g, call, queued[0], fate);
            var more := completed + NewlyCompleted(g, queued[0], fate);
            && ServerHolds(h, node, more) && Admits(h, frames)
            && Pipeline(produced, more, queued)
            && (ok ==> Pipeline(produced, more, queued[1..]))
  {
    var f := queued[0];
    assert f == produced[|produced| - |queued|];
    HeadReply(g, node, produced, completed, queued);
    CallKeepsServer(g, call, node, completed, f, fate);
    if !fate.RequestLost? {
      CallKeepsAdmission(g, call, f, fate.analysis, frames);
    }
    var more := completed + NewlyCompleted(g, f, fate);
    PipelineMoves(produced, completed, queued);
    if NewlyCompleted(g, f, fate) == [f] {
      PipelineMoves(produced, more, queued);
    } else {
      assert more == completed;
    }
  }

  /** A newly produced frame joins the queue. */
  lemma ProduceKeepsPipeline(node: string, produced: seq<Frame>, completed: seq<Frame>, queued: seq<Frame>, f: Frame)
    requires Increasing(produced, node) && Pipeline(produced, completed, queued)
    requires f.node == node && forall x :: x in produced ==> x.sequence < f.sequence
    ensures Increasing(produced + [f], node) && Pipeline(produced + [f], completed, queued + [f])
  {
    forall i, j | 0 <= i < j < |produced| + 1
      ensures (produced + [f])[i].sequence < (produced + [f])[j].sequence
    {
      if j == |produced| {
        assert produced[i] in produced;
      }
    }
  }

  /** With an empty queue nothing is outstanding. */
  lemma DrainedMeansComplete(produced: seq<Frame>, completed: seq<Frame>)
    requires Pipeline(produced, completed, [])
    ensures completed == produced
  {
  }
}
