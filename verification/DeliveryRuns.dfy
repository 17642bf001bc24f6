/** End-to-end delivery over whole runs. */
module DeliveryRuns {
  import opened Wrappers
  import opened Gateway
  import opened Delivery

  // One edge node produces and retries while any number of other nodes claim,
  // commit, fail and register at the same gateway.

  datatype World = World(gateway: State, produced: seq<Frame>, completed: seq<Frame>, queued: seq<Frame>)

  datatype Move =
    | ProduceMove(frame: Frame)
    | SendMove(call: nat, fate: Fate)
    | OtherMove(event: Event)

  /** A step of somebody else: not a frame of this node, and not a change of the
      node's asset. Commits and rollbacks need no restriction. */
  predicate IsForeign(g: State, e: Event, node: string) {
    match e
    case RegisterEvent(n, asset, _) => n != node || (n in g.nodes && g.nodes[n].asset == asset)
    case ClaimEvent(_, f) => f.node != node
    case _ => true
  }

  predicate IsAllowed(w: World, node: string, m: Move) {
    match m
    case ProduceMove(f) =>
      && f.node == node && AdmissionRefusal(w.gateway, f).None?
      && forall x :: x in w.produced ==> x.sequence < f.sequence
    case SendMove(call, _) => w.queued != [] && call !in w.gateway.inFlight
    case OtherMove(e) => IsForeign(w.gateway, e, node)
  }

  function Apply(w: World, m: Move): World {
    match m
    case ProduceMove(f) => w.(produced := w.produced + [f], queued := w.queued + [f])
    case SendMove(call, fate) =>
      if w.queued == [] then w
      else
        var f := w.queued[0];
        var (g, ok) := Attempt(w.gateway, call, f, fate);
        World(g, w.produced, w.completed + NewlyCompleted(w.gateway, f, fate), if ok then w.queued[1..] else w.queued)
    case OtherMove(e) => w.(gateway := Step(w.gateway, e))
  }

  function RunFrom(w: World, moves: seq<Move>): World
    decreases moves
  {
    if moves == [] then w else RunFrom(Apply(w, moves[0]), moves[1..])
  }

  predicate AllAllowed(w: World, node: string, moves: seq<Move>)
    decreases moves
  {
    moves == [] || (IsAllowed(w, node, moves[0]) && AllAllowed(Apply(w, moves[0]), node, moves[1..]))
  }

  ghost predicate Delivers(w: World, node: string) {
    && Increasing(w.produced, node)
    && Pipeline(w.produced, w.completed, w.queued)
    && ServerHolds(w.gateway, node, w.completed)
    && Admits(w.gateway, w.produced)
  }

  // ----- foreign steps

  /** From g to h nothing the gateway holds of the node has changed. */
  ghost predicate SameForNode(g: State, h: State, node: string) {
    && Last(h, node) == Last(g, node)
    && (forall k: Key :: k.0 == node ==> (k in h.frameHashes <==> k in g.frameHashes))
    && (forall k: Key :: k.0 == node && k in g.frameHashes && k in h.frameHashes ==>
          h.frameHashes[k] == g.frameHashes[k])
    && (g.frameHashes.Keys == g.analyses.Keys ==> h.frameHashes.Keys == h.analyses.Keys)
    && ((forall c :: c in g.inFlight ==> g.inFlight[c].frame.node != node) ==>
          forall c :: c in h.inFlight ==> h.inFlight[c].frame.node != node)
  }

  lemma ForeignStepIsInvisible(g: State, e: Event, node: string)
    requires IsForeign(g, e, node) && Enabled(g, e)
    requires forall c :: c in g.inFlight ==> g.inFlight[c].frame.node != node
    ensures SameForNode(g, Step(g, e), node)
  {
    match e
    case RegisterEvent(n, asset, rate) =>
    case CampaignEvent(campaign, n, asset) =>
    case ClaimEvent(call, f) => ForeignClaimIsInvisible(g, call, f, node);
    case CommitEvent(call, analysis) =>
    case RollbackEvent(call) =>
  }

  lemma ForeignClaimIsInvisible(g: State, call: nat, f: Frame, node: string)
    requires f.node != node
    ensures SameForNode(g, Claim(g, call, f), node)
  {
    hide AdmissionRefusal, IsLate, LateReply;
    match ClaimReply(g, f)
    case Claimed =>
    case Cached(_) =>
    case Rejected(reason) => RejectionIsInvisible(g, f, reason, node);
  }

  lemma RejectionIsInvisible(g: State, f: Frame, reason: Rejection, node: string)
    ensures SameForNode(g, CountRejection(g, f, reason), node)
  {
  }

  lemma ForeignStepKeepsServer(g: State, e: Event, node: string, completed: seq<Frame>)
    requires ServerHolds(g, node, completed) && IsForeign(g, e, node)
    ensures ServerHolds(Step(g, e), node, completed)
  {
    hide IsForeign, Last, Claim, Rollback, Commit, Register, RegisterCampaign;
    if Enabled(g, e) {
      ForeignStepIsInvisible(g, e, node);
      hide Step;
      FramesOfNode(completed, node);
      hide Increasing, LastOf;
    }
  }

  lemma RegistrationKeepsAdmission(g: State, n: string, asset: string, rate: real, x: Frame)
    requires AdmissionRefusal(g, x).None? && (n != x.node || g.nodes[n].asset == asset)
    ensures AdmissionRefusal(Register(g, n, asset, rate), x).None?
  {
  }

  lemma CampaignKeepsAdmission(g: State, campaign: string, n: string, asset: string, x: Frame)
    requires AdmissionRefusal(g, x).None?
    ensures AdmissionRefusal(RegisterCampaign(g, campaign, n, asset), x).None?
  {
  }

  lemma ForeignStepKeepsAdmission(g: State, e: Event, node: string, frames: seq<Frame>)
    requires Admits(g, frames) && IsForeign(g, e, node) && forall f :: f in frames ==> f.node == node
    ensures Admits(Step(g, e), frames)
  {
    hide AdmissionRefusal, Claim, Rollback, Register, RegisterCampaign, SameAdmission;
    if Enabled(g, e) {
      match e
      case RegisterEvent(n, asset, rate) =>
        forall x | x in frames
          ensures AdmissionRefusal(Register(g, n, asset, rate), x).None?
        {
          RegistrationKeepsAdmission(g, n, asset, rate, x);
        }
      case CampaignEvent(campaign, n, asset) =>
        forall x | x in frames
          ensures AdmissionRefusal(RegisterCampaign(g, campaign, n, asset), x).None?
        {
          CampaignKeepsAdmission(g, campaign, n, asset, x);
        }
      case ClaimEvent(call, f) =>
        ClaimKeepsAdmission(g, call, f);
        SameAdmissionSameRefusal(g, Claim(g, call, f), frames);
      case CommitEvent(call, analysis) =>
        CommitKeepsAdmission(g, call, analysis);
        SameAdmissionSameRefusal(g, Commit(g, call, analysis), frames);
      case RollbackEvent(call) =>
        RollbackKeepsAdmission(g, call);
        SameAdmissionSameRefusal(g, Rollback(g, call), frames);
    }
  }

  lemma CommitKeepsAdmission(g: State, call: nat, analysis: string)
    requires call in g.inFlight
    ensures SameAdmission(g, Commit(g, call, analysis))
  {
    SameAdmissionReflexive(g);
  }

  // ----- every run

  lemma MoveKeepsDelivery(w: World, node: string, m: Move)
    requires Delivers(w, node) && IsAllowed(w, node, m)
    ensures Delivers(Apply(w, m), node)
  {
    hide Increasing, Pipeline, ServerHolds, AdmissionRefusal, Attempt, NewlyCompleted, Step;
    match m
    case ProduceMove(f) =>
      ProduceKeepsPipeline(node, w.produced, w.completed, w.queued, f);
    case SendMove(call, fate) =>
      PipelineCovers(w.produced, w.completed, w.queued);
      assert w.queued[0] in w.queued;
      AttemptKeepsPipeline(w.gateway, call, node, w.produced, w.completed, w.queued, w.produced, fate);
    case OtherMove(e) =>
      ForeignStepKeepsServer(w.gateway, e, node, w.completed);
      FramesOfNode(w.produced, node);
      ForeignStepKeepsAdmission(w.gateway, e, node, w.produced);
  }

  lemma FramesOfNode(frames: seq<Frame>, node: string)
    requires Increasing(frames, node)
    ensures forall f :: f in frames ==> f.node == node
  {
  }

  lemma {:induction false} RunKeepsDelivery(w: World, node: string, moves: seq<Move>)
    requires Delivers(w, node) && AllAllowed(w, node, moves)
    ensures Delivers(RunFrom(w, moves), node)
    decreases moves
  {
    hide Delivers;
    if moves != [] {
      MoveKeepsDelivery(w, node, moves[0]);
      RunKeepsDelivery(Apply(w, moves[0]), node, moves[1..]);
    }
  }

  /** Exactly once, in order, whatever the network and the other nodes do: from a
      gateway that holds nothing of the node, after every run, every produced
      frame is completed or queued, the completed ones are a prefix in order, the
      queued ones are a suffix, only the head of the queue can be both and is then
      the gateway's last sequence, and the gateway's entries of the node are
      exactly the completed frames. */
  lemma EveryRunDeliversExactlyOnce(g: State, node: string, moves: seq<Move>)
    requires ServerHolds(g, node, []) && AllAllowed(World(g, [], [], []), node, moves)
    ensures var w := RunFrom(World(g, [], [], []), moves);
            && w.completed <= w.produced
            && (forall f :: f in w.produced <==> f in w.completed || f in w.queued)
            && |w.queued| <= |w.produced| && w.queued == w.produced[|w.produced| - |w.queued|..]
            && (forall f :: f in w.completed && f in w.queued ==>
                  f == w.queued[0] && f == w.completed[|w.completed| - 1] && Last(w.gateway, node) == Some(f.sequence))
            && (forall k :: k in w.gateway.frameHashes && k.0 == node
                  <==> exists f :: f in w.completed && KeyOf(f) == k)
            && (forall i, j :: 0 <= i < j < |w.completed| ==> w.completed[i].sequence < w.completed[j].sequence)
  {
    var start := World(g, [], [], []);
    var w := RunFrom(start, moves);
    RunKeepsDelivery(start, node, moves);
    PipelineMeansExactlyOnce(w.gateway, node, w.produced, w.completed, w.queued);
    hide Pipeline, AdmissionRefusal, RunFrom, AllAllowed;
    forall k | k in w.gateway.frameHashes && k.0 == node
      ensures exists f :: f in w.completed && KeyOf(f) == k
    {
      var f := w.gateway.frameHashes[k];
      assert f in w.completed && KeyOf(f) == k;
    }
    FramesOfNode(w.completed, node);
  }

  // ----- progress

  /** As soon as the network and the analysis stop failing, the queue drains, one
      frame a POST, and everything produced is completed. */
  lemma {:induction false} HonestNetworkDrains(w: World, node: string, call: nat, analysis: string)
    requires Delivers(w, node) && call !in w.gateway.inFlight
    ensures var moves := seq(|w.queued|, _ => SendMove(call, Answered(Some(analysis))));
            var end := RunFrom(w, moves);
            && AllAllowed(w, node, moves)
            && end.queued == [] && end.completed == end.produced == w.produced
    decreases |w.queued|
  {
    hide Apply, Attempt, ServerHolds, Increasing, AdmissionRefusal, NewlyCompleted;
    var m := SendMove(call, Answered(Some(analysis)));
    var moves := seq(|w.queued|, _ => m);
    if w.queued == [] {
      DrainedMeansComplete(w.produced, w.completed);
    } else {
      assert moves[0] == m;
      var next := Apply(w, m);
      OneDelivered(w, node, call, analysis);
      MoveKeepsDelivery(w, node, m);
      HonestNetworkDrains(next, node, call, analysis);
      assert moves[1..] == seq(|next.queued|, _ => m);
    }
  }

  lemma OneDelivered(w: World, node: string, call: nat, analysis: string)
    requires Delivers(w, node) && call !in w.gateway.inFlight && w.queued != []
    ensures var t := Apply(w, SendMove(call, Answered(Some(analysis))));
            t.queued == w.queued[1..] && t.produced == w.produced && t.gateway.inFlight == w.gateway.inFlight
  {
    var f := w.queued[0];
    PipelineCovers(w.produced, w.completed, w.queued);
    assert f in w.produced;
    HeadReply(w.gateway, node, w.produced, w.completed, w.queued);
    if ClaimReply(w.gateway, f).Claimed? {
      CallCompletes(w.gateway, call, f, analysis);
    }
  }
}
