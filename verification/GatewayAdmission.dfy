/** What the registry decides: who is admitted, why others are not, what is counted. */
module GatewayAdmission {
  import opened Wrappers
  import opened Gateway

  // ----- who is admitted

  predicate IsRegistered(g: State, node: string, asset: string) {
    node in g.nodes && g.nodes[node].asset == asset
  }

  predicate IsRunningFor(c: CampaignState, f: Frame) {
    c.active && c.node == f.node && c.asset == f.asset
  }

  predicate IsNewer(g: State, f: Frame) {
    f.node in g.lastSequence ==> f.sequence > g.lastSequence[f.node]
  }

  /** A frame is claimed exactly if its node is registered for its asset, its
      campaign, if it has one, is running for that node and asset, and its sequence
      exceeds the node's last one. */
  lemma ClaimedIff(g: State, f: Frame)
    ensures ClaimReply(g, f).Claimed? <==>
              && IsRegistered(g, f.node, f.asset)
              && (f.campaign.Some? ==>
                    f.campaign.value in g.campaigns && IsRunningFor(g.campaigns[f.campaign.value], f))
              && IsNewer(g, f)
  {
  }

  /** Each condition of the registry has its own refusal, in this order. */
  lemma RefusalIff(g: State, f: Frame)
    ensures ClaimReply(g, f) == Rejected(UnknownNode) <==> f.node !in g.nodes
    ensures ClaimReply(g, f) == Rejected(AssetMismatch) <==>
              f.node in g.nodes && !IsRegistered(g, f.node, f.asset)
    ensures ClaimReply(g, f) == Rejected(UnknownCampaign) <==>
              IsRegistered(g, f.node, f.asset) && f.campaign.Some? && f.campaign.value !in g.campaigns
    ensures ClaimReply(g, f) == Rejected(CampaignNotActive) <==>
              && IsRegistered(g, f.node, f.asset) && f.campaign.Some? && f.campaign.value in g.campaigns
              && !g.campaigns[f.campaign.value].active
    ensures ClaimReply(g, f) == Rejected(CampaignMismatch) <==>
              && IsRegistered(g, f.node, f.asset) && f.campaign.Some? && f.campaign.value in g.campaigns
              && g.campaigns[f.campaign.value].active && !IsRunningFor(g.campaigns[f.campaign.value], f)
  {
  }

  /** An admitted frame that is not newer: answered from the cache exactly if it is
      the completed last frame; otherwise refused for being older, for being in
      progress, or for its content. */
  lemma LateAnswerIff(g: State, f: Frame)
    requires Consistent(g) && AdmissionRefusal(g, f).None? && !IsNewer(g, f)
    ensures ClaimReply(g, f) == Rejected(StaleSequence) <==> f.sequence < g.lastSequence[f.node]
    ensures ClaimReply(g, f) == Rejected(BeingProcessed) <==>
              f.sequence == g.lastSequence[f.node] && KeyOf(f) !in g.frameHashes
    ensures ClaimReply(g, f) == Rejected(DifferentContent) <==>
              f.sequence == g.lastSequence[f.node] && KeyOf(f) in g.frameHashes && g.frameHashes[KeyOf(f)] != f
    ensures ClaimReply(g, f).Cached? <==>
              f.sequence == g.lastSequence[f.node] && KeyOf(f) in g.frameHashes && g.frameHashes[KeyOf(f)] == f
  {
    assert CachesAgree(g.frameHashes, g.analyses);
  }

  // ----- what a claim changes

  predicate SameElsewhere<T(==)>(a: map<string, T>, b: map<string, T>, k: string) {
    a.Keys == b.Keys && forall x :: x in a && x != k ==> b[x] == a[x]
  }

  /** A refusal raises the rejected counter of a known node by one, and that of the
      campaign if the campaign is the reason; nothing else changes. */
  lemma RefusalCounts(g: State, call: nat, f: Frame)
    requires ClaimReply(g, f).Rejected?
    ensures var h, reason := Claim(g, call, f), ClaimReply(g, f).reason;
            && h.lastSequence == g.lastSequence && h.frameHashes == g.frameHashes
            && h.analyses == g.analyses && h.inFlight == g.inFlight
            && SameElsewhere(g.nodes, h.nodes, f.node)
            && (f.node in g.nodes ==>
                  h.nodes[f.node] == g.nodes[f.node].(rejected := g.nodes[f.node].rejected + 1))
            && (if reason.CampaignNotActive? || reason.CampaignMismatch?
                then
                  var m := f.campaign.value;
                  && f.campaign.Some? && m in g.campaigns && SameElsewhere(g.campaigns, h.campaigns, m)
                  && h.campaigns[m] == g.campaigns[m].(rejected := g.campaigns[m].rejected + 1)
                else h.campaigns == g.campaigns)
  {
    RefusalIff(g, f);
    hide ClaimReply, IsRegistered, IsRunningFor;
  }

  lemma CachedChangesNothing(g: State, call: nat, f: Frame)
    requires ClaimReply(g, f).Cached?
    ensures Claim(g, call, f) == g
  {
  }

  /** The rate is off by more than five per cent of the nominal one. */
  predicate IsOffRate(rate: real, nominal: real) {
    var base := if nominal < 0.000000001 then 0.000000001 else nominal;
    20.0 * rate > 20.0 * nominal + base || 20.0 * rate < 20.0 * nominal - base
  }

  lemma QuotientAbove(x: real, d: real, c: real)
    requires d > 0.0
    ensures x / d > c <==> x > c * d
  {
    var q := x / d;
    assert q * d == x;
    if q > c {
      assert (q - c) * d > 0.0;
    } else {
      assert (c - q) * d >= 0.0;
    }
  }

  lemma OffRateIff(n: NodeState, f: Frame)
    ensures AddReceivedNode(n, f).degraded <==> n.degraded || IsOffRate(f.sampleRate, n.nominalRate)
  {
    var base := Max(n.nominalRate, 0.000000001);
    var off := Abs(f.sampleRate - n.nominalRate);
    QuotientAbove(off, base, 0.05);
    assert AddReceivedNode(n, f).degraded == (n.degraded || off / base > 0.05);
    hide AddReceivedNode;
    assert off > 0.05 * base <==> 20.0 * off > base;
  }

  /** A claim counts the frame for its node and its campaign, degrades a node whose
      rate is off, and moves the last sequence; nothing else changes. */
  lemma ClaimCounts(g: State, call: nat, f: Frame)
    requires ClaimReply(g, f).Claimed?
    ensures var h := Claim(g, call, f);
            && SameElsewhere(g.nodes, h.nodes, f.node)
            && h.nodes[f.node].asset == g.nodes[f.node].asset
            && h.nodes[f.node].nominalRate == g.nodes[f.node].nominalRate
            && h.nodes[f.node].received == g.nodes[f.node].received + 1
            && h.nodes[f.node].rejected == g.nodes[f.node].rejected
            && (h.nodes[f.node].degraded <==>
                  g.nodes[f.node].degraded || IsOffRate(f.sampleRate, g.nodes[f.node].nominalRate))
            && (if f.campaign.None? then h.campaigns == g.campaigns
                else
                  var m := f.campaign.value;
                  && m in g.campaigns && SameElsewhere(g.campaigns, h.campaigns, m)
                  && h.campaigns[m] == g.campaigns[m].(received := g.campaigns[m].received + 1))
            && h.lastSequence == g.lastSequence[f.node := f.sequence]
            && h.frameHashes == g.frameHashes && h.analyses == g.analyses
            && h.inFlight == g.inFlight[call := Ticket(f, Last(g, f.node))]
  {
    OffRateIff(g.nodes[f.node], f);
    hide IsOffRate;
  }

  lemma RewindsToBefore(g: State, f: Frame)
    ensures LastAfterRollback(g.lastSequence[f.node := f.sequence], Ticket(f, Last(g, f.node))) == g.lastSequence
  {
  }

  lemma AcceptThenRollback(g: State, call: nat, f: Frame)
    requires f.node in g.nodes && g.nodes[f.node].received >= 0 && call !in g.inFlight
    requires f.campaign.Some? ==> f.campaign.value in g.campaigns && g.campaigns[f.campaign.value].received >= 0
    ensures var n := AddReceivedNode(g.nodes[f.node], f);
            Rollback(Accept(g, call, f), call)
            == g.(nodes := g.nodes[f.node := g.nodes[f.node].(degraded := n.degraded)])
  {
    hide LastAfterRollback, Last, Abs, Max;
    var m := Accept(g, call, f);
    RewindsToBefore(g, f);
    assert m.inFlight - {call} == g.inFlight;
    var h := Rollback(m, call);
    var n := AddReceivedNode(g.nodes[f.node], f);
    hide Rollback, Accept, AddReceivedNode;
    assert h.campaigns == g.campaigns by {
      CampaignsGoBack(g, call, f);
    }
    assert h.nodes == g.nodes[f.node := g.nodes[f.node].(degraded := n.degraded)] by {
      NodesGoBack(g, call, f);
    }
    TablesGoBack(g, call, f);
  }

  lemma CampaignsGoBack(g: State, call: nat, f: Frame)
    requires f.node in g.nodes
    requires f.campaign.Some? ==> f.campaign.value in g.campaigns && g.campaigns[f.campaign.value].received >= 0
    ensures Rollback(Accept(g, call, f), call).campaigns == g.campaigns
  {
    hide LastAfterRollback, Last, AddReceivedNode;
  }

  lemma NodesGoBack(g: State, call: nat, f: Frame)
    requires f.node in g.nodes && g.nodes[f.node].received >= 0
    requires f.campaign.Some? ==> f.campaign.value in g.campaigns
    ensures Rollback(Accept(g, call, f), call).nodes
         == g.nodes[f.node := g.nodes[f.node].(degraded := AddReceivedNode(g.nodes[f.node], f).degraded)]
  {
    hide LastAfterRollback, Last, Abs, Max;
  }

  lemma TablesGoBack(g: State, call: nat, f: Frame)
    requires f.node in g.nodes && call !in g.inFlight
    requires f.campaign.Some? ==> f.campaign.value in g.campaigns
    ensures var h := Rollback(Accept(g, call, f), call);
            && h.lastSequence == g.lastSequence && h.inFlight == g.inFlight
            && h.frameHashes == g.frameHashes && h.analyses == g.analyses
  {
    hide AddReceivedNode, LastAfterRollback, Last;
    RewindsToBefore(g, f);
    assert Accept(g, call, f).inFlight - {call} == g.inFlight;
  }

  /** A claim that fails before anything else happens leaves no trace but the
      degraded mark of its node. */
  lemma FailedClaimLeavesNoTrace(g: State, call: nat, f: Frame)
    requires Consistent(g) && ClaimReply(g, f).Claimed? && call !in g.inFlight
    ensures call in Claim(g, call, f).inFlight
    ensures var h, n := Rollback(Claim(g, call, f), call), g.nodes[f.node];
            h == g.(nodes := g.nodes[f.node :=
                      n.(degraded := n.degraded || IsOffRate(f.sampleRate, n.nominalRate))])
  {
    ClaimedIff(g, f);
    assert g.nodes[f.node].received == Count(g.frameHashes, g.inFlight, OfNode(f.node));
    if f.campaign.Some? {
      assert g.campaigns[f.campaign.value].received == Count(g.frameHashes, g.inFlight, OfCampaign(f.campaign.value));
    }
    assert Claim(g, call, f) == Accept(g, call, f);
    hide Consistent, ClaimReply, IsOffRate, Count, Claim, Rollback;
    OffRateIff(g.nodes[f.node], f);
    AcceptThenRollback(g, call, f);
  }

  // ----- registration and the frames it lets in

  /** After a registration exactly the frames of that asset pass the node's check. */
  lemma RegisteredNodeAdmits(g: State, node: string, asset: string, rate: real, f: Frame)
    requires f.node == node && f.campaign.None? && IsNewer(g, f)
    ensures ClaimReply(Register(g, node, asset, rate), f)
         == if f.asset == asset then Claimed else Rejected(AssetMismatch)
  {
  }

  /** Registration replaces asset and rate, clears the degraded mark, keeps the
      counters of a known node, and touches nothing else. */
  lemma RegistrationStores(g: State, node: string, asset: string, rate: real)
    ensures var h := Register(g, node, asset, rate);
            && h == g.(nodes := h.nodes) && h.nodes.Keys == g.nodes.Keys + {node}
            && (forall x :: x in g.nodes && x != node ==> h.nodes[x] == g.nodes[x])
            && h.nodes[node].asset == asset && h.nodes[node].nominalRate == rate && !h.nodes[node].degraded
            && h.nodes[node].received == (if node in g.nodes then g.nodes[node].received else 0)
            && h.nodes[node].rejected == (if node in g.nodes then g.nodes[node].rejected else 0)
  {
  }

  /** A campaign is accepted exactly if its node is registered for its asset and it
      is not running already; then, and only then, it is stored, with zero counts. */
  lemma CampaignAcceptedIff(g: State, campaign: string, node: string, asset: string)
    ensures CampaignRefusal(g, campaign, node, asset).None? <==>
              IsRegistered(g, node, asset) && !(campaign in g.campaigns && g.campaigns[campaign].active)
    ensures CampaignRefusal(g, campaign, node, asset) == Some(UnknownNode) <==> node !in g.nodes
    ensures CampaignRefusal(g, campaign, node, asset) == Some(AssetMismatch) <==>
              node in g.nodes && !IsRegistered(g, node, asset)
    ensures CampaignRefusal(g, campaign, node, asset).Some? ==> RegisterCampaign(g, campaign, node, asset) == g
  {
  }

  /** Right after its registration a campaign lets in the newer frames of its node
      and asset. */
  lemma AcceptedCampaignAdmits(g: State, campaign: string, node: string, asset: string, f: Frame)
    requires CampaignRefusal(g, campaign, node, asset).None?
    requires f.node == node && f.asset == asset && f.campaign == Some(campaign) && IsNewer(g, f)
    ensures ClaimReply(RegisterCampaign(g, campaign, node, asset), f).Claimed?
    ensures RegisterCampaign(g, campaign, node, asset).campaigns[campaign].received == 0
    ensures RegisterCampaign(g, campaign, node, asset).campaigns[campaign].rejected == 0
  {
  }

  // ----- over whole runs: campaigns and their frames

  predicate IsOfCampaign(campaigns: map<string, CampaignState>, f: Frame) {
    f.campaign.Some? ==>
      && f.campaign.value in campaigns
      && campaigns[f.campaign.value].node == f.node && campaigns[f.campaign.value].asset == f.asset
  }

  /** Every completed or running frame is of the node and asset of its campaign. */
  predicate CampaignsMatch(g: State) {
    && AllActive(g.campaigns)
    && (forall k :: k in g.frameHashes ==> IsOfCampaign(g.campaigns, g.frameHashes[k]))
    && (forall c :: c in g.inFlight ==> IsOfCampaign(g.campaigns, g.inFlight[c].frame))
  }

  /** Campaigns keep their node and asset. */
  predicate CampaignsStay(a: map<string, CampaignState>, b: map<string, CampaignState>) {
    forall m :: m in a ==> m in b && b[m].node == a[m].node && b[m].asset == a[m].asset && b[m].active == a[m].active
  }

  lemma StepKeepsCampaigns(g: State, e: Event)
    requires AllActive(g.campaigns)
    ensures CampaignsStay(g.campaigns, Step(g, e).campaigns) && AllActive(Step(g, e).campaigns)
  {
    if e.ClaimEvent? && Enabled(g, e) {
      if ClaimReply(g, e.frame).Claimed? {
        ClaimCounts(g, e.call, e.frame);
      } else if ClaimReply(g, e.frame).Cached? {
        CachedChangesNothing(g, e.call, e.frame);
      } else {
        RefusalCounts(g, e.call, e.frame);
      }
    }
    hide Claim, ClaimReply, CampaignRefusal;
  }

  lemma StepKeepsFrames(g: State, e: Event)
    ensures var h := Step(g, e);
            && (forall k :: k in h.frameHashes ==>
                  || (k in g.frameHashes && h.frameHashes[k] == g.frameHashes[k])
                  || (exists c :: c in g.inFlight && h.frameHashes[k] == g.inFlight[c].frame))
            && (forall c :: c in h.inFlight ==>
                  || (c in g.inFlight && h.inFlight[c].frame == g.inFlight[c].frame)
                  || (e.ClaimEvent? && h.inFlight[c].frame == e.frame && ClaimReply(g, e.frame).Claimed?))
  {
    hide AddReceivedNode, AdmissionRefusal, IsLate, LateReply;
  }

  lemma StepKeepsMatch(g: State, e: Event)
    requires CampaignsMatch(g)
    ensures CampaignsMatch(Step(g, e))
  {
    StepKeepsCampaigns(g, e);
    StepKeepsFrames(g, e);
    if e.ClaimEvent? {
      ClaimedIff(g, e.frame);
    }
    hide Step, ClaimReply;
  }

  /** In every run a frame that carries a campaign is of that campaign's node and asset. */
  lemma {:induction false} EveryRunMatchesCampaigns(events: seq<Event>)
    ensures CampaignsMatch(Run(events))
  {
    if events != [] {
      EveryRunMatchesCampaigns(events[..|events| - 1]);
      StepKeepsMatch(Run(events[..|events| - 1]), events[|events| - 1]);
    }
  }

  // ----- over whole runs: rejected frames and cached answers

  predicate IsCountedRefusal(g: State, e: Event, node: string) {
    && e.ClaimEvent? && Enabled(g, e) && e.frame.node == node
    && ClaimReply(g, e.frame).Rejected? && node in g.nodes
  }

  /** How many frames of a node were refused while it was known. */
  function Refusals(events: seq<Event>, node: string): nat {
    if events == [] then 0
    else
      var init, e := events[..|events| - 1], events[|events| - 1];
      Refusals(init, node) + One(IsCountedRefusal(Run(init), e, node))
  }

  lemma StepCountsRefusals(g: State, e: Event, node: string)
    ensures node in g.nodes ==> node in Step(g, e).nodes
    ensures node in Step(g, e).nodes ==>
              Step(g, e).nodes[node].rejected
              == (if node in g.nodes then g.nodes[node].rejected else 0) + One(IsCountedRefusal(g, e, node))
  {
    if e.ClaimEvent? && Enabled(g, e) {
      var f := e.frame;
      if ClaimReply(g, f).Claimed? {
        ClaimedIff(g, f);
        ClaimCounts(g, e.call, f);
      } else if ClaimReply(g, f).Cached? {
        CachedChangesNothing(g, e.call, f);
      } else {
        RefusalIff(g, f);
        RefusalCounts(g, e.call, f);
      }
      hide Claim, ClaimReply;
    }
  }

  /** Every refusal of a known node's frame is counted once, registrations included
      in between, and nothing else is counted. */
  lemma {:induction false} EveryRunCountsRefusals(events: seq<Event>, node: string)
    ensures if node in Run(events).nodes then Run(events).nodes[node].rejected == Refusals(events, node)
            else Refusals(events, node) == 0
  {
    if events != [] {
      var init, e := events[..|events| - 1], events[|events| - 1];
      EveryRunCountsRefusals(init, node);
      StepCountsRefusals(Run(init), e, node);
      hide Step, IsCountedRefusal;
    }
  }

  /** Event n committed the frame that is cached under k, with the cached answer. */
  predicate IsCommittedAt(events: seq<Event>, n: nat, k: Key, f: Frame, analysis: string)
    requires n < |events|
  {
    var g := Run(events[..n]);
    && events[n].CommitEvent? && Enabled(g, events[n]) && events[n].analysis == analysis
    && g.inFlight[events[n].call].frame == f && KeyOf(f) == k
  }

  /** A cached answer is the one that a commit of this very frame gave. */
  lemma {:induction false} CachedIsCommitted(events: seq<Event>, k: Key) returns (n: nat)
    requires k in Run(events).frameHashes && k in Run(events).analyses
    ensures n < |events| && IsCommittedAt(events, n, k, Run(events).frameHashes[k], Run(events).analyses[k])
  {
    var init, e := events[..|events| - 1], events[|events| - 1];
    var g := Run(init);
    if e.CommitEvent? && Enabled(g, e) && KeyOf(g.inFlight[e.call].frame) == k {
      n := |init|;
    } else {
      CommitsOnlyItsKey(g, e, k);
      n := CachedIsCommitted(init, k);
      assert init[..n] == events[..n];
    }
  }

  lemma CommitsOnlyItsKey(g: State, e: Event, k: Key)
    requires !(e.CommitEvent? && Enabled(g, e) && KeyOf(g.inFlight[e.call].frame) == k)
    requires k in Step(g, e).frameHashes && k in Step(g, e).analyses
    ensures k in g.frameHashes && k in g.analyses
    ensures Step(g, e).frameHashes[k] == g.frameHashes[k] && Step(g, e).analyses[k] == g.analyses[k]
  {
    hide AddReceivedNode, AdmissionRefusal, IsLate, LateReply;
  }
}
