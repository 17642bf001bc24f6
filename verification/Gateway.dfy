/** The ingest protocol of the bench gateway as a state machine. */
module Gateway {
  import opened Wrappers

  // One `ingest` call is three steps with arbitrary other steps in between: a
  // claim under the lock, the analysis without it, and a commit or a rollback
  // under the lock.

  /** The content hash is taken to be injective, so a frame is its own hash. */
  datatype Frame = Frame(
    node: string, asset: string, campaign: Option<string>, sequence: nat, sampleRate: real, payload: string)

  type Key = (string, nat)

  function KeyOf(f: Frame): Key { (f.node, f.sequence) }

  datatype NodeState = NodeState(asset: string, nominalRate: real, degraded: bool, received: int, rejected: nat)

  datatype CampaignState = CampaignState(node: string, asset: string, active: bool, received: int, rejected: nat)

  /** What a running call holds between its two critical sections. */
  datatype Ticket = Ticket(frame: Frame, previous: Option<nat>)

  datatype State = State(
    nodes: map<string, NodeState>,
    campaigns: map<string, CampaignState>,
    lastSequence: map<string, nat>,
    frameHashes: map<Key, Frame>,
    analyses: map<Key, string>,
    inFlight: map<nat, Ticket>)

  const Initial := State(map[], map[], map[], map[], map[], map[])

  datatype Rejection =
    | UnknownNode | AssetMismatch | UnknownCampaign | CampaignNotActive | CampaignMismatch
    | BeingProcessed | DifferentContent | StaleSequence | CampaignAlreadyActive

  datatype Reply = Claimed | Cached(analysis: string) | Rejected(reason: Rejection)

  // ----- registration

  function Register(g: State, node: string, asset: string, rate: real): State {
    var received := if node in g.nodes then g.nodes[node].received else 0;
    var rejected := if node in g.nodes then g.nodes[node].rejected else 0;
    g.(nodes := g.nodes[node := NodeState(asset, rate, false, received, rejected)])
  }

  function CampaignRefusal(g: State, campaign: string, node: string, asset: string): Option<Rejection> {
    if node !in g.nodes then Some(UnknownNode)
    else if g.nodes[node].asset != asset then Some(AssetMismatch)
    else if campaign in g.campaigns && g.campaigns[campaign].active then Some(CampaignAlreadyActive)
    else None
  }

  function RegisterCampaign(g: State, campaign: string, node: string, asset: string): State {
    if CampaignRefusal(g, campaign, node, asset).Some? then g
    else g.(campaigns := g.campaigns[campaign := CampaignState(node, asset, true, 0, 0)])
  }

  // ----- the first critical section

  /** The admission checks, in the order of the code. */
  function AdmissionRefusal(g: State, f: Frame): Option<Rejection> {
    if f.node !in g.nodes then Some(UnknownNode)
    else if g.nodes[f.node].asset != f.asset then Some(AssetMismatch)
    else if f.campaign.None? then None
    else if f.campaign.value !in g.campaigns then Some(UnknownCampaign)
    else if !g.campaigns[f.campaign.value].active then Some(CampaignNotActive)
    else if g.campaigns[f.campaign.value].node != f.node || g.campaigns[f.campaign.value].asset != f.asset
    then Some(CampaignMismatch)
    else None
  }

  function Last(g: State, node: string): Option<nat> {
    if node in g.lastSequence then Some(g.lastSequence[node]) else None
  }

  predicate IsLate(g: State, f: Frame) {
    Last(g, f.node).Some? && f.sequence <= Last(g, f.node).value
  }

  /** The reply to a frame whose sequence does not exceed the node's last one. */
  function LateReply(g: State, f: Frame): Reply
    requires IsLate(g, f)
  {
    if f.sequence < Last(g, f.node).value then Rejected(StaleSequence)
    else if KeyOf(f) !in g.frameHashes then Rejected(BeingProcessed)
    else if g.frameHashes[KeyOf(f)] != f then Rejected(DifferentContent)
    else if KeyOf(f) !in g.analyses then Rejected(DifferentContent)
    else Cached(g.analyses[KeyOf(f)])
  }

  function ClaimReply(g: State, f: Frame): Reply {
    if AdmissionRefusal(g, f).Some? then Rejected(AdmissionRefusal(g, f).value)
    else if IsLate(g, f) then LateReply(g, f)
    else Claimed
  }

  function CountRejection(g: State, f: Frame, reason: Rejection): State {
    var g1 :=
      if f.node !in g.nodes then g
      else g.(nodes := g.nodes[f.node := g.nodes[f.node].(rejected := g.nodes[f.node].rejected + 1)]);
    if reason in {CampaignNotActive, CampaignMismatch} && f.campaign.Some? && f.campaign.value in g.campaigns then
      var c := f.campaign.value;
      g1.(campaigns := g1.campaigns[c := g1.campaigns[c].(rejected := g1.campaigns[c].rejected + 1)])
    else g1
  }

  function Abs(x: real): real { if x < 0.0 then -x else x }

  function Max(x: real, y: real): real { if x < y then y else x }

  function AddReceivedNode(n: NodeState, f: Frame): NodeState {
    n.(received := n.received + 1,
       degraded := n.degraded || Abs(f.sampleRate - n.nominalRate) / Max(n.nominalRate, 0.000000001) > 0.05)
  }

  function Accept(g: State, call: nat, f: Frame): State
    requires f.node in g.nodes
    requires f.campaign.Some? ==> f.campaign.value in g.campaigns
  {
    State(
      g.nodes[f.node := AddReceivedNode(g.nodes[f.node], f)],
      if f.campaign.None? then g.campaigns
      else
        var c := f.campaign.value;
        g.campaigns[c := g.campaigns[c].(received := g.campaigns[c].received + 1)],
      g.lastSequence[f.node := f.sequence],
      g.frameHashes,
      g.analyses,
      g.inFlight[call := Ticket(f, Last(g, f.node))])
  }

  function Claim(g: State, call: nat, f: Frame): State {
    match ClaimReply(g, f)
    case Claimed => Accept(g, call, f)
    case Cached(_) => g
    case Rejected(reason) => CountRejection(g, f, reason)
  }

  // ----- the second critical section

  function Commit(g: State, call: nat, analysis: string): State
    requires call in g.inFlight
  {
    var f := g.inFlight[call].frame;
    g.(frameHashes := g.frameHashes[KeyOf(f) := f],
       analyses := g.analyses[KeyOf(f) := analysis],
       inFlight := g.inFlight - {call})
  }

  /** The sequence goes back only if the failed frame is still the last one. */
  function LastAfterRollback(last: map<string, nat>, t: Ticket): map<string, nat> {
    if t.frame.node !in last || last[t.frame.node] != t.frame.sequence then last
    else if t.previous.None? then last - {t.frame.node}
    else last[t.frame.node := t.previous.value]
  }

  function Decrement(n: int): int { if n - 1 < 0 then 0 else n - 1 }

  function Rollback(g: State, call: nat): State
    requires call in g.inFlight
  {
    var t := g.inFlight[call];
    var f := t.frame;
    State(
      if f.node in g.nodes
      then g.nodes[f.node := g.nodes[f.node].(received := Decrement(g.nodes[f.node].received))]
      else g.nodes,
      if f.campaign.Some? && f.campaign.value in g.campaigns then
        var c := f.campaign.value;
        g.campaigns[c := g.campaigns[c].(received := Decrement(g.campaigns[c].received))]
      else g.campaigns,
      LastAfterRollback(g.lastSequence, t),
      g.frameHashes,
      g.analyses,
      g.inFlight - {call})
  }

  // ----- the invariant, one concern at a time

  predicate CachesAgree(hashes: map<Key, Frame>, analyses: map<Key, string>) {
    && hashes.Keys == analyses.Keys
    && forall k :: k in hashes ==> KeyOf(hashes[k]) == k
  }

  predicate FrameKnown(nodes: set<string>, campaigns: set<string>, f: Frame) {
    f.node in nodes && (f.campaign.Some? ==> f.campaign.value in campaigns)
  }

  predicate FramesKnown(
    nodes: set<string>, campaigns: set<string>, hashes: map<Key, Frame>, inFlight: map<nat, Ticket>)
  {
    && (forall k :: k in hashes ==> FrameKnown(nodes, campaigns, hashes[k]))
    && (forall c :: c in inFlight ==> FrameKnown(nodes, campaigns, inFlight[c].frame))
  }

  predicate AllActive(campaigns: map<string, CampaignState>) {
    forall m :: m in campaigns ==> campaigns[m].active
  }

  predicate AtMostLast(last: map<string, nat>, k: Key) {
    k.0 in last && k.1 <= last[k.0]
  }

  /** The last sequence is at least every completed and every in-flight one. */
  predicate LastBounds(last: map<string, nat>, done: set<Key>, inFlight: map<nat, Ticket>) {
    && (forall k :: k in done ==> AtMostLast(last, k))
    && (forall c :: c in inFlight ==> AtMostLast(last, KeyOf(inFlight[c].frame)))
  }

  /** k is not between the ticket's previous sequence and its own. */
  predicate Apart(t: Ticket, k: Key) {
    k.0 == t.frame.node ==> k.1 > t.frame.sequence || (t.previous.Some? && k.1 <= t.previous.value)
  }

  predicate GoesBack(t: Ticket) {
    t.previous.Some? ==> t.previous.value < t.frame.sequence
  }

  /** Nothing else is completed or in flight between a ticket and the sequence it
      would be rolled back to. */
  predicate TicketsApart(done: set<Key>, inFlight: map<nat, Ticket>) {
    && (forall c :: c in inFlight ==> GoesBack(inFlight[c]))
    && (forall c, k :: c in inFlight && k in done ==> Apart(inFlight[c], k))
    && (forall c, d :: c in inFlight && d in inFlight && c != d ==> Apart(inFlight[c], KeyOf(inFlight[d].frame)))
  }

  /** Whose counter a frame belongs to. */
  datatype Owner = OfNode(node: string) | OfCampaign(campaign: string)

  predicate Belongs(f: Frame, o: Owner) {
    match o
    case OfNode(n) => f.node == n
    case OfCampaign(m) => f.campaign == Some(m)
  }

  function CompletedOf(hashes: map<Key, Frame>, o: Owner): set<Key> {
    set k | k in hashes && Belongs(hashes[k], o)
  }

  function InFlightOf(inFlight: map<nat, Ticket>, o: Owner): set<nat> {
    set c | c in inFlight && Belongs(inFlight[c].frame, o)
  }

  function Count(hashes: map<Key, Frame>, inFlight: map<nat, Ticket>, o: Owner): nat {
    |CompletedOf(hashes, o)| + |InFlightOf(inFlight, o)|
  }

  /** Frame conservation: received = completed + in flight. */
  predicate NodesCounted(nodes: map<string, NodeState>, hashes: map<Key, Frame>, inFlight: map<nat, Ticket>) {
    forall n :: n in nodes ==> nodes[n].received == Count(hashes, inFlight, OfNode(n))
  }

  predicate CampaignsCounted(
    campaigns: map<string, CampaignState>, hashes: map<Key, Frame>, inFlight: map<nat, Ticket>)
  {
    forall m :: m in campaigns ==> campaigns[m].received == Count(hashes, inFlight, OfCampaign(m))
  }

  predicate Consistent(g: State) {
    && CachesAgree(g.frameHashes, g.analyses)
    && FramesKnown(g.nodes.Keys, g.campaigns.Keys, g.frameHashes, g.inFlight)
    && AllActive(g.campaigns)
    && LastBounds(g.lastSequence, g.frameHashes.Keys, g.inFlight)
    && TicketsApart(g.frameHashes.Keys, g.inFlight)
    && NodesCounted(g.nodes, g.frameHashes, g.inFlight)
    && CampaignsCounted(g.campaigns, g.frameHashes, g.inFlight)
  }

  // ----- the counters

  function One(b: bool): nat { if b then 1 else 0 }

  lemma CountClaim(hashes: map<Key, Frame>, inFlight: map<nat, Ticket>, call: nat, t: Ticket, o: Owner)
    requires call !in inFlight
    ensures Count(hashes, inFlight[call := t], o) == Count(hashes, inFlight, o) + One(Belongs(t.frame, o))
  {
    assert InFlightOf(inFlight[call := t], o) == InFlightOf(inFlight, o) + if Belongs(t.frame, o) then {call} else {};
  }

  lemma CountDrop(hashes: map<Key, Frame>, inFlight: map<nat, Ticket>, call: nat, o: Owner)
    requires call in inFlight
    ensures Count(hashes, inFlight - {call}, o) == Count(hashes, inFlight, o) - One(Belongs(inFlight[call].frame, o))
  {
    assert InFlightOf(inFlight - {call}, o) == InFlightOf(inFlight, o) - {call};
    assert call in InFlightOf(inFlight, o) <==> Belongs(inFlight[call].frame, o);
  }

  lemma CountCommit(hashes: map<Key, Frame>, inFlight: map<nat, Ticket>, call: nat, o: Owner)
    requires call in inFlight && KeyOf(inFlight[call].frame) !in hashes
    ensures var f := inFlight[call].frame;
            Count(hashes[KeyOf(f) := f], inFlight - {call}, o) == Count(hashes, inFlight, o)
  {
    var f := inFlight[call].frame;
    CountDrop(hashes, inFlight, call, o);
    assert CompletedOf(hashes[KeyOf(f) := f], o) == CompletedOf(hashes, o) + if Belongs(f, o) then {KeyOf(f)} else {};
  }

  predicate IsUnknownOwner(o: Owner, nodes: set<string>, campaigns: set<string>) {
    match o
    case OfNode(n) => n !in nodes
    case OfCampaign(m) => m !in campaigns
  }

  lemma CountNone(
    hashes: map<Key, Frame>, inFlight: map<nat, Ticket>, nodes: set<string>, campaigns: set<string>, o: Owner)
    requires FramesKnown(nodes, campaigns, hashes, inFlight)
    requires IsUnknownOwner(o, nodes, campaigns)
    ensures Count(hashes, inFlight, o) == 0
  {
    assert forall k :: k in hashes ==> FrameKnown(nodes, campaigns, hashes[k]);
    assert CompletedOf(hashes, o) == {};
    assert InFlightOf(inFlight, o) == {};
  }

  lemma NodesRecounted(
    nodes: map<string, NodeState>, node: string, x: NodeState,
    hashes: map<Key, Frame>, inFlight: map<nat, Ticket>, hashes': map<Key, Frame>, inFlight': map<nat, Ticket>)
    requires NodesCounted(nodes, hashes, inFlight)
    requires x.received == Count(hashes', inFlight', OfNode(node))
    requires forall n :: n != node ==> Count(hashes', inFlight', OfNode(n)) == Count(hashes, inFlight, OfNode(n))
    ensures NodesCounted(nodes[node := x], hashes', inFlight')
  {
  }

  lemma CampaignsRecounted(
    campaigns: map<string, CampaignState>, campaign: string, x: CampaignState,
    hashes: map<Key, Frame>, inFlight: map<nat, Ticket>, hashes': map<Key, Frame>, inFlight': map<nat, Ticket>)
    requires CampaignsCounted(campaigns, hashes, inFlight) && AllActive(campaigns) && x.active
    requires x.received == Count(hashes', inFlight', OfCampaign(campaign))
    requires forall m :: m != campaign ==>
               Count(hashes', inFlight', OfCampaign(m)) == Count(hashes, inFlight, OfCampaign(m))
    ensures CampaignsCounted(campaigns[campaign := x], hashes', inFlight') && AllActive(campaigns[campaign := x])
  {
  }

  // ----- every step keeps the invariant

  lemma RejectionKeepsConsistent(g: State, f: Frame, reason: Rejection)
    requires Consistent(g)
    ensures Consistent(CountRejection(g, f, reason))
  {
    hide LastBounds, TicketsApart, FramesKnown, CachesAgree, NodesCounted, CampaignsCounted, AllActive;
    var h := CountRejection(g, f, reason);
    if f.node in g.nodes {
      NodeRejectionKeepsCounts(g.nodes, f.node, g.frameHashes, g.inFlight);
    }
    if f.campaign.Some? && f.campaign.value in g.campaigns {
      CampaignRejectionKeepsCounts(g.campaigns, f.campaign.value, g.frameHashes, g.inFlight);
    }
    assert h.nodes.Keys == g.nodes.Keys && h.campaigns.Keys == g.campaigns.Keys;
  }

  lemma NodeRejectionKeepsCounts(
    nodes: map<string, NodeState>, node: string, hashes: map<Key, Frame>, inFlight: map<nat, Ticket>)
    requires NodesCounted(nodes, hashes, inFlight) && node in nodes
    ensures NodesCounted(nodes[node := nodes[node].(rejected := nodes[node].rejected + 1)], hashes, inFlight)
  {
    hide Count;
  }

  lemma CampaignRejectionKeepsCounts(
    campaigns: map<string, CampaignState>, m: string, hashes: map<Key, Frame>, inFlight: map<nat, Ticket>)
    requires CampaignsCounted(campaigns, hashes, inFlight) && AllActive(campaigns) && m in campaigns
    ensures var more := campaigns[m := campaigns[m].(rejected := campaigns[m].rejected + 1)];
            CampaignsCounted(more, hashes, inFlight) && AllActive(more)
  {
    hide Count;
  }

  lemma AcceptKeepsOrder(last: map<string, nat>, done: set<Key>, inFlight: map<nat, Ticket>, call: nat, t: Ticket)
    requires LastBounds(last, done, inFlight) && TicketsApart(done, inFlight)
    requires call !in inFlight && GoesBack(t)
    requires t.previous == if t.frame.node in last then Some(last[t.frame.node]) else None
    ensures LastBounds(last[t.frame.node := t.frame.sequence], done, inFlight[call := t])
    ensures TicketsApart(done, inFlight[call := t])
  {
    forall k | AtMostLast(last, k)
      ensures Apart(t, k) && AtMostLast(last[t.frame.node := t.frame.sequence], k)
    {}
    forall c | c in inFlight
      ensures Apart(inFlight[c], KeyOf(t.frame))
    {
      assert AtMostLast(last, KeyOf(inFlight[c].frame));
    }
  }

  lemma AcceptKeepsCounts(g: State, call: nat, f: Frame)
    requires NodesCounted(g.nodes, g.frameHashes, g.inFlight)
    requires CampaignsCounted(g.campaigns, g.frameHashes, g.inFlight) && AllActive(g.campaigns)
    requires call !in g.inFlight && FrameKnown(g.nodes.Keys, g.campaigns.Keys, f)
    ensures var h := Accept(g, call, f);
            && NodesCounted(h.nodes, h.frameHashes, h.inFlight)
            && CampaignsCounted(h.campaigns, h.frameHashes, h.inFlight) && AllActive(h.campaigns)
  {
    hide Count;
    var h := Accept(g, call, f);
    forall o
      ensures Count(h.frameHashes, h.inFlight, o) == Count(g.frameHashes, g.inFlight, o) + One(Belongs(f, o))
    {
      CountClaim(g.frameHashes, g.inFlight, call, Ticket(f, Last(g, f.node)), o);
    }
    NodesRecounted(g.nodes, f.node, h.nodes[f.node], g.frameHashes, g.inFlight, h.frameHashes, h.inFlight);
    if f.campaign.Some? {
      CampaignsRecounted(g.campaigns, f.campaign.value, h.campaigns[f.campaign.value],
                         g.frameHashes, g.inFlight, h.frameHashes, h.inFlight);
    }
  }

  lemma AcceptKeepsKnown(g: State, call: nat, f: Frame)
    requires FrameKnown(g.nodes.Keys, g.campaigns.Keys, f)
    requires FramesKnown(g.nodes.Keys, g.campaigns.Keys, g.frameHashes, g.inFlight)
    ensures var h := Accept(g, call, f);
            && h.nodes.Keys == g.nodes.Keys && h.campaigns.Keys == g.campaigns.Keys
            && FramesKnown(h.nodes.Keys, h.campaigns.Keys, h.frameHashes, h.inFlight)
  {
    var h := Accept(g, call, f);
    assert h.nodes.Keys == g.nodes.Keys;
    assert h.campaigns.Keys == g.campaigns.Keys;
  }

  lemma AcceptKeepsConsistent(g: State, call: nat, f: Frame)
    requires Consistent(g) && call !in g.inFlight && ClaimReply(g, f) == Claimed
    ensures Consistent(Accept(g, call, f))
  {
    var h := Accept(g, call, f);
    AcceptKeepsOrder(g.lastSequence, g.frameHashes.Keys, g.inFlight, call, Ticket(f, Last(g, f.node)));
    AcceptKeepsCounts(g, call, f);
    AcceptKeepsKnown(g, call, f);
  }

  lemma ClaimKeepsConsistent(g: State, call: nat, f: Frame)
    requires Consistent(g) && call !in g.inFlight
    ensures Consistent(Claim(g, call, f))
  {
    match ClaimReply(g, f)
    case Claimed => AcceptKeepsConsistent(g, call, f);
    case Cached(_) =>
    case Rejected(reason) => RejectionKeepsConsistent(g, f, reason);
  }

  /** A commit never finds its cache entry taken. */
  lemma CommitWritesNewEntry(g: State, call: nat)
    requires Consistent(g) && call in g.inFlight
    ensures KeyOf(g.inFlight[call].frame) !in g.frameHashes
  {
    var t := g.inFlight[call];
    assert GoesBack(t);
    assert !Apart(t, KeyOf(t.frame));
  }

  lemma CommitKeepsCounts(g: State, call: nat, analysis: string)
    requires NodesCounted(g.nodes, g.frameHashes, g.inFlight)
    requires CampaignsCounted(g.campaigns, g.frameHashes, g.inFlight)
    requires call in g.inFlight && KeyOf(g.inFlight[call].frame) !in g.frameHashes
    ensures var h := Commit(g, call, analysis);
            && NodesCounted(h.nodes, h.frameHashes, h.inFlight)
            && CampaignsCounted(h.campaigns, h.frameHashes, h.inFlight)
  {
    var h := Commit(g, call, analysis);
    forall o: Owner
      ensures Count(h.frameHashes, h.inFlight, o) == Count(g.frameHashes, g.inFlight, o)
    {
      CountCommit(g.frameHashes, g.inFlight, call, o);
    }
  }

  lemma CommitKeepsKnown(g: State, call: nat, analysis: string)
    requires CachesAgree(g.frameHashes, g.analyses) && call in g.inFlight
    requires FramesKnown(g.nodes.Keys, g.campaigns.Keys, g.frameHashes, g.inFlight)
    ensures var h := Commit(g, call, analysis);
            && CachesAgree(h.frameHashes, h.analyses)
            && FramesKnown(h.nodes.Keys, h.campaigns.Keys, h.frameHashes, h.inFlight)
            && h.frameHashes.Keys == g.frameHashes.Keys + {KeyOf(g.inFlight[call].frame)}
  {
  }

  lemma CommitKeepsConsistent(g: State, call: nat, analysis: string)
    requires Consistent(g) && call in g.inFlight
    ensures Consistent(Commit(g, call, analysis))
  {
    CommitWritesNewEntry(g, call);
    CommitKeepsOrder(g.lastSequence, g.frameHashes.Keys, g.inFlight, call);
    CommitKeepsCounts(g, call, analysis);
    CommitKeepsKnown(g, call, analysis);
  }

  lemma CommitKeepsOrder(last: map<string, nat>, done: set<Key>, inFlight: map<nat, Ticket>, call: nat)
    requires LastBounds(last, done, inFlight) && TicketsApart(done, inFlight)
    requires call in inFlight
    ensures LastBounds(last, done + {KeyOf(inFlight[call].frame)}, inFlight - {call})
    ensures TicketsApart(done + {KeyOf(inFlight[call].frame)}, inFlight - {call})
  {
  }

  /** A rollback never meets a counter at zero, so its clamp is never needed. */
  lemma ClampNeverFires(g: State, call: nat)
    requires Consistent(g) && call in g.inFlight
    ensures var f := g.inFlight[call].frame;
            && f.node in g.nodes && g.nodes[f.node].received >= 1
            && (f.campaign.Some? ==>
                  f.campaign.value in g.campaigns && g.campaigns[f.campaign.value].received >= 1)
  {
    var f := g.inFlight[call].frame;
    assert FrameKnown(g.nodes.Keys, g.campaigns.Keys, f);
    CountDrop(g.frameHashes, g.inFlight, call, OfNode(f.node));
    if f.campaign.Some? {
      CountDrop(g.frameHashes, g.inFlight, call, OfCampaign(f.campaign.value));
    }
  }

  lemma RollbackKeepsOrder(last: map<string, nat>, done: set<Key>, inFlight: map<nat, Ticket>, call: nat)
    requires LastBounds(last, done, inFlight) && TicketsApart(done, inFlight)
    requires call in inFlight
    ensures LastBounds(LastAfterRollback(last, inFlight[call]), done, inFlight - {call})
    ensures TicketsApart(done, inFlight - {call})
  {
    var t := inFlight[call];
    forall k | AtMostLast(last, k) && Apart(t, k)
      ensures AtMostLast(LastAfterRollback(last, t), k)
    {}
  }

  lemma RollbackKeepsCounts(g: State, call: nat)
    requires Consistent(g) && call in g.inFlight
    ensures var h := Rollback(g, call);
            && NodesCounted(h.nodes, h.frameHashes, h.inFlight)
            && CampaignsCounted(h.campaigns, h.frameHashes, h.inFlight) && AllActive(h.campaigns)
  {
    hide LastBounds, TicketsApart, FramesKnown, CachesAgree, Count;
    var h := Rollback(g, call);
    var f := g.inFlight[call].frame;
    ClampNeverFires(g, call);
    forall o
      ensures Count(h.frameHashes, h.inFlight, o) == Count(g.frameHashes, g.inFlight, o) - One(Belongs(f, o))
    {
      CountDrop(g.frameHashes, g.inFlight, call, o);
    }
    NodesRecounted(g.nodes, f.node, h.nodes[f.node], g.frameHashes, g.inFlight, h.frameHashes, h.inFlight);
    if f.campaign.Some? {
      CampaignsRecounted(g.campaigns, f.campaign.value, h.campaigns[f.campaign.value],
                         g.frameHashes, g.inFlight, h.frameHashes, h.inFlight);
    }
  }

  lemma RollbackKeepsConsistent(g: State, call: nat)
    requires Consistent(g) && call in g.inFlight
    ensures Consistent(Rollback(g, call))
  {
    hide LastBounds, TicketsApart, CachesAgree, NodesCounted, CampaignsCounted;
    var h := Rollback(g, call);
    ClampNeverFires(g, call);
    RollbackKeepsOrder(g.lastSequence, g.frameHashes.Keys, g.inFlight, call);
    RollbackKeepsCounts(g, call);
    assert h.nodes.Keys == g.nodes.Keys && h.campaigns.Keys == g.campaigns.Keys;
  }

  lemma RegisterKeepsConsistent(g: State, node: string, asset: string, rate: real)
    requires Consistent(g)
    ensures Consistent(Register(g, node, asset, rate))
  {
    hide LastBounds, TicketsApart, CachesAgree, Count;
    if node !in g.nodes {
      CountNone(g.frameHashes, g.inFlight, g.nodes.Keys, g.campaigns.Keys, OfNode(node));
    }
  }

  /** A known campaign is always active, so it is never registered over. */
  lemma RegisterCampaignKeepsConsistent(g: State, campaign: string, node: string, asset: string)
    requires Consistent(g)
    ensures Consistent(RegisterCampaign(g, campaign, node, asset))
  {
    hide LastBounds, TicketsApart, CachesAgree, Count;
    if campaign !in g.campaigns {
      CountNone(g.frameHashes, g.inFlight, g.nodes.Keys, g.campaigns.Keys, OfCampaign(campaign));
    }
  }

  // ----- every interleaving

  datatype Event =
    | RegisterEvent(node: string, asset: string, rate: real)
    | CampaignEvent(campaign: string, node: string, asset: string)
    | ClaimEvent(call: nat, frame: Frame)
    | CommitEvent(call: nat, analysis: string)
    | RollbackEvent(call: nat)

  /** A call starts once, and it commits or rolls back only while it is running. */
  predicate Enabled(g: State, e: Event) {
    match e
    case RegisterEvent(_, _, _) => true
    case CampaignEvent(_, _, _) => true
    case ClaimEvent(call, _) => call !in g.inFlight
    case CommitEvent(call, _) => call in g.inFlight
    case RollbackEvent(call) => call in g.inFlight
  }

  function Step(g: State, e: Event): State {
    if !Enabled(g, e) then g
    else
      match e
      case RegisterEvent(node, asset, rate) => Register(g, node, asset, rate)
      case CampaignEvent(campaign, node, asset) => RegisterCampaign(g, campaign, node, asset)
      case ClaimEvent(call, frame) => Claim(g, call, frame)
      case CommitEvent(call, analysis) => Commit(g, call, analysis)
      case RollbackEvent(call) => Rollback(g, call)
  }

  function Run(events: seq<Event>): State {
    if events == [] then Initial else Step(Run(events[..|events| - 1]), events[|events| - 1])
  }

  /** The (node, sequence) pairs of all commits of a run, in the order they happened. */
  function Completions(events: seq<Event>): seq<Key> {
    if events == [] then []
    else
      var init := events[..|events| - 1];
      Completions(init) + CompletionOf(Run(init), events[|events| - 1])
  }

  function CompletionOf(g: State, e: Event): seq<Key> {
    if e.CommitEvent? && Enabled(g, e) then [KeyOf(g.inFlight[e.call].frame)] else []
  }

  lemma StepKeepsConsistent(g: State, e: Event)
    requires Consistent(g)
    ensures Consistent(Step(g, e))
  {
    if Enabled(g, e) {
      match e
      case RegisterEvent(node, asset, rate) => RegisterKeepsConsistent(g, node, asset, rate);
      case CampaignEvent(campaign, node, asset) => RegisterCampaignKeepsConsistent(g, campaign, node, asset);
      case ClaimEvent(call, frame) => ClaimKeepsConsistent(g, call, frame);
      case CommitEvent(call, analysis) => CommitKeepsConsistent(g, call, analysis);
      case RollbackEvent(call) => RollbackKeepsConsistent(g, call);
    }
  }

  lemma {:induction false} EveryRunIsConsistent(events: seq<Event>)
    ensures Consistent(Run(events))
  {
    if events != [] {
      EveryRunIsConsistent(events[..|events| - 1]);
      StepKeepsConsistent(Run(events[..|events| - 1]), events[|events| - 1]);
    }
  }

  predicate KeepsEntries(g: State, h: State) {
    && (forall k :: k in g.frameHashes ==> k in h.frameHashes && h.frameHashes[k] == g.frameHashes[k])
    && (forall k :: k in g.analyses ==> k in h.analyses && h.analyses[k] == g.analyses[k])
  }

  lemma CommitKeepsEntries(g: State, call: nat, analysis: string)
    requires call in g.inFlight && CachesAgree(g.frameHashes, g.analyses)
    requires KeyOf(g.inFlight[call].frame) !in g.frameHashes
    ensures KeepsEntries(g, Commit(g, call, analysis))
    ensures Commit(g, call, analysis).frameHashes.Keys == g.frameHashes.Keys + {KeyOf(g.inFlight[call].frame)}
  {
  }

  lemma OtherStepsKeepCaches(g: State, e: Event)
    requires !(e.CommitEvent? && Enabled(g, e))
    ensures Step(g, e).frameHashes == g.frameHashes && Step(g, e).analyses == g.analyses
  {
  }

  lemma StepKeepsEntries(g: State, e: Event)
    requires Consistent(g)
    ensures KeepsEntries(g, Step(g, e))
    ensures forall k :: k in Step(g, e).frameHashes <==> k in g.frameHashes || k in CompletionOf(g, e)
  {
    if e.CommitEvent? && Enabled(g, e) {
      CommitWritesNewEntry(g, e.call);
      CommitKeepsEntries(g, e.call, e.analysis);
    } else {
      OtherStepsKeepCaches(g, e);
    }
  }

  lemma CompletionIsNew(g: State, e: Event)
    requires Consistent(g)
    ensures |CompletionOf(g, e)| <= 1
    ensures forall k :: k in CompletionOf(g, e) ==> k !in g.frameHashes
  {
    if e.CommitEvent? && Enabled(g, e) {
      CommitWritesNewEntry(g, e.call);
    }
  }

  lemma AppendNew(s: seq<Key>, t: seq<Key>)
    requires forall i, j :: 0 <= i < j < |s| ==> s[i] != s[j]
    requires |t| <= 1 && forall k :: k in t ==> k !in s
    ensures forall i, j :: 0 <= i < j < |s + t| ==> (s + t)[i] != (s + t)[j]
  {
    forall i, j | 0 <= i < j < |s + t|
      ensures (s + t)[i] != (s + t)[j]
    {
      assert (s + t)[i] == s[i];
      if j == |s| {
        assert (s + t)[j] in t;
      }
    }
  }

  lemma {:induction false} CompletionsAreCached(events: seq<Event>)
    ensures forall i, j :: 0 <= i < j < |Completions(events)| ==> Completions(events)[i] != Completions(events)[j]
    ensures forall k :: k in Run(events).frameHashes <==> k in Completions(events)
  {
    if events != [] {
      var init, e := events[..|events| - 1], events[|events| - 1];
      CompletionsAreCached(init);
      EveryRunIsConsistent(init);
      StepKeepsEntries(Run(init), e);
      CompletionIsNew(Run(init), e);
      AppendNew(Completions(init), CompletionOf(Run(init), e));
    }
  }

  lemma {:induction false} EntriesStay(events: seq<Event>, n: nat)
    requires n <= |events|
    ensures KeepsEntries(Run(events[..n]), Run(events))
  {
    if n == |events| {
      assert events[..n] == events;
    } else {
      var init := events[..|events| - 1];
      EntriesStay(init, n);
      assert init[..n] == events[..n];
      EveryRunIsConsistent(init);
      StepKeepsEntries(Run(init), events[|events| - 1]);
    }
  }

  /** Exactly once: over a whole run no (node, sequence) is completed twice, the
      completed ones are exactly the cached ones, and no cache entry that exists
      after the first n events is ever overwritten. */
  lemma CompletedAtMostOnce(events: seq<Event>, n: nat)
    requires n <= |events|
    ensures forall i, j :: 0 <= i < j < |Completions(events)| ==> Completions(events)[i] != Completions(events)[j]
    ensures forall k :: k in Run(events).frameHashes <==> k in Completions(events)
    ensures KeepsEntries(Run(events[..n]), Run(events))
  {
    CompletionsAreCached(events);
    EntriesStay(events, n);
  }

  /** No two running calls of a node hold the same sequence, none holds a
      completed one, and the last sequence bounds them all. */
  lemma InFlightSequencesDistinct(events: seq<Event>, c: nat, d: nat)
    requires c in Run(events).inFlight && d in Run(events).inFlight && c != d
    ensures KeyOf(Run(events).inFlight[c].frame) != KeyOf(Run(events).inFlight[d].frame)
    ensures KeyOf(Run(events).inFlight[c].frame) !in Run(events).frameHashes
    ensures AtMostLast(Run(events).lastSequence, KeyOf(Run(events).inFlight[c].frame))
  {
    EveryRunIsConsistent(events);
    CommitWritesNewEntry(Run(events), c);
  }

  // ----- retries

  /** An exact retry of a completed frame is answered from the cache exactly
      while no later frame of the node has been claimed; otherwise it is stale. */
  lemma ExactRetryIsCachedIffLast(g: State, k: Key)
    requires Consistent(g) && k in g.frameHashes
    requires AdmissionRefusal(g, g.frameHashes[k]).None?
    ensures ClaimReply(g, g.frameHashes[k])
         == if g.lastSequence[k.0] == k.1 then Cached(g.analyses[k]) else Rejected(StaleSequence)
  {
    assert AtMostLast(g.lastSequence, k);
  }

  /** Reusing a completed sequence with different content is always rejected. */
  lemma ReuseIsRejected(g: State, f: Frame)
    requires Consistent(g) && KeyOf(f) in g.frameHashes && g.frameHashes[KeyOf(f)] != f
    ensures ClaimReply(g, f).Rejected?
  {
    assert AtMostLast(g.lastSequence, KeyOf(f));
  }

  /** Right after a processing failure the same frame can be claimed again exactly
      when it was still the node's last sequence. */
  lemma FailedFrameRetriableIffLast(g: State, call: nat)
    requires Consistent(g) && call in g.inFlight
    requires AdmissionRefusal(g, g.inFlight[call].frame).None?
    ensures var f := g.inFlight[call].frame;
            ClaimReply(Rollback(g, call), f) == Claimed <==> g.lastSequence[f.node] == f.sequence
  {
    hide FramesKnown, CachesAgree, NodesCounted, CampaignsCounted;
    var t := g.inFlight[call];
    var h := Rollback(g, call);
    assert AtMostLast(g.lastSequence, KeyOf(t.frame));
    ClampNeverFires(g, call);
    assert AdmissionRefusal(h, t.frame).None?;
  }

  /** Two frames in flight that fail oldest first: the node rests on a sequence
      that is neither completed nor in flight, and a retry of that frame is told
      that it is being processed. */
  lemma FailuresOldestFirstStrandTheFirst(node: string, asset: string, f: Frame, f': Frame)
    requires f.node == f'.node == node && f.asset == f'.asset == asset
    requires f.campaign == f'.campaign == None && f.sequence < f'.sequence
    ensures var g := Run([RegisterEvent(node, asset, 1.0), ClaimEvent(0, f), ClaimEvent(1, f'), RollbackEvent(0),
              RollbackEvent(1)]);
            && g.inFlight == map[] && g.frameHashes == map[]
            && Last(g, node) == Some(f.sequence)
            && ClaimReply(g, f) == Rejected(BeingProcessed)
            && ClaimReply(g, f') == Claimed
  {
    var e := [RegisterEvent(node, asset, 1.0), ClaimEvent(0, f), ClaimEvent(1, f'), RollbackEvent(0), RollbackEvent(1)];
    var g0 := Initial;
    var g1 := Step(g0, e[0]);
    var g2 := Step(g1, e[1]);
    var g3 := Step(g2, e[2]);
    var g4 := Step(g3, e[3]);
    var g5 := Step(g4, e[4]);
    assert Run(e[..0]) == g0;
    hide Run, Claim, Rollback, ClaimReply, Last;
    RunsTo(e, 1, g1);
    RunsTo(e, 2, g2);
    RunsTo(e, 3, g3);
    RunsTo(e, 4, g4);
    RunsTo(e, 5, g5);
    assert e[..5] == e;
    BothInFlight(node, asset, f, f');
    BothRolledBack(g3, f, f');
  }

  /** Two frames of one node are between their critical sections. */
  predicate AreInFlight(g: State, f: Frame, f': Frame) {
    && f.node in g.nodes && g.nodes[f.node].asset == f.asset && g.frameHashes == map[]
    && g.lastSequence == map[f.node := f'.sequence]
    && g.inFlight == map[0 := Ticket(f, None), 1 := Ticket(f', Some(f.sequence))]
  }

  lemma BothInFlight(node: string, asset: string, f: Frame, f': Frame)
    requires f.node == f'.node == node && f.asset == f'.asset == asset
    requires f.campaign == f'.campaign == None && f.sequence < f'.sequence
    ensures AreInFlight(Claim(Claim(Register(Initial, node, asset, 1.0), 0, f), 1, f'), f, f')
  {
    hide Abs, Max;
    var g1 := Register(Initial, node, asset, 1.0);
    var g2 := Claim(g1, 0, f);
    assert g2.lastSequence == map[node := f.sequence] && g2.inFlight == map[0 := Ticket(f, None)];
    var g3 := Claim(g2, 1, f');
    assert g3.inFlight == g2.inFlight[1 := Ticket(f', Some(f.sequence))];
  }

  lemma BothRolledBack(g: State, f: Frame, f': Frame)
    requires AreInFlight(g, f, f') && f'.node == f.node && f'.asset == f.asset
    requires f.campaign == f'.campaign == None && f.sequence < f'.sequence
    ensures var t := Step(Step(g, RollbackEvent(0)), RollbackEvent(1));
            && t.inFlight == map[] && t.frameHashes == map[]
            && Last(t, f.node) == Some(f.sequence)
            && ClaimReply(t, f) == Rejected(BeingProcessed)
            && ClaimReply(t, f') == Claimed
  {
    hide Abs, Max;
    var g4 := Step(g, RollbackEvent(0));
    assert g4.lastSequence == map[f.node := f'.sequence];
    assert g4.inFlight == map[1 := Ticket(f', Some(f.sequence))];
  }

  lemma RunsTo(events: seq<Event>, n: nat, g: State)
    requires n <= |events|
    requires if n == 0 then g == Initial else g == Step(Run(events[..n - 1]), events[n - 1])
    ensures Run(events[..n]) == g
  {
    if n > 0 {
      assert events[..n][..n - 1] == events[..n - 1];
    }
  }
}
