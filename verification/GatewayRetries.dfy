/** What a processing failure does to the frames of its node, now and later. */
module GatewayRetries {
  import opened Wrappers
  import opened Gateway

  // Exactly when the sequence is stranded, and exactly when the failed frame is
  // lost in every continuation.

  // ----- stranding

  predicate IsInFlight(g: State, k: Key) {
    exists c :: c in g.inFlight && KeyOf(g.inFlight[c].frame) == k
  }

  /** A frame with this key is completed or being processed. */
  predicate IsHeld(g: State, k: Key) {
    k in g.frameHashes || IsInFlight(g, k)
  }

  /** The node has no last sequence, or one that belongs to a held frame. */
  predicate RestsOnHeld(g: State, node: string) {
    node in g.lastSequence ==> IsHeld(g, (node, g.lastSequence[node]))
  }

  /** From a node that rests on a held frame, a failure strands it, leaving it on a
      sequence that is neither completed nor being processed, exactly when the
      failed frame was the last one and the frame it goes back to has meanwhile
      failed itself. */
  lemma StrandedIff(g: State, call: nat)
    requires Consistent(g) && call in g.inFlight && RestsOnHeld(g, g.inFlight[call].frame.node)
    ensures var t := g.inFlight[call];
            var node := t.frame.node;
            && node in g.lastSequence
            && (!RestsOnHeld(Rollback(g, call), node) <==>
                  && g.lastSequence[node] == t.frame.sequence
                  && t.previous.Some? && !IsHeld(g, (node, t.previous.value)))
  {
    hide FramesKnown, NodesCounted, CampaignsCounted, CachesAgree, TicketsApart, Decrement;
    var t := g.inFlight[call];
    var node := t.frame.node;
    var h := Rollback(g, call);
    assert AtMostLast(g.lastSequence, KeyOf(t.frame));
    OtherTicketsStay(g, call);
    if g.lastSequence[node] == t.frame.sequence && t.previous.Some? {
      GoesToAnotherKey(g, call);
    }
  }

  /** Only the rollback of one of its own frames can strand a node. */
  lemma OtherStepsKeepRest(g: State, e: Event, node: string)
    requires RestsOnHeld(g, node) && !e.RollbackEvent?
    ensures RestsOnHeld(Step(g, e), node)
  {
    var h := Step(g, e);
    LastMovesToNewTicket(g, e, node);
    hide Step, IsHeld;
    if node in h.lastSequence && Last(h, node) == Last(g, node) {
      StepKeepsHeld(g, e, (node, g.lastSequence[node]));
    } else if node in h.lastSequence {
      NewTicketIsHeld(h, e.call);
    }
  }

  /** A node's last sequence changes, rollbacks apart, to that of a call just started. */
  lemma LastMovesToNewTicket(g: State, e: Event, node: string)
    requires !e.RollbackEvent?
    ensures var h := Step(g, e);
            || Last(h, node) == Last(g, node)
            || (e.ClaimEvent? && e.call in h.inFlight
                  && Last(h, node) == Some(h.inFlight[e.call].frame.sequence) && h.inFlight[e.call].frame.node == node)
  {
    hide AddReceivedNode, AdmissionRefusal, IsLate, LateReply;
  }

  lemma NewTicketIsHeld(g: State, call: nat)
    requires call in g.inFlight
    ensures IsHeld(g, KeyOf(g.inFlight[call].frame))
  {
  }

  lemma StepKeepsHeld(g: State, e: Event, k: Key)
    requires IsHeld(g, k) && !e.RollbackEvent?
    ensures IsHeld(Step(g, e), k)
  {
    hide Abs, Max, AdmissionRefusal, Register, RegisterCampaign, IsLate, LateReply, Claim, Commit;
    if Enabled(g, e) {
      match e
      case RegisterEvent(_, _, _) => RegistrationKeepsTickets(g, e);
      case CampaignEvent(_, _, _) => RegistrationKeepsTickets(g, e);
      case ClaimEvent(call, f) => ClaimKeepsHeld(g, call, f, k);
      case CommitEvent(call, analysis) => CommitKeepsHeld(g, call, analysis, k);
    }
  }

  lemma ClaimKeepsHeld(g: State, call: nat, f: Frame, k: Key)
    requires IsHeld(g, k) && call !in g.inFlight
    ensures IsHeld(Claim(g, call, f), k)
  {
    var h := Claim(g, call, f);
    ClaimKeepsTickets(g, call, f);
    hide Claim;
    if k !in g.frameHashes {
      var c :| c in g.inFlight && KeyOf(g.inFlight[c].frame) == k;
      assert c in h.inFlight && h.inFlight[c] == g.inFlight[c];
    }
  }

  lemma ClaimKeepsTickets(g: State, call: nat, f: Frame)
    requires call !in g.inFlight
    ensures Claim(g, call, f).frameHashes == g.frameHashes
    ensures var h := Claim(g, call, f);
            forall c :: c in g.inFlight ==> c in h.inFlight && h.inFlight[c] == g.inFlight[c]
  {
    hide AddReceivedNode, IsLate, LateReply;
  }

  lemma CommitKeepsHeld(g: State, call: nat, analysis: string, k: Key)
    requires IsHeld(g, k) && call in g.inFlight
    ensures IsHeld(Commit(g, call, analysis), k)
  {
    var h := Commit(g, call, analysis);
    if k !in g.frameHashes {
      var c :| c in g.inFlight && KeyOf(g.inFlight[c].frame) == k;
      assert c in h.inFlight ==> h.inFlight[c] == g.inFlight[c];
    }
  }

  lemma RegistrationKeepsTickets(g: State, e: Event)
    requires e.RegisterEvent? || e.CampaignEvent?
    ensures Step(g, e).inFlight == g.inFlight && Step(g, e).frameHashes == g.frameHashes
  {
  }

  lemma OtherTicketsStay(g: State, call: nat)
    requires call in g.inFlight
    ensures forall k: Key :: k != KeyOf(g.inFlight[call].frame) ==> (IsHeld(Rollback(g, call), k) <==> IsHeld(g, k))
  {
    hide Decrement, LastAfterRollback;
    var h := Rollback(g, call);
    forall k: Key | k != KeyOf(g.inFlight[call].frame)
      ensures IsInFlight(h, k) <==> IsInFlight(g, k)
    {
      if IsInFlight(g, k) {
        var c :| c in g.inFlight && KeyOf(g.inFlight[c].frame) == k;
        assert c in h.inFlight && h.inFlight[c] == g.inFlight[c];
      }
    }
  }

  lemma ForeignRollbackKeepsRest(g: State, call: nat, node: string)
    requires call in g.inFlight && g.inFlight[call].frame.node != node && RestsOnHeld(g, node)
    ensures RestsOnHeld(Rollback(g, call), node)
  {
    hide IsHeld, Decrement;
    OtherTicketsStay(g, call);
  }

  lemma GoesToAnotherKey(g: State, call: nat)
    requires Consistent(g) && call in g.inFlight && g.inFlight[call].previous.Some?
    ensures g.inFlight[call].previous.value < g.inFlight[call].frame.sequence
  {
    hide LastBounds, FramesKnown, NodesCounted, CampaignsCounted, CachesAgree;
    assert GoesBack(g.inFlight[call]);
  }

  /** What a frame hears that reuses the stranded sequence. */
  lemma StrandedSequenceIsRefused(g: State, f: Frame)
    requires f.node in g.lastSequence && g.lastSequence[f.node] == f.sequence
    requires !IsHeld(g, KeyOf(f)) && AdmissionRefusal(g, f).None?
    ensures ClaimReply(g, f) == Rejected(BeingProcessed)
  {
  }

  // ----- losing

  /** The key is not completed, not being processed, not beyond the last sequence,
      and nothing in flight would take the last sequence back below it. */
  predicate IsLost(g: State, k: Key) {
    && AtMostLast(g.lastSequence, k) && !IsHeld(g, k)
    && forall c :: c in g.inFlight ==> StaysBeyond(g.inFlight[c], k)
  }

  predicate StaysBeyond(t: Ticket, k: Key) {
    t.frame.node == k.0 && t.frame.sequence > k.1 ==> t.previous.Some? && t.previous.value >= k.1
  }

  /** A failed frame is lost exactly when it was not its node's last sequence any
      more; otherwise the sequence goes back below it. */
  lemma FailedFrameIsLostIff(g: State, call: nat)
    requires Consistent(g) && call in g.inFlight
    ensures var f := g.inFlight[call].frame;
            && f.node in g.lastSequence
            && (IsLost(Rollback(g, call), KeyOf(f)) <==> g.lastSequence[f.node] != f.sequence)
  {
    hide FramesKnown, NodesCounted, CampaignsCounted, CachesAgree, Decrement;
    var t := g.inFlight[call];
    var h := Rollback(g, call);
    assert AtMostLast(g.lastSequence, KeyOf(t.frame));
    assert GoesBack(t);
    CommitWritesNewEntry(g, call);
    forall c | c in h.inFlight
      ensures KeyOf(h.inFlight[c].frame) != KeyOf(t.frame) && StaysBeyond(h.inFlight[c], KeyOf(t.frame))
    {
      assert Apart(g.inFlight[c], KeyOf(t.frame)) && Apart(t, KeyOf(g.inFlight[c].frame));
    }
  }

  lemma ClaimKeepsLost(g: State, call: nat, f: Frame, k: Key)
    requires call !in g.inFlight && IsLost(g, k)
    ensures IsLost(Claim(g, call, f), k)
  {
    ClaimKeepsTickets(g, call, f);
    hide AddReceivedNode, AdmissionRefusal;
    var h := Claim(g, call, f);
    if ClaimReply(g, f).Claimed? {
      assert !IsLate(g, f);
      hide LateReply, ClaimReply;
      forall c | c in h.inFlight
        ensures StaysBeyond(h.inFlight[c], k) && KeyOf(h.inFlight[c].frame) != k
      {
        assert c != call ==> StaysBeyond(g.inFlight[c], k);
      }
    }
  }

  lemma CommitKeepsLost(g: State, call: nat, analysis: string, k: Key)
    requires call in g.inFlight && IsLost(g, k)
    ensures IsLost(Commit(g, call, analysis), k)
  {
    var h := Commit(g, call, analysis);
    assert KeyOf(g.inFlight[call].frame) != k;
    forall c | c in h.inFlight
      ensures StaysBeyond(h.inFlight[c], k) && KeyOf(h.inFlight[c].frame) != k
    {
      assert StaysBeyond(g.inFlight[c], k);
    }
  }

  lemma RollbackKeepsLost(g: State, call: nat, k: Key)
    requires call in g.inFlight && IsLost(g, k)
    ensures IsLost(Rollback(g, call), k)
  {
    hide Decrement;
    var t := g.inFlight[call];
    var h := Rollback(g, call);
    assert KeyOf(t.frame) != k && StaysBeyond(t, k);
    forall c | c in h.inFlight
      ensures StaysBeyond(h.inFlight[c], k) && KeyOf(h.inFlight[c].frame) != k
    {
      assert StaysBeyond(g.inFlight[c], k);
    }
  }

  lemma StepKeepsLost(g: State, e: Event, k: Key)
    requires IsLost(g, k)
    ensures IsLost(Step(g, e), k)
  {
    hide IsLost, Claim, Commit, Rollback;
    if Enabled(g, e) {
      match e
      case RegisterEvent(node, asset, rate) => SameProtocolLost(g, Step(g, e), k);
      case CampaignEvent(campaign, node, asset) => SameProtocolLost(g, Step(g, e), k);
      case ClaimEvent(call, frame) => ClaimKeepsLost(g, call, frame, k);
      case CommitEvent(call, analysis) => CommitKeepsLost(g, call, analysis, k);
      case RollbackEvent(call) => RollbackKeepsLost(g, call, k);
    }
  }

  lemma SameProtocolLost(g: State, h: State, k: Key)
    requires IsLost(g, k)
    requires h.lastSequence == g.lastSequence && h.frameHashes == g.frameHashes && h.inFlight == g.inFlight
    ensures IsLost(h, k)
  {
  }

  /** No frame with a lost key is ever accepted or answered. */
  lemma LostIsRejected(g: State, f: Frame)
    requires IsLost(g, KeyOf(f))
    ensures ClaimReply(g, f).Rejected?
    ensures AdmissionRefusal(g, f).None? ==>
              ClaimReply(g, f)
              == Rejected(if g.lastSequence[f.node] == f.sequence then BeingProcessed else StaleSequence)
  {
  }

  lemma {:induction false} LostForEver(events: seq<Event>, n: nat, k: Key)
    requires n <= |events| && IsLost(Run(events[..n]), k)
    ensures IsLost(Run(events), k)
  {
    if n == |events| {
      assert events[..n] == events;
    } else {
      var init := events[..|events| - 1];
      assert init[..n] == events[..n];
      LostForEver(init, n, k);
      StepKeepsLost(Run(init), events[|events| - 1], k);
    }
  }

  /** A frame that fails after a later one was claimed is rejected at every later
      moment of every run, whatever happens in between, and never completed. */
  lemma FailedFrameIsRejectedForEver(events: seq<Event>, n: nat, call: nat)
    requires n < |events| && events[n] == RollbackEvent(call) && call in Run(events[..n]).inFlight
    ensures var f := Run(events[..n]).inFlight[call].frame;
            f.node in Run(events[..n]).lastSequence
    ensures var f := Run(events[..n]).inFlight[call].frame;
            Run(events[..n]).lastSequence[f.node] != f.sequence ==>
              ClaimReply(Run(events), f).Rejected? && KeyOf(f) !in Completions(events)
  {
    var g := Run(events[..n]);
    var f := g.inFlight[call].frame;
    EveryRunIsConsistent(events[..n]);
    FailedFrameIsLostIff(g, call);
    assert events[..n + 1][..n] == events[..n];
    if g.lastSequence[f.node] != f.sequence {
      hide IsLost, Rollback;
      assert Run(events[..n + 1]) == Rollback(g, call);
      LostForEver(events, n + 1, KeyOf(f));
      LostIsRejected(Run(events), f);
      CompletedAtMostOnce(events, 0);
      LostIsNotCached(Run(events), KeyOf(f));
    }
  }

  lemma LostIsNotCached(g: State, k: Key)
    requires IsLost(g, k)
    ensures k !in g.frameHashes
  {
  }

  // ----- a stale exact retry

  /** An exact retry of a completed frame is refused once a later frame was claimed. */
  lemma CompletedFrameBecomesStale(node: string, asset: string, analysis: string, f: Frame, f': Frame)
    requires f.node == f'.node == node && f.asset == f'.asset == asset
    requires f.campaign == f'.campaign == None && f.sequence < f'.sequence
    ensures var events := [RegisterEvent(node, asset, 1.0), ClaimEvent(0, f), CommitEvent(0, analysis),
              ClaimEvent(1, f')];
            && KeyOf(f) in Run(events[..3]).frameHashes
            && ClaimReply(Run(events[..3]), f) == Cached(analysis)
            && KeyOf(f) in Run(events).frameHashes
            && ClaimReply(Run(events), f) == Rejected(StaleSequence)
  {
    var e := [RegisterEvent(node, asset, 1.0), ClaimEvent(0, f), CommitEvent(0, analysis), ClaimEvent(1, f')];
    var g1 := Step(Initial, e[0]);
    var g2 := Step(g1, e[1]);
    var g3 := Step(g2, e[2]);
    var g4 := Step(g3, e[3]);
    assert Run(e[..0]) == Initial;
    assert Run([]) == Initial;
    hide Run, Abs, Max, Claim, Commit, ClaimReply;
    RunsTo(e, 1, g1);
    RunsTo(e, 2, g2);
    RunsTo(e, 3, g3);
    RunsTo(e, 4, g4);
    assert e[..4] == e;
    CommittedAlone(node, asset, analysis, f);
    LaterClaim(g3, analysis, f, f');
  }

  /** One frame of a node is completed, and nothing else has happened. */
  predicate IsCompletedAlone(g: State, f: Frame, analysis: string) {
    && f.node in g.nodes && g.nodes[f.node].asset == f.asset
    && g.frameHashes == map[KeyOf(f) := f] && g.analyses == map[KeyOf(f) := analysis]
    && g.lastSequence == map[f.node := f.sequence] && g.inFlight == map[]
  }

  lemma CommittedAlone(node: string, asset: string, analysis: string, f: Frame)
    requires f.node == node && f.asset == asset && f.campaign == None
    ensures IsCompletedAlone(Commit(Claim(Register(Initial, node, asset, 1.0), 0, f), 0, analysis), f, analysis)
  {
    hide Abs, Max;
    var g := Claim(Register(Initial, node, asset, 1.0), 0, f);
    assert g.inFlight == map[0 := Ticket(f, None)];
  }

  lemma LaterClaim(g: State, analysis: string, f: Frame, f': Frame)
    requires IsCompletedAlone(g, f, analysis) && f'.node == f.node && f'.asset == f.asset
    requires f.campaign == f'.campaign == None && f.sequence < f'.sequence
    ensures ClaimReply(g, f) == Cached(analysis)
    ensures var h := Claim(g, 1, f');
            KeyOf(f) in h.frameHashes && ClaimReply(h, f) == Rejected(StaleSequence)
  {
    hide Abs, Max;
  }
}
