/** The bench gateway object. The two critical sections of `ingest` are two
    methods, so that a caller may interleave calls as it likes. The object records
    every step it takes as an event of `Gateway`, and its state is at any moment
    the state that the protocol reaches by those events; what is proved of every
    run of the protocol, frame conservation and completion at most once among
    them, is thereby proved of the object. */
module BenchGateway {
  import opened Wrappers
  import P = Gateway

  class Gateway {
    var nodes: map<string, P.NodeState>
    var campaigns: map<string, P.CampaignState>
    var lastSequence: map<string, nat>
    var frameHashes: map<P.Key, P.Frame>
    var analyses: map<P.Key, string>
    /** The local variables of the calls that are between their critical sections. */
    var inFlight: map<nat, P.Ticket>
    var nextCall: nat
    /** Every step the object has taken. */
    ghost var history: seq<P.Event>

    ghost function Value(): P.State
      reads this
    {
      P.State(nodes, campaigns, lastSequence, frameHashes, analyses, inFlight)
    }

    /** The object is in a reachable state of the protocol, so everything proved
        of every run of `Gateway` holds of it at any moment. */
    ghost predicate Valid()
      reads this
    {
      Value() == P.Run(history) && forall c :: c in inFlight ==> c < nextCall
    }

    ghost method Record(e: P.Event)
      requires Value() == P.Step(P.Run(history), e)
      modifies this`history
      ensures history == old(history) + [e] && Value() == P.Run(history)
    {
      history := history + [e];
    }

    constructor ()
      ensures Valid() && history == []
    {
      nodes, campaigns, lastSequence := map[], map[], map[];
      frameHashes, analyses, inFlight, nextCall, history := map[], map[], map[], 0, [];
    }

    method Register(node: string, asset: string, rate: real)
      requires Valid()
      modifies this
      ensures Valid() && Value() == P.Register(old(Value()), node, asset, rate)
      ensures history == old(history) + [P.RegisterEvent(node, asset, rate)]
    {
      var state := P.NodeState(asset, rate, false, 0, 0);
      if node in nodes {
        state := state.(received := nodes[node].received, rejected := nodes[node].rejected);
      }
      nodes := nodes[node := state];
      Record(P.RegisterEvent(node, asset, rate));
    }

    method RegisterCampaign(campaign: string, node: string, asset: string) returns (refusal: Option<P.Rejection>)
      requires Valid()
      modifies this
      ensures Valid() && Value() == P.RegisterCampaign(old(Value()), campaign, node, asset)
      ensures history == old(history) + [P.CampaignEvent(campaign, node, asset)]
      ensures refusal == P.CampaignRefusal(old(Value()), campaign, node, asset)
    {
      refusal := None;
      if node !in nodes {
        refusal := Some(P.UnknownNode);
      } else if nodes[node].asset != asset {
        refusal := Some(P.AssetMismatch);
      } else if campaign in campaigns && campaigns[campaign].active {
        refusal := Some(P.CampaignAlreadyActive);
      } else {
        campaigns := campaigns[campaign := P.CampaignState(node, asset, true, 0, 0)];
      }
      Record(P.CampaignEvent(campaign, node, asset));
    }

    method CountRejectionOfNode(node: string)
      requires node in nodes
      modifies this`nodes
      ensures nodes == old(nodes)[node := old(nodes)[node].(rejected := old(nodes)[node].rejected + 1)]
    {
      nodes := nodes[node := nodes[node].(rejected := nodes[node].rejected + 1)];
    }

    method CountRejectionOfCampaign(campaign: string)
      requires campaign in campaigns
      modifies this`campaigns
      ensures var c := old(campaigns)[campaign];
              campaigns == old(campaigns)[campaign := c.(rejected := c.rejected + 1)]
    {
      campaigns := campaigns[campaign := campaigns[campaign].(rejected := campaigns[campaign].rejected + 1)];
    }

    method Admit(f: P.Frame) returns (refusal: Option<P.Rejection>)
      modifies this`nodes, this`campaigns
      ensures refusal == P.AdmissionRefusal(old(Value()), f)
      ensures Value() == if refusal.Some? then P.CountRejection(old(Value()), f, refusal.value) else old(Value())
    {
      if f.node !in nodes {
        return Some(P.UnknownNode);
      }
      if nodes[f.node].asset != f.asset {
        CountRejectionOfNode(f.node);
        return Some(P.AssetMismatch);
      }
      if f.campaign.Some? {
        var c := f.campaign.value;
        if c !in campaigns {
          CountRejectionOfNode(f.node);
          return Some(P.UnknownCampaign);
        }
        if !campaigns[c].active {
          CountRejectionOfNode(f.node);
          CountRejectionOfCampaign(c);
          return Some(P.CampaignNotActive);
        }
        if campaigns[c].node != f.node || campaigns[c].asset != f.asset {
          CountRejectionOfNode(f.node);
          CountRejectionOfCampaign(c);
          return Some(P.CampaignMismatch);
        }
      }
      return None;
    }

    method AnswerLate(f: P.Frame) returns (reply: P.Reply)
      requires P.AdmissionRefusal(Value(), f).None? && P.IsLate(Value(), f)
      modifies this`nodes
      ensures reply == P.LateReply(old(Value()), f)
      ensures Value() == if reply.Rejected? then P.CountRejection(old(Value()), f, reply.reason) else old(Value())
    {
      var key := P.KeyOf(f);
      var previous := lastSequence[f.node];
      if f.sequence == previous && key in frameHashes && frameHashes[key] == f && key in analyses {
        return P.Cached(analyses[key]);
      }
      CountRejectionOfNode(f.node);
      if f.sequence == previous && key !in frameHashes {
        return P.Rejected(P.BeingProcessed);
      }
      if f.sequence == previous {
        return P.Rejected(P.DifferentContent);
      }
      return P.Rejected(P.StaleSequence);
    }

    method Accept(call: nat, f: P.Frame)
      requires f.node in nodes && (f.campaign.Some? ==> f.campaign.value in campaigns)
      modifies this`nodes, this`campaigns, this`lastSequence, this`inFlight
      ensures Value() == P.Accept(old(Value()), call, f)
    {
      var previous := if f.node in lastSequence then Some(lastSequence[f.node]) else None;
      nodes := nodes[f.node := P.AddReceivedNode(nodes[f.node], f)];
      if f.campaign.Some? {
        var c := f.campaign.value;
        campaigns := campaigns[c := campaigns[c].(received := campaigns[c].received + 1)];
      }
      lastSequence := lastSequence[f.node := f.sequence];
      inFlight := inFlight[call := P.Ticket(f, previous)];
    }

    /** The first critical section. */
    method Claim(f: P.Frame) returns (call: nat, reply: P.Reply)
      requires Valid()
      modifies this
      ensures Valid()
      ensures call !in old(inFlight) && reply == P.ClaimReply(old(Value()), f)
      ensures Value() == P.Claim(old(Value()), call, f)
      ensures history == old(history) + [P.ClaimEvent(call, f)]
    {
      call := nextCall;
      var refusal := Admit(f);
      if refusal.Some? {
        reply := P.Rejected(refusal.value);
      } else if f.node in lastSequence && f.sequence <= lastSequence[f.node] {
        reply := AnswerLate(f);
      } else {
        reply := P.Claimed;
        Accept(call, f);
        nextCall := nextCall + 1;
      }
      Record(P.ClaimEvent(call, f));
    }

    /** The second critical section after a successful analysis. */
    method Commit(call: nat, analysis: string)
      requires Valid() && call in inFlight
      modifies this
      ensures Valid() && Value() == P.Commit(old(Value()), call, analysis)
      ensures history == old(history) + [P.CommitEvent(call, analysis)]
    {
      var f := inFlight[call].frame;
      frameHashes := frameHashes[P.KeyOf(f) := f];
      analyses := analyses[P.KeyOf(f) := analysis];
      inFlight := inFlight - {call};
      Record(P.CommitEvent(call, analysis));
    }

    method UndoCounters(f: P.Frame)
      modifies this`nodes, this`campaigns
      ensures nodes
           == if f.node !in old(nodes) then old(nodes)
              else
                var n := old(nodes)[f.node];
                old(nodes)[f.node := n.(received := P.Decrement(n.received))]
      ensures campaigns
           == if f.campaign.None? || f.campaign.value !in old(campaigns) then old(campaigns)
              else
                var c := old(campaigns)[f.campaign.value];
                old(campaigns)[f.campaign.value := c.(received := P.Decrement(c.received))]
    {
      if f.node in nodes {
        nodes := nodes[f.node := nodes[f.node].(received := P.Decrement(nodes[f.node].received))];
      }
      if f.campaign.Some? && f.campaign.value in campaigns {
        var c := f.campaign.value;
        campaigns := campaigns[c := campaigns[c].(received := P.Decrement(campaigns[c].received))];
      }
    }

    method RewindSequence(t: P.Ticket)
      modifies this`lastSequence
      ensures lastSequence == P.LastAfterRollback(old(lastSequence), t)
    {
      if t.frame.node in lastSequence && lastSequence[t.frame.node] == t.frame.sequence {
        if t.previous.None? {
          lastSequence := lastSequence - {t.frame.node};
        } else {
          lastSequence := lastSequence[t.frame.node := t.previous.value];
        }
      }
    }

    /** The second critical section after a failed analysis. */
    method Rollback(call: nat)
      requires Valid() && call in inFlight
      modifies this
      ensures Valid() && Value() == P.Rollback(old(Value()), call)
      ensures history == old(history) + [P.RollbackEvent(call)]
    {
      var t := inFlight[call];
      UndoCounters(t.frame);
      RewindSequence(t);
      inFlight := inFlight - {call};
      Record(P.RollbackEvent(call));
    }
  }
}
