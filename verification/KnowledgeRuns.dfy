/** Every operation of the knowledge evolution store over all runs. */
module KnowledgeRuns {
  import opened Wrappers
  import opened Schema
  import opened KnowledgeEvolution
  import G = EvidenceGraph

  // ----- rewriting one version

  predicate SameShape(v: Version, v': Version) {
    v'.id == v.id && v'.root == v.root && v'.number == v.number && v'.parent == v.parent
  }

  lemma RewriteKeepsFamily(versions: map<string, Version>, k: string, v: Version, root: string)
    requires k in versions && SameShape(versions[k], v)
    ensures Family(versions[k := v], root) == Family(versions, root)
  {
  }

  lemma RewriteKeepsRange(versions: map<string, Version>, k: string, v: Version)
    requires k in versions && SameShape(versions[k], v) && NumbersInRange(versions) && NumbersDistinct(versions)
    ensures NumbersInRange(versions[k := v]) && NumbersDistinct(versions[k := v])
  {
    hide Family;
    var more := versions[k := v];
    forall l | l in more
      ensures 1 <= more[l].number <= |Family(more, more[l].root)|
    {
      RewriteKeepsFamily(versions, k, v, more[l].root);
    }
  }

  lemma RewriteKeepsComplete(versions: map<string, Version>, k: string, v: Version)
    requires k in versions && SameShape(versions[k], v) && NumbersComplete(versions)
    ensures NumbersComplete(versions[k := v])
  {
    hide Family;
    var more := versions[k := v];
    forall l, n: nat | l in more && 1 <= n <= |Family(more, more[l].root)|
      ensures IsNumbered(more, more[l].root, n)
    {
      RewriteKeepsFamily(versions, k, v, more[l].root);
      assert IsNumbered(versions, versions[l].root, n);
      var m :| m in versions && versions[m].root == versions[l].root && versions[m].number == n;
      assert m in more && more[m].root == versions[m].root;
    }
  }

  lemma RewriteKeepsNumbers(versions: map<string, Version>, k: string, v: Version)
    requires k in versions && SameShape(versions[k], v) && WellNumbered(versions)
    ensures WellNumbered(versions[k := v])
  {
    hide NumbersInRange, NumbersDistinct, NumbersComplete;
    var more := versions[k := v];
    RewriteKeepsRange(versions, k, v);
    RewriteKeepsComplete(versions, k, v);
    forall l | l in more
      ensures RootKnown(more, l)
    {
      assert RootKnown(versions, l);
    }
  }

  lemma RewriteKeepsLinks(versions: map<string, Version>, k: string, v: Version)
    requires k in versions && SameShape(versions[k], v) && SuccessorsLinked(versions)
    requires v.successor == versions[k].successor || (v.successor.Some? && IsLink(versions, k, v.successor.value))
    ensures SuccessorsLinked(versions[k := v])
  {
    var more := versions[k := v];
    forall a, b | IsLink(versions, a, b)
      ensures IsLink(more, a, b)
    {}
  }

  // ----- a new version in a family

  lemma NewMemberFamily(versions: map<string, Version>, v: Version)
    requires v.id !in versions
    ensures var more := versions[v.id := v];
            && Family(more, v.root) == Family(versions, v.root) + {v.id}
            && forall r :: r != v.root ==> Family(more, r) == Family(versions, r)
  {
  }

  lemma NewMemberRange(versions: map<string, Version>, k: string, v: Version)
    requires k in versions && v.id !in versions && v.root == versions[k].root
    requires v.number == |Family(versions, v.root)| + 1
    requires NumbersInRange(versions) && NumbersDistinct(versions)
    ensures NumbersInRange(versions[v.id := v]) && NumbersDistinct(versions[v.id := v])
  {
    var more := versions[v.id := v];
    assert v.id !in Family(versions, v.root);
    hide Family;
    NewMemberFamily(versions, v);
    assert |Family(more, v.root)| == v.number;
    forall l | l in versions && versions[l].root == v.root
      ensures versions[l].number < v.number
    {}
  }

  lemma NewMemberComplete(versions: map<string, Version>, k: string, v: Version)
    requires k in versions && v.id !in versions && v.root == versions[k].root
    requires v.number == |Family(versions, v.root)| + 1
    requires NumbersComplete(versions)
    ensures NumbersComplete(versions[v.id := v])
  {
    var more := versions[v.id := v];
    assert v.id !in Family(versions, v.root);
    hide Family;
    NewMemberFamily(versions, v);
    forall l, n: nat | l in more && 1 <= n <= |Family(more, more[l].root)|
      ensures IsNumbered(more, more[l].root, n)
    {
      if more[l].root == v.root && n == v.number {
        assert more[v.id].number == n;
      } else {
        var l' := if l == v.id then k else l;
        assert versions[l'].root == more[l].root;
        assert IsNumbered(versions, versions[l'].root, n);
        var m :| m in versions && versions[m].root == versions[l'].root && versions[m].number == n;
        assert m in more && more[m] == versions[m];
      }
    }
  }

  lemma NewMemberNumbers(versions: map<string, Version>, k: string, v: Version)
    requires k in versions && v.id !in versions && v.root == versions[k].root
    requires v.number == |Family(versions, v.root)| + 1 && WellNumbered(versions)
    ensures WellNumbered(versions[v.id := v])
  {
    hide NumbersInRange, NumbersDistinct, NumbersComplete, Family;
    var more := versions[v.id := v];
    NewMemberRange(versions, k, v);
    NewMemberComplete(versions, k, v);
    assert RootKnown(versions, k);
    forall l | l in more
      ensures RootKnown(more, l)
    {
      assert l != v.id ==> RootKnown(versions, l);
    }
  }

  lemma NewVersionKeepsLinks(versions: map<string, Version>, v: Version)
    requires v.id !in versions && SuccessorsLinked(versions) && v.successor.None?
    requires v.parent.Some? ==>
               v.parent.value in versions && v.root == versions[v.parent.value].root
                 && v.number > versions[v.parent.value].number
    ensures SuccessorsLinked(versions[v.id := v])
  {
    var more := versions[v.id := v];
    forall a, b | IsLink(versions, a, b)
      ensures IsLink(more, a, b)
    {}
  }

  // ----- the graph

  lemma LinksStay(s: State, t: State)
    requires LinksInGraph(s) && s.graph.edges <= t.graph.edges
    requires forall k :: k in t.versions && t.versions[k].parent.Some? ==>
               k in s.versions && s.versions[k].parent == t.versions[k].parent
    ensures LinksInGraph(t)
  {
    forall k | k in t.versions && t.versions[k].parent.Some?
      ensures IsMirrored(t.graph, k, t.versions[k].parent.value)
    {
      MirrorStays(s.graph, t.graph, k, t.versions[k].parent.value);
    }
  }

  lemma MirrorStays(g: G.Graph, h: G.Graph, later: string, earlier: string)
    requires g.edges <= h.edges && IsMirrored(g, later, earlier)
    ensures IsMirrored(h, later, earlier)
  {
    var e :| e in g.edges && (G.IsTriple(e, later, earlier, Revises) || G.IsTriple(e, later, earlier, Supersedes));
    assert e in h.edges;
  }

  // ----- bootstrap

  /** Knowledge enters the store after its node entered the graph. */
  lemma BootstrapKeepsInvariant(s: State, id: string, branch: string, statement: string)
    requires Invariant(s) && id in s.graph.nodes
    ensures Invariant(Bootstrap(s, id, branch, statement))
  {
    hide WellNumbered, SuccessorsLinked, LinksInGraph, LogReplays, G.IsDag, ChallengedHasOpen, ChallengesKnown;
    if id !in s.versions {
      var v := Version(id, id, 1, branch, statement, IsAccepted, None, None, []);
      var t := Bootstrap(s, id, branch, statement);
      NewRootNumbers(s.versions, v);
      NewVersionKeepsLinks(s.versions, v);
      LinksStay(s, t);
      LogGrows(s, t, Event(id, None, IsAccepted, None));
      OpenChallengesStay(s, t, id);
    }
  }

  lemma OpenChallengesStay(s: State, t: State, id: string)
    requires ChallengedHasOpen(s) && ChallengesKnown(s) && t.challenges == s.challenges
    requires t.versions.Keys == s.versions.Keys + {id} && t.versions[id].state.IsAccepted?
              && t.versions[id].challengeIds == []
    requires forall k :: k in s.versions && k != id ==> t.versions[k] == s.versions[k]
    ensures ChallengedHasOpen(t) && ChallengesKnown(t)
  {
    forall k | k in s.versions && k != id
      ensures HasOpenChallenge(t, t.versions[k]) == HasOpenChallenge(s, s.versions[k])
    {}
  }

  // ----- challenge

  lemma ChallengeAccepted(s: State, k: string, c: string, evidence: seq<string>, description: string)
    requires Invariant(s) && k in s.versions && !IsFinal(s.versions[k].state)
    requires c !in s.graph.nodes && c !in s.challenges
    requires forall id :: id in evidence ==> id in s.graph.nodes
    ensures var (t, r) := RaiseChallenge(s, k, c, evidence, description);
            && r.Ok? && G.IsDag(t.graph) && G.Extends(s.graph, t.graph)
            && t.events == s.events + [Event(k, Some(s.versions[k].state), IsChallenged, Some(c))]
  {
    hide WellNumbered, SuccessorsLinked, LinksInGraph, LogReplays, G.IsDag, ChallengedHasOpen, ChallengesKnown;
    hide G.Attach, G.Apply;
    var node := Node(c, Some(s.versions[k].branch), NodeKind.Challenge, description, Plain);
    G.FreshNodeIsAccepted(s.graph, node, k, Challenges, Some(s.versions[k].branch));
    G.AttachKeepsDag(s.graph, node, k, Challenges, Some(s.versions[k].branch));
  }

  lemma ChallengeOpens(s: State, t: State, k: string, c: string)
    requires ChallengedHasOpen(s) && ChallengesKnown(s) && k in s.versions && c !in s.challenges
    requires t.versions == s.versions[k := s.versions[k].(state := IsChallenged,
                                                          challengeIds := s.versions[k].challengeIds + [c])]
    requires t.challenges == s.challenges[c := ChallengeRecord(c, k, true)]
    ensures ChallengedHasOpen(t) && ChallengesKnown(t)
  {
    var v := t.versions[k];
    assert v.challengeIds[|v.challengeIds| - 1] == c;
    assert HasOpenChallenge(t, v) by {
      assert c in v.challengeIds && c in t.challenges && t.challenges[c].isOpen;
    }
    forall l | l in s.versions && l != k
      ensures HasOpenChallenge(t, t.versions[l]) == HasOpenChallenge(s, s.versions[l])
    {
      assert forall x :: x in s.versions[l].challengeIds ==> x in s.challenges && x != c;
    }
  }

  lemma ChallengeKeepsInvariant(s: State, k: string, c: string, evidence: seq<string>, description: string)
    requires Invariant(s) && c !in s.graph.nodes && c !in s.challenges
    ensures Invariant(RaiseChallenge(s, k, c, evidence, description).0)
    ensures RaiseChallenge(s, k, c, evidence, description).1.Ok? <==>
              k in s.versions && !IsFinal(s.versions[k].state) && forall id :: id in evidence ==> id in s.graph.nodes
  {
    hide WellNumbered, SuccessorsLinked, LinksInGraph, LogReplays, G.IsDag, G.AddChallenge, ChallengedHasOpen,
      ChallengesKnown;
    if k in s.versions && !IsFinal(s.versions[k].state) && forall id :: id in evidence ==> id in s.graph.nodes {
      ChallengeAccepted(s, k, c, evidence, description);
      var t := RaiseChallenge(s, k, c, evidence, description).0;
      var v := s.versions[k].(state := IsChallenged, challengeIds := s.versions[k].challengeIds + [c]);
      RewriteKeepsNumbers(s.versions, k, v);
      RewriteKeepsLinks(s.versions, k, v);
      LinksStay(s, t);
      LogGrows(s, t, Event(k, Some(s.versions[k].state), IsChallenged, Some(c)));
      ChallengeOpens(s, t, k, c);
    }
  }

  // ----- revoke

  lemma RevokeCloses(s: State, t: State, k: string)
    requires ChallengedHasOpen(s) && ChallengesKnown(s) && k in s.versions
    requires t.versions == s.versions[k := s.versions[k].(state := IsRevoked)]
    requires t.challenges == CloseAll(s.challenges, s.versions[k].challengeIds)
    ensures ChallengedHasOpen(t) && ChallengesKnown(t)
  {
    forall l | l in s.versions && l != k
      ensures HasOpenChallenge(t, t.versions[l]) == HasOpenChallenge(s, s.versions[l])
    {
      assert forall x :: x in s.versions[l].challengeIds ==>
          x in s.challenges && x !in s.versions[k].challengeIds && t.challenges[x] == s.challenges[x];
    }
  }

  lemma RevokeKeepsInvariant(s: State, k: string)
    requires Invariant(s)
    ensures Invariant(Revoke(s, k).0)
  {
    hide WellNumbered, SuccessorsLinked, LinksInGraph, LogReplays, G.IsDag, ChallengedHasOpen, ChallengesKnown;
    if k in s.versions && !IsFinal(s.versions[k].state) {
      var t := Revoke(s, k).0;
      var v := s.versions[k].(state := IsRevoked);
      RewriteKeepsNumbers(s.versions, k, v);
      RewriteKeepsLinks(s.versions, k, v);
      LinksStay(s, t);
      LogGrows(s, t, Event(k, Some(s.versions[k].state), IsRevoked, None));
      RevokeCloses(s, t, k);
    }
  }

  // ----- succession

  predicate CanSucceed(s: State, k: string, challenge: string) {
    && k in s.versions && s.versions[k].state.IsChallenged?
    && challenge in s.challenges && s.challenges[challenge].knowledge == k && s.challenges[challenge].isOpen
  }

  lemma SuccessorLinksGraph(s: State, k: string, newId: string, branch: string, statement: string, kind: EdgeKind)
    requires Invariant(s) && k in s.versions && newId !in s.graph.nodes
    ensures var (g, r) := G.LinkTransition(G.PutNode(s.graph, Node(newId, Some(branch), Knowledge, statement, Plain)),
              newId, k, kind);
            && r.Ok? && G.IsDag(g) && G.Extends(s.graph, g) && newId in g.nodes && G.HasTriple(g.edges, newId, k, kind)
  {
    var node := Node(newId, Some(branch), Knowledge, statement, Plain);
    var g1 := G.PutNode(s.graph, node);
    G.PutNodeKeepsDag(s.graph, node);
    var e := Edge(newId, k, kind, Some(branch));
    G.FreshNodeIsAccepted(s.graph, node, k, kind, Some(branch));
    G.EnsureEdgeKeepsDag(g1, e);
    assert G.LinkTransition(g1, newId, k, kind) == G.EnsureEdge(g1, e);
  }

  lemma SuccessionCloses(s: State, t: State, k: string, newId: string, challenge: string)
    requires ChallengedHasOpen(s) && ChallengesKnown(s) && CanSucceed(s, k, challenge) && newId !in s.versions
    requires t.versions.Keys == s.versions.Keys + {newId}
    requires t.versions[newId].state.IsAccepted? && t.versions[newId].challengeIds == []
    requires t.versions[k].state.IsRevised? || t.versions[k].state.IsSuperseded?
    requires t.versions[k].challengeIds == s.versions[k].challengeIds
    requires forall l :: l in s.versions && l != k ==> t.versions[l] == s.versions[l]
    requires t.challenges == s.challenges[challenge := s.challenges[challenge].(isOpen := false)]
    ensures ChallengedHasOpen(t) && ChallengesKnown(t)
  {
    forall l | l in s.versions && l != k
      ensures HasOpenChallenge(t, t.versions[l]) == HasOpenChallenge(s, s.versions[l])
    {
      assert forall x :: x in s.versions[l].challengeIds ==> x in s.challenges && x != challenge;
    }
  }

  lemma LogGrowsTwice(s: State, t: State, k: string, newId: string, terminal: KnowledgeState)
    requires LogReplays(s) && k in s.versions && newId !in s.versions
    requires t.events == s.events + [Event(k, Some(s.versions[k].state), terminal, Some(newId)),
              Event(newId, None, IsAccepted, Some(k))]
    requires t.versions.Keys == s.versions.Keys + {newId}
    requires t.versions[k].state == terminal && t.versions[newId].state.IsAccepted?
    requires forall l :: l in s.versions && l != k ==> t.versions[l].state == s.versions[l].state
    ensures LogReplays(t)
  {
    hide LogReplays;
    var e, f := Event(k, Some(s.versions[k].state), terminal, Some(newId)), Event(newId, None, IsAccepted, Some(k));
    var m := s.(versions := s.versions[k := s.versions[k].(state := terminal)], events := s.events + [e]);
    LogGrows(s, m, e);
    assert t.events == m.events + [f];
    LogGrows(m, t, f);
  }

  lemma SuccessionNumbers(s: State, k: string, next: Version, v: Version)
    requires k in s.versions && next.id !in s.versions && SameShape(s.versions[k], v)
    requires WellNumbered(s.versions) && SuccessorsLinked(s.versions)
    requires next.root == s.versions[k].root && next.parent == Some(k) && next.successor.None?
    requires next.number == MaxNumber(s.versions, Family(s.versions, next.root)) + 1
    requires v.successor == Some(next.id)
    ensures var more := s.versions[k := v][next.id := next];
            WellNumbered(more) && SuccessorsLinked(more)
  {
    hide RootsKnown, NumbersDistinct, NumbersComplete, SuccessorsLinked, Family, MaxNumber;
    MaxIsFamilySize(s.versions, k);
    assert s.versions[k].number <= |Family(s.versions, next.root)|;
    hide NumbersInRange;
    NewMemberNumbers(s.versions, k, next);
    NewVersionKeepsLinks(s.versions, next);
    var grown := s.versions[next.id := next];
    assert IsLink(grown, k, next.id);
    RewriteKeepsNumbers(grown, k, v);
    RewriteKeepsLinks(grown, k, v);
    assert s.versions[k := v][next.id := next] == grown[k := v];
  }

  /** A successor is never refused by the graph, gets the next number, and keeps
      the invariant. */
  lemma SucceedKeepsInvariant(
    s: State, k: string, newId: string, branch: string, statement: string, challenge: string,
    terminal: KnowledgeState, kind: EdgeKind)
    requires Invariant(s) && newId !in s.graph.nodes && IsTransition(kind, terminal)
    ensures Succeed(s, k, newId, branch, statement, challenge, terminal, kind).1.Ok? <==> CanSucceed(s, k, challenge)
    ensures Invariant(Succeed(s, k, newId, branch, statement, challenge, terminal, kind).0)
  {
    hide WellNumbered, SuccessorsLinked, LogReplays, G.IsDag, G.LinkTransition, G.PutNode;
    hide ChallengedHasOpen, ChallengesKnown, LinksInGraph, Family, MaxNumber;
    if CanSucceed(s, k, challenge) {
      assert newId !in s.versions;
      SuccessorLinksGraph(s, k, newId, branch, statement, kind);
      var t := Succeed(s, k, newId, branch, statement, challenge, terminal, kind).0;
      SuccessionNumbers(s, k, t.versions[newId], s.versions[k].(state := terminal, successor := Some(newId)));
      SuccessionCloses(s, t, k, newId, challenge);
      LogGrowsTwice(s, t, k, newId, terminal);
      NewLinkInGraph(s, t, k, newId, kind);
    }
  }

  lemma NewLinkInGraph(s: State, t: State, k: string, newId: string, kind: EdgeKind)
    requires LinksInGraph(s) && s.graph.edges <= t.graph.edges && G.HasTriple(t.graph.edges, newId, k, kind)
    requires kind.Revises? || kind.Supersedes?
    requires t.versions.Keys == s.versions.Keys + {newId} && t.versions[newId].parent == Some(k)
    requires forall l :: l in s.versions && l != newId ==> t.versions[l].parent == s.versions[l].parent
    ensures LinksInGraph(t)
  {
    forall l | l in t.versions && t.versions[l].parent.Some?
      ensures IsMirrored(t.graph, l, t.versions[l].parent.value)
    {
      if l != newId {
        MirrorStays(s.graph, t.graph, l, t.versions[l].parent.value);
      }
    }
  }

  // ----- runs

  datatype Operation =
    | BootstrapOp(id: string, branch: string, statement: string)
    | ChallengeOp(k: string, c: string, evidence: seq<string>, description: string)
    | RevokeOp(k: string)
    | SucceedOp(k: string, newId: string, branch: string, statement: string, challenge: string,
      terminal: KnowledgeState, kind: EdgeKind)
    | GraphOp(op: G.Operation)

  /** Drawn ids are fresh, and knowledge is in the graph before it is bootstrapped. */
  predicate IsAllowed(s: State, op: Operation) {
    match op
    case BootstrapOp(id, _, _) => id in s.graph.nodes
    case ChallengeOp(_, c, _, _) => c !in s.graph.nodes && c !in s.challenges
    case RevokeOp(_) => true
    case SucceedOp(_, newId, _, _, _, terminal, kind) => newId !in s.graph.nodes && IsTransition(kind, terminal)
    case GraphOp(_) => true
  }

  ghost function Apply(s: State, op: Operation): State {
    match op
    case BootstrapOp(id, branch, statement) => Bootstrap(s, id, branch, statement)
    case ChallengeOp(k, c, evidence, description) => RaiseChallenge(s, k, c, evidence, description).0
    case RevokeOp(k) => Revoke(s, k).0
    case SucceedOp(k, newId, branch, statement, challenge, terminal, kind) =>
      Succeed(s, k, newId, branch, statement, challenge, terminal, kind).0
    case GraphOp(g) => s.(graph := G.Apply(s.graph, g).0)
  }

  lemma LogIgnoresGraph(s: State, t: State)
    requires LogReplays(s) && t.events == s.events && t.versions == s.versions
    ensures LogReplays(t)
  {
    hide Replay;
  }

  lemma GraphStepKeepsInvariant(s: State, op: G.Operation)
    requires Invariant(s)
    ensures Invariant(s.(graph := G.Apply(s.graph, op).0))
  {
    hide WellNumbered, SuccessorsLinked, LogReplays, G.IsDag, G.Apply, LinksInGraph;
    G.ApplyKeepsDag(s.graph, op);
    var t := s.(graph := G.Apply(s.graph, op).0);
    LinksStay(s, t);
    assert LogReplays(t) by { LogIgnoresGraph(s, t); }
    forall v
      ensures HasOpenChallenge(t, v) == HasOpenChallenge(s, v)
    {}
  }

  lemma ApplyKeepsInvariant(s: State, op: Operation)
    requires Invariant(s) && IsAllowed(s, op)
    ensures Invariant(Apply(s, op))
  {
    hide Invariant;
    match op
    case BootstrapOp(id, branch, statement) => BootstrapKeepsInvariant(s, id, branch, statement);
    case ChallengeOp(k, c, evidence, description) => ChallengeKeepsInvariant(s, k, c, evidence, description);
    case RevokeOp(k) => RevokeKeepsInvariant(s, k);
    case SucceedOp(k, newId, branch, statement, challenge, terminal, kind) =>
      SucceedKeepsInvariant(s, k, newId, branch, statement, challenge, terminal, kind);
    case GraphOp(g) => GraphStepKeepsInvariant(s, g);
  }

  const Initial := State(map[], map[], [], G.Empty)

  ghost function Run(ops: seq<Operation>): State {
    if ops == [] then Initial else Apply(Run(ops[..|ops| - 1]), ops[|ops| - 1])
  }

  ghost predicate RunsAllowed(ops: seq<Operation>) {
    ops == [] || (RunsAllowed(ops[..|ops| - 1]) && IsAllowed(Run(ops[..|ops| - 1]), ops[|ops| - 1]))
  }

  lemma InitialInvariant()
    ensures Invariant(Initial)
  {
    G.EmptyIsDag();
    assert forall k :: Replay([], k) == Unborn;
  }

  lemma {:induction false} EveryRunKeepsInvariant(ops: seq<Operation>)
    requires RunsAllowed(ops)
    ensures Invariant(Run(ops))
  {
    if ops == [] {
      InitialInvariant();
    } else {
      EveryRunKeepsInvariant(ops[..|ops| - 1]);
      ApplyKeepsInvariant(Run(ops[..|ops| - 1]), ops[|ops| - 1]);
    }
  }

  /** In every run the events of an item chain from its creation to its current
      state, and only stored items have events. */
  lemma EveryItemsEventsChain(ops: seq<Operation>, k: string)
    requires RunsAllowed(ops)
    ensures var es := EventsOf(Run(ops).events, k);
            if k in Run(ops).versions
            then es != [] && IsChain(es) && es[|es| - 1].to == Run(ops).versions[k].state
            else es == []
  {
    EveryRunKeepsInvariant(ops);
    hide Run, RunsAllowed;
    ReplayableLogChains(Run(ops), k);
  }

  lemma ReplayableLogChains(s: State, k: string)
    requires LogReplays(s)
    ensures var es := EventsOf(s.events, k);
            if k in s.versions
            then es != [] && IsChain(es) && es[|es| - 1].to == s.versions[k].state
            else es == []
  {
    assert Replay(s.events, k) == if k in s.versions then Reached(s.versions[k].state) else Unborn;
    hide LogReplays, Replay, EventsOf, IsChain;
    ReplayedIffChained(s.events, k);
  }

  lemma FinalStays(s: State, op: Operation, k: string)
    requires Invariant(s) && IsAllowed(s, op)
    requires k in s.versions && IsFinal(s.versions[k].state)
    ensures k in Apply(s, op).versions && Apply(s, op).versions[k].state == s.versions[k].state
    ensures s.events <= Apply(s, op).events
  {
    hide WellNumbered, SuccessorsLinked, LogReplays, G.IsDag, LinksInGraph;
    hide ChallengedHasOpen, ChallengesKnown, G.Apply, G.AddChallenge, G.LinkTransition, MaxNumber;
  }

  /** Once revoked or superseded, for ever: whatever follows the first n operations. */
  lemma {:induction false} FinalStatesAreFinal(ops: seq<Operation>, n: nat, k: string)
    requires RunsAllowed(ops) && n <= |ops|
    requires k in Run(ops[..n]).versions && IsFinal(Run(ops[..n]).versions[k].state)
    ensures k in Run(ops).versions && Run(ops).versions[k].state == Run(ops[..n]).versions[k].state
  {
    if n == |ops| {
      assert ops[..n] == ops;
    } else {
      var init := ops[..|ops| - 1];
      assert init[..n] == ops[..n];
      FinalStatesAreFinal(init, n, k);
      EveryRunKeepsInvariant(init);
      FinalStays(Run(init), ops[|ops| - 1], k);
    }
  }

  /** What the invariant says about numbering: for every n between 1 and the size
      of the family there is exactly one version, and there are no others. */
  lemma NumbersRunFromOne(s: State, k: string, n: nat)
    requires Invariant(s) && k in s.versions
    ensures 1 <= n <= |Family(s.versions, s.versions[k].root)| <==>
              exists l :: l in Family(s.versions, s.versions[k].root) && s.versions[l].number == n
    ensures forall l, m ::
              l in Family(s.versions, s.versions[k].root) && m in Family(s.versions, s.versions[k].root) ==>
              s.versions[l].number == s.versions[m].number ==> l == m
  {
    hide RootsKnown, SuccessorsLinked, LogReplays, G.IsDag, LinksInGraph, ChallengedHasOpen, ChallengesKnown;
    var root := s.versions[k].root;
    if 1 <= n <= |Family(s.versions, root)| {
      assert IsNumbered(s.versions, s.versions[k].root, n);
      var l :| l in s.versions && s.versions[l].root == root && s.versions[l].number == n;
      assert l in Family(s.versions, root);
    }
  }

  predicate IsOpenBeside(s: State, k: string, c: string, other: string)
    requires k in s.versions
  {
    other in s.versions[k].challengeIds && other != c && other in s.challenges && s.challenges[other].isOpen
  }

  /** A successor closes only the challenge it answers: the succeeded item keeps an
      open challenge exactly if it had a second one. */
  lemma SucceededKeepsOpenChallengeIff(
    s: State, k: string, newId: string, branch: string, statement: string, c: string,
    terminal: KnowledgeState, kind: EdgeKind)
    requires Invariant(s) && newId !in s.graph.nodes && CanSucceed(s, k, c) && IsTransition(kind, terminal)
    ensures var t := Succeed(s, k, newId, branch, statement, c, terminal, kind).0;
            && k in t.versions && t.versions[k].state == terminal
            && (HasOpenChallenge(t, t.versions[k]) <==> exists other :: IsOpenBeside(s, k, c, other))
  {
    SuccessorLinksGraph(s, k, newId, branch, statement, kind);
    assert newId !in s.versions;
    hide Invariant, G.LinkTransition, MaxNumber, Family;
    var t := Succeed(s, k, newId, branch, statement, c, terminal, kind).0;
    if other :| IsOpenBeside(s, k, c, other) {
      assert other in t.versions[k].challengeIds && other in t.challenges && t.challenges[other].isOpen;
    }
    if HasOpenChallenge(t, t.versions[k]) {
      var other :| other in t.versions[k].challengeIds && other in t.challenges && t.challenges[other].isOpen;
      assert IsOpenBeside(s, k, c, other);
    }
  }

  // ----- such a state is reached

  /** Knowledge enters the graph and the store. */
  function AcceptedOnce(): seq<Operation> {
    [GraphOp(G.PutOp(Node("k", Some("b"), Knowledge, "", Plain)))] + [BootstrapOp("k", "b", "")]
  }

  /** It is challenged twice. */
  function TwiceChallenged(): seq<Operation> {
    AcceptedOnce() + [ChallengeOp("k", "x", [], "")] + [ChallengeOp("k", "y", [], "")]
  }

  lemma RunAppend(ops: seq<Operation>, op: Operation)
    ensures Run(ops + [op]) == Apply(Run(ops), op)
    ensures RunsAllowed(ops + [op]) <==> RunsAllowed(ops) && IsAllowed(Run(ops), op)
  {
    assert (ops + [op])[..|ops|] == ops;
  }

  /** An item with the given open challenges and nothing else in the store. */
  predicate IsLoneItem(s: State, ids: seq<string>) {
    && "k" in s.versions && s.versions["k"].challengeIds == ids
    && s.versions["k"].state == (if ids == [] then IsAccepted else IsChallenged)
    && s.graph.nodes.Keys == {"k"} + (set c | c in ids)
    && s.challenges.Keys == (set c | c in ids)
    && forall c :: c in ids ==> s.challenges[c] == ChallengeRecord(c, "k", true)
  }

  lemma LoneItemIsChallenged(s: State, ids: seq<string>, c: string)
    requires Invariant(s) && IsLoneItem(s, ids) && c != "k" && c !in ids
    ensures IsAllowed(s, ChallengeOp("k", c, [], "")) && IsLoneItem(Apply(s, ChallengeOp("k", c, [], "")), ids + [c])
  {
    hide WellNumbered, SuccessorsLinked, LinksInGraph, LogReplays, G.IsDag, ChallengedHasOpen, ChallengesKnown;
    hide G.Attach, G.Apply;
    var v := s.versions["k"];
    var node := Node(c, Some(v.branch), NodeKind.Challenge, "", Plain);
    G.FreshNodeIsAccepted(s.graph, node, "k", Challenges, Some(v.branch));
    assert G.AddChallenge(s.graph, c, "k", Some(v.branch), "").0.nodes == s.graph.nodes[c := node];
    assert (set x | x in ids + [c]) == (set x | x in ids) + {c};
  }

  lemma LoneItemIsBootstrapped()
    ensures RunsAllowed(AcceptedOnce()) && IsLoneItem(Run(AcceptedOnce()), [])
  {
    var put, start := AcceptedOnce()[0], AcceptedOnce()[1];
    assert Run([]) == Initial && RunsAllowed([]);
    RunAppend([], put);
    assert [] + [put] == [put];
    RunAppend([put], start);
    assert AcceptedOnce() == [put] + [start];
    assert Run([put]) == Initial.(graph := G.PutNode(G.Empty, put.op.node));
  }

  lemma TwiceChallengedIsReached()
    ensures RunsAllowed(TwiceChallenged()) && IsLoneItem(Run(TwiceChallenged()), ["x", "y"])
  {
    hide Run, RunsAllowed, Apply, Invariant, IsLoneItem, IsAllowed, AcceptedOnce;
    var once := AcceptedOnce() + [ChallengeOp("k", "x", [], "")];
    LoneItemIsBootstrapped();
    EveryRunKeepsInvariant(AcceptedOnce());
    LoneItemIsChallenged(Run(AcceptedOnce()), [], "x");
    RunAppend(AcceptedOnce(), ChallengeOp("k", "x", [], ""));
    assert [] + ["x"] == ["x"];
    EveryRunKeepsInvariant(once);
    LoneItemIsChallenged(Run(once), ["x"], "y");
    RunAppend(once, ChallengeOp("k", "y", [], ""));
    assert ["x"] + ["y"] == ["x", "y"];
  }

  /** A superseded item with an open challenge is reached. */
  lemma SupersededKeepsOpenChallenge()
    ensures var ops := TwiceChallenged() + [SucceedOp("k", "n", "b", "", "x", IsSuperseded, Supersedes)];
            && RunsAllowed(ops)
            && "k" in Run(ops).versions && Run(ops).versions["k"].state.IsSuperseded?
            && HasOpenChallenge(Run(ops), Run(ops).versions["k"])
  {
    hide Run, RunsAllowed, Apply, Invariant, HasOpenChallenge, IsLoneItem, IsAllowed, TwiceChallenged;
    TwiceChallengedIsReached();
    EveryRunKeepsInvariant(TwiceChallenged());
    LoneItemIsSuperseded(Run(TwiceChallenged()));
    RunAppend(TwiceChallenged(), SucceedOp("k", "n", "b", "", "x", IsSuperseded, Supersedes));
  }

  lemma LoneItemIsSuperseded(s: State)
    requires Invariant(s) && IsLoneItem(s, ["x", "y"])
    ensures var op := SucceedOp("k", "n", "b", "", "x", IsSuperseded, Supersedes);
            && IsAllowed(s, op)
            && "k" in Apply(s, op).versions && Apply(s, op).versions["k"].state.IsSuperseded?
            && HasOpenChallenge(Apply(s, op), Apply(s, op).versions["k"])
  {
    LoneItemCanSucceed(s);
    hide Invariant, Succeed, HasOpenChallenge, IsLoneItem, CanSucceed, IsOpenBeside;
    SucceededKeepsOpenChallengeIff(s, "k", "n", "b", "", "x", IsSuperseded, Supersedes);
  }

  lemma LoneItemCanSucceed(s: State)
    requires IsLoneItem(s, ["x", "y"])
    ensures CanSucceed(s, "k", "x") && "n" !in s.graph.nodes && IsOpenBeside(s, "k", "x", "y")
  {
    var ids := ["x", "y"];
    assert ids[0] == "x" && ids[1] == "y" && "n" !in ids;
    assert "n" !in (set c | c in ids) && "n" !in {"k"};
  }
}
