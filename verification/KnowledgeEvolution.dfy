/** Versioned knowledge: challenges, terminal transitions and successors, with an
    append-only event log and successor links mirrored into the evidence graph. */
module KnowledgeEvolution {
  import opened Wrappers
  import opened Schema
  import G = EvidenceGraph

  datatype KnowledgeState = IsAccepted | IsChallenged | IsRevised | IsRevoked | IsSuperseded

  datatype Version = Version(
    id: string, root: string, number: nat, branch: string, statement: string, state: KnowledgeState,
    parent: Option<string>, successor: Option<string>, challengeIds: seq<string>)

  datatype ChallengeRecord = ChallengeRecord(id: string, knowledge: string, isOpen: bool)

  datatype Event = Event(knowledge: string, from: Option<KnowledgeState>, to: KnowledgeState, related: Option<string>)

  datatype State = State(
    versions: map<string, Version>, challenges: map<string, ChallengeRecord>, events: seq<Event>, graph: G.Graph)

  predicate IsFinal(s: KnowledgeState) {
    s.IsRevoked? || s.IsSuperseded?
  }

  // ----- the operations

  function Bootstrap(s: State, id: string, branch: string, statement: string): State {
    if id in s.versions then s
    else
      s.(versions := s.versions[id := Version(id, id, 1, branch, statement, IsAccepted, None, None, [])],
         events := s.events + [Event(id, None, IsAccepted, None)])
  }

  ghost function RaiseChallenge(
    s: State, k: string, c: string, evidence: seq<string>, description: string): (State, Outcome)
  {
    if k !in s.versions then (s, Err(UnknownRecord(k)))
    else if IsFinal(s.versions[k].state) then (s, Err(TerminalState))
    else if exists id :: id in evidence && id !in s.graph.nodes then (s, Err(UnknownEvidence))
    else
      var v := s.versions[k];
      var (g, r) := G.AddChallenge(s.graph, c, k, Some(v.branch), description);
      var t := s.(versions := s.versions[k := v.(state := IsChallenged, challengeIds := v.challengeIds + [c])],
                  challenges := s.challenges[c := ChallengeRecord(c, k, true)],
                  graph := g);
      if r.Err? then (t, r)
      else (t.(events := s.events + [Event(k, Some(v.state), IsChallenged, Some(c))]), Ok)
  }

  function CloseAll(challenges: map<string, ChallengeRecord>, ids: seq<string>): map<string, ChallengeRecord> {
    map c | c in challenges :: if c in ids then challenges[c].(isOpen := false) else challenges[c]
  }

  function Revoke(s: State, k: string): (State, Outcome) {
    if k !in s.versions then (s, Err(UnknownRecord(k)))
    else if IsFinal(s.versions[k].state) then (s, Err(TerminalState))
    else
      var v := s.versions[k];
      (s.(versions := s.versions[k := v.(state := IsRevoked)],
          challenges := CloseAll(s.challenges, v.challengeIds),
          events := s.events + [Event(k, Some(v.state), IsRevoked, None)]), Ok)
  }

  function Family(versions: map<string, Version>, root: string): set<string> {
    set k | k in versions && versions[k].root == root
  }

  /** max(numbers or [0]) over a set of versions. */
  ghost function MaxNumber(versions: map<string, Version>, among: set<string>): nat
    requires among <= versions.Keys
  {
    if among == {} then 0
    else
      var k :| k in among;
      var rest := MaxNumber(versions, among - {k});
      if versions[k].number > rest then versions[k].number else rest
  }

  predicate IsTransition(kind: EdgeKind, terminal: KnowledgeState) {
    (kind.Revises? && terminal.IsRevised?) || (kind.Supersedes? && terminal.IsSuperseded?)
  }

  ghost function Succeed(
    s: State, k: string, newId: string, branch: string, statement: string, challenge: string,
    terminal: KnowledgeState, kind: EdgeKind): (State, Outcome)
  {
    if k !in s.versions then (s, Err(UnknownRecord(k)))
    else if !s.versions[k].state.IsChallenged? then (s, Err(NotChallenged))
    else if challenge !in s.challenges || s.challenges[challenge].knowledge != k then (s, Err(UnknownRecord(challenge)))
    else if !s.challenges[challenge].isOpen then (s, Err(ChallengeClosed))
    else
      var v := s.versions[k];
      var next := Version(newId, v.root, MaxNumber(s.versions, Family(s.versions, v.root)) + 1, branch, statement,
                          IsAccepted, Some(k), None, []);
      var g1 := G.PutNode(s.graph, Node(newId, Some(branch), Knowledge, statement, Plain));
      var (g, r) := G.LinkTransition(g1, newId, k, kind);
      var t := s.(versions := s.versions[k := v.(state := terminal, successor := Some(newId))][newId := next],
                  challenges := s.challenges[challenge := s.challenges[challenge].(isOpen := false)],
                  graph := g);
      if r.Err? then (t, r)
      else
        (t.(events := s.events + [Event(k, Some(v.state), terminal, Some(newId)),
          Event(newId, None, IsAccepted, Some(k))]), Ok)
  }

  // ----- the invariant

  predicate KeysMatch(s: State) {
    && (forall k :: k in s.versions ==> s.versions[k].id == k)
    && (forall c :: c in s.challenges ==> s.challenges[c].id == c)
    && (forall k :: k in s.versions ==> k in s.graph.nodes)
  }

  predicate RootsKnown(versions: map<string, Version>) {
    forall k :: k in versions ==> RootKnown(versions, k)
  }

  predicate RootKnown(versions: map<string, Version>, k: string)
    requires k in versions
  {
    versions[k].root in versions && versions[versions[k].root].root == versions[k].root
  }

  /** Under each root the numbers run over 1..n, each used once. */
  predicate NumbersInRange(versions: map<string, Version>) {
    forall k :: k in versions ==> 1 <= versions[k].number <= |Family(versions, versions[k].root)|
  }

  predicate NumbersDistinct(versions: map<string, Version>) {
    forall k, l :: k in versions && l in versions && k != l && versions[k].root == versions[l].root ==>
      versions[k].number != versions[l].number
  }

  predicate IsNumbered(versions: map<string, Version>, root: string, n: nat) {
    exists k :: k in versions && versions[k].root == root && versions[k].number == n
  }

  predicate NumbersComplete(versions: map<string, Version>) {
    forall k, n: nat {:trigger IsNumbered(versions, versions[k].root, n)} ::
      k in versions && 1 <= n <= |Family(versions, versions[k].root)| ==>
      IsNumbered(versions, versions[k].root, n)
  }

  predicate WellNumbered(versions: map<string, Version>) {
    RootsKnown(versions) && NumbersInRange(versions) && NumbersDistinct(versions) && NumbersComplete(versions)
  }

  predicate IsLink(versions: map<string, Version>, earlier: string, later: string) {
    && earlier in versions && later in versions
    && versions[later].root == versions[earlier].root
    && versions[later].number > versions[earlier].number
    && versions[later].parent == Some(earlier)
  }

  /** A successor is a later version of the same root that points back. */
  predicate SuccessorsLinked(versions: map<string, Version>) {
    && (forall k :: k in versions && versions[k].successor.Some? ==> IsLink(versions, k, versions[k].successor.value))
    && (forall k :: k in versions && versions[k].parent.Some? ==> IsLink(versions, versions[k].parent.value, k))
  }

  /** Every parent pointer is an edge of the evidence graph. */
  predicate LinksInGraph(s: State) {
    forall k :: k in s.versions && s.versions[k].parent.Some? ==> IsMirrored(s.graph, k, s.versions[k].parent.value)
  }

  predicate IsMirrored(g: G.Graph, later: string, earlier: string) {
    G.HasTriple(g.edges, later, earlier, Revises) || G.HasTriple(g.edges, later, earlier, Supersedes)
  }

  predicate ChallengesKnown(s: State) {
    forall k, c :: k in s.versions && c in s.versions[k].challengeIds ==>
      c in s.challenges && s.challenges[c].knowledge == k
  }

  predicate HasOpenChallenge(s: State, v: Version) {
    exists c :: c in v.challengeIds && c in s.challenges && s.challenges[c].isOpen
  }

  predicate ChallengedHasOpen(s: State) {
    && (forall k :: k in s.versions && s.versions[k].state.IsChallenged? ==> HasOpenChallenge(s, s.versions[k]))
    && (forall k :: k in s.versions && s.versions[k].state.IsRevoked? ==> !HasOpenChallenge(s, s.versions[k]))
  }

  /** The state an item has according to its events, if they chain. */
  datatype Replayed = Broken | Unborn | Reached(state: KnowledgeState)

  function Replay(events: seq<Event>, k: string): Replayed {
    if events == [] then Unborn
    else
      var before, e := Replay(events[..|events| - 1], k), events[|events| - 1];
      if e.knowledge != k then before
      else if before == (if e.from.None? then Unborn else Reached(e.from.value)) then Reached(e.to)
      else Broken
  }

  /** Replaying the log gives every item's current state, and nothing for others. */
  ghost predicate LogReplays(s: State) {
    forall k :: Replay(s.events, k) == if k in s.versions then Reached(s.versions[k].state) else Unborn
  }

  ghost predicate Invariant(s: State) {
    && G.IsDag(s.graph) && KeysMatch(s)
    && WellNumbered(s.versions)
    && SuccessorsLinked(s.versions) && LinksInGraph(s)
    && ChallengesKnown(s) && ChallengedHasOpen(s)
    && LogReplays(s)
  }

  // ----- the log

  lemma ReplayAppend(events: seq<Event>, e: Event, k: string)
    ensures Replay(events + [e], k) ==
              if e.knowledge != k then Replay(events, k)
              else if Replay(events, k) == (if e.from.None? then Unborn else Reached(e.from.value)) then Reached(e.to)
              else Broken
  {
    assert (events + [e])[..|events|] == events;
  }

  lemma LogGrows(s: State, t: State, e: Event)
    requires LogReplays(s) && t.events == s.events + [e]
    requires e.from == if e.knowledge in s.versions then Some(s.versions[e.knowledge].state) else None
    requires t.versions.Keys == s.versions.Keys + {e.knowledge} && t.versions[e.knowledge].state == e.to
    requires forall k :: k in s.versions && k != e.knowledge ==> t.versions[k].state == s.versions[k].state
    ensures LogReplays(t)
  {
    hide Replay;
    forall k
      ensures Replay(t.events, k) == if k in t.versions then Reached(t.versions[k].state) else Unborn
    {
      ReplayAppend(s.events, e, k);
    }
  }

  /** The events of one item, in order. */
  function EventsOf(events: seq<Event>, k: string): (es: seq<Event>)
    ensures forall e :: e in es <==> e in events && e.knowledge == k
  {
    if events == [] then []
    else
      var before, e := EventsOf(events[..|events| - 1], k), events[|events| - 1];
      assert events == events[..|events| - 1] + [e];
      if e.knowledge == k then before + [e] else before
  }

  /** The first event creates the item and every other one starts where its
      predecessor ended. */
  predicate IsChain(es: seq<Event>) {
    forall i :: 0 <= i < |es| ==> StartsWherePrevious(es, i)
  }

  predicate StartsWherePrevious(es: seq<Event>, i: nat)
    requires i < |es|
  {
    es[i].from == if i == 0 then None else Some(es[i - 1].to)
  }

  /** Replaying a log reaches a state exactly if the item's events form a chain
      that ends there, and reaches nothing exactly if the item has no events. */
  lemma {:induction false} ReplayedIffChained(events: seq<Event>, k: string)
    ensures Replay(events, k).Unborn? <==> EventsOf(events, k) == []
    ensures Replay(events, k).Reached? <==> EventsOf(events, k) != [] && IsChain(EventsOf(events, k))
    ensures Replay(events, k).Reached? ==> Replay(events, k).state == EventsOf(events, k)[|EventsOf(events, k)| - 1].to
  {
    if events != [] {
      var before, e := EventsOf(events[..|events| - 1], k), events[|events| - 1];
      ReplayedIffChained(events[..|events| - 1], k);
      if e.knowledge == k {
        ChainGrows(before, e);
      }
    }
  }

  lemma ChainGrows(es: seq<Event>, e: Event)
    ensures IsChain(es + [e]) <==> IsChain(es) && e.from == if es == [] then None else Some(es[|es| - 1].to)
  {
    var more := es + [e];
    assert forall i :: 0 <= i < |es| ==> StartsWherePrevious(es, i) == StartsWherePrevious(more, i);
    assert StartsWherePrevious(more, |es|) <==> e.from == if es == [] then None else Some(es[|es| - 1].to);
  }

  // ----- numbering

  lemma {:induction false} MaxBounds(versions: map<string, Version>, among: set<string>)
    requires among <= versions.Keys
    ensures forall k :: k in among ==> versions[k].number <= MaxNumber(versions, among)
    ensures among != {} ==> exists k :: k in among && versions[k].number == MaxNumber(versions, among)
  {
    if among != {} {
      var k :| k in among
        && MaxNumber(versions, among) ==
             (var rest := MaxNumber(versions, among - {k});
              if versions[k].number > rest then versions[k].number else rest);
      MaxBounds(versions, among - {k});
    }
  }

  lemma MaxIsFamilySize(versions: map<string, Version>, k: string)
    requires k in versions && NumbersInRange(versions) && NumbersComplete(versions)
    ensures MaxNumber(versions, Family(versions, versions[k].root)) == |Family(versions, versions[k].root)|
  {
    var root := versions[k].root;
    var family := Family(versions, root);
    MaxBounds(versions, family);
    assert k in family;
    assert IsNumbered(versions, versions[k].root, |family|);
    var l :| l in versions && versions[l].root == root && versions[l].number == |family|;
    assert l in family;
    var m :| m in family && versions[m].number == MaxNumber(versions, family);
  }

  lemma NewRootFamily(versions: map<string, Version>, v: Version)
    requires v.id !in versions && v.root == v.id && RootsKnown(versions)
    ensures var more := versions[v.id := v];
            && Family(more, v.id) == {v.id}
            && forall r :: r != v.id ==> Family(more, r) == Family(versions, r)
  {
    var more := versions[v.id := v];
    forall k | k in versions
      ensures versions[k].root != v.id
    {
      assert RootKnown(versions, k);
    }
  }

  lemma NewRootNumbers(versions: map<string, Version>, v: Version)
    requires v.id !in versions && v.root == v.id && v.number == 1 && WellNumbered(versions)
    ensures WellNumbered(versions[v.id := v])
  {
    var more := versions[v.id := v];
    NewRootFamily(versions, v);
    NewRootKeepsRoots(versions, v);
    assert NumbersInRange(more) && NumbersDistinct(more) by {
      hide Family;
    }
    NewRootComplete(versions, v);
  }

  lemma NewRootKeepsRoots(versions: map<string, Version>, v: Version)
    requires v.id !in versions && v.root == v.id && RootsKnown(versions)
    ensures RootsKnown(versions[v.id := v])
    ensures forall k :: k in versions ==> versions[k].root != v.id
  {
    forall k | k in versions
      ensures RootKnown(versions[v.id := v], k) && versions[k].root != v.id
    {
      assert RootKnown(versions, k);
    }
  }

  lemma NewRootComplete(versions: map<string, Version>, v: Version)
    requires v.id !in versions && v.root == v.id && v.number == 1
    requires RootsKnown(versions) && NumbersComplete(versions)
    ensures NumbersComplete(versions[v.id := v])
  {
    var more := versions[v.id := v];
    NewRootFamily(versions, v);
    NewRootKeepsRoots(versions, v);
    hide Family;
    forall k, n: nat | k in more && 1 <= n <= |Family(more, more[k].root)|
      ensures IsNumbered(more, more[k].root, n)
    {
      if k == v.id {
        assert more[v.id].number == n;
      } else {
        assert IsNumbered(versions, versions[k].root, n);
        var l :| l in versions && versions[l].root == versions[k].root && versions[l].number == n;
        assert more[l] == versions[l];
      }
    }
  }
}
