/** What each operation of the knowledge store changes, field by field. */
module KnowledgeEffects {
  import opened Wrappers
  import opened Schema
  import opened KnowledgeEvolution
  import G = EvidenceGraph

  predicate SameExcept<T(==)>(a: map<string, T>, b: map<string, T>, changed: set<string>) {
    b.Keys == a.Keys + changed && forall k :: k in a && k !in changed ==> b[k] == a[k]
  }

  /** Accepted knowledge enters once, as version one of its own family. */
  lemma KnowledgeEnters(s: State, id: string, branch: string, statement: string)
    ensures var t := Bootstrap(s, id, branch, statement);
            && t.graph == s.graph && t.challenges == s.challenges
            && (if id in s.versions then t == s
                else
                  && SameExcept(s.versions, t.versions, {id})
                  && t.versions[id] == Version(id, id, 1, branch, statement, IsAccepted, None, None, [])
                  && t.events == s.events + [Event(id, None, IsAccepted, None)])
  {
  }

  /** A challenge is open, names its item, puts that item into the challenged state,
      and is logged and mirrored; each kind of refusal changes nothing. */
  lemma ChallengeIsRaised(s: State, k: string, c: string, evidence: seq<string>, description: string)
    requires Invariant(s) && c !in s.graph.nodes && c !in s.challenges
    ensures var (t, r) := RaiseChallenge(s, k, c, evidence, description);
            if k !in s.versions then t == s && r == Err(UnknownRecord(k))
            else if s.versions[k].state == IsRevoked || s.versions[k].state == IsSuperseded
            then t == s && r == Err(TerminalState)
            else if exists id :: id in evidence && id !in s.graph.nodes then t == s && r == Err(UnknownEvidence)
            else
              var v := s.versions[k];
              && r.Ok?
              && SameExcept(s.versions, t.versions, {k}) && SameExcept(s.challenges, t.challenges, {c})
              && t.versions[k] == v.(state := IsChallenged, challengeIds := v.challengeIds + [c])
              && t.challenges[c] == ChallengeRecord(c, k, true)
              && t.events == s.events + [Event(k, Some(v.state), IsChallenged, Some(c))]
              && t.graph.nodes == s.graph.nodes[c := Node(c, Some(v.branch), Challenge, description, Plain)]
              && t.graph.edges == s.graph.edges + [Edge(c, k, Challenges, Some(v.branch))]
  {
    hide WellNumbered, SuccessorsLinked, LinksInGraph, LogReplays, ChallengesKnown, ChallengedHasOpen, G.IsDag;
    if k in s.versions {
      var node := Node(c, Some(s.versions[k].branch), Challenge, description, Plain);
      G.FreshNodeIsAccepted(s.graph, node, k, Challenges, Some(s.versions[k].branch));
    }
  }

  /** Revoking ends an item and closes all its challenges, and no others; the graph
      is not touched. */
  lemma KnowledgeIsRevoked(s: State, k: string)
    ensures var (t, r) := Revoke(s, k);
            if k !in s.versions then t == s && r == Err(UnknownRecord(k))
            else if s.versions[k].state == IsRevoked || s.versions[k].state == IsSuperseded
            then t == s && r == Err(TerminalState)
            else
              var v := s.versions[k];
              && r.Ok? && t.graph == s.graph && SameExcept(s.versions, t.versions, {k})
              && t.versions[k] == v.(state := IsRevoked)
              && t.challenges.Keys == s.challenges.Keys
              && (forall c :: c in s.challenges ==>
                    t.challenges[c]
                    == s.challenges[c].(isOpen := s.challenges[c].isOpen && c !in v.challengeIds))
              && t.events == s.events + [Event(k, Some(v.state), IsRevoked, None)]
  {
  }

  predicate MayBeSucceeded(s: State, k: string, challenge: string) {
    && k in s.versions && s.versions[k].state == IsChallenged
    && challenge in s.challenges && s.challenges[challenge].knowledge == k && s.challenges[challenge].isOpen
  }

  /** A successor has the next number of its family and points back; its predecessor
      ends in the given state and points forward; one challenge is closed; both are
      logged, and the successor is linked in the graph. */
  lemma KnowledgeIsSucceeded(
    s: State, k: string, newId: string, branch: string, statement: string, challenge: string,
    terminal: KnowledgeState, kind: EdgeKind)
    requires Invariant(s) && newId !in s.graph.nodes && IsTransition(kind, terminal)
    requires MayBeSucceeded(s, k, challenge)
    ensures var (t, r) := Succeed(s, k, newId, branch, statement, challenge, terminal, kind);
            var v := s.versions[k];
            && r.Ok?
            && SameExcept(s.versions, t.versions, {k, newId}) && SameExcept(s.challenges, t.challenges, {challenge})
            && t.versions[k] == v.(state := terminal, successor := Some(newId))
            && t.versions[newId]
               == Version(newId, v.root, |Family(s.versions, v.root)| + 1, branch, statement, IsAccepted, Some(k), None,
                          [])
            && t.challenges[challenge] == ChallengeRecord(challenge, k, false)
            && t.events == s.events + [Event(k, Some(IsChallenged), terminal, Some(newId)),
                                       Event(newId, None, IsAccepted, Some(k))]
            && t.graph.nodes == s.graph.nodes[newId := Node(newId, Some(branch), Knowledge, statement, Plain)]
            && t.graph.edges == s.graph.edges + [Edge(newId, k, kind, Some(branch))]
  {
    hide SuccessorsLinked, LinksInGraph, LogReplays, ChallengesKnown, ChallengedHasOpen, G.IsDag;
    hide NumbersInRange, NumbersComplete, NumbersDistinct, RootsKnown, MaxNumber, Family;
    MaxIsFamilySize(s.versions, k);
    var node := Node(newId, Some(branch), Knowledge, statement, Plain);
    G.FreshNodeIsAccepted(s.graph, node, k, kind, Some(branch));
    assert s.challenges[challenge].id == challenge;
    assert newId !in s.versions;
  }

  /** Each refusal of a succession has its own reason and changes nothing. */
  lemma SuccessionIsRefused(
    s: State, k: string, newId: string, branch: string, statement: string, challenge: string,
    terminal: KnowledgeState, kind: EdgeKind)
    requires !MayBeSucceeded(s, k, challenge)
    ensures Succeed(s, k, newId, branch, statement, challenge, terminal, kind)
         == (s, Err(if k !in s.versions then UnknownRecord(k)
                    else if s.versions[k].state != IsChallenged then NotChallenged
                    else if challenge !in s.challenges || s.challenges[challenge].knowledge != k
                    then UnknownRecord(challenge)
                    else ChallengeClosed))
  {
  }
}
