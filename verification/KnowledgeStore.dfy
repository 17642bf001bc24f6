/** The knowledge evolution store object: versions and challenges reassigned in
    place, an event log appended to, beside the evidence graph store. Each method
    is proved against the operation of `KnowledgeEvolution` that it performs, and
    keeps the invariant that `KnowledgeRuns` proves of every run: family numbers,
    parent links, open challenges, and a log that replays to the current states. */
module KnowledgeStore {
  import opened Wrappers
  import opened Schema
  import opened KnowledgeEvolution
  import Runs = KnowledgeRuns
  import G = EvidenceGraph
  import EvidenceGraphStore

  lemma MaxIsUnique(versions: map<string, Version>, among: set<string>, n: nat)
    requires among <= versions.Keys
    requires forall k :: k in among ==> versions[k].number <= n
    requires n == 0 || exists k :: k in among && versions[k].number == n
    ensures n == MaxNumber(versions, among)
  {
    MaxBounds(versions, among);
    hide MaxNumber;
    var top := MaxNumber(versions, among);
    if among != {} {
      var k :| k in among && versions[k].number == top;
    } else {
      assert MaxNumber(versions, {}) == 0 by { EmptyMax(versions); }
    }
  }

  lemma EmptyMax(versions: map<string, Version>)
    ensures MaxNumber(versions, {}) == 0
  {
  }

  class Evolution {
    var versions: map<string, Version>
    var challenges: map<string, ChallengeRecord>
    var events: seq<Event>
    const graph: EvidenceGraphStore.Store

    ghost function Value(): State
      reads this, graph
    {
      State(versions, challenges, events, graph.Value())
    }

    ghost predicate Valid()
      reads this, graph
    {
      graph.Valid() && Invariant(Value())
    }

    constructor ()
      ensures Valid() && Value() == Runs.Initial && fresh(graph)
    {
      versions, challenges, events := map[], map[], [];
      graph := new EvidenceGraphStore.Store();
      new;
      Runs.InitialInvariant();
    }

    method Bootstrap(id: string, branch: string, statement: string) returns (version: Version)
      requires Valid() && id in graph.nodes
      modifies this
      ensures Valid() && Value() == KnowledgeEvolution.Bootstrap(old(Value()), id, branch, statement)
      ensures id in versions && version == versions[id]
    {
      hide Invariant, G.IsDag;
      Runs.BootstrapKeepsInvariant(Value(), id, branch, statement);
      if id in versions {
        return versions[id];
      }
      version := Version(id, id, 1, branch, statement, IsAccepted, None, None, []);
      versions := versions[id := version];
      events := events + [Event(id, None, IsAccepted, None)];
    }

    method RaiseChallenge(k: string, c: string, evidence: seq<string>, description: string) returns (r: Outcome)
      requires Valid() && c !in graph.nodes && c !in challenges
      modifies this, graph
      ensures Valid() && (Value(), r) == KnowledgeEvolution.RaiseChallenge(old(Value()), k, c, evidence, description)
      ensures r.Ok? <==>
                && k in old(versions) && !IsFinal(old(versions)[k].state)
                && forall id :: id in evidence ==> id in old(graph.nodes)
    {
      hide Invariant, G.IsDag, G.AddChallenge;
      Runs.ChallengeKeepsInvariant(Value(), k, c, evidence, description);
      if k !in versions {
        return Err(UnknownRecord(k));
      }
      var v := versions[k];
      if IsFinal(v.state) {
        return Err(TerminalState);
      }
      var unknown := UnknownNodes(evidence);
      if unknown != [] {
        assert unknown[0] in unknown;
        return Err(UnknownEvidence);
      }
      assert forall id :: id in evidence ==> id !in unknown;
      challenges := challenges[c := ChallengeRecord(c, k, true)];
      versions := versions[k := v.(state := IsChallenged, challengeIds := v.challengeIds + [c])];
      r := graph.AddChallenge(c, k, Some(v.branch), description);
      if r.Err? {
        return;
      }
      events := events + [Event(k, Some(v.state), IsChallenged, Some(c))];
    }

    method UnknownNodes(ids: seq<string>) returns (unknown: seq<string>)
      ensures forall id :: id in unknown <==> id in ids && id !in graph.nodes
    {
      unknown := [];
      for i := 0 to |ids|
        invariant forall id :: id in unknown <==> id in ids[..i] && id !in graph.nodes
      {
        if ids[i] !in graph.nodes {
          unknown := unknown + [ids[i]];
        }
      }
    }

    method Revoke(k: string) returns (r: Outcome)
      requires Valid()
      modifies this
      ensures Valid() && (Value(), r) == KnowledgeEvolution.Revoke(old(Value()), k)
    {
      hide Invariant, G.IsDag;
      Runs.RevokeKeepsInvariant(Value(), k);
      if k !in versions {
        return Err(UnknownRecord(k));
      }
      var v := versions[k];
      if IsFinal(v.state) {
        return Err(TerminalState);
      }
      versions := versions[k := v.(state := IsRevoked)];
      CloseChallenges(v.challengeIds);
      events := events + [Event(k, Some(v.state), IsRevoked, None)];
      return Ok;
    }

    method CloseChallenges(ids: seq<string>)
      modifies this`challenges
      ensures challenges == CloseAll(old(challenges), ids)
    {
      for i := 0 to |ids|
        invariant challenges == CloseAll(old(challenges), ids[..i])
      {
        var c := ids[i];
        assert ids[..i + 1] == ids[..i] + [c];
        if c in challenges && challenges[c].isOpen {
          challenges := challenges[c := challenges[c].(isOpen := false)];
        }
      }
      assert ids[..|ids|] == ids;
    }

    /** max(siblings or [0]), the dictionary being visited in no particular order. */
    method LargestNumber(root: string) returns (n: nat)
      ensures n == MaxNumber(versions, Family(versions, root))
    {
      n := 0;
      var left := versions.Keys;
      while left != {}
        invariant left <= versions.Keys
        invariant forall k :: k in versions && k !in left && versions[k].root == root ==> versions[k].number <= n
        invariant n == 0 || exists k :: k in versions && versions[k].root == root && versions[k].number == n
        decreases |left|
      {
        var k :| k in left;
        left := left - {k};
        if versions[k].root == root && versions[k].number > n {
          n := versions[k].number;
        }
      }
      if n != 0 {
        var k :| k in versions && versions[k].root == root && versions[k].number == n;
        assert k in Family(versions, root);
      }
      MaxIsUnique(versions, Family(versions, root), n);
    }

    method Succeed(
      k: string, newId: string, branch: string, statement: string, challenge: string,
      terminal: KnowledgeState, kind: EdgeKind)
      returns (r: Outcome)
      requires Valid() && newId !in graph.nodes && IsTransition(kind, terminal)
      modifies this, graph
      ensures Valid()
      ensures (Value(), r)
                == KnowledgeEvolution.Succeed(old(Value()), k, newId, branch, statement, challenge, terminal, kind)
      ensures r.Ok? <==> Runs.CanSucceed(old(Value()), k, challenge)
    {
      hide Invariant, G.IsDag, G.PutNode, G.LinkTransition, MaxNumber, Family, IsTransition;
      Runs.SucceedKeepsInvariant(Value(), k, newId, branch, statement, challenge, terminal, kind);
      if k !in versions {
        return Err(UnknownRecord(k));
      }
      var v := versions[k];
      if !v.state.IsChallenged? {
        return Err(NotChallenged);
      }
      if challenge !in challenges || challenges[challenge].knowledge != k {
        return Err(UnknownRecord(challenge));
      }
      if !challenges[challenge].isOpen {
        return Err(ChallengeClosed);
      }
      var n := LargestNumber(v.root);
      var next := Version(newId, v.root, n + 1, branch, statement, IsAccepted, Some(k), None, []);
      challenges := challenges[challenge := challenges[challenge].(isOpen := false)];
      versions := versions[k := v.(state := terminal, successor := Some(newId))];
      versions := versions[newId := next];
      graph.PutNode(Node(newId, Some(branch), Knowledge, statement, Plain));
      r := graph.LinkTransition(newId, k, kind);
      if r.Err? {
        return;
      }
      events := events + [Event(k, Some(v.state), terminal, Some(newId)), Event(newId, None, IsAccepted, Some(k))];
    }
  }
}
