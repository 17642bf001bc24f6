/** What the evidence graph gains when some branches each receive one
    counterexample: one node and one edge a branch, and nothing else but the
    rewritten claims of those branches. */
module GraphGains {
  import opened Wrappers
  import opened Schema
  import G = EvidenceGraph

  /** The record each branch receives. */
  type Added = map<string, CounterexampleRecord>

  function EdgeOf(b: string, r: CounterexampleRecord): Edge {
    Edge(r.id, G.ClaimId(b), Contradicts, Some(b))
  }

  predicate IsAddedId(added: Added, id: string) {
    exists b :: b in added && added[b].id == id
  }

  predicate IsAddedClaim(added: Added, id: string) {
    exists b :: b in added && G.ClaimId(b) == id
  }

  /** The record of b is a new node, and the claim of b is up to date. */
  predicate IsStored(
    nodes: map<string, Node>, nodes': map<string, Node>, branches: map<string, Branch>, added: Added, b: string)
    requires b in added && b in branches
  {
    && added[b].id !in nodes && added[b].id in nodes' && nodes'[added[b].id] == G.CounterexampleNode(b, added[b])
    && G.ClaimId(b) in nodes' && nodes'[G.ClaimId(b)] == G.ClaimNode(branches[b])
  }

  predicate NodesGain(nodes: map<string, Node>, nodes': map<string, Node>, branches: map<string, Branch>, added: Added)
    requires added.Keys <= branches.Keys
  {
    && (forall id :: id in nodes' ==> id in nodes || IsAddedId(added, id))
    && (forall id :: id in nodes ==> id in nodes')
    && (forall id :: id in nodes && !IsAddedClaim(added, id) ==> nodes'[id] == nodes[id])
    && (forall b {:trigger IsStored(nodes, nodes', branches, added, b)} ::
          b in added ==> IsStored(nodes, nodes', branches, added, b))
  }

  predicate IsEdgeOf(added: Added, e: Edge) {
    exists b :: b in added && e == EdgeOf(b, added[b])
  }

  predicate IsGained(edges: seq<Edge>, edges': seq<Edge>, e: Edge)
    requires |edges| <= |edges'|
  {
    e in edges'[|edges|..]
  }

  predicate EdgesGain(edges: seq<Edge>, edges': seq<Edge>, added: Added) {
    && edges <= edges' && |edges'| == |edges| + |added|
    && (forall i :: |edges| <= i < |edges'| ==> IsEdgeOf(added, edges'[i]))
    && (forall b {:trigger IsGained(edges, edges', EdgeOf(b, added[b]))} ::
          b in added ==> IsGained(edges, edges', EdgeOf(b, added[b])))
  }

  predicate GraphGain(g: G.Graph, h: G.Graph, branches: map<string, Branch>, added: Added) {
    && added.Keys <= branches.Keys
    && NodesGain(g.nodes, h.nodes, branches, added)
    && EdgesGain(g.edges, h.edges, added)
  }

  /** Without a record there is no gain. */
  lemma NoGainIff(g: G.Graph, h: G.Graph, branches: map<string, Branch>)
    ensures GraphGain(g, h, branches, map[]) <==> h == g
  {
    if GraphGain(g, h, branches, map[]) {
      assert forall id :: id in g.nodes <==> id in h.nodes;
      assert h.nodes == g.nodes;
      assert h.edges == g.edges;
    }
  }

  /** Attaching one fresh record to a linked branch. */
  lemma OneGain(g: G.Graph, branches: map<string, Branch>, b: string, branch: Branch, r: CounterexampleRecord)
    requires G.IsDag(g) && G.IsLinked(g, branch) && b in branches && branches[b].id == b == branch.id
    requires branch.hypothesis == branches[b].hypothesis && r.id !in g.nodes
    ensures GraphGain(g, G.AddRecord(g, branch, G.CounterexampleNode(b, r), Contradicts).0, branches, map[b := r])
  {
    G.FreshRecordIsAccepted(g, branch, G.CounterexampleNode(b, r), Contradicts);
    hide G.IsDag, G.IsLinked, G.AddRecord;
    var added: Added := map[b := r];
    var e := EdgeOf(b, r);
    assert b in added && IsAddedId(added, r.id) && IsAddedClaim(added, G.ClaimId(b));
    assert G.ClaimId(b) in g.nodes;
    assert (g.edges + [e])[|g.edges|..] == [e];
    assert IsEdgeOf(added, e);
  }

  // ----- two gains after each other

  lemma NodesGainTwice(
    n0: map<string, Node>, n1: map<string, Node>, n2: map<string, Node>, branches: map<string, Branch>,
    after: map<string, Branch>,
    one: Added, two: Added)
    requires one.Keys <= branches.Keys && two.Keys <= branches.Keys && two.Keys <= after.Keys && one.Keys !! two.Keys
    requires forall b :: b in two ==> G.ClaimNode(after[b]) == G.ClaimNode(branches[b])
    requires forall b :: b in one ==> G.ClaimId(b) in n0
    requires forall b :: b in two ==> G.ClaimId(b) in n0
    requires NodesGain(n0, n1, branches, one) && NodesGain(n1, n2, after, two)
    ensures NodesGain(n0, n2, branches, one + two)
  {
    var both := one + two;
    forall id
      ensures IsAddedId(both, id) <==> IsAddedId(one, id) || IsAddedId(two, id)
      ensures IsAddedClaim(both, id) <==> IsAddedClaim(one, id) || IsAddedClaim(two, id)
    {
      AddedToEither(one, two, id);
    }
    forall b | b in both
      ensures IsStored(n0, n2, branches, both, b)
    {
      if b in two {
        assert IsStored(n1, n2, after, two, b);
      } else {
        assert IsStored(n0, n1, branches, one, b);
        assert !IsAddedClaim(two, G.ClaimId(b)) by { OtherClaims(two, b); }
        assert !IsAddedClaim(two, one[b].id) by { assert one[b].id !in n0; }
      }
    }
  }

  lemma OtherClaims(added: Added, b: string)
    requires b !in added
    ensures !IsAddedClaim(added, G.ClaimId(b))
  {
    forall x | x in added
      ensures G.ClaimId(x) != G.ClaimId(b)
    {
      G.ClaimIdsDiffer(x, b);
    }
  }

  lemma AddedToEither(one: Added, two: Added, id: string)
    requires one.Keys !! two.Keys
    ensures IsAddedId(one + two, id) <==> IsAddedId(one, id) || IsAddedId(two, id)
    ensures IsAddedClaim(one + two, id) <==> IsAddedClaim(one, id) || IsAddedClaim(two, id)
  {
    var both := one + two;
    forall b
      ensures b in both && both[b].id == id <==> (b in one && one[b].id == id) || (b in two && two[b].id == id)
    {}
  }

  lemma CountBoth(one: Added, two: Added)
    requires one.Keys !! two.Keys
    ensures |one + two| == |one| + |two|
  {
    assert (one + two).Keys == one.Keys + two.Keys;
    assert |one + two| == |(one + two).Keys| && |one| == |one.Keys| && |two| == |two.Keys|;
  }

  lemma EdgeOfEither(one: Added, two: Added, e: Edge)
    requires one.Keys !! two.Keys && (IsEdgeOf(one, e) || IsEdgeOf(two, e))
    ensures IsEdgeOf(one + two, e)
  {
    var b :| (b in one && e == EdgeOf(b, one[b])) || (b in two && e == EdgeOf(b, two[b]));
    assert b in one + two && e == EdgeOf(b, (one + two)[b]);
  }

  lemma EdgesGainTwice(e0: seq<Edge>, e1: seq<Edge>, e2: seq<Edge>, one: Added, two: Added)
    requires one.Keys !! two.Keys && EdgesGain(e0, e1, one) && EdgesGain(e1, e2, two)
    ensures EdgesGain(e0, e2, one + two)
  {
    hide IsEdgeOf, EdgeOf;
    var both := one + two;
    CountBoth(one, two);
    assert forall i :: 0 <= i < |e1| ==> e2[i] == e1[i];
    assert forall i :: 0 <= i < |e0| ==> e1[i] == e0[i];
    assert e0 <= e2;
    assert e2[|e0|..] == e1[|e0|..] + e2[|e1|..];
    forall i | |e0| <= i < |e2|
      ensures IsEdgeOf(both, e2[i])
    {
      EdgeOfEither(one, two, e2[i]);
    }
    forall b | b in both
      ensures IsGained(e0, e2, EdgeOf(b, both[b]))
    {
      if b in two {
        assert IsGained(e1, e2, EdgeOf(b, two[b]));
      } else {
        assert IsGained(e0, e1, EdgeOf(b, one[b]));
      }
    }
  }

  lemma GraphGainTwice(
    g: G.Graph, h: G.Graph, k: G.Graph, branches: map<string, Branch>, after: map<string, Branch>, one: Added,
    two: Added)
    requires one.Keys !! two.Keys && two.Keys <= branches.Keys
    requires forall b :: b in two && b in after ==> G.ClaimNode(after[b]) == G.ClaimNode(branches[b])
    requires forall b :: b in one || b in two ==> G.ClaimId(b) in g.nodes
    requires GraphGain(g, h, branches, one) && GraphGain(h, k, after, two)
    ensures GraphGain(g, k, branches, one + two)
  {
    hide NodesGain, EdgesGain, G.ClaimNode;
    NodesGainTwice(g.nodes, h.nodes, k.nodes, branches, after, one, two);
    EdgesGainTwice(g.edges, h.edges, k.edges, one, two);
    assert (one + two).Keys == one.Keys + two.Keys;
  }
}
