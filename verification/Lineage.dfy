/** Branch lineage: parent pointers of a branch store, ancestors and strict
    descendants, and the two searches the autonomy controller runs over them. */
module Lineage {
  import opened Wrappers
  import opened LexOrder

  type Parents = map<string, Option<string>>

  /** Parents are known branches of smaller rank, so pointers never run in a circle. */
  ghost predicate IsForest(parents: Parents, rank: map<string, nat>) {
    && rank.Keys == parents.Keys
    && forall b {:trigger IsBelowParent(parents, rank, b)} :: b in parents ==> IsBelowParent(parents, rank, b)
  }

  ghost predicate IsBelowParent(parents: Parents, rank: map<string, nat>, b: string)
    requires b in parents && rank.Keys == parents.Keys
  {
    parents[b].Some? ==> parents[b].value in parents && rank[parents[b].value] < rank[b]
  }

  /** From the parent upwards to the root. */
  ghost function Ancestors(parents: Parents, rank: map<string, nat>, b: string): (up: seq<string>)
    requires IsForest(parents, rank) && b in parents
    ensures forall a :: a in up ==> a in parents && rank[a] < rank[b]
    decreases rank[b]
  {
    assert IsBelowParent(parents, rank, b);
    if parents[b].None? then []
    else [parents[b].value] + Ancestors(parents, rank, parents[b].value)
  }

  ghost function Descendants(parents: Parents, rank: map<string, nat>, a: string): set<string>
    requires IsForest(parents, rank)
  {
    set d | d in parents && a in Ancestors(parents, rank, d)
  }

  lemma {:induction false} AncestorsAreDistinct(parents: Parents, rank: map<string, nat>, b: string)
    requires IsForest(parents, rank) && b in parents
    ensures NoDup(Ancestors(parents, rank, b))
    decreases rank[b]
  {
    assert IsBelowParent(parents, rank, b);
    if parents[b].Some? {
      var p := parents[b].value;
      AncestorsAreDistinct(parents, rank, p);
      var up := Ancestors(parents, rank, p);
      assert p !in up;
    }
  }

  /** A new branch under a known parent, or none, keeps the forest. */
  lemma NewBranchKeepsForest(parents: Parents, rank: map<string, nat>, b: string, parent: Option<string>, r: nat)
    requires IsForest(parents, rank) && b !in parents
    requires parent.Some? ==> parent.value in parents
    requires forall x :: x in rank ==> rank[x] < r
    ensures IsForest(parents[b := parent], rank[b := r])
  {
    var more, ranks := parents[b := parent], rank[b := r];
    forall x | x in more
      ensures IsBelowParent(more, ranks, x)
    {
      assert x != b ==> IsBelowParent(parents, rank, x);
    }
  }

  // ----- depth

  /** The walk up with its `seen` guard. In a forest the guard never cuts it
      short, and the count is the number of strict ancestors. */
  method Depth(parents: Parents, b: string, ghost rank: map<string, nat>) returns (value: nat)
    requires IsForest(parents, rank) && b in parents
    ensures value == |Ancestors(parents, rank, b)|
  {
    var seen: set<string> := {};
    var current := b;
    value := 0;
    assert IsBelowParent(parents, rank, current);
    while parents[current].Some? && parents[current].value in parents && parents[current].value !in seen
      invariant current in parents && IsBelowParent(parents, rank, current)
      invariant forall x :: x in seen ==> x in parents && rank[x] > rank[current]
      invariant value + |Ancestors(parents, rank, current)| == |Ancestors(parents, rank, b)|
      decreases rank[current]
    {
      seen := seen + {current};
      value := value + 1;
      current := parents[current].value;
      assert IsBelowParent(parents, rank, current);
    }
  }

  // ----- descendants

  /** Every parent has the list of its children, each once; nobody else has a list. */
  ghost predicate ListsChildren(parents: Parents, children: map<string, seq<string>>) {
    && (forall p :: p in children ==> children[p] != [] && NoDup(children[p]))
    && (forall p, b :: p in children && b in children[p] ==> b in parents && parents[b] == Some(p))
    && (forall b :: b in parents && parents[b].Some? ==>
          parents[b].value in children && b in children[parents[b].value])
  }

  method BuildChildren(parents: Parents) returns (children: map<string, seq<string>>)
    ensures ListsChildren(parents, children)
  {
    children := map[];
    var left := parents.Keys;
    while left != {}
      invariant left <= parents.Keys
      invariant forall p :: p in children ==> children[p] != [] && NoDup(children[p])
      invariant forall p, b :: p in children && b in children[p] ==> b in parents && b !in left && parents[b] == Some(p)
      invariant forall b :: b in parents && b !in left && parents[b].Some? ==>
                  parents[b].value in children && b in children[parents[b].value]
      decreases |left|
    {
      var b :| b in left;
      left := left - {b};
      if parents[b].Some? {
        var p := parents[b].value;
        children := children[p := (if p in children then children[p] else []) + [b]];
      }
    }
  }

  /** Everything that must still be visited is on the stack. */
  ghost predicate Frontier(parents: Parents, found: seq<string>, stack: seq<string>, origin: string) {
    forall b :: b in parents && parents[b].Some? && (parents[b].value == origin || parents[b].value in found) ==>
      b in found || b in stack
  }

  lemma ChildIsDescendant(parents: Parents, rank: map<string, nat>, origin: string, p: string, b: string)
    requires IsForest(parents, rank) && b in parents && parents[b] == Some(p)
    requires p == origin || p in Descendants(parents, rank, origin)
    ensures b in Descendants(parents, rank, origin)
  {
    assert IsBelowParent(parents, rank, b);
  }

  lemma {:induction false} FrontierReachesAll(
    parents: Parents, rank: map<string, nat>, found: seq<string>, origin: string, d: string)
    requires IsForest(parents, rank) && Frontier(parents, found, [], origin)
    requires d in Descendants(parents, rank, origin)
    ensures d in found
    decreases rank[d]
  {
    assert IsBelowParent(parents, rank, d);
    var p := parents[d].value;
    if p != origin {
      FrontierReachesAll(parents, rank, found, origin, p);
    }
  }

  ghost predicate AllIn(s: seq<string>, S: set<string>) {
    forall x :: x in s ==> x in S
  }

  lemma PopKeepsFrontier(
    parents: Parents, children: map<string, seq<string>>, found: seq<string>, stack: seq<string>, origin: string)
    requires ListsChildren(parents, children) && stack != []
    requires Frontier(parents, found, stack, origin)
    ensures var current, rest := stack[|stack| - 1], stack[..|stack| - 1];
            if current in found then Frontier(parents, found, rest, origin)
            else Frontier(parents, found + [current], rest + ChildrenOf(children, current), origin)
  {
    var current, rest := stack[|stack| - 1], stack[..|stack| - 1];
    assert stack == rest + [current];
    if current !in found {
      var more := rest + ChildrenOf(children, current);
      forall b | b in parents && parents[b].Some?
        && (parents[b].value == origin || parents[b].value in found + [current])
        ensures b in found + [current] || b in more
      {
        assert parents[b].value in children && b in children[parents[b].value];
      }
    }
  }

  function ChildrenOf(children: map<string, seq<string>>, b: string): seq<string> {
    if b in children then children[b] else []
  }

  lemma ChildrenAreDescendants(
    parents: Parents, rank: map<string, nat>, children: map<string, seq<string>>, origin: string, p: string)
    requires IsForest(parents, rank) && ListsChildren(parents, children)
    requires p == origin || p in Descendants(parents, rank, origin)
    ensures AllIn(ChildrenOf(children, p), Descendants(parents, rank, origin))
  {
    forall b | b in ChildrenOf(children, p)
      ensures b in Descendants(parents, rank, origin)
    {
      ChildIsDescendant(parents, rank, origin, p, b);
    }
  }

  /** The stack search finds exactly the strict descendants, each once. */
  method FindDescendants(parents: Parents, origin: string, ghost rank: map<string, nat>) returns (found: seq<string>)
    requires IsForest(parents, rank)
    ensures NoDup(found) && Elements(found) == Descendants(parents, rank, origin)
  {
    hide IsForest, Descendants, Ancestors, Frontier, ListsChildren;
    var children := BuildChildren(parents);
    ghost var goal := Descendants(parents, rank, origin);
    found := [];
    var stack := ChildrenOf(children, origin);
    StartsFrontier(parents, children, origin);
    ChildrenAreDescendants(parents, rank, children, origin, origin);
    while stack != []
      invariant NoDup(found) && AllIn(found, goal) && AllIn(stack, goal)
      invariant Frontier(parents, found, stack, origin)
      decreases goal - Elements(found), |stack|
    {
      var current := stack[|stack| - 1];
      PopKeepsFrontier(parents, children, found, stack, origin);
      assert current in stack;
      stack := stack[..|stack| - 1];
      if current !in found {
        ChildrenAreDescendants(parents, rank, children, origin, current);
        assert current in goal - Elements(found);
        found := found + [current];
        assert Elements(found) == Elements(found[..|found| - 1]) + {current};
        stack := stack + ChildrenOf(children, current);
      }
    }
    forall d | d in goal
      ensures d in found
    {
      FrontierReachesAll(parents, rank, found, origin, d);
    }
  }

  lemma StartsFrontier(parents: Parents, children: map<string, seq<string>>, origin: string)
    requires ListsChildren(parents, children)
    ensures Frontier(parents, [], ChildrenOf(children, origin), origin)
  {
  }

  // ----- the sum of depths is the sum of descendant counts

  ghost function Sum(S: set<string>, f: map<string, nat>): nat
    requires S <= f.Keys
  {
    if S == {} then 0
    else
      var x :| x in S;
      f[x] + Sum(S - {x}, f)
  }

  lemma {:induction false} SumWithout(S: set<string>, f: map<string, nat>, x: string)
    requires S <= f.Keys && x in S
    ensures Sum(S, f) == f[x] + Sum(S - {x}, f)
  {
    var y :| y in S && Sum(S, f) == f[y] + Sum(S - {y}, f);
    if y != x {
      SumWithout(S - {y}, f, x);
      SumWithout(S - {x}, f, y);
      assert S - {y} - {x} == S - {x} - {y};
    }
  }

  type Relation = set<(string, string)>

  ghost function Row(R: Relation, a: string): Relation {
    set p | p in R && p.0 == a
  }

  ghost function Column(R: Relation, d: string): Relation {
    set p | p in R && p.1 == d
  }

  /** Counting a relation row by row. */
  lemma {:induction false} CountByRows(R: Relation, S: set<string>, f: map<string, nat>)
    requires S <= f.Keys && forall p :: p in R ==> p.0 in S
    requires forall a :: a in S ==> f[a] == |Row(R, a)|
    ensures Sum(S, f) == |R|
  {
    if S == {} {
      assert R == {};
    } else {
      var a :| a in S;
      var rest := R - Row(R, a);
      SumWithout(S, f, a);
      forall b | b in S - {a}
        ensures Row(rest, b) == Row(R, b)
      {
      }
      CountByRows(rest, S - {a}, f);
      assert |R| == |rest| + |Row(R, a)|;
    }
  }

  lemma {:induction false} CountByColumns(R: Relation, S: set<string>, f: map<string, nat>)
    requires S <= f.Keys && forall p :: p in R ==> p.1 in S
    requires forall d :: d in S ==> f[d] == |Column(R, d)|
    ensures Sum(S, f) == |R|
  {
    if S == {} {
      assert R == {};
    } else {
      var d :| d in S;
      var rest := R - Column(R, d);
      SumWithout(S, f, d);
      forall b | b in S - {d}
        ensures Column(rest, b) == Column(R, b)
      {
      }
      CountByColumns(rest, S - {d}, f);
      assert |R| == |rest| + |Column(R, d)|;
    }
  }

  lemma {:induction false} PairsCount(S: set<string>, a: string)
    ensures |set d | d in S :: (a, d)| == |S|
    ensures |set d | d in S :: (d, a)| == |S|
  {
    if S == {} {
      assert (set d | d in S :: (a, d)) == {} && (set d | d in S :: (d, a)) == {};
    } else {
      var x :| x in S;
      PairsCount(S - {x}, a);
      assert (set d | d in S :: (a, d)) == (set d | d in S - {x} :: (a, d)) + {(a, x)};
      assert (set d | d in S :: (d, a)) == (set d | d in S - {x} :: (d, a)) + {(x, a)};
    }
  }

  ghost function Lineages(parents: Parents, rank: map<string, nat>): Relation
    requires IsForest(parents, rank)
  {
    set a, d | d in parents && a in Ancestors(parents, rank, d) :: (a, d)
  }

  /** Every (ancestor, descendant) pair is counted once on each side. */
  lemma LineageColumn(parents: Parents, rank: map<string, nat>, b: string)
    requires IsForest(parents, rank) && b in parents
    ensures |Column(Lineages(parents, rank), b)| == |Ancestors(parents, rank, b)|
  {
    var up := Ancestors(parents, rank, b);
    AncestorsAreDistinct(parents, rank, b);
    ElementsCount(up);
    PairsCount(Elements(up), b);
    assert Column(Lineages(parents, rank), b) == set a | a in Elements(up) :: (a, b);
  }

  lemma LineageRow(parents: Parents, rank: map<string, nat>, b: string)
    requires IsForest(parents, rank) && b in parents
    ensures |Row(Lineages(parents, rank), b)| == |Descendants(parents, rank, b)|
  {
    var down := Descendants(parents, rank, b);
    PairsCount(down, b);
    assert Row(Lineages(parents, rank), b) == set d | d in down :: (b, d);
  }

  lemma DepthsSumToDescendants(
    parents: Parents, rank: map<string, nat>, depth: map<string, nat>, descendants: map<string, nat>)
    requires IsForest(parents, rank)
    requires depth.Keys == descendants.Keys == parents.Keys
    requires forall b :: b in parents ==> depth[b] == |Ancestors(parents, rank, b)|
    requires forall b :: b in parents ==> descendants[b] == |Descendants(parents, rank, b)|
    ensures Sum(parents.Keys, depth) == Sum(parents.Keys, descendants)
  {
    var R := Lineages(parents, rank);
    hide IsForest, Ancestors, Descendants, Lineages, Row, Column;
    forall b | b in parents
      ensures depth[b] == |Column(R, b)| && descendants[b] == |Row(R, b)|
    {
      LineageColumn(parents, rank, b);
      LineageRow(parents, rank, b);
    }
    CountByRows(R, parents.Keys, descendants);
    CountByColumns(R, parents.Keys, depth);
  }

  /** Depth and descendant count of every branch, as the lineage scores report
      them; over the whole store the two columns have the same sum. */
  method LineageCounts(parents: Parents, ghost rank: map<string, nat>)
    returns (depth: map<string, nat>, descendants: map<string, nat>)
    requires IsForest(parents, rank)
    ensures depth.Keys == descendants.Keys == parents.Keys
    ensures forall b :: b in parents ==> depth[b] == |Ancestors(parents, rank, b)|
    ensures forall b :: b in parents ==> descendants[b] == |Descendants(parents, rank, b)|
    ensures Sum(parents.Keys, depth) == Sum(parents.Keys, descendants)
  {
    hide IsForest, Ancestors, Descendants, Sum;
    depth, descendants := map[], map[];
    var left := parents.Keys;
    while left != {}
      invariant left <= parents.Keys
      invariant depth.Keys == descendants.Keys == parents.Keys - left
      invariant forall b :: b in depth ==> depth[b] == |Ancestors(parents, rank, b)|
      invariant forall b :: b in descendants ==> descendants[b] == |Descendants(parents, rank, b)|
      decreases |left|
    {
      var b :| b in left;
      left := left - {b};
      var found := FindDescendants(parents, b, rank);
      ElementsCount(found);
      var value := Depth(parents, b, rank);
      depth := depth[b := value];
      descendants := descendants[b := |found|];
    }
    assert parents.Keys - left == parents.Keys;
    DepthsSumToDescendants(parents, rank, depth, descendants);
  }
}
