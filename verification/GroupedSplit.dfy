/** The leakage-free train/validation/test split by source group, for every shuffle. */
module GroupedSplit {
  import opened LexOrder

  datatype Part = Train | Validation | Test

  datatype Failure = LengthMismatch | TooFewGroups(wanted: int) | GroupLeakage | EmptyPartition

  datatype Outcome =
    | Split(train: seq<bool>, validation: seq<bool>, test: seq<bool>)
    | Failed(failure: Failure)

  // ----- the three counts

  /** Python's round(): to the nearest integer, ties to the even one. */
  function RoundHalfEven(x: real): int {
    var below := x.Floor;
    var excess := x - below as real;
    if excess < 0.5 then below
    else if excess > 0.5 then below + 1
    else if below % 2 == 0 then below else below + 1
  }

  function Share(count: nat): nat {
    var fifth := RoundHalfEven(count as real * 0.2);
    if fifth > 1 then fifth else 1
  }

  /** How many groups of a label go to validation, and how many to test. */
  function HeldOut(count: nat): nat {
    if Share(count) + Share(count) >= count then 1 else Share(count)
  }

  /** A fifth is never a tie, so rounding is unambiguous. */
  lemma NearestFifth(count: nat)
    ensures -2 <= 5 * RoundHalfEven(count as real * 0.2) - count <= 2
  {
    var x := count as real * 0.2;
    var below := x.Floor;
    assert 5.0 * x == count as real;
    assert below as real <= x < below as real + 1.0;
    assert 0 <= count - 5 * below <= 4 by {
      assert (5 * below) as real == 5.0 * below as real;
    }
    assert x - below as real == (count - 5 * below) as real * 0.2;
  }

  /** The correction for small labels is never needed, and training always gets
      at least as many groups of each label as either held-out part. */
  lemma HeldOutFits(count: nat)
    requires count >= 3
    ensures Share(count) + Share(count) < count
    ensures HeldOut(count) == Share(count) && 1 <= HeldOut(count) <= count - 2 * HeldOut(count)
  {
    NearestFifth(count);
  }

  // ----- the labels' groups and one shuffle of each

  function GroupsOf(labels: seq<int>, groups: seq<string>, wanted: int): set<string>
    requires |labels| == |groups|
  {
    set i | 0 <= i < |labels| && labels[i] == wanted :: groups[i]
  }

  function LabelSet(labels: seq<int>): set<int> {
    set l | l in labels
  }

  predicate Enumerates(s: seq<string>, S: set<string>) {
    NoDup(s) && Elements(s) == S
  }

  /** `order` holds, for every label, its groups in some order. */
  predicate IsShuffle(labels: seq<int>, groups: seq<string>, order: map<int, seq<string>>)
    requires |labels| == |groups|
  {
    forall l :: l in labels ==> l in order && Enumerates(order[l], GroupsOf(labels, groups, l))
  }

  predicate EnoughGroups(labels: seq<int>, groups: seq<string>)
    requires |labels| == |groups|
  {
    forall l :: l in labels ==> |GroupsOf(labels, groups, l)| >= 3
  }

  predicate IsSingleClass(labels: seq<int>, groups: seq<string>)
    requires |labels| == |groups|
  {
    forall i, j :: 0 <= i < |labels| && 0 <= j < |labels| && groups[i] == groups[j] ==> labels[i] == labels[j]
  }

  predicate IsFirstPoorLabel(labels: seq<int>, groups: seq<string>, wanted: int)
    requires |labels| == |groups|
  {
    && wanted in labels && |GroupsOf(labels, groups, wanted)| < 3
    && forall l :: l in labels && |GroupsOf(labels, groups, l)| < 3 ==> wanted <= l
  }

  function Slice(s: seq<string>, part: Part): seq<string> {
    if |s| < 3 then []
    else
      HeldOutFits(|s|);
      var h := HeldOut(|s|);
      match part
      case Train => s[..|s| - 2 * h]
      case Validation => s[|s| - 2 * h..|s| - h]
      case Test => s[|s| - h..]
  }

  /** The groups of one part, over the given labels. */
  function PartGroups(among: set<int>, order: map<int, seq<string>>, part: Part): set<string> {
    set l, g | l in among && l in order && g in Slice(order[l], part) :: g
  }

  function Mask(groups: seq<string>, S: set<string>): seq<bool> {
    seq(|groups|, i requires 0 <= i < |groups| => groups[i] in S)
  }

  predicate Overlap(a: seq<bool>, b: seq<bool>) {
    exists i :: 0 <= i < |a| && i < |b| && a[i] && b[i]
  }

  function PartMask(labels: seq<int>, groups: seq<string>, order: map<int, seq<string>>, part: Part): seq<bool> {
    Mask(groups, PartGroups(LabelSet(labels), order, part))
  }

  /** What one shuffle of every label leads to. */
  function Divide(labels: seq<int>, groups: seq<string>, order: map<int, seq<string>>): Outcome {
    var train := PartMask(labels, groups, order, Train);
    var validation := PartMask(labels, groups, order, Validation);
    var test := PartMask(labels, groups, order, Test);
    if Overlap(train, validation) || Overlap(train, test) || Overlap(validation, test) then Failed(GroupLeakage)
    else if true !in train || true !in validation || true !in test then Failed(EmptyPartition)
    else Split(train, validation, test)
  }

  // ----- what a returned split promises

  predicate CoversEveryLabel(labels: seq<int>, mask: seq<bool>)
    requires |mask| == |labels|
  {
    forall l :: l in labels ==> exists i :: 0 <= i < |labels| && labels[i] == l && mask[i]
  }

  predicate KeepsGroupsWhole(groups: seq<string>, mask: seq<bool>)
    requires |mask| == |groups|
  {
    forall i, j :: 0 <= i < |groups| && 0 <= j < |groups| && groups[i] == groups[j] ==> mask[i] == mask[j]
  }

  predicate ExactlyOne(a: bool, b: bool, c: bool) {
    (a || b || c) && !(a && b) && !(a && c) && !(b && c)
  }

  predicate IsLeakageFree(
    labels: seq<int>, groups: seq<string>, train: seq<bool>, validation: seq<bool>, test: seq<bool>)
  {
    && |labels| == |groups| == |train| == |validation| == |test|
    && (forall i :: 0 <= i < |labels| ==> ExactlyOne(train[i], validation[i], test[i]))
    && KeepsGroupsWhole(groups, train) && KeepsGroupsWhole(groups, validation) && KeepsGroupsWhole(groups, test)
    && CoversEveryLabel(labels, train) && CoversEveryLabel(labels, validation) && CoversEveryLabel(labels, test)
  }

  /** The three slices cut a shuffled list into non-empty pieces without remainder. */
  lemma SlicesCover(s: seq<string>)
    requires |s| >= 3
    ensures Slice(s, Train) + Slice(s, Validation) + Slice(s, Test) == s
    ensures Slice(s, Train) != [] && Slice(s, Validation) != [] && Slice(s, Test) != []
  {
    HeldOutFits(|s|);
  }

  /** Each held-out part gets a fifth of the groups, to the nearest whole group. */
  lemma HeldOutIsAFifth(s: seq<string>, part: Part)
    requires |s| >= 3 && !part.Train?
    ensures -2 <= 5 * |Slice(s, part)| - |s| <= 2
  {
    HeldOutFits(|s|);
    NearestFifth(|s|);
  }

  lemma LongOrder(labels: seq<int>, groups: seq<string>, order: map<int, seq<string>>, l: int)
    requires |labels| == |groups| && IsShuffle(labels, groups, order) && EnoughGroups(labels, groups) && l in labels
    ensures l in order && |order[l]| >= 3
  {
    ElementsCount(order[l]);
  }

  lemma PartHasLabel(labels: seq<int>, groups: seq<string>, order: map<int, seq<string>>, part: Part, l: int)
    requires |labels| == |groups| && IsShuffle(labels, groups, order) && EnoughGroups(labels, groups) && l in labels
    ensures exists i :: 0 <= i < |labels| && labels[i] == l && PartMask(labels, groups, order, part)[i]
    ensures true in PartMask(labels, groups, order, part)
  {
    LongOrder(labels, groups, order, l);
    SlicesCover(order[l]);
    var g := Slice(order[l], part)[0];
    assert g in Elements(order[l]);
    var i :| 0 <= i < |labels| && labels[i] == l && groups[i] == g;
    assert l in LabelSet(labels) && g in Slice(order[l], part);
    assert PartMask(labels, groups, order, part)[i];
  }

  lemma EveryRowIsInAPart(labels: seq<int>, groups: seq<string>, order: map<int, seq<string>>, i: nat)
    requires |labels| == |groups| && IsShuffle(labels, groups, order) && EnoughGroups(labels, groups) && i < |labels|
    ensures PartMask(labels, groups, order, Train)[i]
         || PartMask(labels, groups, order, Validation)[i]
         || PartMask(labels, groups, order, Test)[i]
  {
    var l := labels[i];
    LongOrder(labels, groups, order, l);
    SlicesCover(order[l]);
    assert groups[i] in Elements(order[l]);
    assert groups[i] in Slice(order[l], Train) + Slice(order[l], Validation) + Slice(order[l], Test);
    var part :| groups[i] in Slice(order[l], part);
    assert l in LabelSet(labels);
    assert part.Train? || part.Validation? || part.Test?;
    assert PartMask(labels, groups, order, part)[i];
  }

  /** Whatever the shuffle, a split that is returned leaks nothing, loses no row
      and has every label in all three parts. */
  lemma SplitIsLeakageFree(labels: seq<int>, groups: seq<string>, order: map<int, seq<string>>)
    requires |labels| == |groups| && IsShuffle(labels, groups, order) && EnoughGroups(labels, groups)
    ensures var r := Divide(labels, groups, order);
            r.Split? ==> IsLeakageFree(labels, groups, r.train, r.validation, r.test)
  {
    hide Slice, PartGroups, IsShuffle, EnoughGroups;
    var r := Divide(labels, groups, order);
    if r.Split? {
      forall i | 0 <= i < |labels|
        ensures ExactlyOne(r.train[i], r.validation[i], r.test[i])
      {
        EveryRowIsInAPart(labels, groups, order, i);
      }
      forall l | l in labels
        ensures forall part ::
                  exists i :: 0 <= i < |labels| && labels[i] == l && PartMask(labels, groups, order, part)[i]
      {
        forall part
          ensures exists i :: 0 <= i < |labels| && labels[i] == l && PartMask(labels, groups, order, part)[i]
        {
          PartHasLabel(labels, groups, order, part, l);
        }
      }
    }
  }

  /** The empty-partition error only ever answers an empty dataset. */
  lemma EmptyOnlyWithoutRows(labels: seq<int>, groups: seq<string>, order: map<int, seq<string>>)
    requires |labels| == |groups| && IsShuffle(labels, groups, order) && EnoughGroups(labels, groups)
    ensures Divide(labels, groups, order) == Failed(EmptyPartition) <==> labels == []
  {
    hide PartGroups, IsShuffle, EnoughGroups;
    if labels != [] {
      PartHasLabel(labels, groups, order, Train, labels[0]);
      PartHasLabel(labels, groups, order, Validation, labels[0]);
      PartHasLabel(labels, groups, order, Test, labels[0]);
    }
  }

  /** The groups of a label that have a row in a part. */
  function GroupsIn(labels: seq<int>, groups: seq<string>, mask: seq<bool>, wanted: int): set<string>
    requires |labels| == |groups| == |mask|
  {
    set i | 0 <= i < |labels| && labels[i] == wanted && mask[i] :: groups[i]
  }

  predicate IsAFifth(part: nat, whole: nat) {
    -2 <= 5 * part - whole <= 2
  }

  /** Of every label, validation and test have a fifth of the groups each. */
  predicate IsBalanced(labels: seq<int>, groups: seq<string>, validation: seq<bool>, test: seq<bool>)
    requires |labels| == |groups| == |validation| == |test|
  {
    forall l :: l in labels ==>
      && IsAFifth(|GroupsIn(labels, groups, validation, l)|, |GroupsOf(labels, groups, l)|)
      && IsAFifth(|GroupsIn(labels, groups, test, l)|, |GroupsOf(labels, groups, l)|)
  }

  lemma OneOfThree(s: seq<string>, g: string) returns (part: Part)
    requires |s| >= 3 && g in s
    ensures g in Slice(s, part)
  {
    SlicesCover(s);
    assert g in Slice(s, Train) + Slice(s, Validation) + Slice(s, Test);
    part :| g in Slice(s, part);
  }

  lemma DrawnRowIsMarked(
    labels: seq<int>, groups: seq<string>, order: map<int, seq<string>>, part: Part, l: int, i: nat)
    requires |labels| == |groups| && l in labels && l in order && i < |labels| && groups[i] in Slice(order[l], part)
    ensures PartMask(labels, groups, order, part)[i]
  {
    assert l in LabelSet(labels);
  }

  /** In a split that is returned, the groups of a label in a part are those drawn
      for that label, even if a group carries several labels. */
  lemma PartHoldsItsSlice(labels: seq<int>, groups: seq<string>, order: map<int, seq<string>>, part: Part, l: int)
    requires |labels| == |groups| && IsShuffle(labels, groups, order) && EnoughGroups(labels, groups) && l in labels
    requires Divide(labels, groups, order).Split?
    ensures l in order && |order[l]| >= 3
    ensures GroupsIn(labels, groups, PartMask(labels, groups, order, part), l) == Elements(Slice(order[l], part))
  {
    LongOrder(labels, groups, order, l);
    var mask := PartMask(labels, groups, order, part);
    hide Slice, EnoughGroups;
    forall g | g in GroupsIn(labels, groups, mask, l)
      ensures g in Slice(order[l], part)
    {
      var i :| 0 <= i < |labels| && labels[i] == l && mask[i] && groups[i] == g;
      assert g in Elements(order[l]);
      var own := OneOfThree(order[l], g);
      DrawnRowIsMarked(labels, groups, order, own, l, i);
      PartsNeverMeet(labels, groups, order, part, own, i);
    }
    forall g | g in Slice(order[l], part)
      ensures g in GroupsIn(labels, groups, mask, l)
    {
      SliceWithin(order[l], part, g);
      var i :| 0 <= i < |labels| && labels[i] == l && groups[i] == g;
      DrawnRowIsMarked(labels, groups, order, part, l, i);
    }
  }

  lemma PartsNeverMeet(labels: seq<int>, groups: seq<string>, order: map<int, seq<string>>, p: Part, q: Part, i: nat)
    requires |labels| == |groups| && Divide(labels, groups, order).Split? && i < |labels|
    requires PartMask(labels, groups, order, p)[i] && PartMask(labels, groups, order, q)[i]
    ensures p == q
  {
    var P, Q := PartMask(labels, groups, order, p), PartMask(labels, groups, order, q);
    assert P[i] && Q[i] && i < |P| && i < |Q|;
    hide PartMask;
    assert Overlap(P, Q) && Overlap(Q, P);
  }

  lemma {:induction false} SliceCount(s: seq<string>, part: Part)
    requires NoDup(s)
    ensures |Elements(Slice(s, part))| == |Slice(s, part)|
  {
    ElementsCount(Slice(s, part));
  }

  /** A returned split holds out a fifth of the groups of every label for validation
      and another fifth for test. */
  lemma SplitIsBalanced(labels: seq<int>, groups: seq<string>, order: map<int, seq<string>>)
    requires |labels| == |groups| && IsShuffle(labels, groups, order) && EnoughGroups(labels, groups)
    ensures var r := Divide(labels, groups, order);
            r.Split? ==>
              |r.validation| == |r.test| == |labels| && IsBalanced(labels, groups, r.validation, r.test)
  {
    var r := Divide(labels, groups, order);
    hide Slice, PartGroups, EnoughGroups;
    if r.Split? {
      forall l, part: Part | l in labels && !part.Train?
        ensures IsAFifth(|GroupsIn(labels, groups, PartMask(labels, groups, order, part), l)|,
                         |GroupsOf(labels, groups, l)|)
      {
        PartHoldsItsSlice(labels, groups, order, part, l);
        SliceCount(order[l], part);
        HeldOutIsAFifth(order[l], part);
        ElementsCount(order[l]);
      }
      assert r.validation == PartMask(labels, groups, order, Validation);
      assert r.test == PartMask(labels, groups, order, Test);
    }
  }

  // ----- when it succeeds

  function Offset(n: nat, part: Part): int {
    match part
    case Train => 0
    case Validation => n - 2 * HeldOut(n)
    case Test => n - HeldOut(n)
  }

  lemma SlicePlaces(s: seq<string>, part: Part, i: nat)
    requires i < |Slice(s, part)|
    ensures 0 <= Offset(|s|, part) + i < |s| && s[Offset(|s|, part) + i] == Slice(s, part)[i]
    ensures part.Train? ==> Offset(|s|, part) + i < Offset(|s|, Validation)
    ensures part.Validation? ==> Offset(|s|, Validation) <= Offset(|s|, part) + i < Offset(|s|, Test)
    ensures part.Test? ==> Offset(|s|, Test) <= Offset(|s|, part) + i && Offset(|s|, Validation) <= Offset(|s|, Test)
  {
    HeldOutFits(|s|);
  }

  lemma SlicesDisjoint(s: seq<string>, p: Part, q: Part, g: string)
    requires NoDup(s) && g in Slice(s, p) && g in Slice(s, q)
    ensures p == q
  {
    hide Slice, Offset;
    var i :| 0 <= i < |Slice(s, p)| && Slice(s, p)[i] == g;
    var j :| 0 <= j < |Slice(s, q)| && Slice(s, q)[j] == g;
    SlicePlaces(s, p, i);
    SlicePlaces(s, q, j);
  }

  lemma SingleClassNeverOverlaps(labels: seq<int>, groups: seq<string>, order: map<int, seq<string>>, p: Part, q: Part)
    requires |labels| == |groups| && IsShuffle(labels, groups, order)
    requires IsSingleClass(labels, groups) && p != q
    ensures !Overlap(PartMask(labels, groups, order, p), PartMask(labels, groups, order, q))
  {
    hide Slice;
    var P, Q := PartMask(labels, groups, order, p), PartMask(labels, groups, order, q);
    if i :| 0 <= i < |P| && i < |Q| && P[i] && Q[i] {
      var g := groups[i];
      var l :| l in labels && l in order && g in Slice(order[l], p);
      var m :| m in labels && m in order && g in Slice(order[m], q);
      SliceWithin(order[l], p, g);
      SliceWithin(order[m], q, g);
      assert g in GroupsOf(labels, groups, l) && g in GroupsOf(labels, groups, m);
      assert l == m;
      SlicesDisjoint(order[l], p, q, g);
    }
  }

  lemma SliceWithin(s: seq<string>, part: Part, g: string)
    requires g in Slice(s, part)
    ensures g in Elements(s)
  {
  }

  /** If every group is single-class and every label has three groups, no shuffle
      makes the split fail. */
  lemma SingleClassAlwaysSplits(labels: seq<int>, groups: seq<string>, order: map<int, seq<string>>)
    requires |labels| == |groups| && labels != [] && IsShuffle(labels, groups, order)
    requires EnoughGroups(labels, groups) && IsSingleClass(labels, groups)
    ensures Divide(labels, groups, order).Split?
  {
    hide PartMask, Overlap, Slice, PartGroups, IsShuffle, EnoughGroups, IsSingleClass;
    SingleClassNeverOverlaps(labels, groups, order, Train, Validation);
    SingleClassNeverOverlaps(labels, groups, order, Train, Test);
    SingleClassNeverOverlaps(labels, groups, order, Validation, Test);
    PartHasLabel(labels, groups, order, Train, labels[0]);
    PartHasLabel(labels, groups, order, Validation, labels[0]);
    PartHasLabel(labels, groups, order, Test, labels[0]);
  }

  lemma ElementsOfConcat(s: seq<string>, t: seq<string>)
    ensures Elements(s + t) == Elements(s) + Elements(t)
  {
    forall x
      ensures x in s + t <==> x in s || x in t
    {}
  }

  /** Some order of a set that starts, or ends, with a chosen element. */
  lemma {:induction false} OrderOf(S: set<string>) returns (s: seq<string>)
    ensures Enumerates(s, S)
  {
    if S == {} {
      s := [];
    } else {
      var g :| g in S;
      s := OrderOf(S - {g});
      assert g !in Elements(s);
      ElementsOfConcat([g], s);
      s := [g] + s;
    }
  }

  lemma OrderStarting(S: set<string>, g: string) returns (s: seq<string>)
    requires g in S
    ensures Enumerates(s, S) && s[0] == g
  {
    var rest := OrderOf(S - {g});
    assert g !in Elements(rest);
    ElementsOfConcat([g], rest);
    s := [g] + rest;
  }

  lemma OrderEnding(S: set<string>, g: string) returns (s: seq<string>)
    requires g in S
    ensures Enumerates(s, S) && s[|s| - 1] == g
  {
    var rest := OrderOf(S - {g});
    assert g !in Elements(rest);
    ElementsOfConcat(rest, [g]);
    s := rest + [g];
  }

  lemma {:induction false} SomeShuffle(
    labels: seq<int>, groups: seq<string>, n: nat)
    returns (order: map<int, seq<string>>)
    requires |labels| == |groups| && n <= |labels|
    ensures forall i :: 0 <= i < n ==>
              labels[i] in order && Enumerates(order[labels[i]], GroupsOf(labels, groups, labels[i]))
  {
    if n == 0 {
      order := map[];
    } else {
      order := SomeShuffle(labels, groups, n - 1);
      var s := OrderOf(GroupsOf(labels, groups, labels[n - 1]));
      order := order[labels[n - 1] := s];
    }
  }

  /** A group with two labels can be drawn into training for one and into test for
      the other, and the split is then refused. */
  lemma MixedGroupCanLeak(labels: seq<int>, groups: seq<string>, i: nat, j: nat) returns (order: map<int, seq<string>>)
    requires |labels| == |groups| && EnoughGroups(labels, groups)
    requires i < |labels| && j < |labels| && groups[i] == groups[j] && labels[i] != labels[j]
    ensures IsShuffle(labels, groups, order)
    ensures Divide(labels, groups, order) == Failed(GroupLeakage)
  {
    var g, a, b := groups[i], labels[i], labels[j];
    order := SomeShuffle(labels, groups, |labels|);
    var first := OrderStarting(GroupsOf(labels, groups, a), g);
    var last := OrderEnding(GroupsOf(labels, groups, b), g);
    order := order[a := first][b := last];
    LongOrder(labels, groups, order, a);
    LongOrder(labels, groups, order, b);
    HeldOutFits(|first|);
    HeldOutFits(|last|);
    assert Slice(first, Train)[0] == g;
    assert Slice(last, Test)[|Slice(last, Test)| - 1] == g;
    assert a in LabelSet(labels) && g in Slice(order[a], Train);
    assert b in LabelSet(labels) && g in Slice(order[b], Test);
    assert PartMask(labels, groups, order, Train)[i] && PartMask(labels, groups, order, Test)[i];
  }

  ghost predicate SplitsForEveryShuffle(labels: seq<int>, groups: seq<string>)
    requires |labels| == |groups|
  {
    forall order :: IsShuffle(labels, groups, order) ==> Divide(labels, groups, order).Split?
  }

  /** The documented assumption is exactly what makes the split safe from chance:
      it succeeds for every shuffle if and only if no group carries two labels. */
  lemma SplitsForEveryShuffleIff(labels: seq<int>, groups: seq<string>)
    requires |labels| == |groups| && labels != [] && EnoughGroups(labels, groups)
    ensures SplitsForEveryShuffle(labels, groups) <==> IsSingleClass(labels, groups)
  {
    hide Divide, IsShuffle, EnoughGroups;
    if IsSingleClass(labels, groups) {
      forall order | IsShuffle(labels, groups, order)
        ensures Divide(labels, groups, order).Split?
      {
        SingleClassAlwaysSplits(labels, groups, order);
      }
    } else {
      var i, j :| 0 <= i < |labels| && 0 <= j < |labels| && groups[i] == groups[j] && labels[i] != labels[j];
      var order := MixedGroupCanLeak(labels, groups, i, j);
    }
  }

  // ----- the code

  predicate Increasing(s: seq<int>) {
    forall i, j :: 0 <= i < j < |s| ==> s[i] < s[j]
  }

  /** np.unique: the distinct labels in ascending order. */
  method SortedLabels(labels: seq<int>) returns (u: seq<int>)
    ensures Increasing(u)
    ensures forall l :: l in u <==> l in labels
  {
    u := [];
    for i := 0 to |labels|
      invariant Increasing(u)
      invariant forall l :: l in u <==> l in labels[..i]
    {
      var l := labels[i];
      var p := 0;
      while p < |u| && u[p] < l
        invariant 0 <= p <= |u|
        invariant forall k :: 0 <= k < p ==> u[k] < l
      {
        p := p + 1;
      }
      assert labels[..i + 1] == labels[..i] + [l];
      if p == |u| || u[p] != l {
        assert u == u[..p] + u[p..];
        u := u[..p] + [l] + u[p..];
      }
    }
    assert labels[..|labels|] == labels;
  }

  /** The distinct groups of one label, sorted. */
  method SortedGroups(labels: seq<int>, groups: seq<string>, wanted: int) returns (s: seq<string>)
    requires |labels| == |groups|
    ensures IsSorted(s) && Enumerates(s, GroupsOf(labels, groups, wanted))
  {
    s := [];
    for i := 0 to |labels|
      invariant NoDup(s)
      invariant Elements(s) == set k | 0 <= k < i && labels[k] == wanted :: groups[k]
    {
      assert (set k | 0 <= k < i + 1 && labels[k] == wanted :: groups[k])
          == (set k | 0 <= k < i && labels[k] == wanted :: groups[k])
             + (if labels[i] == wanted then {groups[i]} else {});
      if labels[i] == wanted && groups[i] !in s {
        ElementsOfConcat(s, [groups[i]]);
        s := s + [groups[i]];
      }
    }
    NoDupPermutation(s, Sorted(s));
    SortedIsSorted(s);
    s := Sorted(s);
  }

  // ----- the shuffle

  /** One draw for each position, of that position or an earlier one. */
  predicate AreDraws(draws: seq<nat>, n: nat) {
    |draws| == n && forall i :: 0 <= i < n ==> draws[i] <= i
  }

  function Swapped(s: seq<string>, i: nat, j: nat): (t: seq<string>)
    requires i < |s| && j < |s|
    ensures |t| == |s|
  {
    s[i := s[j]][j := s[i]]
  }

  /** The first n positions shuffled by the draws, from the back. */
  function ShuffledBy(s: seq<string>, draws: seq<nat>, n: nat): (t: seq<string>)
    requires n <= |s| && AreDraws(draws, |s|)
    ensures |t| == |s|
    decreases n
  {
    if n <= 1 then s else ShuffledBy(Swapped(s, n - 1, draws[n - 1]), draws, n - 1)
  }

  lemma SwappedElements(s: seq<string>, i: nat, j: nat)
    requires i < |s| && j < |s|
    ensures multiset(Swapped(s, i, j)) == multiset(s)
  {
  }

  lemma {:induction false} ShuffledElements(s: seq<string>, draws: seq<nat>, n: nat)
    requires n <= |s| && AreDraws(draws, |s|)
    ensures multiset(ShuffledBy(s, draws, n)) == multiset(s)
    decreases n
  {
    if n > 1 {
      SwappedElements(s, n - 1, draws[n - 1]);
      ShuffledElements(Swapped(s, n - 1, draws[n - 1]), draws, n - 1);
    }
  }

  /** Only the first n draws matter. */
  lemma {:induction false} LaterDrawsUnused(s: seq<string>, d: seq<nat>, e: seq<nat>, n: nat)
    requires n <= |s| && AreDraws(d, |s|) && AreDraws(e, |s|) && d[..n] == e[..n]
    ensures ShuffledBy(s, d, n) == ShuffledBy(s, e, n)
    decreases n
  {
    if n > 1 {
      assert d[n - 1] == d[..n][n - 1] == e[n - 1];
      assert d[..n - 1] == d[..n][..n - 1] == e[..n - 1];
      LaterDrawsUnused(Swapped(s, n - 1, d[n - 1]), d, e, n - 1);
    }
  }

  predicate SameFrom(s: seq<string>, t: seq<string>, n: nat) {
    |s| == |t| && forall k :: n <= k < |s| ==> s[k] == t[k]
  }

  lemma FrontElements(s: seq<string>, n: nat)
    requires 0 < n <= |s|
    ensures multiset(s[..n - 1]) == multiset(s[..n]) - multiset{s[n - 1]}
  {
    assert s[..n] == s[..n - 1] + [s[n - 1]];
  }

  lemma SwappedFront(s: seq<string>, n: nat, j: nat)
    requires 0 < n <= |s| && j < n
    ensures multiset(Swapped(s, n - 1, j)[..n]) == multiset(s[..n])
    ensures Swapped(s, n - 1, j)[n - 1] == s[j]
  {
    SwappedElements(s[..n], n - 1, j);
    assert Swapped(s, n - 1, j)[..n] == Swapped(s[..n], n - 1, j);
  }

  lemma SwapIntoPlace(s: seq<string>, t: seq<string>, n: nat, j: nat)
    requires 0 < n <= |s| == |t| && j < n && s[j] == t[n - 1]
    requires multiset(s[..n]) == multiset(t[..n]) && SameFrom(s, t, n)
    ensures var u := Swapped(s, n - 1, j);
            multiset(u[..n - 1]) == multiset(t[..n - 1]) && SameFrom(u, t, n - 1)
  {
    var u := Swapped(s, n - 1, j);
    assert SameFrom(u, t, n - 1);
    hide SameFrom;
    SwappedFront(s, n, j);
    hide Swapped;
    FrontElements(u, n);
    FrontElements(t, n);
  }

  /** Every order of a list is the shuffle for some draws. */
  lemma {:induction false} EveryOrderIsDrawn(s: seq<string>, t: seq<string>, n: nat) returns (draws: seq<nat>)
    requires n <= |s| && SameFrom(s, t, n) && multiset(s[..n]) == multiset(t[..n])
    ensures AreDraws(draws, |s|) && ShuffledBy(s, draws, n) == t
    decreases n
  {
    if n <= 1 {
      draws := seq(|s|, _ => 0);
      OneElement(s, t, n);
    } else {
      var j := PlaceOf(s, t, n);
      SwapIntoPlace(s, t, n, j);
      hide Swapped, SameFrom;
      var rest := EveryOrderIsDrawn(Swapped(s, n - 1, j), t, n - 1);
      draws := rest[n - 1 := j];
      assert draws[..n - 1] == rest[..n - 1];
      LaterDrawsUnused(Swapped(s, n - 1, j), draws, rest, n - 1);
    }
  }

  lemma PlaceOf(s: seq<string>, t: seq<string>, n: nat) returns (j: nat)
    requires 0 < n <= |s| == |t| && multiset(s[..n]) == multiset(t[..n])
    ensures j < n && s[j] == t[n - 1]
  {
    assert t[..n][n - 1] == t[n - 1];
    assert t[n - 1] in multiset(t[..n]);
    assert t[n - 1] in s[..n];
    j :| j < n && s[..n][j] == t[n - 1];
  }

  lemma OneElement(s: seq<string>, t: seq<string>, n: nat)
    requires n <= 1 && n <= |s| && SameFrom(s, t, n) && multiset(s[..n]) == multiset(t[..n])
    ensures s == t
  {
    if n == 1 {
      var j := PlaceOf(s, t, n);
    }
  }

  /** Shuffles in place by the given draws. */
  method Shuffle(a: array<string>, draws: seq<nat>)
    requires AreDraws(draws, a.Length)
    modifies a
    ensures a[..] == ShuffledBy(old(a[..]), draws, a.Length)
  {
    var i := a.Length;
    while i > 1
      invariant 0 <= i <= a.Length
      invariant ShuffledBy(a[..], draws, i) == ShuffledBy(old(a[..]), draws, a.Length)
    {
      i := i - 1;
      var j := draws[i];
      ghost var before := a[..];
      a[i], a[j] := a[j], a[i];
      assert a[..] == Swapped(before, i, j);
    }
  }

  /** An order that the draws make of the sorted groups. */
  ghost predicate IsDrawnFrom(order: seq<string>, S: set<string>, draws: seq<nat>) {
    exists s: seq<string> ::
      && IsSorted(s) && Enumerates(s, S) && AreDraws(draws, |s|) && order == ShuffledBy(s, draws, |s|)
  }

  /** The draws determine the order. */
  lemma DrawsDetermineOrder(a: seq<string>, b: seq<string>, S: set<string>, draws: seq<nat>)
    requires IsDrawnFrom(a, S, draws) && IsDrawnFrom(b, S, draws)
    ensures a == b
  {
    var s: seq<string> :|
      IsSorted(s) && Enumerates(s, S) && AreDraws(draws, |s|) && a == ShuffledBy(s, draws, |s|);
    var t: seq<string> :|
      IsSorted(t) && Enumerates(t, S) && AreDraws(draws, |t|) && b == ShuffledBy(t, draws, |t|);
    hide ShuffledBy;
    assert forall x :: x in s <==> x in Elements(s);
    assert forall x :: x in t <==> x in Elements(t);
    SameElementsSameMultiset(s, t);
    SortedIsUnique(s, t);
  }

  /** Draws for every label. */
  predicate DrawsFit(labels: seq<int>, groups: seq<string>, draws: map<int, seq<nat>>)
    requires |labels| == |groups|
  {
    forall l :: l in labels ==> l in draws && AreDraws(draws[l], |GroupsOf(labels, groups, l)|)
  }

  lemma PartGrows(among: set<int>, order: map<int, seq<string>>, l: int, s: seq<string>, part: Part)
    requires l !in among
    ensures PartGroups(among + {l}, order[l := s], part) == PartGroups(among, order, part) + Elements(Slice(s, part))
  {
    hide Slice;
    var more := order[l := s];
    forall g
      ensures g in PartGroups(among + {l}, more, part) <==>
                g in PartGroups(among, order, part) + Elements(Slice(s, part))
    {
      if g in PartGroups(among, order, part) {
        var m :| m in among && m in order && g in Slice(order[m], part);
        assert m in among + {l} && m in more && g in Slice(more[m], part);
      }
      if g in Slice(s, part) {
        assert l in among + {l} && l in more && g in Slice(more[l], part);
      }
    }
  }

  /** One pass of the loop over labels: shuffle, count, cut. */
  method DrawParts(labelGroups: seq<string>, draws: seq<nat>)
    returns (train: set<string>, validation: set<string>, test: set<string>, ghost s: seq<string>)
    requires |labelGroups| >= 3 && NoDup(labelGroups) && AreDraws(draws, |labelGroups|)
    ensures Enumerates(s, Elements(labelGroups)) && s == ShuffledBy(labelGroups, draws, |labelGroups|)
    ensures train == Elements(Slice(s, Train))
    ensures validation == Elements(Slice(s, Validation))
    ensures test == Elements(Slice(s, Test))
  {
    hide Slice, Share;
    var shuffled := new string[|labelGroups|](i requires 0 <= i < |labelGroups| => labelGroups[i]);
    assert shuffled[..] == labelGroups;
    Shuffle(shuffled, draws);
    s := shuffled[..];
    ShuffledElements(labelGroups, draws, |labelGroups|);
    NoDupPermutation(labelGroups, s);
    var count := shuffled.Length;
    var validationCount := Share(count);
    var testCount := Share(count);
    if validationCount + testCount >= count {
      validationCount, testCount := 1, 1;
    }
    var trainCount := count - validationCount - testCount;
    HeldOutFits(count);
    CutsAreSlices(s, trainCount, validationCount);
    train := Elements(shuffled[..trainCount]);
    validation := Elements(shuffled[trainCount..trainCount + validationCount]);
    test := Elements(shuffled[trainCount + validationCount..]);
  }

  lemma CutsAreSlices(s: seq<string>, trainCount: int, validationCount: int)
    requires |s| >= 3 && validationCount == HeldOut(|s|) && trainCount == |s| - 2 * validationCount
    ensures 0 <= trainCount <= trainCount + validationCount <= |s|
    ensures s[..trainCount] == Slice(s, Train)
    ensures s[trainCount..trainCount + validationCount] == Slice(s, Validation)
    ensures s[trainCount + validationCount..] == Slice(s, Test)
  {
    HeldOutFits(|s|);
  }

  /** The labels handled so far all had enough groups, and `order` is how they
      were shuffled. */
  predicate IsDrawn(labels: seq<int>, groups: seq<string>, done: set<int>, order: map<int, seq<string>>)
    requires |labels| == |groups|
  {
    && order.Keys == done
    && forall l :: l in done ==>
         l in labels && |GroupsOf(labels, groups, l)| >= 3 && Enumerates(order[l], GroupsOf(labels, groups, l))
  }

  method GroupedStratifiedSplit(
    labels: seq<int>, groups: seq<string>, draws: map<int, seq<nat>>)
    returns (r: Outcome, ghost order: map<int, seq<string>>)
    requires |labels| == |groups| ==> DrawsFit(labels, groups, draws)
    ensures r == Failed(LengthMismatch) <==> |labels| != |groups|
    ensures |labels| == |groups| ==>
              forall l :: r == Failed(TooFewGroups(l)) <==> IsFirstPoorLabel(labels, groups, l)
    ensures |labels| == |groups| && EnoughGroups(labels, groups) ==>
              IsShuffle(labels, groups, order) && r == Divide(labels, groups, order)
    ensures |labels| == |groups| && EnoughGroups(labels, groups) ==>
              order.Keys == LabelSet(labels)
              && forall l :: l in order ==> IsDrawnFrom(order[l], GroupsOf(labels, groups, l), draws[l])
    ensures r.Split? ==> IsLeakageFree(labels, groups, r.train, r.validation, r.test)
    ensures r.Split? ==> IsBalanced(labels, groups, r.validation, r.test)
  {
    hide Slice, PartGroups, IsLeakageFree, GroupsOf, Enumerates, Divide, IsDrawn, IsFirstPoorLabel, IsShuffle,
      EnoughGroups, IsBalanced;
    hide NoDup, IsDrawnFrom, AreDraws, DrawsFit, ShuffledBy;
    order := map[];
    if |labels| != |groups| {
      return Failed(LengthMismatch), order;
    }
    var train: set<string>, validation: set<string>, test: set<string> := {}, {}, {};
    var u := SortedLabels(labels);
    ghost var done: set<int> := {};
    NoParts(order);
    NothingDrawn(labels, groups);
    for k := 0 to |u|
      invariant forall l :: l in done <==> l in u[..k]
      invariant IsDrawn(labels, groups, done, order) && order.Keys == done
      invariant forall l :: l in order ==> l in draws && IsDrawnFrom(order[l], GroupsOf(labels, groups, l), draws[l])
      invariant train == PartGroups(done, order, Train)
      invariant validation == PartGroups(done, order, Validation)
      invariant test == PartGroups(done, order, Test)
    {
      var labelGroups := SortedGroups(labels, groups, u[k]);
      EnumerationCount(labelGroups, GroupsOf(labels, groups, u[k]));
      if |labelGroups| < 3 {
        FirstPoor(labels, groups, u, k, done, order);
        return Failed(TooFewGroups(u[k])), order;
      }
      FittingDraws(labels, groups, draws, u, k);
      var train1, validation1, test1, s := DrawParts(labelGroups, draws[u[k]]);
      OneDrawn(s, labelGroups, GroupsOf(labels, groups, u[k]), draws[u[k]]);
      PartGrows(done, order, u[k], s, Train);
      PartGrows(done, order, u[k], s, Validation);
      PartGrows(done, order, u[k], s, Test);
      train, validation, test := train + train1, validation + validation1, test + test1;
      OneMoreDrawn(labels, groups, done, order, u[k], s);
      order := order[u[k] := s];
      done := done + {u[k]};
    }
    EveryLabelDone(labels, u, done);
    AllDrawn(labels, groups, order);
    SplitIsLeakageFree(labels, groups, order);
    SplitIsBalanced(labels, groups, order);
    r := Assemble(labels, groups, order, train, validation, test);
  }

  lemma FittingDraws(labels: seq<int>, groups: seq<string>, draws: map<int, seq<nat>>, u: seq<int>, k: nat)
    requires |labels| == |groups| && DrawsFit(labels, groups, draws)
    requires k < |u| && forall l :: l in u <==> l in labels
    ensures u[k] in draws && AreDraws(draws[u[k]], |GroupsOf(labels, groups, u[k])|)
  {
    var l := u[k];
    assert l in u;
    assert l in labels;
  }

  lemma OneDrawn(order: seq<string>, s: seq<string>, S: set<string>, draws: seq<nat>)
    requires IsSorted(s) && Enumerates(s, S) && AreDraws(draws, |s|) && order == ShuffledBy(s, draws, |s|)
    ensures IsDrawnFrom(order, S, draws)
  {
  }

  /** The masks, the leakage check and the empty-partition check. */
  method Assemble(
    labels: seq<int>, groups: seq<string>, ghost order: map<int, seq<string>>,
    train: set<string>, validation: set<string>, test: set<string>)
    returns (r: Outcome)
    requires train == PartGroups(LabelSet(labels), order, Train)
    requires validation == PartGroups(LabelSet(labels), order, Validation)
    requires test == PartGroups(LabelSet(labels), order, Test)
    ensures r == Divide(labels, groups, order)
    ensures r.Split? || r == Failed(GroupLeakage) || r == Failed(EmptyPartition)
  {
    hide PartGroups, Overlap, Mask;
    var trainMask, validationMask, testMask := Mask(groups, train), Mask(groups, validation), Mask(groups, test);
    if Overlap(trainMask, validationMask) || Overlap(trainMask, testMask) || Overlap(validationMask, testMask) {
      return Failed(GroupLeakage);
    }
    if true !in trainMask || true !in validationMask || true !in testMask {
      return Failed(EmptyPartition);
    }
    return Split(trainMask, validationMask, testMask);
  }

  lemma EveryLabelDone(labels: seq<int>, u: seq<int>, done: set<int>)
    requires forall l :: l in u <==> l in labels
    requires forall l :: l in done <==> l in u[..|u|]
    ensures done == LabelSet(labels)
  {
    assert u[..|u|] == u;
    assert forall l :: l in done <==> l in LabelSet(labels);
  }

  lemma EnumerationCount(s: seq<string>, S: set<string>)
    requires Enumerates(s, S)
    ensures NoDup(s) && Elements(s) == S && |s| == |S|
  {
    ElementsCount(s);
  }

  lemma NothingDrawn(labels: seq<int>, groups: seq<string>)
    requires |labels| == |groups|
    ensures IsDrawn(labels, groups, {}, map[])
  {
  }

  lemma OneMoreDrawn(
    labels: seq<int>, groups: seq<string>, done: set<int>, order: map<int, seq<string>>, l: int, s: seq<string>)
    requires |labels| == |groups| && IsDrawn(labels, groups, done, order)
    requires l in labels && |GroupsOf(labels, groups, l)| >= 3 && Enumerates(s, GroupsOf(labels, groups, l))
    ensures IsDrawn(labels, groups, done + {l}, order[l := s])
  {
    hide GroupsOf, Enumerates;
  }

  lemma AllDrawn(labels: seq<int>, groups: seq<string>, order: map<int, seq<string>>)
    requires |labels| == |groups| && IsDrawn(labels, groups, LabelSet(labels), order)
    ensures EnoughGroups(labels, groups) && IsShuffle(labels, groups, order)
    ensures forall l :: !IsFirstPoorLabel(labels, groups, l)
  {
    hide GroupsOf, Enumerates;
  }

  lemma FirstPoor(
    labels: seq<int>, groups: seq<string>, u: seq<int>, k: nat, done: set<int>, order: map<int, seq<string>>)
    requires |labels| == |groups| && Increasing(u) && k < |u| && forall l :: l in u <==> l in labels
    requires forall l :: l in done <==> l in u[..k]
    requires IsDrawn(labels, groups, done, order)
    requires |GroupsOf(labels, groups, u[k])| < 3
    ensures IsFirstPoorLabel(labels, groups, u[k])
    ensures forall l :: IsFirstPoorLabel(labels, groups, l) ==> l == u[k]
    ensures !EnoughGroups(labels, groups)
  {
    hide GroupsOf, Enumerates;
    assert u[k] in u;
    assert forall i :: 0 <= i < k ==> u[i] in u[..k];
    forall l | l in labels && |GroupsOf(labels, groups, l)| < 3
      ensures u[k] <= l
    {
      var m :| 0 <= m < |u| && u[m] == l;
    }
  }

  lemma NoParts(order: map<int, seq<string>>)
    ensures forall part :: PartGroups({}, order, part) == {}
  {
  }
}
