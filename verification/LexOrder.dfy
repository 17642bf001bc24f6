/** Python's order on strings: code point by code point, a proper prefix first.
    `sorted` on node ids and on spool file names is sorting by this order. Beside
    the order the module holds what the other modules need of sequences without
    repeats: they have as many elements as their set, a sequence longer than the
    set it draws from repeats an element, and a sorted one is determined by the
    elements it has. */
module LexOrder {

  predicate Less(a: string, b: string) {
    if b == [] then false
    else if a == [] then true
    else if a[0] != b[0] then a[0] < b[0]
    else Less(a[1..], b[1..])
  }

  lemma {:induction false} LessAsymmetric(a: string, b: string)
    ensures Less(a, b) ==> !Less(b, a)
  {
    if a != [] && b != [] && a[0] == b[0] {
      LessAsymmetric(a[1..], b[1..]);
    }
  }

  lemma {:induction false} LessTotal(a: string, b: string)
    ensures Less(a, b) || Less(b, a) || a == b
  {
    if a != [] && b != [] && a[0] == b[0] {
      LessTotal(a[1..], b[1..]);
      assert a == [a[0]] + a[1..] && b == [b[0]] + b[1..];
    }
  }

  lemma {:induction false} LessTransitive(a: string, b: string, c: string)
    requires Less(a, b) && Less(b, c)
    ensures Less(a, c)
  {
    if a != [] && a[0] == b[0] == c[0] {
      LessTransitive(a[1..], b[1..], c[1..]);
    }
  }

  /** "Not after" is transitive as well: the form in which sortedness is stated. */
  lemma NotAfterTransitive(a: string, b: string, c: string)
    requires !Less(b, a) && !Less(c, b)
    ensures !Less(c, a)
  {
    if Less(c, a) {
      LessTotal(a, b);
      if a == b {
        assert false;
      } else {
        LessTransitive(c, a, b);
      }
    }
  }

  /** A common prefix does not influence the order. */
  lemma {:induction false} LessAfterCommonPrefix(p: string, a: string, b: string)
    ensures Less(p + a, p + b) == Less(a, b)
  {
    if p == [] {
      assert p + a == a && p + b == b;
    } else {
      assert (p + a)[1..] == p[1..] + a && (p + b)[1..] == p[1..] + b;
      LessAfterCommonPrefix(p[1..], a, b);
    }
  }

  /** A difference inside equally long heads decides, whatever follows. */
  lemma {:induction false} LessByHead(a: string, b: string, x: string, y: string)
    requires |a| == |b| && a != b
    ensures Less(a + x, b + y) == Less(a, b)
  {
    assert (a + x)[1..] == a[1..] + x && (b + y)[1..] == b[1..] + y;
    if a[0] == b[0] {
      assert a == [a[0]] + a[1..] && b == [b[0]] + b[1..];
      LessByHead(a[1..], b[1..], x, y);
    }
  }

  predicate NotBelow(x: string, lo: string) {
    !Less(x, lo)
  }

  predicate IsSorted(s: seq<string>) {
    forall i, j :: 0 <= i < j < |s| ==> NotBelow(s[j], s[i])
  }

  predicate NoDup(s: seq<string>) {
    forall i, j :: 0 <= i < j < |s| ==> s[i] != s[j]
  }

  function Elements(s: seq<string>): set<string> {
    set x | x in s
  }

  function Insert(x: string, s: seq<string>): (r: seq<string>)
    ensures multiset(r) == multiset(s) + multiset{x}
    ensures |r| == |s| + 1
  {
    if s == [] then [x]
    else if Less(x, s[0]) then [x] + s
    else
      assert s == [s[0]] + s[1..];
      [s[0]] + Insert(x, s[1..])
  }

  lemma SameMultisetSameElements(s: seq<string>, t: seq<string>)
    requires multiset(s) == multiset(t)
    ensures forall x :: x in s <==> x in t
  {
    forall x
      ensures x in s <==> x in t
    {
      assert x in multiset(s) <==> x in multiset(t);
    }
  }

  lemma {:induction false} InsertKeepsSorted(x: string, s: seq<string>)
    requires IsSorted(s)
    ensures IsSorted(Insert(x, s))
  {
    if s == [] {
    } else if Less(x, s[0]) {
      var r := [x] + s;
      forall j | 1 <= j < |r|
        ensures NotBelow(r[j], x)
      {
        LessAsymmetric(x, s[0]);
        if j > 1 {
          assert NotBelow(s[j - 1], s[0]);
          NotAfterTransitive(x, s[0], s[j - 1]);
        }
      }
    } else {
      InsertKeepsSorted(x, s[1..]);
      var t := Insert(x, s[1..]);
      forall j | 0 <= j < |t|
        ensures NotBelow(t[j], s[0])
      {
        assert t[j] in multiset(t);
        assert t[j] in multiset(s[1..]) + multiset{x};
        if t[j] != x {
          assert t[j] in s[1..];
          var k :| 0 <= k < |s[1..]| && s[1..][k] == t[j];
          assert NotBelow(s[k + 1], s[0]);
        }
      }
    }
  }

  /** Python's `sorted`: which algorithm it uses does not matter, since the
      sorted permutation is unique (`SortedIsUnique`). */
  function Sorted(s: seq<string>): (r: seq<string>)
    ensures multiset(r) == multiset(s)
    ensures |r| == |s|
  {
    if s == [] then []
    else
      assert s == [s[0]] + s[1..];
      Insert(s[0], Sorted(s[1..]))
  }

  lemma {:induction false} SortedIsSorted(s: seq<string>)
    ensures IsSorted(Sorted(s))
  {
    if s != [] {
      SortedIsSorted(s[1..]);
      InsertKeepsSorted(s[0], Sorted(s[1..]));
    }
  }

  lemma SortedHeadIsLeast(s: seq<string>, x: string)
    requires IsSorted(s) && x in s
    ensures !Less(x, s[0])
  {
    var i :| 0 <= i < |s| && s[i] == x;
    if i > 0 {
      assert NotBelow(s[i], s[0]);
    } else {
      LessAsymmetric(x, x);
    }
  }

  lemma SameMultisetSameHead(s: seq<string>, t: seq<string>)
    requires IsSorted(s) && IsSorted(t) && s != [] && t != []
    requires multiset(s) == multiset(t)
    ensures s[0] == t[0]
  {
    hide Less, IsSorted;
    SameMultisetSameElements(s, t);
    assert s[0] in s && t[0] in t;
    SortedHeadIsLeast(t, s[0]);
    SortedHeadIsLeast(s, t[0]);
    LessTotal(s[0], t[0]);
  }

  lemma TailMultiset(s: seq<string>)
    requires s != []
    ensures multiset(s[1..]) == multiset(s) - multiset{s[0]}
  {
    assert s == [s[0]] + s[1..];
  }

  lemma {:induction false} SortedIsUnique(s: seq<string>, t: seq<string>)
    requires IsSorted(s) && IsSorted(t)
    requires multiset(s) == multiset(t)
    ensures s == t
  {
    hide Less;
    assert |multiset(s)| == |s| && |multiset(t)| == |t|;
    if s != [] {
      SameMultisetSameHead(s, t);
      TailMultiset(s);
      TailMultiset(t);
      SortedIsUnique(s[1..], t[1..]);
      assert s == [s[0]] + s[1..] && t == [t[0]] + t[1..];
    }
  }

  lemma {:induction false} ElementsCount(s: seq<string>)
    requires NoDup(s)
    ensures |Elements(s)| == |s|
  {
    if s != [] {
      var init := s[..|s| - 1];
      ElementsCount(init);
      assert Elements(s) == Elements(init) + {s[|s| - 1]};
      assert s[|s| - 1] !in init;
    } else {
      assert Elements(s) == {};
    }
  }

  lemma {:induction false} CountsOnce(s: seq<string>, x: string)
    requires NoDup(s)
    ensures multiset(s)[x] == if x in s then 1 else 0
  {
    if s != [] {
      var init := s[..|s| - 1];
      CountsOnce(init, x);
      assert s == init + [s[|s| - 1]];
    }
  }

  lemma RepeatCountsTwice(s: seq<string>, i: nat, j: nat)
    requires i < j < |s| && s[i] == s[j]
    ensures multiset(s)[s[i]] >= 2
  {
    assert s == s[..j] + [s[j]] + s[j + 1..];
    assert s[..j][i] == s[i];
    assert s[i] in multiset(s[..j]);
  }

  lemma NoDupPermutation(s: seq<string>, t: seq<string>)
    requires NoDup(s) && multiset(t) == multiset(s)
    ensures NoDup(t)
    ensures forall x :: x in t <==> x in s
  {
    SameMultisetSameElements(t, s);
    forall i, j | 0 <= i < j < |t|
      ensures t[i] != t[j]
    {
      if t[i] == t[j] {
        RepeatCountsTwice(t, i, j);
        CountsOnce(s, t[i]);
      }
    }
  }

  lemma SameElementsSameMultiset(s: seq<string>, t: seq<string>)
    requires NoDup(s) && NoDup(t)
    requires forall x :: x in s <==> x in t
    ensures multiset(s) == multiset(t)
  {
    forall x
      ensures multiset(s)[x] == multiset(t)[x]
    {
      CountsOnce(s, x);
      CountsOnce(t, x);
    }
  }

  /** The pigeonhole principle: a sequence longer than the set it draws from repeats an element. */
  lemma {:induction false} Pigeonhole(s: seq<string>, S: set<string>) returns (i: nat, j: nat)
    requires forall x :: x in s ==> x in S
    requires |s| > |S|
    ensures i < j < |s| && s[i] == s[j]
  {
    if NoDup(s) {
      ElementsCount(s);
      assert Elements(s) <= S;
      CardinalityMonotone(Elements(s), S);
      assert false;
    }
    i, j :| 0 <= i < j < |s| && s[i] == s[j];
  }

  lemma {:induction false} CardinalityMonotone<T>(a: set<T>, b: set<T>)
    requires a <= b
    ensures |a| <= |b|
    ensures |a| == |b| ==> a == b
  {
    assert b == a + (b - a);
    assert |b| == |a| + |b - a|;
  }
}
