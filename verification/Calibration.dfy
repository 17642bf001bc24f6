/** The last step of the portable model: calibrated class scores become
    probabilities. Arithmetic is over the reals, with one value for infinities
    and NaN. */
module Calibration {
  datatype Value = Finite(value: real) | NonFinite

  /** The sum of a row; anything that is not finite makes it not finite. */
  function Total(row: seq<Value>): Value {
    if row == [] then Finite(0.0)
    else
      var before, last := Total(row[..|row| - 1]), row[|row| - 1];
      if before.Finite? && last.Finite? then Finite(before.value + last.value) else NonFinite
  }

  function Sum(row: seq<real>): real {
    if row == [] then 0.0 else Sum(row[..|row| - 1]) + row[|row| - 1]
  }

  predicate IsUsable(row: seq<Value>) {
    Total(row).Finite? && Total(row).value > 0.0
  }

  function Ones(n: nat): seq<Value> { seq(n, _ => Finite(1.0)) }

  function Repaired(row: seq<Value>): seq<Value> {
    if IsUsable(row) then row else Ones(|row|)
  }

  predicate IsDistribution(p: seq<real>) {
    (forall i :: 0 <= i < |p| ==> 0.0 <= p[i] <= 1.0) && Sum(p) == 1.0
  }

  /** What a sigmoid can produce: a number of the unit interval, or NaN. */
  predicate IsSigmoid(v: Value) {
    v.Finite? ==> 0.0 <= v.value <= 1.0
  }

  lemma {:induction false} FiniteTotal(row: seq<Value>)
    ensures Total(row).Finite? <==> forall i :: 0 <= i < |row| ==> row[i].Finite?
  {
    if row != [] {
      FiniteTotal(row[..|row| - 1]);
      assert forall i :: 0 <= i < |row| - 1 ==> row[i] == row[..|row| - 1][i];
    }
  }

  lemma {:induction false} TotalOfOnes(n: nat)
    ensures Total(Ones(n)) == Finite(n as real)
  {
    if n > 0 {
      TotalOfOnes(n - 1);
      assert Ones(n)[..n - 1] == Ones(n - 1);
    }
  }

  lemma {:induction false} QuotientsSum(row: seq<Value>, p: seq<real>, d: real)
    requires d > 0.0 && |p| == |row|
    requires forall i :: 0 <= i < |row| ==> row[i].Finite? && p[i] * d == row[i].value
    ensures Total(row).Finite? && Sum(p) * d == Total(row).value
  {
    if row != [] {
      QuotientsSum(row[..|row| - 1], p[..|row| - 1], d);
    }
  }

  lemma {:induction false} EntryAtMostTotal(row: seq<Value>, i: nat)
    requires forall k :: 0 <= k < |row| ==> row[k].Finite? && row[k].value >= 0.0
    requires i < |row|
    ensures Total(row).Finite? && 0.0 <= row[i].value <= Total(row).value
  {
    FiniteTotal(row);
    var rest := row[..|row| - 1];
    FiniteTotal(rest);
    if i < |row| - 1 {
      EntryAtMostTotal(rest, i);
    } else if |row| > 1 {
      EntryAtMostTotal(rest, 0);
    }
  }

  /** The probabilities of one row: proportional to the scores where they have a
      usable sum, and equal where they have not. */
  ghost predicate IsNormalised(row: seq<Value>, p: seq<real>) {
    && |p| == |row|
    && forall i :: 0 <= i < |row| ==>
         if IsUsable(row) then row[i].Finite? && p[i] * Total(row).value == row[i].value
         else p[i] * |row| as real == 1.0
  }

  lemma SharesAreADistribution(scores: seq<Value>, p: seq<real>, d: real)
    requires Total(scores) == Finite(d) && d > 0.0 && |p| == |scores|
    requires forall i :: 0 <= i < |scores| ==>
               scores[i].Finite? && scores[i].value >= 0.0 && p[i] * d == scores[i].value
    ensures IsDistribution(p)
  {
    hide Total, Sum;
    forall i | 0 <= i < |scores|
      ensures 0.0 <= p[i] <= 1.0
    {
      EntryAtMostTotal(scores, i);
      ShareBounds(p[i], d);
    }
    QuotientsSum(scores, p, d);
    CancelFactor(Sum(p), d);
  }

  /** They are a distribution whatever the row was. */
  lemma NormalisedIsDistribution(row: seq<Value>, p: seq<real>)
    requires row != [] && (forall i :: 0 <= i < |row| ==> IsSigmoid(row[i])) && IsNormalised(row, p)
    ensures IsDistribution(p)
  {
    hide Total, Sum, IsDistribution;
    if IsUsable(row) {
      SharesAreADistribution(row, p, Total(row).value);
    } else {
      TotalOfOnes(|row|);
      SharesAreADistribution(Ones(|row|), p, |row| as real);
    }
  }

  /** A row of numbers with a positive sum is divided by it; any other row becomes uniform. */
  lemma SharesOrUniform(row: seq<Value>, scores: seq<real>, p: seq<real>, i: nat)
    requires IsNormalised(row, p) && |scores| == |row| && i < |row|
    requires forall k :: 0 <= k < |row| && row[k].Finite? ==> scores[k] == row[k].value
    ensures if (forall k :: 0 <= k < |row| ==> row[k].Finite?) && Sum(scores) > 0.0
            then p[i] * Sum(scores) == scores[i]
            else p[i] * |row| as real == 1.0
  {
    FiniteTotal(row);
    if forall k :: 0 <= k < |row| ==> row[k].Finite? {
      SumIsTotal(row, scores);
    }
    hide Total, Sum;
  }

  lemma {:induction false} SumIsTotal(row: seq<Value>, scores: seq<real>)
    requires |scores| == |row| && forall k :: 0 <= k < |row| ==> row[k] == Finite(scores[k])
    ensures Total(row) == Finite(Sum(scores))
  {
    if row != [] {
      SumIsTotal(row[..|row| - 1], scores[..|row| - 1]);
    }
  }

  /** They rank the classes as the scores do. */
  lemma NormalisedKeepsRanking(row: seq<Value>, p: seq<real>, i: nat, j: nat)
    requires IsUsable(row) && IsNormalised(row, p) && i < |row| && j < |row|
    ensures row[i].Finite? && row[j].Finite?
    ensures p[i] <= p[j] <==> row[i].value <= row[j].value
  {
    QuotientOrder(p[i], p[j], Total(row).value);
  }

  lemma ShareBounds(p: real, d: real)
    requires 0.0 <= p * d <= d && d > 0.0
    ensures 0.0 <= p <= 1.0
  {
    QuotientOrder(0.0, p, d);
    QuotientOrder(p, 1.0, d);
  }

  lemma CancelFactor(s: real, d: real)
    requires d > 0.0 && s * d == d
    ensures s == 1.0
  {
    assert (s - 1.0) * d == 0.0;
  }

  lemma QuotientOrder(p: real, q: real, d: real)
    requires d > 0.0
    ensures p <= q <==> p * d <= q * d
  {
    if p <= q {
      assert (q - p) * d >= 0.0;
    } else {
      assert (p - q) * d > 0.0;
    }
  }

  /** Rows without a usable sum are overwritten with ones, and every row is
      divided by its sum, which is then never zero. */
  method Normalise(calibrated: array<seq<Value>>, classes: nat) returns (probabilities: seq<seq<real>>)
    requires classes > 0
    requires forall r :: 0 <= r < calibrated.Length ==> |calibrated[r]| == classes
    modifies calibrated
    ensures |probabilities| == calibrated.Length
    ensures forall r :: 0 <= r < calibrated.Length ==> calibrated[r] == Repaired(old(calibrated[r]))
    ensures forall r :: 0 <= r < calibrated.Length ==> IsNormalised(old(calibrated[r]), probabilities[r])
  {
    hide IsUsable, IsNormalised, Ones;
    var r := 0;
    while r < calibrated.Length
      invariant 0 <= r <= calibrated.Length
      invariant forall k :: 0 <= k < r ==> calibrated[k] == Repaired(old(calibrated[k]))
      invariant forall k :: r <= k < calibrated.Length ==> calibrated[k] == old(calibrated[k])
    {
      if !IsUsable(calibrated[r]) {
        calibrated[r] := Ones(classes);
      }
      r := r + 1;
    }
    probabilities := [];
    r := 0;
    while r < calibrated.Length
      invariant 0 <= r <= calibrated.Length && |probabilities| == r
      invariant forall k :: 0 <= k < calibrated.Length ==> calibrated[k] == Repaired(old(calibrated[k]))
      invariant forall k :: 0 <= k < r ==> IsNormalised(old(calibrated[k]), probabilities[k])
    {
      RepairedIsUsable(old(calibrated[r]));
      var row := calibrated[r];
      var d := Total(row).value;
      var p := seq(|row|, i requires 0 <= i < |row| => row[i].value / d);
      QuotientsAreNormalised(old(calibrated[r]), p);
      probabilities := probabilities + [p];
      r := r + 1;
    }
  }

  lemma RepairedIsUsable(row: seq<Value>)
    requires row != []
    ensures Total(Repaired(row)).Finite? && Total(Repaired(row)).value > 0.0 && |Repaired(row)| == |row|
    ensures forall i :: 0 <= i < |row| ==> Repaired(row)[i].Finite?
  {
    TotalOfOnes(|row|);
    FiniteTotal(Repaired(row));
  }

  lemma QuotientsAreNormalised(row: seq<Value>, p: seq<real>)
    requires row != [] && |p| == |row|
    requires Total(Repaired(row)).Finite? && Total(Repaired(row)).value > 0.0 && |Repaired(row)| == |row|
    requires forall i :: 0 <= i < |row| ==>
               Repaired(row)[i].Finite? && p[i] == Repaired(row)[i].value / Total(Repaired(row)).value
    ensures IsNormalised(row, p)
  {
    TotalOfOnes(|row|);
    if !IsUsable(row) {
      assert forall i :: 0 <= i < |row| ==> Repaired(row)[i] == Finite(1.0);
    }
  }
}
