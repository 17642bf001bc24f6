/** Class probabilities from the portable arrays: raw scores, calibrated class by
    class, then normalised row by row. */
module PortablePrediction {
  import opened PortableForest
  import opened PortableModel
  import opened Calibration

  datatype Prediction = Probabilities(rows: seq<seq<real>>) | BadShape | OutOfBounds

  /** The calibration of a raw score by a class's coefficient and intercept; for the
      model it is the sigmoid of -(raw * a + b). */
  type Calibrator<!V> = (V, V, V) -> Value

  /** The calibrated scores of one row, each class with its own calibrator. */
  function Calibrated<V>(sigmoid: Calibrator<V>, raw: seq<V>, a: seq<V>, b: seq<V>): (row: seq<Value>)
    requires |raw| == |a| == |b|
    ensures |row| == |raw|
  {
    seq(|raw|, c requires 0 <= c < |raw| => sigmoid(raw[c], a[c], b[c]))
  }

  /** predict_proba: each row gets the normalised calibrated scores of the forest. */
  method PredictProba<V, F>(
    arithmetic: Arithmetic<V, F>, sigmoid: Calibrator<V>, p: Artifact<V, F>, x: seq<seq<F>>, columns: nat)
    returns (r: Prediction)
    requires IsRunnable(p) && p.nClasses > 0
    requires forall i :: 0 <= i < |x| ==> |x[i]| == columns
    ensures r.BadShape? <==> columns != p.nFeatures
    ensures columns == p.nFeatures ==>
              (r.OutOfBounds? <==> exists i :: 0 <= i < |x| && Scores(arithmetic, TreesOf(p), p.baseline, x[i]).None?)
    ensures r.Probabilities? ==>
              && |r.rows| == |x|
              && forall i :: 0 <= i < |x| ==>
                   var raw := Scores(arithmetic, TreesOf(p), p.baseline, x[i]);
                   && raw.Some?
                   && IsNormalised(Calibrated(sigmoid, raw.value, p.calibrationA, p.calibrationB), r.rows[i])
  {
    hide Scores, IsNormalised, TreesOf, AllTraversable, IsDelimited;
    var d := DecisionFunction(arithmetic, p, x, columns);
    match d
    case ShapeError => return BadShape;
    case BoundsError => return OutOfBounds;
    case Raw(rows) =>
      assert forall i :: 0 <= i < |rows| ==> |rows[i]| == p.nClasses;
      var calibrated := new seq<Value>[|rows|](
        i requires 0 <= i < |rows| => Calibrated(sigmoid, rows[i], p.calibrationA, p.calibrationB));
      var probabilities := Normalise(calibrated, p.nClasses);
      return Probabilities(probabilities);
  }

  /** Exporting a well-formed multiclass model and predicting with what was exported
      normalises, for every row, the raw scores of the nested forest, each class
      calibrated by its own calibrator. */
  method PredictExported<V, F>(
    arithmetic: Arithmetic<V, F>, sigmoid: Calibrator<V>, nFeatures: nat, classes: seq<int>, baseline: seq<V>,
    calibrators: seq<(V, V)>, iterations: seq<seq<Tree<V, F>>>, x: seq<seq<F>>)
    returns (r: Prediction)
    requires |calibrators| == |classes| == |baseline| > 0 && AllTrees(iterations) != []
    requires forall k :: 0 <= k < |AllTrees(iterations)| ==> !HasCategorical(AllTrees(iterations)[k].nodes)
    requires forall i :: 0 <= i < |iterations| ==> |iterations[i]| <= |classes|
    requires forall i, c :: 0 <= i < |iterations| && 0 <= c < |iterations[i]| ==>
               IsTraversable(iterations[i][c], nFeatures)
    requires forall i :: 0 <= i < |x| ==> |x[i]| == nFeatures
    ensures AllTraversable(AllTrees(iterations), nFeatures, |baseline|)
    ensures r.OutOfBounds? <==>
              exists i :: 0 <= i < |x| && Scores(arithmetic, AllTrees(iterations), baseline, x[i]).None?
    ensures !r.OutOfBounds? ==>
              && r.Probabilities? && |r.rows| == |x|
              && forall i :: 0 <= i < |x| ==>
                   var raw := Scores(arithmetic, AllTrees(iterations), baseline, x[i]);
                   && raw.Some?
                   && IsCalibratedBy(sigmoid, raw.value, calibrators, r.rows[i])
  {
    hide Scores, IsRunnable, AllTrees, HasCategorical, IsTraversable, IsDelimited, IsNormalised;
    AllTreesTraversable(iterations, nFeatures, |baseline|);
    var exported := Export(nFeatures, classes, baseline, calibrators, iterations);
    var p := exported.artifact;
    ExportedIsRunnable(p, iterations);
    RunnableLengths(p);
    r := PredictProba(arithmetic, sigmoid, p, x, nFeatures);
    if r.Probabilities? {
      forall i | 0 <= i < |x|
        ensures IsCalibratedBy(sigmoid, Scores(arithmetic, AllTrees(iterations), baseline, x[i]).value, calibrators,
                  r.rows[i])
      {
        SameCalibration(sigmoid, Scores(arithmetic, AllTrees(iterations), baseline, x[i]).value, calibrators,
          p.calibrationA, p.calibrationB, r.rows[i]);
      }
    }
  }

  lemma RunnableLengths<V, F>(p: Artifact<V, F>)
    requires IsRunnable(p)
    ensures |p.calibrationA| == |p.calibrationB| == |p.baseline| == p.nClasses
  {
  }

  /** The probabilities of one row: the shares of the calibrated scores. */
  ghost predicate IsCalibratedBy<V>(sigmoid: Calibrator<V>, raw: seq<V>, calibrators: seq<(V, V)>, p: seq<real>) {
    exists row: seq<Value> ::
      && |row| == |raw| == |calibrators|
      && (forall c :: 0 <= c < |raw| ==> row[c] == sigmoid(raw[c], calibrators[c].0, calibrators[c].1))
      && IsNormalised(row, p)
  }

  lemma SameCalibration<V>(
    sigmoid: Calibrator<V>, raw: seq<V>, calibrators: seq<(V, V)>, a: seq<V>, b: seq<V>, p: seq<real>)
    requires |raw| == |a| == |b| == |calibrators|
    requires forall c :: 0 <= c < |calibrators| ==> a[c] == calibrators[c].0 && b[c] == calibrators[c].1
    requires IsNormalised(Calibrated(sigmoid, raw, a, b), p)
    ensures IsCalibratedBy(sigmoid, raw, calibrators, p)
  {
    hide IsNormalised;
    var row := Calibrated(sigmoid, raw, a, b);
    assert forall c :: 0 <= c < |raw| ==> row[c] == sigmoid(raw[c], calibrators[c].0, calibrators[c].1);
  }
}
