/**
 * `predict_dropout` (app/predictor.py, lines 6-24): encode the batch against
 * the classifier's feature names, run the classifier, and return a copy of
 * the input (Course as text) with a `Prediction` column and one
 * `"<class> (%)"` column per class.
 *
 * The classifier is an opaque value: its fitted feature names, its classes
 * in order, and per-row `predict` and `predict_proba` functions (a random
 * forest scores each row on its own).
 */
module Predictor {
  import opened Frames
  import opened Encoder

  datatype Classifier = Classifier(
    featureNames: seq<string>,
    classes: seq<string>,
    predict: seq<real> -> string,
    proba: seq<real> -> seq<real>)

  /** scikit-learn's promise: one probability per class, in class order. */
  ghost predicate Fitted(m: Classifier) {
    forall v :: |m.proba(v)| == |m.classes|
  }

  const PredictionColumn := "Prediction"

  function PercentColumn(cls: string): string {
    cls + " (%)"
  }

  /** `(p * 100).round(1)`, kept in a float cell. */
  function Percent(p: real, num: Numerics): Cell {
    Real(num.tenths(p * 100.0) as real / 10.0)
  }

  /** The labels `predict_dropout` writes, in the order it writes them. */
  function OutputLabels(classes: seq<string>): (labels: seq<string>)
    ensures |labels| == |classes| + 1
  {
    [PredictionColumn] + seq(|classes|, k requires 0 <= k < |classes| => PercentColumn(classes[k]))
  }

  function PercentCells(proba: seq<seq<real>>, k: nat, num: Numerics): seq<Cell>
    requires forall i :: 0 <= i < |proba| ==> k < |proba[i]|
  {
    seq(|proba|, i requires 0 <= i < |proba| => Percent(proba[i][k], num))
  }

  function PredictionCells(pred: seq<string>): seq<Cell> {
    seq(|pred|, i requires 0 <= i < |pred| => Text(pred[i]))
  }

  /** The result after the Prediction column and the first `k` percentage
      columns have been written. */
  ghost function Assemble(df: Frame, x: seq<seq<real>>, m: Classifier, num: Numerics, k: nat): (r: Frame)
    requires Fitted(m) && |x| == |df.rows| && k <= |m.classes|
    ensures |r.rows| == |df.rows|
    ensures forall i :: 0 <= i < |r.rows| ==> Written(df.rows[i], r.rows[i], m.classes[..k])
    decreases k
  {
    if k == 0 then
      SetColumn(df, PredictionColumn, PredictionCells(seq(|x|, i requires 0 <= i < |x| => m.predict(x[i]))))
    else
      SetColumn(Assemble(df, x, m, num, k - 1), PercentColumn(m.classes[k - 1]),
                PercentCells(seq(|x|, i requires 0 <= i < |x| => m.proba(x[i])), k - 1, num))
  }

  /** The labels a result row holds: those of its input row, Prediction,
      and the percentage column of each class written so far. */
  ghost predicate Written(row: Row, out: Row, classes: seq<string>) {
    && PredictionColumn in out
    && (forall j :: 0 <= j < |classes| ==> PercentColumn(classes[j]) in out)
    && (forall c :: c in row ==> c in out)
  }

  /** What `predict_dropout` returns for an input frame. */
  ghost function Predict(input: Frame, m: Classifier, num: Numerics): (r: Result<Frame>)
    requires Wf(input) && Fitted(m)
    ensures r.Ok? ==> |r.value.rows| == |input.rows|
    ensures r.Ok? ==> forall i :: 0 <= i < |input.rows| ==> Written(input.rows[i], r.value.rows[i], m.classes)
  {
    match Normalize(input, num)
    case Err(e) => Err(e)
    case Ok(df) =>
      match Encoding(df, m.featureNames)
      case Err(e) => Err(e)
      case Ok(x) =>
        if |x| == 0 then Err(NoSamples)
        else Ok(Assemble(df, x, m, num, |m.classes|))
  }

  /** Lines 6-24, step by step. */
  method PredictDropout(input: Frame, m: Classifier, num: Numerics) returns (r: Result<Frame>)
    requires Wf(input) && Fitted(m)
    ensures r == Predict(input, m, num)
  {
    var normalized := Normalize(input, num);
    if normalized.Err? {
      return Err(normalized.error);
    }
    var df := normalized.value;
    var encoded := Encode(df, m.featureNames);
    if encoded.Err? {
      return Err(encoded.error);
    }
    var x := encoded.value;
    if |x| == 0 {
      return Err(NoSamples);
    }
    var pred := seq(|x|, i requires 0 <= i < |x| => m.predict(x[i]));
    var proba := seq(|x|, i requires 0 <= i < |x| => m.proba(x[i]));
    var result := SetColumn(df, PredictionColumn, PredictionCells(pred));
    for k := 0 to |m.classes|
      invariant result == Assemble(df, x, m, num, k)
    {
      result := SetColumn(result, PercentColumn(m.classes[k]), PercentCells(proba, k, num));
    }
    r := Ok(result);
  }

  // ---------------------------------------------------------------------
  // One result row
  // ---------------------------------------------------------------------

  /** The result row built from an input row (Course already as text) and
      its encoded vector `v`. */
  ghost function ResultRow(row: Row, v: seq<real>, m: Classifier, num: Numerics, k: nat): Row
    requires Fitted(m) && k <= |m.classes|
    decreases k
  {
    if k == 0 then row[PredictionColumn := Text(m.predict(v))]
    else ResultRow(row, v, m, num, k - 1)[PercentColumn(m.classes[k - 1]) := Percent(m.proba(v)[k - 1], num)]
  }

  /** The result's columns: the input's, followed by each written label the
      input did not already have. */
  function Extend(columns: seq<string>, labels: seq<string>): seq<string>
    decreases |labels|
  {
    if labels == [] then columns
    else Extend(if labels[0] in columns then columns else columns + [labels[0]], labels[1..])
  }

  lemma {:induction false} AssembleRows(df: Frame, x: seq<seq<real>>, m: Classifier, num: Numerics, k: nat)
    requires Fitted(m) && |x| == |df.rows| && k <= |m.classes|
    ensures forall i :: 0 <= i < |df.rows| ==> Assemble(df, x, m, num, k).rows[i] == ResultRow(df.rows[i], x[i], m, num, k)
    decreases k
  {
    if k > 0 {
      AssembleRows(df, x, m, num, k - 1);
    }
  }

  lemma {:induction false} AssembleWf(df: Frame, x: seq<seq<real>>, m: Classifier, num: Numerics, k: nat)
    requires Wf(df) && Fitted(m) && |x| == |df.rows| && k <= |m.classes|
    ensures Wf(Assemble(df, x, m, num, k))
    decreases k
  {
    if k == 0 {
      SetColumnWf(df, PredictionColumn, PredictionCells(seq(|x|, i requires 0 <= i < |x| => m.predict(x[i]))));
    } else {
      AssembleWf(df, x, m, num, k - 1);
      var proba := seq(|x|, i requires 0 <= i < |x| => m.proba(x[i]));
      SetColumnWf(Assemble(df, x, m, num, k - 1), PercentColumn(m.classes[k - 1]), PercentCells(proba, k - 1, num));
    }
  }

  lemma {:induction false} AssembleColumns(df: Frame, x: seq<seq<real>>, m: Classifier, num: Numerics, k: nat)
    requires Fitted(m) && |x| == |df.rows| && k <= |m.classes|
    ensures Assemble(df, x, m, num, k).columns == Extend(df.columns, OutputLabels(m.classes)[..k + 1])
    decreases k
  {
    var labels := OutputLabels(m.classes);
    if k == 0 {
      assert labels[..1] == [PredictionColumn];
    } else {
      AssembleColumns(df, x, m, num, k - 1);
      ExtendSnoc(df.columns, labels[..k], labels[k]);
      assert labels[..k + 1] == labels[..k] + [labels[k]];
    }
  }

  lemma {:induction false} ExtendSnoc(columns: seq<string>, labels: seq<string>, l: string)
    ensures Extend(columns, labels + [l]) ==
              var e := Extend(columns, labels); if l in e then e else e + [l]
    decreases |labels|
  {
    if labels != [] {
      assert (labels + [l])[1..] == labels[1..] + [l];
      ExtendSnoc(if labels[0] in columns then columns else columns + [labels[0]], labels[1..], l);
    }
  }

  lemma {:induction false} ExtendKeepsPrefix(columns: seq<string>, labels: seq<string>)
    ensures |Extend(columns, labels)| >= |columns| && Extend(columns, labels)[..|columns|] == columns
    decreases |labels|
  {
    if labels != [] {
      var next := if labels[0] in columns then columns else columns + [labels[0]];
      ExtendKeepsPrefix(next, labels[1..]);
      assert next[..|columns|] == columns;
      assert Extend(columns, labels)[..|columns|] == Extend(next, labels[1..])[..|next|][..|columns|];
    }
  }

  lemma {:induction false} ExtendMembers(columns: seq<string>, labels: seq<string>)
    ensures forall c :: c in Extend(columns, labels) <==> c in columns || c in labels
    decreases |labels|
  {
    if labels != [] {
      var next := if labels[0] in columns then columns else columns + [labels[0]];
      ExtendMembers(next, labels[1..]);
      assert forall c :: c in labels <==> c == labels[0] || c in labels[1..];
    }
  }

  lemma {:induction false} ExtendFresh(columns: seq<string>, labels: seq<string>)
    requires forall l :: l in labels ==> l !in columns
    requires Distinct(labels)
    ensures Extend(columns, labels) == columns + labels
    decreases |labels|
  {
    if labels != [] {
      var next := columns + [labels[0]];
      forall l | l in labels[1..] ensures l !in next {
        var j :| 0 <= j < |labels[1..]| && labels[1..][j] == l;
        assert labels[j + 1] == l;
      }
      assert Distinct(labels[1..]) by {
        forall i, j | 0 <= i < j < |labels[1..]| ensures labels[1..][i] != labels[1..][j] {
          assert labels[1..][i] == labels[i + 1] && labels[1..][j] == labels[j + 1];
        }
      }
      ExtendFresh(next, labels[1..]);
      assert columns + labels == next + labels[1..];
    }
  }

  lemma OutputLabelsDistinct(classes: seq<string>)
    requires Distinct(classes)
    ensures Distinct(OutputLabels(classes))
  {
    var labels := OutputLabels(classes);
    forall i, j | 0 <= i < j < |labels| ensures labels[i] != labels[j] {
      if i == 0 {
        PercentColumnIsNotPrediction(classes[j - 1]);
      } else if labels[i] == labels[j] {
        PercentColumnInjective(classes[i - 1], classes[j - 1]);
      }
    }
  }

  lemma PercentColumnInjective(a: string, b: string)
    requires PercentColumn(a) == PercentColumn(b)
    ensures a == b
  {
    assert a == PercentColumn(a)[..|a|];
    assert b == PercentColumn(b)[..|b|];
  }

  lemma PercentColumnIsNotPrediction(cls: string)
    ensures PercentColumn(cls) != PredictionColumn
  {
    var p := PercentColumn(cls);
    assert p[|p| - 1] == ')';
    assert PredictionColumn[|PredictionColumn| - 1] == 'n';
  }

  /** Neither Prediction nor a percentage column of the first `k` classes. */
  predicate Untouched(c: string, classes: seq<string>) {
    c != PredictionColumn && forall j :: 0 <= j < |classes| ==> c != PercentColumn(classes[j])
  }

  lemma {:induction false} ResultRowCells(row: Row, v: seq<real>, m: Classifier, num: Numerics, k: nat)
    requires Fitted(m) && k <= |m.classes| && Distinct(m.classes)
    ensures Written(row, ResultRow(row, v, m, num, k), m.classes[..k])
    ensures ResultRow(row, v, m, num, k)[PredictionColumn] == Text(m.predict(v))
    ensures forall j :: 0 <= j < k ==> ResultRow(row, v, m, num, k)[PercentColumn(m.classes[j])] == Percent(m.proba(v)[j], num)
    ensures forall c :: c in row && Untouched(c, m.classes[..k]) ==> ResultRow(row, v, m, num, k)[c] == row[c]
    decreases k
  {
    if k > 0 {
      ResultRowCells(row, v, m, num, k - 1);
      var prev := ResultRow(row, v, m, num, k - 1);
      var last := PercentColumn(m.classes[k - 1]);
      var r := prev[last := Percent(m.proba(v)[k - 1], num)];
      assert ResultRow(row, v, m, num, k) == r;
      PercentColumnIsNotPrediction(m.classes[k - 1]);
      forall j | 0 <= j < k - 1 ensures PercentColumn(m.classes[j]) != last {
        if PercentColumn(m.classes[j]) == last {
          PercentColumnInjective(m.classes[j], m.classes[k - 1]);
        }
      }
      var before, upTo := m.classes[..k - 1], m.classes[..k];
      forall c | c in row && Untouched(c, upTo) ensures r[c] == row[c] {
        assert upTo[k - 1] == m.classes[k - 1];
        forall j | 0 <= j < k - 1 ensures c != PercentColumn(before[j]) {
          assert upTo[j] == before[j];
        }
        assert Untouched(c, before);
      }
      forall j | 0 <= j < k ensures PercentColumn(upTo[j]) in r {
        if j < k - 1 {
          assert upTo[j] == before[j];
        }
      }
    }
  }

  // ---------------------------------------------------------------------
  // What predict_dropout promises
  // ---------------------------------------------------------------------

  /** It fails exactly when the input has no Course column, when an
      expected feature name is carried by two columns of the expansion, or,
      failing those, when the input has no rows, which `predict` refuses. */
  lemma PredictFailures(input: Frame, m: Classifier, num: Numerics)
    requires Wf(input) && Fitted(m)
    ensures Predict(input, m, num) == Err(MissingColumn(CourseColumn)) <==> CourseColumn !in input.columns
    ensures Predict(input, m, num) == Err(AmbiguousFeature) <==>
              CourseColumn in input.columns && !Unambiguous(Normalize(input, num).value, m.featureNames)
    ensures Predict(input, m, num) == Err(NoSamples) <==>
              CourseColumn in input.columns && Unambiguous(Normalize(input, num).value, m.featureNames) &&
              |input.rows| == 0
    ensures Predict(input, m, num).Err? ==>
              Predict(input, m, num).error in {MissingColumn(CourseColumn), AmbiguousFeature, NoSamples}
  {
  }

  /** The result is a well-formed table whatever the classes are called. */
  lemma PredictWf(input: Frame, m: Classifier, num: Numerics)
    requires Wf(input) && Fitted(m) && Predict(input, m, num).Ok?
    ensures Wf(Predict(input, m, num).value)
  {
    var df := Normalize(input, num).value;
    AssembleWf(df, Encoding(df, m.featureNames).value, m, num, |m.classes|);
  }

  /** The result has the input's rows in the input's order and the input's
      columns followed by the written labels. */
  lemma PredictShape(input: Frame, m: Classifier, num: Numerics)
    requires Wf(input) && Fitted(m) && Distinct(m.classes) && Predict(input, m, num).Ok?
    ensures var out := Predict(input, m, num).value;
      && Wf(out)
      && |out.rows| == |input.rows|
      && |out.columns| >= |input.columns| && out.columns[..|input.columns|] == input.columns
      && (forall c :: c in out.columns <==> c in input.columns || c in OutputLabels(m.classes))
      && ((forall l :: l in OutputLabels(m.classes) ==> l !in input.columns) ==>
            out.columns == input.columns + OutputLabels(m.classes))
  {
    var df := Normalize(input, num).value;
    var x := Encoding(df, m.featureNames).value;
    var n := |m.classes|;
    AssembleWf(df, x, m, num, n);
    AssembleColumns(df, x, m, num, n);
    var labels := OutputLabels(m.classes);
    assert labels[..n + 1] == labels;
    ExtendKeepsPrefix(df.columns, labels);
    ExtendMembers(df.columns, labels);
    OutputLabelsDistinct(m.classes);
    if forall l :: l in labels ==> l !in input.columns {
      ExtendFresh(df.columns, labels);
    }
  }

  /** A label that is not "Prediction" and does not end in " (%)" is none
      of the labels `predict_dropout` writes. */
  lemma NotOutputLabel(classes: seq<string>, c: string)
    requires c != PredictionColumn && (|c| < 2 || c[|c| - 2] != '%')
    ensures c !in OutputLabels(classes)
  {
    var labels := OutputLabels(classes);
    forall j | 0 < j < |labels| ensures labels[j] != c {
      var p := labels[j];
      assert p == PercentColumn(classes[j - 1]);
      assert p[|p| - 2] == '%';
    }
  }

  /** Every input cell outside the written labels is kept, Course as text. */
  lemma PredictKeepsInput(input: Frame, m: Classifier, num: Numerics, i: nat, c: string)
    requires Wf(input) && Fitted(m) && Distinct(m.classes) && Predict(input, m, num).Ok?
    requires i < |input.rows| && c in input.rows[i] && c !in OutputLabels(m.classes)
    ensures Predict(input, m, num).value.rows[i][c] ==
              if c == CourseColumn then Text(ToText(input.rows[i][c], num)) else input.rows[i][c]
  {
    var df := Normalize(input, num).value;
    var x := Encoding(df, m.featureNames).value;
    var n := |m.classes|;
    AssembleRows(df, x, m, num, n);
    var labels := OutputLabels(m.classes);
    assert c != labels[0];
    forall j | 0 <= j < n ensures c != PercentColumn(m.classes[j]) {
      assert labels[j + 1] == PercentColumn(m.classes[j]);
    }
    assert m.classes[..n] == m.classes;
    ResultRowCells(df.rows[i], x[i], m, num, n);
  }

  /** Each row carries the classifier's label for its own vector and one
      percentage per class, in class order. */
  lemma PredictCells(input: Frame, m: Classifier, num: Numerics, i: nat)
    requires Wf(input) && Fitted(m) && Distinct(m.classes) && Predict(input, m, num).Ok?
    requires i < |input.rows|
    ensures var out := Predict(input, m, num).value;
      var v := Encoding(Normalize(input, num).value, m.featureNames).value[i];
      && out.rows[i][PredictionColumn] == Text(m.predict(v))
      && forall k :: 0 <= k < |m.classes| ==> out.rows[i][PercentColumn(m.classes[k])] == Percent(m.proba(v)[k], num)
  {
    var df := Normalize(input, num).value;
    var x := Encoding(df, m.featureNames).value;
    AssembleRows(df, x, m, num, |m.classes|);
    ResultRowCells(df.rows[i], x[i], m, num, |m.classes|);
  }

  /** Predicting one record alone gives the same result row as predicting it
      inside any batch. */
  lemma PredictBatchIndependence(input: Frame, m: Classifier, num: Numerics, i: nat)
    requires Wf(input) && Fitted(m) && Predict(input, m, num).Ok? && i < |input.rows|
    ensures Wf(Frame(input.columns, [input.rows[i]]))
    ensures Predict(Frame(input.columns, [input.rows[i]]), m, num) ==
              var out := Predict(input, m, num).value; Ok(Frame(out.columns, [out.rows[i]]))
  {
    var solo := Frame(input.columns, [input.rows[i]]);
    var df := Normalize(input, num).value;
    var x := Encoding(df, m.featureNames).value;
    var dfSolo := Frame(df.columns, [df.rows[i]]);
    assert Wf(solo) by {
      assert solo.rows[0] == input.rows[i];
    }
    assert Normalize(solo, num).value.rows[0] == NormalizeRow(input.rows[i], num);
    assert df.rows[i] == NormalizeRow(input.rows[i], num);
    assert Normalize(solo, num).value.rows == dfSolo.rows;
    assert Normalize(solo, num) == Ok(dfSolo);
    BatchIndependence(df, m.featureNames, i);
    var n := |m.classes|;
    AssembleRows(df, x, m, num, n);
    AssembleRows(dfSolo, [x[i]], m, num, n);
    AssembleColumns(df, x, m, num, n);
    AssembleColumns(dfSolo, [x[i]], m, num, n);
    var out := Assemble(df, x, m, num, n);
    var outSolo := Assemble(dfSolo, [x[i]], m, num, n);
    assert outSolo.rows == [out.rows[i]];
  }
}
