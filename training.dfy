/**
 * How the classifier's expected feature names arise (model/train_model.py,
 * lines 8-23): the training table is cut down to the selected features and
 * the target, Course is turned into text, the target is dropped and the rest
 * is one-hot expanded exactly as at inference time. Fitting the forest is
 * not modelled; only the vocabulary of feature names matters here.
 */
module Training {
  import opened Frames
  import opened Encoder

  const UsedFeatures: seq<string> := [
    "Gender", "Age at enrollment", "Marital Status", "Course",
    "Admission grade", "Scholarship holder", "Debtor", "Tuition fees up to date",
    "Curricular units 1st sem (enrolled)", "Curricular units 1st sem (approved)", "Curricular units 1st sem (grade)",
    "Curricular units 2nd sem (enrolled)", "Curricular units 2nd sem (approved)", "Curricular units 2nd sem (grade)"
  ]

  const TargetColumn := "target"

  /** `df[names]`: the named columns in that order, or a KeyError naming a
      missing one. */
  function Project(df: Frame, names: seq<string>): (r: Result<Frame>)
    requires Wf(df) && Distinct(names)
    ensures r.Ok? <==> forall n :: n in names ==> n in df.columns
    ensures r.Ok? ==> Wf(r.value) && r.value.columns == names && |r.value.rows| == |df.rows|
    ensures r.Ok? ==> forall i, c :: 0 <= i < |df.rows| && c in names ==> c in r.value.rows[i] && r.value.rows[i][c] == df.rows[i][c]
  {
    match FirstMissing(names, df.columns)
    case Some(n) => Err(MissingColumn(n))
    case None =>
      Ok(Frame(names, seq(|df.rows|, i requires 0 <= i < |df.rows| => map c | c in names :: df.rows[i][c])))
  }

  lemma SelectedDistinct()
    ensures Distinct(UsedFeatures + [TargetColumn])
  {
  }

  /** The feature names a classifier fitted on `data` expects
      (`X.columns` at line 23), in no particular order. */
  function FeatureNames(data: Frame, num: Numerics): (r: Result<seq<string>>)
    requires Wf(data)
    ensures r.Ok? <==> forall n :: n in UsedFeatures + [TargetColumn] ==> n in data.columns
  {
    SelectedDistinct();
    match Project(data, UsedFeatures + [TargetColumn])
    case Err(e) => Err(e)
    case Ok(selected) =>
      var x := Without(selected, TargetColumn);
      WithoutWf(selected, TargetColumn);
      assert CourseColumn in x.columns;
      Ok(Names(Dummies(Normalize(x, num).value)))
  }

  /**
   * Course goes through the same `astype(str)` in training and at
   * inference, so a course seen in training has its indicator among the
   * feature names, and a record with that course gets a 1 there.
   */
  lemma SharedVocabulary(data: Frame, input: Frame, num: Numerics, j: nat, i: nat)
    requires Wf(data) && FeatureNames(data, num).Ok? && j < |data.rows|
    requires Wf(input) && CourseColumn in input.columns && i < |input.rows|
    requires Encoding(Normalize(input, num).value, FeatureNames(data, num).value).Ok?
    requires ToText(input.rows[i][CourseColumn], num) == ToText(data.rows[j][CourseColumn], num)
    ensures DummyName(CourseColumn, ToText(data.rows[j][CourseColumn], num)) in FeatureNames(data, num).value
    ensures forall k ::
              (0 <= k < |FeatureNames(data, num).value| &&
               FeatureNames(data, num).value[k] == DummyName(CourseColumn, ToText(data.rows[j][CourseColumn], num))) ==>
              Encoding(Normalize(input, num).value, FeatureNames(data, num).value).value[i][k] == 1.0
  {
    var v := ToText(data.rows[j][CourseColumn], num);
    var f := DummyName(CourseColumn, v);
    SelectedDistinct();
    var selected := Project(data, UsedFeatures + [TargetColumn]).value;
    var x := Without(selected, TargetColumn);
    WithoutWf(selected, TargetColumn);
    var nz := Normalize(x, num).value;
    assert x.rows[j][CourseColumn] == data.rows[j][CourseColumn];
    assert nz.rows[j][CourseColumn] == Text(v);
    assert Indicates(nz.rows[j], CourseColumn, f);
    assert Produces(nz, CourseColumn, f);
    LookupDummiesOf(nz, nz.columns, f);
    FoundIsNamed(Dummies(nz), f);
    var fs := FeatureNames(data, num).value;
    var df := Normalize(input, num).value;
    assert Indicates(df.rows[i], CourseColumn, f);
    forall k | 0 <= k < |fs| && fs[k] == f ensures Encoding(df, fs).value[i][k] == 1.0 {
      IndicatedIsOne(df, fs, k, i, CourseColumn);
    }
  }
}
