/**
 * The manual-entry mode of the dashboard (app/streamlit_app.py, lines
 * 26-62): one student's fourteen values, chosen with widgets, become a
 * one-row table with the training features as its columns, which then goes
 * through the same prediction and report as an uploaded file.
 */
module ManualEntry {
  import opened Frames
  import opened Encoder
  import opened Predictor
  import opened Training
  import opened RiskReport

  /** The values the form collects; the admission grade comes from a float
      slider, everything else is an integer except the study program. */
  datatype Form = Form(
    gender: int, age: int, maritalStatus: int, course: string, admissionGrade: real,
    scholarship: int, debtor: int, feesUpToDate: int,
    enrolled1: int, approved1: int, grade1: int,
    enrolled2: int, approved2: int, grade2: int)

  function Record(f: Form): Row {
    map[
      "Gender" := Int(f.gender),
      "Age at enrollment" := Int(f.age),
      "Marital Status" := Int(f.maritalStatus),
      "Course" := Text(f.course),
      "Admission grade" := Real(f.admissionGrade),
      "Scholarship holder" := Int(f.scholarship),
      "Debtor" := Int(f.debtor),
      "Tuition fees up to date" := Int(f.feesUpToDate),
      "Curricular units 1st sem (enrolled)" := Int(f.enrolled1),
      "Curricular units 1st sem (approved)" := Int(f.approved1),
      "Curricular units 1st sem (grade)" := Int(f.grade1),
      "Curricular units 2nd sem (enrolled)" := Int(f.enrolled2),
      "Curricular units 2nd sem (approved)" := Int(f.approved2),
      "Curricular units 2nd sem (grade)" := Int(f.grade2)
    ]
  }

  lemma UsedFeaturesDistinct()
    ensures Distinct(UsedFeatures)
  {
    SelectedDistinct();
    forall i, j | 0 <= i < j < |UsedFeatures| ensures UsedFeatures[i] != UsedFeatures[j] {
      assert (UsedFeatures + [TargetColumn])[i] == UsedFeatures[i];
      assert (UsedFeatures + [TargetColumn])[j] == UsedFeatures[j];
    }
  }

  /** The one-row table of lines 47-62: its columns are exactly the features
      the model was trained on, in the same order. */
  function ManualFrame(f: Form): (df: Frame)
    ensures Wf(df) && |df.rows| == 1 && df.columns == UsedFeatures
    ensures forall c :: c in df.rows[0] ==> (df.rows[0][c].Text? <==> c == CourseColumn)
  {
    UsedFeaturesDistinct();
    RecordKeys(f);
    RecordKinds(f);
    Frame(UsedFeatures, [Record(f)])
  }

  lemma RecordKeys(f: Form)
    ensures forall c :: c in Record(f) <==> c in UsedFeatures
  {
    assert Record(f).Keys == set c | c in UsedFeatures;
  }

  lemma RecordKinds(f: Form)
    ensures forall c :: c in Record(f) ==> (Record(f)[c].Text? <==> c == CourseColumn)
  {
  }

  /** No feature name looks like a Course indicator. */
  lemma NoFeatureIsAnIndicator(v: string)
    ensures DummyName(CourseColumn, v) !in UsedFeatures
  {
    var d := DummyName(CourseColumn, v);
    assert d[6] == '_';
    forall k | 0 <= k < |UsedFeatures| ensures |UsedFeatures[k]| < 7 || UsedFeatures[k][6] != '_' {
    }
  }

  /** A manually entered record can always be encoded and scored, whatever
      the expected feature names. */
  lemma ManualPrediction(f: Form, m: Classifier, num: Numerics)
    requires Fitted(m)
    ensures Predict(ManualFrame(f), m, num).Ok?
  {
    var df := ManualFrame(f);
    var nz := Normalize(df, num).value;
    assert nz.rows[0][CourseColumn] == Text(f.course);
    NoFeatureIsAnIndicator(f.course);
    forall c | c in nz.columns && c != CourseColumn ensures !IsTextColumn(nz, c) {
      ColumnKind(nz, 0, c);
    }
    OneTextColumn(nz, m.featureNames, CourseColumn);
  }

  /**
   * What the page shows for a manually entered student, given a classifier
   * with the classes Dropout, Graduate and Enrolled: no failure, and either
   * the all-clear or the warning for one student, labelled 1, with the
   * mentor advice exactly when either semester has fewer than 3 approved
   * units.
   */
  lemma ManualReport(f: Form, m: Classifier, num: Numerics)
    requires Fitted(m) && Distinct(m.classes)
    requires "Dropout" in m.classes && "Graduate" in m.classes && "Enrolled" in m.classes
    ensures Dashboard(ManualFrame(f), m, num).1 == None
    ensures var ms := Dashboard(ManualFrame(f), m, num).0;
      || ms == [AllClear]
      || (|ms| > 1 && ms[0] == AtRiskCount(1) && Students(ms[1..]) == [(1, f.approved1 < 3 || f.approved2 < 3)])
  {
    var input := ManualFrame(f);
    ManualPrediction(f, m, num);
    PredictionRanks(input, m, num);
    PredictShape(input, m, num);
    ManualAdvice(f, m, num);
    OneRowReport(Predict(input, m, num).value);
  }

  /** The advice for a manual record follows its two approved-units
      values. */
  lemma ManualAdvice(f: Form, m: Classifier, num: Numerics)
    requires Fitted(m) && Distinct(m.classes) && Predict(ManualFrame(f), m, num).Ok?
    ensures MentorNeeded(Predict(ManualFrame(f), m, num).value.rows[0]) == Ok(f.approved1 < 3 || f.approved2 < 3)
  {
    ApprovedKept(f, m, num, FirstApproved);
    ApprovedKept(f, m, num, SecondApproved);
  }

  /** The approved-units cells of the manual record reach the result table
      unchanged. */
  lemma ApprovedKept(f: Form, m: Classifier, num: Numerics, c: string)
    requires Fitted(m) && Distinct(m.classes) && Predict(ManualFrame(f), m, num).Ok?
    requires c == FirstApproved || c == SecondApproved
    ensures c in Predict(ManualFrame(f), m, num).value.rows[0]
    ensures Predict(ManualFrame(f), m, num).value.rows[0][c] ==
              if c == FirstApproved then Int(f.approved1) else Int(f.approved2)
  {
    NotOutputLabel(m.classes, c);
    PredictKeepsInput(ManualFrame(f), m, num, 0, c);
    PredictShape(ManualFrame(f), m, num);
  }
}
