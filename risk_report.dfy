/**
 * The risk report of the dashboard (app/streamlit_app.py, lines 64-85):
 * predict the batch, order it by dropout probability, pick the students at
 * 70 % or more, and for each of them say whether an academic mentor is
 * advised. What the page shows is modelled as a list of messages; the
 * result table and the bar chart are not modelled.
 */
module RiskReport {
  import opened Frames
  import opened Encoder
  import opened Predictor

  const DropoutColumn := "Dropout (%)"
  const RiskThreshold: real := 70.0
  const MentorCutoff: real := 3.0
  const FirstApproved := "Curricular units 1st sem (approved)"
  const SecondApproved := "Curricular units 2nd sem (approved)"

  /** The columns of the result table on the page. */
  const DisplayColumns: seq<string> := [PredictionColumn, DropoutColumn, "Graduate (%)", "Enrolled (%)"]

  /** A result row with its index label and its dropout probability; the
      label survives sorting. */
  datatype Entry = Entry(index: nat, row: Row, dropout: real)

  /** The dropout probability of a row whose Dropout cell is a number. */
  function Score(row: Row): real {
    if DropoutColumn in row && row[DropoutColumn].IsNumber() then row[DropoutColumn].Number() else 0.0
  }

  function Entries(df: Frame): seq<Entry> {
    seq(|df.rows|, i requires 0 <= i < |df.rows| => Entry(i, df.rows[i], Score(df.rows[i])))
  }

  predicate Descending(s: seq<Entry>) {
    forall i, j :: 0 <= i < j < |s| ==> s[i].dropout >= s[j].dropout
  }

  // ---------------------------------------------------------------------
  // Sorting by dropout probability, highest first
  // ---------------------------------------------------------------------

  function Insert(e: Entry, s: seq<Entry>): (r: seq<Entry>)
    ensures multiset(r) == multiset(s) + multiset{e}
    ensures r[0] == e || r[0] == s[0]
  {
    if s == [] then [e]
    else if e.dropout >= s[0].dropout then [e] + s
    else
      assert s == [s[0]] + s[1..];
      [s[0]] + Insert(e, s[1..])
  }

  /** `sort_values(by="Dropout (%)", ascending=False)`: one order pandas may
      produce (ties keep their input order here). */
  function SortDesc(s: seq<Entry>): (r: seq<Entry>)
    ensures multiset(r) == multiset(s)
  {
    if s == [] then []
    else
      assert s == [s[0]] + s[1..];
      Insert(s[0], SortDesc(s[1..]))
  }

  lemma {:induction false} InsertDescending(e: Entry, s: seq<Entry>)
    requires Descending(s)
    ensures Descending(Insert(e, s))
  {
    if s != [] && e.dropout < s[0].dropout {
      var rest := Insert(e, s[1..]);
      InsertDescending(e, s[1..]);
      var r := [s[0]] + rest;
      assert Insert(e, s) == r;
      assert rest[0].dropout <= s[0].dropout by {
        if rest[0] != e {
          assert s[1..][0] == s[1];
        }
      }
      forall i, j | 0 <= i < j < |r| ensures r[i].dropout >= r[j].dropout {
        if i == 0 {
          assert r[j] == rest[j - 1];
          assert rest[j - 1].dropout <= rest[0].dropout;
        } else {
          assert r[i] == rest[i - 1] && r[j] == rest[j - 1];
        }
      }
    }
  }

  lemma {:induction false} SortDescDescending(s: seq<Entry>)
    ensures Descending(SortDesc(s))
  {
    if s != [] {
      SortDescDescending(s[1..]);
      InsertDescending(s[0], SortDesc(s[1..]));
    }
  }

  // ---------------------------------------------------------------------
  // Students at high risk
  // ---------------------------------------------------------------------

  /** `result_df[result_df["Dropout (%)"] >= 70]`: the high-risk rows in the
      order they appear. */
  function HighRisk(s: seq<Entry>): (r: seq<Entry>)
    ensures |r| <= |s|
    ensures forall e :: e in r ==> e in s && e.dropout >= RiskThreshold
  {
    if s == [] then []
    else (if s[0].dropout >= RiskThreshold then [s[0]] else []) + HighRisk(s[1..])
  }

  /** Each entry occurs among the high-risk rows as often as it occurs in the
      table when its probability reaches the threshold, and never otherwise. */
  lemma {:induction false} HighRiskCount(s: seq<Entry>, e: Entry)
    ensures multiset(HighRisk(s))[e] == if e.dropout >= RiskThreshold then multiset(s)[e] else 0
  {
    if s == [] {
    } else {
      HighRiskCount(s[1..], e);
      assert s == [s[0]] + s[1..];
      var head := if s[0].dropout >= RiskThreshold then [s[0]] else [];
      assert multiset(HighRisk(s)) == multiset(head) + multiset(HighRisk(s[1..]));
    }
  }

  /** An entry is at high risk exactly when it is in the table with a
      probability of 70 or more. */
  lemma HighRiskMembers(s: seq<Entry>, e: Entry)
    ensures e in HighRisk(s) <==> e in s && e.dropout >= RiskThreshold
  {
    HighRiskCount(s, e);
    assert e in HighRisk(s) <==> e in multiset(HighRisk(s));
  }

  /** Reordering the table does not change who is at high risk, nor how
      many. */
  lemma HighRiskPermutation(s: seq<Entry>, t: seq<Entry>)
    requires multiset(s) == multiset(t)
    ensures multiset(HighRisk(s)) == multiset(HighRisk(t))
    ensures |HighRisk(s)| == |HighRisk(t)|
  {
    forall e ensures multiset(HighRisk(s))[e] == multiset(HighRisk(t))[e] {
      HighRiskCount(s, e);
      HighRiskCount(t, e);
    }
    assert multiset(HighRisk(s)) == multiset(HighRisk(t));
  }

  /** In a table sorted highest first, the high-risk rows are exactly its
      leading rows, and every row after them is below the threshold. */
  lemma {:induction false} HighRiskPrefix(s: seq<Entry>)
    requires Descending(s)
    ensures |HighRisk(s)| <= |s| && HighRisk(s) == s[..|HighRisk(s)|]
    ensures forall j :: |HighRisk(s)| <= j < |s| ==> s[j].dropout < RiskThreshold
  {
    if s != [] {
      DescendingTail(s);
      HighRiskPrefix(s[1..]);
      if s[0].dropout >= RiskThreshold {
        PrefixStep(s, |HighRisk(s[1..])|);
      } else {
        forall e | e in s[1..] ensures e.dropout < RiskThreshold {
        }
        NoneHigh(s[1..]);
        assert HighRisk(s) == [];
        forall j | 0 <= j < |s| ensures s[j].dropout < RiskThreshold {
          if j > 0 {
            assert s[j].dropout <= s[0].dropout;
          }
        }
      }
    }
  }

  lemma PrefixStep(s: seq<Entry>, n: nat)
    requires s != [] && s[0].dropout >= RiskThreshold
    requires n <= |s[1..]| && HighRisk(s[1..]) == s[1..][..n]
    requires forall j :: n <= j < |s[1..]| ==> s[1..][j].dropout < RiskThreshold
    ensures HighRisk(s) == s[..n + 1]
    ensures forall j :: n + 1 <= j < |s| ==> s[j].dropout < RiskThreshold
  {
    assert [s[0]] + s[1..][..n] == s[..n + 1];
    forall j | n + 1 <= j < |s| ensures s[j].dropout < RiskThreshold {
      assert s[j] == s[1..][j - 1];
    }
  }

  lemma {:induction false} NoneHigh(s: seq<Entry>)
    requires forall e :: e in s ==> e.dropout < RiskThreshold
    ensures HighRisk(s) == []
  {
    if s != [] {
      assert s[0] in s;
      forall e | e in s[1..] ensures e.dropout < RiskThreshold {
        assert e in s;
      }
      NoneHigh(s[1..]);
    }
  }

  lemma DescendingTail(s: seq<Entry>)
    requires s != [] && Descending(s)
    ensures Descending(s[1..])
    ensures forall e :: e in s[1..] ==> e.dropout <= s[0].dropout
  {
    forall i, j | 0 <= i < j < |s[1..]| ensures s[1..][i].dropout >= s[1..][j].dropout {
      assert s[1..][i] == s[i + 1] && s[1..][j] == s[j + 1];
    }
    forall e | e in s[1..] ensures e.dropout <= s[0].dropout {
      var j :| 0 <= j < |s[1..]| && s[1..][j] == e;
      assert s[j + 1] == e;
    }
  }

  // ---------------------------------------------------------------------
  // Ranking the result table
  // ---------------------------------------------------------------------

  /**
   * Lines 69-76 on the result table: sorting needs the Dropout column
   * (KeyError otherwise), the displayed selection needs all four display
   * columns, and comparing with 70 needs numbers (TypeError on text). On
   * success the rows come highest first, each under its original label.
   */
  function Rank(df: Frame): (r: Result<seq<Entry>>)
    requires Wf(df)
    ensures r == Err(MissingColumn(DropoutColumn)) <==> DropoutColumn !in df.columns
    ensures r.Ok? <==> (forall c :: c in DisplayColumns ==> c in df.columns) && !IsTextColumn(df, DropoutColumn)
    ensures r.Ok? ==> Descending(r.value) && multiset(r.value) == multiset(Entries(df))
  {
    if DropoutColumn !in df.columns then Err(MissingColumn(DropoutColumn))
    else match FirstMissing(DisplayColumns, df.columns)
      case Some(c) => Err(MissingColumn(c))
      case None =>
        if IsTextColumn(df, DropoutColumn) then Err(NotNumeric(DropoutColumn))
        else
          SortDescDescending(Entries(df));
          Ok(SortDesc(Entries(df)))
  }

  /** Every ranked row is the row its label names in the result table, and
      carries that row's dropout probability. */
  lemma RankKeepsLabels(df: Frame, e: Entry)
    requires Wf(df) && Rank(df).Ok? && e in Rank(df).value
    ensures e.index < |df.rows| && e.row == df.rows[e.index]
    ensures DropoutColumn in e.row && e.row[DropoutColumn].IsNumber() && e.dropout == e.row[DropoutColumn].Number()
  {
    assert e in multiset(Rank(df).value);
    assert e in Entries(df);
    var i :| 0 <= i < |df.rows| && Entries(df)[i] == e;
    ColumnKind(df, i, DropoutColumn);
  }

  // ---------------------------------------------------------------------
  // The messages of the report
  // ---------------------------------------------------------------------

  datatype Message =
    | AtRiskCount(count: nat)              // the warning with the number of students
    | StudentLine(student: nat, dropout: real)  // "Student <student>: <dropout>%"
    | MentorHint                           // the advice to assign a mentor
    | AllClear                             // no student at 70 % or more

  /**
   * Line 82 with Python's short-circuit `or`: the second-semester column is
   * only read when the first semester has 3 or more approved units. A
   * missing label is a KeyError, a text cell a TypeError.
   */
  function MentorNeeded(row: Row): Result<bool> {
    if FirstApproved !in row then Err(MissingColumn(FirstApproved))
    else if !row[FirstApproved].IsNumber() then Err(NotNumeric(FirstApproved))
    else if row[FirstApproved].Number() < MentorCutoff then Ok(true)
    else if SecondApproved !in row then Err(MissingColumn(SecondApproved))
    else if !row[SecondApproved].IsNumber() then Err(NotNumeric(SecondApproved))
    else Ok(row[SecondApproved].Number() < MentorCutoff)
  }

  /** The advice is given exactly when a semester with a number of approved
      units below 3 is reached, and the check fails exactly when the first
      semester, or the second one when it is consulted, cannot be read as a
      number. */
  lemma MentorAdvice(row: Row)
    ensures MentorNeeded(row) == Ok(true) <==>
              || (FirstApproved in row && row[FirstApproved].IsNumber() && row[FirstApproved].Number() < MentorCutoff)
              || (FirstApproved in row && row[FirstApproved].IsNumber() &&
                  SecondApproved in row && row[SecondApproved].IsNumber() && row[SecondApproved].Number() < MentorCutoff)
    ensures MentorNeeded(row).Err? <==>
              || FirstApproved !in row || !row[FirstApproved].IsNumber()
              || (row[FirstApproved].Number() >= MentorCutoff && (SecondApproved !in row || !row[SecondApproved].IsNumber()))
  {
  }

  /** Lines 80-83 for the high-risk rows from the first on: one line per
      student, followed by the mentor advice when needed; the first failing
      comparison ends the page. */
  function Lines(high: seq<Entry>): (seq<Message>, Option<Error>) {
    if high == [] then ([], None)
    else
      var line := StudentLine(high[0].index + 1, high[0].dropout);
      match MentorNeeded(high[0].row)
      case Err(e) => ([line], Some(e))
      case Ok(hint) =>
        var rest := Lines(high[1..]);
        ([line] + (if hint then [MentorHint] else []) + rest.0, rest.1)
  }

  /** What the page says about a result table (lines 69-85). */
  function Report(df: Frame): (seq<Message>, Option<Error>)
    requires Wf(df)
  {
    match Rank(df)
    case Err(e) => ([], Some(e))
    case Ok(ranked) =>
      var high := HighRisk(ranked);
      if high == [] then ([AllClear], None)
      else
        var lines := Lines(high);
        ([AtRiskCount(|high|)] + lines.0, lines.1)
  }

  /** The report, written as the page does it. */
  method ShowReport(df: Frame) returns (messages: seq<Message>, failure: Option<Error>)
    requires Wf(df)
    ensures (messages, failure) == Report(df)
  {
    var ranked := Rank(df);
    if ranked.Err? {
      return [], Some(ranked.error);
    }
    var high := HighRisk(ranked.value);
    if high == [] {
      return [AllClear], None;
    }
    var lines;
    lines, failure := ShowLines(high);
    messages := [AtRiskCount(|high|)] + lines;
  }

  /** The loop over the high-risk rows, message by message. */
  method ShowLines(high: seq<Entry>) returns (messages: seq<Message>, failure: Option<Error>)
    ensures messages == Lines(high).0 && failure == Lines(high).1
  {
    messages, failure := [], None;
    assert high[0..] == high;
    for k := 0 to |high|
      invariant Lines(high).0 == messages + Lines(high[k..]).0
      invariant Lines(high).1 == Lines(high[k..]).1
    {
      var e := high[k];
      assert high[k..][0] == e && high[k..][1..] == high[k + 1..];
      ghost var rest := Lines(high[k + 1..]);
      ghost var before := messages;
      messages := messages + [StudentLine(e.index + 1, e.dropout)];
      var hint := MentorNeeded(e.row);
      if hint.Err? {
        assert Lines(high[k..]) == ([StudentLine(e.index + 1, e.dropout)], Some(hint.error));
        failure := Some(hint.error);
        return;
      }
      LinesHead(high[k..]);
      if hint.value {
        messages := messages + [MentorHint];
      }
      assert messages + rest.0 == before + ([StudentLine(e.index + 1, e.dropout)] + (if hint.value then [MentorHint] else []) + rest.0);
    }
    assert high[|high|..] == [];
  }

  /** Reads the student lines back: each label, and whether the mentor
      advice follows it. */
  function Students(ms: seq<Message>): seq<(nat, bool)>
    decreases |ms|
  {
    if ms == [] then []
    else if ms[0].StudentLine? then
      var hint := |ms| > 1 && ms[1] == MentorHint;
      [(ms[0].student, hint)] + Students(ms[if hint then 2 else 1..])
    else Students(ms[1..])
  }

  /** A student line followed, when advised, by the mentor hint reads back
      as that student and that advice. */
  lemma StudentsCons(student: nat, dropout: real, hint: bool, rest: seq<Message>)
    requires rest == [] || rest[0].StudentLine?
    ensures Students([StudentLine(student, dropout)] + (if hint then [MentorHint] else []) + rest) ==
              [(student, hint)] + Students(rest)
  {
    var ms := [StudentLine(student, dropout)] + (if hint then [MentorHint] else []) + rest;
    if hint {
      assert ms[1] == MentorHint && ms[2..] == rest;
    } else {
      assert ms[1..] == rest;
    }
  }

  /** Each student's messages start with that student's line. */
  lemma LinesStart(high: seq<Entry>)
    ensures |Lines(high).0| > 0 <==> |high| > 0
    ensures |high| > 0 ==> Lines(high).0[0] == StudentLine(high[0].index + 1, high[0].dropout)
  {
  }

  lemma LinesHead(high: seq<Entry>)
    requires high != [] && MentorNeeded(high[0].row).Ok?
    ensures Lines(high) ==
              var rest := Lines(high[1..]);
              ([StudentLine(high[0].index + 1, high[0].dropout)] +
               (if MentorNeeded(high[0].row).value then [MentorHint] else []) + rest.0, rest.1)
  {
  }

  /**
   * When every comparison succeeds, the report lists every high-risk
   * student in order under label index + 1, with the mentor advice exactly
   * when one of the two semesters has fewer than 3 approved units.
   */
  lemma {:induction false} LinesComplete(high: seq<Entry>)
    requires Lines(high).1 == None
    ensures forall k :: 0 <= k < |high| ==> MentorNeeded(high[k].row).Ok?
    ensures Students(Lines(high).0) == Listed(high, |high|)
  {
    if high != [] {
      LinesComplete(high[1..]);
      LinesHead(high);
      LinesStart(high[1..]);
      var hint := MentorNeeded(high[0].row).value;
      StudentsCons(high[0].index + 1, high[0].dropout, hint, Lines(high[1..]).0);
      forall k | 1 <= k < |high| ensures MentorNeeded(high[k].row).Ok? {
        assert high[k] == high[1..][k - 1];
      }
      ListedCons(high, |high|);
    }
  }

  /**
   * When a comparison fails, the report stops at the first high-risk
   * student whose row cannot be compared: the students before it are
   * listed with their advice, that student's line is the last, and the
   * failure is that row's error.
   */
  lemma {:induction false} LinesStop(high: seq<Entry>, k: nat)
    requires k < |high| && FailsFirst(high, k)
    ensures Lines(high).1 == Some(MentorNeeded(high[k].row).error)
    ensures Students(Lines(high).0) == Listed(high, k) + [(high[k].index + 1, false)]
    decreases k
  {
    if k > 0 {
      ListedCons(high, k);
      assert high[1..][k - 1] == high[k];
      assert FailsFirst(high[1..], k - 1);
      LinesStop(high[1..], k - 1);
      LinesHead(high);
      LinesStart(high[1..]);
      StudentsCons(high[0].index + 1, high[0].dropout, MentorNeeded(high[0].row).value, Lines(high[1..]).0);
    }
  }

  lemma ListedCons(high: seq<Entry>, k: nat)
    requires 0 < k <= |high| && forall j :: 0 <= j < k ==> MentorNeeded(high[j].row).Ok?
    ensures forall j :: 0 <= j < k - 1 ==> MentorNeeded(high[1..][j].row).Ok?
    ensures Listed(high, k) == [(high[0].index + 1, MentorNeeded(high[0].row).value)] + Listed(high[1..], k - 1)
  {
    forall j | 0 <= j < k - 1 ensures MentorNeeded(high[1..][j].row).Ok? {
      assert high[1..][j] == high[j + 1];
    }
  }

  /** Row `k` is the first high-risk row whose comparison fails. */
  predicate FailsFirst(high: seq<Entry>, k: nat)
    requires k < |high|
  {
    MentorNeeded(high[k].row).Err? && forall j :: 0 <= j < k ==> MentorNeeded(high[j].row).Ok?
  }

  /** The labels and advice of the first `k` high-risk rows. */
  function Listed(high: seq<Entry>, k: nat): seq<(nat, bool)>
    requires k <= |high| && forall j :: 0 <= j < k ==> MentorNeeded(high[j].row).Ok?
  {
    seq(k, j requires 0 <= j < k => (high[j].index + 1, MentorNeeded(high[j].row).value))
  }

  /** The report on a one-row table: no failure, and either the all-clear
      or the warning for that one student, labelled 1, with its advice. */
  lemma OneRowReport(df: Frame)
    requires Wf(df) && |df.rows| == 1 && Rank(df).Ok? && MentorNeeded(df.rows[0]).Ok?
    ensures Report(df).1 == None
    ensures var ms := Report(df).0;
      || ms == [AllClear]
      || (|ms| > 1 && ms[0] == AtRiskCount(1) && Students(ms[1..]) == [(1, MentorNeeded(df.rows[0]).value)])
  {
    var ranked := Rank(df).value;
    var high := HighRisk(ranked);
    if high != [] {
      assert |ranked| == 1 by {
        assert |multiset(ranked)| == |multiset(Entries(df))|;
      }
      assert high == [high[0]];
      assert high[0] in high;
      RankKeepsLabels(df, high[0]);
      SingleAtRisk(df, high[0]);
    }
  }

  /** A table with a single row at risk reports that one student and
      whether a mentor is advised for them, and nothing fails. */
  lemma SingleAtRisk(df: Frame, e: Entry)
    requires Wf(df) && Rank(df).Ok? && HighRisk(Rank(df).value) == [e] && MentorNeeded(e.row).Ok?
    ensures Report(df).1 == None
    ensures |Report(df).0| > 1 && Report(df).0[0] == AtRiskCount(1)
    ensures Students(Report(df).0[1..]) == [(e.index + 1, MentorNeeded(e.row).value)]
  {
    var high := [e];
    LinesHead(high);
    assert high[1..] == [];
    LinesComplete(high);
    assert Report(df).0[1..] == Lines(high).0;
  }

  /**
   * The headline of a report on a rankable table: the all-clear exactly
   * when no row reaches 70 %, and otherwise the number of rows that do,
   * counted in the table's own order.
   */
  lemma ReportHeadline(df: Frame)
    requires Wf(df) && Rank(df).Ok?
    ensures |Report(df).0| > 0
    ensures Report(df).0[0] == AllClear <==> forall e :: e in Entries(df) ==> e.dropout < RiskThreshold
    ensures Report(df).0[0] != AllClear ==> Report(df).0[0] == AtRiskCount(|HighRisk(Entries(df))|)
  {
    var ranked := Rank(df).value;
    var entries := Entries(df);
    HighRiskPermutation(ranked, entries);
    if HighRisk(ranked) == [] {
      forall e | e in entries ensures e.dropout < RiskThreshold {
        assert e in multiset(ranked);
        HighRiskMembers(ranked, e);
      }
    } else {
      var e := HighRisk(ranked)[0];
      assert e in HighRisk(ranked);
      assert e in multiset(ranked);
    }
  }

  /**
   * The students named in the report are the leading rows of the ranked
   * table, each is in the result table under its label with 70 % or more,
   * and every row ranked after them is below 70 %.
   */
  lemma ReportedStudents(df: Frame)
    requires Wf(df) && Rank(df).Ok?
    ensures var ranked := Rank(df).value; var high := HighRisk(ranked);
      && high == ranked[..|high|]
      && (forall j :: |high| <= j < |ranked| ==> ranked[j].dropout < RiskThreshold)
      && (forall e :: e in high ==> e.index < |df.rows| && e.row == df.rows[e.index] && e.dropout >= RiskThreshold)
  {
    var ranked := Rank(df).value;
    HighRiskPrefix(ranked);
    forall e | e in HighRisk(ranked) ensures e.index < |df.rows| && e.row == df.rows[e.index] {
      RankKeepsLabels(df, e);
    }
  }

  // ---------------------------------------------------------------------
  // The dashboard
  // ---------------------------------------------------------------------

  /** Lines 64-85: nothing for an empty table, otherwise the report on the
      prediction, or the failure of the prediction. */
  ghost function Dashboard(input: Frame, m: Classifier, num: Numerics): (seq<Message>, Option<Error>)
    requires Wf(input) && Fitted(m)
  {
    if |input.rows| == 0 || |input.columns| == 0 then ([], None)
    else match Predict(input, m, num)
      case Err(e) => ([], Some(e))
      case Ok(out) =>
        PredictWf(input, m, num);
        Report(out)
  }

  method Run(input: Frame, m: Classifier, num: Numerics) returns (messages: seq<Message>, failure: Option<Error>)
    requires Wf(input) && Fitted(m)
    ensures (messages, failure) == Dashboard(input, m, num)
  {
    if |input.rows| == 0 || |input.columns| == 0 {
      return [], None;
    }
    var out := PredictDropout(input, m, num);
    if out.Err? {
      return [], Some(out.error);
    }
    PredictWf(input, m, num);
    messages, failure := ShowReport(out.value);
  }

  /**
   * With a classifier whose classes include Dropout, Graduate and Enrolled,
   * a successful prediction can always be ranked: the display columns are
   * there and the Dropout column holds numbers.
   */
  lemma PredictionRanks(input: Frame, m: Classifier, num: Numerics)
    requires Wf(input) && Fitted(m) && Distinct(m.classes) && Predict(input, m, num).Ok?
    requires "Dropout" in m.classes && "Graduate" in m.classes && "Enrolled" in m.classes
    ensures Wf(Predict(input, m, num).value)
    ensures Rank(Predict(input, m, num).value).Ok?
  {
    PredictWf(input, m, num);
    DisplayColumnsWritten(input, m, num);
    DropoutWrittenAsNumber(input, m, num);
  }

  lemma DisplayColumnsWritten(input: Frame, m: Classifier, num: Numerics)
    requires Wf(input) && Fitted(m) && Distinct(m.classes) && Predict(input, m, num).Ok?
    requires "Dropout" in m.classes && "Graduate" in m.classes && "Enrolled" in m.classes
    ensures forall c :: c in DisplayColumns ==> c in Predict(input, m, num).value.columns
  {
    PredictShape(input, m, num);
    DisplayLabels();
    var labels := OutputLabels(m.classes);
    assert labels[0] == PredictionColumn;
    ClassLabelWritten(m.classes, "Dropout");
    ClassLabelWritten(m.classes, "Graduate");
    ClassLabelWritten(m.classes, "Enrolled");
  }

  /** The display columns are the labels written for the Prediction and
      for the classes Dropout, Graduate and Enrolled. */
  lemma DisplayLabels()
    ensures DisplayColumns == [PredictionColumn, PercentColumn("Dropout"), PercentColumn("Graduate"), PercentColumn("Enrolled")]
  {
    assert PercentColumn("Dropout") == DropoutColumn;
    assert PercentColumn("Graduate") == "Graduate (%)";
    assert PercentColumn("Enrolled") == "Enrolled (%)";
  }

  lemma ClassLabelWritten(classes: seq<string>, cls: string)
    requires cls in classes
    ensures PercentColumn(cls) in OutputLabels(classes)
  {
    var k :| 0 <= k < |classes| && classes[k] == cls;
    assert OutputLabels(classes)[k + 1] == PercentColumn(cls);
  }

  lemma DropoutWrittenAsNumber(input: Frame, m: Classifier, num: Numerics)
    requires Wf(input) && Fitted(m) && Distinct(m.classes) && Predict(input, m, num).Ok?
    requires "Dropout" in m.classes
    ensures !IsTextColumn(Predict(input, m, num).value, DropoutColumn)
  {
    DisplayLabels();
    var out := Predict(input, m, num).value;
    if IsTextColumn(out, DropoutColumn) {
      var i :| 0 <= i < |out.rows| && DropoutColumn in out.rows[i] && out.rows[i][DropoutColumn].Text?;
      PredictCells(input, m, num, i);
      assert false;
    }
  }

  /** The worked example: probabilities 72.3, 40.0 and 95.1 put students 3
      and 1 on the report, in that order, and not student 2. */
  lemma ThreeStudents()
    ensures var df := Frame([DropoutColumn], [map[DropoutColumn := Real(72.3)], map[DropoutColumn := Real(40.0)], map[DropoutColumn := Real(95.1)]]);
      HighRisk(SortDesc(Entries(df))) == [Entry(2, df.rows[2], 95.1), Entry(0, df.rows[0], 72.3)]
  {
    var df := Frame([DropoutColumn], [map[DropoutColumn := Real(72.3)], map[DropoutColumn := Real(40.0)], map[DropoutColumn := Real(95.1)]]);
    assert Score(df.rows[0]) == 72.3 && Score(df.rows[1]) == 40.0 && Score(df.rows[2]) == 95.1;
    assert Entries(df) == [Entry(0, df.rows[0], 72.3), Entry(1, df.rows[1], 40.0), Entry(2, df.rows[2], 95.1)];
    SortThree(df.rows[0], df.rows[1], df.rows[2]);
  }

  lemma SortThree(r0: Row, r1: Row, r2: Row)
    ensures var e0, e1, e2 := Entry(0, r0, 72.3), Entry(1, r1, 40.0), Entry(2, r2, 95.1);
      HighRisk(SortDesc([e0, e1, e2])) == [e2, e0]
  {
    var e0, e1, e2 := Entry(0, r0, 72.3), Entry(1, r1, 40.0), Entry(2, r2, 95.1);
    SortTail(e1, e2);
    assert [e0, e1, e2][1..] == [e1, e2];
    assert SortDesc([e0, e1, e2]) == Insert(e0, [e2, e1]);
    InsertMiddle(e0, e2, e1);
    FilterThree(e2, e0, e1);
  }

  lemma SortTail(e1: Entry, e2: Entry)
    requires e1.dropout < e2.dropout
    ensures SortDesc([e1, e2]) == [e2, e1]
  {
    assert [e1, e2][1..] == [e2];
    assert SortDesc([e2]) == Insert(e2, []);
  }

  lemma InsertMiddle(e: Entry, a: Entry, b: Entry)
    requires b.dropout <= e.dropout < a.dropout
    ensures Insert(e, [a, b]) == [a, e, b]
  {
    assert [a, b][1..] == [b];
  }

  lemma FilterThree(a: Entry, b: Entry, c: Entry)
    requires a.dropout >= RiskThreshold && b.dropout >= RiskThreshold && c.dropout < RiskThreshold
    ensures HighRisk([a, b, c]) == [a, b]
  {
    assert [c][1..] == [];
    assert HighRisk([c]) == [];
    assert [b, c][1..] == [c];
    assert HighRisk([b, c]) == [b];
    assert [a, b, c][1..] == [b, c];
    assert HighRisk([a, b, c]) == [a] + [b];
  }
}
