/**
 * The feature encoder of `predict_dropout` (app/predictor.py, lines 7-14):
 * Course is turned into text, every text column is one-hot expanded by
 * `pd.get_dummies`, the expected columns missing from the expansion are added
 * as zeros, and exactly the classifier's feature names are selected in order.
 *
 * `Encode` follows those steps on columns the way pandas does; `Encoding` says
 * per row what the result is. Their agreement is what makes a row's vector
 * independent of the other rows of the batch (`BatchIndependence`).
 */
module Encoder {
  import opened Frames

  const CourseColumn := "Course"

  // ---------------------------------------------------------------------
  // Course as text (line 8)
  // ---------------------------------------------------------------------

  function NormalizeRow(row: Row, num: Numerics): Row
    requires CourseColumn in row
  {
    row[CourseColumn := Text(ToText(row[CourseColumn], num))]
  }

  /** `df["Course"] = df["Course"].astype(str)` on a copy of the input; a
      frame without a Course column raises a KeyError. */
  function Normalize(df: Frame, num: Numerics): (r: Result<Frame>)
    requires Wf(df)
    ensures r.Ok? <==> CourseColumn in df.columns
    ensures r.Ok? ==> Wf(r.value) && r.value.columns == df.columns && |r.value.rows| == |df.rows|
    ensures r.Ok? ==> forall i :: 0 <= i < |df.rows| ==>
              && r.value.rows[i].Keys == df.rows[i].Keys
              && r.value.rows[i][CourseColumn] == Text(ToText(df.rows[i][CourseColumn], num))
              && (forall c :: c in df.rows[i] && c != CourseColumn ==> r.value.rows[i][c] == df.rows[i][c])
  {
    if CourseColumn !in df.columns then Err(MissingColumn(CourseColumn))
    else
      var rows := seq(|df.rows|, i requires 0 <= i < |df.rows| => NormalizeRow(df.rows[i], num));
      var r := Frame(df.columns, rows);
      assert forall i, j, c :: 0 <= i < |rows| && 0 <= j < |rows| && c in df.columns ==>
               rows[i][c].Text? == rows[j][c].Text? by {
        forall i, j, c | 0 <= i < |rows| && 0 <= j < |rows| && c in df.columns
          ensures rows[i][c].Text? == rows[j][c].Text?
        {
          if c != CourseColumn {
            assert rows[i][c] == df.rows[i][c] && rows[j][c] == df.rows[j][c];
          }
        }
      }
      Ok(r)
  }

  // ---------------------------------------------------------------------
  // One-hot expansion (line 9)
  // ---------------------------------------------------------------------

  /** The label `pd.get_dummies` gives the indicator of category `v` of
      column `c`. */
  function DummyName(c: string, v: string): string {
    c + "_" + v
  }

  lemma DummyNameInjective(c: string, v: string, w: string)
    requires DummyName(c, v) == DummyName(c, w)
    ensures v == w
  {
    assert v == DummyName(c, v)[|c| + 1..];
    assert w == DummyName(c, w)[|c| + 1..];
  }

  /** One column of the expanded table: its label and one number per row. */
  datatype Column = Column(name: string, values: seq<real>)

  /** The distinct text values of column `c`, in order of first appearance. */
  function Categories(rows: seq<Row>, c: string): (cats: seq<string>)
    ensures Distinct(cats)
    ensures forall v :: v in cats <==> exists i :: 0 <= i < |rows| && c in rows[i] && rows[i][c] == Text(v)
  {
    if rows == [] then []
    else
      var prev := Categories(rows[..|rows| - 1], c);
      var last := rows[|rows| - 1];
      assert forall i :: 0 <= i < |rows| - 1 ==> rows[..|rows| - 1][i] == rows[i];
      if c in last && last[c].Text? && last[c].s !in prev then prev + [last[c].s] else prev
  }

  function IndicatorValues(rows: seq<Row>, c: string, v: string): seq<real> {
    seq(|rows|, i requires 0 <= i < |rows| => if c in rows[i] && rows[i][c] == Text(v) then 1.0 else 0.0)
  }

  function NumberValues(rows: seq<Row>, c: string): seq<real>
    requires forall i :: 0 <= i < |rows| ==> c in rows[i] && rows[i][c].IsNumber()
  {
    seq(|rows|, i requires 0 <= i < |rows| => rows[i][c].Number())
  }

  function IndicatorColumns(rows: seq<Row>, c: string, cats: seq<string>): seq<Column> {
    if cats == [] then []
    else [Column(DummyName(c, cats[0]), IndicatorValues(rows, c, cats[0]))] + IndicatorColumns(rows, c, cats[1..])
  }

  /** What `pd.get_dummies` makes of one column: a text column becomes one
      indicator per category seen in the batch, a numeric one is kept. */
  function ColumnDummies(df: Frame, c: string): seq<Column>
    requires Wf(df) && c in df.columns
  {
    if IsTextColumn(df, c) then IndicatorColumns(df.rows, c, Categories(df.rows, c))
    else [Column(c, NumberValues(df.rows, c))]
  }

  function DummiesOf(df: Frame, cols: seq<string>): seq<Column>
    requires Wf(df) && forall c :: c in cols ==> c in df.columns
  {
    if cols == [] then [] else ColumnDummies(df, cols[0]) + DummiesOf(df, cols[1..])
  }

  /** `pd.get_dummies(df)`. The order of its columns is not modelled (pandas
      puts the kept columns first and sorts categories); only `Select`
      reads this table, and it looks columns up by label. */
  function Dummies(df: Frame): seq<Column>
    requires Wf(df)
  {
    DummiesOf(df, df.columns)
  }

  // ---------------------------------------------------------------------
  // Looking a label up in the expanded table (lines 12 and 14)
  // ---------------------------------------------------------------------

  /** What indexing a frame by one label finds: nothing (a KeyError), one
      column, or several columns sharing the label. */
  datatype Found = Absent | Unique(values: seq<real>) | Ambiguous

  function Lookup(cols: seq<Column>, name: string): Found {
    if cols == [] then Absent
    else
      var rest := Lookup(cols[1..], name);
      if cols[0].name != name then rest
      else if rest.Absent? then Unique(cols[0].values)
      else Ambiguous
  }

  /** What a lookup finds in two tables side by side. */
  function Merge(a: Found, b: Found): Found {
    if a.Absent? then b else if b.Absent? then a else Ambiguous
  }

  lemma {:induction false} LookupConcat(a: seq<Column>, b: seq<Column>, name: string)
    ensures Lookup(a + b, name) == Merge(Lookup(a, name), Lookup(b, name))
  {
    if a != [] {
      assert (a + b)[0] == a[0];
      assert (a + b)[1..] == a[1..] + b;
      LookupConcat(a[1..], b, name);
      assert Lookup(a + b, name) == (
        var rest := Lookup(a[1..] + b, name);
        if a[0].name != name then rest
        else if rest.Absent? then Unique(a[0].values)
        else Ambiguous);
    } else {
      assert a + b == b;
    }
  }

  function Zeros(n: nat): (z: seq<real>)
    ensures |z| == n && forall i :: 0 <= i < n ==> z[i] == 0.0
  {
    seq(n, _ => 0.0)
  }

  /** What the lookup of a label finds once the loop of lines 11-13 has
      visited it: a label still absent by then is the zero column added. */
  function Filled(found: Found, visited: bool, n: nat): Found {
    if found.Absent? && visited then Unique(Zeros(n)) else found
  }

  /** `df_encoded[features]`: one column per expected label, in order; a
      missing label is a KeyError and a label carried by several columns
      yields more columns than scikit-learn was fitted on. */
  function Select(cols: seq<Column>, features: seq<string>): Result<seq<seq<real>>> {
    if features == [] then Ok([])
    else
      match Lookup(cols, features[0])
      case Absent => Err(MissingColumn(features[0]))
      case Ambiguous => Err(AmbiguousFeature)
      case Unique(vs) =>
        match Select(cols, features[1..])
        case Err(e) => Err(e)
        case Ok(rest) => Ok([vs] + rest)
  }

  /** The row-major matrix handed to the classifier. */
  function Transpose(cols: seq<seq<real>>, n: nat): seq<seq<real>>
    requires forall k :: 0 <= k < |cols| ==> |cols[k]| == n
  {
    seq(n, i requires 0 <= i < n => seq(|cols|, k requires 0 <= k < |cols| => cols[k][i]))
  }

  // ---------------------------------------------------------------------
  // The row-wise meaning of the encoding
  // ---------------------------------------------------------------------

  /** Column `c` of `row` holds text whose indicator label is `f`. */
  ghost predicate Indicates(row: Row, c: string, f: string) {
    c in row && row[c].Text? && DummyName(c, row[c].s) == f
  }

  /** The entry of feature `f` in the encoded vector of `row`: the number in
      a numeric column named `f`, 1 when some text column of the row has `f`
      as its indicator label, and 0 otherwise. */
  ghost function Value(row: Row, f: string): real {
    if f in row && row[f].IsNumber() then row[f].Number()
    else if exists c :: Indicates(row, c, f) then 1.0
    else 0.0
  }

  ghost function EncodeRow(row: Row, features: seq<string>): (v: seq<real>)
    ensures |v| == |features|
  {
    seq(|features|, k requires 0 <= k < |features| => Value(row, features[k]))
  }

  /** Column `c` of the batch yields a column labelled `f` in the expansion. */
  ghost predicate Produces(df: Frame, c: string, f: string) {
    c in df.columns &&
    if IsTextColumn(df, c) then exists i :: 0 <= i < |df.rows| && Indicates(df.rows[i], c, f)
    else c == f
  }

  /** At most one column of `cols` yields the label `f`. */
  ghost predicate OneIn(df: Frame, cols: seq<string>, f: string) {
    forall c1, c2 :: c1 in cols && c2 in cols && Produces(df, c1, f) && Produces(df, c2, f) ==> c1 == c2
  }

  ghost predicate NoneIn(df: Frame, cols: seq<string>, f: string) {
    forall c :: c in cols ==> !Produces(df, c, f)
  }

  /** No expected feature is carried by two columns of the expansion. */
  ghost predicate Unambiguous(df: Frame, features: seq<string>) {
    forall k :: 0 <= k < |features| ==> OneIn(df, df.columns, features[k])
  }

  /** The encoded matrix of a batch: one row per record, one entry per
      expected feature, each row encoded on its own. */
  ghost function Encoding(df: Frame, features: seq<string>): (r: Result<seq<seq<real>>>)
    ensures r.Ok? ==> |r.value| == |df.rows| && forall i :: 0 <= i < |r.value| ==> |r.value[i]| == |features|
  {
    if Unambiguous(df, features) then Ok(SpecMatrix(df, features)) else Err(AmbiguousFeature)
  }

  ghost function SpecMatrix(df: Frame, features: seq<string>): (m: seq<seq<real>>)
    ensures |m| == |df.rows|
  {
    seq(|df.rows|, i requires 0 <= i < |df.rows| => EncodeRow(df.rows[i], features))
  }

  /** The column of feature `f` as the rows encode it. */
  ghost function SpecColumn(df: Frame, f: string): (vs: seq<real>)
    ensures |vs| == |df.rows|
  {
    seq(|df.rows|, i requires 0 <= i < |df.rows| => Value(df.rows[i], f))
  }

  /** The expected features' columns as the rows encode them. */
  ghost function SpecColumns(df: Frame, features: seq<string>): (cols: seq<seq<real>>)
    ensures |cols| == |features| && forall k :: 0 <= k < |features| ==> |cols[k]| == |df.rows|
  {
    seq(|features|, k requires 0 <= k < |features| => SpecColumn(df, features[k]))
  }

  /** The values of the column that `c` yields under the label `f`. */
  ghost function ProducedValues(df: Frame, c: string, f: string): seq<real>
    requires Wf(df) && c in df.columns
  {
    if IsTextColumn(df, c) then
      seq(|df.rows|, i requires 0 <= i < |df.rows| => if Indicates(df.rows[i], c, f) then 1.0 else 0.0)
    else NumberValues(df.rows, c)
  }

  // ---------------------------------------------------------------------
  // The expansion, label by label
  // ---------------------------------------------------------------------

  lemma {:induction false} LookupIndicatorColumns(rows: seq<Row>, c: string, cats: seq<string>, f: string)
    requires Distinct(cats)
    ensures (forall v :: v in cats ==> DummyName(c, v) != f) ==> Lookup(IndicatorColumns(rows, c, cats), f) == Absent
    ensures forall v :: v in cats && DummyName(c, v) == f ==>
              Lookup(IndicatorColumns(rows, c, cats), f) == Unique(IndicatorValues(rows, c, v))
  {
    if cats != [] {
      LookupIndicatorColumns(rows, c, cats[1..], f);
      var cols := IndicatorColumns(rows, c, cats);
      assert cols[1..] == IndicatorColumns(rows, c, cats[1..]);
      if DummyName(c, cats[0]) == f {
        forall v | v in cats[1..] ensures DummyName(c, v) != f {
          if DummyName(c, v) == f {
            DummyNameInjective(c, v, cats[0]);
          }
        }
      }
      forall v | v in cats && DummyName(c, v) == f
        ensures Lookup(cols, f) == Unique(IndicatorValues(rows, c, v))
      {
        if v != cats[0] {
          if DummyName(c, cats[0]) == f {
            DummyNameInjective(c, v, cats[0]);
          }
        }
      }
    }
  }

  /** One column's share of the expansion: the label `f` appears once when
      the column yields it, never otherwise. */
  lemma LookupColumnDummies(df: Frame, c: string, f: string)
    requires Wf(df) && c in df.columns
    ensures Lookup(ColumnDummies(df, c), f) == if Produces(df, c, f) then Unique(ProducedValues(df, c, f)) else Absent
  {
    if IsTextColumn(df, c) {
      var cats := Categories(df.rows, c);
      LookupIndicatorColumns(df.rows, c, cats, f);
      if Produces(df, c, f) {
        var i :| 0 <= i < |df.rows| && Indicates(df.rows[i], c, f);
        var v := df.rows[i][c].s;
        assert v in cats;
        assert IndicatorValues(df.rows, c, v) == ProducedValues(df, c, f) by {
          forall j | 0 <= j < |df.rows|
            ensures IndicatorValues(df.rows, c, v)[j] == ProducedValues(df, c, f)[j]
          {
            if Indicates(df.rows[j], c, f) {
              DummyNameInjective(c, v, df.rows[j][c].s);
            }
          }
        }
      } else {
        forall v | v in cats ensures DummyName(c, v) != f {
          var i :| 0 <= i < |df.rows| && c in df.rows[i] && df.rows[i][c] == Text(v);
          assert !Indicates(df.rows[i], c, f);
        }
      }
    }
  }

  lemma {:induction false} LookupDummiesOf(df: Frame, cols: seq<string>, f: string)
    requires Wf(df) && Distinct(cols) && forall c :: c in cols ==> c in df.columns
    ensures NoneIn(df, cols, f) ==> Lookup(DummiesOf(df, cols), f) == Absent
    ensures !OneIn(df, cols, f) ==> Lookup(DummiesOf(df, cols), f) == Ambiguous
    ensures forall c :: c in cols && Produces(df, c, f) && OneIn(df, cols, f) ==>
              Lookup(DummiesOf(df, cols), f) == Unique(ProducedValues(df, c, f))
  {
    if cols != [] {
      var c0, rest := cols[0], cols[1..];
      assert Distinct(rest) by {
        forall i, j | 0 <= i < j < |rest| ensures rest[i] != rest[j] {
          assert rest[i] == cols[i + 1] && rest[j] == cols[j + 1];
        }
      }
      assert c0 !in rest by {
        forall j | 0 <= j < |rest| ensures rest[j] != c0 {
          assert rest[j] == cols[j + 1];
        }
      }
      LookupDummiesOf(df, rest, f);
      LookupColumnDummies(df, c0, f);
      LookupConcat(ColumnDummies(df, c0), DummiesOf(df, rest), f);
      if Produces(df, c0, f) && !NoneIn(df, rest, f) {
        var c1 :| c1 in rest && Produces(df, c1, f);
        assert c1 != c0;
        assert !OneIn(df, cols, f);
      }
      if !OneIn(df, cols, f) && OneIn(df, rest, f) {
        var c1, c2 :| c1 in cols && c2 in cols && Produces(df, c1, f) && Produces(df, c2, f) && c1 != c2;
        assert Produces(df, c0, f);
        assert !NoneIn(df, rest, f) by {
          if c1 == c0 { assert c2 in rest; } else { assert c1 in rest; }
        }
      }
    }
  }

  /** A producer that is the only one yields the column the rows encode. */
  lemma ProducerValues(df: Frame, c: string, f: string)
    requires Wf(df) && Produces(df, c, f) && OneIn(df, df.columns, f)
    ensures ProducedValues(df, c, f) == SpecColumn(df, f)
  {
    forall i | 0 <= i < |df.rows| ensures ProducedValues(df, c, f)[i] == Value(df.rows[i], f) {
      var row := df.rows[i];
      if IsTextColumn(df, c) {
        if f in row && row[f].IsNumber() {
          ColumnKind(df, i, f);
          assert Produces(df, f, f);
        } else if Indicates(row, c, f) {
        } else if exists c' :: Indicates(row, c', f) {
          var c' :| Indicates(row, c', f);
          ColumnKind(df, i, c');
          assert Produces(df, c', f);
        }
      } else {
        assert c == f;
        ColumnKind(df, i, c);
      }
    }
  }

  /** A label no column yields encodes as zero in every row. */
  lemma NoProducerValues(df: Frame, f: string)
    requires Wf(df) && NoneIn(df, df.columns, f)
    ensures SpecColumn(df, f) == Zeros(|df.rows|)
  {
    forall i | 0 <= i < |df.rows| ensures Value(df.rows[i], f) == 0.0 {
      var row := df.rows[i];
      if f in row && row[f].IsNumber() {
        ColumnKind(df, i, f);
        assert Produces(df, f, f);
      } else if exists c' :: Indicates(row, c', f) {
        var c' :| Indicates(row, c', f);
        ColumnKind(df, i, c');
        assert Produces(df, c', f);
      }
    }
  }

  /** After the loop of lines 11-13, an expected label is found exactly once
      with the column the rows encode, unless two columns yield it. */
  lemma DummiesLookupFilled(df: Frame, f: string)
    requires Wf(df)
    ensures Filled(Lookup(Dummies(df), f), true, |df.rows|) ==
              if OneIn(df, df.columns, f) then Unique(SpecColumn(df, f)) else Ambiguous
  {
    LookupDummiesOf(df, df.columns, f);
    if NoneIn(df, df.columns, f) {
      NoProducerValues(df, f);
    } else if OneIn(df, df.columns, f) {
      var c :| c in df.columns && Produces(df, c, f);
      ProducerValues(df, c, f);
    }
  }

  lemma UnambiguousCons(df: Frame, features: seq<string>)
    requires features != []
    ensures Unambiguous(df, features) <==> OneIn(df, df.columns, features[0]) && Unambiguous(df, features[1..])
  {
    if OneIn(df, df.columns, features[0]) && Unambiguous(df, features[1..]) {
      forall k | 0 <= k < |features| ensures OneIn(df, df.columns, features[k]) {
        if k > 0 {
          assert features[1..][k - 1] == features[k];
        }
      }
    }
    if Unambiguous(df, features) {
      forall k | 0 <= k < |features[1..]| ensures OneIn(df, df.columns, features[1..][k]) {
        assert features[1..][k] == features[k + 1];
      }
    }
  }

  lemma SelectFilled(df: Frame, cols: seq<Column>, features: seq<string>)
    requires Wf(df)
    requires forall k :: 0 <= k < |features| ==>
               Lookup(cols, features[k]) == Filled(Lookup(Dummies(df), features[k]), true, |df.rows|)
    ensures Select(cols, features) ==
              if Unambiguous(df, features) then Ok(SpecColumns(df, features)) else Err(AmbiguousFeature)
  {
    var found := seq(|features|, k requires 0 <= k < |features| =>
      if OneIn(df, df.columns, features[k]) then Unique(SpecColumn(df, features[k])) else Ambiguous);
    forall k | 0 <= k < |features| ensures Lookup(cols, features[k]) == found[k] {
      DummiesLookupFilled(df, features[k]);
    }
    SelectFound(cols, features, found);
    if Unambiguous(df, features) {
      assert Collect(found).value == SpecColumns(df, features);
    }
  }

  /** The columns of labels each found once, in order, or the ambiguity. */
  function Collect(found: seq<Found>): Result<seq<seq<real>>> {
    if forall k :: 0 <= k < |found| ==> found[k].Unique? then
      Ok(seq(|found|, k requires 0 <= k < |found| && found[k].Unique? => found[k].values))
    else Err(AmbiguousFeature)
  }

  lemma {:induction false} SelectFound(cols: seq<Column>, features: seq<string>, found: seq<Found>)
    requires |found| == |features|
    requires forall k :: 0 <= k < |features| ==> Lookup(cols, features[k]) == found[k] && !found[k].Absent?
    ensures Select(cols, features) == Collect(found)
  {
    if features != [] {
      forall k | 0 <= k < |features[1..]|
        ensures Lookup(cols, features[1..][k]) == found[1..][k] && !found[1..][k].Absent?
      {
        assert features[1..][k] == features[k + 1] && found[1..][k] == found[k + 1];
      }
      SelectFound(cols, features[1..], found[1..]);
      assert (forall k :: 0 <= k < |found| ==> found[k].Unique?) <==>
             found[0].Unique? && (forall k :: 0 <= k < |found[1..]| ==> found[1..][k].Unique?) by {
        if found[0].Unique? && (forall k :: 0 <= k < |found[1..]| ==> found[1..][k].Unique?) {
          forall k | 0 <= k < |found| ensures found[k].Unique? {
            if k > 0 {
              assert found[k] == found[1..][k - 1];
            }
          }
        }
      }
      if Collect(found).Ok? {
        assert Collect(found).value == [found[0].values] + Collect(found[1..]).value;
      }
    }
  }

  /**
   * Lines 9-14: expand, add each expected label still missing as a zero
   * column, then select the expected labels in order. The matrix is exactly
   * the row-wise `Encoding`.
   */
  method Encode(df: Frame, features: seq<string>) returns (r: Result<seq<seq<real>>>)
    requires Wf(df)
    ensures r == Encoding(df, features)
  {
    var n := |df.rows|;
    var encoded := Dummies(df);
    for k := 0 to |features|
      invariant forall f {:trigger Lookup(encoded, f)} ::
                  Lookup(encoded, f) == Filled(Lookup(Dummies(df), f), f in features[..k], n)
    {
      var col := features[k];
      assert features[..k + 1] == features[..k] + [col];
      if Lookup(encoded, col).Absent? {
        LookupConcat(encoded, [Column(col, Zeros(n))], col);
        forall f ensures Lookup(encoded + [Column(col, Zeros(n))], f) ==
                         Filled(Lookup(Dummies(df), f), f in features[..k + 1], n) {
          LookupConcat(encoded, [Column(col, Zeros(n))], f);
        }
        encoded := encoded + [Column(col, Zeros(n))];
      }
    }
    assert features[..|features|] == features;
    SelectFilled(df, encoded, features);
    var selected := Select(encoded, features);
    match selected
    case Err(e) =>
      r := Err(e);
    case Ok(columns) =>
      assert columns == SpecColumns(df, features);
      forall i | 0 <= i < n ensures Transpose(columns, n)[i] == EncodeRow(df.rows[i], features) {
        forall k | 0 <= k < |features| ensures Transpose(columns, n)[i][k] == Value(df.rows[i], features[k]) {
          assert columns[k] == SpecColumn(df, features[k]);
        }
      }
      assert Transpose(columns, n) == SpecMatrix(df, features);
      r := Ok(Transpose(columns, n));
  }

  // ---------------------------------------------------------------------
  // Properties of the encoding
  // ---------------------------------------------------------------------

  /** A row's vector does not depend on the rest of the batch: encoding the
      row alone gives its row of the batch's matrix. */
  lemma BatchIndependence(df: Frame, features: seq<string>, i: nat)
    requires Wf(df) && i < |df.rows|
    requires Encoding(df, features).Ok?
    ensures Wf(Frame(df.columns, [df.rows[i]]))
    ensures Encoding(Frame(df.columns, [df.rows[i]]), features) == Ok([Encoding(df, features).value[i]])
  {
    var solo := Frame(df.columns, [df.rows[i]]);
    assert solo.rows[0] == df.rows[i];
    forall c, f | Produces(solo, c, f) ensures Produces(df, c, f) {
      ColumnKind(df, i, c);
      ColumnKind(solo, 0, c);
      if IsTextColumn(solo, c) {
        assert Indicates(df.rows[i], c, f);
      }
    }
    assert Unambiguous(solo, features);
    assert SpecMatrix(solo, features) == [EncodeRow(df.rows[i], features)];
  }

  /** The matrix has exactly the expected columns: each row lists one entry
      per feature name, in the order of the names. */
  lemma EncodedShape(df: Frame, features: seq<string>, i: nat, k: nat)
    requires Wf(df) && Encoding(df, features).Ok?
    requires i < |df.rows| && k < |features|
    ensures |Encoding(df, features).value| == |df.rows|
    ensures |Encoding(df, features).value[i]| == |features|
    ensures Encoding(df, features).value[i][k] == Value(df.rows[i], features[k])
  {
  }

  /** An expected feature that no input column yields is 0 in every row,
      without an error: a numeric feature missing from the input included. */
  lemma MissingFeatureIsZero(df: Frame, features: seq<string>, k: nat)
    requires Wf(df) && Encoding(df, features).Ok? && k < |features|
    requires forall c :: c in df.columns ==> !Produces(df, c, features[k])
    ensures forall i :: 0 <= i < |df.rows| ==> Encoding(df, features).value[i][k] == 0.0
  {
    NoProducerValues(df, features[k]);
    forall i | 0 <= i < |df.rows| ensures Encoding(df, features).value[i][k] == 0.0 {
      assert SpecColumn(df, features[k])[i] == 0.0;
    }
  }

  /** A numeric column named in the schema passes through unchanged. */
  lemma NumericPassThrough(df: Frame, features: seq<string>, k: nat, i: nat)
    requires Wf(df) && Encoding(df, features).Ok? && k < |features| && i < |df.rows|
    requires features[k] in df.rows[i] && df.rows[i][features[k]].IsNumber()
    ensures Encoding(df, features).value[i][k] == df.rows[i][features[k]].Number()
  {
  }

  /** The indicator of category `v` of a text column `c` is 1 in a row exactly
      when that row's `c` is `v`, as long as no other column yields the
      same label. */
  lemma IndicatorIff(df: Frame, features: seq<string>, k: nat, i: nat, c: string, v: string)
    requires Wf(df) && Encoding(df, features).Ok? && k < |features| && i < |df.rows|
    requires c in df.columns && IsTextColumn(df, c) && features[k] == DummyName(c, v)
    requires forall c' :: c' in df.columns && c' != c ==> !Produces(df, c', features[k])
    ensures Encoding(df, features).value[i][k] == 1.0 <==> df.rows[i][c] == Text(v)
    ensures Encoding(df, features).value[i][k] == 0.0 <==> df.rows[i][c] != Text(v)
  {
    var row, f := df.rows[i], features[k];
    ColumnKind(df, i, c);
    if f in row && row[f].IsNumber() {
      ColumnKind(df, i, f);
      assert Produces(df, f, f);
      assert false;
    }
    if row[c] == Text(v) {
      assert Indicates(row, c, f);
    } else if exists c' :: Indicates(row, c', f) {
      var c' :| Indicates(row, c', f);
      ColumnKind(df, i, c');
      assert Produces(df, c', f);
      DummyNameInjective(c, v, row[c].s);
      assert false;
    }
  }

  /** A row whose text column indicates an expected feature has a 1 there. */
  lemma IndicatedIsOne(df: Frame, features: seq<string>, k: nat, i: nat, c: string)
    requires Wf(df) && Encoding(df, features).Ok? && k < |features| && i < |df.rows|
    requires Indicates(df.rows[i], c, features[k])
    ensures Encoding(df, features).value[i][k] == 1.0
  {
    var row, f := df.rows[i], features[k];
    ColumnKind(df, i, c);
    assert Produces(df, c, f);
    if f in row && row[f].IsNumber() {
      ColumnKind(df, i, f);
      assert Produces(df, f, f);
      assert false;
    }
  }

  /** A batch whose only text column is `t`, and whose indicator labels are
      not labels of the batch, never makes a feature ambiguous. */
  lemma OneTextColumn(df: Frame, features: seq<string>, t: string)
    requires Wf(df)
    requires forall c :: c in df.columns && c != t ==> !IsTextColumn(df, c)
    requires forall i :: 0 <= i < |df.rows| && t in df.rows[i] && df.rows[i][t].Text? ==>
               DummyName(t, df.rows[i][t].s) !in df.columns
    ensures Unambiguous(df, features)
  {
  }

  /** A worked example: against the features Course_Design,
      Course_Management and Age, a Design student aged 19 encodes as
      [1, 0, 19], and a Journalism student aged 20, whose category has no
      feature, as [0, 0, 20]. */
  lemma TwoStudents()
    ensures var df := Frame([CourseColumn, "Age"],
                            [map[CourseColumn := Text("Design"), "Age" := Int(19)],
                             map[CourseColumn := Text("Journalism"), "Age" := Int(20)]]);
      Encoding(df, ["Course_Design", "Course_Management", "Age"]) == Ok([[1.0, 0.0, 19.0], [0.0, 0.0, 20.0]])
  {
    var df := Frame([CourseColumn, "Age"],
                    [map[CourseColumn := Text("Design"), "Age" := Int(19)],
                     map[CourseColumn := Text("Journalism"), "Age" := Int(20)]]);
    var features := ["Course_Design", "Course_Management", "Age"];
    assert Wf(df);
    forall i | 0 <= i < |df.rows| && CourseColumn in df.rows[i] && df.rows[i][CourseColumn].Text?
      ensures DummyName(CourseColumn, df.rows[i][CourseColumn].s) !in df.columns
    {
    }
    OneTextColumn(df, features, CourseColumn);
    StudentValues(df.rows[0], "Design", 19, features, [1.0, 0.0, 19.0]);
    StudentValues(df.rows[1], "Journalism", 20, features, [0.0, 0.0, 20.0]);
    assert SpecMatrix(df, features) == [EncodeRow(df.rows[0], features), EncodeRow(df.rows[1], features)];
  }

  /** The encoded vector of a record holding only a course and an age. */
  lemma StudentValues(row: Row, course: string, age: int, features: seq<string>, v: seq<real>)
    requires row == map[CourseColumn := Text(course), "Age" := Int(age)]
    requires features == ["Course_Design", "Course_Management", "Age"]
    requires v == [if course == "Design" then 1.0 else 0.0, if course == "Management" then 1.0 else 0.0, age as real]
    ensures EncodeRow(row, features) == v
  {
    forall k | 0 <= k < 2 ensures Value(row, features[k]) == v[k] {
      var cat := if k == 0 then "Design" else "Management";
      assert features[k] == DummyName(CourseColumn, cat);
      if course == cat {
        assert Indicates(row, CourseColumn, features[k]);
      } else {
        forall c | Indicates(row, c, features[k]) ensures false {
          assert c == CourseColumn;
          DummyNameInjective(CourseColumn, course, cat);
        }
      }
    }
    assert Value(row, features[2]) == v[2];
  }

  /** The labels of an expanded table. */
  function Names(cols: seq<Column>): (names: seq<string>)
    ensures |names| == |cols| && forall k :: 0 <= k < |cols| ==> names[k] == cols[k].name
  {
    seq(|cols|, k requires 0 <= k < |cols| => cols[k].name)
  }

  lemma {:induction false} FoundIsNamed(cols: seq<Column>, f: string)
    requires !Lookup(cols, f).Absent?
    ensures f in Names(cols)
  {
    if cols[0].name != f {
      FoundIsNamed(cols[1..], f);
      assert Names(cols[1..]) == Names(cols)[1..];
    } else {
      assert Names(cols)[0] == f;
    }
  }

  /** A column that yields none of the expected labels is dropped without a
      trace: removing it from the input leaves the matrix as it is. */
  lemma DroppedColumnIgnored(df: Frame, features: seq<string>, g: string)
    requires Wf(df) && g in df.columns
    requires forall k :: 0 <= k < |features| ==> !Produces(df, g, features[k])
    ensures Wf(Without(df, g))
    ensures Encoding(Without(df, g), features) == Encoding(df, features)
  {
    WithoutWf(df, g);
    WithoutUnambiguous(df, features, g);
    WithoutMatrix(df, features, g);
  }

  lemma WithoutUnambiguous(df: Frame, features: seq<string>, g: string)
    requires Wf(df) && g in df.columns
    requires forall k :: 0 <= k < |features| ==> !Produces(df, g, features[k])
    ensures Unambiguous(Without(df, g), features) <==> Unambiguous(df, features)
  {
    var d := Without(df, g);
    forall k | 0 <= k < |features|
      ensures OneIn(d, d.columns, features[k]) <==> OneIn(df, df.columns, features[k])
    {
      forall c | c != g ensures Produces(d, c, features[k]) <==> Produces(df, c, features[k]) {
        WithoutProduces(df, g, c, features[k]);
      }
    }
  }

  lemma WithoutMatrix(df: Frame, features: seq<string>, g: string)
    requires Wf(df) && g in df.columns
    requires forall k :: 0 <= k < |features| ==> !Produces(df, g, features[k])
    ensures SpecMatrix(Without(df, g), features) == SpecMatrix(df, features)
  {
    var d := Without(df, g);
    forall i | 0 <= i < |df.rows| ensures EncodeRow(d.rows[i], features) == EncodeRow(df.rows[i], features) {
      forall k | 0 <= k < |features| ensures Value(d.rows[i], features[k]) == Value(df.rows[i], features[k]) {
        WithoutValue(df, g, i, features[k]);
      }
    }
  }

  lemma WithoutProduces(df: Frame, g: string, c: string, f: string)
    requires Wf(df) && c != g
    ensures Produces(Without(df, g), c, f) <==> Produces(df, c, f)
  {
    var d := Without(df, g);
    if c in df.columns {
      assert IsTextColumn(d, c) <==> IsTextColumn(df, c) by {
        if IsTextColumn(df, c) {
          var i :| 0 <= i < |df.rows| && c in df.rows[i] && df.rows[i][c].Text?;
          assert d.rows[i][c] == df.rows[i][c];
        }
      }
      if IsTextColumn(df, c) && Produces(df, c, f) {
        var i :| 0 <= i < |df.rows| && Indicates(df.rows[i], c, f);
        assert Indicates(d.rows[i], c, f);
      }
    }
  }

  lemma WithoutValue(df: Frame, g: string, i: nat, f: string)
    requires Wf(df) && g in df.columns && i < |df.rows| && !Produces(df, g, f)
    ensures Value(Without(df, g).rows[i], f) == Value(df.rows[i], f)
  {
    var row := df.rows[i];
    var r := Without(df, g).rows[i];
    assert r == row - {g};
    ColumnKind(df, i, g);
    assert !Indicates(row, g, f);
    assert f == g ==> row[g].Text?;
    assert (exists c :: Indicates(r, c, f)) <==> (exists c :: Indicates(row, c, f)) by {
      if exists c :: Indicates(row, c, f) {
        var c :| Indicates(row, c, f);
        assert c != g && r[c] == row[c];
        assert Indicates(r, c, f);
      }
      if exists c :: Indicates(r, c, f) {
        var c :| Indicates(r, c, f);
        assert r[c] == row[c];
        assert Indicates(row, c, f);
      }
    }
  }

  /** The frame without column `g`. */
  function Without(df: Frame, g: string): Frame {
    Frame(Remove(df.columns, g), seq(|df.rows|, i requires 0 <= i < |df.rows| => df.rows[i] - {g}))
  }

  function Remove(cols: seq<string>, g: string): (r: seq<string>)
    ensures forall c :: c in r <==> c in cols && c != g
    ensures Distinct(cols) ==> Distinct(r)
  {
    if cols == [] then []
    else if cols[0] == g then Remove(cols[1..], g)
    else
      var rest := Remove(cols[1..], g);
      assert Distinct(cols) ==> cols[0] !in cols[1..];
      assert Distinct(cols) ==> Distinct(cols[1..]) by {
        if Distinct(cols) {
          forall i, j | 0 <= i < j < |cols[1..]| ensures cols[1..][i] != cols[1..][j] {
            assert cols[1..][i] == cols[i + 1] && cols[1..][j] == cols[j + 1];
          }
        }
      }
      [cols[0]] + rest
  }

  lemma WithoutWf(df: Frame, g: string)
    requires Wf(df)
    ensures Wf(Without(df, g))
  {
  }
}
