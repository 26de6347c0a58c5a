/**
 * Tables of student records as the application holds them in pandas
 * DataFrames: an ordered list of column labels and one row per record, each
 * row mapping a label to a scalar cell. The row index is positional (0, 1, ...),
 * which is what both `read_csv` and the one-row manual-entry frame produce.
 */
module Frames {

  /** A scalar held by one cell: an integer, a float or a piece of text. */
  datatype Cell = Int(i: int) | Real(x: real) | Text(s: string) {
    predicate IsNumber() { !Text? }

    function Number(): real
      requires IsNumber()
    {
      if Int? then i as real else x
    }
  }

  type Row = map<string, Cell>

  datatype Frame = Frame(columns: seq<string>, rows: seq<Row>)

  /** The failures the core can raise: a KeyError on a missing label, a
      TypeError comparing text with a number, scikit-learn's refusal of a
      matrix whose column labels are not exactly the fitted feature names,
      and its refusal of a matrix with no rows. */
  datatype Error = MissingColumn(name: string) | NotNumeric(name: string) | AmbiguousFeature | NoSamples

  datatype Result<T> = Ok(value: T) | Err(error: Error)

  datatype Option<T> = None | Some(value: T)

  /**
   * The floating-point services of Python and numpy that the core relies on
   * and that are not modelled bit for bit: `str` of a float, and
   * `round(1)` of a percentage, given as a number of tenths.
   */
  datatype Numerics = Numerics(floatText: real -> string, tenths: real -> int)

  predicate Distinct<T(==)>(s: seq<T>) {
    forall i, j :: 0 <= i < j < |s| ==> s[i] != s[j]
  }

  /**
   * What every DataFrame satisfies: distinct column labels, every row holds
   * exactly those labels, and each column has one dtype, so its cells are
   * either all text or all numbers.
   */
  ghost predicate Wf(df: Frame) {
    && Distinct(df.columns)
    && (forall i, c :: 0 <= i < |df.rows| ==> (c in df.rows[i] <==> c in df.columns))
    && (forall i, j, c ::
          0 <= i < |df.rows| && 0 <= j < |df.rows| && c in df.columns ==>
            df.rows[i][c].Text? == df.rows[j][c].Text?)
  }

  /** True when column `c` has a text dtype, i.e. holds text in some row. */
  predicate IsTextColumn(df: Frame, c: string) {
    exists i :: 0 <= i < |df.rows| && c in df.rows[i] && df.rows[i][c].Text?
  }

  /** In a well-formed frame, any one row tells the dtype of a column. */
  lemma ColumnKind(df: Frame, i: nat, c: string)
    requires Wf(df) && i < |df.rows| && c in df.rows[i]
    ensures c in df.columns
    ensures IsTextColumn(df, c) <==> df.rows[i][c].Text?
  {
    if IsTextColumn(df, c) {
      var j :| 0 <= j < |df.rows| && c in df.rows[j] && df.rows[j][c].Text?;
    }
  }

  /** `df[name] = cells`: overwrite the column in place when the label exists,
      otherwise append it as the last column. */
  function SetColumn(df: Frame, name: string, cells: seq<Cell>): (r: Frame)
    requires |cells| == |df.rows|
    ensures |r.rows| == |df.rows|
  {
    Frame(if name in df.columns then df.columns else df.columns + [name],
          seq(|df.rows|, i requires 0 <= i < |df.rows| => df.rows[i][name := cells[i]]))
  }

  /** Writing a column whose cells share one kind keeps a frame well formed,
      and leaves every other column's cells as they were. */
  lemma SetColumnWf(df: Frame, name: string, cells: seq<Cell>)
    requires Wf(df) && |cells| == |df.rows|
    requires forall i, j :: 0 <= i < |cells| && 0 <= j < |cells| ==> cells[i].Text? == cells[j].Text?
    ensures Wf(SetColumn(df, name, cells))
    ensures forall i, c :: 0 <= i < |df.rows| && c in df.rows[i] && c != name ==>
              c in SetColumn(df, name, cells).rows[i] && SetColumn(df, name, cells).rows[i][c] == df.rows[i][c]
  {
    var r := SetColumn(df, name, cells);
    if name !in df.columns {
      forall i, j | 0 <= i < j < |r.columns| ensures r.columns[i] != r.columns[j] {
        if j < |df.columns| {
          assert r.columns[i] == df.columns[i] && r.columns[j] == df.columns[j];
        } else {
          assert r.columns[j] == name && r.columns[i] == df.columns[i];
        }
      }
    }
  }

  function DigitChar(d: nat): char
    requires d < 10
  {
    "0123456789"[d]
  }

  predicate AllDigits(s: string) {
    forall k :: 0 <= k < |s| ==> '0' <= s[k] <= '9'
  }

  /** Decimal digits of a natural number, most significant first, without
      leading zeros. */
  function DigitsText(n: nat): (s: string)
    ensures |s| > 0 && AllDigits(s)
    decreases n
  {
    if n < 10 then [DigitChar(n)] else DigitsText(n / 10) + [DigitChar(n % 10)]
  }

  /** Python's `str` of an integer. */
  function IntText(i: int): string {
    if i < 0 then "-" + DigitsText(-i) else DigitsText(i)
  }

  /** The number a string of decimal digits denotes. */
  function DigitsValue(s: string): nat
    requires AllDigits(s)
  {
    if s == [] then 0 else 10 * DigitsValue(s[..|s| - 1]) + (s[|s| - 1] - '0') as nat
  }

  /** Reads an optionally signed string of decimal digits as an integer
      (anything else reads as 0); the inverse of `IntText`. */
  function ParseInt(s: string): int {
    if |s| > 0 && s[0] == '-' && AllDigits(s[1..]) then -(DigitsValue(s[1..]) as int)
    else if AllDigits(s) then DigitsValue(s)
    else 0
  }

  lemma {:induction false} DigitsRoundTrip(n: nat)
    ensures DigitsValue(DigitsText(n)) == n
    decreases n
  {
    if n >= 10 {
      DigitsRoundTrip(n / 10);
      var s := DigitsText(n);
      assert s[..|s| - 1] == DigitsText(n / 10);
    }
  }

  /** `str` of an integer round-trips, so distinct course codes give
      distinct category names. */
  lemma IntTextRoundTrip(i: int)
    ensures ParseInt(IntText(i)) == i
  {
    var s := IntText(i);
    if i < 0 {
      var d := DigitsText(-i);
      assert s[1..] == d;
      DigitsRoundTrip(-i);
    } else {
      assert s[0] != '-';
      DigitsRoundTrip(i);
    }
  }

  /** The first of `names` that is not among `columns`, if any. */
  function FirstMissing(names: seq<string>, columns: seq<string>): (r: Option<string>)
    ensures r.None? <==> forall n :: n in names ==> n in columns
    ensures r.Some? ==> r.value in names && r.value !in columns
  {
    if names == [] then None
    else if names[0] !in columns then Some(names[0])
    else FirstMissing(names[1..], columns)
  }

  /** `astype(str)` of one cell. */
  function ToText(c: Cell, num: Numerics): string {
    match c
    case Int(i) => IntText(i)
    case Real(x) => num.floatText(x)
    case Text(s) => s
  }
}
