/** The part of a pandas DataFrame the feature step relies on: an ordered
    list of distinct column labels and rows that hold a cell for each of
    them, with column assignment and column selection. */
module Frames {

  /** A cell. Numeric cells are opaque tokens that are only passed along;
      Time is a UTC timestamp in milliseconds since the epoch (a parsed
      "Formatted Date"); Null stands for None, NaN and NaT alike. */
  datatype Value = Null | Num(token: string) | Str(text: string) | Int(n: int) | Time(millis: int)

  type Row = map<string, Value>

  predicate Distinct(s: seq<string>) {
    forall i, j :: 0 <= i < j < |s| ==> s[i] != s[j]
  }

  datatype Frame = Frame(columns: seq<string>, rows: seq<Row>) {
    /** Every DataFrame: unique labels, and every row has exactly those cells. */
    predicate Valid() {
      Distinct(columns)
      && forall i :: 0 <= i < |rows| ==> rows[i].Keys == set c | c in columns
    }
  }

  /** A column of n nulls, what `df[col] = None` stores. */
  function Nulls(n: nat): (col: seq<Value>)
    ensures |col| == n && forall i :: 0 <= i < n ==> col[i] == Null
  {
    seq(n, _ => Null)
  }

  /** `df[name]`, for a label the frame has. */
  function Column(df: Frame, name: string): (col: seq<Value>)
    requires df.Valid() && name in df.columns
    ensures |col| == |df.rows|
    ensures forall i :: 0 <= i < |col| ==> col[i] == df.rows[i][name]
  {
    seq(|df.rows|, i requires 0 <= i < |df.rows| => df.rows[i][name])
  }

  /** `df[name] = values`: an existing column keeps its place, a new one is
      appended after the last; no other cell changes. */
  function Assign(df: Frame, name: string, values: seq<Value>): (r: Frame)
    requires df.Valid() && |values| == |df.rows|
    ensures r.Valid() && |r.rows| == |df.rows|
    ensures r.columns == if name in df.columns then df.columns else df.columns + [name]
    ensures forall i :: 0 <= i < |r.rows| ==> r.rows[i][name] == values[i]
    ensures forall i, c :: 0 <= i < |r.rows| && c in df.columns && c != name ==>
              r.rows[i][c] == df.rows[i][c]
  {
    var cols := if name in df.columns then df.columns else df.columns + [name];
    Frame(cols, seq(|df.rows|, i requires 0 <= i < |df.rows| => df.rows[i][name := values[i]]))
  }

  /** `df[cols]`: the listed columns, in the listed order, every row kept. */
  function Select(df: Frame, cols: seq<string>): (r: Frame)
    requires df.Valid() && Distinct(cols)
    requires forall j :: 0 <= j < |cols| ==> cols[j] in df.columns
    ensures r.Valid() && r.columns == cols && |r.rows| == |df.rows|
    ensures forall i, c :: 0 <= i < |r.rows| && c in cols ==> r.rows[i][c] == df.rows[i][c]
  {
    Frame(cols, seq(|df.rows|, i requires 0 <= i < |df.rows| => map c | c in cols :: df.rows[i][c]))
  }
}
