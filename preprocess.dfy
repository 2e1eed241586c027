/** Feature engineering shared by training and prediction: derive calendar
    fields from "Formatted Date", then project every row onto the feature
    columns in their fixed order. */
module Preprocess {
  import opened Frames
  import opened Schema
  import opened Calendar
  import opened Timestamp

  /** A frame, or the KeyError pandas raises on reading a missing column. */
  datatype Result<T> = Ok(value: T) | KeyError(column: string)

  datatype TimeField = Year | Month | Day | Hour | Weekday

  /** The field a derived column holds. */
  function FieldNamed(c: string): TimeField
    requires c in TimeCols
  {
    if c == "year" then Year
    else if c == "month" then Month
    else if c == "day" then Day
    else if c == "hour" then Hour
    else Weekday
  }

  /** pd.to_datetime(..., errors="coerce", utc=True) on one cell: a string
      in the timestamp layout becomes its UTC instant, anything else NaT. */
  function ToDatetime(v: Value): (r: Value)
    ensures r.Null? || r.Time?
    ensures r.Time? <==> v.Time? || (v.Str? && ParseInstant(v.text).Some?)
    ensures v.Time? ==> r == v
    ensures v.Str? && r.Time? ==> ParseInstant(v.text) == Some(r.millis)
  {
    match v
    case Str(s) => (match ParseInstant(s) case Some(ms) => Time(ms) case None => Null)
    case Time(_) => v
    case _ => Null
  }

  /** A `.dt` accessor on one cell: the field of its UTC time, or null for NaT. */
  function Derive(v: Value, f: TimeField): (r: Value)
    ensures r.Null? <==> !v.Time?
    ensures v.Time? ==> r.Int?
    ensures v.Time? && f == Month ==> 1 <= r.n <= 12
    ensures v.Time? && f == Day ==> 1 <= r.n <= 31
    ensures v.Time? && f == Hour ==> 0 <= r.n <= 23
    ensures v.Time? && f == Weekday ==> r.n == WeekdayOfDate(UtcOf(v.millis).date)
  {
    match v
    case Time(ms) =>
      DayOfWeekAgreesWithCalendar(ms);
      var t := UtcOf(ms);
      Int(match f
          case Year => t.date.year
          case Month => t.date.month
          case Day => t.date.day
          case Hour => t.hour
          case Weekday => DayOfWeek(ms))
    case _ => Null
  }

  /** The vectorised forms pandas applies to a whole column: one cell per
      input cell. Every string is read as if the format pandas infers for
      the column were the timestamp layout, which is the case whenever the
      column's first non-null string is in that layout. A converted column
      holds only timestamps and NaT, and a derived column is null exactly
      where the timestamp is NaT. */
  function ToDatetimeColumn(col: seq<Value>): (r: seq<Value>)
    ensures |r| == |col|
    ensures forall i :: 0 <= i < |col| ==> r[i] == ToDatetime(col[i])
    ensures forall i :: 0 <= i < |r| ==> r[i].Null? || r[i].Time?
  {
    seq(|col|, i requires 0 <= i < |col| => ToDatetime(col[i]))
  }

  function DeriveColumn(col: seq<Value>, f: TimeField): (r: seq<Value>)
    ensures |r| == |col|
    ensures forall i :: 0 <= i < |col| ==> r[i] == Derive(col[i], f)
    ensures forall i :: 0 <= i < |col| ==> (r[i].Null? <==> !col[i].Time?)
  {
    seq(|col|, i requires 0 <= i < |col| => Derive(col[i], f))
  }

  /** cols followed by those of extra it lacks, in extra's order: the
      columns after assigning each of extra in turn. */
  function AppendMissing(cols: seq<string>, extra: seq<string>): (r: seq<string>)
    ensures |cols| <= |r| && r[..|cols|] == cols
    ensures forall c :: c in r <==> c in cols || c in extra
    ensures Distinct(cols) ==> Distinct(r)
    decreases |extra|
  {
    if extra == [] then cols
    else
      var next := if extra[0] in cols then cols else cols + [extra[0]];
      assert next[..|cols|] == cols;
      assert forall c :: c in extra <==> c == extra[0] || c in extra[1..];
      var r := AppendMissing(next, extra[1..]);
      assert r[..|cols|] == r[..|next|][..|cols|];
      r
  }

  /** Assigning one more column x after extra: x is appended when the
      columns so far lack it. */
  lemma {:induction false} AppendMissingSnoc(cols: seq<string>, extra: seq<string>, x: string)
    ensures var r := AppendMissing(cols, extra);
      AppendMissing(cols, extra + [x]) == if x in r then r else r + [x]
    decreases |extra|
  {
    if extra == [] {
      assert [x][1..] == [];
    } else {
      var next := if extra[0] in cols then cols else cols + [extra[0]];
      assert (extra + [x])[0] == extra[0] && (extra + [x])[1..] == extra[1..] + [x];
      AppendMissingSnoc(next, extra[1..], x);
    }
  }

  /** A row after "Formatted Date" is parsed and the derived columns in
      done are assigned: the parsed timestamp, the fields derived from it,
      and every other cell as it was. */
  function TimedRowUpTo(row: Row, done: seq<string>): Row
    requires FormattedDate in row
    requires forall c :: c in done ==> c in TimeCols
  {
    var stamp := ToDatetime(row[FormattedDate]);
    map c | c in row.Keys + (set x | x in done) ::
      if c == FormattedDate then stamp
      else if c in done then Derive(stamp, FieldNamed(c))
      else row[c]
  }

  /** The row add_time_features makes of an input row. */
  function TimedRow(row: Row): Row
    requires FormattedDate in row
  {
    TimedRowUpTo(row, TimeCols)
  }

  /** A timed row holds the input's cells and the five derived ones: the
      parsed timestamp, each derived column read from it (replacing any
      raw cell of that name), and every other cell as it was. */
  lemma TimedRowCells(row: Row)
    requires FormattedDate in row
    ensures var t := TimedRow(row);
      && t.Keys == row.Keys + set c | c in TimeCols
      && t[FormattedDate] == ToDatetime(row[FormattedDate])
      && (forall c :: c in TimeCols ==> t[c] == Derive(t[FormattedDate], FieldNamed(c)))
      && (forall c :: c in row && c != FormattedDate && c !in TimeCols ==> t[c] == row[c])
  {
    assert FormattedDate !in TimeCols;
  }

  /** The cell that build_feature_frame gives column c of a row: the timed
      row's cell, or null for a column the timed row lacks. */
  function FeatureCell(row: Row, c: string): Value
    requires FormattedDate in row
  {
    var timed := TimedRow(row);
    if c in timed then timed[c] else Null
  }

  /** The cells build_feature_frame gives a row in the columns cols. */
  function FeatureCells(row: Row, cols: seq<string>): Row
    requires FormattedDate in row
  {
    map c | c in cols :: FeatureCell(row, c)
  }

  function FeatureRow(row: Row): (r: Row)
    requires FormattedDate in row
    ensures "year" in r && "month" in r && "day" in r && "hour" in r && "dayofweek" in r
  {
    TimeColsAreFeatures();
    FeatureCells(row, FeatureCols)
  }

  /** What build_feature_frame returns for a frame that has "Formatted Date". */
  function FeatureFrame(df: Frame): (r: Frame)
    requires df.Valid() && FormattedDate in df.columns
    ensures r.Valid() && r.columns == FeatureCols && |r.rows| == |df.rows|
    ensures forall i :: 0 <= i < |df.rows| ==> r.rows[i] == FeatureRow(df.rows[i])
  {
    FeatureColsDistinct();
    Frame(FeatureCols, seq(|df.rows|, i requires 0 <= i < |df.rows| => FeatureRow(df.rows[i])))
  }

  /** The derived cells of a feature row, read from its parsed timestamp. */
  lemma DerivedCells(row: Row)
    requires FormattedDate in row
    ensures var stamp, out := ToDatetime(row[FormattedDate]), FeatureRow(row);
      && out["year"] == Derive(stamp, Year) && out["month"] == Derive(stamp, Month)
      && out["day"] == Derive(stamp, Day) && out["hour"] == Derive(stamp, Hour)
      && out["dayofweek"] == Derive(stamp, Weekday)
  {
    DerivedCell(row, "year");
    DerivedCell(row, "month");
    DerivedCell(row, "day");
    DerivedCell(row, "hour");
    DerivedCell(row, "dayofweek");
  }

  lemma DerivedCell(row: Row, c: string)
    requires FormattedDate in row && c in TimeCols
    ensures FeatureCell(row, c) == Derive(ToDatetime(row[FormattedDate]), FieldNamed(c))
  {
    assert c != FormattedDate;
  }

  /** `df["Formatted Date"] = pd.to_datetime(df["Formatted Date"], ...)`. */
  function ParseFormattedDate(g: Frame): (r: Frame)
    requires g.Valid() && FormattedDate in g.columns
    ensures r.Valid() && r.columns == g.columns && |r.rows| == |g.rows|
  {
    Assign(g, FormattedDate, ToDatetimeColumn(Column(g, FormattedDate)))
  }

  /** `df[c] = df["Formatted Date"].dt.<field>` for a derived column c. */
  function AssignField(g: Frame, c: string): (r: Frame)
    requires g.Valid() && FormattedDate in g.columns && c in TimeCols
    ensures r.Valid() && FormattedDate in r.columns && |r.rows| == |g.rows|
  {
    Assign(g, c, DeriveColumn(Column(g, FormattedDate), FieldNamed(c)))
  }

  /** The frame add_time_features holds once "Formatted Date" is parsed and
      the derived columns in done are assigned. */
  ghost predicate TimedUpTo(g: Frame, df: Frame, done: seq<string>)
    requires df.Valid() && FormattedDate in df.columns
    requires forall c :: c in done ==> c in TimeCols
  {
    && g.Valid() && |g.rows| == |df.rows| && FormattedDate in g.columns
    && forall i :: 0 <= i < |g.rows| ==> g.rows[i] == TimedRowUpTo(df.rows[i], done)
  }

  /** Parsing "Formatted Date" of a row gives the timed row with nothing derived yet. */
  lemma ParsedRow(row: Row)
    requires FormattedDate in row
    ensures row[FormattedDate := ToDatetime(row[FormattedDate])] == TimedRowUpTo(row, [])
  {
    var got, want := row[FormattedDate := ToDatetime(row[FormattedDate])], TimedRowUpTo(row, []);
    assert got.Keys == want.Keys;
  }

  /** Deriving column c from the parsed timestamp of a row extends done by c. */
  lemma DerivedRow(row: Row, done: seq<string>, c: string)
    requires FormattedDate in row && c in TimeCols
    requires forall x :: x in done ==> x in TimeCols
    ensures var t := TimedRowUpTo(row, done);
      FormattedDate in t && t[c := Derive(t[FormattedDate], FieldNamed(c))] == TimedRowUpTo(row, done + [c])
  {
    var t := TimedRowUpTo(row, done);
    var got, want := t[c := Derive(t[FormattedDate], FieldNamed(c))], TimedRowUpTo(row, done + [c]);
    assert forall x :: x in done + [c] <==> x in done || x == c;
    assert got.Keys == want.Keys;
    forall x | x in got
      ensures got[x] == want[x]
    {
      if x == c {
        assert FormattedDate != c;
      }
    }
  }

  /** Parsing "Formatted Date" in place starts the derivation. */
  lemma ParseTimestampColumn(df: Frame)
    requires df.Valid() && FormattedDate in df.columns
    ensures TimedUpTo(ParseFormattedDate(df), df, [])
  {
    var g := ParseFormattedDate(df);
    forall i | 0 <= i < |g.rows|
      ensures g.rows[i] == TimedRowUpTo(df.rows[i], [])
    {
      ParsedRow(df.rows[i]);
    }
  }

  /** Assigning derived column c from the parsed timestamp column. */
  lemma AssignTimeColumn(df: Frame, g: Frame, done: seq<string>, c: string)
    requires df.Valid() && FormattedDate in df.columns
    requires forall x :: x in done ==> x in TimeCols
    requires c in TimeCols && TimedUpTo(g, df, done)
    ensures TimedUpTo(AssignField(g, c), df, done + [c])
  {
    var h := AssignField(g, c);
    forall i | 0 <= i < |h.rows|
      ensures h.rows[i] == TimedRowUpTo(df.rows[i], done + [c])
    {
      assert h.rows[i] == g.rows[i][c := Derive(g.rows[i][FormattedDate], FieldNamed(c))];
      DerivedRow(df.rows[i], done, c);
    }
  }

  /** The derived columns cs assigned one after another. */
  function AssignFields(g: Frame, cs: seq<string>): (r: Frame)
    requires g.Valid() && FormattedDate in g.columns
    requires forall c :: c in cs ==> c in TimeCols
    ensures r.Valid() && FormattedDate in r.columns && |r.rows| == |g.rows|
    decreases |cs|
  {
    if cs == [] then g else AssignFields(AssignField(g, cs[0]), cs[1..])
  }

  lemma AssignFieldsInOrder(g: Frame)
    requires g.Valid() && FormattedDate in g.columns
    ensures AssignFields(g, TimeCols) == AssignField(AssignField(AssignField(AssignField(AssignField(
      g, "year"), "month"), "day"), "hour"), "dayofweek")
  {
    var cs := TimeCols;
    assert cs[0] == "year" && cs[1..][0] == "month" && cs[1..][1..][0] == "day";
    assert cs[1..][1..][1..][0] == "hour" && cs[1..][1..][1..][1..][0] == "dayofweek";
    assert cs[1..][1..][1..][1..][1..] == [];
  }

  /** Assigning columns keeps existing ones in place and appends new ones. */
  lemma {:induction false} AssignFieldsColumns(g: Frame, cs: seq<string>)
    requires g.Valid() && FormattedDate in g.columns
    requires forall c :: c in cs ==> c in TimeCols
    ensures AssignFields(g, cs).columns == AppendMissing(g.columns, cs)
    decreases |cs|
  {
    if cs != [] {
      AssignFieldsColumns(AssignField(g, cs[0]), cs[1..]);
    }
  }

  /** Moving the head of cs onto done keeps the concatenation. */
  lemma SplitFirst(done: seq<string>, cs: seq<string>)
    requires cs != []
    ensures done + [cs[0]] + cs[1..] == done + cs
  {
    assert cs == [cs[0]] + cs[1..];
  }

  lemma {:induction false} AssignTimeColumns(df: Frame, g: Frame, done: seq<string>, cs: seq<string>)
    requires df.Valid() && FormattedDate in df.columns
    requires forall x :: x in done ==> x in TimeCols
    requires forall x :: x in cs ==> x in TimeCols
    requires TimedUpTo(g, df, done)
    ensures TimedUpTo(AssignFields(g, cs), df, done + cs)
    decreases |cs|
  {
    if cs == [] {
      assert done + cs == done;
    } else {
      var h, next := AssignField(g, cs[0]), done + [cs[0]];
      assert TimedUpTo(h, df, next) by {
        AssignTimeColumn(df, g, done, cs[0]);
      }
      assert TimedUpTo(AssignFields(h, cs[1..]), df, next + cs[1..]) by {
        assert forall x :: x in next ==> x in TimeCols;
        AssignTimeColumns(df, h, next, cs[1..]);
      }
      assert AssignFields(g, cs) == AssignFields(h, cs[1..]);
      SplitFirst(done, cs);
    }
  }

  /** The frame add_time_features returns for df: the input's columns with
      the missing derived ones appended, and each row the timed input row. */
  ghost predicate TimedFrame(base: Frame, df: Frame)
    requires df.Valid() && FormattedDate in df.columns
  {
    && base.Valid() && base.columns == AppendMissing(df.columns, TimeCols)
    && |base.rows| == |df.rows|
    && forall i :: 0 <= i < |base.rows| ==> base.rows[i] == TimedRow(df.rows[i])
  }

  /** Parsing and then assigning the five derived columns gives the frame
      TimedFrame describes. */
  lemma TimeFeaturesAdded(df: Frame)
    requires df.Valid() && FormattedDate in df.columns
    ensures TimedFrame(AssignFields(ParseFormattedDate(df), TimeCols), df)
  {
    var parsed := ParseFormattedDate(df);
    var f := AssignFields(parsed, TimeCols);
    assert TimedUpTo(f, df, TimeCols) by {
      ParseTimestampColumn(df);
      AssignTimeColumns(df, parsed, [], TimeCols);
      assert [] + TimeCols == TimeCols;
    }
    assert f.columns == AppendMissing(df.columns, TimeCols) by {
      AssignFieldsColumns(parsed, TimeCols);
    }
  }

  /** add_time_features: a copy of the frame whose "Formatted Date" is
      parsed and which holds the five derived columns, existing ones
      overwritten in place and missing ones appended. */
  method AddTimeFeatures(df: Frame) returns (r: Result<Frame>)
    requires df.Valid()
    ensures r.KeyError? <==> FormattedDate !in df.columns
    ensures r.KeyError? ==> r.column == FormattedDate
    ensures r.Ok? ==> TimedFrame(r.value, df)
  {
    if FormattedDate !in df.columns {
      return KeyError(FormattedDate);
    }
    // The frame is a value: working on it cannot change the caller's frame.
    var f := ParseFormattedDate(df);
    ghost var parsed := f;
    f := AssignField(f, "year");
    f := AssignField(f, "month");
    f := AssignField(f, "day");
    f := AssignField(f, "hour");
    f := AssignField(f, "dayofweek");
    AssignFieldsInOrder(parsed);
    TimeFeaturesAdded(df);
    return Ok(f);
  }

  /** A row extended by null cells only. */
  ghost predicate ExtendsRow(row: Row, base: Row) {
    && (forall c :: c in base ==> c in row)
    && forall c :: c in row ==> row[c] == if c in base then base[c] else Null
  }

  /** A frame that extends base by columns of nulls only. */
  ghost predicate NullExtended(f: Frame, base: Frame) {
    && f.Valid() && base.Valid() && |f.rows| == |base.rows|
    && (forall c :: c in base.columns ==> c in f.columns)
    && forall i :: 0 <= i < |f.rows| ==> ExtendsRow(f.rows[i], base.rows[i])
  }

  /** The frame after the fill loop: base with the feature columns it
      lacked added as nulls. */
  ghost predicate Filled(f: Frame, base: Frame) {
    && NullExtended(f, base)
    && forall j :: 0 <= j < |FeatureCols| ==> FeatureCols[j] in f.columns
  }

  lemma ExtendsRowNull(row: Row, base: Row, col: string)
    requires ExtendsRow(row, base) && col !in row
    ensures ExtendsRow(row[col := Null], base)
  {
  }

  /** `df[col] = None` for a column the frame lacks keeps it null-extended. */
  lemma AddNullColumn(f: Frame, base: Frame, col: string)
    requires NullExtended(f, base) && col !in f.columns
    ensures NullExtended(Assign(f, col, Nulls(|f.rows|)), base)
  {
    var h := Assign(f, col, Nulls(|f.rows|));
    forall i | 0 <= i < |h.rows|
      ensures ExtendsRow(h.rows[i], base.rows[i])
    {
      assert h.rows[i] == f.rows[i][col := Null];
      ExtendsRowNull(f.rows[i], base.rows[i], col);
    }
  }

  /** Selecting columns of a frame whose row i extends the timed row by nulls. */
  lemma SelectFeatureCells(f: Frame, row: Row, i: nat, cols: seq<string>)
    requires f.Valid() && i < |f.rows| && FormattedDate in row
    requires ExtendsRow(f.rows[i], TimedRow(row))
    requires Distinct(cols) && forall j :: 0 <= j < |cols| ==> cols[j] in f.columns
    ensures Select(f, cols).rows[i] == FeatureCells(row, cols)
  {
    var got, want := Select(f, cols).rows[i], FeatureCells(row, cols);
    assert got.Keys == want.Keys;
  }

  /** Selecting the feature columns of the filled frame gives each input
      row's feature row. */
  lemma SelectFilled(df: Frame, base: Frame, f: Frame)
    requires df.Valid() && FormattedDate in df.columns && TimedFrame(base, df)
    requires Filled(f, base)
    ensures Distinct(FeatureCols)
    ensures Select(f, FeatureCols) == FeatureFrame(df)
  {
    FeatureColsDistinct();
    var out, want := Select(f, FeatureCols), FeatureFrame(df);
    forall i | 0 <= i < |out.rows|
      ensures out.rows[i] == want.rows[i]
    {
      SelectFeatureCells(f, df.rows[i], i, FeatureCols);
    }
    assert out.rows == want.rows;
  }

  /** One step of the fill loop: cols[k] is added as nulls when the frame
      lacks it, which extends the columns filled so far by cols[k]. */
  lemma FillStep(f: Frame, base: Frame, cols: seq<string>, k: nat)
    requires k < |cols|
    requires NullExtended(f, base) && f.columns == AppendMissing(base.columns, cols[..k])
    ensures var g := if cols[k] in f.columns then f else Assign(f, cols[k], Nulls(|f.rows|));
      NullExtended(g, base) && g.columns == AppendMissing(base.columns, cols[..k + 1])
  {
    assert cols[..k + 1] == cols[..k] + [cols[k]];
    AppendMissingSnoc(base.columns, cols[..k], cols[k]);
    if cols[k] !in f.columns {
      AddNullColumn(f, base, cols[k]);
    }
  }

  /** The loop of build_feature_frame: each feature column the frame lacks
      is added as a column of nulls; columns it has are left alone. */
  method FillMissing(base: Frame) returns (f: Frame)
    requires base.Valid()
    ensures Filled(f, base)
    ensures f.columns == AppendMissing(base.columns, FeatureCols)
  {
    f := base;
    assert FeatureCols[..0] == [];
    for k := 0 to |FeatureCols|
      invariant NullExtended(f, base)
      invariant f.columns == AppendMissing(base.columns, FeatureCols[..k])
    {
      var col := FeatureCols[k];
      FillStep(f, base, FeatureCols, k);
      if col !in f.columns {
        f := Assign(f, col, Nulls(|f.rows|));
      }
    }
    assert FeatureCols[..|FeatureCols|] == FeatureCols;
    assert forall j :: 0 <= j < |FeatureCols| ==> FeatureCols[j] in f.columns;
  }

  /** build_feature_frame: KeyError when "Formatted Date" is missing;
      otherwise the time features are added, every absent feature column is
      filled with nulls, and the feature columns are selected in order. */
  method BuildFeatureFrame(df: Frame) returns (r: Result<Frame>)
    requires df.Valid()
    ensures FormattedDate !in df.columns ==> r == KeyError(FormattedDate)
    ensures FormattedDate in df.columns ==> r == Ok(FeatureFrame(df))
  {
    var timed := AddTimeFeatures(df);
    if timed.KeyError? {
      return timed;
    }
    var base := timed.value;
    var f := FillMissing(base);
    SelectFilled(df, base, f);
    return Ok(Select(f, FeatureCols));
  }

  /** A feature column that is neither the timestamp nor derived from it
      holds the input row's cell, or null when the row lacks the column. */
  lemma RawFeatureCell(row: Row, c: string)
    requires FormattedDate in row && c != FormattedDate && c !in TimeCols
    ensures FeatureCell(row, c) == if c in row then row[c] else Null
  {
  }

  /** A feature column absent from the input is all nulls in the output. */
  lemma MissingFeatureIsNull(df: Frame, c: string)
    requires df.Valid() && FormattedDate in df.columns
    requires c in FeatureCols && c !in TimeCols && c !in df.columns
    ensures forall i :: 0 <= i < |df.rows| ==> FeatureFrame(df).rows[i][c] == Null
  {
    assert c != FormattedDate by { FeatureColsLayout(); }
    forall i | 0 <= i < |df.rows|
      ensures FeatureFrame(df).rows[i][c] == Null
    {
      RawFeatureCell(df.rows[i], c);
    }
  }

  /** A raw feature column present in the input is passed through cell by cell. */
  lemma RawFeaturePassesThrough(df: Frame, c: string)
    requires df.Valid() && FormattedDate in df.columns
    requires c in FeatureCols && c !in TimeCols && c in df.columns
    ensures forall i :: 0 <= i < |df.rows| ==> FeatureFrame(df).rows[i][c] == df.rows[i][c]
  {
    assert c != FormattedDate by { FeatureColsLayout(); }
    forall i | 0 <= i < |df.rows|
      ensures FeatureFrame(df).rows[i][c] == df.rows[i][c]
    {
      RawFeatureCell(df.rows[i], c);
    }
  }

  /** A row whose timestamp cannot be parsed keeps its place; its five
      derived fields are null and its other features are as for any row. */
  lemma UnparseableTimestampGivesNulls(df: Frame, i: nat)
    requires df.Valid() && FormattedDate in df.columns && i < |df.rows|
    requires ToDatetime(df.rows[i][FormattedDate]) == Null
    ensures i < |FeatureFrame(df).rows|
    ensures var out := FeatureFrame(df).rows[i];
      && out["year"] == Null && out["month"] == Null && out["day"] == Null
      && out["hour"] == Null && out["dayofweek"] == Null
    ensures forall c :: c in FeatureCols && c !in TimeCols ==>
      FeatureFrame(df).rows[i][c] == if c in df.columns then df.rows[i][c] else Null
  {
    var row := df.rows[i];
    DerivedCells(row);
    assert FormattedDate !in FeatureCols by { FeatureColsLayout(); }
    forall c | c in FeatureCols && c !in TimeCols
      ensures FeatureRow(row)[c] == if c in df.columns then row[c] else Null
    {
      RawFeatureCell(row, c);
      assert c in row <==> c in df.columns;
    }
  }

  /** A "Formatted Date" that is not a timestamp, such as "not-a-date",
      yields null in all five derived columns. */
  lemma NotADateGivesNulls(df: Frame, i: nat)
    requires df.Valid() && FormattedDate in df.columns && i < |df.rows|
    requires df.rows[i][FormattedDate] == Str("not-a-date")
    ensures var out := FeatureFrame(df).rows[i];
      && out["year"] == Null && out["month"] == Null && out["day"] == Null
      && out["hour"] == Null && out["dayofweek"] == Null
  {
    assert ToDatetime(df.rows[i][FormattedDate]) == Null;
    UnparseableTimestampGivesNulls(df, i);
  }

  /** A timestamp written in the layout, for a year pandas can hold,
      yields the fields of the UTC breakdown of the instant it denotes. */
  lemma RenderedTimestampFields(df: Frame, i: nat, st: Stamp)
    requires df.Valid() && FormattedDate in df.columns && i < |df.rows|
    requires ValidStamp(st) && 1678 <= st.local.date.year <= 2261
    requires df.rows[i][FormattedDate] == Str(Render(st))
    ensures var utc, out := UtcOf(StampInstant(st)), FeatureFrame(df).rows[i];
      && out["year"] == Int(utc.date.year) && out["month"] == Int(utc.date.month)
      && out["day"] == Int(utc.date.day) && out["hour"] == Int(utc.hour)
      && out["dayofweek"] == Int(WeekdayOfDate(utc.date))
  {
    assert ParseInstant(Render(st)) == Some(StampInstant(st)) by {
      ParseInstantOfRender(st);
      YearsInNanosecondRange(st);
    }
    ParsedTimestampFields(df, i, Render(st));
  }

  /** Half past midnight on 15 September 2014 written at +01:00 is
      23:30 UTC on Sunday the 14th: with RenderedTimestampFields, the
      derived day, hour and weekday are those of the UTC instant, not of
      the wall-clock text. */
  lemma OffsetShiftsToPreviousDay(st: Stamp, utc: DateTime)
    requires st == Stamp(DateTime(Date(2014, 9, 15), 0, 30, 0, 0), Offset(false, 1, 0))
    requires utc == DateTime(Date(2014, 9, 14), 23, 30, 0, 0)
    ensures ValidStamp(st) && UtcOf(StampInstant(st)) == utc
    ensures WeekdayOfDate(utc.date) == 6
  {
    assert ValidDateTime(utc) && StampInstant(st) == InstantOf(utc, 0);
    UtcOfInstant(utc);
    PreviousDayIsSunday(utc.date);
  }

  lemma PreviousDayIsSunday(d: Date)
    requires d == Date(2014, 9, 14)
    ensures WeekdayOfDate(d) == 6
  {
  }

  /** "2014-09-15", the date part of the example stamps. */
  lemma ExampleDateText()
    ensures RenderDate(Date(2014, 9, 15)) == "2014-09-15"
  {
    assert PadDigits(2014, 4) == "2014";
    assert PadDigits(9, 2) == "09" && PadDigits(15, 2) == "15";
  }

  /** The clock part of the stamp at +01:00. */
  lemma OffsetClockText()
    ensures RenderClock(DateTime(Date(2014, 9, 15), 0, 30, 0, 0)) == "00:30:00.000"
  {
    var h, m, z, ms := PadDigits(0, 2), PadDigits(30, 2), PadDigits(0, 2), PadDigits(0, 3);
    assert h == "00" && m == "30" && z == "00" && ms == "000";
    assert h + ":" + m + ":" + z + "." + ms == "00:30:00.000";
  }

  /** The offset +01:00 is written "+0100". */
  lemma OneHourOffsetText()
    ensures RenderOffset(Offset(false, 1, 0)) == "+0100"
  {
    assert PadDigits(1, 2) == "01" && PadDigits(0, 2) == "00";
  }

  /** The stamp at +01:00 as the dataset writes it. */
  lemma OffsetStampRender(st: Stamp)
    requires st == Stamp(DateTime(Date(2014, 9, 15), 0, 30, 0, 0), Offset(false, 1, 0))
    ensures ValidStamp(st) && Render(st) == "2014-09-15" + " " + "00:30:00.000" + " " + "+0100"
  {
    ExampleDateText();
    OffsetClockText();
    OneHourOffsetText();
  }

  /** "2014-09-15 00:30:00.000 +0100" parses to 23:30 UTC on the 14th. */
  lemma OffsetTextInstant(s: string, utc: DateTime)
    requires s == "2014-09-15" + " " + "00:30:00.000" + " " + "+0100"
    requires utc == DateTime(Date(2014, 9, 14), 23, 30, 0, 0)
    ensures ValidDateTime(utc) && ParseInstant(s) == Some(InstantOf(utc, 0))
  {
    var st := Stamp(DateTime(Date(2014, 9, 15), 0, 30, 0, 0), Offset(false, 1, 0));
    assert ValidStamp(st) && Render(st) == s by {
      OffsetStampRender(st);
    }
    assert ValidDateTime(utc) && StampInstant(st) == InstantOf(utc, 0) by {
      OffsetShiftsToPreviousDay(st, utc);
    }
    assert InNanosecondRange(StampInstant(st)) by {
      YearsInNanosecondRange(st);
    }
    ParseInstantOfRender(st);
  }

  /** A row of the dataset stamped "2014-09-15 00:30:00.000 +0100" gets
      the features of Sunday 14 September 2014, hour 23. */
  lemma OffsetRowFeatures(df: Frame, i: nat)
    requires df.Valid() && FormattedDate in df.columns && i < |df.rows|
    requires df.rows[i][FormattedDate] == Str("2014-09-15" + " " + "00:30:00.000" + " " + "+0100")
    ensures var row := FeatureFrame(df).rows[i];
      && row["year"] == Int(2014) && row["month"] == Int(9) && row["day"] == Int(14)
      && row["hour"] == Int(23) && row["dayofweek"] == Int(6)
  {
    var s := "2014-09-15" + " " + "00:30:00.000" + " " + "+0100";
    var utc := DateTime(Date(2014, 9, 14), 23, 30, 0, 0);
    OffsetTextInstant(s, utc);
    UtcOfInstant(utc);
    PreviousDayIsSunday(utc.date);
    ParsedTimestampFields(df, i, s);
  }

  /** A parsed timestamp is normalised to UTC before its fields are read:
      the five derived cells are the UTC date, hour and weekday of the
      instant the string names, whatever the raw row held in those columns. */
  lemma ParsedTimestampFields(df: Frame, i: nat, s: string)
    requires df.Valid() && FormattedDate in df.columns && i < |df.rows|
    requires df.rows[i][FormattedDate] == Str(s) && ParseInstant(s).Some?
    ensures var utc := UtcOf(ParseInstant(s).value);
      var row := FeatureFrame(df).rows[i];
      && InstantOf(utc, 0) == StampInstant(Lex(s).value)
      && row["year"] == Int(utc.date.year) && row["month"] == Int(utc.date.month)
      && row["day"] == Int(utc.date.day) && row["hour"] == Int(utc.hour)
      && row["dayofweek"] == Int(WeekdayOfDate(utc.date))
  {
    var ms := ParseInstant(s).value;
    assert ToDatetime(df.rows[i][FormattedDate]) == Time(ms);
    DerivedCells(df.rows[i]);
    DeriveOfWallClock(ms, UtcOf(ms));
    ParsedInstantIsUtc(s);
  }

  /** The fields of a parsed instant are those of any valid UTC wall-clock
      time that names it, the weekday being the calendar's. */
  lemma DeriveOfWallClock(ms: int, t: DateTime)
    requires ValidDateTime(t) && InstantOf(t, 0) == ms
    ensures && Derive(Time(ms), Year) == Int(t.date.year) && Derive(Time(ms), Month) == Int(t.date.month)
      && Derive(Time(ms), Day) == Int(t.date.day) && Derive(Time(ms), Hour) == Int(t.hour)
      && Derive(Time(ms), Weekday) == Int(WeekdayOfDate(t.date))
  {
    UtcOfInstant(t);
  }

  /** The five fields of one timestamp cell are all null or all present,
      and present ones lie in their calendar ranges. */
  predicate FieldsInRange(year: Value, month: Value, day: Value, hour: Value, weekday: Value) {
    || (year == Null && month == Null && day == Null && hour == Null && weekday == Null)
    || (&& year.Int? && month.Int? && day.Int? && hour.Int? && weekday.Int?
        && 1 <= month.n <= 12 && 1 <= day.n <= DaysInMonth(year.n, month.n)
        && 0 <= hour.n <= 23 && 0 <= weekday.n <= 6)
  }

  lemma DeriveInRange(stamp: Value)
    requires stamp.Null? || stamp.Time?
    ensures FieldsInRange(Derive(stamp, Year), Derive(stamp, Month), Derive(stamp, Day),
                          Derive(stamp, Hour), Derive(stamp, Weekday))
  {
    if stamp.Time? {
      assert ValidDateTime(UtcOf(stamp.millis));
    }
  }

  /** The derived cells of every output row are all null or all present,
      and a present month, day, hour and weekday lie in their calendar ranges. */
  lemma DerivedFieldsInRange(df: Frame, i: nat)
    requires df.Valid() && FormattedDate in df.columns && i < |df.rows|
    ensures var row := FeatureFrame(df).rows[i];
      FieldsInRange(row["year"], row["month"], row["day"], row["hour"], row["dayofweek"])
  {
    DerivedCells(df.rows[i]);
    DeriveInRange(ToDatetime(df.rows[i][FormattedDate]));
  }
}
