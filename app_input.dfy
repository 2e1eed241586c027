/** How the prediction app writes the "Formatted Date" it hands to the
    feature step: the date and time the user picks, formatted as
    "%Y-%m-%d %H:%M:%S.000 +0000", so always in UTC with a zero
    millisecond field. */
module AppInput {
  import opened Calendar
  import opened Timestamp
  import opened Frames
  import opened Schema
  import opened Preprocess

  const Utc: Offset := Offset(false, 0, 0)

  /** strftime("%Y-%m-%d %H:%M:%S.000 +0000") of a picked date and time:
      sub-second digits are the literal ".000" and the offset is "+0000". */
  function FormatDate(t: DateTime): (s: string)
    requires ValidDateTime(t) && 1 <= t.date.year <= 9999
    ensures |s| == 29
    ensures Lex(s) == Some(Stamp(t.(milli := 0), Utc))
  {
    var st := Stamp(t.(milli := 0), Utc);
    LexOfRender(st);
    Render(st)
  }

  /** Feeding a formatted date back through the feature step recovers the
      picked year, month, day and hour, and the weekday the calendar gives
      that date, for every year pandas can hold. */
  lemma FormattedDateRoundTrip(df: Frame, i: nat, t: DateTime)
    requires df.Valid() && FormattedDate in df.columns && i < |df.rows|
    requires ValidDateTime(t) && 1678 <= t.date.year <= 2261
    requires df.rows[i][FormattedDate] == Str(FormatDate(t))
    ensures var row := FeatureFrame(df).rows[i];
      && row["year"] == Int(t.date.year) && row["month"] == Int(t.date.month)
      && row["day"] == Int(t.date.day) && row["hour"] == Int(t.hour)
      && row["dayofweek"] == Int(WeekdayOfDate(t.date))
  {
    var local := t.(milli := 0);
    RenderedTimestampFields(df, i, Stamp(local, Utc));
    UtcOfInstant(local);
  }

  /** The app's default pick, 15 September 2014 at 08:30, is written as
      the dataset writes its timestamps: date, clock and offset parts. */
  lemma DefaultPick()
    ensures FormatDate(DateTime(Date(2014, 9, 15), 8, 30, 0, 0)) == "2014-09-15" + " " + "08:30:00.000" + " " + "+0000"
  {
    var t := DateTime(Date(2014, 9, 15), 8, 30, 0, 0);
    assert t.(milli := 0) == t;
    ExampleDateText();
    DefaultClockText();
    UtcOffsetText();
  }

  lemma DefaultClockText()
    ensures RenderClock(DateTime(Date(2014, 9, 15), 8, 30, 0, 0)) == "08:30:00.000"
  {
    var h, m, z, ms := PadDigits(8, 2), PadDigits(30, 2), PadDigits(0, 2), PadDigits(0, 3);
    assert h == "08" && m == "30" && z == "00" && ms == "000";
    assert h + ":" + m + ":" + z + "." + ms == "08:30:00.000";
  }

  /** The UTC offset is written "+0000". */
  lemma UtcOffsetText()
    ensures RenderOffset(Utc) == "+0000"
  {
    assert PadDigits(0, 2) == "00";
  }

  /** The default pick reaches the model as 2014, September, the 15th,
      hour 8, and weekday 0: 15 September 2014 was a Monday. */
  lemma DefaultPickFeatures(df: Frame, i: nat)
    requires df.Valid() && FormattedDate in df.columns && i < |df.rows|
    requires df.rows[i][FormattedDate] == Str(FormatDate(DateTime(Date(2014, 9, 15), 8, 30, 0, 0)))
    ensures var row := FeatureFrame(df).rows[i];
      && row["year"] == Int(2014) && row["month"] == Int(9) && row["day"] == Int(15)
      && row["hour"] == Int(8) && row["dayofweek"] == Int(0)
  {
    FormattedDateRoundTrip(df, i, DateTime(Date(2014, 9, 15), 8, 30, 0, 0));
    DefaultPickIsMonday();
  }

  lemma DefaultPickIsMonday()
    ensures WeekdayOfDate(Date(2014, 9, 15)) == 0
  {
  }
}
