# Weather feature frame, modelled in Dafny

This project models the feature-engineering step of a temperature-prediction
model trained on hourly weather observations. Training and the prediction app
both call it. It has two parts. `add_time_features` parses the
"Formatted Date" column to a UTC timestamp and derives `year`, `month`, `day`,
`hour` and `dayofweek` from it. `build_feature_frame` then adds every missing
feature column as nulls and keeps only the thirteen feature columns, in their
fixed order. The project also models the app's date formatter, which writes
the "Formatted Date" it hands to that step.

Modules:

- `Frames` (frames.dfy): the part of a pandas DataFrame the step uses.
  - A frame is an ordered list of distinct column labels, plus rows that map
    exactly those labels to cells.
  - `Assign` is `df[name] = values`: an existing column keeps its place and a
    new one is appended.
  - `Select` is `df[cols]`.
- `Schema` (schema.dfy): `NUM_COLS`, `CAT_COLS`, `FEATURE_COLS`, and the
  column names the step reads and writes.
- `Calendar` (calendar.dfy): proleptic Gregorian arithmetic.
  - It converts between a UTC wall-clock time and milliseconds since the epoch.
  - The weekday (Monday = 0) is computed from the epoch. Sakamoto's rule serves
    as an independent reference definition.
- `Timestamp` (timestamp.dfy): the timestamp layout `YYYY-MM-DD HH:MM:SS.fff ±HHMM`.
  - It reads and writes this layout, with a round trip in both directions.
  - `pd.to_datetime(..., errors="coerce", utc=True)` on one string becomes
    `ParseInstant`. The model follows pandas 2.x, where parsed strings become
    datetime64[ns]. It yields the instant, or nothing (NaT) when the string is
    not in the layout, names no real date, or falls outside that nanosecond
    range.
- `Preprocess` (preprocess.dfy): the two functions of `src/preprocess.py`.
  - `AddTimeFeatures` and `BuildFeatureFrame` are methods written step by step,
    as the source is. The fill loop is a `for` loop.
  - Each is proved against a specification function: `TimedRow` for one row
    after `add_time_features`, and `FeatureFrame` for the whole result.
  - Lemmas about those functions state the promised properties. The output has
    exactly the feature columns, in order, and one row per input row, in order.
    Raw feature cells pass through, absent ones are null, and an unparseable
    timestamp gives five nulls. The derived fields are those of the UTC
    instant, lie in their calendar ranges, and the weekday agrees with the
    calendar rule.
- `AppInput` (app_input.dfy): the app's
  `strftime("%Y-%m-%d %H:%M:%S.000 +0000")`.
  - It is proved to round-trip through the feature step: the picked date and
    hour come back as the derived fields.

Two facts about the step that the model keeps:

- A missing "Formatted Date" column is the one absence that raises `KeyError`,
  because `add_time_features` reads that column. `AddTimeFeatures` and
  `BuildFeatureFrame` return `KeyError("Formatted Date")` in that case. Every
  other missing feature column is filled with nulls.
- FEATURE_COLS has thirteen columns: the twelve numeric ones, then
  "Precip Type".

## Model

| member | source | states |
|---|---|---|
| Schema.FeatureColsLayout | src/preprocess.py:4-24 | FEATURE_COLS has 13 columns: the 12 numeric ones in order, then "Precip Type". The derived time columns are the last five numeric ones. "Formatted Date", "Summary", "Daily Summary" and the label are not features. |
| Schema.FeatureColsDistinct | src/preprocess.py:4-24 | No feature column is listed twice. |
| Schema.FeatureColsExclude | src/preprocess.py:4-24 | The raw timestamp, the two text summaries and the label "Temperature (C)" are not feature columns. |
| Schema.TimeColsAreFeatures | src/preprocess.py:12-16 | Each of year, month, day, hour and dayofweek is a feature column. |
| Frames.Nulls | src/preprocess.py:56 | `df[col] = None` stores a column of nulls, one per row. |
| Frames.Column | src/preprocess.py:32 | `df[name]` lists that column's cell of every row, in row order. |
| Frames.Assign | src/preprocess.py:37-41 | Assigning a column keeps the frame valid and the row count. An existing label keeps its position; a new one is appended last. The column holds the given values, and every other cell is unchanged. |
| Frames.Select | src/preprocess.py:58 | `df[cols]` has exactly cols as its columns, in that order, with every row kept and each selected cell unchanged. |
| Calendar.CivilFromDays | src/preprocess.py:37-39 | Every day number is the day number of a valid date, the one this function returns. |
| Calendar.CivilFromDaysOfCivil | src/preprocess.py:37-39 | Converting a valid date to its day number and back gives the same date. |
| Calendar.UtcOf | src/preprocess.py:37-40 | The UTC breakdown of an instant is a valid date-time that denotes exactly that instant. |
| Calendar.UtcOfInstant | src/preprocess.py:37-40 | Every valid UTC date-time is the breakdown of the instant it denotes, so breakdowns are unique. |
| Calendar.DayOfWeek | src/preprocess.py:41 | `.dt.dayofweek` lies in 0..6. |
| Calendar.WeekdayOfDaysFromCivil | src/preprocess.py:41 | The epoch-based weekday of a date's day number equals Sakamoto's rule for that date, with Monday = 0. |
| Calendar.DayOfWeekAgreesWithCalendar | src/preprocess.py:41 | The weekday of any instant equals Sakamoto's rule applied to its UTC date. |
| Timestamp.Render | src/app.py:34 | A valid stamp is written in exactly 29 characters, the width of the dataset's timestamps; RenderLayout and LexOfRender state its fields and that it reads back. |
| Timestamp.DecimalOfPad | src/preprocess.py:31-35 | Reading back a zero-padded field gives the number that was written. |
| Timestamp.PadOfDecimal | src/preprocess.py:31-35 | Writing the value of a digit string at its own width gives the string back. |
| Timestamp.Lex | src/preprocess.py:31-35 | A string that is read yields a valid stamp, and writing that stamp gives the same string. |
| Timestamp.LexOfRender | src/preprocess.py:31-35 | Reading a written valid stamp gives that stamp back. |
| Timestamp.RenderLayout | src/preprocess.py:31-35 | A written stamp has each field zero-padded at its fixed offset, with the separators in place. |
| Timestamp.ParseInstant | src/preprocess.py:31-35 | `to_datetime(errors="coerce")` yields an instant exactly when the string reads as a valid stamp whose instant fits pandas' nanosecond range, and that instant is the one the stamp's local time and offset denote. |
| Timestamp.ParseInstantOfRender | src/preprocess.py:31-35 | Parsing a written stamp gives the instant it denotes, or NaT when that instant is out of range. |
| Timestamp.ParsedInstantIsUtc | src/preprocess.py:34 | `utc=True`: the parsed instant, broken down in UTC, is the instant the local time and offset denote. |
| Timestamp.YearsInNanosecondRange | src/preprocess.py:31-35 | The instant of every stamp with a year from 1678 to 2261 lies within pandas' nanosecond range. |
| Preprocess.ToDatetime | src/preprocess.py:31-35 | A parsed cell is a timestamp or null. It is a timestamp exactly when the cell already was one, which is kept, or is a string that parses; a parsed string gives the instant `ParseInstant` reads from it, which is the one its stamp denotes. |
| Preprocess.ToDatetimeColumn | src/preprocess.py:31-35 | The converted column has one cell per input cell, each read as if the column's inferred format were the timestamp layout, and holds only timestamps and nulls. |
| Preprocess.Derive | src/preprocess.py:37-41 | A `.dt` field is null exactly for NaT and otherwise a whole number. A month lies in 1..12, a day in 1..31, an hour in 0..23, and the weekday is the calendar rule's for the UTC date. |
| Preprocess.DeriveColumn | src/preprocess.py:37-41 | A derived column has one cell per timestamp cell, each that cell's field, and is null exactly where the timestamp is NaT. |
| Preprocess.AppendMissingSnoc | src/preprocess.py:37-41 | Assigning one more column appends it exactly when the columns so far lack it. |
| Preprocess.AppendMissing | src/preprocess.py:37-41 | After assigning several columns, the original columns come first, unchanged. The result holds exactly the old and assigned labels, and stays duplicate-free. |
| Preprocess.TimedRowCells | src/preprocess.py:27-43 | The row after `add_time_features` has the input's labels plus the five derived ones. "Formatted Date" holds the parsed timestamp, each derived column its field of that timestamp (replacing a raw cell of that name), and every other cell is the input's. |
| Preprocess.FeatureRow | src/preprocess.py:58 | A feature row has a cell for each of the five derived columns. |
| Preprocess.FeatureFrame | src/preprocess.py:46-58 | The result has exactly FEATURE_COLS, in order, and one row per input row, each built from the input row at the same position. |
| Preprocess.DerivedCells | src/preprocess.py:37-41 | The five derived cells of an output row are the fields of that row's parsed timestamp. |
| Preprocess.DerivedCell | src/preprocess.py:37-41 | A derived feature cell is its field of the row's parsed timestamp. |
| Preprocess.ParseFormattedDate | src/preprocess.py:31-35 | Parsing the timestamp column in place keeps the columns and the row count. |
| Preprocess.AssignField | src/preprocess.py:37-41 | Assigning a derived column keeps the frame valid, keeps "Formatted Date", and keeps the row count. |
| Preprocess.ParsedRow | src/preprocess.py:31-35 | Parsing one row's timestamp gives the timed row with nothing derived yet. |
| Preprocess.DerivedRow | src/preprocess.py:37-41 | Assigning one more derived column to a row extends what has been derived by that column. |
| Preprocess.ParseTimestampColumn | src/preprocess.py:31-35 | After the parse, every row is its input row with the timestamp parsed. |
| Preprocess.AssignTimeColumn | src/preprocess.py:37-41 | Each derived-column assignment keeps every row equal to its input row timed up to that column. |
| Preprocess.AssignFields | src/preprocess.py:37-41 | Assigning several derived columns keeps the frame valid, keeps the timestamp, and keeps the row count. |
| Preprocess.AssignFieldsInOrder | src/preprocess.py:37-41 | The five assignments, in the source's order, are the fold over the time columns. |
| Preprocess.AssignFieldsColumns | src/preprocess.py:37-41 | The columns after the assignments are the input's, followed by the derived columns it lacked, in assignment order. |
| Preprocess.AssignTimeColumns | src/preprocess.py:37-41 | Assigning any run of derived columns extends each row's timing by exactly that run. |
| Preprocess.TimeFeaturesAdded | src/preprocess.py:27-43 | Parse-then-assign gives the input's columns plus any missing derived ones appended, with each row the timed input row. |
| Preprocess.AddTimeFeatures | src/preprocess.py:27-43 | KeyError exactly when "Formatted Date" is missing. Otherwise the result's columns keep existing ones in place and append the missing derived ones, and each row is its input row with the timestamp parsed and the five fields derived from it. |
| Preprocess.ExtendsRowNull | src/preprocess.py:56 | Adding a null cell for an absent label keeps a row a null extension of its base row. |
| Preprocess.AddNullColumn | src/preprocess.py:54-56 | `df[col] = None` for an absent column keeps the frame a null extension of the timed frame. |
| Preprocess.FillStep | src/preprocess.py:54-56 | One pass of the loop keeps the frame a null extension of the timed frame and extends its columns by the current feature column when it was missing. |
| Preprocess.FillMissing | src/preprocess.py:54-56 | After the loop, the columns are exactly the timed frame's, followed by the feature columns it lacked, in FEATURE_COLS order. Every cell of the timed frame is kept, and every added cell is null. |
| Preprocess.SelectFeatureCells | src/preprocess.py:58 | Selecting columns from a null-extended row gives that row's feature cells. |
| Preprocess.SelectFilled | src/preprocess.py:54-58 | Selecting FEATURE_COLS after the fill loop gives exactly FeatureFrame of the input. |
| Preprocess.BuildFeatureFrame | src/preprocess.py:46-58 | KeyError("Formatted Date") when that column is missing, otherwise exactly FeatureFrame of the input. |
| Preprocess.RawFeatureCell | src/preprocess.py:54-58 | A non-derived feature cell is the input's cell, or null when the input lacks that column. |
| Preprocess.MissingFeatureIsNull | src/preprocess.py:54-58 | A feature column absent from the input is null in every output row. |
| Preprocess.RawFeaturePassesThrough | src/preprocess.py:58 | A feature column present in the input is copied cell by cell. |
| Preprocess.UnparseableTimestampGivesNulls | src/preprocess.py:31-41 | A row whose timestamp does not parse keeps its place. Its five derived cells are null, and its other features are the input's cells, or null. |
| Preprocess.NotADateGivesNulls | src/preprocess.py:31-41 | "not-a-date" yields null in all five derived columns. |
| Preprocess.RenderedTimestampFields | src/preprocess.py:31-41 | A timestamp written in the layout, for a year from 1678 to 2261, yields the date, hour and weekday of its UTC instant. |
| Preprocess.OffsetShiftsToPreviousDay | src/preprocess.py:31-35 | 2014-09-15 00:30 at +01:00 is 2014-09-14 23:30 UTC, a Sunday (weekday 6). |
| Preprocess.PreviousDayIsSunday | src/preprocess.py:41 | 14 September 2014 has weekday 6. |
| Preprocess.ExampleDateText | src/preprocess.py:31-35 | 15 September 2014 is written "2014-09-15". |
| Preprocess.OffsetClockText | src/preprocess.py:31-35 | 00:30 is written "00:30:00.000". |
| Preprocess.OneHourOffsetText | src/preprocess.py:31-35 | The offset +01:00 is written "+0100". |
| Preprocess.OffsetStampRender | src/preprocess.py:31-35 | 2014-09-15 00:30 at +01:00 is written "2014-09-15 00:30:00.000 +0100". |
| Preprocess.OffsetTextInstant | src/preprocess.py:31-35 | "2014-09-15 00:30:00.000 +0100" parses to the instant of 2014-09-14 23:30 UTC. |
| Preprocess.OffsetRowFeatures | src/preprocess.py:31-41 | A row stamped "2014-09-15 00:30:00.000 +0100" gets year 2014, month 9, day 14, hour 23 and dayofweek 6: the fields of the UTC instant, not of the written text. |
| Preprocess.ParsedTimestampFields | src/preprocess.py:31-41 | For a parsed string, the derived cells are the UTC date, hour and weekday of the instant the string names, whatever the raw row held in those columns. |
| Preprocess.DeriveOfWallClock | src/preprocess.py:37-41 | Each `.dt` field of an instant is the corresponding part of any valid UTC date-time that denotes it, and the weekday is the calendar rule's for that date. |
| Preprocess.DeriveInRange | src/preprocess.py:37-41 | A timestamp's five fields are all null (NaT) or all present. A present month is in 1..12, day within its month, hour in 0..23, and weekday in 0..6. |
| Preprocess.DerivedFieldsInRange | src/preprocess.py:37-41 | Every output row's derived cells are all null or all present and in range. |
| AppInput.FormatDate | src/app.py:34 | The formatted date is 29 characters long and reads back as the picked date and time, with millisecond 0, at offset +0000. |
| AppInput.FormattedDateRoundTrip | src/app.py:34 | Feeding the formatted date through the feature step recovers the picked year, month, day and hour, and the calendar weekday of that date. |
| AppInput.DefaultPick | src/app.py:29-34 | The default pick, 2014-09-15 08:30, is written as "2014-09-15 08:30:00.000 +0000". |
| AppInput.DefaultClockText | src/app.py:31-34 | The default time is written "08:30:00.000". |
| AppInput.UtcOffsetText | src/app.py:34 | The offset is written "+0000". |
| AppInput.DefaultPickFeatures | src/app.py:29-34 | The default pick reaches the model as year 2014, month 9, day 15, hour 8, and weekday 0 (a Monday). |
| AppInput.DefaultPickIsMonday | src/app.py:29 | 15 September 2014 has weekday 0. |

## Left out

- Column-wide format inference: pandas infers one format from the first non-null string of the column and, under `errors="coerce"`, turns every string that does not match it into NaT. The model reads every cell as if that format were the timestamp layout. This agrees with pandas when the first non-null string is in the layout, as on this repository's data, or when no format can be inferred from it, in which case pandas parses each element on its own. For a column such as `["2014-09-15", "2014-09-15 08:30:00.000 +0000"]` pandas infers `%Y-%m-%d` and gives NaT for the second cell, while the model gives 08:30 UTC.
- Other timestamp spellings: pandas' `to_datetime` also accepts many layouts (ISO 8601 with `T`, no fraction, other precisions, named zones). The model reads only the layout this repository writes; any other string is NaT here.
- Non-string "Formatted Date" cells: pandas reads numbers as nanoseconds since the epoch. The model treats every cell that is neither a string nor a timestamp as unparseable.
- Cell types: pandas stores derived fields as int32, or as float64 with NaN when any row is NaT. The model keeps whole numbers and a single null for None, NaN and NaT alike. Numeric weather cells are opaque tokens that are only passed along.
- Duplicate column labels: the model's frames have distinct labels, as the source's frames do.
- `df.copy()`: frames are values, so the copy that keeps the caller's frame unchanged is implicit. Aliasing between pandas objects is not modelled.
- FormatDate: it writes the year as four zero-padded digits for every year from 1 to 9999. Whether `strftime`'s `%Y` pads years below 1000 depends on the platform. The date picker at src/app.py:29 offers dates within about ten years of 2014-09-15, and under pandas 2.x years before 1678 are NaT in the feature step anyway.
- Row index labels: pandas keeps the input's index labels on the output, while the model's rows have positions only. Cell values are unaffected, because every column assigned at src/preprocess.py:37-41 is computed from the same frame and shares its index.
- FormattedDateRoundTrip, RenderedTimestampFields: they cover years 1678 to 2261. Under pandas 2.x, dates in 1677 and 2262 are only partly representable in the nanosecond range; the model's `ParseInstant` still treats them exactly.
- Resolution inference in pandas 3.0 and later: there `to_datetime` infers the unit of parsed strings instead of always using nanoseconds. Layout strings with years from 1 to 1677 or from 2262 to 9999 then parse to real instants, while the model's `ParseInstant`, which follows pandas 2.x, gives NaT for them.
- The Streamlit widgets, model loading and prediction in `src/app.py`, training in `src/train_model.py`, and `src/predict_example.py` are not part of this model. This covers file I/O, the scikit-learn pipeline (imputation, scaling, one-hot encoding, linear regression) and its serialization.
