/** The feature layout the model is trained on and served with. */
module Schema {
  import opened Frames

  /** Numeric feature columns, in model order. */
  const NumCols: seq<string> := [
    "Apparent Temperature (C)",
    "Humidity",
    "Wind Speed (km/h)",
    "Wind Bearing (degrees)",
    "Visibility (km)",
    "Loud Cover",
    "Pressure (millibars)",
    "year",
    "month",
    "day",
    "hour",
    "dayofweek"
  ]

  /** Categorical feature columns. */
  const CatCols: seq<string> := ["Precip Type"]

  const FeatureCols: seq<string> := NumCols + CatCols

  /** The raw timestamp column. */
  const FormattedDate: string := "Formatted Date"

  /** The columns derived from the timestamp, in the order they are assigned. */
  const TimeCols: seq<string> := ["year", "month", "day", "hour", "dayofweek"]

  /** Thirteen distinct columns: the twelve numeric ones, then "Precip Type";
      the derived time columns are the last five numeric ones, and the raw
      timestamp is not a feature. */
  lemma FeatureColsLayout()
    ensures |FeatureCols| == 13 && FeatureCols[..12] == NumCols && FeatureCols[12] == "Precip Type"
    ensures Distinct(FeatureCols)
    ensures NumCols[7..] == TimeCols
    ensures FormattedDate !in FeatureCols
    ensures "Summary" !in FeatureCols && "Daily Summary" !in FeatureCols
    ensures "Temperature (C)" !in FeatureCols
  {
    FeatureColsDistinct();
    FeatureColsExclude();
  }

  /** Every derived time column is a feature. */
  lemma TimeColsAreFeatures()
    ensures "year" in FeatureCols && "month" in FeatureCols && "day" in FeatureCols
    ensures "hour" in FeatureCols && "dayofweek" in FeatureCols
  {
    assert FeatureCols[7] == "year" && FeatureCols[8] == "month" && FeatureCols[9] == "day";
    assert FeatureCols[10] == "hour" && FeatureCols[11] == "dayofweek";
  }

  lemma FeatureColsDistinct()
    ensures Distinct(FeatureCols)
  {
    assert Distinct(NumCols[..7]);
    assert Distinct(TimeCols);
    assert forall j :: 0 <= j < 7 ==> NumCols[j] !in TimeCols;
    assert Distinct(NumCols) by { assert NumCols == NumCols[..7] + TimeCols; }
    assert "Precip Type" !in NumCols;
  }

  lemma FeatureColsExclude()
    ensures FormattedDate !in FeatureCols
    ensures "Summary" !in FeatureCols && "Daily Summary" !in FeatureCols
    ensures "Temperature (C)" !in FeatureCols
  {
  }
}
