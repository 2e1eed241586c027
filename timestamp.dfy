/** The one timestamp layout the repository writes and reads,
    "YYYY-MM-DD HH:MM:SS.fff +HHMM", and its conversion to an instant the
    way pd.to_datetime(..., errors="coerce", utc=True) does for it. */
module Timestamp {
  import opened Calendar

  datatype Option<T> = None | Some(value: T)

  /** A UTC offset as written: sign, hours, minutes. */
  datatype Offset = Offset(negative: bool, hours: int, minutes: int)

  /** A timestamp string's fields: local wall-clock time and its offset. */
  datatype Stamp = Stamp(local: DateTime, offset: Offset)

  predicate ValidStamp(st: Stamp) {
    ValidDateTime(st.local) && 0 <= st.local.date.year <= 9999
    && 0 <= st.offset.hours < 24 && 0 <= st.offset.minutes < 60
  }

  function OffsetMinutes(o: Offset): int {
    (if o.negative then -1 else 1) * (o.hours * 60 + o.minutes)
  }

  /** The instant a valid stamp denotes. */
  function StampInstant(st: Stamp): int
    requires ValidStamp(st)
  {
    InstantOf(st.local, OffsetMinutes(st.offset))
  }

  predicate IsDigit(c: char) {
    '0' <= c <= '9'
  }

  predicate AllDigits(s: string) {
    forall i :: 0 <= i < |s| ==> IsDigit(s[i])
  }

  function Pow10(w: nat): (p: nat)
    ensures p >= 1
  {
    if w == 0 then 1 else 10 * Pow10(w - 1)
  }

  /** The value of a string of decimal digits. */
  function DecimalValue(s: string): (n: nat)
    requires AllDigits(s)
    ensures n < Pow10(|s|)
  {
    if s == [] then 0
    else DecimalValue(s[..|s| - 1]) * 10 + (s[|s| - 1] as int - '0' as int)
  }

  /** n written with exactly w decimal digits, zero-padded (n taken modulo 10^w). */
  function PadDigits(n: nat, w: nat): (s: string)
    ensures |s| == w && AllDigits(s)
  {
    if w == 0 then [] else PadDigits(n / 10, w - 1) + [('0' as int + n % 10) as char]
  }

  lemma {:induction false} DecimalOfPad(n: nat, w: nat)
    requires n < Pow10(w)
    ensures DecimalValue(PadDigits(n, w)) == n
  {
    if w > 0 {
      var s := PadDigits(n, w);
      assert s[..|s| - 1] == PadDigits(n / 10, w - 1);
      DecimalOfPad(n / 10, w - 1);
    }
  }

  lemma {:induction false} PadOfDecimal(s: string)
    requires AllDigits(s)
    ensures PadDigits(DecimalValue(s), |s|) == s
  {
    if s != [] {
      var init, last := s[..|s| - 1], s[|s| - 1];
      assert AllDigits(init);
      PadOfDecimal(init);
      var digit := last as int - '0' as int;
      assert 0 <= digit < 10;
      var n := DecimalValue(init) * 10 + digit;
      assert DecimalValue(s) == n;
      assert n / 10 == DecimalValue(init) && n % 10 == digit;
      assert ('0' as int + digit) as char == last;
      assert PadDigits(n, |s|) == PadDigits(n / 10, |s| - 1) + [('0' as int + n % 10) as char];
      assert s == init + [last];
    }
  }

  /** "YYYY-MM-DD". */
  function RenderDate(d: Date): (s: string)
    requires 0 <= d.year && 0 <= d.month && 0 <= d.day
    ensures |s| == 10
  {
    PadDigits(d.year, 4) + "-" + PadDigits(d.month, 2) + "-" + PadDigits(d.day, 2)
  }

  /** "HH:MM:SS.fff". */
  function RenderClock(t: DateTime): (s: string)
    requires 0 <= t.hour && 0 <= t.minute && 0 <= t.second && 0 <= t.milli
    ensures |s| == 12
  {
    PadDigits(t.hour, 2) + ":" + PadDigits(t.minute, 2) + ":" + PadDigits(t.second, 2)
    + "." + PadDigits(t.milli, 3)
  }

  /** "+HHMM" or "-HHMM". */
  function RenderOffset(o: Offset): (s: string)
    requires 0 <= o.hours && 0 <= o.minutes
    ensures |s| == 5
  {
    (if o.negative then "-" else "+") + PadDigits(o.hours, 2) + PadDigits(o.minutes, 2)
  }

  /** The timestamp as the repository's data writes it. */
  function Render(st: Stamp): (s: string)
    requires ValidStamp(st)
    ensures |s| == 29
  {
    RenderDate(st.local.date) + " " + RenderClock(st.local) + " " + RenderOffset(st.offset)
  }

  /** The digits of s at [start, start + width), as a number. */
  function FieldAt(s: string, start: nat, width: nat): nat
    requires start + width <= |s| && AllDigits(s[start..start + width])
  {
    DecimalValue(s[start..start + width])
  }

  predicate WellShaped(s: string) {
    |s| == 29
    && AllDigits(s[0..4]) && s[4] == '-' && AllDigits(s[5..7]) && s[7] == '-'
    && AllDigits(s[8..10]) && s[10] == ' ' && AllDigits(s[11..13]) && s[13] == ':'
    && AllDigits(s[14..16]) && s[16] == ':' && AllDigits(s[17..19]) && s[19] == '.'
    && AllDigits(s[20..23]) && s[23] == ' ' && (s[24] == '+' || s[24] == '-')
    && AllDigits(s[25..27]) && AllDigits(s[27..29])
  }

  /** Reads the fields of a timestamp string; None when the string is not
      in the layout or names no real date, time or offset. */
  function Lex(s: string): (r: Option<Stamp>)
    ensures r.Some? ==> ValidStamp(r.value) && Render(r.value) == s
  {
    if !WellShaped(s) then None
    else
      var st := Stamp(
        DateTime(Date(FieldAt(s, 0, 4), FieldAt(s, 5, 2), FieldAt(s, 8, 2)),
                 FieldAt(s, 11, 2), FieldAt(s, 14, 2), FieldAt(s, 17, 2), FieldAt(s, 20, 3)),
        Offset(s[24] == '-', FieldAt(s, 25, 2), FieldAt(s, 27, 2)));
      if !ValidStamp(st) then None
      else
        RenderOfLex(s, st);
        Some(st)
  }

  lemma RenderOfLex(s: string, st: Stamp)
    requires WellShaped(s) && ValidStamp(st)
    requires st == Stamp(
        DateTime(Date(FieldAt(s, 0, 4), FieldAt(s, 5, 2), FieldAt(s, 8, 2)),
                 FieldAt(s, 11, 2), FieldAt(s, 14, 2), FieldAt(s, 17, 2), FieldAt(s, 20, 3)),
        Offset(s[24] == '-', FieldAt(s, 25, 2), FieldAt(s, 27, 2)))
    ensures Render(st) == s
  {
    DateOfLex(s);
    ClockOfLex(s);
    OffsetOfLex(s);
    assert s == s[..10] + [s[10]] + s[11..23] + [s[23]] + s[24..];
  }

  lemma DateOfLex(s: string)
    requires WellShaped(s)
    ensures RenderDate(Date(FieldAt(s, 0, 4), FieldAt(s, 5, 2), FieldAt(s, 8, 2))) == s[..10]
  {
    PadOfDecimal(s[0..4]);
    PadOfDecimal(s[5..7]);
    PadOfDecimal(s[8..10]);
    assert s[..10] == s[0..4] + [s[4]] + s[5..7] + [s[7]] + s[8..10];
  }

  lemma ClockOfLex(s: string)
    requires WellShaped(s)
    ensures RenderClock(DateTime(Date(0, 0, 0), FieldAt(s, 11, 2), FieldAt(s, 14, 2),
                                 FieldAt(s, 17, 2), FieldAt(s, 20, 3))) == s[11..23]
  {
    PadOfDecimal(s[11..13]);
    PadOfDecimal(s[14..16]);
    PadOfDecimal(s[17..19]);
    PadOfDecimal(s[20..23]);
    assert s[11..23] == s[11..13] + [s[13]] + s[14..16] + [s[16]] + s[17..19] + [s[19]] + s[20..23];
  }

  lemma OffsetOfLex(s: string)
    requires WellShaped(s)
    ensures RenderOffset(Offset(s[24] == '-', FieldAt(s, 25, 2), FieldAt(s, 27, 2))) == s[24..]
  {
    PadOfDecimal(s[25..27]);
    PadOfDecimal(s[27..29]);
    assert s[24..] == [s[24]] + s[25..27] + s[27..29];
  }

  /** Where each field of a rendered stamp sits. */
  lemma RenderLayout(st: Stamp)
    requires ValidStamp(st)
    ensures var s, t := Render(st), st.local;
      s[0..4] == PadDigits(t.date.year, 4) && s[4] == '-'
      && s[5..7] == PadDigits(t.date.month, 2) && s[7] == '-'
      && s[8..10] == PadDigits(t.date.day, 2) && s[10] == ' '
      && s[11..13] == PadDigits(t.hour, 2) && s[13] == ':'
      && s[14..16] == PadDigits(t.minute, 2) && s[16] == ':'
      && s[17..19] == PadDigits(t.second, 2) && s[19] == '.'
      && s[20..23] == PadDigits(t.milli, 3) && s[23] == ' '
      && s[24] == (if st.offset.negative then '-' else '+')
      && s[25..27] == PadDigits(st.offset.hours, 2) && s[27..29] == PadDigits(st.offset.minutes, 2)
  {
    var s, t := Render(st), st.local;
    var date, clock, off := RenderDate(t.date), RenderClock(t), RenderOffset(st.offset);
    assert s[..10] == date && s[11..23] == clock && s[24..] == off;
    assert date[8..10] == PadDigits(t.date.day, 2);
    assert clock[9..12] == PadDigits(t.milli, 3);
    assert off[1..3] == PadDigits(st.offset.hours, 2);
  }

  /** Every valid stamp is read back from its rendering. */
  lemma LexOfRender(st: Stamp)
    requires ValidStamp(st)
    ensures Lex(Render(st)) == Some(st)
  {
    var t := st.local;
    var s := Render(st);
    RenderLayout(st);
    assert Pow10(2) == 100 && Pow10(3) == 1000 && Pow10(4) == 10000;
    DecimalOfPad(t.date.year, 4);
    DecimalOfPad(t.date.month, 2);
    DecimalOfPad(t.date.day, 2);
    DecimalOfPad(t.hour, 2);
    DecimalOfPad(t.minute, 2);
    DecimalOfPad(t.second, 2);
    DecimalOfPad(t.milli, 3);
    DecimalOfPad(st.offset.hours, 2);
    DecimalOfPad(st.offset.minutes, 2);
    assert WellShaped(s);
  }

  /** pandas 2.x parses strings to datetime64[ns], which holds an instant
      only when its count of nanoseconds fits a signed 64-bit integer other
      than the NaT sentinel. */
  predicate InNanosecondRange(ms: int) {
    -0x8000_0000_0000_0000 < ms * 1_000_000 <= 0x7FFF_FFFF_FFFF_FFFF
  }

  /** pd.to_datetime(s, errors="coerce", utc=True) for one string: the
      instant in UTC milliseconds, or None (NaT). */
  function ParseInstant(s: string): (r: Option<int>)
    ensures r.Some? ==> InNanosecondRange(r.value)
    ensures r.Some? <==> Lex(s).Some? && InNanosecondRange(StampInstant(Lex(s).value))
    ensures r.Some? ==> r.value == StampInstant(Lex(s).value)
  {
    match Lex(s)
    case None => None
    case Some(st) => if InNanosecondRange(StampInstant(st)) then Some(StampInstant(st)) else None
  }

  /** Parsing a rendered stamp gives the instant it denotes, shifted to UTC,
      whenever that instant is representable. */
  lemma ParseInstantOfRender(st: Stamp)
    requires ValidStamp(st)
    ensures ParseInstant(Render(st)) ==
      if InNanosecondRange(StampInstant(st)) then Some(StampInstant(st)) else None
  {
    LexOfRender(st);
  }

  /** The UTC breakdown of a parsed instant names the same instant as the
      local time and offset it was written with. */
  lemma ParsedInstantIsUtc(s: string)
    requires ParseInstant(s).Some?
    ensures var st := Lex(s).value;
      InstantOf(UtcOf(ParseInstant(s).value), 0) == InstantOf(st.local, OffsetMinutes(st.offset))
  {
  }

  /** Every date-time of a year from 1678 to 2261 is representable. */
  lemma YearsInNanosecondRange(st: Stamp)
    requires ValidStamp(st) && 1678 <= st.local.date.year <= 2261
    ensures InNanosecondRange(StampInstant(st))
  {
    var d := st.local.date;
    DaysBeforeYearMonotone(1678, d.year);
    DaysBeforeYearMonotone(d.year + 1, 2262);
    DaysBeforeYearStep(d.year);
    DaysBeforeMonthMonotone(d.year, d.month, 13);
    DaysBeforeMonthStep(d.year, 1);
    assert DaysBeforeYear(1678) == -106_650;
    assert DaysBeforeYear(2262) == 106_651;
  }
}
