/** Calendar dates and the `last_mod` timestamps of the records.

    A stored `last_mod` is a naive local `datetime`; the model keeps its date and
    its second of the day. The serialisers write only `last_mod.date().isoformat()`
    and the decoders read that text back with `datetime.fromisoformat`, which
    gives midnight of the date. */
module Dates {
  import opened Numerals
  import opened Results

  datatype Date = Date(year: int, month: int, day: int)

  predicate IsLeapYear(y: int) {
    y % 4 == 0 && (y % 100 != 0 || y % 400 == 0)
  }

  function DaysInMonth(y: int, m: int): int
    requires 1 <= m <= 12
  {
    if m == 2 then (if IsLeapYear(y) then 29 else 28)
    else if m == 4 || m == 6 || m == 9 || m == 11 then 30
    else 31
  }

  /** The range of Python's `datetime.date`: years 1 to 9999 of the proleptic Gregorian calendar. */
  predicate IsValidDate(d: Date) {
    1 <= d.year <= 9999 && 1 <= d.month <= 12 && 1 <= d.day <= DaysInMonth(d.year, d.month)
  }

  type CalendarDate = d: Date | IsValidDate(d) witness Date(1, 1, 1)

  type SecondOfDay = s: int | 0 <= s < 86400

  /** A naive `datetime` to the second. */
  datatype DateTime = DateTime(date: CalendarDate, second: SecondOfDay)

  /** What `datetime.fromisoformat` gives for a date-only text: midnight of that date. */
  function StartOfDay(d: CalendarDate): (r: DateTime)
    ensures r.date == d && r.second == 0
  {
    DateTime(d, 0)
  }

  /** `date.isoformat()`: `YYYY-MM-DD`, every field zero-padded. */
  function IsoDate(d: CalendarDate): (r: string)
    ensures |r| == 10 && r[4] == '-' && r[7] == '-'
    ensures AllDigits(r[..4]) && AllDigits(r[5..7]) && AllDigits(r[8..])
  {
    Fixed(d.year, 4) + "-" + Fixed(d.month, 2) + "-" + Fixed(d.day, 2)
  }

  /** The date-only form `datetime.fromisoformat` accepts, with its range checks. */
  function ParseIsoDate(s: string): (r: Option<CalendarDate>)
    ensures r.Some? ==> |s| == 10 && s[4] == '-' && s[7] == '-'
  {
    if |s| == 10 && s[4] == '-' && s[7] == '-'
       && AllDigits(s[..4]) && AllDigits(s[5..7]) && AllDigits(s[8..]) then
      var d := Date(ValueOf(s[..4]), ValueOf(s[5..7]), ValueOf(s[8..]));
      if IsValidDate(d) then Some(d) else None
    else None
  }

  /** Writing a date and reading it back gives the same date. */
  lemma IsoDateRoundTrip(d: CalendarDate)
    ensures ParseIsoDate(IsoDate(d)) == Some(d)
  {
    var s := IsoDate(d);
    assert s[..4] == Fixed(d.year, 4);
    assert s[5..7] == Fixed(d.month, 2);
    assert s[8..] == Fixed(d.day, 2);
    FixedValue(d.year, 4);
    FixedValue(d.month, 2);
    FixedValue(d.day, 2);
  }

  /** Every text the decoder accepts is exactly the text the serialiser writes for the result. */
  lemma ParseIsoDateCanonical(s: string)
    requires ParseIsoDate(s).Some?
    ensures IsoDate(ParseIsoDate(s).value) == s
  {
    ValueFixed(s[..4]);
    ValueFixed(s[5..7]);
    ValueFixed(s[8..]);
    assert s == s[..4] + "-" + s[5..7] + "-" + s[8..];
  }
}
