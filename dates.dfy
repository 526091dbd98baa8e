/** `dateStr` and `timeStr` of src/common/utils/dates.ts: the day key YYYYMMDD and the time
    key HHMMSSmmm under which activity samples are stored. Splitting an epoch instant into
    local calendar fields is the Date library's business and enters as `decompose`. */
module Dates {
  import opened Errors
  import opened Decimal
  import Keys

  /** The local calendar fields of an instant, as Date's getters give them (month 0-based). */
  datatype DateTime = DateTime(
    year: nat, month: nat, day: nat,
    hour: nat, minute: nat, second: nat, millisecond: nat)

  /** The key of the day: year to 4, month + 1 to 2, day to 2 characters. */
  function DateStr(t: DateTime): string {
    Field(t.year, 4) + Field(t.month + 1, 2) + Field(t.day, 2)
  }

  /** The key of the time within the day: hours, minutes, seconds to 2, milliseconds to 3. */
  function TimeStr(t: DateTime): string {
    Field(t.hour, 2) + Field(t.minute, 2) + Field(t.second, 2) + Field(t.millisecond, 3)
  }

  /** `d ? new Date(d) : new Date()`: an absent argument or 0 is falsy and means "now". */
  function ResolveInstant(d: Option<int>, now: int): (instant: int)
    ensures d.None? || d == Some(0) ==> instant == now
    ensures d.Some? && d.value != 0 ==> instant == d.value
  {
    if d.Some? && d.value != 0 then d.value else now
  }

  /** `dateStr(d)`, given the clock and the calendar. */
  function DateKey(d: Option<int>, now: int, decompose: int -> DateTime): string {
    DateStr(decompose(ResolveInstant(d, now)))
  }

  /** `timeStr(d)`, given the clock and the calendar. */
  function TimeKey(d: Option<int>, now: int, decompose: int -> DateTime): string {
    TimeStr(decompose(ResolveInstant(d, now)))
  }

  predicate DateInRange(t: DateTime) {
    t.year <= 9999 && t.month <= 11 && 1 <= t.day <= 31
  }

  predicate TimeInRange(t: DateTime) {
    t.hour <= 23 && t.minute <= 59 && t.second <= 59 && t.millisecond <= 999
  }

  /** Calendar order of the day fields. */
  predicate DayBefore(t: DateTime, u: DateTime) {
    t.year < u.year
    || (t.year == u.year && t.month < u.month)
    || (t.year == u.year && t.month == u.month && t.day < u.day)
  }

  /** Clock order of the time fields. */
  predicate TimeBefore(t: DateTime, u: DateTime) {
    t.hour < u.hour
    || (t.hour == u.hour && t.minute < u.minute)
    || (t.hour == u.hour && t.minute == u.minute && t.second < u.second)
    || (t.hour == u.hour && t.minute == u.minute && t.second == u.second && t.millisecond < u.millisecond)
  }

  /** `k` is 8 digits whose slices [0,4), [4,6), [6,8) read back as the year, the 1-based
      month and the day of `t`, and whose numeric value is YYYYMMDD. */
  predicate DateKeyReadsBack(k: string, t: DateTime) {
    && |k| == 8 && AllDigits(k)
    && Value(k[0..4]) == t.year && Value(k[4..6]) == t.month + 1 && Value(k[6..8]) == t.day
    && Value(k) == t.year * 10000 + (t.month + 1) * 100 + t.day
  }

  /** `k` is 9 digits whose slices read back as the time fields of `t`, and whose numeric
      value is HHMMSSmmm. */
  predicate TimeKeyReadsBack(k: string, t: DateTime) {
    && |k| == 9 && AllDigits(k)
    && Value(k[0..2]) == t.hour && Value(k[2..4]) == t.minute
    && Value(k[4..6]) == t.second && Value(k[6..9]) == t.millisecond
    && Value(k) == t.hour * 10000000 + t.minute * 100000 + t.second * 1000 + t.millisecond
  }

  /** A day key of in-range fields reads back as those fields: nothing is lost or shifted. */
  lemma DateStrRoundTrip(t: DateTime)
    requires DateInRange(t)
    ensures DateKeyReadsBack(DateStr(t), t)
  {
    DateFieldsReadBack(t);
  }

  /** A time key of in-range fields reads back as those fields. */
  lemma TimeStrRoundTrip(t: DateTime)
    requires TimeInRange(t)
    ensures TimeKeyReadsBack(TimeStr(t), t)
  {
    TimeFieldsReadBack(t);
  }

  lemma DateFieldsReadBack(t: DateTime)
    requires DateInRange(t)
    ensures DateKeyReadsBack(Field(t.year, 4) + Field(t.month + 1, 2) + Field(t.day, 2), t)
  {
    PowersOfTen();
    FieldRoundTrip(t.year, 4);
    FieldRoundTrip(t.month + 1, 2);
    FieldRoundTrip(t.day, 2);
    Join3(Field(t.year, 4), Field(t.month + 1, 2), Field(t.day, 2));
  }

  lemma TimeFieldsReadBack(t: DateTime)
    requires TimeInRange(t)
    ensures TimeKeyReadsBack(Field(t.hour, 2) + Field(t.minute, 2) + Field(t.second, 2) + Field(t.millisecond, 3), t)
  {
    PowersOfTen();
    FieldRoundTrip(t.hour, 2);
    FieldRoundTrip(t.minute, 2);
    FieldRoundTrip(t.second, 2);
    FieldRoundTrip(t.millisecond, 3);
    TimeJoin(Field(t.hour, 2), Field(t.minute, 2), Field(t.second, 2), Field(t.millisecond, 3), t);
  }

  lemma TimeJoin(h: string, mi: string, s: string, ms: string, t: DateTime)
    requires |h| == 2 && |mi| == 2 && |s| == 2 && |ms| == 3
    requires AllDigits(h) && AllDigits(mi) && AllDigits(s) && AllDigits(ms)
    requires Value(h) == t.hour && Value(mi) == t.minute && Value(s) == t.second
    requires Value(ms) == t.millisecond
    ensures TimeKeyReadsBack(h + mi + s + ms, t)
  {
    PowersOfTen();
    var hm := h + mi;
    assert hm[0..2] == h && hm[2..4] == mi;
    ValueConcat(h, mi);
    Join3(hm, s, ms);
    var k := hm + s + ms;
    assert k[0..2] == hm[0..2] && k[2..4] == hm[2..4];
  }

  lemma PowersOfTen()
    ensures Pow10(2) == 100 && Pow10(3) == 1000 && Pow10(4) == 10000
  {
  }

  /** Slicing and reading three consecutive digit fields, the middle one 2 wide. */
  lemma Join3(a: string, b: string, c: string)
    requires AllDigits(a) && AllDigits(b) && AllDigits(c)
    requires (|a| == 2 || |a| == 4) && |b| == 2
    requires |c| == 2 || |c| == 3
    ensures var k := a + b + c;
      && AllDigits(k) && |k| == |a| + |b| + |c|
      && k[0..|a|] == a && k[|a|..|a| + |b|] == b && k[|a| + |b|..|k|] == c
      && Value(k) == (Value(a) * 100 + Value(b)) * Pow10(|c|) + Value(c)
  {
    var k := a + b + c;
    assert k[0..|a|] == a && k[|a|..|a| + |b|] == b && k[|a| + |b|..|k|] == c;
    assert Pow10(2) == 100;
    ValueConcat(a, b);
    ValueConcat(a + b, c);
  }

  /** padStart does not truncate: from year 10000 on the day key is longer than 8. */
  lemma LongYearLongKey(t: DateTime)
    requires t.year >= 10000
    ensures |DateStr(t)| > 8
  {
    FieldOverflow(t.year, 4);
  }

  /** A date whose day key is integer-like: a year of four digits or more, so never padded,
      and a month and day in range. */
  predicate KeyDate(t: DateTime) {
    1000 <= t.year && t.month <= 11 && 1 <= t.day <= 31
  }

  /** The day key of such a date is integer-like and denotes YYYYMMDD, the year taking as many
      digits as it needs. */
  lemma DateKeyValue(t: DateTime)
    requires KeyDate(t)
    ensures Canonical(DateStr(t))
    ensures Value(DateStr(t)) == t.year * 10000 + (t.month + 1) * 100 + t.day
  {
    PowersOfTen();
    var y, m, d := Field(t.year, 4), Field(t.month + 1, 2), Field(t.day, 2);
    FieldUnpadded(t.year, 4);
    FieldRoundTrip(t.month + 1, 2);
    FieldRoundTrip(t.day, 2);
    ValueConcat(y, m);
    ValueConcat(y + m, d);
    assert DateStr(t) == (y + m) + d;
    assert DateStr(t)[0] == y[0];
  }

  /** Object.keys lists the day keys of such dates in calendar order, whatever the width of
      the year. */
  lemma DateKeyOrder(t: DateTime, u: DateTime)
    requires KeyDate(t) && KeyDate(u)
    ensures Keys.Less(DateStr(t), DateStr(u)) <==> DayBefore(t, u)
  {
    DateKeyValue(t);
    DateKeyValue(u);
    LessIsNumeric(DateStr(t), DateStr(u));
  }

  /** For in-range fields, string comparison of time keys is clock order. */
  lemma TimeKeyOrder(t: DateTime, u: DateTime)
    requires TimeInRange(t) && TimeInRange(u)
    ensures Keys.Lex(TimeStr(t), TimeStr(u)) <==> TimeBefore(t, u)
  {
    TimeStrRoundTrip(t);
    TimeStrRoundTrip(u);
    LexIsNumeric(TimeStr(t), TimeStr(u));
  }
}
