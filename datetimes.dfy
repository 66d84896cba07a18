/**
 * Naive (zone-less) date-times as Python's `datetime.datetime` holds them: the
 * ordering used to classify records, the `timedelta(days=7)` subtraction that
 * yields the cutoff, the `strftime` projections written into rows, summaries and
 * file names, and the `strptime` parse of an image's creation date.
 */
module DateTimes {
  import opened Wrappers
  import opened Decimal

  datatype Timestamp = Timestamp(year: int, month: int, day: int,
                                 hour: int, minute: int, second: int, micro: int)
  {
    /** The ranges Python's `datetime` constructor accepts. */
    predicate Valid() {
      1 <= year <= 9999 && 1 <= month <= 12 && 1 <= day <= DaysInMonth(year, month) &&
      0 <= hour < 24 && 0 <= minute < 60 && 0 <= second < 60 && 0 <= micro < 1000000
    }
  }

  type DateTime = t: Timestamp | t.Valid() witness Timestamp(1970, 1, 1, 0, 0, 0, 0)

  predicate IsLeap(year: int) {
    year % 4 == 0 && (year % 100 != 0 || year % 400 == 0)
  }

  function DaysInMonth(year: int, month: int): (n: int)
    requires 1 <= month <= 12
    ensures 28 <= n <= 31
  {
    if month == 2 then (if IsLeap(year) then 29 else 28)
    else if month == 4 || month == 6 || month == 9 || month == 11 then 30
    else 31
  }

  /** Days in the months of `year` before `month` (Python's `_days_before_month`). */
  function DaysBeforeMonth(year: int, month: int): nat
    requires 1 <= month <= 12
  {
    [0, 31, 59, 90, 120, 151, 181, 212, 243, 273, 304, 334][month - 1] +
    (if month > 2 && IsLeap(year) then 1 else 0)
  }

  /** Days in the years before `year` (Python's `_days_before_year`). */
  function DaysBeforeYear(year: int): int
    requires year >= 1
  {
    var y := year - 1;
    y * 365 + y / 4 - y / 100 + y / 400
  }

  /** Python's `date.toordinal()`: 0001-01-01 is day 1. */
  function Ordinal(t: DateTime): int {
    DaysBeforeYear(t.year) + DaysBeforeMonth(t.year, t.month) + t.day
  }

  /** Python's `<` on naive datetimes: lexicographic on the fields. */
  predicate Before(a: Timestamp, b: Timestamp) {
    a.year < b.year || (a.year == b.year &&
    (a.month < b.month || (a.month == b.month &&
    (a.day < b.day || (a.day == b.day &&
    (a.hour < b.hour || (a.hour == b.hour &&
    (a.minute < b.minute || (a.minute == b.minute &&
    (a.second < b.second || (a.second == b.second && a.micro < b.micro)))))))))))
  }

  lemma BeforeIsStrictTotalOrder(a: Timestamp, b: Timestamp, c: Timestamp)
    ensures !Before(a, a)
    ensures Before(a, b) ==> !Before(b, a)
    ensures Before(a, b) && Before(b, c) ==> Before(a, c)
    ensures a != b ==> Before(a, b) || Before(b, a)
  {
  }

  predicate SameTimeOfDay(a: Timestamp, b: Timestamp) {
    a.hour == b.hour && a.minute == b.minute && a.second == b.second && a.micro == b.micro
  }

  /** The same time one calendar day earlier; None below 0001-01-01 (Python's OverflowError). */
  function PrevDay(t: DateTime): Option<DateTime> {
    if t.day > 1 then Some(t.(day := t.day - 1))
    else if t.month > 1 then Some(t.(month := t.month - 1, day := DaysInMonth(t.year, t.month - 1)))
    else if t.year > 1 then Some(t.(year := t.year - 1, month := 12, day := 31))
    else None
  }

  /** `t - timedelta(days=n)`, None when the result would precede year 1. */
  function MinusDays(t: DateTime, n: nat): Option<DateTime>
    decreases n
  {
    if n == 0 then Some(t)
    else match PrevDay(t)
      case None => None
      case Some(p) => MinusDays(p, n - 1)
  }

  /** How many multiples of 4, 100 and 400 the step from y - 1 to y crosses. */
  lemma QuotientSteps(y: int)
    requires y >= 1
    ensures y / 4 - (y - 1) / 4 == if y % 4 == 0 then 1 else 0
    ensures y / 100 - (y - 1) / 100 == if y % 100 == 0 then 1 else 0
    ensures y / 400 - (y - 1) / 400 == if y % 400 == 0 then 1 else 0
  {
  }

  lemma YearLength(y: int)
    requires y >= 1
    ensures DaysBeforeYear(y + 1) - DaysBeforeYear(y) == if IsLeap(y) then 366 else 365
  {
    QuotientSteps(y);
    DivisorChain(y);
    assert y * 365 == (y - 1) * 365 + 365;
  }

  /** A multiple of 400 is a multiple of 100, and a multiple of 100 is a multiple of 4. */
  lemma DivisorChain(y: int)
    ensures y % 400 == 0 ==> y % 100 == 0
    ensures y % 100 == 0 ==> y % 4 == 0
  {
    if y % 400 == 0 {
      assert y == 400 * (y / 400);
      MultipleMod(y / 400);
    }
    if y % 100 == 0 {
      assert y == 100 * (y / 100);
      MultipleMod(y / 100);
    }
  }

  lemma MultipleMod(q: int)
    ensures (400 * q) % 100 == 0 && (100 * q) % 4 == 0
  {
  }

  lemma PrevDayOrdinal(t: DateTime)
    ensures PrevDay(t).Some? <==> Ordinal(t) > 1
    ensures PrevDay(t).Some? ==>
      var p := PrevDay(t).value;
      Ordinal(p) == Ordinal(t) - 1 && SameTimeOfDay(p, t) && Before(p, t)
  {
    if t.day == 1 && t.month == 1 && t.year > 1 {
      YearLength(t.year - 1);
    }
  }

  /** Subtracting n days moves the ordinal back by exactly n, keeps the time of day and
      fails exactly when the result would fall before 0001-01-01. */
  lemma {:induction false} MinusDaysOrdinal(t: DateTime, n: nat)
    ensures MinusDays(t, n).Some? <==> Ordinal(t) - n >= 1
    ensures MinusDays(t, n).Some? ==>
      var c := MinusDays(t, n).value;
      Ordinal(c) == Ordinal(t) - n && SameTimeOfDay(c, t) && (n > 0 ==> Before(c, t))
    decreases n
  {
    if n > 0 {
      PrevDayOrdinal(t);
      match PrevDay(t)
      case None =>
      case Some(p) =>
        MinusDaysOrdinal(p, n - 1);
        if MinusDays(p, n - 1).Some? {
          BeforeIsStrictTotalOrder(MinusDays(p, n - 1).value, p, t);
        }
    }
  }

  /** `strftime('%Y-%m-%d')`. */
  function DateText(t: DateTime): string {
    Padded(t.year, 4) + "-" + Padded(t.month, 2) + "-" + Padded(t.day, 2)
  }

  /** `strftime('%H:%M:%S')`. */
  function TimeText(t: DateTime): string {
    Padded(t.hour, 2) + ":" + Padded(t.minute, 2) + ":" + Padded(t.second, 2)
  }

  /** `strftime('%Y-%m-%d__%H-%M-%S')`, the stamp in report file names. */
  function StampText(t: DateTime): string {
    DateText(t) + "__" + Padded(t.hour, 2) + "-" + Padded(t.minute, 2) + "-" + Padded(t.second, 2)
  }

  /** `strftime('%Y-%m-%dT%H:%M:%S.%fZ')`, the format image creation dates are listed in. */
  function IsoText(t: DateTime): string {
    DateText(t) + "T" + TimeText(t) + "." + Padded(t.micro, 6) + "Z"
  }

  /** The fixed separators and digit fields of `%Y-%m-%dT%H:%M:%S.%fZ` (matched without regard to case). */
  predicate IsoShaped(s: string) {
    22 <= |s| <= 27 &&
    AllDigits(s[0..4]) && s[4] == '-' && AllDigits(s[5..7]) && s[7] == '-' &&
    AllDigits(s[8..10]) && (s[10] == 'T' || s[10] == 't') &&
    AllDigits(s[11..13]) && s[13] == ':' && AllDigits(s[14..16]) && s[16] == ':' &&
    AllDigits(s[17..19]) && s[19] == '.' && AllDigits(s[20..|s| - 1]) &&
    (s[|s| - 1] == 'Z' || s[|s| - 1] == 'z')
  }

  /** The fields an `IsoShaped` text names; `%f` is padded on the right to microseconds. */
  function IsoFields(s: string): Timestamp
    requires IsoShaped(s)
  {
    var frac := s[20..|s| - 1];
    Timestamp(Value(s[0..4]), Value(s[5..7]), Value(s[8..10]),
              Value(s[11..13]), Value(s[14..16]), Value(s[17..19]),
              Value(frac) * Pow10(6 - |frac|))
  }

  /** `datetime.strptime(s, '%Y-%m-%dT%H:%M:%S.%fZ')`; None where Python raises ValueError. */
  function ParseIso(s: string): (r: Option<DateTime>)
    ensures r.Some? <==> IsoShaped(s) && IsoFields(s).Valid()
  {
    if IsoShaped(s) && IsoFields(s).Valid() then Some(IsoFields(s)) else None
  }

  /** Where each field and separator sits in what `IsoText` prints. */
  lemma IsoTextLayout(t: DateTime)
    ensures var s := IsoText(t);
      |s| == 27 &&
      s[0..4] == Padded(t.year, 4) && s[4] == '-' && s[5..7] == Padded(t.month, 2) && s[7] == '-' &&
      s[8..10] == Padded(t.day, 2) && s[10] == 'T' &&
      s[11..13] == Padded(t.hour, 2) && s[13] == ':' && s[14..16] == Padded(t.minute, 2) && s[16] == ':' &&
      s[17..19] == Padded(t.second, 2) && s[19] == '.' && s[20..26] == Padded(t.micro, 6) && s[26] == 'Z'
  {
    var s := IsoText(t);
    assert s[0..4] == Padded(t.year, 4);
    assert s[5..7] == Padded(t.month, 2);
    assert s[8..10] == Padded(t.day, 2);
    assert s[11..13] == Padded(t.hour, 2);
    assert s[14..16] == Padded(t.minute, 2);
    assert s[17..19] == Padded(t.second, 2);
    assert s[20..26] == Padded(t.micro, 6);
  }

  /** Parsing what `IsoText` prints gives back the same instant. */
  lemma ParseIsoText(t: DateTime)
    ensures ParseIso(IsoText(t)) == Some(t)
  {
    IsoTextLayout(t);
    ValueOfPadded(t.year, 4);
    ValueOfPadded(t.month, 2);
    ValueOfPadded(t.day, 2);
    ValueOfPadded(t.hour, 2);
    ValueOfPadded(t.minute, 2);
    ValueOfPadded(t.second, 2);
    ValueOfPadded(t.micro, 6);
    var s := IsoText(t);
    assert IsoShaped(s);
    assert IsoFields(s) == t;
  }

  /** The Date and Time columns of a parsed creation date show its text's own date and time. */
  lemma ParsedTextShown(s: string)
    requires ParseIso(s).Some?
    ensures DateText(ParseIso(s).value) == s[0..10]
    ensures TimeText(ParseIso(s).value) == s[11..19]
  {
    DateShown(s);
    TimeShown(s);
  }

  lemma DateShown(s: string)
    requires ParseIso(s).Some?
    ensures DateText(ParseIso(s).value) == s[0..10]
  {
    PaddedOfValue(s[0..4]);
    PaddedOfValue(s[5..7]);
    PaddedOfValue(s[8..10]);
    assert s[0..10] == s[0..4] + "-" + s[5..7] + "-" + s[8..10];
  }

  lemma TimeShown(s: string)
    requires ParseIso(s).Some?
    ensures TimeText(ParseIso(s).value) == s[11..19]
  {
    PaddedOfValue(s[11..13]);
    PaddedOfValue(s[14..16]);
    PaddedOfValue(s[17..19]);
    assert s[11..19] == s[11..13] + ":" + s[14..16] + ":" + s[17..19];
  }

  /** Every accepted text is the `IsoText` rendering of its result, once 't' and 'z' are written
      upper-case and the fraction is padded on the right with zeros to six digits. */
  lemma ParseIsoCanonical(s: string)
    requires ParseIso(s).Some?
    ensures var frac := s[20..|s| - 1];
      IsoText(ParseIso(s).value) == s[0..10] + "T" + s[11..19] + "." + frac + Zeros(6 - |frac|) + "Z"
  {
    var t := ParseIso(s).value;
    var frac := s[20..|s| - 1];
    ParsedTextShown(s);
    PaddedShift(Value(frac), |frac|, 6 - |frac|);
    PaddedOfValue(frac);
    assert Padded(t.micro, 6) == frac + Zeros(6 - |frac|);
  }
}
