/**
 * Date helpers of the outline engine: ISO calendar-date validation through a
 * `Date.UTC` round trip, input normalisation, and the keys used for sorting
 * and grouping sibling tasks.
 */
module Dates {
  import opened Wrappers
  import opened Text
  import opened JsonValues

  /** `dateSortKey` of a task without a date. */
  const NoDateSortKey: string := "9999-12-31"
  /** `dateKeyForGrouping` of a task without a date. */
  const NoDateGroupKey: string := "__none__"

  // ----- Gregorian calendar, as JavaScript's Date computes it -----

  predicate IsLeapYear(y: int)
  {
    y % 4 == 0 && (y % 100 != 0 || y % 400 == 0)
  }

  /** Days in month `m`, counted from 0 as `getUTCMonth` does. */
  function DaysInMonth(y: int, m: int): (n: int)
    requires 0 <= m < 12
    ensures 28 <= n <= 31
    ensures n == 29 <==> m == 1 && IsLeapYear(y)
  {
    if m == 1 then (if IsLeapYear(y) then 29 else 28)
    else if m == 3 || m == 5 || m == 8 || m == 10 then 30
    else 31
  }

  /** The UTC year, month (0..11) and day of a `Date`. */
  datatype UtcDate = UtcDate(year: int, month: int, day: int)

  predicate IsCalendarDate(u: UtcDate)
  {
    0 <= u.month < 12 && 1 <= u.day <= DaysInMonth(u.year, u.month)
  }

  /**
   * Day `d` of month `m` of year `y`, where `d` may be 0 (the last day of the
   * previous month) or run past the end of the month: `MakeDay`'s overflow.
   */
  function NormalizeDay(y: int, m: int, d: int): (u: UtcDate)
    requires 0 <= m < 12 && d >= 0
    ensures IsCalendarDate(u)
    ensures u.year >= (if d >= 1 then y else y - 1)
    ensures 1 <= d <= DaysInMonth(y, m) ==> u == UtcDate(y, m, d)
    decreases if d >= 1 then 0 else 1, d
  {
    if d < 1 then
      var py, pm := if m == 0 then y - 1 else y, if m == 0 then 11 else m - 1;
      NormalizeDay(py, pm, d + DaysInMonth(py, pm))
    else if d > DaysInMonth(y, m) then
      var ny, nm := if m == 11 then y + 1 else y, if m == 11 then 0 else m + 1;
      NormalizeDay(ny, nm, d - DaysInMonth(y, m))
    else
      UtcDate(y, m, d)
  }

  /**
   * `new Date(Date.UTC(y, m, d))` read back with `getUTCFullYear`,
   * `getUTCMonth` and `getUTCDate`. Years 0..99 mean 1900..1999; a month
   * outside 0..11 carries into the year.
   */
  function UtcRoundTrip(y: int, m: int, d: int): (u: UtcDate)
    requires d >= 0
    ensures IsCalendarDate(u)
  {
    var fullYear := if 0 <= y <= 99 then 1900 + y else y;
    NormalizeDay(fullYear + m / 12, m % 12, d)
  }

  // ----- isValidISODateString -----

  /** `/^\d{4}-\d{2}-\d{2}$/` */
  predicate HasIsoShape(s: string)
  {
    |s| == 10 && s[4] == '-' && s[7] == '-'
    && AllDigits(s[..4]) && AllDigits(s[5..7]) && AllDigits(s[8..])
  }

  function YearOf(s: string): nat requires HasIsoShape(s) { DigitsValue(s[..4]) }
  function MonthOf(s: string): nat requires HasIsoShape(s) { DigitsValue(s[5..7]) }
  function DayOf(s: string): nat requires HasIsoShape(s) { DigitsValue(s[8..]) }

  /** `isValidISODateString` on a string. */
  predicate IsValidDateText(s: string)
  {
    && HasIsoShape(s)
    && UtcRoundTrip(YearOf(s), MonthOf(s) - 1, DayOf(s)) == UtcDate(YearOf(s), MonthOf(s) - 1, DayOf(s))
  }

  /** `isValidISODateString(iso)` for any parsed value: `null` is a valid "no date". */
  predicate IsValidISODateString(iso: Json)
  {
    match iso
    case JNull => true
    case JStr(s) => IsValidDateText(s)
    case _ => false
  }

  /**
   * The round trip accepts exactly the real Gregorian dates from year 100 on:
   * years 0000-0099 are remapped by `Date.UTC` and so always fail.
   */
  lemma ValidDateCharacterization(s: string)
    ensures IsValidDateText(s) <==>
      HasIsoShape(s) && 100 <= YearOf(s) && 1 <= MonthOf(s) <= 12
      && 1 <= DayOf(s) <= DaysInMonth(YearOf(s), MonthOf(s) - 1)
  {
    if HasIsoShape(s) {
      var y: int, m: int, d: int := YearOf(s), MonthOf(s), DayOf(s);
      var u := UtcRoundTrip(y, m - 1, d);
      var fullYear := if 0 <= y <= 99 then 1900 + y else y;
      assert m < 100 && y < 10000;
      assert fullYear + (m - 1) / 12 >= fullYear - 1;
      if u == UtcDate(y, m - 1, d) {
        assert y >= 100;
        assert 0 <= m - 1 < 12;
        assert (m - 1) / 12 == 0 && (m - 1) % 12 == m - 1;
      }
    }
  }

  lemma Digits2(a: char, b: char)
    requires IsDigit(a) && IsDigit(b)
    ensures AllDigits([a, b]) && DigitsValue([a, b]) == 10 * DigitValue(a) + DigitValue(b)
  {
    assert [a, b][1..] == [b];
    assert [b][1..] == [];
  }

  lemma Digits4(a: char, b: char, c: char, d: char)
    requires IsDigit(a) && IsDigit(b) && IsDigit(c) && IsDigit(d)
    ensures AllDigits([a, b, c, d])
    ensures DigitsValue([a, b, c, d]) == 1000 * DigitValue(a) + 100 * DigitValue(b) + 10 * DigitValue(c) + DigitValue(d)
  {
    assert [a, b, c, d][1..] == [b, c, d];
    assert [b, c, d][1..] == [c, d];
    Digits2(c, d);
    assert Pow10(3) == 1000 && Pow10(2) == 100;
  }

  /** The parts of a date written as ten characters. */
  lemma IsoParts(s: string)
    requires |s| == 10 && s[4] == '-' && s[7] == '-'
    requires IsDigit(s[0]) && IsDigit(s[1]) && IsDigit(s[2]) && IsDigit(s[3])
    requires IsDigit(s[5]) && IsDigit(s[6]) && IsDigit(s[8]) && IsDigit(s[9])
    ensures HasIsoShape(s)
    ensures YearOf(s) == 1000 * DigitValue(s[0]) + 100 * DigitValue(s[1]) + 10 * DigitValue(s[2]) + DigitValue(s[3])
    ensures MonthOf(s) == 10 * DigitValue(s[5]) + DigitValue(s[6])
    ensures DayOf(s) == 10 * DigitValue(s[8]) + DigitValue(s[9])
  {
    assert s[..4] == [s[0], s[1], s[2], s[3]];
    assert s[5..7] == [s[5], s[6]];
    assert s[8..] == [s[8], s[9]];
    Digits4(s[0], s[1], s[2], s[3]);
    Digits2(s[5], s[6]);
    Digits2(s[8], s[9]);
  }

  lemma LeapDayParts()
    ensures HasIsoShape("2024-02-29")
    ensures YearOf("2024-02-29") == 2024 && MonthOf("2024-02-29") == 2 && DayOf("2024-02-29") == 29
  {
    var s := "2024-02-29";
    assert s[0] == '2' && s[1] == '0' && s[2] == '2' && s[3] == '4';
    assert s[5] == '0' && s[6] == '2' && s[8] == '2' && s[9] == '9';
    IsoParts(s);
  }

  lemma LeapDayAccepted()
    ensures IsValidDateText("2024-02-29")
  {
    LeapDayParts();
    ValidDateCharacterization("2024-02-29");
    assert IsLeapYear(2024);
  }

  lemma NonexistentDayParts()
    ensures HasIsoShape("2024-02-30")
    ensures YearOf("2024-02-30") == 2024 && MonthOf("2024-02-30") == 2 && DayOf("2024-02-30") == 30
  {
    var s := "2024-02-30";
    assert s[0] == '2' && s[1] == '0' && s[2] == '2' && s[3] == '4';
    assert s[5] == '0' && s[6] == '2' && s[8] == '3' && s[9] == '0';
    IsoParts(s);
  }

  lemma NonexistentDayRejected()
    ensures !IsValidDateText("2024-02-30")
  {
    NonexistentDayParts();
    ValidDateCharacterization("2024-02-30");
  }

  lemma TwoDigitYearRejected()
    ensures !IsValidDateText("0099-01-01")
  {
    IsoParts("0099-01-01");
    ValidDateCharacterization("0099-01-01");
  }

  // ----- Normalisation and keys -----

  /** `normalizeDateInput`: empty or invalid input becomes "no date". */
  function NormalizeDateInput(value: string): (r: Option<string>)
    ensures r.Some? <==> value != "" && IsValidDateText(value)
    ensures r.Some? ==> r.value == value
  {
    if value == "" then None
    else if IsValidDateText(value) then Some(value)
    else None
  }

  /** JavaScript truthiness of a task's `date` field (`null` and `""` are falsy). */
  predicate HasDate(date: Option<string>)
  {
    date.Some? && date.value != ""
  }

  /** `dateSortKey`: "no date" sorts as `9999-12-31`. */
  function DateSortKey(date: Option<string>): (k: string)
    ensures HasDate(date) ==> k == date.value
    ensures !HasDate(date) ==> k == NoDateSortKey
  {
    if HasDate(date) then date.value else NoDateSortKey
  }

  /** `dateKeyForGrouping`: the exact date string, or `__none__`. */
  function DateKeyForGrouping(date: Option<string>): (k: string)
    ensures HasDate(date) ==> k == date.value
    ensures !HasDate(date) ==> k == NoDateGroupKey
  {
    if HasDate(date) then date.value else NoDateGroupKey
  }

  /** The comparator in `enforceGroupOrderingInArray` reads `__none__` as `9999-12-31`. */
  function GroupSortKey(key: string): (k: string)
    ensures key == NoDateGroupKey ==> k == NoDateSortKey
    ensures key != NoDateGroupKey ==> k == key
  {
    if key == NoDateGroupKey then NoDateSortKey else key
  }

  /** Grouping and sorting agree on every date except the literal string `__none__`. */
  lemma GroupKeyAgreesWithSortKey(date: Option<string>)
    requires date != Some(NoDateGroupKey)
    ensures GroupSortKey(DateKeyForGrouping(date)) == DateSortKey(date)
  {
  }

  // ----- String order of valid dates is chronological order -----

  predicate ChronoLess(y1: int, m1: int, d1: int, y2: int, m2: int, d2: int)
  {
    y1 < y2 || (y1 == y2 && (m1 < m2 || (m1 == m2 && d1 < d2)))
  }

  lemma DigitsEqual(a: string, b: string)
    requires AllDigits(a) && AllDigits(b) && |a| == |b|
    ensures a == b <==> DigitsValue(a) == DigitsValue(b)
  {
    DigitsLexOrder(a, b);
    DigitsLexOrder(b, a);
    LexTrichotomy(a, b);
  }

  lemma LexDash(x: string, y: string)
    ensures LexLess("-" + x, "-" + y) <==> LexLess(x, y)
  {
    assert ("-" + x)[1..] == x && ("-" + y)[1..] == y;
  }

  /** Comparing ISO date strings with `<` compares the dates chronologically. */
  lemma DateOrderIsChronological(s: string, t: string)
    requires HasIsoShape(s) && HasIsoShape(t)
    ensures LexLess(s, t) <==>
      ChronoLess(YearOf(s), MonthOf(s), DayOf(s), YearOf(t), MonthOf(t), DayOf(t))
  {
    assert s == s[..4] + ("-" + (s[5..7] + ("-" + s[8..])));
    assert t == t[..4] + ("-" + (t[5..7] + ("-" + t[8..])));
    LexAppend(s[..4], "-" + (s[5..7] + ("-" + s[8..])), t[..4], "-" + (t[5..7] + ("-" + t[8..])));
    LexDash(s[5..7] + ("-" + s[8..]), t[5..7] + ("-" + t[8..]));
    LexAppend(s[5..7], "-" + s[8..], t[5..7], "-" + t[8..]);
    LexDash(s[8..], t[8..]);
    DigitsLexOrder(s[..4], t[..4]);
    DigitsLexOrder(s[5..7], t[5..7]);
    DigitsLexOrder(s[8..], t[8..]);
    DigitsEqual(s[..4], t[..4]);
    DigitsEqual(s[5..7], t[5..7]);
  }

  lemma NoDateKeyParts()
    ensures HasIsoShape(NoDateSortKey)
    ensures YearOf(NoDateSortKey) == 9999 && MonthOf(NoDateSortKey) == 12 && DayOf(NoDateSortKey) == 31
  {
    var s := NoDateSortKey;
    assert s[0] == '9' && s[1] == '9' && s[2] == '9' && s[3] == '9';
    assert s[5] == '1' && s[6] == '2' && s[8] == '3' && s[9] == '1';
    IsoParts(s);
  }

  /** "No date" (`9999-12-31`) sorts after every valid date but `9999-12-31` itself. */
  lemma NoDateSortsLast(s: string)
    requires IsValidDateText(s)
    ensures LexLe(s, NoDateSortKey)
    ensures s != NoDateSortKey ==> LexLess(s, NoDateSortKey)
  {
    ValidDateCharacterization(s);
    NoDateKeyParts();
    assert Pow10(4) == 10000;
    DateOrderIsChronological(NoDateSortKey, s);
    LexTrichotomy(s, NoDateSortKey);
  }
}
