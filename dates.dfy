/**
 * The date helpers of `utils.ts`. A manifest date is a `DD.MM.YYYY` token;
 * `createDate` turns it into a calendar date, `createReadableDate` renders
 * it with an English month name, and `sortByPublished` is the newest-first
 * comparator every listing sorts with.
 *
 * A calendar date is the key (year, zero-based month, day); the time of day
 * a JavaScript `Date` also carries is not part of the model.
 */
module Dates {
  import opened Strings

  const MonthNames: seq<string> := ["January", "February", "March", "April", "May", "June",
    "July", "August", "September", "October", "November", "December"]

  /** A calendar date; `month` is zero-based as in JavaScript's `Date`. */
  datatype DateKey = DateKey(year: int, month: int, day: int)

  /** Gregorian leap years, as JavaScript's proleptic calendar has them. */
  predicate IsLeapYear(y: int)
  {
    y % 4 == 0 && (y % 100 != 0 || y % 400 == 0)
  }

  function DaysInMonth(y: int, m: int): (n: int)
    requires 0 <= m < 12
    ensures 28 <= n <= 31
  {
    if m == 1 then (if IsLeapYear(y) then 29 else 28)
    else if m == 3 || m == 5 || m == 8 || m == 10 then 30
    else 31
  }

  /** A date that exists in the calendar. */
  predicate ValidKey(k: DateKey)
  {
    0 <= k.month < 12 && 1 <= k.day <= DaysInMonth(k.year, k.month)
  }

  /** `k` is a strictly later calendar date than `other`. */
  predicate Later(k: DateKey, other: DateKey)
  {
    k.year > other.year
    || (k.year == other.year && k.month > other.month)
    || (k.year == other.year && k.month == other.month && k.day > other.day)
  }

  /**
   * The parts of a well-formed manifest date: three numerals, a month 1..12
   * and a day that exists in that month.
   */
  predicate WellFormedParts(p: seq<string>)
  {
    |p| == 3 && IsNumeral(p[0]) && IsNumeral(p[1]) && IsNumeral(p[2])
    && 1 <= NumeralValue(p[1]) <= 12
    && 1 <= NumeralValue(p[0]) <= DaysInMonth(NumeralValue(p[2]), NumeralValue(p[1]) - 1)
  }

  /** A well-formed manifest date: `D.M.Y` with well-formed parts. */
  predicate WellFormedDate(s: string)
  {
    WellFormedParts(Split(s, '.'))
  }

  function KeyOfParts(p: seq<string>): (k: DateKey)
    requires WellFormedParts(p)
    ensures ValidKey(k)
  {
    DateKey(NumeralValue(p[2]), NumeralValue(p[1]) - 1, NumeralValue(p[0]))
  }

  /**
   * The calendar date `createDate` is meant to build from a token: year from
   * part 2, zero-based month from part 1, day from part 0.
   */
  function DateKeyOf(s: string): (k: DateKey)
    requires WellFormedDate(s)
    ensures ValidKey(k)
  {
    KeyOfParts(Split(s, '.'))
  }

  /** The token `D.M.Y` written from three numerals. */
  function Token(d: string, m: string, y: string): string
  {
    d + "." + m + "." + y
  }

  lemma NumeralHasNoDot(s: string)
    requires DigitsOnly(s)
    ensures '.' !in s
  {
  }

  lemma SplitToken(d: string, m: string, y: string)
    requires DigitsOnly(d) && DigitsOnly(m) && DigitsOnly(y)
    ensures Split(Token(d, m, y), '.') == [d, m, y]
  {
    NumeralHasNoDot(d);
    NumeralHasNoDot(m);
    NumeralHasNoDot(y);
    assert [d, m, y][1..] == [m, y] && [m, y][1..] == [y];
    assert Join([m, y], '.') == m + "." + y;
    assert Join([d, m, y], '.') == Token(d, m, y);
    SplitJoin([d, m, y], '.');
  }

  /**
   * `createDate("D.M.Y")` denotes year Y, zero-based month M - 1 and day D,
   * and a token of three numerals with values `dv`, `mv` and `yv` is well
   * formed exactly when that date exists.
   */
  lemma DateKeyOfToken(d: string, m: string, y: string, dv: int, mv: int, yv: int)
    requires IsNumeral(d) && IsNumeral(m) && IsNumeral(y)
    requires NumeralValue(d) == dv && NumeralValue(m) == mv && NumeralValue(y) == yv
    ensures WellFormedDate(Token(d, m, y)) <==> 1 <= mv <= 12 && 1 <= dv <= DaysInMonth(yv, mv - 1)
    ensures WellFormedDate(Token(d, m, y)) ==> DateKeyOf(Token(d, m, y)) == DateKey(yv, mv - 1, dv)
  {
    SplitToken(d, m, y);
    PartsOfToken(Split(Token(d, m, y), '.'), d, m, y, dv, mv, yv);
  }

  lemma PartsOfToken(p: seq<string>, d: string, m: string, y: string, dv: int, mv: int, yv: int)
    requires p == [d, m, y] && IsNumeral(d) && IsNumeral(m) && IsNumeral(y)
    requires NumeralValue(d) == dv && NumeralValue(m) == mv && NumeralValue(y) == yv
    ensures WellFormedParts(p) <==> 1 <= mv <= 12 && 1 <= dv <= DaysInMonth(yv, mv - 1)
    ensures WellFormedParts(p) ==> KeyOfParts(p) == DateKey(yv, mv - 1, dv)
  {
    assert p[0] == d && p[1] == m && p[2] == y;
  }

  /** `Number` of a two-digit numeral. */
  lemma TwoDigitValue(s: string)
    requires |s| == 2 && DigitsOnly(s)
    ensures NumeralValue(s) == 10 * Digit(s[0]) + Digit(s[1])
  {
    var first := s[..1];
    assert NumeralValue(first) == Digit(s[0]) by {
      assert first[..0] == [];
    }
    assert s[..|s| - 1] == first;
  }

  /** `Number` of a four-digit numeral. */
  lemma FourDigitValue(s: string)
    requires |s| == 4 && DigitsOnly(s)
    ensures NumeralValue(s) == 1000 * Digit(s[0]) + 100 * Digit(s[1]) + 10 * Digit(s[2]) + Digit(s[3])
  {
    TwoDigitValue(s[..2]);
    assert s[..3][..2] == s[..2];
  }

  /** A `DD.MM.YYYY` token of digits denotes the date its digits spell. */
  lemma TokenDenotes(d: string, m: string, y: string, day: int, month: int, year: int)
    requires |d| == 2 && |m| == 2 && |y| == 4 && DigitsOnly(d) && DigitsOnly(m) && DigitsOnly(y)
    requires day == 10 * Digit(d[0]) + Digit(d[1]) && month == 10 * Digit(m[0]) + Digit(m[1])
    requires year == 1000 * Digit(y[0]) + 100 * Digit(y[1]) + 10 * Digit(y[2]) + Digit(y[3])
    requires 1 <= month <= 12 && 1 <= day <= DaysInMonth(year, month - 1)
    ensures Split(Token(d, m, y), '.') == [d, m, y]
    ensures NumeralValue(d) == day && NumeralValue(m) == month && NumeralValue(y) == year
    ensures WellFormedDate(Token(d, m, y)) && DateKeyOf(Token(d, m, y)) == DateKey(year, month - 1, day)
  {
    TwoDigitValue(d);
    TwoDigitValue(m);
    FourDigitValue(y);
    DateKeyOfToken(d, m, y, day, month, year);
    SplitToken(d, m, y);
  }

  /**
   * The month name `createReadableDate` prints for a month token:
   * `months[Number(tok) - 1]`, which is undefined, and so prints as empty,
   * outside 1..12.
   */
  function MonthLabel(tok: string): string
  {
    if IsNumeral(tok) && 1 <= NumeralValue(tok) <= 12 then MonthNames[NumeralValue(tok) - 1] else ""
  }

  /** `parts[i]` inside a template literal: a missing part prints as `undefined`. */
  function PartText(parts: seq<string>, i: nat): string
  {
    if i < |parts| then parts[i] else "undefined"
  }

  /** `createReadableDate`: `<MonthName> <day>. <year>` from the raw token. */
  function CreateReadableDate(date: string): string
  {
    var parts := Split(date, '.');
    var month := if |parts| > 1 then MonthLabel(parts[1]) else "";
    month + " " + PartText(parts, 0) + ". " + PartText(parts, 2)
  }

  /**
   * Only parts 0, 1 and 2 of the token are used, copied verbatim; any
   * further parts are ignored.
   */
  lemma ReadableDateOfParts(parts: seq<string>)
    requires |parts| >= 3
    requires forall i :: 0 <= i < |parts| ==> '.' !in parts[i]
    ensures CreateReadableDate(Join(parts, '.')) == MonthLabel(parts[1]) + " " + parts[0] + ". " + parts[2]
  {
    SplitJoin(parts, '.');
  }

  /** A month token with value m in 1..12 is printed as the m-th month name. */
  lemma ReadableDateOfToken(d: string, m: string, y: string)
    requires DigitsOnly(d) && IsNumeral(m) && DigitsOnly(y)
    requires 1 <= NumeralValue(m) <= 12
    ensures CreateReadableDate(Token(d, m, y)) == MonthNames[NumeralValue(m) - 1] + " " + d + ". " + y
  {
    SplitToken(d, m, y);
  }

  /** `05.03.2020` is rendered as `March 05. 2020`. */
  lemma ReadableDateExample()
    ensures CreateReadableDate(Token("05", "03", "2020")) == "March 05. 2020"
  {
    TokenDenotes("05", "03", "2020", 5, 3, 2020);
    ReadableDateOfToken("05", "03", "2020");
    assert MonthNames[2] + " " + "05" + ". " + "2020" == "March 05. 2020";
  }

  /**
   * A day count that grows by one per day, enough to order dates: every month
   * is given 31 slots, so only the differences' signs are meaningful.
   */
  function Ordinal(k: DateKey): int
  {
    k.year * 372 + k.month * 31 + k.day
  }

  lemma OrdinalOrder(a: DateKey, b: DateKey)
    requires ValidKey(a) && ValidKey(b)
    ensures Ordinal(a) > Ordinal(b) <==> Later(a, b)
    ensures Ordinal(a) == Ordinal(b) <==> a == b
  {
  }

  /**
   * `sortByPublished(a, b)`: b's date minus a's as day numbers, so negative
   * when a is later and zero when the dates are equal.
   */
  function SortByPublished(a: string, b: string): int
    requires WellFormedDate(a) && WellFormedDate(b)
  {
    Ordinal(DateKeyOf(b)) - Ordinal(DateKeyOf(a))
  }

  /**
   * The comparator is negative exactly when a is the later date, so sorting
   * by it puts the newest first, and zero exactly when the two tokens denote
   * the same date.
   */
  lemma SortByPublishedMeaning(a: string, b: string)
    requires WellFormedDate(a) && WellFormedDate(b)
    ensures SortByPublished(a, b) < 0 <==> Later(DateKeyOf(a), DateKeyOf(b))
    ensures SortByPublished(a, b) == 0 <==> DateKeyOf(a) == DateKeyOf(b)
    ensures SortByPublished(a, b) > 0 <==> Later(DateKeyOf(b), DateKeyOf(a))
  {
    OrdinalOrder(DateKeyOf(a), DateKeyOf(b));
  }

  /** Swapping the arguments negates the comparison. */
  lemma SortByPublishedAntisymmetric(a: string, b: string)
    requires WellFormedDate(a) && WellFormedDate(b)
    ensures SortByPublished(a, b) == -SortByPublished(b, a)
  {
  }

  /**
   * "a sorts no later than b" is total and transitive, so the comparator is
   * a valid sort order.
   */
  lemma SortByPublishedTotalPreorder(a: string, b: string, c: string)
    requires WellFormedDate(a) && WellFormedDate(b) && WellFormedDate(c)
    ensures SortByPublished(a, b) <= 0 || SortByPublished(b, a) <= 0
    ensures SortByPublished(a, b) <= 0 && SortByPublished(b, c) <= 0 ==> SortByPublished(a, c) <= 0
  {
  }

  /** `Later` is a strict total order on calendar dates. */
  lemma LaterIsStrictTotalOrder(a: DateKey, b: DateKey, c: DateKey)
    ensures !Later(a, a)
    ensures Later(a, b) ==> !Later(b, a)
    ensures Later(a, b) && Later(b, c) ==> Later(a, c)
    ensures a == b || Later(a, b) || Later(b, a)
  {
  }

  /**
   * JavaScript's day arithmetic for a day number 1..31 in month `m`: a day
   * past the end of the month rolls over into the next one.
   */
  function Normalize(y: int, m: int, d: int): (k: DateKey)
    requires 0 <= m < 12 && 1 <= d <= 31
    ensures ValidKey(k)
    ensures k.year == y && DaysBefore(y, k.month) + k.day == DaysBefore(y, m) + d
  {
    var n := DaysInMonth(y, m);
    if d <= n || m == 11 then DateKey(y, m, d) else DateKey(y, m + 1, d - n)
  }

  /** Days of year `y` before month `m`. */
  function DaysBefore(y: int, m: int): int
    requires 0 <= m <= 12
  {
    if m == 0 then 0 else DaysBefore(y, m - 1) + DaysInMonth(y, m - 1)
  }

  /**
   * The `Date` object `createDate` builds. The setters follow JavaScript's
   * rule that a day past the end of the (new) month rolls over.
   */
  class JsDate {
    var year: int
    var month: int
    var day: int

    ghost predicate Valid()
      reads this
    {
      ValidKey(DateKey(year, month, day))
    }

    function Key(): DateKey
      reads this
    {
      DateKey(year, month, day)
    }

    /** `new Date()`: the clock's current date. */
    constructor (now: DateKey)
      requires ValidKey(now)
      ensures Valid() && Key() == now
    {
      year, month, day := now.year, now.month, now.day;
    }

    /** `date.setFullYear(y)`. */
    method SetFullYear(y: int)
      requires Valid()
      modifies this
      ensures Valid() && Key() == Normalize(y, old(month), old(day))
    {
      var k := Normalize(y, month, day);
      year, month, day := k.year, k.month, k.day;
    }

    /** `date.setMonth(m)`. */
    method SetMonth(m: int)
      requires Valid() && 0 <= m < 12
      modifies this
      ensures Valid() && Key() == Normalize(old(year), m, old(day))
    {
      var k := Normalize(year, m, day);
      year, month, day := k.year, k.month, k.day;
    }

    /** `date.setDate(d)`. */
    method SetDate(d: int)
      requires Valid() && 1 <= d <= 31
      modifies this
      ensures Valid() && Key() == Normalize(old(year), old(month), d)
    {
      var k := Normalize(year, month, d);
      year, month, day := k.year, k.month, k.day;
    }

    /** `date.setFullYear(y, m, d)`: all three fields in one step. */
    method SetFullYearMonthDate(y: int, m: int, d: int)
      requires 0 <= m < 12 && 1 <= d <= 31
      modifies this
      ensures Valid() && Key() == Normalize(y, m, d)
    {
      var k := Normalize(y, m, d);
      year, month, day := k.year, k.month, k.day;
    }
  }

  /**
   * The date `createDate` as written produces: `new Date()` followed by
   * `setFullYear`, `setMonth` and `setDate`, each applied to the date the
   * previous step left.
   */
  function SequentialSetKey(now: DateKey, s: string): DateKey
    requires ValidKey(now) && WellFormedDate(s)
  {
    var p := Split(s, '.');
    var afterYear := Normalize(NumeralValue(p[2]), now.month, now.day);
    var afterMonth := Normalize(afterYear.year, NumeralValue(p[1]) - 1, afterYear.day);
    Normalize(afterMonth.year, afterMonth.month, NumeralValue(p[0]))
  }

  /** `createDate` exactly as written, the clock's date given as `now`. */
  method CreateDateAsWritten(stringDate: string, now: DateKey) returns (date: JsDate)
    requires ValidKey(now) && WellFormedDate(stringDate)
    ensures fresh(date) && date.Valid()
    ensures date.Key() == SequentialSetKey(now, stringDate)
  {
    var dateParts := Split(stringDate, '.');
    date := new JsDate(now);
    date.SetFullYear(NumeralValue(dateParts[2]));
    date.SetMonth(NumeralValue(dateParts[1]) - 1);
    date.SetDate(NumeralValue(dateParts[0]));
  }

  /**
   * On the 31st of March, `createDate("05.04.2020")` gives 5 May 2020: the
   * intermediate 31 April rolls over before the day is set.
   */
  lemma CreateDateRollsOver()
    ensures WellFormedDate(Token("05", "04", "2020"))
    ensures SequentialSetKey(DateKey(2021, 2, 31), Token("05", "04", "2020")) == DateKey(2020, 4, 5)
    ensures DateKeyOf(Token("05", "04", "2020")) == DateKey(2020, 3, 5)
  {
    TokenDenotes("05", "04", "2020", 5, 4, 2020);
  }

  /** Until the 28th of a month the sequential setters do give the token's date. */
  lemma SequentialSetAgreesEarlyInMonth(now: DateKey, s: string)
    requires ValidKey(now) && WellFormedDate(s) && now.day <= 28
    ensures SequentialSetKey(now, s) == DateKeyOf(s)
  {
  }

  /**
   * `createDate` with the three fields set in one `setFullYear(y, m, d)`
   * call: the token's date, whatever the clock says.
   */
  method CreateDate(stringDate: string, now: DateKey) returns (date: JsDate)
    requires ValidKey(now) && WellFormedDate(stringDate)
    ensures fresh(date) && date.Valid()
    ensures date.Key() == DateKeyOf(stringDate)
  {
    var dateParts := Split(stringDate, '.');
    date := new JsDate(now);
    date.SetFullYearMonthDate(NumeralValue(dateParts[2]), NumeralValue(dateParts[1]) - 1, NumeralValue(dateParts[0]));
  }
}
