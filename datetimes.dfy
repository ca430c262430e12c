/** Naive calendar date-times, the two `datetime.strptime` formats the
    program uses, and the instant a wall time stands for.

    `%Y:%m:%d %H:%M:%S` is the EXIF `Image DateTime` format and `%y%m%d_%H%M`
    the file name convention. Each parser is proved to be exactly the inverse
    of a formatter on the date-times that `datetime` accepts. */
module DateTimes {
  import opened Wrappers

  datatype DateTime = DateTime(year: int, month: int, day: int, hour: int, minute: int, second: int)

  predicate IsLeapYear(y: int)
  {
    y % 4 == 0 && (y % 100 != 0 || y % 400 == 0)
  }

  function DaysInMonth(y: int, m: int): int
    requires 1 <= m <= 12
  {
    if m == 2 then (if IsLeapYear(y) then 29 else 28)
    else if m == 4 || m == 6 || m == 9 || m == 11 then 30
    else 31
  }

  /** What the `datetime` constructor accepts (it raises ValueError otherwise). */
  predicate Valid(dt: DateTime)
  {
    && 1 <= dt.year <= 9999
    && 1 <= dt.month <= 12
    && 1 <= dt.day <= DaysInMonth(dt.year, dt.month)
    && 0 <= dt.hour < 24
    && 0 <= dt.minute < 60
    && 0 <= dt.second < 60
  }

  // ----- decimal fields -----

  predicate IsDigit(c: char)
  {
    '0' <= c <= '9'
  }

  predicate AllDigits(s: string)
  {
    forall i :: 0 <= i < |s| ==> IsDigit(s[i])
  }

  function DigitsValue(s: string): nat
    requires AllDigits(s)
  {
    if s == [] then 0 else DigitsValue(s[..|s| - 1]) * 10 + (s[|s| - 1] as int - '0' as int)
  }

  function Pow10(n: nat): (r: nat)
    ensures r > 0
  {
    if n == 0 then 1 else 10 * Pow10(n - 1)
  }

  /** The last `width` decimal digits of `n`, zero-padded. */
  function Digits(n: nat, width: nat): (s: string)
    ensures |s| == width && AllDigits(s)
  {
    if width == 0 then [] else Digits(n / 10, width - 1) + [('0' as int + n % 10) as char]
  }

  /** Two-digit fields: the tens digit, then the units digit. */
  lemma DigitsTwo(n: nat)
    requires n < 100
    ensures Digits(n, 2) == [('0' as int + n / 10) as char, ('0' as int + n % 10) as char]
  {
    assert Digits(n / 10, 1) == Digits(n / 100, 0) + [('0' as int + (n / 10) % 10) as char];
  }

  lemma {:induction false} DigitsValueOfDigits(n: nat, width: nat)
    requires n < Pow10(width)
    ensures DigitsValue(Digits(n, width)) == n
  {
    if width > 0 {
      var s := Digits(n, width);
      DigitsValueOfDigits(n / 10, width - 1);
      assert s[..|s| - 1] == Digits(n / 10, width - 1);
    }
  }

  lemma {:induction false} DigitsOfDigitsValue(s: string)
    requires AllDigits(s)
    ensures DigitsValue(s) < Pow10(|s|)
    ensures Digits(DigitsValue(s), |s|) == s
  {
    if s != [] {
      var init := s[..|s| - 1];
      DigitsOfDigitsValue(init);
      var v := DigitsValue(s);
      assert v / 10 == DigitsValue(init);
      assert s == init + [s[|s| - 1]];
    }
  }

  // ----- %Y:%m:%d %H:%M:%S -----

  function FormatExif(dt: DateTime): string
    requires Valid(dt)
  {
    Digits(dt.year, 4) + ":" + Digits(dt.month, 2) + ":" + Digits(dt.day, 2) + " "
    + Digits(dt.hour, 2) + ":" + Digits(dt.minute, 2) + ":" + Digits(dt.second, 2)
  }

  /** `datetime.strptime(s, "%Y:%m:%d %H:%M:%S")`; None stands for the
      ValueError it raises. Only the zero-padded form is accepted. */
  function ParseExif(s: string): (r: Option<DateTime>)
    ensures r.Some? ==> Valid(r.value) && FormatExif(r.value) == s
  {
    if |s| != 19 || s[4] != ':' || s[7] != ':' || s[10] != ' ' || s[13] != ':' || s[16] != ':' then None
    else if !(AllDigits(s[..4]) && AllDigits(s[5..7]) && AllDigits(s[8..10])
              && AllDigits(s[11..13]) && AllDigits(s[14..16]) && AllDigits(s[17..])) then None
    else
      var dt := DateTime(DigitsValue(s[..4]), DigitsValue(s[5..7]), DigitsValue(s[8..10]),
                         DigitsValue(s[11..13]), DigitsValue(s[14..16]), DigitsValue(s[17..]));
      if !Valid(dt) then None
      else
        ParseExifSound(s, dt);
        Some(dt)
  }

  lemma ParseExifSound(s: string, dt: DateTime)
    requires |s| == 19 && s[4] == ':' && s[7] == ':' && s[10] == ' ' && s[13] == ':' && s[16] == ':'
    requires AllDigits(s[..4]) && AllDigits(s[5..7]) && AllDigits(s[8..10])
             && AllDigits(s[11..13]) && AllDigits(s[14..16]) && AllDigits(s[17..])
    requires dt == DateTime(DigitsValue(s[..4]), DigitsValue(s[5..7]), DigitsValue(s[8..10]),
                            DigitsValue(s[11..13]), DigitsValue(s[14..16]), DigitsValue(s[17..]))
    requires Valid(dt)
    ensures FormatExif(dt) == s
  {
    DigitsOfDigitsValue(s[..4]);
    DigitsOfDigitsValue(s[5..7]);
    DigitsOfDigitsValue(s[8..10]);
    DigitsOfDigitsValue(s[11..13]);
    DigitsOfDigitsValue(s[14..16]);
    DigitsOfDigitsValue(s[17..]);
    var date := s[..4] + ":" + s[5..7] + ":" + s[8..10];
    var time := s[11..13] + ":" + s[14..16] + ":" + s[17..];
    assert s[..10] == date;
    assert s[11..] == time;
    assert s == s[..10] + " " + s[11..];
    assert FormatExif(dt) == date + " " + time;
  }

  /** Every valid date-time, written in the EXIF format, reads back as itself. */
  lemma ParseFormatExif(dt: DateTime)
    requires Valid(dt)
    ensures ParseExif(FormatExif(dt)) == Some(dt)
  {
    var s := FormatExif(dt);
    DigitsValueOfDigits(dt.year, 4);
    DigitsValueOfDigits(dt.month, 2);
    DigitsValueOfDigits(dt.day, 2);
    DigitsValueOfDigits(dt.hour, 2);
    DigitsValueOfDigits(dt.minute, 2);
    DigitsValueOfDigits(dt.second, 2);
    assert s[..4] == Digits(dt.year, 4);
    assert s[5..7] == Digits(dt.month, 2);
    assert s[8..10] == Digits(dt.day, 2);
    assert s[11..13] == Digits(dt.hour, 2);
    assert s[14..16] == Digits(dt.minute, 2);
    assert s[17..] == Digits(dt.second, 2);
  }

  // ----- %y%m%d_%H%M -----

  /** `%y` maps 69..99 to 1969..1999 and 00..68 to 2000..2068. */
  function CenturyPivot(yy: int): int
  {
    if yy <= 68 then 2000 + yy else 1900 + yy
  }

  /** The date-times the file name convention can express. */
  predicate StemExpressible(dt: DateTime)
  {
    Valid(dt) && 1969 <= dt.year <= 2068 && dt.second == 0
  }

  function FormatStem(dt: DateTime): string
    requires Valid(dt)
  {
    Digits(dt.year % 100, 2) + Digits(dt.month, 2) + Digits(dt.day, 2) + "_"
    + Digits(dt.hour, 2) + Digits(dt.minute, 2)
  }

  /** `datetime.strptime(s, "%y%m%d_%H%M")`; None stands for the ValueError
      it raises. Only the zero-padded form is accepted. */
  function ParseStem(s: string): (r: Option<DateTime>)
    ensures r.Some? ==> StemExpressible(r.value) && FormatStem(r.value) == s
  {
    if |s| != 11 || s[6] != '_' then None
    else if !(AllDigits(s[..2]) && AllDigits(s[2..4]) && AllDigits(s[4..6])
              && AllDigits(s[7..9]) && AllDigits(s[9..])) then None
    else
      var dt := DateTime(CenturyPivot(DigitsValue(s[..2])), DigitsValue(s[2..4]), DigitsValue(s[4..6]),
                         DigitsValue(s[7..9]), DigitsValue(s[9..]), 0);
      if !Valid(dt) then None
      else
        ParseStemSound(s, dt);
        Some(dt)
  }

  lemma ParseStemSound(s: string, dt: DateTime)
    requires |s| == 11 && s[6] == '_'
    requires AllDigits(s[..2]) && AllDigits(s[2..4]) && AllDigits(s[4..6]) && AllDigits(s[7..9]) && AllDigits(s[9..])
    requires dt == DateTime(CenturyPivot(DigitsValue(s[..2])), DigitsValue(s[2..4]), DigitsValue(s[4..6]),
                            DigitsValue(s[7..9]), DigitsValue(s[9..]), 0)
    requires Valid(dt)
    ensures FormatStem(dt) == s
  {
    DigitsOfDigitsValue(s[..2]);
    DigitsOfDigitsValue(s[2..4]);
    DigitsOfDigitsValue(s[4..6]);
    DigitsOfDigitsValue(s[7..9]);
    DigitsOfDigitsValue(s[9..]);
    assert dt.year % 100 == DigitsValue(s[..2]);
    assert Digits(dt.year % 100, 2) == s[..2];
    assert Digits(dt.month, 2) == s[2..4];
    assert Digits(dt.day, 2) == s[4..6];
    assert Digits(dt.hour, 2) == s[7..9];
    assert Digits(dt.minute, 2) == s[9..];
    assert s == s[..2] + s[2..4] + s[4..6] + "_" + s[7..9] + s[9..];
  }

  /** Every date-time the convention can express reads back as itself. */
  lemma ParseFormatStem(dt: DateTime)
    requires StemExpressible(dt)
    ensures ParseStem(FormatStem(dt)) == Some(dt)
  {
    var s := FormatStem(dt);
    DigitsValueOfDigits(dt.year % 100, 2);
    DigitsValueOfDigits(dt.month, 2);
    DigitsValueOfDigits(dt.day, 2);
    DigitsValueOfDigits(dt.hour, 2);
    DigitsValueOfDigits(dt.minute, 2);
    assert s[..2] == Digits(dt.year % 100, 2);
    assert s[2..4] == Digits(dt.month, 2);
    assert s[4..6] == Digits(dt.day, 2);
    assert s[7..9] == Digits(dt.hour, 2);
    assert s[9..] == Digits(dt.minute, 2);
    assert |s| == 11 && s[6] == '_';
    assert DigitsValue(s[..2]) == dt.year % 100 && DigitsValue(s[2..4]) == dt.month;
    assert DigitsValue(s[4..6]) == dt.day && DigitsValue(s[7..9]) == dt.hour && DigitsValue(s[9..]) == dt.minute;
    assert CenturyPivot(dt.year % 100) == dt.year;
  }

  /** A stem-format string has exactly one underscore, at position 6. */
  lemma FormatStemShape(dt: DateTime)
    requires Valid(dt)
    ensures |FormatStem(dt)| == 11 && FormatStem(dt)[6] == '_'
    ensures '_' !in FormatStem(dt)[..6] && '_' !in FormatStem(dt)[7..]
  {
    var s := FormatStem(dt);
    assert AllDigits(s[..6]) by {
      assert s[..6] == Digits(dt.year % 100, 2) + Digits(dt.month, 2) + Digits(dt.day, 2);
    }
    assert AllDigits(s[7..]) by {
      assert s[7..] == Digits(dt.hour, 2) + Digits(dt.minute, 2);
    }
  }

  // ----- instants -----

  /** Times are integer nanoseconds in one fixed frame. */
  type Instant = int

  const NanosPerSecond: int := 1_000_000_000

  function YearLength(y: int): int
  {
    if IsLeapYear(y) then 366 else 365
  }

  /** Days in the years before `y`, counted from year 1. */
  function DaysBeforeYear(y: int): int
    decreases y
  {
    if y <= 1 then 0 else DaysBeforeYear(y - 1) + YearLength(y - 1)
  }

  /** Days in the months of year `y` before month `m` (m == 13: the whole year). */
  function DaysBeforeMonth(y: int, m: int): int
    requires 1 <= m <= 13
  {
    var table := [0, 0, 31, 59, 90, 120, 151, 181, 212, 243, 273, 304, 334, 365];
    table[m] + (if m > 2 && IsLeapYear(y) then 1 else 0)
  }

  /** `date.toordinal()`: 0001-01-01 is day 1. */
  function Ordinal(dt: DateTime): int
    requires Valid(dt)
  {
    DaysBeforeYear(dt.year) + DaysBeforeMonth(dt.year, dt.month) + dt.day
  }

  /** `date(1970, 1, 1).toordinal()`. */
  const UnixEpochOrdinal: int := 719163

  /** The instant a wall time stands for in the single fixed frame. */
  function WallInstant(dt: DateTime): Instant
    requires Valid(dt)
  {
    ((Ordinal(dt) - UnixEpochOrdinal) * 86400 + dt.hour * 3600 + dt.minute * 60 + dt.second) * NanosPerSecond
  }

  /** Field-by-field order, which is how `datetime` compares two values of one zone. */
  predicate Before(a: DateTime, b: DateTime)
  {
    || a.year < b.year
    || (a.year == b.year && a.month < b.month)
    || (a.year == b.year && a.month == b.month && a.day < b.day)
    || (a.year == b.year && a.month == b.month && a.day == b.day && a.hour < b.hour)
    || (a.year == b.year && a.month == b.month && a.day == b.day && a.hour == b.hour && a.minute < b.minute)
    || (a.year == b.year && a.month == b.month && a.day == b.day && a.hour == b.hour && a.minute == b.minute
        && a.second < b.second)
  }

  lemma DaysBeforeMonthStep(y: int, m: int)
    requires 1 <= m <= 12
    ensures DaysBeforeMonth(y, m + 1) == DaysBeforeMonth(y, m) + DaysInMonth(y, m)
  {
  }

  lemma {:induction false} DaysBeforeMonthGrows(y: int, m1: int, m2: int)
    requires 1 <= m1 < m2 <= 13
    ensures DaysBeforeMonth(y, m1) + DaysInMonth(y, m1) <= DaysBeforeMonth(y, m2)
    decreases m2 - m1
  {
    DaysBeforeMonthStep(y, m1);
    if m1 + 1 < m2 {
      DaysBeforeMonthGrows(y, m1 + 1, m2);
    }
  }

  lemma {:induction false} DaysBeforeYearGrows(y1: int, y2: int)
    requires 1 <= y1 < y2
    ensures DaysBeforeYear(y1) + YearLength(y1) <= DaysBeforeYear(y2)
    decreases y2 - y1
  {
    if y1 + 1 < y2 {
      DaysBeforeYearGrows(y1 + 1, y2);
      assert DaysBeforeYear(y2 - 1) + YearLength(y2 - 1) == DaysBeforeYear(y2);
      DaysBeforeYearGrows(y1, y2 - 1);
    }
  }

  lemma OrdinalMonotone(a: DateTime, b: DateTime)
    requires Valid(a) && Valid(b)
    requires a.year < b.year || (a.year == b.year && a.month < b.month)
    ensures Ordinal(a) < Ordinal(b)
  {
    if a.year < b.year {
      if a.month < 12 {
        DaysBeforeMonthGrows(a.year, a.month, 13);
      } else {
        DaysBeforeMonthStep(a.year, 12);
      }
      DaysBeforeYearGrows(a.year, b.year);
    } else {
      DaysBeforeMonthGrows(a.year, a.month, b.month);
    }
  }

  /** Converting to an instant preserves the field-by-field order, so sorting
      by instant is sorting by `datetime` comparison. */
  lemma WallInstantMonotone(a: DateTime, b: DateTime)
    requires Valid(a) && Valid(b) && Before(a, b)
    ensures WallInstant(a) < WallInstant(b)
  {
    if a.year < b.year || (a.year == b.year && a.month < b.month) {
      OrdinalMonotone(a, b);
    }
  }
}
