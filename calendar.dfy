/** The proleptic Gregorian calendar of Python's `datetime.date`: years 1 to
    9999, English month names, leap years, ordering, and `+ timedelta(days=1)`. */
module Calendar {
  import opened Common

  datatype Date = Date(year: int, month: int, day: int)

  const MinYear: int := 1
  const MaxYear: int := 9999

  /** The names `%B` and the `MONTHS_RE` alternation accept, in calendar order. */
  const MonthNames: seq<string> := [
    "January", "February", "March", "April", "May", "June",
    "July", "August", "September", "October", "November", "December"
  ]

  function MonthName(m: int): string
    requires 1 <= m <= 12
  {
    MonthNames[m - 1]
  }

  predicate IsLetter(c: char) {
    'A' <= c <= 'Z' || 'a' <= c <= 'z'
  }

  /** Month names are runs of at least three ASCII letters. */
  lemma MonthNameLetters(m: int)
    requires 1 <= m <= 12
    ensures |MonthName(m)| >= 3 && forall q :: 0 <= q < |MonthName(m)| ==> IsLetter(MonthName(m)[q])
  {
  }

  predicate IsLeapYear(y: int) {
    y % 4 == 0 && (y % 100 != 0 || y % 400 == 0)
  }

  function DaysInMonth(y: int, m: int): int
    requires 1 <= m <= 12
  {
    if m == 2 then (if IsLeapYear(y) then 29 else 28)
    else if m == 4 || m == 6 || m == 9 || m == 11 then 30
    else 31
  }

  /** What `date(year, month, day)` accepts without raising `ValueError`. */
  predicate ValidDate(d: Date) {
    MinYear <= d.year <= MaxYear && 1 <= d.month <= 12 && 1 <= d.day <= DaysInMonth(d.year, d.month)
  }

  /** Every month has between 28 and 31 days. */
  lemma DayBound(d: Date)
    requires ValidDate(d)
    ensures 1 <= d.month <= 12 && 1 <= d.day <= 31
  {
  }

  const LastDate: Date := Date(MaxYear, 12, 31)

  /** `a < b` on dates: by year, then month, then day. */
  predicate Before(a: Date, b: Date) {
    a.year < b.year
    || (a.year == b.year && (a.month < b.month || (a.month == b.month && a.day < b.day)))
  }

  predicate NotAfter(a: Date, b: Date) {
    a == b || Before(a, b)
  }

  /** `d + timedelta(days=1)`; `None` where Python raises `OverflowError`.
      The result is the earliest valid date after `d`. */
  function NextDay(d: Date): (r: Option<Date>)
    requires ValidDate(d)
    ensures r.None? <==> d == LastDate
    ensures r.Some? ==> ValidDate(r.value) && Before(d, r.value)
    ensures r.Some? ==> forall e :: ValidDate(e) && Before(d, e) ==> NotAfter(r.value, e)
  {
    if d.day < DaysInMonth(d.year, d.month) then Some(Date(d.year, d.month, d.day + 1))
    else if d.month < 12 then Some(Date(d.year, d.month + 1, 1))
    else if d.year < MaxYear then Some(Date(d.year + 1, 1, 1))
    else None
  }

  /** Days before 1 January of year `y`, counted from 1 January of year 1. */
  function DaysBeforeYear(y: int): int
    requires y >= 1
  {
    var p := y - 1;
    365 * p + p / 4 - p / 100 + p / 400
  }

  function DaysInYear(y: int): int {
    if IsLeapYear(y) then 366 else 365
  }

  /** Days of year `y` before the first of month `m`. */
  function DaysBeforeMonth(y: int, m: int): int
    requires 1 <= m <= 12
  {
    var leap := if IsLeapYear(y) then 1 else 0;
    if m == 1 then 0
    else if m == 2 then 31
    else [59, 90, 120, 151, 181, 212, 243, 273, 304, 334][m - 3] + leap
  }

  /** `d.toordinal()`: 1 January of year 1 is day 1. */
  function Ordinal(d: Date): int
    requires ValidDate(d)
  {
    DaysBeforeYear(d.year) + DaysBeforeMonth(d.year, d.month) + d.day
  }

  /** The month table is the running sum of the month lengths. */
  lemma DaysBeforeMonthStep(y: int, m: int)
    requires 1 <= m < 12
    ensures DaysBeforeMonth(y, m + 1) == DaysBeforeMonth(y, m) + DaysInMonth(y, m)
  {
  }

  lemma DaysBeforeMonthYearEnd(y: int)
    ensures DaysBeforeMonth(y, 12) + DaysInMonth(y, 12) == DaysInYear(y)
  {
  }

  /** Adding one to `p` raises `p / k` by one exactly when `k` divides `p + 1`. */
  lemma DivStep4(p: int)
    requires p >= 0
    ensures (p + 1) / 4 == p / 4 + (if (p + 1) % 4 == 0 then 1 else 0)
  {
  }

  lemma DivStep100(p: int)
    requires p >= 0
    ensures (p + 1) / 100 == p / 100 + (if (p + 1) % 100 == 0 then 1 else 0)
  {
  }

  lemma DivStep400(p: int)
    requires p >= 0
    ensures (p + 1) / 400 == p / 400 + (if (p + 1) % 400 == 0 then 1 else 0)
  {
  }

  /** The year formula advances by the length of the year. */
  lemma DaysBeforeYearStep(y: int)
    requires y >= 1
    ensures DaysBeforeYear(y + 1) == DaysBeforeYear(y) + DaysInYear(y)
  {
    var p := y - 1;
    DivStep4(p);
    DivStep100(p);
    DivStep400(p);
    assert p + 1 == y;
  }

  /** `NextDay` is `date.fromordinal(d.toordinal() + 1)`. */
  lemma NextDayOrdinal(d: Date)
    requires ValidDate(d) && d != LastDate
    ensures Ordinal(NextDay(d).value) == Ordinal(d) + 1
  {
    if d.day == DaysInMonth(d.year, d.month) {
      if d.month < 12 {
        DaysBeforeMonthStep(d.year, d.month);
      } else {
        DaysBeforeMonthYearEnd(d.year);
        DaysBeforeYearStep(d.year);
      }
    }
  }

  /** `max(ds)`: Python keeps the first of equal maxima, and equal dates are
      the same value. */
  function MaxDate(ds: seq<Date>): (r: Date)
    requires |ds| > 0
    ensures r in ds
    ensures forall k :: 0 <= k < |ds| ==> NotAfter(ds[k], r)
  {
    if |ds| == 1 then ds[0]
    else
      var m := MaxDate(ds[..|ds| - 1]);
      assert forall k :: 0 <= k < |ds| - 1 ==> ds[k] == ds[..|ds| - 1][k];
      if Before(m, ds[|ds| - 1]) then ds[|ds| - 1] else m
  }

  /** Month name `m` occurs in `t` at position `i`. */
  predicate NameAt(t: string, i: nat, m: int)
    requires 1 <= m <= 12
  {
    i + |MonthName(m)| <= |t| && t[i..i + |MonthName(m)|] == MonthName(m)
  }

  /** The first alternative of `MONTHS_RE` that matches at `t[i..]`, trying
      months `m`..12 in order. */
  function MonthFrom(t: string, i: nat, m: int): (r: Option<int>)
    requires 1 <= m <= 13
    ensures r.Some? ==> m <= r.value <= 12 && NameAt(t, i, r.value)
                        && forall k :: m <= k < r.value ==> !NameAt(t, i, k)
    ensures r.None? ==> forall k :: m <= k <= 12 ==> !NameAt(t, i, k)
    decreases 13 - m
  {
    if m == 13 then None
    else if NameAt(t, i, m) then Some(m)
    else MonthFrom(t, i, m + 1)
  }

  /** The month whose name starts at `t[i..]` (at most one can: no month name
      is a prefix of another). Its value is what `strptime(name, "%B").month`
      gives. */
  function MonthAt(t: string, i: nat): (r: Option<int>)
    ensures r.Some? ==> 1 <= r.value <= 12 && NameAt(t, i, r.value)
    ensures r.None? ==> forall k :: 1 <= k <= 12 ==> !NameAt(t, i, k)
  {
    MonthFrom(t, i, 1)
  }
}
