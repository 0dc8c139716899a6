/** The NCAA "Future Dates & Sites" pipeline: a leftmost "Month Day[, Year]"
    scanner over Finals-column prose, the per-row reduction to one finals end
    date per championship year, and the chaining of those end dates into
    season windows. HTML is abstracted as rows of cells of plain text. */
module NcaaFinals {
  import opened Common
  import opened Text
  import opened Calendar

  // ---------------------------------------------------------------------
  // The search pattern  MONTHS_RE \s+ \d{1,2} (?:,\s*\d{4})?

  /** The optional `,\s*\d{4}` group: `gap` whitespace characters after the
      comma, then four digits. */
  datatype YearGroup = YearGroup(gap: nat, digits: string)

  /** One match of the pattern: the month's 1-based index, the day digits and
      the year group if it matched. */
  datatype Hit = Hit(month: int, day: string, year: Option<YearGroup>)

  predicate WellFormedHit(h: Hit) {
    1 <= h.month <= 12 && 1 <= |h.day| <= 2 && AllDigits(h.day)
    && (h.year.Some? ==> |h.year.value.digits| == 4 && AllDigits(h.year.value.digits))
  }

  /** Length of the whitespace run starting at `j` (what greedy `\s*` takes). */
  function SpaceRun(t: string, j: nat): (n: nat)
    requires j <= |t|
    ensures j + n <= |t|
    ensures forall q :: j <= q < j + n ==> IsSpace(t[q])
    ensures j + n < |t| ==> !IsSpace(t[j + n])
    decreases |t| - j
  {
    if j < |t| && IsSpace(t[j]) then 1 + SpaceRun(t, j + 1) else 0
  }

  /** Length of the digit run starting at `k`, at most `limit` (greedy `\d{1,limit}`). */
  function DigitRun(t: string, k: nat, limit: nat): (n: nat)
    requires k <= |t|
    ensures n <= limit && k + n <= |t|
    ensures forall q :: k <= q < k + n ==> IsDigit(t[q])
    ensures n < limit && k + n < |t| ==> !IsDigit(t[k + n])
    decreases limit
  {
    if limit > 0 && k < |t| && IsDigit(t[k]) then 1 + DigitRun(t, k + 1, limit - 1) else 0
  }

  /** `,\s*\d{4}` at position `e`, if it matches there. */
  function YearGroupAt(t: string, e: nat): (r: Option<YearGroup>)
    requires e <= |t|
    ensures r.Some? ==> |r.value.digits| == 4 && AllDigits(r.value.digits)
  {
    if e < |t| && t[e] == ',' then
      var g := SpaceRun(t, e + 1);
      var f := e + 1 + g;
      if f + 4 <= |t| && AllDigits(t[f..f + 4]) then Some(YearGroup(g, t[f..f + 4])) else None
    else None
  }

  /** A month name at `i`, then whitespace, then a digit: the places where
      the pattern can start a match. */
  predicate MonthDayAt(t: string, i: nat) {
    exists m :: 1 <= m <= 12 && MonthDayWith(t, i, m)
  }

  predicate MonthDayWith(t: string, i: nat, m: int)
    requires 1 <= m <= 12
  {
    NameAt(t, i, m) && DayFollows(t, i + |MonthName(m)|)
  }

  predicate DayFollows(t: string, j: nat) {
    j <= |t| && var w := SpaceRun(t, j); w >= 1 && j + w < |t| && IsDigit(t[j + w])
  }

  /** The hit for month `m` whose day digits start at `k`: greedy `\d{1,2}`,
      then the optional year group right after them. */
  function HitAt(t: string, k: nat, m: int): (h: Hit)
    requires k < |t| && IsDigit(t[k]) && 1 <= m <= 12
    ensures WellFormedHit(h) && h.month == m
  {
    var d := DigitRun(t, k, 2);
    var day := t[k..k + d];
    assert forall q :: 0 <= q < |day| ==> day[q] == t[k + q];
    Hit(m, day, YearGroupAt(t, k + d))
  }

  /** The match the pattern makes at position `i`, if any. `\d{1,2}` and the
      optional group are greedy and never need to backtrack, because what
      follows them is optional. */
  function MatchAt(t: string, i: nat): (r: Option<Hit>)
    requires i <= |t|
    ensures r.Some? ==> WellFormedHit(r.value) && NameAt(t, i, r.value.month)
  {
    MatchNamed(t, i, MonthAt(t, i))
  }

  /** The match at `i` once the month alternation has given `mo` there. */
  function MatchNamed(t: string, i: nat, mo: Option<int>): (r: Option<Hit>)
    requires i <= |t| && (mo.Some? ==> 1 <= mo.value <= 12 && NameAt(t, i, mo.value))
    ensures r.Some? ==> WellFormedHit(r.value) && NameAt(t, i, r.value.month)
  {
    match mo
    case None => None
    case Some(m) => MatchAfterName(t, i + |MonthName(m)|, m)
  }

  /** The rest of the match once month `m`'s name has been read up to `j`:
      whitespace, then the day digits and the optional year group. */
  function MatchAfterName(t: string, j: nat, m: int): (r: Option<Hit>)
    requires j <= |t| && 1 <= m <= 12
    ensures r.Some? <==> DayFollows(t, j)
    ensures r.Some? ==> WellFormedHit(r.value) && r.value.month == m
  {
    if DayFollows(t, j) then Some(HitAt(t, j + SpaceRun(t, j), m)) else None
  }

  /** A match at `i` is a month name followed by whitespace and a digit. */
  lemma MatchAtSound(t: string, i: nat)
    requires i <= |t| && MatchAt(t, i).Some?
    ensures MonthDayAt(t, i)
  {
    var m := MonthAt(t, i).value;
    assert MonthDayWith(t, i, m);
  }

  /** A month name followed by whitespace and a digit is a match. */
  lemma MatchAtComplete(t: string, i: nat, m: int)
    requires i <= |t| && 1 <= m <= 12 && MonthDayWith(t, i, m)
    ensures MatchAt(t, i).Some?
  {
    MonthAtUnique(t, i, m);
  }

  /** The pattern matches at `i` exactly where a month name is followed by
      whitespace and a digit. */
  lemma MatchAtIff(t: string, i: nat)
    requires i <= |t|
    ensures MatchAt(t, i).Some? <==> MonthDayAt(t, i)
  {
    if MatchAt(t, i).Some? {
      MatchAtSound(t, i);
    }
    if MonthDayAt(t, i) {
      var m :| 1 <= m <= 12 && MonthDayWith(t, i, m);
      MatchAtComplete(t, i, m);
    }
  }

  /** The month a three-letter abbreviation stands for; 0 for none. */
  function MonthOfPrefix(p: string): int
    requires |p| == 3
  {
    var c := (p[0], p[1], p[2]);
    if c == ('J', 'a', 'n') then 1 else if c == ('F', 'e', 'b') then 2
    else if c == ('M', 'a', 'r') then 3 else if c == ('A', 'p', 'r') then 4
    else if c == ('M', 'a', 'y') then 5 else if c == ('J', 'u', 'n') then 6
    else if c == ('J', 'u', 'l') then 7 else if c == ('A', 'u', 'g') then 8
    else if c == ('S', 'e', 'p') then 9 else if c == ('O', 'c', 't') then 10
    else if c == ('N', 'o', 'v') then 11 else if c == ('D', 'e', 'c') then 12
    else 0
  }

  /** A month name's first three letters determine the month. */
  lemma MonthPrefixIdentifies(m: int)
    requires 1 <= m <= 12
    ensures |MonthName(m)| >= 3 && MonthOfPrefix(MonthName(m)[..3]) == m
  {
  }

  /** At most one month name starts at a given position. */
  lemma MonthAtUnique(t: string, i: nat, m: int)
    requires 1 <= m <= 12 && NameAt(t, i, m)
    ensures MonthAt(t, i) == Some(m)
    ensures forall k :: 1 <= k <= 12 && NameAt(t, i, k) ==> k == m
  {
    forall k | 1 <= k <= 12 && NameAt(t, i, k)
      ensures k == m
    {
      MonthPrefixIdentifies(k);
      MonthPrefixIdentifies(m);
      var nk, nm := MonthName(k), MonthName(m);
      assert t[i..i + 3] == t[i..i + |nk|][..3] == nk[..3];
      assert t[i..i + 3] == t[i..i + |nm|][..3] == nm[..3];
    }
  }

  datatype Found = Found(pos: nat, hit: Hit)

  /** The pattern's match, or its absence, at every position of `t`. */
  function Matches(t: string): (ms: seq<Option<Hit>>)
    ensures |ms| == |t| + 1 && forall k :: 0 <= k <= |t| ==> ms[k] == MatchAt(t, k)
  {
    seq(|t| + 1, k requires 0 <= k <= |t| => MatchAt(t, k))
  }

  /** The first position at or after `i` that has a match. */
  function FirstMatch(ms: seq<Option<Hit>>, i: nat): (r: Option<nat>)
    requires i <= |ms|
    ensures r.Some? ==> i <= r.value < |ms| && ms[r.value].Some?
    ensures r.Some? ==> forall k :: i <= k < r.value ==> ms[k].None?
    ensures r.None? ==> forall k :: i <= k < |ms| ==> ms[k].None?
    decreases |ms| - i
  {
    if i == |ms| then None
    else if ms[i].Some? then Some(i)
    else FirstMatch(ms, i + 1)
  }

  /** `re.search`: the first position where the pattern matches, and the
      match there. */
  function Search(t: string): (r: Option<Found>)
    ensures r.Some? ==> r.value.pos <= |t| && MatchAt(t, r.value.pos) == Some(r.value.hit)
    ensures r.Some? ==> forall k :: 0 <= k < r.value.pos ==> MatchAt(t, k).None?
    ensures r.None? ==> forall k :: 0 <= k <= |t| ==> MatchAt(t, k).None?
  {
    var ms := Matches(t);
    match FirstMatch(ms, 0)
    case None => None
    case Some(p) => Some(Found(p, ms[p].value))
  }

  /** The pattern's leftmost match in `t` starts at `k`. */
  predicate LeftmostAt(t: string, k: nat) {
    k <= |t| && MonthDayAt(t, k) && forall j :: 0 <= j < k ==> !MonthDayAt(t, j)
  }

  /** At most one position is the leftmost match. */
  lemma LeftmostUnique(t: string, j: nat, k: nat)
    requires LeftmostAt(t, j) && LeftmostAt(t, k)
    ensures j == k
  {
  }

  /** The text the pattern is searched in: normalized, then `*` deleted. */
  function Cleaned(text: string): string {
    RemoveStars(NormText(text))
  }

  /** `datetime.strptime(core, "%B %d, %Y").date()` on the matched fragment
      `core`, after `, <fallback>` has been appended to a fragment without a
      comma. The format's `, ` stands for `,\s+`, so a fragment whose comma is
      not followed by whitespace is refused; `%Y` takes exactly four digits;
      `%d` takes only what reads as 1 to 31; `None` where Python raises
      `ValueError`. The fallback is taken as exactly four digits: the only
      caller passes a stripped all-digit cell text, so a fallback with
      leading whitespace, which `,\s+` would absorb, never reaches here. */
  function StrptimeHit(h: Hit, fallbackYear: string): (r: Option<Date>)
    requires WellFormedHit(h)
    ensures r.Some? ==> ValidDate(r.value)
  {
    var year: Option<int> :=
      if h.year.Some? then
        (if h.year.value.gap == 0 then None else Some(DigitsValue(h.year.value.digits)))
      else if |fallbackYear| == 4 && AllDigits(fallbackYear) then Some(DigitsValue(fallbackYear))
      else None;
    if year.None? then None
    else
      var d := Date(year.value, h.month, DigitsValue(h.day));
      if ValidDate(d) then Some(d) else None
  }

  /** The search and the conversion on already cleaned text `t`. */
  function ParseCleaned(t: string, fallbackYear: string): (r: Option<Date>)
    ensures r.Some? ==> ValidDate(r.value)
    ensures (forall k :: 0 <= k <= |t| ==> !MonthDayAt(t, k)) ==> r.None?
    ensures forall k :: LeftmostAt(t, k) ==> MatchAt(t, k).Some? && r == StrptimeHit(MatchAt(t, k).value, fallbackYear)
  {
    match Search(t)
    case None =>
      forall k | 0 <= k <= |t| ensures !MonthDayAt(t, k) { MatchAtIff(t, k); }
      None
    case Some(f) =>
      MatchAtIff(t, f.pos);
      forall k | 0 <= k < f.pos ensures !MonthDayAt(t, k) { MatchAtIff(t, k); }
      assert LeftmostAt(t, f.pos);
      assert forall k :: LeftmostAt(t, k) ==> k == f.pos by {
        forall k | LeftmostAt(t, k) ensures k == f.pos { LeftmostUnique(t, k, f.pos); }
      }
      StrptimeHit(f.hit, fallbackYear)
  }

  /** `_parse_month_day_year(text, fallback_year)`: the date written by the
      leftmost "Month Day[, Year]" in the cleaned text, the fallback year
      standing in when the match carries none; `None` for empty text, for text
      without a match, and where `strptime` or `date` refuse the fragment. */
  function ParseMonthDayYear(text: string, fallbackYear: string): (r: Option<Date>)
    ensures text == "" ==> r.None?
    ensures r.Some? ==> ValidDate(r.value)
  {
    if text == "" then None else ParseCleaned(Cleaned(text), fallbackYear)
  }

  /** What `_parse_month_day_year` promises: for non-empty text, `None` when
      the cleaned text has no "Month Day" anywhere, and otherwise the date
      the leftmost one spells, with the fallback year standing in when it
      carries none. */
  lemma ParseMonthDayYearSpec(text: string, fallbackYear: string)
    requires text != ""
    ensures var t := Cleaned(text);
            ((forall k :: 0 <= k <= |t| ==> !MonthDayAt(t, k)) ==> ParseMonthDayYear(text, fallbackYear).None?)
            && forall k :: LeftmostAt(t, k) ==>
                 ParseMonthDayYear(text, fallbackYear) == StrptimeHit(MatchAt(t, k).value, fallbackYear)
  {
  }

  // ---------------------------------------------------------------------
  // Dates written out, and read back

  /** Month `m`, day `day` and year `y` spelled out as the schedule writes a
      full date, e.g. "June 22, 2025"; the three need not make a valid date. */
  function Spelled(m: int, day: int, y: int): string
    requires 1 <= m <= 12 && 1 <= day <= 99 && 0 <= y <= 9999
  {
    MonthName(m) + " " + DayDigits(day) + ", " + FourDigits(y)
  }

  /** `d` written out in full. */
  function Written(d: Date): string
    requires ValidDate(d)
  {
    Spelled(d.month, d.day, d.year)
  }

  /** `d` without its year, e.g. "June 22". */
  function WrittenShort(d: Date): string
    requires ValidDate(d)
  {
    MonthName(d.month) + " " + DayDigits(d.day)
  }

  /** Greedy `\s+` over a single space followed by a non-space. */
  lemma SpaceRunOne(t: string, j: nat)
    requires j + 1 < |t| && t[j] == ' ' && !IsSpace(t[j + 1])
    ensures SpaceRun(t, j) == 1
  {
    assert SpaceRun(t, j + 1) == 0;
  }

  /** Greedy `\d{1,2}` over the digits `dd` followed by a non-digit or the end. */
  lemma DigitRunOf(t: string, k: nat, dd: string)
    requires 1 <= |dd| <= 2 && AllDigits(dd) && k + |dd| <= |t| && t[k..k + |dd|] == dd
    requires k + |dd| == |t| || !IsDigit(t[k + |dd|])
    ensures DigitRun(t, k, 2) == |dd|
  {
    assert t[k] == dd[0];
    if |dd| == 2 {
      assert t[k + 1] == dd[1];
      assert DigitRun(t, k + 2, 0) == 0;
    } else {
      assert DigitRun(t, k + 1, 1) == 0;
    }
  }

  /** One space, then the day digits `dd`, then the end of the text or a
      character other than a digit, starting at `j`. */
  lemma DayAfterSpace(t: string, j: nat, m: int, dd: string, e: nat)
    requires 1 <= m <= 12 && 1 <= |dd| <= 2 && AllDigits(dd)
    requires e == j + 1 + |dd| && e <= |t| && t[j] == ' ' && t[j + 1..e] == dd
    requires e == |t| || !IsDigit(t[e])
    ensures DayFollows(t, j) && SpaceRun(t, j) == 1
    ensures HitAt(t, j + 1, m) == Hit(m, dd, YearGroupAt(t, e))
  {
    assert t[j + 1] == dd[0];
    SpaceRunOne(t, j);
    DigitRunOf(t, j + 1, dd);
  }

  /** Once month `m`'s name has been read at `i`, up to `j`, the match is
      what follows the name. */
  lemma MatchAtNamed(t: string, i: nat, m: int, j: nat)
    requires 1 <= m <= 12 && i <= |t| && MonthAt(t, i) == Some(m) && j == i + |MonthName(m)|
    ensures j <= |t| && MatchAt(t, i) == MatchAfterName(t, j, m)
  {
    NamedAt(t, i, m);
    MatchNamedSome(t, i, m, j);
  }

  lemma NamedAt(t: string, i: nat, m: int)
    requires 1 <= m <= 12 && i <= |t| && MonthAt(t, i) == Some(m)
    ensures NameAt(t, i, m) && MatchAt(t, i) == MatchNamed(t, i, Some(m))
  {
  }

  lemma MatchNamedSome(t: string, i: nat, m: int, j: nat)
    requires 1 <= m <= 12 && i <= |t| && NameAt(t, i, m) && j == i + |MonthName(m)|
    ensures j <= |t| && MatchNamed(t, i, Some(m)) == MatchAfterName(t, j, m)
  {
  }

  /** After the name: exactly one space and a digit. */
  lemma AfterNameOneSpace(t: string, j: nat, m: int)
    requires 1 <= m <= 12 && j <= |t| && DayFollows(t, j) && SpaceRun(t, j) == 1
    ensures MatchAfterName(t, j, m) == Some(HitAt(t, j + 1, m))
  {
  }

  /** The match at `i` of month `m`'s name (ending at `j`), one space and the
      day digits `dd`, followed by the end of the text or a non-digit. */
  lemma MatchAtSpaced(t: string, i: nat, m: int, j: nat, dd: string, e: nat)
    requires 1 <= m <= 12 && 1 <= |dd| <= 2 && AllDigits(dd) && j == i + |MonthName(m)|
    requires e == j + 1 + |dd| && e <= |t| && NameAt(t, i, m) && t[j] == ' ' && t[j + 1..e] == dd
    requires e == |t| || !IsDigit(t[e])
    ensures MatchAt(t, i) == Some(Hit(m, dd, YearGroupAt(t, e)))
  {
    MonthAtUnique(t, i, m);
    MatchAtNamed(t, i, m, j);
    DayAfterSpace(t, j, m, dd, e);
    AfterNameOneSpace(t, j, m);
  }

  /** `,` then one space then four digits: the optional year group. */
  lemma YearGroupOne(t: string, e: nat, yy: string)
    requires |yy| == 4 && AllDigits(yy) && e + 6 <= |t| && t[e] == ',' && t[e + 1] == ' ' && t[e + 2..e + 6] == yy
    ensures YearGroupAt(t, e) == Some(YearGroup(1, yy))
  {
    assert t[e + 2] == yy[0];
    SpaceRunOne(t, e + 1);
  }

  /** Text that is normalized and free of `*` is its own cleaned form. */
  lemma CleanedFixed(t: string)
    requires Normalized(t) && '*' !in t
    ensures Cleaned(t) == t
  {
    NormTextUnique(t, t);
  }

  /** Whitespace-free text is normalized. */
  lemma NoSpaceNormalized(w: string)
    requires forall i :: 0 <= i < |w| ==> !IsSpace(w[i])
    ensures Normalized(w)
  {
  }

  /** Two non-empty normalized texts joined by one space stay normalized. */
  lemma NormalizedSpaceJoin(a: string, b: string)
    requires Normalized(a) && Normalized(b) && a != "" && b != ""
    ensures Normalized(a + " " + b)
  {
    var t := a + " " + b;
    assert !IsSpace(b[0]);
    forall i | 0 <= i < |t| && IsSpace(t[i])
      ensures t[i] == ' ' && 0 < i < |t| - 1 && !IsSpace(t[i + 1])
    {
      if i < |a| {
        assert t[i] == a[i] && t[i + 1] == a[i + 1];
      } else if i > |a| {
        assert t[i] == b[i - |a| - 1];
        assert i + 1 < |t| ==> t[i + 1] == b[i - |a|];
      } else {
        assert !IsSpace(a[|a| - 1]);
        assert t[i + 1] == b[0];
      }
    }
  }

  lemma NameNoSpace(m: int)
    requires 1 <= m <= 12
    ensures forall i :: 0 <= i < |MonthName(m)| ==> !IsSpace(MonthName(m)[i]) && MonthName(m)[i] != '*'
  {
    MonthNameLetters(m);
  }

  lemma SpelledNormalized(m: int, day: int, y: int)
    requires 1 <= m <= 12 && 1 <= day <= 99 && 0 <= y <= 9999
    ensures Spelled(m, day, y) != "" && Normalized(Spelled(m, day, y)) && '*' !in Spelled(m, day, y)
  {
    var name, dd, yy := MonthName(m), DayDigits(day), FourDigits(y);
    NameNoSpace(m);
    NoSpaceNormalized(name);
    NoSpaceNormalized(dd + ",");
    NoSpaceNormalized(yy);
    NormalizedSpaceJoin(name, dd + ",");
    NormalizedSpaceJoin(name + " " + (dd + ","), yy);
    assert Spelled(m, day, y) == name + " " + (dd + ",") + " " + yy;
  }

  lemma SpelledLayout(m: int, day: int, y: int)
    requires 1 <= m <= 12 && 1 <= day <= 99 && 0 <= y <= 9999
    ensures DateLayout(Spelled(m, day, y), m, |MonthName(m)|, DayDigits(day), Some(FourDigits(y)))
  {
    var name, dd, yy := MonthName(m), DayDigits(day), FourDigits(y);
    var l := |name|;
    var e := l + 1 + |dd|;
    LongPieces(name, dd, yy);
  }

  /** Where the pieces of `a + " " + b` sit. */
  lemma ShortPieces(a: string, b: string)
    ensures var u := a + " " + b;
            |u| == |a| + 1 + |b| && u[..|a|] == a && u[|a|] == ' ' && u[|a| + 1..] == b
  {
    var u := a + " " + b;
    assert u[..|a|] == a;
    assert u[|a| + 1..] == b;
  }

  /** Where the pieces of `a + " " + b + ", " + c` sit. */
  lemma LongPieces(a: string, b: string, c: string)
    ensures var u := a + " " + b + ", " + c;
            var e := |a| + 1 + |b|;
            |u| == e + 2 + |c| && u[..|a|] == a && u[|a|] == ' ' && u[|a| + 1..e] == b
            && u[e] == ',' && u[e + 1] == ' ' && u[e + 2..] == c
  {
    var u := a + " " + b + ", " + c;
    var e := |a| + 1 + |b|;
    assert u[..|a|] == a;
    assert u[|a| + 1..e] == b;
    assert u[e + 2..] == c;
  }

  /** A written-out date, with or without its year. */
  function Phrase(d: Date, withYear: bool): string
    requires ValidDate(d)
  {
    if withYear then Written(d) else WrittenShort(d)
  }

  /** Written-out dates are normalized and free of `*`. */
  lemma PhraseNormalized(d: Date, withYear: bool)
    requires ValidDate(d)
    ensures Phrase(d, withYear) != "" && Normalized(Phrase(d, withYear)) && '*' !in Phrase(d, withYear)
  {
    var name, dd, yy := MonthName(d.month), DayDigits(d.day), FourDigits(d.year);
    NameNoSpace(d.month);
    NoSpaceNormalized(name);
    if withYear {
      SpelledNormalized(d.month, d.day, d.year);
    } else {
      NoSpaceNormalized(dd);
      NormalizedSpaceJoin(name, dd);
    }
  }

  /** The hit the pattern makes on a written-out date. */
  function WrittenHit(d: Date, withYear: bool): (h: Hit)
    requires ValidDate(d)
    ensures WellFormedHit(h)
  {
    Hit(d.month, DayDigits(d.day), if withYear then Some(YearGroup(1, FourDigits(d.year))) else None)
  }

  /** Where the pieces of a written-out date sit inside it. */
  lemma PhraseLayout(d: Date, withYear: bool)
    requires ValidDate(d)
    ensures DateLayout(Phrase(d, withYear), d.month, |MonthName(d.month)|, DayDigits(d.day),
                       if withYear then Some(FourDigits(d.year)) else None)
  {
    var name, dd, yy := MonthName(d.month), DayDigits(d.day), FourDigits(d.year);
    var l := |name|;
    var e := l + 1 + |dd|;
    if withYear {
      SpelledLayout(d.month, d.day, d.year);
    } else {
      ShortPieces(name, dd);
      assert WrittenShort(d)[l + 1..e] == WrittenShort(d)[l + 1..];
    }
  }

  /** A slice of `u` where `u` itself sits at `i` in `t`. */
  lemma SliceWithin(t: string, i: nat, u: string, a: nat, b: nat, p: nat, q: nat)
    requires i + |u| <= |t| && t[i..i + |u|] == u && a <= b <= |u| && p == i + a && q == i + b
    ensures t[p..q] == u[a..b] && (a < |u| ==> t[p] == u[a])
  {
    assert forall q :: 0 <= q < |u| ==> t[i + q] == u[q];
  }

  /** No `,` at `e`: the optional year group is absent. */
  lemma YearGroupNone(t: string, e: nat)
    requires e == |t| || (e < |t| && t[e] == ' ')
    ensures YearGroupAt(t, e) == None
  {
  }

  /** A prefix of `u` where `u` itself sits at `i` in `t`. */
  lemma PrefixWithin(t: string, i: nat, u: string, b: nat)
    requires i + |u| <= |t| && t[i..i + |u|] == u && b <= |u|
    ensures t[i..i + b] == u[..b]
  {
    assert forall q :: 0 <= q < b ==> t[i + q] == u[q];
  }

  /** The match at `i` of month `m`'s name (of length `l`), one space, the
      day digits `dd`, then `, ` and the four year digits `yy`. */
  lemma MatchLaidOutYear(t: string, i: nat, m: int, l: nat, dd: string, e: nat, yy: string)
    requires 1 <= m <= 12 && l == |MonthName(m)| && 1 <= |dd| <= 2 && AllDigits(dd)
    requires |yy| == 4 && AllDigits(yy) && e == i + l + 1 + |dd| && e + 6 <= |t|
    requires t[i..i + l] == MonthName(m) && t[i + l] == ' ' && t[i + l + 1..e] == dd
    requires t[e] == ',' && t[e + 1] == ' ' && t[e + 2..e + 6] == yy
    ensures MatchAt(t, i) == Some(Hit(m, dd, Some(YearGroup(1, yy))))
  {
    YearGroupOne(t, e, yy);
    MatchAtSpaced(t, i, m, i + l, dd, e);
  }

  /** The same with no year: the day digits end the text or a space follows. */
  lemma MatchLaidOutBare(t: string, i: nat, m: int, l: nat, dd: string, e: nat)
    requires 1 <= m <= 12 && l == |MonthName(m)| && 1 <= |dd| <= 2 && AllDigits(dd)
    requires e == i + l + 1 + |dd| && e <= |t|
    requires t[i..i + l] == MonthName(m) && t[i + l] == ' ' && t[i + l + 1..e] == dd
    requires e == |t| || t[e] == ' '
    ensures MatchAt(t, i) == Some(Hit(m, dd, None))
  {
    YearGroupNone(t, e);
    MatchAtSpaced(t, i, m, i + l, dd, e);
  }

  /** `ph` sits at `i` in `t`, followed by the end of `t` or a space. */
  predicate PhraseAt(t: string, i: nat, ph: string) {
    i + |ph| <= |t| && t[i..i + |ph|] == ph && (i + |ph| == |t| || t[i + |ph|] == ' ')
  }

  /** `ph` is month `m`'s name (of length `l`), one space and the day digits
      `dd`, then either `, ` and the year digits `yy`, or nothing. */
  predicate DateLayout(ph: string, m: int, l: nat, dd: string, yy: Option<string>)
    requires 1 <= m <= 12
  {
    var e := l + 1 + |dd|;
    e <= |ph| && ph[..l] == MonthName(m) && ph[l] == ' ' && ph[l + 1..e] == dd
    && (yy.Some? ==> |yy.value| == 4 && AllDigits(yy.value) && |ph| == e + 6
                     && ph[e] == ',' && ph[e + 1] == ' ' && ph[e + 2..] == yy.value)
    && (yy.None? ==> |ph| == e)
  }

  /** The same, for a phrase `ph` with that layout sitting at `i` in `t`. */
  lemma MatchEmbedded(t: string, i: nat, ph: string, m: int, l: nat, dd: string, yy: Option<string>)
    requires 1 <= m <= 12 && l == |MonthName(m)| && 1 <= |dd| <= 2 && AllDigits(dd)
    requires PhraseAt(t, i, ph) && DateLayout(ph, m, l, dd, yy)
    ensures MatchAt(t, i) == Some(Hit(m, dd, if yy.Some? then Some(YearGroup(1, yy.value)) else None))
  {
    if yy.Some? {
      MatchEmbeddedYear(t, i, ph, m, l, dd, yy.value);
    } else {
      MatchEmbeddedBare(t, i, ph, m, l, dd);
    }
  }

  lemma MatchEmbeddedYear(t: string, i: nat, ph: string, m: int, l: nat, dd: string, yy: string)
    requires 1 <= m <= 12 && l == |MonthName(m)| && 1 <= |dd| <= 2 && AllDigits(dd)
    requires PhraseAt(t, i, ph) && DateLayout(ph, m, l, dd, Some(yy))
    ensures MatchAt(t, i) == Some(Hit(m, dd, Some(YearGroup(1, yy))))
  {
    var e := l + 1 + |dd|;
    var end := i + e;
    PrefixWithin(t, i, ph, l);
    SliceWithin(t, i, ph, l, l + 1, i + l, i + l + 1);
    SliceWithin(t, i, ph, l + 1, e, i + l + 1, end);
    SliceWithin(t, i, ph, e, e + 1, end, end + 1);
    SliceWithin(t, i, ph, e + 1, e + 2, end + 1, end + 2);
    SliceWithin(t, i, ph, e + 2, e + 6, end + 2, end + 6);
    assert ph[e + 2..e + 6] == ph[e + 2..];
    MatchLaidOutYear(t, i, m, l, dd, end, yy);
  }

  lemma MatchEmbeddedBare(t: string, i: nat, ph: string, m: int, l: nat, dd: string)
    requires 1 <= m <= 12 && l == |MonthName(m)| && 1 <= |dd| <= 2 && AllDigits(dd)
    requires PhraseAt(t, i, ph) && DateLayout(ph, m, l, dd, None)
    ensures MatchAt(t, i) == Some(Hit(m, dd, None))
  {
    var e := l + 1 + |dd|;
    var end := i + e;
    PrefixWithin(t, i, ph, l);
    SliceWithin(t, i, ph, l, l + 1, i + l, i + l + 1);
    SliceWithin(t, i, ph, l + 1, e, i + l + 1, end);
    MatchLaidOutBare(t, i, m, l, dd, end);
  }

  /** The match at `i` where a written-out date sits in `t`, followed by the
      end of the text or a space. */
  lemma MatchPhrase(t: string, i: nat, d: Date, withYear: bool)
    requires ValidDate(d) && PhraseAt(t, i, Phrase(d, withYear))
    ensures MatchAt(t, i) == Some(WrittenHit(d, withYear))
  {
    PhraseLayout(d, withYear);
    MatchEmbedded(t, i, Phrase(d, withYear), d.month, |MonthName(d.month)|, DayDigits(d.day),
                  if withYear then Some(FourDigits(d.year)) else None);
  }

  /** `strptime` turns the pieces of a written-out date back into the date;
      without a year it takes the fallback, which must then be the date's. */
  lemma StrptimeWritten(d: Date, withYear: bool, fallbackYear: string)
    requires ValidDate(d) && (withYear || fallbackYear == FourDigits(d.year))
    ensures StrptimeHit(WrittenHit(d, withYear), fallbackYear) == Some(d)
  {
    var dd, yy := DayDigits(d.day), FourDigits(d.year);
    assert DigitsValue(dd) == d.day && DigitsValue(yy) == d.year;
  }

  /** Cleaned text whose leftmost match is at `i` parses as that match. */
  lemma ParseAt(t: string, i: nat, h: Hit, fallbackYear: string, r: Option<Date>)
    requires t != "" && Cleaned(t) == t && i <= |t| && MatchAt(t, i) == Some(h)
    requires forall k :: 0 <= k < i ==> !MonthDayAt(t, k)
    requires StrptimeHit(h, fallbackYear) == r
    ensures ParseMonthDayYear(t, fallbackYear) == r
  {
    MatchAtIff(t, i);
    assert LeftmostAt(t, i);
    ParseMonthDayYearSpec(t, fallbackYear);
  }

  /** The hit the pattern makes on a spelled-out date. */
  function SpelledHit(m: int, day: int, y: int): (h: Hit)
    requires 1 <= m <= 12 && 1 <= day <= 99 && 0 <= y <= 9999
    ensures WellFormedHit(h)
  {
    Hit(m, DayDigits(day), Some(YearGroup(1, FourDigits(y))))
  }

  /** A spelled-out date is cleaned already and matches at its start. */
  lemma MatchSpelled(m: int, day: int, y: int)
    requires 1 <= m <= 12 && 1 <= day <= 99 && 0 <= y <= 9999
    ensures Cleaned(Spelled(m, day, y)) == Spelled(m, day, y) && Spelled(m, day, y) != ""
    ensures MatchAt(Spelled(m, day, y), 0) == Some(SpelledHit(m, day, y))
  {
    var t := Spelled(m, day, y);
    SpelledNormalized(m, day, y);
    CleanedFixed(t);
    SpelledLayout(m, day, y);
    assert t[0..|t|] == t && PhraseAt(t, 0, t);
    MatchEmbedded(t, 0, t, m, |MonthName(m)|, DayDigits(day), Some(FourDigits(y)));
  }

  /** `strptime` on the pieces: the date they name, if it exists. */
  lemma StrptimeSpelled(m: int, day: int, y: int, fallbackYear: string)
    requires 1 <= m <= 12 && 1 <= day <= 99 && 0 <= y <= 9999
    ensures StrptimeHit(SpelledHit(m, day, y), fallbackYear)
            == if ValidDate(Date(y, m, day)) then Some(Date(y, m, day)) else None
  {
    assert DigitsValue(DayDigits(day)) == day && DigitsValue(FourDigits(y)) == y;
  }

  /** Any "Month D, YYYY" reads as that date when the date exists, and as
      nothing (no error) when it does not, as for "February 30, 2025" or
      year 0; the fallback year plays no part. */
  lemma ParseSpelled(m: int, day: int, y: int, fallbackYear: string)
    requires 1 <= m <= 12 && 1 <= day <= 99 && 0 <= y <= 9999
    ensures ParseMonthDayYear(Spelled(m, day, y), fallbackYear)
            == if ValidDate(Date(y, m, day)) then Some(Date(y, m, day)) else None
  {
    MatchSpelled(m, day, y);
    StrptimeSpelled(m, day, y, fallbackYear);
    ParseAt(Spelled(m, day, y), 0, SpelledHit(m, day, y), fallbackYear,
            if ValidDate(Date(y, m, day)) then Some(Date(y, m, day)) else None);
  }

  /** Reading back a written-out date gives the date, whatever the fallback
      year. */
  lemma ParseWritten(d: Date, fallbackYear: string)
    requires ValidDate(d)
    ensures ParseMonthDayYear(Written(d), fallbackYear) == Some(d)
  {
    ParseSpelled(d.month, d.day, d.year, fallbackYear);
  }

  /** Reading back a date written without its year, with its year as the
      fallback (the row's year cell), gives the date. */
  lemma ParseWrittenShort(d: Date)
    requires ValidDate(d)
    ensures ParseMonthDayYear(WrittenShort(d), FourDigits(d.year)) == Some(d)
  {
    var t := Phrase(d, false);
    PhraseNormalized(d, false);
    CleanedFixed(t);
    assert t[0..|t|] == t && PhraseAt(t, 0, t);
    MatchPhrase(t, 0, d, false);
    StrptimeWritten(d, false, FourDigits(d.year));
    ParseAt(t, 0, WrittenHit(d, false), FourDigits(d.year), Some(d));
  }

  /** No month name lies wholly inside `p`. */
  predicate NoMonthName(p: string) {
    forall k: nat, m :: k < |p| && 1 <= m <= 12 ==> !NameAt(p, k, m)
  }

  /** When `t` starts with `p` and a space, and no month name lies inside
      `p`, the pattern cannot match before the space: a month name is all
      letters and cannot run across it. */
  lemma NoMatchBefore(t: string, p: string)
    requires |p| < |t| && t[..|p|] == p && t[|p|] == ' ' && NoMonthName(p)
    ensures forall k :: 0 <= k <= |p| ==> !MonthDayAt(t, k)
  {
    forall k, m | 0 <= k <= |p| && 1 <= m <= 12
      ensures !NameAt(t, k, m)
    {
      var name := MonthName(m);
      var l := |name|;
      MonthNameLetters(m);
      if k + l <= |p| {
        SliceOfPrefix(t, p, k, k + l);
        assert !NameAt(p, k, m);
      } else if k + l <= |t| {
        assert t[k..k + l][|p| - k] == t[|p|];
        assert IsLetter(name[|p| - k]);
      }
    }
  }

  lemma SliceOfPrefix<T>(t: seq<T>, p: seq<T>, i: nat, j: nat)
    requires i <= j <= |p| <= |t| && t[..|p|] == p
    ensures t[i..j] == p[i..j]
  {
    assert forall q :: i <= q < j ==> t[q] == t[..|p|][q];
  }

  /** Three normalized, `*`-free, non-empty texts joined by single spaces are
      their own cleaned form. */
  lemma CleanedJoin3(p: string, ph: string, s: string)
    requires p != "" && Normalized(p) && '*' !in p
    requires ph != "" && Normalized(ph) && '*' !in ph
    requires s != "" && Normalized(s) && '*' !in s
    ensures Cleaned(p + " " + ph + " " + s) == p + " " + ph + " " + s
  {
    NormalizedSpaceJoin(p, ph);
    NormalizedSpaceJoin(p + " " + ph, s);
    assert '*' !in p + " " + ph + " " + s;
    CleanedFixed(p + " " + ph + " " + s);
  }

  /** Where `p` and `ph` sit in `p + " " + ph + " " + s`. */
  lemma Join3Layout(p: string, ph: string, s: string)
    ensures var t := p + " " + ph + " " + s;
            |p| < |t| && t[..|p|] == p && t[|p|] == ' ' && PhraseAt(t, |p| + 1, ph)
  {
  }

  /** Nothing before the space after a month-free lead-in `p` matches. */
  lemma NoMatchInLeadIn(p: string, ph: string, s: string)
    requires NoMonthName(p)
    ensures forall k :: 0 <= k <= |p| ==> !MonthDayAt(p + " " + ph + " " + s, k)
  {
    Join3Layout(p, ph, s);
    NoMatchBefore(p + " " + ph + " " + s, p);
  }

  /** The written-out date after the lead-in matches where it starts. */
  lemma MatchAfterLeadIn(p: string, d: Date, withYear: bool, s: string)
    requires ValidDate(d)
    ensures |p| + 1 <= |p + " " + Phrase(d, withYear) + " " + s|
            && MatchAt(p + " " + Phrase(d, withYear) + " " + s, |p| + 1) == Some(WrittenHit(d, withYear))
  {
    var ph := Phrase(d, withYear);
    Join3Layout(p, ph, s);
    MatchPhrase(p + " " + ph + " " + s, |p| + 1, d, withYear);
  }

  /** Text that may stand before a date: cleaned already, and holding no
      month name. */
  predicate LeadIn(p: string) {
    p != "" && Normalized(p) && '*' !in p && NoMonthName(p)
  }

  /** Text that may stand after a date: cleaned already. */
  predicate Remark(s: string) {
    s != "" && Normalized(s) && '*' !in s
  }

  /** Only the leftmost "Month Day[, Year]" counts, and the text around it is
      ignored: a written-out date between a month-free lead-in and any
      trailing remark reads back as the date. */
  lemma ParseAmid(p: string, d: Date, withYear: bool, s: string, fallbackYear: string)
    requires ValidDate(d) && (withYear || fallbackYear == FourDigits(d.year))
    requires LeadIn(p) && Remark(s)
    ensures ParseMonthDayYear(p + " " + Phrase(d, withYear) + " " + s, fallbackYear) == Some(d)
  {
    PhraseNormalized(d, withYear);
    CleanedJoin3(p, Phrase(d, withYear), s);
    NoMatchInLeadIn(p, Phrase(d, withYear), s);
    MatchAfterLeadIn(p, d, withYear, s);
    StrptimeWritten(d, withYear, fallbackYear);
    ParseAt(p + " " + Phrase(d, withYear) + " " + s, |p| + 1, WrittenHit(d, withYear), fallbackYear, Some(d));
  }

  /** The three characters at `k`, if there are three, begin no month name. */
  predicate NoMonthPrefixAt(p: string, k: nat) {
    k + 3 <= |p| ==> MonthOfPrefix(p[k..k + 3]) == 0
  }

  /** No month name lies inside text none of whose three-letter windows
      begins a month name. */
  lemma NoMonthPrefixes(p: string)
    requires forall k: nat :: k < |p| ==> NoMonthPrefixAt(p, k)
    ensures NoMonthName(p)
  {
    forall k: nat, m | k < |p| && 1 <= m <= 12 ensures !NameAt(p, k, m) {
      MonthPrefixIdentifies(m);
      assert NoMonthPrefixAt(p, k);
      var name := MonthName(m);
      if k + |name| <= |p| {
        assert p[k..k + 3] == p[k..k + |name|][..3];
      }
    }
  }

  lemma LeadInSun()
    ensures LeadIn("Sun.,")
  {
    var p := "Sun.,";
    assert p[0..3] == "Sun" && p[1..4] == "un." && p[2..5] == "n.,";
    assert NoMonthPrefixAt(p, 0) && NoMonthPrefixAt(p, 1) && NoMonthPrefixAt(p, 2);
    assert NoMonthPrefixAt(p, 3) && NoMonthPrefixAt(p, 4);
    NoMonthPrefixes(p);
    NoSpaceNormalized(p);
  }

  lemma RemarkIfNecessary()
    ensures Remark("(if necessary)")
  {
    NoSpaceNormalized("(if");
    NoSpaceNormalized("necessary)");
    NormalizedSpaceJoin("(if", "necessary)");
    assert "(if" + " " + "necessary)" == "(if necessary)";
  }

  lemma June22()
    ensures Phrase(Date(2025, 6, 22), false) == "June 22" && FourDigits(2025) == "2025"
  {
    assert MonthName(6) == "June";
    assert DayDigits(22) == "22";
    assert "June" + " " + "22" == "June 22";
  }

  lemma June22Text()
    ensures "Sun., June 22 (if necessary)" == "Sun.," + " " + "June 22" + " " + "(if necessary)"
  {
  }

  /** A Finals sub-entry with a weekday in front and a remark behind, and no
      year: "Sun., June 22 (if necessary)" with fallback "2025". */
  lemma ParseFinalsEntryExample(text: string, fallbackYear: string)
    requires text == "Sun., June 22 (if necessary)" && fallbackYear == "2025"
    ensures ParseMonthDayYear(text, fallbackYear) == Some(Date(2025, 6, 22))
  {
    LeadInSun();
    RemarkIfNecessary();
    June22();
    June22Text();
    ParseAmid("Sun.,", Date(2025, 6, 22), false, "(if necessary)", fallbackYear);
  }

  // ---------------------------------------------------------------------
  // One <tr> of the schedule table

  /** A `<td>`: its `get_text(strip=True)`, its `get_text(" ", strip=True)`,
      and the `get_text(" ", strip=True)` of each `<div>` inside it. */
  datatype Cell = Cell(text: string, spacedText: string, divs: seq<string>)

  type Row = seq<Cell>

  /** A row the loop does not skip: at least four cells, the first all digits. */
  predicate IsDataRow(row: Row) {
    |row| >= 4 && AllDigits(row[0].text)
  }

  /** The Finals sub-entries: each `<div>`'s normalized text, or the whole
      cell's when it has no `<div>`. */
  function FinalsBits(finals: Cell): (bits: seq<string>)
    ensures |bits| == if |finals.divs| > 0 then |finals.divs| else 1
    ensures |finals.divs| > 0 ==> forall k :: 0 <= k < |bits| ==> bits[k] == NormText(finals.divs[k])
    ensures |finals.divs| == 0 ==> bits == [NormText(finals.spacedText)]
  {
    if |finals.divs| > 0 then
      seq(|finals.divs|, k requires 0 <= k < |finals.divs| => NormText(finals.divs[k]))
    else [NormText(finals.spacedText)]
  }

  /** Each text bit parsed, with the row's year text as fallback. */
  function Parses(bits: seq<string>, fallbackYear: string): (ps: seq<Option<Date>>)
    ensures |ps| == |bits|
    ensures forall k :: 0 <= k < |bits| ==> ps[k] == ParseMonthDayYear(bits[k], fallbackYear)
    ensures forall k :: 0 <= k < |ps| && ps[k].Some? ==> ValidDate(ps[k].value)
  {
    seq(|bits|, k requires 0 <= k < |bits| => ParseMonthDayYear(bits[k], fallbackYear))
  }

  /** The candidates that parsed, in order. */
  function Somes(ps: seq<Option<Date>>): (ds: seq<Date>)
    ensures forall d :: d in ds <==> Some(d) in ps
    ensures |ds| <= |ps|
  {
    if ps == [] then []
    else
      var rest := Somes(ps[1..]);
      assert forall d :: Some(d) in ps <==> Some(d) == ps[0] || Some(d) in ps[1..];
      if ps[0].Some? then [ps[0].value] + rest else rest
  }

  datatype YearEnd = YearEnd(year: int, end: Date)

  /** The parsed Finals sub-entries of a data row, one per sub-entry. */
  function RowCandidates(row: Row): (cs: seq<Option<Date>>)
    requires IsDataRow(row)
    ensures forall k :: 0 <= k < |cs| && cs[k].Some? ==> ValidDate(cs[k].value)
  {
    Parses(FinalsBits(row[3]), row[0].text)
  }

  /** What one row contributes to `ws_end_by_year`: nothing for a skipped row
      or a row none of whose sub-entries parse; otherwise its year and the
      latest of its parsed sub-entries. */
  function RowEnd(row: Row): (r: Option<YearEnd>)
    ensures r.Some? <==> IsDataRow(row) && exists d :: Some(d) in RowCandidates(row)
    ensures r.Some? ==> r.value.year == DigitsValue(row[0].text) && ValidDate(r.value.end)
    ensures r.Some? ==> Some(r.value.end) in RowCandidates(row)
    ensures r.Some? ==> forall d :: Some(d) in RowCandidates(row) ==> NotAfter(d, r.value.end)
  {
    if !IsDataRow(row) then None
    else
      var cs := RowCandidates(row);
      var found := Somes(cs);
      if |found| == 0 then
        assert found == [];
        None
      else
        var m := MaxDate(found);
        assert m in found;
        forall d | Some(d) in cs ensures NotAfter(d, m) {
          assert d in found;
          var j :| 0 <= j < |found| && found[j] == d;
        }
        var i :| 0 <= i < |cs| && cs[i] == Some(m);
        Some(YearEnd(DigitsValue(row[0].text), m))
  }

  lemma June20()
    ensures WrittenShort(Date(2025, 6, 20)) == "June 20" && FourDigits(2025) == "2025"
  {
    assert MonthName(6) == "June";
    assert DayDigits(20) == "20";
    assert "June" + " " + "20" == "June 20";
  }

  lemma ShortEntryNormal()
    ensures NormText("June 20") == "June 20"
  {
    NoSpaceNormalized("June");
    NoSpaceNormalized("20");
    NormalizedSpaceJoin("June", "20");
    assert "June" + " " + "20" == "June 20";
    NormTextUnique("June 20", "June 20");
  }

  lemma LongEntryNormal()
    ensures NormText("Sun., June 22 (if necessary)") == "Sun., June 22 (if necessary)"
  {
    LeadInSun();
    RemarkIfNecessary();
    June22();
    June22Text();
    PhraseNormalized(Date(2025, 6, 22), false);
    NormalizedSpaceJoin("Sun.,", "June 22");
    NormalizedSpaceJoin("Sun.," + " " + "June 22", "(if necessary)");
    NormTextUnique("Sun., June 22 (if necessary)", "Sun., June 22 (if necessary)");
  }

  /** The example cell's sub-entries parse to June 20 and June 22, 2025. */
  lemma ExampleCandidates(row: Row)
    requires |row| == 4 && row[0].text == "2025"
    requires row[3].divs == ["June 20", "Sun., June 22 (if necessary)"]
    ensures IsDataRow(row) && RowCandidates(row) == [Some(Date(2025, 6, 20)), Some(Date(2025, 6, 22))]
  {
    June20();
    ParseWrittenShort(Date(2025, 6, 20));
    ParseFinalsEntryExample("Sun., June 22 (if necessary)", "2025");
    ShortEntryNormal();
    LongEntryNormal();
    CandidatesOfTwo(row, "June 20", "Sun., June 22 (if necessary)", Date(2025, 6, 20), Date(2025, 6, 22));
  }

  /** A data row whose Finals cell holds two normal sub-entries. */
  lemma CandidatesOfTwo(row: Row, x: string, y: string, a: Date, b: Date)
    requires |row| >= 4 && AllDigits(row[0].text) && row[3].divs == [x, y]
    requires NormText(x) == x && NormText(y) == y
    requires ParseMonthDayYear(x, row[0].text) == Some(a) && ParseMonthDayYear(y, row[0].text) == Some(b)
    ensures IsDataRow(row) && RowCandidates(row) == [Some(a), Some(b)]
  {
    var bits := FinalsBits(row[3]);
    assert row[3].divs[0] == x && row[3].divs[1] == y;
    assert bits[0] == x && bits[1] == y;
    TwoElements(bits, x, y);
    var cs := RowCandidates(row);
    assert cs[0] == Some(a) && cs[1] == Some(b);
    TwoElements(cs, Some(a), Some(b));
  }

  lemma TwoElements<T>(s: seq<T>, a: T, b: T)
    requires |s| == 2 && s[0] == a && s[1] == b
    ensures s == [a, b]
  {
  }

  /** Of two parsed sub-entries the later one is the row's end. */
  lemma RowEndOfTwo(row: Row, a: Date, b: Date)
    requires IsDataRow(row) && RowCandidates(row) == [Some(a), Some(b)] && Before(a, b)
    ensures RowEnd(row) == Some(YearEnd(DigitsValue(row[0].text), b))
  {
    assert Some(b) in RowCandidates(row);
  }

  /** The max rule: a Finals cell listing a game date and a later
      "if necessary" date gives the later one as the year's end. */
  lemma RowEndExample(row: Row)
    requires |row| == 4 && row[0].text == "2025"
    requires row[3].divs == ["June 20", "Sun., June 22 (if necessary)"]
    ensures RowEnd(row) == Some(YearEnd(2025, Date(2025, 6, 22)))
  {
    ExampleCandidates(row);
    RowEndOfTwo(row, Date(2025, 6, 20), Date(2025, 6, 22));
    June20();
  }

  /** What each row contributes, in table order. */
  function RowEnds(rows: seq<Row>): (es: seq<Option<YearEnd>>)
    ensures |es| == |rows| && forall i :: 0 <= i < |rows| ==> es[i] == RowEnd(rows[i])
    ensures forall i :: 0 <= i < |es| && es[i].Some? ==> ValidDate(es[i].value.end)
  {
    seq(|rows|, i requires 0 <= i < |rows| => RowEnd(rows[i]))
  }

  /** `ws_end_by_year` after the loop has seen the contributions `es`: a plain
      dictionary assignment per contribution, so a later row overwrites an
      earlier one of the same year. */
  function Collected(es: seq<Option<YearEnd>>): map<int, Date> {
    if es == [] then map[]
    else
      var before := Collected(es[..|es| - 1]);
      match es[|es| - 1]
      case None => before
      case Some(e) => before[e.year := e.end]
  }

  predicate Records(es: seq<Option<YearEnd>>, i: int, y: int)
    requires 0 <= i < |es|
  {
    es[i].Some? && es[i].value.year == y
  }

  /** Among the first `n` contributions, the last one for year `y` is `d`. */
  predicate LastRecord(es: seq<Option<YearEnd>>, n: nat, y: int, d: Date)
    requires n <= |es|
  {
    exists i :: 0 <= i < n && es[i] == Some(YearEnd(y, d))
                && forall j :: i < j < n ==> !Records(es, j, y)
  }

  /** Collecting one more contribution. */
  lemma CollectedSnoc(es: seq<Option<YearEnd>>, n: nat)
    requires n < |es|
    ensures Collected(es[..n + 1]) ==
      if es[n].Some? then Collected(es[..n])[es[n].value.year := es[n].value.end] else Collected(es[..n])
  {
    assert es[..n + 1][..n] == es[..n];
  }

  /** The dictionary holds a year exactly when some contribution is for
      it. */
  lemma {:induction false} CollectedKeys(es: seq<Option<YearEnd>>)
    ensures forall y :: y in Collected(es) <==> exists i :: 0 <= i < |es| && Records(es, i, y)
  {
    if es != [] {
      var n := |es| - 1;
      var init := es[..n];
      CollectedKeys(init);
      assert es[..n + 1] == es;
      CollectedSnoc(es, n);
      forall y
        ensures y in Collected(es) <==> exists i :: 0 <= i < |es| && Records(es, i, y)
      {
        if Records(es, n, y) {
          assert y in Collected(es);
        } else {
          assert y in Collected(es) <==> y in Collected(init);
          if y in Collected(init) {
            var i :| 0 <= i < n && Records(init, i, y);
            assert init[i] == es[i] && Records(es, i, y);
          }
          if exists i :: 0 <= i < |es| && Records(es, i, y) {
            var i :| 0 <= i < |es| && Records(es, i, y);
            assert init[i] == es[i] && Records(init, i, y);
          }
        }
      }
    }
  }

  /** A year's date in the dictionary is that of its last contribution: a
      later row overwrites an earlier one. */
  lemma {:induction false} CollectedLastWins(es: seq<Option<YearEnd>>)
    ensures forall y :: y in Collected(es) ==> LastRecord(es, |es|, y, Collected(es)[y])
  {
    if es != [] {
      var n := |es| - 1;
      var init := es[..n];
      CollectedLastWins(init);
      assert es[..n + 1] == es;
      CollectedSnoc(es, n);
      forall y | y in Collected(es)
        ensures LastRecord(es, |es|, y, Collected(es)[y])
      {
        if Records(es, n, y) {
          assert es[n] == Some(YearEnd(y, Collected(es)[y]));
        } else {
          var d := Collected(init)[y];
          assert Collected(es)[y] == d;
          var i :| 0 <= i < n && init[i] == Some(YearEnd(y, d))
                   && forall j :: i < j < n ==> !Records(init, j, y);
          assert forall j :: i < j < n ==> init[j] == es[j] && Records(init, j, y) == Records(es, j, y);
          assert es[i] == Some(YearEnd(y, d));
          assert forall j :: i < j < |es| ==> !Records(es, j, y);
        }
      }
    }
  }

  /** Every value collected is one of the contributions' dates. */
  lemma {:induction false} CollectedFrom(es: seq<Option<YearEnd>>)
    ensures forall y :: y in Collected(es) ==> Some(YearEnd(y, Collected(es)[y])) in es
  {
    if es != [] {
      var init := es[..|es| - 1];
      CollectedFrom(init);
      assert forall x :: x in init ==> x in es;
    }
  }

  /** Contributions with valid dates collect into valid dates. */
  lemma CollectedValid(es: seq<Option<YearEnd>>)
    requires forall k :: 0 <= k < |es| && es[k].Some? ==> ValidDate(es[k].value.end)
    ensures forall y :: y in Collected(es) ==> ValidDate(Collected(es)[y])
  {
    CollectedFrom(es);
    forall y | y in Collected(es) ensures ValidDate(Collected(es)[y]) {
      var k :| 0 <= k < |es| && es[k] == Some(YearEnd(y, Collected(es)[y]));
    }
  }

  /** `RowEnd` computed the way the loop body spells it out. */
  lemma RowEndSteps(row: Row)
    ensures RowEnd(row) ==
      if |row| >= 4 && AllDigits(row[0].text) then
        var found := Somes(Parses(FinalsBits(row[3]), row[0].text));
        if |found| > 0 then Some(YearEnd(DigitsValue(row[0].text), MaxDate(found))) else None
      else None
  {
  }

  /** One pass of the first loop's body, in the loop's own terms. */
  lemma CollectStep(rows: seq<Row>, i: nat)
    requires i < |rows|
    ensures var row, before := rows[i], Collected(RowEnds(rows)[..i]);
      Collected(RowEnds(rows)[..i + 1]) ==
        if |row| >= 4 && AllDigits(row[0].text) then
          var found := Somes(Parses(FinalsBits(row[3]), row[0].text));
          if |found| > 0 then before[DigitsValue(row[0].text) := MaxDate(found)] else before
        else before
  {
    var es := RowEnds(rows);
    RowEndSteps(rows[i]);
    assert es[i] == RowEnd(rows[i]);
    CollectedSnoc(es, i);
  }

  /** The first loop of `extract_dates`, proved to build `Collected` of the
      rows' contributions. */
  method CollectEndDates(rows: seq<Row>) returns (endByYear: map<int, Date>)
    ensures endByYear == Collected(RowEnds(rows))
    ensures forall y :: y in endByYear ==> ValidDate(endByYear[y])
  {
    ghost var es := RowEnds(rows);
    endByYear := map[];
    var i := 0;
    while i < |rows|
      invariant 0 <= i <= |rows|
      invariant endByYear == Collected(es[..i])
    {
      var tds := rows[i];
      CollectStep(rows, i);
      if |tds| >= 4 && AllDigits(tds[0].text) {
        var y := DigitsValue(tds[0].text);
        var bits := FinalsBits(tds[3]);
        var candidates := Parses(bits, tds[0].text);
        var finalsDates := Somes(candidates);
        if |finalsDates| > 0 {
          endByYear := endByYear[y := MaxDate(finalsDates)];
        }
      }
      i := i + 1;
    }
    assert es[..|rows|] == es;
    RowEndsValid(rows, es);
    CollectedValid(es);
  }

  /** Every contribution a row makes carries a valid end date. */
  lemma RowEndsValid(rows: seq<Row>, es: seq<Option<YearEnd>>)
    requires es == RowEnds(rows)
    ensures forall k :: 0 <= k < |es| && es[k].Some? ==> ValidDate(es[k].value.end)
  {
  }


  // ---------------------------------------------------------------------
  // Chaining end dates into season windows

  /** The `{year, season_start, season_end}` record. */
  datatype SeasonWindow = SeasonWindow(year: int, seasonStart: Date, seasonEnd: Date)

  /** `w` is the window the chainer builds for its year from `endByYear`. */
  predicate WindowFor(endByYear: map<int, Date>, w: SeasonWindow) {
    w.year in endByYear && w.year - 1 in endByYear
    && ValidDate(endByYear[w.year - 1])
    && NextDay(endByYear[w.year - 1]) == Some(w.seasonStart)
    && w.seasonEnd == endByYear[w.year]
  }

  /** Some window of `ws` is for year `y`. */
  predicate HasWindow(ws: seq<SeasonWindow>, y: int) {
    exists k :: 0 <= k < |ws| && ws[k].year == y
  }

  /** The windows' years strictly ascend. */
  predicate YearsAscending(ws: seq<SeasonWindow>) {
    forall a, b :: 0 <= a < b < |ws| ==> ws[a].year < ws[b].year
  }

  /** `ws` is the chained output for `endByYear`: strictly ascending years,
      a window exactly for each year whose predecessor is also known, each
      starting the day after the predecessor's end and ending on the year's
      own end. */
  predicate IsChainOf(endByYear: map<int, Date>, ws: seq<SeasonWindow>) {
    YearsAscending(ws)
    && (forall k :: 0 <= k < |ws| ==> WindowFor(endByYear, ws[k]))
    && (forall y :: y in endByYear && y - 1 in endByYear ==> HasWindow(ws, y))
  }

  /** A non-empty set has an element. */
  lemma Inhabited(s: set<int>)
    requires s != {}
    ensures exists x :: x in s
  {
    if forall x :: x !in s {
      assert false;
    }
  }

  predicate IsLeast(s: set<int>, m: int) {
    m in s && forall y :: y in s ==> m <= y
  }

  /** A non-empty set of years has a least element. */
  lemma {:induction false} HasLeast(s: set<int>)
    requires s != {}
    ensures exists m :: IsLeast(s, m)
    decreases |s|
  {
    Inhabited(s);
    var x :| x in s;
    var rest := s - {x};
    assert forall y :: y in s ==> y == x || y in rest;
    if rest == {} {
      assert IsLeast(s, x);
    } else {
      HasLeast(rest);
      var m :| IsLeast(rest, m);
      if x < m {
        assert IsLeast(s, x);
      } else {
        assert IsLeast(s, m);
      }
    }
  }

  /** The least element of a non-empty set of years. */
  function MinOf(s: set<int>): (m: int)
    requires s != {}
    ensures m in s && forall y :: y in s ==> m <= y
  {
    HasLeast(s);
    var m :| IsLeast(s, m);
    m
  }

  /** `sorted(ws_end_by_year.keys())`: the years in strictly ascending order. */
  function SortedYears(keys: set<int>): (ys: seq<int>)
    ensures forall a, b :: 0 <= a < b < |ys| ==> ys[a] < ys[b]
    ensures forall y :: y in ys <==> y in keys
    decreases |keys|
  {
    if keys == {} then []
    else
      var m := MinOf(keys);
      [m] + SortedYears(keys - {m})
  }

  /** Year `y` and its predecessor are known, and the predecessor ended on
      the last representable date, so no season start can follow it. */
  predicate Overflows(endByYear: map<int, Date>, y: int) {
    y in endByYear && y - 1 in endByYear && endByYear[y - 1] == LastDate
  }

  predicate AllValid(endByYear: map<int, Date>) {
    forall y :: y in endByYear ==> ValidDate(endByYear[y])
  }

  predicate Known(endByYear: map<int, Date>, ys: seq<int>) {
    forall j :: 0 <= j < |ys| ==> ys[j] in endByYear
  }

  /** What the second loop of `extract_dates` has produced after visiting
      the years `ys` in order: the windows so far, or the `OverflowError`
      that stopped it. */
  function Chain(endByYear: map<int, Date>, ys: seq<int>): Outcome<seq<SeasonWindow>>
    requires AllValid(endByYear) && Known(endByYear, ys)
  {
    if ys == [] then Value([])
    else
      var y := ys[|ys| - 1];
      match Chain(endByYear, ys[..|ys| - 1])
      case Raised(e) => Raised(e)
      case Value(ws) =>
        if y - 1 !in endByYear then Value(ws)
        else match NextDay(endByYear[y - 1])
          case None => Raised(DateOverflow)
          case Some(start) => Value(ws + [SeasonWindow(y, start, endByYear[y])])
  }

  /** The chain raises exactly when a visited year overflows, and then with
      `OverflowError`. */
  lemma {:induction false} ChainRaisesIff(endByYear: map<int, Date>, ys: seq<int>)
    requires AllValid(endByYear) && Known(endByYear, ys)
    ensures Chain(endByYear, ys).Raised? <==> exists j :: 0 <= j < |ys| && Overflows(endByYear, ys[j])
    ensures Chain(endByYear, ys).Raised? ==> Chain(endByYear, ys).error == DateOverflow
  {
    if ys != [] {
      var n := |ys| - 1;
      var init := ys[..n];
      assert forall j :: 0 <= j < n ==> init[j] == ys[j];
      ChainRaisesIff(endByYear, init);
      if exists j :: 0 <= j < |ys| && Overflows(endByYear, ys[j]) {
        var j :| 0 <= j < |ys| && Overflows(endByYear, ys[j]);
        if j < n { assert Overflows(endByYear, init[j]); }
      }
    }
  }

  /** One step of the chain: visiting year `y` keeps the windows so far and
      appends `y`'s window exactly when `y`'s predecessor is known. */
  lemma ChainStep(endByYear: map<int, Date>, ys: seq<int>)
    requires AllValid(endByYear) && Known(endByYear, ys) && ys != []
    requires Chain(endByYear, ys).Value?
    ensures Known(endByYear, ys[..|ys| - 1]) && Chain(endByYear, ys[..|ys| - 1]).Value?
    ensures var ws, ws', y := Chain(endByYear, ys[..|ys| - 1]).value, Chain(endByYear, ys).value, ys[|ys| - 1];
            if y - 1 in endByYear then
              |ws'| == |ws| + 1 && ws'[..|ws|] == ws && ws'[|ws|].year == y && WindowFor(endByYear, ws'[|ws|])
            else ws' == ws
  {
  }

  /** Each window of the chain is built from `endByYear` for a visited
      year. */
  lemma {:induction false} ChainWindowsFor(endByYear: map<int, Date>, ys: seq<int>)
    requires AllValid(endByYear) && Known(endByYear, ys)
    ensures Chain(endByYear, ys).Value? ==>
              forall k :: 0 <= k < |Chain(endByYear, ys).value| ==>
                WindowFor(endByYear, Chain(endByYear, ys).value[k])
                && Chain(endByYear, ys).value[k].year in ys
  {
    if ys != [] && Chain(endByYear, ys).Value? {
      var n := |ys| - 1;
      var init := ys[..n];
      ChainStep(endByYear, ys);
      ChainWindowsFor(endByYear, init);
      var ws := Chain(endByYear, init).value;
      var ws' := Chain(endByYear, ys).value;
      forall k | 0 <= k < |ws'| ensures WindowFor(endByYear, ws'[k]) && ws'[k].year in ys {
        if k < |ws| {
          assert ws'[k] == ws[k];
          var j :| 0 <= j < n && init[j] == ws[k].year;
          assert ys[j] == ws'[k].year;
        } else {
          assert ys[n] == ws'[k].year;
        }
      }
    }
  }

  /** Over strictly ascending years, the windows come in strictly ascending
      years. */
  lemma {:induction false} ChainAscending(endByYear: map<int, Date>, ys: seq<int>)
    requires AllValid(endByYear) && Known(endByYear, ys)
    requires forall a, b :: 0 <= a < b < |ys| ==> ys[a] < ys[b]
    ensures Chain(endByYear, ys).Value? ==> YearsAscending(Chain(endByYear, ys).value)
  {
    if ys != [] && Chain(endByYear, ys).Value? {
      var n := |ys| - 1;
      var init := ys[..n];
      ChainStep(endByYear, ys);
      ChainAscending(endByYear, init);
      ChainWindowsFor(endByYear, init);
      var ws := Chain(endByYear, init).value;
      var ws' := Chain(endByYear, ys).value;
      if ys[n] - 1 in endByYear {
        forall a, b | 0 <= a < b < |ws'| ensures ws'[a].year < ws'[b].year {
          assert ws'[a] == ws[a];
          if b < |ws| {
            assert ws'[b] == ws[b];
          } else {
            var j :| 0 <= j < n && init[j] == ws[a].year;
            assert ys[j] < ys[n];
          }
        }
        assert YearsAscending(ws');
      }
    }
  }

  /** Every visited year whose predecessor is known gets a window. */
  lemma {:induction false} ChainCovers(endByYear: map<int, Date>, ys: seq<int>)
    requires AllValid(endByYear) && Known(endByYear, ys)
    ensures Chain(endByYear, ys).Value? ==>
              forall j :: 0 <= j < |ys| && ys[j] - 1 in endByYear ==> HasWindow(Chain(endByYear, ys).value, ys[j])
  {
    if ys != [] && Chain(endByYear, ys).Value? {
      var n := |ys| - 1;
      var init := ys[..n];
      ChainStep(endByYear, ys);
      ChainCovers(endByYear, init);
      var ws := Chain(endByYear, init).value;
      var ws' := Chain(endByYear, ys).value;
      forall j | 0 <= j < |ys| && ys[j] - 1 in endByYear ensures HasWindow(ws', ys[j]) {
        if j < n {
          assert HasWindow(ws, init[j]);
          var k :| 0 <= k < |ws| && ws[k].year == init[j];
          assert ws'[k] == ws[k];
        } else {
          assert ws'[|ws|].year == ys[j];
        }
      }
    }
  }

  /** Once the chain has raised, visiting more years does not change it. */
  lemma {:induction false} ChainRaisedStays(endByYear: map<int, Date>, ys: seq<int>, n: nat)
    requires AllValid(endByYear) && Known(endByYear, ys) && n <= |ys|
    requires Chain(endByYear, ys[..n]).Raised?
    ensures Chain(endByYear, ys) == Chain(endByYear, ys[..n])
    decreases |ys| - n
  {
    if n < |ys| {
      var ys' := ys[..|ys| - 1];
      assert ys'[..n] == ys[..n];
      ChainRaisedStays(endByYear, ys', n);
    } else {
      assert ys[..n] == ys;
    }
  }

  /** `extract_dates`' second result: the chain over the years in ascending
      order. */
  function ChainResult(endByYear: map<int, Date>): Outcome<seq<SeasonWindow>>
    requires AllValid(endByYear)
  {
    Chain(endByYear, SortedYears(endByYear.Keys))
  }

  /** The chain raises `OverflowError` exactly when some year's predecessor
      ended on 9999-12-31; otherwise it is the chain of `endByYear`. It does
      not compare `season_start` with `season_end`. */
  lemma ChainResultSpec(endByYear: map<int, Date>)
    requires AllValid(endByYear)
    ensures ChainResult(endByYear).Raised? <==> exists y :: Overflows(endByYear, y)
    ensures ChainResult(endByYear).Raised? ==> ChainResult(endByYear).error == DateOverflow
    ensures ChainResult(endByYear).Value? ==> IsChainOf(endByYear, ChainResult(endByYear).value)
  {
    ChainResultRaises(endByYear);
    ChainResultIsChain(endByYear);
  }

  lemma ChainResultRaises(endByYear: map<int, Date>)
    requires AllValid(endByYear)
    ensures ChainResult(endByYear).Raised? <==> exists y :: Overflows(endByYear, y)
    ensures ChainResult(endByYear).Raised? ==> ChainResult(endByYear).error == DateOverflow
  {
    var ys := SortedYears(endByYear.Keys);
    ChainRaisesIff(endByYear, ys);
    if exists y :: Overflows(endByYear, y) {
      var y :| Overflows(endByYear, y);
      var j :| 0 <= j < |ys| && ys[j] == y;
    }
  }

  lemma ChainResultIsChain(endByYear: map<int, Date>)
    requires AllValid(endByYear)
    ensures ChainResult(endByYear).Value? ==> IsChainOf(endByYear, ChainResult(endByYear).value)
  {
    var ys := SortedYears(endByYear.Keys);
    ChainWindowsFor(endByYear, ys);
    ChainAscending(endByYear, ys);
    ChainCovers(endByYear, ys);
    if Chain(endByYear, ys).Value? {
      var ws := Chain(endByYear, ys).value;
      CoversEveryYear(endByYear, ys, ws);
    }
  }

  /** Windows for every listed year with a known predecessor cover every such
      year of the map, once the list holds all its years. */
  lemma CoversEveryYear(endByYear: map<int, Date>, ys: seq<int>, ws: seq<SeasonWindow>)
    requires forall y :: y in ys <==> y in endByYear
    requires forall j :: 0 <= j < |ys| && ys[j] - 1 in endByYear ==> HasWindow(ws, ys[j])
    ensures forall y :: y in endByYear && y - 1 in endByYear ==> HasWindow(ws, y)
  {
    forall y | y in endByYear && y - 1 in endByYear ensures HasWindow(ws, y) {
      var j :| 0 <= j < |ys| && ys[j] == y;
    }
  }

  /** When every year's end date is later than the previous year's, each
      window starts no later than it ends. The chainer itself never checks
      this. */
  lemma ChainWindowsOrdered(endByYear: map<int, Date>)
    requires AllValid(endByYear)
    requires forall y :: y in endByYear && y - 1 in endByYear ==> Before(endByYear[y - 1], endByYear[y])
    ensures ChainResult(endByYear).Value? ==>
              forall k :: 0 <= k < |ChainResult(endByYear).value| ==>
                NotAfter(ChainResult(endByYear).value[k].seasonStart, ChainResult(endByYear).value[k].seasonEnd)
  {
    ChainResultSpec(endByYear);
    if ChainResult(endByYear).Value? {
      var ws := ChainResult(endByYear).value;
      forall k | 0 <= k < |ws| ensures NotAfter(ws[k].seasonStart, ws[k].seasonEnd) {
        assert WindowFor(endByYear, ws[k]);
      }
    }
  }

  /** A chain whose windows all carry year `y`, and which has one, has
      exactly one. */
  lemma SingleWindow(endByYear: map<int, Date>, ws: seq<SeasonWindow>, y: int)
    requires IsChainOf(endByYear, ws) && HasWindow(ws, y)
    requires forall k :: 0 <= k < |ws| ==> ws[k].year == y
    ensures |ws| == 1
  {
    assert |ws| >= 1 && ws[0].year == y && ws[|ws| - 1].year == y;
  }

  /** The end dates of two consecutive years, the later one `later`. */
  predicate TwoYears(endByYear: map<int, Date>, y: int, earlier: Date, later: Date) {
    endByYear == map[y - 1 := earlier, y := later]
  }

  /** A chain for two consecutive years is the later year's window alone. */
  lemma ChainOfTwoYears(endByYear: map<int, Date>, y: int, earlier: Date, later: Date, ws: seq<SeasonWindow>)
    requires TwoYears(endByYear, y, earlier, later) && ValidDate(earlier) && earlier != LastDate
    requires IsChainOf(endByYear, ws)
    ensures ws == [SeasonWindow(y, NextDay(earlier).value, later)]
  {
    forall k | 0 <= k < |ws| ensures ws[k].year == y {
      assert WindowFor(endByYear, ws[k]);
    }
    assert y in endByYear && y - 1 in endByYear;
    assert HasWindow(ws, y);
    SingleWindow(endByYear, ws, y);
    assert WindowFor(endByYear, ws[0]);
  }

  lemma TwoYearsFacts(endByYear: map<int, Date>, y: int, earlier: Date, later: Date)
    requires TwoYears(endByYear, y, earlier, later) && ValidDate(earlier) && ValidDate(later)
    requires earlier != LastDate
    ensures AllValid(endByYear) && forall x :: !Overflows(endByYear, x)
  {
  }

  /** With two consecutive years known, the chain holds only the later
      year's window: it starts the day after the earlier end date. */
  lemma ChainTwoYears(endByYear: map<int, Date>, y: int, earlier: Date, later: Date)
    requires TwoYears(endByYear, y, earlier, later) && ValidDate(earlier) && ValidDate(later)
    requires earlier != LastDate
    ensures AllValid(endByYear)
    ensures ChainResult(endByYear) == Value([SeasonWindow(y, NextDay(earlier).value, later)])
  {
    TwoYearsFacts(endByYear, y, earlier, later);
    ChainResultSpec(endByYear);
    ChainOfTwoYears(endByYear, y, earlier, later, ChainResult(endByYear).value);
  }

  /** {2024: 2024-06-24, 2025: 2025-06-24} chains to
      [(2025, 2024-06-25, 2025-06-24)]. */
  lemma ChainExample(endByYear: map<int, Date>)
    requires endByYear == map[2024 := Date(2024, 6, 24), 2025 := Date(2025, 6, 24)]
    ensures AllValid(endByYear)
    ensures ChainResult(endByYear) == Value([SeasonWindow(2025, Date(2024, 6, 25), Date(2025, 6, 24))])
  {
    assert TwoYears(endByYear, 2025, Date(2024, 6, 24), Date(2025, 6, 24));
    ChainTwoYears(endByYear, 2025, Date(2024, 6, 24), Date(2025, 6, 24));
    assert NextDay(Date(2024, 6, 24)) == Some(Date(2024, 6, 25));
  }

  /** The window is built even when the previous year's end date is later
      than this year's, so a window can start after it ends. */
  lemma ChainUnorderedExample(endByYear: map<int, Date>)
    requires endByYear == map[2024 := Date(2024, 6, 24), 2025 := Date(2024, 6, 1)]
    ensures AllValid(endByYear) && ChainResult(endByYear).Value?
    ensures exists k :: 0 <= k < |ChainResult(endByYear).value|
              && Before(ChainResult(endByYear).value[k].seasonEnd, ChainResult(endByYear).value[k].seasonStart)
  {
    assert endByYear.Keys == {2024, 2025};
    assert AllValid(endByYear);
    ChainResultSpec(endByYear);
    assert forall y :: !Overflows(endByYear, y);
    var ws := ChainResult(endByYear).value;
    assert HasWindow(ws, 2025);
    var k :| 0 <= k < |ws| && ws[k].year == 2025;
    assert WindowFor(endByYear, ws[k]);
    assert NextDay(Date(2024, 6, 24)) == Some(Date(2024, 6, 25));
    assert Before(ws[k].seasonEnd, ws[k].seasonStart);
  }

  /** `extract_dates` once the table's rows are in hand: the end date per
      year from the Finals column, then the chained windows. */
  method ExtractDates(rows: seq<Row>) returns (r: Outcome<seq<SeasonWindow>>)
    ensures AllValid(Collected(RowEnds(rows)))
    ensures r == ChainResult(Collected(RowEnds(rows)))
  {
    var endByYear := CollectEndDates(rows);
    r := ChainWindows(endByYear);
  }

  /** The second loop of `extract_dates`, proved to compute `ChainResult`. */
  method ChainWindows(endByYear: map<int, Date>) returns (r: Outcome<seq<SeasonWindow>>)
    requires AllValid(endByYear)
    ensures r == ChainResult(endByYear)
  {
    var years := SortedYears(endByYear.Keys);
    r := VisitYears(endByYear, years);
  }

  /** The body of that loop, over the years in the order given. */
  method VisitYears(endByYear: map<int, Date>, years: seq<int>) returns (r: Outcome<seq<SeasonWindow>>)
    requires AllValid(endByYear) && Known(endByYear, years)
    ensures r == Chain(endByYear, years)
  {
    var seasons: seq<SeasonWindow> := [];
    var i := 0;
    while i < |years|
      invariant 0 <= i <= |years|
      invariant Chain(endByYear, years[..i]) == Value(seasons)
    {
      var y := years[i];
      var prev := y - 1;
      assert years[..i + 1][..i] == years[..i];
      if prev !in endByYear {
        i := i + 1;
        continue;
      }
      var seasonStart := NextDay(endByYear[prev]);
      if seasonStart.None? {
        assert Chain(endByYear, years[..i + 1]) == Raised(DateOverflow);
        ChainRaisedStays(endByYear, years, i + 1);
        return Raised(DateOverflow);
      }
      var seasonEnd := endByYear[y];
      seasons := seasons + [SeasonWindow(y, seasonStart.value, seasonEnd)];
      i := i + 1;
    }
    assert years[..|years|] == years;
    return Value(seasons);
  }
}
