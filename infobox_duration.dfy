/** The Wikipedia-infobox season-dates scraper: a whole-string
    "Month D[, YYYY]" parser, the split of a "Start – End, YYYY" duration
    cell into two dates that share the trailing year, the scan of the infobox
    rows for the "Duration" row, and the both-or-nothing season record. HTML
    is abstracted as the infobox's rows, each with the text of its header
    cell and of its data cell, either of which may be missing. */
module InfoboxDuration {
  import opened Common
  import opened Text
  import opened Calendar
  import NcaaFinals

  // ---------------------------------------------------------------------
  // The anchored pattern  ^MONTHS_RE (\d{1,2})(, (\d{4}))?$

  /** The groups of a match: the month's 1-based index (what
      `strptime(month_str, "%B").month` gives), the day digits, and the year
      digits when the optional `, YYYY` group matched. */
  datatype Groups = Groups(month: int, day: string, year: Option<string>)

  predicate WellFormed(g: Groups) {
    1 <= g.month <= 12 && 1 <= |g.day| <= 2 && AllDigits(g.day)
    && (g.year.Some? ==> |g.year.value| == 4 && AllDigits(g.year.value))
  }

  /** The one text the pattern matches with groups `g`: the month name, one
      space, the day digits, and `, ` with the year digits if present. */
  function Render(g: Groups): string
    requires WellFormed(g)
  {
    if g.year.Some? then MonthName(g.month) + " " + g.day + ", " + g.year.value
    else MonthName(g.month) + " " + g.day
  }

  /** Greedy `\d{1,2}` at `k` followed by the end or a non-digit: the run of
      at most three digits there is the day. */
  lemma DayRunOf(t: string, k: nat, dd: string, e: nat)
    requires 1 <= |dd| <= 2 && AllDigits(dd) && e == k + |dd| && e <= |t| && t[k..e] == dd
    requires e == |t| || !IsDigit(t[e])
    ensures NcaaFinals.DigitRun(t, k, 3) == |dd|
  {
    assert t[k] == dd[0];
    if |dd| == 2 {
      assert t[k + 1] == dd[1];
      assert NcaaFinals.DigitRun(t, k + 2, 1) == 0;
    } else {
      assert NcaaFinals.DigitRun(t, k + 1, 2) == 0;
    }
  }

  /** The pieces of a matched text without the year group. */
  lemma BareShape(t: string, m: int, j: nat, e: nat)
    requires 1 <= m <= 12 && j == |MonthName(m)| && NameAt(t, 0, m)
    requires j < e == |t| && t[j] == ' '
    ensures t == MonthName(m) + " " + t[j + 1..e]
  {
    assert t[..j] == MonthName(m);
    assert t == t[..j] + [t[j]] + t[j + 1..];
  }

  /** The pieces of a matched text with the year group. */
  lemma YearShape(t: string, m: int, j: nat, e: nat)
    requires 1 <= m <= 12 && j == |MonthName(m)| && NameAt(t, 0, m)
    requires j < e && e + 6 == |t| && t[j] == ' ' && t[e] == ',' && t[e + 1] == ' '
    ensures t == MonthName(m) + " " + t[j + 1..e] + ", " + t[e + 2..]
  {
    assert t[..j] == MonthName(m);
    assert t == t[..j] + [t[j]] + t[j + 1..e] + [t[e], t[e + 1]] + t[e + 2..];
  }

  /** `re.match(rf"^{MONTHS_RE} (\d{1,2})(, (\d{4}))?$", t)`. At most one
      month name starts the text, so the alternation has one candidate; the
      day run is then fixed, and what follows it must be the end, or `, ` and
      exactly four digits at the end. (`$` would also accept a final newline;
      the text the scraper passes is normalized and has none.) */
  function FullMatch(t: string): (r: Option<Groups>)
    ensures r.Some? ==> WellFormed(r.value)
  {
    match MonthAt(t, 0)
    case None => None
    case Some(m) => AfterMonth(t, m, |MonthName(m)|)
  }

  /** The rest of the match once month `m`'s name has been read, up to `j`. */
  function AfterMonth(t: string, m: int, j: nat): (r: Option<Groups>)
    requires 1 <= m <= 12 && j <= |t|
    ensures r.Some? ==> WellFormed(r.value) && r.value.month == m
  {
    if j < |t| && t[j] == ' ' then
      var n := NcaaFinals.DigitRun(t, j + 1, 3);
      var e := j + 1 + n;
      if n < 1 || n > 2 then None
      else if e == |t| then Some(Groups(m, t[j + 1..e], None))
      else if e + 6 == |t| && t[e] == ',' && t[e + 1] == ' ' && AllDigits(t[e + 2..]) then
        Some(Groups(m, t[j + 1..e], Some(t[e + 2..])))
      else None
    else None
  }

  /** Once the month is known, the match is what follows its name. */
  lemma FullMatchNamed(t: string, m: int, j: nat)
    requires 1 <= m <= 12 && MonthAt(t, 0) == Some(m) && j == |MonthName(m)|
    ensures j <= |t| && FullMatch(t) == AfterMonth(t, m, j)
  {
  }

  /** A text the pattern matches is the rendering of its groups. */
  lemma FullMatchSound(t: string)
    ensures FullMatch(t).Some? ==> t == Render(FullMatch(t).value)
  {
    if MonthAt(t, 0).Some? {
      var m := MonthAt(t, 0).value;
      var j := |MonthName(m)|;
      FullMatchNamed(t, m, j);
      AfterMonthSound(t, m, j);
    }
  }

  lemma AfterMonthSound(t: string, m: int, j: nat)
    requires 1 <= m <= 12 && j == |MonthName(m)| && NameAt(t, 0, m)
    ensures AfterMonth(t, m, j).Some? ==> t == Render(AfterMonth(t, m, j).value)
  {
    if j < |t| && t[j] == ' ' {
      var n := NcaaFinals.DigitRun(t, j + 1, 3);
      var e := j + 1 + n;
      if 1 <= n <= 2 {
        if e == |t| {
          BareShape(t, m, j, e);
        } else if e + 6 == |t| && t[e] == ',' && t[e + 1] == ' ' && AllDigits(t[e + 2..]) {
          YearShape(t, m, j, e);
        }
      }
    }
  }

  /** Every text of the accepted shape matches, with its own groups. */
  lemma FullMatchRender(g: Groups)
    requires WellFormed(g)
    ensures FullMatch(Render(g)) == Some(g)
  {
    if g.year.Some? {
      FullMatchWithYear(g.month, g.day, g.year.value);
    } else {
      FullMatchBare(g.month, g.day);
    }
  }

  lemma FullMatchWithYear(m: int, dd: string, yy: string)
    requires WellFormed(Groups(m, dd, Some(yy)))
    ensures FullMatch(MonthName(m) + " " + dd + ", " + yy) == Some(Groups(m, dd, Some(yy)))
  {
    var name := MonthName(m);
    var t := name + " " + dd + ", " + yy;
    var j := |name|;
    var e := j + 1 + |dd|;
    NcaaFinals.LongPieces(name, dd, yy);
    NcaaFinals.MonthAtUnique(t, 0, m);
    FullMatchNamed(t, m, j);
    DayRunOf(t, j + 1, dd, e);
    AfterMonthYear(t, m, j, e);
  }

  lemma FullMatchBare(m: int, dd: string)
    requires WellFormed(Groups(m, dd, None))
    ensures FullMatch(MonthName(m) + " " + dd) == Some(Groups(m, dd, None))
  {
    var name := MonthName(m);
    var t := name + " " + dd;
    var j := |name|;
    var e := j + 1 + |dd|;
    NcaaFinals.ShortPieces(name, dd);
    assert t[j + 1..e] == dd;
    NcaaFinals.MonthAtUnique(t, 0, m);
    FullMatchNamed(t, m, j);
    DayRunOf(t, j + 1, dd, e);
    AfterMonthBare(t, m, j, e);
  }

  /** The rest of the match once the space and the day run are known. */
  lemma AfterMonthYear(t: string, m: int, j: nat, e: nat)
    requires 1 <= m <= 12 && j < |t| && t[j] == ' '
    requires e == j + 1 + NcaaFinals.DigitRun(t, j + 1, 3) && j + 2 <= e <= j + 3
    requires e + 6 == |t| && t[e] == ',' && t[e + 1] == ' ' && AllDigits(t[e + 2..])
    ensures AfterMonth(t, m, j) == Some(Groups(m, t[j + 1..e], Some(t[e + 2..])))
  {
  }

  lemma AfterMonthBare(t: string, m: int, j: nat, e: nat)
    requires 1 <= m <= 12 && j < |t| && t[j] == ' '
    requires e == j + 1 + NcaaFinals.DigitRun(t, j + 1, 3) && j + 2 <= e <= j + 3 && e == |t|
    ensures AfterMonth(t, m, j) == Some(Groups(m, t[j + 1..e], None))
  {
  }

  /** The pattern accepts exactly the rendered texts. */
  lemma FullMatchIff(t: string, g: Groups)
    ensures FullMatch(t) == Some(g) <==> WellFormed(g) && t == Render(g)
  {
    FullMatchSound(t);
    if WellFormed(g) && t == Render(g) {
      FullMatchRender(g);
    }
  }

  /** `_parse_month_day_year(text, year)` of the infobox scraper. The
      captured year group is discarded: the date's year is `int(year)`. A
      text of another shape raises on `m.groups()`, a `year` that is not an
      integer raises in `int`, and a day the month does not have raises in
      `date`. */
  function ParseMonthDayYear(text: string, year: string): (r: Outcome<Date>)
    ensures r.Value? ==> ValidDate(r.value) && PyInt(year) == Some(r.value.year)
    ensures r.Raised? ==> r.error in {NoPatternMatch, IntParse, DateRange}
  {
    match FullMatch(NormText(text))
    case None => Raised(NoPatternMatch)
    case Some(g) =>
      var day := DigitsValue(g.day);
      match PyInt(year)
      case None => Raised(IntParse)
      case Some(y) =>
        if ValidDate(Date(y, g.month, day)) then Value(Date(y, g.month, day)) else Raised(DateRange)
  }

  /** On a text of the accepted shape the result depends on the month, the
      day and `year` only, never on a year written in the text. */
  lemma ParseShaped(text: string, year: string, g: Groups)
    requires WellFormed(g) && NormText(text) == Render(g)
    ensures ParseMonthDayYear(text, year) ==
      match PyInt(year)
      case None => Raised(IntParse)
      case Some(y) =>
        if ValidDate(Date(y, g.month, DigitsValue(g.day))) then Value(Date(y, g.month, DigitsValue(g.day)))
        else Raised(DateRange)
  {
    FullMatchRender(g);
  }

  /** Any other shape raises. */
  lemma ParseUnshaped(text: string, year: string)
    requires forall g :: WellFormed(g) ==> Render(g) != NormText(text)
    ensures ParseMonthDayYear(text, year) == Raised(NoPatternMatch)
  {
    FullMatchSound(NormText(text));
  }

  // ---------------------------------------------------------------------
  // Splitting at the two-character separator `", "`

  /** `", "` starts at `k` in `s`. */
  predicate SepAt(s: string, k: nat) {
    k + 1 < |s| && s[k] == ',' && s[k + 1] == ' '
  }

  predicate NoSep(s: string) {
    forall k: nat :: k < |s| ==> !SepAt(s, k)
  }

  /** `s.split(", ")`: the pieces between the occurrences of `", "`, scanned
      left to right; always at least one piece. */
  function CommaSplit(s: string): (parts: seq<string>)
    ensures |parts| >= 1
    ensures |s| > 0 && !SepAt(s, 0) ==> |parts[0]| > 0 && parts[0][0] == s[0]
    decreases |s|
  {
    if |s| < 2 then [s]
    else if SepAt(s, 0) then [""] + CommaSplit(s[2..])
    else
      var rest := CommaSplit(s[1..]);
      [[s[0]] + rest[0]] + rest[1..]
  }

  /** `", ".join(parts)`. */
  function JoinComma(parts: seq<string>): string
    requires |parts| >= 1
  {
    if |parts| == 1 then parts[0] else parts[0] + ", " + JoinComma(parts[1..])
  }

  /** Joining the pieces back gives the text. */
  lemma {:induction false} CommaSplitJoin(s: string)
    ensures JoinComma(CommaSplit(s)) == s
    decreases |s|
  {
    if |s| >= 2 {
      if SepAt(s, 0) {
        var rest := CommaSplit(s[2..]);
        CommaSplitJoin(s[2..]);
        assert ([""] + rest)[1..] == rest;
        assert s == ", " + s[2..];
      } else {
        var rest := CommaSplit(s[1..]);
        CommaSplitJoin(s[1..]);
        var parts := [[s[0]] + rest[0]] + rest[1..];
        assert s == [s[0]] + s[1..];
        if |rest| > 1 {
          assert parts[1..] == rest[1..];
          ConsBeforeComma(s[0], rest[0], JoinComma(rest[1..]));
        }
      }
    }
  }

  lemma ConsBeforeComma(c: char, x: string, y: string)
    ensures [c] + (x + ", " + y) == ([c] + x) + ", " + y
  {
  }

  /** No piece holds the separator. */
  lemma {:induction false} CommaSplitNoSep(s: string)
    ensures forall k :: 0 <= k < |CommaSplit(s)| ==> NoSep(CommaSplit(s)[k])
    decreases |s|
  {
    if |s| >= 2 {
      if SepAt(s, 0) {
        CommaSplitNoSep(s[2..]);
        var rest := CommaSplit(s[2..]);
        assert forall k :: 1 <= k < |rest| + 1 ==> ([""] + rest)[k] == rest[k - 1];
      } else {
        CommaSplitNoSep(s[1..]);
        var rest := CommaSplit(s[1..]);
        var first := [s[0]] + rest[0];
        forall k: nat | k < |first| ensures !SepAt(first, k) {
          if k > 0 {
            assert !SepAt(rest[0], k - 1);
          } else if |rest[0]| > 0 {
            assert rest[0][0] == s[1];
          }
        }
        var parts := [first] + rest[1..];
        assert forall k :: 1 <= k < |parts| ==> parts[k] == rest[k];
      }
    }
  }

  /** A separator-free piece in front of `", "` is split off whole. */
  lemma {:induction false} CommaSplitCons(p: string, r: string)
    requires NoSep(p)
    ensures CommaSplit(p + ", " + r) == [p] + CommaSplit(r)
    decreases |p|
  {
    var s := p + ", " + r;
    if p == "" {
      assert s[2..] == r;
    } else {
      assert !SepAt(p[1..], 0) ==> true;
      forall k: nat | k < |p[1..]| ensures !SepAt(p[1..], k) {
        assert !SepAt(p, k + 1);
      }
      CommaSplitCons(p[1..], r);
      assert s[1..] == p[1..] + ", " + r;
      assert s[0] == p[0];
      if |p| >= 2 {
        assert !SepAt(p, 0);
      }
      assert p == [p[0]] + p[1..];
    }
  }

  /** Separator-free text is a single piece. */
  lemma {:induction false} CommaSplitSingle(p: string)
    requires NoSep(p)
    ensures CommaSplit(p) == [p]
    decreases |p|
  {
    if |p| >= 2 {
      forall k: nat | k < |p[1..]| ensures !SepAt(p[1..], k) {
        assert !SepAt(p, k + 1);
      }
      CommaSplitSingle(p[1..]);
      assert !SepAt(p, 0);
      assert p == [p[0]] + p[1..];
    }
  }

  /** Splitting at `", "` gives the two parts the unpacking needs exactly
      when the text is two separator-free pieces around a single `", "`. */
  lemma CommaSplitTwo(s: string)
    ensures |CommaSplit(s)| == 2 <==> OneSeparator(s)
  {
    if |CommaSplit(s)| == 2 {
      var parts := CommaSplit(s);
      CommaSplitJoin(s);
      CommaSplitNoSep(s);
      assert parts[1..] == [parts[1]];
      assert s == parts[0] + ", " + parts[1];
      assert NoSep(parts[0]) && NoSep(parts[1]);
    }
    if OneSeparator(s) {
      var p, r :| NoSep(p) && NoSep(r) && s == p + ", " + r;
      CommaSplitCons(p, r);
      CommaSplitSingle(r);
    }
  }

  ghost predicate OneSeparator(s: string) {
    exists p, r :: NoSep(p) && NoSep(r) && s == p + ", " + r
  }

  /** Splitting a join of separator-free pieces gives the pieces back. */
  lemma {:induction false} JoinCommaSplit(parts: seq<string>)
    requires |parts| >= 1 && forall k :: 0 <= k < |parts| ==> NoSep(parts[k])
    ensures CommaSplit(JoinComma(parts)) == parts
  {
    if |parts| == 1 {
      CommaSplitSingle(parts[0]);
    } else {
      JoinCommaSplit(parts[1..]);
      CommaSplitCons(parts[0], JoinComma(parts[1..]));
    }
  }

  // ---------------------------------------------------------------------
  // Splitting at an en dash with any whitespace around it

  const EnDash: char := '\U{2013}'

  /** The first en dash at or after `i`. */
  function FirstDash(s: string, i: nat): (r: Option<nat>)
    requires i <= |s|
    ensures r.Some? ==> i <= r.value < |s| && s[r.value] == EnDash
                        && forall q :: i <= q < r.value ==> s[q] != EnDash
    ensures r.None? ==> forall q :: i <= q < |s| ==> s[q] != EnDash
    decreases |s| - i
  {
    if i == |s| then None
    else if s[i] == EnDash then Some(i)
    else FirstDash(s, i + 1)
  }

  /** The pieces between the leftmost matches of `\s*–\s*`: a match takes
      the whole whitespace run on either side of an en dash. */
  function DashSplit(s: string): (parts: seq<string>)
    ensures |parts| >= 1
    decreases |s|
  {
    match FirstDash(s, 0)
    case None => [s]
    case Some(k) =>
      var p := BackSpaces(s, k);
      var q := SkipSpaces(s, k + 1);
      [s[..p]] + DashSplit(s[q..])
  }

  predicate DashFree(parts: seq<string>) {
    forall k, i :: 0 <= k < |parts| && 0 <= i < |parts[k]| ==> parts[k][i] != EnDash
  }

  /** No piece holds an en dash. */
  lemma {:induction false} DashSplitDashFree(s: string)
    ensures DashFree(DashSplit(s))
    decreases |s|
  {
    match FirstDash(s, 0)
    case None =>
      DashSplitWhole(s);
    case Some(k) =>
      var p, q := BackSpaces(s, k), SkipSpaces(s, k + 1);
      DashSplitDashFree(s[q..]);
      DashFreeStep(s, k, p, q);
  }

  lemma DashFreeStep(s: string, k: nat, p: nat, q: nat)
    requires FirstDash(s, 0) == Some(k)
    requires p == BackSpaces(s, k) && k < |s| && q == SkipSpaces(s, k + 1)
    requires DashFree(DashSplit(s[q..]))
    ensures DashFree(DashSplit(s))
  {
    DashSplitUnfold(s, k, p, q);
    HeadDashFree(s, k, p);
    DashFreeCons(s[..p], DashSplit(s[q..]));
  }

  lemma HeadDashFree(s: string, k: nat, p: nat)
    requires p <= k <= |s| && forall i :: 0 <= i < k ==> s[i] != EnDash
    ensures forall i :: 0 <= i < p ==> s[..p][i] != EnDash
  {
  }

  lemma DashFreeCons(head: string, rest: seq<string>)
    requires forall i :: 0 <= i < |head| ==> head[i] != EnDash
    requires DashFree(rest)
    ensures DashFree([head] + rest)
  {
    var parts := [head] + rest;
    assert forall j :: 1 <= j < |parts| ==> parts[j] == rest[j - 1];
  }

  lemma NoDashIn(u: string)
    requires forall i :: 0 <= i < |u| ==> u[i] != EnDash
    ensures EnDash !in u
  {
  }

  /** Text free of en dashes counts none. */
  lemma NoDashCount(u: string)
    requires forall i :: 0 <= i < |u| ==> u[i] != EnDash
    ensures multiset(u)[EnDash] == 0
  {
    NoDashIn(u);
  }

  /** The text up to the end of the first separator holds one en dash. */
  lemma FirstSeparatorCount(s: string, k: nat, q: nat)
    requires k < q <= |s| && s[k] == EnDash
    requires forall i :: 0 <= i < k ==> s[i] != EnDash
    requires forall i :: k < i < q ==> IsSpace(s[i])
    ensures multiset(s[..q])[EnDash] == 1
  {
    NoDashCount(s[..k]);
    NoDashCount(s[k + 1..q]);
    assert s[..q] == s[..k] + [s[k]] + s[k + 1..q];
  }

  /** One piece more than there are en dashes. */
  lemma {:induction false} DashSplitCount(s: string)
    ensures |DashSplit(s)| == 1 + multiset(s)[EnDash]
    decreases |s|
  {
    match FirstDash(s, 0)
    case None =>
      NoDashCount(s);
    case Some(k) =>
      var q := SkipSpaces(s, k + 1);
      DashSplitCount(s[q..]);
      FirstSeparatorCount(s, k, q);
      MultisetSplit(s, q);
  }

  /** Cutting a sequence in two splits its multiset. */
  lemma MultisetSplit<T>(s: seq<T>, q: nat)
    requires q <= |s|
    ensures multiset(s) == multiset(s[..q]) + multiset(s[q..])
  {
    assert s == s[..q] + s[q..];
  }

  /** Where a run of whitespace between a non-space and `j` begins. */
  lemma {:induction false} BackSpacesAt(s: string, j: nat, n: nat)
    requires n <= j <= |s|
    requires forall q :: n <= q < j ==> IsSpace(s[q])
    requires n > 0 ==> !IsSpace(s[n - 1])
    ensures BackSpaces(s, j) == n
    decreases j
  {
    if j > n {
      BackSpacesAt(s, j - 1, n);
    }
  }

  /** Where a run of whitespace from `j` up to a non-space ends. */
  lemma {:induction false} SkipSpacesAt(s: string, j: nat, n: nat)
    requires j <= n <= |s|
    requires forall q :: j <= q < n ==> IsSpace(s[q])
    requires n < |s| ==> !IsSpace(s[n])
    ensures SkipSpaces(s, j) == n
    decreases n - j
  {
    if j < n {
      SkipSpacesAt(s, j + 1, n);
    }
  }

  /** Scanning from `i` finds the dash at `k` when none comes between. */
  lemma {:induction false} FirstDashFrom(s: string, i: nat, k: nat)
    requires i <= k < |s| && s[k] == EnDash
    requires forall p :: i <= p < k ==> s[p] != EnDash
    ensures FirstDash(s, i) == Some(k)
    decreases k - i
  {
    if i < k {
      FirstDashFrom(s, i + 1, k);
    }
  }

  /** Scanning from `i` finds nothing when no dash follows. */
  lemma {:induction false} NoDashFrom(s: string, i: nat)
    requires i <= |s|
    requires forall p :: i <= p < |s| ==> s[p] != EnDash
    ensures FirstDash(s, i) == None
    decreases |s| - i
  {
    if i < |s| {
      NoDashFrom(s, i + 1);
    }
  }

  /** Text with a single en dash, whose whitespace run on the left is
      `s[i..k]` and on the right `s[k + 1..q]`, splits into `s[..i]` and
      `s[q..]`. */
  lemma DashSplitAt(s: string, i: nat, k: nat, q: nat)
    requires i <= k < q <= |s| && s[k] == EnDash
    requires forall p :: 0 <= p < k ==> s[p] != EnDash
    requires forall p :: q <= p < |s| ==> s[p] != EnDash
    requires forall p :: i <= p < k ==> IsSpace(s[p])
    requires forall p :: k < p < q ==> IsSpace(s[p])
    requires i > 0 ==> !IsSpace(s[i - 1])
    requires q < |s| ==> !IsSpace(s[q])
    ensures DashSplit(s) == [s[..i], s[q..]]
  {
    FirstDashFrom(s, 0, k);
    BackSpacesAt(s, k, i);
    SkipSpacesAt(s, k + 1, q);
    DashSplitUnfold(s, k, i, q);
    NoDashSuffix(s, q);
    DashSplitWhole(s[q..]);
  }

  lemma NoDashSuffix(s: string, q: nat)
    requires q <= |s| && forall p :: q <= p < |s| ==> s[p] != EnDash
    ensures FirstDash(s[q..], 0) == None
  {
    var b := s[q..];
    assert forall p :: 0 <= p < |b| ==> b[p] == s[q + p];
    NoDashFrom(b, 0);
  }

  lemma DashSplitUnfold(s: string, k: nat, p: nat, q: nat)
    requires FirstDash(s, 0) == Some(k)
    requires p == BackSpaces(s, k) && k < |s| && q == SkipSpaces(s, k + 1)
    ensures DashSplit(s) == [s[..p]] + DashSplit(s[q..])
  {
  }

  lemma DashSplitWhole(s: string)
    requires FirstDash(s, 0) == None
    ensures DashSplit(s) == [s]
  {
  }

  /** Two dash-free pieces that neither end nor begin in whitespace, joined
      by `" – "`, split back into the two. */
  lemma DashSplitPair(a: string, b: string)
    requires forall i :: 0 <= i < |a| ==> a[i] != EnDash
    requires forall i :: 0 <= i < |b| ==> b[i] != EnDash
    requires a == [] || !IsSpace(a[|a| - 1])
    requires b == [] || !IsSpace(b[0])
    ensures DashSplit(a + " \U{2013} " + b) == [a, b]
  {
    var s := a + " \U{2013} " + b;
    var k := |a| + 1;
    PairLeft(a, b, s);
    PairRight(a, b, s);
    DashSplitAt(s, |a|, k, k + 2);
  }

  /** Where `a` and the separator sit in `a + " – " + b`. */
  lemma PairLeft(a: string, b: string, s: string)
    requires s == a + " \U{2013} " + b
    requires forall i :: 0 <= i < |a| ==> a[i] != EnDash
    requires a == [] || !IsSpace(a[|a| - 1])
    ensures |s| == |a| + 3 + |b| && s[..|a|] == a
    ensures forall p :: 0 <= p < |a| + 1 ==> s[p] != EnDash
    ensures forall p :: |a| <= p < |a| + 1 ==> IsSpace(s[p])
    ensures forall p :: |a| + 1 < p < |a| + 3 ==> IsSpace(s[p])
    ensures |a| > 0 ==> !IsSpace(s[|a| - 1])
    ensures s[|a| + 1] == EnDash
  {
    assert forall p :: 0 <= p < |a| ==> s[p] == a[p];
    assert s[|a|] == ' ' && s[|a| + 1] == EnDash && s[|a| + 2] == ' ';
  }

  /** Where `b` sits in `a + " – " + b`. */
  lemma PairRight(a: string, b: string, s: string)
    requires s == a + " \U{2013} " + b
    requires forall i :: 0 <= i < |b| ==> b[i] != EnDash
    requires b == [] || !IsSpace(b[0])
    ensures |s| == |a| + 3 + |b| && s[|a| + 3..] == b
    ensures forall p :: |a| + 3 <= p < |s| ==> s[p] != EnDash
    ensures |a| + 3 < |s| ==> !IsSpace(s[|a| + 3])
  {
    var t := a + " \U{2013} ";
    assert |t| == |a| + 3 && s == t + b;
    assert s[|t|..] == b;
    assert forall p :: |t| <= p < |s| ==> s[p] == b[p - |t|];
  }

  // ---------------------------------------------------------------------
  // `_extract_duration_dates`

  /** A character of the text of `MONTHS_RE`, the alternation of the month
      names in parentheses: a bracket, the bar, or a letter of a month name. */
  predicate PatternChar(c: char) {
    c == '(' || c == ')' || c == '|' || exists m :: 1 <= m <= 12 && c in MonthName(m)
  }

  /** The guard before parsing iterates over the month pattern string
      itself, which yields its single characters, so it asks whether `s`
      holds any character of the pattern. */
  predicate MentionsPatternChar(s: string) {
    exists k :: 0 <= k < |s| && PatternChar(s[k])
  }

  /** The first letter of each month name is a character of the pattern. */
  lemma MonthInitialInPattern(m: int)
    requires 1 <= m <= 12
    ensures |MonthName(m)| > 0 && PatternChar(MonthName(m)[0]) && MonthName(m)[0] != ' '
  {
    MonthNameLetters(m);
    assert MonthName(m)[0] in MonthName(m);
  }

  /** A text the strict pattern accepts mentions a character of the pattern:
      the guard turns into `None` only texts whose parse would raise. */
  lemma GuardOnlyPreempts(x: string, year: string)
    ensures FullMatch(NormText(x)).Some? ==> MentionsPatternChar(x)
    ensures !MentionsPatternChar(x) ==> ParseMonthDayYear(x, year) == Raised(NoPatternMatch)
  {
    var t := NormText(x);
    if FullMatch(t).Some? {
      var g := FullMatch(t).value;
      FullMatchSound(t);
      MonthInitialInPattern(g.month);
      var c := MonthName(g.month)[0];
      assert t[0] == c;
      NormTextChars(x, c);
    }
  }

  /** The start and end dates of a season. */
  datatype Duration = Duration(start: Date, end: Date)

  /** `_extract_duration_dates(text, year)`: normalise, drop footnote stars,
      split off the trailing year at `", "`, split the rest at the en dash,
      and parse each side with that year. The `year` argument is shadowed by
      the split and never read. `Value(None)` is the guard's answer. */
  function ExtractDurationDates(text: string, year: int): (r: Outcome<Option<Duration>>)
    ensures r.Value? && r.value.Some? ==>
      var d := r.value.value;
      ValidDate(d.start) && ValidDate(d.end) && d.start.year == d.end.year
    ensures r.Value? && r.value.Some? ==>
      var halves := CommaSplit(RemoveStars(NormText(text)));
      |halves| == 2 && PyInt(halves[1]) == Some(r.value.value.start.year)
  {
    var t := RemoveStars(NormText(text));
    var halves := CommaSplit(t);
    if |halves| != 2 then Raised(CommaUnpack)
    else
      var ends := DashSplit(halves[0]);
      if |ends| != 2 then Raised(DashUnpack)
      else DurationOfEnds(ends[0], ends[1], halves[1])
  }

  /** The guard and the two parses, once the text has been unpacked into its
      start, its end and the year text after the comma. Only parsing errors
      can come out of here. */
  function DurationOfEnds(start: string, end: string, yearText: string): (r: Outcome<Option<Duration>>)
    ensures r.Raised? ==> r.error in {NoPatternMatch, IntParse, DateRange}
    ensures r.Value? && r.value.Some? ==>
      var d := r.value.value;
      ValidDate(d.start) && ValidDate(d.end) && d.start.year == d.end.year
    ensures r.Value? && r.value.Some? ==> PyInt(yearText) == Some(r.value.value.start.year)
  {
    if !MentionsPatternChar(start) || !MentionsPatternChar(end) then Value(None)
    else
      match ParseMonthDayYear(start, yearText)
      case Raised(e) => Raised(e)
      case Value(s) =>
        match ParseMonthDayYear(end, yearText)
        case Raised(e) => Raised(e)
        case Value(e) => Value(Some(Duration(s, e)))
  }

  /** The `year` argument plays no part: the split rebinds the name before
      it is read. */
  lemma ExtractDurationYearUnused(text: string, y1: int, y2: int)
    ensures ExtractDurationDates(text, y1) == ExtractDurationDates(text, y2)
  {
  }

  /** The two unpacking errors, exactly: `CommaUnpack` when the cleaned text
      is not one `", "` between two pieces, `DashUnpack` when it is but the
      part before the comma does not split at an en dash into two. A failing
      parse raises neither. */
  lemma DurationUnpackErrors(text: string, year: int)
    ensures var t := RemoveStars(NormText(text));
      (ExtractDurationDates(text, year) == Raised(CommaUnpack) <==> !OneSeparator(t))
      && (ExtractDurationDates(text, year) == Raised(DashUnpack) <==>
            OneSeparator(t) && |DashSplit(CommaSplit(t)[0])| != 2)
  {
    UnpackErrors(text, year);
    CommaSplitTwo(RemoveStars(NormText(text)));
  }

  lemma UnpackErrors(text: string, year: int)
    ensures var t := RemoveStars(NormText(text));
      (ExtractDurationDates(text, year) == Raised(CommaUnpack) <==> |CommaSplit(t)| != 2)
      && (ExtractDurationDates(text, year) == Raised(DashUnpack) <==>
            |CommaSplit(t)| == 2 && |DashSplit(CommaSplit(t)[0])| != 2)
  {
  }

  /** Letters, digits and plain spaces only. */
  predicate Plain(s: string) {
    forall i :: 0 <= i < |s| ==> IsLetter(s[i]) || IsDigit(s[i]) || s[i] == ' '
  }

  lemma PlainSpaceJoin(a: string, b: string)
    requires Plain(a) && Plain(b)
    ensures Plain(a + " " + b)
  {
    var t := a + " " + b;
    assert forall i :: 0 <= i < |a| ==> t[i] == a[i];
    assert forall i :: |a| < i < |t| ==> t[i] == b[i - |a| - 1];
  }

  /** "Month D" is plain, starts with a letter and ends with a digit. */
  lemma ShortPlain(d: Date)
    requires ValidDate(d)
    ensures var w := NcaaFinals.WrittenShort(d);
      Plain(w) && |w| > 0 && IsLetter(w[0]) && IsDigit(w[|w| - 1]) && Normalized(w)
  {
    var name, dd := MonthName(d.month), DayDigits(d.day);
    MonthNameLetters(d.month);
    PlainSpaceJoin(name, dd);
    var w := name + " " + dd;
    assert w[0] == name[0];
    assert w[|w| - 1] == dd[|dd| - 1];
    NcaaFinals.PhraseNormalized(d, false);
  }

  /** Two non-empty normalised texts joined by `glue` stay normalised when the
      glue neither begins nor ends in whitespace, or is `" x "` for a
      non-space `x`. */
  lemma NormalizedGlue(a: string, g: string, b: string)
    requires Normalized(a) && Normalized(b) && a != "" && b != ""
    requires g == ", " || (|g| == 3 && g[0] == ' ' && !IsSpace(g[1]) && g[2] == ' ')
    ensures Normalized(a + g + b)
  {
    var t := a + g + b;
    var n := |a| + |g|;
    assert !IsSpace(a[|a| - 1]) && !IsSpace(b[0]);
    forall i | 0 <= i < |t| && IsSpace(t[i])
      ensures t[i] == ' ' && 0 < i < |t| - 1 && !IsSpace(t[i + 1])
    {
      if i < |a| {
        assert t[i] == a[i] && t[i + 1] == a[i + 1];
      } else if i >= n {
        assert t[i] == b[i - n];
        assert i + 1 < |t| ==> t[i + 1] == b[i - n + 1];
      } else {
        assert t[i] == g[i - |a|];
        assert i + 1 < n ==> t[i + 1] == g[i - |a| + 1];
        assert t[n] == b[0];
      }
    }
  }

  /** The duration cell as the infobox writes it: "Start – End, YYYY". */
  function DurationText(s: Date, e: Date): string
    requires ValidDate(s) && ValidDate(e)
  {
    NcaaFinals.WrittenShort(s) + " \U{2013} " + NcaaFinals.WrittenShort(e) + ", " + FourDigits(s.year)
  }

  /** The duration cell is already normal and free of stars. */
  lemma DurationTextClean(s: Date, e: Date)
    requires ValidDate(s) && ValidDate(e)
    ensures RemoveStars(NormText(DurationText(s, e))) == DurationText(s, e)
  {
    var a, b, y := NcaaFinals.WrittenShort(s), NcaaFinals.WrittenShort(e), FourDigits(s.year);
    ShortPlain(s);
    ShortPlain(e);
    NcaaFinals.NoSpaceNormalized(y);
    NormalizedGlue(a, " \U{2013} ", b);
    NormalizedGlue(a + " \U{2013} " + b, ", ", y);
    var t := DurationText(s, e);
    NormTextUnique(t, t);
    assert '*' !in a && '*' !in b && '*' !in y;
    var t1 := a + " \U{2013} ";
    assert '*' !in t1;
    var t2 := t1 + b;
    assert '*' !in t2;
    var t3 := t2 + ", ";
    assert '*' !in t3;
    assert '*' !in t3 + y;
  }

  /** "Month D" parses back to its date with any year text whose `int()` is
      the date's year. */
  lemma ParseWrittenShort(d: Date, year: string)
    requires ValidDate(d) && PyInt(year) == Some(d.year)
    ensures ParseMonthDayYear(NcaaFinals.WrittenShort(d), year) == Value(d)
  {
    DayBound(d);
    ParseShortText(d, year, NcaaFinals.WrittenShort(d));
  }

  lemma ParseShortText(d: Date, year: string, w: string)
    requires 1 <= d.month <= 12 && 1 <= d.day <= 31
    requires ValidDate(d) && PyInt(year) == Some(d.year)
    requires w == MonthName(d.month) + " " + DayDigits(d.day)
    ensures ParseMonthDayYear(w, year) == Value(d)
  {
    ParseShortDay(d.month, d.day, year, d);
  }

  lemma ParseShortDay(m: int, day: int, year: string, d: Date)
    requires 1 <= m <= 12 && 1 <= day <= 99 && m == d.month && day == d.day
    requires ValidDate(d) && PyInt(year) == Some(d.year)
    ensures ParseMonthDayYear(MonthName(m) + " " + DayDigits(day), year) == Value(d)
  {
    ShortNormalized(m, day);
    ParseBareValid(m, DayDigits(day), year, d);
  }

  lemma ShortNormalized(m: int, day: int)
    requires 1 <= m <= 12 && 1 <= day <= 99
    ensures Normalized(MonthName(m) + " " + DayDigits(day))
  {
    var name, dd := MonthName(m), DayDigits(day);
    NcaaFinals.NameNoSpace(m);
    NcaaFinals.NoSpaceNormalized(name);
    NcaaFinals.NoSpaceNormalized(dd);
    NcaaFinals.NormalizedSpaceJoin(name, dd);
  }

  lemma ParseBareValid(m: int, dd: string, year: string, d: Date)
    requires 1 <= m <= 12 && 1 <= |dd| <= 2 && AllDigits(dd) && Normalized(MonthName(m) + " " + dd)
    requires m == d.month && DigitsValue(dd) == d.day && ValidDate(d) && PyInt(year) == Some(d.year)
    ensures ParseMonthDayYear(MonthName(m) + " " + dd, year) == Value(d)
  {
    ParseBare(m, dd, year);
  }

  /** The bare form "Month D", once normal, parses to that month and day. */
  lemma ParseBare(m: int, dd: string, year: string)
    requires 1 <= m <= 12 && 1 <= |dd| <= 2 && AllDigits(dd) && Normalized(MonthName(m) + " " + dd)
    ensures ParseMonthDayYear(MonthName(m) + " " + dd, year) ==
      match PyInt(year)
      case None => Raised(IntParse)
      case Some(y) =>
        if ValidDate(Date(y, m, DigitsValue(dd))) then Value(Date(y, m, DigitsValue(dd))) else Raised(DateRange)
  {
    var w := MonthName(m) + " " + dd;
    var g := Groups(m, dd, None);
    assert Render(g) == w;
    NormTextUnique(w, w);
    FullMatchRender(g);
  }

  /** "Month D" mentions a character of the pattern: its initial. */
  lemma ShortMentions(d: Date)
    requires ValidDate(d)
    ensures MentionsPatternChar(NcaaFinals.WrittenShort(d))
  {
    var w := NcaaFinals.WrittenShort(d);
    MonthInitialInPattern(d.month);
    assert w[0] == MonthName(d.month)[0];
    assert PatternChar(w[0]);
  }

  /** The left side "Start – End" holds no comma. */
  lemma RangeCommaFree(s: Date, e: Date)
    requires ValidDate(s) && ValidDate(e)
    ensures NoSep(NcaaFinals.WrittenShort(s) + " \U{2013} " + NcaaFinals.WrittenShort(e))
  {
    ShortPlain(s);
    ShortPlain(e);
    PlainRangeCommaFree(NcaaFinals.WrittenShort(s), NcaaFinals.WrittenShort(e));
  }

  lemma PlainRangeCommaFree(a: string, b: string)
    requires Plain(a) && Plain(b)
    ensures NoSep(a + " \U{2013} " + b)
  {
    var u := a + " \U{2013} " + b;
    assert forall i :: 0 <= i < |a| ==> u[i] == a[i];
    assert forall i :: |a| + 3 <= i < |u| ==> u[i] == b[i - |a| - 3];
    assert forall i :: 0 <= i < |u| ==> u[i] != ',';
  }

  /** Round trip: the cell "Start – End, YYYY" yields the two dates, for
      dates of the same year and whatever `year` the caller passes. */
  lemma ExtractDurationText(s: Date, e: Date, year: int)
    requires ValidDate(s) && ValidDate(e) && s.year == e.year
    ensures ExtractDurationDates(DurationText(s, e), year) == Value(Some(Duration(s, e)))
  {
    var a, b, y := NcaaFinals.WrittenShort(s), NcaaFinals.WrittenShort(e), FourDigits(s.year);
    DurationTextClean(s, e);
    UnpackRange(s, e, year);
    EndsOfRange(s, e, a, b, y);
  }

  lemma February14()
    ensures NcaaFinals.WrittenShort(Date(2025, 2, 14)) == "February 14"
  {
    assert MonthName(2) == "February" && DayDigits(14) == "14";
    assert "February" + " " + "14" == "February 14";
  }

  lemma June24()
    ensures NcaaFinals.WrittenShort(Date(2025, 6, 24)) == "June 24"
  {
    assert MonthName(6) == "June" && DayDigits(24) == "24";
    assert "June" + " " + "24" == "June 24";
  }

  lemma ExampleCellPieces(a: string, b: string, y: string)
    requires a == "February 14" && b == "June 24" && y == "2025"
    ensures a + " \U{2013} " + b + ", " + y == "February 14 \U{2013} June 24, 2025"
  {
  }

  lemma ExampleCellText()
    ensures DurationText(Date(2025, 2, 14), Date(2025, 6, 24)) == "February 14 \U{2013} June 24, 2025"
  {
    February14();
    June24();
    NcaaFinals.June20();
    ExampleCellPieces(NcaaFinals.WrittenShort(Date(2025, 2, 14)), NcaaFinals.WrittenShort(Date(2025, 6, 24)),
                      FourDigits(2025));
  }

  /** The cell "February 14 – June 24, 2025" yields 2025-02-14 and 2025-06-24. */
  lemma DurationCellExample(text: string, year: int)
    requires text == "February 14 \U{2013} June 24, 2025"
    ensures ExtractDurationDates(text, year) == Value(Some(Duration(Date(2025, 2, 14), Date(2025, 6, 24))))
  {
    ExampleCellText();
    ExtractDurationText(Date(2025, 2, 14), Date(2025, 6, 24), year);
  }

  /** The cell unpacks into its two "Month D" ends and the year digits. */
  lemma UnpackRange(s: Date, e: Date, year: int)
    requires ValidDate(s) && ValidDate(e)
    requires RemoveStars(NormText(DurationText(s, e))) == DurationText(s, e)
    ensures ExtractDurationDates(DurationText(s, e), year) ==
      DurationOfEnds(NcaaFinals.WrittenShort(s), NcaaFinals.WrittenShort(e), FourDigits(s.year))
  {
    var a, b, y := NcaaFinals.WrittenShort(s), NcaaFinals.WrittenShort(e), FourDigits(s.year);
    var t := DurationText(s, e);
    var range := a + " \U{2013} " + b;
    assert t == range + ", " + y;
    RangeCommaFree(s, e);
    assert NoSep(y);
    assert JoinComma([range, y]) == t;
    JoinCommaSplit([range, y]);
    ShortPlain(s);
    ShortPlain(e);
    DashSplitPair(a, b);
  }

  /** Both ends mention the pattern and parse back, with the year digits. */
  lemma EndsOfRange(s: Date, e: Date, a: string, b: string, y: string)
    requires ValidDate(s) && ValidDate(e) && s.year == e.year
    requires a == NcaaFinals.WrittenShort(s) && b == NcaaFinals.WrittenShort(e) && y == FourDigits(s.year)
    ensures DurationOfEnds(a, b, y) == Value(Some(Duration(s, e)))
  {
    ShortMentions(s);
    ShortMentions(e);
    PyIntOfDigits(y);
    ParseWrittenShort(s, y);
    ParseWrittenShort(e, y);
  }

  // ---------------------------------------------------------------------
  // `_scrape_season_dates`: the scan of the infobox rows

  /** One `<tr>` of the infobox: the text `get_text(" ", strip=True)` gives
      for its `<th>` cell and for its `<td class="infobox-data">` cell, or
      `None` where the row has no such cell. */
  datatype InfoRow = InfoRow(header: Option<string>, data: Option<string>)

  /** The row the scan reads: a header whose lower-cased text is "duration"
      and a data cell. (Lower-casing is ASCII here; no other character of
      Unicode lower-cases to a letter of "duration".) */
  predicate IsDurationRow(row: InfoRow) {
    row.header.Some? && AsciiLower(row.header.value) == "duration" && row.data.Some?
  }

  /** A row that ends the scan: a duration row whose cell yields two dates
      or raises. */
  predicate Decisive(row: InfoRow, year: int) {
    IsDurationRow(row) && ExtractDurationDates(row.data.value, year) != Value(None)
  }

  /** What the scan of `rows` returns: the outcome of the first decisive
      row, or `(None, None)` (here `Value(None)`) when there is none. */
  function Scan(rows: seq<InfoRow>, year: int): (r: Outcome<Option<Duration>>)
    ensures r.Value? && r.value.Some? ==>
      var d := r.value.value;
      ValidDate(d.start) && ValidDate(d.end) && d.start.year == d.end.year
    decreases |rows|
  {
    if rows == [] then Value(None)
    else if Decisive(rows[0], year) then ExtractDurationDates(rows[0].data.value, year)
    else Scan(rows[1..], year)
  }

  /** The first decisive row decides the scan. */
  lemma ScanFirstDecisive(rows: seq<InfoRow>, year: int, i: nat)
    requires i < |rows| && Decisive(rows[i], year)
    requires forall j :: 0 <= j < i ==> !Decisive(rows[j], year)
    ensures Scan(rows, year) == ExtractDurationDates(rows[i].data.value, year)
  {
    var k := 0;
    assert rows[k..] == rows;
    while k < i
      invariant k <= i && Scan(rows[k..], year) == Scan(rows, year)
    {
      ScanStep(rows, year, k);
      k := k + 1;
    }
    ScanStep(rows, year, i);
  }

  /** Without a decisive row the scan finds nothing. */
  lemma {:induction false} ScanNoneDecisive(rows: seq<InfoRow>, year: int)
    requires forall j :: 0 <= j < |rows| ==> !Decisive(rows[j], year)
    ensures Scan(rows, year) == Value(None)
    decreases |rows|
  {
    if rows != [] {
      ScanNoneDecisive(rows[1..], year);
    }
  }

  /** A found pair or an exception comes from a duration row's cell. */
  lemma {:induction false} ScanFromRow(rows: seq<InfoRow>, year: int)
    ensures Scan(rows, year) != Value(None) ==>
      exists i :: 0 <= i < |rows| && IsDurationRow(rows[i])
        && Scan(rows, year) == ExtractDurationDates(rows[i].data.value, year)
    decreases |rows|
  {
    if rows != [] && !Decisive(rows[0], year) {
      ScanFromRow(rows[1..], year);
      if Scan(rows, year) != Value(None) {
        var i :| 0 <= i < |rows[1..]| && IsDurationRow(rows[1..][i])
          && Scan(rows[1..], year) == ExtractDurationDates(rows[1..][i].data.value, year);
        assert rows[i + 1] == rows[1..][i];
      }
    }
  }

  lemma ScanStep(rows: seq<InfoRow>, year: int, i: nat)
    requires i < |rows|
    ensures Scan(rows[i..], year) ==
      if Decisive(rows[i], year) then ExtractDurationDates(rows[i].data.value, year)
      else Scan(rows[i + 1..], year)
  {
    assert rows[i..][0] == rows[i];
    assert rows[i..][1..] == rows[i + 1..];
  }

  /** What `_scrape_season_dates` returns or raises for the page's infobox
      (`None` when the page has none). */
  function ScrapeResult(year: int, infobox: Option<seq<InfoRow>>): Outcome<Option<Duration>> {
    match infobox
    case None => Raised(NoInfobox)
    case Some(rows) => Scan(rows, year)
  }

  /** The scan loop of `_scrape_season_dates`, after the page is fetched and
      parsed: skip rows without a header, with another header or without a
      data cell; return the first pair of dates; let exceptions escape. */
  method ScrapeSeasonDates(year: int, infobox: Option<seq<InfoRow>>)
    returns (r: Outcome<Option<Duration>>)
    ensures r == ScrapeResult(year, infobox)
  {
    if infobox.None? {
      return Raised(NoInfobox);
    }
    var rows := infobox.value;
    var i := 0;
    while i < |rows|
      invariant 0 <= i <= |rows|
      invariant Scan(rows[i..], year) == Scan(rows, year)
    {
      ScanStep(rows, year, i);
      var row := rows[i];
      i := i + 1;
      if row.header.None? {
        continue;
      }
      if AsciiLower(row.header.value) != "duration" {
        continue;
      }
      if row.data.None? {
        continue;
      }
      var dates := ExtractDurationDates(row.data.value, year);
      if dates.Raised? {
        return dates;
      }
      if dates.value.Some? {
        return dates;
      }
    }
    assert rows[i..] == [];
    return Value(None);
  }

  // ---------------------------------------------------------------------
  // `extract_season_dates_for_year`

  /** A value of the season record: the year, or a date. */
  datatype SeasonField = YearField(year: int) | DateField(date: Date)

  /** The season record: empty, or the year with both dates. An exception of
      the scan escapes unchanged. */
  method ExtractSeasonDatesForYear(year: int, infobox: Option<seq<InfoRow>>)
    returns (r: Outcome<map<string, SeasonField>>)
    ensures ScrapeResult(year, infobox).Raised? ==> r == Raised(ScrapeResult(year, infobox).error)
    ensures ScrapeResult(year, infobox) == Value(None) ==> r == Value(map[])
    ensures ScrapeResult(year, infobox).Value? && ScrapeResult(year, infobox).value.Some? ==>
      var d := ScrapeResult(year, infobox).value.value;
      r == Value(map["year" := YearField(year), "season_start" := DateField(d.start),
                     "season_end" := DateField(d.end)])
    ensures r.Value? ==> r.value.Keys == {} || r.value.Keys == {"year", "season_start", "season_end"}
    ensures r.Value? && r.value != map[] ==>
      r.value["year"] == YearField(year)
      && r.value["season_start"].DateField? && r.value["season_end"].DateField?
      && ValidDate(r.value["season_start"].date) && ValidDate(r.value["season_end"].date)
      && r.value["season_start"].date.year == r.value["season_end"].date.year
  {
    var dates := ScrapeSeasonDates(year, infobox);
    if dates.Raised? {
      return Raised(dates.error);
    }
    var season: map<string, SeasonField> := map[];
    if dates.value.Some? {
      var d := dates.value.value;
      season := season["year" := YearField(year)];
      season := season["season_start" := DateField(d.start)];
      season := season["season_end" := DateField(d.end)];
      assert season == map["year" := YearField(year), "season_start" := DateField(d.start),
                            "season_end" := DateField(d.end)];
      assert season.Keys == {"year", "season_start", "season_end"};
    }
    return Value(season);
  }
}
