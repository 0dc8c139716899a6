# Season dates and team abbreviations: a Dafny model

This project models the date and team logic of three scripts of a college
baseball data pipeline. It proves what that logic guarantees.

- **The NCAA future-dates table** (`scripts/season_start_end_dates.py`).
  - Each schedule row whose first cell is a year has a Finals cell. That
    cell holds one or more sub-entries such as "Sun., June 22 (if
    necessary)".
  - The year's World Series end date is the latest sub-entry that parses.
  - Every year whose predecessor is also known gets a season window. The
    window starts the day after the predecessor's end and ends on the
    year's own end.
- **The Wikipedia infobox scraper** (`scripts/d1_season_dates_scraper.py`).
  - The "Duration" row of a season article holds a cell such as
    "February 14 – June 24, 2025".
  - The cell is cleaned, split at `", "` and then at the en dash, guarded,
    and parsed into a start and an end date.
  - The scan takes the first duration row that yields dates or raises.
  - The result is a `{year, season_start, season_end}` dictionary, which is
    empty when no row decides.
- **The team collector** (`scripts/extract_teams_and_stadiums.py`).
  - Valid `AAA_BBB` values of the `PitcherTeam` and `BatterTeam` columns
    are gathered from the first data row of every CSV file of every year
    directory, with the files that were read counted.
  - The result is written as a sorted one-column table under the header
    `TrackmanAbbreviation`.

The modules follow the scripts.

- `Common`: `Option`, and `Outcome`, a value or a raised Python exception
  named by the line that raises it.
- `Text`: the Python string operations these scripts rely on. These are
  `" ".join(s.split())`, removing `*`, `strip()`, `int()` with its sign
  and underscores, digit strings, ASCII `lower()` and code-point string
  order.
- `Calendar`: `datetime.date` for years 1 to 9999. It covers validity,
  ordering, `+ timedelta(days=1)` (which can overflow), `toordinal`,
  `max`, and the month alternation of the `MONTHS_RE` pattern.
- `NcaaFinals`: `season_start_end_dates.py`.
  - The search regex is modelled as a leftmost, greedy matcher.
  - `strptime("%B %d, %Y")` is modelled on the matched fragment, with the
    fallback year.
  - The row loop is an imperative method over the rows.
  - The window chainer is an imperative method over the sorted years.
- `InfoboxDuration`: `d1_season_dates_scraper.py`.
  - The anchored regex is a full-match function with a proved inverse.
  - `str.split(", ")` and `re.split(r"\s*–\s*")` are functions with proved
    inverses and counts.
  - The character guard, the row scan (an imperative loop) and the
    dictionary result are modelled.
- `Teams`: `extract_teams_and_stadiums.py`. The nested directory and file
  loops are imperative methods over sets and a counter. `sorted` is a
  selection loop. The CSV writer returns the rows it would write.

Where the system's documentation and its code differ, the model follows
the code.

- The documentation says a duration endpoint's own year takes precedence
  over the trailing year. The code discards the year group it captures and
  always uses the text after the comma (`InfoboxDuration.ParseShaped`).
- The documentation says malformed duration cells give no result. In the
  code, a cell without exactly one `", "`, or without exactly one dash
  before it, raises `ValueError` during unpacking
  (`InfoboxDuration.DurationUnpackErrors`).
- The only cells that give no result are those whose start or end holds no
  character of the month pattern string (`InfoboxDuration.GuardOnlyPreempts`).
  The guard iterates over the characters of that pattern, not over month
  names.
- The documentation says a missing infobox gives no result. The code raises
  `AttributeError` there (`NoInfobox`).
- The documentation treats an out-of-range day as a non-match. In the
  infobox scraper it raises `ValueError` (`DateRange`). In the future-dates
  script it is caught and the candidate is dropped.
- The docstring of `extract_team_data` promises a dictionary of stadium,
  level and league per team. The code returns the set of abbreviations.
- The docstring of the infobox `_parse_month_day_year` speaks of a
  formatted string. The code returns a `date`.

## Model

| member | source | states |
|---|---|---|
| Text.NormText | scripts/season_start_end_dates.py:16-17 | The result has single spaces between words and none at either end. It has the same words as the input, and it is empty exactly when the input is all whitespace. |
| Text.NormTextUnique | scripts/season_start_end_dates.py:16-17 | Any string in that normal form with the input's words is the result: the normal form is unique. |
| Text.NormTextIdempotent | scripts/d1_season_dates_scraper.py:26-27 | Normalising twice is normalising once. |
| Text.NormTextChars | scripts/season_start_end_dates.py:16-17 | Every non-space character of the result occurs in the input. |
| Text.TokensOfJoin | scripts/season_start_end_dates.py:17 | Splitting a single-space join of words gives back those words. |
| Text.RemoveStars | scripts/season_start_end_dates.py:27 | No `*` is left, the length drops by the number of `*`, and a text without `*` is unchanged. |
| Text.Strip | scripts/extract_teams_and_stadiums.py:75 | The result is a slice of the input with only whitespace cut on either side, and it neither starts nor ends with whitespace. |
| Text.StripNoSpace | scripts/extract_teams_and_stadiums.py:80 | Stripping text without whitespace leaves it unchanged. |
| Text.PyIntOfDigits | scripts/d1_season_dates_scraper.py:38 | `int()` of a digit string is the number it denotes. |
| Text.StrLessIrreflexive | scripts/extract_teams_and_stadiums.py:105 | No string sorts before itself. |
| Text.StrLessTransitive | scripts/extract_teams_and_stadiums.py:105 | Python's string order is transitive. |
| Text.StrLessTotal | scripts/extract_teams_and_stadiums.py:105 | Of two different strings, one sorts before the other. |
| Calendar.NextDay | scripts/season_start_end_dates.py:89 | Adding one day gives the earliest valid date after `d`. It fails (OverflowError) exactly on 9999-12-31. |
| Calendar.NextDayOrdinal | scripts/season_start_end_dates.py:89 | Adding one day raises the day's ordinal by one. |
| Calendar.MaxDate | scripts/season_start_end_dates.py:80 | `max` returns one of the dates, and none of them is later. |
| Calendar.MonthAt | scripts/season_start_end_dates.py:20 | A month found at a position has its name there. When none is found, no month name starts there. |
| NcaaFinals.MatchAtIff | scripts/season_start_end_dates.py:28 | The pattern matches at position `i` exactly when a month name, whitespace and a digit start there. |
| NcaaFinals.Search | scripts/season_start_end_dates.py:28-30 | `re.search` returns a position where the pattern matches, and it matches at no earlier position. With no result, it matches nowhere. |
| NcaaFinals.LeftmostUnique | scripts/season_start_end_dates.py:28 | There is only one leftmost match position. |
| NcaaFinals.StrptimeHit | scripts/season_start_end_dates.py:31-37 | A date built from the matched fragment, with the fallback year when it has none, is a valid calendar date. |
| NcaaFinals.ParseCleaned | scripts/season_start_end_dates.py:28-37 | Text with no month-day phrase gives None. Otherwise the result is what the leftmost match converts to. |
| NcaaFinals.ParseMonthDayYear | scripts/season_start_end_dates.py:23-37 | Empty text gives None, and any date returned is valid. |
| NcaaFinals.ParseMonthDayYearSpec | scripts/season_start_end_dates.py:25-37 | Non-empty text is cleaned first. It gives None when no month-day phrase occurs, and otherwise the conversion of its leftmost match. |
| NcaaFinals.ParseSpelled | scripts/season_start_end_dates.py:31-37 | "Month D, YYYY" gives that date when it is valid, and None otherwise (the ValueError is caught). The result is the same for every fallback year. |
| NcaaFinals.ParseWritten | scripts/season_start_end_dates.py:28-35 | A written-out date with its year reads back as the date. |
| NcaaFinals.ParseWrittenShort | scripts/season_start_end_dates.py:31-35 | "Month D" with the row's year as fallback reads back as the date. |
| NcaaFinals.ParseAmid | scripts/season_start_end_dates.py:27-35 | A written date between a month-free lead-in and any trailing remark reads back as the date. |
| NcaaFinals.ParseFinalsEntryExample | scripts/season_start_end_dates.py:24 | "Sun., June 22 (if necessary)" with fallback "2025" is 2025-06-22. |
| NcaaFinals.Somes | scripts/season_start_end_dates.py:78 | Exactly the parsed dates are kept. |
| NcaaFinals.RowEnd | scripts/season_start_end_dates.py:62-80 | A row contributes an end exactly when it has four cells, a digit year and a candidate that parses. The end is the latest candidate, keyed by the year's value. |
| NcaaFinals.RowEndExample | scripts/season_start_end_dates.py:77-80 | A Finals cell with "June 20" and "Sun., June 22 (if necessary)" in 2025 ends on 2025-06-22. |
| NcaaFinals.CollectedKeys | scripts/season_start_end_dates.py:60-80 | A year is in the end-date map exactly when some row contributed it. |
| NcaaFinals.CollectedLastWins | scripts/season_start_end_dates.py:80 | A year's end is the one from the last row that contributed that year. |
| NcaaFinals.CollectedValid | scripts/season_start_end_dates.py:60-80 | Every collected end date is valid. |
| NcaaFinals.CollectStep | scripts/season_start_end_dates.py:61-80 | One iteration of the row loop leaves the map alone or sets the row's year to the maximum candidate. |
| NcaaFinals.CollectEndDates | scripts/season_start_end_dates.py:60-80 | The row loop builds the collected map of the rows, and every value is valid. |
| NcaaFinals.SortedYears | scripts/season_start_end_dates.py:84 | `sorted(keys)` strictly ascends and holds exactly the keys. |
| NcaaFinals.ChainRaisesIff | scripts/season_start_end_dates.py:84-97 | Visiting the years raises OverflowError exactly when some visited year's predecessor ends on 9999-12-31. |
| NcaaFinals.ChainWindowsFor | scripts/season_start_end_dates.py:85-97 | Each window is for a visited year with a known predecessor. It starts the day after that predecessor's end and ends on the year's end. |
| NcaaFinals.ChainAscending | scripts/season_start_end_dates.py:84-97 | Window years strictly ascend when the visited years do. |
| NcaaFinals.ChainCovers | scripts/season_start_end_dates.py:84-97 | Every visited year with a known predecessor gets a window. |
| NcaaFinals.ChainResultSpec | scripts/season_start_end_dates.py:83-99 | The chainer raises exactly when some end date overflows. Otherwise its output is the chain of the map: ascending years, a correct window for each year whose predecessor is known, and no other windows. |
| NcaaFinals.ChainWindowsOrdered | scripts/season_start_end_dates.py:89-90 | When every year ends after its predecessor, each window starts no later than it ends. |
| NcaaFinals.ChainUnorderedExample | scripts/season_start_end_dates.py:89-90 | The code does not check that a window's start is before its end. An end date earlier than the predecessor's gives an inverted window. |
| NcaaFinals.SingleWindow | scripts/season_start_end_dates.py:84-97 | A chain has at most one window per year. |
| NcaaFinals.ChainTwoYears | scripts/season_start_end_dates.py:84-97 | Two consecutive years give exactly one window, for the later year. |
| NcaaFinals.ChainExample | scripts/season_start_end_dates.py:84-97 | {2024: 2024-06-24, 2025: 2025-06-24} gives only the window (2025, 2024-06-25, 2025-06-24). |
| NcaaFinals.VisitYears | scripts/season_start_end_dates.py:84-97 | The loop over the years builds the chain of those years. |
| NcaaFinals.ChainWindows | scripts/season_start_end_dates.py:83-99 | The chaining loop over the sorted keys returns the chainer's result. |
| NcaaFinals.ExtractDates | scripts/season_start_end_dates.py:60-99 | The rows give a map of valid end dates, and the result is the chainer's output for that map. |
| InfoboxDuration.FullMatch | scripts/d1_season_dates_scraper.py:33 | An anchored match yields well-formed groups: a month, one or two day digits, and an optional comma-space-four-digit year. |
| InfoboxDuration.FullMatchSound | scripts/d1_season_dates_scraper.py:33 | A text that matches is the rendering of its groups. |
| InfoboxDuration.FullMatchRender | scripts/d1_season_dates_scraper.py:33 | The rendering of any well-formed groups matches with exactly those groups. |
| InfoboxDuration.FullMatchIff | scripts/d1_season_dates_scraper.py:33 | A text matches with groups `g` exactly when `g` is well formed and the text is its rendering. |
| InfoboxDuration.ParseMonthDayYear | scripts/d1_season_dates_scraper.py:30-40 | A returned date is valid and its year is `int(year)`. Any exception is a failed match, a bad year text or an invalid date. |
| InfoboxDuration.ParseShaped | scripts/d1_season_dates_scraper.py:32-40 | On a text of the accepted shape, the result depends only on the month, the day and `year`. A year written in the text is ignored. |
| InfoboxDuration.ParseUnshaped | scripts/d1_season_dates_scraper.py:33-35 | A text of any other shape raises AttributeError. |
| InfoboxDuration.ParseWrittenShort | scripts/d1_season_dates_scraper.py:30-40 | "Month D" reads back as the date for any year text whose `int()` is its year. |
| InfoboxDuration.CommaSplitJoin | scripts/d1_season_dates_scraper.py:45 | Joining the parts with `", "` gives back the text. |
| InfoboxDuration.CommaSplitNoSep | scripts/d1_season_dates_scraper.py:45 | No part contains `", "`. |
| InfoboxDuration.JoinCommaSplit | scripts/d1_season_dates_scraper.py:45 | Splitting a join of separator-free parts gives back those parts. |
| InfoboxDuration.CommaSplitTwo | scripts/d1_season_dates_scraper.py:45 | There are exactly two parts when the text is two separator-free pieces around one `", "`. |
| InfoboxDuration.DashSplitDashFree | scripts/d1_season_dates_scraper.py:46 | No part contains an en dash. |
| InfoboxDuration.DashSplitCount | scripts/d1_season_dates_scraper.py:46 | There is one part more than there are en dashes. |
| InfoboxDuration.DashSplitPair | scripts/d1_season_dates_scraper.py:46 | "a – b" splits into `a` and `b` when neither holds a dash and the whitespace belongs to the separator. |
| InfoboxDuration.GuardOnlyPreempts | scripts/d1_season_dates_scraper.py:48-51 | The guard rejects no text that would match. When it rejects, parsing would have raised anyway. |
| InfoboxDuration.ExtractDurationDates | scripts/d1_season_dates_scraper.py:43-56 | Returned dates are valid and lie in one year, and that year is `int()` of the text after the `", "`. |
| InfoboxDuration.ExtractDurationYearUnused | scripts/d1_season_dates_scraper.py:43-45 | The `year` argument never affects the outcome: the unpacking at the comma rebinds the name before it is read. |
| InfoboxDuration.DurationOfEnds | scripts/d1_season_dates_scraper.py:48-56 | After unpacking, only parsing errors can be raised. Returned dates are valid and in one year, and that year is `int()` of the year text. |
| InfoboxDuration.DurationUnpackErrors | scripts/d1_season_dates_scraper.py:44-46 | The first unpacking raises exactly when the cleaned text is not one `", "` between two pieces. The second raises exactly when it is, and the part before the comma does not split at the dash into two. |
| InfoboxDuration.DurationTextClean | scripts/d1_season_dates_scraper.py:44 | Cleaning a "Month D – Month D, YYYY" cell leaves it unchanged. |
| InfoboxDuration.ExtractDurationText | scripts/d1_season_dates_scraper.py:43-56 | The cell "Start – End, YYYY" yields the two dates, whatever `year` argument is passed. |
| InfoboxDuration.DurationCellExample | scripts/d1_season_dates_scraper.py:43-56 | "February 14 – June 24, 2025" yields 2025-02-14 and 2025-06-24. |
| InfoboxDuration.Scan | scripts/d1_season_dates_scraper.py:70-85 | Dates the scan returns are valid and lie in the same year. |
| InfoboxDuration.ScanFirstDecisive | scripts/d1_season_dates_scraper.py:70-83 | The first duration row that yields dates or raises decides the scan. |
| InfoboxDuration.ScanNoneDecisive | scripts/d1_season_dates_scraper.py:70-85 | With no such row, the scan returns `(None, None)`. |
| InfoboxDuration.ScanFromRow | scripts/d1_season_dates_scraper.py:70-83 | Any dates found, and any exception raised, come from a duration row's cell. |
| InfoboxDuration.ScrapeSeasonDates | scripts/d1_season_dates_scraper.py:68-85 | The row loop returns what the infobox scan gives. A page without an infobox raises. |
| InfoboxDuration.ExtractSeasonDatesForYear | scripts/d1_season_dates_scraper.py:88-98 | An exception propagates, and no dates give `{}`. Dates give the three keys: the argument year and the two valid dates of one year. |
| Teams.ValidFormatStripped | scripts/extract_teams_and_stadiums.py:15-27 | On text without whitespace, the pattern holds exactly for three letters, `_` and three letters. |
| Teams.ValidFormatExamples | scripts/extract_teams_and_stadiums.py:26-27 | "AUB_TIG" passes, and so does "AUB_TIG" with a final newline, because `$` allows one. "AU_TIG" and "AUBTIGS" fail. |
| Teams.TeamOfValid | scripts/extract_teams_and_stadiums.py:75-82 | What a column adds is a stripped seven-character `AAA_BBB` string. |
| Teams.FileEffectValid | scripts/extract_teams_and_stadiums.py:67-91 | Whatever one file adds is valid, including a file whose read fails part-way. |
| Teams.BothColumnsAdded | scripts/extract_teams_and_stadiums.py:73-84 | A first row with both columns valid adds both teams and is counted. |
| Teams.AddedUnion | scripts/extract_teams_and_stadiums.py:41-93 | A team is collected exactly when some file added it. |
| Teams.AddedGrows | scripts/extract_teams_and_stadiums.py:41-93 | More files never lose a collected team. |
| Teams.CountedIsNumber | scripts/extract_teams_and_stadiums.py:84 | The counter is the number of files whose first row was read through. |
| Teams.CollectedValid | scripts/extract_teams_and_stadiums.py:41-93 | Every collected team is valid. |
| Teams.ProcessFile | scripts/extract_teams_and_stadiums.py:67-91 | One file adds its teams to the set and bumps the counter only when its row was read through. |
| Teams.ProcessYearDir | scripts/extract_teams_and_stadiums.py:59-91 | The loop over one directory's files extends the collected set and counter by those files. |
| Teams.ExtractTeamData | scripts/extract_teams_and_stadiums.py:41-93 | The set holds the teams of all files of all directories, in visiting order, with the counter beside it. No directories give the empty set. |
| Teams.SortTeams | scripts/extract_teams_and_stadiums.py:105 | The teams come out in strictly ascending order, each exactly once. |
| Teams.WriteToCsv | scripts/extract_teams_and_stadiums.py:105-115 | The `TrackmanAbbreviation` header comes first, then one single-cell row per team in ascending order, covering every team. |

## Left out

- Fetching pages (`requests`), HTML parsing (BeautifulSoup), `print`,
  `sys.exit`, the URLs and the request headers are not modelled. A page
  is given as what the parser finds in it. A schedule table is given as
  rows of cells carrying their `get_text` strings. An infobox is given as
  `None` or its rows, each with its header text and data cell text.
- The fetch failures that end the program (`sys.exit(2)`) and the missing
  `<tbody>` are outside the model, since they are I/O outcomes.
- The module-level call `extract_dates()` at the end of
  `season_start_end_dates.py` and the `main` function of
  `extract_teams_and_stadiums.py` are not modelled. Both only run the
  modelled functions and print.
- Directory listing, `glob`, file opening and the CSV reader are left out.
  - The model takes the year directories as a sequence already in sorted
    order, each holding its CSV files in `glob` order.
  - A file is given as its first row from `csv.DictReader`. A value is
    `None` where the row is shorter than the header.
  - A file that cannot be opened or decoded counts as one without a first
    row. In the code this raises before anything is added, and the
    exception is swallowed.
- Teams.ExtractTeamData: also returns the processed-file counter. The code
  only prints that counter.
- Teams.WriteToCsv: returns the rows instead of writing a file. CSV
  quoting is not modelled, since valid team values hold only letters and
  `_`.
- Text.AsciiLower: lowers ASCII letters only. This is exact for the
  comparison with "duration": no other character lower-cases to one of its
  letters.
- Text.PyInt: accepts ASCII digits only. Python's `int()` and `isdigit()`
  also accept other Unicode decimal digits, and `\d` in a pattern also
  matches them.
- Text.NormText: takes a string. The `(s or "")` guard for a `None`
  argument is not modelled, because every caller passes a string.
- NcaaFinals.StrptimeHit: refuses a fallback year with leading whitespace,
  which `strptime` would accept because the format's `, ` matches `,\s+`.
  The row loop only passes a stripped cell text that `isdigit()` accepted,
  so no caller can supply one.
- InfoboxDuration.ParseMonthDayYear: an out-of-range `date()` and a year
  too large for `int` handling both surface as `DateRange`. Python raises
  `ValueError` or `OverflowError` there.
- InfoboxDuration.ExtractSeasonDatesForYear: the dictionary's values are
  modelled as a small datatype (an int or a date).
- The `(None, None)` result of the infobox scan is written `Value(None)`.
- Python's single unpacking `ValueError` is split into two kinds,
  `CommaUnpack` and `DashUnpack`, so the model can say which split went
  wrong.
- Concurrency, persistence, and the cron drivers and API of the
  repository are not part of this model.
