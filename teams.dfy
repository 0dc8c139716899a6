/** The team-abbreviation collector: the `AAA_BBB` format check, the
    accumulation of valid `PitcherTeam` / `BatterTeam` values from the first
    data row of every CSV file of every year directory, and the sorted
    one-column output. Directories and files are given as sequences, in the
    order the program visits them; a file is what `csv.DictReader` yields as
    its first row. */
module Teams {
  import opened Common
  import opened Text

  // ---------------------------------------------------------------------
  // `is_valid_team_format`: re.match(r"^[A-Za-z]{3}_[A-Za-z]{3}$", team)

  predicate IsAsciiLetter(c: char) {
    'A' <= c <= 'Z' || 'a' <= c <= 'z'
  }

  /** Three letters, an underscore, three letters. */
  predicate TeamShape(t: string) {
    |t| == 7 && IsAsciiLetter(t[0]) && IsAsciiLetter(t[1]) && IsAsciiLetter(t[2])
    && t[3] == '_' && IsAsciiLetter(t[4]) && IsAsciiLetter(t[5]) && IsAsciiLetter(t[6])
  }

  /** The pattern matches: Python's `$` also matches before one final `"\n"`. */
  predicate IsValidTeamFormat(t: string) {
    TeamShape(t) || (|t| == 8 && TeamShape(t[..7]) && t[7] == '\n')
  }

  /** On text without whitespace, as the callers pass it after `strip()`,
      the check is exactly the seven-character shape. */
  lemma ValidFormatStripped(t: string)
    requires forall i :: 0 <= i < |t| ==> !IsSpace(t[i])
    ensures IsValidTeamFormat(t) <==> TeamShape(t)
  {
    if |t| == 8 {
      assert !IsSpace(t[7]);
    }
  }

  lemma ValidFormatExamples()
    ensures IsValidTeamFormat("AUB_TIG")
    ensures !IsValidTeamFormat("AU_TIG")
    ensures !IsValidTeamFormat("AUBTIGS")
    ensures IsValidTeamFormat("AUB_TIG\n")
  {
    assert "AUB_TIG\n"[..7] == "AUB_TIG";
  }

  // ---------------------------------------------------------------------
  // `extract_team_data`

  /** What reading a CSV file gives: no data row (an empty file, a file with
      a header only, or one whose reading raised before yielding a row), or
      the first row as a dict from column name to value. A value is `None`
      where the row is shorter than the header. */
  datatype CsvFile = NoFirstRow | FirstRow(fields: map<string, Option<string>>)

  /** What one file contributes: the teams it adds and whether it bumps the
      processed-file counter. */
  datatype Effect = Effect(added: set<string>, counted: bool)

  /** The team a column value contributes: the stripped value when it is
      non-empty and has the format. */
  function TeamOf(v: string): (r: set<string>)
    ensures r <= {Strip(v)}
    ensures Strip(v) in r <==> Strip(v) != "" && IsValidTeamFormat(Strip(v))
  {
    var t := Strip(v);
    if t != "" && IsValidTeamFormat(t) then {t} else {}
  }

  /** The body of the `try` for one file. `.strip()` on a `None` value raises
      `AttributeError`; the `except` swallows it, keeping what was added
      before and skipping the counter. */
  function FileEffect(f: CsvFile): Effect {
    if f.NoFirstRow? || |f.fields| == 0 then Effect({}, false)
    else
      var row := f.fields;
      if "PitcherTeam" in row && row["PitcherTeam"].None? then Effect({}, false)
      else
        var pitcher := if "PitcherTeam" in row then TeamOf(row["PitcherTeam"].value) else {};
        if "BatterTeam" in row && row["BatterTeam"].None? then Effect(pitcher, false)
        else
          var batter := if "BatterTeam" in row then TeamOf(row["BatterTeam"].value) else {};
          Effect(pitcher + batter, true)
  }

  /** Every added team is a non-empty, already stripped value of the format. */
  predicate AllValid(teams: set<string>) {
    forall t :: t in teams ==> t != "" && Strip(t) == t && TeamShape(t)
  }

  lemma TeamOfValid(v: string)
    ensures AllValid(TeamOf(v))
  {
    var t := Strip(v);
    if t != "" && IsValidTeamFormat(t) {
      assert !IsSpace(t[|t| - 1]);
      assert TeamShape(t);
      StripNoSpace(t);
    }
  }

  lemma FileEffectValid(f: CsvFile)
    ensures AllValid(FileEffect(f).added)
  {
    if f.FirstRow? {
      if "PitcherTeam" in f.fields && f.fields["PitcherTeam"].Some? {
        TeamOfValid(f.fields["PitcherTeam"].value);
      }
      if "BatterTeam" in f.fields && f.fields["BatterTeam"].Some? {
        TeamOfValid(f.fields["BatterTeam"].value);
      }
    }
  }

  /** A first row with both columns valid adds both teams and is counted;
      equal values collapse into one team. */
  lemma BothColumnsAdded(f: CsvFile, pt: string, bt: string)
    requires f.FirstRow? && f.fields.Keys >= {"PitcherTeam", "BatterTeam"}
    requires f.fields["PitcherTeam"] == Some(pt) && f.fields["BatterTeam"] == Some(bt)
    requires TeamShape(pt) && TeamShape(bt)
    ensures FileEffect(f) == Effect({pt, bt}, true)
  {
    TeamOfShaped(pt);
    TeamOfShaped(bt);
    assert |f.fields| > 0 by {
      assert "PitcherTeam" in f.fields.Keys;
    }
  }

  lemma TeamOfShaped(v: string)
    requires TeamShape(v)
    ensures TeamOf(v) == {v}
  {
    StripNoSpace(v);
  }

  /** The files in visiting order: directory by directory. */
  function Flatten(dirs: seq<seq<CsvFile>>): seq<CsvFile> {
    if dirs == [] then [] else Flatten(dirs[..|dirs| - 1]) + dirs[|dirs| - 1]
  }

  /** The effect of each file, in order. */
  function Effects(files: seq<CsvFile>): (es: seq<Effect>)
    ensures |es| == |files|
  {
    seq(|files|, k requires 0 <= k < |files| => FileEffect(files[k]))
  }

  /** The teams a run of files adds, in order. */
  function Added(es: seq<Effect>): set<string> {
    if es == [] then {} else Added(es[..|es| - 1]) + es[|es| - 1].added
  }

  /** The value `total_files_processed` reaches over a run of files. */
  function Counted(es: seq<Effect>): nat {
    if es == [] then 0 else Counted(es[..|es| - 1]) + (if es[|es| - 1].counted then 1 else 0)
  }

  /** File `k` adds team `t`. */
  predicate AddedBy(es: seq<Effect>, k: int, t: string) {
    0 <= k < |es| && t in es[k].added
  }

  /** What the run adds is the union of what the single files add. */
  lemma AddedUnion(es: seq<Effect>, t: string)
    ensures t in Added(es) <==> exists k :: AddedBy(es, k, t)
  {
    if t in Added(es) {
      AddedFrom(es, t);
    }
    if exists k :: AddedBy(es, k, t) {
      var k :| AddedBy(es, k, t);
      AddedHas(es, k, t);
    }
  }

  lemma {:induction false} AddedFrom(es: seq<Effect>, t: string)
    requires t in Added(es)
    ensures exists k :: AddedBy(es, k, t)
  {
    var n := |es| - 1;
    var init := es[..n];
    if t in Added(init) {
      AddedFrom(init, t);
      var k :| AddedBy(init, k, t);
      assert es[k] == init[k];
      assert AddedBy(es, k, t);
    } else {
      assert AddedBy(es, n, t);
    }
  }

  lemma {:induction false} AddedHas(es: seq<Effect>, k: int, t: string)
    requires AddedBy(es, k, t)
    ensures t in Added(es)
  {
    var n := |es| - 1;
    if k < n {
      var init := es[..n];
      assert es[k] == init[k];
      CollectedHasStep(es, init, k, t);
      AddedHas(init, k, t);
    }
  }

  lemma CollectedHasStep(es: seq<Effect>, init: seq<Effect>, k: int, t: string)
    requires |es| > 0 && init == es[..|es| - 1] && 0 <= k < |init| && es[k] == init[k]
    requires AddedBy(es, k, t)
    ensures AddedBy(init, k, t)
  {
  }

  /** More files never remove a team. */
  lemma {:induction false} AddedGrows(es: seq<Effect>, more: seq<Effect>)
    ensures Added(es) <= Added(es + more)
    decreases |more|
  {
    if more != [] {
      var init := more[..|more| - 1];
      AddedGrows(es, init);
      var all := es + more;
      assert all[..|all| - 1] == es + init;
      assert Added(all) == Added(es + init) + all[|all| - 1].added;
    } else {
      assert es + more == es;
    }
  }

  /** The counter is the number of counted files. */
  lemma {:induction false} CountedIsNumber(es: seq<Effect>)
    ensures Counted(es) == |CountedAmong(es, |es|)|
  {
    if es != [] {
      var n := |es| - 1;
      var init := es[..n];
      CountedIsNumber(init);
      assert CountedAmong(init, n) == CountedAmong(es, n);
      if es[n].counted {
        assert CountedAmong(es, n + 1) == CountedAmong(es, n) + {n};
      } else {
        assert CountedAmong(es, n + 1) == CountedAmong(es, n);
      }
    }
  }

  /** The indices of the counted files among the first `n`. */
  function CountedAmong(es: seq<Effect>, n: nat): set<nat>
    requires n <= |es|
  {
    set k: nat | k < n && es[k].counted
  }

  /** Every collected team is non-empty, stripped and of the format. */
  lemma CollectedValid(files: seq<CsvFile>)
    ensures AllValid(Added(Effects(files)))
  {
    var es := Effects(files);
    forall t | t in Added(es) ensures t != "" && Strip(t) == t && TeamShape(t) {
      AddedUnion(es, t);
      var k :| AddedBy(es, k, t);
      FileEffectValid(files[k]);
    }
  }

  lemma FlattenSnoc(dirs: seq<seq<CsvFile>>, i: nat)
    requires i < |dirs|
    ensures Flatten(dirs[..i + 1]) == Flatten(dirs[..i]) + dirs[i]
  {
    assert dirs[..i + 1][..i] == dirs[..i];
  }

  /** One more file adds its effect. */
  lemma EffectsSnoc(files: seq<CsvFile>, f: CsvFile)
    ensures Added(Effects(files + [f])) == Added(Effects(files)) + FileEffect(f).added
    ensures Counted(Effects(files + [f])) == Counted(Effects(files)) + (if FileEffect(f).counted then 1 else 0)
  {
    var es := Effects(files + [f]);
    assert es[..|files|] == Effects(files);
    assert es[|files|] == FileEffect(f);
  }

  /** The `try` block for one file, on the running set and counter. */
  method ProcessFile(f: CsvFile, teams: set<string>, processed: nat)
    returns (teams': set<string>, processed': nat)
    ensures teams' == teams + FileEffect(f).added
    ensures processed' == processed + (if FileEffect(f).counted then 1 else 0)
  {
    teams', processed' := teams, processed;
    if f.FirstRow? && |f.fields| > 0 {
      var row := f.fields;
      if "PitcherTeam" in row {
        if row["PitcherTeam"].None? {
          return;
        }
        var pt := Strip(row["PitcherTeam"].value);
        if pt != "" && IsValidTeamFormat(pt) {
          teams' := teams' + {pt};
        }
      }
      if "BatterTeam" in row {
        if row["BatterTeam"].None? {
          return;
        }
        var bt := Strip(row["BatterTeam"].value);
        if bt != "" && IsValidTeamFormat(bt) {
          teams' := teams' + {bt};
        }
      }
      processed' := processed' + 1;
    }
  }

  /** `extract_team_data(csv_folder_path)` over the year directories' CSV
      files, returning the team set and the final value of the processed-file
      counter. */
  method ExtractTeamData(dirs: seq<seq<CsvFile>>) returns (teams: set<string>, processed: nat)
    ensures teams == Added(Effects(Flatten(dirs)))
    ensures processed == Counted(Effects(Flatten(dirs)))
    ensures dirs == [] ==> teams == {} && processed == 0
  {
    teams, processed := {}, 0;
    if dirs == [] {
      return;
    }
    var i := 0;
    while i < |dirs|
      invariant 0 <= i <= |dirs|
      invariant teams == Added(Effects(Flatten(dirs[..i])))
      invariant processed == Counted(Effects(Flatten(dirs[..i])))
    {
      teams, processed := ProcessYearDir(dirs[i], teams, processed, Flatten(dirs[..i]));
      FlattenSnoc(dirs, i);
      i := i + 1;
    }
    assert dirs[..|dirs|] == dirs;
  }

  /** The loop over one year directory's CSV files, after the files `done`
      of the earlier directories. */
  method ProcessYearDir(files: seq<CsvFile>, teams: set<string>, processed: nat, ghost done: seq<CsvFile>)
    returns (teams': set<string>, processed': nat)
    requires teams == Added(Effects(done)) && processed == Counted(Effects(done))
    ensures teams' == Added(Effects(done + files))
    ensures processed' == Counted(Effects(done + files))
  {
    teams', processed' := teams, processed;
    var j := 0;
    EffectsPrefix(done, files, 0);
    while j < |files|
      invariant 0 <= j <= |files|
      invariant teams' == Added(Effects(done + files[..j]))
      invariant processed' == Counted(Effects(done + files[..j]))
    {
      EffectsStep(done, files, j);
      teams', processed' := ProcessFile(files[j], teams', processed');
      j := j + 1;
    }
    EffectsPrefix(done, files, |files|);
  }

  /** The effects of `done` followed by the first `j` files of `files`. */
  lemma EffectsPrefix(done: seq<CsvFile>, files: seq<CsvFile>, j: nat)
    requires j == 0 || j == |files|
    ensures j == 0 ==> Effects(done + files[..j]) == Effects(done)
    ensures j == |files| ==> Effects(done + files[..j]) == Effects(done + files)
  {
    PrefixEnds(done, files, j);
  }

  /** One more file of the directory adds its effect. */
  lemma EffectsStep(done: seq<CsvFile>, files: seq<CsvFile>, j: nat)
    requires j < |files|
    ensures Added(Effects(done + files[..j + 1])) == Added(Effects(done + files[..j])) + FileEffect(files[j]).added
    ensures Counted(Effects(done + files[..j + 1])) == Counted(Effects(done + files[..j])) + (if FileEffect(files[j]).counted then 1 else 0)
  {
    PrefixSnoc(done, files, j);
    EffectsSnoc(done + files[..j], files[j]);
  }

  lemma PrefixEnds<T>(done: seq<T>, xs: seq<T>, j: nat)
    requires j == 0 || j == |xs|
    ensures j == 0 ==> done + xs[..j] == done
    ensures j == |xs| ==> done + xs[..j] == done + xs
  {
  }

  lemma PrefixSnoc<T>(done: seq<T>, xs: seq<T>, j: nat)
    requires j < |xs|
    ensures done + xs[..j + 1] == (done + xs[..j]) + [xs[j]]
  {
    assert xs[..j + 1] == xs[..j] + [xs[j]];
  }

  // ---------------------------------------------------------------------
  // `write_to_csv`

  const Header: string := "TrackmanAbbreviation"

  /** Strictly ascending in Python's string order. */
  predicate Ascending(s: seq<string>) {
    forall a, b :: 0 <= a < b < |s| ==> StrLess(s[a], s[b])
  }

  /** A non-empty finite set of strings has a least element. */
  lemma {:induction false} LeastExists(r: set<string>)
    requires r != {}
    ensures exists m :: m in r && forall x :: x in r && x != m ==> StrLess(m, x)
    decreases |r|
  {
    var y :| y in r;
    var rest := r - {y};
    if rest != {} {
      LeastExists(rest);
      var m :| m in rest && forall x :: x in rest && x != m ==> StrLess(m, x);
      StrLessTotal(m, y);
      if StrLess(m, y) {
        assert forall x :: x in r && x != m ==> StrLess(m, x);
      } else {
        forall x | x in r && x != y ensures StrLess(y, x) {
          if x != m {
            StrLessTransitive(y, m, x);
          }
        }
      }
    } else {
      assert r == {y};
    }
  }

  /** `sorted(list(data))`: the elements of the set in ascending order. */
  method SortTeams(data: set<string>) returns (sorted: seq<string>)
    ensures Ascending(sorted)
    ensures |sorted| == |data|
    ensures forall t :: t in data <==> t in sorted
  {
    sorted := [];
    var rest := data;
    while rest != {}
      invariant rest <= data
      invariant forall t :: t in data <==> t in sorted || t in rest
      invariant forall t :: t in rest ==> t !in sorted
      invariant |sorted| + |rest| == |data|
      invariant Ascending(sorted)
      invariant forall a, t :: 0 <= a < |sorted| && t in rest ==> StrLess(sorted[a], t)
      decreases |rest|
    {
      LeastExists(rest);
      var m :| m in rest && forall x :: x in rest && x != m ==> StrLess(m, x);
      sorted := sorted + [m];
      rest := rest - {m};
    }
  }

  /** `write_to_csv(data, output_path)`: the rows written, the header row
      first and then one single-cell row per team in ascending order. */
  method WriteToCsv(data: set<string>) returns (rows: seq<seq<string>>)
    ensures |rows| == |data| + 1
    ensures rows[0] == [Header]
    ensures forall k :: 1 <= k < |rows| ==> |rows[k]| == 1 && rows[k][0] in data
    ensures forall t :: t in data ==> exists k :: 1 <= k < |rows| && rows[k] == [t]
    ensures forall a, b :: 1 <= a < b < |rows| ==> StrLess(rows[a][0], rows[b][0])
  {
    var sorted := SortTeams(data);
    rows := [[Header]];
    var k := 0;
    while k < |sorted|
      invariant 0 <= k <= |sorted|
      invariant |rows| == k + 1 && rows[0] == [Header]
      invariant forall q :: 1 <= q < |rows| ==> rows[q] == [sorted[q - 1]]
    {
      rows := rows + [[sorted[k]]];
      k := k + 1;
    }
    forall t | t in data ensures exists q :: 1 <= q < |rows| && rows[q] == [t] {
      var p :| 0 <= p < |sorted| && sorted[p] == t;
      assert rows[p + 1] == [t];
    }
  }
}
