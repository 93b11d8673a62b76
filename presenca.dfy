/** The presence page: for one state, the sorted list of candidate names
    across the cycles, and for one name a table with one line per name found
    and one `Sim`/`Não` column per cycle. */
module Presence {
  import opened Seqs
  import Text
  import opened Frames
  import GenerateData

  /** The cycles the page searches, in search order (`anos`). */
  const Years: seq<nat> := [2016, 2018, 2020, 2022, 2024]

  const Yes := "Sim"
  const No := "Não"

  /** The two values a cell of the table can hold: the status `Sim` that
      detection writes, and the `Não` that fills the gaps. */
  datatype Mark = Present | Absent

  /** The text the page shows for a mark. */
  function Label(m: Mark): (r: string)
    ensures r == Yes <==> m == Present
    ensures r == No <==> m == Absent
  {
    assert Yes[0] != No[0];
    match m
    case Present => Yes
    case Absent => No
  }

  // ---------------------------------------------------------------------------
  // Cell style

  const GreenStyle := "background-color: #c6efce; color: #006100"
  const RedStyle := "background-color: #ffc7ce; color: #9c0006"

  /** `colorir_sim_nao`: green for `Sim`, red for `Não`, once surrounding
      white space is stripped; no style for anything else. */
  function CellStyle(val: string): (r: Option<string>)
    ensures r == Some(GreenStyle) <==> Text.Strip(val) == Yes
    ensures r == Some(RedStyle) <==> Text.Strip(val) == No
    ensures r == None <==> Text.Strip(val) != Yes && Text.Strip(val) != No
  {
    var v := Text.Strip(val);
    if v == Yes then Some(GreenStyle)
    else if v == No then Some(RedStyle)
    else None
  }

  /** `Sim` is its own stripped form, so a present mark is shown green. */
  lemma PresentIsGreen()
    ensures CellStyle(Label(Present)) == Some(GreenStyle)
  {
    StripKeeps(Yes);
  }

  /** `Não` is its own stripped form, so an absent mark is shown red. */
  lemma AbsentIsRed()
    ensures CellStyle(Label(Absent)) == Some(RedStyle)
  {
    StripKeeps(No);
  }

  /** A string that neither starts nor ends with white space strips to itself. */
  lemma StripKeeps(s: string)
    requires s != [] && !Text.IsSpace(s[0]) && !Text.IsSpace(s[|s| - 1])
    ensures Text.Strip(s) == s
  {
    var r := Text.Strip(s);
    var i, j :| 0 <= i <= j <= |s| && r == s[i..j]
                && (forall k :: 0 <= k < i ==> Text.IsSpace(s[k]))
                && (forall k :: j <= k < |s| ==> Text.IsSpace(s[k]));
  }

  // ---------------------------------------------------------------------------
  // Detection

  /** One output row of `detectar_candidatos`: the name, the year (`Anos`)
      and the status, always `Sim`. */
  datatype Sighting = Sighting(name: string, year: nat, status: Mark)

  /** The rows as sightings of the year, names normalised (this page's
      `normalize_data` rewrites only the name). */
  function Sightings(rows: seq<Record>, year: nat): (r: seq<Sighting>)
    ensures |r| == |rows|
    ensures forall i :: 0 <= i < |rows| ==> r[i] == Sighting(CanonicalName(rows[i].name), year, Present)
  {
    if rows == [] then [] else [Sighting(CanonicalName(rows[0].name), year, Present)] + Sightings(rows[1..], year)
  }

  /** Keeps the lines whose raw name is `name`. */
  function RawNamed(name: string): Record -> bool {
    (x: Record) => x.name == name
  }

  /** Keeps the lines whose normalised name is `name`. */
  function CanonicalNamed(name: string): Record -> bool {
    (x: Record) => CanonicalName(x.name) == name
  }

  /** `detectar_candidatos` as written: the name filter compares the raw name
      (an empty name means no filter), and only then are names normalised. */
  function Detect(src: Source, year: nat, code: string, name: string, columns: Option<seq<Column>>): (r: Result<seq<Sighting>>)
    ensures r.Ok? <==> Load(src, year, code, columns).Ok? && Name in Load(src, year, code, columns).value.columns
    ensures r.Ok? ==> forall s :: s in r.value ==> s.year == year && s.status == Present
  {
    match Load(src, year, code, columns)
    case Err(e) => Err(e)
    case Ok(f) =>
      if Name !in f.columns then Err(MissingColumn)
      else if name == "" then Ok(Sightings(f.rows, year))
      else Ok(Sightings(Where(f.rows, RawNamed(name)), year))
  }

  /** `detectar_candidatos` as evidently intended: the name filter compares the
      normalised name, the form the page offers in its list. */
  function DetectCanonical(src: Source, year: nat, code: string, name: string, columns: Option<seq<Column>>): (r: Result<seq<Sighting>>)
    ensures r.Ok? <==> Load(src, year, code, columns).Ok? && Name in Load(src, year, code, columns).value.columns
    ensures r.Ok? ==> forall s :: s in r.value ==> s.year == year && s.status == Present
  {
    match Load(src, year, code, columns)
    case Err(e) => Err(e)
    case Ok(f) =>
      if Name !in f.columns then Err(MissingColumn)
      else if name == "" then Ok(Sightings(f.rows, year))
      else Ok(Sightings(Where(f.rows, CanonicalNamed(name)), year))
  }

  /** A sighting of the kept lines is the normalised name of one of them. */
  lemma SightingsWhere(rows: seq<Record>, year: nat, keep: Record -> bool)
    ensures forall s :: s in Sightings(Where(rows, keep), year) <==>
      exists x :: x in rows && keep(x) && s == Sighting(CanonicalName(x.name), year, Present)
    ensures Sightings(Where(rows, keep), year) != [] <==> exists x :: x in rows && keep(x)
  {
    var kept := Where(rows, keep);
    var ss := Sightings(kept, year);
    forall s | s in ss ensures exists x :: x in rows && keep(x) && s == Sighting(CanonicalName(x.name), year, Present) {
      var k :| 0 <= k < |ss| && ss[k] == s;
      assert kept[k] in kept;
    }
    forall x | x in rows && keep(x) ensures Sighting(CanonicalName(x.name), year, Present) in ss {
      var k :| 0 <= k < |kept| && kept[k] == x;
      assert ss[k] == Sighting(CanonicalName(x.name), year, Present);
    }
    if ss != [] {
      assert ss[0] in ss;
    }
  }

  /** The search as written finds a year exactly when a line of that year
      carries the raw name searched for, and reports it normalised. */
  lemma DetectFinds(src: Source, year: nat, code: string, name: string, columns: Option<seq<Column>>)
    requires name != ""
    requires Detect(src, year, code, name, columns).Ok?
    ensures var found := Detect(src, year, code, name, columns).value;
      var rows := Load(src, year, code, columns).value.rows;
      (forall s :: s in found ==> s == Sighting(CanonicalName(name), year, Present))
      && (found != [] <==> exists x :: x in rows && x.name == name)
  {
    var rows := Load(src, year, code, columns).value.rows;
    SightingsWhere(rows, year, RawNamed(name));
  }

  /** The corrected search finds a year exactly when a line of that year
      normalises to the name searched for, and reports that name. */
  lemma DetectCanonicalFinds(src: Source, year: nat, code: string, name: string, columns: Option<seq<Column>>)
    requires name != ""
    requires DetectCanonical(src, year, code, name, columns).Ok?
    ensures var found := DetectCanonical(src, year, code, name, columns).value;
      var rows := Load(src, year, code, columns).value.rows;
      (forall s :: s in found ==> s == Sighting(name, year, Present))
      && (found != [] <==> exists x :: x in rows && CanonicalName(x.name) == name)
  {
    var rows := Load(src, year, code, columns).value.rows;
    SightingsWhere(rows, year, CanonicalNamed(name));
  }

  /** A year whose file spells the candidate with the alias: searching for the
      name the page offers finds nothing as written, and finds the candidate
      once the filter compares normalised names. */
  lemma AliasIsMissed(src: Source, year: nat, code: string, columns: Option<seq<Column>>, x: Record)
    requires Load(src, year, code, columns).Ok? && Name in Load(src, year, code, columns).value.columns
    requires Load(src, year, code, columns).value.rows == [x] && x.name == Junior
    ensures Detect(src, year, code, Canonical, columns) == Ok([])
    ensures DetectCanonical(src, year, code, Canonical, columns) == Ok([Sighting(Canonical, year, Present)])
  {
    AliasLine(x);
    assert |Canonical| > 0;
    assert Sightings([x], year) == [Sighting(Canonical, year, Present)];
    assert Sightings([], year) == [];
  }

  /** The one-line file of the alias, filtered both ways. */
  lemma AliasLine(x: Record)
    requires x.name == Junior
    ensures Where([x], RawNamed(Canonical)) == []
    ensures Where([x], CanonicalNamed(Canonical)) == [x]
    ensures CanonicalName(x.name) == Canonical
  {
    JuniorIsCanonicalised();
    assert Junior != Canonical by {
      assert |Junior| != |Canonical|;
    }
    WhereNone([x], RawNamed(Canonical));
    WhereAll([x], CanonicalNamed(Canonical));
  }

  // ---------------------------------------------------------------------------
  // Gathering the cycles

  /** `list(executor.map(detect, anos))`: the sightings of every year, in year
      order; the first year that fails makes the whole call fail. */
  function Gather(detect: nat -> Result<seq<Sighting>>, years: seq<nat>): (r: Result<seq<seq<Sighting>>>)
    ensures r.Ok? <==> forall i :: 0 <= i < |years| ==> detect(years[i]).Ok?
    ensures r.Ok? ==> |r.value| == |years|
    ensures r.Ok? ==> forall i :: 0 <= i < |years| ==> r.value[i] == detect(years[i]).value
  {
    if years == [] then Ok([])
    else match detect(years[0])
      case Err(e) => Err(e)
      case Ok(ss) =>
        match Gather(detect, years[1..])
        case Err(e) => Err(e)
        case Ok(rest) => Ok([ss] + rest)
  }

  /** The sightings gathered over the years all belong to those years. */
  ghost predicate YearTagged(detect: nat -> Result<seq<Sighting>>) {
    forall y: nat, s :: detect(y).Ok? && s in detect(y).value ==> s.year == y && s.status == Present
  }

  lemma GatheredYears(detect: nat -> Result<seq<Sighting>>, years: seq<nat>)
    requires YearTagged(detect)
    requires Gather(detect, years).Ok?
    ensures forall s :: s in Flatten(Gather(detect, years).value) ==> s.year in years && s.status == Present
  {
    var dfs := Gather(detect, years).value;
    forall s: Sighting | s in Flatten(dfs) ensures s.year in years && s.status == Present {
      var i :| 0 <= i < |dfs| && s in dfs[i];
      assert s in detect(years[i]).value;
    }
  }

  function Detector(src: Source, code: string, name: string, columns: Option<seq<Column>>): nat -> Result<seq<Sighting>> {
    (y: nat) => Detect(src, y, code, name, columns)
  }

  function CanonicalDetector(src: Source, code: string, name: string, columns: Option<seq<Column>>): nat -> Result<seq<Sighting>> {
    (y: nat) => DetectCanonical(src, y, code, name, columns)
  }

  lemma DetectorsTagged(src: Source, code: string, name: string, columns: Option<seq<Column>>)
    ensures YearTagged(Detector(src, code, name, columns))
    ensures YearTagged(CanonicalDetector(src, code, name, columns))
  {
  }

  /** The page's second `normalize_data` over the concatenated sightings. */
  function Renamed(ss: seq<Sighting>): (r: seq<Sighting>)
    ensures |r| == |ss|
    ensures forall i :: 0 <= i < |ss| ==> r[i] == ss[i].(name := CanonicalName(ss[i].name))
  {
    if ss == [] then [] else [ss[0].(name := CanonicalName(ss[0].name))] + Renamed(ss[1..])
  }

  function NamesIn(ss: seq<Sighting>): (r: seq<string>)
    ensures |r| == |ss|
    ensures forall i :: 0 <= i < |ss| ==> r[i] == ss[i].name
  {
    if ss == [] then [] else [ss[0].name] + NamesIn(ss[1..])
  }

  function YearsIn(ss: seq<Sighting>): (r: seq<nat>)
    ensures |r| == |ss|
    ensures forall i :: 0 <= i < |ss| ==> r[i] == ss[i].year
  {
    if ss == [] then [] else [ss[0].year] + YearsIn(ss[1..])
  }

  /** `cache_candidatos` over a list of years: the names of every file,
      normalised, without repetition, in code-point order. */
  function NameList(detect: nat -> Result<seq<Sighting>>, years: seq<nat>): (r: Result<seq<string>>)
    ensures r.Ok? <==> Gather(detect, years).Ok?
    ensures r.Ok? ==> Text.StrictlySorted(r.value)
  {
    match Gather(detect, years)
    case Err(e) => Err(e)
    case Ok(dfs) => Ok(Text.SortedUnique(NamesIn(Renamed(Flatten(dfs)))))
  }

  /** The names listed are exactly the names of the sightings gathered, each
      normalised once more. */
  lemma NameListMembers(detect: nat -> Result<seq<Sighting>>, years: seq<nat>)
    requires NameList(detect, years).Ok?
    ensures forall n :: n in NameList(detect, years).value <==>
      exists i, s :: 0 <= i < |years| && s in detect(years[i]).value && n == CanonicalName(s.name)
  {
    var dfs := Gather(detect, years).value;
    var all := Flatten(dfs);
    var names := NamesIn(Renamed(all));
    forall n | n in names
      ensures exists i, s :: 0 <= i < |years| && s in detect(years[i]).value && n == CanonicalName(s.name)
    {
      var k :| 0 <= k < |names| && names[k] == n;
      assert all[k] in all;
      var i :| 0 <= i < |dfs| && all[k] in dfs[i];
      assert all[k] in detect(years[i]).value;
    }
    forall i, s | 0 <= i < |years| && s in detect(years[i]).value
      ensures CanonicalName(s.name) in names
    {
      assert s in dfs[i];
      assert s in all;
      var k :| 0 <= k < |all| && all[k] == s;
      assert names[k] == CanonicalName(s.name);
    }
  }

  /** `cache_candidatos`: the options of the name list; any year that cannot
      be read makes the page fail. */
  function CacheCandidates(src: Source, code: string): Result<seq<string>> {
    NameList(Detector(src, code, "", Some([Name])), Years)
  }

  /** The sightings of all lines are their normalised names. */
  lemma SightingsMembers(rows: seq<Record>, year: nat)
    ensures forall s :: s in Sightings(rows, year) <==>
      exists x :: x in rows && s == Sighting(CanonicalName(x.name), year, Present)
  {
    var ss := Sightings(rows, year);
    forall s | s in ss ensures exists x :: x in rows && s == Sighting(CanonicalName(x.name), year, Present) {
      var k :| 0 <= k < |ss| && ss[k] == s;
      assert rows[k] in rows;
    }
    forall x | x in rows ensures Sighting(CanonicalName(x.name), year, Present) in ss {
      var k :| 0 <= k < |rows| && rows[k] == x;
      assert ss[k] == Sighting(CanonicalName(x.name), year, Present);
    }
  }

  /** The sightings of an unfiltered search are the lines of the file. */
  lemma DetectAll(src: Source, year: nat, code: string, columns: Option<seq<Column>>)
    requires Detect(src, year, code, "", columns).Ok?
    ensures forall s :: s in Detect(src, year, code, "", columns).value <==>
      exists x :: x in Load(src, year, code, columns).value.rows && s == Sighting(CanonicalName(x.name), year, Present)
  {
    SightingsMembers(Load(src, year, code, columns).value.rows, year);
  }

  /** The name list holds exactly the names of the lines of the files, each
      normalised twice (once per `normalize_data`). */
  lemma NamesFromFiles(src: Source, code: string, years: seq<nat>)
    requires NameList(Detector(src, code, "", Some([Name])), years).Ok?
    ensures forall n :: n in NameList(Detector(src, code, "", Some([Name])), years).value <==>
      exists i, x :: 0 <= i < |years| && Load(src, years[i], code, Some([Name])).Ok?
                  && x in Load(src, years[i], code, Some([Name])).value.rows
                  && n == CanonicalName(CanonicalName(x.name))
  {
    var detect := Detector(src, code, "", Some([Name]));
    NameListMembers(detect, years);
    forall i | 0 <= i < |years| ensures detect(years[i]).Ok? {
      assert Gather(detect, years).Ok?;
    }
    forall n | n in NameList(detect, years).value
      ensures exists i, x :: 0 <= i < |years| && Load(src, years[i], code, Some([Name])).Ok?
                  && x in Load(src, years[i], code, Some([Name])).value.rows
                  && n == CanonicalName(CanonicalName(x.name))
    {
      var i, s :| 0 <= i < |years| && s in detect(years[i]).value && n == CanonicalName(s.name);
      DetectAll(src, years[i], code, Some([Name]));
      var x :| x in Load(src, years[i], code, Some([Name])).value.rows && s == Sighting(CanonicalName(x.name), years[i], Present);
    }
    forall i, x | 0 <= i < |years| && Load(src, years[i], code, Some([Name])).Ok?
                  && x in Load(src, years[i], code, Some([Name])).value.rows
      ensures CanonicalName(CanonicalName(x.name)) in NameList(detect, years).value
    {
      DetectAll(src, years[i], code, Some([Name]));
      assert Sighting(CanonicalName(x.name), years[i], Present) in detect(years[i]).value;
    }
  }

  /** The page's name list: sorted, without repetition, and made of the
      twice-normalised names of every line of every cycle's file. */
  lemma CandidateNames(src: Source, code: string)
    requires CacheCandidates(src, code).Ok?
    ensures Text.StrictlySorted(CacheCandidates(src, code).value)
    ensures forall n :: n in CacheCandidates(src, code).value <==>
      exists i, x :: 0 <= i < |Years| && Load(src, Years[i], code, Some([Name])).Ok?
                  && x in Load(src, Years[i], code, Some([Name])).value.rows
                  && n == CanonicalName(CanonicalName(x.name))
  {
    NamesFromFiles(src, code, Years);
  }

  // ---------------------------------------------------------------------------
  // The presence table

  /** One line of the table: a name and one cell per year column. */
  datatype Line = Line(name: string, cells: seq<Mark>)

  /** The table: the year columns, in order, after the name column. */
  datatype Table = Table(years: seq<nat>, lines: seq<Line>)

  /** Some sighting has this name and year. */
  predicate Seen(ss: seq<Sighting>, name: string, year: nat) {
    exists i :: 0 <= i < |ss| && ss[i].name == name && ss[i].year == year
  }

  function Answer(ss: seq<Sighting>, name: string, year: nat): Mark {
    if Seen(ss, name, year) then Present else Absent
  }

  /** Every line has one cell per column. */
  predicate Rectangular(t: Table) {
    forall i :: 0 <= i < |t.lines| ==> |t.lines[i].cells| == |t.years|
  }

  /** Every line has one cell per column, each saying whether the sightings
      hold that name in that year; columns and names are not repeated. */
  predicate Faithful(t: Table, ss: seq<Sighting>) {
    Distinct(t.years)
    && (forall i, j :: 0 <= i < j < |t.lines| ==> t.lines[i].name != t.lines[j].name)
    && Rectangular(t)
    && (forall i, j :: 0 <= i < |t.lines| && 0 <= j < |t.years| ==>
          t.lines[i].cells[j] == Answer(ss, t.lines[i].name, t.years[j]))
  }

  /** The table names exactly the names of the sightings. */
  predicate NamesMatch(t: Table, ss: seq<Sighting>) {
    (forall i :: 0 <= i < |t.lines| ==> t.lines[i].name in NamesIn(ss))
    && (forall n :: n in NamesIn(ss) ==> exists i :: 0 <= i < |t.lines| && t.lines[i].name == n)
  }

  /** `pivot(index=name, on=year, values=status, aggregate_function='max')`
      then `fill_null('Não')`: a line per distinct name, a column per
      distinct year. */
  function Pivot(ss: seq<Sighting>): (t: Table)
    ensures Faithful(t, ss) && NamesMatch(t, ss)
    ensures forall y :: y in t.years <==> y in YearsIn(ss)
  {
    var years := Unique(YearsIn(ss));
    var names := Unique(NamesIn(ss));
    var t := Table(years, seq(|names|, i requires 0 <= i < |names| =>
                         Line(names[i], seq(|years|, j requires 0 <= j < |years| => Answer(ss, names[i], years[j])))));
    assert forall i :: 0 <= i < |names| ==> t.lines[i].name == names[i];
    t
  }

  /** `with_columns(pl.lit('Não').alias(year))`. */
  function AddColumn(t: Table, year: nat, fill: Mark): (r: Table)
    ensures r.years == t.years + [year] && |r.lines| == |t.lines|
    ensures forall i :: 0 <= i < |t.lines| ==> r.lines[i] == Line(t.lines[i].name, t.lines[i].cells + [fill])
    ensures Rectangular(t) ==> Rectangular(r)
  {
    Table(t.years + [year], seq(|t.lines|, i requires 0 <= i < |t.lines| =>
                                Line(t.lines[i].name, t.lines[i].cells + [fill])))
  }

  /** Adding a `Não` column for a year nobody was seen in keeps the table
      faithful. */
  lemma AddColumnFaithful(t: Table, ss: seq<Sighting>, year: nat)
    requires Faithful(t, ss) && year !in t.years
    requires year !in YearsIn(ss)
    ensures Faithful(AddColumn(t, year, Absent), ss)
  {
    var r := AddColumn(t, year, Absent);
    forall k | 0 <= k < |ss| ensures ss[k].year != year {
      assert YearsIn(ss)[k] == ss[k].year;
    }
    forall i, j | 0 <= i < |r.lines| && 0 <= j < |r.years|
      ensures r.lines[i].cells[j] == Answer(ss, r.lines[i].name, r.years[j])
    {
      if j < |t.years| {
        assert r.lines[i].cells[j] == t.lines[i].cells[j];
      }
    }
  }

  /** Adding a column keeps the lines' names. */
  lemma AddColumnNames(t: Table, ss: seq<Sighting>, year: nat, fill: Mark)
    requires NamesMatch(t, ss)
    ensures NamesMatch(AddColumn(t, year, fill), ss)
  {
    var r := AddColumn(t, year, fill);
    forall n | n in NamesIn(ss) ensures exists i :: 0 <= i < |r.lines| && r.lines[i].name == n {
      var i :| 0 <= i < |t.lines| && t.lines[i].name == n;
      assert r.lines[i].name == n;
    }
  }

  /** The years of `all` that are not columns yet (`set(anos) - colunas_pivot`). */
  function Missing(have: seq<nat>, all: seq<nat>): (r: seq<nat>)
    ensures forall y :: y in r <==> y in all && y !in have
  {
    Where(all, (y: nat) => y !in have)
  }

  /** The table after a `Não` column has been added for each year of `ms`,
      in order. */
  function FillMissing(t: Table, ms: seq<nat>): (r: Table)
    ensures r.years == t.years + ms && |r.lines| == |t.lines|
    ensures Rectangular(t) ==> Rectangular(r)
  {
    if ms == [] then t else AddColumn(FillMissing(t, ms[..|ms| - 1]), ms[|ms| - 1], Absent)
  }

  lemma {:induction false} FillMissingFaithful(t: Table, ss: seq<Sighting>, ms: seq<nat>)
    requires Faithful(t, ss) && NamesMatch(t, ss)
    requires Distinct(ms)
    requires forall y :: y in ms ==> y !in t.years && y !in YearsIn(ss)
    ensures Faithful(FillMissing(t, ms), ss) && NamesMatch(FillMissing(t, ms), ss)
    decreases |ms|
  {
    if ms != [] {
      var front := ms[..|ms| - 1];
      var y := ms[|ms| - 1];
      assert Distinct(front);
      assert forall x :: x in front ==> x in ms;
      FillMissingFaithful(t, ss, front);
      assert y !in front;
      assert y !in FillMissing(t, front).years;
      AddColumnFaithful(FillMissing(t, front), ss, y);
      AddColumnNames(FillMissing(t, front), ss, y, Absent);
    }
  }

  /** The back-fill of `procurar_candidato`: when the year columns are not
      the years of `all`, adds a `Não` column for every missing year. */
  method BackFill(t: Table, all: seq<nat>) returns (r: Table)
    ensures r == FillMissing(t, Missing(t.years, all))
  {
    var have := set y | y in t.years;
    var wanted := set y | y in all;
    var ms := Missing(t.years, all);
    r := t;
    if have != wanted {
      var i := 0;
      while i < |ms|
        invariant 0 <= i <= |ms|
        invariant r == FillMissing(t, ms[..i])
      {
        FillMissingStep(t, ms, i);
        r := AddColumn(r, ms[i], Absent);
        i := i + 1;
      }
      assert ms[..|ms|] == ms;
    } else {
      forall y | y in all ensures y in t.years {
        assert y in wanted;
      }
      NothingMissing(t.years, all);
    }
  }

  lemma FillMissingStep(t: Table, ms: seq<nat>, i: nat)
    requires i < |ms|
    ensures FillMissing(t, ms[..i + 1]) == AddColumn(FillMissing(t, ms[..i]), ms[i], Absent)
  {
    assert ms[..i + 1][..i] == ms[..i];
  }

  lemma NothingMissing(have: seq<nat>, all: seq<nat>)
    requires forall y :: y in all ==> y in have
    ensures Missing(have, all) == []
  {
    WhereNone(all, (y: nat) => y !in have);
  }

  /** The position of `x` in `s`. */
  function IndexOf(s: seq<nat>, x: nat): (i: nat)
    requires x in s
    ensures i < |s| && s[i] == x
  {
    if s[0] == x then 0 else 1 + IndexOf(s[1..], x)
  }

  /** `select(['Nome do candidato'] + sorted(year columns))`: the year columns
      in ascending order, each line's cells moved with them. */
  function Reorder(t: Table): (r: Table)
    requires Rectangular(t)
    ensures GenerateData.Ascending(r.years) && multiset(r.years) == multiset(t.years)
    ensures |r.lines| == |t.lines| && Rectangular(r)
    ensures forall i :: 0 <= i < |t.lines| ==> r.lines[i].name == t.lines[i].name
  {
    var order := GenerateData.SortYears(t.years);
    Table(order, seq(|t.lines|, i requires 0 <= i < |t.lines| =>
      Line(t.lines[i].name, seq(|order|, j requires 0 <= j < |order| =>
        assert order[j] in multiset(t.years);
        t.lines[i].cells[IndexOf(t.years, order[j])]))))
  }

  /** The pivot's year columns are names, so `sorted` compares them as
      strings; for four-digit years the numeric order of `Reorder` leaves
      those names in the same order. */
  lemma ReorderTextOrder(t: Table)
    requires Rectangular(t)
    requires forall y :: y in t.years ==> 1000 <= y <= 9999
    ensures var names := GenerateData.YearTexts(Reorder(t).years);
      forall i, j :: 0 <= i < j < |names| ==> !Text.Less(names[j], names[i])
  {
    assert Reorder(t).years == GenerateData.SortYears(t.years);
    GenerateData.SortedYearTexts(t.years);
  }

  /** Each cell moves with its year column: when column `j` of the sorted
      table and column `k` of the original hold the same year, every line
      has the same mark in both (the years are not repeated). */
  lemma ReorderMoves(t: Table)
    requires Rectangular(t) && Distinct(t.years)
    ensures var r := Reorder(t);
      forall i, j, k :: 0 <= i < |t.lines| && 0 <= j < |r.years| && 0 <= k < |t.years| && r.years[j] == t.years[k] ==>
        r.lines[i].cells[j] == t.lines[i].cells[k]
  {
    var r := Reorder(t);
    forall i, j, k | 0 <= i < |t.lines| && 0 <= j < |r.years| && 0 <= k < |t.years| && r.years[j] == t.years[k]
      ensures r.lines[i].cells[j] == t.lines[i].cells[k]
    {
      assert r.years[j] in multiset(t.years);
      assert IndexOf(t.years, r.years[j]) == k;
    }
  }

  /** The sorted columns are the original ones, still without repetition. */
  lemma ReorderYears(t: Table)
    requires Rectangular(t) && Distinct(t.years)
    ensures Distinct(Reorder(t).years)
    ensures forall y :: y in Reorder(t).years <==> y in t.years
  {
    var r := Reorder(t);
    forall y ensures y in r.years <==> y in t.years {
      assert y in r.years <==> y in multiset(r.years);
    }
    forall y ensures multiset(r.years)[y] <= 1 {
      DistinctCount(t.years, y);
    }
    CountsDistinct(r.years);
  }

  lemma ReorderFaithful(t: Table, ss: seq<Sighting>)
    requires Faithful(t, ss) && NamesMatch(t, ss)
    ensures Faithful(Reorder(t), ss) && NamesMatch(Reorder(t), ss)
    ensures forall y :: y in Reorder(t).years <==> y in t.years
  {
    var r := Reorder(t);
    ReorderYears(t);
    ReorderMoves(t);
    forall i, j | 0 <= i < |r.lines| && 0 <= j < |r.years|
      ensures r.lines[i].cells[j] == Answer(ss, r.lines[i].name, r.years[j])
    {
      assert r.years[j] in t.years;
      var k :| 0 <= k < |t.years| && t.years[k] == r.years[j];
    }
    forall n | n in NamesIn(ss) ensures exists i :: 0 <= i < |r.lines| && r.lines[i].name == n {
      var i :| 0 <= i < |t.lines| && t.lines[i].name == n;
      assert r.lines[i].name == n;
    }
  }

  /** A value occurs at most once in a list without repetitions. */
  lemma {:induction false} DistinctCount(s: seq<nat>, y: nat)
    requires Distinct(s)
    ensures multiset(s)[y] <= 1
  {
    if s != [] {
      assert Distinct(s[1..]) by {
        forall a, b | 0 <= a < b < |s| - 1 ensures s[1..][a] != s[1..][b] {
          assert s[1..][a] == s[a + 1] && s[1..][b] == s[b + 1];
        }
      }
      DistinctCount(s[1..], y);
      assert s == [s[0]] + s[1..];
      if s[0] == y {
        assert y !in s[1..];
      }
    }
  }

  /** A list in which no value counts twice has no repetitions. */
  lemma CountsDistinct(s: seq<nat>)
    requires forall y :: multiset(s)[y] <= 1
    ensures Distinct(s)
  {
    forall a, b | 0 <= a < b < |s| ensures s[a] != s[b] {
      assert s == s[..a] + [s[a]] + s[a + 1..b] + [s[b]] + s[b + 1..];
      assert s[a] == s[b] ==> multiset(s)[s[a]] >= 2;
    }
  }

  /** Two ascending lists without repetitions that hold the same values are
      the same list. */
  lemma {:induction false} SortedSame(a: seq<nat>, b: seq<nat>)
    requires GenerateData.Ascending(a) && GenerateData.Ascending(b) && Distinct(a) && Distinct(b)
    requires forall y :: y in a <==> y in b
    ensures a == b
    decreases |a|
  {
    assert a != [] ==> a[0] in b;
    assert b != [] ==> b[0] in a;
    if a != [] && b != [] {
      SameHead(a, b);
      SameTail(a, b);
      SortedTail(a);
      SortedTail(b);
      SortedSame(a[1..], b[1..]);
      assert a == [a[0]] + a[1..] && b == [b[0]] + b[1..];
    }
  }

  lemma SameHead(a: seq<nat>, b: seq<nat>)
    requires GenerateData.Ascending(a) && GenerateData.Ascending(b) && a != [] && b != []
    requires forall y :: y in a <==> y in b
    ensures a[0] == b[0]
  {
    assert a[0] in b && b[0] in a;
  }

  lemma SameTail(a: seq<nat>, b: seq<nat>)
    requires Distinct(a) && Distinct(b) && a != [] && b != [] && a[0] == b[0]
    requires forall y :: y in a <==> y in b
    ensures forall y :: y in a[1..] <==> y in b[1..]
  {
    forall y ensures y in a[1..] <==> y in b[1..] {
      if y in a[1..] {
        assert y != a[0];
        assert y in b;
      }
      if y in b[1..] {
        assert y != b[0];
        assert y in a;
      }
    }
  }

  lemma SortedTail(a: seq<nat>)
    requires GenerateData.Ascending(a) && Distinct(a) && a != []
    ensures GenerateData.Ascending(a[1..]) && Distinct(a[1..])
  {
  }

  /** The whole table of `procurar_candidato` from the gathered sightings. */
  function TableOf(gathered: seq<seq<Sighting>>, all: seq<nat>): Table {
    var ss := Renamed(Flatten(gathered));
    var t := Pivot(ss);
    Reorder(FillMissing(t, Missing(t.years, all)))
  }

  /** The table of a search over the years of `all`: its year columns are
      the years of `all`, ascending; a line per distinct name found; each cell
      is `Sim` exactly when that name was found in that year. */
  lemma TableShape(gathered: seq<seq<Sighting>>, all: seq<nat>)
    requires Distinct(all)
    requires forall s :: s in Flatten(gathered) ==> s.year in all
    ensures var t := TableOf(gathered, all);
      var ss := Renamed(Flatten(gathered));
      Faithful(t, ss) && NamesMatch(t, ss) && GenerateData.Ascending(t.years)
      && (forall y :: y in t.years <==> y in all)
  {
    var ss := Renamed(Flatten(gathered));
    var p := Pivot(ss);
    var ms := Missing(p.years, all);
    assert Distinct(ms) by {
      MissingDistinct(p.years, all);
    }
    assert forall y :: y in YearsIn(ss) ==> y in all by {
      forall y | y in YearsIn(ss) ensures y in all {
        var k :| 0 <= k < |ss| && YearsIn(ss)[k] == y;
        assert Flatten(gathered)[k] in Flatten(gathered);
      }
    }
    FillMissingFaithful(p, ss, ms);
    ReorderFaithful(FillMissing(p, ms), ss);
  }

  lemma MissingDistinct(have: seq<nat>, all: seq<nat>)
    requires Distinct(all)
    ensures Distinct(Missing(have, all))
  {
    WhereIsSubseq(all, (y: nat) => y !in have);
    SubseqDistinct(Missing(have, all), all);
  }

  lemma {:induction false} SubseqDistinct(a: seq<nat>, b: seq<nat>)
    requires SubseqOf(a, b) && Distinct(b)
    ensures Distinct(a)
    decreases |b|
  {
    if a != [] {
      assert Distinct(b[1..]) by {
        forall i, j | 0 <= i < j < |b| - 1 ensures b[1..][i] != b[1..][j] {
          assert b[1..][i] == b[i + 1] && b[1..][j] == b[j + 1];
        }
      }
      if a[0] == b[0] && SubseqOf(a[1..], b[1..]) {
        SubseqDistinct(a[1..], b[1..]);
        SubseqMembers(a[1..], b[1..]);
        forall i, j | 0 <= i < j < |a| ensures a[i] != a[j] {
          if i == 0 {
            assert a[j] == a[1..][j - 1];
            assert a[j] in b[1..];
          } else {
            assert a[i] == a[1..][i - 1] && a[j] == a[1..][j - 1];
          }
        }
      } else {
        SubseqDistinct(a, b[1..]);
      }
    }
  }

  lemma {:induction false} SubseqMembers(a: seq<nat>, b: seq<nat>)
    requires SubseqOf(a, b)
    ensures forall x :: x in a ==> x in b
    decreases |b|
  {
    if a != [] {
      if a[0] == b[0] && SubseqOf(a[1..], b[1..]) {
        SubseqMembers(a[1..], b[1..]);
        assert a == [a[0]] + a[1..];
      } else {
        SubseqMembers(a, b[1..]);
      }
    }
  }

  /** `procurar_candidato` over a list of years, given the detector it uses:
      every year is searched, and the first that fails makes it fail. */
  function SearchOf(detect: nat -> Result<seq<Sighting>>, all: seq<nat>): (r: Result<Table>)
    ensures r.Ok? <==> Gather(detect, all).Ok?
    ensures r.Ok? ==> Rectangular(r.value)
  {
    match Gather(detect, all)
    case Err(e) => Err(e)
    case Ok(gathered) => Ok(TableOf(gathered, all))
  }

  /** The search as a sequence of steps, as the page performs it. */
  method Search(detect: nat -> Result<seq<Sighting>>, all: seq<nat>) returns (r: Result<Table>)
    ensures r == SearchOf(detect, all)
  {
    var gathered := Gather(detect, all);
    if gathered.Err? {
      return Err(gathered.error);
    }
    var ss := Renamed(Flatten(gathered.value));
    var t := Pivot(ss);
    t := BackFill(t, all);
    r := Ok(Reorder(t));
  }

  /** A search that succeeds gives a table with exactly the years of `all` as
      columns, ascending, and a `Sim` exactly where the name was found. */
  lemma SearchShape(detect: nat -> Result<seq<Sighting>>, all: seq<nat>)
    requires YearTagged(detect) && Distinct(all)
    requires SearchOf(detect, all).Ok?
    ensures var t := SearchOf(detect, all).value;
      var ss := Renamed(Flatten(Gather(detect, all).value));
      Faithful(t, ss) && NamesMatch(t, ss) && GenerateData.Ascending(t.years)
      && (forall y :: y in t.years <==> y in all)
      && (GenerateData.Ascending(all) ==> t.years == all)
  {
    GatheredYears(detect, all);
    TableShape(Gather(detect, all).value, all);
    if GenerateData.Ascending(all) {
      SortedSame(SearchOf(detect, all).value.years, all);
    }
  }

  /** Every sighting `detect` reports for a year is `n`, seen that year. */
  ghost predicate OnlyFinds(detect: nat -> Result<seq<Sighting>>, n: string) {
    forall y: nat, s :: detect(y).Ok? && s in detect(y).value ==> s == Sighting(n, y, Present)
  }

  /** Sightings of one name, gathered over distinct years: once normalised
      they all carry that name, and the name is seen in a year exactly when
      that year's search found something. */
  lemma SingleNameSeen(gathered: seq<seq<Sighting>>, all: seq<nat>, n: string)
    requires |gathered| == |all| && Distinct(all)
    requires forall m, s :: 0 <= m < |all| && s in gathered[m] ==> s == Sighting(n, all[m], Present)
    ensures var ss := Renamed(Flatten(gathered));
      (forall k :: 0 <= k < |ss| ==> ss[k].name == CanonicalName(n))
      && (forall m :: 0 <= m < |all| ==> (Seen(ss, CanonicalName(n), all[m]) <==> gathered[m] != []))
  {
    SingleNameNames(gathered, all, n);
    SingleNameYears(gathered, all, n);
  }

  lemma SingleNameNames(gathered: seq<seq<Sighting>>, all: seq<nat>, n: string)
    requires |gathered| == |all|
    requires forall m, s :: 0 <= m < |all| && s in gathered[m] ==> s == Sighting(n, all[m], Present)
    ensures var ss := Renamed(Flatten(gathered));
      forall k :: 0 <= k < |ss| ==> ss[k].name == CanonicalName(n)
  {
    var flat := Flatten(gathered);
    forall k | 0 <= k < |flat| ensures flat[k].name == n {
      assert flat[k] in flat;
      var m :| 0 <= m < |gathered| && flat[k] in gathered[m];
    }
  }

  lemma SingleNameYears(gathered: seq<seq<Sighting>>, all: seq<nat>, n: string)
    requires |gathered| == |all| && Distinct(all)
    requires forall m, s :: 0 <= m < |all| && s in gathered[m] ==> s == Sighting(n, all[m], Present)
    ensures var ss := Renamed(Flatten(gathered));
      forall m :: 0 <= m < |all| ==> (Seen(ss, CanonicalName(n), all[m]) <==> gathered[m] != [])
  {
    forall m | 0 <= m < |all| ensures Seen(Renamed(Flatten(gathered)), CanonicalName(n), all[m]) <==> gathered[m] != [] {
      if gathered[m] != [] {
        SeenWhenFound(gathered, all, n, m);
      }
      if Seen(Renamed(Flatten(gathered)), CanonicalName(n), all[m]) {
        FoundWhenSeen(gathered, all, n, m);
      }
    }
  }

  lemma SeenWhenFound(gathered: seq<seq<Sighting>>, all: seq<nat>, n: string, m: nat)
    requires |gathered| == |all| && m < |all| && gathered[m] != []
    requires forall s :: s in gathered[m] ==> s == Sighting(n, all[m], Present)
    ensures Seen(Renamed(Flatten(gathered)), CanonicalName(n), all[m])
  {
    var flat := Flatten(gathered);
    var s := gathered[m][0];
    assert s in gathered[m];
    assert s == Sighting(n, all[m], Present);
    var k := FlatIndex(gathered, m, s);
    var r := Renamed(flat);
    assert r[k] == s.(name := CanonicalName(n));
    assert r[k].name == CanonicalName(n) && r[k].year == all[m];
  }

  /** A position of `x` in the concatenation of `ss`, when `ss[m]` holds it. */
  lemma FlatIndex(ss: seq<seq<Sighting>>, m: nat, x: Sighting) returns (k: nat)
    requires m < |ss| && x in ss[m]
    ensures k < |Flatten(ss)| && Flatten(ss)[k] == x
  {
    assert x in Flatten(ss);
    k :| 0 <= k < |Flatten(ss)| && Flatten(ss)[k] == x;
  }

  lemma FoundWhenSeen(gathered: seq<seq<Sighting>>, all: seq<nat>, n: string, m: nat)
    requires |gathered| == |all| && Distinct(all) && m < |all|
    requires forall m, s :: 0 <= m < |all| && s in gathered[m] ==> s == Sighting(n, all[m], Present)
    requires Seen(Renamed(Flatten(gathered)), CanonicalName(n), all[m])
    ensures gathered[m] != []
  {
    var flat := Flatten(gathered);
    var ss := Renamed(flat);
    var k :| 0 <= k < |ss| && ss[k].name == CanonicalName(n) && ss[k].year == all[m];
    assert flat[k].year == all[m];
    assert flat[k] in flat;
    var m' :| 0 <= m' < |gathered| && flat[k] in gathered[m'];
    assert flat[k] == Sighting(n, all[m'], Present);
    assert m' == m;
    assert flat[k] in gathered[m];
  }

  /** A search for one name gives one line, named after it, exactly when some
      year's search found it, and none otherwise; the line's cell for a year
      is `Sim` exactly when that year's search found it and `Não` otherwise. */
  lemma SingleNameTable(detect: nat -> Result<seq<Sighting>>, all: seq<nat>, n: string)
    requires OnlyFinds(detect, n) && Distinct(all)
    requires SearchOf(detect, all).Ok?
    ensures OneLine(SearchOf(detect, all).value, CanonicalName(n), Finds(detect))
  {
    SearchShape(detect, all);
    var t := SearchOf(detect, all).value;
    SingleNameCells(t, Gather(detect, all).value, all, detect, n);
    FindsLine(t, CanonicalName(n), detect);
  }

  /** The facts `SingleNameCells` gives, read as `OneLine` over `Finds`. */
  lemma FindsLine(t: Table, c: string, detect: nat -> Result<seq<Sighting>>)
    requires Rectangular(t) && |t.lines| <= 1
    requires forall i :: 0 <= i < |t.lines| ==> t.lines[i].name == c
    requires forall i, j :: 0 <= i < |t.lines| && 0 <= j < |t.years| ==>
      (t.lines[i].cells[j] == Present <==> detect(t.years[j]).Ok? && detect(t.years[j]).value != [])
    requires |t.lines| == 1 <==> exists j :: 0 <= j < |t.years| && detect(t.years[j]).Ok? && detect(t.years[j]).value != []
    ensures OneLine(t, c, Finds(detect))
  {
    var found := Finds(detect);
    assert forall j :: 0 <= j < |t.years| ==> (found(t.years[j]) <==> detect(t.years[j]).Ok? && detect(t.years[j]).value != []);
  }

  /** One line, named `n`, when `found` holds for some year column and none
      otherwise; its mark for a year column is `Sim` exactly when `found`
      holds for that year. */
  predicate OneLine(t: Table, n: string, found: nat -> bool) {
    Rectangular(t) && |t.lines| <= 1
    && (|t.lines| == 1 <==> exists j :: 0 <= j < |t.years| && found(t.years[j]))
    && (forall i :: 0 <= i < |t.lines| ==> t.lines[i].name == n)
    && (forall i, j :: 0 <= i < |t.lines| && 0 <= j < |t.years| ==> (t.lines[i].cells[j] == Present <==> found(t.years[j])))
  }

  /** The years whose search succeeded with at least one sighting. */
  function Finds(detect: nat -> Result<seq<Sighting>>): nat -> bool {
    (y: nat) => detect(y).Ok? && detect(y).value != []
  }

  /** `SingleNameTable` for any faithful table of the gathered sightings. */
  lemma SingleNameCells(t: Table, gathered: seq<seq<Sighting>>, all: seq<nat>, detect: nat -> Result<seq<Sighting>>, n: string)
    requires OnlyFinds(detect, n) && Distinct(all) && |gathered| == |all|
    requires forall m :: 0 <= m < |all| ==> detect(all[m]).Ok? && gathered[m] == detect(all[m]).value
    requires Faithful(t, Renamed(Flatten(gathered))) && NamesMatch(t, Renamed(Flatten(gathered)))
    requires forall y :: y in t.years <==> y in all
    ensures |t.lines| <= 1
    ensures forall i :: 0 <= i < |t.lines| ==> t.lines[i].name == CanonicalName(n)
    ensures forall i, j :: 0 <= i < |t.lines| && 0 <= j < |t.years| ==>
      (t.lines[i].cells[j] == Present <==> detect(t.years[j]).Ok? && detect(t.years[j]).value != [])
    ensures |t.lines| == 1 <==> exists j :: 0 <= j < |t.years| && detect(t.years[j]).Ok? && detect(t.years[j]).value != []
  {
    var ss := Renamed(Flatten(gathered));
    var c := CanonicalName(n);
    assert (forall m :: 0 <= m < |all| ==> (Seen(ss, c, all[m]) <==> detect(all[m]).value != []))
        && (forall k :: 0 <= k < |ss| ==> ss[k].name == c) by {
      forall m, s | 0 <= m < |all| && s in gathered[m] ensures s == Sighting(n, all[m], Present) {
        assert gathered[m] == detect(all[m]).value;
      }
      SingleNameSeen(gathered, all, n);
    }
    SingleNameLines(t, ss, n);
    SightingYears(gathered, all);
    LineIffSeen(t, ss, c, all);
    forall j | 0 <= j < |t.years|
      ensures Seen(ss, c, t.years[j]) <==> detect(t.years[j]).Ok? && detect(t.years[j]).value != []
    {
      assert t.years[j] in t.years;
      var m :| 0 <= m < |all| && all[m] == t.years[j];
    }
  }

  /** Every sighting gathered for a year of `all` carries one of those years. */
  lemma SightingYears(gathered: seq<seq<Sighting>>, all: seq<nat>)
    requires |gathered| == |all|
    requires forall m, s :: 0 <= m < |all| && s in gathered[m] ==> s.year == all[m]
    ensures forall k :: 0 <= k < |Renamed(Flatten(gathered))| ==> Renamed(Flatten(gathered))[k].year in all
  {
    var flat := Flatten(gathered);
    forall k | 0 <= k < |flat| ensures flat[k].year in all {
      assert flat[k] in flat;
      var m :| 0 <= m < |gathered| && flat[k] in gathered[m];
    }
  }

  /** A table naming exactly the sightings, all of name `c` and of years in
      `all`, has a line exactly when `c` is seen in one of its years. */
  lemma LineIffSeen(t: Table, ss: seq<Sighting>, c: string, all: seq<nat>)
    requires NamesMatch(t, ss) && |t.lines| <= 1
    requires forall k :: 0 <= k < |ss| ==> ss[k].name == c && ss[k].year in all
    requires forall y :: y in t.years <==> y in all
    ensures |t.lines| == 1 <==> exists j :: 0 <= j < |t.years| && Seen(ss, c, t.years[j])
  {
    if j :| 0 <= j < |t.years| && Seen(ss, c, t.years[j]) {
      var k :| 0 <= k < |ss| && ss[k].name == c && ss[k].year == t.years[j];
      assert NamesIn(ss)[k] == c;
      assert c in NamesIn(ss);
      var i :| 0 <= i < |t.lines| && t.lines[i].name == c;
    }
    if |t.lines| == 1 {
      var k :| 0 <= k < |ss| && NamesIn(ss)[k] == t.lines[0].name;
      assert ss[k].year in t.years;
      var j :| 0 <= j < |t.years| && t.years[j] == ss[k].year;
      assert Seen(ss, c, t.years[j]);
    }
  }

  /** A faithful table of sightings that all carry one name has at most one
      line, named after it. */
  lemma SingleNameLines(t: Table, ss: seq<Sighting>, n: string)
    requires Faithful(t, ss) && NamesMatch(t, ss)
    requires forall k :: 0 <= k < |ss| ==> ss[k].name == CanonicalName(n)
    ensures |t.lines| <= 1
    ensures forall i :: 0 <= i < |t.lines| ==> t.lines[i].name == CanonicalName(n)
    ensures forall i, j :: 0 <= i < |t.lines| && 0 <= j < |t.years| ==>
      (t.lines[i].cells[j] == Present <==> Seen(ss, CanonicalName(n), t.years[j]))
  {

    forall i | 0 <= i < |t.lines| ensures t.lines[i].name == CanonicalName(n) {
      var k :| 0 <= k < |ss| && NamesIn(ss)[k] == t.lines[i].name;
    }
    FirstTwo(t.lines, CanonicalName(n));
  }

  lemma FirstTwo(lines: seq<Line>, c: string)
    requires forall i :: 0 <= i < |lines| ==> lines[i].name == c
    ensures |lines| > 1 ==> lines[0].name == c && lines[1].name == c
  {
  }

  /** The page's cycles, ascending and without repetition. */
  lemma YearsDistinctAscending()
    ensures Distinct(Years) && GenerateData.Ascending(Years)
  {
  }

  /** Some line of the year's file, read with `columns`, normalises to `name`. */
  predicate FoundCanonical(src: Source, year: nat, code: string, name: string, columns: Option<seq<Column>>) {
    Load(src, year, code, columns).Ok?
    && exists x :: x in Load(src, year, code, columns).value.rows && CanonicalName(x.name) == name
  }

  /** Some line of the year's file, read with `columns`, is spelt `name`. */
  predicate FoundRaw(src: Source, year: nat, code: string, name: string, columns: Option<seq<Column>>) {
    Load(src, year, code, columns).Ok?
    && exists x :: x in Load(src, year, code, columns).value.rows && x.name == name
  }

  function CanonicalFinder(src: Source, code: string, name: string, columns: Option<seq<Column>>): nat -> bool {
    (y: nat) => FoundCanonical(src, y, code, name, columns)
  }

  function RawFinder(src: Source, code: string, name: string, columns: Option<seq<Column>>): nat -> bool {
    (y: nat) => FoundRaw(src, y, code, name, columns)
  }

  /** The table a search for one name should show: a column per year of
      `all`, in that order; one line, named `n`, when `found` holds for some
      year of `all`, and no line otherwise; its mark for a year is `Sim`
      exactly when `found` holds for that year, `Não` otherwise. */
  predicate Shows(t: Table, n: string, all: seq<nat>, found: nat -> bool) {
    t.years == all && Rectangular(t) && |t.lines| <= 1
    && (|t.lines| == 1 <==> exists j :: 0 <= j < |all| && found(all[j]))
    && (forall i :: 0 <= i < |t.lines| ==> t.lines[i].name == n)
    && (forall i, j :: 0 <= i < |t.lines| && 0 <= j < |all| ==> (t.lines[i].cells[j] == Present <==> found(all[j])))
  }

  /** The corrected search over ascending distinct years: the year columns are
      those years; at most one line, named after the normalised name; a cell
      is `Sim` exactly when a line of that year normalises to the name. */
  lemma CanonicalSearch(src: Source, code: string, name: string, columns: Option<seq<Column>>, all: seq<nat>)
    requires name != "" && Distinct(all) && GenerateData.Ascending(all)
    requires SearchOf(CanonicalDetector(src, code, name, columns), all).Ok?
    ensures Shows(SearchOf(CanonicalDetector(src, code, name, columns), all).value, CanonicalName(name), all,
                  CanonicalFinder(src, code, name, columns))
  {
    var detect := CanonicalDetector(src, code, name, columns);
    CanonicalDetectorFinds(src, code, name, columns);
    DetectorsTagged(src, code, name, columns);
    SearchShape(detect, all);
    SingleNameTable(detect, all, name);
    var found := CanonicalFinder(src, code, name, columns);
    forall j | 0 <= j < |all| ensures Finds(detect)(all[j]) <==> found(all[j]) {
      assert detect(all[j]).Ok?;
    }
    ShowsOneLine(SearchOf(detect, all).value, CanonicalName(name), all, Finds(detect), found);
  }

  /** A table of the years `all` showing `OneLine` for one finder shows it for
      any finder that agrees with it on those years. */
  lemma ShowsOneLine(t: Table, c: string, all: seq<nat>, found: nat -> bool, other: nat -> bool)
    requires t.years == all && OneLine(t, c, found)
    requires forall j :: 0 <= j < |all| ==> (found(all[j]) <==> other(all[j]))
    ensures Shows(t, c, all, other)
  {
  }

  lemma CanonicalDetectorFinds(src: Source, code: string, name: string, columns: Option<seq<Column>>)
    requires name != ""
    ensures OnlyFinds(CanonicalDetector(src, code, name, columns), name)
    ensures forall y: nat :: DetectCanonical(src, y, code, name, columns).Ok? ==>
      (DetectCanonical(src, y, code, name, columns).value != [] <==> FoundCanonical(src, y, code, name, columns))
  {
    forall y: nat | DetectCanonical(src, y, code, name, columns).Ok?
      ensures forall s :: s in DetectCanonical(src, y, code, name, columns).value ==> s == Sighting(name, y, Present)
      ensures DetectCanonical(src, y, code, name, columns).value != [] <==> FoundCanonical(src, y, code, name, columns)
    {
      DetectCanonicalFinds(src, y, code, name, columns);
    }
  }

  /** The search as written over ascending distinct years: a cell is `Sim`
      exactly when a line of that year carries the raw name. */
  lemma AsWrittenSearch(src: Source, code: string, name: string, columns: Option<seq<Column>>, all: seq<nat>)
    requires name != "" && Distinct(all) && GenerateData.Ascending(all)
    requires SearchOf(Detector(src, code, name, columns), all).Ok?
    ensures Shows(SearchOf(Detector(src, code, name, columns), all).value, CanonicalName(CanonicalName(name)), all,
                  RawFinder(src, code, name, columns))
  {
    var detect := Detector(src, code, name, columns);
    DetectorFinds(src, code, name, columns);
    DetectorsTagged(src, code, name, columns);
    SearchShape(detect, all);
    SingleNameTable(detect, all, CanonicalName(name));
    var found := RawFinder(src, code, name, columns);
    forall j | 0 <= j < |all| ensures Finds(detect)(all[j]) <==> found(all[j]) {
      assert detect(all[j]).Ok?;
    }
    ShowsOneLine(SearchOf(detect, all).value, CanonicalName(CanonicalName(name)), all, Finds(detect), found);
  }

  lemma DetectorFinds(src: Source, code: string, name: string, columns: Option<seq<Column>>)
    requires name != ""
    ensures OnlyFinds(Detector(src, code, name, columns), CanonicalName(name))
    ensures forall y: nat :: Detect(src, y, code, name, columns).Ok? ==>
      (Detect(src, y, code, name, columns).value != [] <==> FoundRaw(src, y, code, name, columns))
  {
    forall y: nat | Detect(src, y, code, name, columns).Ok?
      ensures forall s :: s in Detect(src, y, code, name, columns).value ==> s == Sighting(CanonicalName(name), y, Present)
      ensures Detect(src, y, code, name, columns).value != [] <==> FoundRaw(src, y, code, name, columns)
    {
      DetectFinds(src, y, code, name, columns);
    }
  }

  /** `procurar_candidato` as written (raw-name filter). */
  function SearchAsWritten(src: Source, code: string, name: string): Result<Table> {
    SearchOf(Detector(src, code, name, None), Years)
  }

  /** `procurar_candidato` with the filter on normalised names. */
  function SearchCandidate(src: Source, code: string, name: string): Result<Table> {
    SearchOf(CanonicalDetector(src, code, name, None), Years)
  }

  /** The page's table for a name it offers: the columns are its cycles in
      order, and a name's mark for a cycle is `Sim` exactly when a line of
      that cycle's file normalises to the name. */
  lemma CandidatePresence(src: Source, code: string, name: string)
    requires name != "" && SearchCandidate(src, code, name).Ok?
    ensures Shows(SearchCandidate(src, code, name).value, CanonicalName(name), Years, CanonicalFinder(src, code, name, None))
  {
    YearsDistinctAscending();
    CanonicalSearch(src, code, name, None, Years);
  }

  /** The table as written marks `Sim` only where a line carries the raw
      name, so a cycle that spells the candidate with the alias shows `Não`. */
  lemma PresenceAsWritten(src: Source, code: string, name: string)
    requires name != "" && SearchAsWritten(src, code, name).Ok?
    ensures Shows(SearchAsWritten(src, code, name).value, CanonicalName(CanonicalName(name)), Years, RawFinder(src, code, name, None))
  {
    YearsDistinctAscending();
    AsWrittenSearch(src, code, name, None, Years);
  }
}
