/** The export page: loading the selected years of one state with the four
    optional filters, the lists offered by the filter widgets, the export
    filename and the displayed vote total. */
module GenerateData {
  import opened Seqs
  import Text
  import opened Frames

  /** The year choices of the page: 2024 down to 2016 in steps of two. */
  const YearChoices: seq<nat> := [2024, 2022, 2020, 2018, 2016]

  // ---------------------------------------------------------------------------
  // load_data

  /** One year of one state, optionally projected, with the literal year column
      and the four filters applied in the order neighbourhood, party,
      candidate, municipality. */
  function LoadData(src: Source, year: nat, code: string, spec: FilterSpec,
                    columns: Option<seq<Column>>): (r: Result<Frame>)
    ensures r.Ok? <==> Load(src, year, code, columns).Ok?
                       && HasFilterColumns(spec, Load(src, year, code, columns).value.columns)
    ensures r.Ok? ==> r.value == Frame(Load(src, year, code, columns).value.columns,
                                       Passing(Load(src, year, code, columns).value.rows, spec))
  {
    match Load(src, year, code, columns)
    case Err(e) => Err(e)
    case Ok(f) =>
      FiltersAreConjunction(f, spec);
      ApplyFilters(f, spec)
  }

  /** The rows of one year's load are exactly the loaded rows that pass the
      filters, in their order, and all carry the requested year. */
  lemma LoadDataRows(src: Source, year: nat, code: string, spec: FilterSpec, columns: Option<seq<Column>>)
    requires LoadData(src, year, code, spec, columns).Ok?
    ensures var rows, loaded := LoadData(src, year, code, spec, columns).value.rows,
                                Load(src, year, code, columns).value.rows;
      && (forall x :: x in rows <==> x in loaded && Passes(spec, x))
      && SubseqOf(rows, loaded)
      && (forall x :: x in rows ==> x.year == year)
  {
    var f := Load(src, year, code, columns).value;
    FiltersAreConjunction(f, spec);
    LoadYear(src, year, code, columns);
  }

  /** One year's load as the loops see it: the year's rows, or the error
      that ends the loop. */
  type YearLoader = nat -> Result<seq<Record>>

  function RowsOf(r: Result<Frame>): Result<seq<Record>> {
    match r
    case Err(e) => Err(e)
    case Ok(f) => Ok(f.rows)
  }

  /** `load_data` for a fixed state, filters and projection, as a function of
      the year. */
  function Loader(src: Source, code: string, spec: FilterSpec, columns: Option<seq<Column>>): YearLoader {
    (y: nat) => RowsOf(LoadData(src, y, code, spec, columns))
  }

  /** Every row a loader gives for a year carries that year and passes the
      filters. */
  ghost predicate Tags(load: YearLoader, spec: FilterSpec) {
    forall y: nat, x :: load(y).Ok? && x in load(y).value ==> x.year == y && Passes(spec, x)
  }

  lemma LoaderTags(src: Source, code: string, spec: FilterSpec, columns: Option<seq<Column>>)
    ensures Tags(Loader(src, code, spec, columns), spec)
  {
    var load := Loader(src, code, spec, columns);
    forall y: nat, x | load(y).Ok? && x in load(y).value ensures x.year == y && Passes(spec, x) {
      LoadDataRows(src, y, code, spec, columns);
    }
  }

  /** The years' loads in order, stopping at the first failure: the list of
      frames a loop over the years builds. */
  function LoadAll(load: YearLoader, years: seq<nat>): (r: Result<seq<seq<Record>>>)
    ensures r.Ok? <==> forall i :: 0 <= i < |years| ==> load(years[i]).Ok?
    ensures r.Ok? ==> |r.value| == |years| && forall i :: 0 <= i < |years| ==> r.value[i] == load(years[i]).value
  {
    if years == [] then Ok([])
    else
      var front := years[..|years| - 1];
      assert forall i :: 0 <= i < |front| ==> front[i] == years[i];
      match LoadAll(load, front)
      case Err(e) => Err(e)
      case Ok(dfs) =>
        match load(years[|years| - 1])
        case Err(e) => Err(e)
        case Ok(rows) => Ok(dfs + [rows])
  }

  /** Once a prefix of the years fails, the whole list fails with the same
      error: the loop stops at the first failing year. */
  lemma {:induction false} FirstFailureStops(load: YearLoader, years: seq<nat>, k: nat)
    requires k <= |years| && LoadAll(load, years[..k]).Err?
    ensures LoadAll(load, years) == LoadAll(load, years[..k])
    decreases |years| - k
  {
    if k < |years| {
      var n := |years| - 1;
      assert years[..n][..k] == years[..k];
      FirstFailureStops(load, years[..n], k);
    } else {
      assert years[..k] == years;
    }
  }

  /** The loop of both loaders: each year's frame appended to `dfs` in turn;
      a failing year ends the loop with its error. */
  method LoadYears(load: YearLoader, years: seq<nat>) returns (r: Result<seq<seq<Record>>>)
    ensures r == LoadAll(load, years)
  {
    var dfs: seq<seq<Record>> := [];
    var i := 0;
    while i < |years|
      invariant 0 <= i <= |years|
      invariant LoadAll(load, years[..i]) == Ok(dfs)
    {
      var d := load(years[i]);
      assert years[..i + 1][..i] == years[..i];
      if d.Err? {
        FirstFailureStops(load, years, i + 1);
        return Err(d.error);
      }
      dfs := dfs + [d.value];
      i := i + 1;
    }
    assert years[..i] == years;
    r := Ok(dfs);
  }

  /** Every row of a successful multi-year load belongs to one of the years
      and passes the filters. */
  lemma LoadAllRows(load: YearLoader, spec: FilterSpec, years: seq<nat>)
    requires Tags(load, spec) && LoadAll(load, years).Ok?
    ensures forall x :: x in Flatten(LoadAll(load, years).value) ==> x.year in years && Passes(spec, x)
  {
    var dfs: seq<seq<Record>> := LoadAll(load, years).value;
    forall x: Record | x in Flatten(dfs) ensures x.year in years && Passes(spec, x) {
      var i :| 0 <= i < |dfs| && x in dfs[i];
      assert x in load(years[i]).value;
    }
  }

  /** Rows whose years never decrease. */
  predicate YearOrdered(rows: seq<Record>) {
    forall i, j :: 0 <= i < j < |rows| ==> rows[i].year <= rows[j].year
  }

  lemma OrderedConcat(head: seq<Record>, last: seq<Record>, y: int)
    requires YearOrdered(head)
    requires forall x :: x in head ==> x.year <= y
    requires forall x :: x in last ==> x.year == y
    ensures YearOrdered(head + last)
  {
    var rows := head + last;
    forall i, j | 0 <= i < j < |rows| ensures rows[i].year <= rows[j].year {
      if j >= |head| {
        assert rows[j] == last[j - |head|];
        if i >= |head| {
          assert rows[i] == last[i - |head|];
        } else {
          assert rows[i] == head[i];
        }
      } else {
        assert rows[i] == head[i] && rows[j] == head[j];
      }
    }
  }

  /** With the years in ascending order, the concatenated rows come year by
      year in that order. */
  lemma {:induction false} LoadAllInOrder(load: YearLoader, spec: FilterSpec, years: seq<nat>)
    requires Tags(load, spec) && Ascending(years) && LoadAll(load, years).Ok?
    ensures YearOrdered(Flatten(LoadAll(load, years).value))
    decreases |years|
  {
    if years != [] {
      var n := |years| - 1;
      var front := years[..n];
      assert Ascending(front);
      LoadAllLast(load, years);
      LoadAllInOrder(load, spec, front);
      BelowLast(load, spec, years);
      OrderedConcat(Flatten(LoadAll(load, front).value), load(years[n]).value, years[n]);
    }
  }

  /** The rows of every year before the last come from no later year. */
  lemma BelowLast(load: YearLoader, spec: FilterSpec, years: seq<nat>)
    requires Tags(load, spec) && Ascending(years) && years != []
    requires LoadAll(load, years[..|years| - 1]).Ok?
    ensures forall x :: x in Flatten(LoadAll(load, years[..|years| - 1]).value) ==> x.year <= years[|years| - 1]
  {
    var front := years[..|years| - 1];
    LoadAllRows(load, spec, front);
    forall x | x in Flatten(LoadAll(load, front).value) ensures x.year <= years[|years| - 1] {
      var k :| 0 <= k < |front| && front[k] == x.year;
      assert front[k] == years[k];
    }
  }

  /** A successful load of the years is the load of all but the last, then the last. */
  lemma LoadAllLast(load: YearLoader, years: seq<nat>)
    requires years != [] && LoadAll(load, years).Ok?
    ensures LoadAll(load, years[..|years| - 1]).Ok?
    ensures Flatten(LoadAll(load, years).value)
      == Flatten(LoadAll(load, years[..|years| - 1]).value) + load(years[|years| - 1]).value
  {
    var n := |years| - 1;
    var dfs: seq<seq<Record>> := LoadAll(load, years).value;
    var fdfs: seq<seq<Record>> := LoadAll(load, years[..n]).value;
    assert dfs == fdfs + [dfs[n]];
    assert dfs[..n] == fdfs;
  }

  // ---------------------------------------------------------------------------
  // Year order

  predicate Ascending(s: seq<nat>) {
    forall i, j :: 0 <= i < j < |s| ==> s[i] <= s[j]
  }

  function InsertYear(y: nat, s: seq<nat>): (r: seq<nat>)
    requires Ascending(s)
    ensures Ascending(r)
    ensures multiset(r) == multiset(s) + multiset{y}
  {
    if s == [] then [y]
    else if y <= s[0] then [y] + s
    else
      assert Ascending(s[1..]) by {
        forall i, j | 0 <= i < j < |s| - 1 ensures s[1..][i] <= s[1..][j] {
          assert s[1..][i] == s[i + 1] && s[1..][j] == s[j + 1];
        }
      }
      var t := InsertYear(y, s[1..]);
      AboveHead(y, s, t);
      ConsAscending(s[0], t);
      assert s == [s[0]] + s[1..];
      [s[0]] + t
  }

  lemma AboveHead(y: nat, s: seq<nat>, t: seq<nat>)
    requires s != [] && Ascending(s) && s[0] < y
    requires multiset(t) == multiset(s[1..]) + multiset{y}
    ensures forall j :: 0 <= j < |t| ==> s[0] <= t[j]
  {
    forall j | 0 <= j < |t| ensures s[0] <= t[j] {
      assert t[j] in multiset(t);
      if t[j] != y {
        assert t[j] in multiset(s[1..]);
        var i :| 0 <= i < |s[1..]| && s[1..][i] == t[j];
        assert s[i + 1] == t[j];
      }
    }
  }

  lemma ConsAscending(h: nat, t: seq<nat>)
    requires Ascending(t)
    requires forall j :: 0 <= j < |t| ==> h <= t[j]
    ensures Ascending([h] + t)
  {
    var r := [h] + t;
    forall i, j | 0 <= i < j < |r| ensures r[i] <= r[j] {
      assert r[j] == t[j - 1];
      if i > 0 {
        assert r[i] == t[i - 1];
      }
    }
  }

  /** `sorted(anos_select)`: the selected years in ascending order. */
  function SortYears(ys: seq<nat>): (r: seq<nat>)
    ensures Ascending(r)
    ensures multiset(r) == multiset(ys)
  {
    if ys == [] then []
    else
      assert ys == ys[..|ys| - 1] + [ys[|ys| - 1]];
      InsertYear(ys[|ys| - 1], SortYears(ys[..|ys| - 1]))
  }

  /** The years as the page holds them: their decimal texts. */
  function YearTexts(ys: seq<nat>): (r: seq<string>)
    ensures |r| == |ys|
    ensures forall i :: 0 <= i < |ys| ==> r[i] == Text.Digits(ys[i])
  {
    seq(|ys|, i requires 0 <= i < |ys| => Text.Digits(ys[i]))
  }

  /** The page sorts the year texts; for four-digit years, sorting the numbers
      puts the texts in the same order. */
  lemma SortedYearTexts(ys: seq<nat>)
    requires forall y :: y in ys ==> 1000 <= y <= 9999
    ensures var t := YearTexts(SortYears(ys));
      forall i, j :: 0 <= i < j < |t| ==> !Text.Less(t[j], t[i])
  {
    var s := SortYears(ys);
    var t := YearTexts(s);
    forall i, j | 0 <= i < j < |t| ensures !Text.Less(t[j], t[i]) {
      var a, b := s[i], s[j];
      assert a <= b;
      assert a in multiset(ys) && b in multiset(ys);
      assert a in ys && b in ys;
      TextOrder(a, b);
      assert t[i] == Text.Digits(a) && t[j] == Text.Digits(b);
    }
  }

  lemma TextOrder(a: nat, b: nat)
    requires 1000 <= a <= b <= 9999
    ensures !Text.Less(Text.Digits(b), Text.Digits(a))
  {
    Text.FourDigitOrder(b, a);
  }

  // ---------------------------------------------------------------------------
  // generate_filename

  /** `' e '.join(xs)`. */
  function Joined(xs: seq<string>): string {
    Text.Join(xs, " e ")
  }

  /** The part one filter list contributes: none when it is empty. */
  function Part(xs: seq<string>): (r: seq<string>)
    ensures xs == [] <==> r == []
    ensures |r| <= 1
  {
    if xs == [] then [] else [Joined(xs)]
  }

  /** The party part, in parentheses. */
  function PartyPart(xs: seq<string>): (r: seq<string>)
    ensures xs == [] <==> r == []
    ensures |r| <= 1
  {
    if xs == [] then [] else ["(" + Joined(xs) + ")"]
  }

  /** The filter parts of a filename: neighbourhoods, municipalities,
      candidates, parties. */
  function FilterParts(spec: FilterSpec): seq<string> {
    Part(spec.neighborhoods) + Part(spec.municipalities) + Part(spec.candidates) + PartyPart(spec.parties)
  }

  /** `ELEIÇÕES <years> <state>`. */
  function Stem(years: seq<string>, code: string): string {
    "ELEIÇÕES " + Joined(years) + " " + code
  }

  /** The export filename. */
  function Filename(years: seq<string>, code: string, spec: FilterSpec): string {
    var parts := FilterParts(spec);
    Stem(years, code) + (if parts == [] then "" else " " + Text.Join(parts, " - ")) + ".xlsx"
  }

  /** `generate_filename`: the non-empty lists are appended to `params` one
      after the other, then the name is assembled. */
  method GenerateFilename(years: seq<string>, code: string, spec: FilterSpec) returns (name: string)
    requires years != []
    ensures name == Filename(years, code, spec)
  {
    var params: seq<string> := [];
    var yearList := Joined(years);
    if spec.neighborhoods != [] {
      params := params + [Joined(spec.neighborhoods)];
    }
    if spec.municipalities != [] {
      params := params + [Joined(spec.municipalities)];
    }
    if spec.candidates != [] {
      params := params + [Joined(spec.candidates)];
    }
    if spec.parties != [] {
      params := params + ["(" + Joined(spec.parties) + ")"];
    }
    assert params == FilterParts(spec);
    name := "ELEIÇÕES " + yearList + " " + code;
    if params != [] {
      name := name + " " + Text.Join(params, " - ");
    }
    name := name + ".xlsx";
  }

  /** One part per non-empty list, and no part at all when every list is
      empty. */
  lemma FilterPartsCount(spec: FilterSpec)
    ensures |FilterParts(spec)| ==
      (if spec.neighborhoods == [] then 0 else 1) + (if spec.municipalities == [] then 0 else 1)
      + (if spec.candidates == [] then 0 else 1) + (if spec.parties == [] then 0 else 1)
    ensures FilterParts(spec) == [] <==> spec == NoFilters
  {
  }

  /** With parties selected the last part is the parenthesised party list. */
  lemma PartyPartLast(spec: FilterSpec)
    requires spec.parties != []
    ensures var parts := FilterParts(spec);
      |parts| > 0 && parts[|parts| - 1] == "(" + Joined(spec.parties) + ")"
  {
  }

  /** The filename starts with the stem and ends with `.xlsx`; with no filter
      it is exactly the stem and the extension. */
  lemma FilenameShape(years: seq<string>, code: string, spec: FilterSpec)
    ensures var n, s := Filename(years, code, spec), Stem(years, code);
      && |n| >= |s| + 5
      && n[..|s|] == s
      && n[|n| - 5..] == ".xlsx"
      && (spec == NoFilters ==> n == s + ".xlsx")
  {
    var parts := FilterParts(spec);
    var s := Stem(years, code);
    var mid: string := if parts == [] then "" else " " + Text.Join(parts, " - ");
    var n := Filename(years, code, spec);
    assert n == s + mid + ".xlsx";
    assert n[..|s|] == s;
    assert n[|n| - 5..] == ".xlsx";
  }

  // ---------------------------------------------------------------------------
  // load_filter_options

  /** The columns the filter widgets are filled from. */
  const OptionColumns: seq<Column> := [Neighborhood, Municipality, Party, Name]

  /** The choices offered by the four filter widgets. */
  datatype Options = Options(neighborhoods: seq<string>, municipalities: seq<string>,
                             parties: seq<string>, candidates: seq<string>)

  /** The values of one text column, row by row. */
  function Values(rows: seq<Record>, c: Column): (r: seq<string>)
    ensures forall x :: x in r <==> exists row :: row in rows && Field(row, c) == x
  {
    if rows == [] then [] else [Field(rows[0], c)] + Values(rows[1..], c)
  }

  /** The loader of the filter widgets: the four option columns, no filter. */
  function OptionLoader(src: Source, code: string): YearLoader {
    Loader(src, code, NoFilters, Some(OptionColumns))
  }

  /** `sorted(column.unique())`: the distinct values of one column, in
      increasing order. */
  function Choices(rows: seq<Record>, c: Column): (r: seq<string>)
    ensures Text.StrictlySorted(r)
    ensures forall x :: x in r <==> exists row :: row in rows && Field(row, c) == x
  {
    Text.SortedUnique(Values(rows, c))
  }

  /** The four option lists over the years a loader gives: `None` when no
      year is selected or a year fails to load, otherwise the sorted distinct
      values of each column over all the years' rows. */
  function OptionsOf(load: YearLoader, years: seq<nat>): (r: Option<Options>)
    ensures r.Some? <==> years != [] && LoadAll(load, years).Ok?
    ensures r.Some? ==>
      var rows := Flatten(LoadAll(load, years).value);
      r.value == Options(Choices(rows, Neighborhood), Choices(rows, Municipality),
                         Choices(rows, Party), Choices(rows, Name))
  {
    match LoadAll(load, years)
    case Err(_) => None
    case Ok(dfs) =>
      if dfs == [] then None
      else
        var rows := Flatten(dfs);
        Some(Options(Choices(rows, Neighborhood), Choices(rows, Municipality),
                     Choices(rows, Party), Choices(rows, Name)))
  }

  /** What `load_filter_options` returns for a selection. */
  function FilterOptions(src: Source, years: seq<nat>, code: string): Option<Options> {
    OptionsOf(OptionLoader(src, code), years)
  }

  /** `load_filter_options`: one projected load per year, appended to a list,
      then concatenated; any failure, including concatenating no frame at all,
      gives `None`. */
  method LoadFilterOptions(src: Source, years: seq<nat>, code: string) returns (r: Option<Options>)
    ensures r == FilterOptions(src, years, code)
  {
    var loaded := LoadYears(OptionLoader(src, code), years);
    if loaded.Err? {
      return None;
    }
    var dfs := loaded.value;
    if dfs == [] {
      return None;
    }
    var rows := Flatten(dfs);
    r := Some(Options(Choices(rows, Neighborhood), Choices(rows, Municipality),
                      Choices(rows, Party), Choices(rows, Name)));
  }

  lemma OptionColumnsLoad()
    ensures LoadedColumns(Some(OptionColumns)).Ok?
  {
    assert Project(OptionColumns).Ok?;
  }

  /** A projected load whose columns exist succeeds exactly when the file can
      be fetched. */
  lemma ProjectedLoad(src: Source, y: nat, code: string, spec: FilterSpec, columns: Option<seq<Column>>)
    requires LoadedColumns(columns).Ok? && HasFilterColumns(spec, LoadedColumns(columns).value)
    ensures Loader(src, code, spec, columns)(y).Ok? <==> Fetch(src, y, code).Ok?
  {
    assert Loader(src, code, spec, columns)(y) == RowsOf(LoadData(src, y, code, spec, columns));
  }

  /** A year's projected option load and its full filtered load succeed
      together: both fetch the same file. */
  lemma SameFetch(src: Source, y: nat, code: string, spec: FilterSpec)
    ensures OptionLoader(src, code)(y).Ok? <==> Fetch(src, y, code).Ok?
    ensures Loader(src, code, spec, None)(y).Ok? <==> Fetch(src, y, code).Ok?
  {
    OptionColumnsLoad();
    ProjectedLoad(src, y, code, NoFilters, Some(OptionColumns));
    ProjectedLoad(src, y, code, spec, None);
  }

  /** The option lists fail exactly when the unfiltered load of the same
      selection fails: both fetch the same files. */
  lemma OptionsFailWithLoad(src: Source, years: seq<nat>, code: string, spec: FilterSpec)
    requires years != []
    ensures FilterOptions(src, years, code).None? <==> LoadAll(Loader(src, code, spec, None), years).Err?
  {
    forall i | 0 <= i < |years|
      ensures OptionLoader(src, code)(years[i]).Ok? <==> Loader(src, code, spec, None)(years[i]).Ok?
    {
      SameFetch(src, years[i], code, spec);
    }
  }

  // ---------------------------------------------------------------------------
  // The load handler

  /** What the page shows after loading: the concatenated frame, the export
      filename, the vote total and its text. */
  datatype Export = Export(frame: Frame, filename: string, total: int, totalText: string)

  /** What the page shows once every year has loaded: the concatenated frame,
      the filename of the sorted years and the total of `Votos`. */
  function Assemble(sorted: seq<nat>, code: string, spec: FilterSpec, dfs: seq<seq<Record>>): Export {
    var rows := Flatten(dfs);
    var total := VoteSum(rows, Every());
    Export(Frame(CsvColumns + [Year], rows), Filename(YearTexts(sorted), code, spec),
           total, Text.VoteTotalText(total))
  }

  /** The handler body over any year loader, once the four filter values are
      bound: the empty-selection warning, then the sorted years loaded in
      turn, where a failing year ends it with its error. */
  function Handle(load: YearLoader, years: seq<nat>, code: string, spec: FilterSpec): Result<Export>
  {
    if years == [] || code == [] then Err(EmptySelection)
    else
      match LoadAll(load, SortYears(years))
      case Err(e) => Err(e)
      case Ok(dfs) => Ok(Assemble(SortYears(years), code, spec, dfs))
  }

  /** The page after the load button: the empty-selection warning; then, when
      the filter options could not be loaded, the filter values were never
      bound and the first use of one raises `NameError`; otherwise the
      handler with `load_data` as the year loader. */
  function Selection(src: Source, years: seq<nat>, code: string, spec: FilterSpec): Result<Export>
  {
    if years == [] || code == [] then Err(EmptySelection)
    else if FilterOptions(src, years, code).None? then Err(UnboundFilters)
    else Handle(Loader(src, code, spec, None), years, code, spec)
  }

  /** The page run: the filter options are loaded first; after the button, the
      years are sorted, one load per year appended to `dfs`, then the filename,
      the concatenation and the vote total. */
  method LoadSelection(src: Source, years: seq<nat>, code: string, spec: FilterSpec)
    returns (r: Result<Export>)
    ensures r == Selection(src, years, code, spec)
  {
    var options := LoadFilterOptions(src, years, code);
    var load := Loader(src, code, spec, None);
    if years == [] || code == [] {
      return Err(EmptySelection);
    }
    if options.None? {
      return Err(UnboundFilters);
    }
    var sorted := SortYears(years);
    var loaded := LoadYears(load, sorted);
    HandleOutcome(load, years, code, spec);
    if loaded.Err? {
      return Err(loaded.error);
    }
    var dfs := loaded.value;
    var filename := GenerateFilename(YearTexts(sorted), code, spec);
    var rows := Flatten(dfs);
    var total := VoteSum(rows, Every());
    r := Ok(Export(Frame(CsvColumns + [Year], rows), filename, total, Text.VoteTotalText(total)));
  }

  /** With something selected, the handler fails exactly when a selected year
      fails to load, and then with the error of the earliest such year, the
      first failure of the loop over the sorted years; otherwise it shows the
      export of the sorted years' frames. */
  lemma HandleOutcome(load: YearLoader, years: seq<nat>, code: string, spec: FilterSpec)
    requires years != [] && code != []
    ensures Handle(load, years, code, spec).Err? <==> exists y :: y in years && load(y).Err?
    ensures Handle(load, years, code, spec).Err? ==>
      exists y :: y in years && load(y).Err? && Handle(load, years, code, spec).error == load(y).error
                  && forall z :: z in years && z < y ==> load(z).Ok?
    ensures LoadAll(load, SortYears(years)).Ok? ==>
      Handle(load, years, code, spec) == Ok(Assemble(SortYears(years), code, spec, LoadAll(load, SortYears(years)).value))
  {
    var sorted := SortYears(years);
    SortedFails(load, years, sorted);
    if LoadAll(load, sorted).Err? {
      EarliestFailure(load, years, sorted);
    }
  }

  /** Loading a reordering of the years fails exactly when one of them fails
      to load. */
  lemma SortedFails(load: YearLoader, years: seq<nat>, sorted: seq<nat>)
    requires multiset(sorted) == multiset(years)
    ensures LoadAll(load, sorted).Err? <==> exists y :: y in years && load(y).Err?
  {
    if exists y :: y in years && load(y).Err? {
      var y :| y in years && load(y).Err?;
      assert y in multiset(sorted);
      var k :| 0 <= k < |sorted| && sorted[k] == y;
    } else {
      forall k | 0 <= k < |sorted| ensures load(sorted[k]).Ok? {
        assert sorted[k] in multiset(years);
      }
    }
  }

  /** Loading the years in ascending order fails with the error of the
      earliest year that fails. */
  lemma EarliestFailure(load: YearLoader, years: seq<nat>, sorted: seq<nat>)
    requires multiset(sorted) == multiset(years) && Ascending(sorted)
    requires LoadAll(load, sorted).Err?
    ensures exists y :: y in years && load(y).Err? && LoadAll(load, sorted).error == load(y).error
                        && forall z :: z in years && z < y ==> load(z).Ok?
  {
    var i := FirstError(load, sorted);
    assert sorted[i] in multiset(years);
    forall z | z in years && z < sorted[i] ensures load(z).Ok? {
      assert z in multiset(sorted);
      var k :| 0 <= k < |sorted| && sorted[k] == z;
    }
  }

  /** A failing load of a year list fails with the error of its first failing
      year. */
  lemma {:induction false} FirstError(load: YearLoader, years: seq<nat>) returns (i: nat)
    requires LoadAll(load, years).Err?
    ensures i < |years| && load(years[i]).Err? && LoadAll(load, years).error == load(years[i]).error
    ensures forall k :: 0 <= k < i ==> load(years[k]).Ok?
  {
    var front := years[..|years| - 1];
    if LoadAll(load, front).Err? {
      i := FirstError(load, front);
      assert years[i] == front[i];
      assert forall k :: 0 <= k < i ==> years[k] == front[k];
    } else {
      i := |years| - 1;
      assert forall k :: 0 <= k < i ==> years[k] == front[k];
    }
  }

  /** A successful load: its rows pass the filters, belong to the selected
      years and come year by year in ascending order, and the displayed text
      reads back as the total of their votes. */
  lemma SelectionContents(src: Source, years: seq<nat>, code: string, spec: FilterSpec)
    requires Selection(src, years, code, spec).Ok?
    ensures var e := Selection(src, years, code, spec).value;
      && (forall x :: x in e.frame.rows ==> x.year in years && Passes(spec, x))
      && (forall i, j :: 0 <= i < j < |e.frame.rows| ==> e.frame.rows[i].year <= e.frame.rows[j].year)
      && Text.ParseVoteTotal(e.totalText) == Some(VoteSum(e.frame.rows, Every()))
  {
    var load := Loader(src, code, spec, None);
    assert Selection(src, years, code, spec) == Handle(load, years, code, spec);
    LoaderTags(src, code, spec, None);
    HandleContents(load, spec, years, code);
  }

  lemma HandleContents(load: YearLoader, spec: FilterSpec, years: seq<nat>, code: string)
    requires Tags(load, spec) && Handle(load, years, code, spec).Ok?
    ensures var e := Handle(load, years, code, spec).value;
      && (forall x :: x in e.frame.rows ==> x.year in years && Passes(spec, x))
      && (forall i, j :: 0 <= i < j < |e.frame.rows| ==> e.frame.rows[i].year <= e.frame.rows[j].year)
      && Text.ParseVoteTotal(e.totalText) == Some(VoteSum(e.frame.rows, Every()))
  {
    var sorted := SortYears(years);
    var dfs := LoadAll(load, sorted).value;
    var e := Handle(load, years, code, spec).value;
    assert e == Assemble(sorted, code, spec, dfs);
    AssembledRows(load, spec, years, sorted, dfs, e);
    Text.VoteTotalRoundTrip(e.total);
  }

  lemma AssembledRows(load: YearLoader, spec: FilterSpec, years: seq<nat>, sorted: seq<nat>,
                      dfs: seq<seq<Record>>, e: Export)
    requires Tags(load, spec) && sorted == SortYears(years)
    requires LoadAll(load, sorted) == Ok(dfs) && e.frame.rows == Flatten(dfs)
    ensures forall x :: x in e.frame.rows ==> x.year in years && Passes(spec, x)
    ensures YearOrdered(e.frame.rows)
  {
    LoadAllRows(load, spec, sorted);
    LoadAllInOrder(load, spec, sorted);
    forall x | x in e.frame.rows ensures x.year in years {
      assert x.year in multiset(sorted);
    }
  }

  /** The page fails exactly when nothing is selected or one of the selected
      years cannot be fetched; in the second case the error shown is the
      `NameError` of the never-bound filter values. */
  lemma SelectionFails(src: Source, years: seq<nat>, code: string, spec: FilterSpec)
    ensures Selection(src, years, code, spec).Err? <==>
      years == [] || code == [] || exists y :: y in years && Fetch(src, y, code).Err?
    ensures Selection(src, years, code, spec).Err? ==>
      Selection(src, years, code, spec).error == if years == [] || code == [] then EmptySelection else UnboundFilters
  {
    if years != [] && code != [] {
      var load := Loader(src, code, spec, None);
      OptionsFailWithLoad(src, years, code, spec);
      if exists y :: y in years && Fetch(src, y, code).Err? {
        var y :| y in years && Fetch(src, y, code).Err?;
        var i :| 0 <= i < |years| && years[i] == y;
        SameFetch(src, y, code, spec);
      } else {
        forall i | 0 <= i < |years| ensures load(years[i]).Ok? {
          SameFetch(src, years[i], code, spec);
        }
        AllYearsLoad(src, years, code, spec);
      }
    }
  }

  /** When every selected year loads, so do the sorted years. */
  lemma AllYearsLoad(src: Source, years: seq<nat>, code: string, spec: FilterSpec)
    requires LoadAll(Loader(src, code, spec, None), years).Ok?
    ensures LoadAll(Loader(src, code, spec, None), SortYears(years)).Ok?
  {
    var load := Loader(src, code, spec, None);
    var sorted := SortYears(years);
    forall i | 0 <= i < |sorted| ensures load(sorted[i]).Ok? {
      assert sorted[i] in multiset(years);
      var j :| 0 <= j < |years| && years[j] == sorted[i];
    }
  }
}
