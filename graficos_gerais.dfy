/** The general chart page: every cycle of one state loaded and normalised,
    then, for one candidate, the votes per cycle and the top neighbourhoods,
    top municipalities and votes per office over the selected cycles. */
module GeneralCharts {
  import opened Seqs
  import Text
  import opened Frames
  import opened Aggregate
  import GenerateData

  /** The cycles the page loads, in loading order (`anos`). */
  const Years: seq<nat> := [2016, 2018, 2020, 2022, 2024]

  // ---------------------------------------------------------------------------
  // Normalisation

  /** One row of `normalize_data`: the alias rewritten in the name, the office
      upper-cased. */
  function NormalizeRow(r: Record): Record {
    r.(name := CanonicalName(r.name), office := Text.Upper(r.office))
  }

  function NormalizeRows(rows: seq<Record>): (res: seq<Record>)
    ensures |res| == |rows|
    ensures forall i :: 0 <= i < |rows| ==> res[i] == NormalizeRow(rows[i])
  {
    if rows == [] then [] else [NormalizeRow(rows[0])] + NormalizeRows(rows[1..])
  }

  /** `normalize_data`: rewrites the name and office columns, which must be
      present; the columns, the number of rows and every other field stay. */
  function Normalize(f: Frame): (r: Result<Frame>)
    ensures r.Ok? <==> Name in f.columns && Office in f.columns
    ensures r.Err? ==> r.error == MissingColumn
    ensures r.Ok? ==> r.value.columns == f.columns && |r.value.rows| == |f.rows|
    ensures r.Ok? ==> forall i :: 0 <= i < |f.rows| ==>
      var a, b := f.rows[i], r.value.rows[i];
      b.party == a.party && b.municipality == a.municipality && b.neighborhood == a.neighborhood
      && b.votes == a.votes && b.year == a.year && Text.IsUpper(b.office)
  {
    if Name in f.columns && Office in f.columns then Ok(Frame(f.columns, NormalizeRows(f.rows)))
    else Err(MissingColumn)
  }

  /** A second normalisation leaves the office as the first left it, and the
      whole row too when the first pass left no alias in the name. */
  lemma NormalizeTwice(r: Record)
    ensures NormalizeRow(NormalizeRow(r)).office == NormalizeRow(r).office
    ensures (forall j: nat :: !Text.OccursAt(NormalizeRow(r).name, Junior, j)) ==>
      NormalizeRow(NormalizeRow(r)) == NormalizeRow(r)
  {
    Text.UpperIdempotent(r.office);
  }

  /** A name holding the alias twice loses one suffix per normalisation, so the
      page's second pass changes it again. */
  lemma NormalizeTwiceChangesName(r: Record)
    requires r.name == Junior + " JR"
    ensures NormalizeRow(r).name == Junior
    ensures NormalizeRow(NormalizeRow(r)).name == Canonical
  {
    CanonicalNameNotIdempotent();
  }

  // ---------------------------------------------------------------------------
  // Loading

  /** `read_csv`: one cycle of the state, projected when a column list is
      given, with the year column, normalised. */
  function ReadCsv(src: Source, year: nat, code: string, columns: Option<seq<Column>>): (r: Result<Frame>)
    ensures r.Ok? <==> Load(src, year, code, columns).Ok?
                       && Name in LoadedColumns(columns).value && Office in LoadedColumns(columns).value
    ensures r.Ok? ==> r.value.columns == LoadedColumns(columns).value
    ensures r.Ok? ==> forall x :: x in r.value.rows ==> x.year == year && Text.IsUpper(x.office)
  {
    match Load(src, year, code, columns)
    case Err(e) => Err(e)
    case Ok(f) =>
      LoadYear(src, year, code, columns);
      Normalize(f)
  }

  /** `read_csv` for a fixed state and projection, as a function of the year. */
  function Reader(src: Source, code: string, columns: Option<seq<Column>>): GenerateData.YearLoader {
    (y: nat) => GenerateData.RowsOf(ReadCsv(src, y, code, columns))
  }

  /** The frames the loop of `load_all_years` keeps: the rows of every year
      that loads, in year order; a year that fails is skipped. */
  function Kept(read: GenerateData.YearLoader, years: seq<nat>): (r: seq<seq<Record>>)
    ensures |r| <= |years|
    ensures r == [] <==> forall i :: 0 <= i < |years| ==> read(years[i]).Err?
  {
    if years == [] then []
    else
      var front := Kept(read, years[..|years| - 1]);
      match read(years[|years| - 1])
      case Err(_) => front
      case Ok(rows) => front + [rows]
  }

  /** The rows kept are the rows of the years that load. */
  lemma {:induction false} KeptRows(read: GenerateData.YearLoader, years: seq<nat>)
    ensures forall x :: x in Flatten(Kept(read, years)) <==>
      exists i :: 0 <= i < |years| && read(years[i]).Ok? && x in read(years[i]).value
    decreases |years|
  {
    if years != [] {
      var n := |years| - 1;
      var front := years[..n];
      KeptRows(read, front);
      forall i | 0 <= i < n ensures front[i] == years[i] { }
      match read(years[n]) {
        case Err(_) =>
        case Ok(rows) =>
          assert Flatten(Kept(read, years)) == Flatten(Kept(read, front)) + rows;
      }
    }
  }

  /** Every row a reader gives for a year carries that year. */
  ghost predicate YearTagged(read: GenerateData.YearLoader) {
    forall y: nat, x :: read(y).Ok? && x in read(y).value ==> x.year == y
  }

  /** Over years in ascending order, the kept rows come in year order. */
  lemma {:induction false} KeptInOrder(read: GenerateData.YearLoader, years: seq<nat>)
    requires YearTagged(read) && GenerateData.Ascending(years)
    ensures GenerateData.YearOrdered(Flatten(Kept(read, years)))
    decreases |years|
  {
    if years != [] {
      var n := |years| - 1;
      var front := years[..n];
      assert GenerateData.Ascending(front);
      KeptInOrder(read, front);
      match read(years[n]) {
        case Err(_) =>
        case Ok(rows) =>
          var head := Flatten(Kept(read, front));
          KeptRows(read, front);
          forall x | x in head ensures x.year <= years[n] {
            var i :| 0 <= i < n && read(front[i]).Ok? && x in read(front[i]).value;
            assert front[i] == years[i];
          }
          assert Flatten(Kept(read, years)) == head + rows;
          GenerateData.OrderedConcat(head, rows, years[n]);
      }
    }
  }

  /** The loop of `load_all_years`: tries every year in turn and keeps the
      frames that load. */
  method CollectYears(read: GenerateData.YearLoader, years: seq<nat>) returns (dfs: seq<seq<Record>>)
    ensures dfs == Kept(read, years)
  {
    dfs := [];
    var i := 0;
    while i < |years|
      invariant 0 <= i <= |years|
      invariant dfs == Kept(read, years[..i])
    {
      assert years[..i + 1][..i] == years[..i];
      match read(years[i]) {
        case Err(_) =>
        case Ok(rows) => dfs := dfs + [rows];
      }
      i := i + 1;
    }
    assert years[..|years|] == years;
  }

  /** `normalize_data(pl.concat(dfs))`: `concat` of no frame fails. */
  function Concat(dfs: seq<seq<Record>>, columns: Option<seq<Column>>): (r: Result<Frame>)
    ensures dfs == [] ==> r == Err(NothingToConcat)
  {
    if dfs == [] then Err(NothingToConcat)
    else match LoadedColumns(columns)
      case Err(e) => Err(e)
      case Ok(cs) => Normalize(Frame(cs, Flatten(dfs)))
  }

  /** `load_all_years` over a list of years. */
  function AllYearsOf(src: Source, code: string, columns: Option<seq<Column>>, years: seq<nat>): Result<Frame> {
    Concat(Kept(Reader(src, code, columns), years), columns)
  }

  /** `load_all_years`: every cycle of the state that loads, concatenated in
      cycle order and normalised once more. */
  function AllYears(src: Source, code: string, columns: Option<seq<Column>>): Result<Frame> {
    AllYearsOf(src, code, columns, Years)
  }

  method LoadAllYears(src: Source, code: string, columns: Option<seq<Column>>) returns (r: Result<Frame>)
    ensures r == AllYears(src, code, columns)
  {
    var dfs := CollectYears(Reader(src, code, columns), Years);
    r := Concat(dfs, columns);
  }

  lemma ReaderTagged(src: Source, code: string, columns: Option<seq<Column>>)
    ensures YearTagged(Reader(src, code, columns))
  {
  }

  /** The load fails exactly when no year loads, and then because nothing was
      left to concatenate; otherwise it has the loaded columns. */
  lemma AllYearsOfFails(src: Source, code: string, columns: Option<seq<Column>>, years: seq<nat>)
    ensures AllYearsOf(src, code, columns, years).Err? <==>
      forall i :: 0 <= i < |years| ==> ReadCsv(src, years[i], code, columns).Err?
    ensures AllYearsOf(src, code, columns, years).Err? ==>
      AllYearsOf(src, code, columns, years).error == NothingToConcat
    ensures AllYearsOf(src, code, columns, years).Ok? ==>
      AllYearsOf(src, code, columns, years).value.columns == LoadedColumns(columns).value
  {
    var read := Reader(src, code, columns);
    var dfs := Kept(read, years);
    if dfs != [] {
      var i :| 0 <= i < |years| && read(years[i]).Ok?;
      assert ReadCsv(src, years[i], code, columns).Ok?;
    }
  }

  lemma ConcatRows(dfs: seq<seq<Record>>, columns: Option<seq<Column>>)
    requires Concat(dfs, columns).Ok?
    ensures Concat(dfs, columns).value.rows == NormalizeRows(Flatten(dfs))
  {
  }

  /** Every kept row belongs to one of the years. */
  lemma KeptMembers(read: GenerateData.YearLoader, years: seq<nat>)
    requires YearTagged(read)
    ensures forall x :: x in Flatten(Kept(read, years)) ==> x.year in years
  {
    KeptRows(read, years);
    forall x | x in Flatten(Kept(read, years)) ensures x.year in years {
      var i :| 0 <= i < |years| && read(years[i]).Ok? && x in read(years[i]).value;
    }
  }

  /** Every row of a year that loads is kept. */
  lemma KeptComplete(read: GenerateData.YearLoader, years: seq<nat>)
    ensures forall y, x :: (y in years && read(y).Ok? && x in read(y).value) ==>
      x in Flatten(Kept(read, years))
  {
    KeptRows(read, years);
    forall y, x | y in years && read(y).Ok? && x in read(y).value
      ensures x in Flatten(Kept(read, years))
    {
      var i :| 0 <= i < |years| && years[i] == y;
    }
  }

  lemma NormalizeRowsMembers(rows: seq<Record>, years: seq<nat>)
    requires forall x :: x in rows ==> x.year in years
    ensures forall x :: x in NormalizeRows(rows) ==> x.year in years && Text.IsUpper(x.office)
  {
    forall x | x in NormalizeRows(rows) ensures x.year in years && Text.IsUpper(x.office) {
      var k :| 0 <= k < |rows| && NormalizeRows(rows)[k] == x;
      assert rows[k] in rows;
    }
  }

  lemma NormalizeRowsHas(rows: seq<Record>, x: Record)
    requires x in rows
    ensures NormalizeRow(x) in NormalizeRows(rows)
  {
    var k :| 0 <= k < |rows| && rows[k] == x;
    assert NormalizeRows(rows)[k] == NormalizeRow(x);
  }

  /** Every row of the loaded frame belongs to one of the years and has an
      upper-case office. */
  lemma AllYearsOfMembers(src: Source, code: string, columns: Option<seq<Column>>, years: seq<nat>)
    requires AllYearsOf(src, code, columns, years).Ok?
    ensures forall x :: x in AllYearsOf(src, code, columns, years).value.rows ==>
      x.year in years && Text.IsUpper(x.office)
  {
    var read := Reader(src, code, columns);
    ReaderTagged(src, code, columns);
    KeptMembers(read, years);
    ConcatRows(Kept(read, years), columns);
    NormalizeRowsMembers(Flatten(Kept(read, years)), years);
  }

  /** Every row of a year that loads is in the loaded frame, normalised again. */
  lemma AllYearsOfComplete(src: Source, code: string, columns: Option<seq<Column>>, years: seq<nat>)
    requires AllYearsOf(src, code, columns, years).Ok?
    ensures forall y, x :: (y in years && ReadCsv(src, y, code, columns).Ok?
      && x in ReadCsv(src, y, code, columns).value.rows) ==>
      NormalizeRow(x) in AllYearsOf(src, code, columns, years).value.rows
  {
    var read := Reader(src, code, columns);
    var rows := Flatten(Kept(read, years));
    KeptComplete(read, years);
    ConcatRows(Kept(read, years), columns);
    forall y, x | y in years && ReadCsv(src, y, code, columns).Ok?
      && x in ReadCsv(src, y, code, columns).value.rows
      ensures NormalizeRow(x) in NormalizeRows(rows)
    {
      assert read(y) == GenerateData.RowsOf(ReadCsv(src, y, code, columns));
      NormalizeRowsHas(rows, x);
    }
  }

  /** Over years in ascending order, the loaded rows come in year order. */
  lemma AllYearsOfOrdered(src: Source, code: string, columns: Option<seq<Column>>, years: seq<nat>)
    requires GenerateData.Ascending(years)
    requires AllYearsOf(src, code, columns, years).Ok?
    ensures GenerateData.YearOrdered(AllYearsOf(src, code, columns, years).value.rows)
  {
    var read := Reader(src, code, columns);
    var rows := Flatten(Kept(read, years));
    var out := AllYearsOf(src, code, columns, years).value.rows;
    ConcatRows(Kept(read, years), columns);
    ReaderTagged(src, code, columns);
    KeptInOrder(read, years);
    forall i, j | 0 <= i < j < |out| ensures out[i].year <= out[j].year {
      assert out[i].year == rows[i].year && out[j].year == rows[j].year;
    }
  }

  /** The page's load fails exactly when none of its cycles loads. */
  lemma AllYearsFails(src: Source, code: string, columns: Option<seq<Column>>)
    ensures AllYears(src, code, columns).Err? <==>
      forall y :: y in Years ==> ReadCsv(src, y, code, columns).Err?
    ensures AllYears(src, code, columns).Err? ==> AllYears(src, code, columns).error == NothingToConcat
    ensures AllYears(src, code, columns).Ok? ==>
      AllYears(src, code, columns).value.columns == LoadedColumns(columns).value
  {
    AllYearsOfFails(src, code, columns, Years);
  }

  lemma YearsAscending()
    ensures GenerateData.Ascending(Years)
  {
  }

  /** The rows of the page's frame: normalised rows of the cycles, in cycle order. */
  lemma AllYearsRows(src: Source, code: string, columns: Option<seq<Column>>)
    requires AllYears(src, code, columns).Ok?
    ensures forall x :: x in AllYears(src, code, columns).value.rows ==>
      x.year in Years && Text.IsUpper(x.office)
    ensures forall y, x :: (y in Years && ReadCsv(src, y, code, columns).Ok?
      && x in ReadCsv(src, y, code, columns).value.rows) ==>
      NormalizeRow(x) in AllYears(src, code, columns).value.rows
    ensures GenerateData.YearOrdered(AllYears(src, code, columns).value.rows)
  {
    YearsAscending();
    AllYearsOfMembers(src, code, columns, Years);
    AllYearsOfComplete(src, code, columns, Years);
    AllYearsOfOrdered(src, code, columns, Years);
  }

  // ---------------------------------------------------------------------------
  // Chart groups

  /** How `groupby_to_charts` orders its groups, always descending: by year
      (the default) or by the summed votes. */
  datatype Order = ByYear | ByTotal

  /** The key of a chart group: the year and the value of the optional
      column, a constant when no column is given. */
  type ChartKey = (int, string)

  function DimValue(r: Record, dim: Option<Column>): string {
    match dim
    case None => ""
    case Some(c) => Field(r, c)
  }

  /** The candidate's rows as (key, votes) pairs, in row order
      (`filter(pl.col('Nome do candidato') == candidato)`). */
  function Pairs(rows: seq<Record>, candidate: string, dim: Option<Column>): seq<(ChartKey, int)> {
    if rows == [] then []
    else (if rows[0].name == candidate then [((rows[0].year, DimValue(rows[0], dim)), rows[0].votes)] else [])
         + Pairs(rows[1..], candidate, dim)
  }

  /** The votes of the candidate's rows that satisfy `keep`, added up: what
      every number on the page means. */
  function CandidateVotes(rows: seq<Record>, candidate: string, keep: Record -> bool): int {
    VoteSum(rows, CandidateAnd(candidate, keep))
  }

  /** The candidate's records that satisfy `keep`. */
  function CandidateAnd(candidate: string, keep: Record -> bool): Record -> bool {
    (r: Record) => r.name == candidate && keep(r)
  }

  lemma {:induction false} PairsVotes(rows: seq<Record>, candidate: string, dim: Option<Column>,
                                      q: ChartKey -> bool, keep: Record -> bool)
    requires forall r :: keep(r) <==> q((r.year, DimValue(r, dim)))
    ensures SumWhere(Pairs(rows, candidate, dim), q) == CandidateVotes(rows, candidate, keep)
  {
    if rows != [] {
      PairsVotes(rows[1..], candidate, dim, q, keep);
      var p := Pairs(rows, candidate, dim);
      if rows[0].name == candidate {
        assert p[1..] == Pairs(rows[1..], candidate, dim);
      } else {
        assert p == Pairs(rows[1..], candidate, dim);
      }
    }
  }

  lemma {:induction false} PairsKeys(rows: seq<Record>, candidate: string, dim: Option<Column>)
    ensures forall k :: k in Keys(Pairs(rows, candidate, dim)) <==>
      exists i :: 0 <= i < |rows| && rows[i].name == candidate && k == (rows[i].year, DimValue(rows[i], dim))
  {
    if rows != [] {
      PairsKeys(rows[1..], candidate, dim);
      var p := Pairs(rows, candidate, dim);
      var tail := Pairs(rows[1..], candidate, dim);
      if rows[0].name == candidate {
        assert p == [((rows[0].year, DimValue(rows[0], dim)), rows[0].votes)] + tail;
        assert Keys(p) == [(rows[0].year, DimValue(rows[0], dim))] + Keys(tail);
      } else {
        assert p == tail;
      }
      forall k | (exists i :: 0 <= i < |rows| && rows[i].name == candidate && k == (rows[i].year, DimValue(rows[i], dim)))
        ensures k in Keys(p)
      {
        var i :| 0 <= i < |rows| && rows[i].name == candidate && k == (rows[i].year, DimValue(rows[i], dim));
        if i > 0 {
          assert rows[1..][i - 1] == rows[i];
        }
      }
      forall k | k in Keys(p)
        ensures exists i :: 0 <= i < |rows| && rows[i].name == candidate && k == (rows[i].year, DimValue(rows[i], dim))
      {
        if k !in Keys(tail) {
          assert rows[0].name == candidate && k == (rows[0].year, DimValue(rows[0], dim));
        } else {
          var i :| 0 <= i < |rows[1..]| && rows[1..][i].name == candidate
            && k == (rows[1..][i].year, DimValue(rows[1..][i], dim));
          assert rows[i + 1] == rows[1..][i];
        }
      }
    }
  }

  function YearRank(p: (ChartKey, int)): int { p.0.0 }

  function RankOf(order: Order): ((ChartKey, int)) -> int {
    match order
    case ByYear => YearRank
    case ByTotal => ByVotes
  }

  /** The columns `groupby_to_charts` selects: name, votes, year and the
      optional column. */
  function ChartColumns(dim: Option<Column>): seq<Column> {
    [Name, Votes, Year] + (match dim case None => [] case Some(c) => [c])
  }

  /** `groupby_to_charts`: the candidate's votes summed per year and value of
      the optional column, sorted descending by year or by votes. The
      selected columns must exist and be distinct. */
  function GroupByToCharts(f: Frame, candidate: string, dim: Option<Column>, order: Order): (r: Result<seq<(ChartKey, int)>>)
    ensures r.Ok? <==> Distinct(ChartColumns(dim)) && forall c :: c in ChartColumns(dim) ==> c in f.columns
    ensures r.Ok? ==> NonIncreasing(r.value, RankOf(order))
  {
    var cols := ChartColumns(dim);
    if exists c :: c in cols && c !in f.columns then Err(MissingColumn)
    else if !Distinct(cols) then Err(DuplicateColumn)
    else Ok(SortDesc(GroupSum(Pairs(f.rows, candidate, dim)), RankOf(order)))
  }

  /** One group's sum is the candidate's votes under that key. */
  lemma GroupVotes(rows: seq<Record>, candidate: string, dim: Option<Column>, k: ChartKey)
    ensures SumOf(Pairs(rows, candidate, dim), k)
         == CandidateVotes(rows, candidate, (r: Record) => r.year == k.0 && DimValue(r, dim) == k.1)
  {
    var q := (x: ChartKey) => x == k;
    SumOfIsSumWhere(Pairs(rows, candidate, dim), k, q);
    PairsVotes(rows, candidate, dim, q, (r: Record) => r.year == k.0 && DimValue(r, dim) == k.1);
  }

  /** The chart groups list each key once, and exactly the (year, value)
      pairs the candidate has rows for. */
  lemma ChartGroupKeys(f: Frame, candidate: string, dim: Option<Column>, order: Order)
    requires GroupByToCharts(f, candidate, dim, order).Ok?
    ensures KeysUnique(GroupByToCharts(f, candidate, dim, order).value)
    ensures forall k :: k in Keys(GroupByToCharts(f, candidate, dim, order).value) <==>
      exists i :: 0 <= i < |f.rows| && f.rows[i].name == candidate && k == (f.rows[i].year, DimValue(f.rows[i], dim))
  {
    var p := Pairs(f.rows, candidate, dim);
    assert GroupByToCharts(f, candidate, dim, order).value == SortDesc(GroupSum(p), RankOf(order));
    SortedGroupsUnique(p, RankOf(order));
    SortedGroupsKeys(p, RankOf(order));
    PairsKeys(f.rows, candidate, dim);
  }

  /** Each chart group holds the candidate's votes in its year and with its
      value. */
  lemma ChartGroupVotes(f: Frame, candidate: string, dim: Option<Column>, order: Order)
    requires GroupByToCharts(f, candidate, dim, order).Ok?
    ensures forall i :: 0 <= i < |GroupByToCharts(f, candidate, dim, order).value| ==>
      var g := GroupByToCharts(f, candidate, dim, order).value[i];
      g.1 == CandidateVotes(f.rows, candidate, (r: Record) => r.year == g.0.0 && DimValue(r, dim) == g.0.1)
  {
    var p := Pairs(f.rows, candidate, dim);
    var t := GroupByToCharts(f, candidate, dim, order).value;
    assert t == SortDesc(GroupSum(p), RankOf(order));
    SortedGroupsSums(p, RankOf(order));
    forall i | 0 <= i < |t|
      ensures t[i].1 == CandidateVotes(f.rows, candidate, (r: Record) => r.year == t[i].0.0 && DimValue(r, dim) == t[i].0.1)
    {
      GroupVotes(f.rows, candidate, dim, t[i].0);
    }
  }

  // ---------------------------------------------------------------------------
  // The views over the selected years

  function InYears(selected: seq<int>): ChartKey -> bool {
    (k: ChartKey) => k.0 in selected
  }

  function ValueOf(k: ChartKey): string { k.1 }

  /** The chart groups of the selected years regrouped by the column's value
      (`filter(pl.col('Ano').is_in(ano))` then `group_by(column).agg(sum)`). */
  function ByValue(groups: seq<(ChartKey, int)>, selected: seq<int>): seq<(string, int)> {
    GroupSum(Rekey(KeepKeys(groups, InYears(selected)), ValueOf))
  }

  /** A view table: the candidate's votes per value of the column over the
      selected years, sorted by votes, descending. */
  function View(f: Frame, candidate: string, dim: Column, selected: seq<int>): (r: Result<seq<(string, int)>>)
    ensures r.Ok? <==> GroupByToCharts(f, candidate, Some(dim), ByYear).Ok?
    ensures r.Ok? ==> NonIncreasing(r.value, ByVotes)
  {
    match GroupByToCharts(f, candidate, Some(dim), ByYear)
    case Err(e) => Err(e)
    case Ok(t) => Ok(SortDesc(ByValue(t, selected), ByVotes))
  }

  /** One regrouped sum is the candidate's votes with that value in the
      selected years. */
  lemma ValueVotes(t: seq<(ChartKey, int)>, g: seq<(ChartKey, int)>, rows: seq<Record>, candidate: string,
                   dim: Column, selected: seq<int>, s: string)
    requires multiset(t) == multiset(g) && g == GroupSum(Pairs(rows, candidate, Some(dim)))
    ensures SumOf(Rekey(KeepKeys(t, InYears(selected)), ValueOf), s)
         == CandidateVotes(rows, candidate, (r: Record) => r.year in selected && Field(r, dim) == s)
  {
    var both := (k: ChartKey) => k.0 in selected && k.1 == s;
    RegroupSums(t, InYears(selected), ValueOf, s, both);
    SumWherePermutation(t, g, both);
    GroupSumPreserves(Pairs(rows, candidate, Some(dim)), both);
    PairsVotes(rows, candidate, Some(dim), both, (r: Record) => r.year in selected && Field(r, dim) == s);
  }

  /** Each entry of a view is one value, listed once, with the candidate's
      votes for that value over the selected years. */
  lemma ViewVotes(f: Frame, candidate: string, dim: Column, selected: seq<int>)
    requires View(f, candidate, dim, selected).Ok?
    ensures KeysUnique(View(f, candidate, dim, selected).value)
    ensures forall i :: 0 <= i < |View(f, candidate, dim, selected).value| ==>
      var e := View(f, candidate, dim, selected).value[i];
      e.1 == CandidateVotes(f.rows, candidate, (r: Record) => r.year in selected && Field(r, dim) == e.0)
  {
    var t := GroupByToCharts(f, candidate, Some(dim), ByYear).value;
    var g := GroupSum(Pairs(f.rows, candidate, Some(dim)));
    assert t == SortDesc(g, YearRank);
    var rk := Rekey(KeepKeys(t, InYears(selected)), ValueOf);
    var v := View(f, candidate, dim, selected).value;
    assert v == SortDesc(GroupSum(rk), ByVotes);
    SortedGroupsUnique(rk, ByVotes);
    SortedGroupsSums(rk, ByVotes);
    forall i | 0 <= i < |v|
      ensures v[i].1 == CandidateVotes(f.rows, candidate, (r: Record) => r.year in selected && Field(r, dim) == v[i].0)
    {
      ValueVotes(t, g, f.rows, candidate, dim, selected, v[i].0);
    }
  }

  lemma ValuesOfGroups(rows: seq<Record>, candidate: string, dim: Column, selected: seq<int>,
                        t: seq<(ChartKey, int)>)
    requires forall k :: k in Keys(t) <==>
      exists i :: 0 <= i < |rows| && rows[i].name == candidate && k == (rows[i].year, DimValue(rows[i], Some(dim)))
    ensures forall s :: s in Keys(Rekey(KeepKeys(t, InYears(selected)), ValueOf)) <==>
      exists i :: 0 <= i < |rows| && rows[i].name == candidate && rows[i].year in selected
                  && Field(rows[i], dim) == s
  {
    var rk := Rekey(KeepKeys(t, InYears(selected)), ValueOf);
    RegroupKeys(t, InYears(selected), ValueOf);
    forall s | s in Keys(rk)
      ensures exists i :: 0 <= i < |rows| && rows[i].name == candidate && rows[i].year in selected
                          && Field(rows[i], dim) == s
    {
      var j :| 0 <= j < |t| && InYears(selected)(t[j].0) && ValueOf(t[j].0) == s;
      assert Keys(t)[j] == t[j].0;
      assert t[j].0 in Keys(t);
      var i :| 0 <= i < |rows| && rows[i].name == candidate && t[j].0 == (rows[i].year, DimValue(rows[i], Some(dim)));
      assert t[j].0.0 in selected;
      assert rows[i].year in selected && Field(rows[i], dim) == s;
    }
    forall i | 0 <= i < |rows| && rows[i].name == candidate && rows[i].year in selected
      ensures Field(rows[i], dim) in Keys(rk)
    {
      var k := (rows[i].year, DimValue(rows[i], Some(dim)));
      assert k in Keys(t);
      var j :| 0 <= j < |t| && Keys(t)[j] == k;
      assert InYears(selected)(t[j].0) && ValueOf(t[j].0) == Field(rows[i], dim);
    }
  }

  /** A view lists exactly the values the candidate has rows for in the
      selected years. */
  lemma ViewValues(f: Frame, candidate: string, dim: Column, selected: seq<int>)
    requires View(f, candidate, dim, selected).Ok?
    ensures forall s :: s in Keys(View(f, candidate, dim, selected).value) <==>
      exists i :: 0 <= i < |f.rows| && f.rows[i].name == candidate && f.rows[i].year in selected
                  && Field(f.rows[i], dim) == s
  {
    var t := GroupByToCharts(f, candidate, Some(dim), ByYear).value;
    var rk := Rekey(KeepKeys(t, InYears(selected)), ValueOf);
    var v := View(f, candidate, dim, selected).value;
    assert v == SortDesc(GroupSum(rk), ByVotes);
    SortedGroupsKeys(rk, ByVotes);
    ChartGroupKeys(f, candidate, Some(dim), ByYear);
    ValuesOfGroups(f.rows, candidate, dim, selected, t);
  }

  /** A view's votes add up to the candidate's votes over the selected years
      (the whole of the office pie). */
  lemma ViewTotal(f: Frame, candidate: string, dim: Column, selected: seq<int>)
    requires View(f, candidate, dim, selected).Ok?
    ensures Total(View(f, candidate, dim, selected).value)
         == CandidateVotes(f.rows, candidate, (r: Record) => r.year in selected)
  {
    var p := Pairs(f.rows, candidate, Some(dim));
    var g := GroupSum(p);
    var t := GroupByToCharts(f, candidate, Some(dim), ByYear).value;
    assert t == SortDesc(g, YearRank);
    var kept := KeepKeys(t, InYears(selected));
    var b := ByValue(t, selected);
    var v := View(f, candidate, dim, selected).value;
    assert v == SortDesc(b, ByVotes);
    TotalPermutation(v, b);
    GroupSumTotal(Rekey(kept, ValueOf));
    TotalRekey(kept, ValueOf);
    TotalKeepKeys(t, InYears(selected));
    SumWherePermutation(t, g, InYears(selected));
    GroupSumPreserves(p, InYears(selected));
    PairsVotes(f.rows, candidate, Some(dim), InYears(selected), (r: Record) => r.year in selected);
  }

  /** Of a table sorted by votes, every value left out of the first ten has
      at most the votes of every value shown (`head(10)`). */
  lemma TopTenIsLargest(v: seq<(string, int)>)
    requires NonIncreasing(v, ByVotes)
    ensures forall i, j :: 0 <= i < |Head(v, 10)| <= j < |v| ==> v[j].1 <= Head(v, 10)[i].1
  {
  }

  // ---------------------------------------------------------------------------
  // The page

  /** The values of one column, in row order (`select(param)`). */
  function ColumnValues(rows: seq<Record>, c: Column): (r: seq<string>)
    ensures |r| == |rows|
    ensures forall i :: 0 <= i < |rows| ==> r[i] == Field(rows[i], c)
  {
    if rows == [] then [] else [Field(rows[0], c)] + ColumnValues(rows[1..], c)
  }

  /** `read_params_cache`: the distinct values of a column. */
  function ParamOptions(rows: seq<Record>, c: Column): (r: seq<string>)
    ensures Distinct(r)
    ensures forall s :: s in r <==> exists i :: 0 <= i < |rows| && Field(rows[i], c) == s
  {
    var values := ColumnValues(rows, c);
    assert forall s :: s in values <==> exists i :: 0 <= i < |rows| && values[i] == s;
    Unique(values)
  }

  /** `index_padrao`: the first position of the canonical name among the
      options, or 0 when it is not one of them. */
  function DefaultIndex(names: seq<string>): (i: nat)
    ensures Canonical in names ==> i < |names| && names[i] == Canonical && Canonical !in names[..i]
    ensures Canonical !in names ==> i == 0
  {
    if names == [] || names[0] == Canonical || Canonical !in names[1..] then 0
    else
      var j := DefaultIndex(names[1..]);
      assert names[..j + 1] == [names[0]] + names[1..][..j];
      j + 1
  }

  /** The canonical name holds no alias, so normalisation keeps it. */
  lemma CanonicalIsStable()
    ensures CanonicalName(Canonical) == Canonical
  {
    forall j: nat ensures !Text.OccursAt(Canonical, Junior, j) {
      assert |Canonical| < |Junior|;
    }
  }

  /** A file line that spells the candidate with the alias makes the page open
      on the canonical name: it loads under that name, and the default
      selection points at it. */
  lemma DefaultIsCanonical(src: Source, code: string, y: nat, x: Record)
    requires y in Years
    requires Load(src, y, code, None).Ok? && x in Load(src, y, code, None).value.rows
    requires x.name == Junior
    ensures AllYears(src, code, None).Ok?
    ensures var names := ParamOptions(AllYears(src, code, None).value.rows, Name);
      Canonical in names && names[DefaultIndex(names)] == Canonical
  {
    AliasReadsOnce(src, y, code, x);
    var once := NormalizeRow(x);
    AllYearsFails(src, code, None);
    AllYearsRows(src, code, None);
    CanonicalIsStable();
    var rows := AllYears(src, code, None).value.rows;
    assert NormalizeRow(once) in rows;
    var m :| 0 <= m < |rows| && rows[m] == NormalizeRow(once);
    assert Field(rows[m], Name) == Canonical;
  }

  /** A file line with the alias is read as the canonical name. */
  lemma AliasReadsOnce(src: Source, y: nat, code: string, x: Record)
    requires Load(src, y, code, None).Ok? && x in Load(src, y, code, None).value.rows
    requires x.name == Junior
    ensures ReadCsv(src, y, code, None).Ok?
    ensures NormalizeRow(x) in ReadCsv(src, y, code, None).value.rows
    ensures NormalizeRow(x).name == Canonical
  {
    var f := Load(src, y, code, None).value;
    var read := ReadCsv(src, y, code, None);
    assert LoadedColumns(None) == Ok(CsvColumns + [Year]);
    assert Name in CsvColumns + [Year] && Office in CsvColumns + [Year];
    assert read.Ok?;
    var k :| 0 <= k < |f.rows| && f.rows[k] == x;
    assert read.value.rows == NormalizeRows(f.rows);
    assert read.value.rows[k] == NormalizeRow(x);
    JuniorIsCanonicalised();
  }

  /** The candidate's rows' years (`anos_candidato`). */
  function YearsOf(rows: seq<Record>, candidate: string): (r: seq<int>)
    ensures forall y :: y in r <==> exists i :: 0 <= i < |rows| && rows[i].name == candidate && rows[i].year == y
  {
    if rows == [] then []
    else
      var tail := YearsOf(rows[1..], candidate);
      assert forall i :: 1 <= i < |rows| ==> rows[i] == rows[1..][i - 1];
      (if rows[0].name == candidate then [rows[0].year] else []) + tail
  }

  /** `anos_candidato`: the distinct years the candidate has rows for. */
  function CandidateYears(rows: seq<Record>, candidate: string): (r: seq<int>)
    ensures Distinct(r)
    ensures forall y :: y in r <==> exists i :: 0 <= i < |rows| && rows[i].name == candidate && rows[i].year == y
  {
    Unique(YearsOf(rows, candidate))
  }

  /** What the page shows. */
  datatype Page =
    | Failed(error: Error)                       // the load raised
    | NoCandidate                                // no candidate is selected
    | NoYears(growth: seq<(ChartKey, int)>)      // the warning, then `st.stop()`
    | Charts(growth: seq<(ChartKey, int)>, neighborhoods: seq<(string, int)>,
             municipalities: seq<(string, int)>, offices: seq<(string, int)>)

  /** A frame with every column of the files and the year has the columns of
      a chart over any text column but the name. */
  lemma ChartColumnsPresent(f: Frame, dim: Option<Column>)
    requires f.columns == CsvColumns + [Year]
    requires dim == None || dim == Some(Party) || dim == Some(Municipality)
             || dim == Some(Neighborhood) || dim == Some(Office)
    ensures Distinct(ChartColumns(dim)) && forall c :: c in ChartColumns(dim) ==> c in f.columns
  {
    var cols := ChartColumns(dim);
    assert f.columns[0] == Name && f.columns[1] == Party && f.columns[2] == Municipality;
    assert f.columns[3] == Neighborhood && f.columns[4] == Office && f.columns[5] == Votes;
    assert f.columns[6] == Year;
    if dim == None {
      assert cols == [Name, Votes, Year];
    } else {
      assert cols == [Name, Votes, Year, dim.value];
    }
  }

  /** A frame with every column of the files and the year has every chart. */
  lemma FullFrameCharts(f: Frame, candidate: string, selected: seq<int>)
    requires f.columns == CsvColumns + [Year]
    ensures GroupByToCharts(f, candidate, None, ByYear).Ok?
    ensures View(f, candidate, Neighborhood, selected).Ok?
    ensures View(f, candidate, Municipality, selected).Ok?
    ensures View(f, candidate, Office, selected).Ok?
  {
    ChartColumnsPresent(f, None);
    ChartColumnsPresent(f, Some(Neighborhood));
    ChartColumnsPresent(f, Some(Municipality));
    ChartColumnsPresent(f, Some(Office));
  }

  /** The page drawn from a loaded frame, for one candidate and year
      selection: the growth chart by year, the ten neighbourhoods and
      municipalities with the most votes, and the votes per office. */
  function PageOf(loaded: Result<Frame>, candidate: string, selected: seq<int>): (p: Page)
    requires loaded.Ok? ==> loaded.value.columns == CsvColumns + [Year]
    ensures p.Failed? <==> loaded.Err?
    ensures p.NoCandidate? <==> loaded.Ok? && candidate == ""
    ensures p.NoYears? <==> loaded.Ok? && candidate != "" && selected == []
    ensures p.Charts? ==> |p.neighborhoods| <= 10 && |p.municipalities| <= 10
    ensures p.Charts? ==> NonIncreasing(p.growth, YearRank) && NonIncreasing(p.offices, ByVotes)
    ensures p.Charts? ==> Total(p.offices) == CandidateVotes(loaded.value.rows, candidate,
                                                            (r: Record) => r.year in selected)
    ensures p.Charts? ==> View(loaded.value, candidate, Neighborhood, selected).Ok?
                          && p.neighborhoods == Head(View(loaded.value, candidate, Neighborhood, selected).value, 10)
    ensures p.Charts? ==> View(loaded.value, candidate, Municipality, selected).Ok?
                          && p.municipalities == Head(View(loaded.value, candidate, Municipality, selected).value, 10)
    ensures (p.NoYears? || p.Charts?) ==>
              GroupByToCharts(loaded.value, candidate, None, ByYear).Ok?
              && p.growth == GroupByToCharts(loaded.value, candidate, None, ByYear).value
    ensures p.Charts? ==> View(loaded.value, candidate, Office, selected).Ok?
                          && p.offices == View(loaded.value, candidate, Office, selected).value
  {
    match loaded
    case Err(e) => Failed(e)
    case Ok(f) =>
      if candidate == "" then NoCandidate
      else
        FullFrameCharts(f, candidate, selected);
        var growth := GroupByToCharts(f, candidate, None, ByYear).value;
        if selected == [] then NoYears(growth)
        else
          ViewTotal(f, candidate, Office, selected);
          Charts(growth,
                 Head(View(f, candidate, Neighborhood, selected).value, 10),
                 Head(View(f, candidate, Municipality, selected).value, 10),
                 View(f, candidate, Office, selected).value)
  }

  /** The growth chart: one bar per year the candidate has rows in, each
      with the candidate's votes that year. */
  lemma PageGrowth(loaded: Result<Frame>, candidate: string, selected: seq<int>)
    requires loaded.Ok? ==> loaded.value.columns == CsvColumns + [Year]
    requires PageOf(loaded, candidate, selected).NoYears? || PageOf(loaded, candidate, selected).Charts?
    ensures var p, f := PageOf(loaded, candidate, selected), loaded.value;
      && KeysUnique(p.growth)
      && (forall k :: k in Keys(p.growth) <==>
            exists i :: 0 <= i < |f.rows| && f.rows[i].name == candidate && k == (f.rows[i].year, DimValue(f.rows[i], None)))
      && (forall i :: 0 <= i < |p.growth| ==>
            p.growth[i].1 == CandidateVotes(f.rows, candidate, (r: Record) => r.year == p.growth[i].0.0 && DimValue(r, None) == p.growth[i].0.1))
  {
    ChartGroupKeys(loaded.value, candidate, None, ByYear);
    ChartGroupVotes(loaded.value, candidate, None, ByYear);
  }

  /** The office pie: one slice per office the candidate ran for in the
      selected years, each with the candidate's votes for it there. */
  lemma PageOffices(loaded: Result<Frame>, candidate: string, selected: seq<int>)
    requires loaded.Ok? ==> loaded.value.columns == CsvColumns + [Year]
    requires PageOf(loaded, candidate, selected).Charts?
    ensures var p, f := PageOf(loaded, candidate, selected), loaded.value;
      && KeysUnique(p.offices)
      && (forall s :: s in Keys(p.offices) <==>
            exists i :: 0 <= i < |f.rows| && f.rows[i].name == candidate && f.rows[i].year in selected && Field(f.rows[i], Office) == s)
      && (forall i :: 0 <= i < |p.offices| ==>
            p.offices[i].1 == CandidateVotes(f.rows, candidate, (r: Record) => r.year in selected && Field(r, Office) == p.offices[i].0))
  {
    ViewVotes(loaded.value, candidate, Office, selected);
    ViewValues(loaded.value, candidate, Office, selected);
  }

  /** The two top-ten charts: no neighbourhood or municipality left off a
      chart has more of the candidate's votes in the selected years than one
      shown on it. */
  lemma PageTopTen(loaded: Result<Frame>, candidate: string, selected: seq<int>)
    requires loaded.Ok? ==> loaded.value.columns == CsvColumns + [Year]
    requires PageOf(loaded, candidate, selected).Charts?
    ensures var p, f := PageOf(loaded, candidate, selected), loaded.value;
      var n, m := View(f, candidate, Neighborhood, selected).value, View(f, candidate, Municipality, selected).value;
      && (forall i, j :: 0 <= i < |p.neighborhoods| <= j < |n| ==> n[j].1 <= p.neighborhoods[i].1)
      && (forall i, j :: 0 <= i < |p.municipalities| <= j < |m| ==> m[j].1 <= p.municipalities[i].1)
  {
    var f := loaded.value;
    TopTenIsLargest(View(f, candidate, Neighborhood, selected).value);
    TopTenIsLargest(View(f, candidate, Municipality, selected).value);
  }

  /** The page for one state: every cycle loaded, then drawn. */
  function Dashboard(src: Source, code: string, candidate: string, selected: seq<int>): (p: Page)
    ensures p.Failed? <==> forall y :: y in Years ==> ReadCsv(src, y, code, None).Err?
  {
    AllYearsFails(src, code, None);
    PageOf(AllYears(src, code, None), candidate, selected)
  }
}
