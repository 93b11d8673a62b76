/** Election records and the frame operations every view shares: loading one
    year's results file through the locator, projection onto a column list,
    the literal year column, the four membership filters and the name and
    office normaliser. */
module Frames {
  import opened Seqs
  import Text
  import Locator

  /** The columns of the results files the dashboard reads, and the year
      column the loaders add (`Ano`). */
  datatype Column = Name | Party | Municipality | Neighborhood | Office | Votes | Year

  /** The columns present in every results file: `Nome do candidato`, `Sigla do
      partido`, `Município`, `Bairro`, `Cargo` and `Votos`. */
  const CsvColumns: seq<Column> := [Name, Party, Municipality, Neighborhood, Office, Votes]

  /** One line of a results file. */
  datatype CsvRow = CsvRow(name: string, party: string, municipality: string,
                           neighborhood: string, office: string, votes: int)

  /** One line of a loaded frame: a file line and the year it was loaded for. */
  datatype Record = Record(name: string, party: string, municipality: string,
                           neighborhood: string, office: string, votes: int, year: int)

  /** A data frame: the visible columns, in order, and the rows. A row keeps
      every field; the fields of columns that were projected away are never
      read. */
  datatype Frame = Frame(columns: seq<Column>, rows: seq<Record>)

  datatype Error =
    | UnknownState       // `KeyError` from the state table
    | Unavailable        // the file could not be fetched or parsed
    | MissingColumn      // a select, filter or rewrite names an absent column
    | DuplicateColumn    // a select names a column twice
    | NothingToConcat    // `concat` of an empty list of frames
    | EmptySelection     // no year or no state selected
    | UnboundFilters     // `NameError`: the filter selections were never bound

  datatype Result<T> = Ok(value: T) | Err(error: Error)

  /** The remote store: what fetching and parsing the file at a locator gives,
      or `None` when that fails. */
  type Source = string -> Option<seq<CsvRow>>

  /** The election cycles, in the order the views visit them. */
  const Cycles: seq<int> := [2016, 2018, 2020, 2022, 2024]

  /** `sum('Votos')` over the records that satisfy `keep`: the reference
      every displayed vote count is measured against. */
  function VoteSum(rows: seq<Record>, keep: Record -> bool): int {
    if rows == [] then 0 else (if keep(rows[0]) then rows[0].votes else 0) + VoteSum(rows[1..], keep)
  }

  function Every(): Record -> bool {
    (x: Record) => true
  }

  /** Fetches the results file of one year and state. */
  function Fetch(src: Source, year: nat, code: string): (r: Result<seq<CsvRow>>)
    ensures r == Err(UnknownState) <==> Locator.StateName(code).None?
    ensures r.Ok? <==> Locator.StateName(code).Some? && src(Locator.Url(year, code).value).Some?
    ensures r.Ok? ==> r.value == src(Locator.Url(year, code).value).value
  {
    match Locator.Url(year, code)
    case None => Err(UnknownState)
    case Some(u) =>
      match src(u)
      case None => Err(Unavailable)
      case Some(rows) => Ok(rows)
  }

  function ToRecord(row: CsvRow, year: int): Record {
    Record(row.name, row.party, row.municipality, row.neighborhood, row.office, row.votes, year)
  }

  /** `with_columns(lit(year).alias('Ano'))`: every line becomes a record of `year`. */
  function Tag(rows: seq<CsvRow>, year: int): (r: seq<Record>)
    ensures |r| == |rows|
    ensures forall i :: 0 <= i < |r| ==> r[i] == ToRecord(rows[i], year)
  {
    if rows == [] then [] else [ToRecord(rows[0], year)] + Tag(rows[1..], year)
  }

  /** Every tagged record carries the requested year, and dropping the year
      gives the file line back. */
  lemma TagYear(rows: seq<CsvRow>, year: int)
    ensures forall r :: r in Tag(rows, year) ==> r.year == year
    ensures forall i :: 0 <= i < |rows| ==>
      var r := Tag(rows, year)[i];
      CsvRow(r.name, r.party, r.municipality, r.neighborhood, r.office, r.votes) == rows[i]
  {
  }

  lemma {:induction false} TagAppend(a: seq<CsvRow>, b: seq<CsvRow>, year: int)
    ensures Tag(a + b, year) == Tag(a, year) + Tag(b, year)
  {
    if a == [] {
      assert a + b == b;
    } else {
      assert (a + b)[1..] == a[1..] + b;
      TagAppend(a[1..], b, year);
    }
  }

  /** `select(columns)` on a results file: every requested column must be a
      column of the file, and none may be named twice. */
  function Project(columns: seq<Column>): (r: Result<seq<Column>>)
    ensures r.Ok? <==> Distinct(columns) && forall c :: c in columns ==> c in CsvColumns
    ensures r.Ok? ==> r.value == columns
    ensures r.Err? ==> r.error == MissingColumn || r.error == DuplicateColumn
  {
    if exists c :: c in columns && c !in CsvColumns then Err(MissingColumn)
    else if !Distinct(columns) then Err(DuplicateColumn)
    else Ok(columns)
  }

  /** The columns of a loaded frame: the file's or the projected ones, then `Ano`. */
  function LoadedColumns(columns: Option<seq<Column>>): (r: Result<seq<Column>>)
    ensures r.Ok? ==> |r.value| > 0 && r.value[|r.value| - 1] == Year && Distinct(r.value)
    ensures columns.None? ==> r == Ok(CsvColumns + [Year])
  {
    match columns
    case None =>
      assert Distinct(CsvColumns + [Year]);
      Ok(CsvColumns + [Year])
    case Some(cs) =>
      if cs == [] then
        assert Distinct(CsvColumns + [Year]);
        Ok(CsvColumns + [Year])
      else match Project(cs)
        case Err(e) => Err(e)
        case Ok(p) =>
          assert Year !in p;
          Ok(p + [Year])
  }

  /** Fetches one year, projects it when a column list is given and adds the
      year column: the part of every loader that comes before filtering. */
  function Load(src: Source, year: nat, code: string, columns: Option<seq<Column>>): (r: Result<Frame>)
    ensures r.Ok? <==> Fetch(src, year, code).Ok? && LoadedColumns(columns).Ok?
    ensures r.Ok? ==> (r.value.rows == Tag(Fetch(src, year, code).value, year)
                       && r.value.columns == LoadedColumns(columns).value)
  {
    match Fetch(src, year, code)
    case Err(e) => Err(e)
    case Ok(rows) =>
      match LoadedColumns(columns)
      case Err(e) => Err(e)
      case Ok(cs) => Ok(Frame(cs, Tag(rows, year)))
  }

  /** Every row of a loaded frame belongs to the requested year. */
  lemma LoadYear(src: Source, year: nat, code: string, columns: Option<seq<Column>>)
    requires Load(src, year, code, columns).Ok?
    ensures forall r :: r in Load(src, year, code, columns).value.rows ==> r.year == year
  {
    TagYear(Fetch(src, year, code).value, year);
  }

  // ---------------------------------------------------------------------------
  // Membership filters

  /** The four optional inclusion lists of the export page. */
  datatype FilterSpec = FilterSpec(neighborhoods: seq<string>, parties: seq<string>,
                                   candidates: seq<string>, municipalities: seq<string>)

  const NoFilters := FilterSpec([], [], [], [])

  /** The text held by a column; the numeric columns hold none. */
  function Field(r: Record, c: Column): string {
    match c
    case Name => r.name
    case Party => r.party
    case Municipality => r.municipality
    case Neighborhood => r.neighborhood
    case Office => r.office
    case Votes => []
    case Year => []
  }

  /** A row passes one inclusion list: the list is empty, or holds the row's value. */
  predicate Admits(values: seq<string>, c: Column, r: Record) {
    values == [] || Field(r, c) in values
  }

  /** The rows one inclusion list lets through, in their order. */
  function KeepRows(rows: seq<Record>, c: Column, values: seq<string>): (res: seq<Record>)
    ensures |res| <= |rows|
    ensures forall x :: x in res <==> x in rows && Admits(values, c, x)
  {
    if rows == [] then []
    else (if Admits(values, c, rows[0]) then [rows[0]] else []) + KeepRows(rows[1..], c, values)
  }

  /** `if values: df = df.filter(col.is_in(values))`: an empty list leaves the
      frame as it is, otherwise the column must exist. */
  function KeepIn(f: Frame, c: Column, values: seq<string>): (r: Result<Frame>)
    ensures values == [] ==> r == Ok(f)
    ensures r.Ok? <==> values == [] || c in f.columns
    ensures r.Ok? ==> r.value == Frame(f.columns, KeepRows(f.rows, c, values))
  {
    if values == [] then
      KeepAll(f.rows, c, values);
      Ok(f)
    else if c !in f.columns then Err(MissingColumn)
    else Ok(Frame(f.columns, KeepRows(f.rows, c, values)))
  }

  lemma {:induction false} KeepAll(rows: seq<Record>, c: Column, values: seq<string>)
    requires values == []
    ensures KeepRows(rows, c, values) == rows
  {
    if rows != [] {
      KeepAll(rows[1..], c, values);
      assert rows == [rows[0]] + rows[1..];
    }
  }

  /** A row satisfies every non-empty list of the specification. */
  predicate Passes(spec: FilterSpec, r: Record) {
    && Admits(spec.neighborhoods, Neighborhood, r)
    && Admits(spec.parties, Party, r)
    && Admits(spec.candidates, Name, r)
    && Admits(spec.municipalities, Municipality, r)
  }

  /** The columns each non-empty list needs. */
  predicate HasFilterColumns(spec: FilterSpec, columns: seq<Column>) {
    && (spec.neighborhoods == [] || Neighborhood in columns)
    && (spec.parties == [] || Party in columns)
    && (spec.candidates == [] || Name in columns)
    && (spec.municipalities == [] || Municipality in columns)
  }

  /** The rows that pass the whole specification, in their order. */
  function Passing(rows: seq<Record>, spec: FilterSpec): (res: seq<Record>)
  {
    if rows == [] then []
    else (if Passes(spec, rows[0]) then [rows[0]] else []) + Passing(rows[1..], spec)
  }

  /** The filters of `load_data`, in its order: neighbourhood, party,
      candidate, municipality. */
  function ApplyFilters(f: Frame, spec: FilterSpec): Result<Frame>
  {
    match KeepIn(f, Neighborhood, spec.neighborhoods)
    case Err(e) => Err(e)
    case Ok(f1) =>
      match KeepIn(f1, Party, spec.parties)
      case Err(e) => Err(e)
      case Ok(f2) =>
        match KeepIn(f2, Name, spec.candidates)
        case Err(e) => Err(e)
        case Ok(f3) => KeepIn(f3, Municipality, spec.municipalities)
  }

  /** The four lists applied one after the other, on rows. */
  function Chain(rows: seq<Record>, spec: FilterSpec): seq<Record> {
    KeepRows(KeepRows(KeepRows(KeepRows(rows, Neighborhood, spec.neighborhoods),
      Party, spec.parties), Name, spec.candidates), Municipality, spec.municipalities)
  }

  lemma {:induction false} ChainIsPassing(rows: seq<Record>, spec: FilterSpec)
    ensures Chain(rows, spec) == Passing(rows, spec)
  {
    if rows != [] {
      ChainIsPassing(rows[1..], spec);
      var r := rows[0];
      var k1 := KeepRows(rows, Neighborhood, spec.neighborhoods);
      var t1 := KeepRows(rows[1..], Neighborhood, spec.neighborhoods);
      if Admits(spec.neighborhoods, Neighborhood, r) {
        assert k1 == [r] + t1;
        assert k1[1..] == t1;
        var k2 := KeepRows(k1, Party, spec.parties);
        var t2 := KeepRows(t1, Party, spec.parties);
        if Admits(spec.parties, Party, r) {
          assert k2 == [r] + t2;
          assert k2[1..] == t2;
          var k3 := KeepRows(k2, Name, spec.candidates);
          var t3 := KeepRows(t2, Name, spec.candidates);
          if Admits(spec.candidates, Name, r) {
            assert k3 == [r] + t3;
            assert k3[1..] == t3;
          } else {
            assert k3 == t3;
          }
        } else {
          assert k2 == t2;
        }
      } else {
        assert k1 == t1;
      }
    }
  }

  lemma {:induction false} PassingMembers(rows: seq<Record>, spec: FilterSpec)
    ensures forall x :: x in Passing(rows, spec) <==> x in rows && Passes(spec, x)
  {
    if rows != [] {
      PassingMembers(rows[1..], spec);
      assert rows == [rows[0]] + rows[1..];
    }
  }

  lemma {:induction false} PassingIsSubseq(rows: seq<Record>, spec: FilterSpec)
    ensures SubseqOf(Passing(rows, spec), rows)
  {
    if rows != [] {
      PassingIsSubseq(rows[1..], spec);
      if Passes(spec, rows[0]) {
        assert Passing(rows, spec)[1..] == Passing(rows[1..], spec);
      } else {
        assert Passing(rows, spec) == Passing(rows[1..], spec);
      }
    }
  }

  lemma {:induction false} PassingTwice(rows: seq<Record>, spec: FilterSpec)
    ensures Passing(Passing(rows, spec), spec) == Passing(rows, spec)
  {
    if rows != [] {
      PassingTwice(rows[1..], spec);
      if Passes(spec, rows[0]) {
        var p := Passing(rows, spec);
        assert p == [rows[0]] + Passing(rows[1..], spec);
        assert p[1..] == Passing(rows[1..], spec);
        assert Passing(p, spec) == [rows[0]] + Passing(p[1..], spec);
      } else {
        assert Passing(rows, spec) == Passing(rows[1..], spec);
      }
    }
  }

  lemma {:induction false} PassingNoFilters(rows: seq<Record>)
    ensures Passing(rows, NoFilters) == rows
  {
    if rows != [] {
      PassingNoFilters(rows[1..]);
      assert rows == [rows[0]] + rows[1..];
    }
  }

  /** The four filters together keep exactly the rows that pass all of them,
      as an order-preserving subsequence, and leave the columns as they were;
      a list needs its column only when it is not empty. */
  lemma FiltersAreConjunction(f: Frame, spec: FilterSpec)
    ensures ApplyFilters(f, spec).Ok? <==> HasFilterColumns(spec, f.columns)
    ensures ApplyFilters(f, spec).Ok? ==>
      && ApplyFilters(f, spec).value == Frame(f.columns, Passing(f.rows, spec))
      && (forall x :: x in Passing(f.rows, spec) <==> x in f.rows && Passes(spec, x))
      && SubseqOf(Passing(f.rows, spec), f.rows)
  {
    ApplyFiltersChain(f, spec);
    ChainIsPassing(f.rows, spec);
    PassingMembers(f.rows, spec);
    PassingIsSubseq(f.rows, spec);
  }

  lemma ApplyFiltersChain(f: Frame, spec: FilterSpec)
    ensures ApplyFilters(f, spec).Ok? <==> HasFilterColumns(spec, f.columns)
    ensures ApplyFilters(f, spec).Ok? ==> ApplyFilters(f, spec).value == Frame(f.columns, Chain(f.rows, spec))
  {
    var f1 := KeepIn(f, Neighborhood, spec.neighborhoods);
    if f1.Ok? {
      assert f1.value.columns == f.columns;
      var f2 := KeepIn(f1.value, Party, spec.parties);
      if f2.Ok? {
        assert f2.value.columns == f.columns;
        var f3 := KeepIn(f2.value, Name, spec.candidates);
        if f3.Ok? {
          assert f3.value.columns == f.columns;
        }
      }
    }
  }

  /** Filtering twice with the same lists is filtering once. */
  lemma FiltersIdempotent(f: Frame, spec: FilterSpec)
    requires ApplyFilters(f, spec).Ok?
    ensures ApplyFilters(ApplyFilters(f, spec).value, spec) == ApplyFilters(f, spec)
  {
    FiltersAreConjunction(f, spec);
    FiltersAreConjunction(ApplyFilters(f, spec).value, spec);
    PassingTwice(f.rows, spec);
  }

  /** With every list empty the frame passes through unchanged. */
  lemma NoFiltersIdentity(f: Frame)
    ensures ApplyFilters(f, NoFilters) == Ok(f)
  {
  }

  // ---------------------------------------------------------------------------
  // The name normaliser

  /** The one alias spelling the views rewrite, and its canonical form. */
  const Junior := "PEDRO DUARTE JR"
  const Canonical := "PEDRO DUARTE"

  /** `str.replace('PEDRO DUARTE JR', 'PEDRO DUARTE')`: the leftmost occurrence
      of the alias is rewritten; a name without it is left as it is. */
  function CanonicalName(s: string): (r: string)
    ensures (forall j: nat :: !Text.OccursAt(s, Junior, j)) ==> r == s
    ensures forall i: nat :: Text.FirstAt(s, Junior, i) ==> r == s[..i] + Canonical + s[i + |Junior|..]
  {
    Text.ReplaceFirst(s, Junior, Canonical)
  }

  /** A string that is exactly the pattern is replaced as a whole. */
  lemma ReplaceWhole(s: string, rep: string)
    ensures Text.ReplaceFirst(s, s, rep) == rep
  {
    assert Text.OccursAt(s, s, 0);
    assert Text.FirstAt(s, s, 0);
    assert s[..0] + rep + s[|s|..] == rep;
  }

  /** The raw alias reads as the canonical name once normalised. */
  lemma JuniorIsCanonicalised()
    ensures CanonicalName(Junior) == Canonical
  {
    ReplaceWhole(Junior, Canonical);
  }

  /** The rewrite is not idempotent: a name holding the alias twice loses one
      suffix per application. */
  lemma CanonicalNameNotIdempotent()
    ensures CanonicalName(Junior + " JR") == Junior
    ensures CanonicalName(CanonicalName(Junior + " JR")) == Canonical != Junior
  {
    var s := Junior + " JR";
    assert s[0..|Junior|] == Junior;
    assert Text.OccursAt(s, Junior, 0);
    assert Text.FirstAt(s, Junior, 0);
    assert s[..0] + Canonical + s[|Junior|..] == Junior;
    JuniorIsCanonicalised();
  }
}
