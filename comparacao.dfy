/** The page that compares candidates by votes in one year's results file: the
    per-candidate vote totals, the ten most voted (candidate, neighbourhood)
    pairs, and the party-by-municipality heatmap restricted to the ten most
    voted parties and the ten most voted municipalities. */
module Comparison {
  import opened Seqs
  import Text
  import opened Frames
  import opened Aggregate

  /** The years offered by the year box, most recent first. */
  const YearOptions: seq<nat> := [2024, 2022, 2020, 2018, 2016]

  /** How many neighbourhoods, parties and municipalities the charts keep. */
  const TopCount: nat := 10

  // ---------------------------------------------------------------------------
  // Reading the file

  /** `read_csv`: every line of the year's file as a record of that year, or
      `None` (after a warning) when the file cannot be fetched or parsed. */
  function ReadCsv(src: Source, year: nat, code: string): (r: Option<seq<Record>>)
    ensures r.Some? <==> Fetch(src, year, code).Ok?
    ensures r.Some? ==> |r.value| == |Fetch(src, year, code).value|
    ensures r.Some? ==> forall i :: 0 <= i < |r.value| ==>
      r.value[i].year == year && r.value[i] == ToRecord(Fetch(src, year, code).value[i], year)
  {
    match Fetch(src, year, code)
    case Err(_) => None
    case Ok(rows) => Some(Tag(rows, year))
  }

  /** The candidate names of the records, in record order. */
  function Names(rows: seq<Record>): (r: seq<string>)
    ensures |r| == |rows|
    ensures forall i :: 0 <= i < |rows| ==> r[i] == rows[i].name
  {
    if rows == [] then [] else [rows[0].name] + Names(rows[1..])
  }

  /** `df['Nome do candidato'].unique()`: the options of the candidate box,
      every name of the file once, in the order names first appear. */
  function CandidateOptions(rows: seq<Record>): (r: seq<string>)
    ensures Distinct(r)
    ensures forall n :: n in r <==> exists x :: x in rows && x.name == n
  {
    var ns := Names(rows);
    assert forall x :: x in rows ==> x.name in ns;
    Unique(ns)
  }

  // ---------------------------------------------------------------------------
  // The chosen candidates

  function NameIn(selected: seq<string>): Record -> bool {
    (x: Record) => x.name in selected
  }

  /** `df[df['Nome do candidato'].isin(candidatos)]`: the records of the chosen
      candidates, in file order. */
  function Chosen(rows: seq<Record>, selected: seq<string>): (r: seq<Record>)
    ensures SubseqOf(r, rows)
    ensures forall x :: x in r <==> x in rows && x.name in selected
  {
    WhereIsSubseq(rows, NameIn(selected));
    Where(rows, NameIn(selected))
  }

  // ---------------------------------------------------------------------------
  // Records as (key, votes) pairs

  function NameIs(n: string): Record -> bool {
    (x: Record) => x.name == n
  }

  /** The records' (key, votes) pairs, the input of a `groupby(key)['Votos'].sum()`. */
  function Pairs<K>(rows: seq<Record>, key: Record -> K): (r: seq<(K, int)>)
    ensures |r| == |rows|
    ensures forall i :: 0 <= i < |rows| ==> r[i] == (key(rows[i]), rows[i].votes)
  {
    if rows == [] then [] else [(key(rows[0]), rows[0].votes)] + Pairs(rows[1..], key)
  }

  /** A total over the keys of the pairs is the total over the records whose
      key qualifies. */
  lemma {:induction false} PairsSumWhere<K>(rows: seq<Record>, key: Record -> K, q: K -> bool, keep: Record -> bool)
    requires forall x :: keep(x) <==> q(key(x))
    ensures SumWhere(Pairs(rows, key), q) == VoteSum(rows, keep)
  {
    if rows != [] {
      PairsSumWhere(rows[1..], key, q, keep);
      assert Pairs(rows, key)[1..] == Pairs(rows[1..], key);
    }
  }

  /** The sum of one key is the total of the records with that key. */
  lemma {:induction false} PairsSumOf<K>(rows: seq<Record>, key: Record -> K, k: K, keep: Record -> bool)
    requires forall x :: keep(x) <==> key(x) == k
    ensures SumOf(Pairs(rows, key), k) == VoteSum(rows, keep)
  {
    if rows != [] {
      PairsSumOf(rows[1..], key, k, keep);
      assert Pairs(rows, key)[1..] == Pairs(rows[1..], key);
    }
  }

  /** The keys of the pairs are the keys of the records. */
  lemma PairsKeys<K>(rows: seq<Record>, key: Record -> K)
    ensures forall k :: k in Keys(Pairs(rows, key)) <==> exists x :: x in rows && key(x) == k
  {
    var ks := Keys(Pairs(rows, key));
    forall k | k in ks ensures exists x :: x in rows && key(x) == k {
      var i :| 0 <= i < |ks| && ks[i] == k;
      assert rows[i] in rows;
    }
    forall k, x | x in rows && key(x) == k ensures k in ks {
      var i :| 0 <= i < |rows| && rows[i] == x;
      assert ks[i] == k;
    }
  }

  /** Records that were filtered out contribute nothing to a total. */
  lemma {:induction false} VotesOfWhere(rows: seq<Record>, p: Record -> bool, keep: Record -> bool, both: Record -> bool)
    requires forall x :: both(x) <==> p(x) && keep(x)
    ensures VoteSum(Where(rows, p), keep) == VoteSum(rows, both)
  {
    if rows != [] {
      VotesOfWhere(rows[1..], p, keep, both);
      if p(rows[0]) {
        assert Where(rows, p) == [rows[0]] + Where(rows[1..], p);
        assert Where(rows, p)[1..] == Where(rows[1..], p);
      } else {
        assert Where(rows, p) == [] + Where(rows[1..], p);
        assert Where(rows, p) == Where(rows[1..], p);
      }
    }
  }

  // ---------------------------------------------------------------------------
  // Votes per candidate

  function NameKey(x: Record): string { x.name }

  /** `groupby('Nome do candidato')['Votos'].sum()`: one bar per chosen
      candidate present in the records, the groups in ascending name order. */
  function PerCandidate(chosen: seq<Record>): (r: seq<(string, int)>)
    ensures Text.StrictlySorted(Keys(r))
    ensures forall n :: n in Keys(r) <==> exists x :: x in chosen && x.name == n
  {
    var ks := Text.SortedUnique(Names(chosen));
    var r := GroupOver(ks, Pairs(chosen, NameKey));
    assert Keys(r) == ks;
    assert forall x :: x in chosen ==> x.name in Names(chosen);
    r
  }

  lemma StrictlySortedDistinct(s: seq<string>)
    requires Text.StrictlySorted(s)
    ensures Distinct(s)
  {
    forall i, j | 0 <= i < j < |s| ensures s[i] != s[j] {
      Text.LessIrreflexive(s[i]);
    }
  }

  /** Each candidate's bar holds exactly the votes of that candidate's records. */
  lemma PerCandidateVotes(chosen: seq<Record>)
    ensures forall i :: 0 <= i < |PerCandidate(chosen)| ==>
      PerCandidate(chosen)[i].1 == VoteSum(chosen, NameIs(PerCandidate(chosen)[i].0))
  {
    var r := PerCandidate(chosen);
    forall i | 0 <= i < |r| ensures r[i].1 == VoteSum(chosen, NameIs(r[i].0)) {
      PairsSumOf(chosen, NameKey, r[i].0, NameIs(r[i].0));
    }
  }

  /** The bars add up to every vote of the chosen candidates in the file. */
  lemma PerCandidateTotal(rows: seq<Record>, selected: seq<string>)
    ensures Total(PerCandidate(Chosen(rows, selected))) == VoteSum(rows, NameIn(selected))
  {
    var chosen := Chosen(rows, selected);
    var ks := Text.SortedUnique(Names(chosen));
    var pairs := Pairs(chosen, NameKey);
    var all := (n: string) => true;
    StrictlySortedDistinct(ks);
    PairsKeys(chosen, NameKey);
    assert forall x :: x in chosen ==> x.name in Names(chosen);
    GroupOverPreserves(ks, pairs, all);
    TotalIsSumWhere(GroupOver(ks, pairs), all);
    PairsSumWhere(chosen, NameKey, all, Every());
    VotesOfWhere(rows, NameIn(selected), Every(), NameIn(selected));
  }

  // ---------------------------------------------------------------------------
  // The ten most voted neighbourhoods

  function CandidateNeighborhood(x: Record): (string, string) { (x.name, x.neighborhood) }

  function Neighborhood(cn: (string, string)): Record -> bool {
    (x: Record) => CandidateNeighborhood(x) == cn
  }

  /** `groupby(['Nome do candidato', 'Bairro'])['Votos'].sum()` sorted by votes,
      descending, then `head(10)`. */
  function TopNeighborhoods(chosen: seq<Record>): (r: seq<((string, string), int)>)
    ensures |r| <= TopCount
    ensures NonIncreasing(r, ByVotes)
    ensures KeysUnique(r)
  {
    TopGroupsUnique(Pairs(chosen, CandidateNeighborhood), TopCount);
    Top(GroupSum(Pairs(chosen, CandidateNeighborhood)), TopCount)
  }

  /** Each listed (candidate, neighbourhood) occurs in the records and holds
      the votes of its records. */
  lemma TopNeighborhoodsVotes(chosen: seq<Record>)
    ensures forall x :: x in TopNeighborhoods(chosen) ==>
      (exists y :: y in chosen && CandidateNeighborhood(y) == x.0)
      && x.1 == VoteSum(chosen, Neighborhood(x.0))
  {
    var pairs := Pairs(chosen, CandidateNeighborhood);
    TopGroupsSums(pairs, TopCount);
    PairsKeys(chosen, CandidateNeighborhood);
    forall x | x in TopNeighborhoods(chosen) ensures x.1 == VoteSum(chosen, Neighborhood(x.0)) {
      PairsSumOf(chosen, CandidateNeighborhood, x.0, Neighborhood(x.0));
    }
  }

  /** A (candidate, neighbourhood) of the records that is not listed has no
      more votes than any listed one, and then ten are listed. */
  lemma TopNeighborhoodsLargest(chosen: seq<Record>, y: Record)
    requires y in chosen && CandidateNeighborhood(y) !in Keys(TopNeighborhoods(chosen))
    ensures |TopNeighborhoods(chosen)| == TopCount
    ensures forall x :: x in TopNeighborhoods(chosen) ==>
      VoteSum(chosen, Neighborhood(CandidateNeighborhood(y))) <= x.1
  {
    var pairs := Pairs(chosen, CandidateNeighborhood);
    var k := CandidateNeighborhood(y);
    PairsKeys(chosen, CandidateNeighborhood);
    TopGroupsLargest(pairs, TopCount, k);
    PairsSumOf(chosen, CandidateNeighborhood, k, Neighborhood(k));
  }

  // ---------------------------------------------------------------------------
  // Parties by municipality

  function PartyPlace(x: Record): (string, string) { (x.party, x.municipality) }

  function PartyOf(k: (string, string)): string { k.0 }

  function PlaceOf(k: (string, string)): string { k.1 }

  function PartyPlaceIs(k: (string, string)): Record -> bool {
    (x: Record) => PartyPlace(x) == k
  }

  /** `groupby(['Sigla do partido', 'Município'])['Votos'].sum()`: one cell
      per (party, municipality) of the records with its votes. */
  function PartyPlaceVotes(chosen: seq<Record>): (r: seq<((string, string), int)>)
    ensures KeysUnique(r)
  {
    KeysUniqueIsDistinct(GroupSum(Pairs(chosen, PartyPlace)));
    GroupSum(Pairs(chosen, PartyPlace))
  }

  /** The cells are exactly the (party, municipality) pairs of the records,
      each with the votes of its records. */
  lemma PartyPlaceCells(chosen: seq<Record>)
    ensures forall k :: k in Keys(PartyPlaceVotes(chosen)) <==> exists x :: x in chosen && PartyPlace(x) == k
    ensures forall c :: c in PartyPlaceVotes(chosen) ==> c.1 == VoteSum(chosen, PartyPlaceIs(c.0))
  {
    var g := PartyPlaceVotes(chosen);
    PairsKeys(chosen, PartyPlace);
    forall c | c in g ensures c.1 == VoteSum(chosen, PartyPlaceIs(c.0)) {
      PairsSumOf(chosen, PartyPlace, c.0, PartyPlaceIs(c.0));
    }
  }

  /** `groupby(part, as_index=False)['Votos'].sum()`: one pair per value of
      the key part, the values in ascending order, each with its votes. */
  function PartGroups(cells: seq<((string, string), int)>, part: ((string, string)) -> string): (r: seq<(string, int)>)
    ensures Text.StrictlySorted(Keys(r)) && KeysUnique(r)
    ensures forall v :: v in Keys(r) <==> v in Keys(Rekey(cells, part))
    ensures forall i :: 0 <= i < |r| ==> r[i].1 == SumOf(Rekey(cells, part), r[i].0)
  {
    var s := Rekey(cells, part);
    var r := GroupOver(Text.SortedUnique(Keys(s)), s);
    assert Keys(r) == Text.SortedUnique(Keys(s));
    StrictlySortedDistinct(Keys(r));
    KeysUniqueIsDistinct(r);
    r
  }

  /** `groupby(part)['Votos'].sum().nlargest(10, 'Votos')[part]`, where `part`
      picks the party or the municipality out of a cell's key. */
  function TopOf(cells: seq<((string, string), int)>, part: ((string, string)) -> string): (r: seq<string>)
    ensures |r| <= TopCount
    ensures Distinct(r)
  {
    var t := Top(PartGroups(cells, part), TopCount);
    TopUnique(PartGroups(cells, part), TopCount);
    assert forall i, j :: 0 <= i < j < |t| ==> Keys(t)[i] != Keys(t)[j];
    Keys(t)
  }

  function TopParties(chosen: seq<Record>): seq<string> {
    TopOf(PartyPlaceVotes(chosen), PartyOf)
  }

  function TopPlaces(chosen: seq<Record>): seq<string> {
    TopOf(PartyPlaceVotes(chosen), PlaceOf)
  }

  function FieldIs(field: Record -> string, v: string): Record -> bool {
    (x: Record) => field(x) == v
  }

  function PartOf(part: ((string, string)) -> string, v: string): ((string, string)) -> bool {
    (k: (string, string)) => part(k) == v
  }

  /** Regrouping the cells by one part of the key gives, for every value of
      that part, the votes of the records that carry it. */
  lemma RegroupVotes(chosen: seq<Record>, part: ((string, string)) -> string, field: Record -> string, v: string)
    requires forall x :: part(PartyPlace(x)) == field(x)
    ensures SumOf(Rekey(PartyPlaceVotes(chosen), part), v) == VoteSum(chosen, FieldIs(field, v))
  {
    var q := PartOf(part, v);
    RekeySumOf(PartyPlaceVotes(chosen), part, v, q);
    GroupSumPreserves(Pairs(chosen, PartyPlace), q);
    PairsSumWhere(chosen, PartyPlace, q, FieldIs(field, v));
  }

  /** The values of a key part among the cells are those of the records. */
  lemma RegroupKeysOf(chosen: seq<Record>, part: ((string, string)) -> string, field: Record -> string)
    requires forall x :: part(PartyPlace(x)) == field(x)
    ensures forall v :: v in Keys(Rekey(PartyPlaceVotes(chosen), part)) <==> exists x :: x in chosen && field(x) == v
  {
    RekeyKeys(PartyPlaceVotes(chosen), part);
    PartyPlaceCells(chosen);
  }

  /** Each of the top values occurs in the records, and a value of the records
      that is left out has no more votes than any top value; then ten are kept. */
  lemma TopOfLargest(chosen: seq<Record>, part: ((string, string)) -> string, field: Record -> string, y: Record, w: string)
    requires forall x :: part(PartyPlace(x)) == field(x)
    requires y in chosen && field(y) !in TopOf(PartyPlaceVotes(chosen), part)
    requires w in TopOf(PartyPlaceVotes(chosen), part)
    ensures |TopOf(PartyPlaceVotes(chosen), part)| == TopCount
    ensures VoteSum(chosen, FieldIs(field, field(y))) <= VoteSum(chosen, FieldIs(field, w))
  {
    RegroupKeysOf(chosen, part, field);
    PartTop(PartyPlaceVotes(chosen), part, field(y), w);
    RegroupVotes(chosen, part, field, field(y));
    RegroupVotes(chosen, part, field, w);
  }

  /** Of values tied on votes, `nlargest` keeps the one that comes first in the
      key-sorted groups: a value of the records left out with as many votes
      as a top value sorts after it. */
  lemma TopOfFirst(chosen: seq<Record>, part: ((string, string)) -> string, field: Record -> string, y: Record, w: string)
    requires forall x :: part(PartyPlace(x)) == field(x)
    requires y in chosen && field(y) !in TopOf(PartyPlaceVotes(chosen), part)
    requires w in TopOf(PartyPlaceVotes(chosen), part)
    requires VoteSum(chosen, FieldIs(field, field(y))) == VoteSum(chosen, FieldIs(field, w))
    ensures Text.Less(w, field(y))
  {
    RegroupKeysOf(chosen, part, field);
    PartTop(PartyPlaceVotes(chosen), part, field(y), w);
    RegroupVotes(chosen, part, field, field(y));
    RegroupVotes(chosen, part, field, w);
  }

  /** On the regrouped cells: a value left out of the top ten has no more
      votes than a top value, the ten are full, and on equal votes the top
      value sorts first. */
  lemma PartTop(cells: seq<((string, string), int)>, part: ((string, string)) -> string, v: string, w: string)
    requires v in Keys(Rekey(cells, part)) && v !in TopOf(cells, part) && w in TopOf(cells, part)
    ensures |TopOf(cells, part)| == TopCount
    ensures SumOf(Rekey(cells, part), v) <= SumOf(Rekey(cells, part), w)
    ensures SumOf(Rekey(cells, part), v) == SumOf(Rekey(cells, part), w) ==> Text.Less(w, v)
  {
    var g := PartGroups(cells, part);
    var t := Top(g, TopCount);
    assert TopOf(cells, part) == Keys(t);
    var i :| 0 <= i < |g| && Keys(g)[i] == v;
    var j :| 0 <= j < |t| && Keys(t)[j] == w;
    PartGroupsOrdered(cells, part);
    TopAgainst(g, TopCount, StringBefore, i, j);
  }

  lemma PartGroupsOrdered(cells: seq<((string, string), int)>, part: ((string, string)) -> string)
    ensures KeysOrdered(PartGroups(cells, part), StringBefore)
  {
    var g := PartGroups(cells, part);
    forall a, b | 0 <= a < b < |g| ensures StringBefore(g[a].0, g[b].0) {
      assert Keys(g)[a] == g[a].0 && Keys(g)[b] == g[b].0;
    }
  }

  function StringBefore(a: string, b: string): bool { Text.Less(a, b) }

  /** Every top value is a value of the records. */
  lemma TopOfMembers(chosen: seq<Record>, part: ((string, string)) -> string, field: Record -> string)
    requires forall x :: part(PartyPlace(x)) == field(x)
    ensures forall w :: w in TopOf(PartyPlaceVotes(chosen), part) ==> exists x :: x in chosen && field(x) == w
  {
    RegroupKeysOf(chosen, part, field);
    TopMembers(PartGroups(PartyPlaceVotes(chosen), part), TopCount);
  }

  function PartyField(x: Record): string { x.party }

  function PlaceField(x: Record): string { x.municipality }

  /** The ten parties with most votes among the chosen candidates. */
  lemma TopPartiesLargest(chosen: seq<Record>, y: Record, w: string)
    requires y in chosen && y.party !in TopParties(chosen) && w in TopParties(chosen)
    ensures |TopParties(chosen)| == TopCount
    ensures VoteSum(chosen, FieldIs(PartyField, y.party)) <= VoteSum(chosen, FieldIs(PartyField, w))
    ensures VoteSum(chosen, FieldIs(PartyField, y.party)) == VoteSum(chosen, FieldIs(PartyField, w)) ==> Text.Less(w, y.party)
  {
    TopOfLargest(chosen, PartyOf, PartyField, y, w);
    if VoteSum(chosen, FieldIs(PartyField, y.party)) == VoteSum(chosen, FieldIs(PartyField, w)) {
      TopOfFirst(chosen, PartyOf, PartyField, y, w);
    }
  }

  /** The ten municipalities with most votes among the chosen candidates. */
  lemma TopPlacesLargest(chosen: seq<Record>, y: Record, w: string)
    requires y in chosen && y.municipality !in TopPlaces(chosen) && w in TopPlaces(chosen)
    ensures |TopPlaces(chosen)| == TopCount
    ensures VoteSum(chosen, FieldIs(PlaceField, y.municipality)) <= VoteSum(chosen, FieldIs(PlaceField, w))
    ensures VoteSum(chosen, FieldIs(PlaceField, y.municipality)) == VoteSum(chosen, FieldIs(PlaceField, w)) ==> Text.Less(w, y.municipality)
  {
    TopOfLargest(chosen, PlaceOf, PlaceField, y, w);
    if VoteSum(chosen, FieldIs(PlaceField, y.municipality)) == VoteSum(chosen, FieldIs(PlaceField, w)) {
      TopOfFirst(chosen, PlaceOf, PlaceField, y, w);
    }
  }

  /** The top parties and municipalities are parties and municipalities of the records. */
  lemma TopPartiesAndPlacesOccur(chosen: seq<Record>)
    ensures forall w :: w in TopParties(chosen) ==> exists x :: x in chosen && x.party == w
    ensures forall w :: w in TopPlaces(chosen) ==> exists x :: x in chosen && x.municipality == w
  {
    TopOfMembers(chosen, PartyOf, PartyField);
    TopOfMembers(chosen, PlaceOf, PlaceField);
  }

  function InBoth(parties: seq<string>, places: seq<string>): ((string, string)) -> bool {
    (k: (string, string)) => k.0 in parties && k.1 in places
  }

  /** `df_parties[isin(top parties) & isin(top municipalities)]`: the heatmap cells. */
  function Heatmap(chosen: seq<Record>): (r: seq<((string, string), int)>)
    ensures forall c :: c in r <==>
      c in PartyPlaceVotes(chosen) && c.0.0 in TopParties(chosen) && c.0.1 in TopPlaces(chosen)
  {
    KeepKeys(PartyPlaceVotes(chosen), InBoth(TopParties(chosen), TopPlaces(chosen)))
  }

  /** Every heatmap cell is a (party, municipality) whose party and
      municipality are both in their top ten, with the votes of its records. */
  lemma HeatmapVotes(chosen: seq<Record>)
    ensures forall c :: c in Heatmap(chosen) ==>
      c.0.0 in TopParties(chosen) && c.0.1 in TopPlaces(chosen) && c.1 == VoteSum(chosen, PartyPlaceIs(c.0))
  {
    PartyPlaceCells(chosen);
  }

  /** Every record whose party and municipality are both in their top ten has
      its cell in the heatmap. */
  lemma HeatmapComplete(chosen: seq<Record>, x: Record)
    requires x in chosen && x.party in TopParties(chosen) && x.municipality in TopPlaces(chosen)
    ensures exists c :: c in Heatmap(chosen) && c.0 == PartyPlace(x)
  {
    var pairs := Pairs(chosen, PartyPlace);
    var j :| 0 <= j < |chosen| && chosen[j] == x;
    assert Keys(pairs)[j] == PartyPlace(x);
    KeptKey(PartyPlaceVotes(chosen), InBoth(TopParties(chosen), TopPlaces(chosen)), PartyPlace(x));
  }

  lemma KeptKey<K(!new)>(s: seq<(K, int)>, q: K -> bool, k: K)
    requires k in Keys(s) && q(k)
    ensures exists c :: c in KeepKeys(s, q) && c.0 == k
  {
    var i :| 0 <= i < |s| && Keys(s)[i] == k;
    assert s[i] in KeepKeys(s, q);
  }

  // ---------------------------------------------------------------------------
  // The page

  datatype Page =
    | NotFound
    | Charts(options: seq<string>, perCandidate: seq<(string, int)>,
             neighborhoods: seq<((string, string), int)>, heatmap: seq<((string, string), int)>)

  /** The page for one year, state and set of chosen candidates: only the
      warning when the file could not be read, otherwise the three charts. */
  function ComparisonPage(src: Source, year: nat, code: string, selected: seq<string>): (p: Page)
    ensures p.NotFound? <==> !Fetch(src, year, code).Ok?
    ensures p.Charts? ==> forall n :: n in Keys(p.perCandidate) <==> n in selected && n in p.options
    ensures p.Charts? ==> |p.neighborhoods| <= TopCount
    ensures p.Charts? ==>
      var chosen := Chosen(ReadCsv(src, year, code).value, selected);
      p.perCandidate == PerCandidate(chosen) && p.neighborhoods == TopNeighborhoods(chosen)
      && p.heatmap == Heatmap(chosen)
  {
    match ReadCsv(src, year, code)
    case None => NotFound
    case Some(rows) =>
      var chosen := Chosen(rows, selected);
      Charts(CandidateOptions(rows), PerCandidate(chosen), TopNeighborhoods(chosen), Heatmap(chosen))
  }
}
