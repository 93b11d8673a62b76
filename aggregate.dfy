/** Group-by-sum, descending sort and top-N over (key, votes) pairs: what the
    views do with `group_by(...).agg(sum('Votos'))`, `sort(descending=True)`,
    `head(10)` and `nlargest(10, 'Votos')`. */
module Aggregate {
  import opened Seqs

  /** The keys of a list of (key, votes) pairs. */
  function Keys<K>(s: seq<(K, int)>): (r: seq<K>)
    ensures |r| == |s|
    ensures forall i :: 0 <= i < |s| ==> r[i] == s[i].0
  {
    if s == [] then [] else [s[0].0] + Keys(s[1..])
  }

  /** The votes of the pairs whose key satisfies `q`, added up. */
  function SumWhere<K>(s: seq<(K, int)>, q: K -> bool): int
  {
    if s == [] then 0 else (if q(s[0].0) then s[0].1 else 0) + SumWhere(s[1..], q)
  }

  /** All votes added up (`sum('Votos')`). */
  function Total<K>(s: seq<(K, int)>): int
  {
    if s == [] then 0 else s[0].1 + Total(s[1..])
  }

  /** The votes of the pairs with key `k`, added up. */
  function SumOf<K(==)>(s: seq<(K, int)>, k: K): int
  {
    if s == [] then 0 else (if s[0].0 == k then s[0].1 else 0) + SumOf(s[1..], k)
  }

  /** The pairs whose key is not `k`. */
  function Without<K(==)>(s: seq<(K, int)>, k: K): (r: seq<(K, int)>)
    ensures |r| <= |s|
    ensures forall i :: 0 <= i < |r| ==> r[i].0 != k && r[i] in s
    ensures forall i :: 0 <= i < |s| && s[i].0 != k ==> s[i] in r
  {
    if s == [] then []
    else (if s[0].0 == k then [] else [s[0]]) + Without(s[1..], k)
  }

  /** One pair per key of `ks`, holding the sum of that key's votes. */
  function GroupOver<K(==)>(ks: seq<K>, s: seq<(K, int)>): (r: seq<(K, int)>)
    ensures |r| == |ks|
    ensures forall i :: 0 <= i < |r| ==> r[i] == (ks[i], SumOf(s, ks[i]))
  {
    seq(|ks|, i requires 0 <= i < |ks| => (ks[i], SumOf(s, ks[i])))
  }

  /** `group_by(key).agg(sum)`: one pair per distinct key, in the order keys
      are first met, with the key's summed votes. */
  function GroupSum<K(==,!new)>(s: seq<(K, int)>): (r: seq<(K, int)>)
    ensures Distinct(Keys(r))
    ensures forall k :: k in Keys(r) <==> k in Keys(s)
    ensures forall i :: 0 <= i < |r| ==> r[i].1 == SumOf(s, r[i].0)
  {
    var r := GroupOver(Unique(Keys(s)), s);
    assert Keys(r) == Unique(Keys(s));
    r
  }

  lemma {:induction false} SplitByKey<K>(s: seq<(K, int)>, k: K, q: K -> bool)
    ensures SumWhere(s, q) == (if q(k) then SumOf(s, k) else 0) + SumWhere(Without(s, k), q)
  {
    if s != [] {
      SplitByKey(s[1..], k, q);
      if s[0].0 != k {
        assert Without(s, k) == [s[0]] + Without(s[1..], k);
        assert Without(s, k)[1..] == Without(s[1..], k);
      } else {
        assert Without(s, k) == [] + Without(s[1..], k);
        assert Without(s, k) == Without(s[1..], k);
      }
    }
  }

  lemma {:induction false} SumOfWithout<K>(s: seq<(K, int)>, k: K, j: K)
    requires j != k
    ensures SumOf(Without(s, k), j) == SumOf(s, j)
  {
    if s != [] {
      SumOfWithout(s[1..], k, j);
      if s[0].0 != k {
        assert Without(s, k) == [s[0]] + Without(s[1..], k);
        assert Without(s, k)[1..] == Without(s[1..], k);
      } else {
        assert Without(s, k) == [] + Without(s[1..], k);
        assert Without(s, k) == Without(s[1..], k);
      }
    }
  }

  lemma GroupOverWithout<K>(ks: seq<K>, s: seq<(K, int)>, k: K)
    requires k !in ks
    ensures GroupOver(ks, Without(s, k)) == GroupOver(ks, s)
  {
    forall i | 0 <= i < |ks| ensures SumOf(Without(s, k), ks[i]) == SumOf(s, ks[i]) {
      SumOfWithout(s, k, ks[i]);
    }
  }

  lemma WithoutKeys<K>(s: seq<(K, int)>, k: K, ks: seq<K>)
    requires forall x :: x in Keys(s) ==> x in ks
    requires |ks| > 0 && ks[0] == k
    ensures forall x :: x in Keys(Without(s, k)) ==> x in ks[1..]
  {
    var w := Without(s, k);
    forall x | x in Keys(w) ensures x in ks[1..] {
      var i :| 0 <= i < |w| && Keys(w)[i] == x;
      assert w[i] in s;
      var j :| 0 <= j < |s| && s[j] == w[i];
      assert Keys(s)[j] == x;
      assert x in ks && x != k;
    }
  }

  lemma FirstKey<K>(s: seq<(K, int)>)
    ensures s != [] ==> s[0].0 in Keys(s)
  {
    if s != [] {
      assert Keys(s)[0] == s[0].0;
    }
  }

  /** Any total over a predicate on keys is the same before and after grouping
      by a distinct list of keys that covers every key of the input. */
  lemma {:induction false} GroupOverPreserves<K>(ks: seq<K>, s: seq<(K, int)>, q: K -> bool)
    requires Distinct(ks)
    requires forall x :: x in Keys(s) ==> x in ks
    ensures SumWhere(GroupOver(ks, s), q) == SumWhere(s, q)
    decreases |ks|
  {
    FirstKey(s);
    if ks != [] {
      var k := ks[0];
      var rest := ks[1..];
      var w := Without(s, k);
      var g := GroupOver(ks, s);
      assert k !in rest by {
        forall i | 0 <= i < |rest| ensures rest[i] != k { assert rest[i] == ks[i + 1]; }
      }
      assert g[1..] == GroupOver(rest, s);
      GroupOverWithout(rest, s, k);
      WithoutKeys(s, k, ks);
      assert Distinct(rest) by {
        forall i, j | 0 <= i < j < |rest| ensures rest[i] != rest[j] {
          assert rest[i] == ks[i + 1] && rest[j] == ks[j + 1];
        }
      }
      GroupOverPreserves(rest, w, q);
      SplitByKey(s, k, q);
      assert SumWhere(g, q) == (if q(k) then SumOf(s, k) else 0) + SumWhere(g[1..], q);
    }
  }

  /** Grouping keeps the total of the votes of every set of keys: the group sums
      add up to the input's votes, and so does any part of them chosen by key. */
  lemma GroupSumPreserves<K(!new)>(s: seq<(K, int)>, q: K -> bool)
    ensures SumWhere(GroupSum(s), q) == SumWhere(s, q)
  {
    GroupOverPreserves(Unique(Keys(s)), s, q);
  }

  lemma {:induction false} TotalIsSumWhere<K>(s: seq<(K, int)>, q: K -> bool)
    requires forall k :: q(k)
    ensures Total(s) == SumWhere(s, q)
  {
    if s != [] {
      TotalIsSumWhere(s[1..], q);
    }
  }

  /** Sum preservation: the group sums add up to the input's total. */
  lemma GroupSumTotal<K(!new)>(s: seq<(K, int)>)
    ensures Total(GroupSum(s)) == Total(s)
  {
    var all := (k: K) => true;
    GroupSumPreserves(s, all);
    TotalIsSumWhere(s, all);
    TotalIsSumWhere(GroupSum(s), all);
  }

  // ---------------------------------------------------------------------------
  // Descending sort and top-N

  /** Ranks never increase along `s`. */
  predicate NonIncreasing<K>(s: seq<(K, int)>, rank: ((K, int)) -> int) {
    forall i, j :: 0 <= i < j < |s| ==> rank(s[j]) <= rank(s[i])
  }

  /** Inserts `x` after every element that ranks at least as high. */
  function InsertDesc<K(==)>(x: (K, int), s: seq<(K, int)>, rank: ((K, int)) -> int): (r: seq<(K, int)>)
    requires NonIncreasing(s, rank)
    ensures NonIncreasing(r, rank)
    ensures multiset(r) == multiset(s) + multiset{x}
  {
    if s == [] then [x]
    else if rank(x) > rank(s[0]) then [x] + s
    else
      NonIncreasingTail(s, rank);
      var t := InsertDesc(x, s[1..], rank);
      BoundedByHead(x, s, t, rank);
      ConsNonIncreasing(s[0], t, rank);
      assert s == [s[0]] + s[1..];
      [s[0]] + t
  }

  lemma NonIncreasingTail<K>(s: seq<(K, int)>, rank: ((K, int)) -> int)
    requires s != [] && NonIncreasing(s, rank)
    ensures NonIncreasing(s[1..], rank)
  {
    var t := s[1..];
    forall i, j | 0 <= i < j < |t| ensures rank(t[j]) <= rank(t[i]) {
      assert t[i] == s[i + 1] && t[j] == s[j + 1];
    }
  }

  /** Everything in a reordering of `s[1..]` plus `x` ranks no higher than `s[0]`. */
  lemma BoundedByHead<K>(x: (K, int), s: seq<(K, int)>, t: seq<(K, int)>, rank: ((K, int)) -> int)
    requires s != [] && NonIncreasing(s, rank) && rank(x) <= rank(s[0])
    requires multiset(t) == multiset(s[1..]) + multiset{x}
    ensures forall j :: 0 <= j < |t| ==> rank(t[j]) <= rank(s[0])
  {
    forall j | 0 <= j < |t| ensures rank(t[j]) <= rank(s[0]) {
      var y := t[j];
      assert y in multiset(t);
      if y != x {
        assert y in multiset(s[1..]);
        var i :| 0 <= i < |s[1..]| && s[1..][i] == y;
        assert s[i + 1] == y;
      }
    }
  }

  lemma ConsNonIncreasing<K>(h: (K, int), t: seq<(K, int)>, rank: ((K, int)) -> int)
    requires NonIncreasing(t, rank)
    requires forall j :: 0 <= j < |t| ==> rank(t[j]) <= rank(h)
    ensures NonIncreasing([h] + t, rank)
  {
    var r := [h] + t;
    forall i, j | 0 <= i < j < |r| ensures rank(r[j]) <= rank(r[i]) {
      assert r[j] == t[j - 1];
      if i > 0 {
        assert r[i] == t[i - 1];
      }
    }
  }

  /** `sort(rank, descending=True)`, stable. */
  function SortDesc<K(==)>(s: seq<(K, int)>, rank: ((K, int)) -> int): (r: seq<(K, int)>)
    ensures NonIncreasing(r, rank)
    ensures multiset(r) == multiset(s)
  {
    if s == [] then []
    else
      var r := InsertDesc(s[|s| - 1], SortDesc(s[..|s| - 1], rank), rank);
      assert s == s[..|s| - 1] + [s[|s| - 1]];
      r
  }

  /** The votes of a pair, the rank of `sort('Votos', descending=True)`. */
  function ByVotes<K>(p: (K, int)): int { p.1 }

  /** `sort_values('Votos', ascending=False).head(n)` and `nlargest(n, 'Votos')`:
      a stable sort by votes, descending, then the first `n`. */
  function Top<K(==)>(s: seq<(K, int)>, n: nat): (r: seq<(K, int)>)
    ensures |r| <= n && |r| <= |s|
    ensures NonIncreasing(r, ByVotes)
    ensures multiset(r) <= multiset(s)
  {
    var sorted := SortDesc(s, ByVotes);
    var r := Head(sorted, n);
    assert sorted == r + sorted[|r|..];
    assert |sorted| == |multiset(sorted)| == |s|;
    r
  }

  lemma PrefixDominates<K>(t: seq<(K, int)>, m: nat)
    requires m <= |t| && NonIncreasing(t, ByVotes)
    ensures forall x, y :: x in t[..m] && y in t[m..] ==> y.1 <= x.1
  {
    forall x, y | x in t[..m] && y in t[m..] ensures y.1 <= x.1 {
      var i :| 0 <= i < m && t[..m][i] == x;
      var j :| 0 <= j < |t| - m && t[m..][j] == y;
      assert ByVotes(t[m + j]) <= ByVotes(t[i]);
    }
  }

  /** What the top list leaves out has no more votes than anything in it. */
  lemma TopIsLargest<K>(s: seq<(K, int)>, n: nat)
    ensures forall x, y :: x in Top(s, n) && y in multiset(s) - multiset(Top(s, n)) ==> y.1 <= x.1
  {
    var sorted := SortDesc(s, ByVotes);
    var r := Top(s, n);
    assert r == sorted[..|r|];
    SplitDominates(s, sorted, |r|);
  }

  lemma SplitDominates<K>(s: seq<(K, int)>, t: seq<(K, int)>, m: nat)
    requires m <= |t| && NonIncreasing(t, ByVotes) && multiset(t) == multiset(s)
    ensures forall x, y :: x in t[..m] && y in multiset(s) - multiset(t[..m]) ==> y.1 <= x.1
  {
    var r, rest := t[..m], t[m..];
    assert t == r + rest;
    LeftOver(r, rest);
    PrefixDominates(t, m);
    forall x, y | x in r && y in multiset(s) - multiset(r) ensures y.1 <= x.1 {
      assert y in multiset(rest);
    }
  }

  lemma LeftOver<T>(a: seq<T>, b: seq<T>)
    ensures multiset(a + b) - multiset(a) == multiset(b)
  {
    assert multiset(a + b) == multiset(a) + multiset(b);
  }

  // ---------------------------------------------------------------------------
  // Filtering and re-keying

  /** The pairs whose key satisfies `q`, in their order (`filter` on a key column). */
  function KeepKeys<K(!new)>(s: seq<(K, int)>, q: K -> bool): (r: seq<(K, int)>)
    ensures |r| <= |s|
    ensures forall x :: x in r <==> x in s && q(x.0)
  {
    if s == [] then []
    else (if q(s[0].0) then [s[0]] else []) + KeepKeys(s[1..], q)
  }

  /** Filtering on the key keeps exactly the votes of the kept keys. */
  lemma {:induction false} TotalKeepKeys<K(!new)>(s: seq<(K, int)>, q: K -> bool)
    ensures Total(KeepKeys(s, q)) == SumWhere(s, q)
  {
    if s != [] {
      TotalKeepKeys(s[1..], q);
      if q(s[0].0) {
        assert KeepKeys(s, q)[1..] == KeepKeys(s[1..], q);
      } else {
        assert KeepKeys(s, q) == KeepKeys(s[1..], q);
      }
    }
  }

  /** Every pair re-keyed by `f` (`select` of one part of a composite key). */
  function Rekey<K, L>(s: seq<(K, int)>, f: K -> L): (r: seq<(L, int)>)
    ensures |r| == |s|
    ensures forall i :: 0 <= i < |s| ==> r[i] == (f(s[i].0), s[i].1)
  {
    if s == [] then [] else [(f(s[0].0), s[0].1)] + Rekey(s[1..], f)
  }

  /** Re-keying leaves the votes, and so their total, as they were. */
  lemma {:induction false} TotalRekey<K, L>(s: seq<(K, int)>, f: K -> L)
    ensures Total(Rekey(s, f)) == Total(s)
  {
    if s != [] {
      TotalRekey(s[1..], f);
      assert Rekey(s, f)[1..] == Rekey(s[1..], f);
    }
  }

  /** The votes regrouped under a new key `f(k)`, over the pairs whose key
      satisfies `q`, are the votes of the original pairs with both properties. */
  lemma {:induction false} RegroupSums<K(!new), L>(s: seq<(K, int)>, q: K -> bool, f: K -> L, v: L, both: K -> bool)
    requires forall k :: both(k) <==> q(k) && f(k) == v
    ensures SumOf(Rekey(KeepKeys(s, q), f), v) == SumWhere(s, both)
  {
    if s != [] {
      RegroupSums(s[1..], q, f, v, both);
      var kept := KeepKeys(s, q);
      if q(s[0].0) {
        assert kept[0] == s[0] && kept[1..] == KeepKeys(s[1..], q);
        assert Rekey(kept, f)[1..] == Rekey(KeepKeys(s[1..], q), f);
      } else {
        assert kept == KeepKeys(s[1..], q);
      }
    }
  }

  lemma RegroupKeyFrom<K(!new), L>(s: seq<(K, int)>, q: K -> bool, f: K -> L, j: nat)
    requires j < |KeepKeys(s, q)|
    ensures exists i :: 0 <= i < |s| && q(s[i].0) && f(s[i].0) == Keys(Rekey(KeepKeys(s, q), f))[j]
  {
    var kept := KeepKeys(s, q);
    assert kept[j] in kept;
    var i :| 0 <= i < |s| && s[i] == kept[j];
    assert Rekey(kept, f)[j] == (f(kept[j].0), kept[j].1);
  }

  lemma RegroupKeyTo<K(!new), L>(s: seq<(K, int)>, q: K -> bool, f: K -> L, i: nat)
    requires i < |s| && q(s[i].0)
    ensures f(s[i].0) in Keys(Rekey(KeepKeys(s, q), f))
  {
    var kept := KeepKeys(s, q);
    assert s[i] in kept;
    var j :| 0 <= j < |kept| && kept[j] == s[i];
    assert Rekey(kept, f)[j] == (f(kept[j].0), kept[j].1);
    assert Keys(Rekey(kept, f))[j] == f(s[i].0);
  }

  /** The new keys are exactly the `f`-images of the kept original keys. */
  lemma RegroupKeys<K(!new), L>(s: seq<(K, int)>, q: K -> bool, f: K -> L)
    ensures forall v :: v in Keys(Rekey(KeepKeys(s, q), f)) <==>
      exists i :: 0 <= i < |s| && q(s[i].0) && f(s[i].0) == v
  {
    var ks := Keys(Rekey(KeepKeys(s, q), f));
    forall v | v in ks ensures exists i :: 0 <= i < |s| && q(s[i].0) && f(s[i].0) == v {
      var j :| 0 <= j < |ks| && ks[j] == v;
      RegroupKeyFrom(s, q, f, j);
    }
    forall i | 0 <= i < |s| && q(s[i].0) ensures f(s[i].0) in ks {
      RegroupKeyTo(s, q, f, i);
    }
  }

  /** The votes of one key are a total over the predicate "is that key". */
  lemma {:induction false} SumOfIsSumWhere<K>(s: seq<(K, int)>, k: K, q: K -> bool)
    requires forall x :: q(x) <==> x == k
    ensures SumOf(s, k) == SumWhere(s, q)
  {
    if s != [] {
      SumOfIsSumWhere(s[1..], k, q);
    }
  }

  // ---------------------------------------------------------------------------
  // Reordering

  lemma {:induction false} SumWhereAppend<K>(a: seq<(K, int)>, b: seq<(K, int)>, q: K -> bool)
    ensures SumWhere(a + b, q) == SumWhere(a, q) + SumWhere(b, q)
  {
    if a == [] {
      assert a + b == b;
    } else {
      assert (a + b)[1..] == a[1..] + b;
      SumWhereAppend(a[1..], b, q);
    }
  }

  lemma SumWhereRemove<K>(b: seq<(K, int)>, k: nat, q: K -> bool)
    requires k < |b|
    ensures SumWhere(b, q) == SumWhere([b[k]], q) + SumWhere(b[..k] + b[k + 1..], q)
  {
    var front, x, back := b[..k], [b[k]], b[k + 1..];
    assert b == front + (x + back);
    SumWhereAppend(front, x + back, q);
    SumWhereAppend(x, back, q);
    SumWhereAppend(front, back, q);
  }

  lemma RemoveAt<K>(b: seq<(K, int)>, k: nat)
    requires k < |b|
    ensures multiset(b[..k] + b[k + 1..]) == multiset(b) - multiset{b[k]}
  {
    assert b == b[..k] + [b[k]] + b[k + 1..];
    assert multiset(b) == multiset(b[..k]) + multiset{b[k]} + multiset(b[k + 1..]);
  }

  /** A reordering keeps every total over keys. */
  lemma {:induction false} SumWherePermutation<K>(a: seq<(K, int)>, b: seq<(K, int)>, q: K -> bool)
    requires multiset(a) == multiset(b)
    ensures SumWhere(a, q) == SumWhere(b, q)
    decreases |a|
  {
    if a == [] {
      assert |b| == |multiset(b)| == 0;
    } else {
      assert a[0] in multiset(b);
      var k :| 0 <= k < |b| && b[k] == a[0];
      RemoveFirst(a, b, k);
      SumWherePermutation(a[1..], b[..k] + b[k + 1..], q);
      SumWhereRemove(b, k, q);
    }
  }

  lemma RemoveFirst<K>(a: seq<(K, int)>, b: seq<(K, int)>, k: nat)
    requires multiset(a) == multiset(b) && k < |b| && a != [] && b[k] == a[0]
    ensures multiset(a[1..]) == multiset(b[..k] + b[k + 1..])
  {
    RemoveAt(b, k);
    assert a == [a[0]] + a[1..];
  }

  /** A reordering keeps the total. */
  lemma TotalPermutation<K>(a: seq<(K, int)>, b: seq<(K, int)>)
    requires multiset(a) == multiset(b)
    ensures Total(a) == Total(b)
  {
    var all := (k: K) => true;
    SumWherePermutation(a, b, all);
    TotalIsSumWhere(a, all);
    TotalIsSumWhere(b, all);
  }

  /** A reordering has the same keys. */
  lemma KeysOfPermutation<K>(a: seq<(K, int)>, b: seq<(K, int)>)
    requires multiset(a) == multiset(b)
    ensures forall k :: k in Keys(a) <==> k in Keys(b)
  {
    forall k | k in Keys(a) ensures k in Keys(b) {
      var i :| 0 <= i < |a| && Keys(a)[i] == k;
      assert a[i] in multiset(b);
      var j :| 0 <= j < |b| && b[j] == a[i];
      assert Keys(b)[j] == k;
    }
    forall k | k in Keys(b) ensures k in Keys(a) {
      var j :| 0 <= j < |b| && Keys(b)[j] == k;
      assert b[j] in multiset(a);
      var i :| 0 <= i < |a| && a[i] == b[j];
      assert Keys(a)[i] == k;
    }
  }

  // ---------------------------------------------------------------------------
  // Unique keys

  /** No two pairs share a key. */
  predicate KeysUnique<K(==)>(s: seq<(K, int)>) {
    forall i, j :: 0 <= i < j < |s| ==> s[i].0 != s[j].0
  }

  /** No pair has key `k`. */
  predicate KeyFree<K(==)>(s: seq<(K, int)>, k: K) {
    forall i :: 0 <= i < |s| ==> s[i].0 != k
  }

  lemma KeysUniqueIsDistinct<K>(s: seq<(K, int)>)
    requires Distinct(Keys(s))
    ensures KeysUnique(s)
  {
    forall i, j | 0 <= i < j < |s| ensures s[i].0 != s[j].0 {
      assert Keys(s)[i] == s[i].0 && Keys(s)[j] == s[j].0;
    }
  }

  lemma SubmultisetKeyFree<K>(a: seq<(K, int)>, b: seq<(K, int)>, k: K)
    requires multiset(a) <= multiset(b) && KeyFree(b, k)
    ensures KeyFree(a, k)
  {
    forall i | 0 <= i < |a| ensures a[i].0 != k {
      assert a[i] in multiset(b);
      var j :| 0 <= j < |b| && b[j] == a[i];
    }
  }

  lemma ConsKeysUnique<K>(h: (K, int), t: seq<(K, int)>)
    requires KeysUnique(t) && KeyFree(t, h.0)
    ensures KeysUnique([h] + t)
  {
    var r := [h] + t;
    forall i, j | 0 <= i < j < |r| ensures r[i].0 != r[j].0 {
      assert r[j] == t[j - 1];
      if i > 0 {
        assert r[i] == t[i - 1];
      }
    }
  }

  lemma {:induction false} InsertKeepsKeysUnique<K>(x: (K, int), s: seq<(K, int)>, rank: ((K, int)) -> int)
    requires NonIncreasing(s, rank) && KeysUnique(s) && KeyFree(s, x.0)
    ensures KeysUnique(InsertDesc(x, s, rank))
    decreases |s|
  {
    if s != [] && rank(x) <= rank(s[0]) {
      NonIncreasingTail(s, rank);
      var t := InsertDesc(x, s[1..], rank);
      assert KeysUnique(s[1..]) by {
        forall i, j | 0 <= i < j < |s| - 1 ensures s[1..][i].0 != s[1..][j].0 {
          assert s[1..][i] == s[i + 1] && s[1..][j] == s[j + 1];
        }
      }
      assert KeyFree(s[1..], x.0) by {
        forall i | 0 <= i < |s| - 1 ensures s[1..][i].0 != x.0 {
          assert s[1..][i] == s[i + 1];
        }
      }
      InsertKeepsKeysUnique(x, s[1..], rank);
      assert KeyFree([x] + s[1..], s[0].0) by {
        forall i | 0 <= i < |s| ensures ([x] + s[1..])[i].0 != s[0].0 {
          if i > 0 {
            assert ([x] + s[1..])[i] == s[i];
          }
        }
      }
      assert multiset(t) == multiset([x] + s[1..]);
      SubmultisetKeyFree(t, [x] + s[1..], s[0].0);
      ConsKeysUnique(s[0], t);
    } else {
      ConsKeysUnique(x, s);
    }
  }

  /** Sorting pairs whose keys are unique keeps them unique. */
  lemma {:induction false} SortKeepsKeysUnique<K>(s: seq<(K, int)>, rank: ((K, int)) -> int)
    requires KeysUnique(s)
    ensures KeysUnique(SortDesc(s, rank))
    decreases |s|
  {
    if s != [] {
      var n := |s| - 1;
      var front := s[..n];
      assert KeysUnique(front) by {
        forall i, j | 0 <= i < j < n ensures front[i].0 != front[j].0 {
          assert front[i] == s[i] && front[j] == s[j];
        }
      }
      SortKeepsKeysUnique(front, rank);
      assert KeyFree(front, s[n].0) by {
        forall i | 0 <= i < n ensures front[i].0 != s[n].0 {
          assert front[i] == s[i];
        }
      }
      SubmultisetKeyFree(SortDesc(front, rank), front, s[n].0);
      InsertKeepsKeysUnique(s[n], SortDesc(front, rank), rank);
    }
  }

  /** A prefix of pairs with unique keys has unique keys. */
  lemma HeadKeepsKeysUnique<K>(s: seq<(K, int)>, n: nat)
    requires KeysUnique(s)
    ensures KeysUnique(Head(s, n))
  {
    var h := Head(s, n);
    forall i, j | 0 <= i < j < |h| ensures h[i].0 != h[j].0 {
      assert h[i] == s[i] && h[j] == s[j];
    }
  }

  // ---------------------------------------------------------------------------
  // Sorted groups

  /** Sorted groups list every key once. */
  lemma SortedGroupsUnique<K(!new)>(s: seq<(K, int)>, rank: ((K, int)) -> int)
    ensures KeysUnique(SortDesc(GroupSum(s), rank))
  {
    KeysUniqueIsDistinct(GroupSum(s));
    SortKeepsKeysUnique(GroupSum(s), rank);
  }

  /** Sorted groups have the keys of the input. */
  lemma SortedGroupsKeys<K(!new)>(s: seq<(K, int)>, rank: ((K, int)) -> int)
    ensures forall k :: k in Keys(SortDesc(GroupSum(s), rank)) <==> k in Keys(s)
  {
    KeysOfPermutation(SortDesc(GroupSum(s), rank), GroupSum(s));
  }

  /** Each sorted group holds its key's summed votes. */
  lemma SortedGroupsSums<K(!new)>(s: seq<(K, int)>, rank: ((K, int)) -> int)
    ensures forall i :: 0 <= i < |SortDesc(GroupSum(s), rank)| ==>
      SortDesc(GroupSum(s), rank)[i].1 == SumOf(s, SortDesc(GroupSum(s), rank)[i].0)
  {
    var g := GroupSum(s);
    var t := SortDesc(g, rank);
    forall i | 0 <= i < |t| ensures t[i].1 == SumOf(s, t[i].0) {
      assert t[i] in multiset(g);
      var j :| 0 <= j < |g| && g[j] == t[i];
    }
  }

  // ---------------------------------------------------------------------------
  // Top groups

  /** The top list is as long as it can be: `n` pairs, or all of them. */
  lemma TopSize<K>(s: seq<(K, int)>, n: nat)
    ensures |Top(s, n)| == if |s| < n then |s| else n
  {
    var sorted := SortDesc(s, ByVotes);
    assert |sorted| == |multiset(sorted)| == |s|;
  }

  /** The top groups list every key at most once. */
  lemma TopGroupsUnique<K(!new)>(s: seq<(K, int)>, n: nat)
    ensures KeysUnique(Top(GroupSum(s), n))
  {
    SortedGroupsUnique(s, ByVotes);
    HeadKeepsKeysUnique(SortDesc(GroupSum(s), ByVotes), n);
  }

  /** Each top group is a key of the input with that key's summed votes. */
  lemma TopGroupsSums<K(!new)>(s: seq<(K, int)>, n: nat)
    ensures forall x :: x in Top(GroupSum(s), n) ==> x.0 in Keys(s) && x.1 == SumOf(s, x.0)
  {
    var g := GroupSum(s);
    forall x | x in Top(g, n) ensures x.0 in Keys(s) && x.1 == SumOf(s, x.0) {
      assert x in multiset(g);
      var j :| 0 <= j < |g| && g[j] == x;
      assert Keys(g)[j] == x.0;
    }
  }

  /** A key of the input left out of the top groups has no more votes than any
      group in it, and then the top list is full. */
  lemma TopGroupsLargest<K(!new)>(s: seq<(K, int)>, n: nat, k: K)
    requires k in Keys(s) && k !in Keys(Top(GroupSum(s), n))
    ensures |Top(GroupSum(s), n)| == n
    ensures forall x :: x in Top(GroupSum(s), n) ==> SumOf(s, k) <= x.1
  {
    var g := GroupSum(s);
    var t := Top(g, n);
    assert k in Keys(g);
    var i :| 0 <= i < |g| && Keys(g)[i] == k;
    var y := g[i];
    assert y.0 == k && y.1 == SumOf(s, k);
    forall j | 0 <= j < |t| ensures t[j] != y {
      assert Keys(t)[j] == t[j].0;
    }
    assert y in multiset(g) - multiset(t);
    TopIsLargest(g, n);
    TopSize(g, n);
  }

  /** The top list of pairs with unique keys has unique keys. */
  lemma TopUnique<K>(g: seq<(K, int)>, n: nat)
    requires KeysUnique(g)
    ensures KeysUnique(Top(g, n))
  {
    SortKeepsKeysUnique(g, ByVotes);
    HeadKeepsKeysUnique(SortDesc(g, ByVotes), n);
  }

  /** Every top pair is a pair of the input, so every top key a key of it. */
  lemma TopMembers<K>(g: seq<(K, int)>, n: nat)
    ensures forall x :: x in Top(g, n) ==> x in g
    ensures forall k :: k in Keys(Top(g, n)) ==> k in Keys(g)
  {
    var t := Top(g, n);
    forall x | x in t ensures x in g {
      assert x in multiset(g);
    }
    forall k | k in Keys(t) ensures k in Keys(g) {
      var j :| 0 <= j < |t| && Keys(t)[j] == k;
      assert t[j] in multiset(g);
      var i :| 0 <= i < |g| && g[i] == t[j];
      assert Keys(g)[i] == k;
    }
  }

  /** A pair whose key is left out of the top list has no more votes than any
      pair in it, and then the top list is full. */
  lemma TopLeavesOut<K>(g: seq<(K, int)>, n: nat, i: nat)
    requires KeysUnique(g) && i < |g| && g[i].0 !in Keys(Top(g, n))
    ensures |Top(g, n)| == n
    ensures forall x :: x in Top(g, n) ==> g[i].1 <= x.1
  {
    var t := Top(g, n);
    forall j | 0 <= j < |t| ensures t[j] != g[i] {
      assert Keys(t)[j] == t[j].0;
    }
    assert g[i] in multiset(g) - multiset(t);
    TopIsLargest(g, n);
    TopSize(g, n);
  }

  // ---------------------------------------------------------------------------
  // Ties

  /** The keys of `s` come in `before` order. */
  predicate KeysOrdered<K>(s: seq<(K, int)>, before: (K, K) -> bool) {
    forall i, j :: 0 <= i < j < |s| ==> before(s[i].0, s[j].0)
  }

  /** Pairs of equal rank keep their keys in `before` order. */
  predicate TiesOrdered<K>(s: seq<(K, int)>, rank: ((K, int)) -> int, before: (K, K) -> bool) {
    forall i, j :: 0 <= i < j < |s| && rank(s[i]) == rank(s[j]) ==> before(s[i].0, s[j].0)
  }

  /** Inserting a pair whose key comes after every key of `s` puts it after
      the pairs of its rank. */
  lemma {:induction false} InsertTiesOrdered<K>(x: (K, int), s: seq<(K, int)>, rank: ((K, int)) -> int, before: (K, K) -> bool)
    requires NonIncreasing(s, rank) && TiesOrdered(s, rank, before)
    requires forall i :: 0 <= i < |s| ==> before(s[i].0, x.0)
    ensures TiesOrdered(InsertDesc(x, s, rank), rank, before)
    decreases |s|
  {
    if s != [] && rank(x) <= rank(s[0]) {
      NonIncreasingTail(s, rank);
      var tail := s[1..];
      TailTiesOrdered(s, rank, before);
      InsertTiesOrdered(x, tail, rank, before);
      var t := InsertDesc(x, tail, rank);
      forall j | 0 <= j < |t| && rank(t[j]) == rank(s[0]) ensures before(s[0].0, t[j].0) {
        assert t[j] in multiset(t);
        if t[j] != x {
          assert t[j] in multiset(tail);
          var k :| 0 <= k < |tail| && tail[k] == t[j];
          assert s[k + 1] == t[j];
        }
      }
      ConsTiesOrdered(s[0], t, rank, before);
    } else if s != [] {
      forall j | 0 <= j < |s| ensures rank(s[j]) != rank(x) {
        assert rank(s[j]) <= rank(s[0]);
      }
      ConsTiesOrdered(x, s, rank, before);
    }
  }

  lemma TailTiesOrdered<K>(s: seq<(K, int)>, rank: ((K, int)) -> int, before: (K, K) -> bool)
    requires s != [] && TiesOrdered(s, rank, before)
    ensures TiesOrdered(s[1..], rank, before)
  {
    var tail := s[1..];
    forall i, j | 0 <= i < j < |tail| && rank(tail[i]) == rank(tail[j]) ensures before(tail[i].0, tail[j].0) {
      assert tail[i] == s[i + 1] && tail[j] == s[j + 1];
    }
  }

  lemma ConsTiesOrdered<K>(h: (K, int), t: seq<(K, int)>, rank: ((K, int)) -> int, before: (K, K) -> bool)
    requires TiesOrdered(t, rank, before)
    requires forall j :: 0 <= j < |t| && rank(t[j]) == rank(h) ==> before(h.0, t[j].0)
    ensures TiesOrdered([h] + t, rank, before)
  {
    var r := [h] + t;
    forall i, j | 0 <= i < j < |r| && rank(r[i]) == rank(r[j]) ensures before(r[i].0, r[j].0) {
      assert r[j] == t[j - 1];
      if i > 0 {
        assert r[i] == t[i - 1];
      }
    }
  }

  /** The sort is stable: over pairs whose keys come in `before` order, pairs
      of equal rank stay in that order. */
  lemma {:induction false} SortTiesOrdered<K>(s: seq<(K, int)>, rank: ((K, int)) -> int, before: (K, K) -> bool)
    requires KeysOrdered(s, before)
    ensures TiesOrdered(SortDesc(s, rank), rank, before)
    decreases |s|
  {
    if s != [] {
      var n := |s| - 1;
      var front := s[..n];
      assert KeysOrdered(front, before) by {
        forall i, j | 0 <= i < j < n ensures before(front[i].0, front[j].0) {
          assert front[i] == s[i] && front[j] == s[j];
        }
      }
      SortTiesOrdered(front, rank, before);
      var t := SortDesc(front, rank);
      forall i | 0 <= i < |t| ensures before(t[i].0, s[n].0) {
        assert t[i] in multiset(front);
        var k :| 0 <= k < n && front[k] == t[i];
        assert front[k] == s[k];
      }
      InsertTiesOrdered(s[n], t, rank, before);
    }
  }

  /** `nlargest(n, 'Votos')`, whose `keep='first'` keeps the earlier of tied
      pairs: over pairs whose keys come in `before` order, a pair left out
      with as many votes as a kept one comes after it. */
  lemma TopKeepsFirst<K>(s: seq<(K, int)>, n: nat, before: (K, K) -> bool)
    requires KeysOrdered(s, before)
    ensures forall x, y :: x in Top(s, n) && y in multiset(s) - multiset(Top(s, n)) && y.1 == x.1 ==> before(x.0, y.0)
  {
    var sorted := SortDesc(s, ByVotes);
    assert Top(s, n) == sorted[..|Top(s, n)|];
    SortTiesOrdered(s, ByVotes, before);
    SplitTies(s, sorted, |Top(s, n)|, before);
  }

  /** A pair left out of the top list, against a kept pair: it has no more
      votes, and on equal votes the kept pair's key comes first. */
  lemma TopAgainst<K>(g: seq<(K, int)>, n: nat, before: (K, K) -> bool, i: nat, j: nat)
    requires KeysUnique(g) && KeysOrdered(g, before)
    requires i < |g| && g[i].0 !in Keys(Top(g, n)) && j < |Top(g, n)|
    ensures |Top(g, n)| == n && Top(g, n)[j] in g
    ensures g[i].1 <= Top(g, n)[j].1
    ensures g[i].1 == Top(g, n)[j].1 ==> before(Top(g, n)[j].0, g[i].0)
  {
    var t := Top(g, n);
    TopLeavesOut(g, n, i);
    TopMembers(g, n);
    assert t[j] in t;
    forall k | 0 <= k < |t| ensures t[k] != g[i] {
      assert Keys(t)[k] == t[k].0;
    }
    assert g[i] in multiset(g) - multiset(t);
    TopKeepsFirst(g, n, before);
  }

  lemma SplitTies<K>(s: seq<(K, int)>, t: seq<(K, int)>, m: nat, before: (K, K) -> bool)
    requires m <= |t| && TiesOrdered(t, ByVotes, before) && multiset(t) == multiset(s)
    ensures forall x, y :: x in t[..m] && y in multiset(s) - multiset(t[..m]) && y.1 == x.1 ==> before(x.0, y.0)
  {
    var r, rest := t[..m], t[m..];
    assert t == r + rest;
    LeftOver(r, rest);
    forall x, y | x in r && y in multiset(s) - multiset(r) && y.1 == x.1 ensures before(x.0, y.0) {
      assert y in multiset(rest);
      TieAcross(t, before, m, x, y);
    }
  }

  lemma TieAcross<K>(t: seq<(K, int)>, before: (K, K) -> bool, m: nat, x: (K, int), y: (K, int))
    requires TiesOrdered(t, ByVotes, before) && m <= |t|
    requires x in t[..m] && y in t[m..] && x.1 == y.1
    ensures before(x.0, y.0)
  {
    var i :| 0 <= i < m && t[..m][i] == x;
    var j :| 0 <= j < |t| - m && t[m..][j] == y;
    assert t[i] == x && t[m + j] == y;
    assert ByVotes(t[i]) == ByVotes(t[m + j]);
  }

  /** The votes regrouped under `f(k)` are the votes of the keys `f` maps there. */
  lemma {:induction false} RekeySumOf<K, L>(s: seq<(K, int)>, f: K -> L, v: L, q: K -> bool)
    requires forall k :: q(k) <==> f(k) == v
    ensures SumOf(Rekey(s, f), v) == SumWhere(s, q)
  {
    if s != [] {
      RekeySumOf(s[1..], f, v, q);
      assert Rekey(s, f)[1..] == Rekey(s[1..], f);
    }
  }

  /** The new keys are the images of the old ones. */
  lemma RekeyKeys<K, L>(s: seq<(K, int)>, f: K -> L)
    ensures forall v :: v in Keys(Rekey(s, f)) <==> exists k :: k in Keys(s) && f(k) == v
  {
    var r := Rekey(s, f);
    forall v | v in Keys(r) ensures exists k :: k in Keys(s) && f(k) == v {
      var i :| 0 <= i < |r| && Keys(r)[i] == v;
      assert Keys(s)[i] == s[i].0;
    }
    forall v, k | k in Keys(s) && f(k) == v ensures v in Keys(r) {
      var i :| 0 <= i < |s| && Keys(s)[i] == k;
      assert Keys(r)[i] == v;
    }
  }
}
