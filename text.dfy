/** Python and Polars string operations that the pipeline relies on: `str.join`,
    first-occurrence replacement, upper-casing, `str.strip`, decimal rendering,
    the `{:,}` thousands format and the code-point order used by `sorted`. */
module Text {
  import opened Seqs

  /** `sep.join(parts)`. */
  function Join(parts: seq<string>, sep: string): string
  {
    if parts == [] then []
    else if |parts| == 1 then parts[0]
    else parts[0] + sep + Join(parts[1..], sep)
  }

  // ---------------------------------------------------------------------------
  // First-occurrence replacement (`str.replace` with n = 1)

  predicate OccursAt(s: string, pat: string, i: nat) {
    i + |pat| <= |s| && s[i..i + |pat|] == pat
  }

  /** `i` is the leftmost position where `pat` occurs in `s`. */
  predicate FirstAt(s: string, pat: string, i: nat) {
    OccursAt(s, pat, i) && forall j: nat :: j < i ==> !OccursAt(s, pat, j)
  }

  function FindFrom(s: string, pat: string, from: nat): (r: Option<nat>)
    decreases |s| - from
    ensures r.Some? ==> from <= r.value && OccursAt(s, pat, r.value)
    ensures r.Some? ==> forall j: nat :: from <= j < r.value ==> !OccursAt(s, pat, j)
    ensures r.None? ==> forall j: nat :: from <= j ==> !OccursAt(s, pat, j)
  {
    if from + |pat| > |s| then None
    else if s[from..from + |pat|] == pat then Some(from)
    else FindFrom(s, pat, from + 1)
  }

  /** Replaces the leftmost occurrence of `pat` by `rep`; a string without
      `pat` is returned unchanged. */
  function ReplaceFirst(s: string, pat: string, rep: string): (r: string)
    ensures (forall j: nat :: !OccursAt(s, pat, j)) ==> r == s
    ensures forall i: nat :: FirstAt(s, pat, i) ==> r == s[..i] + rep + s[i + |pat|..]
  {
    match FindFrom(s, pat, 0)
    case None => s
    case Some(i) =>
      assert forall k: nat :: FirstAt(s, pat, k) ==> k == i;
      s[..i] + rep + s[i + |pat|..]
  }

  // ---------------------------------------------------------------------------
  // Upper-casing (`str.upper`, Polars `str.to_uppercase`)

  /** The upper-case form of one character, for ASCII and the Latin-1 block. */
  function UpperChar(c: char): string
  {
    if 'a' <= c <= 'z' then [(c as int - 32) as char]
    else if c == '\U{B5}' then ['\U{39C}']          // micro sign -> capital mu
    else if c == '\U{DF}' then "SS"                 // sharp s
    else if '\U{E0}' <= c <= '\U{FE}' && c != '\U{F7}' then [(c as int - 32) as char]
    else if c == '\U{FF}' then ['\U{178}']          // y with diaeresis
    else [c]
  }

  /** No character of `s` has a different upper-case form. */
  predicate IsUpper(s: string) {
    forall i :: 0 <= i < |s| ==> UpperChar(s[i]) == [s[i]]
  }

  function Upper(s: string): (r: string)
    ensures IsUpper(r)
    ensures forall i :: 0 <= i < |r| ==> !('a' <= r[i] <= 'z')
  {
    if s == [] then [] else UpperChar(s[0]) + Upper(s[1..])
  }

  lemma {:induction false} UpperOfUpper(s: string)
    requires IsUpper(s)
    ensures Upper(s) == s
  {
    if s != [] {
      UpperOfUpper(s[1..]);
    }
  }

  /** Upper-casing twice is upper-casing once. */
  lemma UpperIdempotent(s: string)
    ensures Upper(Upper(s)) == Upper(s)
  {
    UpperOfUpper(Upper(s));
  }

  // ---------------------------------------------------------------------------
  // Stripping white space (`str.strip()`)

  /** The characters Python's `str.isspace` accepts. */
  predicate IsSpace(c: char) {
    c == ' ' || '\t' <= c <= '\r' || '\U{1C}' <= c <= '\U{1F}' || c == '\U{85}' || c == '\U{A0}'
    || c == '\U{1680}' || '\U{2000}' <= c <= '\U{200A}' || c == '\U{2028}' || c == '\U{2029}'
    || c == '\U{202F}' || c == '\U{205F}' || c == '\U{3000}'
  }

  function StripStart(s: string): (r: string)
    ensures |r| <= |s| && r == s[|s| - |r|..]
    ensures forall i :: 0 <= i < |s| - |r| ==> IsSpace(s[i])
    ensures r == [] || !IsSpace(r[0])
  {
    if s != [] && IsSpace(s[0]) then StripStart(s[1..]) else s
  }

  function StripEnd(s: string): (r: string)
    ensures |r| <= |s| && r == s[..|r|]
    ensures forall i :: |r| <= i < |s| ==> IsSpace(s[i])
    ensures r == [] || !IsSpace(r[|r| - 1])
  {
    if s != [] && IsSpace(s[|s| - 1]) then StripEnd(s[..|s| - 1]) else s
  }

  /** `s.strip()`: the slice of `s` left after removing white space from both ends. */
  function Strip(s: string): (r: string)
    ensures exists i, j :: 0 <= i <= j <= |s| && r == s[i..j]
                           && (forall k :: 0 <= k < i ==> IsSpace(s[k]))
                           && (forall k :: j <= k < |s| ==> IsSpace(s[k]))
    ensures r == [] || (!IsSpace(r[0]) && !IsSpace(r[|r| - 1]))
  {
    var t := StripStart(s);
    var r := StripEnd(t);
    assert r == s[|s| - |t|..|s| - |t| + |r|];
    r
  }

  // ---------------------------------------------------------------------------
  // Decimal numbers

  predicate IsDigit(c: char) { '0' <= c <= '9' }

  function DigitChar(d: nat): (c: char)
    requires d < 10
    ensures IsDigit(c) && c as int - '0' as int == d
  {
    ('0' as int + d) as char
  }

  /** The decimal rendering of `n` (`str(n)`), without leading zeros. */
  function Digits(n: nat): (r: string)
    ensures 1 <= |r|
    ensures forall i :: 0 <= i < |r| ==> IsDigit(r[i])
    ensures r[0] == '0' ==> n == 0
  {
    if n < 10 then [DigitChar(n)] else Digits(n / 10) + [DigitChar(n % 10)]
  }

  /** The number a string of decimal digits denotes. */
  function Value(ds: string): nat
    requires forall i :: 0 <= i < |ds| ==> IsDigit(ds[i])
  {
    if ds == [] then 0
    else
      assert IsDigit(ds[|ds| - 1]);
      10 * Value(ds[..|ds| - 1]) + (ds[|ds| - 1] as int - '0' as int)
  }

  lemma {:induction false} ValueOfDigits(n: nat)
    ensures Value(Digits(n)) == n
  {
    if n >= 10 {
      ValueOfDigits(n / 10);
      assert Digits(n)[..|Digits(n)| - 1] == Digits(n / 10);
    }
  }

  /** Rendering is injective: different numbers have different renderings. */
  lemma DigitsInjective(m: nat, n: nat)
    requires Digits(m) == Digits(n)
    ensures m == n
  {
    ValueOfDigits(m);
    ValueOfDigits(n);
  }

  // ---------------------------------------------------------------------------
  // The `{:,}` format: a comma every three digits from the right

  /** Inserts `,` between groups of three digits, counted from the right. */
  function Group(ds: string): (r: string)
    decreases |ds|
  {
    if |ds| <= 3 then ds else Group(ds[..|ds| - 3]) + "," + ds[|ds| - 3..]
  }

  /** Every character that is not `c`, in order. */
  function Remove(s: string, c: char): (r: string)
    ensures c !in r
  {
    if s == [] then [] else (if s[0] == c then [] else [s[0]]) + Remove(s[1..], c)
  }

  lemma {:induction false} RemoveAppend(a: string, b: string, c: char)
    ensures Remove(a + b, c) == Remove(a, c) + Remove(b, c)
  {
    if a == [] {
      assert a + b == b;
    } else {
      assert (a + b)[0] == a[0] && (a + b)[1..] == a[1..] + b;
      RemoveAppend(a[1..], b, c);
    }
  }

  lemma RemoveNone(s: string, c: char)
    requires c !in s
    ensures Remove(s, c) == s
  {
  }

  lemma GroupStep(ds: string)
    requires |ds| > 3
    ensures Group(ds) == Group(ds[..|ds| - 3]) + "," + ds[|ds| - 3..]
  {
  }

  lemma RemoveAround(g: string, c: char, back: string)
    ensures Remove(g + [c] + back, c) == Remove(g, c) + Remove(back, c)
  {
    var x, y := Remove(g, c), Remove(back, c);
    assert Remove([c], c) == [] by { assert [c][1..] == []; }
    RemoveAppend(g, [c], c);
    assert Remove(g + [c], c) == x + [];
    RemoveAppend(g + [c], back, c);
    assert x + [] == x;
  }

  /** Removing the separators of `Group(ds)` gives back the digits. */
  lemma {:induction false} GroupRemove(ds: string)
    requires ',' !in ds
    ensures Remove(Group(ds), ',') == ds
  {
    if |ds| <= 3 {
      RemoveNone(ds, ',');
    } else {
      var front, back := ds[..|ds| - 3], ds[|ds| - 3..];
      assert ds == front + back;
      GroupRemove(front);
      GroupStep(ds);
      RemoveAround(Group(front), ',', back);
      RemoveNone(back, ',');
    }
  }

  /** Separators stand exactly at the positions that are a multiple of four
      from the right end. */
  predicate Grouped(r: string) {
    forall i :: 0 <= i < |r| ==> (r[i] == ',' <==> (|r| - i) % 4 == 0)
  }

  /** Appending a separator and a group of three digits keeps the layout. */
  lemma GroupedStep(g: string, back: string)
    requires |back| == 3 && ',' !in back && Grouped(g)
    ensures Grouped(g + "," + back)
  {
    var r := g + "," + back;
    forall i | 0 <= i < |r| ensures r[i] == ',' <==> (|r| - i) % 4 == 0 {
      if i < |g| {
        assert r[i] == g[i];
        assert (|r| - i) % 4 == (|g| - i) % 4;
      } else if i > |g| {
        assert r[i] == back[i - |g| - 1];
      }
    }
  }

  /** The separators of `Group(ds)` are laid out as in `{:,}` and the first
      group is not empty. */
  lemma {:induction false} GroupPositions(ds: string)
    requires ',' !in ds && ds != []
    ensures |Group(ds)| % 4 != 0 && Grouped(Group(ds))
  {
    if |ds| > 3 {
      var front, back := ds[..|ds| - 3], ds[|ds| - 3..];
      assert ',' !in front && ',' !in back;
      GroupPositions(front);
      GroupStep(ds);
      GroupedStep(Group(front), back);
    } else {
      assert Group(ds) == ds;
    }
  }

  /** Python's `format(n, ',')`. */
  function Thousands(n: int): string
  {
    if n < 0 then "-" + Group(Digits(-n)) else Group(Digits(n))
  }

  /** `s.replace(a, b)` for single characters. */
  function ReplaceChar(s: string, a: char, b: char): (r: string)
    ensures |r| == |s|
    ensures forall i :: 0 <= i < |s| ==> r[i] == if s[i] == a then b else s[i]
  {
    if s == [] then [] else [if s[0] == a then b else s[0]] + ReplaceChar(s[1..], a, b)
  }

  /** The vote total as displayed: `f'{n:,}'.replace(',', '.')`. */
  function VoteTotalText(n: int): string
  {
    ReplaceChar(Thousands(n), ',', '.')
  }

  /** Reads a displayed vote total back: an optional minus sign, then digits
      grouped by dots. */
  function ParseVoteTotal(t: string): Option<int>
  {
    var negative := t != [] && t[0] == '-';
    var ds := Remove(if negative then t[1..] else t, '.');
    if ds != [] && forall i :: 0 <= i < |ds| ==> IsDigit(ds[i]) then
      var v: int := Value(ds);
      Some(if negative then -v else v)
    else None
  }

  lemma DotsForCommas(s: string)
    requires '.' !in s
    ensures Remove(ReplaceChar(s, ',', '.'), '.') == Remove(s, ',')
  {
    if s != [] {
      assert ReplaceChar(s, ',', '.') == [if s[0] == ',' then '.' else s[0]] + ReplaceChar(s[1..], ',', '.');
      RemoveAppend([if s[0] == ',' then '.' else s[0]], ReplaceChar(s[1..], ',', '.'), '.');
      DotsForCommas(s[1..]);
    }
  }

  /** The grouped digits of a natural number: no dot, no leading separator,
      and the digits come back when the commas are removed. */
  lemma GroupedDigits(m: nat)
    ensures var g := Group(Digits(m));
      && '.' !in g && '-' !in g && g != []
      && Remove(g, ',') == Digits(m)
  {
    var ds := Digits(m);
    assert ',' !in ds && '.' !in ds by {
      forall i | 0 <= i < |ds| ensures ds[i] != ',' && ds[i] != '.' { assert IsDigit(ds[i]); }
    }
    GroupRemove(ds);
    var g := Group(ds);
    forall i | 0 <= i < |g| ensures g[i] != '.' && g[i] != '-' {
      if g[i] != ',' {
        RemoveMember(g, ',', i);
        assert g[i] in ds;
      }
    }
    assert g != [] by { assert Remove(g, ',') != []; }
  }

  /** Dots standing for the commas of the grouped digits of `m`. */
  lemma DottedDigits(m: nat)
    ensures var t := ReplaceChar(Group(Digits(m)), ',', '.');
      && t != [] && t[0] != '-' && Remove(t, '.') == Digits(m)
  {
    GroupedDigits(m);
    DotsForCommas(Group(Digits(m)));
  }

  lemma ParseUnsigned(d: string, m: nat)
    requires d != [] && d[0] != '-' && Remove(d, '.') == Digits(m)
    ensures ParseVoteTotal(d) == Some(m)
  {
    ValueOfDigits(m);
  }

  lemma ParseNegative(d: string, m: nat)
    requires Remove(d, '.') == Digits(m)
    ensures ParseVoteTotal("-" + d) == Some(-(m as int))
  {
    var t := "-" + d;
    assert t[0] == '-' && t[1..] == d;
    ValueOfDigits(m);
  }

  lemma ReplaceSign(g: string)
    ensures ReplaceChar("-" + g, ',', '.') == "-" + ReplaceChar(g, ',', '.')
  {
    assert ReplaceChar("-" + g, ',', '.')[1..] == ReplaceChar(g, ',', '.');
  }

  /** The displayed total reads back as the number it displays. */
  lemma VoteTotalRoundTrip(n: int)
    ensures ParseVoteTotal(VoteTotalText(n)) == Some(n)
  {
    var m: nat := if n < 0 then -n else n;
    var g := Group(Digits(m));
    var d := ReplaceChar(g, ',', '.');
    DottedDigits(m);
    if n < 0 {
      ReplaceSign(g);
      assert VoteTotalText(n) == "-" + d;
      ParseNegative(d, m);
    } else {
      assert VoteTotalText(n) == d;
      ParseUnsigned(d, m);
    }
  }

  /** A character other than `c` survives `Remove`. */
  lemma RemoveMember(s: string, c: char, i: nat)
    requires i < |s| && s[i] != c
    ensures s[i] in Remove(s, c)
  {
    if i > 0 {
      RemoveMember(s[1..], c, i - 1);
    }
  }

  // ---------------------------------------------------------------------------
  // Code-point order on strings, as Python's `sorted` uses it

  predicate Less(a: string, b: string)
    decreases |a|
  {
    if a == [] then b != []
    else b != [] && (a[0] < b[0] || (a[0] == b[0] && Less(a[1..], b[1..])))
  }

  lemma LessIrreflexive(a: string)
    ensures !Less(a, a)
  {
  }

  lemma {:induction false} LessTransitive(a: string, b: string, c: string)
    requires Less(a, b) && Less(b, c)
    ensures Less(a, c)
  {
    if a != [] && a[0] == b[0] && b[0] == c[0] {
      LessTransitive(a[1..], b[1..], c[1..]);
    }
  }

  lemma {:induction false} LessTotal(a: string, b: string)
    ensures a == b || Less(a, b) || Less(b, a)
  {
    if a != [] && b != [] && a[0] == b[0] {
      LessTotal(a[1..], b[1..]);
      if a[1..] == b[1..] {
        assert a == [a[0]] + a[1..] && b == [b[0]] + b[1..];
      }
    }
  }

  predicate StrictlySorted(s: seq<string>) {
    forall i, j :: 0 <= i < j < |s| ==> Less(s[i], s[j])
  }

  function InsertUnique(x: string, s: seq<string>): (r: seq<string>)
    requires StrictlySorted(s)
    ensures StrictlySorted(r)
    ensures forall y :: y in r <==> y == x || y in s
  {
    if s == [] then [x]
    else if x == s[0] then s
    else if Less(x, s[0]) then
      assert forall j :: 0 <= j < |s| ==> Less(x, s[j]) by {
        forall j | 0 <= j < |s| ensures Less(x, s[j]) {
          if j > 0 { LessTransitive(x, s[0], s[j]); }
        }
      }
      [x] + s
    else
      LessTotal(x, s[0]);
      var rest := InsertUnique(x, s[1..]);
      assert forall y :: y in rest ==> Less(s[0], y);
      [s[0]] + rest
  }

  /** `sorted(set(xs))`: the distinct elements of `xs` in increasing order. */
  function SortedUnique(xs: seq<string>): (r: seq<string>)
    ensures StrictlySorted(r)
    ensures forall y :: y in r <==> y in xs
  {
    if xs == [] then [] else InsertUnique(xs[|xs| - 1], SortedUnique(xs[..|xs| - 1]))
  }

  /** For four-digit years, comparing their renderings as strings (what
      `sorted` does to the year texts) agrees with comparing the numbers. */
  lemma FourDigitOrder(a: nat, b: nat)
    requires 1000 <= a <= 9999 && 1000 <= b <= 9999
    ensures Less(Digits(a), Digits(b)) <==> a < b
  {
    FourDigits(a);
    FourDigits(b);
    LessOfFour(Digits(a), Digits(b));
    LexicographicDigits(a / 1000, a / 100 % 10, a / 10 % 10, a % 10,
                        b / 1000, b / 100 % 10, b / 10 % 10, b % 10);
  }

  lemma FourDigits(a: nat)
    requires 1000 <= a <= 9999
    ensures a == 1000 * (a / 1000) + 100 * (a / 100 % 10) + 10 * (a / 10 % 10) + a % 10
    ensures a / 1000 < 10
    ensures Digits(a) == [DigitChar(a / 1000), DigitChar(a / 100 % 10), DigitChar(a / 10 % 10), DigitChar(a % 10)]
  {
    assert a / 10 / 10 == a / 100 && a / 100 / 10 == a / 1000;
    assert Digits(a / 1000) == [DigitChar(a / 1000)];
    assert Digits(a / 100) == Digits(a / 1000) + [DigitChar(a / 100 % 10)];
    assert Digits(a / 10) == Digits(a / 100) + [DigitChar(a / 10 % 10)];
    assert Digits(a) == Digits(a / 10) + [DigitChar(a % 10)];
  }

  lemma LessOfFour(p: string, q: string)
    requires |p| == 4 && |q| == 4
    ensures Less(p, q) <==>
      p[0] < q[0] || (p[0] == q[0] && (p[1] < q[1] || (p[1] == q[1] && (p[2] < q[2] || (p[2] == q[2] && p[3] < q[3])))))
  {
    var p1, q1 := p[1..], q[1..];
    var p2, q2 := p1[1..], q1[1..];
    var p3, q3 := p2[1..], q2[1..];
    assert p3[1..] == [] && q3[1..] == [];
    assert Less(p3, q3) <==> p[3] < q[3];
    assert Less(p2, q2) <==> p[2] < q[2] || (p[2] == q[2] && Less(p3, q3));
    assert Less(p1, q1) <==> p[1] < q[1] || (p[1] == q[1] && Less(p2, q2));
  }

  lemma LexicographicDigits(a3: nat, a2: nat, a1: nat, a0: nat, b3: nat, b2: nat, b1: nat, b0: nat)
    requires a3 < 10 && a2 < 10 && a1 < 10 && a0 < 10 && b3 < 10 && b2 < 10 && b1 < 10 && b0 < 10
    ensures 1000 * a3 + 100 * a2 + 10 * a1 + a0 < 1000 * b3 + 100 * b2 + 10 * b1 + b0 <==>
      DigitChar(a3) < DigitChar(b3) || (a3 == b3 && (DigitChar(a2) < DigitChar(b2) || (a2 == b2 &&
      (DigitChar(a1) < DigitChar(b1) || (a1 == b1 && DigitChar(a0) < DigitChar(b0))))))
  {
  }
}
