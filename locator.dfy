/** The dataset locator: the 27-entry table of Brazilian states, percent
    encoding of the state name as `requests.utils.quote` does it (UTF-8, then
    `%XX` for every byte outside the unreserved set of section 2.3 of RFC 3986
    and `/`), and the URL of one year's compressed results file. */
module Locator {
  import opened Seqs
  import Text

  type Byte = b: int | 0 <= b < 256

  /** State code and full name, in the order of the source's `estados` table. */
  const States: seq<(string, string)> := [
    ("AC", "Acre"), ("AL", "Alagoas"), ("AP", "Amapá"), ("AM", "Amazonas"), ("BA", "Bahia"),
    ("CE", "Ceará"), ("DF", "Distrito Federal"), ("ES", "Espírito Santo"), ("GO", "Goiás"),
    ("MA", "Maranhão"), ("MT", "Mato Grosso"), ("MS", "Mato Grosso do Sul"), ("MG", "Minas Gerais"),
    ("PA", "Pará"), ("PB", "Paraiba"), ("PR", "Paraná"), ("PE", "Pernambuco"), ("PI", "Piauí"),
    ("RJ", "Rio de Janeiro"), ("RN", "Rio Grande do Norte"), ("RS", "Rio Grande do Sul"),
    ("RO", "Rondônia"), ("RR", "Roraima"), ("SC", "Santa Catarina"), ("SP", "São Paulo"),
    ("SE", "Sergipe"), ("TO", "Tocantins")
  ]

  function Lookup(table: seq<(string, string)>, key: string): (r: Option<string>)
    ensures r.None? <==> forall i :: 0 <= i < |table| ==> table[i].0 != key
    ensures r.Some? ==> exists i :: 0 <= i < |table| && table[i] == (key, r.value)
    ensures forall i :: 0 <= i < |table| && table[i].0 == key && (forall j :: 0 <= j < i ==> table[j].0 != key)
                        ==> r == Some(table[i].1)
  {
    if table == [] then None
    else if table[0].0 == key then Some(table[0].1)
    else
      var r := Lookup(table[1..], key);
      assert forall i :: 1 <= i < |table| ==> table[i] == table[1..][i - 1];
      r
  }

  /** `estados[code.upper()]`: `None` stands for the `KeyError` of a code that
      is not in the table. */
  function StateName(code: string): (r: Option<string>)
    ensures r.Some? <==> exists i :: 0 <= i < |States| && States[i].0 == Text.Upper(code)
  {
    Lookup(States, Text.Upper(code))
  }

  /** The table has 27 entries with pairwise different codes, so every code
      whose upper-case form is a key finds that key's name. */
  lemma StateNameOfEntry(i: nat, code: string)
    requires i < |States| && Text.Upper(code) == States[i].0
    ensures |States| == 27
    ensures StateName(code) == Some(States[i].1)
  {
    CodesDistinctLow();
    CodesDistinctHigh();
    CodesDistinctAcross();
  }

  // ---------------------------------------------------------------------------
  // UTF-8

  /** The UTF-8 bytes of one Unicode scalar value. */
  function EncodeChar(c: char): (r: seq<Byte>)
    ensures 1 <= |r| <= 4
  {
    var n := c as int;
    if n < 0x80 then [n]
    else if n < 0x800 then [0xC0 + n / 64, 0x80 + n % 64]
    else if n < 0x10000 then [0xE0 + n / 4096, 0x80 + n / 64 % 64, 0x80 + n % 64]
    else [0xF0 + n / 262144, 0x80 + n / 4096 % 64, 0x80 + n / 64 % 64, 0x80 + n % 64]
  }

  function Utf8(s: string): seq<Byte>
  {
    if s == [] then [] else EncodeChar(s[0]) + Utf8(s[1..])
  }

  predicate Continuation(b: Byte) { 0x80 <= b < 0xC0 }

  /** The first scalar value of `bs` and the number of bytes it takes, or
      `None` when `bs` does not start with a well-formed UTF-8 sequence. */
  function DecodeFirst(bs: seq<Byte>): (r: Option<(char, nat)>)
    requires bs != []
    ensures r.Some? ==> 1 <= r.value.1 <= |bs|
  {
    var b0: int := bs[0];
    if b0 < 0x80 then Some((b0 as char, 1))
    else if 0xC0 <= b0 < 0xE0 && |bs| >= 2 && Continuation(bs[1]) then
      var n: int := (b0 - 0xC0) * 64 + (bs[1] as int - 0x80);
      if n >= 0x80 then Some((n as char, 2)) else None
    else if 0xE0 <= b0 < 0xF0 && |bs| >= 3 && Continuation(bs[1]) && Continuation(bs[2]) then
      var n: int := (b0 - 0xE0) * 4096 + (bs[1] as int - 0x80) * 64 + (bs[2] as int - 0x80);
      if 0x800 <= n && (n < 0xD800 || 0xE000 <= n) then Some((n as char, 3)) else None
    else if 0xF0 <= b0 < 0xF8 && |bs| >= 4 && Continuation(bs[1]) && Continuation(bs[2]) && Continuation(bs[3]) then
      var n: int := (b0 - 0xF0) * 262144 + (bs[1] as int - 0x80) * 4096 + (bs[2] as int - 0x80) * 64 + (bs[3] as int - 0x80);
      if 0x10000 <= n < 0x110000 then Some((n as char, 4)) else None
    else None
  }

  function DecodeUtf8(bs: seq<Byte>): Option<string>
    decreases |bs|
  {
    if bs == [] then Some([])
    else match DecodeFirst(bs)
      case None => None
      case Some((c, k)) =>
        match DecodeUtf8(bs[k..])
        case None => None
        case Some(rest) => Some([c] + rest)
  }

  lemma Base64Digits(n: nat)
    ensures n == 64 * (n / 64) + n % 64
    ensures n / 64 / 64 == n / 4096 && n / 4096 / 64 == n / 262144
  {
  }

  lemma DecodeTwoBytes(c: char, rest: seq<Byte>)
    requires 0x80 <= c as int < 0x800
    ensures DecodeFirst(EncodeChar(c) + rest) == Some((c, 2))
  {
    var n := c as int;
    var bs := EncodeChar(c) + rest;
    Base64Digits(n);
    assert bs[0] == 0xC0 + n / 64 && bs[1] == 0x80 + n % 64;
  }

  lemma DecodeThreeBytes(c: char, rest: seq<Byte>)
    requires 0x800 <= c as int < 0x10000
    ensures DecodeFirst(EncodeChar(c) + rest) == Some((c, 3))
  {
    var n := c as int;
    var bs := EncodeChar(c) + rest;
    Base64Digits(n);
    Base64Digits(n / 64);
    assert bs[0] == 0xE0 + n / 4096 && bs[1] == 0x80 + n / 64 % 64 && bs[2] == 0x80 + n % 64;
    assert n == 4096 * (n / 4096) + 64 * (n / 64 % 64) + n % 64;
  }

  lemma DecodeFourBytes(c: char, rest: seq<Byte>)
    requires 0x10000 <= c as int
    ensures DecodeFirst(EncodeChar(c) + rest) == Some((c, 4))
  {
    var n := c as int;
    var bs := EncodeChar(c) + rest;
    Base64Digits(n);
    Base64Digits(n / 64);
    Base64Digits(n / 4096);
    assert bs[0] == 0xF0 + n / 262144 && bs[1] == 0x80 + n / 4096 % 64;
    assert bs[2] == 0x80 + n / 64 % 64 && bs[3] == 0x80 + n % 64;
    assert n == 262144 * (n / 262144) + 4096 * (n / 4096 % 64) + 64 * (n / 64 % 64) + n % 64;
  }

  lemma DecodeEncodedChar(c: char, rest: seq<Byte>)
    ensures DecodeFirst(EncodeChar(c) + rest) == Some((c, |EncodeChar(c)|))
  {
    var n := c as int;
    if n < 0x80 {
      assert (EncodeChar(c) + rest)[0] == n;
    } else if n < 0x800 {
      DecodeTwoBytes(c, rest);
    } else if n < 0x10000 {
      DecodeThreeBytes(c, rest);
    } else {
      DecodeFourBytes(c, rest);
    }
  }

  /** Decoding the UTF-8 bytes of a string gives the string back. */
  lemma {:induction false} Utf8RoundTrip(s: string)
    ensures DecodeUtf8(Utf8(s)) == Some(s)
  {
    if s != [] {
      var e := EncodeChar(s[0]);
      DecodeEncodedChar(s[0], Utf8(s[1..]));
      assert (e + Utf8(s[1..]))[|e|..] == Utf8(s[1..]);
      Utf8RoundTrip(s[1..]);
      assert s == [s[0]] + s[1..];
    }
  }

  // ---------------------------------------------------------------------------
  // Percent encoding

  /** Bytes `quote` leaves as they are: letters, digits, `_.-~` and `/`. */
  predicate Safe(b: int) {
    'A' as int <= b <= 'Z' as int || 'a' as int <= b <= 'z' as int || '0' as int <= b <= '9' as int
    || b == '_' as int || b == '.' as int || b == '-' as int || b == '~' as int || b == '/' as int
  }

  function HexDigit(d: nat): (c: char)
    requires d < 16
    ensures Safe(c as int)
  {
    if d < 10 then ('0' as int + d) as char else ('A' as int + d - 10) as char
  }

  function HexValue(c: char): Option<nat>
  {
    if '0' <= c <= '9' then Some(c as int - '0' as int)
    else if 'A' <= c <= 'F' then Some(c as int - 'A' as int + 10)
    else if 'a' <= c <= 'f' then Some(c as int - 'a' as int + 10)
    else None
  }

  function EncodeByte(b: Byte): (r: string)
    ensures |r| == 1 || |r| == 3
  {
    if Safe(b) then [b as char] else ['%', HexDigit(b / 16), HexDigit(b % 16)]
  }

  /** Every byte outside the safe set becomes `%` and two upper-case hex digits. */
  function PercentEncode(bs: seq<Byte>): (r: string)
    ensures forall i :: 0 <= i < |r| ==> Safe(r[i] as int) || r[i] == '%'
  {
    if bs == [] then [] else EncodeByte(bs[0]) + PercentEncode(bs[1..])
  }

  function PercentDecode(s: string): Option<seq<Byte>>
    decreases |s|
  {
    if s == [] then Some([])
    else if s[0] == '%' then
      if |s| >= 3 && HexValue(s[1]).Some? && HexValue(s[2]).Some? && HexValue(s[1]).value < 16 && HexValue(s[2]).value < 16 then
        match PercentDecode(s[3..])
        case None => None
        case Some(rest) => Some([16 * HexValue(s[1]).value + HexValue(s[2]).value] + rest)
      else None
    else if s[0] as int < 0x80 then
      match PercentDecode(s[1..])
      case None => None
      case Some(rest) => Some([s[0] as int] + rest)
    else None
  }

  lemma {:induction false} PercentRoundTrip(bs: seq<Byte>)
    ensures PercentDecode(PercentEncode(bs)) == Some(bs)
  {
    if bs != [] {
      PercentRoundTrip(bs[1..]);
      DecodeEncodedByte(bs[0], PercentEncode(bs[1..]));
      assert PercentEncode(bs) == EncodeByte(bs[0]) + PercentEncode(bs[1..]);
      assert bs == [bs[0]] + bs[1..];
    }
  }

  /** Decoding reads one encoded byte back off the front. */
  lemma DecodeEncodedByte(b: Byte, t: string)
    requires PercentDecode(t).Some?
    ensures PercentDecode(EncodeByte(b) + t) == Some([b] + PercentDecode(t).value)
  {
    if Safe(b) {
      DecodeSafeByte(b, t);
    } else {
      DecodeEscapedByte(b, t);
    }
  }

  lemma DecodeSafeByte(b: Byte, t: string)
    requires PercentDecode(t).Some? && Safe(b)
    ensures PercentDecode([b as char] + t) == Some([b] + PercentDecode(t).value)
  {
    var s := [b as char] + t;
    assert s[0] != '%' && s[0] as int < 0x80;
    assert s[1..] == t;
  }

  lemma DecodeEscapedByte(b: Byte, t: string)
    requires PercentDecode(t).Some?
    ensures PercentDecode(['%', HexDigit(b / 16), HexDigit(b % 16)] + t) == Some([b] + PercentDecode(t).value)
  {
    var s := ['%', HexDigit(b / 16), HexDigit(b % 16)] + t;
    HexRoundTrip(b);
    assert s[0] == '%' && s[1] == HexDigit(b / 16) && s[2] == HexDigit(b % 16);
    assert s[3..] == t;
    assert 16 * (b / 16) + b % 16 == b;
  }

  lemma HexRoundTrip(b: Byte)
    ensures HexValue(HexDigit(b / 16)) == Some(b / 16)
    ensures HexValue(HexDigit(b % 16)) == Some(b % 16)
  {
  }

  /** `quote(s)`: percent-encoded UTF-8. */
  function Quote(s: string): string
  {
    PercentEncode(Utf8(s))
  }

  function Unquote(t: string): Option<string>
  {
    match PercentDecode(t)
    case None => None
    case Some(bs) => DecodeUtf8(bs)
  }

  lemma QuoteRoundTrip(s: string)
    ensures Unquote(Quote(s)) == Some(s)
  {
    PercentRoundTrip(Utf8(s));
    Utf8RoundTrip(s);
  }

  // ---------------------------------------------------------------------------
  // The locator

  const Host := "https://raw.githubusercontent.com/HugoCDM/candidatos/main/"

  /** The word "Eleições " as the source writes it, already encoded. */
  const Elections := "Elei%C3%A7%C3%B5es%20"

  const Prefix := Host + Elections

  const Separator := "%20-%20"

  const Extension := ".csv.gz"

  /** The link of one year's results file for one state, or `None` when the
      upper-cased code is not a key of the table. */
  function Url(year: nat, code: string): (r: Option<string>)
    ensures r.None? <==> StateName(code).None?
  {
    match StateName(code)
    case None => None
    case Some(name) => Some(Prefix + Text.Digits(year) + Separator + Quote(name) + Extension)
  }

  /** Splits a leading run of decimal digits off `s`. */
  function LeadingDigits(s: string): (r: (string, string))
    ensures r.0 + r.1 == s
    ensures forall i :: 0 <= i < |r.0| ==> Text.IsDigit(r.0[i])
    ensures r.1 == [] || !Text.IsDigit(r.1[0])
  {
    if s == [] || !Text.IsDigit(s[0]) then ([], s)
    else
      var (d, rest) := LeadingDigits(s[1..]);
      assert [s[0]] + d + rest == s;
      ([s[0]] + d, rest)
  }

  lemma {:induction false} LeadingDigitsOf(ds: string, rest: string)
    requires forall i :: 0 <= i < |ds| ==> Text.IsDigit(ds[i])
    requires rest == [] || !Text.IsDigit(rest[0])
    ensures LeadingDigits(ds + rest) == (ds, rest)
  {
    if ds != [] {
      assert (ds + rest)[1..] == ds[1..] + rest;
      LeadingDigitsOf(ds[1..], rest);
      assert ds == [ds[0]] + ds[1..];
    } else {
      assert ds + rest == rest;
    }
  }

  /** Reads year and quoted name back from `prefix + digits + sep + quoted + ext`. */
  function ParseParts(u: string, prefix: string, sep: string, ext: string): Option<(nat, string)>
  {
    if |u| < |prefix| || u[..|prefix|] != prefix then None
    else
      var (ds, rest) := LeadingDigits(u[|prefix|..]);
      if ds == [] || |rest| < |sep| + |ext| || rest[..|sep|] != sep
         || rest[|rest| - |ext|..] != ext then None
      else match Unquote(rest[|sep|..|rest| - |ext|])
        case None => None
        case Some(name) => Some((Text.Value(ds), name))
  }

  lemma PartsRoundTrip(prefix: string, year: nat, sep: string, name: string, ext: string)
    requires sep != [] && !Text.IsDigit(sep[0])
    ensures ParseParts(prefix + Text.Digits(year) + sep + Quote(name) + ext, prefix, sep, ext)
            == Some((year, name))
  {
    var ds := Text.Digits(year);
    var q := Quote(name);
    var rest := sep + q + ext;
    var u := prefix + ds + sep + q + ext;
    assert u == prefix + (ds + rest);
    assert u[..|prefix|] == prefix;
    assert u[|prefix|..] == ds + rest;
    assert rest[0] == sep[0];
    LeadingDigitsOf(ds, rest);
    assert rest[..|sep|] == sep;
    assert rest[|rest| - |ext|..] == ext;
    assert rest[|sep|..|rest| - |ext|] == q;
    QuoteRoundTrip(name);
    Text.ValueOfDigits(year);
  }

  /** Reads year and state name back from a locator. */
  function ParseUrl(u: string): Option<(nat, string)>
  {
    ParseParts(u, Prefix, Separator, Extension)
  }

  /** The locator is decodable: its year segment reads back as the year and its
      state segment decodes to the table's full name for the code. */
  lemma UrlRoundTrip(year: nat, code: string)
    requires StateName(code).Some?
    ensures ParseUrl(Url(year, code).value) == Some((year, StateName(code).value))
  {
    var sep := Separator;
    assert sep[0] == '%';
    PartsRoundTrip(Prefix, year, sep, StateName(code).value, Extension);
  }

  /** A code outside the table has no locator. */
  lemma UnknownCodeHasNoUrl(year: nat, code: string)
    requires forall i :: 0 <= i < |States| ==> States[i].0 != Text.Upper(code)
    ensures Url(year, code) == None
  {
  }

  lemma {:induction false} Utf8Append(a: string, b: string)
    ensures Utf8(a + b) == Utf8(a) + Utf8(b)
  {
    if a == [] {
      assert a + b == b;
    } else {
      assert (a + b)[0] == a[0] && (a + b)[1..] == a[1..] + b;
      Utf8Append(a[1..], b);
    }
  }

  lemma {:induction false} PercentEncodeAppend(a: seq<Byte>, b: seq<Byte>)
    ensures PercentEncode(a + b) == PercentEncode(a) + PercentEncode(b)
  {
    if a == [] {
      assert a + b == b;
    } else {
      assert (a + b)[0] == a[0] && (a + b)[1..] == a[1..] + b;
      PercentEncodeAppend(a[1..], b);
    }
  }

  /** Quoting works character by character. */
  lemma QuoteAppend(a: string, b: string)
    ensures Quote(a + b) == Quote(a) + Quote(b)
  {
    Utf8Append(a, b);
    PercentEncodeAppend(Utf8(a), Utf8(b));
  }

  /** Letters, digits and `_.-~/` are left as they are. */
  lemma {:induction false} QuoteSafe(s: string)
    requires forall i :: 0 <= i < |s| ==> s[i] as int < 0x80 && Safe(s[i] as int)
    ensures Quote(s) == s
  {
    if s != [] {
      QuoteAppend([s[0]], s[1..]);
      assert [s[0]] + s[1..] == s;
      QuoteSafe(s[1..]);
    }
  }

  /** A space is quoted as `%20`, wherever it stands. */
  lemma QuoteSpace(a: string, b: string)
    ensures Quote(a + " " + b) == Quote(a) + "%20" + Quote(b)
  {
    QuoteAppend(a + " ", b);
    QuoteAppend(a, " ");
    assert Quote(" ") == "%20";
  }

  /** A letter of the Latin-1 block takes two UTF-8 bytes, each quoted as `%XX`. */
  lemma QuoteTwoByte(c: char)
    requires 0x80 <= c as int < 0x800
    ensures Quote([c]) == ['%', HexDigit((0xC0 + c as int / 64) / 16), HexDigit((0xC0 + c as int / 64) % 16),
                           '%', HexDigit((0x80 + c as int % 64) / 16), HexDigit((0x80 + c as int % 64) % 16)]
  {
    var n := c as int;
    var b0: Byte, b1: Byte := 0xC0 + n / 64, 0x80 + n % 64;
    assert [c][1..] == [];
    assert Utf8([c]) == EncodeChar(c);
    assert EncodeChar(c) == [b0, b1];
    assert !Safe(b0) && !Safe(b1);
    var e0, e1 := EncodeByte(b0), EncodeByte(b1);
    assert [b1][1..] == [];
    assert PercentEncode([b1]) == e1;
    assert [b0, b1][1..] == [b1];
    assert PercentEncode([b0, b1]) == e0 + e1;
  }

  lemma QuoteCedilla()
    ensures Quote("ç") == "%C3%A7"
  {
    assert Utf8("ç") == EncodeChar('ç') + Utf8([]);
    assert EncodeChar('ç') == [0xC3, 0xA7];
    assert PercentEncode([0xC3, 0xA7]) == EncodeByte(0xC3) + PercentEncode([0xA7]);
  }

  lemma QuoteOTilde()
    ensures Quote("õ") == "%C3%B5"
  {
    assert Utf8("õ") == EncodeChar('õ') + Utf8([]);
    assert EncodeChar('õ') == [0xC3, 0xB5];
    assert PercentEncode([0xC3, 0xB5]) == EncodeByte(0xC3) + PercentEncode([0xB5]);
  }

  /** The fixed prefix holds "Eleições " already quoted. */
  lemma PrefixEncodesElections()
    ensures Elections == "Elei" + Quote("ç") + Quote("õ") + "es" + Quote(" ")
  {
    assert Elections == "Elei" + "%C3%A7" + "%C3%B5" + "es" + "%20";
    assert Quote(" ") == "%20";
    QuoteCedilla();
    QuoteOTilde();
  }

  lemma CodesDistinctLow()
    ensures forall j, k :: 0 <= j < k < 14 ==> States[j].0 != States[k].0
  {
  }

  lemma CodesDistinctHigh()
    ensures forall j, k :: 14 <= j < k < 27 ==> States[j].0 != States[k].0
  {
  }

  lemma CodesDistinctAcross()
    ensures forall j, k :: 0 <= j < 14 <= k < 27 ==> States[j].0 != States[k].0
  {
  }

  /** The locator for Rio de Janeiro, whatever the case of the code. */
  lemma RioDeJaneiro(year: nat, code: string)
    requires Text.Upper(code) == "RJ"
    ensures Url(year, code) == Some(Prefix + Text.Digits(year) + Separator + Quote("Rio de Janeiro") + Extension)
  {
    StateNameOfEntry(18, code);
  }
}
