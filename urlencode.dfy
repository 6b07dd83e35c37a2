/** The search URL: `urllib.parse.urlencode` with its default `quote_plus`
    over the UTF-8 bytes of each value (section 2.3 of RFC 3986 keeps the
    unreserved characters, section 2.1 percent-encodes every other byte,
    and a space becomes `+`), and `urlunparse` putting the query after the
    fixed scheme, host and path. Decoding functions are the inverse the
    round-trip lemmas use. */
module UrlEncode {
  import opened Wrappers
  import opened Text

  type Byte = b: int | 0 <= b < 256

  // ---- UTF-8 ----

  /** `c.encode("utf-8")`. */
  function Utf8(c: char): (bs: seq<Byte>)
    ensures 1 <= |bs| <= 4
  {
    var cp := c as int;
    if cp < 0x80 then [cp]
    else if cp < 0x800 then [0xC0 + cp / 64, 0x80 + cp % 64]
    else if cp < 0x10000 then [0xE0 + cp / 4096, 0x80 + cp / 64 % 64, 0x80 + cp % 64]
    else [0xF0 + cp / 262144, 0x80 + cp / 4096 % 64, 0x80 + cp / 64 % 64, 0x80 + cp % 64]
  }

  function Utf8String(s: string): seq<Byte>
  {
    if s == [] then [] else Utf8(s[0]) + Utf8String(s[1..])
  }

  predicate IsContinuation(b: Byte) { 0x80 <= b < 0xC0 }

  /** `bytes.decode("utf-8")`: `None` where Python raises. */
  function DecodeUtf8(bs: seq<Byte>): Option<string>
    decreases |bs|
  {
    if bs == [] then Some([])
    else
      var b0: int := bs[0];
      if b0 < 0x80 then Prepend(b0 as char, DecodeUtf8(bs[1..]))
      else if 0xC2 <= b0 < 0xE0 && |bs| >= 2 && IsContinuation(bs[1]) then
        var cp := (b0 - 0xC0) * 64 + (bs[1] as int - 0x80);
        Prepend(cp as char, DecodeUtf8(bs[2..]))
      else if 0xE0 <= b0 < 0xF0 && |bs| >= 3 && IsContinuation(bs[1]) && IsContinuation(bs[2]) then
        var cp := (b0 - 0xE0) * 4096 + (bs[1] as int - 0x80) * 64 + (bs[2] as int - 0x80);
        if 0x800 <= cp && !(0xD800 <= cp < 0xE000) then Prepend(cp as char, DecodeUtf8(bs[3..])) else None
      else if 0xF0 <= b0 < 0xF5 && |bs| >= 4 && IsContinuation(bs[1]) && IsContinuation(bs[2]) && IsContinuation(bs[3]) then
        var cp := (b0 - 0xF0) * 262144 + (bs[1] as int - 0x80) * 4096 + (bs[2] as int - 0x80) * 64 + (bs[3] as int - 0x80);
        if 0x10000 <= cp <= 0x10FFFF then Prepend(cp as char, DecodeUtf8(bs[4..])) else None
      else None
  }

  function Prepend(c: char, r: Option<string>): Option<string>
  {
    match r
    case None => None
    case Some(s) => Some([c] + s)
  }

  lemma TwoBytes(cp: int)
    requires 0x80 <= cp < 0x800
    ensures 0xC2 <= 0xC0 + cp / 64 < 0xE0
    ensures (cp / 64) * 64 + cp % 64 == cp
  {
  }

  lemma ThreeBytes(cp: int)
    requires 0x800 <= cp < 0x10000
    ensures 0xE0 <= 0xE0 + cp / 4096 < 0xF0
    ensures (cp / 4096) * 4096 + (cp / 64 % 64) * 64 + cp % 64 == cp
  {
    var q := cp / 64;
    assert cp == q * 64 + cp % 64;
    assert q == (q / 64) * 64 + q % 64;
    assert q / 64 == cp / 4096;
  }

  lemma FourBytes(cp: int)
    requires 0x10000 <= cp <= 0x10FFFF
    ensures 0xF0 <= 0xF0 + cp / 262144 < 0xF5
    ensures (cp / 262144) * 262144 + (cp / 4096 % 64) * 4096 + (cp / 64 % 64) * 64 + cp % 64 == cp
  {
    var q := cp / 64;
    var p := q / 64;
    assert cp == q * 64 + cp % 64;
    assert q == p * 64 + q % 64;
    assert p == (p / 64) * 64 + p % 64;
    assert p == cp / 4096;
    assert p / 64 == cp / 262144;
  }

  /** Decoding reads one encoded character off the front. */
  lemma DecodeUtf8Char(c: char, rest: seq<Byte>)
    ensures DecodeUtf8(Utf8(c) + rest) == Prepend(c, DecodeUtf8(rest))
  {
    var cp := c as int;
    var bs := Utf8(c) + rest;
    if cp < 0x80 {
      assert bs[1..] == rest;
    } else if cp < 0x800 {
      TwoBytes(cp);
      assert bs[2..] == rest;
    } else if cp < 0x10000 {
      ThreeBytes(cp);
      assert bs[3..] == rest;
    } else {
      FourBytes(cp);
      assert bs[4..] == rest;
    }
  }

  /** UTF-8 decoding undoes UTF-8 encoding. */
  lemma {:induction false} DecodeUtf8String(s: string)
    ensures DecodeUtf8(Utf8String(s)) == Some(s)
  {
    if s != [] {
      DecodeUtf8String(s[1..]);
      DecodeUtf8Char(s[0], Utf8String(s[1..]));
      assert [s[0]] + s[1..] == s;
    }
  }

  // ---- quote_plus ----

  /** The characters `quote` never escapes: letters, digits and `_.-~`
      (the unreserved set of section 2.3 of RFC 3986). */
  predicate Unreserved(c: char)
  {
    ('A' <= c <= 'Z') || ('a' <= c <= 'z') || ('0' <= c <= '9') || c == '_' || c == '.' || c == '-' || c == '~'
  }

  const HexDigits := "0123456789ABCDEF"

  /** One byte as `quote_plus` writes it: an unreserved ASCII character as
      itself, a space as `+`, anything else as `%XX` in upper-case hex. */
  function QuoteByte(b: Byte): (r: string)
    ensures forall i | 0 <= i < |r| :: Unreserved(r[i]) || r[i] == '%' || r[i] == '+'
  {
    if Unreserved(b as char) then [b as char]
    else if b == 32 then "+"
    else ['%', HexDigits[b / 16], HexDigits[b % 16]]
  }

  function QuoteBytes(bs: seq<Byte>): (r: string)
    ensures forall i | 0 <= i < |r| :: Unreserved(r[i]) || r[i] == '%' || r[i] == '+'
  {
    if bs == [] then [] else QuoteByte(bs[0]) + QuoteBytes(bs[1..])
  }

  /** `urllib.parse.quote_plus(s)`: the escaped text uses only unreserved
      characters, `%` and `+`, so it never holds the `&` and `=` that
      delimit a query. */
  function QuotePlus(s: string): (r: string)
    ensures forall i | 0 <= i < |r| :: Unreserved(r[i]) || r[i] == '%' || r[i] == '+'
    ensures '&' !in r && '=' !in r
  {
    QuoteBytes(Utf8String(s))
  }

  function HexValue(c: char): Option<nat>
  {
    if '0' <= c <= '9' then Some(c as int - 48)
    else if 'A' <= c <= 'F' then Some(c as int - 55)
    else if 'a' <= c <= 'f' then Some(c as int - 87)
    else None
  }

  function PrependByte(b: Byte, r: Option<seq<Byte>>): Option<seq<Byte>>
  {
    match r
    case None => None
    case Some(bs) => Some([b] + bs)
  }

  /** The bytes an escaped text stands for (`unquote_to_bytes` after `+`
      is read as a space); `None` on a malformed escape or a character that
      `quote_plus` would have escaped. */
  function UnquoteBytes(s: string): Option<seq<Byte>>
    decreases |s|
  {
    if s == [] then Some([])
    else if s[0] == '+' then PrependByte(32, UnquoteBytes(s[1..]))
    else if s[0] == '%' then
      if |s| >= 3 && HexValue(s[1]).Some? && HexValue(s[2]).Some? then
        PrependByte(HexValue(s[1]).value * 16 + HexValue(s[2]).value, UnquoteBytes(s[3..]))
      else None
    else if Unreserved(s[0]) then PrependByte(s[0] as int, UnquoteBytes(s[1..]))
    else None
  }

  /** `urllib.parse.unquote_plus`, the inverse of `QuotePlus`. */
  function UnquotePlus(s: string): Option<string>
  {
    match UnquoteBytes(s)
    case None => None
    case Some(bs) => DecodeUtf8(bs)
  }

  lemma HexDigitValue(n: nat)
    requires n < 16
    ensures HexValue(HexDigits[n]) == Some(n)
  {
  }

  lemma UnquoteByte(b: Byte, rest: string)
    ensures UnquoteBytes(QuoteByte(b) + rest) == PrependByte(b, UnquoteBytes(rest))
  {
    var s := QuoteByte(b) + rest;
    if Unreserved(b as char) {
      assert s[1..] == rest;
    } else if b == 32 {
      assert s[1..] == rest;
    } else {
      HexDigitValue(b / 16);
      HexDigitValue(b % 16);
      assert s[3..] == rest;
    }
  }

  lemma {:induction false} UnquoteQuoteBytes(bs: seq<Byte>)
    ensures UnquoteBytes(QuoteBytes(bs)) == Some(bs)
  {
    if bs != [] {
      UnquoteQuoteBytes(bs[1..]);
      UnquoteByte(bs[0], QuoteBytes(bs[1..]));
      assert [bs[0]] + bs[1..] == bs;
    }
  }

  /** `unquote_plus(quote_plus(s)) == s`: every query value survives
      encoding, whatever characters it holds. */
  lemma UnquoteQuotePlus(s: string)
    ensures UnquotePlus(QuotePlus(s)) == Some(s)
  {
    UnquoteQuoteBytes(Utf8String(s));
    DecodeUtf8String(s);
  }

  // ---- urlencode and construct_url ----

  /** `urlencode(params)` for parameters in insertion order. */
  function Urlencode(params: seq<(string, string)>): string
    requires |params| >= 1
  {
    Join(EncodePairs(params), '&')
  }

  function EncodePairs(params: seq<(string, string)>): (r: seq<string>)
    ensures |r| == |params|
    ensures forall k | 0 <= k < |r| :: '&' !in r[k]
  {
    if params == [] then []
    else [QuotePlus(params[0].0) + "=" + QuotePlus(params[0].1)] + EncodePairs(params[1..])
  }

  const SearchEndpoint := "https://twitter.com/i/search/timeline?"

  /** The keys `construct_url` sends, and the fixed value of `f`. */
  const FilterKey := "f"
  const FilterValue := "tweets"
  const QueryKey := "q"
  const PositionKey := "max_position"

  /** The parameters `construct_url` sends: `f=tweets`, the query, and the
      pagination cursor when there is one. */
  function SearchParams(query: string, maxPosition: Option<string>): seq<(string, string)>
  {
    [(FilterKey, FilterValue), (QueryKey, query)]
    + (if maxPosition.Some? then [(PositionKey, maxPosition.value)] else [])
  }

  /** `TwitterSearch.construct_url(query, max_position)`. */
  function ConstructUrl(query: string, maxPosition: Option<string>): string
  {
    SearchEndpoint + Urlencode(SearchParams(query, maxPosition))
  }

  function DecodePair(piece: string): Option<(string, string)>
  {
    var kv := Split(piece, '=');
    if |kv| != 2 then None
    else match (UnquotePlus(kv[0]), UnquotePlus(kv[1]))
      case (Some(k), Some(v)) => Some((k, v))
      case _ => None
  }

  function DecodePairs(pieces: seq<string>): Option<seq<(string, string)>>
  {
    if pieces == [] then Some([])
    else match (DecodePair(pieces[0]), DecodePairs(pieces[1..]))
      case (Some(p), Some(ps)) => Some([p] + ps)
      case _ => None
  }

  /** The parameters of a search URL, in order (`parse_qsl` keeping blank
      values); `None` for any other URL. */
  function ParseSearchUrl(url: string): Option<seq<(string, string)>>
  {
    if |SearchEndpoint| <= |url| && url[..|SearchEndpoint|] == SearchEndpoint then
      DecodePairs(Split(url[|SearchEndpoint|..], '&'))
    else None
  }

  lemma DecodeEncodedPair(k: string, v: string)
    ensures DecodePair(QuotePlus(k) + "=" + QuotePlus(v)) == Some((k, v))
  {
    SplitJoin(QuotePlus(k), '=', QuotePlus(v));
    SplitJoin(QuotePlus(v), '=', []);
    assert QuotePlus(k) + "=" + QuotePlus(v) == QuotePlus(k) + ['='] + QuotePlus(v);
    UnquoteQuotePlus(k);
    UnquoteQuotePlus(v);
  }

  lemma {:induction false} DecodeEncodedPairs(params: seq<(string, string)>)
    ensures DecodePairs(EncodePairs(params)) == Some(params)
  {
    if params != [] {
      DecodeEncodedPair(params[0].0, params[0].1);
      DecodeEncodedPairs(params[1..]);
      assert EncodePairs(params)[1..] == EncodePairs(params[1..]);
      assert [params[0]] + params[1..] == params;
    }
  }

  /** Every search URL decodes to exactly the parameters it was built
      from: `f=tweets`, then `q` carrying the query verbatim, then
      `max_position` exactly when a cursor was given. */
  lemma ConstructUrlParams(query: string, maxPosition: Option<string>)
    ensures ParseSearchUrl(ConstructUrl(query, maxPosition)) == Some(SearchParams(query, maxPosition))
  {
    var params := SearchParams(query, maxPosition);
    var url := ConstructUrl(query, maxPosition);
    assert url[..|SearchEndpoint|] == SearchEndpoint;
    assert url[|SearchEndpoint|..] == Urlencode(params);
    SplitOfJoin(EncodePairs(params), '&');
    DecodeEncodedPairs(params);
  }

  /** Different queries or cursors never give the same URL. */
  lemma ConstructUrlInjective(q1: string, m1: Option<string>, q2: string, m2: Option<string>)
    ensures ConstructUrl(q1, m1) == ConstructUrl(q2, m2) <==> q1 == q2 && m1 == m2
  {
    if ConstructUrl(q1, m1) == ConstructUrl(q2, m2) {
      ConstructUrlParams(q1, m1);
      ConstructUrlParams(q2, m2);
      var p1 := SearchParams(q1, m1);
      var p2 := SearchParams(q2, m2);
      assert p1 == p2;
      assert p1[1].1 == q1 && p2[1].1 == q2;
      assert |p1| == |p2|;
      if m1.Some? {
        assert p1[2].1 == m1.value;
      }
    }
  }
}
