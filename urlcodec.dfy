/** The parts of `urllib.parse` the server uses: `quote_plus`, `unquote_plus`,
    the query component of `urlparse`, and the first value of a name in
    `parse_qs` (with its defaults: blank values dropped, `&` as the only
    separator, UTF-8 with replacement when percent-escapes do not decode). */
module UrlCodec {
  import opened Outcomes
  import opened Utf8
  import opened Text

  // ---------------------------------------------------------------------
  // Percent-encoding

  /** Bytes `quote` never escapes: ASCII letters, digits and `_.-~`. */
  predicate AlwaysSafe(b: byte) {
    ('A' as byte <= b <= 'Z' as byte) || ('a' as byte <= b <= 'z' as byte)
    || ('0' as byte <= b <= '9' as byte) || b == '_' as byte || b == '.' as byte
    || b == '-' as byte || b == '~' as byte
  }

  function HexDigit(d: nat): char
    requires d < 16
  {
    "0123456789ABCDEF"[d]
  }

  predicate IsHex(c: char) { ('0' <= c <= '9') || ('a' <= c <= 'f') || ('A' <= c <= 'F') }

  function HexValue(c: char): (d: nat)
    requires IsHex(c)
    ensures d < 16
  {
    if '0' <= c <= '9' then c as int - '0' as int
    else if 'a' <= c <= 'f' then c as int - 'a' as int + 10
    else c as int - 'A' as int + 10
  }

  /** How `quote_plus` writes one byte of the UTF-8 encoding. */
  function QuoteByte(b: byte): string
  {
    if b == 0x20 then "+"
    else if AlwaysSafe(b) then [(b as int) as char]
    else ['%', HexDigit(b as nat / 16), HexDigit(b as nat % 16)]
  }

  function QuoteBytes(bs: seq<byte>): string
  {
    if bs == [] then [] else QuoteByte(bs[0]) + QuoteBytes(bs[1..])
  }

  /** `quote_plus(s)`: the UTF-8 bytes of `s`, spaces as `+`, every byte
      outside the always-safe set as `%XX`. */
  function QuotePlus(s: string): string
  {
    QuoteBytes(Encode(s))
  }

  function ReplacePlus(s: string): (t: string)
    ensures |t| == |s|
    ensures forall i :: 0 <= i < |s| ==> t[i] == if s[i] == '+' then ' ' else s[i]
  {
    seq(|s|, i requires 0 <= i < |s| => if s[i] == '+' then ' ' else s[i])
  }

  /** The bytes `unquote` assembles: each valid `%XX` is one byte, every other
      character contributes its UTF-8 encoding. */
  function PercentBytes(s: string): seq<byte>
  {
    if s == [] then []
    else if s[0] == '%' && |s| >= 3 && IsHex(s[1]) && IsHex(s[2]) then
      [(HexValue(s[1]) * 16 + HexValue(s[2])) as byte] + PercentBytes(s[3..])
    else EncodeChar(s[0]) + PercentBytes(s[1..])
  }

  /** `unquote_plus(s)`: `+` becomes a space, then percent-escapes are
      decoded as UTF-8, ill-formed sequences becoming U+FFFD. */
  function UnquotePlus(s: string): string
  {
    DecodeReplace(PercentBytes(ReplacePlus(s)))
  }

  // ---------------------------------------------------------------------
  // Query strings

  /** What `urlsplit` strips from the front of a URL: C0 controls and spaces. */
  function LStripControls(url: string): (u: string)
    ensures u == [] || u[0] as int > 0x20
    ensures url != [] && url[0] as int > 0x20 ==> u == url
  {
    if url != [] && url[0] as int <= 0x20 then LStripControls(url[1..]) else url
  }

  /** Holds no tab, CR or LF. */
  predicate Clean(s: string) { Free(s, '\t') && Free(s, '\r') && Free(s, '\n') }

  lemma CleanAppend(a: string, b: string)
    ensures Clean(a + b) <==> Clean(a) && Clean(b)
  {
    FreeAppend(a, b, '\t');
    FreeAppend(a, b, '\r');
    FreeAppend(a, b, '\n');
  }

  /** What `urlsplit` deletes anywhere in a URL: tabs, CRs and LFs. */
  function RemoveUnsafe(url: string): (u: string)
    ensures Clean(u)
    ensures Clean(url) ==> u == url
  {
    if url == [] then []
    else
      var head := if url[0] == '\t' || url[0] == '\r' || url[0] == '\n' then [] else [url[0]];
      FreeAppend(head, RemoveUnsafe(url[1..]), '\t');
      FreeAppend(head, RemoveUnsafe(url[1..]), '\r');
      FreeAppend(head, RemoveUnsafe(url[1..]), '\n');
      assert url == [url[0]] + url[1..];
      head + RemoveUnsafe(url[1..])
  }

  predicate IsAsciiLetter(c: char) { ('A' <= c <= 'Z') || ('a' <= c <= 'z') }

  /** The characters of a scheme name. */
  predicate SchemeChar(c: char) { IsAsciiLetter(c) || ('0' <= c <= '9') || c == '+' || c == '-' || c == '.' }

  /** `urlsplit` takes what precedes the first `:` as the scheme when it
      starts with an ASCII letter and holds only scheme characters, and goes
      on with what follows the colon. */
  function StripScheme(url: string): (u: string)
    ensures Free(url, ':') ==> u == url
  {
    var parts := SplitOnce(url, ":");
    assert Free(url, ':') ==> !Contains(url, ":") by {
      if Free(url, ':') {
        NotContainsFree(url, ":");
      }
    }
    if |parts| == 2 && parts[0] != [] && IsAsciiLetter(parts[0][0])
       && forall i :: 0 <= i < |parts[0]| ==> SchemeChar(parts[0][i])
    then parts[1] else url
  }

  /** How far the network location after `//` runs: up to the first `/`,
      `?` or `#`. */
  function NetlocLength(s: string): (n: nat)
    ensures n <= |s|
    ensures forall i :: 0 <= i < n ==> s[i] != '/' && s[i] != '?' && s[i] != '#'
    ensures n < |s| ==> s[n] == '/' || s[n] == '?' || s[n] == '#'
  {
    if s == [] || s[0] == '/' || s[0] == '?' || s[0] == '#' then 0 else 1 + NetlocLength(s[1..])
  }

  /** The query component of a URL without scheme or network location: what
      follows the first `?` of the part before the first `#`, or nothing. */
  function QueryPart(url: string): (q: string)
    ensures !Contains(url, "?") ==> q == ""
  {
    var beforeFragment := SplitOnce(url, "#")[0];
    var parts := SplitOnce(beforeFragment, "?");
    assert Contains(beforeFragment, "?") ==> Contains(url, "?") by {
      if Contains(beforeFragment, "?") {
        var i :| 0 <= i <= |beforeFragment| && OccursAt(beforeFragment, i, "?");
        if |SplitOnce(url, "#")| == 2 {
          OccursInPrefix(url, |beforeFragment|, i, "?");
        }
      }
    }
    if |parts| == 2 then parts[1] else ""
  }

  /** `urlparse(url).query`: the URL is cleaned and its scheme taken off;
      after `//` the network location runs to the first `/`, `?` or `#`, and
      one holding a `[` without a `]`, or a `]` without a `[`, raises
      ValueError; the query is read from what remains. */
  function UrlQuery(url: string): (r: Result<string>)
    ensures r.Raise? ==> r.exc == ValueError
    ensures r.Raise? ==> Contains(url, "[") || Contains(url, "]")
  {
    var u := StripScheme(RemoveUnsafe(LStripControls(url)));
    if |u| >= 2 && u[..2] == "//" then
      var netloc := u[2..2 + NetlocLength(u[2..])];
      if Free(netloc, '[') != Free(netloc, ']') then
        BracketSurvives(url, netloc);
        Raise(ValueError)
      else Ok(QueryPart(u[2 + NetlocLength(u[2..])..]))
    else Ok(QueryPart(u))
  }

  /** A bracket the network location holds was in the URL all along: the
      cleaning and the scheme split only take characters away. */
  lemma BracketSurvives(url: string, netloc: string)
    requires var u := StripScheme(RemoveUnsafe(LStripControls(url)));
             |u| >= 2 && u[..2] == "//" && netloc == u[2..2 + NetlocLength(u[2..])]
    requires !Free(netloc, '[') || !Free(netloc, ']')
    ensures Contains(url, "[") || Contains(url, "]")
  {
    var b := if !Free(netloc, '[') then '[' else ']';
    var u := StripScheme(RemoveUnsafe(LStripControls(url)));
    SliceKeeps(u, 2, 2 + NetlocLength(u[2..]), b);
    StripSchemeKeeps(RemoveUnsafe(LStripControls(url)), b);
    RemoveUnsafeKeeps(LStripControls(url), b);
    LStripKeeps(url, b);
    ContainsOne(url, b);
  }

  lemma SliceKeeps(s: string, i: nat, j: nat, b: char)
    requires i <= j <= |s| && !Free(s[i..j], b)
    ensures !Free(s, b)
  {
    var k :| 0 <= k < j - i && s[i..j][k] == b;
    assert s[i + k] == b;
  }

  lemma ContainsOne(s: string, b: char)
    requires !Free(s, b)
    ensures Contains(s, [b])
  {
    var j :| 0 <= j < |s| && s[j] == b;
    assert s[j..j + 1] == [b];
    assert OccursAt(s, j, [b]);
  }

  lemma StripSchemeKeeps(url: string, b: char)
    requires b != ':' && !Free(StripScheme(url), b)
    ensures !Free(url, b)
  {
    var parts := SplitOnce(url, ":");
    if |parts| == 2 && StripScheme(url) == parts[1] {
      FreeAppend(parts[0] + ":", parts[1], b);
    }
  }

  lemma {:induction false} RemoveUnsafeKeeps(url: string, b: char)
    requires !Free(RemoveUnsafe(url), b)
    ensures !Free(url, b)
  {
    if url != [] {
      var head := if url[0] == '\t' || url[0] == '\r' || url[0] == '\n' then [] else [url[0]];
      assert RemoveUnsafe(url) == head + RemoveUnsafe(url[1..]);
      FreeAppend(head, RemoveUnsafe(url[1..]), b);
      if !Free(RemoveUnsafe(url[1..]), b) {
        RemoveUnsafeKeeps(url[1..], b);
        FreeAppend([url[0]], url[1..], b);
        assert url == [url[0]] + url[1..];
      }
    }
  }

  lemma {:induction false} LStripKeeps(url: string, b: char)
    requires !Free(LStripControls(url), b)
    ensures !Free(url, b)
  {
    if url != [] && url[0] as int <= 0x20 {
      LStripKeeps(url[1..], b);
      FreeAppend([url[0]], url[1..], b);
      assert url == [url[0]] + url[1..];
    }
  }

  /** A URL with no scheme, no network location and nothing `urlsplit`
      cleans away has the query `QueryPart` reads. */
  lemma UrlQueryRelative(url: string)
    requires url != [] && url[0] as int > 0x20 && url[0] != '/'
    requires Free(url, ':') && Clean(url)
    ensures UrlQuery(url) == Ok(QueryPart(url))
  {
    assert LStripControls(url) == url;
    assert RemoveUnsafe(url) == url;
    assert StripScheme(url) == url;
    assert |url| >= 2 ==> url[..2][0] == url[0];
  }

  /** The query of a path with one `?` and no `#` is what follows the `?`. */
  lemma QueryPartOf(path: string, qs: string)
    requires Free(path, '?') && Free(path, '#') && Free(qs, '#')
    ensures QueryPart(path + "?" + qs) == qs
  {
    var url := path + "?" + qs;
    FreeAppend(path, "?", '#');
    FreeAppend(path + "?", qs, '#');
    NotContainsFree(url, "#");
    SplitOnceAtFirst(path, "?", qs);
  }

  /** The query of `scheme://host/path?qs`, for a host without brackets and
      a path and query without `?` or `#` besides the one, is `qs`. */
  lemma UrlQueryAbsolute(scheme: string, host: string, path: string, qs: string)
    requires scheme != [] && IsAsciiLetter(scheme[0]) && forall i :: 0 <= i < |scheme| ==> SchemeChar(scheme[i])
    requires forall i :: 0 <= i < |host| ==> host[i] != '/' && host[i] != '?' && host[i] != '#'
    requires Free(host, '[') && Free(host, ']') && path != [] && path[0] == '/'
    requires Free(path, '?') && Free(path, '#') && Free(qs, '#')
    requires Clean(host) && Clean(path) && Clean(qs)
    ensures UrlQuery(scheme + ":" + ("//" + host + path) + "?" + qs) == Ok(qs)
  {
    var tail := "//" + host + path + "?" + qs;
    var url := scheme + ":" + ("//" + host + path) + "?" + qs;
    Assoc(scheme + ":", "//" + host + path, "?");
    Assoc(scheme + ":", "//" + host + path + "?", qs);
    assert url == scheme + ":" + tail;
    assert Free(scheme, ':') && Clean(scheme) && Clean(":");
    assert Clean("//") && Clean("?");
    CleanAppend("//", host);
    CleanAppend("//" + host, path);
    CleanAppend("//" + host + path, "?");
    CleanAppend("//" + host + path + "?", qs);
    CleanAppend(scheme, ":");
    CleanAppend(scheme + ":", tail);
    assert LStripControls(url) == url;
    assert RemoveUnsafe(url) == url;
    SplitOnceAtFirst(scheme, ":", tail);
    assert StripScheme(url) == tail;
    var rest := path + "?" + qs;
    Assoc("//" + host + path, "?", qs);
    Assoc("//" + host, path, "?" + qs);
    Assoc("//", host, path + ("?" + qs));
    Assoc(path, "?", qs);
    assert tail == "//" + (host + rest);
    NetlocLengthOf(host, rest);
    assert tail[..2] == "//" && tail[2..] == host + rest;
    assert tail[2..2 + |host|] == host && tail[2 + |host|..] == rest;
    QueryPartOf(path, qs);
  }

  /** A network location that opens a bracket and never closes it is
      rejected: `urlsplit` raises ValueError. */
  lemma UrlQueryUnbalanced(host: string)
    requires forall i :: 0 <= i < |host| ==> host[i] != '/' && host[i] != '?' && host[i] != '#'
    requires Free(host, ':') && Clean(host) && Free(host, ']') && !Free(host, '[')
    ensures UrlQuery("//" + host) == Raise(ValueError)
  {
    var url := "//" + host;
    assert Clean("//") && Free("//", ':');
    CleanAppend("//", host);
    FreeAppend("//", host, ':');
    assert url[0] == '/';
    assert LStripControls(url) == url;
    assert RemoveUnsafe(url) == url;
    assert StripScheme(url) == url;
    assert url[..2] == "//" && url[2..] == host;
    assert NetlocLength(host) == |host|;
    assert url[2..2 + |host|] == host;
  }

  /** A network location ends at the first `/`. */
  lemma {:induction false} NetlocLengthOf(host: string, rest: string)
    requires forall i :: 0 <= i < |host| ==> host[i] != '/' && host[i] != '?' && host[i] != '#'
    requires rest != [] && rest[0] == '/'
    ensures NetlocLength(host + rest) == |host|
  {
    if host == [] {
      assert host + rest == rest;
    } else {
      assert (host + rest)[0] == host[0] && (host + rest)[1..] == host[1..] + rest;
      NetlocLengthOf(host[1..], rest);
    }
  }

  /** The name/value pair `parse_qsl` keeps from one field: none for an
      empty field, a field without `=` or one with an empty value. */
  function FieldPair(field: string): (ps: seq<(string, string)>)
    ensures |ps| <= 1
  {
    var nv := SplitOnce(field, "=");
    if field == [] || |nv| != 2 || nv[1] == [] then []
    else [(UnquotePlus(nv[0]), UnquotePlus(nv[1]))]
  }

  /** The pairs of all fields, in order. */
  function QueryPairs(fields: seq<string>): (ps: seq<(string, string)>)
    ensures |ps| <= |fields|
  {
    if fields == [] then [] else FieldPair(fields[0]) + QueryPairs(fields[1..])
  }

  function Lookup(ps: seq<(string, string)>, name: string): (r: Option<string>)
    ensures r.Some? <==> exists i :: 0 <= i < |ps| && ps[i].0 == name
  {
    if ps == [] then None
    else if ps[0].0 == name then Some(ps[0].1)
    else Lookup(ps[1..], name)
  }

  /** `parse_qs(qs).get(name, [''])[0]` */
  function QueryFirst(qs: string, name: string): string
  {
    match Lookup(QueryPairs(Split(qs, "&")), name)
    case Some(v) => v
    case None => ""
  }

  // ---------------------------------------------------------------------
  // Properties

  lemma HexRoundTrip(d: nat)
    requires d < 16
    ensures IsHex(HexDigit(d)) && HexValue(HexDigit(d)) == d
  {
  }

  lemma {:induction false} QuoteBytesAppend(a: seq<byte>, b: seq<byte>)
    ensures QuoteBytes(a + b) == QuoteBytes(a) + QuoteBytes(b)
  {
    if a == [] {
      assert a + b == b;
    } else {
      assert (a + b)[1..] == a[1..] + b;
      QuoteBytesAppend(a[1..], b);
    }
  }

  /** A quoted text is plain ASCII and holds none of the characters that
      delimit query fields, fragments or spaces. */
  lemma {:induction false} QuoteBytesAlphabet(bs: seq<byte>)
    ensures forall i :: 0 <= i < |QuoteBytes(bs)| ==> QuotedChar(QuoteBytes(bs)[i])
  {
    if bs != [] {
      QuoteBytesAlphabet(bs[1..]);
      var q := QuoteByte(bs[0]);
      assert forall i :: 0 <= i < |q| ==> QuotedChar(q[i]);
      assert QuoteBytes(bs) == q + QuoteBytes(bs[1..]);
    }
  }

  predicate QuotedChar(c: char) {
    c == '+' || c == '%' || ('A' <= c <= 'Z') || ('a' <= c <= 'z') || ('0' <= c <= '9')
    || c == '_' || c == '.' || c == '-' || c == '~'
  }

  /** Reading one quoted byte back yields that byte. */
  lemma PercentBytesQuoteByte(b: byte, rest: string)
    ensures PercentBytes(ReplacePlus(QuoteByte(b)) + rest) == [b] + PercentBytes(rest)
  {
    var q := ReplacePlus(QuoteByte(b));
    var s := q + rest;
    if b == 0x20 {
      assert q == " ";
      assert s[1..] == rest;
    } else if AlwaysSafe(b) {
      assert q == [(b as int) as char];
      assert s[1..] == rest;
    } else {
      PercentBytesEscaped(b, rest);
    }
  }

  lemma PercentBytesEscaped(b: byte, rest: string)
    requires b != 0x20 && !AlwaysSafe(b)
    ensures PercentBytes(ReplacePlus(QuoteByte(b)) + rest) == [b] + PercentBytes(rest)
  {
    var s := ReplacePlus(QuoteByte(b)) + rest;
    HexRoundTrip(b as nat / 16);
    HexRoundTrip(b as nat % 16);
    assert ReplacePlus(QuoteByte(b)) == QuoteByte(b);
    assert s[0] == '%' && s[1] == HexDigit(b as nat / 16) && s[2] == HexDigit(b as nat % 16);
    assert s[3..] == rest;
  }

  lemma ReplacePlusAppend(a: string, b: string)
    ensures ReplacePlus(a + b) == ReplacePlus(a) + ReplacePlus(b)
  {
  }

  /** Reading quoted bytes back yields those bytes, whatever follows them. */
  lemma {:induction false} PercentBytesQuoteBytes(bs: seq<byte>, rest: string)
    ensures PercentBytes(ReplacePlus(QuoteBytes(bs)) + rest) == bs + PercentBytes(rest)
  {
    if bs == [] {
      assert ReplacePlus(QuoteBytes(bs)) + rest == rest;
    } else {
      var head := ReplacePlus(QuoteByte(bs[0]));
      var tail := ReplacePlus(QuoteBytes(bs[1..]));
      QuotedHead(bs);
      Assoc(head, tail, rest);
      PercentBytesQuoteByte(bs[0], tail + rest);
      PercentBytesQuoteBytes(bs[1..], rest);
      Assoc([bs[0]], bs[1..], PercentBytes(rest));
      assert bs == [bs[0]] + bs[1..];
    }
  }

  lemma QuotedHead(bs: seq<byte>)
    requires bs != []
    ensures ReplacePlus(QuoteBytes(bs)) == ReplacePlus(QuoteByte(bs[0])) + ReplacePlus(QuoteBytes(bs[1..]))
  {
    ReplacePlusAppend(QuoteByte(bs[0]), QuoteBytes(bs[1..]));
  }

  lemma Assoc<T>(a: seq<T>, b: seq<T>, c: seq<T>)
    ensures (a + b) + c == a + (b + c)
  {
  }

  /** `unquote_plus` reads a quoted text back as the bytes of that text,
      whatever follows it. */
  lemma UnquoteThen(t: string, rest: string)
    ensures PercentBytes(ReplacePlus(QuotePlus(t)) + rest) == Encode(t) + PercentBytes(rest)
  {
    PercentBytesQuoteBytes(Encode(t), rest);
  }

  /** `unquote_plus(quote_plus(s)) == s` for every text. */
  lemma UnquoteQuote(s: string)
    ensures UnquotePlus(QuotePlus(s)) == s
  {
    PercentBytesQuoteBytes(Encode(s), "");
    assert ReplacePlus(QuotePlus(s)) + "" == ReplacePlus(QuotePlus(s));
    assert Encode(s) + PercentBytes("") == Encode(s);
    DecodeEncode(s);
    DecodeReplaceAgrees(Encode(s));
  }

  /** Without `+` or `%`, `unquote_plus` changes nothing (Python returns
      such a string unchanged). */
  lemma {:induction false} UnquotePlain(s: string)
    requires Free(s, '+') && Free(s, '%')
    ensures UnquotePlus(s) == s
  {
    assert ReplacePlus(s) == s;
    PercentBytesPlain(s);
    DecodeEncode(s);
    DecodeReplaceAgrees(Encode(s));
  }

  lemma {:induction false} PercentBytesPlain(s: string)
    requires Free(s, '%')
    ensures PercentBytes(s) == Encode(s)
  {
    if s != [] {
      PercentBytesPlain(s[1..]);
    }
  }
}
