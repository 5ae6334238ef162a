/** `HTTPServer`'s request handlers (myServer.py:286-464) and the helpers
    only they use, `parse_post_request` and `build_url` (myServer.py:222-240).

    Each handler is a method that drives a fresh `ResponseBuilder` exactly as
    the source does and returns what `build()` returns. What the builder ends
    up holding is also given as a value, a `Reply`, so that the handlers'
    behaviour can be stated and related to one another. */
module Server {
  import opened Outcomes
  import opened Utf8
  import opened Text
  import opened UrlCodec
  import opened Requests
  import opened Wire
  import opened Responses
  import opened Files
  import opened Framer

  // ---------------------------------------------------------------------
  // parse_post_request

  /** One table row. */
  function Row(key: string, value: string): string
  {
    "<tr><td>" + key + "</td><td>" + value + "</td></tr>"
  }

  /** The rows of the `&`-separated pairs: every pair must split at `=` into
      exactly two parts, or the two-name unpacking raises ValueError. */
  function Rows(pairs: seq<string>): (r: Result<string>)
    ensures r.Ok? <==> forall i :: 0 <= i < |pairs| ==> |Split(pairs[i], "=")| == 2
    ensures r.Raise? ==> r.exc == ValueError
  {
    if pairs == [] then Ok("")
    else
      var kv := Split(pairs[0], "=");
      if |kv| != 2 then Raise(ValueError)
      else
        match Rows(pairs[1..])
        case Raise(e) => Raise(e)
        case Ok(rest) => Ok(Row(kv[0], kv[1]) + rest)
  }

  /** `parse_post_request`: an HTML table with one row per `key=value` pair. */
  function ParsePostRequest(content: string): (r: Result<string>)
    ensures r.Ok? <==> forall i :: 0 <= i < |Split(content, "&")| ==> |Split(Split(content, "&")[i], "=")| == 2
    ensures r.Raise? ==> r.exc == ValueError
  {
    match Rows(Split(content, "&"))
    case Raise(e) => Raise(e)
    case Ok(rows) => Ok("<table>" + rows + "</table>")
  }

  /** A key or value that survives the form syntax: no `&` or `=`. */
  predicate FormSafe(s: string)
  {
    Free(s, '&') && Free(s, '=')
  }

  /** The form body that carries `fields`, written `k1=v1&k2=v2&...`. */
  function FormText(fields: seq<(string, string)>): string
  {
    Join(PairLines(fields, "="), "&")
  }

  /** The fields with key and value quoted by `quote_plus`, as a browser
      sends a URL-encoded form. */
  function QuoteFields(fields: seq<(string, string)>): (qs: seq<(string, string)>)
    ensures |qs| == |fields|
    ensures forall i :: 0 <= i < |fields| ==> qs[i] == (QuotePlus(fields[i].0), QuotePlus(fields[i].1))
  {
    seq(|fields|, i requires 0 <= i < |fields| => (QuotePlus(fields[i].0), QuotePlus(fields[i].1)))
  }


  /** The table the fields should produce, independently of any parsing. */
  function TableRows(fields: seq<(string, string)>): string
  {
    if fields == [] then "" else Row(fields[0].0, fields[0].1) + TableRows(fields[1..])
  }

  /** Every pair of a form body built from safe fields yields its own row,
      in order. */
  lemma FormTable(fields: seq<(string, string)>)
    requires |fields| >= 1
    requires forall i :: 0 <= i < |fields| ==> FormSafe(fields[i].0) && FormSafe(fields[i].1)
    ensures ParsePostRequest(FormText(fields)) == Ok("<table>" + TableRows(fields) + "</table>")
  {
    var ps := PairLines(fields, "=");
    FormPairsFree(fields);
    SplitJoin(ps, "&");
    assert Split(FormText(fields), "&") == ps;
    RowsOfPairs(fields);
  }

  lemma FormPairsFree(fields: seq<(string, string)>)
    requires forall i :: 0 <= i < |fields| ==> FormSafe(fields[i].0) && FormSafe(fields[i].1)
    ensures forall k :: 0 <= k < |PairLines(fields, "=")| ==> Free(PairLines(fields, "=")[k], "&"[0])
  {
    forall k | 0 <= k < |fields| ensures Free(PairLines(fields, "=")[k], '&') {
      FreeAppend(fields[k].0, "=", '&');
      FreeAppend(fields[k].0 + "=", fields[k].1, '&');
    }
  }

  lemma {:induction false} RowsOfPairs(fields: seq<(string, string)>)
    requires forall i :: 0 <= i < |fields| ==> FormSafe(fields[i].0) && FormSafe(fields[i].1)
    ensures Rows(PairLines(fields, "=")) == Ok(TableRows(fields))
  {
    if fields != [] {
      var f := fields[0];
      var ps := PairLines(fields, "=");
      assert Split(ps[0], "=") == [f.0, f.1] by {
        assert Join([f.0, f.1], "=") == ps[0] by {
          assert [f.0, f.1][1..] == [f.1];
        }
        SplitJoin([f.0, f.1], "=");
      }
      assert ps[1..] == PairLines(fields[1..], "=");
      RowsOfPairs(fields[1..]);
    }
  }

  /** An empty body has one pair with a single part, so it raises. */
  lemma ParseEmptyForm()
    ensures ParsePostRequest("") == Raise(ValueError)
  {
    assert Split("", "&") == [""];
    assert Split("", "=") == [""];
  }

  // ---------------------------------------------------------------------
  // build_url

  /** `https://host/path` */
  function Https(host: string, path: string): string
  {
    "https" + ":" + ("//" + host + path)
  }

  const YOUTUBE: string := Https("www.youtube.com", "/results")
  const GOOGLE: string := Https("www.google.com", "/search")

  /** A search URL: the site, then the quoted text as the one field `name`. */
  function SearchUrl(site: string, name: string, text: string): string
  {
    site + "?" + (name + "=" + QuotePlus(text))
  }

  /** `build_url`: the search URL for the `text` of the query, on the site
      its `selector` names; any other selector returns None. `urlparse`
      raises ValueError for a malformed network location. */
  function BuildUrl(query: string): (r: Result<Option<string>>)
    ensures r.Raise? <==> UrlQuery(query).Raise?
    ensures r.Raise? ==> r.exc == ValueError
    ensures r.Ok? && r.value.Some? ==>
              exists t :: r.value.value == SearchUrl(YOUTUBE, "search_query", t) || r.value.value == SearchUrl(GOOGLE, "q", t)
  {
    match UrlQuery(query)
    case Raise(e) => Raise(e)
    case Ok(qs) =>
      var text := QueryFirst(qs, "text");
      var selector := QueryFirst(qs, "selector");
      if selector == "youtube" then Ok(Some(SearchUrl(YOUTUBE, "search_query", text)))
      else if selector == "google" then Ok(Some(SearchUrl(GOOGLE, "q", text)))
      else Ok(None)
  }

  /** A quoted text holds no delimiter of URLs or query strings, and is empty
      only for the empty text. */
  lemma QuotePlusPlain(t: string)
    ensures var q := QuotePlus(t);
            Free(q, '&') && Free(q, '=') && Free(q, '#') && Free(q, '?') && Free(q, ':') && Clean(q)
    ensures QuotePlus(t) == "" <==> t == ""
  {
    QuoteBytesAlphabet(Encode(t));
    if t != "" {
      assert Encode(t) == EncodeChar(t[0]) + Encode(t[1..]);
      assert QuoteBytes(Encode(t)) == QuoteByte(Encode(t)[0]) + QuoteBytes(Encode(t)[1..]);
    }
  }

  /** A name without `+`, `%` or `=` paired with a quoted text reads back as
      that name and text; an empty text leaves a blank value, which is
      dropped. */
  lemma QueryField(name: string, t: string)
    requires Free(name, '+') && Free(name, '%') && Free(name, '=') && name != ""
    ensures QueryPairs([name + "=" + QuotePlus(t)]) == if t == "" then [] else [(name, t)]
  {
    var q := QuotePlus(t);
    QuotePlusPlain(t);
    SplitOnceAtFirst(name, "=", q);
    UnquotePlain(name);
    UnquoteQuote(t);
    assert QueryPairs([name + "=" + q]) == FieldPair(name + "=" + q) by {
      assert [name + "=" + q][1..] == [];
    }
  }

  /** The field a name and a quoted text make up holds no `&`, `#` or `:`,
      and nothing `urlsplit` cleans away. */
  lemma FieldPlain(name: string, t: string)
    requires Free(name, '&') && Free(name, '#') && Free(name, ':') && Clean(name)
    ensures var f := name + "=" + QuotePlus(t);
            Free(f, '&') && Free(f, '#') && Free(f, ':') && Clean(f)
  {
    QuotePlusPlain(t);
    FreeAppend(name, "=", '&');
    FreeAppend(name + "=", QuotePlus(t), '&');
    FreeAppend(name, "=", '#');
    FreeAppend(name + "=", QuotePlus(t), '#');
    FreeAppend(name, "=", ':');
    FreeAppend(name + "=", QuotePlus(t), ':');
    assert Clean("=");
    CleanAppend(name, "=");
    CleanAppend(name + "=", QuotePlus(t));
  }

  /** The first value of `name` in a query is the text it was given. */
  lemma LookupField(name: string, t: string, rest: seq<(string, string)>)
    requires forall i :: 0 <= i < |rest| ==> rest[i].0 != name
    ensures (match Lookup((if t == "" then [] else [(name, t)]) + rest, name)
             case Some(v) => v
             case None => "") == t
  {
    if t == "" {
      assert Lookup(rest, name).None?;
    } else {
      assert ([(name, t)] + rest)[0] == (name, t);
    }
  }

  /** Two `&`-free fields are the two fields of their query. */
  lemma TwoFields(f0: string, f1: string)
    requires Free(f0, '&') && Free(f1, '&')
    ensures QueryPairs(Split(f0 + "&" + f1, "&")) == QueryPairs([f0]) + QueryPairs([f1])
  {
    SplitTwo(f0, f1);
    QueryPairsCons(f0, [f1]);
  }

  lemma SplitTwo(f0: string, f1: string)
    requires Free(f0, '&') && Free(f1, '&')
    ensures Split(f0 + "&" + f1, "&") == [f0, f1]
  {
    assert Join([f0, f1], "&") == f0 + "&" + f1 by {
      assert [f0, f1][1..] == [f1];
    }
    SplitJoin([f0, f1], "&");
  }

  lemma QueryPairsCons(f: string, rest: seq<string>)
    ensures QueryPairs([f] + rest) == QueryPairs([f]) + QueryPairs(rest)
  {
    assert ([f] + rest)[1..] == rest;
    assert QueryPairs([f]) == FieldPair(f) by {
      assert [f][1..] == [];
    }
  }

  /** The redirect path the search form produces. */
  function RedirectPath(t: string, selector: string): string
  {
    "redirect" + "?" + RedirectQuery(t, selector)
  }

  /** Its query: the quoted text, then the chosen site. */
  function RedirectQuery(t: string, selector: string): string
  {
    ("text" + "=" + QuotePlus(t)) + "&" + ("selector" + "=" + selector)
  }

  /** Proof helper: the literal parts of a redirect path hold no delimiter. */
  lemma RedirectLiterals(selector: string)
    requires selector == "google" || selector == "youtube"
    ensures Free("redirect", '?') && Free("redirect", '#') && Free("redirect", ':') && Clean("redirect")
    ensures Free("text", '+') && Free("text", '%') && Free("text", '=') && Free("text", '&') && Free("text", '#')
    ensures Free("text", ':') && Clean("text") && Free("selector", ':') && Clean("selector")
    ensures Free("selector", '+') && Free("selector", '%') && Free("selector", '=')
    ensures Free("selector", '#') && Free("selector", '&') && Free("=", '#') && Free("=", '&') && Free("&", '#')
    ensures Free(selector, '#') && Free(selector, '&') && Free(selector, '+') && Free(selector, '%')
    ensures Free(selector, ':') && Clean(selector) && Free("&", ':') && Clean("&") && Free("=", ':') && Clean("=")
  {
  }

  /** A redirect path of the form the search page produces asks for the
      search of exactly the typed text on the chosen site. */
  lemma BuildUrlOf(t: string, selector: string)
    requires selector == "google" || selector == "youtube"
    ensures BuildUrl(RedirectPath(t, selector))
         == Ok(Some(if selector == "google" then SearchUrl(GOOGLE, "q", t) else SearchUrl(YOUTUBE, "search_query", t)))
  {
    var f0 := "text" + "=" + QuotePlus(t);
    var f1 := "selector" + "=" + selector;
    RedirectPathQuery(t, selector);
    RedirectQueryPlain(t, selector);
    RedirectText(t, selector, f0, f1);
    RedirectSelector(t, selector, f0, f1);
  }

  /** `urlparse` finds the redirect query in the redirect path: the path has
      no scheme, no network location, and nothing to clean away. */
  lemma RedirectPathQuery(t: string, selector: string)
    requires selector == "google" || selector == "youtube"
    ensures UrlQuery(RedirectPath(t, selector)) == Ok(RedirectQuery(t, selector))
  {
    var q := RedirectQuery(t, selector);
    var path := RedirectPath(t, selector);
    RedirectLiterals(selector);
    RedirectQueryPlain(t, selector);
    FreeAppend("redirect", "?", ':');
    FreeAppend("redirect" + "?", q, ':');
    assert Clean("?");
    CleanAppend("redirect", "?");
    CleanAppend("redirect" + "?", q);
    assert path[0] == 'r';
    UrlQueryRelative(path);
    QueryPartOf("redirect", q);
  }

  /** The fields of a redirect query hold no `&`, and the query no `#` or
      `:` and nothing `urlsplit` cleans away. */
  lemma RedirectQueryPlain(t: string, selector: string)
    requires selector == "google" || selector == "youtube"
    ensures Free("text" + "=" + QuotePlus(t), '&')
    ensures Free("selector" + "=" + selector, '&')
    ensures Free(RedirectQuery(t, selector), '#') && Free(RedirectQuery(t, selector), ':')
    ensures Clean(RedirectQuery(t, selector))
  {
    var f0 := "text" + "=" + QuotePlus(t);
    var f1 := "selector" + "=" + selector;
    RedirectLiterals(selector);
    FieldPlain("text", t);
    SelectorPlain(selector);
    FreeAppend(f0, "&", '#');
    FreeAppend(f0 + "&", f1, '#');
    FreeAppend(f0, "&", ':');
    FreeAppend(f0 + "&", f1, ':');
    CleanAppend(f0, "&");
    CleanAppend(f0 + "&", f1);
  }

  lemma SelectorPlain(selector: string)
    requires selector == "google" || selector == "youtube"
    ensures var f1 := "selector" + "=" + selector;
            Free(f1, '#') && Free(f1, '&') && Free(f1, ':') && Clean(f1)
  {
    RedirectLiterals(selector);
    FreeAppend("selector", "=", '#');
    FreeAppend("selector", "=", '&');
    FreeAppend("selector", "=", ':');
    FreeAppend("selector" + "=", selector, '#');
    FreeAppend("selector" + "=", selector, '&');
    FreeAppend("selector" + "=", selector, ':');
    CleanAppend("selector", "=");
    CleanAppend("selector" + "=", selector);
  }

  lemma RedirectText(t: string, selector: string, f0: string, f1: string)
    requires selector == "google" || selector == "youtube"
    requires f0 == "text" + "=" + QuotePlus(t) && f1 == "selector" + "=" + selector
    requires Free(f0, '&') && Free(f1, '&')
    ensures QueryFirst(f0 + "&" + f1, "text") == t
  {
    TwoFields(f0, f1);
    TextPair(t);
    SelectorPair(selector, f1);
    assert "selector" != "text";
    LookupField("text", t, [("selector", selector)]);
  }

  lemma TextPair(t: string)
    ensures QueryPairs(["text" + "=" + QuotePlus(t)]) == if t == "" then [] else [("text", t)]
  {
    assert Free("text", '+') && Free("text", '%') && Free("text", '=');
    QueryField("text", t);
  }

  lemma SelectorPair(selector: string, f1: string)
    requires selector == "google" || selector == "youtube"
    requires f1 == "selector" + "=" + selector
    ensures QueryPairs([f1]) == [("selector", selector)]
  {
    RedirectLiterals(selector);
    QuoteLetters(selector);
    QueryField("selector", selector);
  }

  lemma RedirectSelector(t: string, selector: string, f0: string, f1: string)
    requires selector == "google" || selector == "youtube"
    requires f0 == "text" + "=" + QuotePlus(t) && f1 == "selector" + "=" + selector
    requires Free(f0, '&') && Free(f1, '&')
    ensures QueryFirst(f0 + "&" + f1, "selector") == selector
  {
    TwoFields(f0, f1);
    TextPair(t);
    SelectorPair(selector, f1);
    SelectorFound(QueryPairs([f0]), QueryPairs([f1]), selector);
  }

  /** A word of lower-case letters is its own quoting. */
  lemma {:induction false} QuoteLetters(s: string)
    requires forall i :: 0 <= i < |s| ==> 'a' <= s[i] <= 'z'
    ensures QuotePlus(s) == s
  {
    if s != [] {
      QuoteLetters(s[1..]);
      assert Encode(s) == EncodeChar(s[0]) + Encode(s[1..]);
      assert EncodeChar(s[0]) == [s[0] as int as byte];
      QuoteBytesAppend(EncodeChar(s[0]), Encode(s[1..]));
      assert s == [s[0]] + s[1..];
    }
  }

  lemma SelectorFound(p0: seq<(string, string)>, p1: seq<(string, string)>, selector: string)
    requires forall i :: 0 <= i < |p0| ==> p0[i].0 != "selector"
    requires p1 == [("selector", selector)]
    ensures Lookup(p0 + p1, "selector") == Some(selector)
  {
    if p0 != [] {
      assert (p0 + p1)[1..] == p0[1..] + p1;
      SelectorFound(p0[1..], p1, selector);
    } else {
      assert p0 + p1 == p1;
    }
  }

  /** The search sites read the typed text back out of the URL they are sent. */
  lemma GoogleReadsBack(t: string)
    ensures UrlQuery(SearchUrl(GOOGLE, "q", t)).Ok?
    ensures QueryFirst(UrlQuery(SearchUrl(GOOGLE, "q", t)).value, "q") == t
  {
    var host, path := "www.google.com", "/search";
    assert SiteParts(host, path);
    var n := "q";
    assert Free(n, '+') && Free(n, '%') && Free(n, '=') && Free(n, '#') && Free(n, '&') && Free(n, ':') && Clean(n);
    SearchQueryOf(host, path, n, t);
  }

  lemma YoutubeReadsBack(t: string)
    ensures UrlQuery(SearchUrl(YOUTUBE, "search_query", t)).Ok?
    ensures QueryFirst(UrlQuery(SearchUrl(YOUTUBE, "search_query", t)).value, "search_query") == t
  {
    var host, path := "www.youtube.com", "/results";
    assert SiteParts(host, path);
    var n := "search_query";
    assert Free(n, '+') && Free(n, '%') && Free(n, '=') && Free(n, '#') && Free(n, '&') && Free(n, ':') && Clean(n);
    SearchQueryOf(host, path, n, t);
  }

  /** A host and path `urlsplit` takes apart cleanly. */
  predicate SiteParts(host: string, path: string)
  {
    && (forall i :: 0 <= i < |host| ==> host[i] != '/' && host[i] != '?' && host[i] != '#')
    && Free(host, '[') && Free(host, ']') && path != [] && path[0] == '/'
    && Free(path, '?') && Free(path, '#') && Clean(host) && Clean(path)
  }

  lemma SearchQueryOf(host: string, path: string, name: string, t: string)
    requires SiteParts(host, path)
    requires Free(name, '+') && Free(name, '%') && Free(name, '=') && Free(name, '#') && Free(name, '&') && name != ""
    requires Free(name, ':') && Clean(name)
    ensures UrlQuery(SearchUrl(Https(host, path), name, t)) == Ok(name + "=" + QuotePlus(t))
    ensures QueryFirst(name + "=" + QuotePlus(t), name) == t
  {
    var field := name + "=" + QuotePlus(t);
    FieldPlain(name, t);
    HttpsScheme();
    UrlQueryAbsolute("https", host, path, field);
    NotContainsFree(field, "&");
    QueryField(name, t);
    LookupField(name, t, []);
  }

  lemma HttpsScheme()
    ensures "https" != [] && IsAsciiLetter("https"[0]) && forall i :: 0 <= i < |"https"| ==> SchemeChar("https"[i])
  {
  }

  // ---------------------------------------------------------------------
  // Replies

  /** What a handler's builder holds when it calls `build()`, the status set
      from a string code. */
  datatype Reply = Reply(code: string, message: string, headers: seq<string>, content: Option<seq<byte>>)

  /** The bytes `build()` returns for a reply. */
  function Render(r: Reply): seq<byte>
  {
    Serialize(Some(StatusLine(Str(r.code), r.message)), r.headers, r.content).value
  }

  function Emit(r: Result<Reply>): Result<seq<byte>>
  {
    match r
    case Raise(e) => Raise(e)
    case Ok(x) => Ok(Render(x))
  }

  /** The 404 and 403 pages: the page file's text, closing the connection. */
  function ErrorPage(fs: FileSystem, code: string, message: string, page: string): Result<Reply>
  {
    match GetFileContents(fs, page)
    case Raise(e) => Raise(e)
    case Ok(t) => Ok(Reply(code, message, [HeaderLine("Connection", Str("close"))], Some(ContentBytes(Text(t)))))
  }

  function NotFoundReply(fs: FileSystem): Result<Reply>
  {
    ErrorPage(fs, "404", "NOT FOUND", "404.html")
  }

  function ForbiddenReply(fs: FileSystem): Result<Reply>
  {
    ErrorPage(fs, "403", "FORBIDDEN", "403.html")
  }

  /** The `Location` value: the URL, or `None` formatted as text. */
  function Location(url: Option<string>): Value
  {
    match url
    case Some(u) => Str(u)
    case None => NoneValue
  }

  /** The file read the way its extension asks for. */
  function ReadFile(fs: FileSystem, path: string): Result<Content>
  {
    if ShouldReturnBinary(Extension(path)) then
      match GetFileBinaryContents(fs, path)
      case Raise(e) => Raise(e)
      case Ok(b) => Ok(Bytes(b))
    else
      match GetFileContents(fs, path)
      case Raise(e) => Raise(e)
      case Ok(t) => Ok(Text(t))
  }

  /** A file served whole: its MIME type, and its `len` as Content-Length. */
  function FileReply(fs: FileSystem, path: string): Result<Reply>
  {
    match ReadFile(fs, path)
    case Raise(e) => Raise(e)
    case Ok(c) =>
      Ok(Reply("200", "OK",
               [HeaderLine("Content-Type", Str(GetFileMimeType(Extension(path)))),
                HeaderLine("Connection", Str("close")),
                HeaderLine("Content-Length", Int(Len(c)))],
               Some(ContentBytes(c))))
  }

  /** `get_request`: a path mentioning `redirect` is redirected; a missing
      file is 404, one others may not read is 403, anything else is served. */
  function GetReply(fs: FileSystem, path: string): (r: Result<Reply>)
    ensures r.Ok? ==> r.value.code in {"307", "404", "403", "200"}
    ensures r.Raise? ==> (r.exc == ValueError <==> Contains(path, "redirect"))
    ensures r.Raise? ==> r.exc != TypeError && r.exc != OverflowError
    ensures Contains(path, "redirect") && UrlQuery(path).Raise? ==> r == Raise(ValueError)
    ensures Contains(path, "redirect") && UrlQuery(path).Ok? ==> r.Ok? && r.value.code == "307"
  {
    if Contains(path, "redirect") then
      match BuildUrl(path)
      case Raise(e) => Raise(e)
      case Ok(url) => Ok(Reply("307", "Redirect", [HeaderLine("Location", Location(url))], None))
    else if !FileExists(fs, path) then NotFoundReply(fs)
    else if !HasPermissionOther(fs, path).value then ForbiddenReply(fs)
    else FileReply(fs, path)
  }

  /** `post_request`: the body is unquoted first, then tabulated. */
  function PostReply(content: string): (r: Result<Reply>)
    ensures r.Raise? ==> r.exc == ValueError
    ensures r.Ok? ==> r.value.code == "200" && |r.value.headers| == 2 && r.value.content.Some?
  {
    match ParsePostRequest(UnquotePlus(content))
    case Raise(e) => Raise(e)
    case Ok(html) =>
      Ok(Reply("200", "OK",
               [HeaderLine("Allow", Str("POST")), HeaderLine("Content-Length", Int(|html|))],
               Some(ContentBytes(Text(html)))))
  }

  /** `head_request`: the status a GET would choose between 200, 404 and 403,
      and no content. */
  function HeadReply(fs: FileSystem, path: string): (r: Reply)
    ensures r.code in {"200", "404", "403"} && r.content.None?
    ensures r.code == "200" <==> path in fs && (fs[path].mode / 4) % 2 == 1
  {
    var status :=
      if !FileExists(fs, path) then ("404", "NOT FOUND")
      else if !HasPermissionOther(fs, path).value then ("403", "FORBIDDEN")
      else ("200", "OK");
    Reply(status.0, status.1, [HeaderLine("Allow", Str("HEAD")), HeaderLine("Connection", Str("close"))], None)
  }

  function MethodNotAllowedReply(): Reply
  {
    Reply("405", "METHOD NOT ALLOWED", [HeaderLine("Connection", Str("close"))], None)
  }

  /** `process_response`: dispatch on the exact, case-sensitive method name. */
  function ProcessReply(fs: FileSystem, request: Request): (r: Result<Reply>)
    ensures r.Raise? ==> request.httpMethod == "GET" || request.httpMethod == "POST"
    ensures r.Ok? && r.value.code == "405" <==> request.httpMethod !in {"GET", "POST", "HEAD"}
  {
    if request.httpMethod == "GET" then GetReply(fs, request.path)
    else if request.httpMethod == "POST" then PostReply(request.content)
    else if request.httpMethod == "HEAD" then Ok(HeadReply(fs, request.path))
    else Ok(MethodNotAllowedReply())
  }

  /** `accept_request` up to the send: frame the request, answer it. */
  function Respond(fs: FileSystem, arrivals: seq<Chunk>): Result<seq<byte>>
  {
    match Frame(arrivals).0
    case Raise(e) => Raise(e)
    case Ok(request) => Emit(ProcessReply(fs, request))
  }

  // ---------------------------------------------------------------------
  // The handlers

  /** `resource_not_found` */
  method ResourceNotFound(fs: FileSystem) returns (resp: Result<seq<byte>>)
    ensures resp == Emit(NotFoundReply(fs))
  {
    var content := GetFileContents(fs, "404.html");
    if content.Raise? {
      return Raise(content.exc);
    }
    var builder := new ResponseBuilder();
    builder.SetStatus(Str("404"), "NOT FOUND");
    builder.AddHeader("Connection", Str("close"));
    builder.SetContent(Text(content.value));
    resp := builder.Build();
  }

  /** `get_request` */
  method GetRequest(fs: FileSystem, request: Request) returns (resp: Result<seq<byte>>)
    ensures resp == Emit(GetReply(fs, request.path))
  {
    var builder := new ResponseBuilder();
    if Contains(request.path, "redirect") {
      builder.SetStatus(Str("307"), "Redirect");
      var url := BuildUrl(request.path);
      if url.Raise? {
        return Raise(url.exc);
      }
      builder.AddHeader("Location", Location(url.value));
      return builder.Build();
    }
    if !FileExists(fs, request.path) {
      resp := ErrorResponse(builder, fs, "404", "NOT FOUND", "404.html");
      return;
    }
    var permitted := HasPermissionOther(fs, request.path);
    if !permitted.value {
      resp := ErrorResponse(builder, fs, "403", "FORBIDDEN", "403.html");
      return;
    }
    resp := FileResponse(builder, fs, request.path);
  }

  /** The 404 and 403 branches of `get_request`, on its fresh builder. */
  method ErrorResponse(builder: ResponseBuilder, fs: FileSystem, code: string, message: string, page: string)
    returns (resp: Result<seq<byte>>)
    requires builder.headers == [] && builder.status == None && builder.content == None
    modifies builder
    ensures resp == Emit(ErrorPage(fs, code, message, page))
  {
    builder.SetStatus(Str(code), message);
    var content := GetFileContents(fs, page);
    if content.Raise? {
      return Raise(content.exc);
    }
    builder.SetContent(Text(content.value));
    builder.AddHeader("Connection", Str("close"));
    resp := builder.Build();
  }

  /** The last part of `get_request`: read the file as its extension asks
      and send it whole. */
  method FileResponse(builder: ResponseBuilder, fs: FileSystem, path: string) returns (resp: Result<seq<byte>>)
    requires builder.headers == [] && builder.status == None && builder.content == None
    modifies builder
    ensures resp == Emit(FileReply(fs, path))
  {
    var fileContents: Content;
    if ShouldReturnBinary(Extension(path)) {
      var data := GetFileBinaryContents(fs, path);
      if data.Raise? {
        return Raise(data.exc);
      }
      fileContents := Bytes(data.value);
    } else {
      var text := GetFileContents(fs, path);
      if text.Raise? {
        return Raise(text.exc);
      }
      fileContents := Text(text.value);
    }
    assert ReadFile(fs, path) == Ok(fileContents);
    var mimeType := GetFileMimeType(Extension(path));
    builder.SetStatus(Str("200"), "OK");
    builder.AddHeader("Content-Type", Str(mimeType));
    builder.AddHeader("Connection", Str("close"));
    builder.AddHeader("Content-Length", Int(Len(fileContents)));
    builder.SetContent(fileContents);
    assert builder.headers == FileReply(fs, path).value.headers;
    resp := builder.Build();
  }

  /** `post_request` */
  method PostRequest(request: Request) returns (resp: Result<seq<byte>>)
    ensures resp == Emit(PostReply(request.content))
  {
    var unquotedContent := UnquotePlus(request.content);
    var fileContents := ParsePostRequest(unquotedContent);
    if fileContents.Raise? {
      return Raise(fileContents.exc);
    }
    var builder := new ResponseBuilder();
    builder.SetStatus(Str("200"), "OK");
    builder.AddHeader("Allow", Str("POST"));
    builder.AddHeader("Content-Length", Int(|fileContents.value|));
    builder.SetContent(Text(fileContents.value));
    resp := builder.Build();
  }

  /** `head_request`: it never raises. */
  method HeadRequest(fs: FileSystem, request: Request) returns (resp: seq<byte>)
    ensures resp == Render(HeadReply(fs, request.path))
  {
    var builder := new ResponseBuilder();
    builder.SetStatus(Str("200"), "OK");
    if !FileExists(fs, request.path) {
      builder.SetStatus(Str("404"), "NOT FOUND");
    } else {
      var permitted := HasPermissionOther(fs, request.path);
      if !permitted.value {
        builder.SetStatus(Str("403"), "FORBIDDEN");
      }
    }
    builder.AddHeader("Allow", Str("HEAD"));
    builder.AddHeader("Connection", Str("close"));
    var built := builder.Build();
    resp := built.value;
  }

  /** `method_not_allowed` */
  method MethodNotAllowed() returns (resp: seq<byte>)
    ensures resp == Render(MethodNotAllowedReply())
  {
    var builder := new ResponseBuilder();
    builder.SetStatus(Str("405"), "METHOD NOT ALLOWED");
    builder.AddHeader("Connection", Str("close"));
    var built := builder.Build();
    resp := built.value;
  }

  /** `process_response` */
  method ProcessResponse(fs: FileSystem, request: Request) returns (resp: Result<seq<byte>>)
    ensures resp == Emit(ProcessReply(fs, request))
  {
    if request.httpMethod == "GET" {
      resp := GetRequest(fs, request);
    } else if request.httpMethod == "POST" {
      resp := PostRequest(request);
    } else if request.httpMethod == "HEAD" {
      var r := HeadRequest(fs, request);
      resp := Ok(r);
    } else {
      var r := MethodNotAllowed();
      resp := Ok(r);
    }
  }

  /** `accept_request` up to the send: the bytes it would send, or the
      exception that ends its thread. */
  method AcceptRequest(fs: FileSystem, sock: Socket) returns (resp: Result<seq<byte>>)
    modifies sock
    ensures resp == Respond(fs, old(sock.pending))
  {
    var req := RecvUntilCrlfs(sock);
    if req.Raise? {
      return Raise(req.exc);
    }
    resp := ProcessResponse(fs, req.value);
  }
}
