/** What the handlers of myServer.py promise, stated over the replies of
    the `Server` module: which status a GET or HEAD chooses, that HEAD
    agrees with GET, what a client reads back, what Content-Length says,
    how a form body is tabulated, and what a whole exchange produces. */
module ServerFacts {
  import opened Outcomes
  import opened Utf8
  import opened Text
  import opened UrlCodec
  import opened Requests
  import opened Wire
  import opened Responses
  import opened Files
  import opened Framer
  import opened FramerFacts
  import opened Server

  // ---------------------------------------------------------------------
  // Status selection

  /** GET redirects exactly the paths that mention `redirect`; otherwise a
      missing file is 404, a file others may not read is 403, and every
      other file is 200. */
  lemma GetStatus(fs: FileSystem, path: string)
    requires GetReply(fs, path).Ok?
    ensures var code := GetReply(fs, path).value.code;
            && (code == "307" <==> Contains(path, "redirect"))
            && (code == "404" <==> !Contains(path, "redirect") && path !in fs)
            && (code == "403" <==> !Contains(path, "redirect") && path in fs && (fs[path].mode / 4) % 2 != 1)
            && (code == "200" <==> !Contains(path, "redirect") && path in fs && (fs[path].mode / 4) % 2 == 1)
  {
  }

  /** A redirect fails exactly when `urlparse` rejects the path; any other
      GET fails only after choosing 404, 403 or 200, when the page or the
      file cannot be read as asked. */
  lemma GetRaises(fs: FileSystem, path: string)
    ensures GetReply(fs, path).Raise? <==>
              if Contains(path, "redirect") then UrlQuery(path).Raise?
              else if path !in fs then GetFileContents(fs, "404.html").Raise?
              else if (fs[path].mode / 4) % 2 != 1 then GetFileContents(fs, "403.html").Raise?
              else ReadFile(fs, path).Raise?
  {
  }

  /** A redirect path that starts with `//` and opens a bracket it never
      closes is rejected by `urlparse`: the GET raises ValueError. */
  lemma RedirectBadHost(fs: FileSystem)
    ensures GetReply(fs, "//[redirect") == Raise(ValueError)
  {
    var host := "[redirect";
    assert "//[redirect" == "//" + host;
    assert Contains("//" + host, "redirect") by {
      assert ("//" + host)[3..11] == "redirect";
      assert OccursAt("//" + host, 3, "redirect");
    }
    assert host[0] == '[';
    UrlQueryUnbalanced(host);
  }

  /** A readable directory is 200 by status choice but cannot be opened:
      the GET raises IsADirectoryError. */
  lemma GetDirectory(fs: FileSystem, path: string)
    requires !Contains(path, "redirect") && path in fs && fs[path].Directory? && (fs[path].mode / 4) % 2 == 1
    ensures GetReply(fs, path) == Raise(IsADirectoryError)
  {
  }

  /** The 404 of a GET for a missing file is the reply `resource_not_found`
      builds. */
  lemma GetMissingIsNotFound(fs: FileSystem, path: string)
    requires !Contains(path, "redirect") && path !in fs
    ensures GetReply(fs, path) == NotFoundReply(fs)
  {
  }

  /** Whether others may read a file decides 403 independently of what the
      file holds. */
  lemma ForbiddenIgnoresData(fs: FileSystem, path: string, data: seq<byte>)
    requires !Contains(path, "redirect") && path in fs && fs[path].File? && (fs[path].mode / 4) % 2 != 1
    requires path != "403.html"
    ensures GetReply(fs[path := File(fs[path].mode, data)], path) == GetReply(fs, path)
  {
    var fs2: FileSystem := fs[path := File(fs[path].mode, data)];
    assert GetFileContents(fs2, "403.html") == GetFileContents(fs, "403.html");
  }

  /** A readable file is served whole: as bytes when its extension asks
      for binary, otherwise as its decoded text with line endings
      translated, labelled with the extension's MIME type. */
  lemma GetServesFile(fs: FileSystem, path: string)
    requires !Contains(path, "redirect") && path in fs && fs[path].File? && (fs[path].mode / 4) % 2 == 1
    requires ShouldReturnBinary(Extension(path)) || Decode(fs[path].data).Some?
    ensures GetReply(fs, path).Ok?
    ensures var r := GetReply(fs, path).value;
            && r.code == "200"
            && r.headers[0] == HeaderLine("Content-Type", Str(GetFileMimeType(Extension(path))))
            && BodyOf(r.content) == if ShouldReturnBinary(Extension(path)) then fs[path].data
                                    else Encode(TranslateNewlines(Decode(fs[path].data).value))
  {
  }

  /** HEAD chooses the status GET chooses for any path GET does not
      redirect, never raises, and carries no body. */
  lemma HeadMatchesGet(fs: FileSystem, path: string)
    requires !Contains(path, "redirect") && GetReply(fs, path).Ok?
    ensures HeadReply(fs, path).code == GetReply(fs, path).value.code
    ensures HeadReply(fs, path).message == GetReply(fs, path).value.message
    ensures HeadReply(fs, path).content.None?
  {
  }

  /** HEAD does not redirect: a path mentioning `redirect` is looked up as
      a file like any other. */
  lemma HeadIgnoresRedirect(fs: FileSystem, path: string)
    requires Contains(path, "redirect") && path !in fs
    ensures HeadReply(fs, path).code == "404"
    ensures GetReply(fs, path).Ok? <==> UrlQuery(path).Ok?
    ensures GetReply(fs, path).Ok? ==> GetReply(fs, path).value.code == "307"
  {
  }

  /** The method name is matched exactly: anything but `GET`, `POST` and
      `HEAD`, lower case included, is 405. */
  lemma OtherMethodsNotAllowed(fs: FileSystem, request: Request)
    ensures ProcessReply(fs, request) == Ok(MethodNotAllowedReply())
        <==> request.httpMethod != "GET" && request.httpMethod != "POST" && request.httpMethod != "HEAD"
  {
    if request.httpMethod == "GET" {
      if GetReply(fs, request.path).Ok? {
        GetStatus(fs, request.path);
      }
    } else if request.httpMethod == "POST" {
      match PostReply(request.content)
      case Raise(_) =>
      case Ok(r) => assert r.code == "200";
    }
  }

  // ---------------------------------------------------------------------
  // What goes on the wire

  /** The complete 405 response. */
  lemma MethodNotAllowedBytes()
    ensures Render(MethodNotAllowedReply())
         == Encode("HTTP/1.1 405 METHOD NOT ALLOWED" + NEWLINE + "Connection: close" + NEWLINE + NEWLINE)
  {
    MethodNotAllowedText();
  }

  /** Proof helper: the 405 reply's text, spelled out. */
  lemma MethodNotAllowedText()
    ensures StatusLine(Str("405"), "METHOD NOT ALLOWED") + NEWLINE
            + Join([HeaderLine("Connection", Str("close"))], NEWLINE) + NEWLINE + NEWLINE
         == "HTTP/1.1 405 METHOD NOT ALLOWED" + NEWLINE + "Connection: close" + NEWLINE + NEWLINE
  {
    var header := HeaderLine("Connection", Str("close"));
    ConnectionCloseLine();
    assert Join([header], NEWLINE) == header;
    assert StatusLine(Str("405"), "METHOD NOT ALLOWED") == "HTTP/1.1 405 METHOD NOT ALLOWED";
  }

  /** Proof helper: the `Connection: close` header line, spelled out. */
  lemma ConnectionCloseLine()
    ensures HeaderLine("Connection", Str("close")) == "Connection: close"
  {
  }

  /** A client reads a HEAD response back as its status line and its two
      header lines, with nothing after the empty line. */
  lemma HeadReadsBack(fs: FileSystem, path: string)
    ensures var r := HeadReply(fs, path);
            ParseResponse(Render(r)) == Some(([StatusLine(Str(r.code), r.message), "Allow: HEAD", "Connection: close"], []))
  {
    var r := HeadReply(fs, path);
    var status := StatusLine(Str(r.code), r.message);
    assert PlainLine(status);
    assert HeaderLine("Allow", Str("HEAD")) == "Allow: HEAD";
    assert HeaderLine("Connection", Str("close")) == "Connection: close";
    assert r.headers == ["Allow: HEAD", "Connection: close"];
    assert PlainLine("Allow: HEAD") && PlainLine("Connection: close");
    ParseSerialize(status, r.headers, None);
    assert [status] + r.headers == [status, "Allow: HEAD", "Connection: close"];
  }

  // ---------------------------------------------------------------------
  // Content-Length

  /** The length a client reads from the header lines of a reply: the
      `content-length` entry of their dictionary, as `int()` reads it. */
  function DeclaredLength(headers: seq<string>): Option<int>
  {
    match HeaderDict(headers)
    case Raise(_) => None
    case Ok(m) => if "content-length" in m then ParseInt(m["content-length"]) else None
  }

  lemma HeaderLineParses(key: string, v: Value)
    requires Free(key, ':')
    ensures ToTuple(HeaderLine(key, v)) == Ok((Lower(key), " " + Format(v)))
    ensures Contains(HeaderLine(key, v), ":")
  {
    assert HeaderLine(key, v) == key + ":" + (" " + Format(v));
    ToTupleOf(key, " " + Format(v));
  }

  /** A `Content-Length` header written last is read back as its number. */
  lemma DeclaredLast(init: seq<string>, n: int)
    requires forall i :: 0 <= i < |init| ==> Contains(init[i], ":")
    requires FitsStrDigits(n)
    ensures DeclaredLength(init + [HeaderLine("Content-Length", Int(n))]) == Some(n)
  {
    var last := HeaderLine("Content-Length", Int(n));
    ContentLengthLine(n);
    HeaderDictSnoc(init, last);
    FormatParseInt(n);
  }

  lemma ContentLengthLine(n: int)
    ensures ToTuple(HeaderLine("Content-Length", Int(n))) == Ok(("content-length", " " + FormatInt(n)))
  {
    ContentLengthKey();
    HeaderLineParses("Content-Length", Int(n));
  }

  /** Proof helper: the lower-cased `Content-Length` name. */
  lemma ContentLengthKey()
    ensures Free("Content-Length", ':') && Lower("Content-Length") == "content-length"
  {
  }

  /** A line added after lines that all parse sets its own entry. */
  lemma HeaderDictSnoc(init: seq<string>, last: string)
    requires forall i :: 0 <= i < |init| ==> Contains(init[i], ":")
    requires ToTuple(last).Ok?
    ensures HeaderDict(init + [last]).Ok?
    ensures HeaderDict(init + [last]).value == HeaderDict(init).value[ToTuple(last).value.0 := ToTuple(last).value.1]
  {
    var lines := init + [last];
    assert lines[..|lines| - 1] == init && lines[|lines| - 1] == last;
    assert HeaderDict(init).Ok?;
  }

  /** Content-Length is `len` of what was read: the byte count for a binary
      file, the character count for a text file. It matches the bytes sent
      for every binary file, and for a text file exactly when the text is
      ASCII. */
  lemma FileContentLength(fs: FileSystem, path: string)
    requires FileReply(fs, path).Ok? && FitsStrDigits(Len(ReadFile(fs, path).value))
    ensures DeclaredLength(FileReply(fs, path).value.headers) == Some(Len(ReadFile(fs, path).value))
    ensures DeclaredLength(FileReply(fs, path).value.headers) == Some(|BodyOf(FileReply(fs, path).value.content)|)
        <==> ShouldReturnBinary(Extension(path)) || IsAscii(GetFileContents(fs, path).value)
  {
    var c := ReadFile(fs, path).value;
    FileDeclared(fs, path);
    FileBody(fs, path);
    if c.Text? {
      EncodeLength(c.t);
    }
  }

  /** What a file reply sends after the empty line, and what it was read as. */
  lemma FileBody(fs: FileSystem, path: string)
    requires FileReply(fs, path).Ok?
    ensures BodyOf(FileReply(fs, path).value.content) == ContentBytes(ReadFile(fs, path).value)
    ensures ReadFile(fs, path).value.Bytes? <==> ShouldReturnBinary(Extension(path))
    ensures ReadFile(fs, path).value.Text? ==> ReadFile(fs, path).value.t == GetFileContents(fs, path).value
  {
  }

  lemma FileDeclared(fs: FileSystem, path: string)
    requires FileReply(fs, path).Ok? && FitsStrDigits(Len(ReadFile(fs, path).value))
    ensures DeclaredLength(FileReply(fs, path).value.headers) == Some(Len(ReadFile(fs, path).value))
  {
    var c := ReadFile(fs, path).value;
    var mime := GetFileMimeType(Extension(path));
    FileHeadersParse(mime);
    var init := [HeaderLine("Content-Type", Str(mime)), HeaderLine("Connection", Str("close"))];
    assert FileReply(fs, path).value.headers == init + [HeaderLine("Content-Length", Int(Len(c)))];
    DeclaredLast(init, Len(c));
  }

  lemma FileHeadersParse(mime: string)
    ensures Contains(HeaderLine("Content-Type", Str(mime)), ":")
    ensures Contains(HeaderLine("Connection", Str("close")), ":")
  {
    assert Free("Content-Type", ':') && Free("Connection", ':');
    HeaderLineParses("Content-Type", Str(mime));
    HeaderLineParses("Connection", Str("close"));
  }

  /** The same for a POST: the table's character count, right exactly when
      the table is ASCII. */
  lemma PostContentLength(content: string)
    requires PostReply(content).Ok? && FitsStrDigits(|ParsePostRequest(UnquotePlus(content)).value|)
    ensures var html := ParsePostRequest(UnquotePlus(content)).value;
            && DeclaredLength(PostReply(content).value.headers) == Some(|html|)
            && (DeclaredLength(PostReply(content).value.headers) == Some(|BodyOf(PostReply(content).value.content)|)
                <==> IsAscii(html))
  {
    var html := ParsePostRequest(UnquotePlus(content)).value;
    var r := PostReply(content).value;
    assert Free("Allow", ':');
    HeaderLineParses("Allow", Str("POST"));
    assert r.headers == [HeaderLine("Allow", Str("POST"))] + [HeaderLine("Content-Length", Int(|html|))];
    DeclaredLast([HeaderLine("Allow", Str("POST"))], |html|);
    EncodeLength(html);
  }

  // ---------------------------------------------------------------------
  // Forms

  lemma {:induction false} JoinFree(parts: seq<string>, sep: string, x: char)
    requires Free(sep, x) && forall k :: 0 <= k < |parts| ==> Free(parts[k], x)
    ensures Free(Join(parts, sep), x)
  {
    if |parts| > 1 {
      JoinFree(parts[1..], sep, x);
      FreeAppend(parts[0], sep, x);
      FreeAppend(parts[0] + sep, Join(parts[1..], sep), x);
    }
  }

  /** A URL-encoded form of fields without `&` or `=` is answered with the
      table of the fields as they were typed. */
  lemma PostForm(fields: seq<(string, string)>)
    requires |fields| >= 1
    requires forall i :: 0 <= i < |fields| ==> FormSafe(fields[i].0) && FormSafe(fields[i].1)
    ensures var html := "<table>" + TableRows(fields) + "</table>";
            PostReply(FormText(QuoteFields(fields)))
            == Ok(Reply("200", "OK", [HeaderLine("Allow", Str("POST")), HeaderLine("Content-Length", Int(|html|))],
                        Some(Encode(html))))
  {
    UnquoteForm(fields);
    FormTable(fields);
  }

  /** `unquote_plus` turns a URL-encoded form back into the form of its
      fields. */
  lemma UnquoteForm(fields: seq<(string, string)>)
    requires |fields| >= 1
    ensures UnquotePlus(FormText(QuoteFields(fields))) == FormText(fields)
  {
    var e := ReplacePlus(FormText(QuoteFields(fields)));
    FormBytes(fields, "");
    assert e + "" == e;
    assert PercentBytes("") == [];
    assert Encode(FormText(fields)) + [] == Encode(FormText(fields));
    DecodeEncode(FormText(fields));
    DecodeReplaceAgrees(Encode(FormText(fields)));
  }

  /** The bytes `unquote_plus` assembles from an encoded form are those of
      the plain form, whatever follows. */
  lemma {:induction false} FormBytes(fields: seq<(string, string)>, rest: string)
    requires |fields| >= 1
    ensures PercentBytes(ReplacePlus(FormText(QuoteFields(fields))) + rest)
         == Encode(FormText(fields)) + PercentBytes(rest)
  {
    var f := fields[0];
    var lineQ := QuotePlus(f.0) + "=" + QuotePlus(f.1);
    var line := f.0 + "=" + f.1;
    if |fields| == 1 {
      assert FormText(QuoteFields(fields)) == lineQ;
      assert FormText(fields) == line;
      UnquoteLine(f.0, f.1, rest);
    } else {
      var tailQ := FormText(QuoteFields(fields[1..]));
      var tail := FormText(fields[1..]);
      FormTextCons(fields);
      var rt := ReplacePlus(tailQ);
      DelimitedText(lineQ, '&', tailQ, rest);
      UnquoteLine(f.0, f.1, "&" + (rt + rest));
      DelimBytes('&', rt + rest);
      FormBytes(fields[1..], rest);
      DelimitedBytes(line, '&', tail, PercentBytes(rest));
    }
  }

  lemma FormTextCons(fields: seq<(string, string)>)
    requires |fields| >= 2
    ensures FormText(QuoteFields(fields))
         == QuotePlus(fields[0].0) + "=" + QuotePlus(fields[0].1) + "&" + FormText(QuoteFields(fields[1..]))
    ensures FormText(fields) == fields[0].0 + "=" + fields[0].1 + "&" + FormText(fields[1..])
  {
    var qf := QuoteFields(fields);
    assert PairLines(qf, "=") == [PairLines(qf, "=")[0]] + PairLines(QuoteFields(fields[1..]), "=");
    JoinCons(PairLines(qf, "=")[0], PairLines(QuoteFields(fields[1..]), "="), "&");
    assert PairLines(fields, "=") == [PairLines(fields, "=")[0]] + PairLines(fields[1..], "=");
    JoinCons(PairLines(fields, "=")[0], PairLines(fields[1..], "="), "&");
  }

  /** One encoded field reads back as its plain field. */
  lemma UnquoteLine(k: string, v: string, rest: string)
    ensures PercentBytes(ReplacePlus(QuotePlus(k) + "=" + QuotePlus(v)) + rest)
         == Encode(k + "=" + v) + PercentBytes(rest)
  {
    var rk, rv := ReplacePlus(QuotePlus(k)), ReplacePlus(QuotePlus(v));
    var x := rv + rest;
    DelimitedText(QuotePlus(k), '=', QuotePlus(v), rest);
    UnquoteThen(k, "=" + x);
    DelimBytes('=', x);
    UnquoteThen(v, rest);
    DelimitedBytes(k, '=', v, PercentBytes(rest));
  }

  /** Replacing `+` around a delimiter that is not `+`, then appending. */
  lemma DelimitedText(a: string, c: char, b: string, rest: string)
    requires c != '+'
    ensures ReplacePlus(a + [c] + b) + rest == ReplacePlus(a) + ([c] + (ReplacePlus(b) + rest))
  {
    ReplacePlusAppend(a + [c], b);
    ReplacePlusAppend(a, [c]);
    assert ReplacePlus([c]) == [c];
    Assoc(ReplacePlus(a) + [c], ReplacePlus(b), rest);
    Assoc(ReplacePlus(a), [c], ReplacePlus(b) + rest);
  }

  /** The encoding of two texts around a delimiter, then more bytes. */
  lemma DelimitedBytes(a: string, c: char, b: string, tail: seq<byte>)
    ensures Encode(a) + (EncodeChar(c) + (Encode(b) + tail)) == Encode(a + [c] + b) + tail
  {
    EncodeAppend(a + [c], b);
    EncodeAppend(a, [c]);
    assert Encode([c]) == EncodeChar(c) by {
      assert [c][1..] == [];
    }
    Assoc(Encode(a) + EncodeChar(c), Encode(b), tail);
    Assoc(Encode(a), EncodeChar(c), Encode(b) + tail);
  }

  /** A character other than `%` is read as its own encoding. */
  lemma DelimBytes(c: char, x: string)
    requires c != '%'
    ensures PercentBytes([c] + x) == EncodeChar(c) + PercentBytes(x)
  {
    assert ([c] + x)[0] == c && ([c] + x)[1..] == x;
  }

  /** A form body without `+` or `%` needs no unquoting: it is answered
      with the table of its fields as they stand. */
  lemma PostPlainForm(fields: seq<(string, string)>)
    requires |fields| >= 1
    requires forall i :: 0 <= i < |fields| ==> FormSafe(fields[i].0) && FormSafe(fields[i].1)
    requires forall i :: 0 <= i < |fields| ==> Free(fields[i].0, '+') && Free(fields[i].0, '%')
    requires forall i :: 0 <= i < |fields| ==> Free(fields[i].1, '+') && Free(fields[i].1, '%')
    ensures var html := "<table>" + TableRows(fields) + "</table>";
            PostReply(FormText(fields))
            == Ok(Reply("200", "OK", [HeaderLine("Allow", Str("POST")), HeaderLine("Content-Length", Int(|html|))],
                        Some(Encode(html))))
  {
    var ps := PairLines(fields, "=");
    forall k | 0 <= k < |ps| ensures Free(ps[k], '+') && Free(ps[k], '%') {
      FreeAppend(fields[k].0, "=", '+');
      FreeAppend(fields[k].0 + "=", fields[k].1, '+');
      FreeAppend(fields[k].0, "=", '%');
      FreeAppend(fields[k].0 + "=", fields[k].1, '%');
    }
    JoinFree(ps, "&", '+');
    JoinFree(ps, "&", '%');
    UnquotePlain(FormText(fields));
    FormTable(fields);
  }

  /** An empty body is answered with ValueError, not with an empty table. */
  lemma PostEmpty()
    ensures PostReply("") == Raise(ValueError)
  {
    UnquotePlain("");
    ParseEmptyForm();
  }

  /** Text that is unquoted before it is split: a value containing `=`,
      even when the client escapes it, splits into three parts and the
      whole request fails. */
  lemma PostRejectsEncodedEquals(key: string, value: string)
    requires FormSafe(key) && Free(value, '&') && Contains(value, "=")
    ensures PostReply(FormText(QuoteFields([(key, value)]))) == Raise(ValueError)
  {
    UnquoteForm([(key, value)]);
    var s := key + "=" + value;
    assert FormText([(key, value)]) == s;
    FreeAppend(key, "=", '&');
    FreeAppend(key + "=", value, '&');
    NotContainsFree(s, "&");
    assert Split(s, "&") == [s];
    SplitAfterKey(key, value);
  }

  /** `key=value` with `=` inside the value splits into more than two parts. */
  lemma SplitAfterKey(key: string, value: string)
    requires Free(key, '=') && Contains(value, "=")
    ensures |Split(key + "=" + value, "=")| >= 3
  {
    var s := key + "=" + value;
    FindAfterFree(key, "=", value);
    assert s[|key| + 1..] == value;
    assert Split(s, "=") == [s[..|key|]] + Split(value, "=");
    var j := Find(value, "=").value;
    assert Split(value, "=") == [value[..j]] + Split(value[j + 1..], "=");
  }

  // ---------------------------------------------------------------------
  // Redirects

  /** A redirect without a known selector still answers 307, with the
      `Location` header reading `None`. */
  lemma RedirectWithoutSelector()
    ensures GetReply(map[], "redirect") == Ok(Reply("307", "Redirect", ["Location: None"], None))
  {
    assert Contains("redirect", "redirect") by {
      assert OccursAt("redirect", 0, "redirect");
    }
    BareRedirectQuery();
    EmptyQueryFirst("selector");
    assert BuildUrl("redirect") == Ok(None);
    LocationNone();
  }

  lemma BareRedirectQuery()
    ensures UrlQuery("redirect") == Ok("")
  {
    RedirectWord();
    UrlQueryRelative("redirect");
    NotContainsFree("redirect", "?");
  }

  /** Proof helper: the word `redirect` holds no delimiter. */
  lemma RedirectWord()
    ensures Free("redirect", ':') && Free("redirect", '?') && Clean("redirect")
  {
  }

  lemma EmptyQueryFirst(name: string)
    ensures QueryFirst("", name) == ""
  {
    assert Split("", "&") == [""];
    assert QueryPairs([""]) == [] by {
      assert [""][1..] == [];
    }
  }

  /** Proof helper: the `Location` line when `build_url` gives `None`. */
  lemma LocationNone()
    ensures HeaderLine("Location", Location(None)) == "Location: None"
  {
  }

  lemma StartsWith(a: string, b: string)
    ensures Contains(a + b, a)
  {
    assert (a + b)[0..|a|] == a;
    assert OccursAt(a + b, 0, a);
  }

  /** A GET for the search form's redirect path sends the browser to the
      chosen site's search for exactly the typed text. */
  lemma RedirectToSearch(fs: FileSystem, t: string, selector: string)
    requires selector == "google" || selector == "youtube"
    ensures var url := if selector == "google" then SearchUrl(GOOGLE, "q", t) else SearchUrl(YOUTUBE, "search_query", t);
            GetReply(fs, RedirectPath(t, selector)) == Ok(Reply("307", "Redirect", ["Location: " + url], None))
  {
    RedirectPathMentions(t, selector);
    BuildUrlOf(t, selector);
    LocationLine(if selector == "google" then SearchUrl(GOOGLE, "q", t) else SearchUrl(YOUTUBE, "search_query", t));
  }

  lemma RedirectPathMentions(t: string, selector: string)
    ensures Contains(RedirectPath(t, selector), "redirect")
  {
    var rest := "?" + RedirectQuery(t, selector);
    StartsWith("redirect", rest);
    assert RedirectPath(t, selector) == "redirect" + rest;
  }

  /** Proof helper: the `Location` line of a URL. */
  lemma LocationLine(url: string)
    ensures HeaderLine("Location", Location(Some(url))) == "Location: " + url
  {
  }

  // ---------------------------------------------------------------------
  // A whole exchange

  /** A GET that arrives in one read is answered as `get_request` answers
      its path: the target less its leading `/`. */
  lemma RespondGet(fs: FileSystem, target: string, version: string, fields: seq<(string, string)>)
    requires IsWord(target) && IsWord(version)
    requires PlainLine("GET" + " " + target + " " + version) && forall k :: 0 <= k < |fields| ==> PlainField(fields[k])
    requires |Encode(HeadText("GET" + " " + target + " " + version, fields))| + 4 <= BUFF_SIZE
    requires LengthReadable(FieldDict(fields))
    ensures var seg: Chunk := Encode(HeadText("GET" + " " + target + " " + version, fields)) + HEADER_END;
            Respond(fs, [seg]) == Emit(GetReply(fs, target[1..]))
  {
    GetFramed(target, version, fields);
  }

  /** The framing half of `RespondGet`. */
  lemma GetFramed(target: string, version: string, fields: seq<(string, string)>)
    requires IsWord(target) && IsWord(version)
    requires PlainLine("GET" + " " + target + " " + version) && forall k :: 0 <= k < |fields| ==> PlainField(fields[k])
    requires |Encode(HeadText("GET" + " " + target + " " + version, fields))| + 4 <= BUFF_SIZE
    requires LengthReadable(FieldDict(fields))
    ensures var seg: Chunk := Encode(HeadText("GET" + " " + target + " " + version, fields)) + HEADER_END;
            Frame([seg]).0 == Ok(Request("GET", target[1..], FieldDict(fields), ""))
  {
    assert IsWord("GET");
    assert Encode("") == [];
    FrameOneRead("GET", target, version, fields, "");
    var seg: Chunk := Encode(HeadText("GET" + " " + target + " " + version, fields)) + HEADER_END;
    assert seg == Encode(HeadText("GET" + " " + target + " " + version, fields)) + HEADER_END + Encode("");
  }
}
