# A verified model of `myServer.py`

`myServer.py` is a small threaded HTTP/1.1 file server. For each connection it
does three things:

1. It reads one request off the socket (`recv_until_crlfs`).
2. It dispatches on the method name (`process_response`):
   - `GET` serves a file from the working directory, or redirects a search
     form to Google or YouTube;
   - `POST` echoes a URL-encoded form back as an HTML table;
   - `HEAD` reports the status a `GET` would get;
   - anything else is answered `405`.
3. It sends the bytes that a `ResponseBuilder` assembled.

This project models that core in Dafny and proves what it does.

- **Framer.** The socket is a class over the queue of segments still to arrive.
  `recv_until_crlfs` is an imperative method with the source's two loops.
  It is proved equal to the pure function `Frame`.
- **Response builder.** `ResponseBuilder` is a class whose methods update
  its three fields in place. `build()` is a function of those fields.
- **Handlers.** Each handler is a method that drives a fresh builder, as
  the source does. It is proved to return the rendering of a pure `Reply`.
  The handlers' promises are stated about those replies: which status is
  chosen, what a client reads back, what `Content-Length` declares, and
  where a redirect points.
- **Python built-ins and filesystem.**
  - Exceptions are `Raise` results.
  - Text is `seq<char>`; bytes are `seq<byte>`.
  - `str.encode`/`bytes.decode` are a full UTF-8 codec, with its round trips
    proved.
  - `split`, `join`, `find`, `lower`, `int`, `quote_plus`, `unquote_plus`,
    `urlparse(...).query` and `parse_qs` are defined on sequences.
  - The filesystem is a map from paths to entries, given to the handlers as
    a value.

Modules, one file each:

- `Outcomes`: `Option`, `Result` and the Python exceptions.
- `Utf8`: the codec.
- `Text`: the `str` built-ins.
- `UrlCodec`: `urllib.parse`.
- `Wire`: CRLF line structure.
- `Requests`: `Request` and header parsing.
- `Framer`: `recv_until_crlfs`.
- `FramerFacts`: what it makes of well-formed and malformed input.
- `Responses`: `ResponseBuilder`.
- `Files`: the file helpers and tables.
- `Server`: the handlers, `parse_post_request` and `build_url`.
- `ServerFacts`: what the handlers promise.

Several behaviours of the code as written are proved as they are, rather than
smoothed over:

- A `CRLF CRLF` split across two reads is missed. Once the client closes the
  connection, the request fails with ValueError.
- When nothing follows the terminator in its read, body bytes that arrive in
  a later read are never read.
- With a `Content-Length`, only one further read is made for the body, so a
  longer body is truncated. Without one, reading goes on until the peer
  closes the connection.
- A redirect path that starts with `//` and opens a `[` it never closes is
  rejected by `urlparse`, and the GET raises ValueError.
- `Content-Length` counts characters of a text file or form table, not
  bytes, so it is right exactly for ASCII text.
- A form is unquoted before it is split, so an encoded `=` or `&` in a value
  breaks it.
- `avi` and `mov` files are sent as bytes but labelled `text/plain`.
- A redirect with an unknown selector sends `Location: None`.
- `HEAD` does not redirect.
- An empty `POST` body raises ValueError.

## Model

| member | source | states |
|---|---|---|
| Requests.NewRequest | myServer.py:34-39 | a request exists iff the start line has at least two whitespace-separated words (ValueError otherwise); the method is the first word, the path is the second word less its first character, and the headers and content are kept as given |
| Requests.NewRequestOfStartLine | myServer.py:34-39 | for a start line `verb SP target SP version`, the method is `verb` and the path is `target[1..]` |
| Requests.ToTuple | myServer.py:43-45 | `to_tuple` succeeds iff the line has a colon (ValueError otherwise); the name is lower-case and colon-free; the name, one colon and the value are as long as the line (`ToTupleOf` states their content) |
| Requests.ToTupleOf | myServer.py:43-45 | `name:value` with a colon-free name gives the lower-cased name and the whole value, including any further colons |
| Requests.HeaderDict | myServer.py:66 | `dict(map(to_tuple, lines))` succeeds iff every line has a colon (ValueError otherwise); every key is lower-case |
| Requests.HeaderDictKeys | myServer.py:66 | the dictionary's keys are exactly the lower-cased names of the lines |
| Requests.HeaderDictLastWins | myServer.py:66 | for a repeated name, the value on its last line is kept |
| Requests.HeaderDictOfFields | myServer.py:66 | lines written as `name:value` parse back to the dictionary of those fields |
| Framer.RecvSpec | myServer.py:51 | one `recv(n)` returns at most `n` bytes, nothing only when `n` is 0 or the stream is closed, and no byte is lost or reordered |
| Framer.Socket.Recv | myServer.py:51 | the socket method returns the bytes `RecvSpec` describes and leaves what it describes pending |
| Framer.ScanHeader | myServer.py:47-62 | the header loop loses and reorders no byte: the header, the terminator when found, the early body and the unread segments make up the input; without a terminator there is no early body and nothing is left |
| Framer.CompleteBody | myServer.py:67-78 | the body step raises only when body bytes came early and a length is declared, and then reads nothing: ValueError exactly when `int()` refuses the length (not a number, or more than 4300 digits), OverflowError exactly when the missing count exceeds `ssize_t`; otherwise the early bytes are kept and the bytes read are exactly those taken from the connection |
| Framer.Frame | myServer.py:42-79 | `recv_until_crlfs` consumes a prefix of the connection and raises only UnicodeDecodeError, ValueError or OverflowError |
| Framer.RecvUntilCrlfs | myServer.py:42-79 | the imperative loops return what `Frame` gives and leave the connection where `Frame` leaves it |
| Framer.RecvHeader | myServer.py:47-62 | the header loop as a method yields the header and early body of `ScanHeader`, with `content_bytes_read` equal to the early body's length |
| Framer.RecvBody | myServer.py:67-78 | the body loops as a method yield what `CompleteBody` gives |
| FramerFacts.ScanWithoutTerminator | myServer.py:50-62 | if no read contains the terminator, everything up to the end of the stream becomes header |
| FramerFacts.ScanFirstHit | myServer.py:50-62 | the first read that contains the terminator decides the split; the earlier reads are all header |
| FramerFacts.ParseHead | myServer.py:64-66 | a header block of plain lines decodes, splits back into its lines and parses into the dictionary of its fields |
| FramerFacts.FrameHeadRead | myServer.py:42-79 | a head plus terminator plus early body in one read is parsed as that head, and its body is completed from the rest |
| FramerFacts.FrameOneRead | myServer.py:42-79 | a request that arrives in one read frames back as its method, its path, its header dictionary and its body |
| FramerFacts.FrameBodyNextRead | myServer.py:75-78 | a body finished by the next read under a correct `content-length` is read whole |
| FramerFacts.FrameBodyTruncated | myServer.py:75-78 | a body spread over two more reads is truncated after the first of them, and the last read stays unread |
| FramerFacts.FrameBodyNotRead | myServer.py:59-67 | when nothing follows the terminator in its read, a body in a later read is not read, whatever `content-length` says |
| FramerFacts.TerminatorAcrossReads | myServer.py:55-66 | a start line whose `CRLF CRLF` is split across two reads fails with ValueError |
| FramerFacts.TerminatorInOneRead | myServer.py:55-79 | the same bytes in one read frame as a request with no fields and no body |
| FramerFacts.CompleteBodyLongLength | myServer.py:75-76 | a declared length of more than 4300 digits, leading zeros included, makes the body step raise ValueError and read nothing |
| Responses.Serialize | myServer.py:202-220 | `build()` raises TypeError exactly when no status was set |
| Responses.ResponseBuilder.constructor | myServer.py:179-185 | a new builder has no headers, no status and no content |
| Responses.ResponseBuilder.AddHeader | myServer.py:187-189 | appends `key: value` after the existing headers and changes nothing else |
| Responses.ResponseBuilder.SetStatus | myServer.py:191-193 | replaces the status with `HTTP/1.1 code message` and changes nothing else |
| Responses.ResponseBuilder.Build | myServer.py:202-220 | raises TypeError exactly when no status is set; with plain lines and at least one header, a client reads back the status line, the headers in the order added, and the content |
| Responses.ResponseBuilder.SetContent | myServer.py:195-200 | stores bytes as given and text as its UTF-8 encoding, and changes nothing else |
| Responses.ParseSerialize | myServer.py:202-220 | with at least one header, a client reads back the status line and the headers in order, and the content that was set (nothing when none was) after the empty line |
| Responses.SerializeNoHeaders | myServer.py:215-216 | with no header, three CRLFs follow the status line, so the body read back begins with a stray CRLF |
| Responses.FormatIntReadsBack | myServer.py:187-189 | an integer header value of at most 4300 digits is written so that `int()` reads it back, with or without the blank after the colon |
| Files.FileExists | myServer.py:113-116 | a path exists exactly when opening it, as text or as bytes, does not raise FileNotFoundError |
| Files.HasPermissionOther | myServer.py:97-110 | raises FileNotFoundError iff the path is missing; otherwise true iff the permission bit of weight 4 (`S_IROTH`) is set |
| Files.BitAndOther | myServer.py:110 | `S_IROTH & mode` is 4 when that bit is set and 0 otherwise |
| Files.GetFileContents | myServer.py:86-89 | succeeds iff the path is a regular file whose bytes are valid UTF-8; otherwise FileNotFoundError, IsADirectoryError or UnicodeDecodeError; the text holds no `\r` and is no longer than the file |
| Files.GetFileContentsOfText | myServer.py:86-89 | a file written as the encoding of a text without `\r` reads back as that text |
| Files.GetFileBinaryContents | myServer.py:92-95 | succeeds iff the path is a regular file; otherwise FileNotFoundError or IsADirectoryError |
| Files.BinaryAgreesWithText | myServer.py:86-95 | when a text read succeeds, the binary read of the same file succeeds and decodes to the text before newline translation |
| Files.ShouldReturnBinary | myServer.py:126-133 | a binary extension is in the MIME table unless it is `avi` or `mov`, and its type there is never `text/plain` |
| Files.GetFileMimeType | myServer.py:162-170 | the type is `text/plain` exactly for extensions the table lacks, and for `txt`; any other type is the table's entry |
| Files.MimeOfBinary | myServer.py:126-170 | every binary extension but `avi` and `mov` has a type other than `text/plain`; `avi` and `mov` are binary but `text/plain`; `ogg` has its own type but is read as text |
| Files.Extension | myServer.py:368-374 | `path.split(".")[-1]` holds no dot, and is the whole path when the path has none |
| Files.ExtensionOf | myServer.py:368-374 | the extension of `stem.ext` is `ext` whenever `ext` has no dot |
| Server.Rows | myServer.py:223-224 | the rows exist iff every pair splits at `=` into exactly two parts; otherwise ValueError |
| Server.ParsePostRequest | myServer.py:222-226 | the table exists iff every `&`-separated pair has exactly one `=`; otherwise ValueError |
| Server.FormTable | myServer.py:222-226 | a form built from fields free of `&` and `=` yields a table with one row per field, in order |
| Server.ParseEmptyForm | myServer.py:222-226 | an empty form raises ValueError instead of giving an empty table |
| Server.BuildUrl | myServer.py:228-240 | raises exactly when `urlparse` rejects the path, and then ValueError; any URL it gives is YouTube's or Google's search URL for some text |
| Server.BuildUrlOf | myServer.py:228-240 | the search form's redirect path `redirect?text=T&selector=S` is accepted and yields the search URL of site S for exactly the text T |
| Server.RedirectPathQuery | myServer.py:229-230 | `urlparse` gives the search form's redirect path the query `text=…&selector=…` |
| Server.GoogleReadsBack | myServer.py:238-240 | Google's search URL carries the typed text back out as its `q` parameter |
| Server.YoutubeReadsBack | myServer.py:235-237 | YouTube's search URL carries the typed text back out as its `search_query` parameter |
| Server.SearchQueryOf | myServer.py:235-240 | an `https` search URL with one query field has that field as its `urlparse` query, and the field reads back as the typed text |
| Server.GetReply | myServer.py:311-384 | a GET reply is 307, 404, 403 or 200; it raises ValueError exactly for a redirect path `urlparse` rejects, answers every other redirect path 307, and never raises TypeError or OverflowError |
| Server.PostReply | myServer.py:388-425 | a POST raises only ValueError; otherwise it is 200 with two headers and a body |
| Server.HeadReply | myServer.py:428-452 | a HEAD reply is 200, 404 or 403 with no body, and 200 exactly when the file exists and others may read it |
| Server.ProcessReply | myServer.py:285-292 | only GET and POST raise; the reply is 405 exactly when the method is none of `GET`, `POST`, `HEAD` |
| Server.ResourceNotFound | myServer.py:295-308 | returns the rendering of the 404 reply: status 404, `Connection: close`, and the page's text; the page's read error otherwise |
| Server.GetRequest | myServer.py:311-384 | returns the rendering of the GET reply for the request's path, or the exception the source raises |
| Server.ErrorResponse | myServer.py:339-359 | the 404 and 403 branches return their error page's reply, or the page's read error |
| Server.FileResponse | myServer.py:368-383 | the file branch returns the file reply: the MIME type, `Connection: close`, the `len` of what was read, and the content |
| Server.PostRequest | myServer.py:388-425 | returns the rendering of the POST reply for the request's content, or ValueError |
| Server.HeadRequest | myServer.py:428-452 | never raises, and returns the rendering of the HEAD reply |
| Server.MethodNotAllowed | myServer.py:454-464 | returns the rendering of the 405 reply |
| Server.ProcessResponse | myServer.py:285-292 | dispatches to the reply of the exact method name: GET, POST, HEAD, or 405 |
| Server.AcceptRequest | myServer.py:275-279 | what is sent on a connection is the answer to the framed request, or the framing error that ends the thread |
| ServerFacts.GetStatus | myServer.py:311-384 | a GET is 307 iff the path mentions `redirect`, 404 iff not and the file is missing, 403 iff not and others may not read it, and 200 otherwise |
| ServerFacts.GetRaises | myServer.py:331-383 | a redirect GET raises iff `urlparse` rejects the path; any other GET raises iff the error page or the requested file cannot be read |
| ServerFacts.RedirectBadHost | myServer.py:331-337 | the redirect path `//[redirect` makes the GET raise ValueError |
| ServerFacts.GetDirectory | myServer.py:368-372 | a readable directory passes the checks but raises IsADirectoryError |
| ServerFacts.GetMissingIsNotFound | myServer.py:339-348 | the 404 of a GET is the reply `resource_not_found` gives |
| ServerFacts.ForbiddenIgnoresData | myServer.py:350-359 | the 403 answer does not depend on the forbidden file's contents |
| ServerFacts.GetServesFile | myServer.py:368-383 | a readable file is answered 200 with its MIME type and its whole content |
| ServerFacts.HeadMatchesGet | myServer.py:428-452 | apart from redirects, HEAD chooses GET's status and message, and has no content |
| ServerFacts.HeadIgnoresRedirect | myServer.py:436-441 | a missing path mentioning `redirect` is 404 for HEAD; GET answers it 307 whenever `urlparse` accepts it |
| ServerFacts.OtherMethodsNotAllowed | myServer.py:285-292 | any method name other than exactly `GET`, `POST` or `HEAD` gets the 405 reply |
| ServerFacts.MethodNotAllowedBytes | myServer.py:454-464 | the 405 response is exactly `HTTP/1.1 405 METHOD NOT ALLOWED`, CRLF, `Connection: close`, CRLF, CRLF |
| ServerFacts.HeadReadsBack | myServer.py:428-452 | a client reads a HEAD response as its status line, `Allow: HEAD` and `Connection: close`, with nothing after the empty line |
| ServerFacts.DeclaredLast | myServer.py:381 | a `Content-Length` header of at most 4300 digits written last is read back by `to_tuple` and `int()` as its number |
| ServerFacts.FileContentLength | myServer.py:368-383 | a file's declared length is `len` of what was read; it equals the bytes sent iff the file is read as binary or its text is ASCII |
| ServerFacts.PostContentLength | myServer.py:415-425 | a POST's declared length is the table's character count; it equals the bytes sent iff the table is ASCII |
| ServerFacts.PostForm | myServer.py:415-425 | a URL-encoded form of fields free of `&` and `=` is answered 200 with `Allow: POST`, the table's length and the table of the fields as typed |
| ServerFacts.UnquoteForm | myServer.py:415 | `unquote_plus` turns a URL-encoded form back into the form of its fields |
| ServerFacts.PostPlainForm | myServer.py:415-425 | a form body without `+` or `%` is answered with the table of its fields as they stand |
| ServerFacts.PostEmpty | myServer.py:415-416 | an empty POST body raises ValueError |
| ServerFacts.PostRejectsEncodedEquals | myServer.py:415-416 | a URL-encoded field whose value contains `=` still raises ValueError, because the body is unquoted before it is split |
| ServerFacts.RedirectWithoutSelector | myServer.py:331-337 | a redirect with no selector is 307 with `Location: None` |
| ServerFacts.RedirectToSearch | myServer.py:331-337 | the search form's redirect path is answered 307 with a `Location` holding the chosen site's search for the typed text |
| ServerFacts.RespondGet | myServer.py:275-292 | a GET that arrives in one read is answered as `get_request` answers its target less the leading `/` |
| Utf8.DecodeIffEncode | myServer.py:64 | `bytes.decode` gives `s` exactly when `s` encodes to those bytes |
| Utf8.DecodeEncode | myServer.py:64 | every text's encoding decodes back to it |
| Utf8.EncodeDecode | myServer.py:64 | every valid byte string is the encoding of what it decodes to |
| Utf8.EncodeLength | myServer.py:381 | a text is as long in bytes as in characters iff it is ASCII |
| Text.SplitOnce | myServer.py:44 | `split(sep, 1)` gives two parts iff the separator occurs; the first part has no separator and the parts rejoin to the input |
| Text.JoinSplit | myServer.py:65 | joining the pieces of a split gives back the input |
| Text.SplitJoin | myServer.py:65 | splitting a join of separator-free parts gives back the parts |
| Text.WordsJoin | myServer.py:35 | `split()` of words joined by single spaces gives back the words |
| Text.FormatParseInt | myServer.py:76 | `int()` reads back what `str()` wrote for every integer of at most 4300 digits, with or without a leading blank |
| Text.ParseIntTooLong | myServer.py:76 | `int()` refuses every run of more than 4300 digits, whatever its value |
| Text.TranslateNewlinesNoCr | myServer.py:88-89 | text-mode reading leaves a text without `\r` unchanged |
| UrlCodec.UnquoteQuote | myServer.py:230-239 | `unquote_plus(quote_plus(s)) == s` for every text |
| UrlCodec.UrlQuery | myServer.py:229-230 | `urlparse(...).query` raises only ValueError, and only for a URL holding `[` or `]` |
| UrlCodec.UrlQueryRelative | myServer.py:229-230 | a URL without scheme, network location or characters `urlsplit` strips has the query after its first `?` |
| UrlCodec.UrlQueryAbsolute | myServer.py:229-230 | `scheme://host/path?qs` has the query `qs` |
| UrlCodec.UrlQueryUnbalanced | myServer.py:229 | a network location with a `[` and no `]` makes `urlparse` raise ValueError |
| UrlCodec.QueryPartOf | myServer.py:230 | the query of a path with one `?` and no `#` is what follows the `?` |
| UrlCodec.UnquotePlain | myServer.py:415 | `unquote_plus` leaves a text without `+` or `%` unchanged |

## Left out

- Sockets are not modelled as such:
  - `send`, `shutdown` and `close` are left out;
  - the listening socket, `accept`, the threads and `HTTPServer.__init__`,
    `setup_socket`, `teardown_socket` are left out;
  - the `print` calls are left out.
  - A connection is the sequence of segments its reads would return. An empty
    read is the end of the stream.
- The filesystem is a map from paths to regular files and directories, with
  their permission bits.
  - Symbolic links, path normalisation and the unused `working_dir` are not
    modelled.
  - Neither is a `PermissionError` that the process's own permissions could
    raise on `open`.
- `open(path, "r")` is modelled with UTF-8 as the locale encoding.
- Text.Lower: `lower()` is modelled on ASCII letters only.
- Text.ParseInt: `int()` is modelled on ASCII digits, with Python's
  whitespace stripping, sign, single underscores and the limit of 4300
  digits (`sys.int_max_str_digits` at its default). Non-ASCII decimal
  digits, and a limit changed at run time, are not modelled.
- UrlCodec.UrlQuery: `urlparse(...).query` is modelled as Python 3.12's
  `urlsplit`: leading controls and blanks stripped, tab, CR and LF removed,
  the scheme split off, the network location after `//` split off (ValueError
  when it has only one of `[` and `]`), and the query taken after the first
  `?` before any `#`. Two further checks that can raise ValueError are not
  modelled: that a bracketed host is a valid IPv6 or IPvFuture address, and
  that a non-ASCII network location keeps its `/?#@:` characters under NFKC
  normalisation. The model lets those URLs through.
- Server.GetRequest: raises ValueError for a redirect path that `urlparse`
  rejects. The bracketed-host and non-ASCII netloc checks above are not
  modelled, so the model accepts a few paths the source rejects.
- ServerFacts.GetRaises: the redirect error case is modelled only for
  unbalanced brackets. The bracketed-host and non-ASCII netloc checks of
  `urlsplit` are not.
- Framer.CompleteBody: a `recv` size beyond `ssize_t` raises OverflowError, as
  modelled. A size that fits `ssize_t` but that the allocator refuses raises
  MemoryError, or OverflowError within a few bytes of the limit, in the
  source; the model reads instead.
- Framer.Frame: the allocation failure of a `recv` size the allocator
  refuses is not modelled, as under `Framer.CompleteBody`.
- A `recv` on a connection that stays open but sends nothing blocks forever
  in the source. The model has only segments that arrive and the end of the
  stream. So a `CRLF CRLF` split across reads fails with ValueError only once
  the client closes; a client that waits leaves the thread blocked.
- `parse_qs` is modelled with its defaults: blank values dropped, fields
  without `=` dropped, and `&` as the only separator, as in Python 3.10 and
  later.
- Responses.Format: only the values the server formats are modelled:
  strings, integers and `None`. `str()` of an integer of more than 4300
  digits raises ValueError in Python. The model writes all its digits.
- Text.FormatParseInt: stated only for integers of at most 4300 digits.
  `str()` of a larger one raises ValueError, which is not modelled.
- Responses.FormatIntReadsBack: stated only for values of at most 4300
  digits, for the same reason.
- ServerFacts.DeclaredLast: stated only for lengths of at most 4300 digits,
  for the same reason.
- ServerFacts.FileContentLength: stated only for files whose length has at
  most 4300 digits. No file reaches 10^4300 characters.
- ServerFacts.PostContentLength: stated only for tables whose length has at
  most 4300 digits.
- A handler's exception ends its thread without a response. The model
  returns the exception as a `Raise` result instead.
