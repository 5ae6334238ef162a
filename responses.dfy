/** `ResponseBuilder` (myServer.py:173-220): status line, header lines in
    call order, optional content, serialised as section 6 of RFC 2616 lays
    out a response: status line CRLF, each header line CRLF, an empty line,
    then the body. */
module Responses {
  import opened Outcomes
  import opened Utf8
  import opened Text
  import opened Wire

  /** What an f-string may be asked to format here: a `str`, an `int`, or
      `None` (which prints as `None`). */
  datatype Value = Str(s: string) | Int(n: int) | NoneValue

  /** `f"{v}"` */
  function Format(v: Value): string
  {
    match v
    case Str(s) => s
    case Int(n) => FormatInt(n)
    case NoneValue => "None"
  }

  /** What `set_content` accepts: `bytes`, or a `str` it encodes. */
  datatype Content = Bytes(b: seq<byte>) | Text(t: string)

  function ContentBytes(c: Content): seq<byte>
  {
    match c
    case Bytes(b) => b
    case Text(t) => Encode(t)
  }

  /** `len(c)`: bytes for `bytes`, characters for `str`. */
  function Len(c: Content): nat
  {
    match c
    case Bytes(b) => |b|
    case Text(t) => |t|
  }

  /** The line `set_status` stores. */
  function StatusLine(code: Value, message: string): string
  {
    "HTTP/1.1 " + Format(code) + " " + message
  }

  /** The line `add_header` appends. */
  function HeaderLine(key: string, value: Value): string
  {
    key + ": " + Format(value)
  }

  /** `build()` on a builder holding `status`, `headers` and `content`:
      without a status the concatenation `None + str` raises TypeError; the
      content is appended only when it is set and not empty. */
  function Serialize(status: Option<string>, headers: seq<string>, content: Option<seq<byte>>): (r: Result<seq<byte>>)
    ensures r.Raise? <==> status.None?
    ensures r.Raise? ==> r.exc == TypeError
  {
    match status
    case None => Raise(TypeError)
    case Some(s) =>
      var out := Encode(s + NEWLINE + Join(headers, NEWLINE) + NEWLINE + NEWLINE);
      if content.Some? && content.value != [] then Ok(out + content.value) else Ok(out)
  }

  class ResponseBuilder {
    var headers: seq<string>
    var status: Option<string>
    var content: Option<seq<byte>>

    constructor ()
      ensures headers == [] && status == None && content == None
    {
      headers := [];
      status := None;
      content := None;
    }

    method AddHeader(key: string, value: Value)
      modifies this
      ensures headers == old(headers) + [HeaderLine(key, value)]
      ensures status == old(status) && content == old(content)
    {
      headers := headers + [HeaderLine(key, value)];
    }

    method SetStatus(code: Value, message: string)
      modifies this
      ensures status == Some(StatusLine(code, message))
      ensures headers == old(headers) && content == old(content)
    {
      status := Some(StatusLine(code, message));
    }

    method SetContent(c: Content)
      modifies this
      ensures content == Some(ContentBytes(c))
      ensures headers == old(headers) && status == old(status)
    {
      content := Some(ContentBytes(c));
    }

    /** `build()`: TypeError while no status is set; otherwise a client
        reads the bytes back as the status line, the header lines in the
        order they were added, and the content. */
    function Build(): (r: Result<seq<byte>>)
      reads this
      ensures r.Raise? <==> status.None?
      ensures r.Raise? ==> r.exc == TypeError
      ensures status.Some? && PlainLine(status.value) && |headers| >= 1
              && (forall k :: 0 <= k < |headers| ==> PlainLine(headers[k]))
              ==> r.Ok? && ParseResponse(r.value) == Some(([status.value] + headers, BodyOf(content)))
    {
      if status.Some? && PlainLine(status.value) && |headers| >= 1
         && (forall k :: 0 <= k < |headers| ==> PlainLine(headers[k]))
      then
        ParseSerialize(status.value, headers, content);
        Serialize(status, headers, content)
      else Serialize(status, headers, content)
    }
  }

  // ---------------------------------------------------------------------
  // Reading a response back

  /** How a client reads a response: the lines before the first CRLF CRLF,
      decoded and split at CRLF, and the bytes after it. */
  function ParseResponse(bs: seq<byte>): (r: Option<(seq<string>, seq<byte>)>)
    ensures r.Some? ==> |r.value.0| >= 1
  {
    match Find(bs, HEADER_END)
    case None => None
    case Some(i) =>
      match Decode(bs[..i])
      case None => None
      case Some(head) => Some((Split(head, NEWLINE), bs[i + 4..]))
  }

  /** The body that goes on the wire for a content slot. */
  function BodyOf(content: Option<seq<byte>>): seq<byte>
  {
    if content.Some? then content.value else []
  }

  /** A block of plain lines closed by CRLF CRLF reads back as those lines
      and whatever follows. */
  lemma ParseBlock(lines: seq<string>, tail: seq<byte>)
    requires |lines| >= 1 && forall k :: 0 <= k < |lines| ==> PlainLine(lines[k])
    ensures ParseResponse(Encode(Join(lines, NEWLINE)) + HEADER_END + tail) == Some((lines, tail))
  {
    BlockRoundTrip(lines, tail);
  }

  /** With at least one header, every line is read back in order, exactly
      one empty line separates them from the body, and the body is the
      content that was set (nothing when none was). */
  lemma ParseSerialize(status: string, headers: seq<string>, content: Option<seq<byte>>)
    requires PlainLine(status) && |headers| >= 1
    requires forall k :: 0 <= k < |headers| ==> PlainLine(headers[k])
    ensures Serialize(Some(status), headers, content).Ok?
    ensures ParseResponse(Serialize(Some(status), headers, content).value) == Some(([status] + headers, BodyOf(content)))
  {
    var lines := [status] + headers;
    forall k | 0 <= k < |lines| ensures PlainLine(lines[k]) {
      if k > 0 {
        assert lines[k] == headers[k - 1];
      }
    }
    var text := status + NEWLINE + Join(headers, NEWLINE);
    assert Join(lines, NEWLINE) == text by {
      assert lines[0] == status && lines[1..] == headers;
    }
    var head := Encode(text);
    assert Encode(text + NEWLINE + NEWLINE) == head + HEADER_END by {
      assert text + NEWLINE + NEWLINE == text + (NEWLINE + NEWLINE);
      EncodeAppend(text, NEWLINE + NEWLINE);
      HeaderEndEncoding();
    }
    ParseBlock(lines, BodyOf(content));
    var out := Serialize(Some(status), headers, content).value;
    assert out == head + HEADER_END + BodyOf(content);
  }

  /** With no header at all, `build()` writes three CRLFs after the status
      line, so a reader finds a body that starts with a stray CRLF. */
  lemma SerializeNoHeaders(status: string)
    requires PlainLine(status)
    ensures Serialize(Some(status), [], None) == Ok(Encode(status) + HEADER_END + [13, 10])
    ensures ParseResponse(Serialize(Some(status), [], None).value) == Some(([status], [13, 10]))
  {
    SerializeNoHeadersBytes(status);
    assert Join([status], NEWLINE) == status;
    ParseBlock([status], [13, 10]);
  }

  lemma SerializeNoHeadersBytes(status: string)
    ensures Serialize(Some(status), [], None) == Ok(Encode(status) + HEADER_END + [13, 10])
  {
    var text := status + NEWLINE + Join([], NEWLINE) + NEWLINE + NEWLINE;
    assert text == status + (NEWLINE + NEWLINE) + NEWLINE;
    EncodeAppend(status + (NEWLINE + NEWLINE), NEWLINE);
    EncodeAppend(status, NEWLINE + NEWLINE);
    HeaderEndEncoding();
    EncodeNewline();
  }

  /** An integer header value is written so that `int()` reads it back. */
  lemma FormatIntReadsBack(n: int)
    requires FitsStrDigits(n)
    ensures ParseInt(Format(Int(n))) == Some(n)
    ensures ParseInt(" " + Format(Int(n))) == Some(n)
  {
    FormatParseInt(n);
  }
}
