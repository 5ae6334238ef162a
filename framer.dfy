/** `recv_until_crlfs` (myServer.py:42-79): read one request off a connection.

    The connection is a `Socket` whose `pending` field is the sequence of
    segments the peer has sent and the server has not yet received; `Recv(n)`
    hands out at most `n` bytes of the first segment and an empty read means
    the peer closed its side. The framer itself is the method `RecvUntilCrlfs`,
    written as the source loops; `Frame` states in one expression what it
    returns and what it leaves unread, and the lemmas below are about `Frame`. */
module Framer {
  import opened Outcomes
  import opened Utf8
  import opened Text
  import opened Requests
  import opened Wire

  /** A segment as `recv` delivers it: never empty (an empty read is end of stream). */
  type Chunk = s: seq<byte> | |s| > 0 witness [0]

  /** All the bytes still to be received, in order. */
  function Flatten(q: seq<Chunk>): seq<byte>
  {
    if q == [] then [] else q[0] + Flatten(q[1..])
  }

  lemma FlattenCons(c: Chunk, q: seq<Chunk>)
    ensures Flatten([c] + q) == c + Flatten(q)
  {
    assert ([c] + q)[0] == c && ([c] + q)[1..] == q;
  }

  /** One `recv(n)`: at most `n` bytes from the first pending segment, the
      rest of that segment staying queued; nothing when `n` is 0 or the peer
      has closed. */
  function RecvSpec(q: seq<Chunk>, n: nat): (r: (seq<byte>, seq<Chunk>))
    ensures |r.0| <= n
    ensures r.0 == [] <==> n == 0 || q == []
    ensures Flatten(q) == r.0 + Flatten(r.1)
  {
    if n == 0 || q == [] then ([], q)
    else if |q[0]| <= n then (q[0], q[1..])
    else
      var tail: Chunk := q[0][n..];
      FlattenCons(tail, q[1..]);
      assert q[0] == q[0][..n] + tail;
      (q[0][..n], [tail] + q[1..])
  }

  class Socket {
    var pending: seq<Chunk>

    constructor (arrivals: seq<Chunk>)
      ensures pending == arrivals
    {
      pending := arrivals;
    }

    method Recv(n: nat) returns (data: seq<byte>)
      modifies this
      ensures (data, pending) == RecvSpec(old(pending), n)
    {
      var r := RecvSpec(pending, n);
      data, pending := r.0, r.1;
    }
  }

  /** Where the header loop (myServer.py:50-62) stops: the header bytes, the
      body bytes that came in the same segment as the terminator, whether the
      terminator was seen, and what is still unread. */
  datatype Scan = Scan(header: seq<byte>, early: seq<byte>, found: bool, rest: seq<Chunk>)

  /** The header loop, from the bytes `acc` accumulated so far. Each read is
      searched for the terminator on its own. */
  function ScanHeader(q: seq<Chunk>, acc: seq<byte>): (s: Scan)
    ensures acc + Flatten(q) == s.header + (if s.found then HEADER_END else []) + s.early + Flatten(s.rest)
    ensures !s.found ==> s.early == [] && s.rest == []
    decreases |Flatten(q)|
  {
    var r := RecvSpec(q, BUFF_SIZE);
    var data := r.0;
    if data == [] then Scan(acc, [], false, r.1)
    else
      match Find(data, HEADER_END)
      case Some(i) =>
        SplitAround(acc, data, i, Flatten(r.1));
        Scan(acc + data[..i], data[i + 4..], true, r.1)
      case None =>
        assert acc + Flatten(q) == (acc + data) + Flatten(r.1);
        ScanHeader(r.1, acc + data)
  }

  /** Proof helper. An empty read ends the header loop: everything accumulated is header,
      and no body byte has been seen. */
  lemma ScanHeaderClosed(q: seq<Chunk>, acc: seq<byte>)
    requires RecvSpec(q, BUFF_SIZE).0 == []
    ensures ScanHeader(q, acc) == Scan(acc, [], false, [])
  {
  }

  /** Proof helper. A read that contains the terminator ends the header loop: the header
      is what came before its first occurrence, the early body is what
      follows it in the same read. */
  lemma ScanHeaderFound(q: seq<Chunk>, acc: seq<byte>, i: nat)
    requires Find(RecvSpec(q, BUFF_SIZE).0, HEADER_END) == Some(i)
    ensures var data := RecvSpec(q, BUFF_SIZE).0;
            ScanHeader(q, acc) == Scan(acc + data[..i], data[i + 4..], true, RecvSpec(q, BUFF_SIZE).1)
  {
  }

  /** Proof helper. A non-empty read without the terminator is appended to the header and
      the loop goes on. */
  lemma ScanHeaderMissed(q: seq<Chunk>, acc: seq<byte>)
    requires RecvSpec(q, BUFF_SIZE).0 != [] && !Contains(RecvSpec(q, BUFF_SIZE).0, HEADER_END)
    ensures ScanHeader(q, acc) == ScanHeader(RecvSpec(q, BUFF_SIZE).1, acc + RecvSpec(q, BUFF_SIZE).0)
  {
  }

  lemma SplitAround(acc: seq<byte>, data: seq<byte>, i: nat, tail: seq<byte>)
    requires OccursAt(data, i, HEADER_END)
    ensures acc + (data + tail) == (acc + data[..i]) + HEADER_END + data[i + 4..] + tail
  {
    assert data == data[..i] + HEADER_END + data[i + 4..];
  }

  /** The largest size `recv` accepts: its argument is converted to a C
      `ssize_t`, 64 bits wide, and a larger one raises OverflowError before
      anything is read. */
  const SSIZE_MAX: nat := 0x7FFF_FFFF_FFFF_FFFF

  /** The body completion (myServer.py:67-78): nothing more is read unless
      body bytes came with the header; then either every remaining segment
      (no content-length) or one read of what the declared length still lacks. */
  function CompleteBody(early: seq<byte>, kvs: map<string, string>, q: seq<Chunk>): (r: (Result<seq<byte>>, seq<Chunk>))
    ensures r.0.Raise? ==> (r.0.exc == ValueError || r.0.exc == OverflowError) && |early| > 0 && "content-length" in kvs && r.1 == q
    ensures |early| > 0 && "content-length" in kvs ==>
              var declared := ParseInt(kvs["content-length"]);
              && (declared.None? ==> r.0 == Raise(ValueError))
              && (declared.Some? && declared.value - |early| > SSIZE_MAX ==> r.0 == Raise(OverflowError))
              && (declared.Some? && declared.value - |early| <= SSIZE_MAX ==> r.0.Ok?)
    ensures r.0.Ok? ==> r.0.value + Flatten(r.1) == early + Flatten(q)
  {
    if |early| == 0 then (Ok(early), q)
    else if "content-length" !in kvs then (Ok(early + Flatten(q)), [])
    else
      var declared := ParseInt(kvs["content-length"]);
      if declared.None? then (Raise(ValueError), q)
      else
        var toRecv := if declared.value - |early| > 0 then declared.value - |early| else 0;
        if toRecv > SSIZE_MAX then (Raise(OverflowError), q)
        else
          var (data, rest) := RecvSpec(q, toRecv);
          Regroup(early, data, Flatten(rest));
          (Ok(early + data), rest)
  }

  lemma Regroup(a: seq<byte>, b: seq<byte>, c: seq<byte>)
    ensures (a + b) + c == a + (b + c)
  {
  }

  /** Proof helper. Without body bytes in the terminator's segment nothing more is read,
      whatever `content-length` says. */
  lemma CompleteBodyNothingEarly(early: seq<byte>, kvs: map<string, string>, q: seq<Chunk>)
    requires early == []
    ensures CompleteBody(early, kvs, q) == (Ok([]), q)
  {
  }

  /** Proof helper. With early body bytes and no `content-length`, every remaining segment
      is read until the peer closes. */
  lemma CompleteBodyUntilClosed(early: seq<byte>, kvs: map<string, string>, q: seq<Chunk>)
    requires early != [] && "content-length" !in kvs
    ensures CompleteBody(early, kvs, q) == (Ok(early + Flatten(q)), [])
  {
  }

  /** Proof helper. With early body bytes and a declared length `n`, exactly one more read
      of at most `max(0, n - len(early))` bytes is appended. */
  lemma CompleteBodyDeclared(early: seq<byte>, kvs: map<string, string>, q: seq<Chunk>, n: int)
    requires early != [] && "content-length" in kvs && ParseInt(kvs["content-length"]) == Some(n)
    requires n - |early| <= SSIZE_MAX
    ensures var r := RecvSpec(q, if n - |early| > 0 then n - |early| else 0);
            CompleteBody(early, kvs, q) == (Ok(early + r.0), r.1)
  {
  }

  lemma CompleteBodyTail(early: seq<byte>, kvs: map<string, string>, q: seq<Chunk>)
    ensures IsTail(Flatten(CompleteBody(early, kvs, q).1), Flatten(q))
  {
    var r := CompleteBody(early, kvs, q);
    if r.1 != q && r.1 != [] {
      var n := ParseInt(kvs["content-length"]).value;
      var toRecv := if n - |early| > 0 then n - |early| else 0;
      TailOfAppend(RecvSpec(q, toRecv).0, Flatten(r.1));
    }
  }

  /** Whether `tail` is what is left of `whole` after a prefix was consumed. */
  predicate IsTail(tail: seq<byte>, whole: seq<byte>) {
    |tail| <= |whole| && whole[|whole| - |tail|..] == tail
  }

  lemma TailOfAppend(p: seq<byte>, t: seq<byte>)
    ensures IsTail(t, p + t)
  {
    assert (p + t)[|p|..] == t;
  }

  lemma TailTrans(a: seq<byte>, b: seq<byte>, c: seq<byte>)
    requires IsTail(a, b) && IsTail(b, c)
    ensures IsTail(a, c)
  {
    assert c[|c| - |a|..] == c[|c| - |b|..][|b| - |a|..];
  }

  /** What `recv_until_crlfs` returns on a connection whose pending segments
      are `q`, and the segments it leaves unread. It only ever consumes a
      prefix of the stream, and it fails only with the exceptions the source
      can raise there. */
  function Frame(q: seq<Chunk>): (r: (Result<Request>, seq<Chunk>))
    ensures IsTail(Flatten(r.1), Flatten(q))
    ensures r.0.Raise? ==> r.0.exc == UnicodeDecodeError || r.0.exc == ValueError || r.0.exc == OverflowError
  {
    var sc := ScanHeader(q, []);
    ScanHeaderTail(q);
    ParseScannedTail(sc);
    TailTrans(Flatten(ParseScanned(sc).1), Flatten(sc.rest), Flatten(q));
    ParseScanned(sc)
  }

  lemma ScanHeaderTail(q: seq<Chunk>)
    ensures IsTail(Flatten(ScanHeader(q, []).rest), Flatten(q))
  {
    var sc := ScanHeader(q, []);
    TailOfAppend(sc.header + (if sc.found then HEADER_END else []) + sc.early, Flatten(sc.rest));
    assert [] + Flatten(q) == Flatten(q);
  }

  lemma ParseScannedTail(sc: Scan)
    ensures IsTail(Flatten(ParseScanned(sc).1), Flatten(sc.rest))
    ensures var r := ParseScanned(sc).0;
            r.Raise? ==> r.exc == UnicodeDecodeError || r.exc == ValueError || r.exc == OverflowError
  {
    var q := Flatten(sc.rest);
    assert IsTail(q, q) by { assert q[|q| - |q|..] == q; }
    match Decode(sc.header)
    case None =>
    case Some(headers) =>
      var lines := Split(headers, NEWLINE);
      match HeaderDict(lines[1..])
      case Raise(e) =>
      case Ok(kvs) =>
        var done := CompleteBody(sc.early, kvs, sc.rest);
        CompleteBodyTail(sc.early, kvs, sc.rest);
        assert ParseScanned(sc) == Finish(lines[0], kvs, done);
        FinishTail(lines[0], kvs, done);
  }

  lemma FinishTail(startLine: string, kvs: map<string, string>, done: (Result<seq<byte>>, seq<Chunk>))
    requires done.0.Raise? ==> done.0.exc == ValueError || done.0.exc == OverflowError
    ensures Finish(startLine, kvs, done).1 == done.1
    ensures var r := Finish(startLine, kvs, done).0;
            r.Raise? ==> r.exc == UnicodeDecodeError || r.exc == ValueError || r.exc == OverflowError
  {
  }

  /** Everything after the header loop: decode and split the header block,
      build the header dictionary, complete and decode the body. */
  function ParseScanned(sc: Scan): (Result<Request>, seq<Chunk>)
  {
    match Decode(sc.header)
    case None => (Raise(UnicodeDecodeError), sc.rest)
    case Some(headers) =>
      var lines := Split(headers, NEWLINE);
      match HeaderDict(lines[1..])
      case Raise(e) => (Raise(e), sc.rest)
      case Ok(kvs) => Finish(lines[0], kvs, CompleteBody(sc.early, kvs, sc.rest))
  }

  function Finish(startLine: string, kvs: map<string, string>, done: (Result<seq<byte>>, seq<Chunk>))
    : (Result<Request>, seq<Chunk>)
  {
    match done.0
    case Raise(e) => (Raise(e), done.1)
    case Ok(bytes) =>
      match Decode(bytes)
      case None => (Raise(UnicodeDecodeError), done.1)
      case Some(text) => (NewRequest(startLine, kvs, text), done.1)
  }

  /** `recv_until_crlfs(sock)`, step by step as the source does it: the
      header loop, the header parsing, the body completion, the decoding. */
  method RecvUntilCrlfs(sock: Socket) returns (r: Result<Request>)
    modifies sock
    ensures (r, sock.pending) == Frame(old(sock.pending))
  {
    ghost var sc := ScanHeader(sock.pending, []);
    assert Frame(sock.pending) == ParseScanned(sc);
    var headerData, content, contentBytesRead := RecvHeader(sock);
    var headers := Decode(headerData);
    if headers.None? {
      return Raise(UnicodeDecodeError);
    }
    var headerList := Split(headers.value, NEWLINE);
    var headerKvs := HeaderDict(headerList[1..]);
    if headerKvs.Raise? {
      return Raise(headerKvs.exc);
    }
    var body := RecvBody(sock, content, contentBytesRead, headerKvs.value);
    if body.Raise? {
      return Raise(body.exc);
    }
    var text := Decode(body.value);
    if text.None? {
      return Raise(UnicodeDecodeError);
    }
    r := NewRequest(headerList[0], headerKvs.value, text.value);
  }

  /** The header loop of `recv_until_crlfs` (myServer.py:47-62). */
  method RecvHeader(sock: Socket) returns (headerData: seq<byte>, content: seq<byte>, contentBytesRead: nat)
    modifies sock
    ensures var sc := ScanHeader(old(sock.pending), []);
            headerData == sc.header && content == sc.early && sock.pending == sc.rest
    ensures contentBytesRead == |content|
  {
    headerData, content, contentBytesRead := [], [], 0;
    ghost var sc := ScanHeader(sock.pending, []);
    while true
      invariant ScanHeader(sock.pending, headerData) == sc
      invariant content == [] && contentBytesRead == 0
      decreases |Flatten(sock.pending)|
    {
      ghost var q := sock.pending;
      var data := sock.Recv(BUFF_SIZE);
      if data == [] {
        ScanHeaderClosed(q, headerData);
        break;
      }
      if Contains(data, HEADER_END) {
        var headerEndIdx := Find(data, HEADER_END).value;
        ScanHeaderFound(q, headerData, headerEndIdx);
        headerData := headerData + data[..headerEndIdx];
        contentBytesRead := if |data| - headerEndIdx - 4 > 0 then |data| - headerEndIdx - 4 else 0;
        content := content + data[headerEndIdx + 4..];
        break;
      }
      ScanHeaderMissed(q, headerData);
      headerData := headerData + data;
    }
  }

  /** The body completion of `recv_until_crlfs` (myServer.py:67-78), given
      the body bytes `content` that came with the header. */
  method RecvBody(sock: Socket, content: seq<byte>, contentBytesRead: nat, headerKvs: map<string, string>)
    returns (body: Result<seq<byte>>)
    requires contentBytesRead == |content|
    modifies sock
    ensures (body, sock.pending) == CompleteBody(content, headerKvs, old(sock.pending))
  {
    ghost var q0 := sock.pending;
    var acc := content;
    if contentBytesRead != 0 {
      if "content-length" !in headerKvs {
        while true
          invariant acc + Flatten(sock.pending) == content + Flatten(q0)
          decreases |Flatten(sock.pending)|
        {
          var data := sock.Recv(BUFF_SIZE);
          if data == [] {
            break;
          }
          acc := acc + data;
        }
        assert sock.pending == [] && acc + Flatten(sock.pending) == acc;
        CompleteBodyUntilClosed(content, headerKvs, q0);
        assert CompleteBody(content, headerKvs, q0) == (Ok(acc), sock.pending);
      } else {
        var contentLen := ParseInt(headerKvs["content-length"]);
        if contentLen.None? {
          assert CompleteBody(content, headerKvs, q0) == (Raise(ValueError), q0);
          return Raise(ValueError);
        }
        var toRecv := if contentLen.value - contentBytesRead > 0 then contentLen.value - contentBytesRead else 0;
        if toRecv > SSIZE_MAX {
          // `recv` rejects its size argument before reading anything
          assert CompleteBody(content, headerKvs, q0) == (Raise(OverflowError), q0);
          return Raise(OverflowError);
        }
        var data := sock.Recv(toRecv);
        CompleteBodyDeclared(content, headerKvs, q0, contentLen.value);
        acc := acc + data;
        assert CompleteBody(content, headerKvs, q0) == (Ok(acc), sock.pending);
      }
    } else {
      CompleteBodyNothingEarly(content, headerKvs, q0);
    }
    body := Ok(acc);
  }
}
