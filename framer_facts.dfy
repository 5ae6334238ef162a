/** What `recv_until_crlfs` makes of well-formed requests, and of the ways
    the segments of a request can arrive. */
module FramerFacts {
  import opened Outcomes
  import opened Utf8
  import opened Text
  import opened Requests
  import opened Wire
  import opened Framer

  // ---------------------------------------------------------------------
  // The header loop over whole streams

  /** If no read contains the terminator, the loop runs to the end of the
      stream: every byte is header and no body byte has been seen. */
  lemma {:induction false} ScanWithoutTerminator(q: seq<Chunk>, acc: seq<byte>)
    requires forall k :: 0 <= k < |q| ==> |q[k]| <= BUFF_SIZE && !Contains(q[k], HEADER_END)
    ensures ScanHeader(q, acc) == Scan(acc + Flatten(q), [], false, [])
  {
    if q == [] {
      ScanHeaderClosed(q, acc);
    } else {
      ScanHeaderMissed(q, acc);
      ScanWithoutTerminator(q[1..], acc + q[0]);
      assert acc + q[0] + Flatten(q[1..]) == acc + Flatten(q);
    }
  }

  /** The first read that contains the terminator ends the loop: the header
      is every earlier read plus what precedes the terminator's first
      occurrence in that read, and the early body is what follows it there. */
  lemma {:induction false} ScanFirstHit(q: seq<Chunk>, acc: seq<byte>, k: nat, i: nat)
    requires k < |q| && forall j :: 0 <= j < |q| ==> |q[j]| <= BUFF_SIZE
    requires forall j :: 0 <= j < k ==> !Contains(q[j], HEADER_END)
    requires Find(q[k], HEADER_END) == Some(i)
    ensures ScanHeader(q, acc) == Scan(acc + Flatten(q[..k]) + q[k][..i], q[k][i + 4..], true, q[k + 1..])
  {
    if k == 0 {
      ScanHeaderFound(q, acc, i);
      assert acc + Flatten(q[..0]) == acc;
    } else {
      ScanHeaderMissed(q, acc);
      assert q[1..][..k - 1] == q[..k][1..];
      ScanFirstHit(q[1..], acc + q[0], k - 1, i);
      assert acc + Flatten(q[..k]) == acc + q[0] + Flatten(q[1..][..k - 1]) by {
        assert q[..k] == [q[0]] + q[1..][..k - 1];
        FlattenCons(q[0], q[1..][..k - 1]);
      }
    }
  }

  // ---------------------------------------------------------------------
  // Requests whose header block arrives in one read

  /** A header field as a client writes it: an ASCII name without colon or
      CR, a value without CR. */
  predicate PlainField(f: (string, string)) {
    IsAscii(f.0) && Free(f.0, ':') && Free(f.0, '\r') && Free(f.1, '\r')
  }

  /** The header block of a request: the start line and the `name:value`
      lines, joined by CRLF. */
  function HeadText(startLine: string, fields: seq<(string, string)>): string
  {
    Join([startLine] + PairLines(fields, ":"), NEWLINE)
  }

  /** A `content-length` field, when there is one, is a number small enough
      for `recv`. */
  predicate LengthReadable(kvs: map<string, string>) {
    "content-length" in kvs ==> ParseInt(kvs["content-length"]).Some? && ParseInt(kvs["content-length"]).value <= SSIZE_MAX
  }

  /** The block decodes, splits back into its lines and parses into the
      dictionary of its fields. */
  lemma ParseHead(startLine: string, fields: seq<(string, string)>)
    requires PlainLine(startLine) && forall k :: 0 <= k < |fields| ==> PlainField(fields[k])
    ensures var lines := [startLine] + PairLines(fields, ":");
            && CrSpaced(Encode(HeadText(startLine, fields)))
            && Decode(Encode(HeadText(startLine, fields))) == Some(HeadText(startLine, fields))
            && Split(HeadText(startLine, fields), NEWLINE) == lines
            && HeaderDict(lines[1..]) == Ok(FieldDict(fields))
  {
    var lines := [startLine] + PairLines(fields, ":");
    HeadLinesPlain(startLine, fields);
    CrSpacedJoin(lines);
    DecodeEncode(HeadText(startLine, fields));
    SplitJoin(lines, NEWLINE);
    forall i | 0 <= i < |fields| ensures Free(fields[i].0, ':') {
      assert PlainField(fields[i]);
    }
    HeaderDictOfFields(fields);
    assert lines[1..] == PairLines(fields, ":");
  }

  lemma HeadLinesPlain(startLine: string, fields: seq<(string, string)>)
    requires PlainLine(startLine) && forall k :: 0 <= k < |fields| ==> PlainField(fields[k])
    ensures var lines := [startLine] + PairLines(fields, ":");
            forall k :: 0 <= k < |lines| ==> PlainLine(lines[k]) && Free(lines[k], NEWLINE[0])
  {
    var lines := [startLine] + PairLines(fields, ":");
    forall k | 0 <= k < |lines| ensures PlainLine(lines[k]) && Free(lines[k], NEWLINE[0]) {
      if k > 0 {
        assert lines[k] == PairLines(fields, ":")[k - 1];
        FieldLinePlain(fields[k - 1]);
      }
    }
  }

  lemma FieldLinePlain(f: (string, string))
    requires PlainField(f)
    ensures PlainLine(f.0 + ":" + f.1)
  {
    var l := f.0 + ":" + f.1;
    forall i | 0 <= i < |l| ensures l[i] != '\r' {
      if i < |f.0| {
        assert l[i] == f.0[i];
      } else if i > |f.0| {
        assert l[i] == f.1[i - |f.0| - 1];
      }
    }
  }

  /** The segment `head CRLF CRLF body` read in one piece, followed by `rest`,
      is parsed as its header block with `body` as the early body. */
  lemma FrameHeadRead(startLine: string, fields: seq<(string, string)>, early: seq<byte>, rest: seq<Chunk>)
    requires PlainLine(startLine) && forall k :: 0 <= k < |fields| ==> PlainField(fields[k])
    requires |Encode(HeadText(startLine, fields))| + 4 + |early| <= BUFF_SIZE
    ensures var seg: Chunk := Encode(HeadText(startLine, fields)) + HEADER_END + early;
            Frame([seg] + rest)
            == Finish(startLine, FieldDict(fields), CompleteBody(early, FieldDict(fields), rest))
  {
    var head := Encode(HeadText(startLine, fields));
    var seg: Chunk := head + HEADER_END + early;
    var q := [seg] + rest;
    ParseHead(startLine, fields);
    FindAfterBlock(head, early);
    assert RecvSpec(q, BUFF_SIZE) == (seg, rest);
    ScanHeaderFound(q, [], |head|);
    assert seg[..|head|] == head && seg[|head| + 4..] == early;
    var sc := ScanHeader(q, []);
    assert sc == Scan(head, early, true, rest);
    assert ([startLine] + PairLines(fields, ":"))[0] == startLine;
  }

  /** Round trip for a request sent in one read: the method and path of its
      start line, the dictionary of its fields (names lower-cased, later
      fields winning) and its body come back, and nothing is left unread. */
  lemma FrameOneRead(verb: string, target: string, version: string, fields: seq<(string, string)>, body: string)
    requires IsWord(verb) && IsWord(target) && IsWord(version)
    requires var startLine := verb + " " + target + " " + version;
             PlainLine(startLine) && forall k :: 0 <= k < |fields| ==> PlainField(fields[k])
    requires |Encode(HeadText(verb + " " + target + " " + version, fields))| + 4 + |Encode(body)| <= BUFF_SIZE
    requires LengthReadable(FieldDict(fields))
    ensures var seg: Chunk := Encode(HeadText(verb + " " + target + " " + version, fields)) + HEADER_END + Encode(body);
            Frame([seg]) == (Ok(Request(verb, target[1..], FieldDict(fields), body)), [])
  {
    var startLine := verb + " " + target + " " + version;
    var kvs := FieldDict(fields);
    var early := Encode(body);
    var seg: Chunk := Encode(HeadText(startLine, fields)) + HEADER_END + early;
    FrameHeadRead(startLine, fields, early, []);
    assert [seg] + [] == [seg];
    CompleteBodyAllArrived(early, kvs);
    DecodeEncode(body);
    FinishOk(startLine, kvs, early, []);
    NewRequestOfStartLine(verb, target, version, kvs, body);
  }

  lemma CompleteBodyAllArrived(early: seq<byte>, kvs: map<string, string>)
    requires LengthReadable(kvs)
    ensures CompleteBody(early, kvs, []) == (Ok(early), [])
  {
    if early != [] && "content-length" !in kvs {
      CompleteBodyUntilClosed(early, kvs, []);
      assert early + Flatten([]) == early;
    } else if early != [] {
      var n := ParseInt(kvs["content-length"]).value;
      CompleteBodyDeclared(early, kvs, [], n);
      assert RecvSpec([], if n - |early| > 0 then n - |early| else 0) == ([], []);
      assert early + [] == early;
    }
  }

  lemma FinishOk(startLine: string, kvs: map<string, string>, bytes: seq<byte>, rest: seq<Chunk>)
    requires Decode(bytes).Some?
    ensures Finish(startLine, kvs, (Ok(bytes), rest)) == (NewRequest(startLine, kvs, Decode(bytes).value), rest)
  {
  }

  /** When the body comes in the read after the header block, with a correct
      `content-length`, that one further read completes it. */
  lemma FrameBodyNextRead(startLine: string, fields: seq<(string, string)>, body: string, b1: seq<byte>, b2: Chunk)
    requires PlainLine(startLine) && forall j :: 0 <= j < |fields| ==> PlainField(fields[j])
    requires Encode(body) == b1 + b2 && b1 != []
    requires |Encode(HeadText(startLine, fields))| + 4 + |b1| <= BUFF_SIZE
    requires "content-length" in FieldDict(fields)
    requires ParseInt(FieldDict(fields)["content-length"]) == Some(|b1| + |b2|) && |b2| <= SSIZE_MAX
    ensures var seg: Chunk := Encode(HeadText(startLine, fields)) + HEADER_END + b1;
            Frame([seg, b2]) == (NewRequest(startLine, FieldDict(fields), body), [])
  {
    var kvs := FieldDict(fields);
    var seg: Chunk := Encode(HeadText(startLine, fields)) + HEADER_END + b1;
    FrameHeadRead(startLine, fields, b1, [b2]);
    assert [seg] + [b2] == [seg, b2];
    CompleteBodyRest(b1, b2, kvs);
    DecodeEncode(body);
    FinishOk(startLine, kvs, b1 + b2, []);
  }

  /** The one further read takes the whole of the next segment when the
      declared length asks for at least that much. */
  lemma CompleteBodyRest(early: seq<byte>, next: Chunk, kvs: map<string, string>)
    requires early != [] && "content-length" in kvs
    requires ParseInt(kvs["content-length"]) == Some(|early| + |next|) && |next| <= SSIZE_MAX
    ensures CompleteBody(early, kvs, [next]) == (Ok(early + next), [])
  {
    CompleteBodyDeclared(early, kvs, [next], |early| + |next|);
    assert RecvSpec([next], |next|) == (next, []);
  }

  /** The declared length is honoured with ONE further read: a body that
      needs two more reads loses the second, which stays unread. */
  lemma FrameBodyTruncated(startLine: string, fields: seq<(string, string)>, b1: seq<byte>, b2: Chunk, b3: Chunk)
    requires PlainLine(startLine) && forall j :: 0 <= j < |fields| ==> PlainField(fields[j])
    requires b1 != [] && |Encode(HeadText(startLine, fields))| + 4 + |b1| <= BUFF_SIZE
    requires "content-length" in FieldDict(fields)
    requires ParseInt(FieldDict(fields)["content-length"]) == Some(|b1| + |b2| + |b3|) && |b2| + |b3| <= SSIZE_MAX
    ensures var seg: Chunk := Encode(HeadText(startLine, fields)) + HEADER_END + b1;
            var r := Frame([seg, b2, b3]);
            r.1 == [b3] && (r.0.Ok? ==> Encode(r.0.value.content) == b1 + b2)
  {
    var kvs := FieldDict(fields);
    var seg: Chunk := Encode(HeadText(startLine, fields)) + HEADER_END + b1;
    FrameHeadRead(startLine, fields, b1, [b2, b3]);
    assert [seg] + [b2, b3] == [seg, b2, b3];
    CompleteBodyTwoMore(b1, b2, b3, kvs);
    if Decode(b1 + b2).Some? {
      EncodeDecode(b1 + b2);
      FinishOk(startLine, kvs, b1 + b2, [b3]);
    }
  }

  lemma CompleteBodyTwoMore(b1: seq<byte>, b2: Chunk, b3: Chunk, kvs: map<string, string>)
    requires b1 != [] && "content-length" in kvs
    requires ParseInt(kvs["content-length"]) == Some(|b1| + |b2| + |b3|) && |b2| + |b3| <= SSIZE_MAX
    ensures CompleteBody(b1, kvs, [b2, b3]) == (Ok(b1 + b2), [b3])
  {
    CompleteBodyDeclared(b1, kvs, [b2, b3], |b1| + |b2| + |b3|);
    assert RecvSpec([b2, b3], |b2| + |b3|) == (b2, [b3]);
  }

  /** Nothing after the terminator in its own read: no further read is made,
      so a body sent in a later read is not read at all, whatever
      `content-length` says. */
  lemma FrameBodyNotRead(startLine: string, fields: seq<(string, string)>, later: Chunk)
    requires PlainLine(startLine) && forall j :: 0 <= j < |fields| ==> PlainField(fields[j])
    requires |Encode(HeadText(startLine, fields))| + 4 <= BUFF_SIZE
    ensures var seg: Chunk := Encode(HeadText(startLine, fields)) + HEADER_END;
            Frame([seg, later]) == (NewRequest(startLine, FieldDict(fields), ""), [later])
  {
    var head := Encode(HeadText(startLine, fields));
    FrameHeadRead(startLine, fields, [], [later]);
    assert head + HEADER_END + [] == head + HEADER_END;
    CompleteBodyNothingEarly([], FieldDict(fields), [later]);
    assert Decode([]) == Some("");
    FinishOk(startLine, FieldDict(fields), [], [later]);
  }

  /** A terminator split between two reads is not seen: the blank line ends
      up among the header lines, which fails the `to_tuple` unpacking. */
  lemma TerminatorAcrossReads(startLine: string)
    requires PlainLine(startLine) && |Encode(startLine)| + 4 <= BUFF_SIZE
    ensures var first: Chunk := Encode(startLine) + [13, 10, 13];
            Frame([first, [10]]) == (Raise(ValueError), [])
  {
    var e := Encode(startLine);
    var first: Chunk := e + [13, 10, 13];
    var q := [first, [10]];
    EncodeFree(startLine);
    FirstReadOpen(e);
    assert !Contains([10], HEADER_END);
    ScanWithoutTerminator(q, []);
    assert Flatten(q) == e + HEADER_END by {
      FlattenCons(first, [[10]]);
      FlattenCons([10], []);
      assert q == [first] + [[10]] && [[10]] == [[10]] + [];
    }
    assert [] + (e + HEADER_END) == e + HEADER_END;
    BlankLineBlock(startLine);
    assert !Contains("", ":");
  }

  /** Plain bytes then CR LF CR hold no terminator. */
  lemma FirstReadOpen(e: seq<byte>)
    requires Free(e, 13)
    ensures !Contains(e + [13, 10, 13], HEADER_END)
  {
    var first := e + [13, 10, 13];
    forall j | 0 <= j <= |first| ensures !OccursAt(first, j, HEADER_END) {
      if j < |e| && j + 4 <= |first| {
        assert first[j..j + 4][0] == e[j];
      }
    }
  }

  /** The bytes of a start line followed by CRLF CRLF, taken as a header
      block, hold two empty header lines. */
  lemma BlankLineBlock(startLine: string)
    requires PlainLine(startLine)
    ensures Decode(Encode(startLine) + HEADER_END) == Some(startLine + NEWLINE + NEWLINE)
    ensures Split(startLine + NEWLINE + NEWLINE, NEWLINE) == [startLine, "", ""]
  {
    var text := startLine + NEWLINE + NEWLINE;
    var lines := [startLine, "", ""];
    assert Join(lines, NEWLINE) == text by {
      assert lines[1..] == ["", ""] && lines[1..][1..] == [""];
      assert Join(lines[1..], NEWLINE) == NEWLINE;
    }
    assert Encode(text) == Encode(startLine) + HEADER_END by {
      EncodeAppend(startLine + NEWLINE, NEWLINE);
      EncodeAppend(startLine, NEWLINE);
      EncodeNewline();
    }
    DecodeEncode(text);
    SplitJoin(lines, NEWLINE);
  }

  /** The same bytes in one read frame without error, as a request without
      header fields or body. */
  lemma TerminatorInOneRead(startLine: string)
    requires PlainLine(startLine) && |Encode(startLine)| + 4 <= BUFF_SIZE
    ensures var whole: Chunk := Encode(startLine) + HEADER_END;
            Frame([whole]) == (NewRequest(startLine, map[], ""), [])
  {
    assert HeadText(startLine, []) == startLine by {
      assert [startLine] + PairLines([], ":") == [startLine];
    }
    FrameBodyNotReadEmpty(startLine);
  }

  lemma FrameBodyNotReadEmpty(startLine: string)
    requires PlainLine(startLine) && |Encode(startLine)| + 4 <= BUFF_SIZE
    requires HeadText(startLine, []) == startLine
    ensures var whole: Chunk := Encode(startLine) + HEADER_END;
            Frame([whole]) == (NewRequest(startLine, map[], ""), [])
  {
    var whole: Chunk := Encode(startLine) + HEADER_END;
    FrameHeadRead(startLine, [], [], []);
    assert [whole] + [] == [whole] && Encode(startLine) + HEADER_END + [] == whole;
    CompleteBodyNothingEarly([], map[], []);
    assert Decode([]) == Some("");
    FinishOk(startLine, map[], [], []);
  }

  /** A declared length of more than 4300 digits is refused by `int()`,
      leading zeros included, so a body that began in the terminator's read
      fails with ValueError and nothing more is read. */
  lemma CompleteBodyLongLength(early: seq<byte>, kvs: map<string, string>, q: seq<Chunk>)
    requires early != [] && "content-length" in kvs
    requires |kvs["content-length"]| > INT_MAX_STR_DIGITS
    requires forall i :: 0 <= i < |kvs["content-length"]| ==> IsDigit(kvs["content-length"][i])
    ensures CompleteBody(early, kvs, q) == (Raise(ValueError), q)
  {
    ParseIntTooLong(kvs["content-length"]);
  }
}
