/** The line structure shared by requests and responses: CRLF-separated
    lines ending in an empty line (myServer.py:12-17), and where such a block
    ends once it is encoded. */
module Wire {
  import opened Outcomes
  import opened Utf8
  import opened Text

  const BUFF_SIZE: nat := 8192
  const NEWLINE: string := "\r\n"
  /** `(NEWLINE + NEWLINE).encode("utf-8")` */
  const HEADER_END: seq<byte> := [13, 10, 13, 10]

  lemma HeaderEndEncoding()
    ensures Encode(NEWLINE + NEWLINE) == HEADER_END
  {
    EncodeAppend(NEWLINE, NEWLINE);
    EncodeNewline();
  }

  /** Every CR is followed, two bytes on, by a byte other than CR: so no
      CR LF CR LF can start inside the block. */
  predicate CrSpaced(bs: seq<byte>) {
    forall j :: 0 <= j < |bs| && bs[j] == 13 ==> j + 2 < |bs| && bs[j + 2] != 13
  }

  /** A header line as a client writes it: not empty, no CR. */
  predicate PlainLine(l: string) { |l| > 0 && Free(l, '\r') }

  lemma EncodeNewline()
    ensures Encode(NEWLINE) == [13, 10]
  {
    assert NEWLINE[1..] == "\n" && "\n"[1..] == [];
  }

  lemma EncodeFree(l: string)
    requires Free(l, '\r')
    ensures Free(Encode(l), 13)
  {
    assert '\r' !in l;
    EncodeAsciiByte(l, 13);
  }

  /** The encoding of `lines` joined by CRLF: the first line's bytes, then
      CRLF and the rest. */
  lemma EncodeJoinCons(lines: seq<string>)
    requires |lines| >= 2
    ensures Encode(Join(lines, NEWLINE)) == Encode(lines[0]) + [13, 10] + Encode(Join(lines[1..], NEWLINE))
  {
    EncodeAppend(lines[0] + NEWLINE, Join(lines[1..], NEWLINE));
    EncodeAppend(lines[0], NEWLINE);
    EncodeNewline();
  }

  lemma {:induction false} CrSpacedJoin(lines: seq<string>)
    requires |lines| >= 1 && forall k :: 0 <= k < |lines| ==> PlainLine(lines[k])
    ensures CrSpaced(Encode(Join(lines, NEWLINE)))
    ensures |Encode(Join(lines, NEWLINE))| > 0 && Encode(Join(lines, NEWLINE))[0] != 13
  {
    var e0 := Encode(lines[0]);
    EncodeFree(lines[0]);
    if |lines| == 1 {
    } else {
      var r := Encode(Join(lines[1..], NEWLINE));
      CrSpacedJoin(lines[1..]);
      EncodeJoinCons(lines);
      var bs := e0 + [13, 10] + r;
      forall j | 0 <= j < |bs| ensures bs[j] == 13 ==> j + 2 < |bs| && bs[j + 2] != 13 {
        if j < |e0| {
          assert bs[j] == e0[j];
        } else if j == |e0| {
          assert bs[j + 2] == r[0];
        } else if j > |e0| + 1 {
          assert bs[j] == r[j - |e0| - 2];
          if bs[j] == 13 {
            assert bs[j + 2] == r[j - |e0|];
          }
        }
      }
    }
  }

  /** In a CR-spaced block followed by CRLF CRLF, the first terminator is the
      one right after the block. */
  lemma FindAfterBlock(bs: seq<byte>, tail: seq<byte>)
    requires CrSpaced(bs)
    ensures Find(bs + HEADER_END + tail, HEADER_END) == Some(|bs|)
  {
    var s := bs + HEADER_END + tail;
    assert OccursAt(s, |bs|, HEADER_END) by { assert s[|bs|..|bs| + 4] == HEADER_END; }
    forall j | 0 <= j < |bs| ensures !OccursAt(s, j, HEADER_END) {
      assert s[j] == bs[j];
      if bs[j] == 13 {
        assert s[j + 2] == bs[j + 2];
        assert s[j..j + 4][2] == s[j + 2];
      } else {
        assert s[j..j + 4][0] == s[j];
      }
    }
  }


  /** A block of plain lines joined by CRLF and closed by CRLF CRLF is found
      again, decoded and split back into the same lines. */
  lemma BlockRoundTrip(lines: seq<string>, tail: seq<byte>)
    requires |lines| >= 1 && forall k :: 0 <= k < |lines| ==> PlainLine(lines[k])
    ensures var head := Encode(Join(lines, NEWLINE));
            var bs := head + HEADER_END + tail;
            && Find(bs, HEADER_END) == Some(|head|)
            && bs[..|head|] == head && bs[|head| + 4..] == tail
            && Decode(head) == Some(Join(lines, NEWLINE))
            && Split(Join(lines, NEWLINE), NEWLINE) == lines
  {
    var head := Encode(Join(lines, NEWLINE));
    var bs := head + HEADER_END + tail;
    CrSpacedJoin(lines);
    FindAfterBlock(head, tail);
    assert bs[..|head|] == head && bs[|head| + 4..] == tail;
    DecodeEncode(Join(lines, NEWLINE));
    forall k | 0 <= k < |lines| ensures Free(lines[k], NEWLINE[0]) {
      assert PlainLine(lines[k]);
    }
    SplitJoin(lines, NEWLINE);
  }
}
