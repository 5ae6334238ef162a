/** Bytes and the UTF-8 codec the server relies on.

    `str.encode("utf-8")`, `bytes.decode("utf-8")` (strict) and the
    `errors="replace"` decoder used by `unquote_plus` are written out here, so
    that the model can tell characters from bytes (the server's Content-Length
    counts characters of a text body, the wire carries its UTF-8 bytes).
    Characters are Dafny `char`s, i.e. Unicode scalar values. */
module Utf8 {
  import opened Outcomes

  newtype byte = x: int | 0 <= x < 256

  predicate IsCont(b: byte) { 0x80 <= b < 0xC0 }

  /** The UTF-8 encoding of one scalar value. */
  function EncodeChar(c: char): (bs: seq<byte>)
    ensures 1 <= |bs| <= 4
    ensures |bs| == 1 <==> c as int < 0x80
    ensures |bs| == 1 ==> bs[0] as int == c as int
    ensures |bs| > 1 ==> forall i :: 0 <= i < |bs| ==> bs[i] >= 0x80
  {
    var n := c as int;
    if n < 0x80 then [n as byte]
    else if n < 0x800 then [(0xC0 + n / 64) as byte, (0x80 + n % 64) as byte]
    else if n < 0x10000 then
      [(0xE0 + n / 4096) as byte, (0x80 + (n / 64) % 64) as byte, (0x80 + n % 64) as byte]
    else
      [(0xF0 + n / 262144) as byte, (0x80 + (n / 4096) % 64) as byte,
       (0x80 + (n / 64) % 64) as byte, (0x80 + n % 64) as byte]
  }

  /** `s.encode("utf-8")` */
  function Encode(s: string): (bs: seq<byte>)
    ensures |bs| >= |s|
  {
    if s == [] then [] else EncodeChar(s[0]) + Encode(s[1..])
  }

  /** One step of CPython's UTF-8 decoder: either a character and the number
      of bytes it took, or an ill-formed sequence and the length of its
      maximal valid prefix (never 0), which is what one U+FFFD replaces. */
  datatype Step = Char(c: char, len: nat) | Invalid(len: nat)

  function DecodeStep(bs: seq<byte>): (st: Step)
    requires |bs| > 0
    ensures 1 <= st.len <= |bs|
    ensures st.Char? && st.len == 1 <==> bs[0] < 0x80
    ensures st.Char? && st.len == 1 ==> st.c as int == bs[0] as int
  {
    var b0 := bs[0] as int;
    if b0 < 0x80 then Char(b0 as char, 1)
    else if b0 < 0xC2 then Invalid(1)
    else if b0 < 0xE0 then
      if |bs| < 2 || !IsCont(bs[1]) then Invalid(1)
      else Char(((b0 - 0xC0) * 64 + (bs[1] as int - 0x80)) as char, 2)
    else if b0 < 0xF0 then
      var lo: byte := if b0 == 0xE0 then 0xA0 else 0x80;
      var hi: byte := if b0 == 0xED then 0x9F else 0xBF;
      if |bs| < 2 || !(lo <= bs[1] <= hi) then Invalid(1)
      else if |bs| < 3 || !IsCont(bs[2]) then Invalid(2)
      else Char(((b0 - 0xE0) * 4096 + (bs[1] as int - 0x80) * 64 + (bs[2] as int - 0x80)) as char, 3)
    else if b0 < 0xF5 then
      var lo: byte := if b0 == 0xF0 then 0x90 else 0x80;
      var hi: byte := if b0 == 0xF4 then 0x8F else 0xBF;
      if |bs| < 2 || !(lo <= bs[1] <= hi) then Invalid(1)
      else if |bs| < 3 || !IsCont(bs[2]) then Invalid(2)
      else if |bs| < 4 || !IsCont(bs[3]) then Invalid(3)
      else Char(((b0 - 0xF0) * 262144 + (bs[1] as int - 0x80) * 4096
                 + (bs[2] as int - 0x80) * 64 + (bs[3] as int - 0x80)) as char, 4)
    else Invalid(1)
  }

  /** `bs.decode("utf-8")`: the decoded text, or None where Python raises
      UnicodeDecodeError. */
  function Decode(bs: seq<byte>): (r: Option<string>)
    ensures r.Some? ==> |r.value| <= |bs|
    decreases |bs|
  {
    if bs == [] then Some([])
    else match DecodeStep(bs)
      case Invalid(_) => None
      case Char(c, k) =>
        match Decode(bs[k..])
        case None => None
        case Some(t) => Some([c] + t)
  }

  /** `bs.decode("utf-8", errors="replace")` */
  function DecodeReplace(bs: seq<byte>): (s: string)
    ensures |s| <= |bs|
    decreases |bs|
  {
    if bs == [] then []
    else match DecodeStep(bs)
      case Invalid(k) => ['�'] + DecodeReplace(bs[k..])
      case Char(c, k) => [c] + DecodeReplace(bs[k..])
  }

  predicate IsAscii(s: string) { forall i :: 0 <= i < |s| ==> s[i] as int < 0x80 }

  // ---------------------------------------------------------------------
  // Properties

  lemma {:induction false} EncodeAppend(a: string, b: string)
    ensures Encode(a + b) == Encode(a) + Encode(b)
  {
    if a == [] {
      assert a + b == b;
    } else {
      assert (a + b)[1..] == a[1..] + b;
      EncodeAppend(a[1..], b);
    }
  }

  /** The decoder reads back exactly the bytes the encoder wrote for one character. */
  lemma DecodeStepEncodeChar(c: char, rest: seq<byte>)
    ensures DecodeStep(EncodeChar(c) + rest) == Char(c, |EncodeChar(c)|)
  {
    var n := c as int;
    if n < 0x80 {
    } else if n < 0x800 {
      DecodeStepTwo(c, rest);
    } else if n < 0x10000 {
      DecodeStepThree(c, rest);
    } else {
      DecodeStepFour(c, rest);
    }
  }

  lemma DecodeStepTwo(c: char, rest: seq<byte>)
    requires 0x80 <= c as int < 0x800
    ensures DecodeStep(EncodeChar(c) + rest) == Char(c, 2)
  {
    var n := c as int;
    var b0, b1 := 0xC0 + n / 64, 0x80 + n % 64;
    var bs := EncodeChar(c) + rest;
    assert bs[0] as int == b0 && bs[1] as int == b1;
    assert 0xC2 <= b0 < 0xE0 && IsCont(bs[1]);
    assert (b0 - 0xC0) * 64 + (b1 - 0x80) == n;
  }

  lemma DecodeStepThree(c: char, rest: seq<byte>)
    requires 0x800 <= c as int < 0x10000
    ensures DecodeStep(EncodeChar(c) + rest) == Char(c, 3)
  {
    var n := c as int;
    var b0, b1, b2 := 0xE0 + n / 4096, 0x80 + (n / 64) % 64, 0x80 + n % 64;
    var bs := EncodeChar(c) + rest;
    assert bs[0] as int == b0 && bs[1] as int == b1 && bs[2] as int == b2;
    assert 0xE0 <= b0 < 0xF0;
    assert b0 == 0xE0 ==> 0xA0 <= b1;
    assert b0 == 0xED ==> b1 <= 0x9F;
    assert (b0 - 0xE0) * 4096 + (b1 - 0x80) * 64 + (b2 - 0x80) == n;
  }

  lemma DecodeStepFour(c: char, rest: seq<byte>)
    requires 0x10000 <= c as int
    ensures DecodeStep(EncodeChar(c) + rest) == Char(c, 4)
  {
    var n := c as int;
    var b0, b1 := 0xF0 + n / 262144, 0x80 + (n / 4096) % 64;
    var b2, b3 := 0x80 + (n / 64) % 64, 0x80 + n % 64;
    var bs := EncodeChar(c) + rest;
    assert bs[0] as int == b0 && bs[1] as int == b1 && bs[2] as int == b2 && bs[3] as int == b3;
    assert 0xF0 <= b0 < 0xF5;
    assert b0 == 0xF0 ==> 0x90 <= b1;
    assert b0 == 0xF4 ==> b1 <= 0x8F;
    Digits4(n);
  }

  /** A code point is the sum of its four base-64 digits. */
  lemma Digits4(n: int)
    requires 0 <= n
    ensures (n / 262144) * 262144 + ((n / 4096) % 64) * 4096 + ((n / 64) % 64) * 64 + n % 64 == n
  {
    var q1, q2, q3 := n / 64, n / 4096, n / 262144;
    assert q2 == q1 / 64;
    assert q3 == q2 / 64;
    assert n == 64 * q1 + n % 64;
    assert q1 == 64 * q2 + q1 % 64;
    assert q2 == 64 * q3 + q2 % 64;
  }

  /** A character the decoder accepts was encoded exactly as the encoder would. */
  lemma EncodeCharOfStep(bs: seq<byte>)
    requires |bs| > 0 && DecodeStep(bs).Char?
    ensures EncodeChar(DecodeStep(bs).c) == bs[..DecodeStep(bs).len]
  {
    var st := DecodeStep(bs);
    if st.len == 2 {
      EncodeCharTwo(bs[0], bs[1]);
    } else if st.len == 3 {
      EncodeCharThree(bs[0], bs[1], bs[2]);
    } else if st.len == 4 {
      EncodeCharFour(bs[0], bs[1], bs[2], bs[3]);
    }
  }

  lemma EncodeCharTwo(b0: byte, b1: byte)
    requires 0xC2 <= b0 < 0xE0 && IsCont(b1)
    ensures EncodeChar(((b0 as int - 0xC0) * 64 + (b1 as int - 0x80)) as char) == [b0, b1]
  {
    var n := (b0 as int - 0xC0) * 64 + (b1 as int - 0x80);
    assert n / 64 == b0 as int - 0xC0 && n % 64 == b1 as int - 0x80;
  }

  lemma EncodeCharThree(b0: byte, b1: byte, b2: byte)
    requires 0xE0 <= b0 < 0xF0 && IsCont(b1) && IsCont(b2)
    requires b0 == 0xE0 ==> 0xA0 <= b1
    requires b0 == 0xED ==> b1 <= 0x9F
    ensures EncodeChar(((b0 as int - 0xE0) * 4096 + (b1 as int - 0x80) * 64 + (b2 as int - 0x80)) as char)
         == [b0, b1, b2]
  {
    var n := (b0 as int - 0xE0) * 4096 + (b1 as int - 0x80) * 64 + (b2 as int - 0x80);
    assert n / 4096 == b0 as int - 0xE0;
    assert n / 64 == (b0 as int - 0xE0) * 64 + (b1 as int - 0x80);
    assert (n / 64) % 64 == b1 as int - 0x80 && n % 64 == b2 as int - 0x80;
  }

  lemma EncodeCharFour(b0: byte, b1: byte, b2: byte, b3: byte)
    requires 0xF0 <= b0 < 0xF5 && IsCont(b1) && IsCont(b2) && IsCont(b3)
    requires b0 == 0xF0 ==> 0x90 <= b1
    requires b0 == 0xF4 ==> b1 <= 0x8F
    ensures EncodeChar(((b0 as int - 0xF0) * 262144 + (b1 as int - 0x80) * 4096
                        + (b2 as int - 0x80) * 64 + (b3 as int - 0x80)) as char) == [b0, b1, b2, b3]
  {
    var n := (b0 as int - 0xF0) * 262144 + (b1 as int - 0x80) * 4096 + (b2 as int - 0x80) * 64 + (b3 as int - 0x80);
    assert n / 262144 == b0 as int - 0xF0;
    assert n / 4096 == (b0 as int - 0xF0) * 64 + (b1 as int - 0x80);
    assert n / 64 == (b0 as int - 0xF0) * 4096 + (b1 as int - 0x80) * 64 + (b2 as int - 0x80);
    assert (n / 4096) % 64 == b1 as int - 0x80;
    assert (n / 64) % 64 == b2 as int - 0x80 && n % 64 == b3 as int - 0x80;
  }

  /** Strict decoding and encoding are inverse: `bs.decode() == s` exactly
      when `s.encode() == bs`. */
  lemma {:induction false} DecodeIffEncode(bs: seq<byte>, s: string)
    ensures Decode(bs) == Some(s) <==> Encode(s) == bs
    decreases |bs|
  {
    if Encode(s) == bs {
      DecodeEncode(s);
    }
    if Decode(bs) == Some(s) {
      EncodeDecode(bs);
    }
  }

  lemma {:induction false} DecodeEncode(s: string)
    ensures Decode(Encode(s)) == Some(s)
  {
    if s != [] {
      var e := EncodeChar(s[0]);
      DecodeStepEncodeChar(s[0], Encode(s[1..]));
      assert (e + Encode(s[1..]))[|e|..] == Encode(s[1..]);
      DecodeEncode(s[1..]);
      assert [s[0]] + s[1..] == s;
    }
  }

  lemma {:induction false} EncodeDecode(bs: seq<byte>)
    requires Decode(bs).Some?
    ensures Encode(Decode(bs).value) == bs
    decreases |bs|
  {
    if bs != [] {
      DecodeCons(bs);
      var st := DecodeStep(bs);
      var t := Decode(bs[st.len..]).value;
      EncodeCharOfStep(bs);
      EncodeDecode(bs[st.len..]);
      Reassemble(bs, st.len, st.c, t);
    }
  }

  lemma Reassemble(bs: seq<byte>, k: nat, c: char, t: string)
    requires k <= |bs| && EncodeChar(c) == bs[..k] && Encode(t) == bs[k..]
    ensures Encode([c] + t) == bs
  {
    EncodeCons(c, t);
    assert bs == bs[..k] + bs[k..];
  }

  lemma DecodeCons(bs: seq<byte>)
    requires bs != [] && Decode(bs).Some?
    ensures DecodeStep(bs).Char? && Decode(bs[DecodeStep(bs).len..]).Some?
    ensures Decode(bs).value == [DecodeStep(bs).c] + Decode(bs[DecodeStep(bs).len..]).value
  {
  }

  lemma EncodeCons(c: char, t: string)
    ensures Encode([c] + t) == EncodeChar(c) + Encode(t)
  {
    assert ([c] + t)[0] == c && ([c] + t)[1..] == t;
  }

  /** The replacing decoder agrees with the strict one wherever the latter succeeds. */
  lemma {:induction false} DecodeReplaceAgrees(bs: seq<byte>)
    requires Decode(bs).Some?
    ensures DecodeReplace(bs) == Decode(bs).value
    decreases |bs|
  {
    if bs != [] {
      DecodeReplaceAgrees(bs[DecodeStep(bs).len..]);
    }
  }

  /** ASCII text is encoded byte for byte. */
  lemma {:induction false} EncodeAscii(s: string)
    requires IsAscii(s)
    ensures |Encode(s)| == |s|
    ensures forall i :: 0 <= i < |s| ==> Encode(s)[i] as int == s[i] as int
  {
    if s != [] {
      EncodeAscii(s[1..]);
    }
  }

  /** A text is as long in bytes as in characters exactly when it is ASCII;
      otherwise it is strictly longer in bytes. */
  lemma {:induction false} EncodeLength(s: string)
    ensures |Encode(s)| == |s| <==> IsAscii(s)
  {
    if s != [] {
      EncodeLength(s[1..]);
      assert IsAscii(s) <==> s[0] as int < 0x80 && IsAscii(s[1..]);
    }
  }

  /** No text is longer in characters than in bytes. */
  lemma {:induction false} EncodeLengthAtLeast(s: string)
    ensures |Encode(s)| >= |s|
  {
    if s != [] {
      EncodeLengthAtLeast(s[1..]);
    }
  }

  /** A byte below 0x80 in an encoding stands for the very same ASCII character:
      multi-byte sequences consist of bytes 0x80 and above only. */
  lemma {:induction false} EncodeAsciiByte(s: string, b: byte)
    requires b < 0x80
    ensures b in Encode(s) <==> (b as int) as char in s
  {
    if s != [] {
      EncodeAsciiByte(s[1..], b);
      assert Encode(s) == EncodeChar(s[0]) + Encode(s[1..]);
      assert s == [s[0]] + s[1..];
    }
  }
}
