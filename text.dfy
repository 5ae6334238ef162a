/** The string and bytes built-ins the server calls, over Dafny sequences:
    `in`/`find`, `split(sep)`, `split(sep, 1)`, `split()`, `join`, `lower()`,
    `strip()`, `int()`, f-string formatting of an int, and the newline
    translation of a file opened in text mode. */
module Text {
  import opened Outcomes

  // ---------------------------------------------------------------------
  // Searching: `pat in s` and `s.find(pat)`

  predicate OccursAt<T(==)>(s: seq<T>, i: int, pat: seq<T>) {
    0 <= i && i + |pat| <= |s| && s[i..i + |pat|] == pat
  }

  predicate Contains<T(==)>(s: seq<T>, pat: seq<T>) {
    exists i :: 0 <= i <= |s| && OccursAt(s, i, pat)
  }

  function FindFrom<T(==)>(s: seq<T>, pat: seq<T>, from: nat): (r: Option<nat>)
    requires from <= |s|
    ensures r.Some? ==> from <= r.value && OccursAt(s, r.value, pat)
    ensures r.Some? ==> forall j :: from <= j < r.value ==> !OccursAt(s, j, pat)
    ensures r.None? ==> forall j :: from <= j ==> !OccursAt(s, j, pat)
    decreases |s| - from
  {
    if OccursAt(s, from, pat) then Some(from)
    else if from == |s| then None
    else FindFrom(s, pat, from + 1)
  }

  /** `s.find(pat)`, with None for Python's -1: the lowest index at which
      `pat` occurs. */
  function Find<T(==)>(s: seq<T>, pat: seq<T>): (r: Option<nat>)
    ensures r.Some? <==> Contains(s, pat)
    ensures r.Some? ==> OccursAt(s, r.value, pat)
    ensures r.Some? ==> forall j :: 0 <= j < r.value ==> !OccursAt(s, j, pat)
  {
    FindFrom(s, pat, 0)
  }

  /** An occurrence inside a prefix is an occurrence in the whole. */
  lemma OccursInPrefix<T>(s: seq<T>, n: nat, j: int, pat: seq<T>)
    requires n <= |s| && OccursAt(s[..n], j, pat)
    ensures OccursAt(s, j, pat)
  {
    assert s[..n][j..j + |pat|] == s[j..j + |pat|];
  }

  // ---------------------------------------------------------------------
  // Splitting and joining

  /** `sep.join(parts)` */
  function Join<T>(parts: seq<seq<T>>, sep: seq<T>): seq<T>
  {
    if |parts| == 0 then []
    else if |parts| == 1 then parts[0]
    else parts[0] + sep + Join(parts[1..], sep)
  }

  /** `s.split(sep)`: the pieces between the occurrences of `sep`, found left
      to right; there is always at least one piece. */
  function Split<T(==)>(s: seq<T>, sep: seq<T>): (parts: seq<seq<T>>)
    requires |sep| > 0
    ensures |parts| >= 1
    decreases |s|
  {
    match Find(s, sep)
    case None => [s]
    case Some(i) => [s[..i]] + Split(s[i + |sep|..], sep)
  }

  /** No piece of a split contains the separator. */
  lemma {:induction false} SplitPieces<T>(s: seq<T>, sep: seq<T>)
    requires |sep| > 0
    ensures forall k :: 0 <= k < |Split(s, sep)| ==> !Contains(Split(s, sep)[k], sep)
    decreases |s|
  {
    match Find(s, sep)
    case None =>
    case Some(i) =>
      var first := s[..i];
      assert !Contains(first, sep) by {
        forall j | 0 <= j <= |first| && OccursAt(first, j, sep)
          ensures false
        {
          OccursInPrefix(s, i, j, sep);
        }
      }
      SplitPieces(s[i + |sep|..], sep);
  }

  /** `s.split(sep, 1)` */
  function SplitOnce<T(==)>(s: seq<T>, sep: seq<T>): (parts: seq<seq<T>>)
    requires |sep| > 0
    ensures 1 <= |parts| <= 2
    ensures |parts| == 2 <==> Contains(s, sep)
    ensures |parts| == 1 ==> parts[0] == s
    ensures |parts| == 2 ==> parts[0] + sep + parts[1] == s && !Contains(parts[0], sep)
  {
    match Find(s, sep)
    case None => [s]
    case Some(i) =>
      assert s[..i] + sep + s[i + |sep|..] == s;
      assert !Contains(s[..i], sep) by {
        forall j | 0 <= j <= i && OccursAt(s[..i], j, sep)
          ensures false
        {
          OccursInPrefix(s, i, j, sep);
        }
      }
      [s[..i], s[i + |sep|..]]
  }

  /** Joining what `split` produced gives back the original. */
  lemma {:induction false} JoinSplit<T>(s: seq<T>, sep: seq<T>)
    requires |sep| > 0
    ensures Join(Split(s, sep), sep) == s
    decreases |s|
  {
    match Find(s, sep)
    case None =>
    case Some(i) =>
      var rest := s[i + |sep|..];
      assert Split(s, sep) == [s[..i]] + Split(rest, sep);
      JoinSplit(rest, sep);
      JoinCons(s[..i], Split(rest, sep), sep);
      assert s[i..i + |sep|] == sep;
      assert s == s[..i] + sep + rest;
  }

  lemma JoinCons<T>(p: seq<T>, tail: seq<seq<T>>, sep: seq<T>)
    requires |tail| >= 1
    ensures Join([p] + tail, sep) == p + sep + Join(tail, sep)
  {
    assert ([p] + tail)[0] == p && ([p] + tail)[1..] == tail;
  }

  /** Each pair written as its name, `sep` and its value. */
  function PairLines(fields: seq<(string, string)>, sep: string): (lines: seq<string>)
    ensures |lines| == |fields|
    ensures forall i :: 0 <= i < |fields| ==> lines[i] == fields[i].0 + sep + fields[i].1
  {
    seq(|fields|, i requires 0 <= i < |fields| => fields[i].0 + sep + fields[i].1)
  }

  /** No element of `s` is `x`. */
  predicate Free<T(==)>(s: seq<T>, x: T) { forall i :: 0 <= i < |s| ==> s[i] != x }

  /** Splitting a join gives back the parts, as long as no part contains the
      first element of the separator. */
  lemma {:induction false} SplitJoin<T>(parts: seq<seq<T>>, sep: seq<T>)
    requires |parts| >= 1 && |sep| > 0
    requires forall k :: 0 <= k < |parts| ==> Free(parts[k], sep[0])
    ensures Split(Join(parts, sep), sep) == parts
  {
    var p := parts[0];
    if |parts| == 1 {
      NotContainsFree(p, sep);
    } else {
      SplitCons(p, sep, Join(parts[1..], sep));
      SplitJoin(parts[1..], sep);
      assert parts == [p] + parts[1..];
    }
  }

  /** The first separator after a piece free of its first element is the
      one that follows the piece. */
  lemma FindAfterFree<T>(a: seq<T>, sep: seq<T>, b: seq<T>)
    requires |sep| > 0 && Free(a, sep[0])
    ensures Find(a + sep + b, sep) == Some(|a|)
  {
    var s := a + sep + b;
    assert OccursAt(s, |a|, sep) by {
      assert s[|a|..|a| + |sep|] == sep;
    }
    forall j | 0 <= j < |a| ensures !OccursAt(s, j, sep) {
      assert s[j] == a[j];
      if j + |sep| <= |s| {
        assert s[j..j + |sep|][0] == s[j];
      }
    }
  }

  /** `split(sep, 1)` cuts at the first separator. */
  lemma SplitOnceAtFirst<T>(a: seq<T>, sep: seq<T>, b: seq<T>)
    requires |sep| > 0 && Free(a, sep[0])
    ensures SplitOnce(a + sep + b, sep) == [a, b]
  {
    var s := a + sep + b;
    FindAfterFree(a, sep, b);
    assert s[..|a|] == a && s[|a| + |sep|..] == b;
  }

  lemma SplitCons<T>(a: seq<T>, sep: seq<T>, b: seq<T>)
    requires |sep| > 0 && Free(a, sep[0])
    ensures Split(a + sep + b, sep) == [a] + Split(b, sep)
  {
    var s := a + sep + b;
    FindAfterFree(a, sep, b);
    assert s[..|a|] == a;
    assert s[|a| + |sep|..] == b;
  }

  /** A sequence that does not contain the one-element pattern `[x]` holds no `x`. */
  lemma NotContainsSingle<T>(s: seq<T>, x: T)
    requires !Contains(s, [x])
    ensures Free(s, x)
  {
    forall i | 0 <= i < |s| ensures s[i] == x ==> OccursAt(s, i, [x]) {
      assert s[i..i + 1] == [s[i]];
    }
  }

  lemma FreeAppend<T>(a: seq<T>, b: seq<T>, x: T)
    ensures Free(a + b, x) <==> Free(a, x) && Free(b, x)
  {
    if Free(a, x) && Free(b, x) {
      forall i | 0 <= i < |a + b| ensures (a + b)[i] != x {
        if i >= |a| {
          assert (a + b)[i] == b[i - |a|];
        }
      }
    } else if !Free(a, x) {
      var i :| 0 <= i < |a| && a[i] == x;
      assert (a + b)[i] == x;
    } else {
      var i :| 0 <= i < |b| && b[i] == x;
      assert (a + b)[|a| + i] == x;
    }
  }

  lemma NotContainsFree<T>(s: seq<T>, pat: seq<T>)
    requires |pat| > 0 && Free(s, pat[0])
    ensures !Contains(s, pat)
  {
    forall i | 0 <= i <= |s| ensures !OccursAt(s, i, pat) {
      if i + |pat| <= |s| {
        assert s[i..i + |pat|][0] == s[i];
      }
    }
  }

  function Last<T>(parts: seq<T>): T
    requires |parts| > 0
  {
    parts[|parts| - 1]
  }

  // ---------------------------------------------------------------------
  // Whitespace: `str.split()` and `str.strip()`

  /** `c.isspace()`: the characters Python treats as whitespace. */
  predicate IsSpace(c: char) {
    var n := c as int;
    (9 <= n <= 13) || (28 <= n <= 32) || n == 0x85 || n == 0xA0 || n == 0x1680
    || (0x2000 <= n <= 0x200A) || n == 0x2028 || n == 0x2029 || n == 0x202F
    || n == 0x205F || n == 0x3000
  }

  predicate IsWord(w: string) {
    |w| > 0 && forall i :: 0 <= i < |w| ==> !IsSpace(w[i])
  }

  /** Length of the longest prefix without whitespace. */
  function WordLength(s: string): (n: nat)
    ensures n <= |s|
    ensures forall i :: 0 <= i < n ==> !IsSpace(s[i])
    ensures n < |s| ==> IsSpace(s[n])
  {
    if s == [] || IsSpace(s[0]) then 0 else 1 + WordLength(s[1..])
  }

  /** `s.split()`: the maximal runs of non-whitespace, in order. */
  function Words(s: string): (ws: seq<string>)
    ensures forall i :: 0 <= i < |ws| ==> IsWord(ws[i])
    decreases |s|
  {
    if s == [] then []
    else if IsSpace(s[0]) then Words(s[1..])
    else
      var n := WordLength(s);
      [s[..n]] + Words(s[n..])
  }

  /** Words separated by single spaces are split back apart. */
  lemma {:induction false} WordsJoin(ws: seq<string>)
    requires forall i :: 0 <= i < |ws| ==> IsWord(ws[i])
    ensures Words(Join(ws, " ")) == ws
  {
    if |ws| == 1 {
      WordAlone(ws[0]);
    } else if |ws| > 1 {
      WordsCons(ws[0], Join(ws[1..], " "));
      WordsJoin(ws[1..]);
      assert ws == [ws[0]] + ws[1..];
    }
  }

  lemma WordsCons(w: string, rest: string)
    requires IsWord(w)
    ensures Words(w + " " + rest) == [w] + Words(rest)
  {
    var s := w + " " + rest;
    assert WordLength(s) == |w| by { WordLengthOf(w, " " + rest); assert s == w + (" " + rest); }
    assert s[..|w|] == w;
    assert s[|w|..] == " " + rest;
    assert Words(" " + rest) == Words(rest) by { assert (" " + rest)[1..] == rest; }
  }

  lemma {:induction false} WordLengthOf(w: string, rest: string)
    requires forall i :: 0 <= i < |w| ==> !IsSpace(w[i])
    requires rest == [] || IsSpace(rest[0])
    ensures WordLength(w + rest) == |w|
  {
    if w != [] {
      assert (w + rest)[1..] == w[1..] + rest;
      WordLengthOf(w[1..], rest);
    } else {
      assert w + rest == rest;
    }
  }

  lemma WordAlone(w: string)
    requires IsWord(w)
    ensures Words(w) == [w]
  {
    WordLengthOf(w, []);
    assert w + [] == w;
    assert w[|w|..] == [];
  }

  /** `s.strip()` */
  function Strip(s: string): (t: string)
    ensures |t| <= |s|
    ensures t != [] ==> !IsSpace(t[0]) && !IsSpace(t[|t| - 1])
    decreases |s|
  {
    if s == [] then []
    else if IsSpace(s[0]) then Strip(s[1..])
    else if IsSpace(s[|s| - 1]) then Strip(s[..|s| - 1])
    else s
  }

  // ---------------------------------------------------------------------
  // Case

  function LowerChar(c: char): char {
    if 'A' <= c <= 'Z' then (c as int + 32) as char else c
  }

  /** `s.lower()` on ASCII letters. */
  function Lower(s: string): (t: string)
    ensures |t| == |s|
    ensures forall i :: 0 <= i < |s| ==> t[i] == LowerChar(s[i])
  {
    seq(|s|, i requires 0 <= i < |s| => LowerChar(s[i]))
  }

  predicate IsLower(s: string) { forall i :: 0 <= i < |s| ==> !('A' <= s[i] <= 'Z') }

  // ---------------------------------------------------------------------
  // Integers: `int(s)` and `f"{n}"`

  predicate IsDigit(c: char) { '0' <= c <= '9' }

  function DigitChar(d: nat): char
    requires d < 10
  {
    (d + '0' as int) as char
  }

  /** The digits of `int()` for base 10: digits with single underscores between them. */
  predicate ValidDigits(ds: string) {
    && |ds| > 0 && IsDigit(ds[0]) && IsDigit(ds[|ds| - 1])
    && (forall i :: 0 <= i < |ds| ==> IsDigit(ds[i]) || ds[i] == '_')
    && (forall i :: 0 <= i < |ds| - 1 ==> !(ds[i] == '_' && ds[i + 1] == '_'))
  }

  function DigitsValue(ds: string): nat
    requires forall i :: 0 <= i < |ds| ==> IsDigit(ds[i]) || ds[i] == '_'
  {
    if ds == [] then 0
    else
      var init := ds[..|ds| - 1];
      var c := ds[|ds| - 1];
      assert IsDigit(c) || c == '_';
      if c == '_' then DigitsValue(init) else DigitsValue(init) * 10 + (c as int - '0' as int)
  }

  /** `sys.int_max_str_digits`: since Python 3.11 `int()` refuses a decimal
      string of more digits than this, and `str()` an integer that needs
      more. */
  const INT_MAX_STR_DIGITS: nat := 4300

  /** How many digits a string holds; underscores do not count, leading
      zeros do. */
  function DigitCount(ds: string): (n: nat)
    ensures n <= |ds|
  {
    if ds == [] then 0 else (if IsDigit(ds[0]) then 1 else 0) + DigitCount(ds[1..])
  }

  /** A string of digits only is as long as its digit count. */
  lemma {:induction false} DigitCountAll(ds: string)
    requires forall i :: 0 <= i < |ds| ==> IsDigit(ds[i])
    ensures DigitCount(ds) == |ds|
  {
    if ds != [] {
      DigitCountAll(ds[1..]);
    }
  }

  /** `int(s)`: None where Python raises ValueError. Leading and trailing
      whitespace are ignored, a sign is allowed, and more than
      `INT_MAX_STR_DIGITS` digits are refused. */
  function ParseInt(s: string): (r: Option<int>)
  {
    var t := Strip(s);
    if t == [] then None
    else
      var neg := t[0] == '-';
      var ds := if t[0] == '-' || t[0] == '+' then t[1..] else t;
      if !ValidDigits(ds) || DigitCount(ds) > INT_MAX_STR_DIGITS then None
      else
        var v: int := DigitsValue(ds);
        Some(if neg then -v else v)
  }

  function NatDigits(n: nat): (ds: string)
    ensures |ds| > 0 && forall i :: 0 <= i < |ds| ==> IsDigit(ds[i])
  {
    if n < 10 then [DigitChar(n)] else NatDigits(n / 10) + [DigitChar(n % 10)]
  }

  /** Whether `str(n)` stays within `INT_MAX_STR_DIGITS` digits. */
  predicate FitsStrDigits(n: int) {
    |NatDigits(if n < 0 then -n else n)| <= INT_MAX_STR_DIGITS
  }

  /** `f"{n}"` / `str(n)` for an int. */
  function FormatInt(n: int): string
  {
    if n < 0 then "-" + NatDigits(-n) else NatDigits(n)
  }

  lemma {:induction false} DigitsValueNatDigits(n: nat)
    ensures DigitsValue(NatDigits(n)) == n
  {
    var ds := NatDigits(n);
    if n >= 10 {
      DigitsValueNatDigits(n / 10);
      assert ds[..|ds| - 1] == NatDigits(n / 10);
    }
  }

  lemma StripWord(s: string)
    requires s != [] && !IsSpace(s[0]) && !IsSpace(s[|s| - 1])
    ensures Strip(s) == s
  {
  }

  /** `int()` reads back what `str()` wrote, with or without the blank that
      follows a header's colon. */
  lemma FormatParseInt(n: int)
    requires FitsStrDigits(n)
    ensures ParseInt(FormatInt(n)) == Some(n)
    ensures ParseInt(" " + FormatInt(n)) == Some(n)
  {
    var f := FormatInt(n);
    FormatParseBare(n);
    assert (" " + f)[1..] == f;
    assert Strip(" " + f) == Strip(f);
  }

  lemma FormatParseBare(n: int)
    requires FitsStrDigits(n)
    ensures ParseInt(FormatInt(n)) == Some(n)
  {
    var f := FormatInt(n);
    var ds := NatDigits(if n < 0 then -n else n);
    DigitsValueNatDigits(if n < 0 then -n else n);
    DigitCountAll(ds);
    assert ValidDigits(ds);
    if n < 0 {
      assert f[1..] == ds;
    }
    StripWord(f);
  }

  /** A run of more than `INT_MAX_STR_DIGITS` digits is refused, whatever
      its value, leading zeros included. */
  lemma ParseIntTooLong(ds: string)
    requires |ds| > INT_MAX_STR_DIGITS && forall i :: 0 <= i < |ds| ==> IsDigit(ds[i])
    ensures ParseInt(ds) == None
  {
    StripWord(ds);
    DigitCountAll(ds);
  }

  // ---------------------------------------------------------------------
  // Text-mode reads translate "\r\n" and lone "\r" to "\n".

  function TranslateNewlines(s: string): (t: string)
    ensures |t| <= |s|
    ensures Free(t, '\r')
  {
    if s == [] then []
    else if s[0] == '\r' then
      if |s| > 1 && s[1] == '\n' then "\n" + TranslateNewlines(s[2..])
      else "\n" + TranslateNewlines(s[1..])
    else [s[0]] + TranslateNewlines(s[1..])
  }

  /** A text without carriage returns reads back unchanged. */
  lemma {:induction false} TranslateNewlinesNoCr(s: string)
    requires Free(s, '\r')
    ensures TranslateNewlines(s) == s
  {
    if s != [] {
      TranslateNewlinesNoCr(s[1..]);
      assert s == [s[0]] + s[1..];
    }
  }
}
