/** `Request` (myServer.py:20-39) and the header-line parsing of
    `recv_until_crlfs` (its inner `to_tuple` and the `dict(...)` built from
    the header lines). */
module Requests {
  import opened Outcomes
  import opened Text

  /** What a client sent: method (`httpMethod`), path without its first character, header
      map with lower-cased names, and the decoded body. */
  datatype Request = Request(httpMethod: string, path: string, headers: map<string, string>, content: string)

  /** `Request(start_line, headers, content)`: the method and path are the
      first two whitespace-separated tokens of the start line; fewer than two
      tokens make the unpacking raise ValueError. */
  function NewRequest(startLine: string, headers: map<string, string>, content: string): (r: Result<Request>)
    ensures r.Ok? <==> |Words(startLine)| >= 2
    ensures r.Raise? ==> r.exc == ValueError
    ensures r.Ok? ==> r.value.httpMethod == Words(startLine)[0]
    ensures r.Ok? ==> [Words(startLine)[1][0]] + r.value.path == Words(startLine)[1]
    ensures r.Ok? ==> r.value.headers == headers && r.value.content == content
  {
    var ws := Words(startLine);
    if |ws| < 2 then Raise(ValueError)
    else Ok(Request(ws[0], ws[1][1..], headers, content))
  }

  /** A start line `METHOD SP target SP version` yields that method and the
      target less its leading character. */
  lemma NewRequestOfStartLine(verb: string, target: string, version: string,
                              headers: map<string, string>, content: string)
    requires IsWord(verb) && IsWord(target) && IsWord(version)
    ensures NewRequest(verb + " " + target + " " + version, headers, content)
         == Ok(Request(verb, target[1..], headers, content))
  {
    var ws := [verb, target, version];
    assert Join(ws, " ") == verb + " " + target + " " + version by {
      assert Join(ws[1..], " ") == target + " " + version by {
        assert ws[1..][1..] == [version];
      }
    }
    WordsJoin(ws);
  }

  // ---------------------------------------------------------------------
  // Header lines

  /** `to_tuple`: split a header line at its first colon; the name is
      lower-cased, the value is everything after the colon, untouched. A line
      without a colon fails the two-way unpacking with ValueError. */
  function ToTuple(line: string): (r: Result<(string, string)>)
    ensures r.Ok? <==> Contains(line, ":")
    ensures r.Raise? ==> r.exc == ValueError
    ensures r.Ok? ==> IsLower(r.value.0) && !Contains(r.value.0, ":")
    ensures r.Ok? ==> |r.value.0| + 1 + |r.value.1| == |line|
  {
    var kv := SplitOnce(line, ":");
    if |kv| != 2 then Raise(ValueError)
    else
      assert !Contains(Lower(kv[0]), ":") by {
        forall j | 0 <= j <= |kv[0]| ensures !OccursAt(Lower(kv[0]), j, ":") {
          if OccursAt(Lower(kv[0]), j, ":") {
            assert Lower(kv[0])[j] == ':';
            assert OccursAt(kv[0], j, ":");
          }
        }
      }
      Ok((Lower(kv[0]), kv[1]))
  }

  /** `name:value` parses to the lower-cased name and the whole of `value`,
      leading blanks and later colons included. */
  lemma ToTupleOf(name: string, value: string)
    requires Free(name, ':')
    ensures ToTuple(name + ":" + value) == Ok((Lower(name), value))
  {
    SplitOnceAtFirst(name, ":", value);
  }

  /** `dict(map(to_tuple, lines))`: built left to right, a later line with the
      same lower-cased name overwriting an earlier one; the first line without
      a colon raises. */
  function HeaderDict(lines: seq<string>): (r: Result<map<string, string>>)
    ensures r.Ok? <==> forall i :: 0 <= i < |lines| ==> Contains(lines[i], ":")
    ensures r.Raise? ==> r.exc == ValueError
    ensures r.Ok? ==> forall k :: k in r.value ==> IsLower(k)
  {
    if lines == [] then Ok(map[])
    else
      var init := lines[..|lines| - 1];
      match HeaderDict(init)
      case Raise(e) => Raise(e)
      case Ok(m) =>
        match ToTuple(lines[|lines| - 1])
        case Raise(e) => Raise(e)
        case Ok(kv) => Ok(m[kv.0 := kv.1])
  }

  /** The line parses and carries the name `k`. */
  predicate Names(line: string, k: string) {
    ToTuple(line).Ok? && ToTuple(line).value.0 == k
  }

  /** The dictionary's names are exactly the lines' lower-cased names. */
  lemma {:induction false} HeaderDictKeys(lines: seq<string>, k: string)
    requires HeaderDict(lines).Ok?
    ensures k in HeaderDict(lines).value <==> exists i :: 0 <= i < |lines| && Names(lines[i], k)
  {
    if lines != [] {
      var init := lines[..|lines| - 1];
      var m := HeaderDict(init).value;
      var kv := ToTuple(lines[|lines| - 1]).value;
      assert HeaderDict(lines).value == m[kv.0 := kv.1];
      HeaderDictKeys(init, k);
      HeaderDictKeysStep(lines, init, k, m, kv);
    }
  }

  lemma HeaderDictKeysStep(lines: seq<string>, init: seq<string>, k: string, m: map<string, string>,
                           kv: (string, string))
    requires lines != [] && init == lines[..|lines| - 1] && ToTuple(lines[|lines| - 1]) == Ok(kv)
    requires k in m <==> exists i :: 0 <= i < |init| && Names(init[i], k)
    ensures k in m[kv.0 := kv.1] <==> exists i :: 0 <= i < |lines| && Names(lines[i], k)
  {
    if kv.0 == k {
      assert Names(lines[|lines| - 1], k);
    } else if k in m {
      var i :| 0 <= i < |init| && Names(init[i], k);
      assert lines[i] == init[i];
    } else {
      forall i | 0 <= i < |lines| ensures !Names(lines[i], k) {
        if i < |init| {
          assert lines[i] == init[i];
        }
      }
    }
  }

  /** The value kept for a name is the one on the last line with that name. */
  lemma {:induction false} HeaderDictLastWins(lines: seq<string>, i: nat)
    requires HeaderDict(lines).Ok? && i < |lines|
    requires forall j :: i < j < |lines| ==> ToTuple(lines[j]).value.0 != ToTuple(lines[i]).value.0
    ensures ToTuple(lines[i]).value.0 in HeaderDict(lines).value
    ensures HeaderDict(lines).value[ToTuple(lines[i]).value.0] == ToTuple(lines[i]).value.1
  {
    var init := lines[..|lines| - 1];
    if i < |lines| - 1 {
      assert init[i] == lines[i];
      forall j | i < j < |init| ensures ToTuple(init[j]).value.0 != ToTuple(init[i]).value.0 {
        assert init[j] == lines[j];
      }
      HeaderDictLastWins(init, i);
    }
  }

  /** The header dictionary described by a list of (name, value) fields. */
  function FieldDict(fields: seq<(string, string)>): map<string, string>
  {
    if fields == [] then map[]
    else
      var last := fields[|fields| - 1];
      FieldDict(fields[..|fields| - 1])[Lower(last.0) := last.1]
  }

  /** Header lines written as `name:value` parse back to the dictionary of
      those fields. */
  lemma {:induction false} HeaderDictOfFields(fields: seq<(string, string)>)
    requires forall i :: 0 <= i < |fields| ==> Free(fields[i].0, ':')
    ensures HeaderDict(PairLines(fields, ":")) == Ok(FieldDict(fields))
  {
    if fields != [] {
      var init := fields[..|fields| - 1];
      var last := fields[|fields| - 1];
      HeaderDictOfFields(init);
      assert PairLines(fields, ":")[..|fields| - 1] == PairLines(init, ":");
      ToTupleOf(last.0, last.1);
    }
  }
}
