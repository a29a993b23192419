/** The on-disk form of sidecar/store.py: numbered segments of newline-terminated JSON records, and
    what reading one back yields. JSON is an abstract encoder and parser.
  */
module EventLog {
  import opened Wrappers

  newtype byte = x: int | 0 <= x < 256
  type bytes = seq<byte>

  const LF: byte := 10
  const CR: byte := 13

  /** `json.dumps` without its newline, `json.loads` of a line, the schema check, and the event id ("" when absent). */
  datatype Codec<!R(!new)> = Codec(encode: R -> bytes, parse: bytes -> Option<R>, schemaOk: R -> bool,
                                   eventId: R -> string) {

    /** Encodings are single lines and read back as themselves. */
    ghost predicate Lawful() {
      forall r :: LF !in encode(r) && CR !in encode(r) && parse(encode(r) + [LF]) == Some(r)
    }

    function Line(r: R): bytes {
      encode(r) + [LF]
    }

    function Lines(rs: seq<R>): bytes
      decreases |rs|
    {
      if rs == [] then [] else Lines(rs[..|rs| - 1]) + Line(rs[|rs| - 1])
    }

    predicate AllOk(rs: seq<R>) {
      forall i :: 0 <= i < |rs| ==> schemaOk(rs[i])
    }
  }

  // ---------- splitting and reading ----------

  /** The length of the first line of `bytes.splitlines(keepends=True)`: it ends after LF, CR, or CR LF. */
  function LineEnd(raw: bytes): (n: nat)
    requires raw != []
    ensures 1 <= n <= |raw|
  {
    if raw[0] == LF then 1
    else if raw[0] == CR then if |raw| > 1 && raw[1] == LF then 2 else 1
    else if |raw| == 1 then 1
    else 1 + LineEnd(raw[1..])
  }

  function SplitLines(raw: bytes): seq<bytes>
    decreases |raw|
  {
    if raw == [] then []
    else
      var n := LineEnd(raw);
      [raw[..n]] + SplitLines(raw[n..])
  }

  predicate Terminated(line: bytes) {
    line != [] && (line[|line| - 1] == LF || line[|line| - 1] == CR)
  }

  /** The records of a segment, or None when some line is not an acceptable record; an unterminated last line is
      skipped.
    */
  function ReadLines<R(!new)>(c: Codec<R>, lines: seq<bytes>): Option<seq<R>> {
    if lines == [] || (|lines| == 1 && !Terminated(lines[0])) then Some([])
    else
      match c.parse(lines[0])
      case None => None
      case Some(r) =>
        if !c.schemaOk(r) then None
        else
          match ReadLines(c, lines[1..])
          case None => None
          case Some(rs) => Some([r] + rs)
  }

  /** `_read_segment`. */
  method ReadSegment<R(!new)>(c: Codec<R>, raw: bytes) returns (records: seq<R>, valid: bool)
    ensures
      match ReadLines(c, SplitLines(raw))
      case None => !valid && records == []
      case Some(rs) => valid && records == rs
  {
    var lines := SplitLines(raw);
    records := [];
    var index := 0;
    assert lines[0..] == lines && forall rs: seq<R> :: records + rs == rs;
    while index < |lines|
      invariant 0 <= index <= |lines|
      invariant ReadLines(c, lines)
                == match ReadLines(c, lines[index..]) case None => None case Some(rs) => Some(records + rs)
    {
      var line := lines[index];
      assert lines[index..][1..] == lines[index + 1..];
      if !Terminated(line) && index == |lines| - 1 {
        assert ReadLines(c, lines[index..]) == Some([]);
        return records, true;
      }
      var value := c.parse(line);
      if value.None? {
        return [], false;
      }
      if !c.schemaOk(value.value) {
        return [], false;
      }
      assert forall rs: seq<R> :: records + ([value.value] + rs) == records + [value.value] + rs;
      records := records + [value.value];
      index := index + 1;
    }
    assert records + [] == records;
    return records, true;
  }

  // ---------- what reading means ----------

  /** Every line is read but an unfinished last one. */
  predicate ReadsLine(lines: seq<bytes>, i: nat)
    requires i < |lines|
  {
    i < |lines| - 1 || Terminated(lines[i])
  }

  /** A line that parses into a record of the accepted schema. */
  predicate Acceptable<R(!new)>(c: Codec<R>, line: bytes) {
    c.parse(line).Some? && c.schemaOk(c.parse(line).value)
  }

  /** Main result: a segment is refused exactly when some line that is read does not parse or does not carry the
      accepted schema; otherwise its records are what these lines parse to, in order. Only an unfinished last line is
      not read.
    */
  lemma {:induction false} ReadLinesExactly<R(!new)>(c: Codec<R>, lines: seq<bytes>)
    ensures ReadLines(c, lines).None?
            <==> exists i :: 0 <= i < |lines| && ReadsLine(lines, i) && !Acceptable(c, lines[i])
    ensures
      match ReadLines(c, lines)
      case None => true
      case Some(rs) =>
        && |rs| == |lines| - (if lines != [] && !Terminated(lines[|lines| - 1]) then 1 else 0)
        && forall i :: 0 <= i < |rs| ==> c.parse(lines[i]) == Some(rs[i])
  {
    hide Terminated;
    if lines != [] && ReadsLine(lines, 0) {
      var rest := lines[1..];
      ReadLinesExactly(c, rest);
      forall i: nat | 0 < i < |lines|
        ensures ReadsLine(lines, i) == ReadsLine(rest, i - 1) && lines[i] == rest[i - 1]
      {}
      if i :| 0 <= i < |rest| && ReadsLine(rest, i) && !Acceptable(c, rest[i]) {
        assert ReadsLine(lines, i + 1) && !Acceptable(c, lines[i + 1]);
      }
    }
  }

  // ---------- what splitting means ----------

  /** A line as `splitlines` cuts it: nothing before its last bytes ends a line. */
  predicate IsLine(line: bytes) {
    && line != []
    && (forall i :: 0 <= i < |line| - 1 ==> line[i] != LF)
    && (forall i :: 0 <= i < |line| - 1 && line[i] == CR ==> i == |line| - 2 && line[i + 1] == LF)
  }

  function Joined(lines: seq<bytes>): bytes {
    if lines == [] then [] else lines[0] + Joined(lines[1..])
  }

  /** These lines make up the bytes: all but the last are finished, and no CR LF is cut in two. */
  ghost predicate IsSplit(lines: seq<bytes>, raw: bytes) {
    && Joined(lines) == raw
    && (forall i :: 0 <= i < |lines| ==> IsLine(lines[i]))
    && (forall i :: 0 <= i < |lines| - 1 ==> Terminated(lines[i]))
    && (forall i :: 0 <= i < |lines| - 1 && lines[i][|lines[i]| - 1] == CR && lines[i + 1] != [] ==>
          lines[i + 1][0] != LF)
  }

  /** The first n bytes are one line of these. */
  ghost predicate CutsLine(raw: bytes, n: nat) {
    && 1 <= n <= |raw| && IsLine(raw[..n])
    && (n < |raw| ==> Terminated(raw[..n]) && !(raw[n - 1] == CR && raw[n] == LF))
  }

  /** An ordinary first byte makes no difference to a line. */
  lemma LineTail(first: byte, rest: bytes)
    requires first != LF && first != CR && rest != []
    ensures IsLine([first] + rest) <==> IsLine(rest)
  {
    var line := [first] + rest;
    assert forall i :: 0 <= i < |rest| ==> line[i + 1] == rest[i];
    if IsLine(line) {
      forall i | 0 <= i < |rest| - 1
        ensures rest[i] != LF && (rest[i] == CR ==> i == |rest| - 2 && rest[i + 1] == LF)
      {
        assert rest[i] == line[i + 1];
      }
    }
    if IsLine(rest) {
      forall i | 0 <= i < |line| - 1
        ensures line[i] != LF && (line[i] == CR ==> i == |line| - 2 && line[i + 1] == LF)
      {
        assert i > 0 ==> line[i] == rest[i - 1];
      }
    }
  }

  lemma CutsLineTail(raw: bytes, n: nat)
    requires |raw| > 1 && raw[0] != LF && raw[0] != CR && n >= 1
    ensures CutsLine(raw, n + 1) <==> CutsLine(raw[1..], n)
  {
    if n < |raw| {
      LineTail(raw[0], raw[1..][..n]);
      hide IsLine;
      TakeMore(raw, n);
    }
  }

  lemma TakeMore(raw: bytes, n: nat)
    requires n < |raw|
    ensures raw[..n + 1] == [raw[0]] + raw[1..][..n]
  {}

  /** `LineEnd` is the one place to cut. */
  lemma {:induction false} LineEndExactly(raw: bytes, n: nat)
    requires raw != []
    ensures CutsLine(raw, n) <==> n == LineEnd(raw)
    decreases |raw|
  {
    if raw[0] == LF || raw[0] == CR || |raw| == 1 {
      ShortLine(raw, n);
    } else {
      assert n == 1 ==> raw[..n][0] == raw[0];
      if n > 1 {
        CutsLineTail(raw, n - 1);
        LineEndExactly(raw[1..], n - 1);
      }
    }
  }

  lemma ShortLine(raw: bytes, n: nat)
    requires raw != [] && (raw[0] == LF || raw[0] == CR || |raw| == 1)
    ensures CutsLine(raw, n) <==> n == LineEnd(raw)
  {
    if 1 <= n <= |raw| {
      assert raw[..n][0] == raw[0];
      if n > 1 { assert raw[..n][1] == raw[1]; }
    }
  }

  /** Main result: these are the lines of a segment exactly when they make up its bytes, each is one line, all but the
      last are finished, and no CR LF is cut in two.
    */
  lemma {:induction false} SplitLinesExactly(raw: bytes, lines: seq<bytes>)
    ensures IsSplit(lines, raw) <==> lines == SplitLines(raw)
    decreases |raw|
  {
    hide IsLine, Terminated, LineEnd;
    if raw == [] {
      if lines != [] { FirstIsNotEmpty(lines, raw); }
    } else if lines != [] {
      var n := LineEnd(raw);
      SplitLinesExactly(raw[n..], lines[1..]);
      SplitTail(lines, raw);
      LineEndExactly(raw, |lines[0]|);
      LineEndExactly(raw, n);
    }
  }

  lemma FirstIsNotEmpty(lines: seq<bytes>, raw: bytes)
    requires lines != []
    ensures IsSplit(lines, raw) ==> raw != []
  {}

  /** A split is a first line and a split of the rest. */
  lemma SplitTail(lines: seq<bytes>, raw: bytes)
    requires lines != [] && raw != []
    ensures
      var n := |lines[0]|;
      IsSplit(lines, raw)
      <==> n <= |raw| && lines[0] == raw[..n] && CutsLine(raw, n) && IsSplit(lines[1..], raw[n..])
  {
    hide IsLine, Terminated;
    var n, rest := |lines[0]|, lines[1..];
    assert Joined(lines) == lines[0] + Joined(rest);
    if IsSplit(lines, raw) {
      assert raw[..n] == lines[0] && raw[n..] == Joined(rest);
      RestIsSplit(lines, raw);
    }
    if n <= |raw| && lines[0] == raw[..n] && CutsLine(raw, n) && IsSplit(rest, raw[n..]) {
      assert raw == raw[..n] + raw[n..];
      WholeIsSplit(lines, raw);
    }
  }

  lemma RestIsSplit(lines: seq<bytes>, raw: bytes)
    requires lines != [] && IsSplit(lines, raw)
    requires |lines[0]| <= |raw| && raw[..|lines[0]|] == lines[0] && raw[|lines[0]|..] == Joined(lines[1..])
    ensures CutsLine(raw, |lines[0]|) && IsSplit(lines[1..], raw[|lines[0]|..])
  {
    var n, rest := |lines[0]|, lines[1..];
    forall i | 0 <= i < |rest|
      ensures rest[i] == lines[i + 1]
    {}
    if rest != [] {
      assert lines[1] == rest[0] && raw[n..] == rest[0] + Joined(rest[1..]);
      assert IsLine(lines[1]) && Terminated(lines[0]);
      assert raw[n] == raw[n..][0] == lines[1][0];
    }
  }

  lemma WholeIsSplit(lines: seq<bytes>, raw: bytes)
    requires lines != [] && |lines[0]| <= |raw| && lines[0] == raw[..|lines[0]|] && CutsLine(raw, |lines[0]|)
    requires IsSplit(lines[1..], raw[|lines[0]|..]) && raw == raw[..|lines[0]|] + raw[|lines[0]|..]
    ensures IsSplit(lines, raw)
  {
    var n, rest := |lines[0]|, lines[1..];
    forall i | 1 <= i < |lines|
      ensures lines[i] == rest[i - 1]
    {}
    if rest != [] {
      assert raw[n..] == rest[0] + Joined(rest[1..]);
      assert IsLine(rest[0]);
      assert raw[n] == raw[n..][0] == rest[0][0];
    }
  }

  lemma {:induction false} LineEndOf(body: bytes, rest: bytes)
    requires LF !in body && CR !in body
    ensures LineEnd(body + [LF] + rest) == |body| + 1
  {
    var raw := body + [LF] + rest;
    if body != [] {
      assert raw[1..] == body[1..] + [LF] + rest;
      LineEndOf(body[1..], rest);
    }
  }

  lemma {:induction false} LineEndOfTorn(torn: bytes)
    requires torn != [] && LF !in torn && CR !in torn
    ensures LineEnd(torn) == |torn|
  {
    if |torn| > 1 { LineEndOfTorn(torn[1..]); }
  }

  /** A tail cut before its newline: no line end in it. */
  predicate IsTorn(torn: bytes) {
    LF !in torn && CR !in torn
  }

  lemma SplitFirst<R(!new)>(c: Codec<R>, r: R, rest: bytes)
    requires c.Lawful()
    ensures SplitLines(c.Line(r) + rest) == [c.Line(r)] + SplitLines(rest)
  {
    var raw := c.Line(r) + rest;
    LineEndOf(c.encode(r), rest);
    assert raw == c.encode(r) + [LF] + rest;
    assert raw[..|c.Line(r)|] == c.Line(r) && raw[|c.Line(r)|..] == rest;
  }

  lemma LinesFirst<R(!new)>(c: Codec<R>, rs: seq<R>)
    requires rs != []
    ensures c.Lines(rs) == c.Line(rs[0]) + c.Lines(rs[1..])
    decreases |rs|
  {
    var n := |rs| - 1;
    if n > 0 {
      LinesFirst(c, rs[..n]);
      assert rs[..n][1..] == rs[1..][..n - 1];
    }
  }

  /** Main result for one segment: whole records followed by a torn tail read back as exactly those
      records, provided all of them carry the accepted schema; otherwise the segment is refused.
    */
  lemma {:induction false} ReadBack<R(!new)>(c: Codec<R>, rs: seq<R>, torn: bytes)
    requires c.Lawful() && IsTorn(torn)
    ensures ReadLines(c, SplitLines(c.Lines(rs) + torn)) == if c.AllOk(rs) then Some(rs) else None
    decreases |rs|
  {
    if rs == [] {
      assert c.Lines(rs) + torn == torn;
      if torn != [] {
        LineEndOfTorn(torn);
        assert torn[..|torn|] == torn && torn[|torn|..] == [];
        assert SplitLines(torn) == [torn];
      }
    } else {
      ReadBack(c, rs[1..], torn);
      ReadFirst(c, rs, torn);
    }
  }

  lemma ReadFirst<R(!new)>(c: Codec<R>, rs: seq<R>, torn: bytes)
    requires c.Lawful() && rs != []
    ensures
      ReadLines(c, SplitLines(c.Lines(rs) + torn))
      == match ReadLines(c, SplitLines(c.Lines(rs[1..]) + torn))
         case None => None
         case Some(rest) => if c.schemaOk(rs[0]) then Some([rs[0]] + rest) else None
    ensures c.AllOk(rs) <==> c.schemaOk(rs[0]) && c.AllOk(rs[1..])
    ensures [rs[0]] + rs[1..] == rs
  {
    hide Codec.Lines, SplitLines;
    var first, rest := rs[0], c.Lines(rs[1..]) + torn;
    LinesFirst(c, rs);
    assert c.Lines(rs) + torn == c.Line(first) + rest;
    SplitFirst(c, first, rest);
    assert ([c.Line(first)] + SplitLines(rest))[1..] == SplitLines(rest);
    assert c.parse(c.Line(first)) == Some(first) && Terminated(c.Line(first));
    assert c.AllOk(rs) <==> c.schemaOk(rs[0]) && c.AllOk(rs[1..]) by {
      assert forall i :: 1 <= i < |rs| ==> rs[i] == rs[1..][i - 1];
    }
  }
}
