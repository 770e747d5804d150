/**
  The string operations of Rust's `str` that the vault uses: `trim`,
  `trim_matches`, `lines` and `join("\n")`, on UTF-8 bytes.
*/
module Text {
  import opened Options
  import opened ByteStrings

  /**
    The ASCII bytes for which `char::is_whitespace` holds: tab, line feed,
    vertical tab, form feed, carriage return and space.
  */
  const WHITESPACE: set<byte> := {9, 10, 11, 12, 13, 32}

  /** `trim_start_matches` with a set of single-byte characters: drop the longest prefix drawn from `cs`. */
  function TrimStart(s: Bytes, cs: set<byte>): (r: Bytes)
    ensures |r| <= |s|
  {
    if s != [] && s[0] in cs then TrimStart(s[1..], cs) else s
  }

  /** `trim_end_matches` with a set of single-byte characters: drop the longest suffix drawn from `cs`. */
  function TrimEnd(s: Bytes, cs: set<byte>): (r: Bytes)
    ensures |r| <= |s|
  {
    if s != [] && s[|s| - 1] in cs then TrimEnd(s[..|s| - 1], cs) else s
  }

  /** What `trim_start_matches` keeps is a suffix that starts outside `cs`, and all it drops is in `cs`. */
  lemma {:induction false} TrimStartSpec(s: Bytes, cs: set<byte>)
    ensures var r := TrimStart(s, cs);
      && r == s[|s| - |r|..]
      && (r == [] || r[0] !in cs)
      && forall i :: 0 <= i < |s| - |r| ==> s[i] in cs
  {
    if s != [] && s[0] in cs {
      TrimStartSpec(s[1..], cs);
    }
  }

  /** What `trim_end_matches` keeps is a prefix that ends outside `cs`, and all it drops is in `cs`. */
  lemma {:induction false} TrimEndSpec(s: Bytes, cs: set<byte>)
    ensures var r := TrimEnd(s, cs);
      && r == s[..|r|]
      && (r == [] || r[|r| - 1] !in cs)
      && forall i :: |r| <= i < |s| ==> s[i] in cs
  {
    if s != [] && s[|s| - 1] in cs {
      TrimEndSpec(s[..|s| - 1], cs);
    }
  }

  /** `trim_matches`: strip bytes of `cs` from both ends. */
  function TrimSet(s: Bytes, cs: set<byte>): Bytes
  {
    TrimEnd(TrimStart(s, cs), cs)
  }

  /** `str::trim` restricted to ASCII whitespace. */
  function Trim(s: Bytes): Bytes
  {
    TrimSet(s, WHITESPACE)
  }

  /** A string with no byte of `cs` at either end is left as it is. */
  lemma TrimSetNoOp(s: Bytes, cs: set<byte>)
    requires s == [] || (s[0] !in cs && s[|s| - 1] !in cs)
    ensures TrimSet(s, cs) == s
  {
    assert TrimStart(s, cs) == s;
  }

  /** Whatever `trim_matches` leaves starts and ends outside `cs`. */
  lemma TrimSetEnds(s: Bytes, cs: set<byte>)
    ensures var r := TrimSet(s, cs); r == [] || (r[0] !in cs && r[|r| - 1] !in cs)
  {
    var t := TrimStart(s, cs);
    var r := TrimEnd(t, cs);
    TrimStartSpec(s, cs);
    TrimEndSpec(t, cs);
    if r != [] {
      assert r[0] == t[0];
    }
  }

  /** `trim_matches` only removes bytes: what is left is a piece of the input. */
  lemma TrimSetSlice(s: Bytes, cs: set<byte>)
    ensures forall x :: x in TrimSet(s, cs) ==> x in s
  {
    var t := TrimStart(s, cs);
    var r := TrimEnd(t, cs);
    TrimStartSpec(s, cs);
    TrimEndSpec(t, cs);
    forall x | x in r
      ensures x in s
    {
      var k :| 0 <= k < |r| && r[k] == x;
      assert t[k] == x;
      assert s[|s| - |t| + k] == x;
    }
  }

  /** `trim_matches` leaves nothing exactly when every byte is in `cs`. */
  lemma TrimSetEmpty(s: Bytes, cs: set<byte>)
    ensures TrimSet(s, cs) == [] <==> forall i :: 0 <= i < |s| ==> s[i] in cs
  {
    var t := TrimStart(s, cs);
    TrimStartSpec(s, cs);
    TrimEndSpec(t, cs);
  }

  /** A first byte outside `cs` stays first. */
  lemma TrimSetKeepsFirst(s: Bytes, cs: set<byte>)
    requires s != [] && s[0] !in cs
    ensures TrimSet(s, cs) != [] && TrimSet(s, cs)[0] == s[0]
  {
    assert TrimStart(s, cs) == s;
    TrimEndSpec(s, cs);
  }

  /** With `c` absent from `v`, `trim_matches(c)` removes exactly one `c` from each side of `c v c`. */
  lemma {:induction false} TrimSetOneLayer(v: Bytes, c: byte)
    requires c !in v
    ensures TrimSet([c] + v + [c], {c}) == v
  {
    var s := [c] + v + [c];
    assert s[1..] == v + [c];
    if v == [] {
      assert TrimStart(s, {c}) == [];
    } else {
      assert TrimStart(s[1..], {c}) == v + [c];
      assert (v + [c])[..|v|] == v;
      assert TrimEnd(v + [c], {c}) == TrimEnd(v, {c});
    }
  }

  /** The pieces of `join("\n")`. */
  function Join(lines: seq<Bytes>): Bytes
  {
    if |lines| == 0 then []
    else if |lines| == 1 then lines[0]
    else lines[0] + [LF] + Join(lines[1..])
  }

  /** The joined text ends with the last line. */
  lemma {:induction false} JoinEnd(lines: seq<Bytes>)
    requires |lines| > 0
    ensures var r := Join(lines); var last := lines[|lines| - 1];
      |last| <= |r| && r[|r| - |last|..] == last
  {
    if |lines| > 1 {
      JoinEnd(lines[1..]);
      assert lines[1..][|lines| - 2] == lines[|lines| - 1];
    }
  }

  /** Drop one carriage return at the end of a line that was ended by a line feed. */
  function StripCR(line: Bytes): Bytes
  {
    if line != [] && line[|line| - 1] == CR then line[..|line| - 1] else line
  }

  /**
    `str::lines`: split at every line feed, drop a carriage return just before
    a line feed, and drop the empty piece after a final line feed.
  */
  function Lines(s: Bytes): (r: seq<Bytes>)
    ensures forall i :: 0 <= i < |r| ==> LF !in r[i]
    decreases |s|
  {
    if s == [] then []
    else match IndexOf(s, LF)
      case None => [s]
      case Some(i) => [StripCR(s[..i])] + Lines(s[i + 1..])
  }

  /** A line that can be written and read back by `Lines`. */
  predicate IsPlainLine(line: Bytes)
  {
    line != [] && LF !in line && line[|line| - 1] != CR
  }

  /** A line feed after a line-feed-free prefix ends the first line. */
  lemma LinesSplit(line: Bytes, rest: Bytes)
    requires LF !in line
    ensures Lines(line + [LF] + rest) == [StripCR(line)] + Lines(rest)
  {
    var s := line + [LF] + rest;
    IndexOfSeparator(line, LF, rest);
    assert s[..|line|] == line;
    assert s[|line| + 1..] == rest;
  }

  /** `lines` undoes `join("\n")` for non-empty lines without line feeds or a trailing carriage return. */
  lemma {:induction false} LinesOfJoin(lines: seq<Bytes>)
    requires forall i :: 0 <= i < |lines| ==> IsPlainLine(lines[i])
    ensures Lines(Join(lines)) == lines
  {
    if |lines| == 1 {
      assert IndexOf(lines[0], LF).None?;
    } else if |lines| > 1 {
      LinesOfJoinStep(lines);
      assert forall i :: 0 <= i < |lines[1..]| ==> IsPlainLine(lines[1..][i]) by {
        assert forall i :: 0 <= i < |lines[1..]| ==> lines[1..][i] == lines[i + 1];
      }
      LinesOfJoin(lines[1..]);
      assert [lines[0]] + lines[1..] == lines;
    }
  }

  /** The first of several joined plain lines is split off by `lines`. */
  lemma LinesOfJoinStep(lines: seq<Bytes>)
    requires |lines| > 1 && IsPlainLine(lines[0])
    ensures Lines(Join(lines)) == [lines[0]] + Lines(Join(lines[1..]))
  {
    LinesSplit(lines[0], Join(lines[1..]));
  }
}
