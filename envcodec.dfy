/**
  The `.env` text the vault reads and writes: the line parser inside
  `import_from_env_string`, and the `KEY="VALUE"` lines of
  `export_to_env_string` and of the shell file written by `sync_to_shell`.
*/
module EnvCodec {
  import opened Options
  import opened ByteStrings
  import opened Text
  import opened Table

  /** The value as the importer stores it: trimmed, then `"` and then `'` stripped from its ends. */
  function Unquote(raw: Bytes): Bytes
  {
    TrimSet(TrimSet(Trim(raw), {DQUOTE}), {SQUOTE})
  }

  /** `split_once('=')` on a trimmed line, keeping the pair when the trimmed key is non-empty. */
  function ParseRecord(t: Bytes): Option<Pair>
  {
    match IndexOf(t, EQUALS)
    case None => None
    case Some(i) =>
      var key := Trim(t[..i]);
      if key == [] then None else Some(Pair(key, Unquote(t[i + 1..])))
  }

  /**
    One line of the import loop: trim it, skip it when blank or a `#` comment,
    and otherwise split it into a key and a value.
  */
  function ParseLine(line: Bytes): Option<Pair>
  {
    var t := Trim(line);
    if t == [] || t[0] == HASH then None else ParseRecord(t)
  }

  /**
    A line the import counts: after trimming it is non-empty, does not start
    with `#`, and has a non-blank byte before a first `=`.
  */
  predicate IsRecordLine(line: Bytes)
  {
    var t := Trim(line);
    && t != []
    && t[0] != HASH
    && EQUALS in t
    && exists j :: 0 <= j < |t| && EQUALS !in t[..j + 1] && t[j] !in WHITESPACE
  }

  /** On a trimmed line, a key is found exactly when there is a `=` and the line does not start with it. */
  lemma ParseRecordSome(t: Bytes)
    requires t != [] && t[0] !in WHITESPACE
    ensures ParseRecord(t).Some? <==> EQUALS in t && t[0] != EQUALS
  {
    match IndexOf(t, EQUALS)
    case None =>
    case Some(i) =>
      if i > 0 {
        assert t[..i][0] == t[0];
        TrimSetKeepsFirst(t[..i], WHITESPACE);
      }
  }

  /** The key found on a trimmed line starts with the line's first byte, ends outside whitespace and holds no `=`. */
  lemma ParseRecordKey(t: Bytes)
    requires t != [] && t[0] !in WHITESPACE && ParseRecord(t).Some?
    ensures var key := ParseRecord(t).value.key;
      && key != [] && key[0] == t[0] && EQUALS !in key && key[|key| - 1] !in WHITESPACE
  {
    var i := IndexOf(t, EQUALS).value;
    var k := t[..i];
    assert k[0] == t[0];
    TrimSetKeepsFirst(k, WHITESPACE);
    TrimSetEnds(k, WHITESPACE);
    TrimSetSlice(k, WHITESPACE);
  }

  /** The stored value never starts or ends with `'`. */
  lemma UnquoteEnds(raw: Bytes)
    ensures var v := Unquote(raw); v == [] || (v[0] != SQUOTE && v[|v| - 1] != SQUOTE)
  {
    TrimSetEnds(TrimSet(Trim(raw), {DQUOTE}), {SQUOTE});
  }

  /** The exists of `IsRecordLine` is witnessed by the first byte of the trimmed line. */
  lemma RecordLineFirstByte(t: Bytes)
    requires t != [] && t[0] !in WHITESPACE
    ensures (exists j :: 0 <= j < |t| && EQUALS !in t[..j + 1] && t[j] !in WHITESPACE) <==> t[0] != EQUALS
  {
    if t[0] != EQUALS {
      assert t[..1] == [t[0]];
    } else {
      forall j | 0 <= j < |t| && t[j] !in WHITESPACE
        ensures EQUALS in t[..j + 1]
      {
        assert t[..j + 1][0] == EQUALS;
      }
    }
  }

  /**
    A line yields a pair exactly when it is a record line; the key is then
    non-empty, free of `=`, does not start with `#` and has no whitespace at its
    ends, and the value has no `'` at its ends.
  */
  lemma ParseLineSpec(line: Bytes)
    ensures ParseLine(line).Some? <==> IsRecordLine(line)
    ensures ParseLine(line).Some? ==>
      var p := ParseLine(line).value;
      && p.key != [] && EQUALS !in p.key && p.key[0] != HASH
      && p.key[0] !in WHITESPACE && p.key[|p.key| - 1] !in WHITESPACE
      && (p.value == [] || (p.value[0] != SQUOTE && p.value[|p.value| - 1] != SQUOTE))
  {
    var t := Trim(line);
    TrimSetEnds(line, WHITESPACE);
    if t != [] && t[0] != HASH {
      ParseRecordSome(t);
      RecordLineFirstByte(t);
      if ParseRecord(t).Some? {
        ParseRecordKey(t);
        UnquoteEnds(t[IndexOf(t, EQUALS).value + 1..]);
      }
    }
  }

  /** The pairs of a sequence of lines, in order. */
  function ParseLines(lines: seq<Bytes>): seq<Pair>
    decreases |lines|
  {
    if lines == [] then []
    else
      var n := |lines| - 1;
      ParseLines(lines[..n]) + (match ParseLine(lines[n]) case Some(p) => [p] case None => [])
  }

  lemma ParseLinesSnoc(lines: seq<Bytes>, line: Bytes, p: Pair)
    requires ParseLine(line) == Some(p)
    ensures ParseLines(lines + [line]) == ParseLines(lines) + [p]
  {
    assert (lines + [line])[..|lines|] == lines;
  }

  /** Reading one more line of a file adds that line's pair, if it has one. */
  lemma ParseLinesPrefix(lines: seq<Bytes>, i: nat)
    requires i < |lines|
    ensures ParseLine(lines[i]).Some? ==> ParseLines(lines[..i + 1]) == ParseLines(lines[..i]) + [ParseLine(lines[i]).value]
    ensures ParseLine(lines[i]).None? ==> ParseLines(lines[..i + 1]) == ParseLines(lines[..i])
  {
    assert lines[..i + 1][..i] == lines[..i];
  }

  /** The pairs that importing `content` adds, in order. */
  function Parse(content: Bytes): seq<Pair>
  {
    ParseLines(Lines(content))
  }

  function CountRecordLines(lines: seq<Bytes>): nat
    decreases |lines|
  {
    if lines == [] then 0
    else CountRecordLines(lines[..|lines| - 1]) + (if IsRecordLine(lines[|lines| - 1]) then 1 else 0)
  }

  /** The importer adds one pair per record line. */
  lemma {:induction false} ParseLinesCount(lines: seq<Bytes>)
    ensures |ParseLines(lines)| == CountRecordLines(lines)
    decreases |lines|
  {
    if lines != [] {
      ParseLinesCount(lines[..|lines| - 1]);
      ParseLineSpec(lines[|lines| - 1]);
    }
  }

  /** `v.replace('"', "\\\"")`. */
  function Escape(v: Bytes): (r: Bytes)
    ensures |v| <= |r|
  {
    if v == [] then []
    else
      var rest := Escape(v[1..]);
      if v[0] == DQUOTE then [BACKSLASH, DQUOTE] + rest else [v[0]] + rest
  }

  /**
    Escaping adds only backslashes, leaves a value without `"` as it is, and
    puts a backslash before every `"`, so the escaped value never starts with one.
  */
  lemma {:induction false} EscapeSpec(v: Bytes)
    ensures var r := Escape(v);
      && (forall b :: b in r ==> b in v || b == BACKSLASH)
      && (DQUOTE !in v ==> r == v)
      && (r == [] || r[0] != DQUOTE)
      && (forall i :: 0 <= i < |r| && r[i] == DQUOTE ==> i > 0 && r[i - 1] == BACKSLASH)
  {
    if v != [] {
      EscapeSpec(v[1..]);
      var rest := Escape(v[1..]);
      var r := Escape(v);
      assert forall b :: b in v[1..] ==> b in v;
      if v[0] == DQUOTE {
        assert r == [BACKSLASH, DQUOTE] + rest;
        forall i | 0 <= i < |r| && r[i] == DQUOTE
          ensures i > 0 && r[i - 1] == BACKSLASH
        {
          if i >= 2 { assert r[i] == rest[i - 2]; if i >= 3 { assert r[i - 1] == rest[i - 3]; } }
        }
      } else {
        assert r == [v[0]] + rest;
        forall i | 0 <= i < |r| && r[i] == DQUOTE
          ensures i > 0 && r[i - 1] == BACKSLASH
        {
          if i >= 1 { assert r[i] == rest[i - 1]; if i >= 2 { assert r[i - 1] == rest[i - 2]; } }
        }
      }
    }
  }

  /** Reading `\"` back as `"`: what the export format needs to be lossless. */
  function Unescape(s: Bytes): Bytes
  {
    if s == [] then []
    else if |s| >= 2 && s[0] == BACKSLASH && s[1] == DQUOTE then [DQUOTE] + Unescape(s[2..])
    else [s[0]] + Unescape(s[1..])
  }

  /** Escaping loses nothing: every value can be recovered from its escaped form. */
  lemma {:induction false} UnescapeEscape(v: Bytes)
    ensures Unescape(Escape(v)) == v
  {
    if v != [] {
      var rest := Escape(v[1..]);
      UnescapeEscape(v[1..]);
      if v[0] == DQUOTE {
        assert ([BACKSLASH, DQUOTE] + rest)[2..] == rest;
      } else {
        assert ([v[0]] + rest)[1..] == rest;
      }
      assert [v[0]] + v[1..] == v;
    }
  }

  /** `format!("{}=\"{}\"", k, escaped v)`. */
  function EnvLine(key: Bytes, value: Bytes): Bytes
  {
    key + [EQUALS, DQUOTE] + Escape(value) + [DQUOTE]
  }

  function EnvLines(rows: seq<Row>): seq<Bytes>
  {
    seq(|rows|, i requires 0 <= i < |rows| => EnvLine(rows[i].key, rows[i].value))
  }

  /** The text `export_to_env_string` returns: one line per row in key order, joined by `\n`. */
  function ExportText(rows: seq<Row>): (text: Bytes)
    requires UniqueKeys(rows)
    ensures text == [] <==> rows == []
    ensures text != [] ==> text[|text| - 1] == DQUOTE
  {
    var lines := EnvLines(SortByKey(rows));
    if |lines| > 0 then
      assert lines[|lines| - 1][|lines[|lines| - 1]| - 1] == DQUOTE;
      JoinEnd(lines);
      Join(lines)
    else Join(lines)
  }

  /** `export ` */
  const EXPORT_PREFIX: Bytes := [101, 120, 112, 111, 114, 116, 32]

  function ShellLines(rows: seq<Row>): seq<Bytes>
  {
    seq(|rows|, i requires 0 <= i < |rows| => EXPORT_PREFIX + EnvLine(rows[i].key, rows[i].value))
  }

  /** The content `sync_to_shell` writes to `~/.envvault`. */
  function ShellText(rows: seq<Row>): Bytes
    requires UniqueKeys(rows)
  {
    Join(ShellLines(SortByKey(rows)))
  }

  /** A key that survives export and import unchanged. */
  predicate ExportableKey(key: Bytes)
  {
    && key != []
    && key[0] !in WHITESPACE && key[|key| - 1] !in WHITESPACE
    && key[0] != HASH
    && EQUALS !in key && LF !in key
  }

  /** A value that survives export and import unchanged. */
  predicate ExportableValue(value: Bytes)
  {
    && DQUOTE !in value && LF !in value
    && (value == [] || (value[0] != SQUOTE && value[|value| - 1] != SQUOTE))
  }

  /** A line `key=raw` with a clean key and no blank at its end is read as that key and `raw` unquoted. */
  lemma ParseKeyValueLine(line: Bytes, key: Bytes, raw: Bytes)
    requires line == key + [EQUALS] + raw
    requires ExportableKey(key)
    requires raw == [] || raw[|raw| - 1] !in WHITESPACE
    ensures ParseLine(line) == Some(Pair(key, Unquote(raw)))
  {
    assert line[0] == key[0];
    TrimSetNoOp(line, WHITESPACE);
    IndexOfSeparator(key, EQUALS, raw);
    assert line[..|key|] == key;
    assert line[|key| + 1..] == raw;
    TrimSetNoOp(key, WHITESPACE);
  }

  /** Unquoting a double-quoted exportable value gives back the value. */
  lemma UnquoteQuoted(value: Bytes)
    requires ExportableValue(value)
    ensures Unquote([DQUOTE] + value + [DQUOTE]) == value
  {
    var quoted := [DQUOTE] + value + [DQUOTE];
    TrimSetNoOp(quoted, WHITESPACE);
    TrimSetOneLayer(value, DQUOTE);
    TrimSetNoOp(value, {SQUOTE});
  }

  /** An exported line is the key, `=`, and the escaped value in double quotes. */
  lemma EnvLineShape(key: Bytes, value: Bytes, escaped: Bytes)
    requires Escape(value) == escaped
    ensures EnvLine(key, value) == key + [EQUALS] + ([DQUOTE] + escaped + [DQUOTE])
  {
  }

  /** Importing one exported line gives back its key and value. */
  lemma ParseEnvLine(key: Bytes, value: Bytes)
    requires ExportableKey(key) && ExportableValue(value)
    ensures ParseLine(EnvLine(key, value)) == Some(Pair(key, value))
  {
    var quoted := [DQUOTE] + value + [DQUOTE];
    EscapeSpec(value);
    EnvLineShape(key, value, value);
    ParseKeyValueLine(EnvLine(key, value), key, quoted);
    UnquoteQuoted(value);
  }

  /** The lines the export writes can be read back one by one. */
  lemma ExportLinesArePlain(rows: seq<Row>)
    requires forall x :: x in rows ==> LF !in x.key && LF !in x.value
    ensures forall i :: 0 <= i < |rows| ==> IsPlainLine(EnvLines(rows)[i])
    ensures forall i :: 0 <= i < |rows| ==> IsPlainLine(ShellLines(rows)[i])
  {
    forall i | 0 <= i < |rows|
      ensures IsPlainLine(EnvLines(rows)[i]) && IsPlainLine(ShellLines(rows)[i])
    {
      assert rows[i] in rows;
      var e := Escape(rows[i].value);
      EscapeSpec(rows[i].value);
      assert LF !in e;
      var l := EnvLine(rows[i].key, rows[i].value);
      assert LF !in EXPORT_PREFIX;
      assert ShellLines(rows)[i] == EXPORT_PREFIX + l;
    }
  }

  function PairsOf(rows: seq<Row>): seq<Pair>
  {
    seq(|rows|, i requires 0 <= i < |rows| => Pair(rows[i].key, rows[i].value))
  }

  lemma EnvLinesSnoc(rows: seq<Row>, x: Row)
    ensures EnvLines(rows + [x]) == EnvLines(rows) + [EnvLine(x.key, x.value)]
  {
  }

  lemma PairsOfSnoc(rows: seq<Row>, x: Row)
    ensures PairsOf(rows + [x]) == PairsOf(rows) + [Pair(x.key, x.value)]
  {
  }

  lemma {:induction false} ParseExportedLines(rows: seq<Row>)
    requires forall x :: x in rows ==> ExportableKey(x.key) && ExportableValue(x.value)
    ensures ParseLines(EnvLines(rows)) == PairsOf(rows)
    decreases |rows|
  {
    if rows != [] {
      var n := |rows| - 1;
      var x := rows[n];
      var front := rows[..n];
      var line := EnvLine(x.key, x.value);
      assert ParseLines(EnvLines(front)) == PairsOf(front) by {
        assert forall y :: y in front ==> y in rows;
        ParseExportedLines(front);
      }
      assert ParseLine(line) == Some(Pair(x.key, x.value)) by {
        assert x in rows;
        ParseEnvLine(x.key, x.value);
      }
      EnvLinesSnoc(front, x);
      assert rows == front + [x];
      ParseLinesSnoc(EnvLines(front), line, Pair(x.key, x.value));
      PairsOfSnoc(front, x);
    }
  }

  /**
    Export followed by import reproduces the `(key, value)` pairs in key order,
    for keys that are non-empty, trimmed, free of `=` and line feeds and do not
    start with `#`, and values free of `"` and line feeds with no `'` at their
    ends.
  */
  lemma ExportImportRoundTrip(rows: seq<Row>)
    requires UniqueKeys(rows)
    requires forall x :: x in rows ==> ExportableKey(x.key) && ExportableValue(x.value)
    ensures Parse(ExportText(rows)) == PairsOf(SortByKey(rows))
  {
    var sorted := SortByKey(rows);
    assert forall x :: x in sorted ==> x in multiset(rows);
    ExportLinesArePlain(sorted);
    LinesOfJoin(EnvLines(sorted));
    ParseExportedLines(sorted);
  }

  /** With unique keys, the last pair for a key carries the value the table holds for it. */
  lemma {:induction false} LastValuePairsOf(rows: seq<Row>, key: Bytes)
    requires UniqueKeys(rows)
    ensures LastValue(PairsOf(rows), key) == ValueOfKey(rows, key)
    decreases |rows|
  {
    if rows != [] {
      var n := |rows| - 1;
      var front := rows[..n];
      var pairs := PairsOf(rows);
      assert pairs[..n] == PairsOf(front);
      LastValueUnfold(pairs, key);
      assert rows[n] in rows;
      if key == rows[n].key {
        ValueOfKeyUnique(rows, rows[n]);
      } else {
        assert UniqueKeys(front);
        LastValuePairsOf(front, key);
        assert rows == front + [rows[n]];
        ValueOfKeyAgree(front, rows, key);
      }
    }
  }

  /**
    Exporting a table and importing the text into an empty table gives every
    key the value it had, under the same conditions as `ExportImportRoundTrip`.
  */
  lemma ExportImportRestoresValues(rows: seq<Row>, key: Bytes)
    requires UniqueKeys(rows)
    requires forall x :: x in rows ==> ExportableKey(x.key) && ExportableValue(x.value)
    ensures ValueOfKey(ApplyPairs([], 0, Parse(ExportText(rows))), key) == ValueOfKey(rows, key)
  {
    var sorted := SortByKey(rows);
    ExportImportRoundTrip(rows);
    ApplyPairsLastWins([], 0, PairsOf(sorted), key);
    SortedUnique(sorted);
    LastValuePairsOf(sorted, key);
    assert forall x :: x in sorted <==> x in multiset(rows);
    ValueOfKeyAgree(sorted, rows, key);
  }

  /** Every line of the shell file is the matching export line behind `export `. */
  lemma ShellTextLines(rows: seq<Row>)
    requires UniqueKeys(rows)
    requires forall x :: x in rows ==> LF !in x.key && LF !in x.value
    ensures var exported := Lines(ExportText(rows));
      Lines(ShellText(rows)) == seq(|exported|, i requires 0 <= i < |exported| => EXPORT_PREFIX + exported[i])
  {
    var sorted := SortByKey(rows);
    SortedRowsExportable(rows);
    ExportLinesArePlain(sorted);
    LinesOfJoin(EnvLines(sorted));
    LinesOfJoin(ShellLines(sorted));
    ShellLinesArePrefixed(sorted);
  }

  /** Sorting keeps the rows, so what holds of every row holds of every sorted row. */
  lemma SortedRowsExportable(rows: seq<Row>)
    requires UniqueKeys(rows)
    requires forall x :: x in rows ==> LF !in x.key && LF !in x.value
    ensures forall x :: x in SortByKey(rows) ==> LF !in x.key && LF !in x.value
  {
    var sorted := SortByKey(rows);
    assert forall x :: x in sorted ==> x in multiset(rows);
  }

  /** Each shell line is the matching env line with the `export ` prefix. */
  lemma ShellLinesArePrefixed(rows: seq<Row>)
    ensures var env := EnvLines(rows);
      ShellLines(rows) == seq(|env|, i requires 0 <= i < |env| => EXPORT_PREFIX + env[i])
  {
  }

  /** Escaping works piece by piece. */
  lemma {:induction false} EscapeAppend(x: Bytes, y: Bytes)
    ensures Escape(x + y) == Escape(x) + Escape(y)
  {
    if x != [] {
      assert (x + y)[0] == x[0] && (x + y)[1..] == x[1..] + y;
      EscapeAppend(x[1..], y);
    } else {
      assert x + y == y;
    }
  }

  /**
    The importer does not undo the export's escaping: a value `a"b` is
    exported as `KEY="a\"b"` and read back as `a\"b`, backslash included.
  */
  lemma EscapedQuoteIsNotRestored(key: Bytes, value: Bytes, line: Bytes, a: Bytes, b: Bytes)
    requires ExportableKey(key)
    requires value == a + [DQUOTE] + b && line == EnvLine(key, value)
    requires DQUOTE !in a && DQUOTE !in b
    requires a == [] || a[0] != SQUOTE
    requires b != [] && b[|b| - 1] != SQUOTE
    ensures Escape(value) == a + [BACKSLASH, DQUOTE] + b
    ensures ParseLine(line) == Some(Pair(key, a + [BACKSLASH, DQUOTE] + b))
  {
    var e := a + [BACKSLASH, DQUOTE] + b;
    var quoted := [DQUOTE] + e + [DQUOTE];
    assert quoted[|quoted| - 1] !in WHITESPACE;
    EscapeQuoteBetween(a, b);
    EnvLineShape(key, value, e);
    ParseKeyValueLine(line, key, quoted);
    UnquoteEscaped(a, b);
  }

  /** The one `"` between two quote-free pieces is the one byte escaping changes. */
  lemma EscapeQuoteBetween(a: Bytes, b: Bytes)
    requires DQUOTE !in a && DQUOTE !in b
    ensures Escape(a + [DQUOTE] + b) == a + [BACKSLASH, DQUOTE] + b
  {
    EscapeSpec(a);
    EscapeSpec(b);
    EscapeAppend(a, [DQUOTE] + b);
    EscapeAppend([DQUOTE], b);
    assert [DQUOTE][1..] == [];
    assert a + ([DQUOTE] + b) == a + [DQUOTE] + b;
  }

  /** The quotes around an escaped value come off; the backslash stays. */
  lemma UnquoteEscaped(a: Bytes, b: Bytes)
    requires DQUOTE !in a && DQUOTE !in b
    requires a == [] || a[0] != SQUOTE
    requires b != [] && b[|b| - 1] != SQUOTE
    ensures var e := a + [BACKSLASH, DQUOTE] + b; Unquote([DQUOTE] + e + [DQUOTE]) == e
  {
    var e := a + [BACKSLASH, DQUOTE] + b;
    var quoted := [DQUOTE] + e + [DQUOTE];
    assert e[0] != DQUOTE && e[0] != SQUOTE by {
      if a == [] { assert e[0] == BACKSLASH; } else { assert e[0] == a[0] && a[0] in a; }
    }
    assert e[|e| - 1] == b[|b| - 1] && b[|b| - 1] in b;
    TrimSetNoOp(quoted, WHITESPACE);
    assert TrimStart(quoted, {DQUOTE}) == e + [DQUOTE] by {
      assert quoted[1..] == e + [DQUOTE];
    }
    assert TrimEnd(e + [DQUOTE], {DQUOTE}) == e by {
      assert (e + [DQUOTE])[..|e|] == e;
    }
    TrimSetNoOp(e, {SQUOTE});
  }
}
