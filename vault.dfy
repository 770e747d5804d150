/**
  The vault as the Node.js side sees it: one `secrets` table behind the
  exported functions of the core library. Each function opens the same
  database, so the model keeps the table in one object whose methods are
  those functions.
*/
module Vault {
  import opened Options
  import opened ByteStrings
  import opened KeyOrder
  import opened SqlLike
  import opened Mask
  import opened Table
  import opened EnvCodec
  import opened ShellSync

  /** The counter `import_from_env_string` returns is a `u32` that wraps around. */
  const U32_MODULUS: nat := 0x1_0000_0000

  /** Counting one more import on the wrapped counter is counting it before wrapping. */
  lemma WrapIncrement(c: nat, n: nat)
    requires c == n % U32_MODULUS
    ensures (c + 1) % U32_MODULUS == (n + 1) % U32_MODULUS
  {
  }

  class SecretStore {
    /** The rows of `secrets`, in rowid order. */
    var rows: seq<Row>
    /** The largest rowid AUTOINCREMENT has issued. */
    var lastId: nat

    ghost predicate Valid()
      reads this
    {
      Consistent(rows, lastId)
    }

    /** `init_database` on a new file: an empty table whose counter has issued nothing. */
    constructor ()
      ensures Valid()
      ensures rows == [] && lastId == 0
    {
      rows := [];
      lastId := 0;
    }

    /**
      `add_secret`: INSERT OR REPLACE. The key ends up in exactly one row, with
      the new value and a rowid above every earlier one; other keys keep their
      values.
    */
    method AddSecret(key: Bytes, value: Bytes) returns (ok: bool)
      requires Valid()
      modifies this
      ensures Valid()
      ensures ok
      ensures rows == InsertOrReplace(old(rows), old(lastId), key, value)
      ensures lastId == old(lastId) + 1
      ensures rows[|rows| - 1] == Row(lastId, key, value)
      ensures forall x :: x in old(rows) ==> x.id < lastId
      ensures forall k :: ValueOfKey(rows, k) == if k == key then Some(value) else ValueOfKey(old(rows), k)
    {
      InsertOrReplaceSpec(rows, lastId, key, value);
      forall k
        ensures ValueOfKey(InsertOrReplace(rows, lastId, key, value), k)
             == if k == key then Some(value) else ValueOfKey(rows, k)
      {
        ValueOfKeyAfterInsert(rows, lastId, key, value, k);
      }
      rows := InsertOrReplace(rows, lastId, key, value);
      lastId := lastId + 1;
      ok := true;
    }

    /** `delete_secret`: removes the row with that id, if any, and reports success either way. */
    method DeleteSecret(id: nat) returns (ok: bool)
      requires Valid()
      modifies this
      ensures Valid()
      ensures ok
      ensures rows == DeleteById(old(rows), id)
      ensures lastId == old(lastId)
      ensures forall x :: x in rows <==> x in old(rows) && x.id != id
      ensures LookupId(rows, id) == None
    {
      DeleteByIdSpec(rows, lastId, id);
      rows := DeleteById(rows, id);
      ok := true;
    }

    /** `update_secret`: sets the value of the row with that id, if any, and reports success either way. */
    method UpdateSecret(id: nat, value: Bytes) returns (ok: bool)
      requires Valid()
      modifies this
      ensures Valid()
      ensures ok
      ensures rows == UpdateById(old(rows), id, value)
      ensures lastId == old(lastId)
      ensures LookupId(rows, id) == if LookupId(old(rows), id).Some? then Some(value) else None
    {
      UpdateByIdSpec(rows, lastId, id, value);
      rows := UpdateById(rows, id, value);
      ok := true;
    }

    /** `get_full_secret`: the unmasked value of the row with that id, or nothing. */
    method GetFullSecret(id: nat) returns (r: Option<Bytes>)
      requires Valid()
      ensures r.None? <==> forall x :: x in rows ==> x.id != id
      ensures forall x :: x in rows && x.id == id ==> r == Some(x.value)
    {
      r := LookupId(rows, id);
      forall x | x in rows && x.id == id
        ensures r == Some(x.value)
      {
        LookupIdUnique(rows, x);
      }
    }

    /**
      `search_vault`: up to 20 masked rows whose key matches `%query%`
      ignoring ASCII case, in key order, with no matching row left out that
      sorts before a returned one. Masking panics unless the cut points of each
      listed value are character boundaries.
    */
    method SearchVault(query: Bytes) returns (items: seq<SecretItem>)
      requires Valid()
      requires forall x :: x in SearchRows(rows, query) ==> Maskable(x.value)
      ensures items == Project(SearchRows(rows, query))
      ensures |items| <= 20
      ensures forall i, j :: 0 <= i < j < |items| ==> Less(items[i].key, items[j].key)
      ensures forall it :: it in items ==> Like(SearchPattern(query), it.key)
      ensures forall it :: it in items ==> exists x :: x in rows && Shows(it, x)
      ensures !HasWildcards(query) ==> forall it :: it in items ==> ContainsIgnoreCase(it.key, query)
    {
      var r := SearchRows(rows, query);
      SearchRowsSpec(rows, query);
      ProjectSpec(r, rows);
      items := Project(r);
      forall it | it in items
        ensures Like(SearchPattern(query), it.key)
        ensures !HasWildcards(query) ==> ContainsIgnoreCase(it.key, query)
      {
        var i :| 0 <= i < |items| && items[i] == it;
        assert r[i] in r;
      }
    }

    /**
      `get_all_secrets`: the first 50 rows in key order, masked; all of them
      when there are at most 50.
    */
    method GetAllSecrets() returns (items: seq<SecretItem>)
      requires Valid()
      requires forall x :: x in ListRows(rows) ==> Maskable(x.value)
      ensures items == Project(ListRows(rows))
      ensures |items| == if |rows| < 50 then |rows| else 50
      ensures forall i, j :: 0 <= i < j < |items| ==> Less(items[i].key, items[j].key)
      ensures forall it :: it in items ==> exists x :: x in rows && Shows(it, x)
    {
      var r := ListRows(rows);
      ListRowsSpec(rows);
      ProjectSpec(r, rows);
      items := Project(r);
    }

    /**
      The `INSERT OR REPLACE` the import loop runs for one parsed pair: after
      the pairs read so far, one more add with the next rowid.
    */
    method ImportPair(p: Pair, ghost rows0: seq<Row>, ghost lastId0: nat, ghost pairs: seq<Pair>)
      requires Valid()
      requires rows == ApplyPairs(rows0, lastId0, pairs) && lastId == lastId0 + |pairs|
      modifies this
      ensures Valid()
      ensures rows == ApplyPairs(rows0, lastId0, pairs + [p]) && lastId == lastId0 + |pairs| + 1
    {
      ApplyPairsSnoc(rows0, lastId0, pairs, p);
      InsertOrReplaceConsistent(rows, lastId, p.key, p.value);
      rows := InsertOrReplace(rows, lastId, p.key, p.value);
      lastId := lastId + 1;
    }

    /**
      Where the import loop stands after reading `lines[..i]`: the pairs of
      those lines have been added in order, and `imported` counts them on a
      wrapping `u32`.
    */
    ghost predicate ImportedPrefix(rows0: seq<Row>, lastId0: nat, lines: seq<Bytes>, i: nat, imported: nat)
      requires i <= |lines|
      reads this
    {
      var pairs := ParseLines(lines[..i]);
      && Valid()
      && rows == ApplyPairs(rows0, lastId0, pairs)
      && lastId == lastId0 + |pairs|
      && imported == |pairs| % U32_MODULUS
    }

    /**
      One turn of the import loop: parse line `i` and, when it is a record,
      add its pair and count it.
    */
    method ImportLine(lines: seq<Bytes>, i: nat, imported: nat, ghost rows0: seq<Row>, ghost lastId0: nat)
      returns (count: nat)
      requires i < |lines|
      requires ImportedPrefix(rows0, lastId0, lines, i, imported)
      modifies this
      ensures ImportedPrefix(rows0, lastId0, lines, i + 1, count)
    {
      ghost var pairs := ParseLines(lines[..i]);
      var parsed := ParseLine(lines[i]);
      ParseLinesPrefix(lines, i);
      count := imported;
      if parsed.Some? {
        ImportPair(parsed.value, rows0, lastId0, pairs);
        WrapIncrement(imported, |pairs|);
        count := (imported + 1) % U32_MODULUS;
      }
    }

    /**
      `import_from_env_string`: adds the pair of every record line in order,
      so a later line for a key overrides an earlier one, and returns how many
      it added, modulo 2^32.
    */
    method ImportFromEnvString(content: Bytes) returns (imported: nat)
      requires Valid()
      modifies this
      ensures Valid()
      ensures rows == ApplyPairs(old(rows), old(lastId), Parse(content))
      ensures lastId == old(lastId) + |Parse(content)|
      ensures imported == CountRecordLines(Text.Lines(content)) % U32_MODULUS
    {
      var lines := Text.Lines(content);
      ghost var rows0, lastId0 := rows, lastId;
      imported := 0;
      var i := 0;
      assert lines[..0] == [];
      while i < |lines|
        invariant 0 <= i <= |lines|
        invariant ImportedPrefix(rows0, lastId0, lines, i, imported)
      {
        imported := ImportLine(lines, i, imported, rows0, lastId0);
        i := i + 1;
      }
      assert lines[..i] == lines;
      ParseLinesCount(lines);
    }

    /** `export_to_env_string`: one `KEY="VALUE"` line per row in key order. */
    method ExportToEnvString() returns (text: Bytes)
      requires Valid()
      ensures text == ExportText(rows)
      ensures text == [] <==> rows == []
    {
      text := ExportText(rows);
    }

    /**
      `sync_to_shell`: writes the `export KEY="VALUE"` lines to `~/.envvault`,
      then visits `.zshrc`, `.bashrc` and `.bash_profile` and appends the source
      line to each that exists and does not source the vault yet.
    */
    method SyncToShell(home: Home) returns (ok: bool)
      requires Valid()
      modifies home
      ensures ok
      ensures home.files == SyncedFiles(old(home.files), ShellText(rows))
    {
      home.files := home.files[ENVVAULT_FILE := ShellText(rows)];
      ghost var written := home.files;
      var i := 0;
      while i < |PROFILE_NAMES|
        invariant 0 <= i <= |PROFILE_NAMES|
        invariant home.files == AppendToProfiles(written, PROFILE_NAMES[..i])
      {
        var name := PROFILE_NAMES[i];
        AppendToProfilesPrefix(written, PROFILE_NAMES, i);
        if name in home.files {
          home.files := home.files[name := AppendSourceLine(home.files[name])];
        }
        i := i + 1;
      }
      assert PROFILE_NAMES[..i] == PROFILE_NAMES;
      ok := true;
    }
  }
}
