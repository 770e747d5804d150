/**
  The `secrets` table as pure values: a sequence of rows in rowid order and the
  AUTOINCREMENT counter (the largest rowid ever issued). Each statement the vault
  sends to SQLite is a function from the old rows to the new rows or to a result.
*/
module Table {
  import opened Options
  import opened ByteStrings
  import opened KeyOrder
  import opened SqlLike
  import opened Mask

  /** One row of `secrets` (the `created_at` and `updated_at` columns are not modelled). */
  datatype Row = Row(id: nat, key: Bytes, value: Bytes)

  /** A `(key, value)` pair read from a `.env` line. */
  datatype Pair = Pair(key: Bytes, value: Bytes)

  /** What `search_vault` and `get_all_secrets` hand back for a row. */
  datatype SecretItem = SecretItem(id: nat, key: Bytes, valueMasked: Bytes)

  /** The `UNIQUE` constraint on `key`. */
  predicate UniqueKeys(rows: seq<Row>)
  {
    forall i, j :: 0 <= i < j < |rows| ==> rows[i].key != rows[j].key
  }

  /** Rows are kept in rowid order; rowids are distinct. */
  predicate IdsAscending(rows: seq<Row>)
  {
    forall i, j :: 0 <= i < j < |rows| ==> rows[i].id < rows[j].id
  }

  /** Every rowid was issued by the AUTOINCREMENT counter. */
  predicate IdsIssued(rows: seq<Row>, lastId: nat)
  {
    forall x :: x in rows ==> 1 <= x.id <= lastId
  }

  predicate Consistent(rows: seq<Row>, lastId: nat)
  {
    UniqueKeys(rows) && IdsAscending(rows) && IdsIssued(rows, lastId)
  }

  /** The rows a `WHERE` clause keeps, in table order. */
  function Filter(rows: seq<Row>, keep: Row -> bool): (r: seq<Row>)
    ensures |r| <= |rows|
  {
    if rows == [] then []
    else if keep(rows[0]) then [rows[0]] + Filter(rows[1..], keep)
    else Filter(rows[1..], keep)
  }

  /** A row is kept exactly when it is in the table and satisfies the condition. */
  lemma {:induction false} FilterMembers(rows: seq<Row>, keep: Row -> bool)
    ensures forall x :: x in Filter(rows, keep) <==> x in rows && keep(x)
  {
    if rows != [] {
      FilterMembers(rows[1..], keep);
      assert forall x :: x in rows <==> x == rows[0] || x in rows[1..];
    }
  }

  /** Filtering keeps keys unique and rowids ascending. */
  lemma {:induction false} FilterOrdered(rows: seq<Row>, keep: Row -> bool)
    ensures UniqueKeys(rows) ==> UniqueKeys(Filter(rows, keep))
    ensures IdsAscending(rows) ==> IdsAscending(Filter(rows, keep))
  {
    if rows != [] {
      FilterOrdered(rows[1..], keep);
      assert UniqueKeys(rows) ==> UniqueKeys(rows[1..]);
      assert IdsAscending(rows) ==> IdsAscending(rows[1..]);
      if keep(rows[0]) {
        FilterMembers(rows[1..], keep);
        FilterCons(rows, Filter(rows[1..], keep));
      }
    }
  }

  /** Keeping the first row in front of rows kept from the rest preserves both orderings. */
  lemma FilterCons(rows: seq<Row>, rest: seq<Row>)
    requires rows != []
    requires forall y :: y in rest ==> y in rows[1..]
    requires UniqueKeys(rows[1..]) ==> UniqueKeys(rest)
    requires IdsAscending(rows[1..]) ==> IdsAscending(rest)
    ensures UniqueKeys(rows) ==> UniqueKeys([rows[0]] + rest)
    ensures IdsAscending(rows) ==> IdsAscending([rows[0]] + rest)
  {
    var r := [rows[0]] + rest;
    forall j | 0 < j < |r|
      ensures exists k :: 1 <= k < |rows| && r[j] == rows[k]
    {
      assert r[j] == rest[j - 1] && rest[j - 1] in rows[1..];
      var k :| 0 <= k < |rows[1..]| && rows[1..][k] == r[j];
      assert rows[k + 1] == r[j];
    }
    if UniqueKeys(rows) {
      assert UniqueKeys(rows[1..]);
      forall i, j | 0 <= i < j < |r|
        ensures r[i].key != r[j].key
      {
        if i == 0 {
          var k :| 1 <= k < |rows| && r[j] == rows[k];
        } else {
          assert r[i] == rest[i - 1] && r[j] == rest[j - 1];
        }
      }
    }
    if IdsAscending(rows) {
      assert IdsAscending(rows[1..]);
      forall i, j | 0 <= i < j < |r|
        ensures r[i].id < r[j].id
      {
        if i == 0 {
          var k :| 1 <= k < |rows| && r[j] == rows[k];
        } else {
          assert r[i] == rest[i - 1] && r[j] == rest[j - 1];
        }
      }
    }
  }

  lemma {:induction false} FilterAppend(a: seq<Row>, b: seq<Row>, keep: Row -> bool)
    ensures Filter(a + b, keep) == Filter(a, keep) + Filter(b, keep)
  {
    if a != [] {
      assert (a + b)[1..] == a[1..] + b;
      FilterAppend(a[1..], b, keep);
    } else {
      assert a + b == b;
    }
  }

  lemma {:induction false} FilterIdempotent(rows: seq<Row>, keep: Row -> bool)
    ensures Filter(Filter(rows, keep), keep) == Filter(rows, keep)
  {
    if rows != [] {
      FilterIdempotent(rows[1..], keep);
      var rest := Filter(rows[1..], keep);
      if keep(rows[0]) {
        assert ([rows[0]] + rest)[1..] == rest;
      }
    }
  }

  /** The table after `DELETE ... WHERE key = k`. */
  function WithoutKey(rows: seq<Row>, key: Bytes): seq<Row>
  {
    Filter(rows, (x: Row) => x.key != key)
  }

  /**
    `INSERT OR REPLACE INTO secrets (key, value, ...)` on a table whose key
    column is UNIQUE and whose id is AUTOINCREMENT: a row with the same key is
    deleted and a fresh row with the next rowid is inserted.
  */
  function InsertOrReplace(rows: seq<Row>, lastId: nat, key: Bytes, value: Bytes): seq<Row>
  {
    WithoutKey(rows, key) + [Row(lastId + 1, key, value)]
  }

  /**
    After an add exactly one row holds the key, it holds the new value and
    the newest rowid, and the rows of every other key are unchanged and in
    the same order.
  */
  lemma InsertOrReplaceSpec(rows: seq<Row>, lastId: nat, key: Bytes, value: Bytes)
    requires Consistent(rows, lastId)
    ensures var r := InsertOrReplace(rows, lastId, key, value);
      && Consistent(r, lastId + 1)
      && |r| > 0 && r[|r| - 1] == Row(lastId + 1, key, value)
      && (forall i :: 0 <= i < |r| - 1 ==> r[i].key != key)
      && WithoutKey(r, key) == WithoutKey(rows, key)
      && (forall x :: x in rows ==> x.id < r[|r| - 1].id)
  {
    var w := WithoutKey(rows, key);
    var n := Row(lastId + 1, key, value);
    WithoutKeyMembers(rows, key);
    AppendFresh(w, lastId, n);
    forall i | 0 <= i < |w|
      ensures (w + [n])[i].key != key
    {
      assert w[i] in w;
    }
    WithoutKeyAfterInsert(rows, key, n);
  }

  lemma InsertOrReplaceConsistent(rows: seq<Row>, lastId: nat, key: Bytes, value: Bytes)
    requires Consistent(rows, lastId)
    ensures Consistent(InsertOrReplace(rows, lastId, key, value), lastId + 1)
  {
    var w := WithoutKey(rows, key);
    WithoutKeyMembers(rows, key);
    AppendFresh(w, lastId, Row(lastId + 1, key, value));
  }

  /** Appending a row with a fresh key and the next rowid keeps a table consistent. */
  lemma AppendFresh(w: seq<Row>, lastId: nat, n: Row)
    requires Consistent(w, lastId)
    requires n.id == lastId + 1
    requires forall y :: y in w ==> y.key != n.key
    ensures Consistent(w + [n], lastId + 1)
  {
    var r := w + [n];
    forall i, j | 0 <= i < j < |r|
      ensures r[i].key != r[j].key && r[i].id < r[j].id
    {
      assert r[i] == w[i] && w[i] in w;
      if j < |w| {
        assert r[j] == w[j];
      }
    }
  }

  /** Deleting by key keeps exactly the other keys' rows, and keeps both orderings. */
  lemma WithoutKeyMembers(rows: seq<Row>, key: Bytes)
    ensures forall x :: x in WithoutKey(rows, key) <==> x in rows && x.key != key
    ensures UniqueKeys(rows) ==> UniqueKeys(WithoutKey(rows, key))
    ensures IdsAscending(rows) ==> IdsAscending(WithoutKey(rows, key))
  {
    var keep := (x: Row) => x.key != key;
    assert WithoutKey(rows, key) == Filter(rows, keep);
    FilterMembers(rows, keep);
    FilterOrdered(rows, keep);
  }

  lemma WithoutKeyAfterInsert(rows: seq<Row>, key: Bytes, n: Row)
    requires n.key == key
    ensures WithoutKey(WithoutKey(rows, key) + [n], key) == WithoutKey(rows, key)
  {
    var keep := (x: Row) => x.key != key;
    var w := Filter(rows, keep);
    FilterAppend(w, [n], keep);
    assert Filter([n], keep) == [] by {
      assert [n][1..] == [];
    }
    FilterIdempotent(rows, keep);
    assert w + [] == w;
  }

  /** The table after `DELETE FROM secrets WHERE id = ?1`. */
  function DeleteById(rows: seq<Row>, id: nat): seq<Row>
  {
    Filter(rows, (x: Row) => x.id != id)
  }

  lemma DeleteByIdMembers(rows: seq<Row>, id: nat)
    ensures forall x :: x in DeleteById(rows, id) <==> x in rows && x.id != id
    ensures UniqueKeys(rows) ==> UniqueKeys(DeleteById(rows, id))
    ensures IdsAscending(rows) ==> IdsAscending(DeleteById(rows, id))
  {
    var keep := (x: Row) => x.id != id;
    assert DeleteById(rows, id) == Filter(rows, keep);
    FilterMembers(rows, keep);
    FilterOrdered(rows, keep);
  }

  /** Delete removes the row with that id and keeps every other row, in order, with the counter untouched. */
  lemma DeleteByIdSpec(rows: seq<Row>, lastId: nat, id: nat)
    requires Consistent(rows, lastId)
    ensures var r := DeleteById(rows, id);
      && Consistent(r, lastId)
      && (forall x :: x in r <==> x in rows && x.id != id)
      && LookupId(r, id) == None
  {
    DeleteByIdMembers(rows, id);
  }

  /** The table after `UPDATE secrets SET value = ?1 WHERE id = ?2`. */
  function UpdateById(rows: seq<Row>, id: nat, value: Bytes): (r: seq<Row>)
  {
    seq(|rows|, i requires 0 <= i < |rows| => if rows[i].id == id then rows[i].(value := value) else rows[i])
  }

  /** Update changes the value of the row with that id only; ids, keys, order and all other rows stay. */
  lemma UpdateByIdSpec(rows: seq<Row>, lastId: nat, id: nat, value: Bytes)
    requires Consistent(rows, lastId)
    ensures var r := UpdateById(rows, id, value);
      && Consistent(r, lastId)
      && |r| == |rows|
      && (forall i :: 0 <= i < |r| ==> r[i].id == rows[i].id && r[i].key == rows[i].key)
      && (forall i :: 0 <= i < |r| && rows[i].id != id ==> r[i] == rows[i])
      && LookupId(r, id) == (if LookupId(rows, id).Some? then Some(value) else None)
  {
    UpdateKeepsConsistent(rows, lastId, id, value);
    UpdateLookup(rows, id, value);
  }

  lemma UpdateLookup(rows: seq<Row>, id: nat, value: Bytes)
    requires IdsAscending(rows)
    ensures LookupId(UpdateById(rows, id, value), id) == (if LookupId(rows, id).Some? then Some(value) else None)
  {
    var r := UpdateById(rows, id, value);
    assert IdsAscending(r);
    if LookupId(rows, id).Some? {
      var x :| x in rows && x.id == id && x.value == LookupId(rows, id).value;
      var i :| 0 <= i < |rows| && rows[i] == x;
      assert r[i] == Row(id, x.key, value);
      assert r[i] in r;
      LookupIdUnique(r, r[i]);
    } else {
      forall y | y in r
        ensures y.id != id
      {
        var i :| 0 <= i < |r| && r[i] == y;
        assert rows[i] in rows;
      }
    }
  }

  lemma UpdateKeepsConsistent(rows: seq<Row>, lastId: nat, id: nat, value: Bytes)
    requires Consistent(rows, lastId)
    ensures Consistent(UpdateById(rows, id, value), lastId)
  {
    var r := UpdateById(rows, id, value);
    forall y | y in r
      ensures 1 <= y.id <= lastId
    {
      var i :| 0 <= i < |r| && r[i] == y;
      assert rows[i] in rows;
    }
  }

  /** `SELECT value FROM secrets WHERE id = ?1` as `query_row` reads it: the first matching row. */
  function LookupId(rows: seq<Row>, id: nat): (r: Option<Bytes>)
    ensures r.None? <==> forall x :: x in rows ==> x.id != id
    ensures r.Some? ==> exists x :: x in rows && x.id == id && x.value == r.value
  {
    if rows == [] then None
    else if rows[0].id == id then Some(rows[0].value)
    else
      assert forall x :: x in rows ==> x == rows[0] || x in rows[1..];
      LookupId(rows[1..], id)
  }

  /** With distinct rowids, looking up a row's id returns that row's value. */
  lemma {:induction false} LookupIdUnique(rows: seq<Row>, x: Row)
    requires IdsAscending(rows) && x in rows
    ensures LookupId(rows, x.id) == Some(x.value)
  {
    if rows[0] != x {
      assert x in rows[1..];
      var j :| 0 <= j < |rows[1..]| && rows[1..][j] == x;
      assert rows[0].id < rows[j + 1].id;
      LookupIdUnique(rows[1..], x);
    }
  }

  /** The value stored under a key, if any. */
  function ValueOfKey(rows: seq<Row>, key: Bytes): (r: Option<Bytes>)
  {
    if rows == [] then None
    else if rows[0].key == key then Some(rows[0].value)
    else ValueOfKey(rows[1..], key)
  }

  /** `ValueOfKey` finds a value exactly when some row holds the key, and the value is that row's. */
  lemma {:induction false} ValueOfKeySpec(rows: seq<Row>, key: Bytes)
    ensures ValueOfKey(rows, key).None? <==> forall x :: x in rows ==> x.key != key
    ensures ValueOfKey(rows, key).Some? ==> exists x :: x in rows && x.key == key && x.value == ValueOfKey(rows, key).value
  {
    if rows != [] && rows[0].key != key {
      ValueOfKeySpec(rows[1..], key);
      assert forall x :: x in rows ==> x == rows[0] || x in rows[1..];
    }
  }

  lemma {:induction false} ValueOfKeyUnique(rows: seq<Row>, x: Row)
    requires UniqueKeys(rows) && x in rows
    ensures ValueOfKey(rows, x.key) == Some(x.value)
  {
    if rows[0] != x {
      assert x in rows[1..];
      var j :| 0 <= j < |rows[1..]| && rows[1..][j] == x;
      assert rows[0].key != rows[j + 1].key;
      ValueOfKeyUnique(rows[1..], x);
    }
  }

  /** Two tables with unique keys that hold the same rows under `key` agree on its value. */
  lemma ValueOfKeyAgree(a: seq<Row>, b: seq<Row>, key: Bytes)
    requires UniqueKeys(a) && UniqueKeys(b)
    requires forall x: Row :: x.key == key ==> (x in a <==> x in b)
    ensures ValueOfKey(a, key) == ValueOfKey(b, key)
  {
    ValueOfKeySpec(a, key);
    ValueOfKeySpec(b, key);
    if ValueOfKey(a, key).Some? {
      var x :| x in a && x.key == key && x.value == ValueOfKey(a, key).value;
      ValueOfKeyUnique(b, x);
    }
  }

  /** The rows after a sequence of adds, each with the next rowid. */
  function ApplyPairs(rows: seq<Row>, lastId: nat, pairs: seq<Pair>): seq<Row>
    decreases |pairs|
  {
    if pairs == [] then rows
    else
      var n := |pairs| - 1;
      InsertOrReplace(ApplyPairs(rows, lastId, pairs[..n]), lastId + n, pairs[n].key, pairs[n].value)
  }

  /** The value of the last pair with this key. */
  function LastValue(pairs: seq<Pair>, key: Bytes): Option<Bytes>
    decreases |pairs|
  {
    if pairs == [] then None
    else if pairs[|pairs| - 1].key == key then Some(pairs[|pairs| - 1].value)
    else LastValue(pairs[..|pairs| - 1], key)
  }

  lemma ValueOfKeyAfterInsert(rows: seq<Row>, lastId: nat, k: Bytes, v: Bytes, key: Bytes)
    requires UniqueKeys(rows)
    ensures ValueOfKey(InsertOrReplace(rows, lastId, k, v), key) == if key == k then Some(v) else ValueOfKey(rows, key)
  {
    var r := InsertOrReplace(rows, lastId, k, v);
    InsertOrReplaceUnique(rows, lastId, k, v);
    WithoutKeyMembers(rows, k);
    assert r[|r| - 1] in r;
    ValueOfKeySpec(rows, key);
    ValueOfKeySpec(r, key);
    if key == k {
      ValueOfKeyUnique(r, r[|r| - 1]);
    } else if ValueOfKey(rows, key).Some? {
      var x :| x in rows && x.key == key && x.value == ValueOfKey(rows, key).value;
      assert x in WithoutKey(rows, k);
      assert x in r;
      ValueOfKeyUnique(r, x);
    } else {
      assert forall y :: y in r ==> y in rows || y == r[|r| - 1];
    }
  }

  lemma InsertOrReplaceUnique(rows: seq<Row>, lastId: nat, key: Bytes, value: Bytes)
    requires UniqueKeys(rows)
    ensures UniqueKeys(InsertOrReplace(rows, lastId, key, value))
  {
    var w := WithoutKey(rows, key);
    var r := w + [Row(lastId + 1, key, value)];
    WithoutKeyMembers(rows, key);
    forall i, j | 0 <= i < j < |r|
      ensures r[i].key != r[j].key
    {
      assert r[i] == w[i] && w[i] in w;
      if j < |w| {
        assert r[j] == w[j];
      }
    }
  }

  /**
    Adding pairs one after another keeps the table consistent and leaves each
    key with the value of its last pair; keys that no pair mentions keep theirs.
  */
  lemma {:induction false} ApplyPairsLastWins(rows: seq<Row>, lastId: nat, pairs: seq<Pair>, key: Bytes)
    requires UniqueKeys(rows)
    ensures ValueOfKey(ApplyPairs(rows, lastId, pairs), key)
         == if LastValue(pairs, key).Some? then LastValue(pairs, key) else ValueOfKey(rows, key)
    decreases |pairs|
  {
    if pairs != [] {
      var n := |pairs| - 1;
      var p := pairs[n];
      var prev := ApplyPairs(rows, lastId, pairs[..n]);
      ApplyPairsLastWins(rows, lastId, pairs[..n], key);
      ApplyPairsUnique(rows, lastId, pairs[..n]);
      ValueOfKeyAfterInsert(prev, lastId + n, p.key, p.value, key);
      assert ValueOfKey(InsertOrReplace(prev, lastId + n, p.key, p.value), key)
          == if key == p.key then Some(p.value) else ValueOfKey(prev, key);
      ApplyPairsUnfold(rows, lastId, pairs);
      LastValueUnfold(pairs, key);
    }
  }

  lemma {:induction false} ApplyPairsUnique(rows: seq<Row>, lastId: nat, pairs: seq<Pair>)
    requires UniqueKeys(rows)
    ensures UniqueKeys(ApplyPairs(rows, lastId, pairs))
    decreases |pairs|
  {
    if pairs != [] {
      var n := |pairs| - 1;
      ApplyPairsUnique(rows, lastId, pairs[..n]);
      ApplyPairsUnfold(rows, lastId, pairs);
      InsertOrReplaceUnique(ApplyPairs(rows, lastId, pairs[..n]), lastId + n, pairs[n].key, pairs[n].value);
    }
  }

  lemma LastValueUnfold(pairs: seq<Pair>, key: Bytes)
    requires pairs != []
    ensures LastValue(pairs, key)
         == if key == pairs[|pairs| - 1].key then Some(pairs[|pairs| - 1].value) else LastValue(pairs[..|pairs| - 1], key)
  {
  }

  lemma ApplyPairsUnfold(rows: seq<Row>, lastId: nat, pairs: seq<Pair>)
    requires pairs != []
    ensures ApplyPairs(rows, lastId, pairs)
         == InsertOrReplace(ApplyPairs(rows, lastId, pairs[..|pairs| - 1]), lastId + (|pairs| - 1),
                            pairs[|pairs| - 1].key, pairs[|pairs| - 1].value)
  {
  }

  /** Adding one more pair is one more insert, with the next rowid. */
  lemma ApplyPairsSnoc(rows: seq<Row>, lastId: nat, pairs: seq<Pair>, p: Pair)
    ensures ApplyPairs(rows, lastId, pairs + [p])
         == InsertOrReplace(ApplyPairs(rows, lastId, pairs), lastId + |pairs|, p.key, p.value)
  {
    assert (pairs + [p])[..|pairs|] == pairs;
  }

  /** Each add issues the next rowid and keeps the table consistent. */
  lemma {:induction false} ApplyPairsConsistent(rows: seq<Row>, lastId: nat, pairs: seq<Pair>)
    requires Consistent(rows, lastId)
    ensures Consistent(ApplyPairs(rows, lastId, pairs), lastId + |pairs|)
    decreases |pairs|
  {
    if pairs != [] {
      var n := |pairs| - 1;
      ApplyPairsConsistent(rows, lastId, pairs[..n]);
      ApplyPairsUnfold(rows, lastId, pairs);
      InsertOrReplaceConsistent(ApplyPairs(rows, lastId, pairs[..n]), lastId + n, pairs[n].key, pairs[n].value);
    }
  }

  /** Strictly ascending by key: `ORDER BY key ASC` over a UNIQUE column. */
  predicate SortedByKey(rows: seq<Row>)
  {
    forall i, j :: 0 <= i < j < |rows| ==> Less(rows[i].key, rows[j].key)
  }

  /** Sorting cannot put two rows with the same key side by side: a sorted table has unique keys. */
  lemma SortedUnique(rows: seq<Row>)
    requires SortedByKey(rows)
    ensures UniqueKeys(rows)
  {
    forall i, j | 0 <= i < j < |rows|
      ensures rows[i].key != rows[j].key
    {
      if rows[i].key == rows[j].key {
        LessIrreflexive(rows[i].key);
      }
    }
  }

  lemma SortedCons(x: Row, s: seq<Row>)
    requires SortedByKey(s)
    requires s != [] ==> Less(x.key, s[0].key)
    ensures SortedByKey([x] + s)
  {
    forall j | 0 < j < |s|
      ensures Less(x.key, s[j].key)
    {
      LessTransitive(x.key, s[0].key, s[j].key);
    }
  }

  function InsertByKey(x: Row, s: seq<Row>): (r: seq<Row>)
    requires SortedByKey(s)
    requires forall y :: y in s ==> y.key != x.key
    ensures multiset(r) == multiset(s) + multiset{x}
    ensures SortedByKey(r)
  {
    if s == [] then [x]
    else if Less(x.key, s[0].key) then
      SortedCons(x, s);
      [x] + s
    else
      LessTotal(x.key, s[0].key);
      var rest := InsertByKey(x, s[1..]);
      assert s == [s[0]] + s[1..];
      assert rest[0] in multiset(rest);
      SortedCons(s[0], rest);
      [s[0]] + rest
  }

  /** The rows in key order. */
  function SortByKey(rows: seq<Row>): (r: seq<Row>)
    requires UniqueKeys(rows)
    ensures multiset(r) == multiset(rows)
    ensures |r| == |rows|
    ensures SortedByKey(r)
  {
    if rows == [] then []
    else
      assert UniqueKeys(rows[1..]);
      var rest := SortByKey(rows[1..]);
      SortByKeyStep(rows, rest);
      InsertByKey(rows[0], rest)
  }

  /** The rest of the rows, in any order, holds no row with the first row's key. */
  lemma SortByKeyStep(rows: seq<Row>, rest: seq<Row>)
    requires UniqueKeys(rows) && rows != []
    requires multiset(rest) == multiset(rows[1..])
    ensures forall y :: y in rest ==> y.key != rows[0].key
    ensures multiset(rows) == multiset(rest) + multiset{rows[0]}
  {
    assert rows == [rows[0]] + rows[1..];
    forall y | y in rest
      ensures y.key != rows[0].key
    {
      assert y in multiset(rows[1..]);
      var j :| 0 <= j < |rows[1..]| && rows[1..][j] == y;
      assert rows[j + 1] == y;
    }
  }

  /** `LIMIT n`. */
  function Take(s: seq<Row>, n: nat): seq<Row>
  {
    if |s| <= n then s else s[..n]
  }

  /**
    `ORDER BY key ASC LIMIT n` over a set of rows: at most `n` rows, strictly in
    key order, all from the input, as many as there are up to `n`, and every
    input row that is left out sorts after all that were returned.
  */
  lemma OrderedLimitSpec(sel: seq<Row>, n: nat)
    requires UniqueKeys(sel)
    ensures var r := Take(SortByKey(sel), n);
      && |r| == (if |sel| < n then |sel| else n)
      && SortedByKey(r)
      && (forall x :: x in r ==> x in sel)
      && (forall x :: x in sel ==> x in r || (|r| == n && forall y :: y in r ==> Less(y.key, x.key)))
  {
    var s := SortByKey(sel);
    SameRows(s, sel);
    TakePrefix(s, n);
    forall x | x in sel
      ensures x in Take(s, n) || (|Take(s, n)| == n && forall y :: y in Take(s, n) ==> Less(y.key, x.key))
    {
      TakeOmits(s, n, x);
    }
  }

  /** Two orderings of the same multiset of rows hold the same rows. */
  lemma SameRows(a: seq<Row>, b: seq<Row>)
    requires multiset(a) == multiset(b)
    ensures forall x :: x in a <==> x in b
  {
    assert forall x :: x in a <==> x in multiset(a);
    assert forall x :: x in b <==> x in multiset(b);
  }

  /** `LIMIT n` keeps a sorted prefix of at most `n` rows. */
  lemma TakePrefix(s: seq<Row>, n: nat)
    requires SortedByKey(s)
    ensures var r := Take(s, n);
      && |r| == (if |s| < n then |s| else n)
      && SortedByKey(r)
      && (forall x :: x in r ==> x in s)
  {
    var r := Take(s, n);
    assert forall i :: 0 <= i < |r| ==> r[i] == s[i];
  }

  /** A row of a key-sorted sequence that `LIMIT n` drops sorts after every row it keeps. */
  lemma TakeOmits(s: seq<Row>, n: nat, x: Row)
    requires SortedByKey(s) && x in s
    ensures var r := Take(s, n); x in r || (|r| == n && forall y :: y in r ==> Less(y.key, x.key))
  {
    var r := Take(s, n);
    var j :| 0 <= j < |s| && s[j] == x;
    if j < |r| {
      assert r[j] == x;
    } else {
      forall y | y in r
        ensures Less(y.key, x.key)
      {
        var i :| 0 <= i < |r| && r[i] == y;
        assert s[i] == y;
      }
    }
  }

  /** The rows `search_vault` selects: `WHERE key LIKE '%q%' ORDER BY key ASC LIMIT 20`. */
  function SearchRows(rows: seq<Row>, query: Bytes): seq<Row>
    requires UniqueKeys(rows)
  {
    var keep := (x: Row) => Like(SearchPattern(query), x.key);
    FilterOrdered(rows, keep);
    Take(SortByKey(Filter(rows, keep)), 20)
  }

  /** The rows `get_all_secrets` selects: `ORDER BY key ASC LIMIT 50`. */
  function ListRows(rows: seq<Row>): seq<Row>
    requires UniqueKeys(rows)
  {
    Take(SortByKey(rows), 50)
  }

  /**
    A search returns at most 20 rows in key order, each matching the pattern
    (for a query without `%` or `_`: containing it, ignoring ASCII case), and
    omits a matching row only when it sorts after all 20 returned ones.
  */
  lemma SearchRowsSpec(rows: seq<Row>, query: Bytes)
    requires UniqueKeys(rows)
    ensures var r := SearchRows(rows, query);
      && |r| <= 20
      && SortedByKey(r)
      && (forall x :: x in r ==> x in rows && Like(SearchPattern(query), x.key))
      && (!HasWildcards(query) ==> forall x :: x in r ==> ContainsIgnoreCase(x.key, query))
      && (forall x :: x in rows && Like(SearchPattern(query), x.key) ==>
            x in r || (|r| == 20 && forall y :: y in r ==> Less(y.key, x.key)))
  {
    var keep := (x: Row) => Like(SearchPattern(query), x.key);
    var sel := Filter(rows, keep);
    FilterMembers(rows, keep);
    FilterOrdered(rows, keep);
    OrderedLimitSpec(sel, 20);
    if !HasWildcards(query) {
      forall x | x in SearchRows(rows, query)
        ensures ContainsIgnoreCase(x.key, query)
      {
        SearchPatternIsSubstring(query, x.key);
      }
    }
  }

  /** The full listing holds the first 50 rows in key order (all of them when there are at most 50). */
  lemma ListRowsSpec(rows: seq<Row>)
    requires UniqueKeys(rows)
    ensures var r := ListRows(rows);
      && |r| == (if |rows| < 50 then |rows| else 50)
      && SortedByKey(r)
      && (forall x :: x in r ==> x in rows)
      && (forall x :: x in rows ==> x in r || (|r| == 50 && forall y :: y in r ==> Less(y.key, x.key)))
  {
    OrderedLimitSpec(rows, 50);
  }

  /** An empty query matches every key, so it lists the first 20 rows of the full listing. */
  lemma EmptySearchIsListPrefix(rows: seq<Row>)
    requires UniqueKeys(rows)
    ensures SearchRows(rows, []) == Take(ListRows(rows), 20)
  {
    var keep := (x: Row) => Like(SearchPattern([]), x.key);
    forall x | x in rows
      ensures keep(x)
    {
      EmptyQueryMatchesAll(x.key);
    }
    FilterKeepsAll(rows, keep);
  }

  lemma {:induction false} FilterKeepsAll(rows: seq<Row>, keep: Row -> bool)
    requires forall x :: x in rows ==> keep(x)
    ensures Filter(rows, keep) == rows
  {
    if rows != [] {
      assert forall x :: x in rows[1..] ==> x in rows;
      FilterKeepsAll(rows[1..], keep);
      assert [rows[0]] + rows[1..] == rows;
    }
  }

  /** The masked projection of the listed rows. */
  function Project(rows: seq<Row>): (items: seq<SecretItem>)
    requires forall x :: x in rows ==> Maskable(x.value)
  {
    seq(|rows|, i requires 0 <= i < |rows| =>
      assert rows[i] in rows; SecretItem(rows[i].id, rows[i].key, MaskValue(rows[i].value)))
  }

  /** A listed item shows a row: its id and key, and its value masked. */
  predicate Shows(item: SecretItem, x: Row)
  {
    item.id == x.id && item.key == x.key && Maskable(x.value) && item.valueMasked == MaskValue(x.value)
  }

  /** Each item of a projection shows one selected row, in the same order. */
  lemma ProjectSpec(sel: seq<Row>, rows: seq<Row>)
    requires forall x :: x in sel ==> x in rows && Maskable(x.value)
    ensures var items := Project(sel);
      && |items| == |sel|
      && (forall i :: 0 <= i < |items| ==> Shows(items[i], sel[i]))
      && (SortedByKey(sel) ==> forall i, j :: 0 <= i < j < |items| ==> Less(items[i].key, items[j].key))
      && (forall it :: it in items ==> exists x :: x in rows && Shows(it, x))
  {
    var items := Project(sel);
    forall it | it in items
      ensures exists x :: x in rows && Shows(it, x)
    {
      var i :| 0 <= i < |items| && items[i] == it;
      assert sel[i] in sel;
    }
  }
}
