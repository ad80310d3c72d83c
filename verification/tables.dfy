/** A table of rows with a primary key, as the repositories see it. The rows
    are a sequence in the order the store returns them; `key` extracts the
    primary key. The operations are the Entity Framework calls the
    repositories make: `FindAsync`/`FirstOrDefaultAsync`, `Where`,
    `AddAsync`, `Update`/`Entry(..).State = Modified`, and `Remove`. */
module Tables {
  import opened Wrappers
  import opened Primitives

  /** No two rows share a key: the table's primary-key constraint. */
  predicate KeysUnique<T>(rows: seq<T>, key: T -> Guid) {
    forall i, j | 0 <= i < j < |rows| :: key(rows[i]) != key(rows[j])
  }

  /** Some row has key `id`. */
  predicate HasKey<T>(rows: seq<T>, key: T -> Guid, id: Guid) {
    exists i | 0 <= i < |rows| :: key(rows[i]) == id
  }

  /** The filter `row => key(row) == id`. */
  function KeyIs<T>(key: T -> Guid, id: Guid): T -> bool {
    x => key(x) == id
  }

  /** The filter `row => key(row) != id`. */
  function KeyIsNot<T>(key: T -> Guid, id: Guid): T -> bool {
    x => key(x) != id
  }

  /** `FirstOrDefault(p)`: the first row satisfying `p`, or null. */
  function FirstWhere<T>(rows: seq<T>, p: T -> bool): (r: Option<T>)
    ensures r.None? <==> forall i | 0 <= i < |rows| :: !p(rows[i])
    ensures r.Some? ==>
      exists i | 0 <= i < |rows| :: rows[i] == r.value && p(rows[i]) && forall j | 0 <= j < i :: !p(rows[j])
  {
    if rows == [] then None
    else if p(rows[0]) then Some(rows[0])
    else
      var r := FirstWhere(rows[1..], p);
      assert forall j | 1 <= j < |rows| :: rows[j] == rows[1..][j - 1];
      r
  }

  /** `Where(p).ToList()`: the rows satisfying `p`, in table order. */
  function Where<T>(rows: seq<T>, p: T -> bool): (r: seq<T>)
    ensures |r| <= |rows|
    ensures forall i | 0 <= i < |r| :: p(r[i])
    ensures forall i | 0 <= i < |rows| :: p(rows[i]) ==> rows[i] in r
    ensures forall x | x in r :: x in rows
  {
    if rows == [] then []
    else
      var rest := Where(rows[1..], p);
      assert forall i | 1 <= i < |rows| :: rows[i] == rows[1..][i - 1];
      if p(rows[0]) then [rows[0]] + rest else rest
  }

  /** `Where` keeps every occurrence of a satisfying row and no occurrence of
      any other: a row appears in the result exactly as often as in the
      table if it satisfies `p`, and not at all otherwise. */
  lemma {:induction false} WhereCount<T>(rows: seq<T>, p: T -> bool, x: T)
    ensures multiset(Where(rows, p))[x] == if p(x) then multiset(rows)[x] else 0
  {
    if rows != [] {
      assert rows == [rows[0]] + rows[1..];
      WhereCount(rows[1..], p, x);
    }
  }

  /** Filtering a concatenation filters each part and keeps them in order.
      Together with the one-row case (a row is kept exactly when it satisfies
      `p`) this fixes the order of `Where`'s result: table order. */
  lemma {:induction false} WhereAppend<T>(a: seq<T>, b: seq<T>, p: T -> bool)
    ensures Where(a + b, p) == Where(a, p) + Where(b, p)
  {
    if a == [] {
      assert a + b == b;
    } else {
      assert (a + b)[0] == a[0];
      assert (a + b)[1..] == a[1..] + b;
      WhereAppend(a[1..], b, p);
    }
  }

  /** Lookup by primary key. */
  function Find<T>(rows: seq<T>, key: T -> Guid, id: Guid): (r: Option<T>)
    ensures r.None? <==> !HasKey(rows, key, id)
    ensures r.Some? ==> r.value in rows && key(r.value) == id
  {
    FirstWhere(rows, KeyIs(key, id))
  }

  /** Insert a row (`AddAsync` + `SaveChangesAsync`). */
  function Insert<T>(rows: seq<T>, row: T): (r: seq<T>)
    ensures |r| == |rows| + 1
    ensures r[..|rows|] == rows && r[|rows|] == row
  {
    rows + [row]
  }

  /** Overwrite the rows that have `row`'s key (an update of an attached
      entity followed by `SaveChangesAsync`). */
  function Replace<T>(rows: seq<T>, key: T -> Guid, row: T): (r: seq<T>)
    ensures |r| == |rows|
    ensures forall i | 0 <= i < |rows| :: r[i] == if key(rows[i]) == key(row) then row else rows[i]
  {
    if rows == [] then []
    else
      var rest := Replace(rows[1..], key, row);
      var r := [if key(rows[0]) == key(row) then row else rows[0]] + rest;
      assert forall i | 1 <= i < |rows| :: r[i] == rest[i - 1] && rows[i] == rows[1..][i - 1];
      r
  }

  /** Remove the rows with key `id` (`Remove` + `SaveChangesAsync`). */
  function Delete<T>(rows: seq<T>, key: T -> Guid, id: Guid): (r: seq<T>)
    ensures forall i | 0 <= i < |r| :: key(r[i]) != id
    ensures forall i | 0 <= i < |rows| :: key(rows[i]) != id ==> rows[i] in r
    ensures forall x | x in r :: x in rows
  {
    Where(rows, KeyIsNot(key, id))
  }

  // -----------------------------------------------------------------------
  // Lookups after a change
  // -----------------------------------------------------------------------

  lemma {:induction false} FirstWhereAppend<T>(rows: seq<T>, p: T -> bool, row: T)
    ensures FirstWhere(rows + [row], p) ==
      if FirstWhere(rows, p).Some? then FirstWhere(rows, p)
      else if p(row) then Some(row) else None
  {
    if rows != [] {
      assert (rows + [row])[0] == rows[0];
      assert (rows + [row])[1..] == rows[1..] + [row];
      FirstWhereAppend(rows[1..], p, row);
    }
  }

  /** After an insert, lookups find what they found before, and the new row
      under its key if that key was free. */
  lemma FindAfterInsert<T>(rows: seq<T>, key: T -> Guid, row: T, id: Guid)
    ensures Find(Insert(rows, row), key, id) ==
      if HasKey(rows, key, id) then Find(rows, key, id)
      else if key(row) == id then Some(row) else None
  {
    FirstWhereAppend(rows, KeyIs(key, id), row);
  }

  lemma {:induction false} FirstWhereReplace<T>(rows: seq<T>, key: T -> Guid, row: T, id: Guid)
    ensures FirstWhere(Replace(rows, key, row), KeyIs(key, id)) ==
      if key(row) == id && HasKey(rows, key, id) then Some(row)
      else FirstWhere(rows, KeyIs(key, id))
  {
    if rows != [] {
      var r := Replace(rows, key, row);
      assert r[1..] == Replace(rows[1..], key, row);
      FirstWhereReplace(rows[1..], key, row, id);
      if !KeyIs(key, id)(rows[0]) && HasKey(rows, key, id) {
        var i :| 0 <= i < |rows| && key(rows[i]) == id;
        assert key(rows[1..][i - 1]) == id;
      }
    }
  }

  /** After a replace, the replaced key finds the new row and every other
      key finds what it found before. */
  lemma FindAfterReplace<T>(rows: seq<T>, key: T -> Guid, row: T, id: Guid)
    ensures Find(Replace(rows, key, row), key, id) ==
      if key(row) == id && HasKey(rows, key, id) then Some(row) else Find(rows, key, id)
  {
    FirstWhereReplace(rows, key, row, id);
  }

  lemma {:induction false} FirstWhereOfWhere<T>(rows: seq<T>, p: T -> bool, q: T -> bool)
    requires forall x :: p(x) ==> q(x)
    ensures FirstWhere(Where(rows, q), p) == FirstWhere(rows, p)
  {
    if rows != [] {
      FirstWhereOfWhere(rows[1..], p, q);
    }
  }

  /** After a delete, the deleted key finds nothing and every other key finds
      what it found before. */
  lemma FindAfterDelete<T>(rows: seq<T>, key: T -> Guid, id: Guid, other: Guid)
    ensures Find(Delete(rows, key, id), key, other) ==
      if other == id then None else Find(rows, key, other)
  {
    if other != id {
      FirstWhereOfWhere(rows, KeyIs(key, other), KeyIsNot(key, id));
    }
  }

  // -----------------------------------------------------------------------
  // The primary-key constraint under change
  // -----------------------------------------------------------------------

  lemma InsertKeepsKeysUnique<T>(rows: seq<T>, key: T -> Guid, row: T)
    requires KeysUnique(rows, key) && !HasKey(rows, key, key(row))
    ensures KeysUnique(Insert(rows, row), key)
  {
    var r := Insert(rows, row);
    assert forall i | 0 <= i < |rows| :: r[i] == rows[i];
  }

  lemma ReplaceKeepsKeysUnique<T>(rows: seq<T>, key: T -> Guid, row: T)
    requires KeysUnique(rows, key)
    ensures KeysUnique(Replace(rows, key, row), key)
  {
    var r := Replace(rows, key, row);
    assert forall i | 0 <= i < |rows| :: key(r[i]) == key(rows[i]);
  }

  /** Each row after a replace is the row that was there, or the new row
      standing in for one with the same key; either way its key is unchanged. */
  lemma ReplacedRow<T>(rows: seq<T>, key: T -> Guid, row: T, i: int)
    requires 0 <= i < |rows|
    ensures key(Replace(rows, key, row)[i]) == key(rows[i])
    ensures Replace(rows, key, row)[i] == rows[i] || Replace(rows, key, row)[i] == row
  {
  }

  /** Filtering a table keeps its keys unique. */
  lemma {:induction false} WhereKeepsKeysUnique<T>(rows: seq<T>, key: T -> Guid, p: T -> bool)
    requires KeysUnique(rows, key)
    ensures KeysUnique(Where(rows, p), key)
  {
    if rows != [] {
      var rest := Where(rows[1..], p);
      assert KeysUnique(rows[1..], key) by {
        forall i, j | 0 <= i < j < |rows[1..]|
          ensures key(rows[1..][i]) != key(rows[1..][j])
        {
          assert rows[1..][i] == rows[i + 1] && rows[1..][j] == rows[j + 1];
        }
      }
      WhereKeepsKeysUnique(rows[1..], key, p);
      if p(rows[0]) {
        var r := [rows[0]] + rest;
        forall i, j | 0 <= i < j < |r|
          ensures key(r[i]) != key(r[j])
        {
          if i == 0 {
            assert r[j] == rest[j - 1];
            assert r[j] in rows[1..];
            var k :| 0 <= k < |rows[1..]| && rows[1..][k] == r[j];
            assert rows[k + 1] == r[j];
          } else {
            assert r[i] == rest[i - 1] && r[j] == rest[j - 1];
          }
        }
      }
    }
  }

  lemma DeleteKeepsKeysUnique<T>(rows: seq<T>, key: T -> Guid, id: Guid)
    requires KeysUnique(rows, key)
    ensures KeysUnique(Delete(rows, key, id), key)
  {
    WhereKeepsKeysUnique(rows, key, KeyIsNot(key, id));
  }

  /** With unique keys, looking up a stored row's key finds that row. */
  lemma FindStoredRow<T>(rows: seq<T>, key: T -> Guid, i: int)
    requires KeysUnique(rows, key) && 0 <= i < |rows|
    ensures Find(rows, key, key(rows[i])) == Some(rows[i])
  {
    var r := Find(rows, key, key(rows[i]));
    var k :| 0 <= k < |rows| && rows[k] == r.value && key(rows[k]) == key(rows[i]);
  }

  /** The table read as a map from key to row. */
  ghost function AsMap<T>(rows: seq<T>, key: T -> Guid): map<Guid, T>
    requires KeysUnique(rows, key)
  {
    map i | 0 <= i < |rows| :: key(rows[i]) := rows[i]
  }

  /** With unique keys, lookup by key is map lookup. */
  lemma FindIsMapLookup<T>(rows: seq<T>, key: T -> Guid, id: Guid)
    requires KeysUnique(rows, key)
    ensures Find(rows, key, id).Some? <==> id in AsMap(rows, key)
    ensures Find(rows, key, id).Some? ==> Find(rows, key, id).value == AsMap(rows, key)[id]
  {
    var m := AsMap(rows, key);
    if Find(rows, key, id).Some? {
      var i :| 0 <= i < |rows| && rows[i] == Find(rows, key, id).value;
      assert key(rows[i]) in m;
    }
  }
}
