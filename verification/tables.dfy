/**
 * A table as the routes use it: an ordered sequence of rows with an integer
 * primary key. `Get` is the lookup by primary key, `Put` writes a row back over
 * the one with the same key, and `Delete` removes the rows whose keys are given.
 */
module Tables {
  import opened Wrappers

  /** No two rows of the table share a primary key. */
  ghost predicate KeysUnique<T>(rows: seq<T>, key: T -> int) {
    forall i, j | 0 <= i < |rows| && 0 <= j < |rows| && key(rows[i]) == key(rows[j]) :: i == j
  }

  /** The set of primary keys that occur in `rows`. */
  ghost function KeySet<T>(rows: seq<T>, key: T -> int): set<int> {
    set x | x in rows :: key(x)
  }

  lemma KeySetSnoc<T>(rows: seq<T>, key: T -> int, x: T)
    ensures KeySet(rows + [x], key) == KeySet(rows, key) + {key(x)}
  {
    assert forall y | y in rows + [x] :: y in rows || y == x;
  }

  /** The first row whose key is `id`, or `None` when there is none. */
  function Get<T>(rows: seq<T>, key: T -> int, id: int): (r: Option<T>)
    ensures r.Some? ==> r.value in rows && key(r.value) == id
    ensures r.None? <==> forall x | x in rows :: key(x) != id
  {
    if rows == [] then None
    else if key(rows[0]) == id then Some(rows[0])
    else Get(rows[1..], key, id)
  }

  /**
   * `rows` with every row whose key is `key(x)` replaced by `x`: the other rows
   * stay, `x` is there exactly when its key was, and the set of keys is kept.
   */
  function Put<T>(rows: seq<T>, key: T -> int, x: T): (r: seq<T>)
    ensures forall y | y in r :: y == x || (y in rows && key(y) != key(x))
    ensures forall y | y in rows && key(y) != key(x) :: y in r
    ensures x in r <==> exists y | y in rows :: key(y) == key(x)
    ensures KeySet(r, key) == KeySet(rows, key)
  {
    var r := seq(|rows|, i requires 0 <= i < |rows| => if key(rows[i]) == key(x) then x else rows[i]);
    ReplacedMembers(rows, key, x, r);
    r
  }

  /** The facts `Put` promises, for any sequence that replaces row by row as `Put` does. */
  lemma ReplacedMembers<T>(rows: seq<T>, key: T -> int, x: T, r: seq<T>)
    requires |r| == |rows|
    requires forall i | 0 <= i < |rows| :: r[i] == if key(rows[i]) == key(x) then x else rows[i]
    ensures forall y | y in r :: y == x || (y in rows && key(y) != key(x))
    ensures forall y | y in rows && key(y) != key(x) :: y in r
    ensures x in r <==> exists y | y in rows :: key(y) == key(x)
    ensures KeySet(r, key) == KeySet(rows, key)
  {
    forall y | y in r ensures y == x || (y in rows && key(y) != key(x)) {
      var i :| 0 <= i < |r| && r[i] == y;
    }
    forall y | y in rows && key(y) != key(x) ensures y in r {
      var i :| 0 <= i < |rows| && rows[i] == y;
      assert r[i] == y;
    }
    if y :| y in rows && key(y) == key(x) {
      var i :| 0 <= i < |rows| && rows[i] == y;
      assert r[i] == x;
    }
    if x in r {
      var i :| 0 <= i < |r| && r[i] == x;
      assert rows[i] in rows;
    }
    forall k ensures k in KeySet(r, key) <==> k in KeySet(rows, key) {
      if k in KeySet(r, key) {
        var y :| y in r && key(y) == k;
        var i :| 0 <= i < |r| && r[i] == y;
        assert rows[i] in rows && key(rows[i]) == k;
      }
      if k in KeySet(rows, key) {
        var y :| y in rows && key(y) == k;
        var i :| 0 <= i < |rows| && rows[i] == y;
        assert r[i] in r && key(r[i]) == k;
      }
    }
  }

  /** `rows` without the rows whose key is in `ids`, the others kept in order. */
  function Delete<T>(rows: seq<T>, key: T -> int, ids: set<int>): (r: seq<T>)
    ensures forall x | x in r :: x in rows && key(x) !in ids
    ensures forall x | x in rows && key(x) !in ids :: x in r
    ensures |r| <= |rows|
  {
    if rows == [] then []
    else (if key(rows[0]) in ids then [] else [rows[0]]) + Delete(rows[1..], key, ids)
  }

  /**
   * After `x` is written back, looking up its key finds `x` when a row had
   * that key, and looking up any other key finds what it found before.
   */
  lemma {:induction false} GetAfterPut<T>(rows: seq<T>, key: T -> int, x: T, id: int)
    ensures Get(Put(rows, key, x), key, id)
         == if id == key(x) && Get(rows, key, id).Some? then Some(x) else Get(rows, key, id)
  {
    if rows != [] {
      var r := Put(rows, key, x);
      assert r[1..] == Put(rows[1..], key, x);
      assert key(r[0]) == key(rows[0]);
      GetAfterPut(rows[1..], key, x, id);
    }
  }

  /** With unique keys, a row is determined by its key. */
  lemma SameKeySameRow<T>(rows: seq<T>, key: T -> int, x: T, y: T)
    requires KeysUnique(rows, key) && x in rows && y in rows && key(x) == key(y)
    ensures x == y
  {
    var i :| 0 <= i < |rows| && rows[i] == x;
    var j :| 0 <= j < |rows| && rows[j] == y;
  }

  /** Appending a row under a key no row carries keeps keys unique. */
  lemma AppendKeepsKeysUnique<T>(rows: seq<T>, key: T -> int, x: T)
    requires KeysUnique(rows, key) && forall y | y in rows :: key(y) != key(x)
    ensures KeysUnique(rows + [x], key)
  {
    var r := rows + [x];
    forall i, j | 0 <= i < |r| && 0 <= j < |r| && key(r[i]) == key(r[j])
      ensures i == j
    {
      if i < |rows| { assert r[i] in rows; }
      if j < |rows| { assert r[j] in rows; }
    }
  }

  /** Writing back a row with an existing key changes no key, so keys stay unique. */
  lemma PutKeepsKeysUnique<T>(rows: seq<T>, key: T -> int, x: T)
    requires KeysUnique(rows, key)
    ensures KeysUnique(Put(rows, key, x), key)
  {
    var r := Put(rows, key, x);
    forall i, j | 0 <= i < |r| && 0 <= j < |r| && key(r[i]) == key(r[j])
      ensures i == j
    {
      assert key(r[i]) == key(rows[i]) && key(r[j]) == key(rows[j]);
    }
  }

  /** The rows after the first keep unique keys, none of them the first row's. */
  lemma KeysUniqueTail<T>(rows: seq<T>, key: T -> int)
    requires KeysUnique(rows, key) && rows != []
    ensures KeysUnique(rows[1..], key)
    ensures forall y | y in rows[1..] :: key(y) != key(rows[0])
  {
    var tail := rows[1..];
    forall i, j | 0 <= i < |tail| && 0 <= j < |tail| && key(tail[i]) == key(tail[j])
      ensures i == j
    {
      assert rows[i + 1] == tail[i] && rows[j + 1] == tail[j];
    }
    forall y | y in tail ensures key(y) != key(rows[0]) {
      var k :| 0 <= k < |tail| && tail[k] == y;
      assert rows[k + 1] == y;
    }
  }

  lemma {:induction false} DeleteKeepsKeysUnique<T>(rows: seq<T>, key: T -> int, ids: set<int>)
    requires KeysUnique(rows, key)
    ensures KeysUnique(Delete(rows, key, ids), key)
  {
    if rows != [] {
      var tail := rows[1..];
      KeysUniqueTail(rows, key);
      DeleteKeepsKeysUnique(tail, key, ids);
      var rest := Delete(tail, key, ids);
      if key(rows[0]) !in ids {
        var r := [rows[0]] + rest;
        forall i, j | 0 <= i < |r| && 0 <= j < |r| && key(r[i]) == key(r[j])
          ensures i == j
        {
          if i > 0 && j > 0 {
            assert r[i] == rest[i - 1] && r[j] == rest[j - 1];
          }
        }
      }
    }
  }

  /** Deleting one key set and then another is deleting both at once. */
  lemma {:induction false} DeleteTwice<T>(rows: seq<T>, key: T -> int, a: set<int>, b: set<int>)
    ensures Delete(Delete(rows, key, a), key, b) == Delete(rows, key, a + b)
  {
    if rows != [] {
      DeleteTwice(rows[1..], key, a, b);
      var head := if key(rows[0]) in a then [] else [rows[0]];
      assert Delete(rows, key, a) == head + Delete(rows[1..], key, a);
      DeleteAppend(head, Delete(rows[1..], key, a), key, b);
    }
  }

  /** `Delete` distributes over concatenation. */
  lemma {:induction false} DeleteAppend<T>(s: seq<T>, t: seq<T>, key: T -> int, ids: set<int>)
    ensures Delete(s + t, key, ids) == Delete(s, key, ids) + Delete(t, key, ids)
  {
    if s != [] {
      assert (s + t)[1..] == s[1..] + t;
      DeleteAppend(s[1..], t, key, ids);
    } else {
      assert s + t == t;
    }
  }

  /**
   * With unique keys, deleting the key of a row that is present removes exactly
   * that one row.
   */
  lemma {:induction false} DeleteOne<T>(rows: seq<T>, key: T -> int, x: T)
    requires KeysUnique(rows, key) && x in rows
    ensures multiset(Delete(rows, key, {key(x)})) == multiset(rows) - multiset{x}
    ensures |Delete(rows, key, {key(x)})| == |rows| - 1
  {
    var tail := rows[1..];
    assert rows == [rows[0]] + tail;
    assert multiset(rows) == multiset{rows[0]} + multiset(tail);
    KeysUniqueTail(rows, key);
    var r := Delete(rows, key, {key(x)});
    if rows[0] == x {
      DeleteNone(tail, key, {key(x)});
      assert r == tail;
    } else {
      assert x in tail;
      DeleteOne(tail, key, x);
      var rest := Delete(tail, key, {key(x)});
      assert r == [rows[0]] + rest;
      assert multiset(r) == multiset{rows[0]} + multiset(rest);
    }
    assert |r| == |multiset(r)|;
  }

  /** Deleting keys that no row carries leaves the table as it is. */
  lemma {:induction false} DeleteNone<T>(rows: seq<T>, key: T -> int, ids: set<int>)
    requires forall y | y in rows :: key(y) !in ids
    ensures Delete(rows, key, ids) == rows
  {
    if rows != [] {
      assert forall y | y in rows[1..] :: y in rows;
      DeleteNone(rows[1..], key, ids);
    }
  }

  /** After a delete, a lookup of a key that was not deleted finds what it found before. */
  lemma {:induction false} GetAfterDelete<T>(rows: seq<T>, key: T -> int, ids: set<int>, id: int)
    requires id !in ids
    ensures Get(Delete(rows, key, ids), key, id) == Get(rows, key, id)
  {
    if rows != [] {
      GetAfterDelete(rows[1..], key, ids, id);
      var rest := Delete(rows[1..], key, ids);
      if key(rows[0]) !in ids {
        var r := [rows[0]] + rest;
        assert Delete(rows, key, ids) == r;
        assert r[0] == rows[0] && r[1..] == rest;
      } else {
        assert Delete(rows, key, ids) == rest;
      }
    }
  }
}
