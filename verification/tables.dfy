/**
 * Rows of a repository table, kept in store order, and the primary-key
 * operations the repositories perform on them. `key` gives a row's Id.
 */
module Tables {

  import opened Options

  /** Every Id is positive and below `next`, the next identity the table will hand out. */
  ghost predicate KeysBelow<T>(rows: seq<T>, key: T -> int, next: int) {
    forall i :: 0 <= i < |rows| ==> 0 < key(rows[i]) < next
  }

  /** Id is a primary key: no two rows share one. */
  ghost predicate UniqueKeys<T>(rows: seq<T>, key: T -> int) {
    forall i, j :: 0 <= i < j < |rows| ==> key(rows[i]) != key(rows[j])
  }

  predicate HasKey<T>(rows: seq<T>, key: T -> int, id: int) {
    exists i :: 0 <= i < |rows| && key(rows[i]) == id
  }

  /** The row with Id `id`, as FirstOrDefault/FindAsync return it; None for null. */
  function Find<T>(rows: seq<T>, key: T -> int, id: int): (r: Option<T>)
    ensures r.Some? <==> HasKey(rows, key, id)
    ensures r.Some? ==> r.value in rows && key(r.value) == id
  {
    if |rows| == 0 then None
    else if key(rows[0]) == id then Some(rows[0])
    else
      var r := Find(rows[1..], key, id);
      assert HasKey(rows, key, id) ==> HasKey(rows[1..], key, id) by {
        if HasKey(rows, key, id) {
          var i :| 0 <= i < |rows| && key(rows[i]) == id;
          assert rows[1..][i - 1] == rows[i];
        }
      }
      r
  }

  /** With unique Ids, the row found for an Id is the one that has it. */
  lemma {:induction false} FindUnique<T>(rows: seq<T>, key: T -> int, i: int)
    requires UniqueKeys(rows, key) && 0 <= i < |rows|
    ensures Find(rows, key, key(rows[i])) == Some(rows[i])
  {
    if i > 0 {
      assert key(rows[0]) != key(rows[i]);
      assert UniqueKeys(rows[1..], key) by {
        forall a, b | 0 <= a < b < |rows| - 1
          ensures key(rows[1..][a]) != key(rows[1..][b])
        {
          assert rows[1..][a] == rows[a + 1] && rows[1..][b] == rows[b + 1];
        }
      }
      FindUnique(rows[1..], key, i - 1);
    }
  }

  /** The table after deleting the row with Id `id`: every other row, in order. */
  function Remove<T>(rows: seq<T>, key: T -> int, id: int): (r: seq<T>)
    ensures |r| <= |rows|
    ensures forall j :: 0 <= j < |r| ==> r[j] in rows && key(r[j]) != id
    ensures forall i :: 0 <= i < |rows| && key(rows[i]) != id ==> rows[i] in r
  {
    if |rows| == 0 then []
    else if key(rows[0]) == id then Remove(rows[1..], key, id)
    else [rows[0]] + Remove(rows[1..], key, id)
  }

  /** Deleting a row keeps the Ids bounded and unique. */
  lemma {:induction false} RemoveKeepsKeys<T>(rows: seq<T>, key: T -> int, id: int, next: int)
    requires KeysBelow(rows, key, next) && UniqueKeys(rows, key)
    ensures KeysBelow(Remove(rows, key, id), key, next) && UniqueKeys(Remove(rows, key, id), key)
  {
    if |rows| > 0 {
      var rest := rows[1..];
      assert KeysBelow(rest, key, next) && UniqueKeys(rest, key) by {
        forall a | 0 <= a < |rest| ensures rest[a] == rows[a + 1] { }
      }
      RemoveKeepsKeys(rest, key, id, next);
      var r := Remove(rest, key, id);
      if key(rows[0]) != id {
        forall j | 0 <= j < |r| ensures key(r[j]) != key(rows[0]) {
          assert r[j] in rest;
          var a :| 0 <= a < |rest| && rest[a] == r[j];
          assert rest[a] == rows[a + 1];
        }
        assert Remove(rows, key, id) == [rows[0]] + r;
      }
    }
  }

  /** The table after writing `row` over the row that has its Id (EF's Update by primary key). */
  function Replace<T>(rows: seq<T>, key: T -> int, row: T): (r: seq<T>)
    ensures |r| == |rows|
    ensures forall i :: 0 <= i < |rows| ==> key(r[i]) == key(rows[i])
  {
    seq(|rows|, i requires 0 <= i < |rows| => if key(rows[i]) == key(row) then row else rows[i])
  }

  /** Appending a row with the next identity keeps the Ids bounded and unique. */
  lemma AppendKeepsKeys<T>(rows: seq<T>, key: T -> int, row: T, next: int)
    requires KeysBelow(rows, key, next) && UniqueKeys(rows, key) && key(row) == next && 0 < next
    ensures KeysBelow(rows + [row], key, next + 1) && UniqueKeys(rows + [row], key)
  {
  }

  /** After appending a row with a new Id, that Id finds the new row and every other Id finds what it found before. */
  lemma {:induction false} FindAfterAppend<T>(rows: seq<T>, key: T -> int, row: T, id: int)
    requires !HasKey(rows, key, key(row))
    ensures Find(rows + [row], key, id) == if id == key(row) then Some(row) else Find(rows, key, id)
  {
    if |rows| == 0 {
      assert rows + [row] == [row];
    } else {
      assert (rows + [row])[1..] == rows[1..] + [row];
      if key(rows[0]) != id {
        FindAfterAppend(rows[1..], key, row, id);
      }
    }
  }

  /** After deleting Id `id`, it is no longer found and every other Id finds what it found before. */
  lemma {:induction false} FindAfterRemove<T>(rows: seq<T>, key: T -> int, id: int, other: int)
    ensures Find(Remove(rows, key, id), key, other) == if other == id then None else Find(rows, key, other)
  {
    if |rows| > 0 {
      FindAfterRemove(rows[1..], key, id, other);
      if key(rows[0]) != id {
        assert ([rows[0]] + Remove(rows[1..], key, id))[1..] == Remove(rows[1..], key, id);
      }
    }
  }

  /**
   * After writing `row` over the row with its Id, that Id finds the new row
   * (when it was stored at all) and every other Id finds what it found before.
   */
  lemma {:induction false} FindAfterReplace<T>(rows: seq<T>, key: T -> int, row: T, other: int)
    ensures Find(Replace(rows, key, row), key, other)
            == if other == key(row) && HasKey(rows, key, other) then Some(row) else Find(rows, key, other)
  {
    if |rows| > 0 {
      var r := Replace(rows, key, row);
      assert r[1..] == Replace(rows[1..], key, row);
      FindAfterReplace(rows[1..], key, row, other);
      if key(rows[0]) != other && other == key(row) {
        assert HasKey(rows, key, other) <==> HasKey(rows[1..], key, other) by {
          if HasKey(rows, key, other) {
            var i :| 0 <= i < |rows| && key(rows[i]) == other;
            assert rows[1..][i - 1] == rows[i];
          }
          if HasKey(rows[1..], key, other) {
            var i :| 0 <= i < |rows[1..]| && key(rows[1..][i]) == other;
            assert rows[i + 1] == rows[1..][i];
          }
        }
      }
    }
  }
}
