/**
 * Rows of a table held in insertion order, each with a primary key. A lookup
 * by primary key (`findByPk`) yields the position of the row with that key.
 */
module Tables {
  import opened Wrappers

  /** A primary key or a foreign-key reference (a UUID in the database). */
  type Id = string

  /**
   * A foreign-key column: the key of the row it names, or null once that row
   * was deleted (the associations' default ON DELETE SET NULL).
   */
  type Ref = Option<Id>

  /** The position of the first row whose key is `id`, if any. */
  function IndexOf<T>(rows: seq<T>, key: T -> Id, id: Id): (r: Option<nat>)
    ensures r.Some? ==> r.value < |rows| && key(rows[r.value]) == id
    ensures r.Some? ==> forall j :: 0 <= j < r.value ==> key(rows[j]) != id
    ensures r.None? <==> forall j :: 0 <= j < |rows| ==> key(rows[j]) != id
  {
    if rows == [] then None
    else if key(rows[0]) == id then Some(0)
    else match IndexOf(rows[1..], key, id)
      case None => None
      case Some(k) => Some(k + 1)
  }

  /** No two rows share a key: what a primary key or a unique index guarantees. */
  predicate UniqueKeys<T>(rows: seq<T>, key: T -> Id) {
    forall i, j :: 0 <= i < j < |rows| ==> key(rows[i]) != key(rows[j])
  }

  /** The table without the row at position `i` (`destroy`). */
  function RemoveAt<T>(rows: seq<T>, i: nat): (r: seq<T>)
    requires i < |rows|
    ensures |r| == |rows| - 1
    ensures forall j :: 0 <= j < i ==> r[j] == rows[j]
    ensures forall j :: i <= j < |r| ==> r[j] == rows[j + 1]
  {
    rows[..i] + rows[i + 1..]
  }

  /** With unique keys, the lookup finds the one row that has the key. */
  lemma IndexOfUnique<T>(rows: seq<T>, key: T -> Id, i: nat)
    requires UniqueKeys(rows, key) && i < |rows|
    ensures IndexOf(rows, key, key(rows[i])) == Some(i)
  {
  }

  /** Replacing a row by one with the same key keeps the keys unique. */
  lemma UniqueAfterUpdate<T>(rows: seq<T>, key: T -> Id, i: nat, x: T)
    requires UniqueKeys(rows, key) && i < |rows| && key(x) == key(rows[i])
    ensures UniqueKeys(rows[i := x], key)
  {
  }

  /** Row `i` may take a key no other row holds. */
  lemma UniqueAfterReplace<T>(rows: seq<T>, key: T -> Id, i: nat, x: T)
    requires UniqueKeys(rows, key) && i < |rows|
    requires forall j :: 0 <= j < |rows| && j != i ==> key(rows[j]) != key(x)
    ensures UniqueKeys(rows[i := x], key)
  {
  }

  /** Appending a row whose key is not taken keeps the keys unique. */
  lemma UniqueAfterAppend<T>(rows: seq<T>, key: T -> Id, x: T)
    requires UniqueKeys(rows, key) && IndexOf(rows, key, key(x)).None?
    ensures UniqueKeys(rows + [x], key)
  {
  }

  /** Removing a row keeps the keys unique. */
  lemma UniqueAfterRemove<T>(rows: seq<T>, key: T -> Id, i: nat)
    requires UniqueKeys(rows, key) && i < |rows|
    ensures UniqueKeys(RemoveAt(rows, i), key)
  {
  }

  /** Replacing a row by one with the same key does not move any lookup. */
  lemma IndexOfAfterUpdate<T>(rows: seq<T>, key: T -> Id, i: nat, x: T, id: Id)
    requires i < |rows| && key(x) == key(rows[i])
    ensures IndexOf(rows[i := x], key, id) == IndexOf(rows, key, id)
  {
    var u := rows[i := x];
    assert forall j :: 0 <= j < |rows| ==> key(u[j]) == key(rows[j]);
    var r, r' := IndexOf(rows, key, id), IndexOf(u, key, id);
    if r.Some? {
      assert key(u[r.value]) == id;
    }
    if r'.Some? {
      assert key(rows[r'.value]) == id;
    }
  }

  /** Appending a row does not move the lookup of a key already present. */
  lemma IndexOfAfterAppend<T>(rows: seq<T>, key: T -> Id, x: T, id: Id)
    requires IndexOf(rows, key, id).Some?
    ensures IndexOf(rows + [x], key, id) == IndexOf(rows, key, id)
  {
    var r, r' := IndexOf(rows, key, id), IndexOf(rows + [x], key, id);
    assert (rows + [x])[r.value] == rows[r.value];
    assert !(r.value < r'.value) && !(r'.value < r.value);
  }

  /** Appending a row whose key was absent makes the new row the one the lookup finds. */
  lemma IndexOfAppendNew<T>(rows: seq<T>, key: T -> Id, x: T)
    requires IndexOf(rows, key, key(x)).None?
    ensures IndexOf(rows + [x], key, key(x)) == Some(|rows|)
  {
    assert (rows + [x])[|rows|] == x;
  }

  /** Removing another row does not lose a key that is present. */
  lemma IndexOfAfterRemove<T>(rows: seq<T>, key: T -> Id, i: nat, id: Id)
    requires i < |rows| && key(rows[i]) != id && IndexOf(rows, key, id).Some?
    ensures IndexOf(RemoveAt(rows, i), key, id).Some?
  {
    var p := IndexOf(rows, key, id).value;
    var r := RemoveAt(rows, i);
    if p < i {
      assert key(r[p]) == id;
    } else {
      assert key(r[p - 1]) == id;
    }
  }

  /** Two tables with the same key at every position answer every lookup alike. */
  lemma IndexOfSameKeys<T>(rows: seq<T>, rows': seq<T>, key: T -> Id, id: Id)
    requires |rows| == |rows'| && forall i :: 0 <= i < |rows| ==> key(rows[i]) == key(rows'[i])
    ensures IndexOf(rows', key, id) == IndexOf(rows, key, id)
  {
    var r, r' := IndexOf(rows, key, id), IndexOf(rows', key, id);
    if r.Some? {
      assert key(rows'[r.value]) == id;
    }
    if r'.Some? {
      assert key(rows[r'.value]) == id;
    }
  }
}
