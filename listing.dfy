/**
 * The list queries' ORDER BY and LIMIT/OFFSET: `offset = (page - 1) * limit`
 * and `pages = Math.ceil(total / limit)`.
 */
module Listing {
  import opened Numbers

  /** Consecutive rows are in the order `le`. */
  predicate SortedBy<T>(s: seq<T>, le: (T, T) -> bool) {
    forall i :: 0 < i < |s| ==> le(s[i - 1], s[i])
  }

  /** Any two values are comparable, as for an ORDER BY column. */
  ghost predicate Total<T(!new)>(le: (T, T) -> bool) {
    forall a, b :: le(a, b) || le(b, a)
  }

  /** Inserts `x` before the first row it is ordered before. */
  function Insert<T(!new)>(x: T, s: seq<T>, le: (T, T) -> bool): (r: seq<T>)
    requires Total(le) && SortedBy(s, le)
    ensures SortedBy(r, le)
    ensures multiset(r) == multiset(s) + multiset{x}
    ensures |r| == |s| + 1
    ensures r[0] == x || (s != [] && r[0] == s[0])
  {
    if s == [] then [x]
    else if le(x, s[0]) then [x] + s
    else
      var t := Insert(x, s[1..], le);
      assert s == [s[0]] + s[1..];
      [s[0]] + t
  }

  /** The rows in the order `le`; rows that compare equal keep their table order. */
  function Sort<T(!new)>(s: seq<T>, le: (T, T) -> bool): (r: seq<T>)
    requires Total(le)
    ensures SortedBy(r, le)
    ensures multiset(r) == multiset(s)
    ensures |r| == |s|
  {
    if s == [] then []
    else
      assert s == [s[0]] + s[1..];
      Insert(s[0], Sort(s[1..], le), le)
  }

  /** Lexicographic order on strings by code point, as `ORDER BY` on a text column under a binary collation. */
  predicate StringLe(a: string, b: string) {
    if a == [] then true
    else if b == [] then false
    else if a[0] != b[0] then a[0] < b[0]
    else StringLe(a[1..], b[1..])
  }

  lemma {:induction false} StringLeTotal(a: string, b: string)
    ensures StringLe(a, b) || StringLe(b, a)
  {
    if a != [] && b != [] && a[0] == b[0] {
      StringLeTotal(a[1..], b[1..]);
    }
  }

  lemma {:induction false} StringLeReflexive(a: string)
    ensures StringLe(a, a)
  {
    if a != [] {
      StringLeReflexive(a[1..]);
    }
  }

  /**
   * Newest first (`ORDER BY createdAt DESC`): rows are kept in insertion
   * order, so this is the table read backwards.
   */
  function NewestFirst<T>(s: seq<T>): (r: seq<T>)
    ensures |r| == |s|
    ensures forall k :: 0 <= k < |s| ==> r[k] == s[|s| - 1 - k]
    ensures multiset(r) == multiset(s)
  {
    if s == [] then [] else
      assert s == [s[0]] + s[1..];
      NewestFirst(s[1..]) + [s[0]]
  }

  /** `(page - 1) * limit`. */
  function Offset(page: int, limit: int): int {
    (page - 1) * limit
  }

  /** `Math.ceil(total / limit)`: the number of pages needed for `total` rows. */
  function Pages(total: nat, limit: nat): (p: nat)
    requires limit > 0
    ensures total <= p * limit
    ensures p == 0 || (p - 1) * limit < total
  {
    CeilDiv(total, limit)
  }

  /** `LIMIT limit OFFSET (page - 1) * limit` over the ordered rows. */
  function Paginate<T>(rows: seq<T>, page: int, limit: int): (r: seq<T>)
    requires page >= 1 && limit >= 1
    ensures Offset(page, limit) >= 0
    ensures |r| <= limit
    ensures Offset(page, limit) < |rows| ==> |r| == if |rows| - Offset(page, limit) < limit then |rows| - Offset(page, limit) else limit
    ensures Offset(page, limit) >= |rows| ==> r == []
    ensures forall k :: 0 <= k < |r| ==> Offset(page, limit) + k < |rows| && r[k] == rows[Offset(page, limit) + k]
  {
    var off := Offset(page, limit);
    assert off >= 0 by { assert (page - 1) * limit >= 0; }
    if off >= |rows| then []
    else if |rows| - off < limit then rows[off..]
    else rows[off..off + limit]
  }

  /** A page holds rows of the listing only, still in its order. */
  lemma PageOfSorted<T>(rows: seq<T>, page: int, limit: int, le: (T, T) -> bool)
    requires page >= 1 && limit >= 1
    requires SortedBy(rows, le)
    ensures SortedBy(Paginate(rows, page, limit), le)
    ensures forall x | x in Paginate(rows, page, limit) :: x in rows
  {
    var r := Paginate(rows, page, limit);
    var off := Offset(page, limit);
    forall k | 0 < k < |r|
      ensures le(r[k - 1], r[k])
    {
      assert r[k - 1] == rows[off + k - 1] && r[k] == rows[off + k];
    }
    forall x | x in r
      ensures x in rows
    {
      var k :| 0 <= k < |r| && r[k] == x;
      assert rows[off + k] == x;
    }
  }

  /** Row `k` is on page `k / limit + 1`, at position `k - (page - 1) * limit`, and that page is within `pages`. */
  lemma RowOnItsPage<T>(rows: seq<T>, limit: nat, k: nat) returns (page: int)
    requires limit >= 1 && k < |rows|
    ensures page == k / limit + 1
    ensures 1 <= page <= Pages(|rows|, limit)
    ensures Offset(page, limit) <= k < Offset(page, limit) + limit
    ensures k - Offset(page, limit) < |Paginate(rows, page, limit)|
    ensures Paginate(rows, page, limit)[k - Offset(page, limit)] == rows[k]
  {
    page := k / limit + 1;
    assert k == (k / limit) * limit + k % limit;
    assert Offset(page, limit) == (k / limit) * limit;
    LessFromProducts(k / limit, Pages(|rows|, limit), limit);
  }

  /** Every row shows up on some page no later than the last one. */
  lemma ListedOnSomePage<T>(rows: seq<T>, limit: nat, x: T)
    requires limit >= 1 && x in rows
    ensures exists page :: 1 <= page <= Pages(|rows|, limit) && x in Paginate(rows, page, limit)
  {
    var k :| 0 <= k < |rows| && rows[k] == x;
    var page := RowOnItsPage(rows, limit, k);
    var r := Paginate(rows, page, limit);
    assert r[k - Offset(page, limit)] == x;
    assert 1 <= page <= Pages(|rows|, limit) && x in r;
  }
}
