/**
 * Row order. `ORDER BY <column> ASC` over rows named by their ids is `SortBy` with the column as
 * the key; rows with equal keys are placed by ascending id, which is one of the orders the
 * database may return them in. A single row picked out of several (`recordset[0]` of a query
 * without ORDER BY) is the one with the least id.
 */
module Ordering {

  /** `a` comes no later than `b` in ascending `key` order, equal keys by ascending id. */
  predicate Before(key: int -> int, a: int, b: int) {
    key(a) < key(b) || (key(a) == key(b) && a <= b)
  }

  /** `m` is the first element of `ids` in ascending `key` order. */
  predicate IsLeast(ids: set<int>, key: int -> int, m: int) {
    m in ids && forall y :: y in ids ==> Before(key, m, y)
  }

  /** A set without members is the empty set. */
  lemma NoMemberEmpty(ids: set<int>)
    ensures (forall y :: y !in ids) ==> ids == {}
  {
    if forall y :: y !in ids {
      assert forall y :: y in ids <==> y in {};
    }
  }

  /** Every non-empty finite set of ids has a first element in that order. */
  lemma {:induction false} LeastExists(ids: set<int>, key: int -> int)
    requires ids != {}
    ensures exists m :: IsLeast(ids, key, m)
    decreases |ids|
  {
    NoMemberEmpty(ids);
    var x :| x in ids;
    if ids == {x} {
      assert IsLeast(ids, key, x);
    } else {
      var rest := ids - {x};
      LeastExists(rest, key);
      var m :| IsLeast(rest, key, m);
      if Before(key, m, x) {
        assert IsLeast(ids, key, m) by {
          forall y | y in ids ensures Before(key, m, y) {
            if y != x { assert y in rest; }
          }
        }
      } else {
        assert IsLeast(ids, key, x) by {
          forall y | y in ids ensures Before(key, x, y) {
            if y != x { assert y in rest && Before(key, m, y); }
          }
        }
      }
    }
  }

  /** The first id of a non-empty set in ascending `key` order. */
  function LeastBy(ids: set<int>, key: int -> int): (m: int)
    requires ids != {}
    ensures m in ids
    ensures forall y :: y in ids ==> Before(key, m, y)
  {
    LeastExists(ids, key);
    var m :| IsLeast(ids, key, m);
    m
  }

  /** The least id of a non-empty set. */
  function Least(ids: set<int>): (m: int)
    requires ids != {}
    ensures m in ids && forall y :: y in ids ==> m <= y
  {
    LeastBy(ids, k => k)
  }

  predicate SortedBy(s: seq<int>, key: int -> int) {
    forall i, j :: 0 <= i < j < |s| ==> Before(key, s[i], s[j])
  }

  predicate Distinct(s: seq<int>) {
    forall i, j :: 0 <= i < j < |s| ==> s[i] != s[j]
  }

  /** A subset is no larger than the set around it. */
  lemma SubsetNoLarger(a: set<int>, b: set<int>)
    requires a <= b
    ensures |a| <= |b|
  {
    assert b == a + (b - a);
    assert a * (b - a) == {};
  }

  /** The key that orders ids by themselves. */
  function ById(id: int): int {
    id
  }

  /** Listing ids by themselves puts each strictly before every later one. */
  lemma SortedByIdAscending(r: seq<int>)
    requires SortedBy(r, ById) && Distinct(r)
    ensures forall i, j :: 0 <= i < j < |r| ==> r[i] < r[j]
  {
    forall i, j | 0 <= i < j < |r|
      ensures r[i] < r[j]
    {
      assert Before(ById, r[i], r[j]);
    }
  }

  /** The ids of `ids` listed once each in ascending `key` order. */
  function SortBy(ids: set<int>, key: int -> int): (r: seq<int>)
    ensures |r| == |ids|
    ensures forall x :: x in r <==> x in ids
    ensures Distinct(r)
    ensures SortedBy(r, key)
    decreases |ids|
  {
    if ids == {} then []
    else
      var m := LeastBy(ids, key);
      [m] + SortBy(ids - {m}, key)
  }
}
