/** `findMany({ where, orderBy })` over one table: the keys of the rows a
    filter keeps, each once, ordered by a numeric rank. The caller supplies
    the filter and the ordering column as one map from each kept key to its
    rank; a descending order on a column is an ascending order on its
    negation. Rows of equal rank come back in an order the database does not
    promise, so the contracts say nothing about it.
 */
module Ordered {
  import opened Db

  predicate Distinct(ids: seq<Id>) {
    forall i, j :: 0 <= i < j < |ids| ==> ids[i] != ids[j]
  }

  predicate Ranked(ids: seq<Id>, rank: map<Id, int>) {
    forall i :: 0 <= i < |ids| ==> ids[i] in rank
  }

  predicate SortedByRank(ids: seq<Id>, rank: map<Id, int>)
    requires Ranked(ids, rank)
  {
    forall i, j :: 0 <= i < j < |ids| ==> rank[ids[i]] <= rank[ids[j]]
  }

  /** Places `k` in front of the first key that does not rank below it. */
  function InsertByRank(k: Id, ids: seq<Id>, rank: map<Id, int>): (r: seq<Id>)
    requires k in rank && Ranked(ids, rank) && SortedByRank(ids, rank)
    ensures |r| == |ids| + 1
    ensures multiset(r) == multiset(ids) + multiset{k}
    ensures forall x :: x in r <==> x == k || x in ids
    ensures Ranked(r, rank) && SortedByRank(r, rank)
    decreases ids
  {
    if ids == [] || rank[k] <= rank[ids[0]] then [k] + ids
    else
      var rest := InsertByRank(k, ids[1..], rank);
      HeadBelowRest(k, ids, rest, rank);
      assert multiset(ids) == multiset{ids[0]} + multiset(ids[1..]) by {
        assert ids == [ids[0]] + ids[1..];
      }
      [ids[0]] + rest
  }

  /** The head of a sorted list ranks no higher than its tail with `k`
      inserted, when `k` ranks above the head. */
  lemma HeadBelowRest(k: Id, ids: seq<Id>, rest: seq<Id>, rank: map<Id, int>)
    requires k in rank && Ranked(ids, rank) && SortedByRank(ids, rank)
    requires ids != [] && rank[k] > rank[ids[0]]
    requires Ranked(rest, rank) && forall x :: x in rest <==> x == k || x in ids[1..]
    ensures forall i :: 0 <= i < |rest| ==> rank[ids[0]] <= rank[rest[i]]
  {
    forall i | 0 <= i < |rest| ensures rank[ids[0]] <= rank[rest[i]] {
      if rest[i] != k {
        assert rest[i] in ids[1..];
        var j :| 1 <= j < |ids| && ids[j] == rest[i];
      }
    }
  }

  /** Inserting a key not yet present keeps the keys free of repetition. */
  lemma {:induction false} InsertKeepsDistinct(k: Id, ids: seq<Id>, rank: map<Id, int>)
    requires k in rank && Ranked(ids, rank) && SortedByRank(ids, rank)
    requires Distinct(ids) && k !in ids
    ensures Distinct(InsertByRank(k, ids, rank))
    decreases ids
  {
    if ids != [] && rank[k] > rank[ids[0]] {
      InsertKeepsDistinct(k, ids[1..], rank);
      assert ids[0] !in ids[1..];
    }
  }

  /** Every key of `rank` exactly once, in non-decreasing rank. */
  method SortKeys(rank: map<Id, int>) returns (ids: seq<Id>)
    ensures forall k :: k in ids <==> k in rank
    ensures Distinct(ids)
    ensures Ranked(ids, rank) && SortedByRank(ids, rank)
  {
    ids := [];
    var rest := rank.Keys;
    while rest != {}
      invariant rest <= rank.Keys
      invariant forall k :: k in ids <==> k in rank && k !in rest
      invariant Distinct(ids)
      invariant Ranked(ids, rank) && SortedByRank(ids, rank)
      decreases rest
    {
      var k :| k in rest;
      InsertKeepsDistinct(k, ids, rank);
      ids := InsertByRank(k, ids, rank);
      rest := rest - {k};
    }
  }
}
