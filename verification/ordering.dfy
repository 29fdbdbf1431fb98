/**
 Ascending order on migration ids: the engine sorts the registry's keys before
 every walk over it, so that apply runs in ascending and rollback in descending
 id order whatever order the map is iterated in.
 */
module Ordering {
  import opened Base

  ghost predicate StrictlyAscending(s: seq<MigrationId>) {
    forall i, j | 0 <= i < j < |s| :: s[i] < s[j]
  }

  ghost predicate Distinct(s: seq<MigrationId>) {
    forall i, j | 0 <= i < j < |s| :: s[i] != s[j]
  }

  /** Every non-empty set of ids has a least element. */
  lemma {:induction false} LeastElement(s: set<MigrationId>) returns (least: MigrationId)
    requires s != {}
    ensures least in s
    ensures forall y | y in s :: least <= y
    decreases |s|
  {
    var x :| x in s;
    var rest := s - {x};
    if rest == {} {
      least := x;
      forall y | y in s
        ensures least <= y
      {
        assert y !in rest;
      }
    } else {
      assert |rest| == |s| - 1;
      var m := LeastElement(rest);
      least := if x < m then x else m;
      forall y | y in s
        ensures least <= y
      {
        if y != x {
          assert y in rest;
        }
      }
    }
  }

  lemma LeastExists(s: set<MigrationId>)
    requires s != {}
    ensures exists m :: m in s && forall y | y in s :: m <= y
  {
    var least := LeastElement(s);
  }

  /** The least id of a non-empty set. */
  function Least(s: set<MigrationId>): (m: MigrationId)
    requires s != {}
    ensures m in s
    ensures forall y | y in s :: m <= y
  {
    LeastExists(s);
    var m :| m in s && forall y | y in s :: m <= y;
    m
  }

  /** The ids of `s` listed once each, smallest first; this is what sorting the
      key slice of the registry produces. */
  function SortedIds(s: set<MigrationId>): (r: seq<MigrationId>)
    ensures StrictlyAscending(r)
    ensures forall x :: x in r <==> x in s
    ensures |r| == |s|
    decreases |s|
  {
    if s == {} then []
    else
      var m := Least(s);
      [m] + SortedIds(s - {m})
  }

  lemma AscendingIsDistinct(s: seq<MigrationId>)
    requires StrictlyAscending(s)
    ensures Distinct(s)
  {
  }
}
