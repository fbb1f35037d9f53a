/** Sequences in which nothing stands twice, and sequences that differ in one place. */
module Sequences {

  /** From index `i` on no element stands twice. */
  ghost predicate DistinctFrom(s: seq<nat>, i: nat) {
    forall a, b :: i <= a < b < |s| ==> s[a] != s[b]
  }

  ghost predicate Distinct(s: seq<nat>) {
    DistinctFrom(s, 0)
  }

  /** No element but number `i` changed. */
  ghost predicate ChangedAt<T>(was: seq<T>, now: seq<T>, i: nat) {
    |now| == |was| && forall j :: 0 <= j < |was| && j != i ==> now[j] == was[j]
  }
}
