/** Sequences without repetition, and ascending ones. */
module Sequences {

  ghost predicate Distinct<T>(s: seq<T>) {
    forall i, j :: 0 <= i < j < |s| ==> s[i] != s[j]
  }

  /** A smaller element in front. */
  lemma Ahead(x: nat, rest: seq<nat>)
    requires forall i, j :: 0 <= i < j < |rest| ==> rest[i] < rest[j]
    requires forall y :: y in rest ==> x < y
    ensures forall i, j :: 0 <= i < j < |[x] + rest| ==> ([x] + rest)[i] < ([x] + rest)[j]
    ensures forall y :: y in [x] + rest <==> y == x || y in rest
  {
    assert forall i :: 0 <= i < |rest| ==> rest[i] in rest;
  }
}
