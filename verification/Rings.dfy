/** What the circular lists and the child lists have in common. */
module Rings {

  /** No member twice. */
  ghost predicate Distinct<T>(members: seq<T>) {
    forall i, j :: 0 <= i < j < |members| ==> members[i] != members[j]
  }

  /** A ring opened at its sentinel. */
  ghost function Cycle<T>(sentinel: T, ring: seq<T>): seq<T> {
    [sentinel] + ring + [sentinel]
  }
}
