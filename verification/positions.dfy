/**
  Positions inside a partition, as ranks in their total order.

  A full clustering key k owns three consecutive ranks: 4k-1 (just before the row), 4k (the row
  itself) and 4k+1 (just after it).  The ranks 4k+2 are left for bounds on key prefixes, which lie
  between rows.  Ranks keep exactly what the readers use: the order, which positions are rows, and
  whether two positions share a key.
*/
module Positions {

  type Position = int

  // position_in_partition::before_all_clustered_rows()
  const BEFORE_ALL: Position := -2

  predicate IsRow(p: Position) {
    p % 4 == 0
  }

  // position_in_partition::after_key() of the row at p
  function AfterKey(p: Position): (q: Position)
    requires IsRow(p)
  {
    p + 1
  }

  // no_clustering_row_between(): same key, and not (before the key, after the key).
  predicate NoRowBetween(a: Position, b: Position) {
    || a == b
    || (&& a % 4 != 2 && b % 4 != 2
        && (a + 1) / 4 == (b + 1) / 4
        && !(a % 4 == 3 && b % 4 == 1))
  }

  // query::clustering_range: [lo, hi) as positions; hasStart tells a given start bound from a
  // missing one; singular is set for a range made of one full key.
  datatype Range = Range(hasStart: bool, lo: Position, hi: Position, singular: bool)

  predicate ValidRange(r: Range, top: Position) {
    && BEFORE_ALL <= r.lo < r.hi <= top
    && !IsRow(r.lo) && !IsRow(r.hi)
    && (!r.hasStart ==> r.lo == BEFORE_ALL)
    && (r.singular ==> r.hasStart && r.lo % 4 == 3 && r.hi == r.lo + 2)
  }

  predicate ValidRanges(ranges: seq<Range>, top: Position) {
    && (forall i :: 0 <= i < |ranges| ==> ValidRange(ranges[i], top))
    && (forall i, j :: 0 <= i < j < |ranges| ==> ranges[i].hi <= ranges[j].lo)
  }

  predicate InRanges(ranges: seq<Range>, p: Position) {
    exists i :: 0 <= i < |ranges| && ranges[i].lo <= p < ranges[i].hi
  }
}
