/**
  The cached rows of one partition: entries ordered by position, each of which may be marked
  "continuous", meaning that the cache knows everything between the entry and its predecessor.
*/
module CachedRows {
  import opened Positions

  type Cells = map<int, int>

  // rows_entry: a row, or a dummy that only carries a continuity flag
  datatype Entry = Entry(dummy: bool, cells: Cells, continuous: bool)

  // mutation_partition::rows_type: the entries, keyed by their position
  type Rows = map<Position, Entry>

  // The rows of the underlying source
  type Table = map<Position, Cells>

  ghost predicate ValidTable(table: Table, top: Position) {
    forall u :: u in table ==> IsRow(u) && BEFORE_ALL < u < top
  }

  // Closed by a dummy after all rows; dummies are exactly the entries away from row positions.
  predicate WellFormed(rows: Rows, top: Position) {
    && top in rows
    && (forall p :: p in rows ==> p <= top && (rows[p].dummy <==> !IsRow(p)))
  }

  // No row of the source has a position p with lo <= p < hi.
  ghost predicate NoRows(table: Table, lo: Position, hi: Position) {
    forall u :: u in table && lo <= u ==> hi <= u
  }

  // What a cached row holds: the row of the source, or nothing when the source has no such row.
  function RowAt(table: Table, p: Position): (cells: Cells) {
    if p in table then table[p] else map[]
  }

  ghost predicate Accurate(rows: Rows, table: Table) {
    forall p :: p in rows && !rows[p].dummy ==> rows[p].cells == RowAt(table, p)
  }

  // Some entry stands at u, or between u and p.
  ghost predicate Shadowed(rows: Rows, u: Position, p: Position) {
    exists q :: q in rows && u <= q < p
  }

  // Nothing of the source lies strictly between p and the entry before it.
  ghost predicate GapFree(rows: Rows, table: Table, p: Position) {
    forall u :: u in table && u < p ==> Shadowed(rows, u, p)
  }

  // The cache tells the truth about the source.
  ghost predicate CacheInv(rows: Rows, table: Table, top: Position) {
    && WellFormed(rows, top)
    && Accurate(rows, table)
    && (forall p :: p in rows && rows[p].continuous ==> GapFree(rows, table, p))
  }

  // q is the first entry at or after p.
  ghost predicate IsFirst(rows: Rows, p: Position, q: Position) {
    q in rows && p <= q && forall x :: x in rows && p <= x ==> q <= x
  }

  // rows.lower_bound(p)
  method LowerBound(rows: Rows, p: Position, top: Position) returns (q: Position)
    requires top in rows && p <= top
    ensures IsFirst(rows, p, q)
  {
    q := p;
    while q !in rows
      invariant p <= q <= top
      invariant forall x :: x in rows && p <= x ==> q <= x
      decreases top - q
    {
      q := q + 1;
    }
  }

  /* A gap stays free of rows whatever is added to the cache. */
  lemma GapFreeGrows(rows: Rows, rows': Rows, table: Table, p: Position)
    requires rows.Keys <= rows'.Keys && GapFree(rows, table, p)
    ensures GapFree(rows', table, p)
  {
    forall u | u in table && u < p ensures Shadowed(rows', u, p) {
      assert Shadowed(rows, u, p);
      var q :| q in rows && u <= q < p;
      assert q in rows';
    }
  }

  /* Writing an entry keeps the cache truthful exactly when the flag it carries is earned. */
  lemma PutKeepsInv(rows: Rows, table: Table, top: Position, p: Position, e: Entry)
    requires CacheInv(rows, table, top) && p <= top
    requires e.dummy <==> !IsRow(p)
    requires !e.dummy ==> e.cells == RowAt(table, p)
    ensures CacheInv(rows[p := e], table, top) <==> (e.continuous ==> GapFree(rows, table, p))
  {
    var rows' := rows[p := e];
    if e.continuous && CacheInv(rows', table, top) {
      forall u | u in table && u < p ensures Shadowed(rows, u, p) {
        assert Shadowed(rows', u, p);
        var q :| q in rows' && u <= q < p;
        assert q in rows;
      }
    }
    if e.continuous ==> GapFree(rows, table, p) {
      forall x | x in rows' && rows'[x].continuous ensures GapFree(rows', table, x) {
        GapFreeGrows(rows, rows', table, x);
      }
    }
  }

  /* A continuous entry hides no row of the source from any position after its predecessor. */
  lemma ContinuousCovers(rows: Rows, table: Table, p: Position, q: Position)
    requires IsFirst(rows, p, q) && GapFree(rows, table, q)
    ensures NoRows(table, p, q)
  {
    forall u | u in table && p <= u ensures q <= u {
      assert u < q ==> Shadowed(rows, u, q);
    }
  }

  /* An absent row may be recorded right before entry q, under q's own continuity. */
  lemma SplitGap(rows: Rows, table: Table, p: Position, q: Position)
    requires IsFirst(rows, p, q) && GapFree(rows, table, q)
    ensures GapFree(rows, table, p)
  {
    forall u | u in table && u < p ensures Shadowed(rows, u, p) {
      assert Shadowed(rows, u, q);
      var x :| x in rows && u <= x < q;
      assert x < p;
    }
  }
}
