/**
  The reader that serves one partition from the row cache, filling the cache from the underlying
  source as it goes.  Any number of readers share one snapshot of the partition.

  A reader's invariant speaks about the source rather than about continuity flags, which is what
  makes it survive the steps of other readers.
*/
module CacheReaders {
  import opened Positions
  import opened CachedRows
  import opened CacheFilling
  import opened Wrappers

  // clustering_row, as pushed into the reader's buffer
  datatype Fragment = Fragment(pos: Position, cells: Cells)

  ghost predicate Emitted(out: seq<Fragment>, p: Position) {
    exists i :: 0 <= i < |out| && out[i].pos == p
  }

  predicate Increasing(out: seq<Fragment>) {
    forall i, j :: 0 <= i < j < |out| ==> out[i].pos < out[j].pos
  }

  // Rows come out in order, below `bound`, from the ranges only, and say what the source says.
  ghost predicate Sound(out: seq<Fragment>, table: Table, ranges: seq<Range>, bound: Position) {
    && Increasing(out)
    && (forall i :: 0 <= i < |out| ==>
          && out[i].pos < bound
          && InRanges(ranges, out[i].pos)
          && out[i].cells == RowAt(table, out[i].pos))
  }

  // Every source row inside the ranges and below `bound` has come out.
  ghost predicate CompleteBelow(out: seq<Fragment>, table: Table, ranges: seq<Range>, bound: Position) {
    forall u :: u in table && u < bound && InRanges(ranges, u) ==> Emitted(out, u)
  }

  // The output so far is exactly what the source holds below `bound`.
  ghost predicate Exact(out: seq<Fragment>, table: Table, ranges: seq<Range>, bound: Position) {
    Sound(out, table, ranges, bound) && CompleteBelow(out, table, ranges, bound)
  }

  datatype State = BeforeStaticRow | ReadingFromCache | MoveToUnderlying | ReadingFromUnderlying | EndOfStream

  // The fields of a reader, as a value
  datatype ReaderView = ReaderView(
    ranges: seq<Range>, curr: nat, state: State, lower: Position, upper: Position,
    lastRow: Option<Position>, nextPos: Position, nextMark: nat, nextInRange: bool,
    out: seq<Fragment>)

  // What holds in every state between the start and the end of the stream.
  ghost predicate Base(v: ReaderView, rows: Rows, latest: bool, table: Table, top: Position) {
    && ValidRanges(v.ranges, top)
    && v.curr < |v.ranges|
    && v.upper == v.ranges[v.curr].hi
    && v.ranges[v.curr].lo <= v.lower <= v.upper
    && !IsRow(v.lower)
    && Exact(v.out, table, v.ranges, v.lower)
    && (latest ==> Populated(v, rows, table) && LastRowInv(v, rows, table))
  }

  // While the snapshot can be populated, what this reader emitted from its range is in the cache.
  ghost predicate Populated(v: ReaderView, rows: Rows, table: Table)
    requires v.curr < |v.ranges|
  {
    forall u :: u in table && v.ranges[v.curr].lo <= u < v.lower ==> u in rows
  }

  // _last_row is the direct predecessor of the next row of the source.
  ghost predicate LastRowInv(v: ReaderView, rows: Rows, table: Table) {
    v.lastRow.Some? ==>
      && v.lastRow.value in rows
      && v.lastRow.value < v.upper
      && (forall u :: u in table ==> (v.lastRow.value < u <==> v.lower <= u))
  }

  // Everything but the last dummy was evicted under the reader, for good.
  ghost predicate Evicted(rows: Rows, top: Position, latest: bool) {
    !latest && rows.Keys == {top}
  }

  // Where the read in progress ends: at the entry under the cursor, or at the end of the range.
  function ReadEnd(v: ReaderView): Position {
    if v.nextInRange then v.nextPos else v.upper
  }

  // Facts kept once the reader has decided to read [lower, ReadEnd) from the source.
  ghost predicate UnderlyingInv(v: ReaderView, rows: Rows, mark: nat, latest: bool, top: Position) {
    && (v.nextPos in rows || (v.nextMark != mark && Evicted(rows, top, latest)))
    && v.nextMark <= mark
    && v.lower <= v.nextPos <= top
    && (v.nextInRange <==> v.nextPos < v.upper)
    && (latest && v.lastRow.Some? ==> v.lastRow.value < v.nextPos)
  }

  ghost predicate CacheStateInv(v: ReaderView, rows: Rows, mark: nat, table: Table, top: Position) {
    && v.nextMark <= mark
    && (v.nextMark == mark ==>
          && v.nextPos in rows
          && v.lower <= v.nextPos <= top
          && NoRows(table, v.lower, ReadEnd(v))
          && (v.nextInRange <==> v.nextPos < v.upper))
  }

  ghost predicate ReaderInv(v: ReaderView, rows: Rows, mark: nat, latest: bool, table: Table, top: Position) {
    match v.state
    case BeforeStaticRow => ValidRanges(v.ranges, top) && v.curr == 0 && v.out == [] && v.nextMark <= mark
    case ReadingFromCache => Base(v, rows, latest, table, top) && CacheStateInv(v, rows, mark, table, top)
    case EndOfStream => Exact(v.out, table, v.ranges, top)
    case _ => Base(v, rows, latest, table, top) && UnderlyingInv(v, rows, mark, latest, top)
  }

  // What any step of any reader, or of the cache itself, does to the snapshot.
  ghost predicate SnapshotStep(rows: Rows, mark: nat, latest: bool, rows': Rows, mark': nat, latest': bool, top: Position)
  {
    && mark <= mark'
    && (latest' ==> latest)
    && (|| rows' == rows
        || (latest && rows.Keys <= rows'.Keys)
        || (mark < mark' && Evicted(rows', top, latest')))
  }

  // The reader got further: to a later range, past a row, or past an entry.
  ghost predicate Advanced(v: ReaderView, w: ReaderView) {
    || v.curr < w.curr
    || (w.curr == v.curr && w.upper == v.upper && v.lower < w.lower)
    || (w.curr == v.curr && w.upper == v.upper && v.lower == w.lower && v.nextPos < w.nextPos)
  }

  // What a step does to the rows: nothing, or it adds to a populatable snapshot.
  ghost predicate Grown(rows: Rows, rows': Rows, latest: bool) {
    rows' == rows || (latest && rows.Keys <= rows'.Keys)
  }

  // What a reader that nobody disturbs has made of the ranges behind it and of the one it is in
  ghost predicate Tracks(v: ReaderView, rows: Rows, table: Table, bad: set<nat>) {
    match v.state
    case BeforeStaticRow => Accounted(rows, table, v.ranges, 0, bad)
    case EndOfStream => Accounted(rows, table, v.ranges, |v.ranges|, bad)
    case ReadingFromCache =>
      && v.curr < |v.ranges| && Accounted(rows, table, v.ranges, v.curr, bad)
      && FilledTo(rows, v.ranges[v.curr], v.nextPos)
    case _ =>
      && v.curr < |v.ranges| && Accounted(rows, table, v.ranges, v.curr, bad)
      && Behind(rows, v.ranges[v.curr], v.lastRow, v.nextPos)
  }

  ghost predicate FilledBefore(rows: Rows, ranges: seq<Range>, n: nat) {
    forall i :: 0 <= i < n && i < |ranges| ==> Filled(rows, ranges[i])
  }

  // What a reader that has not left the cache knows of it
  ghost predicate Walked(v: ReaderView, rows: Rows) {
    match v.state
    case BeforeStaticRow => true
    case EndOfStream => AllFilled(rows, v.ranges)
    case ReadingFromCache =>
      v.curr < |v.ranges| && FilledBefore(rows, v.ranges, v.curr) && FilledTo(rows, v.ranges[v.curr], v.nextPos)
    case _ => false
  }

  // A step in the cache changes nothing there; the reader leaves the cache only when it does not hold all ranges
  ghost predicate StaysInCache(v: ReaderView, rows: Rows, w: ReaderView, rows': Rows) {
    Walked(v, rows) ==>
      if w.state.MoveToUnderlying? then !AllFilled(rows, v.ranges) else rows' == rows && Walked(w, rows')
  }

  /* A reader's invariant survives every step taken by others on the shared snapshot. */
  lemma ReaderInvStable(v: ReaderView, table: Table, top: Position,
                        rows: Rows, mark: nat, latest: bool,
                        rows': Rows, mark': nat, latest': bool)
    requires ReaderInv(v, rows, mark, latest, table, top)
    requires SnapshotStep(rows, mark, latest, rows', mark', latest', top)
    ensures ReaderInv(v, rows', mark', latest', table, top)
  {
  }

  /* Once a range holds no more rows, the output is exact up to wherever the next one starts. */
  lemma RangeDone(v: ReaderView, rows: Rows, latest: bool, table: Table, top: Position)
    requires Base(v, rows, latest, table, top) && ValidTable(table, top)
    requires NoRows(table, v.lower, v.upper)
    ensures Exact(v.out, table, v.ranges, if v.curr + 1 < |v.ranges| then v.ranges[v.curr + 1].lo else top)
  {
    var bound := if v.curr + 1 < |v.ranges| then v.ranges[v.curr + 1].lo else top;
    forall u | u in table && u < bound && InRanges(v.ranges, u) ensures Emitted(v.out, u) {
      var i :| 0 <= i < |v.ranges| && v.ranges[i].lo <= u < v.ranges[i].hi;
      assert i <= v.curr;
      if i < v.curr {
        assert v.ranges[i].hi <= v.ranges[v.curr].lo;
      }
      assert u < v.lower;
    }
  }

  /* Emitting the next row of the range keeps the output exact. */
  lemma EmitKeepsExact(out: seq<Fragment>, table: Table, top: Position, ranges: seq<Range>, curr: nat,
                       lower: Position, f: Fragment)
    requires ValidTable(table, top)
    requires Exact(out, table, ranges, lower)
    requires curr < |ranges| && ranges[curr].lo <= f.pos < ranges[curr].hi
    requires IsRow(f.pos) && lower <= f.pos && NoRows(table, lower, f.pos)
    requires f.cells == RowAt(table, f.pos)
    ensures Exact(out + [f], table, ranges, AfterKey(f.pos))
  {
    var out' := out + [f];
    assert InRanges(ranges, f.pos);
    forall u | u in table && u < AfterKey(f.pos) && InRanges(ranges, u) ensures Emitted(out', u) {
      if u < lower {
        assert Emitted(out, u);
        var i :| 0 <= i < |out| && out[i].pos == u;
        assert out'[i].pos == u;
      } else {
        assert out'[|out|].pos == u;
      }
    }
  }

  // The view after the reader moved to range i with the cursor at pos.
  function Entered(v: ReaderView, i: nat, pos: Position, mark: nat, served: bool, anchored: bool): (w: ReaderView)
    requires i < |v.ranges|
  {
    ReaderView(v.ranges, i, if served then ReadingFromCache else MoveToUnderlying,
               v.ranges[i].lo, v.ranges[i].hi, if anchored then Some(v.ranges[i].lo) else None,
               pos, mark, pos < v.ranges[i].hi, v.out)
  }

  lemma EnterKeepsInv(v: ReaderView, i: nat, pos: Position, served: bool, anchored: bool,
                      rows: Rows, mark: nat, latest: bool, table: Table, top: Position)
    requires ValidRanges(v.ranges, top) && ValidTable(table, top) && i < |v.ranges|
    requires Exact(v.out, table, v.ranges, v.ranges[i].lo)
    requires pos in rows && v.ranges[i].lo <= pos <= top
    requires served ==> NoRows(table, v.ranges[i].lo, pos)
    requires anchored ==> v.ranges[i].lo in rows && v.ranges[i].lo < pos
    ensures ReaderInv(Entered(v, i, pos, mark, served, anchored), rows, mark, latest, table, top)
  {
  }

  // What the look-up found, and left, at the start of range i
  lemma EnterTracks(rows: Rows, ranges: seq<Range>, i: nat, pos: Position, served: bool, anchored: bool, rows': Rows,
                    top: Position)
    requires ValidRanges(ranges, top) && i < |ranges| && IsFirst(rows, ranges[i].lo, pos)
    requires served <==> Serves(rows, ranges[i].lo, pos)
    requires anchored ==> !served
    requires rows' == if anchored then rows[ranges[i].lo := Entry(true, map[], false)] else rows
    ensures served ==> FilledTo(rows', ranges[i], pos)
    ensures anchored ==> Write(rows, ranges[i], ranges[i].lo, Entry(true, map[], false))
    ensures !served && (anchored || (ranges[i].hasStart ==> ranges[i].singular)) ==>
              Behind(rows', ranges[i], if anchored then Some(ranges[i].lo) else None, pos)
    ensures !served ==> !AllFilled(rows, ranges)
  {
    var r := ranges[i];
    assert ValidRange(r, top);
    if served {
      EnterServed(rows, r, pos);
    } else {
      assert !Filled(rows, r);
      if anchored {
        EnterAnchored(rows, r, pos, Entry(true, map[], false));
      } else if r.hasStart ==> r.singular {
        EnterUnanchored(rows, r, pos, top);
      }
    }
  }

  lemma EnterAccounts(rows: Rows, ranges: seq<Range>, i: nat, anchored: bool, rows': Rows, table: Table, top: Position,
                      bad: set<nat>)
    requires ValidRanges(ranges, top) && i < |ranges| && top in rows && Accounted(rows, table, ranges, i, bad)
    requires anchored ==> !ranges[i].singular && Write(rows, ranges[i], ranges[i].lo, Entry(true, map[], false))
    requires rows' == if anchored then rows[ranges[i].lo := Entry(true, map[], false)] else rows
    ensures Accounted(rows', table, ranges, i, bad)
  {
    if anchored {
      assert ValidRange(ranges[i], top);
      WriteKeepsAccount(rows, table, ranges, i, ranges[i].lo, Entry(true, map[], false), top, bad);
    }
  }

  // The cache served a range to its end
  lemma RangeEndsInCache(v: ReaderView, rows: Rows, table: Table, top: Position)
    requires ValidRanges(v.ranges, top) && v.curr < |v.ranges| && top in rows
    requires v.ranges[v.curr].hi <= v.nextPos || NoRowBetween(v.nextPos, v.ranges[v.curr].hi)
    ensures forall bad :: v.state.ReadingFromCache? && Tracks(v, rows, table, bad) ==>
              Accounted(rows, table, v.ranges, v.curr + 1, bad)
    ensures v.state.ReadingFromCache? && Walked(v, rows) ==> FilledBefore(rows, v.ranges, v.curr + 1)
  {
    if FilledTo(rows, v.ranges[v.curr], v.nextPos) {
      CacheEnds(rows, v.ranges[v.curr], v.nextPos);
      forall bad | Accounted(rows, table, v.ranges, v.curr, bad)
        ensures Accounted(rows, table, v.ranges, v.curr + 1, bad)
      {
        EndsInCache(rows, table, v.ranges, v.curr, v.nextPos, top, bad);
      }
    }
  }

  // or goes on to its next entry, unless that is not marked
  lemma NextTracks(v: ReaderView, rows: Rows, pos: Position)
    requires v.curr < |v.ranges| && v.nextPos in rows && v.ranges[v.curr].lo <= v.nextPos < v.ranges[v.curr].hi
    requires !NoRowBetween(v.nextPos, v.ranges[v.curr].hi) && IsFirst(rows, v.nextPos + 1, pos)
    ensures FilledTo(rows, v.ranges[v.curr], v.nextPos) ==>
              if rows[pos].continuous then FilledTo(rows, v.ranges[v.curr], pos)
              else Behind(rows, v.ranges[v.curr], Some(v.nextPos), pos)
    ensures !rows[pos].continuous ==> !AllFilled(rows, v.ranges)
  {
    var r := v.ranges[v.curr];
    if rows[pos].continuous {
      if FilledTo(rows, r, v.nextPos) {
        NextServed(rows, r, v.nextPos, pos);
      }
    } else {
      assert !LeadsOn(rows, v.nextPos, r.hi);
      assert !Filled(rows, r);
    }
  }

  lemma AdjacentCovers(table: Table, top: Position, a: Position, b: Position)
    requires ValidTable(table, top) && NoRowBetween(a, b) && a <= b && !IsRow(a)
    ensures NoRows(table, a, b)
  {
    forall u | u in table && a <= u ensures b <= u {
      assert IsRow(u);
    }
  }

  /* The cache serves everything up to the first entry at or after p when that entry is adjacent to p
     or continuous. */
  lemma ServedFromCache(rows: Rows, table: Table, top: Position, p: Position, q: Position)
    requires CacheInv(rows, table, top) && ValidTable(table, top)
    requires IsFirst(rows, p, q) && !IsRow(p)
    requires NoRowBetween(p, q) || rows[q].continuous
    ensures NoRows(table, p, q)
  {
    if NoRowBetween(p, q) {
      AdjacentCovers(table, top, p, q);
    } else {
      ContinuousCovers(rows, table, p, q);
    }
  }

  // The view after the entry under the cursor was copied out and remembered as _last_row.
  function CopyOut(v: ReaderView, e: Entry): (w: ReaderView) {
    var w := v.(lastRow := Some(v.nextPos));
    if e.dummy then w else w.(out := v.out + [Fragment(v.nextPos, e.cells)], lower := v.nextPos + 1)
  }

  lemma CopyOutKeepsBase(v: ReaderView, rows: Rows, latest: bool, table: Table, top: Position)
    requires Base(v, rows, latest, table, top) && ValidTable(table, top) && CacheInv(rows, table, top)
    requires v.nextPos in rows && v.lower <= v.nextPos < v.upper && NoRows(table, v.lower, v.nextPos)
    ensures Base(CopyOut(v, rows[v.nextPos]), rows, latest, table, top)
    ensures NoRows(table, CopyOut(v, rows[v.nextPos]).lower, v.nextPos + 1)
  {
    var e := rows[v.nextPos];
    if !e.dummy {
      EmitKeepsExact(v.out, table, top, v.ranges, v.curr, v.lower, Fragment(v.nextPos, e.cells));
    }
  }

  lemma NoRowsJoin(table: Table, top: Position, lower: Position, p: Position, q: Position)
    requires ValidTable(table, top)
    requires NoRows(table, lower, p + 1) && NoRowBetween(p, q) && p <= q
    ensures NoRows(table, lower, q)
  {
    forall u | u in table && lower <= u ensures q <= u {
      assert IsRow(u);
    }
  }

  // The guard under which the reader marks entries continuous.
  predicate MayMark(v: ReaderView)
    requires v.curr < |v.ranges|
  {
    !v.ranges[v.curr].hasStart || v.lastRow.Some?
  }

  /* When the reader may mark, an entry at p with no source row in [lower, p) has no gap before it:
     either _last_row stands right before the next source row, or the range has no start and
     everything before `lower` is cached. */
  lemma EarnsContinuity(v: ReaderView, rows: Rows, table: Table, top: Position, p: Position)
    requires Base(v, rows, true, table, top) && ValidTable(table, top)
    requires MayMark(v) && v.lower <= p && NoRows(table, v.lower, p)
    requires v.lastRow.Some? ==> v.lastRow.value < p
    ensures GapFree(rows, table, p)
  {
    forall u | u in table && u < p ensures Shadowed(rows, u, p) {
      var q := if v.lastRow.Some? then v.lastRow.value else u;
      assert u < v.lower;
      assert q in rows && u <= q < p;
    }
  }

  // The cache entry for a row read from the source: an existing one keeps what it holds.
  function PopulatedEntry(v: ReaderView, rows: Rows, f: Fragment): (e: Entry)
    requires v.curr < |v.ranges|
  {
    var e := if f.pos in rows then rows[f.pos] else Entry(false, f.cells, false);
    if MayMark(v) then e.(continuous := true) else e
  }

  lemma PopulatedEntryIsTrue(v: ReaderView, rows: Rows, table: Table, top: Position, f: Fragment)
    requires Base(v, rows, true, table, top) && ValidTable(table, top) && CacheInv(rows, table, top)
    requires f.pos in table && f.cells == table[f.pos] && v.lower <= f.pos && NoRows(table, v.lower, f.pos)
    ensures var e := PopulatedEntry(v, rows, f);
            !e.dummy && e.cells == RowAt(table, f.pos) && (e.continuous ==> GapFree(rows, table, f.pos))
  {
    if MayMark(v) {
      EarnsContinuity(v, rows, table, top, f.pos);
    }
  }

  // The view after a row of the source was taken.
  function Consumed(v: ReaderView, latest: bool, f: Fragment): (w: ReaderView) {
    v.(out := v.out + [f], lower := f.pos + 1, lastRow := if latest then Some(f.pos) else None)
  }

  lemma ConsumeKeepsInv(v: ReaderView, rows: Rows, rows': Rows, mark: nat, latest: bool, table: Table,
                        top: Position, f: Fragment)
    requires v.state.ReadingFromUnderlying? && ReaderInv(v, rows, mark, latest, table, top) && ValidTable(table, top)
    requires f.pos in table && f.cells == table[f.pos]
    requires v.lower <= f.pos < ReadEnd(v) && NoRows(table, v.lower, f.pos)
    requires rows' == rows || (latest && rows.Keys <= rows'.Keys)
    requires latest ==> f.pos in rows'
    ensures ReaderInv(Consumed(v, latest, f), rows', mark, latest, table, top)
  {
    EmitKeepsExact(v.out, table, top, v.ranges, v.curr, v.lower, f);
  }

  // The one key asked for is cached, as an empty row that takes over the continuity of the entry after it
  ghost predicate RecordsAbsence(rows: Rows, rows': Rows, key: Position) {
    if key in rows then rows' == rows
    else exists next :: IsFirst(rows, key, next) && rows' == rows[key := Entry(false, map[], rows[next].continuous)]
  }

  lemma AbsenceTracks(rows: Rows, rows': Rows, table: Table, ranges: seq<Range>, n: nat, last: Option<Position>,
                      next: Position, top: Position, bad: set<nat>)
    requires ValidRanges(ranges, top) && n < |ranges| && top in rows && Accounted(rows, table, ranges, n, bad)
    requires ranges[n].singular && Behind(rows, ranges[n], last, next) && ranges[n].hi < next
    requires Cached(rows, table, ranges[n]) && RecordsAbsence(rows, rows', ranges[n].lo + 1)
    ensures Accounted(rows', table, ranges, n + 1, bad)
  {
    var r := ranges[n];
    if r.lo + 1 in rows {
      EndsPresent(rows, table, ranges, n, last, next, top, bad);
    } else {
      var q :| IsFirst(rows, r.lo + 1, q) && rows' == rows[r.lo + 1 := Entry(false, map[], rows[q].continuous)];
      NextAfterKey(rows, r, last, next, q, top);
      EndsAbsent(rows, table, ranges, n, last, next, Entry(false, map[], rows[q].continuous), top, bad);
    }
  }

  lemma NextAfterKey(rows: Rows, r: Range, last: Option<Position>, next: Position, q: Position, top: Position)
    requires r.singular && ValidRange(r, top) && Behind(rows, r, last, next) && r.hi < next
    requires r.lo + 1 !in rows && IsFirst(rows, r.lo + 1, q)
    ensures q == next
  {
  }

  lemma AdjacentTracks(rows: Rows, rows': Rows, table: Table, ranges: seq<Range>, n: nat, last: Option<Position>,
                       next: Position, top: Position, bad: set<nat>)
    requires ValidRanges(ranges, top) && n < |ranges| && top in rows && next <= top && Accounted(rows, table, ranges, n, bad)
    requires Behind(rows, ranges[n], last, next) && ranges[n].hi <= next && NoRowBetween(ranges[n].hi, next)
    requires Cached(rows, table, ranges[n])
    requires rows' == if !ranges[n].hasStart || last.Some? then Marked(rows, next) else rows
    ensures Accounted(rows', table, ranges, n + 1, bad)
  {
    if !ranges[n].hasStart || last.Some? {
      EndsMarked(rows, table, ranges, n, last, next, top, bad);
    } else {
      EndsUnmarked(rows, table, ranges, n, next, top, bad);
    }
  }

  // The rows before and after the end of a range was populated
  ghost predicate EndPopulated(v: ReaderView, rows: Rows, rows': Rows)
    requires v.curr < |v.ranges| && v.nextPos in rows
  {
    var r := v.ranges[v.curr];
    if NoRowBetween(r.hi, v.nextPos) then rows' == if MayMark(v) then Marked(rows, v.nextPos) else rows
    else if r.singular then RecordsAbsence(rows, rows', r.lo + 1)
    else if !MayMark(v) then rows' == rows
    else rows' == if r.hi in rows then Marked(rows, r.hi) else rows[r.hi := Entry(true, map[], true)]
  }

  // What is left at the end of a range makes it filled, or is the one thing that does not
  lemma EndTracks(v: ReaderView, rows: Rows, rows': Rows, latest: bool, table: Table, top: Position)
    requires Base(v, rows, latest, table, top) && NoRows(table, v.lower, v.upper) && top in rows
    requires v.nextPos in rows && v.upper <= v.nextPos <= top && (latest ==> EndPopulated(v, rows, rows'))
    ensures forall bad :: latest && Accounted(rows, table, v.ranges, v.curr, bad)
                          && Behind(rows, v.ranges[v.curr], v.lastRow, v.nextPos) ==>
              Accounted(rows', table, v.ranges, v.curr + 1, bad)
  {
    if latest {
      RangeIsCached(v, rows, table, top);
      forall bad | Accounted(rows, table, v.ranges, v.curr, bad) && Behind(rows, v.ranges[v.curr], v.lastRow, v.nextPos)
        ensures Accounted(rows', table, v.ranges, v.curr + 1, bad)
      {
        EndTracksOne(v, rows, rows', table, top, bad);
      }
    }
  }

  lemma RangeIsCached(v: ReaderView, rows: Rows, table: Table, top: Position)
    requires Base(v, rows, true, table, top) && NoRows(table, v.lower, v.upper)
    ensures Cached(rows, table, v.ranges[v.curr])
  {
  }

  lemma EndTracksOne(v: ReaderView, rows: Rows, rows': Rows, table: Table, top: Position, bad: set<nat>)
    requires ValidRanges(v.ranges, top) && v.curr < |v.ranges| && top in rows && Cached(rows, table, v.ranges[v.curr])
    requires v.nextPos in rows && v.ranges[v.curr].hi <= v.nextPos <= top && EndPopulated(v, rows, rows')
    requires Accounted(rows, table, v.ranges, v.curr, bad) && Behind(rows, v.ranges[v.curr], v.lastRow, v.nextPos)
    ensures Accounted(rows', table, v.ranges, v.curr + 1, bad)
  {
    var r, n, last, next := v.ranges[v.curr], v.curr, v.lastRow, v.nextPos;
    if NoRowBetween(r.hi, next) {
      AdjacentTracks(rows, rows', table, v.ranges, n, last, next, top, bad);
    } else {
      assert r.hi < next && (last.None? && r.hasStart ==> r.singular);
      if r.singular {
        AbsenceTracks(rows, rows', table, v.ranges, n, last, next, top, bad);
      } else {
        NothingAtEnd(rows, r, last, next);
        EndsWithDummy(rows, table, v.ranges, n, last, next, Entry(true, map[], true), top, bad);
      }
    }
  }

  lemma NothingAtEnd(rows: Rows, r: Range, last: Option<Position>, next: Position)
    requires Behind(rows, r, last, next) && r.lo < r.hi < next
    ensures r.hi !in rows
  {
  }

  // The source was read up to an entry of the range, which can be marked now
  lemma PassTracks(v: ReaderView, rows: Rows, table: Table, top: Position)
    requires ValidRanges(v.ranges, top) && v.curr < |v.ranges| && v.nextPos in rows && top in rows
    requires v.nextPos < v.ranges[v.curr].hi
    ensures forall bad :: Accounted(rows, table, v.ranges, v.curr, bad)
                          && Behind(rows, v.ranges[v.curr], v.lastRow, v.nextPos) ==>
              && MayMark(v) && FilledTo(Marked(rows, v.nextPos), v.ranges[v.curr], v.nextPos)
              && Accounted(Marked(rows, v.nextPos), table, v.ranges, v.curr, bad)
  {
    forall bad | Accounted(rows, table, v.ranges, v.curr, bad) && Behind(rows, v.ranges[v.curr], v.lastRow, v.nextPos)
      ensures MayMark(v) && FilledTo(Marked(rows, v.nextPos), v.ranges[v.curr], v.nextPos)
              && Accounted(Marked(rows, v.nextPos), table, v.ranges, v.curr, bad)
    {
      PassedIsFilled(rows, table, v.ranges, v.curr, v.lastRow, v.nextPos, top, bad);
    }
  }

  // Undisturbed, a row of the source finds no entry of its own and is marked unless nothing before it is known
  lemma ConsumeTracks(v: ReaderView, rows: Rows, rows': Rows, latest: bool, table: Table, top: Position, f: Fragment)
    requires v.state.ReadingFromUnderlying? && Base(v, rows, latest, table, top) && ValidTable(table, top)
    requires CacheInv(rows, table, top) && (v.nextInRange <==> v.nextPos < v.upper)
    requires f.pos in table && v.lower <= f.pos < ReadEnd(v)
    requires latest ==> rows' == rows[f.pos := PopulatedEntry(v, rows, f)]
    ensures forall bad :: latest && Tracks(v, rows, table, bad) ==> Tracks(Consumed(v, latest, f), rows', table, bad)
  {
    var r, e := v.ranges[v.curr], PopulatedEntry(v, rows, f);
    forall bad | latest && Tracks(v, rows, table, bad) ensures Tracks(Consumed(v, latest, f), rows', table, bad) {
      assert ValidRange(r, top) && f.pos < v.nextPos;
      assert f.pos !in rows;
      TakenIsBehind(rows, table, r, v.lastRow, v.nextPos, f.pos, e, top);
      WriteKeepsAccount(rows, table, v.ranges, v.curr, f.pos, e, top, bad);
    }
  }

  /* After a fresh look-up of a cursor that lost its entry, the cache serves the rest of the range if
     the entry found is continuous. */
  lemma RefreshedServes(v: ReaderView, rows: Rows, table: Table, pos: Position)
    requires v.nextInRange <==> v.nextPos < v.upper
    requires NoRows(table, v.lower, ReadEnd(v)) && IsFirst(rows, v.nextPos, pos) && GapFree(rows, table, pos)
    ensures NoRows(table, v.lower, if pos < v.upper then pos else v.upper)
  {
    ContinuousCovers(rows, table, v.nextPos, pos);
  }

  /**
    The snapshot of the partition that readers share: the cached rows, the mark that changes
    whenever references into them are invalidated, and whether it is still the latest version (only
    then may readers populate it).
  */
  class PartitionSnapshot {
    var rows: Rows
    var mark: nat
    var latest: bool
    const top: Position
    ghost const table: Table

    constructor (rows: Rows, top: Position, ghost table: Table)
      requires CacheInv(rows, table, top) && ValidTable(table, top) && top % 4 == 2
      ensures Valid() && this.rows == rows && this.top == top && this.table == table && latest
    {
      this.rows := rows;
      this.top := top;
      this.table := table;
      this.mark := 1;
      this.latest := true;
    }

    ghost predicate Valid()
      reads this
    {
      CacheInv(rows, table, top) && ValidTable(table, top) && top % 4 == 2
    }

    // Writes one entry; its continuity flag has to be earned.
    method Put(p: Position, e: Entry)
      requires Valid() && p <= top && (e.dummy <==> !IsRow(p))
      requires !e.dummy ==> e.cells == RowAt(table, p)
      requires e.continuous ==> GapFree(rows, table, p)
      modifies this`rows
      ensures Valid() && rows == old(rows)[p := e]
    {
      PutKeepsInv(rows, table, top, p, e);
      rows := rows[p := e];
    }

    // References were invalidated: entries moved in memory, or a version was merged.
    method Invalidate()
      requires Valid()
      modifies this`mark
      ensures Valid() && mark == old(mark) + 1
    {
      mark := mark + 1;
    }

    // A newer version was put in front of this one.
    method Supersede()
      requires Valid()
      modifies this`latest
      ensures Valid() && !latest
    {
      latest := false;
    }

    // The partition was evicted: only the last dummy stays, and the snapshot is detached from the
    // cache for good.
    method Evict()
      requires Valid()
      modifies this
      ensures Valid() && Evicted(rows, top, latest) && mark == old(mark) + 1
    {
      rows := map[top := Entry(true, map[], false)];
      mark := mark + 1;
      latest := false;
    }
  }

  /** The reader of the underlying source, forwarded from range to range. */
  class UnderlyingReader {
    const fragments: seq<Fragment>
    var idx: nat
    var end: Position

    constructor (fragments: seq<Fragment>)
      ensures this.fragments == fragments && idx == 0
    {
      this.fragments := fragments;
      this.idx := 0;
      this.end := BEFORE_ALL;
    }

    ghost predicate Valid(table: Table)
      reads this
    {
      && Increasing(fragments)
      && idx <= |fragments|
      && (forall i :: 0 <= i < |fragments| ==> fragments[i].pos in table && fragments[i].cells == table[fragments[i].pos])
      && (forall u :: u in table ==> Emitted(fragments, u))
    }

    ghost predicate Passed(p: Position)
      reads this
    {
      forall i :: 0 <= i < idx && i < |fragments| ==> fragments[i].pos < p
    }

    // Everything before the read position is below p, everything from it on is not.
    ghost predicate AtPosition(p: Position)
      reads this
    {
      Passed(p) && forall i :: idx <= i < |fragments| ==> p <= fragments[i].pos
    }

    // Forwarding never has to go back.
    method FastForwardTo(lo: Position, hi: Position)
      requires idx <= |fragments| && Increasing(fragments) && Passed(lo)
      modifies this
      ensures old(idx) <= idx <= |fragments| && end == hi && AtPosition(lo)
    {
      end := hi;
      while idx < |fragments| && fragments[idx].pos < lo
        invariant old(idx) <= idx <= |fragments| && end == hi && Passed(lo)
      {
        idx := idx + 1;
      }
    }

    lemma NoneLeft(table: Table, lower: Position)
      requires Valid(table) && AtPosition(lower)
      requires idx == |fragments| || end <= fragments[idx].pos
      ensures NoRows(table, lower, end)
    {
      forall u | u in table && lower <= u ensures end <= u {
        assert Emitted(fragments, u);
        var i :| 0 <= i < |fragments| && fragments[i].pos == u;
        assert idx <= i;
      }
    }

    // The next row, which is the first one from `lower` on
    method Next(ghost lower: Position, ghost table: Table) returns (f: Fragment)
      requires Valid(table) && AtPosition(lower) && idx < |fragments|
      modifies this`idx
      ensures Valid(table) && idx == old(idx) + 1 && f == fragments[old(idx)] && AtPosition(f.pos + 1)
      ensures lower <= f.pos && f.pos in table && f.cells == table[f.pos] && NoRows(table, lower, f.pos)
    {
      NextIsFirst(table, lower);
      f := fragments[idx];
      idx := idx + 1;
    }

    lemma NextIsFirst(table: Table, lower: Position)
      requires Valid(table) && AtPosition(lower) && idx < |fragments|
      ensures NoRows(table, lower, fragments[idx].pos)
    {
      forall u | u in table && lower <= u ensures fragments[idx].pos <= u {
        assert Emitted(fragments, u);
        var i :| 0 <= i < |fragments| && fragments[i].pos == u;
        assert idx <= i;
      }
    }
  }

  class CacheReader {
    const snp: PartitionSnapshot
    const under: UnderlyingReader
    const ranges: seq<Range>
    var curr: nat
    var state: State
    var lower: Position
    var upper: Position
    var lastRow: Option<Position>
    var nextPos: Position
    var nextMark: nat
    var nextInRange: bool
    var out: seq<Fragment>

    constructor (snp: PartitionSnapshot, under: UnderlyingReader, ranges: seq<Range>)
      requires snp.Valid() && under.Valid(snp.table) && under.idx == 0 && ValidRanges(ranges, snp.top)
      ensures Valid() && this.snp == snp && this.under == under && this.ranges == ranges
      ensures state == BeforeStaticRow && out == []
    {
      this.snp := snp;
      this.under := under;
      this.ranges := ranges;
      this.curr := 0;
      this.state := BeforeStaticRow;
      this.lower, this.upper := BEFORE_ALL, BEFORE_ALL;
      this.lastRow := None;
      this.nextPos, this.nextMark, this.nextInRange := BEFORE_ALL, 0, false;
      this.out := [];
    }

    function View(): ReaderView
      reads this
    {
      ReaderView(ranges, curr, state, lower, upper, lastRow, nextPos, nextMark, nextInRange, out)
    }

    ghost predicate Inv()
      reads this, snp
    {
      snp.Valid() && ReaderInv(View(), snp.rows, snp.mark, snp.latest, snp.table, snp.top)
    }

    ghost predicate InRange()
      reads this, snp
    {
      snp.Valid() && Base(View(), snp.rows, snp.latest, snp.table, snp.top)
    }

    // Nothing the source reader has already passed is needed again.
    ghost predicate SourceInv()
      reads this, under
    {
      && (state.BeforeStaticRow? ==> under.idx == 0)
      && (!state.BeforeStaticRow? && !state.EndOfStream? ==> under.Passed(lower))
      && (state.ReadingFromUnderlying? ==>
            under.AtPosition(lower) && under.end == ReadEnd(View()))
    }

    ghost predicate Valid()
      reads this, snp, under
    {
      Inv() && under.Valid(snp.table) && SourceInv()
    }

    // The reader is where it left the cursor, the snapshot can be populated, and so far it was
    ghost predicate Follows(bad: set<nat>)
      reads this, snp
    {
      && snp.latest && Tracks(View(), snp.rows, snp.table, bad)
      && (!state.BeforeStaticRow? && !state.EndOfStream? ==> nextMark == snp.mark)
    }

    // The same when the source was read up to the entry under the cursor
    ghost predicate Lags(bad: set<nat>)
      reads this, snp
    {
      && snp.latest && nextMark == snp.mark && curr < |ranges|
      && Accounted(snp.rows, snp.table, ranges, curr, bad) && Behind(snp.rows, ranges[curr], lastRow, nextPos)
    }

    method StartReadingFromUnderlying()
      modifies this`state
      ensures state == MoveToUnderlying
    {
      state := MoveToUnderlying;
    }

    // Only when all rows of the ranges are out
    method MoveToEnd()
      requires snp.Valid() && ValidRanges(ranges, snp.top) && Exact(out, snp.table, ranges, snp.top)
      modifies this`state, this`curr
      ensures Inv() && state == EndOfStream && curr == |ranges|
    {
      state := EndOfStream;
      curr := |ranges|;
    }

    // The first entry at or after p, and whether the cache holds all rows up to it
    method LookUp(p: Position) returns (pos: Position, served: bool)
      requires snp.Valid() && BEFORE_ALL <= p <= snp.top && !IsRow(p)
      ensures IsFirst(snp.rows, p, pos) && pos <= snp.top
      ensures served <==> NoRowBetween(p, pos) || snp.rows[pos].continuous
      ensures if served then NoRows(snp.table, p, pos) else p < pos
    {
      pos := LowerBound(snp.rows, p, snp.top);
      served := NoRowBetween(p, pos) || snp.rows[pos].continuous;
      if served {
        ServedFromCache(snp.rows, snp.table, snp.top, p, pos);
      }
    }

    // Whether the cache can serve the start of range i; if not, leaves a dummy at the lower bound to anchor
    // what will be populated.
    method LookUpRange(i: nat) returns (pos: Position, served: bool, anchored: bool)
      requires snp.Valid() && ValidRanges(ranges, snp.top) && i < |ranges|
      modifies snp`rows
      ensures snp.Valid() && IsFirst(old(snp.rows), ranges[i].lo, pos) && pos in snp.rows && pos <= snp.top
      ensures served <==> NoRowBetween(ranges[i].lo, pos) || old(snp.rows)[pos].continuous
      ensures if served then NoRows(snp.table, ranges[i].lo, pos) else ranges[i].lo < pos
      ensures anchored <==> !served && ranges[i].hasStart && !ranges[i].singular && snp.latest
      ensures snp.rows == if anchored then old(snp.rows)[ranges[i].lo := Entry(true, map[], false)] else old(snp.rows)
    {
      pos, served := LookUp(ranges[i].lo);
      anchored := !served && ranges[i].hasStart && !ranges[i].singular && snp.latest;
      if anchored {
        snp.Put(ranges[i].lo, Entry(true, map[], false));
      }
    }

    // Positions the cursor on range i
    method MoveToRange(i: nat)
      requires snp.Valid() && ValidRanges(ranges, snp.top) && i < |ranges| && state == ReadingFromCache
      requires Exact(out, snp.table, ranges, ranges[i].lo)
      modifies this, snp`rows
      ensures Inv() && state in {ReadingFromCache, MoveToUnderlying}
      ensures out == old(out) && lower == ranges[i].lo && curr == i && IsFirst(old(snp.rows), lower, nextPos)
      ensures state == ReadingFromCache <==> NoRowBetween(lower, nextPos) || old(snp.rows)[nextPos].continuous
      ensures snp.rows == if lastRow.Some? then old(snp.rows)[lower := Entry(true, map[], false)] else old(snp.rows)
      ensures lastRow.Some? <==> state == MoveToUnderlying && ranges[i].hasStart && !ranges[i].singular && snp.latest
      ensures nextMark == snp.mark
      ensures forall bad :: snp.latest && Accounted(old(snp.rows), snp.table, ranges, i, bad) ==> Follows(bad)
      ensures FilledBefore(old(snp.rows), ranges, i) ==>
                if state == MoveToUnderlying then !AllFilled(old(snp.rows), ranges)
                else snp.rows == old(snp.rows) && Walked(View(), snp.rows)
    {
      ghost var rows := snp.rows;
      var pos, served, anchored := LookUpRange(i);
      EnterTracks(rows, ranges, i, pos, served, anchored, snp.rows, snp.top);
      forall bad | snp.latest && Accounted(rows, snp.table, ranges, i, bad)
        ensures Accounted(snp.rows, snp.table, ranges, i, bad)
      {
        EnterAccounts(rows, ranges, i, anchored, snp.rows, snp.table, snp.top, bad);
      }
      EnterKeepsInv(View(), i, pos, served, anchored, snp.rows, snp.mark, snp.latest, snp.table, snp.top);
      Enter(i, pos, served, anchored);
    }

    method Enter(i: nat, pos: Position, served: bool, anchored: bool)
      requires i < |ranges|
      modifies this
      ensures View() == Entered(old(View()), i, pos, snp.mark, served, anchored)
    {
      curr, lower, upper := i, ranges[i].lo, ranges[i].hi;
      lastRow := if anchored then Some(lower) else None;
      nextPos, nextMark, nextInRange := pos, snp.mark, pos < upper;
      state := if served then ReadingFromCache else MoveToUnderlying;
    }

    method MoveToNextRange()
      requires InRange() && state == ReadingFromCache && NoRows(snp.table, lower, upper)
      modifies this, snp`rows
      ensures Inv() && state in {ReadingFromCache, MoveToUnderlying, EndOfStream}
      ensures out == old(out) && curr == old(curr) + 1 && (state != EndOfStream ==> old(lower) <= lower)
      ensures state == ReadingFromCache ==> nextMark == snp.mark
      ensures Grown(old(snp.rows), snp.rows, snp.latest)
      ensures state != EndOfStream ==> nextMark == snp.mark
      ensures forall bad :: snp.latest && Accounted(old(snp.rows), snp.table, ranges, old(curr) + 1, bad) ==> Follows(bad)
      ensures FilledBefore(old(snp.rows), ranges, old(curr) + 1) ==>
                if state == MoveToUnderlying then !AllFilled(old(snp.rows), ranges)
                else snp.rows == old(snp.rows) && Walked(View(), snp.rows)
    {
      RangeDone(View(), snp.rows, snp.latest, snp.table, snp.top);
      if curr + 1 == |ranges| {
        MoveToEnd();
      } else {
        MoveToRange(curr + 1);
      }
    }

    // Copies the entry under the cursor into the buffer and remembers it as _last_row.
    method AddNextRowToBuffer()
      requires InRange() && state == ReadingFromCache
      requires nextPos in snp.rows && lower <= nextPos < upper && NoRows(snp.table, lower, nextPos)
      modifies this`out, this`lower, this`lastRow
      ensures View() == CopyOut(old(View()), snp.rows[nextPos])
      ensures InRange() && NoRows(snp.table, lower, nextPos + 1)
    {
      CopyOutKeepsBase(View(), snp.rows, snp.latest, snp.table, snp.top);
      lastRow := Some(nextPos);
      if !snp.rows[nextPos].dummy {
        out := out + [Fragment(nextPos, snp.rows[nextPos].cells)];
        lower := AfterKey(nextPos);
      }
    }

    // To the next entry, which the cache can serve if it is marked
    method AdvanceCursor()
      requires InRange() && state == ReadingFromCache && !NoRowBetween(nextPos, upper)
      requires nextMark == snp.mark && nextPos in snp.rows && lower - 1 <= nextPos < upper
      requires ranges[curr].lo <= nextPos && lastRow == Some(nextPos) && NoRows(snp.table, lower, nextPos + 1)
      modifies this`state, this`nextPos, this`nextInRange
      ensures Inv() && IsFirst(snp.rows, old(nextPos) + 1, nextPos)
      ensures state == if snp.rows[nextPos].continuous then ReadingFromCache else MoveToUnderlying
      ensures forall bad :: old(Follows(bad)) ==> Follows(bad)
      ensures StaysInCache(old(View()), snp.rows, View(), snp.rows)
    {
      var pos := LowerBound(snp.rows, nextPos + 1, snp.top);
      NextTracks(View(), snp.rows, pos);
      if snp.rows[pos].continuous {
        ContinuousCovers(snp.rows, snp.table, nextPos + 1, pos);
      } else {
        state := MoveToUnderlying;
      }
      nextPos, nextInRange := pos, pos < upper;
    }

    method MoveToNextEntry()
      requires InRange() && state == ReadingFromCache
      requires nextMark == snp.mark && nextPos in snp.rows && lower - 1 <= nextPos < upper
      requires ranges[curr].lo <= nextPos && lastRow == Some(nextPos) && NoRows(snp.table, lower, nextPos + 1)
      modifies this, snp`rows
      ensures Inv() && state in {ReadingFromCache, MoveToUnderlying, EndOfStream}
      ensures out == old(out) && (state != EndOfStream ==> old(lower) <= lower) && Advanced(old(View()), View())
      ensures state == ReadingFromCache ==> nextMark == snp.mark
      ensures Grown(old(snp.rows), snp.rows, snp.latest)
      ensures forall bad :: old(Follows(bad)) ==> Follows(bad)
      ensures StaysInCache(old(View()), old(snp.rows), View(), snp.rows)
    {
      if NoRowBetween(nextPos, upper) {
        NoRowsJoin(snp.table, snp.top, lower, nextPos, upper);
        RangeEndsInCache(View(), snp.rows, snp.table, snp.top);
        MoveToNextRange();
      } else {
        AdvanceCursor();
      }
    }

    method CopyFromCacheToBuffer()
      requires Inv() && state == ReadingFromCache && nextMark == snp.mark
      modifies this, snp`rows
      ensures Inv() && state in {ReadingFromCache, MoveToUnderlying, EndOfStream}
      ensures old(out) <= out && (state != EndOfStream ==> old(lower) <= lower) && Advanced(old(View()), View())
      ensures state == ReadingFromCache ==> nextMark == snp.mark
      ensures Grown(old(snp.rows), snp.rows, snp.latest)
      ensures forall bad :: old(Follows(bad)) ==> Follows(bad)
      ensures StaysInCache(old(View()), old(snp.rows), View(), snp.rows)
    {
      if nextInRange {
        AddNextRowToBuffer();
        MoveToNextEntry();
      } else {
        RangeEndsInCache(View(), snp.rows, snp.table, snp.top);
        MoveToNextRange();
      }
    }

    // Caches a row of the source when the snapshot can be populated
    method Populate(f: Fragment)
      requires Inv() && state == ReadingFromUnderlying
      requires f.pos in snp.table && f.cells == snp.table[f.pos]
      requires lower <= f.pos < ReadEnd(View()) && NoRows(snp.table, lower, f.pos)
      modifies snp`rows
      ensures snp.Valid()
      ensures snp.rows == if snp.latest then old(snp.rows)[f.pos := PopulatedEntry(View(), old(snp.rows), f)]
                          else old(snp.rows)
    {
      if snp.latest {
        PopulatedEntryIsTrue(View(), snp.rows, snp.table, snp.top, f);
        snp.Put(f.pos, PopulatedEntry(View(), snp.rows, f));
      }
    }

    // Takes one row from the source: caches it and emits it.
    method ConsumeFragment(f: Fragment)
      requires Inv() && state == ReadingFromUnderlying
      requires f.pos in snp.table && f.cells == snp.table[f.pos]
      requires lower <= f.pos < ReadEnd(View()) && NoRows(snp.table, lower, f.pos)
      modifies this`out, this`lower, this`lastRow, snp`rows
      ensures Inv() && View() == Consumed(old(View()), snp.latest, f)
      ensures snp.rows == if snp.latest then old(snp.rows)[f.pos := PopulatedEntry(old(View()), old(snp.rows), f)]
                          else old(snp.rows)
      ensures snp.latest ==> (snp.rows[f.pos].continuous <==>
                old(f.pos in snp.rows && snp.rows[f.pos].continuous) || !ranges[curr].hasStart || old(lastRow.Some?))
      ensures forall bad :: old(Follows(bad)) ==> Follows(bad)
    {
      ghost var rows := snp.rows;
      Populate(f);
      ConsumeTracks(View(), rows, snp.rows, snp.latest, snp.table, snp.top, f);
      ConsumeKeepsInv(View(), rows, snp.rows, snp.mark, snp.latest, snp.table, snp.top, f);
      Emit(f);
    }

    method Emit(f: Fragment)
      requires IsRow(f.pos)
      modifies this`out, this`lower, this`lastRow
      ensures View() == Consumed(old(View()), snp.latest, f)
    {
      lastRow := if snp.latest then Some(f.pos) else None;
      out := out + [f];
      lower := AfterKey(f.pos);
    }

    method MaybeUpdateContinuity()
      requires InRange() && nextPos in snp.rows && lower <= nextPos && NoRows(snp.table, lower, nextPos)
      requires snp.latest && lastRow.Some? ==> lastRow.value < nextPos
      modifies snp`rows
      ensures snp.Valid()
      ensures snp.rows == if snp.latest && MayMark(View())
                          then old(snp.rows)[nextPos := old(snp.rows)[nextPos].(continuous := true)]
                          else old(snp.rows)
    {
      if snp.latest && MayMark(View()) {
        EarnsContinuity(View(), snp.rows, snp.table, snp.top, nextPos);
        snp.Put(nextPos, snp.rows[nextPos].(continuous := true));
      }
    }

    // The source had no row for a range made of one key: remember the absence as an empty row.
    // It takes over the continuity of the entry that follows.
    method InsertAbsentRow() returns (next: Position)
      requires InRange() && snp.latest && ranges[curr].singular && NoRows(snp.table, lower, upper)
      modifies snp`rows
      ensures snp.Valid() && IsFirst(old(snp.rows), ranges[curr].lo + 1, next)
      ensures var key := ranges[curr].lo + 1;
        snp.rows == if key in old(snp.rows) then old(snp.rows)
                    else old(snp.rows)[key := Entry(false, map[], old(snp.rows)[next].continuous)]
    {
      var key := ranges[curr].lo + 1;
      next := LowerBound(snp.rows, key, snp.top);
      if key !in snp.rows {
        if snp.rows[next].continuous {
          SplitGap(snp.rows, snp.table, key, next);
        }
        snp.Put(key, Entry(false, map[], snp.rows[next].continuous));
      }
    }

    // Everything up to the end of the range is known now: mark it with a continuous dummy.
    method InsertUpperBoundDummy()
      requires InRange() && snp.latest && MayMark(View()) && NoRows(snp.table, lower, upper)
      modifies snp`rows
      ensures snp.Valid()
      ensures snp.rows == old(snp.rows)[upper := if upper in old(snp.rows) then old(snp.rows)[upper].(continuous := true)
                                                 else Entry(true, map[], true)]
    {
      EarnsContinuity(View(), snp.rows, snp.table, snp.top, upper);
      if upper in snp.rows {
        snp.Put(upper, snp.rows[upper].(continuous := true));
      } else {
        snp.Put(upper, Entry(true, map[], true));
      }
    }

    // The source is exhausted at the end of the range: remember that, with the entry that follows, the absence
    // of the one key asked for, or a dummy at the end.
    method PopulateEnd()
      requires InRange() && NoRows(snp.table, lower, upper) && nextPos in snp.rows && upper <= nextPos
      modifies snp`rows
      ensures snp.Valid() && Grown(old(snp.rows), snp.rows, snp.latest)
      ensures if snp.latest then EndPopulated(View(), old(snp.rows), snp.rows) else snp.rows == old(snp.rows)
    {
      if NoRowBetween(upper, nextPos) {
        AdjacentCovers(snp.table, snp.top, upper, nextPos);
        MaybeUpdateContinuity();
      } else if snp.latest {
        if ranges[curr].singular {
          var _ := InsertAbsentRow();
        } else if MayMark(View()) {
          InsertUpperBoundDummy();
        }
      }
    }

    // Everything of the range is out: populate its end and move on.
    method FinishRange()
      requires InRange() && state == ReadingFromCache && NoRows(snp.table, lower, upper)
      requires nextPos in snp.rows && upper <= nextPos
      modifies this, snp`rows
      ensures Inv() && state in {ReadingFromCache, MoveToUnderlying, EndOfStream}
      ensures out == old(out) && curr == old(curr) + 1 && (state != EndOfStream ==> old(lower) <= lower)
      ensures state == ReadingFromCache ==> nextMark == snp.mark
      ensures Grown(old(snp.rows), snp.rows, snp.latest)
      ensures forall bad :: old(Lags(bad)) ==> Follows(bad)
    {
      ghost var rows := snp.rows;
      PopulateEnd();
      EndTracks(View(), rows, snp.rows, snp.latest, snp.table, snp.top);
      MoveToNextRange();
    }

    // The cursor lost its entry: look it up again from the position it had.
    method RefreshCursor() returns (samePos: bool)
      requires Inv() && state == ReadingFromUnderlying && NoRows(snp.table, lower, ReadEnd(View()))
      modifies this`nextPos, this`nextMark
      ensures nextMark == snp.mark && IsFirst(snp.rows, old(nextPos), nextPos)
      ensures samePos <==> nextPos == old(nextPos)
    {
      if nextMark == snp.mark {
        samePos := true;
      } else {
        var pos := LowerBound(snp.rows, nextPos, snp.top);
        samePos := NoRowBetween(nextPos, pos);
        nextPos, nextMark := pos, snp.mark;
      }
    }

    method MarkAndEmit()
      requires InRange() && state == ReadingFromCache
      requires nextPos in snp.rows && lower <= nextPos < upper && NoRows(snp.table, lower, nextPos)
      requires snp.latest && lastRow.Some? ==> lastRow.value < nextPos
      modifies this`out, this`lower, this`lastRow, snp`rows
      ensures InRange() && nextPos in snp.rows && NoRows(snp.table, lower, nextPos + 1)
      ensures View() == CopyOut(old(View()), old(snp.rows)[nextPos])
      ensures Grown(old(snp.rows), snp.rows, snp.latest)
      ensures forall bad :: old(Lags(bad)) ==> Follows(bad)
    {
      PassTracks(View(), snp.rows, snp.table, snp.top);
      MaybeUpdateContinuity();
      AddNextRowToBuffer();
    }

    // The source was read up to the entry under the cursor: that entry comes next.
    method PassNextEntry()
      requires InRange() && state == ReadingFromCache && nextMark == snp.mark
      requires nextPos in snp.rows && lower <= nextPos < upper && NoRows(snp.table, lower, nextPos)
      requires snp.latest && lastRow.Some? ==> lastRow.value < nextPos
      modifies this, snp`rows
      ensures Inv() && state in {ReadingFromCache, MoveToUnderlying, EndOfStream}
      ensures old(out) <= out && (state != EndOfStream ==> old(lower) <= lower) && Advanced(old(View()), View())
      ensures state == ReadingFromCache ==> nextMark == snp.mark
      ensures Grown(old(snp.rows), snp.rows, snp.latest)
      ensures forall bad :: old(Lags(bad)) ==> Follows(bad)
    {
      MarkAndEmit();
      MoveToNextEntry();
    }

    // The cursor found another entry than before, further on: can the cache serve the rows up to it?
    method Rejoin(ghost v: ReaderView)
      requires InRange() && View() == v.(state := ReadingFromCache, nextPos := nextPos, nextMark := snp.mark)
      requires v.lower <= v.nextPos && IsFirst(snp.rows, v.nextPos, nextPos)
      requires NoRows(snp.table, lower, ReadEnd(v)) && (v.nextInRange <==> v.nextPos < v.upper)
      requires snp.latest && lastRow.Some? ==> lastRow.value < v.nextPos
      modifies this`state, this`nextInRange
      ensures Inv() && nextInRange == (nextPos < upper)
      ensures state == if snp.rows[nextPos].continuous then ReadingFromCache else MoveToUnderlying
    {
      nextInRange := nextPos < upper;
      if snp.rows[nextPos].continuous {
        RefreshedServes(v, snp.rows, snp.table, nextPos);
      } else {
        StartReadingFromUnderlying();
      }
    }

    // The entry under the cursor is still there: it comes next, or the range is over.
    method LeaveWindow()
      requires InRange() && state == ReadingFromCache && nextMark == snp.mark && nextPos in snp.rows
      requires lower <= nextPos && (nextInRange <==> nextPos < upper) && NoRows(snp.table, lower, ReadEnd(View()))
      requires snp.latest && lastRow.Some? ==> lastRow.value < nextPos
      modifies this, snp`rows
      ensures Inv() && state in {ReadingFromCache, MoveToUnderlying, EndOfStream}
      ensures old(out) <= out && (state != EndOfStream ==> old(lower) <= lower) && Advanced(old(View()), View())
      ensures state == ReadingFromCache ==> nextMark == snp.mark
      ensures Grown(old(snp.rows), snp.rows, snp.latest)
      ensures forall bad :: old(Lags(bad)) ==> Follows(bad)
    {
      if nextInRange {
        PassNextEntry();
      } else {
        FinishRange();
      }
    }

    // The source delivered everything up to ReadEnd.
    method OnUnderlyingEnd()
      requires Inv() && state == ReadingFromUnderlying && NoRows(snp.table, lower, ReadEnd(View()))
      modifies this, snp`rows
      ensures Inv() && state in {ReadingFromCache, MoveToUnderlying, EndOfStream}
      ensures old(out) <= out && (state != EndOfStream ==> old(lower) <= lower) && Advanced(old(View()), View())
      ensures state == ReadingFromCache ==> nextMark == snp.mark
      ensures Grown(old(snp.rows), snp.rows, snp.latest)
      ensures forall bad :: old(Follows(bad)) ==> Follows(bad)
    {
      ghost var v := View();
      var samePos := RefreshCursor();
      state := ReadingFromCache;
      if samePos {
        LeaveWindow();
      } else {
        Rejoin(v);
      }
    }

    predicate SourceHasMore()
      reads this, under
    {
      under.idx < |under.fragments| && under.fragments[under.idx].pos < under.end
    }

    method TakeFromUnderlying()
      requires Valid() && state == ReadingFromUnderlying && SourceHasMore()
      modifies this`out, this`lower, this`lastRow, snp`rows, under`idx
      ensures Valid() && under.idx == old(under.idx) + 1
      ensures View() == Consumed(old(View()), snp.latest, under.fragments[old(under.idx)]) && old(lower) < lower
      ensures Grown(old(snp.rows), snp.rows, snp.latest)
      ensures forall bad :: old(Follows(bad)) ==> Follows(bad)
    {
      var f := under.Next(lower, snp.table);
      ConsumeFragment(f);
    }

    // Takes at most `budget` rows from the source: the buffer may fill up, or the source may make us
    // wait, after any row.
    method TakeRows(budget: nat) returns (left: nat)
      requires Valid() && state == ReadingFromUnderlying
      modifies this`out, this`lower, this`lastRow, snp`rows, under`idx
      ensures Valid() && left <= budget && (0 < left ==> !SourceHasMore())
      ensures old(out) <= out && old(lower) <= lower && (left < budget ==> old(lower) < lower)
      ensures left == budget ==> View() == old(View())
      ensures Grown(old(snp.rows), snp.rows, snp.latest)
      ensures forall bad :: old(Follows(bad)) ==> Follows(bad)
    {
      left := budget;
      while 0 < left && SourceHasMore()
        invariant 0 <= left <= budget && Valid()
        invariant old(out) <= out && old(lower) <= lower && (left < budget ==> old(lower) < lower)
        invariant left == budget ==> View() == old(View())
        invariant Grown(old(snp.rows), snp.rows, snp.latest)
        invariant forall bad :: old(Follows(bad)) ==> Follows(bad)
      {
        TakeFromUnderlying();
        left := left - 1;
      }
    }

    method LeaveUnderlying()
      requires Valid() && state == ReadingFromUnderlying && !SourceHasMore()
      modifies this, snp`rows
      ensures Valid() && old(out) <= out && Advanced(old(View()), View())
      ensures state in {ReadingFromCache, MoveToUnderlying, EndOfStream}
      ensures state == ReadingFromCache ==> nextMark == snp.mark
      ensures Grown(old(snp.rows), snp.rows, snp.latest)
      ensures forall bad :: old(Follows(bad)) ==> Follows(bad)
    {
      under.NoneLeft(snp.table, lower);
      OnUnderlyingEnd();
    }

    method ReadFromUnderlying(budget: nat)
      requires Valid() && state == ReadingFromUnderlying
      modifies this, snp`rows, under
      ensures Valid() && old(out) <= out
      ensures if budget == 0 then View() == old(View()) else Advanced(old(View()), View())
      ensures state != BeforeStaticRow
      ensures state == ReadingFromCache ==> nextMark == snp.mark
      ensures Grown(old(snp.rows), snp.rows, snp.latest)
      ensures forall bad :: old(Follows(bad)) ==> Follows(bad)
    {
      var left := TakeRows(budget);
      if 0 < left {
        LeaveUnderlying();
      }
    }

    // References were invalidated since the last visit: find the place again from `lower`.
    method ReacquireCursor()
      requires Inv() && state == ReadingFromCache
      modifies this
      ensures Inv() && nextMark == snp.mark && IsFirst(snp.rows, lower, nextPos)
      ensures state == if NoRowBetween(lower, nextPos) || snp.rows[nextPos].continuous then ReadingFromCache
                       else MoveToUnderlying
      ensures out == old(out) && curr == old(curr) && lower == old(lower) && upper == old(upper)
    {
      var pos, served := LookUp(lower);
      if !served {
        lastRow := None;
        StartReadingFromUnderlying();
      }
      nextPos, nextMark, nextInRange := pos, snp.mark, pos < upper;
    }

    // Copies at most `budget` entries: the buffer may fill up, or the fiber may be preempted, after
    // any of them.
    method CopyRows(budget: nat)
      requires Inv() && state == ReadingFromCache && nextMark == snp.mark
      modifies this, snp`rows
      ensures Inv() && state in {ReadingFromCache, MoveToUnderlying, EndOfStream}
      ensures old(out) <= out && (state != EndOfStream ==> old(lower) <= lower)
      ensures state == ReadingFromCache ==> nextMark == snp.mark
      ensures if budget == 0 then View() == old(View()) else Advanced(old(View()), View())
      ensures Grown(old(snp.rows), snp.rows, snp.latest)
      ensures forall bad :: old(Follows(bad)) ==> Follows(bad)
      ensures StaysInCache(old(View()), old(snp.rows), View(), snp.rows)
    {
      var left := budget;
      while 0 < left && state == ReadingFromCache
        invariant Inv() && state in {ReadingFromCache, MoveToUnderlying, EndOfStream}
        invariant state == ReadingFromCache ==> nextMark == snp.mark
        invariant old(out) <= out && (state != EndOfStream ==> old(lower) <= lower)
        invariant 0 <= left <= budget && if left == budget then View() == old(View()) else Advanced(old(View()), View())
        invariant Grown(old(snp.rows), snp.rows, snp.latest)
        invariant forall bad :: old(Follows(bad)) ==> Follows(bad)
        invariant StaysInCache(old(View()), old(snp.rows), View(), snp.rows)
      {
        CopyFromCacheToBuffer();
        left := left - 1;
      }
    }

    method ReadFromCache(budget: nat)
      requires Inv() && state == ReadingFromCache
      modifies this, snp`rows
      ensures Inv() && state in {ReadingFromCache, MoveToUnderlying, EndOfStream}
      ensures old(out) <= out && (state != EndOfStream ==> old(lower) <= lower)
      ensures state == ReadingFromCache ==> nextMark == snp.mark
      ensures budget > 0 && old(nextMark) == snp.mark ==> Advanced(old(View()), View())
      ensures Grown(old(snp.rows), snp.rows, snp.latest)
      ensures forall bad :: old(Follows(bad)) ==> Follows(bad)
      ensures old(nextMark) == snp.mark ==> StaysInCache(old(View()), old(snp.rows), View(), snp.rows)
    {
      if nextMark != snp.mark {
        ReacquireCursor();
      }
      if state == ReadingFromCache {
        CopyRows(budget);
      }
    }

    ghost predicate Stale()
      reads this, snp
    {
      state == ReadingFromCache && nextMark != snp.mark
    }

    method Start()
      requires Valid() && state == BeforeStaticRow
      modifies this, snp`rows
      ensures Valid() && !Stale() && state != BeforeStaticRow && out == []
      ensures Grown(old(snp.rows), snp.rows, snp.latest)
      ensures forall bad :: old(Follows(bad)) ==> Follows(bad)
      ensures StaysInCache(old(View()), old(snp.rows), View(), snp.rows)
    {
      if ranges == [] {
        MoveToEnd();
      } else {
        state := ReadingFromCache;
        MoveToRange(0);
      }
    }

    method ForwardUnderlying()
      requires Valid() && state == MoveToUnderlying
      modifies this`state, under
      ensures Valid() && state == ReadingFromUnderlying
      ensures forall bad :: old(Follows(bad)) ==> Follows(bad)
    {
      under.FastForwardTo(lower, ReadEnd(View()));
      state := ReadingFromUnderlying;
    }

    // One uninterrupted stretch of work of the reader.
    method FillBuffer(budget: nat)
      requires Valid()
      modifies this, snp`rows, under
      ensures Valid() && old(out) <= out && !Stale() && state != BeforeStaticRow
      ensures budget > 0 && !old(Stale()) && old(state) != BeforeStaticRow && old(state) != EndOfStream ==>
                Advanced(old(View()), View())
      ensures old(state) == EndOfStream ==> View() == old(View())
      ensures Grown(old(snp.rows), snp.rows, snp.latest)
      ensures forall bad :: old(Follows(bad)) ==> Follows(bad)
      ensures !old(Stale()) && old(state) in {BeforeStaticRow, ReadingFromCache, EndOfStream} ==>
                StaysInCache(old(View()), old(snp.rows), View(), snp.rows) && unchanged(under)
    {
      if state == BeforeStaticRow {
        Start();
      } else if state == ReadingFromCache {
        ReadFromCache(budget);
      } else if state != EndOfStream {
        if state == MoveToUnderlying {
          ForwardUnderlying();
        }
        ReadFromUnderlying(budget);
      }
    }

    // From the given rows on, the reader was not disturbed, and asked the source or found all so far in the cache
    ghost predicate Reads(rows: Rows, asked: bool)
      reads this, snp, under
    {
      && (snp.latest ==> Follows(Misses(rows, snp.table, ranges)))
      && if asked then !AllFilled(rows, ranges) else snp.rows == rows && Walked(View(), rows) && under.idx == 0
    }

    method GoOn(budget: nat, before: bool, ghost rows: Rows) returns (asked: bool)
      requires Valid() && !Stale() && state != EndOfStream
      modifies this, snp`rows, under
      ensures Valid() && !Stale() && state != BeforeStaticRow
      ensures budget > 0 && old(state) != BeforeStaticRow ==> Advanced(old(View()), View())
      ensures old(Reads(rows, before)) ==> Reads(rows, asked)
    {
      FillBuffer(budget);
      asked := before || state == MoveToUnderlying;
    }

    method ReadOn(budgets: nat -> nat, before: bool, ghost rows: Rows) returns (asked: bool)
      requires Valid() && !Stale() && state != BeforeStaticRow
      modifies this, snp`rows, under
      ensures Valid() && state == EndOfStream
      ensures old(Reads(rows, before)) ==> Reads(rows, asked)
    {
      asked := before;
      var n := 0;
      while state != EndOfStream
        invariant Valid() && state != BeforeStaticRow && !Stale()
        invariant old(Reads(rows, before)) ==> Reads(rows, asked)
        decreases |ranges| - curr, upper - lower, snp.top - nextPos
      {
        asked := GoOn(1 + budgets(n), asked, rows);
        n := n + 1;
      }
    }

    // Left alone, the reader always comes to the end, wherever the buffer fills up on the way, and
    // has then delivered the rows of the source inside the ranges.  It turns to the source exactly when the
    // cache does not hold all of them, and leaves all ranges in the cache but for those it misses.
    method ReadToEnd(budgets: nat -> nat) returns (asked: bool)
      requires Valid()
      modifies this, snp`rows, under
      ensures Valid() && state == EndOfStream
      ensures DropEmpty(out) == DropEmpty(Select(under.fragments, ranges))
      ensures old(state) == BeforeStaticRow ==> (asked <==> !AllFilled(old(snp.rows), ranges))
      ensures old(state) == BeforeStaticRow && !asked ==> snp.rows == old(snp.rows) && under.idx == 0
      ensures old(state) == BeforeStaticRow && snp.latest ==> LeavesAllBut(old(snp.rows), snp.rows, snp.table, ranges)
    {
      ghost var rows := snp.rows;
      FillBuffer(0);
      asked := ReadOn(budgets, state == MoveToUnderlying, rows);
      ExactIsSelection(out, snp.table, ranges, snp.top, under.fragments);
      if old(state) == BeforeStaticRow {
        ReadLeaves(rows, asked);
      }
    }

    lemma ReadLeaves(rows: Rows, asked: bool)
      requires Inv() && state == EndOfStream && ValidRanges(ranges, snp.top) && Reads(rows, asked)
      ensures asked <==> !AllFilled(rows, ranges)
      ensures snp.latest ==> LeavesAllBut(rows, snp.rows, snp.table, ranges)
    {
      if snp.latest {
        SettledExactly(snp.rows, snp.table, ranges, snp.top, Misses(rows, snp.table, ranges));
      }
    }
  }

  // A read starting with the cached rows leaves all its ranges filled but for those it misses
  ghost predicate LeavesAllBut(rows: Rows, rows': Rows, table: Table, ranges: seq<Range>) {
    forall i: nat :: i < |ranges| ==> (Filled(rows', ranges[i]) <==> !Missed(rows, table, ranges, i))
  }

  // The ranges a read will miss
  ghost function Misses(rows: Rows, table: Table, ranges: seq<Range>): (bad: set<nat>)
    ensures Accounted(rows, table, ranges, 0, bad)
  {
    set i: nat | i < |ranges| && Missed(rows, table, ranges, i)
  }

  lemma SettledExactly(rows: Rows, table: Table, ranges: seq<Range>, top: Position, bad: set<nat>)
    requires ValidRanges(ranges, top) && Accounted(rows, table, ranges, |ranges|, bad)
    ensures forall i: nat :: i < |ranges| ==> (Filled(rows, ranges[i]) <==> i !in bad)
  {
    forall i: nat | i < |ranges| ensures Filled(rows, ranges[i]) <==> i !in bad {
      assert Settled(rows, ranges, i, bad) && ValidRange(ranges[i], top);
      if i in bad {
        StuckUnfilled(rows, ranges[i], top);
      }
    }
  }

  /* Such keys: with a dummy right after it and none right before it, or the other way round. */
  lemma ForgottenKeys()
    ensures var ranges, top := [Range(true, 3, 5, true)], 10;
      var after, before := map[5 := Entry(true, map[], false), top := Entry(true, map[], false)],
                           map[3 := Entry(true, map[], false), top := Entry(true, map[], false)];
      && ValidRanges(ranges, top) && CacheInv(after, map[], top) && CacheInv(before, map[], top)
      && Missed(after, map[], ranges, 0) && Missed(before, map[], ranges, 0)
  {
  }

  /* Nobody else around, a second reader of the same ranges asks the source again if and only if the first
     one had to read a key that it could not remember as absent. */
  method ReadTwice(first: CacheReader, second: CacheReader, budgets: nat -> nat) returns (asked: bool)
    requires first != second && first.under != second.under && first.snp == second.snp && first.ranges == second.ranges
    requires first.Valid() && second.Valid() && first.snp.latest
    requires first.state == BeforeStaticRow && second.state == BeforeStaticRow
    modifies first, second, first.snp`rows, first.under, second.under
    ensures first.state == EndOfStream && second.state == EndOfStream
    ensures DropEmpty(first.out) == DropEmpty(Select(first.under.fragments, first.ranges))
    ensures DropEmpty(second.out) == DropEmpty(Select(second.under.fragments, second.ranges))
    ensures asked <==> exists i: nat :: i < |first.ranges| && Missed(old(first.snp.rows), first.snp.table, first.ranges, i)
  {
    ghost var rows := first.snp.rows;
    var _ := first.ReadToEnd(budgets);
    asked := second.ReadToEnd(budgets);
  }

  function DropEmpty(fs: seq<Fragment>): (r: seq<Fragment>)
    ensures forall f :: f in r <==> f in fs && f.cells != map[]
  {
    if fs == [] then []
    else if fs[|fs| - 1].cells == map[] then DropEmpty(fs[..|fs| - 1])
    else DropEmpty(fs[..|fs| - 1]) + [fs[|fs| - 1]]
  }

  function Select(fs: seq<Fragment>, ranges: seq<Range>): (r: seq<Fragment>)
    ensures forall f :: f in r <==> f in fs && InRanges(ranges, f.pos)
  {
    if fs == [] then []
    else if InRanges(ranges, fs[|fs| - 1].pos) then Select(fs[..|fs| - 1], ranges) + [fs[|fs| - 1]]
    else Select(fs[..|fs| - 1], ranges)
  }

  lemma DropEmptyIncreasing(fs: seq<Fragment>)
    requires Increasing(fs)
    ensures Increasing(DropEmpty(fs))
  {
    if fs != [] {
      DropEmptyIncreasing(fs[..|fs| - 1]);
    }
  }

  lemma SelectIncreasing(fs: seq<Fragment>, ranges: seq<Range>)
    requires Increasing(fs)
    ensures Increasing(Select(fs, ranges))
  {
    if fs != [] {
      SelectIncreasing(fs[..|fs| - 1], ranges);
    }
  }

  /* Two increasing sequences with the same elements are the same sequence. */
  lemma {:induction false} IncreasingUnique(a: seq<Fragment>, b: seq<Fragment>)
    requires Increasing(a) && Increasing(b)
    requires forall f :: f in a <==> f in b
    ensures a == b
  {
    assert (a != [] ==> a[0] in b) && (b != [] ==> b[0] in a);
    if a != [] {
      var x, y := a[|a| - 1], b[|b| - 1];
      assert x in b && y in a;
      assert x == y;
      var a', b' := a[..|a| - 1], b[..|b| - 1];
      forall f ensures f in a' <==> f in b' {
        assert f in a' <==> f in a && f != x;
        assert f in b' <==> f in b && f != y;
      }
      IncreasingUnique(a', b');
    }
  }

  /* A finished output, empty rows aside, is the source's rows inside the ranges, in order. */
  lemma ExactIsSelection(out: seq<Fragment>, table: Table, ranges: seq<Range>, top: Position, fragments: seq<Fragment>)
    requires Exact(out, table, ranges, top) && ValidTable(table, top)
    requires Increasing(fragments)
    requires forall i :: 0 <= i < |fragments| ==> fragments[i].pos in table && fragments[i].cells == table[fragments[i].pos]
    requires forall u :: u in table ==> Emitted(fragments, u)
    ensures DropEmpty(out) == DropEmpty(Select(fragments, ranges))
  {
    var a, b := DropEmpty(out), DropEmpty(Select(fragments, ranges));
    DropEmptyIncreasing(out);
    SelectIncreasing(fragments, ranges);
    DropEmptyIncreasing(Select(fragments, ranges));
    forall f | f in a ensures f in b {
      assert Emitted(fragments, f.pos);
    }
    forall f | f in b ensures f in a {
      assert Emitted(out, f.pos);
    }
    IncreasingUnique(a, b);
  }

  /** Many readers on one snapshot, while the cache keeps invalidating, superseding and evicting. */

  datatype Event = Fill(reader: nat, budget: nat) | Invalidate | Supersede | Evict

  ghost predicate Separate(readers: seq<CacheReader>) {
    forall i, j :: 0 <= i < j < |readers| ==> readers[i] != readers[j] && readers[i].under != readers[j].under
  }

  ghost predicate AllValid(snp: PartitionSnapshot, readers: seq<CacheReader>)
    reads snp, readers, set i | 0 <= i < |readers| :: readers[i].under
  {
    snp.Valid() && forall i :: 0 <= i < |readers| ==> readers[i].snp == snp && readers[i].Valid()
  }

  // Other readers do not notice what reader k did to the snapshot
  method StepReader(snp: PartitionSnapshot, readers: seq<CacheReader>, r: CacheReader, k: nat, budget: nat)
    requires Separate(readers) && AllValid(snp, readers) && k < |readers| && r == readers[k]
    modifies snp`rows, r, r.under
    ensures AllValid(snp, readers) && old(r.out) <= r.out && r.state != BeforeStaticRow
    ensures budget > 0 && !old(r.Stale()) && old(r.state) != BeforeStaticRow && old(r.state) != EndOfStream ==>
              Advanced(old(r.View()), r.View())
  {
    ghost var rows := snp.rows;
    r.FillBuffer(budget);
    forall i | 0 <= i < |readers| && i != k ensures readers[i].Valid() {
      var q := readers[i];
      assert q != r && q.under != r.under;
      ReaderInvStable(q.View(), snp.table, snp.top, rows, snp.mark, snp.latest, snp.rows, snp.mark, snp.latest);
    }
  }

  // How often references were invalidated
  function Marks(schedule: seq<Event>): (n: nat) {
    if schedule == [] then 0
    else Marks(schedule[..|schedule| - 1]) + if schedule[|schedule| - 1] in {Invalidate, Evict} then 1 else 0
  }

  // nor what the cache did
  method StepCache(snp: PartitionSnapshot, readers: seq<CacheReader>, ev: Event)
    requires AllValid(snp, readers) && !ev.Fill?
    modifies snp
    ensures AllValid(snp, readers) && snp.mark == old(snp.mark) + Marks([ev])
    ensures snp.latest <==> old(snp.latest) && ev == Invalidate
    ensures ev == Evict ==> snp.rows.Keys == {snp.top}
  {
    ghost var rows, mark, latest := snp.rows, snp.mark, snp.latest;
    match ev {
      case Invalidate => snp.Invalidate();
      case Supersede => snp.Supersede();
      case Evict => snp.Evict();
    }
    forall i | 0 <= i < |readers| ensures readers[i].Valid() {
      ReaderInvStable(readers[i].View(), snp.table, snp.top, rows, mark, latest, snp.rows, snp.mark, snp.latest);
    }
  }

  // What the readers have delivered at any point
  lemma Delivered(snp: PartitionSnapshot, readers: seq<CacheReader>)
    requires AllValid(snp, readers)
    ensures forall i :: 0 <= i < |readers| ==> Sound(readers[i].out, snp.table, readers[i].ranges, snp.top)
    ensures forall i :: 0 <= i < |readers| && readers[i].state == EndOfStream ==>
              DropEmpty(readers[i].out) == DropEmpty(Select(readers[i].under.fragments, readers[i].ranges))
  {
    forall i | 0 <= i < |readers| && readers[i].state == EndOfStream
      ensures DropEmpty(readers[i].out) == DropEmpty(Select(readers[i].under.fragments, readers[i].ranges))
    {
      ExactIsSelection(readers[i].out, snp.table, readers[i].ranges, snp.top, readers[i].under.fragments);
    }
  }

  lemma MarksOneMore(schedule: seq<Event>, n: nat)
    requires n < |schedule|
    ensures Marks(schedule[..n + 1]) == Marks(schedule[..n]) + Marks([schedule[n]])
    ensures schedule[..n + 1] == schedule[..n] + [schedule[n]]
  {
    assert schedule[..n + 1][..n] == schedule[..n] && [schedule[n]][..0] == [];
  }

  method Step(snp: PartitionSnapshot, readers: seq<CacheReader>, ev: Event)
    requires Separate(readers) && AllValid(snp, readers)
    modifies snp, readers, set i | 0 <= i < |readers| :: readers[i].under
    ensures AllValid(snp, readers) && snp.mark == old(snp.mark) + Marks([ev])
    ensures snp.latest <==> old(snp.latest) && ev != Supersede && ev != Evict
    ensures forall i :: 0 <= i < |readers| ==> old(readers[i].out) <= readers[i].out
    ensures forall i :: 0 <= i < |readers| && readers[i].state == BeforeStaticRow ==>
              old(readers[i].state) == BeforeStaticRow && !(ev.Fill? && ev.reader == i)
  {
    if !ev.Fill? {
      StepCache(snp, readers, ev);
    } else if ev.reader < |readers| {
      StepReader(snp, readers, readers[ev.reader], ev.reader, ev.budget);
    }
  }

  // In every run, at every point, each reader has delivered a part of its rows, in order; and each
  // reader that finished has delivered all of them.
  method Run(snp: PartitionSnapshot, readers: seq<CacheReader>, schedule: seq<Event>)
    requires Separate(readers) && AllValid(snp, readers)
    modifies snp, readers, set i | 0 <= i < |readers| :: readers[i].under
    ensures AllValid(snp, readers) && snp.mark == old(snp.mark) + Marks(schedule)
    ensures snp.latest <==> old(snp.latest) && Supersede !in schedule && Evict !in schedule
    ensures forall i :: 0 <= i < |readers| ==> old(readers[i].out) <= readers[i].out
    ensures forall k :: 0 <= k < |schedule| && schedule[k].Fill? && schedule[k].reader < |readers| ==>
              readers[schedule[k].reader].state != BeforeStaticRow
    ensures forall i :: 0 <= i < |readers| ==> Sound(readers[i].out, snp.table, readers[i].ranges, snp.top)
    ensures forall i :: 0 <= i < |readers| && readers[i].state == EndOfStream ==>
              DropEmpty(readers[i].out) == DropEmpty(Select(readers[i].under.fragments, readers[i].ranges))
  {
    for n := 0 to |schedule|
      invariant AllValid(snp, readers) && snp.mark == old(snp.mark) + Marks(schedule[..n])
      invariant snp.latest <==> old(snp.latest) && Supersede !in schedule[..n] && Evict !in schedule[..n]
      invariant forall i :: 0 <= i < |readers| ==> old(readers[i].out) <= readers[i].out
      invariant forall k :: 0 <= k < n && schedule[k].Fill? && schedule[k].reader < |readers| ==>
                  readers[schedule[k].reader].state != BeforeStaticRow
    {
      var ev := schedule[n];
      MarksOneMore(schedule, n);
      Step(snp, readers, ev);
    }
    assert schedule[..|schedule|] == schedule;
    Delivered(snp, readers);
  }
}
