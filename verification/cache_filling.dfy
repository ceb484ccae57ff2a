/**
  What a reader leaves in the cache: when a later read of the same ranges finds all it needs there.
*/
module CacheFilling {
  import opened Positions
  import opened CachedRows
  import opened Wrappers

  // The cache knows everything between p and the entry at q, the first at or after p
  predicate Serves(rows: Rows, p: Position, q: Position) {
    NoRowBetween(p, q) || (q in rows && rows[q].continuous)
  }

  // Entry p of a range that ends at hi is followed by one that a reader can go on to
  ghost predicate LeadsOn(rows: Rows, p: Position, hi: Position) {
    NoRowBetween(p, hi) || forall q :: IsFirst(rows, p + 1, q) ==> rows[q].continuous
  }

  // A read of r stays in the cache as far as the entries before mid are concerned
  ghost predicate FilledTo(rows: Rows, r: Range, mid: Position) {
    && (forall q :: IsFirst(rows, r.lo, q) ==> Serves(rows, r.lo, q))
    && (forall p :: p in rows && r.lo <= p < mid ==> LeadsOn(rows, p, r.hi))
  }

  ghost predicate Filled(rows: Rows, r: Range) {
    FilledTo(rows, r, r.hi)
  }

  ghost predicate AllFilled(rows: Rows, ranges: seq<Range>) {
    forall i :: 0 <= i < |ranges| ==> Filled(rows, ranges[i])
  }

  // An entry stands right before the key of range i, or the range before it ends there
  predicate Started(rows: Rows, ranges: seq<Range>, i: nat)
    requires i < |ranges|
  {
    ranges[i].lo in rows || (i > 0 && ranges[i - 1].hi == ranges[i].lo)
  }

  // The first entry at or after p is not marked
  ghost predicate Unmarked(rows: Rows, p: Position) {
    forall q :: IsFirst(rows, p, q) ==> !rows[q].continuous
  }

  // A read of one key that neither cache nor source have is not remembered when the entry that follows is not
  // marked, and stands right after the key although nothing stands right before it, or the other way round.
  ghost predicate Missed(rows: Rows, table: Table, ranges: seq<Range>, i: nat)
    requires i < |ranges|
  {
    var r := ranges[i];
    && r.singular && r.lo + 1 !in table && r.lo + 1 !in rows && Unmarked(rows, r.lo + 1)
    && (r.hi in rows <==> !Started(rows, ranges, i))
  }

  // What such a read leaves
  predicate Stuck(rows: Rows, r: Range) {
    && r.singular
    && (|| (r.lo !in rows && r.lo + 1 !in rows && r.hi in rows && !rows[r.hi].continuous)
        || (r.lo in rows && r.lo + 1 in rows && !rows[r.lo + 1].continuous))
  }

  // After its read a range is filled, or one of the bad ones
  ghost predicate Settled(rows: Rows, ranges: seq<Range>, i: nat, bad: set<nat>)
    requires i < |ranges|
  {
    if i in bad then Stuck(rows, ranges[i]) else Filled(rows, ranges[i])
  }

  // Of n ranges that were read all are settled; the bad ones of the others are those that will be missed
  ghost predicate Accounted(rows: Rows, table: Table, ranges: seq<Range>, n: nat, bad: set<nat>)
    requires n <= |ranges|
  {
    && (forall i: nat :: i < n ==> Settled(rows, ranges, i, bad))
    && (forall i: nat :: n <= i < |ranges| ==> (i in bad <==> Missed(rows, table, ranges, i)))
  }

  lemma First(rows: Rows, p: Position, top: Position) returns (q: Position)
    requires top in rows && p <= top
    ensures IsFirst(rows, p, q)
  {
    q := p;
    while q !in rows
      invariant p <= q <= top
      invariant forall x :: x in rows && p <= x ==> q <= x
      decreases top - q
    {
      q := q + 1;
    }
  }

  lemma MissedUnfilled(rows: Rows, table: Table, top: Position, ranges: seq<Range>, i: nat)
    requires ValidRanges(ranges, top) && top in rows && i < |ranges| && Missed(rows, table, ranges, i)
    ensures !Filled(rows, ranges[i])
  {
    var r := ranges[i];
    assert ValidRange(r, top);
    var q := First(rows, r.lo + 1, top);
    if r.lo in rows {
      assert !LeadsOn(rows, r.lo, r.hi);
    } else {
      assert IsFirst(rows, r.lo, q) && !Serves(rows, r.lo, q);
    }
  }

  lemma StuckUnfilled(rows: Rows, r: Range, top: Position)
    requires ValidRange(r, top) && Stuck(rows, r)
    ensures !Filled(rows, r)
  {
    if r.lo in rows {
      assert IsFirst(rows, r.lo + 1, r.lo + 1) && !LeadsOn(rows, r.lo, r.hi);
    } else {
      assert IsFirst(rows, r.lo, r.hi) && !Serves(rows, r.lo, r.hi);
    }
  }

  // ---- What one write does ----

  // A write while r is read: inside it or right after its end; a flag is never taken away, and an entry
  // without a flag is put only in front of one without a flag.
  ghost predicate Write(rows: Rows, r: Range, x: Position, e: Entry) {
    && r.lo <= x && (x <= r.hi || (x in rows && NoRowBetween(r.hi, x)))
    && (x in rows ==> r.lo < x && (rows[x].continuous ==> e.continuous))
    && (x !in rows && !e.continuous ==> forall q :: IsFirst(rows, x, q) ==> !rows[q].continuous)
  }

  // The first entry after a write is the one before it, or the one written in front of that
  lemma FirstAfterWrite(rows: Rows, x: Position, e: Entry, p: Position, q: Position,
                        top: Position) returns (y: Position)
    requires IsFirst(rows[x := e], p, q) && top in rows && x <= top
    ensures IsFirst(rows, p, y) && (q != x ==> y == q) && (q == x ==> IsFirst(rows, x, y))
  {
    y := q;
    if q == x {
      y := First(rows, x, top);
    }
    forall z | z in rows && p <= z ensures y <= z {
      assert z in rows[x := e];
    }
  }

  lemma WriteLeadsOn(rows: Rows, r: Range, x: Position, e: Entry, p: Position, hi: Position, top: Position)
    requires Write(rows, r, x, e) && LeadsOn(rows, p, hi) && top in rows && x <= top
    ensures LeadsOn(rows[x := e], p, hi)
  {
    var after := rows[x := e];
    if !NoRowBetween(p, hi) {
      forall q | IsFirst(after, p + 1, q) ensures after[q].continuous {
        var y := FirstAfterWrite(rows, x, e, p + 1, q, top);
      }
    }
  }

  lemma WriteServes(rows: Rows, r: Range, x: Position, e: Entry, p: Position, q: Position, top: Position)
    requires Write(rows, r, x, e) && top in rows && x <= top
    requires (forall y :: IsFirst(rows, p, y) ==> Serves(rows, p, y)) && IsFirst(rows[x := e], p, q)
    ensures Serves(rows[x := e], p, q)
  {
    var y := FirstAfterWrite(rows, x, e, p, q, top);
    if q == x && NoRowBetween(p, y) {
      Between(p, x, y);
    }
  }

  // An earlier range stays filled
  lemma WriteKeepsFilled(rows: Rows, r: Range, x: Position, e: Entry, s: Range, top: Position)
    requires Write(rows, r, x, e) && s.hi <= r.lo && Filled(rows, s) && top in rows && x <= top
    ensures Filled(rows[x := e], s)
  {
    var after := rows[x := e];
    forall q | IsFirst(after, s.lo, q) ensures Serves(after, s.lo, q) {
      WriteServes(rows, r, x, e, s.lo, q, top);
    }
    forall p | p in after && s.lo <= p < s.hi ensures LeadsOn(after, p, s.hi) {
      WriteLeadsOn(rows, r, x, e, p, s.hi, top);
    }
  }

  lemma Between(a: Position, b: Position, c: Position)
    requires a <= b <= c && NoRowBetween(a, c)
    ensures NoRowBetween(a, b) && NoRowBetween(b, c)
  {
  }

  lemma WriteKeepsStuck(rows: Rows, r: Range, x: Position, e: Entry, s: Range, top: Position)
    requires Write(rows, r, x, e) && s.hi <= r.lo && Stuck(rows, s) && ValidRange(s, top)
    ensures Stuck(rows[x := e], s)
  {
  }

  // A write for one range does not change which of the later ones will be missed
  lemma WriteKeepsMissed(rows: Rows, table: Table, ranges: seq<Range>, n: nat, x: Position, e: Entry, i: nat,
                         top: Position)
    requires ValidRanges(ranges, top) && n < i < |ranges| && Write(rows, ranges[n], x, e) && top in rows && x <= top
    ensures Missed(rows, table, ranges, i) <==> Missed(rows[x := e], table, ranges, i)
  {
    var r := ranges[i];
    if r.singular {
      WriteBeforeKey(rows, ranges[n], x, e, r, top);
      if r.lo + 1 !in rows {
        WriteKeepsUnmarked(rows, x, e, r.lo + 1);
        WriteKeepsStarted(rows, ranges, n, x, e, i, top);
      }
      SameMissed(rows, rows[x := e], table, ranges, i);
    }
  }

  lemma SameMissed(rows: Rows, rows': Rows, table: Table, ranges: seq<Range>, i: nat)
    requires i < |ranges| && (ranges[i].lo + 1 in rows <==> ranges[i].lo + 1 in rows')
    requires ranges[i].lo + 1 !in rows ==>
      && (Unmarked(rows, ranges[i].lo + 1) <==> Unmarked(rows', ranges[i].lo + 1))
      && (Started(rows, ranges, i) <==> Started(rows', ranges, i))
    requires ranges[i].hi in rows <==> ranges[i].hi in rows'
    ensures Missed(rows, table, ranges, i) <==> Missed(rows', table, ranges, i)
  {
  }

  // The write is not after the start of a later range of one key, unless it writes to an entry of the key
  lemma WriteBeforeKey(rows: Rows, r: Range, x: Position, e: Entry, s: Range, top: Position)
    requires Write(rows, r, x, e) && r.hi <= s.lo && s.singular && ValidRange(s, top) && ValidRange(r, top)
    ensures x <= s.lo || (x in rows && x <= s.lo + 1)
    ensures (s.lo + 1 in rows[x := e] <==> s.lo + 1 in rows) && (s.hi in rows[x := e] <==> s.hi in rows)
  {
    if x > r.hi {
      SameKey(r.hi, x, s.lo);
    }
  }

  lemma SameKey(a: Position, x: Position, b: Position)
    requires a < x && NoRowBetween(a, x) && a <= b && b % 4 == 3
    ensures x <= b + 1
  {
  }

  lemma WriteKeepsStarted(rows: Rows, ranges: seq<Range>, n: nat, x: Position, e: Entry, i: nat, top: Position)
    requires ValidRanges(ranges, top) && n < i < |ranges| && Write(rows, ranges[n], x, e) && x <= ranges[i].lo
    ensures Started(rows, ranges, i) <==> Started(rows[x := e], ranges, i)
  {
    assert ranges[n].hi <= ranges[i].lo;
    if n + 1 < i {
      Apart(ranges, n, i, top);
    }
  }

  lemma Apart(ranges: seq<Range>, n: nat, i: nat, top: Position)
    requires ValidRanges(ranges, top) && n + 1 < i < |ranges|
    ensures ranges[n].hi < ranges[i].lo
  {
    assert ValidRange(ranges[n + 1], top) && ranges[n].hi <= ranges[n + 1].lo && ranges[n + 1].hi <= ranges[i].lo;
  }

  lemma WriteKeepsUnmarked(rows: Rows, x: Position, e: Entry, p: Position)
    requires x < p
    ensures Unmarked(rows, p) <==> Unmarked(rows[x := e], p)
  {
    var after := rows[x := e];
    assert forall q :: q in after && p <= q <==> q in rows && p <= q;
    assert forall q :: IsFirst(rows, p, q) <==> IsFirst(after, p, q);
  }

  // A write for range n keeps what is known of the others
  lemma WriteKeepsOthers(rows: Rows, table: Table, ranges: seq<Range>, n: nat, x: Position, e: Entry, top: Position,
                         bad: set<nat>)
    requires ValidRanges(ranges, top) && n < |ranges| && top in rows && x <= top && Write(rows, ranges[n], x, e)
    requires Accounted(rows, table, ranges, n, bad)
    ensures var after := rows[x := e];
      && (forall i: nat :: i < n ==> Settled(after, ranges, i, bad))
      && (forall i: nat :: n < i < |ranges| ==> (i in bad <==> Missed(after, table, ranges, i)))
  {
    var after := rows[x := e];
    forall i: nat | i < n ensures Settled(after, ranges, i, bad) {
      assert Settled(rows, ranges, i, bad) && ranges[i].hi <= ranges[n].lo;
      if i in bad {
        WriteKeepsStuck(rows, ranges[n], x, e, ranges[i], top);
      } else {
        WriteKeepsFilled(rows, ranges[n], x, e, ranges[i], top);
      }
    }
    forall i: nat | n < i < |ranges| ensures i in bad <==> Missed(after, table, ranges, i) {
      WriteKeepsMissed(rows, table, ranges, n, x, e, i, top);
    }
  }

  // A write inside range n, before its end is reached, keeps the account
  lemma WriteKeepsAccount(rows: Rows, table: Table, ranges: seq<Range>, n: nat, x: Position, e: Entry, top: Position,
                          bad: set<nat>)
    requires ValidRanges(ranges, top) && n < |ranges| && top in rows && x <= top && Write(rows, ranges[n], x, e)
    requires Accounted(rows, table, ranges, n, bad)
    requires ranges[n].singular ==> x == ranges[n].lo + 1 && (x in rows || x in table)
    ensures Accounted(rows[x := e], table, ranges, n, bad)
  {
    WriteKeepsOthers(rows, table, ranges, n, x, e, top, bad);
    assert !Missed(rows, table, ranges, n) && !Missed(rows[x := e], table, ranges, n);
  }

  // and one that settles it completes it
  lemma WriteSettles(rows: Rows, table: Table, ranges: seq<Range>, n: nat, x: Position, e: Entry, top: Position,
                     bad: set<nat>)
    requires ValidRanges(ranges, top) && n < |ranges| && top in rows && x <= top && Write(rows, ranges[n], x, e)
    requires Accounted(rows, table, ranges, n, bad) && Settled(rows[x := e], ranges, n, bad)
    ensures Accounted(rows[x := e], table, ranges, n + 1, bad)
  {
    WriteKeepsOthers(rows, table, ranges, n, x, e, top, bad);
  }

  // ---- How a reader gets on ----

  // The range is read from the source up to the entry at next: everything before the entry at last is filled, and
  // without such an entry the range has no start, or is one key with nothing cached in it.
  ghost predicate Behind(rows: Rows, r: Range, last: Option<Position>, next: Position) {
    match last
    case Some(l) => l in rows && r.lo <= l < r.hi && IsFirst(rows, l + 1, next) && FilledTo(rows, r, l)
    case None => IsFirst(rows, r.lo, next) && r.lo < next && (r.hasStart ==> r.singular && r.hi <= next)
  }

  lemma EnterServed(rows: Rows, r: Range, pos: Position)
    requires IsFirst(rows, r.lo, pos) && Serves(rows, r.lo, pos)
    ensures FilledTo(rows, r, pos)
  {
  }

  lemma EnterAnchored(rows: Rows, r: Range, pos: Position, e: Entry)
    requires IsFirst(rows, r.lo, pos) && !Serves(rows, r.lo, pos) && r.lo < r.hi && !e.continuous
    ensures Write(rows, r, r.lo, e) && Behind(rows[r.lo := e], r, Some(r.lo), pos)
  {
    var after := rows[r.lo := e];
    assert IsFirst(after, r.lo, r.lo);
    forall q | q in after && r.lo + 1 <= q ensures pos <= q {
      assert q in rows;
    }
  }

  lemma EnterUnanchored(rows: Rows, r: Range, pos: Position, top: Position)
    requires IsFirst(rows, r.lo, pos) && !Serves(rows, r.lo, pos) && ValidRange(r, top) && (r.hasStart ==> r.singular)
    ensures Behind(rows, r, None, pos)
  {
  }

  lemma NextServed(rows: Rows, r: Range, next: Position, pos: Position)
    requires FilledTo(rows, r, next) && next in rows && IsFirst(rows, next + 1, pos) && rows[pos].continuous
    ensures FilledTo(rows, r, pos)
  {
    forall p | p in rows && r.lo <= p < pos ensures LeadsOn(rows, p, r.hi) {
      if p >= next {
        assert p == next;
        forall q | IsFirst(rows, p + 1, q) ensures rows[q].continuous {
          assert q == pos;
        }
      }
    }
  }

  lemma CacheEnds(rows: Rows, r: Range, next: Position)
    requires FilledTo(rows, r, next) && (r.hi <= next || NoRowBetween(next, r.hi))
    ensures Filled(rows, r)
  {
    forall p | p in rows && r.lo <= p < r.hi ensures LeadsOn(rows, p, r.hi) {
      if next <= p {
        Between(next, p, r.hi);
      }
    }
  }

  lemma RowInGap(rows: Rows, table: Table, f: Position, next: Position)
    requires f in table && f < next && IsFirst(rows, f, next)
    ensures !GapFree(rows, table, next)
  {
    assert !Shadowed(rows, f, next);
  }

  // A row of the source is put between the two entries, marked unless nothing is known of what is before it
  lemma TakenIsBehind(rows: Rows, table: Table, r: Range, last: Option<Position>, next: Position, f: Position,
                      e: Entry, top: Position)
    requires Behind(rows, r, last, next) && ValidRange(r, top) && IsRow(f) && r.lo <= f < r.hi && f < next && f in table
    requires (last.Some? ==> last.value < f) && (next in rows && rows[next].continuous ==> GapFree(rows, table, next))
    requires e.continuous <==> !r.hasStart || last.Some?
    ensures f !in rows && Write(rows, r, f, e) && Behind(rows[f := e], r, Some(f), next)
    ensures r.singular ==> f == r.lo + 1
  {
    var after := rows[f := e];
    assert f !in rows;
    if !e.continuous {
      RowInGap(rows, table, f, next);
    }
    forall q | q in after && f + 1 <= q ensures next <= q {
      assert q in rows;
    }
    FilledToTaken(rows, r, last, next, f, e, top);
  }

  lemma FilledToTaken(rows: Rows, r: Range, last: Option<Position>, next: Position, f: Position, e: Entry,
                      top: Position)
    requires Behind(rows, r, last, next) && ValidRange(r, top) && IsRow(f) && r.lo <= f < r.hi && f < next && f !in rows
    requires (last.Some? ==> last.value < f) && (e.continuous <==> !r.hasStart || last.Some?)
    ensures FilledTo(rows[f := e], r, f)
  {
    var after := rows[f := e];
    assert forall p :: p in rows ==> p in after;
    match last {
      case None =>
        assert IsFirst(after, r.lo, f);
      case Some(l) =>
        assert IsFirst(after, l + 1, f);
        FilledToExtends(rows, r, l, f, e);
    }
  }

  // A marked entry put, or an entry marked, right after l
  lemma FilledToExtends(rows: Rows, r: Range, l: Position, x: Position, e: Entry)
    requires l in rows && r.lo <= l < x && FilledTo(rows, r, l) && IsFirst(rows[x := e], l + 1, x) && e.continuous
    ensures FilledTo(rows[x := e], r, x)
  {
    var after := rows[x := e];
    forall q | IsFirst(after, r.lo, q) ensures Serves(after, r.lo, q) {
      assert l in after;
      FirstBefore(rows, x, e, r.lo, q, l);
    }
    forall p | p in after && r.lo <= p < x ensures LeadsOn(after, p, r.hi) {
      if p > l {
        assert false;
      }
      forall q | IsFirst(after, p + 1, q) && !NoRowBetween(p, r.hi) ensures after[q].continuous {
        if p < l {
          assert l in after;
          FirstBefore(rows, x, e, p + 1, q, l);
          assert LeadsOn(rows, p, r.hi);
        } else {
          assert x in after;
        }
      }
    }
  }

  lemma FirstBefore(rows: Rows, x: Position, e: Entry, p: Position, q: Position, l: Position)
    requires l in rows && p <= l < x && IsFirst(rows[x := e], p, q)
    ensures q <= l && IsFirst(rows, p, q) && rows[q] == rows[x := e][q]
  {
    assert l in rows[x := e];
    forall z | z in rows && p <= z ensures q <= z {
      assert z in rows[x := e];
    }
  }

  // The entry that ended the read is marked
  function Marked(rows: Rows, p: Position): (r: Rows)
    requires p in rows
  {
    rows[p := rows[p].(continuous := true)]
  }

  lemma MarkedIsFilled(rows: Rows, r: Range, last: Option<Position>, next: Position)
    requires Behind(rows, r, last, next) && (!r.hasStart || last.Some?)
    ensures FilledTo(Marked(rows, next), r, next)
  {
    var e := rows[next].(continuous := true);
    match last {
      case None =>
        assert IsFirst(Marked(rows, next), r.lo, next);
      case Some(l) =>
        assert IsFirst(Marked(rows, next), l + 1, next);
        FilledToExtends(rows, r, l, next, e);
    }
  }

  // The source was read up to an entry inside the range
  lemma PassedIsFilled(rows: Rows, table: Table, ranges: seq<Range>, n: nat, last: Option<Position>, next: Position,
                       top: Position, bad: set<nat>)
    requires ValidRanges(ranges, top) && n < |ranges| && Behind(rows, ranges[n], last, next) && next < ranges[n].hi
    requires top in rows && Accounted(rows, table, ranges, n, bad)
    ensures (!ranges[n].hasStart || last.Some?) && FilledTo(Marked(rows, next), ranges[n], next)
    ensures Accounted(Marked(rows, next), table, ranges, n, bad)
  {
    var r, e := ranges[n], rows[next].(continuous := true);
    assert ValidRange(r, top);
    MarkedIsFilled(rows, r, last, next);
    assert Write(rows, r, next, e);
    WriteKeepsAccount(rows, table, ranges, n, next, e, top, bad);
  }

  // ---- How the end of a range is remembered ----

  // Everything the source has in the range is cached
  ghost predicate Cached(rows: Rows, table: Table, r: Range) {
    forall u :: u in table && r.lo <= u < r.hi ==> u in rows
  }

  // A filled range leaves an entry at its end if the key that follows and the next entry do not vouch for it
  lemma FilledLeavesEntry(rows: Rows, top: Position, r: Range, p: Position, q: Position)
    requires ValidRange(r, top) && Filled(rows, r) && r.hi == p && p % 4 == 3 && IsFirst(rows, p, q) && p !in rows
    ensures rows[q].continuous
  {
    if exists x :: x in rows && r.lo <= x < p {
      var x := LastBefore(rows, r.lo, p);
      OtherKey(x, p, p);
      assert LeadsOn(rows, x, p) && IsFirst(rows, x + 1, q);
    } else {
      OtherKey(r.lo, p, q);
      assert IsFirst(rows, r.lo, q) && Serves(rows, r.lo, q);
    }
  }

  lemma OtherKey(a: Position, p: Position, b: Position)
    requires a < p <= b && p % 4 == 3
    ensures !NoRowBetween(a, b)
  {
  }

  lemma LastBefore(rows: Rows, lo: Position, hi: Position) returns (x: Position)
    requires exists y :: y in rows && lo <= y < hi
    ensures x in rows && lo <= x < hi && forall y :: y in rows && y < hi ==> y <= x
  {
    x := hi - 1;
    while x !in rows
      invariant exists y :: y in rows && lo <= y <= x
      invariant x < hi && forall y :: y in rows && y < hi ==> y <= x
      decreases x - lo
    {
      x := x - 1;
    }
  }

  // The cache served the rest of the range
  lemma EndsInCache(rows: Rows, table: Table, ranges: seq<Range>, n: nat, next: Position, top: Position, bad: set<nat>)
    requires ValidRanges(ranges, top) && n < |ranges| && top in rows && Accounted(rows, table, ranges, n, bad)
    requires FilledTo(rows, ranges[n], next) && (ranges[n].hi <= next || NoRowBetween(next, ranges[n].hi))
    ensures Filled(rows, ranges[n]) && Accounted(rows, table, ranges, n + 1, bad)
  {
    CacheEnds(rows, ranges[n], next);
    if Missed(rows, table, ranges, n) {
      MissedUnfilled(rows, table, top, ranges, n);
    }
    assert Settled(rows, ranges, n, bad);
  }

  // The entry right after the end is marked
  lemma EndsMarked(rows: Rows, table: Table, ranges: seq<Range>, n: nat, last: Option<Position>, next: Position,
                   top: Position, bad: set<nat>)
    requires ValidRanges(ranges, top) && n < |ranges| && top in rows && next <= top && Accounted(rows, table, ranges, n, bad)
    requires Behind(rows, ranges[n], last, next) && ranges[n].hi <= next && NoRowBetween(ranges[n].hi, next)
    requires !ranges[n].hasStart || last.Some?
    ensures Accounted(Marked(rows, next), table, ranges, n + 1, bad)
  {
    var r, e := ranges[n], rows[next].(continuous := true);
    assert ValidRange(r, top);
    MarkedIsFilled(rows, r, last, next);
    CacheEnds(Marked(rows, next), r, next);
    assert Write(rows, r, next, e);
    assert !Missed(rows, table, ranges, n);
    WriteSettles(rows, table, ranges, n, next, e, top, bad);
  }

  // Nothing is known of what is before it, so it is not
  lemma EndsUnmarked(rows: Rows, table: Table, ranges: seq<Range>, n: nat, next: Position, top: Position, bad: set<nat>)
    requires ValidRanges(ranges, top) && n < |ranges| && top in rows && Accounted(rows, table, ranges, n, bad)
    requires Behind(rows, ranges[n], None, next) && ranges[n].hi <= next && NoRowBetween(ranges[n].hi, next)
    requires ranges[n].hasStart && Cached(rows, table, ranges[n])
    ensures Accounted(rows, table, ranges, n + 1, bad)
  {
    var r := ranges[n];
    assert ValidRange(r, top) && next == r.hi && IsFirst(rows, r.lo + 1, next);
    if rows[next].continuous {
      EnterServed(rows, r, next);
      assert !Missed(rows, table, ranges, n) && Settled(rows, ranges, n, bad);
    } else {
      if n > 0 && ranges[n - 1].hi == r.lo {
        assert ValidRange(ranges[n - 1], top) && Settled(rows, ranges, n - 1, bad);
        FilledLeavesEntry(rows, top, ranges[n - 1], r.lo, next);
      }
      assert Missed(rows, table, ranges, n) && Settled(rows, ranges, n, bad);
    }
  }

  // The absence of the one key of the range is recorded
  lemma EndsAbsent(rows: Rows, table: Table, ranges: seq<Range>, n: nat, last: Option<Position>, next: Position,
                   e: Entry,
                   top: Position, bad: set<nat>)
    requires ValidRanges(ranges, top) && n < |ranges| && top in rows && Accounted(rows, table, ranges, n, bad)
    requires ranges[n].singular && Behind(rows, ranges[n], last, next) && ranges[n].hi < next
    requires Cached(rows, table, ranges[n]) && ranges[n].lo + 1 !in rows && e.continuous == rows[next].continuous
    ensures Accounted(rows[ranges[n].lo + 1 := e], table, ranges, n + 1, bad)
  {
    var r, x := ranges[n], ranges[n].lo + 1;
    assert ValidRange(r, top) && IsFirst(rows, x, next);
    var after := rows[x := e];
    assert Write(rows, r, x, e);
    if last.Some? {
      AbsentAfterEntry(rows, table, ranges, n, next, e, top, bad);
    } else {
      AbsentAlone(rows, table, ranges, n, next, e, top, bad);
    }
    WriteSettles(rows, table, ranges, n, x, e, top, bad);
  }

  lemma AbsentAfterEntry(rows: Rows, table: Table, ranges: seq<Range>, n: nat, next: Position, e: Entry,
                         top: Position, bad: set<nat>)
    requires ValidRanges(ranges, top) && n < |ranges| && Accounted(rows, table, ranges, n, bad)
    requires ranges[n].singular && ranges[n].lo in rows && ranges[n].lo + 1 !in rows && ranges[n].hi < next
    requires IsFirst(rows, ranges[n].lo + 1, next) && Cached(rows, table, ranges[n])
    requires e.continuous == rows[next].continuous
    ensures Settled(rows[ranges[n].lo + 1 := e], ranges, n, bad)
  {
    var r, x := ranges[n], ranges[n].lo + 1;
    assert ValidRange(r, top);
    var after := rows[x := e];
    if e.continuous {
      assert IsFirst(after, r.lo, r.lo) && IsFirst(after, x, x);
      assert LeadsOn(after, r.lo, r.hi) && NoRowBetween(x, r.hi);
    } else {
      assert Missed(rows, table, ranges, n);
    }
  }

  lemma AbsentAlone(rows: Rows, table: Table, ranges: seq<Range>, n: nat, next: Position, e: Entry, top: Position,
                    bad: set<nat>)
    requires ValidRanges(ranges, top) && n < |ranges| && Accounted(rows, table, ranges, n, bad)
    requires ranges[n].singular && ranges[n].hi < next && IsFirst(rows, ranges[n].lo, next)
    ensures Settled(rows[ranges[n].lo + 1 := e], ranges, n, bad)
  {
    var r, x := ranges[n], ranges[n].lo + 1;
    assert ValidRange(r, top) && IsFirst(rows, x, next);
    var after := rows[x := e];
    assert IsFirst(after, r.lo, x) && NoRowBetween(r.lo, x) && NoRowBetween(x, r.hi);
    assert Filled(after, r);
    if n > 0 && ranges[n - 1].hi == r.lo {
      assert ValidRange(ranges[n - 1], top) && Settled(rows, ranges, n - 1, bad);
      FilledLeavesEntry(rows, top, ranges[n - 1], r.lo, next);
    }
    assert !Missed(rows, table, ranges, n);
  }

  // It was cached already
  lemma EndsPresent(rows: Rows, table: Table, ranges: seq<Range>, n: nat, last: Option<Position>, next: Position,
                    top: Position, bad: set<nat>)
    requires ValidRanges(ranges, top) && n < |ranges| && top in rows && Accounted(rows, table, ranges, n, bad)
    requires ranges[n].singular && Behind(rows, ranges[n], last, next) && ranges[n].hi < next && ranges[n].lo + 1 in rows
    ensures Accounted(rows, table, ranges, n + 1, bad)
  {
    var r := ranges[n];
    assert ValidRange(r, top) && last == Some(r.lo + 1) && NoRowBetween(r.lo + 1, r.hi);
    assert Filled(rows, r);
    assert Settled(rows, ranges, n, bad);
  }

  // A marked dummy is put at the end
  lemma EndsWithDummy(rows: Rows, table: Table, ranges: seq<Range>, n: nat, last: Option<Position>, next: Position,
                      e: Entry,
                      top: Position, bad: set<nat>)
    requires ValidRanges(ranges, top) && n < |ranges| && top in rows && Accounted(rows, table, ranges, n, bad)
    requires !ranges[n].singular && Behind(rows, ranges[n], last, next) && ranges[n].hi < next && e.continuous
    ensures Accounted(rows[ranges[n].hi := e], table, ranges, n + 1, bad)
  {
    var r := ranges[n];
    assert ValidRange(r, top);
    var after := rows[r.hi := e];
    assert Write(rows, r, r.hi, e);
    match last {
      case None =>
        assert IsFirst(after, r.lo, r.hi);
      case Some(l) =>
        assert IsFirst(after, l + 1, r.hi);
        FilledToExtends(rows, r, l, r.hi, e);
    }
    assert Filled(after, r);
    WriteSettles(rows, table, ranges, n, r.hi, e, top, bad);
  }
}
