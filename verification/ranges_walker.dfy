/**
  The walker over clustering ranges: answers, for positions asked in increasing order, whether they
  fall into a query's ranges, while the front of the ranges may be trimmed at any time.
*/
module RangesWalker {
  import opened Positions
  import opened Wrappers

  // position_in_partition::for_static_row(): right before all clustered positions
  const STATIC: Position := BEFORE_ALL - 1

  // A query: its ranges, whether it wants the static row, and after_all_clustered_rows()
  datatype Query = Query(ranges: seq<Range>, withStatic: bool, top: Position)

  predicate ValidQuery(q: Query) {
    ValidRanges(q.ranges, q.top) && BEFORE_ALL < q.top
  }

  // The positions a query asks for
  predicate Wanted(q: Query, p: Position) {
    (q.withStatic && p == STATIC) || InRanges(q.ranges, p)
  }

  // Past the start of some range but not past its end
  predicate Inside(ranges: seq<Range>, from: nat, p: Position) {
    exists i :: from <= i < |ranges| && ranges[i].lo < p < ranges[i].hi
  }

  // Where the walker stands: the current range from its (trimmed) start
  datatype Place = Place(current: nat, start: Position, end: Position)

  predicate ValidPlace(q: Query, v: Place) {
    && v.current <= |q.ranges|
    && (v.start == STATIC ==> q.withStatic && v.current == 0 && v.end == BEFORE_ALL)
    && (v.start != STATIC && v.current == |q.ranges| ==> v.start == v.end == q.top)
    && (v.start != STATIC && v.current < |q.ranges| ==>
          q.ranges[v.current].lo <= v.start < q.ranges[v.current].hi == v.end)
  }

  function FirstLater(v: Place): (i: nat) {
    if v.start == STATIC then v.current else v.current + 1
  }

  predicate InLater(q: Query, v: Place, p: Position) {
    exists i :: FirstLater(v) <= i < |q.ranges| && q.ranges[i].lo <= p < q.ranges[i].hi
  }

  // In the current range or a later one
  predicate Remaining(q: Query, v: Place, p: Position) {
    v.start <= p < v.end || InLater(q, v, p)
  }

  // p would split what remains of some range in two
  predicate Splits(q: Query, v: Place, p: Position) {
    v.start < p < v.end || Inside(q.ranges, FirstLater(v), p)
  }

  predicate Done(q: Query, v: Place) {
    v.start != STATIC && v.current == |q.ranges|
  }

  // Ranges still ahead
  function Left(q: Query, v: Place): (n: int) {
    |q.ranges| - v.current + if v.start == STATIC then 1 else 0
  }

  function First(q: Query): (v: Place) {
    if q.withStatic then Place(0, STATIC, BEFORE_ALL)
    else At(q, 0)
  }

  function At(q: Query, i: nat): (v: Place) {
    if i < |q.ranges| then Place(i, q.ranges[i].lo, q.ranges[i].hi) else Place(i, q.top, q.top)
  }

  // The place after the current range
  function Next(q: Query, v: Place): (w: Place) {
    if Done(q, v) then v else At(q, FirstLater(v))
  }

  // Leaving the current range leaves what comes after it
  lemma NextDrops(q: Query, v: Place, p: Position)
    requires ValidQuery(q) && ValidPlace(q, v)
    ensures Remaining(q, Next(q, v), p) <==> Remaining(q, v, p) && v.end <= p
    ensures v.end <= p ==> (Splits(q, Next(q, v), p) <==> Splits(q, v, p))
  {
    var w := Next(q, v);
    if !Done(q, v) {
      assert FirstLater(w) == FirstLater(v) + 1;
      if Remaining(q, w, p) && !InLater(q, w, p) {
        var i := FirstLater(v);
        assert i < |q.ranges| && q.ranges[i].lo <= p < q.ranges[i].hi;
      }
    }
  }

  // All that remains is at or after the start, which itself remains
  lemma StartIsLeast(q: Query, v: Place, p: Position)
    requires ValidQuery(q) && ValidPlace(q, v)
    ensures Remaining(q, v, p) ==> v.start <= p
    ensures Splits(q, v, p) ==> v.start < p
    ensures Done(q, v) ==> !Remaining(q, v, p) && !Splits(q, v, p)
    ensures !Done(q, v) ==> Remaining(q, v, v.start)
  {
  }

  // Cutting the current range at pos
  lemma CutDrops(q: Query, v: Place, pos: Position, p: Position)
    requires ValidQuery(q) && ValidPlace(q, v) && v.start < pos < v.end
    ensures ValidPlace(q, v.(start := pos))
    ensures Remaining(q, v.(start := pos), p) <==> Remaining(q, v, p) && pos <= p
  {
  }

  // The place skipped ahead to from v in search of pos
  ghost predicate Follows(q: Query, v: Place, w: Place, pos: Position) {
    && ValidPlace(q, w) && v.start <= w.start
    && (forall p :: pos <= p ==> (Remaining(q, w, p) <==> Remaining(q, v, p)))
    && (forall p :: Remaining(q, w, p) ==> Remaining(q, v, p))
    && (Splits(q, w, pos) <==> Splits(q, v, pos))
  }

  lemma NextPlace(q: Query, v: Place)
    requires ValidQuery(q) && ValidPlace(q, v)
    ensures ValidPlace(q, Next(q, v)) && Next(q, v).start != STATIC && v.start <= Next(q, v).start
    ensures !Done(q, v) ==> Left(q, Next(q, v)) < Left(q, v) && v.start < Next(q, v).start
  {
  }

  // The first place from v on whose range does not end before pos
  function SkipTo(q: Query, v: Place, pos: Position): (w: Place)
    requires ValidQuery(q) && ValidPlace(q, v)
    decreases Left(q, v)
  {
    NextPlace(q, v);
    if Done(q, v) || pos < v.end then v else SkipTo(q, Next(q, v), pos)
  }

  lemma {:induction false} SkipPlace(q: Query, v: Place, pos: Position)
    requires ValidQuery(q) && ValidPlace(q, v)
    ensures var w := SkipTo(q, v, pos);
      && ValidPlace(q, w) && (Done(q, w) || pos < w.end)
      && (w == v || (w.start != STATIC && v.start < w.start && (Done(q, w) || w.start == q.ranges[w.current].lo)))
    decreases Left(q, v)
  {
    if !Done(q, v) && v.end <= pos {
      NextPlace(q, v);
      SkipPlace(q, Next(q, v), pos);
    }
  }

  lemma {:induction false} SkipFollows(q: Query, v: Place, pos: Position)
    requires ValidQuery(q) && ValidPlace(q, v)
    ensures Follows(q, v, SkipTo(q, v, pos), pos)
    decreases Left(q, v)
  {
    SkipPlace(q, v, pos);
    if !Done(q, v) && v.end <= pos {
      var n := Next(q, v);
      NextPlace(q, v);
      SkipFollows(q, n, pos);
      NextDrops(q, v, pos);
      forall p ensures Remaining(q, n, p) <==> Remaining(q, v, p) && v.end <= p {
        NextDrops(q, v, p);
      }
    }
  }

  // Exactly the positions before pos are gone
  ghost predicate CutAt(q: Query, v: Place, w: Place, pos: Position) {
    forall p :: Remaining(q, w, p) <==> Remaining(q, v, p) && pos <= p
  }

  // A cut inside the range skipped to
  lemma CutInside(q: Query, v: Place, pos: Position)
    requires ValidQuery(q) && ValidPlace(q, v) && SkipTo(q, v, pos).start < pos < SkipTo(q, v, pos).end
    ensures var w := SkipTo(q, v, pos).(start := pos);
      ValidPlace(q, w) && CutAt(q, v, w, pos) && Splits(q, v, pos) && Inside(q.ranges, 0, pos)
  {
    var w := SkipTo(q, v, pos);
    SkipPlace(q, v, pos);
    SkipFollows(q, v, pos);
    CutDrops(q, w, pos, pos);
    forall p ensures Remaining(q, w.(start := pos), p) <==> Remaining(q, v, p) && pos <= p {
      CutDrops(q, w, pos, p);
    }
    var i := w.current;
    assert q.ranges[i].lo < pos < q.ranges[i].hi;
  }

  // or right before it, or past everything
  lemma CutBefore(q: Query, v: Place, pos: Position)
    requires ValidQuery(q) && ValidPlace(q, v)
    requires pos <= SkipTo(q, v, pos).start || Done(q, SkipTo(q, v, pos))
    ensures CutAt(q, v, SkipTo(q, v, pos), pos) && !Splits(q, v, pos)
  {
    var w := SkipTo(q, v, pos);
    SkipPlace(q, v, pos);
    SkipFollows(q, v, pos);
    StartIsLeast(q, w, pos);
    forall p ensures Remaining(q, w, p) <==> Remaining(q, v, p) && pos <= p {
      StartIsLeast(q, w, p);
    }
  }

  // What the walker knows of the query after trims up to `trimmed` and questions up to `asked`
  ghost predicate Tracks(q: Query, v: Place, trimmed: Position, asked: Position) {
    && (forall p :: Remaining(q, v, p) ==> Wanted(q, p) && trimmed <= p)
    && (forall p :: Wanted(q, p) && trimmed <= p && asked <= p ==> Remaining(q, v, p))
  }

  // The walker between calls
  ghost predicate ValidState(q: Query, v: Place, inCurrent: bool, trim: Option<Position>,
                             trimmed: Position, asked: Position) {
    && ValidPlace(q, v) && Tracks(q, v, trimmed, asked)
    && (v.start == STATIC ==> inCurrent && trim == None)
    && (inCurrent ==> v.start <= asked && !Done(q, v))
    && (v.start != STATIC && !Done(q, v) ==> v.start == q.ranges[v.current].lo || trim == Some(v.start))
    && (trim.Some? ==> trim.value <= v.start && trim.value <= trimmed && Inside(q.ranges, 0, trim.value))
  }

  // Answering a question about pos
  lemma SkipKeepsValid(q: Query, v: Place, inCurrent: bool, trim: Option<Position>, trimmed: Position,
                       asked: Position, pos: Position, inNow: bool)
    requires ValidQuery(q) && ValidState(q, v, inCurrent, trim, trimmed, asked) && asked <= pos
    requires var w := SkipTo(q, v, pos);
      inNow == (w.start <= pos < w.end) || inNow == (w == v && inCurrent)
    ensures ValidState(q, SkipTo(q, v, pos), inNow, trim, trimmed, pos)
  {
    SkipPlace(q, v, pos);
    SkipTracks(q, v, trimmed, asked, pos);
  }

  // Trimming at pos, inside a range
  lemma CutInsideKeepsValid(q: Query, v: Place, inCurrent: bool, trim: Option<Position>, trimmed: Position,
                            asked: Position, pos: Position)
    requires ValidQuery(q) && ValidState(q, v, inCurrent, trim, trimmed, asked)
    requires SkipTo(q, v, pos).start < pos < SkipTo(q, v, pos).end
    ensures ValidState(q, SkipTo(q, v, pos).(start := pos), false, Some(pos), Max(trimmed, pos), asked)
    ensures CutAt(q, v, SkipTo(q, v, pos).(start := pos), pos) && Splits(q, v, pos)
  {
    SkipPlace(q, v, pos);
    CutInside(q, v, pos);
    CutTracks(q, v, SkipTo(q, v, pos).(start := pos), trimmed, asked, pos);
  }

  // or not
  lemma CutBeforeKeepsValid(q: Query, v: Place, inCurrent: bool, trim: Option<Position>, trimmed: Position,
                            asked: Position, pos: Position, inNow: bool)
    requires ValidQuery(q) && ValidState(q, v, inCurrent, trim, trimmed, asked)
    requires pos <= SkipTo(q, v, pos).start || Done(q, SkipTo(q, v, pos))
    requires inNow == (SkipTo(q, v, pos) == v && inCurrent)
    ensures ValidState(q, SkipTo(q, v, pos), inNow, trim, Max(trimmed, pos), asked)
    ensures CutAt(q, v, SkipTo(q, v, pos), pos) && !Splits(q, v, pos)
  {
    SkipPlace(q, v, pos);
    CutBefore(q, v, pos);
    CutTracks(q, v, SkipTo(q, v, pos), trimmed, asked, pos);
  }

  lemma CutTracks(q: Query, v: Place, w: Place, trimmed: Position, asked: Position, pos: Position)
    requires Tracks(q, v, trimmed, asked) && CutAt(q, v, w, pos)
    ensures Tracks(q, w, Max(trimmed, pos), asked)
  {
  }

  // Skipping what lies before a question asked now is no loss, and settles it
  lemma SkipTracks(q: Query, v: Place, trimmed: Position, asked: Position, pos: Position)
    requires ValidQuery(q) && ValidPlace(q, v) && Tracks(q, v, trimmed, asked) && asked <= pos
    ensures var w := SkipTo(q, v, pos);
      Tracks(q, w, trimmed, pos) && (Wanted(q, pos) && trimmed <= pos <==> w.start <= pos < w.end)
  {
    var w := SkipTo(q, v, pos);
    SkipPlace(q, v, pos);
    SkipFollows(q, v, pos);
    StartIsLeast(q, w, pos);
    assert pos < w.end ==> !InLater(q, w, pos);
    assert Remaining(q, w, pos) <==> Remaining(q, v, pos);
  }

  // The same for a question about [s, e)
  lemma SkipOverlaps(q: Query, v: Place, trimmed: Position, asked: Position, s: Position, e: Position)
    requires ValidQuery(q) && ValidPlace(q, v) && Tracks(q, v, trimmed, asked) && asked <= s < e <= q.top
    ensures (exists p :: s <= p < e && trimmed <= p && Wanted(q, p)) <==> SkipTo(q, v, s).start < e
  {
    var w := SkipTo(q, v, s);
    SkipPlace(q, v, s);
    SkipTracks(q, v, trimmed, asked, s);
    if w.start < e {
      var p := Max(s, w.start);
      assert Remaining(q, w, p);
    }
    forall p | s <= p < e && trimmed <= p && Wanted(q, p) ensures w.start < e {
      StartIsLeast(q, w, p);
    }
  }

  lemma FirstTracks(q: Query)
    requires ValidQuery(q)
    ensures ValidPlace(q, First(q)) && Tracks(q, First(q), STATIC, STATIC)
  {
    forall p ensures Remaining(q, First(q), p) <==> Wanted(q, p) {
      FirstRemaining(q, p);
    }
    assert forall p :: Wanted(q, p) ==> STATIC <= p;
  }

  lemma FirstRemaining(q: Query, p: Position)
    requires ValidQuery(q)
    ensures ValidPlace(q, First(q)) && (Remaining(q, First(q), p) <==> Wanted(q, p))
  {
    if InRanges(q.ranges, p) {
      var i :| 0 <= i < |q.ranges| && q.ranges[i].lo <= p < q.ranges[i].hi;
      assert !q.withStatic && i > 0 ==> InLater(q, First(q), p);
      assert q.withStatic ==> InLater(q, First(q), p);
    }
  }

  lemma FirstSplits(q: Query, p: Position)
    requires ValidQuery(q)
    ensures Splits(q, First(q), p) <==> Inside(q.ranges, 0, p)
  {
    if Inside(q.ranges, 0, p) {
      var i :| 0 <= i < |q.ranges| && q.ranges[i].lo < p < q.ranges[i].hi;
      assert i >= FirstLater(First(q)) ==> Inside(q.ranges, FirstLater(First(q)), p);
    }
  }

  function Max(a: Position, b: Position): Position {
    if a < b then b else a
  }

  class Walker {
    const query: Query
    var current: nat
    var inCurrent: bool
    var start: Position
    var end: Position
    var trim: Option<Position>
    var changes: nat
    ghost var trimmed: Position   // everything before it was trimmed
    ghost var asked: Position     // the largest position (or range start) asked about

    function Here(): (v: Place)
      reads this
    {
      Place(current, start, end)
    }

    ghost predicate Valid()
      reads this
    {
      ValidQuery(query) && changes > 0 && ValidState(query, Here(), inCurrent, trim, trimmed, asked)
    }

    constructor (q: Query)
      requires ValidQuery(q)
      ensures Valid() && query == q
      ensures trimmed == STATIC && asked == STATIC && trim == None && changes == 1
    {
      query := q;
      current, inCurrent, start, end := 0, q.withStatic, STATIC, BEFORE_ALL;
      trim, changes := None, 1;
      trimmed, asked := STATIC, STATIC;
      if !q.withStatic {
        if |q.ranges| == 0 {
          start, end := q.top, q.top;
        } else {
          start, end := q.ranges[0].lo, q.ranges[0].hi;
        }
      }
      new;
      FirstTracks(q);
      assert Here() == First(q);
    }

    method AdvanceToNextRange() returns (more: bool)
      requires ValidQuery(query) && ValidPlace(query, Here())
      modifies `current, `start, `end, `inCurrent, `changes
      ensures Here() == Next(query, old(Here())) && !inCurrent
      ensures more <==> !Done(query, Here())
      ensures changes >= old(changes) && (Here() != old(Here()) ==> changes > old(changes))
    {
      inCurrent := false;
      if start != STATIC {
        if current == |query.ranges| {
          return false;
        }
        current := current + 1;
      }
      changes := changes + 1;
      if current == |query.ranges| {
        start, end := query.top, query.top;
        return false;
      }
      start, end := query.ranges[current].lo, query.ranges[current].hi;
      return true;
    }

    // The loops over the ranges.  All three stop at the first range that does not end before pos.
    method FindCut(pos: Position) returns (inside: bool)
      requires ValidQuery(query) && ValidPlace(query, Here()) && (inCurrent ==> !Done(query, Here()))
      modifies `current, `start, `end, `inCurrent, `changes
      ensures Here() == SkipTo(query, old(Here()), pos)
      ensures changes >= old(changes) && (start != old(start) ==> changes > old(changes))
      ensures inside <==> start < pos < end
      ensures !inside ==> pos <= start || Done(query, Here())
      ensures inCurrent == (Here() == old(Here()) && old(inCurrent))
    {
      inside := false;
      var more := true;
      while more
        invariant !inside
        invariant ValidPlace(query, Here()) && SkipTo(query, Here(), pos) == SkipTo(query, old(Here()), pos)
        invariant inCurrent == (Here() == old(Here()) && old(inCurrent))
        invariant !more ==> Done(query, Here())
        invariant changes >= old(changes) && (start != old(start) ==> changes > old(changes))
        decreases Left(query, Here()), more
      {
        if start >= pos {
          break;
        }
        if pos < end {
          inside := true;
          break;
        }
        NextPlace(query, Here());
        more := AdvanceToNextRange();
      }
    }

    method FindPosition(pos: Position) returns (contained: bool)
      requires inCurrent ==> start <= pos
      requires ValidQuery(query) && ValidPlace(query, Here()) && (inCurrent ==> !Done(query, Here()))
      modifies `current, `start, `end, `inCurrent, `changes
      ensures Here() == SkipTo(query, old(Here()), pos)
      ensures changes >= old(changes) && (start != old(start) ==> changes > old(changes))
      ensures contained <==> start <= pos < end
      ensures inCurrent <==> contained
    {
      contained := false;
      var more := true;
      while more
        invariant !contained
        invariant ValidPlace(query, Here()) && SkipTo(query, Here(), pos) == SkipTo(query, old(Here()), pos)
        invariant inCurrent == (Here() == old(Here()) && old(inCurrent))
        invariant !more ==> Done(query, Here())
        invariant changes >= old(changes) && (start != old(start) ==> changes > old(changes))
        decreases Left(query, Here()), more
      {
        if !inCurrent && pos < start {
          break;
        }
        inCurrent := true;
        if pos < end {
          contained := true;
          break;
        }
        NextPlace(query, Here());
        more := AdvanceToNextRange();
      }
    }

    method FindOverlap(s: Position, e: Position) returns (overlaps: bool)
      requires s < e <= query.top
      requires ValidQuery(query) && ValidPlace(query, Here()) && (inCurrent ==> !Done(query, Here()))
      modifies `current, `start, `end, `inCurrent, `changes
      ensures Here() == SkipTo(query, old(Here()), s)
      ensures changes >= old(changes) && (start != old(start) ==> changes > old(changes))
      ensures overlaps <==> start < e
      ensures inCurrent == (Here() == old(Here()) && old(inCurrent))
    {
      overlaps := false;
      var more := true;
      while more
        invariant !overlaps
        invariant ValidPlace(query, Here()) && SkipTo(query, Here(), s) == SkipTo(query, old(Here()), s)
        invariant inCurrent == (Here() == old(Here()) && old(inCurrent))
        invariant !more ==> Done(query, Here())
        invariant changes >= old(changes) && (start != old(start) ==> changes > old(changes))
        decreases Left(query, Here()), more
      {
        if start >= e {
          break;
        }
        if s < end {
          overlaps := true;
          break;
        }
        NextPlace(query, Here());
        more := AdvanceToNextRange();
      }
    }

    // Excludes positions smaller than pos; remembers pos for Reset() only if it falls inside a range
    method TrimFront(pos: Position)
      requires Valid()
      modifies this
      ensures Valid() && asked == old(asked) && trimmed == Max(old(trimmed), pos)
      ensures CutAt(query, old(Here()), Here(), pos)
      ensures trim == if Splits(query, old(Here()), pos) then Some(pos) else old(trim)
      ensures changes >= old(changes) && (start != old(start) ==> changes > old(changes))
    {
      ghost var v, wasIn := Here(), inCurrent;
      var inside := FindCut(pos);
      if inside {
        CutInsideKeepsValid(query, v, wasIn, trim, trimmed, asked, pos);
        trim := Some(pos);
        start := pos;
        inCurrent := false;
        changes := changes + 1;
      } else {
        CutBeforeKeepsValid(query, v, wasIn, trim, trimmed, asked, pos, inCurrent);
      }
      trimmed := Max(trimmed, pos);
    }

    // Whether pos is among the wanted positions not trimmed; positions are asked in increasing order
    method AdvanceTo(pos: Position) returns (contained: bool)
      requires Valid() && asked <= pos
      modifies this
      ensures Valid() && asked == pos && unchanged(`trim, `trimmed)
      ensures contained <==> Wanted(query, pos) && trimmed <= pos
      ensures Here() == SkipTo(query, old(Here()), pos)
      ensures changes >= old(changes) && (start != old(start) ==> changes > old(changes))
    {
      ghost var v, wasIn := Here(), inCurrent;
      contained := FindPosition(pos);
      SkipTracks(query, v, trimmed, asked, pos);
      SkipKeepsValid(query, v, wasIn, trim, trimmed, asked, pos, inCurrent);
      asked := pos;
    }

    // Whether [s, e) has such a position in it
    method AdvanceToRange(s: Position, e: Position) returns (overlaps: bool)
      requires Valid() && asked <= s < e <= query.top
      modifies this
      ensures Valid() && asked == s && unchanged(`trim, `trimmed)
      ensures overlaps <==> exists p :: s <= p < e && trimmed <= p && Wanted(query, p)
      ensures Here() == SkipTo(query, old(Here()), s)
      ensures changes >= old(changes) && (start != old(start) ==> changes > old(changes))
    {
      ghost var v, wasIn := Here(), inCurrent;
      overlaps := FindOverlap(s, e);
      SkipOverlaps(query, v, trimmed, asked, s, e);
      SkipKeepsValid(query, v, wasIn, trim, trimmed, asked, s, inCurrent);
      asked := s;
    }

    // Whether a range tombstone over [s, e) has one; may be asked in any order
    method ContainsTombstone(s: Position, e: Position) returns (contains: bool)
      requires Valid() && s < e
      ensures contains <==> exists p :: s <= p < e && p != STATIC && Remaining(query, Here(), p)
    {
      if trim.Some? && trim.value >= e {
        return false;
      }
      var i := current;
      while i != |query.ranges|
        invariant current <= i <= |query.ranges|
        invariant forall j :: current <= j < i ==> query.ranges[j].hi <= s
      {
        if query.ranges[i].lo >= e {
          return false;
        }
        if s < query.ranges[i].hi {
          ghost var p := Max(s, query.ranges[i].lo);
          ghost var q := if i == current && start != STATIC then Max(p, start) else p;
          assert Remaining(query, Here(), q);
          return true;
        }
        i := i + 1;
      }
      return false;
    }

    // out_of_range(): nothing remains
    method OutOfRange() returns (r: bool)
      requires Valid()
      ensures r <==> forall p :: !Remaining(query, Here(), p)
    {
      StartIsLeast(query, Here(), start);
      forall p ensures Done(query, Here()) ==> !Remaining(query, Here(), p) {
        StartIsLeast(query, Here(), p);
      }
      r := !inCurrent && current == |query.ranges|;
    }

    // The smallest position that remains
    method LowerBound() returns (p: Position)
      requires Valid() && exists x :: Remaining(query, Here(), x)
      ensures Remaining(query, Here(), p) && forall x :: Remaining(query, Here(), x) ==> p <= x
    {
      forall x ensures Remaining(query, Here(), x) ==> start <= x && !Done(query, Here()) {
        StartIsLeast(query, Here(), x);
      }
      p := start;
    }

    // Starts over; of the trims only the remembered one still holds
    method Reset()
      requires Valid()
      modifies this
      ensures Valid() && asked == STATIC && trim == old(trim)
      ensures trimmed == if old(trim).Some? then old(trim).value else STATIC
      ensures forall p :: Remaining(query, Here(), p) <==> Wanted(query, p) && trimmed <= p
      ensures changes > old(changes)
    {
      var recorded := trim;
      current, inCurrent, start, end, trim := 0, query.withStatic, STATIC, BEFORE_ALL, None;
      trimmed, asked := STATIC, STATIC;
      if !query.withStatic {
        if |query.ranges| == 0 {
          start, end := query.top, query.top;
        } else {
          start, end := query.ranges[0].lo, query.ranges[0].hi;
        }
      }
      changes := changes + 1;
      FirstTracks(query);
      assert Here() == First(query);
      if recorded.Some? {
        FirstSplits(query, recorded.value);
        TrimFront(recorded.value);
      }
    }
  }

  // ---- Whole runs ----

  // What a caller may ask between two resets
  datatype Call = Contains(p: Position) | Overlaps(s: Position, e: Position) | Trim(p: Position)

  function AskedAfter(c: Call, asked: Position): Position {
    match c
    case Contains(p) => p
    case Overlaps(s, _) => s
    case Trim(_) => asked
  }

  function TrimmedAfter(c: Call, trimmed: Position): Position {
    if c.Trim? then Max(trimmed, c.p) else trimmed
  }

  // Questions come in increasing order; trims at any time
  predicate Monotone(calls: seq<Call>, asked: Position, top: Position) {
    calls == [] ||
    (&& asked <= AskedAfter(calls[0], asked)
     && (calls[0].Overlaps? ==> calls[0].s < calls[0].e <= top)
     && Monotone(calls[1..], AskedAfter(calls[0], asked), top))
  }

  // The answer to a call, from nothing but the query and the trims so far
  ghost function Answer(q: Query, c: Call, trimmed: Position): (r: seq<bool>) {
    match c
    case Contains(p) => [Wanted(q, p) && trimmed <= p]
    case Overlaps(s, e) => [exists p :: s <= p < e && trimmed <= p && Wanted(q, p)]
    case Trim(_) => []
  }

  ghost function Answers(q: Query, calls: seq<Call>, trimmed: Position): (r: seq<bool>) {
    if calls == [] then []
    else Answer(q, calls[0], trimmed) + Answers(q, calls[1..], TrimmedAfter(calls[0], trimmed))
  }

  method Take(w: Walker, c: Call) returns (answer: seq<bool>)
    requires w.Valid() && w.asked <= AskedAfter(c, w.asked) && (c.Overlaps? ==> c.s < c.e <= w.query.top)
    modifies w
    ensures w.Valid() && w.asked == AskedAfter(c, old(w.asked)) && w.trimmed == TrimmedAfter(c, old(w.trimmed))
    ensures answer == Answer(w.query, c, old(w.trimmed))
    ensures w.changes >= old(w.changes) && (w.start != old(w.start) ==> w.changes > old(w.changes))
  {
    match c
    case Contains(p) =>
      var b := w.AdvanceTo(p);
      answer := [b];
    case Overlaps(s, e) =>
      var b := w.AdvanceToRange(s, e);
      answer := [b];
    case Trim(p) =>
      w.TrimFront(p);
      answer := [];
  }

  method Run(w: Walker, calls: seq<Call>) returns (answers: seq<bool>)
    requires w.Valid() && Monotone(calls, w.asked, w.query.top)
    modifies w
    ensures w.Valid() && answers == Answers(w.query, calls, old(w.trimmed))
    ensures w.changes >= old(w.changes) && (w.start != old(w.start) ==> w.changes > old(w.changes))
    decreases |calls|
  {
    if calls == [] {
      answers := [];
    } else {
      var first := Take(w, calls[0]);
      var rest := Run(w, calls[1..]);
      answers := first + rest;
    }
  }

  // No range, nor the static row, reaches into [a, b)
  predicate ClearBetween(q: Query, a: Position, b: Position) {
    && !(q.withStatic && a <= STATIC < b)
    && forall i :: 0 <= i < |q.ranges| ==> q.ranges[i].hi <= a || b <= q.ranges[i].lo || b <= a
  }

  lemma ClearExactly(q: Query, a: Position, b: Position)
    requires ValidQuery(q)
    ensures ClearBetween(q, a, b) <==> forall p :: Wanted(q, p) && a <= p ==> b <= p
  {
    if forall p :: Wanted(q, p) && a <= p ==> b <= p {
      assert q.withStatic ==> Wanted(q, STATIC);
      forall i | 0 <= i < |q.ranges| ensures q.ranges[i].hi <= a || b <= q.ranges[i].lo || b <= a {
        var p := Max(a, q.ranges[i].lo);
        if p < q.ranges[i].hi {
          assert Wanted(q, p);
        }
      }
    }
  }

  // reset() is documented to keep trims.  Whatever was asked and trimmed before, it keeps all trims exactly when
  // nothing wanted lies between the trim remembered, which is this one only if it splits a range still ahead, and
  // the largest.
  method TrimThenReset(w: Walker, pos: Position)
    requires w.Valid()
    modifies w
    ensures w.Valid()
    ensures var largest := Max(old(w.trimmed), pos);
      var remembered := if Splits(w.query, old(w.Here()), pos) then pos
                        else if old(w.trim).Some? then old(w.trim).value else STATIC;
      (forall p :: Remaining(w.query, w.Here(), p) ==> largest <= p) <==> ClearBetween(w.query, remembered, largest)
  {
    w.TrimFront(pos);
    ghost var largest := w.trimmed;
    w.Reset();
    ClearExactly(w.query, w.trimmed, largest);
  }

  predicate StartsBefore(q: Query, pos: Position) {
    (q.withStatic && STATIC < pos) || (|q.ranges| > 0 && q.ranges[0].lo < pos)
  }

  // A trim of a new walker survives exactly when it falls inside a range, or excludes nothing
  method FirstTrimThenReset(w: Walker, pos: Position)
    requires w.Valid() && w.Here() == First(w.query) && w.trim == None
    modifies w
    ensures w.Valid()
    ensures (forall p :: Remaining(w.query, w.Here(), p) ==> pos <= p)
       <==> Inside(w.query.ranges, 0, pos) || !StartsBefore(w.query, pos)
  {
    FirstSplits(w.query, pos);
    w.TrimFront(pos);
    w.Reset();
    ghost var q := w.query;
    if q.withStatic {
      assert Wanted(q, STATIC);
    } else if |q.ranges| > 0 {
      assert Wanted(q, q.ranges[0].lo);
    }
  }

  // The trim between two ranges is one that is forgotten
  lemma ForgottenTrim()
    ensures var q := Query([Range(true, -1, 1, true), Range(true, 3, 5, true)], false, 6);
      ValidQuery(q) && Wanted(q, 0) && !Inside(q.ranges, 0, 2) && StartsBefore(q, 2)
  {
    var q := Query([Range(true, -1, 1, true), Range(true, 3, 5, true)], false, 6);
    assert q.ranges[0].lo <= 0 < q.ranges[0].hi;
  }
}
