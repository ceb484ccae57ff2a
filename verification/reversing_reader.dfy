/**
  The reader that reverses partitions: it reads a whole partition, stacking up rows and collecting range
  tombstones, and then emits them from the last to the first, stopping wherever its buffer is full.
*/
module ReversingReader {
  import opened RangeTombstones
  import opened Sequences
  import opened Wrappers

  // mutation_fragment.  Row r sits between cuts r and r + 1.
  datatype Fragment =
    | Start(key: int)
    | Static(cells: int)
    | Row(row: int, cells: int)
    | Deletion(t: Tombstone)
    | End

  predicate RowsOnly(stack: seq<Fragment>) {
    forall i :: 0 <= i < |stack| ==> stack[i].Row?
  }

  // ---- What a collected partition is emitted as ----

  // The last tombstone goes first unless it ends before the row on top of the stack
  predicate DeletionFirst(tombs: seq<Tombstone>, stack: seq<Fragment>)
    requires RowsOnly(stack)
  {
    tombs != [] && (stack == [] || EndBound(Last(tombs).end) > StartBound(Last(stack).row))
  }

  function Emission(tombs: seq<Tombstone>, stack: seq<Fragment>): (r: seq<Fragment>)
    requires RowsOnly(stack)
    ensures |r| == |tombs| + |stack|
    decreases |tombs| + |stack|
  {
    if tombs == [] && stack == [] then []
    else if DeletionFirst(tombs, stack) then [Deletion(Last(tombs))] + Emission(Init(tombs), stack)
    else [Last(stack)] + Emission(tombs, Init(stack))
  }

  // Where a fragment lies: a row, or the end of a tombstone
  function Rank(f: Fragment): (p: int) {
    match f
    case Row(r, _) => 2 * r + 1
    case Deletion(t) => 2 * t.end
    case _ => 0
  }

  predicate Ascending(stack: seq<Fragment>) {
    RowsOnly(stack) && forall i, j :: 0 <= i < j < |stack| ==> stack[i].row < stack[j].row
  }

  predicate AllBelow(r: seq<Fragment>, p: int) {
    forall i :: 0 <= i < |r| ==> Rank(r[i]) < p
  }

  predicate Descending(r: seq<Fragment>) {
    forall i, j :: 0 <= i < j < |r| ==> Rank(r[i]) > Rank(r[j])
  }

  lemma Descends(f: Fragment, rest: seq<Fragment>, p: int)
    requires Descending(rest) && AllBelow(rest, Rank(f)) && Rank(f) < p
    ensures Descending([f] + rest) && AllBelow([f] + rest, p)
  {
  }

  // Rows and tombstones come in strictly descending order, tombstones ranked by their end
  lemma {:induction false} EmissionDescends(tombs: seq<Tombstone>, stack: seq<Fragment>, p: int)
    requires Ordered(tombs) && Ascending(stack)
    requires tombs != [] ==> 2 * Last(tombs).end < p
    requires stack != [] ==> 2 * Last(stack).row + 1 < p
    ensures Descending(Emission(tombs, stack)) && AllBelow(Emission(tombs, stack), p)
    decreases |tombs| + |stack|
  {
    if tombs == [] && stack == [] {
    } else if DeletionFirst(tombs, stack) {
      assert Ordered(Init(tombs));
      EmissionDescends(Init(tombs), stack, 2 * Last(tombs).end);
      Descends(Deletion(Last(tombs)), Emission(Init(tombs), stack), p);
    } else {
      assert Ascending(Init(stack));
      EmissionDescends(tombs, Init(stack), 2 * Last(stack).row + 1);
      Descends(Last(stack), Emission(tombs, Init(stack)), p);
    }
  }

  function AsRow(f: Fragment): (r: seq<Fragment>)
    ensures RowsOnly(r)
  {
    if f.Row? then [f] else []
  }

  function AsDeletion(f: Fragment): (r: seq<Tombstone>) {
    if f.Deletion? then [f.t] else []
  }

  function RowsIn(fs: seq<Fragment>): (r: seq<Fragment>)
    ensures RowsOnly(r)
  {
    if fs == [] then [] else AsRow(fs[0]) + RowsIn(fs[1..])
  }

  function DeletionsIn(fs: seq<Fragment>): (r: seq<Tombstone>) {
    if fs == [] then [] else AsDeletion(fs[0]) + DeletionsIn(fs[1..])
  }

  lemma InCons(f: Fragment, rest: seq<Fragment>)
    ensures RowsIn([f] + rest) == AsRow(f) + RowsIn(rest)
    ensures DeletionsIn([f] + rest) == AsDeletion(f) + DeletionsIn(rest)
  {
    assert ([f] + rest)[1..] == rest;
  }

  lemma {:induction false} InConcat(a: seq<Fragment>, b: seq<Fragment>)
    ensures RowsIn(a + b) == RowsIn(a) + RowsIn(b)
    ensures DeletionsIn(a + b) == DeletionsIn(a) + DeletionsIn(b)
    decreases |a|
  {
    if a == [] {
      assert a + b == b;
    } else {
      var f, rest := a[0], a[1..];
      assert a + b == [f] + (rest + b);
      InConcat(rest, b);
      InCons(f, rest + b);
      Associative(AsRow(f), RowsIn(rest), RowsIn(b));
      Associative(AsDeletion(f), DeletionsIn(rest), DeletionsIn(b));
    }
  }

  function Reverse<T>(s: seq<T>): (r: seq<T>)
    ensures |r| == |s|
    ensures forall i :: 0 <= i < |s| ==> r[i] == s[|s| - 1 - i]
  {
    if s == [] then [] else [Last(s)] + Reverse(Init(s))
  }

  // Every row and every tombstone is emitted once, in reverse
  lemma {:induction false} EmissionKeepsAll(tombs: seq<Tombstone>, stack: seq<Fragment>)
    requires RowsOnly(stack)
    ensures RowsIn(Emission(tombs, stack)) == Reverse(stack)
    ensures DeletionsIn(Emission(tombs, stack)) == Reverse(tombs)
    ensures forall f :: f in Emission(tombs, stack) ==> f.Row? || f.Deletion?
    decreases |tombs| + |stack|
  {
    if tombs == [] && stack == [] {
    } else if DeletionFirst(tombs, stack) {
      EmissionKeepsAll(Init(tombs), stack);
    } else {
      EmissionKeepsAll(tombs, Init(stack));
    }
  }

  // A tombstone comes before every row it covers
  lemma DeletionsComeFirst(tombs: seq<Tombstone>, stack: seq<Fragment>, i: nat, j: nat)
    requires Ordered(tombs) && Ascending(stack)
    requires i < |Emission(tombs, stack)| && j < |Emission(tombs, stack)|
    requires var r := Emission(tombs, stack); r[i].Deletion? && r[j].Row? && Covers(r[i].t, r[j].row)
    ensures i < j
  {
    var p := if tombs == [] then 0 else 2 * Last(tombs).end;
    var q := if stack == [] then 0 else 2 * Last(stack).row + 1;
    EmissionDescends(tombs, stack, 1 + if p < q then q else p);
  }

  // ---- What a stream is turned into ----

  // The list the tombstones of a partition end up in
  function Collected(ts: seq<Tombstone>): (r: seq<Tombstone>)
    decreases |ts|
  {
    if ts == [] then [] else Applied(Collected(Init(ts)), Last(ts).start, Last(ts).end, Last(ts).time)
  }

  lemma CollectedStep(c: seq<Tombstone>, ts: seq<Tombstone>, t: Tombstone, row: int)
    requires Ordered(c) && TimeAt(c, row) == TimeAt(ts, row) && t.start < t.end
    ensures Ordered(Applied(c, t.start, t.end, t.time))
    ensures TimeAt(Applied(c, t.start, t.end, t.time), row) == TimeAt(ts + [t], row)
  {
    AppliedOrdered(c, t.start, t.end, t.time);
    AppliedMeaning(c, t.start, t.end, t.time, row);
    TimeAtConcat(ts, [t], row);
  }

  // It deletes exactly what the tombstones delete
  lemma {:induction false} CollectedMeaning(ts: seq<Tombstone>, row: int)
    requires forall t :: t in ts ==> t.start < t.end
    ensures Ordered(Collected(ts)) && TimeAt(Collected(ts), row) == TimeAt(ts, row)
    decreases |ts|
  {
    if ts != [] {
      CollectedMeaning(Init(ts), row);
      CollectedStep(Collected(Init(ts)), Init(ts), Last(ts), row);
      assert ts == Init(ts) + [Last(ts)];
    }
  }

  // A partition as it is emitted at its end
  function Emitted(ts: seq<Tombstone>, stack: seq<Fragment>): (r: seq<Fragment>)
    requires RowsOnly(stack)
  {
    Emission(Collected(ts), stack) + [End]
  }

  // What is still to come, given the tombstones and rows read of the current partition
  function Expected(source: seq<Fragment>, ts: seq<Tombstone>, stack: seq<Fragment>): (r: seq<Fragment>)
    requires RowsOnly(stack)
  {
    if source == [] then []
    else match source[0]
      case Start(_) => [source[0]] + Expected(source[1..], ts, stack)
      case Static(_) => [source[0]] + Expected(source[1..], ts, stack)
      case Row(_, _) => Expected(source[1..], ts, stack + [source[0]])
      case Deletion(t) => Expected(source[1..], ts + [t], stack)
      case End => Emitted(ts, stack) + Expected(source[1..], [], [])
  }

  // A partition: its rows ascend, tombstones may come anywhere and overlap
  datatype Partition = Partition(key: int, static_: seq<Fragment>, body: seq<Fragment>)

  predicate ValidPartition(p: Partition) {
    && |p.static_| <= 1 && (forall f :: f in p.static_ ==> f.Static?)
    && (forall f :: f in p.body ==> f.Row? || (f.Deletion? && f.t.start < f.t.end))
    && Ascending(RowsIn(p.body))
  }

  function Stream(ps: seq<Partition>): (fs: seq<Fragment>) {
    if ps == [] then [] else [Start(ps[0].key)] + ps[0].static_ + ps[0].body + [End] + Stream(ps[1..])
  }

  function ReversedPartition(p: Partition): (r: seq<Fragment>) {
    [Start(p.key)] + p.static_ + Emitted(DeletionsIn(p.body), RowsIn(p.body))
  }

  function ReversedStream(ps: seq<Partition>): (r: seq<Fragment>) {
    if ps == [] then [] else ReversedPartition(ps[0]) + ReversedStream(ps[1..])
  }

  // One fragment at a time
  lemma ExpectedStep(f: Fragment, rest: seq<Fragment>, ts: seq<Tombstone>, stack: seq<Fragment>)
    requires RowsOnly(stack) && (f.Row? || f.Deletion?)
    ensures Expected([f] + rest, ts, stack) == Expected(rest, ts + AsDeletion(f), stack + AsRow(f))
  {
    assert ([f] + rest)[1..] == rest;
    assert f.Row? ==> ts + AsDeletion(f) == ts;
    assert f.Deletion? ==> stack + AsRow(f) == stack;
  }

  lemma ExpectedPassed(f: Fragment, rest: seq<Fragment>, ts: seq<Tombstone>, stack: seq<Fragment>)
    requires RowsOnly(stack) && (f.Start? || f.Static?)
    ensures Expected([f] + rest, ts, stack) == [f] + Expected(rest, ts, stack)
  {
    assert ([f] + rest)[1..] == rest;
  }

  lemma ExpectedEnd(rest: seq<Fragment>, ts: seq<Tombstone>, stack: seq<Fragment>)
    requires RowsOnly(stack)
    ensures Expected([End] + rest, ts, stack) == Emitted(ts, stack) + Expected(rest, [], [])
  {
    assert ([End] + rest)[1..] == rest;
  }

  lemma {:induction false} ExpectedBody(body: seq<Fragment>, more: seq<Fragment>, ts: seq<Tombstone>, stack: seq<Fragment>)
    requires RowsOnly(stack) && forall f :: f in body ==> f.Row? || f.Deletion?
    ensures Expected(body + more, ts, stack) == Expected(more, ts + DeletionsIn(body), stack + RowsIn(body))
    decreases |body|
  {
    if body == [] {
      assert body + more == more;
      assert stack + RowsIn(body) == stack && ts + DeletionsIn(body) == ts;
    } else {
      var f, rest := body[0], body[1..];
      assert body + more == [f] + (rest + more);
      ExpectedStep(f, rest + more, ts, stack);
      ExpectedBody(rest, more, ts + AsDeletion(f), stack + AsRow(f));
      Associative(stack, AsRow(f), RowsIn(rest));
      Associative(ts, AsDeletion(f), DeletionsIn(rest));
    }
  }

  lemma ExpectedHead(p: Partition, tail: seq<Fragment>)
    requires |p.static_| <= 1 && forall f :: f in p.static_ ==> f.Static?
    ensures Expected([Start(p.key)] + (p.static_ + tail), [], []) == [Start(p.key)] + p.static_ + Expected(tail, [], [])
  {
    ExpectedPassed(Start(p.key), p.static_ + tail, [], []);
    if p.static_ == [] {
      assert p.static_ + tail == tail;
    } else {
      assert p.static_ == [p.static_[0]];
      ExpectedPassed(p.static_[0], tail, [], []);
    }
  }

  lemma PartitionStream(a: seq<Fragment>, b: seq<Fragment>, c: seq<Fragment>, d: seq<Fragment>, e: seq<Fragment>)
    ensures a + b + c + d + e == a + (b + (c + (d + e)))
  {
  }

  lemma ExpectedPartition(p: Partition, more: seq<Fragment>)
    requires ValidPartition(p)
    ensures Expected([Start(p.key)] + p.static_ + p.body + [End] + more, [], [])
         == ReversedPartition(p) + Expected(more, [], [])
  {
    var tail := p.body + ([End] + more);
    PartitionStream([Start(p.key)], p.static_, p.body, [End], more);
    ExpectedHead(p, tail);
    ExpectedBody(p.body, [End] + more, [], []);
    assert [] + RowsIn(p.body) == RowsIn(p.body) && [] + DeletionsIn(p.body) == DeletionsIn(p.body);
    ExpectedEnd(more, DeletionsIn(p.body), RowsIn(p.body));
    Associative([Start(p.key)] + p.static_, Emitted(DeletionsIn(p.body), RowsIn(p.body)), Expected(more, [], []));
  }

  // Whole partitions stay in order; each is reversed
  lemma {:induction false} ExpectedIsReversed(ps: seq<Partition>)
    requires forall p :: p in ps ==> ValidPartition(p)
    ensures Expected(Stream(ps), [], []) == ReversedStream(ps)
    decreases |ps|
  {
    if ps != [] {
      ExpectedPartition(ps[0], Stream(ps[1..]));
      ExpectedIsReversed(ps[1..]);
    }
  }

  // ---- What a reversed partition says ----

  lemma {:induction false} TimeAtReverse(ts: seq<Tombstone>, row: int)
    ensures TimeAt(Reverse(ts), row) == TimeAt(ts, row)
    decreases |ts|
  {
    if ts != [] {
      TimeAtReverse(Init(ts), row);
      assert ts == Init(ts) + [Last(ts)];
      TimeAtConcat(Init(ts), [Last(ts)], row);
    }
  }

  lemma {:induction false} DeletionsValid(body: seq<Fragment>)
    requires forall f :: f in body && f.Deletion? ==> f.t.start < f.t.end
    ensures forall t :: t in DeletionsIn(body) ==> t.start < t.end
    decreases |body|
  {
    if body != [] {
      DeletionsValid(body[1..]);
    }
  }

  lemma NothingInHead(p: Partition)
    requires |p.static_| <= 1 && forall f :: f in p.static_ ==> f.Static?
    ensures RowsIn([Start(p.key)] + p.static_) == [] && DeletionsIn([Start(p.key)] + p.static_) == []
  {
    InCons(Start(p.key), p.static_);
    if p.static_ != [] {
      assert p.static_ == [p.static_[0]] + [] && p.static_[0] in p.static_;
      InCons(p.static_[0], []);
    }
  }

  lemma InReversed(head: seq<Fragment>, e: seq<Fragment>)
    requires RowsIn(head) == [] && DeletionsIn(head) == []
    ensures RowsIn(head + (e + [End])) == RowsIn(e) && DeletionsIn(head + (e + [End])) == DeletionsIn(e)
  {
    InConcat(head, e + [End]);
    InConcat(e, [End]);
  }

  // The same rows, the other way round, and the same deletions
  lemma ReversedMeaning(p: Partition, row: int)
    requires ValidPartition(p)
    ensures RowsIn(ReversedPartition(p)) == Reverse(RowsIn(p.body))
    ensures TimeAt(DeletionsIn(ReversedPartition(p)), row) == TimeAt(DeletionsIn(p.body), row)
  {
    var list := Collected(DeletionsIn(p.body));
    DeletionsValid(p.body);
    CollectedMeaning(DeletionsIn(p.body), row);
    EmissionKeepsAll(list, RowsIn(p.body));
    TimeAtReverse(list, row);
    NothingInHead(p);
    InReversed([Start(p.key)] + p.static_, Emission(list, RowsIn(p.body)));
  }

  // ---- The reader ----

  function Size(usage: Fragment -> nat, fs: seq<Fragment>): (n: nat) {
    if fs == [] then 0 else usage(fs[0]) + Size(usage, fs[1..])
  }

  lemma {:induction false} SizeAppend(usage: Fragment -> nat, fs: seq<Fragment>, f: Fragment)
    ensures Size(usage, fs + [f]) == Size(usage, fs) + usage(f)
    decreases |fs|
  {
    if fs == [] {
      assert fs + [f] == [f];
    } else {
      assert (fs + [f])[1..] == fs[1..] + [f];
      SizeAppend(usage, fs[1..], f);
    }
  }

  // What was read of the current partition and, once its end was reached, what is left to emit
  datatype Progress = Progress(source: seq<Fragment>, ts: seq<Tombstone>, tombs: seq<Tombstone>, stack: seq<Fragment>, ended: bool)

  predicate ValidProgress(p: Progress) {
    RowsOnly(p.stack) && (!p.ended ==> p.tombs == Collected(p.ts))
  }

  function ToCome(p: Progress): (r: seq<Fragment>)
    requires ValidProgress(p)
  {
    if p.ended then Emission(p.tombs, p.stack) + [End] + Expected(p.source, [], [])
    else Expected(p.source, p.ts, p.stack)
  }

  // From b0 and what was collected then, to b and what is left of it
  predicate Emitting(b0: seq<Fragment>, tombs0: seq<Tombstone>, stack0: seq<Fragment>,
                     b: seq<Fragment>, tombs: seq<Tombstone>, stack: seq<Fragment>) {
    && RowsOnly(stack0) && RowsOnly(stack) && b0 <= b
    && b + Emission(tombs, stack) == b0 + Emission(tombs0, stack0)
  }

  lemma EmittingNext(b0: seq<Fragment>, tombs0: seq<Tombstone>, stack0: seq<Fragment>,
                     b: seq<Fragment>, tombs: seq<Tombstone>, stack: seq<Fragment>)
    requires Emitting(b0, tombs0, stack0, b, tombs, stack) && (tombs != [] || stack != [])
    ensures if DeletionFirst(tombs, stack)
            then Emitting(b0, tombs0, stack0, b + [Deletion(Last(tombs))], Init(tombs), stack)
            else Emitting(b0, tombs0, stack0, b + [Last(stack)], tombs, Init(stack))
  {
    if DeletionFirst(tombs, stack) {
      Associative(b, [Deletion(Last(tombs))], Emission(Init(tombs), stack));
    } else {
      Associative(b, [Last(stack)], Emission(tombs, Init(stack)));
    }
  }

  lemma EmittedSome(d: seq<Fragment>, b0: seq<Fragment>, p: Progress, b: seq<Fragment>, q: Progress)
    requires ValidProgress(p) && p.ended && Emitting(b0, p.tombs, p.stack, b, q.tombs, q.stack)
    requires q == p.(tombs := q.tombs, stack := q.stack)
    ensures d + b + ToCome(q) == d + b0 + ToCome(p)
  {
    var rest := [End] + Expected(p.source, [], []);
    Regroup(d, b, Emission(q.tombs, q.stack), rest);
    Regroup(d, b0, Emission(p.tombs, p.stack), rest);
    assert ToCome(q) == Emission(q.tombs, q.stack) + rest;
    assert ToCome(p) == Emission(p.tombs, p.stack) + rest;
  }

  lemma EmittedAll(d: seq<Fragment>, b0: seq<Fragment>, p: Progress, b: seq<Fragment>)
    requires ValidProgress(p) && p.ended && Emitting(b0, p.tombs, p.stack, b, [], [])
    ensures d + (b + [End]) + ToCome(Progress(p.source, [], [], [], false)) == d + b0 + ToCome(p)
  {
    EmittedSome(d, b0, p, b, p.(tombs := [], stack := []));
    var rest := Expected(p.source, [], []);
    assert ToCome(p.(tombs := [], stack := [])) == [End] + rest;
    Regroup(d, b, [End], rest);
  }

  // A fragment taken from the source is passed on, or kept for the end of the partition
  function PassedOn(f: Fragment): (r: seq<Fragment>) {
    if f.Start? || f.Static? then [f] else []
  }

  function Absorbed(p: Progress, f: Fragment): (q: Progress) {
    match f
    case Row(_, _) => p.(stack := p.stack + [f])
    case Deletion(t) => p.(ts := p.ts + [t], tombs := Applied(p.tombs, t.start, t.end, t.time))
    case End => p.(ended := true)
    case _ => p
  }

  // What was delivered, what is buffered and what is to come
  ghost function Total(d: seq<Fragment>, b: seq<Fragment>, p: Progress): (r: seq<Fragment>)
    requires ValidProgress(p)
  {
    d + b + ToCome(p)
  }

  lemma TakenOne(d: seq<Fragment>, b: seq<Fragment>, p: Progress)
    requires ValidProgress(p) && !p.ended && p.source != []
    ensures var f := p.source[0]; var q := Absorbed(p.(source := p.source[1..]), f);
      ValidProgress(q) && Total(d, b, p) == Total(d, b + PassedOn(f), q)
  {
    var f, rest := p.source[0], p.source[1..];
    var q := Absorbed(p.(source := rest), f);
    assert p.source == [f] + rest;
    if f.Deletion? {
      assert Init(p.ts + [f.t]) == p.ts;
    }
    assert ToCome(p) == PassedOn(f) + ToCome(q);
    Regroup(d, b, PassedOn(f), ToCome(q));
  }

  lemma OrderedPrefix(list: seq<Tombstone>, prefix: seq<Tombstone>)
    requires Ordered(list) && prefix <= list
    ensures Ordered(prefix)
  {
  }

  lemma Regroup(a: seq<Fragment>, b: seq<Fragment>, c: seq<Fragment>, e: seq<Fragment>)
    ensures a + b + (c + e) == a + (b + c) + e
  {
  }

  class Reader {
    const usage: Fragment -> nat     // memory_usage()
    const limit: nat                 // max_buffer_size_in_bytes
    var source: seq<Fragment>        // what the source has yet to deliver,
    var buffered: nat                // and how much of it is in the source's buffer
    var tombs: TombstoneList
    var stack: seq<Fragment>
    var partitionEnd: bool
    var buffer: seq<Fragment>
    var bufferSize: nat
    var endOfStream: bool
    ghost var ts: seq<Tombstone>       // the tombstones read of the current partition
    ghost var delivered: seq<Fragment>

    ghost function Here(): (p: Progress)
      reads this, tombs
    {
      Progress(source, ts, tombs.tombstones, stack, partitionEnd)
    }

    ghost predicate Valid()
      reads this, tombs
    {
      && limit > 0 && buffered <= |source| && bufferSize == Size(usage, buffer)
      && ValidProgress(Here())
      && Ordered(tombs.tombstones)
      && (forall f :: f in source && f.Deletion? ==> f.t.start < f.t.end)
      && (endOfStream ==> source == [] && !partitionEnd)
    }

    // Everything emitted and everything to come
    ghost function Whole(): (r: seq<Fragment>)
      requires ValidProgress(Here())
      reads this, tombs
    {
      Total(delivered, buffer, Here())
    }

    constructor (fs: seq<Fragment>, usage_: Fragment -> nat, limit_: nat)
      requires limit_ > 0 && forall f :: f in fs && f.Deletion? ==> f.t.start < f.t.end
      ensures Valid() && Whole() == Expected(fs, [], []) && delivered == []
      ensures fresh(tombs)
    {
      usage, limit := usage_, limit_;
      source, buffered := fs, 0;
      tombs := new TombstoneList();
      stack, partitionEnd, buffer, bufferSize, endOfStream := [], false, [], 0, false;
      ts, delivered := [], [];
    }

    predicate Full()
      reads this
    {
      bufferSize >= limit
    }

    method Push(f: Fragment)
      requires bufferSize == Size(usage, buffer)
      modifies `buffer, `bufferSize
      ensures buffer == old(buffer) + [f] && bufferSize == Size(usage, buffer)
    {
      SizeAppend(usage, buffer, f);
      buffer := buffer + [f];
      bufferSize := bufferSize + usage(f);
    }

    method EmitTombstone()
      requires bufferSize == Size(usage, buffer) && tombs.tombstones != []
      modifies `buffer, `bufferSize, tombs
      ensures bufferSize == Size(usage, buffer)
      ensures buffer == old(buffer) + [Deletion(Last(old(tombs.tombstones)))]
      ensures tombs.tombstones == Init(old(tombs.tombstones))
    {
      var n := |tombs.tombstones| - 1;
      var t := tombs.tombstones[n];
      tombs.tombstones := tombs.tombstones[..n];
      Push(Deletion(t));
    }

    // The row on top of the stack, or the last tombstone if it does not end before that row
    method EmitRowOrTombstone()
      requires bufferSize == Size(usage, buffer) && RowsOnly(stack) && stack != []
      modifies `buffer, `bufferSize, `stack, tombs
      ensures bufferSize == Size(usage, buffer)
      ensures DeletionFirst(old(tombs.tombstones), old(stack)) ==>
        && buffer == old(buffer) + [Deletion(Last(old(tombs.tombstones)))]
        && tombs.tombstones == Init(old(tombs.tombstones)) && stack == old(stack)
      ensures !DeletionFirst(old(tombs.tombstones), old(stack)) ==>
        && buffer == old(buffer) + [Last(old(stack))]
        && tombs.tombstones == old(tombs.tombstones) && stack == Init(old(stack))
    {
      var mf := stack[|stack| - 1];
      var list := tombs.tombstones;
      if list != [] && !(EndBound(list[|list| - 1].end) < StartBound(mf.row)) {
        EmitTombstone();
      } else {
        Push(mf);
        stack := stack[..|stack| - 1];
      }
    }

    // The collected rows, from the last to the first, and the tombstones due before them, while there is room
    method EmitRows()
      requires bufferSize == Size(usage, buffer) && RowsOnly(stack)
      modifies `buffer, `bufferSize, `stack, tombs
      ensures bufferSize == Size(usage, buffer) && tombs.tombstones <= old(tombs.tombstones)
      ensures Emitting(old(buffer), old(tombs.tombstones), old(stack), buffer, tombs.tombstones, stack)
      ensures Full() || stack == []
    {
      while stack != [] && !Full()
        invariant bufferSize == Size(usage, buffer) && tombs.tombstones <= old(tombs.tombstones)
        invariant Emitting(old(buffer), old(tombs.tombstones), old(stack), buffer, tombs.tombstones, stack)
        decreases |tombs.tombstones| + |stack|
      {
        EmittingNext(old(buffer), old(tombs.tombstones), old(stack), buffer, tombs.tombstones, stack);
        EmitRowOrTombstone();
      }
    }

    // The tombstones before the first row, likewise
    method EmitTombstones()
      requires bufferSize == Size(usage, buffer) && RowsOnly(stack) && (Full() || stack == [])
      modifies `buffer, `bufferSize, tombs
      ensures bufferSize == Size(usage, buffer) && tombs.tombstones <= old(tombs.tombstones)
      ensures Emitting(old(buffer), old(tombs.tombstones), stack, buffer, tombs.tombstones, stack)
      ensures Full() || (tombs.tombstones == [] && stack == [])
    {
      while tombs.tombstones != [] && !Full()
        invariant bufferSize == Size(usage, buffer) && tombs.tombstones <= old(tombs.tombstones)
        invariant Full() || stack == []
        invariant Emitting(old(buffer), old(tombs.tombstones), stack, buffer, tombs.tombstones, stack)
        decreases |tombs.tombstones|
      {
        EmittingNext(old(buffer), old(tombs.tombstones), stack, buffer, tombs.tombstones, stack);
        EmitTombstone();
      }
    }

    method EmitCollected()
      requires bufferSize == Size(usage, buffer) && RowsOnly(stack)
      modifies `buffer, `bufferSize, `stack, tombs
      ensures bufferSize == Size(usage, buffer) && tombs.tombstones <= old(tombs.tombstones)
      ensures Emitting(old(buffer), old(tombs.tombstones), old(stack), buffer, tombs.tombstones, stack)
      ensures Full() || (tombs.tombstones == [] && stack == [])
    {
      EmitRows();
      EmitTombstones();
    }

    // Returns whether to stop, the buffer being full; the partition's end goes last
    method EmitPartition() returns (stop: bool)
      requires Valid() && partitionEnd
      modifies `buffer, `bufferSize, `stack, `partitionEnd, `ts, tombs
      ensures Valid() && Whole() == old(Whole())
      ensures stop <==> partitionEnd
      ensures stop ==> Full()
      ensures old(buffer) <= buffer && (!old(Full()) ==> |buffer| > |old(buffer)|)
    {
      ghost var b, p := buffer, Here();
      EmitCollected();
      OrderedPrefix(p.tombs, tombs.tombstones);
      if Full() {
        EmittedSome(delivered, b, p, buffer, Here());
        assert |buffer| == |b| ==> buffer == b;
        return true;
      }
      EmittedAll(delivered, b, p, buffer);
      Push(End);
      partitionEnd, ts := false, [];
      return false;
    }

    method CollectTombstone(t: Tombstone)
      requires Ordered(tombs.tombstones) && t.start < t.end
      modifies tombs
      ensures tombs.tombstones == Applied(old(tombs.tombstones), t.start, t.end, t.time) && Ordered(tombs.tombstones)
    {
      tombs.Apply(t.start, t.end, t.time);
    }

    method Absorb() returns (mf: Fragment)
      requires Valid() && !partitionEnd && buffered > 0
      modifies this, tombs
      ensures mf == old(source)[0] && Here() == Absorbed(old(Here()).(source := old(source)[1..]), mf)
      ensures buffer == old(buffer) + PassedOn(mf) && bufferSize == Size(usage, buffer)
      ensures Ordered(tombs.tombstones) && buffered == old(buffered) - 1
      ensures unchanged(`delivered, `endOfStream, `tombs)
    {
      mf := source[0];
      source, buffered := source[1..], buffered - 1;
      Collect(mf);
    }

    // Takes one fragment from the source
    method Take() returns (mf: Fragment)
      requires Valid() && !partitionEnd && buffered > 0
      modifies this, tombs
      ensures Valid() && Whole() == old(Whole()) && unchanged(`delivered, `endOfStream, `tombs)
      ensures source == old(source)[1..] && partitionEnd == mf.End?
    {
      TakenOne(delivered, buffer, Here());
      mf := Absorb();
    }

    // and emits the partition once it is complete
    method Consume() returns (stop: bool)
      requires Valid() && !partitionEnd && buffered > 0 && !Full()
      modifies this, tombs
      ensures Valid() && Whole() == old(Whole()) && unchanged(`delivered, `endOfStream, `tombs)
      ensures source == old(source)[1..]
      ensures stop <==> partitionEnd
      ensures stop ==> Full()
    {
      var mf := Take();
      stop := false;
      if mf.End? {
        stop := EmitPartition();
      }
    }

    method Collect(mf: Fragment)
      requires bufferSize == Size(usage, buffer) && Ordered(tombs.tombstones)
      requires mf.Deletion? ==> mf.t.start < mf.t.end
      modifies `buffer, `bufferSize, `stack, `partitionEnd, `ts, tombs
      ensures bufferSize == Size(usage, buffer) && Ordered(tombs.tombstones)
      ensures buffer == old(buffer) + PassedOn(mf) && Here() == Absorbed(old(Here()), mf)
    {
      if mf.Start? || mf.Static? {
        Push(mf);
      } else if mf.End? {
        partitionEnd := true;
      } else if mf.Deletion? {
        CollectTombstone(mf.t);
        ts := ts + [mf.t];
      } else {
        stack := stack + [mf];
      }
    }

    // Reads on until the buffer is full or the source has nothing buffered; asks the source for more in that
    // case (it then buffers at least one fragment), and notices the end of the stream
    method ConsumeFromSource(more: nat) returns (stop: bool)
      requires Valid() && !partitionEnd && !endOfStream
      modifies this, tombs
      ensures Valid() && Whole() == old(Whole()) && unchanged(`delivered, `tombs)
      ensures stop ==> Full() || endOfStream
      ensures !stop ==> !partitionEnd && !endOfStream
      ensures !stop ==> |source| < |old(source)| || (source == old(source) && old(buffered) == 0 && buffered > 0)
    {
      if buffered == 0 {
        if source == [] {
          endOfStream := true;
          return true;
        }
        buffered := if more < |source| then more + 1 else |source|;
        return false;
      }
      stop := false;
      while buffered > 0 && !Full()
        invariant Valid() && Whole() == old(Whole()) && unchanged(`delivered, `tombs, `endOfStream)
        invariant !partitionEnd && !stop
        invariant |source| < |old(source)| || (source == old(source) && buffered == old(buffered))
        decreases |source|
      {
        stop := Consume();
        if stop {
          return;
        }
      }
      return Full();
    }

    // fill_buffer(); refills tells how much the source buffers each time it is asked for more
    method FillBuffer(refills: nat -> nat)
      requires Valid() && !endOfStream
      modifies this, tombs
      ensures Valid() && Whole() == old(Whole()) && unchanged(`delivered, `tombs)
      ensures Full() || endOfStream
    {
      var n := 0;
      while true
        invariant Valid() && Whole() == old(Whole()) && unchanged(`delivered, `tombs) && !endOfStream
        decreases |source|, partitionEnd, buffered == 0
      {
        if partitionEnd {
          var stop := EmitPartition();
          if stop {
            return;
          }
        }
        var stop := ConsumeFromSource(refills(n));
        if stop {
          return;
        }
        n := n + 1;
      }
    }

    // The next fragment, if any
    method Next(refills: nat -> nat) returns (f: Option<Fragment>)
      requires Valid()
      modifies this, tombs
      ensures Valid() && Whole() == old(Whole()) && unchanged(`tombs)
      ensures f == None ==> delivered == old(delivered) == Whole()
      ensures f.Some? ==> delivered == old(delivered) + [f.value]
    {
      if buffer == [] && !endOfStream {
        FillBuffer(refills);
      }
      if buffer == [] {
        return None;
      }
      f := Some(buffer[0]);
      assert delivered + buffer == delivered + [buffer[0]] + buffer[1..];
      bufferSize := bufferSize - usage(buffer[0]);
      delivered := delivered + [buffer[0]];
      buffer := buffer[1..];
    }
  }

  // Whatever the buffer sizes on the way, reading partitions to the end gives each of them reversed
  method ReadAll(ps: seq<Partition>, usage: Fragment -> nat, limit: nat, refills: nat -> nat) returns (out: seq<Fragment>)
    requires limit > 0 && forall p :: p in ps ==> ValidPartition(p)
    ensures out == ReversedStream(ps)
  {
    var fs := Stream(ps);
    ValidDeletions(ps);
    ExpectedIsReversed(ps);
    var r := new Reader(fs, usage, limit);
    out := [];
    while true
      invariant fresh(r) && fresh(r.tombs) && r.Valid() && r.Whole() == ReversedStream(ps) && out == r.delivered
      decreases |r.Whole()| - |r.delivered|
    {
      var f := r.Next(refills);
      if f == None {
        return;
      }
      out := out + [f.value];
    }
  }

  lemma {:induction false} ValidDeletions(ps: seq<Partition>)
    requires forall p :: p in ps ==> ValidPartition(p)
    ensures forall f :: f in Stream(ps) && f.Deletion? ==> f.t.start < f.t.end
    decreases |ps|
  {
    if ps != [] {
      ValidDeletions(ps[1..]);
      var p := ps[0];
      assert ValidPartition(p);
      forall f | f in Stream(ps) && f.Deletion? ensures f.t.start < f.t.end {
        assert f in [Start(p.key)] || f in p.static_ || f in p.body || f in [End] || f in Stream(ps[1..]);
      }
    }
  }
}
