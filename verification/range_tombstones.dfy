/**
  The list of range tombstones of a partition: ordered and non-overlapping, whatever was applied to it.

  A tombstone covers the rows between two cuts.  Cut c lies between the rows of slots c-1 and c; the two
  bounds that touch there are the end bound of what lies before it and the start bound of what follows,
  adjacent to each other and inverses of each other.
*/
module RangeTombstones {
  import opened Sequences

  // Bounds at a cut, in bound_view's order
  function EndBound(cut: int): (b: int) {
    2 * cut
  }

  function StartBound(cut: int): (b: int) {
    2 * cut + 1
  }

  // range_tombstone; `time` ranks the tombstone, 0 being none
  datatype Tombstone = Tombstone(start: int, end: int, time: nat)

  predicate Covers(t: Tombstone, row: int) {
    t.start <= row < t.end
  }

  // Ordered, non-empty and not overlapping
  predicate Ordered(list: seq<Tombstone>) {
    && (forall i :: 0 <= i < |list| ==> list[i].start < list[i].end)
    && (forall i, j :: 0 <= i < j < |list| ==> list[i].end <= list[j].start)
  }

  // The same, one after the other, none before `cut`
  predicate Chained(list: seq<Tombstone>, cut: int) {
    list == [] || (cut <= list[0].start < list[0].end && Chained(list[1..], list[0].end))
  }

  lemma {:induction false} ChainedIsOrdered(list: seq<Tombstone>, cut: int)
    requires Chained(list, cut)
    ensures Ordered(list) && forall i :: 0 <= i < |list| ==> cut <= list[i].start
    decreases |list|
  {
    if list != [] {
      var rest := list[1..];
      ChainedIsOrdered(rest, list[0].end);
      forall i, j | 0 <= i < j < |list| ensures list[i].end <= list[j].start {
        assert list[j] == rest[j - 1];
        assert i > 0 ==> list[i] == rest[i - 1];
      }
    }
  }

  lemma {:induction false} OrderedIsChained(list: seq<Tombstone>, cut: int)
    requires Ordered(list) && (list != [] ==> cut <= list[0].start)
    ensures Chained(list, cut)
    decreases |list|
  {
    if list != [] {
      OrderedIsChained(list[1..], list[0].end);
    }
  }

  lemma {:induction false} ChainedLater(list: seq<Tombstone>, cut: int, later: int)
    requires Chained(list, cut) && (list == [] || later <= list[0].start)
    ensures Chained(list, later)
  {
  }

  // The end of the last one, at least `cut`
  function Reach(list: seq<Tombstone>, cut: int): (c: int) {
    if list == [] then cut else list[|list| - 1].end
  }

  lemma {:induction false} ChainedConcat(a: seq<Tombstone>, b: seq<Tombstone>, cut: int)
    ensures Chained(a + b, cut) <==> Chained(a, cut) && Chained(b, Reach(a, cut))
    decreases |a|
  {
    if a == [] {
      assert a + b == b;
    } else {
      assert (a + b)[1..] == a[1..] + b;
      ChainedConcat(a[1..], b, a[0].end);
    }
  }

  function Max(a: nat, b: nat): (m: nat) {
    if a < b then b else a
  }

  function TimeOf(t: Tombstone, row: int): (time: nat) {
    if Covers(t, row) then t.time else 0
  }

  // What deletes a row: the newest tombstone that covers it
  function TimeAt(list: seq<Tombstone>, row: int): (time: nat) {
    if list == [] then 0 else Max(TimeOf(list[0], row), TimeAt(list[1..], row))
  }

  lemma {:induction false} TimeAtConcat(a: seq<Tombstone>, b: seq<Tombstone>, row: int)
    ensures TimeAt(a + b, row) == Max(TimeAt(a, row), TimeAt(b, row))
    decreases |a|
  {
    if a == [] {
      assert a + b == b;
    } else {
      assert (a + b)[1..] == a[1..] + b;
      TimeAtConcat(a[1..], b, row);
    }
  }

  // ---- insert_from() ----

  // What the loop makes of the tombstones from `it` on and the tombstone to insert
  function Inserted(rest: seq<Tombstone>, s: int, e: int, time: nat): (r: seq<Tombstone>)
    decreases |rest|
  {
    if rest == [] then [Tombstone(s, e, time)]
    else
      var it := rest[0];
      if e <= s then rest
      else if e <= it.start then
        if it.time == time && e == it.start then [Tombstone(s, it.end, time)] + rest[1..]
        else [Tombstone(s, e, time)] + rest
      else if time == it.time then
        Inserted(rest[1..], if it.start < s then it.start else s, if e < it.end then it.end else e, time)
      else if time > it.time then
        if e < it.end then Kept(it, s) + ([Tombstone(s, e, time), Tombstone(e, it.end, it.time)] + rest[1..])
        else Kept(it, s) + Inserted(rest[1..], s, e, time)
      else
        if it.end < e then Ahead(it, s, time) + ([it] + Inserted(rest[1..], it.end, e, time))
        else Ahead(it, s, time) + rest
  }

  // What stays of an older tombstone before the new one starts
  function Kept(it: Tombstone, s: int): (r: seq<Tombstone>) {
    if it.start < s then [Tombstone(it.start, s, it.time)] else []
  }

  // What the new tombstone covers before a newer one starts
  function Ahead(it: Tombstone, s: int, time: nat): (r: seq<Tombstone>) {
    if s < it.start then [Tombstone(s, it.start, time)] else []
  }

  lemma {:induction false} InsertedChained(rest: seq<Tombstone>, s: int, e: int, time: nat, cut: int)
    requires Chained(rest, cut) && cut <= s < e && (rest != [] ==> s < rest[0].end)
    ensures Chained(Inserted(rest, s, e, time), cut)
    decreases |rest|
  {
    if rest != [] {
      var it, tail := rest[0], rest[1..];
      if e <= it.start {
      } else if time == it.time {
        ChainedLater(tail, it.end, cut);
        InsertedChained(tail, if it.start < s then it.start else s, if e < it.end then it.end else e, time, cut);
      } else if time > it.time {
        if e < it.end {
          var new_ := [Tombstone(s, e, time), Tombstone(e, it.end, it.time)];
          ChainedConcat(Kept(it, s), new_ + tail, cut);
          ChainedConcat(new_, tail, s);
        } else {
          ChainedLater(tail, it.end, s);
          InsertedChained(tail, s, e, time, s);
          ChainedConcat(Kept(it, s), Inserted(tail, s, e, time), cut);
        }
      } else {
        if it.end < e {
          InsertedChained(tail, it.end, e, time, it.end);
          ChainedConcat(Ahead(it, s, time), [it] + Inserted(tail, it.end, e, time), cut);
        } else {
          ChainedConcat(Ahead(it, s, time), rest, cut);
        }
      }
    }
  }

  // Tombstones from a cut on do not cover the rows before it
  lemma {:induction false} TimeBefore(list: seq<Tombstone>, cut: int, row: int)
    requires Chained(list, cut) && row < cut
    ensures TimeAt(list, row) == 0
    decreases |list|
  {
    if list != [] {
      TimeBefore(list[1..], list[0].end, row);
    }
  }

  lemma OverwrittenTime(it: Tombstone, tail: seq<Tombstone>, s: int, e: int, time: nat, row: int)
    requires it.start < e < it.end && s < e && it.time < time && (row < it.end ==> TimeAt(tail, row) == 0)
    ensures TimeAt(Kept(it, s) + ([Tombstone(s, e, time), Tombstone(e, it.end, it.time)] + tail), row)
         == Max(TimeAt([it] + tail, row), TimeOf(Tombstone(s, e, time), row))
  {
    var x, y := [Tombstone(s, e, time)], [Tombstone(e, it.end, it.time)];
    assert x + y == [Tombstone(s, e, time), Tombstone(e, it.end, it.time)];
    TimeAtConcat(Kept(it, s), x + y + tail, row);
    TimeAtConcat(x + y, tail, row);
    TimeAtConcat(x, y, row);
    TimeAtConcat([it], tail, row);
  }

  lemma ReplacedTime(it: Tombstone, tail: seq<Tombstone>, more: seq<Tombstone>, s: int, e: int, time: nat, row: int)
    requires it.start < it.end <= e && s < it.end && it.time < time && (row < it.end ==> TimeAt(tail, row) == 0)
    requires TimeAt(more, row) == Max(TimeAt(tail, row), TimeOf(Tombstone(s, e, time), row))
    ensures TimeAt(Kept(it, s) + more, row) == Max(TimeAt([it] + tail, row), TimeOf(Tombstone(s, e, time), row))
  {
    TimeAtConcat(Kept(it, s), more, row);
    TimeAtConcat([it], tail, row);
  }

  lemma AroundTime(it: Tombstone, tail: seq<Tombstone>, more: seq<Tombstone>, s: int, e: int, time: nat, row: int)
    requires it.start < it.end < e && s < it.end && time < it.time && (row < it.end ==> TimeAt(tail, row) == 0)
    requires TimeAt(more, row) == Max(TimeAt(tail, row), TimeOf(Tombstone(it.end, e, time), row))
    ensures TimeAt(Ahead(it, s, time) + ([it] + more), row)
         == Max(TimeAt([it] + tail, row), TimeOf(Tombstone(s, e, time), row))
  {
    TimeAtConcat(Ahead(it, s, time), [it] + more, row);
    TimeAtConcat([it], more, row);
    TimeAtConcat([it], tail, row);
  }

  // Every row is deleted by the newest of what deleted it before and the inserted tombstone
  lemma {:induction false} InsertedMeaning(rest: seq<Tombstone>, s: int, e: int, time: nat, cut: int, row: int)
    requires Chained(rest, cut) && cut <= s < e && (rest != [] ==> s < rest[0].end)
    ensures TimeAt(Inserted(rest, s, e, time), row) == Max(TimeAt(rest, row), TimeOf(Tombstone(s, e, time), row))
    decreases |rest|
  {
    if rest != [] {
      var it, tail := rest[0], rest[1..];
      assert rest == [it] + tail;
      if row < it.end {
        TimeBefore(tail, it.end, row);
      }
      if e <= it.start {
        assert ([Tombstone(s, e, time)] + rest)[1..] == rest;
      } else if time == it.time {
        ChainedLater(tail, it.end, cut);
        InsertedMeaning(tail, if it.start < s then it.start else s, if e < it.end then it.end else e, time, cut, row);
      } else if time > it.time && e < it.end {
        OverwrittenTime(it, tail, s, e, time, row);
      } else if time > it.time {
        ChainedLater(tail, it.end, s);
        InsertedMeaning(tail, s, e, time, s, row);
        ReplacedTime(it, tail, Inserted(tail, s, e, time), s, e, time, row);
      } else if it.end < e {
        InsertedMeaning(tail, it.end, e, time, it.end, row);
        AroundTime(it, tail, Inserted(tail, it.end, e, time), s, e, time, row);
      } else {
        TimeAtConcat(Ahead(it, s, time), rest, row);
      }
    }
  }

  // ---- apply() ----

  // The first tombstone that ends after cut s
  function FirstAfter(list: seq<Tombstone>, s: int): (i: nat)
    ensures i <= |list|
  {
    if list == [] || s < list[0].end then 0 else 1 + FirstAfter(list[1..], s)
  }

  // Between what ends by s and what ends later; joins a tombstone of the same time that ends right at s
  function Placed(a: seq<Tombstone>, b: seq<Tombstone>, s: int, e: int, time: nat): (r: seq<Tombstone>) {
    if a != [] && a[|a| - 1].time == time && a[|a| - 1].end == s
    then a[..|a| - 1] + Inserted(b, a[|a| - 1].start, e, time)
    else a + Inserted(b, s, e, time)
  }

  function Applied(list: seq<Tombstone>, s: int, e: int, time: nat): (r: seq<Tombstone>) {
    var i := FirstAfter(list, s);
    Placed(list[..i], list[i..], s, e, time)
  }

  lemma {:induction false} FirstAfterSplits(list: seq<Tombstone>, s: int, cut: int)
    requires Chained(list, cut) && cut <= s
    ensures var i := FirstAfter(list, s);
      && Reach(list[..i], cut) <= s && (i < |list| ==> s < list[i].end)
      && (forall j :: 0 <= j < i ==> list[j].end <= s)
    decreases |list|
  {
    if list != [] && list[0].end <= s {
      FirstAfterSplits(list[1..], s, list[0].end);
      var i := FirstAfter(list[1..], s);
      assert list[..i + 1][1..] == list[1..][..i];
    }
  }

  lemma PlacedChained(a: seq<Tombstone>, b: seq<Tombstone>, s: int, e: int, time: nat, cut: int)
    requires Chained(a + b, cut) && Reach(a, cut) <= s < e && (b != [] ==> s < b[0].end)
    ensures Chained(Placed(a, b, s, e, time), cut)
  {
    ChainedConcat(a, b, cut);
    if a != [] && a[|a| - 1].time == time && a[|a| - 1].end == s {
      var n := |a| - 1;
      assert a == a[..n] + [a[n]];
      ChainedConcat(a[..n], [a[n]], cut);
      var reach := Reach(a[..n], cut);
      ChainedLater(b, s, reach);
      InsertedChained(b, a[n].start, e, time, reach);
      ChainedConcat(a[..n], Inserted(b, a[n].start, e, time), cut);
    } else {
      InsertedChained(b, s, e, time, Reach(a, cut));
      ChainedConcat(a, Inserted(b, s, e, time), cut);
    }
  }

  lemma PlacedMeaning(a: seq<Tombstone>, b: seq<Tombstone>, s: int, e: int, time: nat, cut: int, row: int)
    requires Chained(a + b, cut) && Reach(a, cut) <= s < e && (b != [] ==> s < b[0].end)
    ensures TimeAt(Placed(a, b, s, e, time), row) == Max(TimeAt(a + b, row), TimeOf(Tombstone(s, e, time), row))
  {
    ChainedConcat(a, b, cut);
    if a != [] && a[|a| - 1].time == time && a[|a| - 1].end == s {
      var n := |a| - 1;
      assert a == a[..n] + [a[n]];
      MergedMeaning(a[..n], a[n], b, s, e, cut, row);
    } else {
      InsertedMeaning(b, s, e, time, Reach(a, cut), row);
      PlainTime(a, b, Inserted(b, s, e, time), Tombstone(s, e, time), row);
    }
  }

  // The list stays ordered
  lemma AppliedOrdered(list: seq<Tombstone>, s: int, e: int, time: nat)
    requires Ordered(list) && s < e
    ensures Ordered(Applied(list, s, e, time))
  {
    var cut := if list == [] || s < list[0].start then s else list[0].start;
    OrderedIsChained(list, cut);
    FirstAfterSplits(list, s, cut);
    var i := FirstAfter(list, s);
    assert list == list[..i] + list[i..];
    PlacedChained(list[..i], list[i..], s, e, time, cut);
    ChainedIsOrdered(Applied(list, s, e, time), cut);
  }

  // and deletes each row by the newest of what it deleted it by and the new tombstone
  lemma AppliedMeaning(list: seq<Tombstone>, s: int, e: int, time: nat, row: int)
    requires Ordered(list) && s < e
    ensures TimeAt(Applied(list, s, e, time), row) == Max(TimeAt(list, row), TimeOf(Tombstone(s, e, time), row))
  {
    var cut := if list == [] || s < list[0].start then s else list[0].start;
    OrderedIsChained(list, cut);
    FirstAfterSplits(list, s, cut);
    var i := FirstAfter(list, s);
    assert list == list[..i] + list[i..];
    PlacedMeaning(list[..i], list[i..], s, e, time, cut, row);
  }

  lemma MergedMeaning(a: seq<Tombstone>, p: Tombstone, b: seq<Tombstone>, s: int, e: int, cut: int, row: int)
    requires Chained(a + [p], cut) && Chained(b, s) && p.end == s < e && (b != [] ==> s < b[0].end)
    ensures TimeAt(a + Inserted(b, p.start, e, p.time), row)
         == Max(TimeAt(a + [p] + b, row), TimeOf(Tombstone(s, e, p.time), row))
  {
    ChainedConcat(a, [p], cut);
    ChainedLater(b, s, p.start);
    InsertedMeaning(b, p.start, e, p.time, p.start, row);
    MergedTime(a, p, b, Inserted(b, p.start, e, p.time), s, e, row);
  }

  lemma PlainTime(a: seq<Tombstone>, b: seq<Tombstone>, c: seq<Tombstone>, t: Tombstone, row: int)
    requires TimeAt(c, row) == Max(TimeAt(b, row), TimeOf(t, row))
    ensures TimeAt(a + c, row) == Max(TimeAt(a + b, row), TimeOf(t, row))
  {
    TimeAtConcat(a, b, row);
    TimeAtConcat(a, c, row);
  }

  // p was extended from s to e
  lemma MergedTime(a: seq<Tombstone>, p: Tombstone, b: seq<Tombstone>, c: seq<Tombstone>, s: int, e: int, row: int)
    requires p.start < p.end == s < e
    requires TimeAt(c, row) == Max(TimeAt(b, row), TimeOf(Tombstone(p.start, e, p.time), row))
    ensures TimeAt(a + c, row) == Max(TimeAt(a + [p] + b, row), TimeOf(Tombstone(s, e, p.time), row))
  {
    TimeAtConcat(a + [p], b, row);
    TimeAtConcat(a, [p], row);
    TimeAtConcat(a, c, row);
  }

  // One turn of the loop at an older tombstone x, or at a newer one
  lemma OlderStep(before: seq<Tombstone>, x: Tombstone, after: seq<Tombstone>, s: int, e: int, time: nat)
    requires x.time < time && s < e && x.start < e
    ensures before + Inserted([x] + after, s, e, time)
         == if e < x.end then before + Kept(x, s) + ([Tombstone(s, e, time), Tombstone(e, x.end, x.time)] + after)
            else before + Kept(x, s) + Inserted(after, s, e, time)
  {
    assert ([x] + after)[1..] == after;
    if e < x.end {
      Associative(before, Kept(x, s), [Tombstone(s, e, time), Tombstone(e, x.end, x.time)] + after);
    } else {
      Associative(before, Kept(x, s), Inserted(after, s, e, time));
    }
  }

  lemma NewerStep(before: seq<Tombstone>, x: Tombstone, after: seq<Tombstone>, s: int, e: int, time: nat)
    requires time < x.time && s < e && x.start < e
    ensures before + Inserted([x] + after, s, e, time)
         == if x.end < e then before + Ahead(x, s, time) + [x] + Inserted(after, x.end, e, time)
            else before + Ahead(x, s, time) + ([x] + after)
  {
    assert ([x] + after)[1..] == after;
    if x.end < e {
      Associative(before, Ahead(x, s, time), [x] + Inserted(after, x.end, e, time));
      Associative(before + Ahead(x, s, time), [x], Inserted(after, x.end, e, time));
    } else {
      Associative(before, Ahead(x, s, time), [x] + after);
    }
  }

  class TombstoneList {
    var tombstones: seq<Tombstone>

    constructor ()
      ensures tombstones == []
    {
      tombstones := [];
    }

    method Apply(s: int, e: int, time: nat)
      requires Ordered(tombstones) && s < e
      modifies this
      ensures tombstones == Applied(old(tombstones), s, e, time)
      ensures Ordered(tombstones)
      ensures forall row :: TimeAt(tombstones, row) == Max(TimeAt(old(tombstones), row), TimeOf(Tombstone(s, e, time), row))
    {
      AppliedOrdered(tombstones, s, e, time);
      forall row ensures TimeAt(Applied(tombstones, s, e, time), row)
                      == Max(TimeAt(tombstones, row), TimeOf(Tombstone(s, e, time), row)) {
        AppliedMeaning(tombstones, s, e, time, row);
      }
      var it := UpperBound(s);
      InsertFrom(it, s, e, time);
    }

    // The place to insert at: the end of the list when everything ends before s
    method UpperBound(s: int) returns (it: nat)
      requires Ordered(tombstones)
      ensures it == FirstAfter(tombstones, s)
    {
      it := 0;
      while it < |tombstones| && !(StartBound(s) < EndBound(tombstones[it].end))
        invariant it <= |tombstones|
        invariant FirstAfter(tombstones, s) == it + FirstAfter(tombstones[it..], s)
      {
        it := it + 1;
      }
    }

    // A tombstone of the same time that ends where the new one starts becomes part of it
    method JoinLeft(at: nat, s0: int, ghost e: int, time: nat) returns (it: nat, s: int)
      requires at <= |tombstones|
      modifies this
      ensures it <= |tombstones|
      ensures tombstones[..it] + Inserted(tombstones[it..], s, e, time)
           == Placed(old(tombstones)[..at], old(tombstones)[at..], s0, e, time)
    {
      it, s := at, s0;
      if it != 0 && tombstones[it - 1].time == time && tombstones[it - 1].end == s {
        assert tombstones[..at][..at - 1] == tombstones[..at - 1];
        s := tombstones[it - 1].start;
        tombstones := tombstones[..it - 1] + tombstones[it..];
        it := it - 1;
      }
    }

    method InsertFrom(at: nat, s0: int, e0: int, time: nat)
      requires at == FirstAfter(tombstones, s0)
      modifies this
      ensures tombstones == Applied(old(tombstones), s0, e0, time)
    {
      var it: nat, s: int := JoinLeft(at, s0, e0, time);
      var e := e0;
      ghost var target := tombstones[..it] + Inserted(tombstones[it..], s, e, time);
      while it != |tombstones|
        invariant it <= |tombstones|
        invariant target == tombstones[..it] + Inserted(tombstones[it..], s, e, time)
        decreases |tombstones| - it
      {
        var done: bool;
        it, s, e, done := InsertStep(it, s, e, time);
        if done {
          return;
        }
      }
      tombstones := tombstones + [Tombstone(s, e, time)];
    }

    // One turn of the loop: deals with the tombstone at `it`
    method InsertStep(it0: nat, s0: int, e0: int, time: nat) returns (it: nat, s: int, e: int, done: bool)
      requires it0 < |tombstones|
      modifies this
      ensures it <= |tombstones| && (!done ==> |tombstones| - it < |old(tombstones)| - it0)
      ensures old(tombstones[..it0] + Inserted(tombstones[it0..], s0, e0, time))
           == if done then tombstones else tombstones[..it] + Inserted(tombstones[it..], s, e, time)
    {
      it, s, e, done := it0, s0, e0, true;
      var x := tombstones[it];
      var before, after := tombstones[..it], tombstones[it + 1..];
      assert tombstones[it..] == [x] + after;
      assert tombstones == before + [x] + after;
      if EndBound(e) < StartBound(s) {
        return;
      }
      if EndBound(e) < StartBound(x.start) {
        if x.time == time && e == x.start {
          tombstones := before + [Tombstone(s, x.end, time)] + after;
        } else {
          tombstones := before + [Tombstone(s, e, time), x] + after;
        }
        return;
      }
      if time == x.time {
        s := if StartBound(x.start) < StartBound(s) then x.start else s;
        e := if EndBound(e) < EndBound(x.end) then x.end else e;
        tombstones := before + after;
        done := false;
        return;
      }
      if time > x.time {
        it, done := OverwriteOlder(it, s, e, time);
      } else {
        it, s, done := KeepNewer(it, s, e, time);
      }
    }

    // The tombstone at `it` is older: the new one takes its place where they overlap
    method OverwriteOlder(it0: nat, s: int, e: int, time: nat) returns (it: nat, done: bool)
      requires it0 < |tombstones| && tombstones[it0].time < time && s < e && tombstones[it0].start < e
      modifies this
      ensures it <= |tombstones| && (!done ==> |tombstones| - it < |old(tombstones)| - it0)
      ensures old(tombstones[..it0] + Inserted(tombstones[it0..], s, e, time))
           == if done then tombstones else tombstones[..it] + Inserted(tombstones[it..], s, e, time)
    {
      var x := tombstones[it0];
      var before, after := tombstones[..it0], tombstones[it0 + 1..];
      assert tombstones[it0..] == [x] + after;
      OlderStep(before, x, after, s, e, time);
      it := it0;
      if StartBound(x.start) < StartBound(s) && !(EndBound(s) < StartBound(x.start)) {
        before := before + [Tombstone(x.start, s, x.time)];
        it := it + 1;
      }
      assert before == tombstones[..it0] + Kept(x, s);
      done := EndBound(e) < EndBound(x.end);
      if done {
        tombstones := before + ([Tombstone(s, e, time), Tombstone(e, x.end, x.time)] + after);
      } else {
        tombstones := before + after;
        assert tombstones[..it] == before && tombstones[it..] == after;
      }
    }

    // The tombstone at `it` is newer: it stays, and the new one goes around it
    method KeepNewer(it0: nat, s0: int, e: int, time: nat) returns (it: nat, s: int, done: bool)
      requires it0 < |tombstones| && time < tombstones[it0].time && s0 < e && tombstones[it0].start < e
      modifies this
      ensures it <= |tombstones| && (!done ==> |tombstones| - it < |old(tombstones)| - it0)
      ensures old(tombstones[..it0] + Inserted(tombstones[it0..], s0, e, time))
           == if done then tombstones else tombstones[..it] + Inserted(tombstones[it..], s, e, time)
    {
      var x := tombstones[it0];
      var before, after := tombstones[..it0], tombstones[it0 + 1..];
      assert tombstones[it0..] == [x] + after;
      NewerStep(before, x, after, s0, e, time);
      it, s := it0, s0;
      if StartBound(s) < StartBound(x.start) && !(EndBound(x.start) < StartBound(s)) {
        before := before + [Tombstone(s, x.start, time)];
        it := it + 1;
      }
      assert before == tombstones[..it0] + Ahead(x, s0, time);
      tombstones := before + ([x] + after);
      done := !(EndBound(x.end) < EndBound(e));
      if !done {
        s := x.end;
        it := it + 1;
        assert tombstones[..it] == before + [x] && tombstones[it..] == after;
      }
    }
  }
}
