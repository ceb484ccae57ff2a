/**
  The cell locker: operations lock sets of cells, each cell guarded by a semaphore.

  Cell entries live as long as some operation refers to them, and a partition entry as long as it has
  cells.  Operations take their cells in address order, one at a time, under one schema; every step
  below is atomic and steps of different operations interleave freely.
*/
module CellLocking {

  // cell_address: position of the row (the static row comes first) and column id
  datatype Address = Address(row: int, column: int)

  predicate Less(a: Address, b: Address) {
    a.row < b.row || (a.row == b.row && a.column < b.column)
  }

  // A cell of a partition
  datatype Loc = Loc(key: int, addr: Address)

  // cell_entry: its semaphore
  datatype Entry = Entry(units: nat, waiters: seq<int>)

  datatype Phase =
    | Starting   // has not called lock_cells() yet
    | Running    // part-way through its cells
    | Waiting    // queued on the cell before `next`
    | Granted    // that cell's semaphore let it pass, its continuation has not run yet
    | Locked     // has all its cells
    | TimedOut   // gave up waiting; still refers to the cell it waited for
    | Aborting   // gave up, the reference is gone
    | Finished

  // One lock_cells() call: the cells to lock, in order, how many were taken up, and those held
  datatype Op = Op(key: int, plan: seq<Address>, next: nat, held: set<Address>, phase: Phase)

  datatype State = State(ops: map<int, Op>, cells: map<Loc, Entry>, counts: map<int, nat>)

  predicate Increasing(plan: seq<Address>) {
    forall i, j :: 0 <= i < j < |plan| ==> Less(plan[i], plan[j])
  }

  // The cell an operation is queued on, was let pass at, or gave up on
  predicate Awaits(o: Op) {
    o.phase in {Waiting, Granted, TimedOut}
  }

  function Awaited(o: Op): (a: Address)
    requires 0 < o.next <= |o.plan|
  {
    o.plan[o.next - 1]
  }

  predicate Owns(o: Op, l: Loc) {
    && o.key == l.key
    && (l.addr in o.held || (o.phase == Granted && 0 < o.next <= |o.plan| && Awaited(o) == l.addr))
  }

  predicate RefersTo(o: Op, l: Loc) {
    && o.key == l.key
    && (l.addr in o.held || (Awaits(o) && 0 < o.next <= |o.plan| && Awaited(o) == l.addr))
  }

  function Owners(s: State, l: Loc): (r: set<int>) {
    set i | i in s.ops && Owns(s.ops[i], l)
  }

  function CellsOf(s: State, key: int): (r: set<Loc>) {
    set l | l in s.cells && l.key == key
  }

  // How many cells an operation that has not given up has behind it
  function Taken(o: Op): (n: int) {
    if o.phase in {Waiting, Granted} then o.next - 1 else o.next
  }

  predicate TakenUp(o: Op, a: Address) {
    exists k :: 0 <= k < o.next <= |o.plan| && o.plan[k] == a
  }

  // An operation's own bookkeeping
  predicate OpInv(o: Op) {
    && Increasing(o.plan)
    && o.next <= |o.plan|
    && (o.phase in {Starting, Finished} ==> o.held == {})
    && (o.phase == Starting ==> o.next == 0)
    && (o.phase == Running ==> o.held != {})
    && (Awaits(o) ==> 0 < o.next && forall a :: a in o.held ==> Less(a, Awaited(o)))
    && (forall a :: a in o.held ==> TakenUp(o, a))
    && (o.phase in {Starting, Running, Waiting, Granted} ==>
          forall k :: 0 <= k < Taken(o) ==> o.plan[k] in o.held)
  }

  predicate Distinct(w: seq<int>) {
    forall i, j :: 0 <= i < j < |w| ==> w[i] != w[j]
  }

  // One unit shared by the semaphore and the operations that passed it; a queue only while there is none
  ghost predicate EntryInv(s: State, l: Loc)
    requires l in s.cells
  {
    var e := s.cells[l];
    && e.units + |Owners(s, l)| == 1
    && (e.waiters != [] ==> e.units == 0)
    && Distinct(e.waiters)
    && (forall i :: i in e.waiters <==> i in s.ops && WaitsOn(s.ops[i], l))
  }

  predicate WaitsOn(o: Op, l: Loc) {
    o.phase == Waiting && o.key == l.key && 0 < o.next <= |o.plan| && Awaited(o) == l.addr
  }

  ghost predicate Referenced(s: State, l: Loc) {
    exists i :: i in s.ops && RefersTo(s.ops[i], l)
  }

  // Linked exactly while referred to, with one unit among semaphore and owners
  ghost predicate CellInv(s: State, l: Loc) {
    (l in s.cells <==> Referenced(s, l)) && (l in s.cells ==> EntryInv(s, l))
  }

  ghost predicate CountsInv(s: State) {
    && (forall k :: k in s.counts <==> CellsOf(s, k) != {})
    && (forall k :: k in s.counts ==> s.counts[k] == |CellsOf(s, k)|)
  }

  predicate OpsInv(s: State) {
    forall i :: i in s.ops ==> OpInv(s.ops[i])
  }

  ghost predicate Inv(s: State) {
    OpsInv(s) && CountsInv(s) && forall l :: CellInv(s, l)
  }

  // ---- Steps ----

  function Min(a: nat, b: nat): (m: nat) {
    if a < b then a else b
  }

  // The next cell of operation i: joins the queue of a linked entry (or passes at once), else links a new locked one
  function TakeUp(s: State, i: int): (r: State)
    requires i in s.ops && s.ops[i].next < |s.ops[i].plan| && s.ops[i].key in s.counts
  {
    var o := s.ops[i];
    var a := o.plan[o.next];
    var l := Loc(o.key, a);
    if l in s.cells then
      var e := s.cells[l];
      if e.units >= 1 && e.waiters == [] then
        State(s.ops[i := o.(next := o.next + 1, phase := Granted)], s.cells[l := e.(units := e.units - 1)], s.counts)
      else
        State(s.ops[i := o.(next := o.next + 1, phase := Waiting)], s.cells[l := e.(waiters := e.waiters + [i])], s.counts)
    else
      State(s.ops[i := o.(next := o.next + 1, held := o.held + {a}, phase := Running)],
            s.cells[l := Entry(0, [])], s.counts[o.key := s.counts[o.key] + 1])
  }

  function Locs(o: Op): (r: set<Loc>) {
    set a | a in o.plan :: Loc(o.key, a)
  }

  // No partition entry: link one with all the cells, locked
  function LockFresh(s: State, i: int): (r: State)
    requires i in s.ops
  {
    var o := s.ops[i];
    var all := set a | a in o.plan;
    var entries := map l | l in Locs(o) :: Entry(0, []);
    State(s.ops[i := o.(next := |o.plan|, held := all, phase := Locked)],
          s.cells + entries,
          if o.plan == [] then s.counts else s.counts[o.key := |o.plan|])
  }

  // semaphore signal(): one more unit, handed to the oldest waiters
  function Signal(s: State, l: Loc): (r: State)
    requires l in s.cells
  {
    var e := s.cells[l];
    var n := Min(e.units + 1, |e.waiters|);
    State(map j | j in s.ops :: if j in e.waiters[..n] then s.ops[j].(phase := Granted) else s.ops[j],
          s.cells[l := Entry(e.units + 1 - n, e.waiters[n..])], s.counts)
  }

  // The states between unlock() and the destructor of the lock: the unit went to the oldest waiter, if any
  ghost function Unlocked(s: State, i: int, a: Address): (v: State)
    requires i in s.ops && Loc(s.ops[i].key, a) in s.cells
  {
    var u := Signal(s, Loc(s.ops[i].key, a));
    u.(ops := u.ops[i := u.ops[i].(held := s.ops[i].held - {a})])
  }

  // ~cell_entry when the last reference is gone
  ghost function Collect(s: State, l: Loc): (r: State)
    requires l in s.cells && l.key in s.counts && s.counts[l.key] > 0
  {
    if Referenced(s, l) then s
    else State(s.ops, s.cells - {l},
               if s.counts[l.key] == 1 then s.counts - {l.key} else s.counts[l.key := s.counts[l.key] - 1])
  }

  datatype Action =
    | Begin | Continue | RunGranted | Expire | Unlock(a: Address) | DropAwaited | Finish

  ghost predicate Enabled(s: State, i: int, act: Action) {
    && i in s.ops
    && var o := s.ops[i];
    match act
    case Begin => o.phase == Starting
    case Continue => o.phase == Running
    case RunGranted => o.phase == Granted
    case Expire => o.phase == Waiting
    case Unlock(a) => o.phase in {Locked, TimedOut, Aborting} && a in o.held
    case DropAwaited => o.phase == TimedOut
    case Finish => o.phase in {Locked, Aborting} && o.held == {}
  }

  predicate Without(before: seq<int>, after: seq<int>, i: int) {
    exists k :: 0 <= k < |before| && before[k] == i && after == before[..k] + before[k + 1..]
  }

  // One step of operation i.  What the code takes for granted (a cursor inside the plan, a live partition
  // entry, a linked cell) appears as a guard; CellLockingRuns.CanStep and CanExpire show that no guard
  // ever stands in the way.
  ghost predicate Next(s: State, i: int, act: Action, t: State)
    requires Enabled(s, i, act)
  {
    var o := s.ops[i];
    match act
    case Begin =>
      if o.key !in s.counts then t == LockFresh(s, i)
      else if o.plan == [] then t == s.(ops := s.ops[i := o.(phase := Locked)])
      else MayTakeUp(s, i) && t == TakeUp(s, i)
    case Continue =>
      if o.next == |o.plan| then t == s.(ops := s.ops[i := o.(phase := Locked)])
      else MayTakeUp(s, i) && t == TakeUp(s, i)
    case RunGranted =>
      && 0 < o.next <= |o.plan|
      && t == s.(ops := s.ops[i := o.(held := o.held + {Awaited(o)}, phase := Running)])
    case Expire =>
      && 0 < o.next <= |o.plan|
      && var l := Loc(o.key, Awaited(o));
      && l in s.cells && l in t.cells
      && Without(s.cells[l].waiters, t.cells[l].waiters, i)
      && t == State(s.ops[i := o.(phase := TimedOut)], s.cells[l := Entry(s.cells[l].units, t.cells[l].waiters)], s.counts)
    case Unlock(a) =>
      var l := Loc(o.key, a);
      && IsCounted(s, l)
      && t == Collect(Unlocked(s, i, a), l)
    case DropAwaited =>
      && 0 < o.next <= |o.plan|
      && var l := Loc(o.key, Awaited(o));
      && IsCounted(s, l)
      && t == Collect(s.(ops := s.ops[i := o.(phase := Aborting)]), l)
    case Finish =>
      t == s.(ops := s.ops[i := o.(phase := Finished)])
  }

  // Linked, in a partition entry that counts it
  predicate IsCounted(s: State, l: Loc) {
    l in s.cells && l.key in s.counts && s.counts[l.key] > 0
  }

  predicate MayTakeUp(s: State, i: int) {
    && i in s.ops && s.ops[i].phase in {Starting, Running}
    && s.ops[i].next < |s.ops[i].plan| && s.ops[i].key in s.counts
  }

  // A cell an operation refers to is linked, in a live partition entry that counts it
  lemma Linked(s: State, i: int, l: Loc)
    requires Inv(s) && i in s.ops && RefersTo(s.ops[i], l)
    ensures IsCounted(s, l)
  {
    assert CellInv(s, l);
    assert l in CellsOf(s, l.key);
  }

  // A partition entry lives as long as an operation is part-way through it
  lemma Alive(s: State, i: int)
    requires Inv(s) && i in s.ops && s.ops[i].phase in {Running, Waiting, Granted}
    ensures s.ops[i].key in s.counts
  {
    var o := s.ops[i];
    if o.phase == Running {
      var a :| a in o.held;
      Linked(s, i, Loc(o.key, a));
    } else {
      Linked(s, i, Loc(o.key, Awaited(o)));
    }
  }

  // ---- Every step keeps the invariant ----

  lemma OwnersAre(s: State, l: Loc, r: set<int>)
    requires forall j :: j in r ==> j in s.ops
    requires forall j :: j in s.ops ==> (Owns(s.ops[j], l) <==> j in r)
    ensures Owners(s, l) == r
  {
    forall j ensures j in Owners(s, l) <==> j in r {
    }
  }

  // What operations see of a cell
  predicate SameView(o: Op, p: Op, l: Loc) {
    (Owns(o, l) <==> Owns(p, l)) && (RefersTo(o, l) <==> RefersTo(p, l)) && (WaitsOn(o, l) <==> WaitsOn(p, l))
  }

  // Nothing about cell m differs between s and t
  ghost predicate SameAt(s: State, t: State, m: Loc) {
    && s.ops.Keys == t.ops.Keys
    && (forall i :: i in s.ops ==> SameView(s.ops[i], t.ops[i], m))
    && (m in s.cells <==> m in t.cells)
    && (m in s.cells ==> t.cells[m] == s.cells[m])
  }

  ghost predicate OnlyAt(s: State, t: State, l: Loc) {
    forall m :: m != l ==> SameAt(s, t, m)
  }

  lemma SameCell(s: State, t: State, m: Loc)
    requires CellInv(s, m) && SameAt(s, t, m)
    ensures CellInv(t, m)
  {
    assert forall i :: i in s.ops <==> i in t.ops by {
      assert forall i :: i in s.ops <==> i in s.ops.Keys;
    }
    assert forall i :: i in s.ops ==> SameView(s.ops[i], t.ops[i], m);
    assert Owners(t, m) == Owners(s, m);
  }

  // Restores the invariant from what a step does at its own cell
  lemma StepAt(s: State, t: State, l: Loc)
    requires Inv(s) && OnlyAt(s, t, l) && CellInv(t, l) && CountsInv(t) && OpsInv(t)
    ensures Inv(t)
  {
    forall m ensures CellInv(t, m) {
      if m != l {
        assert CellInv(s, m);
        SameCell(s, t, m);
      }
    }
  }

  lemma SameCounts(s: State, t: State)
    requires CountsInv(s) && t.counts == s.counts && t.cells.Keys == s.cells.Keys
    ensures CountsInv(t)
  {
    forall k ensures CellsOf(t, k) == CellsOf(s, k) {
      assert forall l :: l in t.cells <==> l in t.cells.Keys;
    }
  }

  lemma LinkCounts(s: State, t: State, l: Loc)
    requires CountsInv(s) && l !in s.cells && l.key in s.counts
    requires t.counts == s.counts[l.key := s.counts[l.key] + 1] && t.cells.Keys == s.cells.Keys + {l}
    ensures CountsInv(t)
  {
    assert forall m :: m in t.cells <==> m in t.cells.Keys;
    assert CellsOf(t, l.key) == CellsOf(s, l.key) + {l};
    forall k | k != l.key ensures CellsOf(t, k) == CellsOf(s, k) {
    }
  }

  lemma UnlinkCounts(s: State, t: State, l: Loc)
    requires CountsInv(s) && l in s.cells && l.key in s.counts
    requires t.counts == if s.counts[l.key] == 1 then s.counts - {l.key} else s.counts[l.key := s.counts[l.key] - 1]
    requires t.cells == s.cells - {l}
    ensures CountsInv(t)
  {
    assert l in CellsOf(s, l.key);
    forall k ensures CellsOf(t, k) == CellsOf(s, k) - (if k == l.key then {l} else {}) {
    }
    assert |CellsOf(t, l.key)| == |CellsOf(s, l.key)| - 1;
    if s.counts[l.key] != 1 {
      assert CellsOf(t, l.key) != {};
    }
  }

  // An operation taking up its next cell: the cells it holds come before it
  lemma QueuedOp(o: Op, p: Op)
    requires OpInv(o) && o.phase in {Starting, Running} && o.next < |o.plan|
    requires p == o.(next := o.next + 1, phase := Granted) || p == o.(next := o.next + 1, phase := Waiting)
    ensures OpInv(p)
  {
    forall a | a in o.held ensures Less(a, o.plan[o.next]) && TakenUp(p, a) {
      assert TakenUp(o, a);
      var k :| 0 <= k < o.next && o.plan[k] == a;
      assert p.plan[k] == a;
    }
  }

  lemma LinkedOp(o: Op, p: Op)
    requires OpInv(o) && o.phase in {Starting, Running} && o.next < |o.plan|
    requires p == o.(next := o.next + 1, held := o.held + {o.plan[o.next]}, phase := Running)
    ensures OpInv(p)
  {
    assert o.plan[o.next] in p.held;
    forall a | a in p.held ensures TakenUp(p, a) {
      if a in o.held {
        assert TakenUp(o, a);
        var k :| 0 <= k < o.next && o.plan[k] == a;
        assert p.plan[k] == a;
      } else {
        assert p.plan[o.next] == a;
      }
    }
  }

  lemma TakeUpView(o: Op, p: Op, m: Loc)
    requires o.phase in {Starting, Running} && o.next < |o.plan| && m != Loc(o.key, o.plan[o.next])
    requires p == o.(next := o.next + 1, phase := Granted) || p == o.(next := o.next + 1, phase := Waiting)
          || p == o.(next := o.next + 1, held := o.held + {o.plan[o.next]}, phase := Running)
    ensures SameView(o, p, m)
  {
  }

  lemma TakeUpSelf(o: Op, p: Op, l: Loc)
    requires o.phase in {Starting, Running} && o.next < |o.plan| && l == Loc(o.key, o.plan[o.next])
    ensures p == o.(next := o.next + 1, phase := Granted) ==> Owns(p, l) && !WaitsOn(p, l)
    ensures p == o.(next := o.next + 1, phase := Waiting) ==> WaitsOn(p, l) && !WaitsOn(o, l) && (Owns(p, l) <==> Owns(o, l))
    ensures p == o.(next := o.next + 1, held := o.held + {o.plan[o.next]}, phase := Running) ==> Owns(p, l) && !WaitsOn(p, l)
  {
  }

  // Only operation i changes, and for it only its dealings with l
  lemma OneOp(s: State, t: State, i: int, l: Loc)
    requires i in s.ops && i in t.ops && t.ops == s.ops[i := t.ops[i]]
    requires forall m :: m != l ==> SameView(s.ops[i], t.ops[i], m)
    requires l in t.cells && t.cells == s.cells[l := t.cells[l]]
    ensures OnlyAt(s, t, l)
  {
  }

  // At the cell itself: operation i takes its unit
  lemma Passes(s: State, t: State, i: int, l: Loc)
    requires l in s.cells && CellInv(s, l) && s.cells[l].units >= 1 && s.cells[l].waiters == []
    requires i in s.ops && i in t.ops && t.ops == s.ops[i := t.ops[i]] && Owns(t.ops[i], l) && !WaitsOn(t.ops[i], l)
    requires l in t.cells && t.cells[l] == Entry(s.cells[l].units - 1, [])
    ensures CellInv(t, l)
  {
    assert RefersTo(t.ops[i], l);
    assert Owners(s, l) == {};
    forall j | j in t.ops ensures Owns(t.ops[j], l) <==> j == i {
      assert j in s.ops && Owns(s.ops[j], l) ==> j in Owners(s, l);
    }
    OwnersAre(t, l, {i});
    forall j ensures !(j in t.ops && WaitsOn(t.ops[j], l)) {
      assert j in s.ops && WaitsOn(s.ops[j], l) <==> j in s.cells[l].waiters;
    }
  }

  // operation i joins its queue
  lemma Queues(s: State, t: State, i: int, l: Loc)
    requires l in s.cells && CellInv(s, l) && (s.cells[l].units == 0 || s.cells[l].waiters != [])
    requires i in s.ops && i in t.ops && t.ops == s.ops[i := t.ops[i]] && WaitsOn(t.ops[i], l) && !WaitsOn(s.ops[i], l)
    requires Owns(t.ops[i], l) <==> Owns(s.ops[i], l)
    requires l in t.cells && t.cells[l] == s.cells[l].(waiters := s.cells[l].waiters + [i])
    ensures CellInv(t, l)
  {
    assert RefersTo(t.ops[i], l);
    assert Owners(t, l) == Owners(s, l);
    assert i !in s.cells[l].waiters;
    forall j ensures j in t.cells[l].waiters <==> j in t.ops && WaitsOn(t.ops[j], l) {
      assert j in s.ops && WaitsOn(s.ops[j], l) <==> j in s.cells[l].waiters;
    }
  }

  // operation i links it, locked
  lemma Links(s: State, t: State, i: int, l: Loc)
    requires l !in s.cells && CellInv(s, l)
    requires i in s.ops && i in t.ops && t.ops == s.ops[i := t.ops[i]] && Owns(t.ops[i], l) && !WaitsOn(t.ops[i], l)
    requires l in t.cells && t.cells[l] == Entry(0, [])
    ensures CellInv(t, l)
  {
    assert RefersTo(t.ops[i], l);
    forall j | j in t.ops ensures Owns(t.ops[j], l) <==> j == i {
      assert j in s.ops && RefersTo(s.ops[j], l) ==> Referenced(s, l);
    }
    OwnersAre(t, l, {i});
    forall j | j in t.ops ensures !WaitsOn(t.ops[j], l) {
      assert j in s.ops && RefersTo(s.ops[j], l) ==> Referenced(s, l);
    }
  }

  lemma TakeUpFrame(s: State, i: int, l: Loc)
    requires OpsInv(s) && MayTakeUp(s, i) && l == Loc(s.ops[i].key, s.ops[i].plan[s.ops[i].next])
    ensures OnlyAt(s, TakeUp(s, i), l) && OpsInv(TakeUp(s, i))
  {
    var t := TakeUp(s, i);
    if l in s.cells {
      QueuedOp(s.ops[i], t.ops[i]);
    } else {
      LinkedOp(s.ops[i], t.ops[i]);
    }
    forall m | m != l ensures SameView(s.ops[i], t.ops[i], m) {
      TakeUpView(s.ops[i], t.ops[i], m);
    }
    OneOp(s, t, i, l);
  }

  lemma TakeUpCell(s: State, i: int, l: Loc)
    requires MayTakeUp(s, i) && l == Loc(s.ops[i].key, s.ops[i].plan[s.ops[i].next])
    requires CellInv(s, l)
    ensures CellInv(TakeUp(s, i), l)
  {
    var t := TakeUp(s, i);
    TakeUpSelf(s.ops[i], t.ops[i], l);
    if l in s.cells {
      if s.cells[l].units >= 1 && s.cells[l].waiters == [] {
        Passes(s, t, i, l);
      } else {
        Queues(s, t, i, l);
      }
    } else {
      Links(s, t, i, l);
    }
  }

  lemma TakeUpCounts(s: State, i: int, l: Loc)
    requires CountsInv(s) && MayTakeUp(s, i) && l == Loc(s.ops[i].key, s.ops[i].plan[s.ops[i].next])
    ensures CountsInv(TakeUp(s, i))
  {
    if l in s.cells {
      SameCounts(s, TakeUp(s, i));
    } else {
      LinkCounts(s, TakeUp(s, i), l);
    }
  }

  lemma TakeUpKeepsInv(s: State, i: int)
    requires Inv(s) && MayTakeUp(s, i)
    ensures Inv(TakeUp(s, i))
  {
    var l := Loc(s.ops[i].key, s.ops[i].plan[s.ops[i].next]);
    TakeUpFrame(s, i, l);
    TakeUpCounts(s, i, l);
    assert CellInv(s, l);
    TakeUpCell(s, i, l);
    StepAt(s, TakeUp(s, i), l);
  }

  // A step that changes nothing any cell can see
  lemma QuietKeepsInv(s: State, t: State, i: int)
    requires Inv(s) && i in s.ops && i in t.ops && t == s.(ops := s.ops[i := t.ops[i]]) && OpInv(t.ops[i])
    requires forall m :: SameView(s.ops[i], t.ops[i], m)
    ensures Inv(t)
  {
    SameCounts(s, t);
    forall m ensures CellInv(t, m) {
      assert CellInv(s, m);
      SameCell(s, t, m);
    }
  }

  lemma RunGrantedView(o: Op, p: Op, m: Loc)
    requires OpInv(o) && o.phase == Granted && p == o.(held := o.held + {Awaited(o)}, phase := Running)
    ensures SameView(o, p, m)
  {
  }

  lemma RunGrantedOp(o: Op, p: Op)
    requires OpInv(o) && o.phase == Granted && p == o.(held := o.held + {Awaited(o)}, phase := Running)
    ensures OpInv(p)
  {
    forall a | a in p.held ensures TakenUp(p, a) {
      if a in o.held {
        assert TakenUp(o, a);
      } else {
        assert p.plan[o.next - 1] == a;
      }
    }
    assert Awaited(o) in p.held;
  }

  lemma RunGrantedKeepsInv(s: State, i: int, t: State)
    requires Inv(s) && Enabled(s, i, RunGranted) && Next(s, i, RunGranted, t)
    ensures Inv(t)
  {
    var o, p := s.ops[i], t.ops[i];
    RunGrantedOp(o, p);
    forall m ensures SameView(o, p, m) {
      RunGrantedView(o, p, m);
    }
    QuietKeepsInv(s, t, i);
  }

  lemma WithoutMembers(was: seq<int>, now: seq<int>, i: int)
    requires Distinct(was) && Without(was, now, i)
    ensures Distinct(now) && was != []
    ensures forall j :: j in now <==> j in was && j != i
  {
    var k :| 0 <= k < |was| && was[k] == i && now == was[..k] + was[k + 1..];
    forall j | j in was && j != i ensures j in now {
      var x :| 0 <= x < |was| && was[x] == j;
      assert now[if x < k then x else x - 1] == j;
    }
  }

  lemma ExpireCell(s: State, t: State, i: int, l: Loc)
    requires l in s.cells && CellInv(s, l) && i in s.ops && WaitsOn(s.ops[i], l)
    requires i in t.ops && t.ops == s.ops[i := t.ops[i]] && !WaitsOn(t.ops[i], l) && RefersTo(t.ops[i], l)
    requires Owns(t.ops[i], l) <==> Owns(s.ops[i], l)
    requires l in t.cells && t.cells[l].units == s.cells[l].units && Without(s.cells[l].waiters, t.cells[l].waiters, i)
    ensures CellInv(t, l)
  {
    assert Owners(t, l) == Owners(s, l);
    WithoutMembers(s.cells[l].waiters, t.cells[l].waiters, i);
    forall j ensures j in t.cells[l].waiters <==> j in t.ops && WaitsOn(t.ops[j], l) {
      assert j in s.cells[l].waiters <==> j in s.ops && WaitsOn(s.ops[j], l);
    }
  }

  lemma ExpireKeepsInv(s: State, i: int, t: State)
    requires Inv(s) && Enabled(s, i, Expire) && Next(s, i, Expire, t)
    ensures Inv(t)
  {
    var o, p := s.ops[i], t.ops[i];
    var l := Loc(o.key, Awaited(o));
    assert OpInv(p);
    forall m | m != l ensures SameView(o, p, m) {
    }
    OneOp(s, t, i, l);
    SameCounts(s, t);
    assert CellInv(s, l);
    ExpireCell(s, t, i, l);
    StepAt(s, t, l);
  }

  // A cell in order but perhaps no longer referred to is put right by its destructor
  lemma CollectKeepsInv(s: State, v: State, l: Loc)
    requires Inv(s) && OnlyAt(s, v, l) && OpsInv(v) && CountsInv(v)
    requires l in v.cells && EntryInv(v, l)
    requires l.key in v.counts && v.counts[l.key] > 0
    ensures Inv(Collect(v, l))
  {
    var t := Collect(v, l);
    if !Referenced(v, l) {
      UnlinkCounts(v, t, l);
      assert !Referenced(t, l);
    }
    forall m | m != l ensures SameAt(s, t, m) {
      assert SameAt(s, v, m);
    }
    StepAt(s, t, l);
  }

  lemma DropAwaitedKeepsInv(s: State, i: int, t: State)
    requires Inv(s) && Enabled(s, i, DropAwaited) && Next(s, i, DropAwaited, t)
    ensures Inv(t)
  {
    var o := s.ops[i];
    var l := Loc(o.key, Awaited(o));
    Linked(s, i, l);
    var v := s.(ops := s.ops[i := o.(phase := Aborting)]);
    forall m | m != l ensures SameView(o, v.ops[i], m) {
    }
    assert v.cells == s.cells[l := s.cells[l]];
    OneOp(s, v, i, l);
    SameCounts(s, v);
    assert CellInv(s, l);
    assert Owners(v, l) == Owners(s, l);
    CollectKeepsInv(s, v, l);
  }

  ghost predicate MayUnlock(s: State, i: int, a: Address) {
    && i in s.ops && OpInv(s.ops[i]) && s.ops[i].phase in {Locked, TimedOut, Aborting} && a in s.ops[i].held
    && var l := Loc(s.ops[i].key, a);
    l in s.cells && EntryInv(s, l)
  }

  lemma SoleOwner(s: State, i: int, a: Address)
    requires MayUnlock(s, i, a)
    ensures var l := Loc(s.ops[i].key, a);
      Owners(s, l) == {i} && s.cells[l].units == 0 && i !in s.cells[l].waiters
  {
    var l := Loc(s.ops[i].key, a);
    assert {i} <= Owners(s, l);
    if exists j :: j in Owners(s, l) && j != i {
      var j :| j in Owners(s, l) && j != i;
      assert |{i, j}| <= |Owners(s, l)| by {
        Subset({i, j}, Owners(s, l));
      }
      assert false;
    }
    Subset({i}, Owners(s, l));
  }

  lemma Subset(a: set<int>, b: set<int>)
    requires a <= b
    ensures |a| <= |b|
  {
    assert b == a + (b - a);
  }

  // Which operations change, and how
  lemma UnlockedOps(s: State, i: int, a: Address, j: int)
    requires MayUnlock(s, i, a) && j in s.ops
    ensures var l := Loc(s.ops[i].key, a); var w := s.cells[l].waiters; var v := Unlocked(s, i, a);
      && v.ops.Keys == s.ops.Keys
      && v.ops[j] == (if j == i then s.ops[i].(held := s.ops[i].held - {a})
                      else if w != [] && j == w[0] then s.ops[j].(phase := Granted)
                      else s.ops[j])
      && v.cells == s.cells[l := if w == [] then Entry(1, []) else Entry(0, w[1..])]
      && v.counts == s.counts
  {
    SoleOwner(s, i, a);
    var w := s.cells[Loc(s.ops[i].key, a)].waiters;
    assert w != [] ==> w[..1] == [w[0]];
  }

  lemma UnlockedCell(s: State, i: int, a: Address)
    requires MayUnlock(s, i, a)
    ensures EntryInv(Unlocked(s, i, a), Loc(s.ops[i].key, a))
  {
    var l, v := Loc(s.ops[i].key, a), Unlocked(s, i, a);
    var w := s.cells[l].waiters;
    SoleOwner(s, i, a);
    UnlockedOps(s, i, a, i);
    forall j | j in s.ops ensures Owns(v.ops[j], l) <==> w != [] && j == w[0] {
      UnlockedOps(s, i, a, j);
      assert j in Owners(s, l) <==> j == i;
      assert j in w <==> WaitsOn(s.ops[j], l);
    }
    assert w != [] ==> w[0] in w;
    OwnersAre(v, l, if w == [] then {} else {w[0]});
    forall j ensures j in v.cells[l].waiters <==> j in v.ops && WaitsOn(v.ops[j], l) {
      if j in s.ops {
        UnlockedOps(s, i, a, j);
      }
      assert j in w <==> j in s.ops && WaitsOn(s.ops[j], l);
      assert w != [] ==> (j in w <==> j == w[0] || j in w[1..]);
    }
  }

  lemma UnlockedView(s: State, i: int, a: Address, j: int, m: Loc)
    requires MayUnlock(s, i, a) && j in s.ops && m != Loc(s.ops[i].key, a)
    ensures SameView(s.ops[j], Unlocked(s, i, a).ops[j], m)
  {
    UnlockedOps(s, i, a, j);
    var w := s.cells[Loc(s.ops[i].key, a)].waiters;
    if w != [] && j == w[0] {
      assert j in w;
    }
  }

  lemma UnlockedFrame(s: State, i: int, a: Address, m: Loc)
    requires MayUnlock(s, i, a) && m != Loc(s.ops[i].key, a)
    ensures SameAt(s, Unlocked(s, i, a), m)
  {
    UnlockedOps(s, i, a, i);
    forall j | j in s.ops ensures SameView(s.ops[j], Unlocked(s, i, a).ops[j], m) {
      UnlockedView(s, i, a, j, m);
    }
  }

  lemma UnlockedOpInv(s: State, i: int, a: Address, j: int)
    requires MayUnlock(s, i, a) && j in s.ops && OpInv(s.ops[j])
    ensures OpInv(Unlocked(s, i, a).ops[j])
  {
    UnlockedOps(s, i, a, j);
    var w := s.cells[Loc(s.ops[i].key, a)].waiters;
    if w != [] && j == w[0] {
      assert j in w;
    }
  }

  lemma UnlockKeepsInv(s: State, i: int, a: Address, t: State)
    requires Inv(s) && Enabled(s, i, Unlock(a)) && Next(s, i, Unlock(a), t)
    ensures Inv(t)
  {
    var l := Loc(s.ops[i].key, a);
    assert CellInv(s, l);
    Linked(s, i, l);
    var v := Unlocked(s, i, a);
    UnlockedOps(s, i, a, i);
    UnlockedCell(s, i, a);
    forall m | m != l ensures SameAt(s, v, m) {
      UnlockedFrame(s, i, a, m);
    }
    forall j | j in v.ops ensures OpInv(v.ops[j]) {
      UnlockedOpInv(s, i, a, j);
    }
    SameCounts(s, v);
    CollectKeepsInv(s, v, l);
  }

  lemma {:induction false} PlanLocs(key: int, plan: seq<Address>)
    requires Increasing(plan)
    ensures |set a | a in plan :: Loc(key, a)| == |plan|
    decreases |plan|
  {
    if plan != [] {
      var n := |plan| - 1;
      PlanLocs(key, plan[..n]);
      assert plan == plan[..n] + [plan[n]];
      assert (set a | a in plan :: Loc(key, a)) == (set a | a in plan[..n] :: Loc(key, a)) + {Loc(key, plan[n])};
      assert plan[n] !in plan[..n];
    }
  }

  lemma LockFreshCell(s: State, i: int, m: Loc)
    requires Inv(s) && i in s.ops && s.ops[i].phase == Starting && s.ops[i].key !in s.counts
    ensures CellInv(LockFresh(s, i), m)
  {
    var o, t := s.ops[i], LockFresh(s, i);
    assert CellInv(s, m);
    assert !Owns(o, m) && !RefersTo(o, m) && !WaitsOn(o, m);
    if m.key == o.key {
      NoCellYet(s, m);
      assert m in Locs(o) <==> m.addr in o.plan;
      assert RefersTo(t.ops[i], m) <==> m in Locs(o);
      OwnersAre(t, m, if m in Locs(o) then {i} else {});
    } else {
      assert m !in Locs(o);
      SameCell(s, t, m);
    }
  }

  lemma NoCellYet(s: State, m: Loc)
    requires Inv(s) && m.key !in s.counts
    ensures m !in s.cells && forall j :: j in s.ops ==> !RefersTo(s.ops[j], m)
  {
    assert CellInv(s, m);
    assert m.key in s.counts <==> CellsOf(s, m.key) != {};
    assert m in s.cells ==> m in CellsOf(s, m.key);
  }

  lemma LockFreshKeepsInv(s: State, i: int)
    requires Inv(s) && i in s.ops && s.ops[i].phase == Starting && s.ops[i].key !in s.counts
    ensures Inv(LockFresh(s, i))
  {
    forall m ensures CellInv(LockFresh(s, i), m) {
      LockFreshCell(s, i, m);
    }
    LockFreshCounts(s, i);
  }

  lemma LockFreshCounts(s: State, i: int)
    requires Inv(s) && i in s.ops && s.ops[i].phase == Starting && s.ops[i].key !in s.counts
    ensures CountsInv(LockFresh(s, i))
  {
    var o, t := s.ops[i], LockFresh(s, i);
    PlanLocs(o.key, o.plan);
    assert CellsOf(s, o.key) == {};
    assert forall m :: m in Locs(o) ==> m.key == o.key;
    assert forall m :: m in t.cells <==> m in s.cells || m in Locs(o);
    forall m ensures m in CellsOf(t, o.key) <==> m in Locs(o) {
      assert m in CellsOf(s, o.key) <==> m in s.cells && m.key == o.key;
    }
    assert CellsOf(t, o.key) == Locs(o);
    forall k | k != o.key ensures CellsOf(t, k) == CellsOf(s, k) {
    }
    if o.plan != [] {
      assert Loc(o.key, o.plan[0]) in Locs(o);
    }
  }
}
