/**
  Runs of the cell locker: what holds in every reachable state, why nobody waits forever,
  and in which order a mutation's cells are visited.
*/
module CellLockingRuns {
  import opened CellLocking
  import opened Sequences

  lemma BeginKeepsInv(s: State, i: int, t: State)
    requires Inv(s) && Enabled(s, i, Begin) && Next(s, i, Begin, t)
    ensures Inv(t)
  {
    var o := s.ops[i];
    if o.key !in s.counts {
      LockFreshKeepsInv(s, i);
    } else if o.plan == [] {
      QuietKeepsInv(s, t, i);
    } else {
      TakeUpKeepsInv(s, i);
    }
  }

  lemma ContinueKeepsInv(s: State, i: int, t: State)
    requires Inv(s) && Enabled(s, i, Continue) && Next(s, i, Continue, t)
    ensures Inv(t)
  {
    Alive(s, i);
    if s.ops[i].next == |s.ops[i].plan| {
      QuietKeepsInv(s, t, i);
    } else {
      TakeUpKeepsInv(s, i);
    }
  }

  lemma StepKeepsInv(s: State, i: int, act: Action, t: State)
    requires Inv(s) && Enabled(s, i, act) && Next(s, i, act, t)
    ensures Inv(t)
  {
    match act
    case Begin => BeginKeepsInv(s, i, t);
    case Continue => ContinueKeepsInv(s, i, t);
    case RunGranted => RunGrantedKeepsInv(s, i, t);
    case Expire => ExpireKeepsInv(s, i, t);
    case Unlock(a) => UnlockKeepsInv(s, i, a, t);
    case DropAwaited => DropAwaitedKeepsInv(s, i, t);
    case Finish => QuietKeepsInv(s, t, i);
  }

  // ---- Every reachable state ----

  // An empty locker and calls yet to be made
  predicate Initial(s: State) {
    && s.cells == map[] && s.counts == map[]
    && forall i :: i in s.ops ==>
      s.ops[i].phase == Starting && s.ops[i].next == 0 && s.ops[i].held == {} && Increasing(s.ops[i].plan)
  }

  lemma InitialInv(s: State)
    requires Initial(s)
    ensures Inv(s)
  {
    forall k ensures CellsOf(s, k) == {} {
    }
    forall l ensures CellInv(s, l) {
      assert forall i :: i in s.ops ==> !RefersTo(s.ops[i], l);
    }
  }

  ghost predicate StepTo(s: State, t: State) {
    exists i, act :: Enabled(s, i, act) && Next(s, i, act, t)
  }

  ghost predicate IsRun(run: seq<State>) {
    && run != [] && Initial(run[0])
    && forall k :: 0 < k < |run| ==> StepTo(run[k - 1], run[k])
  }

  lemma RunPrefix(run: seq<State>)
    requires IsRun(run) && |run| > 1
    ensures var k := |run| - 1; IsRun(run[..k]) && run[..k][0] == run[0] && run[..k][k - 1] == run[k - 1]
    ensures StepTo(run[|run| - 2], run[|run| - 1])
  {
  }

  lemma {:induction false} Reachable(run: seq<State>)
    requires IsRun(run)
    ensures Inv(run[|run| - 1])
    decreases |run|
  {
    var n := |run| - 1;
    if n == 0 {
      InitialInv(run[0]);
    } else {
      var s, t := run[n - 1], run[n];
      Reachable(run[..n]);
      assert run[..n][n - 1] == s;
      assert StepTo(s, t);
      var i, act :| Enabled(s, i, act) && Next(s, i, act, t);
      StepKeepsInv(s, i, act, t);
    }
  }

  // No two operations have the same cell; its semaphore accounts for them; counters and entries agree
  lemma RunsAreSafe(run: seq<State>)
    requires IsRun(run)
    ensures var s := run[|run| - 1];
      && (forall l :: l in s.cells ==> s.cells[l].units + |Owners(s, l)| == 1)
      && (forall l :: l in s.cells && s.cells[l].waiters != [] ==> s.cells[l].units == 0)
      && (forall i, j, l :: i in s.ops && j in s.ops && i != j && Owns(s.ops[i], l) ==> !Owns(s.ops[j], l))
      && (forall i, a :: i in s.ops && a in s.ops[i].held ==> Loc(s.ops[i].key, a) in s.cells)
      && (forall i :: i in s.ops && s.ops[i].phase in {Running, Waiting, Granted} ==> s.ops[i].key in s.counts)
      && (forall k :: k in s.counts ==> s.counts[k] == |CellsOf(s, k)| > 0)
  {
    Reachable(run);
    var s := run[|run| - 1];
    forall l | l in s.cells ensures s.cells[l].units + |Owners(s, l)| == 1
        && (s.cells[l].waiters != [] ==> s.cells[l].units == 0) {
      assert CellInv(s, l);
    }
    forall i, a | i in s.ops && a in s.ops[i].held ensures Loc(s.ops[i].key, a) in s.cells {
      Linked(s, i, Loc(s.ops[i].key, a));
    }
    forall i, j, l | i in s.ops && j in s.ops && i != j && Owns(s.ops[i], l) ensures !Owns(s.ops[j], l) {
      Exclusive(s, i, j, l);
    }
    forall i | i in s.ops && s.ops[i].phase in {Running, Waiting, Granted} ensures s.ops[i].key in s.counts {
      Alive(s, i);
    }
    forall k | k in s.counts ensures s.counts[k] == |CellsOf(s, k)| > 0 {
    }
  }

  lemma Exclusive(s: State, i: int, j: int, l: Loc)
    requires Inv(s) && i in s.ops && j in s.ops && Owns(s.ops[i], l) && i != j
    ensures !Owns(s.ops[j], l)
  {
    if Owns(s.ops[j], l) {
      Linked(s, i, l);
      assert CellInv(s, l);
      assert {i, j} <= Owners(s, l);
      Subset({i, j}, Owners(s, l));
      assert false;
    }
  }

  // A call that completes has exactly the cells it asked for
  lemma CompletesWithAll(s: State, i: int, act: Action, t: State)
    requires Inv(s) && Enabled(s, i, act) && Next(s, i, act, t)
    requires s.ops[i].phase != Locked && i in t.ops && t.ops[i].phase == Locked
    ensures t.ops[i].held == set a | a in s.ops[i].plan
  {
    var o := s.ops[i];
    if act == Begin && o.key in s.counts && o.plan != [] {
      assert false;
    }
    if act == Continue && o.next == |o.plan| {
      forall a | a in o.plan ensures a in o.held {
        var k :| 0 <= k < |o.plan| && o.plan[k] == a;
      }
    }
  }

  // Once every call is over nothing is left behind
  lemma AllFinishedIsEmpty(s: State)
    requires Inv(s) && forall i :: i in s.ops ==> s.ops[i].phase == Finished
    ensures s.cells == map[] && s.counts == map[]
  {
    forall l ensures l !in s.cells {
      assert CellInv(s, l);
      assert forall i :: i in s.ops ==> !RefersTo(s.ops[i], l);
    }
    forall k ensures k !in s.counts {
      assert CellsOf(s, k) == {};
    }
  }

  // ---- Nobody waits forever ----

  // Operation i is queued on a cell that j has
  predicate WaitsFor(s: State, i: int, j: int) {
    && i in s.ops && j in s.ops && s.ops[i].phase == Waiting && 0 < s.ops[i].next <= |s.ops[i].plan|
    && Owns(s.ops[j], Loc(s.ops[i].key, Awaited(s.ops[i])))
  }

  // Every queued operation waits for somebody
  lemma WaitsForSomebody(s: State, i: int) returns (j: int)
    requires Inv(s) && i in s.ops && s.ops[i].phase == Waiting
    ensures WaitsFor(s, i, j)
  {
    var l := Loc(s.ops[i].key, Awaited(s.ops[i]));
    Linked(s, i, l);
    assert CellInv(s, l);
    assert i in s.cells[l].waiters;
    if forall x :: x in s.ops ==> !Owns(s.ops[x], l) {
      OwnersAre(s, l, {});
      assert false;
    }
    j :| j in s.ops && Owns(s.ops[j], l);
  }

  // and, if that one is queued too, it is on a later cell of the same partition
  lemma WaitsForRises(s: State, i: int, j: int)
    requires Inv(s) && WaitsFor(s, i, j) && s.ops[j].phase == Waiting
    ensures s.ops[j].key == s.ops[i].key && Less(Awaited(s.ops[i]), Awaited(s.ops[j]))
  {
    assert OpInv(s.ops[j]);
  }

  ghost predicate Chain(s: State, path: seq<int>) {
    path != [] && forall k :: 0 < k < |path| ==> WaitsFor(s, path[k - 1], path[k])
  }

  // No operation waits, directly or through others, for itself
  lemma {:induction false} NoCycle(s: State, path: seq<int>)
    requires Inv(s) && Chain(s, path) && |path| > 1
    requires path[|path| - 1] in s.ops && s.ops[path[|path| - 1]].phase == Waiting
    ensures path[0] in s.ops && s.ops[path[0]].phase == Waiting && OpInv(s.ops[path[0]]) && OpInv(s.ops[path[|path| - 1]])
    ensures Less(Awaited(s.ops[path[0]]), Awaited(s.ops[path[|path| - 1]]))
    ensures path[0] != path[|path| - 1]
    decreases |path|
  {
    var n := |path| - 1;
    assert WaitsFor(s, path[n - 1], path[n]);
    WaitsForRises(s, path[n - 1], path[n]);
    if n > 1 {
      NoCycle(s, path[..n]);
    }
  }

  // The queued operations on cells after a
  function Above(s: State, a: Address): (r: set<int>) {
    set i | i in s.ops && s.ops[i].phase == Waiting && 0 < s.ops[i].next <= |s.ops[i].plan| && Less(a, Awaited(s.ops[i]))
  }

  // Following who waits for whom leads to an operation that is not queued, so may go on
  lemma {:induction false} LeadsToOneThatCanGoOn(s: State, i: int) returns (path: seq<int>)
    requires Inv(s) && i in s.ops && s.ops[i].phase == Waiting
    ensures Chain(s, path) && |path| > 1 && path[0] == i
    ensures var j := path[|path| - 1]; j in s.ops && s.ops[j].phase !in {Waiting, Finished}
    decreases |Above(s, Awaited(s.ops[i]))|
  {
    var j := WaitsForSomebody(s, i);
    if s.ops[j].phase == Waiting {
      WaitsForRises(s, i, j);
      var a, b := Awaited(s.ops[i]), Awaited(s.ops[j]);
      assert j in Above(s, a) && j !in Above(s, b);
      forall x | x in Above(s, b) ensures x in Above(s, a) - {j} {
      }
      Subset(Above(s, b), Above(s, a) - {j});
      var rest := LeadsToOneThatCanGoOn(s, j);
      path := [i] + rest;
      forall k | 0 < k < |path| ensures WaitsFor(s, path[k - 1], path[k]) {
        assert k > 1 ==> path[k - 1] == rest[k - 2] && path[k] == rest[k - 1];
      }
    } else {
      path := [i, j];
      assert OpInv(s.ops[j]);
    }
  }

  // It has a step of its own, other than giving up
  lemma CanStep(s: State, i: int) returns (act: Action, t: State)
    requires Inv(s) && i in s.ops && s.ops[i].phase !in {Waiting, Finished}
    ensures act != Expire && Enabled(s, i, act) && Next(s, i, act, t)
  {
    var o := s.ops[i];
    if o.phase == Starting {
      act := Begin;
      t := if o.key !in s.counts then LockFresh(s, i)
           else if o.plan == [] then s.(ops := s.ops[i := o.(phase := Locked)])
           else TakeUp(s, i);
    } else if o.phase == Running {
      Alive(s, i);
      act := Continue;
      t := if o.next == |o.plan| then s.(ops := s.ops[i := o.(phase := Locked)]) else TakeUp(s, i);
    } else if o.phase == Granted {
      act := RunGranted;
      t := s.(ops := s.ops[i := o.(held := o.held + {Awaited(o)}, phase := Running)]);
    } else if o.phase == TimedOut {
      act := DropAwaited;
      Linked(s, i, Loc(o.key, Awaited(o)));
      t := Collect(s.(ops := s.ops[i := o.(phase := Aborting)]), Loc(o.key, Awaited(o)));
    } else if o.held == {} {
      act, t := Finish, s.(ops := s.ops[i := o.(phase := Finished)]);
    } else {
      var a :| a in o.held;
      act := Unlock(a);
      Linked(s, i, Loc(o.key, a));
      t := Collect(Unlocked(s, i, a), Loc(o.key, a));
    }
  }

  // and a queued one can give up at any time
  lemma CanExpire(s: State, i: int) returns (t: State)
    requires Inv(s) && i in s.ops && s.ops[i].phase == Waiting
    ensures Next(s, i, Expire, t)
  {
    var o := s.ops[i];
    var l := Loc(o.key, Awaited(o));
    Linked(s, i, l);
    assert CellInv(s, l);
    var w := s.cells[l].waiters;
    assert i in w;
    var k :| 0 <= k < |w| && w[k] == i;
    var rest := w[..k] + w[k + 1..];
    t := State(s.ops[i := o.(phase := TimedOut)], s.cells[l := Entry(s.cells[l].units, rest)], s.counts);
    assert Without(w, rest, i);
  }

  // A state without such a step is one where every call is over and the locker is empty
  lemma StuckMeansDone(s: State)
    requires Inv(s)
    requires forall i, act, t :: act != Expire && Enabled(s, i, act) ==> !Next(s, i, act, t)
    ensures forall i :: i in s.ops ==> s.ops[i].phase == Finished
    ensures s.cells == map[] && s.counts == map[]
  {
    forall i | i in s.ops ensures s.ops[i].phase == Finished {
      if s.ops[i].phase == Waiting {
        var path := LeadsToOneThatCanGoOn(s, i);
        var act, t := CanStep(s, path[|path| - 1]);
        assert false;
      } else if s.ops[i].phase != Finished {
        var act, t := CanStep(s, i);
        assert false;
      }
    }
    AllFinishedIsEmpty(s);
  }

  // Steps an operation may still take
  function Weight(o: Op): (w: nat)
    requires o.next <= |o.plan|
  {
    var rest := 5 * (|o.plan| - o.next);
    match o.phase
    case Finished => 0
    case Locked => 1 + |o.held|
    case Aborting => 1 + |o.held|
    case TimedOut => 2 + |o.held|
    case Running => 2 + |o.held| + rest
    case Granted => 4 + |o.held| + rest
    case Waiting => 5 + |o.held| + rest
    case Starting => 3 + rest
  }

  lemma {:induction false} PlanSize(plan: seq<Address>)
    ensures |set a | a in plan| <= |plan|
    decreases |plan|
  {
    if plan != [] {
      PlanSize(plan[1..]);
      assert (set a | a in plan) == {plan[0]} + (set a | a in plan[1..]);
    }
  }

  lemma TakeUpLightens(s: State, i: int)
    requires MayTakeUp(s, i) && OpInv(s.ops[i])
    ensures var t := TakeUp(s, i);
      && t.ops == s.ops[i := t.ops[i]] && t.ops[i].next <= |t.ops[i].plan|
      && Weight(t.ops[i]) < Weight(s.ops[i])
  {
    TakeUpOps(s, i);
    OneMoreWeighs(s.ops[i], TakeUp(s, i).ops[i], s.ops[i].plan[s.ops[i].next]);
  }

  // What taking up a cell does to the operation
  predicate OneMore(o: Op, p: Op, a: Address) {
    && p.next == o.next + 1 && p.plan == o.plan
    && ((p.phase == Running && p.held == o.held + {a}) || (p.phase in {Granted, Waiting} && p.held == o.held))
  }

  lemma TakeUpOps(s: State, i: int)
    requires MayTakeUp(s, i)
    ensures var t := TakeUp(s, i);
      i in t.ops && t.ops == s.ops[i := t.ops[i]] && OneMore(s.ops[i], t.ops[i], s.ops[i].plan[s.ops[i].next])
  {
  }

  lemma OneMoreWeighs(o: Op, p: Op, a: Address)
    requires o.next < |o.plan| && (o.phase == Running || (o.phase == Starting && o.held == {}))
    requires OneMore(o, p, a)
    ensures Weight(p) < Weight(o)
  {
    assert |o.held + {a}| <= |o.held| + 1;
  }

  lemma BeginLightens(s: State, i: int, t: State)
    requires Inv(s) && Enabled(s, i, Begin) && Next(s, i, Begin, t)
    ensures i in t.ops && t.ops == s.ops[i := t.ops[i]] && t.ops[i].next <= |t.ops[i].plan|
    ensures Weight(t.ops[i]) < Weight(s.ops[i])
  {
    var o := s.ops[i];
    assert OpInv(o);
    if o.key in s.counts && o.plan != [] {
      TakeUpLightens(s, i);
    } else {
      PlanSize(o.plan);
    }
  }

  lemma OwnStepLightens(s: State, i: int, act: Action, t: State)
    requires Inv(s) && Enabled(s, i, act) && Next(s, i, act, t) && !act.Unlock?
    ensures i in t.ops && t.ops == s.ops[i := t.ops[i]] && t.ops[i].next <= |t.ops[i].plan|
    ensures Weight(t.ops[i]) < Weight(s.ops[i])
  {
    var o := s.ops[i];
    assert OpInv(o);
    match act
    case Begin => BeginLightens(s, i, t);
    case Continue =>
      Alive(s, i);
      if o.next < |o.plan| {
        TakeUpLightens(s, i);
      }
    case RunGranted =>
    case Expire =>
    case DropAwaited => Linked(s, i, Loc(o.key, Awaited(o)));
    case Finish =>
  }

  lemma ReleasedWeight(o: Op, a: Address)
    requires OpInv(o) && o.phase in {Locked, TimedOut, Aborting} && a in o.held
    ensures Weight(o.(held := o.held - {a})) < Weight(o)
  {
  }

  lemma GrantedWeight(o: Op)
    requires OpInv(o) && o.phase == Waiting
    ensures Weight(o.(phase := Granted)) < Weight(o)
  {
  }

  lemma UnlockLightens(s: State, i: int, a: Address, t: State, j: int)
    requires Inv(s) && Enabled(s, i, Unlock(a)) && Next(s, i, Unlock(a), t) && j in s.ops
    ensures t.ops.Keys == s.ops.Keys && t.ops[j].next <= |t.ops[j].plan|
    ensures if j == i then Weight(t.ops[j]) < Weight(s.ops[j]) else Weight(t.ops[j]) <= Weight(s.ops[j])
  {
    var l := Loc(s.ops[i].key, a);
    Linked(s, i, l);
    assert CellInv(s, l);
    UnlockedOps(s, i, a, j);
    assert t.ops == Unlocked(s, i, a).ops;
    var w := s.cells[l].waiters;
    if j == i {
      ReleasedWeight(s.ops[i], a);
    } else if w != [] && j == w[0] {
      assert j in w;
      GrantedWeight(s.ops[j]);
    }
  }

  // The steps the operations numbered below n may still take
  function Total(s: State, n: nat): (w: nat)
    requires OpsInv(s)
  {
    if n == 0 then 0
    else Total(s, n - 1) + if n - 1 in s.ops then Weight(s.ops[n - 1]) else 0
  }

  lemma {:induction false} TotalLightens(s: State, t: State, i: int, n: nat)
    requires OpsInv(s) && OpsInv(t) && t.ops.Keys == s.ops.Keys && i in s.ops
    requires forall j :: j in s.ops ==> j in t.ops && Weight(t.ops[j]) <= Weight(s.ops[j])
    requires Weight(t.ops[i]) < Weight(s.ops[i])
    ensures Total(t, n) + (if 0 <= i < n then 1 else 0) <= Total(s, n)
  {
    if n > 0 {
      TotalLightens(s, t, i, n - 1);
      assert n - 1 in t.ops <==> n - 1 in s.ops by {
        assert n - 1 in t.ops <==> n - 1 in t.ops.Keys;
      }
    }
  }

  lemma StepLightens(s: State, i: int, act: Action, t: State, n: nat)
    requires Inv(s) && Enabled(s, i, act) && Next(s, i, act, t) && 0 <= i < n
    ensures Inv(t) && t.ops.Keys == s.ops.Keys && Total(t, n) < Total(s, n)
  {
    StepKeepsInv(s, i, act, t);
    if act.Unlock? {
      UnlockLightens(s, i, act.a, t, i);
      forall j | j in s.ops ensures j in t.ops && Weight(t.ops[j]) <= Weight(s.ops[j]) {
        UnlockLightens(s, i, act.a, t, j);
      }
    } else {
      OwnStepLightens(s, i, act, t);
    }
    TotalLightens(s, t, i, n);
  }

  lemma AnyStepLightens(s: State, t: State, n: nat)
    requires Inv(s) && StepTo(s, t) && forall i :: i in s.ops.Keys ==> 0 <= i < n
    ensures Inv(t) && t.ops.Keys == s.ops.Keys && Total(t, n) < Total(s, n)
  {
    var i, act :| Enabled(s, i, act) && Next(s, i, act, t);
    assert i in s.ops.Keys;
    StepLightens(s, i, act, t, n);
  }

  // No run goes on for ever: so every run, continued while it can be, ends with all calls over
  lemma {:induction false} RunsAreFinite(run: seq<State>, n: nat)
    requires IsRun(run) && forall i :: i in run[0].ops.Keys ==> 0 <= i < n
    ensures Inv(run[0]) && Inv(run[|run| - 1]) && run[|run| - 1].ops.Keys == run[0].ops.Keys
    ensures |run| - 1 + Total(run[|run| - 1], n) <= Total(run[0], n)
    decreases |run|
  {
    var k := |run| - 1;
    if k == 0 {
      InitialInv(run[0]);
    } else {
      RunPrefix(run);
      RunsAreFinite(run[..k], n);
      AnyStepLightens(run[k - 1], run[k], n);
    }
  }

  // ---- First come, first served ----

  // a comes before b in a queue
  predicate Ahead(w: seq<int>, a: int, b: int) {
    exists p, q :: 0 <= p < q < |w| && w[p] == a && w[q] == b
  }

  // When a leaves first, or stays, the two keep their order; b cannot be served while a still waits
  ghost predicate InOrder(s: State, t: State, l: Loc, a: int, b: int)
    requires l in s.cells
  {
    Ahead(s.cells[l].waiters, a, b) && a in t.ops && WaitsOn(t.ops[a], l) && b in t.ops ==>
      if WaitsOn(t.ops[b], l) then l in t.cells && Ahead(t.cells[l].waiters, a, b)
      else t.ops[b].phase == TimedOut
  }

  lemma AheadAppend(w: seq<int>, x: int, a: int, b: int)
    requires Ahead(w, a, b)
    ensures Ahead(w + [x], a, b)
  {
    var p, q :| 0 <= p < q < |w| && w[p] == a && w[q] == b;
    assert (w + [x])[p] == a && (w + [x])[q] == b;
  }

  lemma AheadWithout(was: seq<int>, now: seq<int>, i: int, a: int, b: int)
    requires Distinct(was) && Without(was, now, i) && Ahead(was, a, b) && a != i && b != i
    ensures Ahead(now, a, b)
  {
    var p, q :| 0 <= p < q < |was| && was[p] == a && was[q] == b;
    var k :| 0 <= k < |was| && was[k] == i && now == was[..k] + was[k + 1..];
    WithoutAt(was, k, p);
    WithoutAt(was, k, q);
    assert now[Moved(k, p)] == a && now[Moved(k, q)] == b;
  }

  // Where the element at p is once the one at k is gone
  function Moved(k: nat, p: nat): (r: int) {
    if p < k then p else p - 1
  }

  lemma WithoutAt(w: seq<int>, k: nat, p: nat)
    requires k < |w| && p < |w| && p != k
    ensures 0 <= Moved(k, p) < |w| - 1 && (w[..k] + w[k + 1..])[Moved(k, p)] == w[p]
  {
  }

  lemma AheadTail(w: seq<int>, a: int, b: int)
    requires Ahead(w, a, b) && Distinct(w)
    ensures w != [] && b != w[0] && (a != w[0] ==> Ahead(w[1..], a, b))
  {
    var p, q :| 0 <= p < q < |w| && w[p] == a && w[q] == b;
    if a != w[0] {
      assert w[1..][p - 1] == a && w[1..][q - 1] == b;
    }
  }

  // Queues of other cells stay as they are
  lemma SameQueue(s: State, t: State, l: Loc, a: int, b: int)
    requires Inv(s) && Inv(t) && l in s.cells && SameAt(s, t, l)
    ensures InOrder(s, t, l, a, b)
  {
    assert CellInv(s, l) && CellInv(t, l);
    if Ahead(s.cells[l].waiters, a, b) {
      assert a in s.cells[l].waiters && b in s.cells[l].waiters;
    }
  }

  lemma TakeUpInOrder(s: State, i: int, l: Loc, a: int, b: int)
    requires Inv(s) && MayTakeUp(s, i) && l in s.cells
    ensures InOrder(s, TakeUp(s, i), l, a, b)
  {
    var t := TakeUp(s, i);
    var m := Loc(s.ops[i].key, s.ops[i].plan[s.ops[i].next]);
    TakeUpKeepsInv(s, i);
    TakeUpFrame(s, i, m);
    assert CellInv(s, l);
    if l != m {
      SameQueue(s, t, l, a, b);
    } else if Ahead(s.cells[l].waiters, a, b) {
      AheadAppend(s.cells[l].waiters, i, a, b);
      assert b in s.cells[l].waiters;
      assert b != i;
    }
  }

  lemma ExpireInOrder(s: State, i: int, t: State, l: Loc, a: int, b: int)
    requires Inv(s) && Enabled(s, i, Expire) && Next(s, i, Expire, t) && l in s.cells
    ensures InOrder(s, t, l, a, b)
  {
    var m := Loc(s.ops[i].key, Awaited(s.ops[i]));
    ExpireKeepsInv(s, i, t);
    assert CellInv(s, l) && CellInv(t, l);
    if Ahead(s.cells[l].waiters, a, b) {
      assert a in s.cells[l].waiters && b in s.cells[l].waiters;
      if l == m && a != i && b != i {
        AheadWithout(s.cells[l].waiters, t.cells[l].waiters, i, a, b);
      }
    }
  }

  lemma UnlockInOrder(s: State, i: int, x: Address, t: State, l: Loc, a: int, b: int)
    requires Inv(s) && Enabled(s, i, Unlock(x)) && Next(s, i, Unlock(x), t) && l in s.cells
    ensures InOrder(s, t, l, a, b)
  {
    var m := Loc(s.ops[i].key, x);
    UnlockKeepsInv(s, i, x, t);
    assert CellInv(s, l) && CellInv(s, m) && CellInv(t, l);
    Linked(s, i, m);
    var w := s.cells[l].waiters;
    if Ahead(w, a, b) && l != m {
      assert a in w && b in w;
      UnlockedFrame(s, i, x, l);
    } else if Ahead(w, a, b) {
      assert a in w && b in w;
      AheadTail(w, a, b);
      UnlockedOps(s, i, x, a);
      UnlockedOps(s, i, x, b);
    }
  }

  lemma DropAwaitedInOrder(s: State, i: int, t: State, l: Loc, a: int, b: int)
    requires Inv(s) && Enabled(s, i, DropAwaited) && Next(s, i, DropAwaited, t) && l in s.cells
    ensures InOrder(s, t, l, a, b)
  {
    DropAwaitedKeepsInv(s, i, t);
    assert CellInv(s, l) && CellInv(t, l);
    Linked(s, i, Loc(s.ops[i].key, Awaited(s.ops[i])));
    if Ahead(s.cells[l].waiters, a, b) {
      assert a in s.cells[l].waiters && b in s.cells[l].waiters;
    }
  }

  // No step of anybody lets a later waiter be served before an earlier one
  lemma FirstComeFirstServed(s: State, i: int, act: Action, t: State, l: Loc, a: int, b: int)
    requires Inv(s) && Enabled(s, i, act) && Next(s, i, act, t) && l in s.cells
    ensures InOrder(s, t, l, a, b)
  {
    var o := s.ops[i];
    if act == Expire {
      ExpireInOrder(s, i, t, l, a, b);
    } else if act.Unlock? {
      UnlockInOrder(s, i, act.a, t, l, a, b);
    } else if act == DropAwaited {
      DropAwaitedInOrder(s, i, t, l, a, b);
    } else if act == Begin && o.key !in s.counts {
      FreshInOrder(s, i, l, a, b);
    } else if act == Begin && o.plan != [] {
      TakeUpInOrder(s, i, l, a, b);
    } else if act == Continue && o.next < |o.plan| {
      Alive(s, i);
      TakeUpInOrder(s, i, l, a, b);
    } else {
      QuietInOrder(s, i, t, l, a, b);
    }
  }

  lemma FreshInOrder(s: State, i: int, l: Loc, a: int, b: int)
    requires Inv(s) && i in s.ops && s.ops[i].phase == Starting && s.ops[i].key !in s.counts && l in s.cells
    ensures InOrder(s, LockFresh(s, i), l, a, b)
  {
    assert CellInv(s, l);
    assert l in CellsOf(s, l.key);
    assert l !in Locs(s.ops[i]);
    assert Ahead(s.cells[l].waiters, a, b) ==> b in s.cells[l].waiters;
  }

  lemma QuietInOrder(s: State, i: int, t: State, l: Loc, a: int, b: int)
    requires Inv(s) && i in s.ops && s.ops[i].phase != Waiting && l in s.cells
    requires i in t.ops && t == s.(ops := s.ops[i := t.ops[i]])
    ensures InOrder(s, t, l, a, b)
  {
    assert CellInv(s, l);
    assert Ahead(s.cells[l].waiters, a, b) ==> b in s.cells[l].waiters;
  }

  // ---- The order of a mutation's cells ----

  // cells_range: a row's position and its column ids
  datatype Cells = Cells(row: int, ids: seq<int>)

  // partition_cells_range: the static row, then the clustered rows in order, each row's columns in order
  predicate ValidRange(range: seq<Cells>) {
    && (forall i, j :: 0 <= i < j < |range| ==> range[i].row < range[j].row)
    && (forall i, x, y :: 0 <= i < |range| && 0 <= x < y < |range[i].ids| ==> range[i].ids[x] < range[i].ids[y])
  }

  // What is left of it when `cell` columns of row `ck` were visited
  function Rest(range: seq<Cells>, ck: nat, cell: nat): (plan: seq<Address>)
    decreases |range| - ck, if ck < |range| then |range[ck].ids| - cell else 0
  {
    if ck >= |range| then []
    else if cell >= |range[ck].ids| then Rest(range, ck + 1, 0)
    else [Address(range[ck].row, range[ck].ids[cell])] + Rest(range, ck, cell + 1)
  }

  // The walk of lock_next(): skips exhausted and empty rows
  method NextCell(range: seq<Cells>, ck0: nat, cell0: nat) returns (done: bool, a: Address, ck: nat, cell: nat)
    ensures Rest(range, ck0, cell0) == if done then [] else [a] + Rest(range, ck, cell)
  {
    ck, cell := ck0, cell0;
    done, a := true, Address(0, 0);
    while ck < |range|
      invariant Rest(range, ck, cell) == Rest(range, ck0, cell0)
      decreases |range| - ck
    {
      if cell >= |range[ck].ids| {
        ck, cell := ck + 1, 0;
      } else {
        done, a, cell := false, Address(range[ck].row, range[ck].ids[cell]), cell + 1;
        return;
      }
    }
  }

  // The two loops of lock_cells() over the cells of a partition that has no entry
  method AllCells(range: seq<Cells>) returns (plan: seq<Address>)
    ensures plan == Rest(range, 0, 0)
  {
    plan := [];
    for ck := 0 to |range|
      invariant plan + Rest(range, ck, 0) == Rest(range, 0, 0)
    {
      var r := range[ck];
      for cell := 0 to |r.ids|
        invariant plan + Rest(range, ck, cell) == Rest(range, 0, 0)
      {
        Associative(plan, [Address(r.row, r.ids[cell])], Rest(range, ck, cell + 1));
        plan := plan + [Address(r.row, r.ids[cell])];
      }
    }
  }

  // Later cells come later, so calls on any two mutations take common cells in the same order
  lemma {:induction false} RestFollows(range: seq<Cells>, ck: nat, cell: nat, k: nat)
    requires ValidRange(range) && k < |Rest(range, ck, cell)|
    ensures ck < |range|
    ensures var a := Rest(range, ck, cell)[k];
      || a.row > range[ck].row
      || (a.row == range[ck].row && exists x :: cell <= x < |range[ck].ids| && a.column == range[ck].ids[x])
    decreases |range| - ck, if ck < |range| then |range[ck].ids| - cell else 0
  {
    if cell >= |range[ck].ids| {
      RestFollows(range, ck + 1, 0, k);
    } else if k > 0 {
      RestFollows(range, ck, cell + 1, k - 1);
    }
  }

  lemma {:induction false} RestIncreasing(range: seq<Cells>, ck: nat, cell: nat)
    requires ValidRange(range)
    ensures Increasing(Rest(range, ck, cell))
    decreases |range| - ck, if ck < |range| then |range[ck].ids| - cell else 0
  {
    if ck < |range| {
      if cell >= |range[ck].ids| {
        RestIncreasing(range, ck + 1, 0);
      } else {
        RestIncreasing(range, ck, cell + 1);
        var rest := Rest(range, ck, cell + 1);
        forall k | 0 <= k < |rest| ensures Less(Address(range[ck].row, range[ck].ids[cell]), rest[k]) {
          RestFollows(range, ck, cell + 1, k);
        }
      }
    }
  }

  // The mutation writes the cell
  predicate HasCell(range: seq<Cells>, a: Address) {
    exists r, x :: 0 <= r < |range| && 0 <= x < |range[r].ids| && a == Address(range[r].row, range[r].ids[x])
  }

  // From a place on
  predicate HasCellFrom(range: seq<Cells>, ck: nat, cell: nat, a: Address) {
    exists r, x :: 0 <= r < |range| && 0 <= x < |range[r].ids| && (ck < r || (r == ck && cell <= x))
                   && a == Address(range[r].row, range[r].ids[x])
  }

  lemma {:induction false} RestIsRest(range: seq<Cells>, ck: nat, cell: nat, a: Address)
    ensures a in Rest(range, ck, cell) <==> HasCellFrom(range, ck, cell, a)
    decreases |range| - ck, if ck < |range| then |range[ck].ids| - cell else 0
  {
    if ck < |range| {
      if cell >= |range[ck].ids| {
        RestIsRest(range, ck + 1, 0, a);
        if HasCellFrom(range, ck, cell, a) {
          var r, x :| 0 <= r < |range| && 0 <= x < |range[r].ids| && (ck < r || (r == ck && cell <= x))
                      && a == Address(range[r].row, range[r].ids[x]);
          assert ck + 1 < r || (r == ck + 1 && 0 <= x);
        }
      } else {
        RestIsRest(range, ck, cell + 1, a);
        if HasCellFrom(range, ck, cell, a) && a != Address(range[ck].row, range[ck].ids[cell]) {
          var r, x :| 0 <= r < |range| && 0 <= x < |range[r].ids| && (ck < r || (r == ck && cell <= x))
                      && a == Address(range[r].row, range[r].ids[x]);
          assert ck < r || (r == ck && cell + 1 <= x);
        }
      }
    }
  }

  function CellCount(range: seq<Cells>): (n: nat) {
    if range == [] then 0 else |range[0].ids| + CellCount(range[1..])
  }

  lemma {:induction false} RestLength(range: seq<Cells>, ck: nat, cell: nat)
    requires ck < |range| && cell <= |range[ck].ids|
    ensures |Rest(range, ck, cell)| + cell == CellCount(range[ck..])
    decreases |range| - ck, |range[ck].ids| - cell
  {
    assert range[ck..][1..] == range[ck + 1..];
    if cell < |range[ck].ids| {
      RestLength(range, ck, cell + 1);
    } else if ck + 1 < |range| {
      RestLength(range, ck + 1, 0);
    }
  }

  /* The walk visits all cells of the mutation, each once, and no others. */
  lemma WalkIsComplete(range: seq<Cells>)
    requires ValidRange(range)
    ensures forall a :: a in Rest(range, 0, 0) <==> HasCell(range, a)
    ensures |Rest(range, 0, 0)| == CellCount(range) && Increasing(Rest(range, 0, 0))
  {
    forall a ensures a in Rest(range, 0, 0) <==> HasCell(range, a) {
      RestIsRest(range, 0, 0, a);
      if HasCell(range, a) {
        var r, x :| 0 <= r < |range| && 0 <= x < |range[r].ids| && a == Address(range[r].row, range[r].ids[x]);
        assert 0 < r || (r == 0 && 0 <= x);
      }
    }
    RestIncreasing(range, 0, 0);
    if range != [] {
      RestLength(range, 0, 0);
      assert range[0..] == range;
    }
  }

  // ---- Calls for mutations ----

  // lock_cells() calls, each for the cells of a mutation of one partition
  datatype Call = Call(key: int, range: seq<Cells>)

  function Started(calls: map<int, Call>): (s: State) {
    State(map i | i in calls :: Op(calls[i].key, Rest(calls[i].range, 0, 0), 0, {}, Starting), map[], map[])
  }

  lemma StartedIsInitial(calls: map<int, Call>)
    requires forall i :: i in calls ==> ValidRange(calls[i].range)
    ensures Initial(Started(calls))
  {
    forall i | i in calls ensures Increasing(Rest(calls[i].range, 0, 0)) {
      RestIncreasing(calls[i].range, 0, 0);
    }
  }

  predicate SamePlans(s: State, t: State) {
    s.ops.Keys == t.ops.Keys && forall i :: i in s.ops ==> s.ops[i].plan == t.ops[i].plan && s.ops[i].key == t.ops[i].key
  }

  lemma StepKeepsPlans(s: State, i: int, act: Action, t: State)
    requires Enabled(s, i, act) && Next(s, i, act, t)
    ensures SamePlans(s, t)
  {
    match act
    case Begin => assert t.ops.Keys == s.ops.Keys;
    case Continue => assert t.ops.Keys == s.ops.Keys;
    case RunGranted => assert t.ops.Keys == s.ops.Keys;
    case Expire => assert t.ops.Keys == s.ops.Keys;
    case Unlock(a) => UnlockKeepsPlans(s, i, a);
    case DropAwaited => assert t.ops.Keys == s.ops.Keys;
    case Finish => assert t.ops.Keys == s.ops.Keys;
  }

  lemma UnlockKeepsPlans(s: State, i: int, a: Address)
    requires i in s.ops && Loc(s.ops[i].key, a) in s.cells
    ensures SamePlans(s, Unlocked(s, i, a))
  {
    var v := Unlocked(s, i, a);
    assert v.ops.Keys == s.ops.Keys;
  }

  lemma {:induction false} RunKeepsPlans(run: seq<State>, n: nat)
    requires IsRun(run) && n < |run|
    ensures SamePlans(run[0], run[n])
  {
    if n > 0 {
      RunKeepsPlans(run, n - 1);
      assert StepTo(run[n - 1], run[n]);
      var i, act :| Enabled(run[n - 1], i, act) && Next(run[n - 1], i, act, run[n]);
      StepKeepsPlans(run[n - 1], i, act, run[n]);
    }
  }

  /* In every run, a call that gets its locks has those of the cells its mutation writes, and no others. */
  lemma LocksItsMutation(calls: map<int, Call>, run: seq<State>, n: nat, i: int, act: Action)
    requires (forall j :: j in calls ==> ValidRange(calls[j].range)) && IsRun(run) && run[0] == Started(calls)
    requires n + 1 < |run| && Enabled(run[n], i, act) && Next(run[n], i, act, run[n + 1])
    requires run[n].ops[i].phase != Locked && i in run[n + 1].ops && run[n + 1].ops[i].phase == Locked
    ensures i in calls && forall a :: a in run[n + 1].ops[i].held <==> HasCell(calls[i].range, a)
  {
    PlanOfCall(calls, run, n, i);
    ReachedInv(run, n);
    CompletesWithAll(run[n], i, act, run[n + 1]);
    WalkIsComplete(calls[i].range);
  }

  lemma PlanOfCall(calls: map<int, Call>, run: seq<State>, n: nat, i: int)
    requires IsRun(run) && run[0] == Started(calls) && n < |run| && i in run[n].ops
    ensures i in calls && run[n].ops[i].plan == Rest(calls[i].range, 0, 0)
  {
    RunKeepsPlans(run, n);
    assert i in run[0].ops.Keys;
  }

  lemma ReachedInv(run: seq<State>, n: nat)
    requires IsRun(run) && n < |run|
    ensures Inv(run[n])
  {
    var front := run[..n + 1];
    assert front[0] == run[0] && front[n] == run[n];
    assert IsRun(front) by {
      forall k | 0 < k < |front| ensures StepTo(front[k - 1], front[k]) {
        assert front[k - 1] == run[k - 1] && front[k] == run[k];
      }
    }
    Reachable(front);
  }
}
