/**
  Updates to one counter cell of one replica, over whole runs, and what other replicas may rely on.

  An update holds the cell's lock while it reads the stored cell, adds its delta to the local shard
  under a larger clock, and applies the result.  Writes may fail inside the memtable; each failure
  widens the step that clocks take from then on.  Deletions come at any time, without the lock.
*/
module CounterProtocol {
  import opened CounterCells
  import opened CounterUpdates
  import opened Wrappers

  // What a read of the cell may return
  type Kept = c: Cell | c.Live? || c.Dead? witness Dead(0, 0)

  // An update that holds the lock and has computed its shard
  datatype Pending = Pending(ts: int, shard: Shard, delta: int)

  // A local shard as it was computed: the clock read, the failures counted, and whether the cell was live
  datatype Emission = Emission(shard: Shard, read: int, failures: nat, live: bool)

  datatype Node = Node(
    local: int,                // this replica's id
    stored: Kept,
    failures: nat,             // _failed_counter_applies_to_memtable
    holder: Option<int>,       // the operation that holds the cell's lock
    pending: Option<Pending>,
    emitted: seq<Emission>,    // every local shard ever computed
    applied: int)              // the sum of the deltas that were applied

  datatype Action =
    | Lock(op: int)
    | Transform(ts: int, delta: int)  // read the cell, turn the delta into a shard
    | ApplyOk                         // the memtable took the write
    | ApplyFailed                     // it threw; the failure is counted
    | Unlock
    | OtherFailure                    // a write to another cell of the table failed
    | Remote(cell: Cell)              // another replica's state arrived
    | Delete(cell: Cell)              // a tombstone was applied, from here or from elsewhere

  function Current(s: Node): Option<Shard> {
    LocalShard(Some(s.stored), s.local)
  }

  function ClockOf(x: Option<Shard>): int {
    if x.Some? then x.value.clock else 0
  }

  function ValueOf(x: Option<Shard>): int {
    if x.Some? then x.value.value else 0
  }

  // While the cell is live here, another replica can only know local shards that were applied here.
  ghost predicate KnownShards(s: Node, cell: Cell) {
    && cell.Live? && Sorted(cell.shards)
    && var x := Find(cell.shards, s.local);
       s.stored.Live? && x.Some? ==> Current(s).Some? && x.value.clock <= Current(s).value.clock
  }

  ghost predicate Enabled(s: Node, a: Action) {
    match a
    case Lock(_) => s.holder.None?
    case Transform(_, _) => s.holder.Some? && s.pending.None?
    case ApplyOk => s.pending.Some?
    case ApplyFailed => s.pending.Some?
    case Unlock => s.holder.Some? && s.pending.None?
    case OtherFailure => true
    case Remote(cell) => KnownShards(s, cell)
    case Delete(cell) => cell.Dead? && Valid(cell)
  }

  // The shard an update computes from what it reads
  function Computed(s: Node, delta: int): (x: Shard)
    ensures x.id == s.local
    ensures x.clock == ClockOf(Current(s)) + s.failures + 1 && x.value == ValueOf(Current(s)) + delta
  {
    TransformCell(Update(0, delta), Some(s.stored), s.local, s.failures).shards[0]
  }

  ghost function Next(s: Node, a: Action): (t: Node)
    requires Enabled(s, a)
  {
    match a
    case Lock(op) => s.(holder := Some(op))
    case Transform(ts, delta) =>
      var x := Computed(s, delta);
      s.(pending := Some(Pending(ts, x, delta)),
         emitted := s.emitted + [Emission(x, ClockOf(Current(s)), s.failures, s.stored.Live?)])
    case ApplyOk =>
      var p := s.pending.value;
      s.(stored := Merge(s.stored, Live(p.ts, [p.shard])), applied := s.applied + p.delta, pending := None)
    case ApplyFailed => s.(failures := s.failures + 1, pending := None)
    case Unlock => s.(holder := None)
    case OtherFailure => s.(failures := s.failures + 1)
    case Remote(cell) => s.(stored := Merge(s.stored, cell))
    case Delete(cell) => s.(stored := Merge(s.stored, cell))
  }

  function Start(local: int, ts: int): Node {
    Node(local, Live(ts, []), 0, None, None, [], 0)
  }

  // ---- What holds in every reachable state ----

  predicate ClocksRise(h: seq<Emission>) {
    forall i, j :: 0 <= i < j < |h| ==> h[i].shard.clock < h[j].shard.clock
  }

  // What each computed shard owes to what was read; the clocks of a live cell rise
  predicate History(h: seq<Emission>, local: int, failures: nat) {
    && (forall i :: 0 <= i < |h| ==>
          && h[i].shard.id == local && 0 <= h[i].read && h[i].failures <= failures
          && h[i].shard.clock == h[i].read + h[i].failures + 1
          && (!h[i].live ==> h[i].read == 0))
    && (forall i, j :: 0 <= i < j < |h| ==>
          && h[i].failures <= h[j].failures
          && (h[j].live ==> h[i].live && h[i].shard.clock < h[j].shard.clock))
  }

  // The emitted shards that no operation is still about to apply
  function Settled(s: Node): nat {
    if s.pending.Some? && |s.emitted| > 0 then |s.emitted| - 1 else |s.emitted|
  }

  // As long as the cell is live
  ghost predicate LiveInv(s: Node) {
    var cur := Current(s);
    && 0 <= ClockOf(cur)
    && ValueOf(cur) == s.applied
    && (forall i :: 0 <= i < |s.emitted| ==> s.emitted[i].live)
    && (forall i :: 0 <= i < Settled(s) ==> s.emitted[i].shard.clock <= ClockOf(cur) + s.failures)
    && (s.pending.Some? ==>
          var p := s.pending.value;
          && p.shard.value == ValueOf(cur) + p.delta
          && ClockOf(cur) < p.shard.clock <= ClockOf(cur) + s.failures + 1)
  }

  ghost predicate NodeInv(s: Node) {
    && Stored(s.stored)
    && History(s.emitted, s.local, s.failures)
    && (s.pending.Some? ==>
          && s.holder.Some? && s.pending.value.shard.id == s.local
          && s.emitted != [] && s.emitted[|s.emitted| - 1].shard == s.pending.value.shard)
    && (s.stored.Live? ==> LiveInv(s))
  }

  lemma MergeLocal(s: Node, cell: Cell)
    requires s.stored.Live? && Sorted(s.stored.shards) && cell.Live? && Sorted(cell.shards)
    ensures Merge(s.stored, cell).Live? && Sorted(Merge(s.stored, cell).shards)
    ensures LocalShard(Some(Merge(s.stored, cell)), s.local) == NewerOf(Current(s), Find(cell.shards, s.local))
  {
    CombineSorted(s.stored.shards, cell.shards);
    CombineById(s.stored.shards, cell.shards, s.local);
  }

  // A new shard follows from what was read
  lemma HistoryGrows(h: seq<Emission>, local: int, failures: nat, e: Emission)
    requires History(h, local, failures) && e.shard.id == local && 0 <= e.read && e.failures == failures
    requires e.shard.clock == e.read + e.failures + 1 && (!e.live ==> e.read == 0)
    requires e.live ==> forall i :: 0 <= i < |h| ==> h[i].live && h[i].shard.clock < e.shard.clock
    ensures History(h + [e], local, failures)
  {
  }

  lemma TransformKeepsInv(s: Node, ts: int, delta: int)
    requires NodeInv(s) && Enabled(s, Transform(ts, delta))
    ensures NodeInv(Next(s, Transform(ts, delta)))
  {
    var x := Computed(s, delta);
    HistoryGrows(s.emitted, s.local, s.failures, Emission(x, ClockOf(Current(s)), s.failures, s.stored.Live?));
  }

  lemma ApplyKeepsInv(s: Node)
    requires NodeInv(s) && Enabled(s, ApplyOk)
    ensures NodeInv(Next(s, ApplyOk))
  {
    if s.stored.Live? {
      MergeLocal(s, Live(s.pending.value.ts, [s.pending.value.shard]));
    }
  }

  lemma RemoteKeepsInv(s: Node, cell: Cell)
    requires NodeInv(s) && Enabled(s, Remote(cell))
    ensures NodeInv(Next(s, Remote(cell)))
  {
    if s.stored.Live? {
      MergeLocal(s, cell);
    }
  }

  lemma StepKeepsInv(s: Node, a: Action)
    requires NodeInv(s) && Enabled(s, a)
    ensures NodeInv(Next(s, a))
  {
    if a.Transform? {
      TransformKeepsInv(s, a.ts, a.delta);
    } else if a == ApplyOk {
      ApplyKeepsInv(s);
    } else if a.Remote? {
      RemoteKeepsInv(s, a.cell);
    } else if a.Delete? {
      MergeStored(s.stored, a.cell);
    } else {
      OtherKeepsInv(s, a);
    }
  }

  lemma OtherKeepsInv(s: Node, a: Action)
    requires NodeInv(s) && Enabled(s, a) && (a.Lock? || a.Unlock? || a.ApplyFailed? || a.OtherFailure?)
    ensures NodeInv(Next(s, a))
  {
  }

  ghost predicate Starts(s: Node) {
    exists ts :: s == Start(s.local, ts)
  }

  ghost predicate IsRun(states: seq<Node>, actions: seq<Action>) {
    && |states| == |actions| + 1
    && Starts(states[0])
    && (forall i :: 0 <= i < |actions| ==>
          Enabled(states[i], actions[i]) && states[i + 1] == Next(states[i], actions[i]))
  }

  /* In every run: as long as the cell is live each emitted clock exceeds all earlier ones, those of
     failed writes included, and the local shard counts exactly the deltas that were applied. */
  lemma {:induction false} RunsAreSafe(states: seq<Node>, actions: seq<Action>, n: nat)
    requires IsRun(states, actions) && n < |states|
    ensures NodeInv(states[n])
    ensures states[n].stored.Live? ==> ClocksRise(states[n].emitted) && ValueOf(Current(states[n])) == states[n].applied
  {
    if n > 0 {
      RunsAreSafe(states, actions, n - 1);
      StepKeepsInv(states[n - 1], actions[n - 1]);
    }
  }

  // ---- Deletion ----

  /* A deleted cell stays deleted, whatever is applied to it. */
  lemma {:induction false} StaysDead(states: seq<Node>, actions: seq<Action>, m: nat, n: nat)
    requires IsRun(states, actions) && m <= n < |states| && states[m].stored.Dead?
    ensures states[n].stored.Dead?
  {
    if m < n {
      StaysDead(states, actions, m, n - 1);
    }
  }

  predicate CountsFailure(a: Action) {
    a.ApplyFailed? || a.OtherFailure?
  }

  // How many failures were counted by the actions from m on and before n
  function Failures(actions: seq<Action>, m: nat, n: nat): (k: nat)
    requires m <= n <= |actions|
    ensures k == 0 <==> forall i :: m <= i < n ==> !CountsFailure(actions[i])
  {
    if m == n then 0 else Failures(actions, m, n - 1) + if CountsFailure(actions[n - 1]) then 1 else 0
  }

  lemma {:induction false} FailuresCounted(states: seq<Node>, actions: seq<Action>, m: nat, n: nat)
    requires IsRun(states, actions) && m <= n < |states|
    ensures states[n].failures == states[m].failures + Failures(actions, m, n)
    ensures states[m].local == states[n].local
  {
    if m < n {
      FailuresCounted(states, actions, m, n - 1);
    }
  }

  /* The clocks of two updates of a deleted cell, even with others between them, differ by the failures
     counted between them, so they share a clock exactly when there was none; each carries its own delta
     as the value. */
  lemma DeadUpdatesShare(states: seq<Node>, actions: seq<Action>, m: nat, n: nat)
    requires IsRun(states, actions) && m < n < |actions| && states[m].stored.Dead?
    requires actions[m].Transform? && actions[n].Transform?
    ensures var x, y := Computed(states[m], actions[m].delta), Computed(states[n], actions[n].delta);
      && x.id == y.id && x.value == actions[m].delta && y.value == actions[n].delta
      && y.clock == x.clock + Failures(actions, m, n)
      && (x.clock == y.clock <==> forall k :: m <= k < n ==> !CountsFailure(actions[k]))
  {
    StaysDead(states, actions, m, n);
    FailuresCounted(states, actions, m, n);
  }

  // Each update of a dead cell had more failures counted since the update before it than that one's clock was
  predicate CaughtUp(h: seq<Emission>) {
    forall i :: 0 < i < |h| && !h[i].live ==> h[i].failures - h[i - 1].failures > h[i - 1].read
  }

  /* With deletions, clocks rise exactly when the failure count keeps ahead of the clocks that the
     deletion forgot. */
  lemma RisesExactly(states: seq<Node>, actions: seq<Action>, n: nat)
    requires IsRun(states, actions) && n < |states|
    ensures ClocksRise(states[n].emitted) <==> CaughtUp(states[n].emitted)
  {
    RunsAreSafe(states, actions, n);
    HistoryRises(states[n].emitted, states[n].local, states[n].failures);
  }

  lemma HistoryRises(h: seq<Emission>, local: int, failures: nat)
    requires History(h, local, failures)
    ensures ClocksRise(h) <==> CaughtUp(h)
  {
    if CaughtUp(h) {
      forall i, j | 0 <= i < j < |h| ensures h[i].shard.clock < h[j].shard.clock {
        RisesStepwise(h, local, failures, i, j);
      }
    }
  }

  lemma {:induction false} RisesStepwise(h: seq<Emission>, local: int, failures: nat, i: nat, j: nat)
    requires History(h, local, failures) && CaughtUp(h) && i < j < |h|
    ensures h[i].shard.clock < h[j].shard.clock
    decreases j
  {
    assert h[j - 1].shard.clock < h[j].shard.clock;
    if i < j - 1 {
      RisesStepwise(h, local, failures, i, j - 1);
    }
  }

  // Two updates that were applied under one clock
  predicate Conflict(states: seq<Node>, actions: seq<Action>, m: nat, n: nat) {
    && m < n < |actions| < |states| && actions[m] == actions[n] == ApplyOk
    && states[m].pending.Some? && states[n].pending.Some?
    && states[m].pending.value.shard.clock == states[n].pending.value.shard.clock
    && states[m].pending.value.shard.value != states[n].pending.value.shard.value
  }

  // An update, a deletion, and an update that takes the first one's clock
  const TWICE: seq<Action> :=
    [Lock(1), Transform(1, 5), ApplyOk, Unlock, Delete(Dead(9, 0)), Lock(2), Transform(2, 7), ApplyOk]

  function Twice(i: nat): (s: Node)
    requires i <= |TWICE|
  {
    var x, y := Shard(1, 5, 1), Shard(1, 7, 1);
    var e, f := Emission(x, 0, 0, true), Emission(y, 0, 0, false);
    var empty, live, dead := Live(0, []), Live(1, [x]), Dead(9, 0);
    if i == 0 then Node(1, empty, 0, None, None, [], 0)
    else if i == 1 then Node(1, empty, 0, Some(1), None, [], 0)
    else if i == 2 then Node(1, empty, 0, Some(1), Some(Pending(1, x, 5)), [e], 0)
    else if i == 3 then Node(1, live, 0, Some(1), None, [e], 5)
    else if i == 4 then Node(1, live, 0, None, None, [e], 5)
    else if i == 5 then Node(1, dead, 0, None, None, [e], 5)
    else if i == 6 then Node(1, dead, 0, Some(2), None, [e], 5)
    else if i == 7 then Node(1, dead, 0, Some(2), Some(Pending(2, y, 7)), [e, f], 5)
    else Node(1, dead, 0, Some(2), None, [e, f], 12)
  }

  lemma TwiceStep(i: nat)
    requires i < |TWICE|
    ensures Enabled(Twice(i), TWICE[i]) && Twice(i + 1) == Next(Twice(i), TWICE[i])
  {
  }

  /* They do not in this run. */
  lemma ClockUsedTwice() returns (states: seq<Node>, actions: seq<Action>)
    ensures IsRun(states, actions)
    ensures var h := states[|states| - 1].emitted;
      |h| == 2 && h[0].shard.clock == h[1].shard.clock && h[0].shard.value != h[1].shard.value
    ensures !ClocksRise(states[|states| - 1].emitted)
    ensures Conflict(states, actions, 2, 7) && forall k :: 0 <= k < |actions| ==> !actions[k].Remote?
  {
    actions := TWICE;
    states := seq(|TWICE| + 1, i requires 0 <= i <= |TWICE| => Twice(i));
    assert states[0] == Start(1, 0);
    forall i | 0 <= i < |actions| ensures Enabled(states[i], actions[i]) && states[i + 1] == Next(states[i], actions[i]) {
      TwiceStep(i);
    }
  }

  // ---- Replicas ----

  function Shards(h: seq<Emission>): (r: set<Shard>) {
    set e | e in h :: e.shard
  }

  /* The shards a replica emits do not conflict, which is what merging relies on. */
  lemma EmittedNeverConflict(s: Node, x: Shard, y: Shard)
    requires History(s.emitted, s.local, s.failures) && CaughtUp(s.emitted)
    requires x in Shards(s.emitted) && y in Shards(s.emitted) && x.clock == y.clock
    ensures x == y
  {
    var h := s.emitted;
    HistoryRises(h, s.local, s.failures);
    var i :| 0 <= i < |h| && h[i].shard == x;
    var j :| 0 <= j < |h| && h[j].shard == y;
    assert i < j ==> h[i].shard.clock < h[j].shard.clock;
    assert j < i ==> h[j].shard.clock < h[i].shard.clock;
  }

  // Replicas that send each other updates, once applied, and the whole cell, in any order, any number of times
  datatype Cluster = Cluster(nodes: seq<Node>, sent: set<Cell>)

  datatype Event = Local(i: nat, a: Action) | Send(i: nat) | Deliver(i: nat, cell: Cell)

  function ActionFor(cell: Cell): (a: Action) {
    if cell.Dead? then Delete(cell) else Remote(cell)
  }

  ghost predicate Happens(c: Cluster, e: Event) {
    && e.i < |c.nodes|
    && (e.Local? ==> !e.a.Remote? && Enabled(c.nodes[e.i], e.a))
    && (e.Deliver? ==> e.cell in c.sent && Enabled(c.nodes[e.i], ActionFor(e.cell)))
  }

  // do_apply_counter_update() returns the update, as a shard, for the other replicas once it was applied here
  function UpdateOf(s: Node): (c: Cell)
    requires s.pending.Some?
  {
    Live(s.pending.value.ts, [s.pending.value.shard])
  }

  ghost function Outgoing(s: Node, a: Action): (r: set<Cell>)
    requires Enabled(s, a)
  {
    if a == ApplyOk then {UpdateOf(s)} else {}
  }

  ghost function After(c: Cluster, e: Event): (d: Cluster)
    requires Happens(c, e)
  {
    match e
    case Local(i, a) => Cluster(c.nodes[i := Next(c.nodes[i], a)], c.sent + Outgoing(c.nodes[i], a))
    case Send(i) => c.(sent := c.sent + {c.nodes[i].stored})
    case Deliver(i, cell) => c.(nodes := c.nodes[i := Next(c.nodes[i], ActionFor(cell))])
  }

  // Computed by the replica it names which, while it has the cell, has a shard at least as new
  ghost predicate Known(nodes: seq<Node>, x: Shard, k: nat) {
    && k < |nodes| && nodes[k].local == x.id && x in Shards(nodes[k].emitted)
    && (nodes[k].stored.Live? ==> Current(nodes[k]).Some? && x.clock <= Current(nodes[k]).value.clock)
  }

  ghost predicate Honest(nodes: seq<Node>, c: Cell) {
    Stored(c) && (c.Live? ==> forall x :: x in c.shards ==> exists k: nat :: Known(nodes, x, k))
  }

  predicate Separate(nodes: seq<Node>) {
    forall i, j :: 0 <= i < j < |nodes| ==> nodes[i].local != nodes[j].local
  }

  ghost predicate ClusterInv(c: Cluster) {
    && Separate(c.nodes)
    && (forall i :: 0 <= i < |c.nodes| ==> NodeInv(c.nodes[i]) && Honest(c.nodes, c.nodes[i].stored))
    && (forall cell :: cell in c.sent ==> Honest(c.nodes, cell))
  }

  // What a replica receives about itself it knows already
  lemma DeliveryEnabled(c: Cluster, i: nat, cell: Cell)
    requires ClusterInv(c) && i < |c.nodes| && cell in c.sent
    ensures Enabled(c.nodes[i], ActionFor(cell))
  {
    assert Honest(c.nodes, cell);
    var s := c.nodes[i];
    if cell.Live? && Find(cell.shards, s.local).Some? {
      var x := Find(cell.shards, s.local).value;
      var k: nat :| Known(c.nodes, x, k);
      assert k == i;
    }
  }

  // A step of one replica keeps what is known of all shards
  lemma StepKeepsKnown(nodes: seq<Node>, i: nat, a: Action, x: Shard, k: nat)
    requires i < |nodes| && NodeInv(nodes[i]) && Enabled(nodes[i], a) && Known(nodes, x, k)
    ensures Known(nodes[i := Next(nodes[i], a)], x, k)
  {
    var s := nodes[i];
    if k == i {
      var t := Next(s, a);
      if a == ApplyOk && s.stored.Live? {
        MergeLocal(s, Live(s.pending.value.ts, [s.pending.value.shard]));
      } else if a.Remote? && s.stored.Live? {
        MergeLocal(s, a.cell);
      }
      assert forall e :: e in s.emitted ==> e in t.emitted;
    }
  }

  lemma StepKeepsHonest(nodes: seq<Node>, i: nat, a: Action, c: Cell)
    requires i < |nodes| && NodeInv(nodes[i]) && Enabled(nodes[i], a) && Honest(nodes, c)
    ensures Honest(nodes[i := Next(nodes[i], a)], c)
  {
    var after := nodes[i := Next(nodes[i], a)];
    if c.Live? {
      forall x | x in c.shards ensures exists k: nat :: Known(after, x, k) {
        var k: nat :| Known(nodes, x, k);
        StepKeepsKnown(nodes, i, a, x, k);
      }
    }
  }

  // The shard just applied is known here
  lemma AppliedIsKnown(nodes: seq<Node>, i: nat)
    requires i < |nodes| && NodeInv(nodes[i]) && nodes[i].pending.Some?
    ensures Known(nodes[i := Next(nodes[i], ApplyOk)], nodes[i].pending.value.shard, i)
  {
    var s, p := nodes[i], nodes[i].pending.value;
    if s.stored.Live? {
      MergeLocal(s, Live(p.ts, [p.shard]));
    }
    assert s.emitted[|s.emitted| - 1] in s.emitted;
  }

  lemma OutgoingIsHonest(nodes: seq<Node>, i: nat, a: Action, cell: Cell)
    requires i < |nodes| && NodeInv(nodes[i]) && Enabled(nodes[i], a) && cell in Outgoing(nodes[i], a)
    ensures Honest(nodes[i := Next(nodes[i], a)], cell)
  {
    AppliedIsKnown(nodes, i);
  }

  // A cell merged from honest ones is honest
  lemma MergeHonest(nodes: seq<Node>, a: Cell, b: Cell)
    requires Honest(nodes, a) && Honest(nodes, b)
    ensures Honest(nodes, Merge(a, b))
  {
    MergeStored(a, b);
    if a.Live? && b.Live? {
      forall x | x in Combine(a.shards, b.shards) ensures exists k: nat :: Known(nodes, x, k) {
        CombineIn(a.shards, b.shards, x);
      }
    }
  }

  lemma AppliedStaysHonest(nodes: seq<Node>, i: nat)
    requires i < |nodes| && NodeInv(nodes[i]) && nodes[i].pending.Some? && Honest(nodes, nodes[i].stored)
    ensures var after := nodes[i := Next(nodes[i], ApplyOk)]; Honest(after, after[i].stored)
  {
    var s, p := nodes[i], nodes[i].pending.value;
    var after, cell := nodes[i := Next(s, ApplyOk)], Live(p.ts, [p.shard]);
    StepKeepsHonest(nodes, i, ApplyOk, s.stored);
    if s.stored.Live? {
      AppliedIsKnown(nodes, i);
      assert Honest(after, cell);
      MergeHonest(after, s.stored, cell);
    }
  }

  lemma StoredStaysHonest(nodes: seq<Node>, i: nat, a: Action)
    requires i < |nodes| && NodeInv(nodes[i]) && Enabled(nodes[i], a) && Honest(nodes, nodes[i].stored)
    requires a.Remote? ==> Honest(nodes, a.cell)
    ensures var after := nodes[i := Next(nodes[i], a)]; Honest(after, after[i].stored)
  {
    var s := nodes[i];
    var after := nodes[i := Next(s, a)];
    if a == ApplyOk {
      AppliedStaysHonest(nodes, i);
    } else {
      StepKeepsHonest(nodes, i, a, s.stored);
      if a.Remote? {
        StepKeepsHonest(nodes, i, a, a.cell);
        MergeHonest(after, s.stored, a.cell);
      } else if a.Delete? {
        MergeHonest(after, s.stored, a.cell);
      }
    }
  }

  lemma NodeStepKeepsInv(c: Cluster, i: nat, a: Action)
    requires ClusterInv(c) && i < |c.nodes| && Enabled(c.nodes[i], a) && (a.Remote? ==> a.cell in c.sent)
    ensures ClusterInv(c.(nodes := c.nodes[i := Next(c.nodes[i], a)]))
  {
    var after := c.nodes[i := Next(c.nodes[i], a)];
    StepKeepsInv(c.nodes[i], a);
    StoredStaysHonest(c.nodes, i, a);
    forall j | 0 <= j < |c.nodes| && j != i ensures Honest(after, after[j].stored) {
      StepKeepsHonest(c.nodes, i, a, c.nodes[j].stored);
    }
    forall cell | cell in c.sent ensures Honest(after, cell) {
      StepKeepsHonest(c.nodes, i, a, cell);
    }
  }

  lemma EventKeepsInv(c: Cluster, e: Event)
    requires ClusterInv(c) && Happens(c, e)
    ensures ClusterInv(After(c, e))
  {
    match e
    case Local(i, a) =>
      NodeStepKeepsInv(c, i, a);
      forall cell | cell in Outgoing(c.nodes[i], a) ensures Honest(After(c, e).nodes, cell) {
        OutgoingIsHonest(c.nodes, i, a, cell);
      }
    case Send(i) =>
    case Deliver(i, cell) => NodeStepKeepsInv(c, i, ActionFor(cell));
  }

  ghost predicate IsHistory(cs: seq<Cluster>, es: seq<Event>) {
    && |cs| == |es| + 1 && cs[0].sent == {} && Separate(cs[0].nodes)
    && (forall i :: 0 <= i < |cs[0].nodes| ==> Starts(cs[0].nodes[i]))
    && (forall i :: 0 <= i < |es| ==> Happens(cs[i], es[i]) && cs[i + 1] == After(cs[i], es[i]))
  }

  lemma {:induction false} ClustersAreSafe(cs: seq<Cluster>, es: seq<Event>, n: nat)
    requires IsHistory(cs, es) && n < |cs|
    ensures ClusterInv(cs[n])
  {
    if n > 0 {
      ClustersAreSafe(cs, es, n - 1);
      EventKeepsInv(cs[n - 1], es[n - 1]);
    }
  }

  // All shards computed anywhere
  function Pool(nodes: seq<Node>): (r: set<Shard>) {
    set i, x | 0 <= i < |nodes| && x in Shards(nodes[i].emitted) :: x
  }

  lemma PoolIsFunctional(c: Cluster)
    requires ClusterInv(c) && forall i :: 0 <= i < |c.nodes| ==> CaughtUp(c.nodes[i].emitted)
    ensures Functional(Pool(c.nodes))
  {
    forall x, y | x in Pool(c.nodes) && y in Pool(c.nodes) && x.id == y.id && x.clock == y.clock ensures x == y {
      var i :| 0 <= i < |c.nodes| && x in Shards(c.nodes[i].emitted);
      var j :| 0 <= j < |c.nodes| && y in Shards(c.nodes[j].emitted);
      NamedById(c.nodes[i], x);
      NamedById(c.nodes[j], y);
      assert i == j;
      EmittedNeverConflict(c.nodes[i], x, y);
    }
  }

  lemma NamedById(s: Node, x: Shard)
    requires NodeInv(s) && x in Shards(s.emitted)
    ensures x.id == s.local
  {
    var e :| e in s.emitted && e.shard == x;
  }

  /* Replicas that have seen the same cells of a cluster, in any order and with any repetition, hold
     the same cell, in every run in which no replica reused a clock. */
  lemma ReplicasConverge(cs: seq<Cluster>, es: seq<Event>, n: nat, start: Cell, xs: seq<Cell>, ys: seq<Cell>)
    requires IsHistory(cs, es) && n < |cs|
    requires forall i :: 0 <= i < |cs[n].nodes| ==> CaughtUp(cs[n].nodes[i].emitted)
    requires start in cs[n].sent && (forall c :: c in xs ==> c in cs[n].sent) && (forall c :: c in xs <==> c in ys)
    ensures Stored(start) && (forall c :: c in xs ==> Stored(c)) && (forall c :: c in ys ==> Stored(c))
    ensures MergeAll(start, xs) == MergeAll(start, ys)
  {
    ClustersAreSafe(cs, es, n);
    PoolIsFunctional(cs[n]);
    forall c | c in cs[n].sent ensures Stored(c) && From(c, Pool(cs[n].nodes)) {
      HonestFromPool(cs[n].nodes, c);
    }
    Convergence(start, xs, ys, Pool(cs[n].nodes));
  }

  // What is sent stays under way
  lemma SentStays(c: Cluster, e: Event)
    requires Happens(c, e)
    ensures c.sent <= After(c, e).sent && (e.Send? ==> c.nodes[e.i].stored in After(c, e).sent)
  {
  }

  /* A cell that is sent arrives as it is, whatever happened meanwhile, and is merged. */
  lemma Arrives(c: Cluster, i: nat, j: nat)
    requires ClusterInv(c) && i < |c.nodes| && j < |c.nodes|
    ensures var d := After(c, Send(i)); var cell := c.nodes[i].stored;
      && ClusterInv(d) && Happens(d, Deliver(j, cell))
      && After(d, Deliver(j, cell)).nodes[j].stored == Merge(c.nodes[j].stored, cell)
      && (forall k :: 0 <= k < |c.nodes| && k != j ==> After(d, Deliver(j, cell)).nodes[k] == c.nodes[k])
  {
    var d, cell := After(c, Send(i)), c.nodes[i].stored;
    EventKeepsInv(c, Send(i));
    DeliveryEnabled(d, j, cell);
  }

  // One replica sends its cell and another gets it
  ghost predicate Passes(c: Cluster, i: nat, j: nat, d: Cluster) {
    && i < |c.nodes| && Happens(c, Send(i))
    && var s, cell := After(c, Send(i)), c.nodes[i].stored;
    && Happens(s, Deliver(j, cell)) && d == After(s, Deliver(j, cell))
  }

  /* Two replicas that send each other their cells agree. */
  lemma ExchangeAgrees(c: Cluster, i: nat, j: nat) returns (d: Cluster, f: Cluster)
    requires ClusterInv(c) && i < |c.nodes| && j < |c.nodes| && i != j
    requires forall k :: 0 <= k < |c.nodes| ==> CaughtUp(c.nodes[k].emitted)
    ensures Passes(c, i, j, d) && Passes(d, j, i, f) && |f.nodes| == |c.nodes|
    ensures f.nodes[i].stored == f.nodes[j].stored == Merge(c.nodes[j].stored, c.nodes[i].stored)
  {
    var a, b := c.nodes[i].stored, c.nodes[j].stored;
    Arrives(c, i, j);
    d := After(After(c, Send(i)), Deliver(j, a));
    EventKeepsInv(After(c, Send(i)), Deliver(j, a));
    Arrives(d, j, i);
    f := After(After(d, Send(j)), Deliver(i, d.nodes[j].stored));
    PoolIsFunctional(c);
    MergedBack(a, b, c.nodes, Pool(c.nodes));
  }

  lemma MergedBack(a: Cell, b: Cell, nodes: seq<Node>, pool: set<Shard>)
    requires Honest(nodes, a) && Honest(nodes, b) && pool == Pool(nodes) && Functional(pool)
    ensures Stored(Merge(b, a)) && Merge(a, Merge(b, a)) == Merge(b, a)
  {
    HonestFromPool(nodes, a);
    HonestFromPool(nodes, b);
    MergeStored(b, a);
    MergeCommutes(a, b, pool);
    MergeAssociates(a, a, b);
    MergeIdempotent(a);
  }

  // A replica without the cell ends up the same, whichever of the cells it gets, in whatever order
  ghost predicate OrderFree(sent: set<Cell>, ts: int)
    requires forall c :: c in sent ==> Stored(c)
  {
    forall xs: seq<Cell>, ys: seq<Cell> ::
      (forall c :: c in xs ==> c in sent) && (forall c :: c in xs <==> c in ys) ==>
        MergeAll(Live(ts, []), xs) == MergeAll(Live(ts, []), ys)
  }

  function ShardsOf(sent: set<Cell>): (r: set<Shard>) {
    set c, x | c in sent && c.Live? && x in c.shards :: x
  }

  /* which is so exactly when no two of their shards share id and clock but not the value. */
  lemma OrderFreeExactly(sent: set<Cell>, ts: int)
    requires forall c :: c in sent ==> Stored(c)
    ensures OrderFree(sent, ts) <==> Functional(ShardsOf(sent))
  {
    var pool := ShardsOf(sent);
    if Functional(pool) {
      forall xs: seq<Cell>, ys: seq<Cell> | (forall c :: c in xs ==> c in sent) && (forall c :: c in xs <==> c in ys)
        ensures MergeAll(Live(ts, []), xs) == MergeAll(Live(ts, []), ys)
      {
        Convergence(Live(ts, []), xs, ys, pool);
      }
    } else {
      var x, y :| x in pool && y in pool && x.id == y.id && x.clock == y.clock && x != y;
      var c :| c in sent && c.Live? && x in c.shards;
      var d :| d in sent && d.Live? && y in d.shards;
      ConflictShows(c, d, x, y, ts);
    }
  }

  lemma ConflictShows(c: Cell, d: Cell, x: Shard, y: Shard, ts: int)
    requires Stored(c) && Stored(d) && c.Live? && d.Live? && x in c.shards && y in d.shards
    requires x.id == y.id && x.clock == y.clock && x != y
    ensures MergeAll(Live(ts, []), [c, d]) != MergeAll(Live(ts, []), [d, c])
  {
    CombineCommutes(c.shards, d.shards);
    MergeTwo(c, d, ts);
    MergeTwo(d, c, ts);
  }

  lemma MergeTwo(c: Cell, d: Cell, ts: int)
    requires Stored(c) && Stored(d) && c.Live? && d.Live?
    ensures MergeAll(Live(ts, []), [c, d]) == Live(Max(Max(ts, c.ts), d.ts), Combine(c.shards, d.shards))
  {
    var m := Live(Max(ts, c.ts), c.shards);
    assert Merge(Live(ts, []), c) == m;
    assert [c, d][1..] == [d] && [d][1..] == [];
    assert MergeAll(m, [d]) == Merge(m, d);
  }

  // Every run of one replica is one of a cluster, and its updates are sent
  lemma {:induction false} RunsAlone(states: seq<Node>, actions: seq<Action>) returns (cs: seq<Cluster>, es: seq<Event>)
    requires IsRun(states, actions) && forall k :: 0 <= k < |actions| ==> !actions[k].Remote?
    ensures IsHistory(cs, es) && |cs| == |states| && cs[|cs| - 1].nodes == [states[|states| - 1]]
    ensures forall k :: 0 <= k < |actions| && actions[k] == ApplyOk ==>
              UpdateOf(states[k]) in cs[|cs| - 1].sent
    decreases |actions|
  {
    var n := |actions|;
    if n == 0 {
      cs, es := [Cluster([states[0]], {})], [];
    } else {
      assert IsRun(states[..n], actions[..n - 1]) by {
        assert states[..n][0] == states[0];
      }
      cs, es := RunsAlone(states[..n], actions[..n - 1]);
      var c, e := cs[n - 1], Event.Local(0, actions[n - 1]);
      assert states[..n][n - 1] == states[n - 1];
      var d := After(c, e);
      forall k | 0 <= k < n && actions[k] == ApplyOk ensures UpdateOf(states[k]) in d.sent {
        if k < n - 1 {
          assert actions[..n - 1][k] == ApplyOk && states[..n][k] == states[k];
        }
      }
      OneMoreEvent(cs, es, e);
      cs, es := cs + [d], es + [e];
    }
  }

  /* Where a clock was used again for another value, the order of delivery shows. */
  lemma ReusedClockDiverges(states: seq<Node>, actions: seq<Action>, m: nat, n: nat, ts: int)
    returns (cs: seq<Cluster>, es: seq<Event>)
    requires IsRun(states, actions) && Conflict(states, actions, m, n)
    requires forall k :: 0 <= k < |actions| ==> !actions[k].Remote?
    ensures IsHistory(cs, es) && cs[|cs| - 1].nodes == [states[|states| - 1]]
    ensures (forall c :: c in cs[|cs| - 1].sent ==> Stored(c)) && !OrderFree(cs[|cs| - 1].sent, ts)
  {
    cs, es := RunsAlone(states, actions);
    var last := cs[|cs| - 1];
    ClustersAreSafe(cs, es, |cs| - 1);
    forall c | c in last.sent ensures Stored(c) {
      assert Honest(last.nodes, c);
    }
    RunsAreSafe(states, actions, m);
    RunsAreSafe(states, actions, n);
    FailuresCounted(states, actions, m, n);
    var x, y := UpdateOf(states[m]), UpdateOf(states[n]);
    assert x.shards[0] in x.shards && y.shards[0] in y.shards;
    assert x.shards[0] in ShardsOf(last.sent) && y.shards[0] in ShardsOf(last.sent);
    OrderFreeExactly(last.sent, ts);
  }

  lemma OneMoreEvent(cs: seq<Cluster>, es: seq<Event>, e: Event)
    requires IsHistory(cs, es) && Happens(cs[|es|], e)
    ensures IsHistory(cs + [After(cs[|es|], e)], es + [e])
  {
    var ds, fs := cs + [After(cs[|es|], e)], es + [e];
    assert ds[0] == cs[0];
    forall i | 0 <= i < |fs| ensures Happens(ds[i], fs[i]) && ds[i + 1] == After(ds[i], fs[i]) {
      assert i < |es| ==> ds[i] == cs[i] && ds[i + 1] == cs[i + 1] && fs[i] == es[i];
    }
  }

  lemma HonestFromPool(nodes: seq<Node>, c: Cell)
    requires Honest(nodes, c)
    ensures Stored(c) && From(c, Pool(nodes))
  {
    if c.Live? {
      forall x | x in c.shards ensures x in Pool(nodes) {
        var k: nat :| Known(nodes, x, k);
      }
    }
  }
}
