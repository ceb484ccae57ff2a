/**
  Counter cells as values: how two cells merge, what their difference is, and why replicas converge.

  A live cell holds one shard per replica, sorted by replica id; of two shards with the same id the
  one with the larger logical clock wins.  A dead cell beats every live one.
*/
module CounterCells {
  import opened Wrappers

  // counter_shard; ids are compared as in counter_id::operator<
  datatype Shard = Shard(id: int, value: int, clock: int)

  // atomic_cell as counters use it.  Plain is the cell that reverting an update leaves behind.
  datatype Cell =
    | Dead(ts: int, deletionTime: int)
    | Update(ts: int, delta: int)
    | Live(ts: int, shards: seq<Shard>)
    | Plain(ts: int, value: int)

  predicate Sorted(s: seq<Shard>) {
    forall i, j :: 0 <= i < j < |s| ==> s[i].id < s[j].id
  }

  predicate Valid(c: Cell) {
    && (c.Live? ==> Sorted(c.shards))
    && (c.Dead? ==> -0x8000_0000 <= c.deletionTime < 0x8000_0000)
  }

  // A cell that replicas exchange: shards or a tombstone.
  predicate Stored(c: Cell) {
    Valid(c) && (c.Live? || c.Dead?)
  }

  function Max(a: int, b: int): int {
    if a < b then b else a
  }

  function Newer(x: Shard, y: Shard): Shard {
    if x.clock < y.clock then y else x
  }

  // combine() with larger-clock-wins
  function Combine(a: seq<Shard>, b: seq<Shard>): (r: seq<Shard>) {
    if a == [] then b
    else if b == [] then a
    else if a[0].id < b[0].id then [a[0]] + Combine(a[1..], b)
    else if b[0].id < a[0].id then [b[0]] + Combine(a, b[1..])
    else [Newer(a[0], b[0])] + Combine(a[1..], b[1..])
  }

  // compare_atomic_cell_for_merge() on two dead cells; deletion times compare as uint32_t
  function CompareDead(a: Cell, b: Cell): (c: int)
    requires a.Dead? && b.Dead?
  {
    if a.ts != b.ts then (if a.ts > b.ts then 1 else -1)
    else if a.deletionTime != b.deletionTime then
      (if a.deletionTime % 0x1_0000_0000 < b.deletionTime % 0x1_0000_0000 then -1 else 1)
    else 0
  }

  // What applying src to dst leaves in dst
  function Merge(dst: Cell, src: Cell): (r: Cell)
    requires !dst.Plain? && !src.Plain?
    requires dst.Live? ==> !src.Update?
    requires src.Live? ==> !dst.Update?
  {
    if dst.Dead? && src.Dead? then (if CompareDead(dst, src) < 0 then src else dst)
    else if dst.Dead? then dst
    else if src.Dead? then src
    else if dst.Update? then Update(Max(dst.ts, src.ts), dst.delta + src.delta)
    else Live(Max(dst.ts, src.ts), Combine(dst.shards, src.shards))
  }

  // get_shard()
  function Find(s: seq<Shard>, id: int): (r: Option<Shard>)
    ensures r.Some? ==> r.value in s && r.value.id == id
    ensures r.None? ==> forall x :: x in s ==> x.id != id
  {
    if s == [] then None else if s[0].id == id then Some(s[0]) else Find(s[1..], id)
  }

  function NewerOf(x: Option<Shard>, y: Option<Shard>): Option<Shard> {
    if x.None? then y else if y.None? then x else Some(Newer(x.value, y.value))
  }

  lemma Prepend(x: Shard, s: seq<Shard>, id: int)
    ensures Find([x] + s, id) == if x.id == id then Some(x) else Find(s, id)
    ensures Sorted(s) && (forall y :: y in s ==> x.id < y.id) ==> Sorted([x] + s)
  {
    assert ([x] + s)[1..] == s;
  }

  lemma Uncons(s: seq<Shard>, id: int)
    requires s != []
    ensures s == [s[0]] + s[1..]
    ensures Find(s, id) == if s[0].id == id then Some(s[0]) else Find(s[1..], id)
    ensures Sorted(s) ==> Sorted(s[1..]) && forall y :: y in s[1..] ==> s[0].id < y.id
  {
  }

  lemma FindIn(s: seq<Shard>, x: Shard)
    requires Sorted(s) && x in s
    ensures Find(s, x.id) == Some(x)
  {
  }

  lemma {:induction false} CombineIn(a: seq<Shard>, b: seq<Shard>, x: Shard)
    requires x in Combine(a, b)
    ensures x in a || x in b
    decreases |a| + |b|
  {
    if a != [] && b != [] && x != Combine(a, b)[0] {
      if a[0].id < b[0].id {
        CombineIn(a[1..], b, x);
      } else if b[0].id < a[0].id {
        CombineIn(a, b[1..], x);
      } else {
        CombineIn(a[1..], b[1..], x);
      }
    }
  }

  lemma CombineAbove(a: seq<Shard>, b: seq<Shard>, id: int)
    requires (forall x :: x in a ==> id < x.id) && (forall x :: x in b ==> id < x.id)
    ensures forall x :: x in Combine(a, b) ==> id < x.id
  {
    forall x | x in Combine(a, b) ensures id < x.id {
      CombineIn(a, b, x);
    }
  }

  lemma {:induction false} CombineSorted(a: seq<Shard>, b: seq<Shard>)
    requires Sorted(a) && Sorted(b)
    ensures Sorted(Combine(a, b))
    decreases |a| + |b|
  {
    if a != [] && b != [] {
      Uncons(a, 0);
      Uncons(b, 0);
      if a[0].id < b[0].id {
        CombineSorted(a[1..], b);
        CombineAbove(a[1..], b, a[0].id);
        Prepend(a[0], Combine(a[1..], b), 0);
      } else if b[0].id < a[0].id {
        CombineSorted(a, b[1..]);
        CombineAbove(a, b[1..], b[0].id);
        Prepend(b[0], Combine(a, b[1..]), 0);
      } else {
        CombineSorted(a[1..], b[1..]);
        CombineAbove(a[1..], b[1..], a[0].id);
        Prepend(Newer(a[0], b[0]), Combine(a[1..], b[1..]), 0);
      }
    }
  }

  /* Combining two cells combines them id by id. */
  lemma {:induction false} CombineById(a: seq<Shard>, b: seq<Shard>, id: int)
    requires Sorted(a) && Sorted(b)
    ensures Find(Combine(a, b), id) == NewerOf(Find(a, id), Find(b, id))
    decreases |a| + |b|
  {
    if a != [] && b != [] {
      Uncons(a, id);
      Uncons(b, id);
      if a[0].id < b[0].id {
        CombineById(a[1..], b, id);
        Prepend(a[0], Combine(a[1..], b), id);
      } else if b[0].id < a[0].id {
        CombineById(a, b[1..], id);
        Prepend(b[0], Combine(a, b[1..]), id);
      } else {
        CombineById(a[1..], b[1..], id);
        Prepend(Newer(a[0], b[0]), Combine(a[1..], b[1..]), id);
      }
    }
  }

  lemma {:induction false} FindHead(s: seq<Shard>, t: seq<Shard>)
    requires Sorted(s) && Sorted(t) && s != []
    requires forall id :: Find(s, id) == Find(t, id)
    ensures t != [] && t[0] == s[0]
  {
    assert Find(s, s[0].id) == Some(s[0]);
    assert s[0] in t;
    assert Find(t, t[0].id) == Some(t[0]);
    assert t[0] in s;
  }

  /* A sorted shard list is determined by what it holds for each id. */
  lemma {:induction false} Canonical(s: seq<Shard>, t: seq<Shard>)
    requires Sorted(s) && Sorted(t)
    requires forall id :: Find(s, id) == Find(t, id)
    ensures s == t
  {
    if s == [] {
      if t != [] {
        FindHead(t, s);
      }
    } else {
      FindHead(s, t);
      forall id ensures Find(s[1..], id) == Find(t[1..], id) {
        assert Find(s, id) == Find(t, id);
        if id == s[0].id {
          assert forall x :: x in s[1..] || x in t[1..] ==> x.id != id;
        }
      }
      Canonical(s[1..], t[1..]);
    }
  }

  // The shards of a cell come from the pool
  ghost predicate From(c: Cell, pool: set<Shard>) {
    c.Live? ==> forall x :: x in c.shards ==> x in pool
  }

  // A replica never reuses a clock for another value.
  ghost predicate Functional(pool: set<Shard>) {
    forall x, y :: x in pool && y in pool && x.id == y.id && x.clock == y.clock ==> x == y
  }

  lemma MergeStored(a: Cell, b: Cell)
    requires Stored(a) && Stored(b)
    ensures Stored(Merge(a, b))
  {
    if a.Live? && b.Live? {
      CombineSorted(a.shards, b.shards);
    }
  }

  lemma MergeValid(a: Cell, b: Cell, pool: set<Shard>)
    requires Stored(a) && Stored(b) && From(a, pool) && From(b, pool)
    ensures Stored(Merge(a, b)) && From(Merge(a, b), pool)
  {
    MergeStored(a, b);
    if a.Live? && b.Live? {
      forall x | x in Combine(a.shards, b.shards) ensures x in pool {
        CombineIn(a.shards, b.shards, x);
      }
    }
  }

  // No clock of one replica stands for two values.
  ghost predicate Agree(a: seq<Shard>, b: seq<Shard>) {
    forall x, y :: x in a && y in b && x.id == y.id && x.clock == y.clock ==> x == y
  }

  /* Shard lists combine the same way in both orders exactly when they agree. */
  lemma CombineCommutes(a: seq<Shard>, b: seq<Shard>)
    requires Sorted(a) && Sorted(b)
    ensures Combine(a, b) == Combine(b, a) <==> Agree(a, b)
  {
    CombineSorted(a, b);
    CombineSorted(b, a);
    if Agree(a, b) {
      forall id ensures Find(Combine(a, b), id) == Find(Combine(b, a), id) {
        CombineById(a, b, id);
        CombineById(b, a, id);
      }
      Canonical(Combine(a, b), Combine(b, a));
    } else {
      var x, y :| x in a && y in b && x.id == y.id && x.clock == y.clock && x != y;
      FindIn(a, x);
      FindIn(b, y);
      CombineById(a, b, x.id);
      CombineById(b, a, x.id);
    }
  }

  lemma CombineAssociates(a: seq<Shard>, b: seq<Shard>, c: seq<Shard>)
    requires Sorted(a) && Sorted(b) && Sorted(c)
    ensures Combine(Combine(a, b), c) == Combine(a, Combine(b, c))
  {
    var ab, bc := Combine(a, b), Combine(b, c);
    CombineSorted(a, b);
    CombineSorted(b, c);
    CombineSorted(ab, c);
    CombineSorted(a, bc);
    forall id ensures Find(Combine(ab, c), id) == Find(Combine(a, bc), id) {
      CombineById(a, b, id);
      CombineById(b, c, id);
      CombineById(ab, c, id);
      CombineById(a, bc, id);
    }
    Canonical(Combine(ab, c), Combine(a, bc));
  }

  lemma {:induction false} CombineIdempotent(a: seq<Shard>)
    requires Sorted(a)
    ensures Combine(a, a) == a
  {
    CombineSorted(a, a);
    forall id ensures Find(Combine(a, a), id) == Find(a, id) {
      CombineById(a, a, id);
    }
    Canonical(Combine(a, a), a);
  }

  lemma MergeCommutes(a: Cell, b: Cell, pool: set<Shard>)
    requires Stored(a) && Stored(b) && From(a, pool) && From(b, pool) && Functional(pool)
    ensures Merge(a, b) == Merge(b, a)
  {
    if a.Live? && b.Live? {
      CombineCommutes(a.shards, b.shards);
    }
  }

  lemma MergeAssociates(a: Cell, b: Cell, c: Cell)
    requires Stored(a) && Stored(b) && Stored(c)
    ensures Stored(Merge(a, b)) && Stored(Merge(b, c))
    ensures Merge(Merge(a, b), c) == Merge(a, Merge(b, c))
  {
    if a.Live? && b.Live? {
      CombineSorted(a.shards, b.shards);
    }
    if b.Live? && c.Live? {
      CombineSorted(b.shards, c.shards);
    }
    if a.Live? && b.Live? && c.Live? {
      CombineAssociates(a.shards, b.shards, c.shards);
    }
  }

  lemma MergeIdempotent(a: Cell)
    requires Stored(a)
    ensures Merge(a, a) == a
  {
    if a.Live? {
      CombineIdempotent(a.shards);
    }
  }

  // What a replica holds after applying cells in this order, on top of `start`
  function MergeAll(start: Cell, cells: seq<Cell>): (r: Cell)
    requires Stored(start) && forall c :: c in cells ==> Stored(c)
    ensures Stored(r)
    decreases |cells|
  {
    if cells == [] then start
    else
      MergeStored(start, cells[0]);
      MergeAll(Merge(start, cells[0]), cells[1..])
  }

  // b already contains everything a has to say.
  predicate Includes(b: Cell, a: Cell)
    requires Stored(a) && Stored(b)
  {
    Merge(b, a) == b
  }

  lemma IncludesTransitive(a: Cell, b: Cell, c: Cell)
    requires Stored(a) && Stored(b) && Stored(c) && Includes(b, a) && Includes(c, b)
    ensures Includes(c, a)
  {
    MergeAssociates(c, b, a);
  }

  /* The final cell includes the starting one and every cell applied. */
  lemma {:induction false} MergeAllIncludes(start: Cell, cells: seq<Cell>, pool: set<Shard>)
    requires Stored(start) && From(start, pool) && Functional(pool)
    requires forall c :: c in cells ==> Stored(c) && From(c, pool)
    ensures From(MergeAll(start, cells), pool) && Includes(MergeAll(start, cells), start)
    ensures forall c :: c in cells ==> Includes(MergeAll(start, cells), c)
    decreases |cells|
  {
    if cells == [] {
      MergeIdempotent(start);
    } else {
      var c := cells[0];
      assert c in cells;
      var next := Merge(start, c);
      MergeValid(start, c, pool);
      MergeAllIncludes(next, cells[1..], pool);
      var r := MergeAll(start, cells);
      MergeAssociates(start, c, c);
      MergeIdempotent(c);
      IncludesTransitive(c, next, r);
      MergeCommutes(start, c, pool);
      MergeAssociates(c, start, start);
      MergeIdempotent(start);
      IncludesTransitive(start, next, r);
    }
  }

  /* It includes nothing that is not forced: any cell that includes all of them includes it. */
  lemma {:induction false} MergeAllLeast(start: Cell, cells: seq<Cell>, bound: Cell)
    requires Stored(start) && Stored(bound) && Includes(bound, start)
    requires forall c :: c in cells ==> Stored(c) && Includes(bound, c)
    ensures Includes(bound, MergeAll(start, cells))
    decreases |cells|
  {
    if cells != [] {
      MergeAssociates(bound, start, cells[0]);
      MergeAllLeast(Merge(start, cells[0]), cells[1..], bound);
    }
  }

  /* Replicas that apply the same cells, in any order and with any repetition, converge. */
  lemma Convergence(start: Cell, xs: seq<Cell>, ys: seq<Cell>, pool: set<Shard>)
    requires Stored(start) && From(start, pool) && Functional(pool)
    requires forall c :: c in xs ==> Stored(c) && From(c, pool)
    requires forall c :: c in xs <==> c in ys
    ensures MergeAll(start, xs) == MergeAll(start, ys)
  {
    var x, y := MergeAll(start, xs), MergeAll(start, ys);
    MergeAllIncludes(start, xs, pool);
    MergeAllIncludes(start, ys, pool);
    MergeAllLeast(start, xs, y);
    MergeAllLeast(start, ys, x);
    MergeCommutes(x, y, pool);
  }

  // ---- What is left of a sequence of cells, said outright ----

  // A deletion time as the unsigned number its four bytes make
  function Unsigned(time: int): (n: int) {
    if time < 0 then time + 0x1_0000_0000 else time
  }

  // d is not later than e
  predicate NotLater(d: Cell, e: Cell)
    requires d.Dead? && e.Dead?
  {
    d.ts < e.ts || (d.ts == e.ts && Unsigned(d.deletionTime) <= Unsigned(e.deletionTime))
  }

  lemma MergeDead(a: Cell, b: Cell)
    requires Stored(a) && Stored(b) && (a.Dead? || b.Dead?)
    ensures Merge(a, b).Dead? && (Merge(a, b) == a || Merge(a, b) == b)
    ensures (a.Dead? ==> NotLater(a, Merge(a, b))) && (b.Dead? ==> NotLater(b, Merge(a, b)))
  {
  }

  /* If any of the cells is dead the latest tombstone is left: by timestamp, then by deletion time. */
  lemma {:induction false} LatestTombstoneWins(start: Cell, cells: seq<Cell>)
    requires Stored(start) && (forall c :: c in cells ==> Stored(c)) && exists c :: c in [start] + cells && c.Dead?
    ensures MergeAll(start, cells) in [start] + cells && MergeAll(start, cells).Dead?
    ensures forall d :: d in [start] + cells && d.Dead? ==> NotLater(d, MergeAll(start, cells))
    decreases |cells|
  {
    if cells != [] {
      assert cells[0] in cells;
      var next, rest := Merge(start, cells[0]), cells[1..];
      MergeStored(start, cells[0]);
      assert forall c :: c in [start] + cells <==> c == start || c == cells[0] || c in rest;
      assert forall c :: c in [next] + rest <==> c == next || c in rest;
      if start.Dead? || cells[0].Dead? {
        MergeDead(start, cells[0]);
        assert next in [next] + rest;
      } else {
        var d :| d in [start] + cells && d.Dead?;
        assert d in [next] + rest;
      }
      LatestTombstoneWins(next, rest);
    }
  }

  // One of the shards with the largest clock of those with the id
  ghost predicate IsLargest(cells: seq<Cell>, id: int, r: Option<Shard>) {
    && (forall c, x :: c in cells && c.Live? && x in c.shards && x.id == id ==> r.Some? && x.clock <= r.value.clock)
    && (r.Some? ==> r.value.id == id && exists c :: c in cells && c.Live? && r.value in c.shards)
  }

  lemma MergeLive(a: Cell, b: Cell, id: int)
    requires Stored(a) && Stored(b) && a.Live? && b.Live?
    ensures Merge(a, b).Live? && Merge(a, b).ts == Max(a.ts, b.ts)
    ensures IsLargest([a, b], id, Find(Merge(a, b).shards, id))
  {
    CombineById(a.shards, b.shards, id);
    forall c, x | c in [a, b] && x in c.shards && x.id == id
      ensures Find(Merge(a, b).shards, id).Some? && x.clock <= Find(Merge(a, b).shards, id).value.clock
    {
      FindIn(c.shards, x);
    }
    var r := Find(Merge(a, b).shards, id);
    if r.Some? {
      assert r.value in a.shards || r.value in b.shards;
      assert a in [a, b] && b in [a, b];
    }
  }

  /* If none is dead, each replica's shard with the largest clock and the largest timestamp are left. */
  lemma {:induction false} LargestClocksWin(start: Cell, cells: seq<Cell>, id: int)
    requires Stored(start) && start.Live? && forall c :: c in cells ==> Stored(c) && c.Live?
    ensures MergeAll(start, cells).Live? && IsLargest([start] + cells, id, Find(MergeAll(start, cells).shards, id))
    ensures exists c :: c in [start] + cells && c.ts == MergeAll(start, cells).ts
    ensures forall c :: c in [start] + cells ==> c.ts <= MergeAll(start, cells).ts
    decreases |cells|
  {
    if cells == [] {
      assert start in [start] + cells;
      OwnLargest(start, id);
      assert [start] + cells == [start];
    } else {
      assert cells[0] in cells;
      var next, rest := Merge(start, cells[0]), cells[1..];
      MergeStored(start, cells[0]);
      MergeLive(start, cells[0], id);
      LargestClocksWin(next, rest, id);
      LargestOfMore(start, cells, id, next, Find(MergeAll(start, cells).shards, id));
      var c :| c in [next] + rest && c.ts == MergeAll(start, cells).ts;
      assert start in [start] + cells && cells[0] in [start] + cells && (c in rest ==> c in [start] + cells);
      assert next in [next] + rest && forall d :: d in rest ==> d in [next] + rest;
    }
  }

  lemma OwnLargest(c: Cell, id: int)
    requires Stored(c) && c.Live?
    ensures IsLargest([c], id, Find(c.shards, id))
  {
    forall x | x in c.shards && x.id == id ensures Find(c.shards, id) == Some(x) {
      FindIn(c.shards, x);
    }
    assert c in [c];
  }

  lemma LargestOfMore(start: Cell, cells: seq<Cell>, id: int, next: Cell, r: Option<Shard>)
    requires cells != [] && Stored(start) && Stored(cells[0]) && start.Live? && cells[0].Live? && next.Live? && Stored(next)
    requires IsLargest([start, cells[0]], id, Find(next.shards, id)) && IsLargest([next] + cells[1..], id, r)
    ensures IsLargest([start] + cells, id, r)
  {
    var all, more := [start] + cells, [next] + cells[1..];
    assert next in more && start in [start, cells[0]] && cells[0] in [start, cells[0]];
    forall c, x | c in all && c.Live? && x in c.shards && x.id == id ensures r.Some? && x.clock <= r.value.clock {
      if c == start || c == cells[0] {
        assert c in [start, cells[0]];
        assert Find(next.shards, id).value in next.shards;
      } else {
        assert c in more;
      }
    }
    if r.Some? {
      var c :| c in more && c.Live? && r.value in c.shards;
      if c == next {
        FindIn(next.shards, r.value);
        var d :| d in [start, cells[0]] && d.Live? && r.value in d.shards;
        assert d in all;
      } else {
        assert c in all;
      }
    }
  }

  // ---- Updates that meet before they are turned into shards ----

  function Total(updates: seq<Cell>): (n: int)
    requires forall u :: u in updates ==> u.Update?
  {
    if updates == [] then 0 else updates[|updates| - 1].delta + Total(updates[..|updates| - 1])
  }

  function MergeUpdates(start: Cell, updates: seq<Cell>): (r: Cell)
    requires start.Update? && forall u :: u in updates ==> u.Update?
    decreases |updates|
  {
    if updates == [] then start
    else
      assert updates[0] in updates;
      MergeUpdates(Merge(start, updates[0]), updates[1..])
  }

  /* Their deltas add up, under the largest timestamp. */
  lemma {:induction false} DeltasAddUp(start: Cell, updates: seq<Cell>)
    requires start.Update? && forall u :: u in updates ==> u.Update?
    ensures MergeUpdates(start, updates).Update? && MergeUpdates(start, updates).delta == start.delta + Total(updates)
    ensures exists u :: u in [start] + updates && u.ts == MergeUpdates(start, updates).ts
    ensures forall u :: u in [start] + updates ==> u.ts <= MergeUpdates(start, updates).ts
    decreases |updates|
  {
    if updates == [] {
      assert start in [start] + updates;
    } else {
      assert updates[0] in updates;
      var next, rest := Merge(start, updates[0]), updates[1..];
      DeltasAddUp(next, rest);
      TotalFirst(updates);
      var u :| u in [next] + rest && u.ts == MergeUpdates(start, updates).ts;
      assert start in [start] + updates && updates[0] in [start] + updates && (u in rest ==> u in [start] + updates);
      assert next in [next] + rest && forall d :: d in rest ==> d in [next] + rest;
    }
  }

  lemma {:induction false} TotalFirst(updates: seq<Cell>)
    requires updates != [] && forall u :: u in updates ==> u.Update?
    ensures Total(updates) == updates[0].delta + Total(updates[1..])
    decreases |updates|
  {
    var n := |updates| - 1;
    if n > 0 {
      TotalFirst(updates[..n]);
      assert updates[..n][1..] == updates[1..][..n - 1];
    }
  }

  // x says something that b does not know yet.
  predicate Fresh(x: Shard, b: seq<Shard>) {
    var y := Find(b, x.id);
    y.None? || x.clock > y.value.clock
  }

  function FreshShards(a: seq<Shard>, b: seq<Shard>): (r: seq<Shard>)
    ensures forall x :: x in r <==> x in a && Fresh(x, b)
  {
    if a == [] then []
    else if Fresh(a[|a| - 1], b) then FreshShards(a[..|a| - 1], b) + [a[|a| - 1]]
    else FreshShards(a[..|a| - 1], b)
  }

  // counter_cell_view::difference(): what has to be applied to b to bring it to a and b together
  function Difference(a: Cell, b: Cell): (d: Option<Cell>)
    requires Stored(a) && Stored(b)
  {
    if b.Dead? || a.Dead? then
      (if b.Live? || (a.Dead? && CompareDead(b, a) < 0) then Some(a) else None)
    else
      var news := FreshShards(a.shards, b.shards);
      if news != [] then Some(Live(Max(a.ts, b.ts), news))
      else if a.ts > b.ts then Some(Live(a.ts, []))
      else None
  }

  lemma {:induction false} FreshSorted(a: seq<Shard>, b: seq<Shard>)
    requires Sorted(a)
    ensures Sorted(FreshShards(a, b))
  {
    if a != [] {
      var front := a[..|a| - 1];
      FreshSorted(front, b);
      forall i | 0 <= i < |FreshShards(front, b)| ensures FreshShards(front, b)[i].id < a[|a| - 1].id {
        assert FreshShards(front, b)[i] in front;
      }
    }
  }

  lemma FreshById(a: seq<Shard>, b: seq<Shard>, id: int)
    requires Sorted(a)
    ensures var x := Find(a, id);
            Find(FreshShards(a, b), id) == if x.Some? && Fresh(x.value, b) then x else None
  {
    var x := Find(a, id);
    var r := FreshShards(a, b);
    FreshSorted(a, b);
    var y := Find(r, id);
    if y.Some? {
      FindIn(a, y.value);
    }
  }

  /* Applying the difference to b gives the same cell as applying a to b. */
  lemma DifferenceSuffices(a: Cell, b: Cell)
    requires Stored(a) && Stored(b)
    ensures Difference(a, b).None? ==> Merge(b, a) == b
    ensures Difference(a, b).Some? ==>
              && Stored(Difference(a, b).value)
              && Merge(b, Difference(a, b).value) == Merge(b, a)
  {
    if a.Live? && b.Live? {
      var news := FreshShards(a.shards, b.shards);
      FreshSorted(a.shards, b.shards);
      CombineSorted(b.shards, news);
      CombineSorted(b.shards, a.shards);
      forall id ensures Find(Combine(b.shards, news), id) == Find(Combine(b.shards, a.shards), id) {
        CombineById(b.shards, news, id);
        CombineById(b.shards, a.shards, id);
        FreshById(a.shards, b.shards, id);
      }
      Canonical(Combine(b.shards, news), Combine(b.shards, a.shards));
      CombineSorted(b.shards, []);
      forall id ensures Find(Combine(b.shards, []), id) == Find(b.shards, id) {
        CombineById(b.shards, [], id);
      }
      Canonical(Combine(b.shards, []), b.shards);
    }
  }

  /* Nothing in it can be spared: whatever cell does the same job holds all of its shards, and when
     there is a difference at all, doing nothing would not do. */
  lemma DifferenceMinimal(a: Cell, b: Cell, c: Cell)
    requires Stored(a) && Stored(b) && Stored(c) && Difference(a, b).Some?
    requires Merge(b, c) == Merge(b, a)
    ensures Merge(b, a) != b
    ensures c.Live? && a.Live? ==> forall x :: x in Difference(a, b).value.shards ==> x in c.shards
  {
    DifferenceSuffices(a, b);
    if a.Live? && b.Live? {
      var news := FreshShards(a.shards, b.shards);
      forall x | x in news ensures c.Live? && x in c.shards && !(x in b.shards) {
        FindIn(a.shards, x);
        CombineById(b.shards, a.shards, x.id);
        CombineById(b.shards, c.shards, x.id);
        if x in b.shards {
          FindIn(b.shards, x);
        }
      }
      if news != [] {
        var x := news[0];
        assert x in news;
        FindIn(a.shards, x);
        CombineById(b.shards, a.shards, x.id);
      }
    }
  }

  lemma FindFrom(s: seq<Shard>, j: nat, id: int)
    requires Sorted(s) && j <= |s|
    requires forall k :: 0 <= k < j ==> s[k].id < id
    requires j < |s| ==> id <= s[j].id
    ensures Find(s, id) == if j < |s| && s[j].id == id then Some(s[j]) else None
  {
    if j < |s| && s[j].id == id {
      FindIn(s, s[j]);
    } else {
      forall k | 0 <= k < |s| ensures s[k].id != id {
        assert k <= j || s[j].id < s[k].id;
      }
    }
  }

  // Where a search for id in b, having passed j shards, ends
  method SkipBelow(b: seq<Shard>, j0: nat, id: int) returns (j: nat)
    requires Sorted(b) && j0 <= |b| && forall k :: 0 <= k < j0 ==> b[k].id < id
    ensures j0 <= j <= |b| && (forall k :: 0 <= k < j ==> b[k].id < id)
    ensures Find(b, id) == if j < |b| && b[j].id == id then Some(b[j]) else None
  {
    j := j0;
    while j < |b| && b[j].id < id
      invariant j0 <= j <= |b|
      invariant forall k :: 0 <= k < j ==> b[k].id < id
    {
      j := j + 1;
    }
    FindFrom(b, j, id);
  }

  // The two-iterator loop of difference()
  method ComputeFresh(a: seq<Shard>, b: seq<Shard>) returns (r: seq<Shard>)
    requires Sorted(a) && Sorted(b)
    ensures r == FreshShards(a, b)
  {
    r := [];
    var i, j := 0, 0;
    while i < |a|
      invariant 0 <= i <= |a| && 0 <= j <= |b|
      invariant forall k :: 0 <= k < j && i < |a| ==> b[k].id < a[i].id
      invariant r == FreshShards(a[..i], b)
    {
      j := SkipBelow(b, j, a[i].id);
      if j == |b| || a[i].id != b[j].id || a[i].clock > b[j].clock {
        r := r + [a[i]];
      }
      assert a[..i + 1][..i] == a[..i];
      i := i + 1;
    }
    assert a[..i] == a;
  }

  lemma CombineStep(a: seq<Shard>, b: seq<Shard>, i: nat, j: nat, r: seq<Shard>)
    requires i < |a| && j < |b|
    ensures r + Combine(a[i..], b[j..]) ==
            if a[i].id < b[j].id then (r + [a[i]]) + Combine(a[i + 1..], b[j..])
            else if b[j].id < a[i].id then (r + [b[j]]) + Combine(a[i..], b[j + 1..])
            else (r + [Newer(a[i], b[j])]) + Combine(a[i + 1..], b[j + 1..])
  {
    assert a[i..][1..] == a[i + 1..] && b[j..][1..] == b[j + 1..];
  }

  // The loop of combine()
  method ComputeCombine(a: seq<Shard>, b: seq<Shard>) returns (r: seq<Shard>)
    ensures r == Combine(a, b)
  {
    r := [];
    var i, j := 0, 0;
    assert a[0..] == a && b[0..] == b;
    while i < |a| && j < |b|
      invariant 0 <= i <= |a| && 0 <= j <= |b|
      invariant r + Combine(a[i..], b[j..]) == Combine(a, b)
      decreases |a| - i + |b| - j
    {
      CombineStep(a, b, i, j, r);
      if a[i].id < b[j].id {
        r, i := r + [a[i]], i + 1;
      } else if b[j].id < a[i].id {
        r, j := r + [b[j]], j + 1;
      } else {
        r, i, j := r + [Newer(a[i], b[j])], i + 1, j + 1;
      }
    }
    r := r + a[i..] + b[j..];
  }
}
