/**
  Counter updates: how the deltas of a mutation become shards that continue the stored ones, and how a
  cell is built from shards in any order.
*/
module CounterUpdates {
  import opened CounterCells
  import opened Wrappers

  // A row: cells, or what is queued for them, in ascending column order
  type Columns<T> = seq<(int, T)>
  type Row = Columns<Cell>
  type Queue = Columns<Shard>

  predicate Ascending<T>(row: Columns<T>) {
    forall i, j :: 0 <= i < j < |row| ==> row[i].0 < row[j].0
  }

  function At<T>(row: Columns<T>, col: int): (r: Option<T>)
    ensures r.Some? ==> (col, r.value) in row
    ensures r.None? ==> forall x :: x in row ==> x.0 != col
  {
    if row == [] then None else if row[0].0 == col then Some(row[0].1) else At(row[1..], col)
  }

  function LocalShard(state: Option<Cell>, local: int): Option<Shard> {
    if state.Some? && state.value.Live? then Find(state.value.shards, local) else None
  }

  // One cell of a counter mutation, given the stored cell
  function TransformCell(cell: Cell, state: Option<Cell>, local: int, offset: nat): (r: Cell) {
    if !cell.Update? then cell
    else
      var cs := LocalShard(state, local);
      var next := if cs.Some? then Shard(local, cs.value.value + cell.delta, cs.value.clock + offset + 1)
                  else Shard(local, cell.delta, offset + 1);
      Live(cell.ts, [next])
  }

  // The shard computed for a cell, applied to what was stored, counts the delta there and nothing else
  lemma TransformedCounts(cell: Cell, state: Cell, local: int, offset: nat, id: int)
    requires cell.Update? && state.Live? && Sorted(state.shards)
    ensures var r := Merge(state, TransformCell(cell, Some(state), local, offset));
      var was := Find(state.shards, local);
      && r.Live? && r.ts == Max(state.ts, cell.ts)
      && (id != local ==> Find(r.shards, id) == Find(state.shards, id))
      && Find(r.shards, local).Some?
      && Find(r.shards, local).value.value == (if was.Some? then was.value.value else 0) + cell.delta
      && Find(r.shards, local).value.clock == (if was.Some? then was.value.clock else 0) + offset + 1
  {
    var next := TransformCell(cell, Some(state), local, offset).shards;
    CombineById(state.shards, next, id);
    CombineById(state.shards, next, local);
  }

  // A computed cell keeps the timestamp of its delta; deletions and the like pass
  lemma TransformedKeepsTime(cell: Cell, state: Option<Cell>, local: int, offset: nat)
    ensures TransformCell(cell, state, local, offset).ts == cell.ts
    ensures !cell.Update? ==> TransformCell(cell, state, local, offset) == cell
  {
  }

  // The local shards of a stored row, by column
  function LocalShards(state: Row, local: int): (q: Queue) {
    if state == [] then []
    else
      var rest := LocalShards(state[1..], local);
      var cs := LocalShard(Some(state[0].1), local);
      if cs.Some? then [(state[0].0, cs.value)] + rest else rest
  }

  lemma {:induction false} LocalShardsAbove(state: Row, local: int, col: int)
    requires forall x :: x in state ==> col < x.0
    ensures forall y :: y in LocalShards(state, local) ==> col < y.0
  {
    if state != [] {
      assert state[0] in state && forall x :: x in state[1..] ==> x in state;
      LocalShardsAbove(state[1..], local, col);
    }
  }

  lemma {:induction false} LocalShardsAscend(state: Row, local: int)
    requires Ascending(state)
    ensures Ascending(LocalShards(state, local))
  {
    if state != [] {
      LocalShardsAscend(state[1..], local);
      LocalShardsAbove(state[1..], local, state[0].0);
      var q := LocalShards(state[1..], local);
      assert forall i :: 0 <= i < |q| ==> q[i] in q;
    }
  }

  lemma {:induction false} LocalShardsAnswer(state: Row, local: int, col: int)
    requires Ascending(state)
    ensures At(LocalShards(state, local), col) == LocalShard(At(state, col), local)
  {
    if state != [] {
      var q := LocalShards(state[1..], local);
      LocalShardsAnswer(state[1..], local, col);
      assert forall x :: ([x] + q)[1..] == q;
      if state[0].0 == col {
        LocalShardsAbove(state[1..], local, col);
        assert At(q, col).None?;
      }
    }
  }

  // The queue still answers for every column from `from` on.
  ghost predicate Answers(q: Queue, state: Row, local: int, from: int) {
    Ascending(q) && forall col :: from <= col ==> At(q, col) == LocalShard(At(state, col), local)
  }

  lemma PopAnswers(q: Queue, state: Row, local: int, from: int, from': int)
    requires Answers(q, state, local, from) && q != [] && from <= from' && q[0].0 < from'
    ensures Answers(q[1..], state, local, from')
  {
    forall col | from' <= col ensures At(q[1..], col) == LocalShard(At(state, col), local) {
      assert At(q, col) == At(q[1..], col);
    }
  }

  lemma FrontAnswers(q: Queue, col: int)
    requires Ascending(q) && (q != [] ==> col <= q[0].0)
    ensures At(q, col) == if q != [] && q[0].0 == col then Some(q[0].1) else None
  {
  }

  // Drops the queued shards of columns the mutation does not touch.
  method PopBelow(queue: Queue, state: Row, local: int, col: int) returns (q: Queue)
    requires Answers(queue, state, local, col)
    ensures Answers(q, state, local, col) && (q != [] ==> col <= q[0].0)
  {
    q := queue;
    while q != [] && q[0].0 < col
      invariant Answers(q, state, local, col)
    {
      PopAnswers(q, state, local, col, col);
      q := q[1..];
    }
  }

  method TransformNext(queue: Queue, state: Row, local: int, offset: nat, col: int, cell: Cell) returns (q: Queue, r: Cell)
    requires Answers(queue, state, local, col)
    ensures Answers(q, state, local, col + 1)
    ensures r == TransformCell(cell, At(state, col), local, offset)
  {
    q := queue;
    if cell.Update? {
      q := PopBelow(queue, state, local, col);
      FrontAnswers(q, col);
      if q == [] || q[0].0 > col {
        r := Live(cell.ts, [Shard(local, cell.delta, offset + 1)]);
      } else {
        var cs := q[0].1;
        r := Live(cell.ts, [Shard(cs.id, cs.value + cell.delta, cs.clock + (offset + 1))]);
        PopAnswers(q, state, local, col, col + 1);
        q := q[1..];
      }
    } else {
      r := cell;
    }
  }

  // Each cell transformed as looking it up in a stored row would
  predicate IsTransformed(out: Row, row: Row, state: Row, local: int, offset: nat) {
    && |out| == |row|
    && forall i :: 0 <= i < |row| ==> out[i] == (row[i].0, TransformCell(row[i].1, At(state, row[i].0), local, offset))
  }

  // transform_row_to_shards(): local shards of the stored row are queued by column and consumed
  // while walking the mutation's row.
  method TransformRow(row: Row, state: Row, local: int, offset: nat) returns (out: Row)
    requires Ascending(row) && Ascending(state)
    ensures IsTransformed(out, row, state, local, offset)
  {
    var queue := LocalShards(state, local);
    LocalShardsAscend(state, local);
    forall col ensures At(queue, col) == LocalShard(At(state, col), local) {
      LocalShardsAnswer(state, local, col);
    }
    ghost var from := if row == [] then 0 else row[0].0;
    out := [];
    for i := 0 to |row|
      invariant |out| == i && Answers(queue, state, local, from) && (i < |row| ==> from <= row[i].0)
      invariant forall k :: 0 <= k < i ==>
                  out[k] == (row[k].0, TransformCell(row[k].1, At(state, row[k].0), local, offset))
    {
      var (col, cell) := row[i];
      var r;
      queue, r := TransformNext(queue, state, local, offset, col, cell);
      from := col + 1;
      out := out + [(col, r)];
    }
  }

  // ---- A whole mutation ----

  // Static cells, and rows by ascending clustering key
  datatype Mutation = Mutation(staticRow: Row, rows: Columns<Row>)

  predicate ValidMutation(m: Mutation) {
    Ascending(m.staticRow) && Ascending(m.rows) && forall i :: 0 <= i < |m.rows| ==> Ascending(m.rows[i].1)
  }

  function StaticRowOf(state: Option<Mutation>): (row: Row) {
    if state.Some? then state.value.staticRow else []
  }

  // The stored row of a key, empty if there is none
  function RowOf(state: Option<Mutation>, key: int): (row: Row) {
    if state.None? then [] else match At(state.value.rows, key) case None => [] case Some(row) => row
  }

  // transform_new_row_to_shards()
  method TransformNewRow(row: Row, local: int, offset: nat) returns (out: Row)
    ensures IsTransformed(out, row, [], local, offset)
  {
    out := [];
    for i := 0 to |row|
      invariant |out| == i
      invariant forall k :: 0 <= k < i ==> out[k] == (row[k].0, TransformCell(row[k].1, None, local, offset))
    {
      var (col, cell) := row[i];
      if cell.Update? {
        cell := Live(cell.ts, [Shard(local, cell.delta, offset + 1)]);
      }
      out := out + [(col, cell)];
    }
  }

  lemma {:induction false} AtFrom<T>(rows: Columns<T>, j: nat, key: int)
    requires Ascending(rows) && j <= |rows| && (forall k :: 0 <= k < j ==> rows[k].0 < key)
    requires j < |rows| ==> key <= rows[j].0
    ensures At(rows, key) == if j < |rows| && rows[j].0 == key then Some(rows[j].1) else None
    decreases |rows|
  {
    if j > 0 {
      AtFrom(rows[1..], j - 1, key);
    } else if rows != [] && rows[0].0 != key {
      assert forall x :: x in rows ==> key < x.0;
    }
  }

  // ++it while it->key() < key
  method SkipRows(rows: Columns<Row>, j0: nat, key: int) returns (j: nat)
    requires Ascending(rows) && j0 <= |rows| && forall k :: 0 <= k < j0 ==> rows[k].0 < key
    ensures j0 <= j <= |rows| && (forall k :: 0 <= k < j ==> rows[k].0 < key) && (j < |rows| ==> key <= rows[j].0)
    ensures At(rows, key) == if j < |rows| && rows[j].0 == key then Some(rows[j].1) else None
  {
    j := j0;
    while j < |rows| && rows[j].0 < key
      invariant j0 <= j <= |rows|
      invariant forall k :: 0 <= k < j ==> rows[k].0 < key
    {
      j := j + 1;
    }
    AtFrom(rows, j, key);
  }

  // The walk of the mutation's rows against the stored ones
  method TransformRows(rows: Columns<Row>, state: Mutation, local: int, offset: nat) returns (out: Columns<Row>)
    requires ValidMutation(Mutation([], rows)) && ValidMutation(state)
    ensures |out| == |rows|
    ensures forall i :: 0 <= i < |rows| ==>
              out[i].0 == rows[i].0 && IsTransformed(out[i].1, rows[i].1, RowOf(Some(state), rows[i].0), local, offset)
  {
    out := [];
    var it := 0;
    for i := 0 to |rows|
      invariant |out| == i && it <= |state.rows|
      invariant i < |rows| ==> forall k :: 0 <= k < it ==> state.rows[k].0 < rows[i].0
      invariant forall k :: 0 <= k < i ==>
                  out[k].0 == rows[k].0 && IsTransformed(out[k].1, rows[k].1, RowOf(Some(state), rows[k].0), local, offset)
    {
      var (key, row) := rows[i];
      it := SkipRows(state.rows, it, key);
      var r;
      if it == |state.rows| || key < state.rows[it].0 {
        assert RowOf(Some(state), key) == [];
        r := TransformNewRow(row, local, offset);
      } else {
        assert RowOf(Some(state), key) == state.rows[it].1;
        r := TransformRow(row, state.rows[it].1, local, offset);
      }
      out := out + [(key, r)];
    }
  }

  // transform_counter_updates_to_shards()
  method TransformMutation(m: Mutation, state: Option<Mutation>, local: int, offset: nat) returns (out: Mutation)
    requires ValidMutation(m) && (state.Some? ==> ValidMutation(state.value))
    ensures IsTransformed(out.staticRow, m.staticRow, StaticRowOf(state), local, offset)
    ensures |out.rows| == |m.rows|
    ensures forall i :: 0 <= i < |m.rows| ==>
              && out.rows[i].0 == m.rows[i].0
              && IsTransformed(out.rows[i].1, m.rows[i].1, RowOf(state, m.rows[i].0), local, offset)
  {
    if state.Some? {
      var s := TransformRow(m.staticRow, state.value.staticRow, local, offset);
      var rows := TransformRows(m.rows, state.value, local, offset);
      return Mutation(s, rows);
    }
    var s := TransformNewRow(m.staticRow, local, offset);
    var rows: Columns<Row> := [];
    for i := 0 to |m.rows|
      invariant |rows| == i
      invariant forall k :: 0 <= k < i ==>
                  rows[k].0 == m.rows[k].0 && IsTransformed(rows[k].1, m.rows[k].1, [], local, offset)
    {
      var r := TransformNewRow(m.rows[i].1, local, offset);
      rows := rows + [(m.rows[i].0, r)];
    }
    return Mutation(s, rows);
  }

  // ---- Building a cell from shards in any order ----

  // What a cell holds for id after all shards were added: one with the largest clock
  ghost predicate IsNewest(shards: seq<Shard>, id: int, r: Option<Shard>) {
    if r.None? then forall x :: x in shards ==> x.id != id
    else r.value in shards && r.value.id == id && forall x :: x in shards && x.id == id ==> x.clock <= r.value.clock
  }

  lemma FindAppended(r: seq<Shard>, x: Shard, id: int)
    requires Sorted(r) && (r != [] ==> r[|r| - 1].id < x.id)
    ensures Sorted(r + [x]) && Find(r + [x], id) == if x.id == id then Some(x) else Find(r, id)
  {
    var s := r + [x];
    assert x in s && forall y :: y in s <==> y in r || y == x;
    if x.id == id {
      FindIn(s, x);
    } else if Find(s, id).Some? {
      FindIn(r, Find(s, id).value);
    }
  }

  lemma NewestWithNew(shards: seq<Shard>, r: seq<Shard>, x: Shard, id: int)
    requires Sorted(r) && (r != [] ==> r[|r| - 1].id < x.id) && (forall y :: y in shards ==> y.id < x.id)
    requires IsNewest(shards, id, Find(r, id))
    ensures Sorted(r + [x]) && IsNewest(shards + [x], id, Find(r + [x], id))
  {
    FindAppended(r, x, id);
  }

  lemma NewestWithSame(shards: seq<Shard>, front: seq<Shard>, y: Shard, x: Shard, id: int)
    requires Sorted(front) && (front != [] ==> front[|front| - 1].id < y.id) && y.id == x.id
    requires IsNewest(shards, id, Find(front + [y], id))
    ensures Sorted(front + [Newer(y, x)]) && IsNewest(shards + [x], id, Find(front + [Newer(y, x)], id))
  {
    FindAppended(front, y, id);
    FindAppended(front, Newer(y, x), id);
  }

  // The next shard in order of id: a new id, or the last one again
  lemma NewestNext(sorted: seq<Shard>, i: nat, r: seq<Shard>, id: int)
    requires i < |sorted| && (forall a, b :: 0 <= a < b < |sorted| ==> sorted[a].id <= sorted[b].id)
    requires Sorted(r) && (r == [] <==> i == 0) && (r != [] ==> r[|r| - 1].id == sorted[i - 1].id)
    requires IsNewest(sorted[..i], id, Find(r, id))
    ensures var cs, n := sorted[i], |r| - 1; var now := sorted[..i + 1];
      if r == [] || r[n].id != cs.id then Sorted(r + [cs]) && IsNewest(now, id, Find(r + [cs], id))
      else Sorted(r[n := Newer(r[n], cs)]) && IsNewest(now, id, Find(r[n := Newer(r[n], cs)], id))
  {
    var cs := sorted[i];
    assert sorted[..i + 1] == sorted[..i] + [cs];
    if r == [] || r[|r| - 1].id != cs.id {
      NewestWithNew(sorted[..i], r, cs, id);
    } else {
      var n := |r| - 1;
      assert r == r[..n] + [r[n]] && r[n := Newer(r[n], cs)] == r[..n] + [Newer(r[n], cs)];
      NewestWithSame(sorted[..i], r[..n], r[n], cs, id);
    }
  }

  // do_sort_and_remove_duplicates(); sorted is what the sort by id made of the shards added
  method RemoveDuplicates(shards: seq<Shard>, sorted: seq<Shard>) returns (r: seq<Shard>)
    requires multiset(sorted) == multiset(shards)
    requires forall i, j :: 0 <= i < j < |sorted| ==> sorted[i].id <= sorted[j].id
    ensures Sorted(r) && forall id :: IsNewest(shards, id, Find(r, id))
  {
    r := [];
    for i := 0 to |sorted|
      invariant Sorted(r) && (r == [] <==> i == 0) && (r != [] ==> r[|r| - 1].id == sorted[i - 1].id)
      invariant forall id :: IsNewest(sorted[..i], id, Find(r, id))
    {
      var cs, n := sorted[i], |r| - 1;
      ghost var now, before := sorted[..i + 1], r;
      if r == [] || r[n].id != cs.id {
        r := r + [cs];
      } else {
        r := r[n := Newer(r[n], cs)];
      }
      forall id ensures Sorted(r) && IsNewest(now, id, Find(r, id)) {
        NewestNext(sorted, i, before, id);
      }
      NewestNext(sorted, i, before, 0);
    }
    assert sorted[..|sorted|] == sorted;
    forall x ensures x in sorted <==> x in shards {
      assert x in sorted <==> multiset(sorted)[x] > 0;
      assert x in shards <==> multiset(shards)[x] > 0;
    }
  }

  // The order in which shards were added does not show, unless equal clocks have different values
  lemma OrderDoesNotShow(shards: seq<Shard>, r: seq<Shard>, t: seq<Shard>)
    requires Sorted(r) && Sorted(t) && Functional(set x | x in shards)
    requires forall id :: IsNewest(shards, id, Find(r, id)) && IsNewest(shards, id, Find(t, id))
    ensures r == t
  {
    forall id ensures Find(r, id) == Find(t, id) {
      assert IsNewest(shards, id, Find(r, id)) && IsNewest(shards, id, Find(t, id));
    }
    Canonical(r, t);
  }
}
