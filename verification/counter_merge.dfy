/**
  Applying one counter cell to another in place, and taking it back.

  When every shard of src has its counterpart in dst, the two buffers trade values and clocks without
  allocating; src is left holding what dst had, so that the apply can be reverted.  Otherwise the
  trades made so far are undone by walking backwards, and a new cell is built.
*/
module CounterMerge {
  import opened CounterCells
  import opened Wrappers

  // What dst's shard becomes when its counterpart in src, if any, is applied to it.
  function Applied(x: Shard, y: Option<Shard>): (r: Shard) {
    if y.Some? then Newer(x, y.value) else x
  }

  ghost predicate Covers(dst: seq<Shard>, src: seq<Shard>) {
    forall y :: y in src ==> Find(dst, y.id).Some?
  }

  // What the fast path leaves in src: dst's own shards, for src's ids.
  function Saved(dst: seq<Shard>, src: seq<Shard>): (r: seq<Shard>)
    ensures |r| == |src|
    ensures forall k :: 0 <= k < |src| ==> r[k] == Counterpart(dst, src[k])
  {
    seq(|src|, k requires 0 <= k < |src| => Counterpart(dst, src[k]))
  }

  function Counterpart(dst: seq<Shard>, y: Shard): (r: Shard)
    ensures r.id == y.id
  {
    var x := Find(dst, y.id);
    if x.Some? then x.value else y
  }

  // What src's shard becomes when the trade is undone: the newer of the two.
  function Winner(dst: seq<Shard>, y: Shard): (r: Shard)
    ensures r.id == y.id
  {
    Newer(Counterpart(dst, y), y)
  }

  lemma FindPrefix(s: seq<Shard>, j: nat, id: int)
    requires Sorted(s) && j < |s|
    ensures Find(s[..j + 1], id) == if s[j].id == id then Some(s[j]) else Find(s[..j], id)
  {
    assert forall x :: x in s[..j + 1] <==> x in s[..j] || x == s[j];
    var r := Find(s[..j + 1], id);
    if s[j].id == id {
      FindIn(s[..j + 1], s[j]);
    } else if r.Some? {
      FindIn(s[..j], r.value);
    }
  }

  predicate SameIds(a: seq<Shard>, b: seq<Shard>) {
    |a| == |b| && forall p :: 0 <= p < |a| ==> a[p].id == b[p].id
  }

  // dst's shard p has met its counterpart among the given shards of src.
  predicate Met(dst: seq<Shard>, d: seq<Shard>, s: seq<Shard>, p: int) {
    0 <= p < |d| && p < |dst| && dst[p] == Applied(d[p], Find(s, d[p].id))
  }

  ghost predicate AllMet(dst: seq<Shard>, d: seq<Shard>, s: seq<Shard>) {
    SameIds(dst, d) && forall p :: 0 <= p < |d| ==> Met(dst, d, s, p)
  }

  // The buffers after the first j shards of src were traded.
  ghost predicate Traded(dst: seq<Shard>, src: seq<Shard>, d: seq<Shard>, s: seq<Shard>, j: nat) {
    && SameIds(src, s) && j <= |s|
    && AllMet(dst, d, s[..j])
    && (forall k :: 0 <= k < j ==> src[k] == Counterpart(d, s[k]))
  }

  lemma TradeNext(dst: seq<Shard>, src: seq<Shard>, d: seq<Shard>, s: seq<Shard>, j: nat, i: nat)
    requires Sorted(d) && Sorted(s) && j < |s| && i < |d| && d[i].id == s[j].id
    requires Traded(dst, src, d, s, j) && src[j] == s[j]
    ensures dst[i] == d[i]
    ensures Traded(dst[i := Newer(d[i], s[j])], src[j := d[i]], d, s, j + 1)
  {
    FindIn(d, d[i]);
    assert Find(s[..j], s[j].id).None? by {
      assert forall k :: 0 <= k < j ==> s[..j][k].id < s[j].id;
    }
    assert Met(dst, d, s[..j], i);
    var r := dst[i := Newer(d[i], s[j])];
    var done := s[..j + 1];
    forall p | 0 <= p < |d| ensures Met(r, d, done, p) {
      FindPrefix(s, j, d[p].id);
      assert Met(dst, d, s[..j], p);
      assert p != i ==> d[p].id != d[i].id;
    }
  }

  // The position of id in two lists with the same ids, or their length when it is in neither.
  lemma FindBoth(a: seq<Shard>, b: seq<Shard>, id: int) returns (p: nat)
    requires Sorted(a) && SameIds(a, b)
    ensures Sorted(b) && p <= |a|
    ensures p < |a| ==> a[p].id == id && Find(a, id) == Some(a[p]) && Find(b, id) == Some(b[p])
    ensures p == |a| ==> Find(a, id).None? && Find(b, id).None?
  {
    if Find(a, id).Some? {
      p :| 0 <= p < |a| && a[p] == Find(a, id).value;
      FindIn(b, b[p]);
    } else {
      p := |a|;
      var y := Find(b, id);
      assert forall k :: 0 <= k < |b| ==> a[k] in a && b[k].id != id;
    }
  }

  /* Shard by shard application over dst is the sorted merge. */
  lemma AppliedIsCombine(d: seq<Shard>, s: seq<Shard>, r: seq<Shard>)
    requires Sorted(d) && Sorted(s) && Covers(d, s) && AllMet(r, d, s)
    ensures r == Combine(d, s)
  {
    CombineSorted(d, s);
    forall id ensures Find(r, id) == Find(Combine(d, s), id) {
      CombineById(d, s, id);
      var p := FindBoth(d, r, id);
      if p < |d| {
        assert Met(r, d, s, p);
      } else {
        assert Find(s, id).None?;
      }
    }
    var _ := FindBoth(d, r, 0);
    Canonical(r, Combine(d, s));
  }

  lemma CombineIsApplied(d: seq<Shard>, s: seq<Shard>)
    requires Sorted(d) && Sorted(s) && Covers(d, s)
    ensures AllMet(Combine(d, s), d, s)
  {
    var r := seq(|d|, p requires 0 <= p < |d| => Applied(d[p], Find(s, d[p].id)));
    assert forall p :: 0 <= p < |d| ==> r[p] == Applied(d[p], Find(s, d[p].id));
    AppliedIsCombine(d, s, r);
  }

  /* After an undone attempt src differs, but merges into dst the same. */
  lemma UndoneMergesSame(d: seq<Shard>, s: seq<Shard>, t: seq<Shard>)
    requires Sorted(d) && Sorted(s) && |t| == |s|
    requires forall k :: 0 <= k < |s| ==> t[k] == s[k] || t[k] == Winner(d, s[k])
    ensures Sorted(t) && Combine(d, t) == Combine(d, s)
  {
    assert SameIds(s, t);
    var _ := FindBoth(s, t, 0);
    CombineSorted(d, s);
    CombineSorted(d, t);
    forall id ensures Find(Combine(d, t), id) == Find(Combine(d, s), id) {
      CombineById(d, s, id);
      CombineById(d, t, id);
      var k := FindBoth(s, t, id);
    }
    Canonical(Combine(d, t), Combine(d, s));
  }

  lemma TradeBack(dst: seq<Shard>, src: seq<Shard>, d: seq<Shard>, s: seq<Shard>, k: nat, p: nat)
    requires Sorted(d) && Sorted(s) && k < |s| && p < |d| && d[p].id == s[k].id
    requires Traded(dst, src, d, s, k + 1)
    ensures src[k] == d[p] && dst[p] == Winner(d, s[k])
    ensures Traded(dst[p := d[p]], src[k := dst[p]], d, s, k)
  {
    FindIn(d, d[p]);
    FindPrefix(s, k, d[p].id);
    assert Find(s[..k], s[k].id).None? by {
      assert forall x :: 0 <= x < k ==> s[..k][x].id < s[k].id;
    }
    assert Met(dst, d, s[..k + 1], p);
    var r := dst[p := d[p]];
    forall q | 0 <= q < |d| ensures Met(r, d, s[..k], q) {
      FindPrefix(s, k, d[q].id);
      assert Met(dst, d, s[..k + 1], q);
      assert q != p ==> d[q].id != d[p].id;
    }
  }

  // ++it while it->id() < id
  method AdvanceTo(a: array<Shard>, i: nat, id: int) returns (n: nat)
    requires i <= a.Length
    ensures i <= n <= a.Length && (n < a.Length ==> id <= a[n].id)
    ensures forall p :: i <= p < n ==> a[p].id < id
  {
    n := i;
    while n < a.Length && a[n].id < id
      invariant i <= n <= a.Length
      invariant forall p :: i <= p < n ==> a[p].id < id
    {
      n := n + 1;
    }
  }

  // --it while it->id() != id
  method WalkBackTo(a: array<Shard>, i: nat, id: int) returns (n: nat)
    requires i < a.Length && exists p :: 0 <= p <= i && a[p].id == id
    ensures n <= i && a[n].id == id
  {
    n := i;
    while a[n].id != id
      invariant 0 <= n <= i && exists p :: 0 <= p <= n && a[p].id == id
      decreases n
    {
      n := n - 1;
    }
  }

  method Exchange(dst: array<Shard>, src: array<Shard>, i: nat, j: nat)
    requires dst != src && i < dst.Length && j < src.Length
    modifies dst, src
    ensures dst[..] == old(dst[..])[i := old(src[j])] && src[..] == old(src[..])[j := old(dst[i])]
  {
    dst[i], src[j] := src[j], dst[i];
  }

  // The backward walk: of the first j trades those from k on are undone, and the shards of dst after p are done with.
  ghost predicate Undoing(dst: seq<Shard>, src: seq<Shard>, d: seq<Shard>, s: seq<Shard>, p: nat, k: nat, j: nat) {
    && Traded(dst, src, d, s, k) && p < |d| && k <= j <= |s|
    && (forall q, x :: p < q < |d| && 0 <= x < k ==> s[x].id < d[q].id)
    && (forall x :: k <= x < |s| ==> src[x] == if x < j then Winner(d, s[x]) else s[x])
  }

  lemma UndoNext(dst: seq<Shard>, src: seq<Shard>, d: seq<Shard>, s: seq<Shard>, p: nat, k: nat, j: nat, n: nat)
    requires Sorted(d) && Sorted(s) && Undoing(dst, src, d, s, p, k + 1, j) && n <= p && d[n].id == s[k].id
    ensures Undoing(dst[n := src[k]], src[k := dst[n]], d, s, n, k, j)
  {
    TradeBack(dst, src, d, s, k, n);
  }

  // The shard to trade back is at p or before it
  lemma BehindUs(dst: seq<Shard>, src: seq<Shard>, d: seq<Shard>, s: seq<Shard>, p: nat, k: nat, j: nat) returns (n: nat)
    requires Sorted(d) && Undoing(dst, src, d, s, p, k + 1, j) && Find(d, s[k].id).Some?
    ensures n <= p && dst[n].id == src[k].id
  {
    n := FindBoth(d, dst, s[k].id);
  }

  method TradeOneBack(dst: array<Shard>, src: array<Shard>, p: nat, k: nat, ghost j: nat,
                      ghost d: seq<Shard>, ghost s: seq<Shard>) returns (n: nat)
    requires dst != src && Sorted(d) && Sorted(s)
    requires Undoing(dst[..], src[..], d, s, p, k + 1, j) && Find(d, s[k].id).Some?
    modifies dst, src
    ensures Undoing(dst[..], src[..], d, s, n, k, j)
  {
    ghost var ds, ss := dst[..], src[..];
    ghost var at := BehindUs(ds, ss, d, s, p, k, j);
    assert dst[at] == ds[at] && src[k] == ss[k];
    n := WalkBackTo(dst, p, src[k].id);
    assert dst[n] == ds[n];
    UndoNext(ds, ss, d, s, p, k, j, n);
    Exchange(dst, src, n, k);
  }

  // Undoes the first j trades, starting from position i of dst.
  method UndoTrades(dst: array<Shard>, src: array<Shard>, i: nat, j: nat, ghost d: seq<Shard>, ghost s: seq<Shard>)
    requires dst != src && Sorted(d) && Sorted(s) && 0 < |d|
    requires Undoing(dst[..], src[..], d, s, if i < |d| then i else |d| - 1, j, j)
    requires forall k :: 0 <= k < j ==> Find(d, s[k].id).Some?
    modifies dst, src
    ensures dst[..] == d && src.Length == |s|
    ensures forall k :: 0 <= k < |s| ==> src[k] == if k < j then Winner(d, s[k]) else s[k]
  {
    var p, k := if i < dst.Length then i else dst.Length - 1, j;
    while 0 < k
      invariant 0 <= p && 0 <= k <= j && Undoing(dst[..], src[..], d, s, p, k, j)
    {
      k := k - 1;
      p := TradeOneBack(dst, src, p, k, j, d, s);
    }
    NothingTraded(dst[..], src[..], d, s);
    ghost var ss := src[..];
    assert forall x :: 0 <= x < |s| ==> ss[x] == if x < j then Winner(d, s[x]) else s[x];
  }

  lemma NothingTraded(dst: seq<Shard>, src: seq<Shard>, d: seq<Shard>, s: seq<Shard>)
    requires Traded(dst, src, d, s, 0)
    ensures dst == d
  {
    forall p | 0 <= p < |d| ensures dst[p] == d[p] {
      assert Met(dst, d, s[..0], p);
    }
  }

  // The forward walk: the shards of d before i are smaller than shard j of s
  ghost predicate Reached(d: seq<Shard>, s: seq<Shard>, i: nat, j: nat) {
    i <= |d| && j <= |s| && forall p :: 0 <= p < i && j < |s| ==> d[p].id < s[j].id
  }

  // The first j shards of src were found in dst and traded.
  ghost predicate Trading(dst: seq<Shard>, src: seq<Shard>, d: seq<Shard>, s: seq<Shard>, i: nat, j: nat) {
    && Traded(dst, src, d, s, j) && Reached(d, s, i, j)
    && (forall k :: j <= k < |s| ==> src[k] == s[k])
    && (forall k :: 0 <= k < j ==> Find(d, s[k].id).Some?)
  }

  lemma TradingStarts(d: seq<Shard>, s: seq<Shard>)
    ensures Trading(d, s, d, s, 0, 0)
  {
    assert s[..0] == [];
  }

  // dst's shard n is the first that is not smaller than the next one of src.
  predicate Stopped(dst: seq<Shard>, src: seq<Shard>, i: nat, j: nat, n: nat) {
    && i <= n <= |dst| && j < |src| && (n < |dst| ==> src[j].id <= dst[n].id)
    && forall p :: i <= p < n ==> dst[p].id < src[j].id
  }

  lemma ReachedOn(dst: seq<Shard>, src: seq<Shard>, d: seq<Shard>, s: seq<Shard>, i: nat, j: nat, n: nat)
    requires Sorted(d) && SameIds(dst, d) && SameIds(src, s) && Reached(d, s, i, j) && Stopped(dst, src, i, j, n)
    ensures Reached(d, s, n, j) && (n < |d| ==> s[j].id <= d[n].id)
    ensures Find(d, s[j].id).Some? <==> n < |d| && d[n].id == s[j].id
  {
    FindFrom(d, n, s[j].id);
  }

  method Seek(dst: array<Shard>, src: array<Shard>, i: nat, j: nat) returns (n: nat)
    requires i <= dst.Length && j < src.Length
    ensures Stopped(dst[..], src[..], i, j, n)
  {
    n := AdvanceTo(dst, i, src[j].id);
  }

  lemma TradingNext(dst: seq<Shard>, src: seq<Shard>, d: seq<Shard>, s: seq<Shard>, i: nat, j: nat)
    requires Sorted(d) && Sorted(s) && Trading(dst, src, d, s, i, j) && j < |s| && i < |d| && d[i].id == s[j].id
    ensures dst[i] == d[i] && src[j] == s[j]
    ensures Trading(dst[i := Newer(d[i], s[j])], src[j := d[i]], d, s, i, j + 1)
  {
    TradeNext(dst, src, d, s, j, i);
    FindIn(d, d[i]);
  }

  method TradeOne(dst: array<Shard>, src: array<Shard>, i: nat, j: nat, ghost d: seq<Shard>, ghost s: seq<Shard>)
    requires dst != src && Sorted(d) && Sorted(s)
    requires Trading(dst[..], src[..], d, s, i, j) && j < |s| && i < |d| && d[i].id == s[j].id
    modifies dst, src
    ensures Trading(dst[..], src[..], d, s, i, j + 1)
  {
    ghost var ds, ss := dst[..], src[..];
    TradingNext(ds, ss, d, s, i, j);
    assert dst[i] == ds[i] && src[j] == ss[j];
    if dst[i].clock < src[j].clock {
      Exchange(dst, src, i, j);
    } else {
      src[j] := dst[i];
      assert src[..] == ss[j := d[i]] && dst[..] == ds == ds[i := d[i]];
    }
  }

  // A shard of src is missing in dst: back to where we started, but for the shards of src that lost.
  method GiveUp(dst: array<Shard>, src: array<Shard>, i: nat, j: nat, ghost d: seq<Shard>, ghost s: seq<Shard>)
    requires dst != src && Sorted(d) && Sorted(s) && 0 < |d|
    requires Trading(dst[..], src[..], d, s, i, j) && j < |s| && (i < |d| ==> s[j].id <= d[i].id)
    modifies dst, src
    ensures dst[..] == d && Sorted(src[..]) && Combine(d, src[..]) == Combine(d, s)
  {
    UndoTrades(dst, src, i, j, d, s);
    UndoneMergesSame(d, s, src[..]);
  }

  lemma NotCovered(d: seq<Shard>, s: seq<Shard>, j: nat)
    requires j < |s| && Find(d, s[j].id).None?
    ensures !Covers(d, s)
  {
    assert s[j] in s;
  }

  lemma AllTraded(dst: seq<Shard>, src: seq<Shard>, d: seq<Shard>, s: seq<Shard>, i: nat)
    requires Sorted(d) && Sorted(s) && Trading(dst, src, d, s, i, |s|)
    ensures Covers(d, s) && dst == Combine(d, s) && src == Saved(d, s)
  {
    assert s[..|s|] == s;
    AppliedIsCombine(d, s, dst);
  }

  /** The fast path. */
  method ApplyInPlace(dst: array<Shard>, src: array<Shard>) returns (ok: bool)
    requires dst != src && Sorted(dst[..]) && Sorted(src[..]) && src.Length <= dst.Length
    modifies dst, src
    ensures ok <==> Covers(old(dst[..]), old(src[..]))
    ensures ok ==> dst[..] == Combine(old(dst[..]), old(src[..])) && src[..] == Saved(old(dst[..]), old(src[..]))
    ensures !ok ==> dst[..] == old(dst[..]) && Sorted(src[..])
    ensures !ok ==> Combine(dst[..], src[..]) == Combine(old(dst[..]), old(src[..]))
  {
    ghost var d, s := dst[..], src[..];
    var i, j := 0, 0;
    TradingStarts(d, s);
    while j < src.Length
      invariant 0 <= i && 0 <= j && Trading(dst[..], src[..], d, s, i, j)
    {
      var n := Seek(dst, src, i, j);
      ReachedOn(dst[..], src[..], d, s, i, j, n);
      i := n;
      if i == dst.Length || dst[i].id != src[j].id {
        NotCovered(d, s, j);
        GiveUp(dst, src, i, j, d, s);
        return false;
      }
      TradeOne(dst, src, i, j, d, s);
      j := j + 1;
    }
    AllTraded(dst[..], src[..], d, s, i);
    return true;
  }

  // dst's shard p during the revert: restored if its counterpart was already traded back.
  predicate Restored(dst: seq<Shard>, d: seq<Shard>, s: seq<Shard>, j: int, p: int) {
    && 0 <= p < |d| && p < |dst| && 0 <= j <= |s|
    && dst[p] == if Find(s[..j], d[p].id).Some? then d[p] else Applied(d[p], Find(s, d[p].id))
  }

  ghost predicate Reverting(dst: seq<Shard>, src: seq<Shard>, d: seq<Shard>, s: seq<Shard>, j: nat) {
    && SameIds(dst, d) && SameIds(src, s) && j <= |s|
    && (forall p :: 0 <= p < |d| ==> Restored(dst, d, s, j, p))
    && (forall k :: 0 <= k < |s| ==> GivenBack(src, d, s, j, k))
  }

  // src's shard k during the revert: it gets the winner back when it is traded back.
  predicate GivenBack(src: seq<Shard>, d: seq<Shard>, s: seq<Shard>, j: int, k: int) {
    0 <= k < |s| && k < |src| && src[k] == if k < j then Winner(d, s[k]) else Counterpart(d, s[k])
  }

  lemma RevertStarts(d: seq<Shard>, s: seq<Shard>)
    requires Sorted(d) && Sorted(s) && Covers(d, s)
    ensures Reverting(Combine(d, s), Saved(d, s), d, s, 0)
  {
    CombineIsApplied(d, s);
    forall p | 0 <= p < |d| ensures Restored(Combine(d, s), d, s, 0, p) {
      assert Met(Combine(d, s), d, s, p);
    }
    assert forall k :: 0 <= k < |s| ==> GivenBack(Saved(d, s), d, s, 0, k);
  }

  lemma RevertNext(dst: seq<Shard>, src: seq<Shard>, d: seq<Shard>, s: seq<Shard>, j: nat, i: nat)
    requires Sorted(d) && Sorted(s) && j < |s| && i < |d| && d[i].id == s[j].id
    requires Reverting(dst, src, d, s, j)
    ensures Reverting(dst[i := src[j]], src[j := dst[i]], d, s, j + 1)
  {
    FindIn(d, d[i]);
    FindIn(s, s[j]);
    assert Find(s[..j], s[j].id).None? by {
      assert forall k :: 0 <= k < j ==> s[..j][k].id < s[j].id;
    }
    assert Restored(dst, d, s, j, i) && GivenBack(src, d, s, j, j);
    var r := dst[i := src[j]];
    var n := j + 1;
    forall p | 0 <= p < |d| ensures Restored(r, d, s, n, p) {
      FindPrefix(s, j, d[p].id);
      assert Restored(dst, d, s, j, p);
      assert p != i ==> d[p].id != d[i].id;
    }
    var t := src[j := dst[i]];
    forall k | 0 <= k < |s| ensures GivenBack(t, d, s, n, k) {
      assert GivenBack(src, d, s, j, k);
    }
  }

  lemma RevertEnds(dst: seq<Shard>, src: seq<Shard>, d: seq<Shard>, s: seq<Shard>)
    requires Reverting(dst, src, d, s, |s|)
    ensures dst == d
    ensures forall k :: 0 <= k < |s| ==> src[k] == Winner(d, s[k])
  {
    assert s[..|s|] == s;
    var n := |s|;
    forall p | 0 <= p < |d| ensures dst[p] == d[p] {
      assert Restored(dst, d, s, n, p);
    }
    forall k | 0 <= k < |s| ensures src[k] == Winner(d, s[k]) {
      assert GivenBack(src, d, s, n, k);
    }
  }

  method RevertOne(dst: array<Shard>, src: array<Shard>, i: nat, j: nat, ghost d: seq<Shard>, ghost s: seq<Shard>)
    returns (n: nat)
    requires dst != src && Sorted(d) && Sorted(s) && Covers(d, s)
    requires Reverting(dst[..], src[..], d, s, j) && j < |s| && Reached(d, s, i, j)
    modifies dst, src
    ensures Reverting(dst[..], src[..], d, s, j + 1) && Reached(d, s, n, j + 1)
  {
    n := Seek(dst, src, i, j);
    assert s[j] in s;
    ReachedOn(dst[..], src[..], d, s, i, j, n);
    RevertNext(dst[..], src[..], d, s, j, n);
    Exchange(dst, src, n, j);
  }

  method TradeAllBack(dst: array<Shard>, src: array<Shard>, ghost d: seq<Shard>, ghost s: seq<Shard>)
    requires dst != src && Sorted(d) && Sorted(s) && Covers(d, s)
    requires Reverting(dst[..], src[..], d, s, 0)
    modifies dst, src
    ensures Reverting(dst[..], src[..], d, s, |s|)
  {
    var i, j := 0, 0;
    assert |src[..]| == |s|;
    while j < src.Length
      invariant 0 <= i && 0 <= j <= src.Length == |s|
      invariant Reverting(dst[..], src[..], d, s, j) && Reached(d, s, i, j)
    {
      i := RevertOne(dst, src, i, j, d, s);
      j := j + 1;
    }
  }

  /** Undoes a successful fast path: the two cells trade back what they hold for src's ids. */
  method RevertInPlace(dst: array<Shard>, src: array<Shard>, ghost d: seq<Shard>, ghost s: seq<Shard>)
    requires dst != src && Sorted(d) && Sorted(s) && Covers(d, s)
    requires dst[..] == Combine(d, s) && src[..] == Saved(d, s)
    modifies dst, src
    ensures dst[..] == d && |src[..]| == |s|
    ensures forall k :: 0 <= k < |s| ==> src[k] == Winner(d, s[k])
  {
    RevertStarts(d, s);
    TradeAllBack(dst, src, d, s);
    RevertEnds(dst[..], src[..], d, s);
  }

  datatype Kind = DeadKind | UpdateKind | LiveKind | PlainKind

  function KindOf(c: Cell): Kind {
    match c case Dead(_, _) => DeadKind case Update(_, _) => UpdateKind case Live(_, _) => LiveKind case Plain(_, _) => PlainKind
  }

  // The one number in a cell that is not a shard list: deletion time, delta or value
  function NumberOf(c: Cell): int {
    match c case Dead(_, t) => t case Update(_, d) => d case Plain(_, v) => v case Live(_, _) => 0
  }

  /** A counter cell in its buffer: flags, timestamp and, when it is live, the shards. */
  class CounterCell {
    var kind: Kind
    var inPlaceRevert: bool
    var contiguous: bool  // can_use_mutable_view()
    var ts: int
    var number: int
    var shards: array<Shard>

    constructor (cell: Cell, contiguous: bool)
      ensures Value() == cell && !inPlaceRevert && this.contiguous == contiguous && fresh(shards)
    {
      kind, ts, number := KindOf(cell), cell.ts, NumberOf(cell);
      inPlaceRevert := false;
      this.contiguous := contiguous;
      var list := if cell.Live? then cell.shards else [];
      shards := new Shard[|list|](k requires 0 <= k < |list| => list[k]);
    }

    ghost function Value(): (c: Cell)
      reads this, shards
    {
      match kind
      case DeadKind => Dead(ts, number)
      case UpdateKind => Update(ts, number)
      case PlainKind => Plain(ts, number)
      case LiveKind => Live(ts, shards[..])
    }
  }

  // std::swap of two cells
  method Swap(a: CounterCell, b: CounterCell)
    requires a != b
    modifies a, b
    ensures a.Value() == old(b.Value()) && b.Value() == old(a.Value())
    ensures a.shards == old(b.shards) && b.shards == old(a.shards)
    ensures a.inPlaceRevert == old(b.inPlaceRevert) && b.inPlaceRevert == old(a.inPlaceRevert)
    ensures a.contiguous == old(b.contiguous) && b.contiguous == old(a.contiguous)
  {
    a.kind, b.kind := b.kind, a.kind;
    a.inPlaceRevert, b.inPlaceRevert := b.inPlaceRevert, a.inPlaceRevert;
    a.contiguous, b.contiguous := b.contiguous, a.contiguous;
    a.ts, b.ts := b.ts, a.ts;
    a.number, b.number := b.number, a.number;
    a.shards, b.shards := b.shards, a.shards;
  }

  // What apply_reversibly() leaves in src, after applying s to d, for revert_apply() to work with.
  ghost predicate Undoable(d: Cell, s: Cell, left: Cell, inPlace: bool) {
    if inPlace then d.Live? && s.Live? && Covers(d.shards, s.shards) && left == Live(d.ts, Saved(d.shards, s.shards))
    else if d.Update? && s.Update? then left == s
    else left == d
  }

  predicate Compatible(d: Cell, s: Cell) {
    && Valid(d) && Valid(s) && !d.Plain? && !s.Plain?
    && (d.Live? ==> !s.Update?) && (s.Live? ==> !d.Update?)
  }

  // The fast path on cells: shards, timestamps and the flag that tells how to revert.
  method TryInPlace(dst: CounterCell, src: CounterCell) returns (ok: bool)
    requires dst != src && dst.shards != src.shards && dst.kind == LiveKind && src.kind == LiveKind
    requires Valid(dst.Value()) && Valid(src.Value()) && src.shards.Length <= dst.shards.Length && !src.inPlaceRevert
    modifies dst`ts, src`ts, src`inPlaceRevert, dst.shards, src.shards
    ensures ok ==> dst.Value() == Merge(old(dst.Value()), old(src.Value()))
    ensures ok ==> src.inPlaceRevert && Undoable(old(dst.Value()), old(src.Value()), src.Value(), true)
    ensures !ok ==> dst.Value() == old(dst.Value()) && !src.inPlaceRevert
    ensures !ok ==> Valid(src.Value()) && Merge(dst.Value(), src.Value()) == Merge(dst.Value(), old(src.Value()))
  {
    ok := ApplyInPlace(dst.shards, src.shards);
    if ok {
      dst.ts, src.ts := Max(dst.ts, src.ts), dst.ts;
      src.inPlaceRevert := true;
    }
  }

  // Applies src to dst; returns whether anything was done that revert_apply() has to take back.
  method ApplyReversibly(dst: CounterCell, src: CounterCell) returns (applied: bool)
    requires dst != src && dst.shards != src.shards && Compatible(dst.Value(), src.Value())
    requires !dst.inPlaceRevert && !src.inPlaceRevert
    modifies dst, src, dst.shards, src.shards
    ensures dst.Value() == Merge(old(dst.Value()), old(src.Value()))
    ensures applied <==> !(old(dst.kind) == DeadKind && Merge(old(dst.Value()), old(src.Value())) == old(dst.Value()))
    ensures !applied ==> src.Value() == old(src.Value()) && !src.inPlaceRevert
    ensures applied ==> Undoable(old(dst.Value()), old(src.Value()), src.Value(), src.inPlaceRevert)
    ensures dst.shards != src.shards && !dst.inPlaceRevert
    ensures dst.shards in {old(dst.shards), old(src.shards)} || fresh(dst.shards)
    ensures src.shards in {old(dst.shards), old(src.shards)}
  {
    if dst.kind == DeadKind || src.kind == DeadKind {
      if dst.kind != DeadKind || (src.kind == DeadKind && CompareDead(Dead(dst.ts, dst.number), Dead(src.ts, src.number)) < 0) {
        Swap(dst, src);
        return true;
      }
      return false;
    }
    if dst.kind == UpdateKind {
      dst.ts, dst.number := Max(dst.ts, src.ts), src.number + dst.number;
      return true;
    }
    if src.shards.Length <= dst.shards.Length && dst.contiguous && src.contiguous {
      var ok := TryInPlace(dst, src);
      if ok {
        return true;
      }
    }
    src.inPlaceRevert := false;
    var merged := ComputeCombine(dst.shards[..], src.shards[..]);
    var cell := new CounterCell(Live(Max(dst.ts, src.ts), merged), true);
    Swap(src, dst);
    Swap(dst, cell);
    return true;
  }

  /* Applying the merged cell once more changes nothing. */
  lemma MergeAgain(d: Cell, s: Cell)
    requires Compatible(d, s) && !d.Update? && !s.Update?
    ensures Compatible(d, Merge(d, s)) && Merge(d, Merge(d, s)) == Merge(d, s)
  {
    MergeAssociates(d, d, s);
    MergeIdempotent(d);
  }

  // Takes an apply of s to d back.  Cells of shards and dead cells come back exactly; two merged
  // updates do not, because what comes back is no longer an update.
  method RevertApply(dst: CounterCell, src: CounterCell, ghost d: Cell, ghost s: Cell)
    requires dst != src && dst.shards != src.shards && !dst.inPlaceRevert
    requires Compatible(d, s) && dst.Value() == Merge(d, s) && Undoable(d, s, src.Value(), src.inPlaceRevert)
    modifies dst, src, dst.shards, src.shards
    ensures dst.Value() == d <==> !(d.Update? && s.Update?)
    ensures d.Update? && s.Update? ==> dst.Value() == Plain(Max(d.ts, s.ts), d.delta) && src.Value() == s
    ensures !(d.Update? && s.Update?) ==> Compatible(d, src.Value()) && Merge(d, src.Value()) == Merge(d, s)
    ensures dst.shards != src.shards && !dst.inPlaceRevert && !src.inPlaceRevert
    ensures dst.shards in {old(dst.shards), old(src.shards)} && src.shards in {old(dst.shards), old(src.shards)}
  {
    if dst.kind == UpdateKind {
      dst.kind, dst.number := PlainKind, dst.number - src.number;
    } else if src.inPlaceRevert {
      RevertInPlace(dst.shards, src.shards, d.shards, s.shards);
      UndoneMergesSame(d.shards, s.shards, src.shards[..]);
      dst.ts, src.ts := src.ts, dst.ts;
      src.inPlaceRevert := false;
    } else {
      if !d.Update? && !s.Update? {
        MergeAgain(d, s);
      }
      Swap(dst, src);
    }
  }

  // A failed write applies, reverts and may be tried again: dst is as before after the revert, and
  // the second attempt ends where the first one did.
  method ApplyRevertApply(dst: CounterCell, src: CounterCell) returns (applied: bool, ghost between: Cell)
    requires dst != src && dst.shards != src.shards && Compatible(dst.Value(), src.Value())
    requires !dst.inPlaceRevert && !src.inPlaceRevert
    requires !(dst.kind == UpdateKind && src.kind == UpdateKind)
    modifies dst, src, dst.shards, src.shards
    ensures between == old(dst.Value())
    ensures dst.Value() == Merge(old(dst.Value()), old(src.Value()))
  {
    ghost var d, s := dst.Value(), src.Value();
    applied := ApplyReversibly(dst, src);
    if applied {
      RevertApply(dst, src, d, s);
      between := dst.Value();
      var _ := ApplyReversibly(dst, src);
    } else {
      between := dst.Value();
    }
  }
}
