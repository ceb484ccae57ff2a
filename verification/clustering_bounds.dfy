/**
  The order of bounds and positions inside a partition.

  A clustering key prefix is a sequence of components, each given by its rank in its column's order.
  A bound is a prefix with a weight that says on which side of the keys it covers the bound lies.
*/
module ClusteringBounds {

  type Prefix = seq<int>

  // ---- The comparator ----

  // prefix_equality_tri_compare(): the first difference decides; a prefix equals what it is a prefix of
  method PrefixCompare(p: Prefix, q: Prefix) returns (c: int)
    ensures c == PrefixOrder(p, q)
  {
    var i := 0;
    while i != |p| && i != |q|
      invariant i <= |p| && i <= |q|
      invariant PrefixOrder(p, q) == PrefixOrder(p[i..], q[i..])
    {
      c := p[i] - q[i];
      if c != 0 {
        return;
      }
      i := i + 1;
    }
    c := 0;
  }

  function PrefixOrder(p: Prefix, q: Prefix): (c: int) {
    if p == [] || q == [] then 0
    else if p[0] != q[0] then p[0] - q[0]
    else PrefixOrder(p[1..], q[1..])
  }

  // bound_view::tri_compare; a key is compared with weight 0
  function TriCompare(p: Prefix, w: int, q: Prefix, x: int): (c: int) {
    if PrefixOrder(p, q) != 0 then PrefixOrder(p, q)
    else if |p| == |q| then w - x
    else if |p| < |q| then w - (if w <= 0 then 1 else 0)
    else -(x - (if x <= 0 then 1 else 0))
  }

  // ---- What it means: lexicographic order with an end mark ----

  // The end mark sorts before every component, or after every one if its weight is positive
  datatype Symbol = Component(rank: int) | End(weight: int)

  function SymbolOrder(a: Symbol, b: Symbol): (c: int) {
    match (a, b)
    case (Component(x), Component(y)) => x - y
    case (End(v), End(w)) => v - w
    case (End(v), Component(_)) => if v <= 0 then -1 else 1
    case (Component(_), End(w)) => if w <= 0 then 1 else -1
  }

  function Marked(p: Prefix, w: int): (s: seq<Symbol>)
    ensures |s| == |p| + 1
  {
    if p == [] then [End(w)] else [Component(p[0])] + Marked(p[1..], w)
  }

  function Lexicographic(s: seq<Symbol>, t: seq<Symbol>): (c: int)
    decreases |s|
  {
    if s == [] || t == [] then |s| - |t|
    else if SymbolOrder(s[0], t[0]) != 0 then SymbolOrder(s[0], t[0])
    else Lexicographic(s[1..], t[1..])
  }

  function Sign(c: int): (r: int) {
    if c < 0 then -1 else if c > 0 then 1 else 0
  }

  lemma {:induction false} ComparesMarked(p: Prefix, w: int, q: Prefix, x: int)
    ensures Sign(TriCompare(p, w, q, x)) == Sign(Lexicographic(Marked(p, w), Marked(q, x)))
    decreases |p|
  {
    if p != [] && q != [] {
      assert Marked(p, w)[1..] == Marked(p[1..], w);
      assert Marked(q, x)[1..] == Marked(q[1..], x);
      if p[0] == q[0] {
        ComparesMarked(p[1..], w, q[1..], x);
      }
    }
  }

  // ---- A total order on all prefixes and weights ----

  lemma {:induction false} MarkedOnce(p: Prefix, w: int, q: Prefix, x: int)
    ensures Marked(p, w) == Marked(q, x) ==> p == q && w == x
    decreases |p|
  {
    if Marked(p, w) == Marked(q, x) && p != [] && q != [] {
      assert Marked(p, w)[1..] == Marked(p[1..], w);
      assert Marked(q, x)[1..] == Marked(q[1..], x);
      assert Marked(p, w)[0] == Marked(q, x)[0];
      MarkedOnce(p[1..], w, q[1..], x);
    } else if Marked(p, w) == Marked(q, x) {
      assert |p| == |q|;
      assert Marked(p, w)[0] == Marked(q, x)[0];
    }
  }

  lemma {:induction false} LexicographicAntisymmetric(s: seq<Symbol>, t: seq<Symbol>)
    ensures Sign(Lexicographic(s, t)) == -Sign(Lexicographic(t, s))
    ensures Lexicographic(s, t) == 0 <==> s == t
    decreases |s|
  {
    if s != [] && t != [] {
      assert SymbolOrder(s[0], t[0]) == 0 <==> s[0] == t[0];
      if s[0] == t[0] {
        LexicographicAntisymmetric(s[1..], t[1..]);
        assert s == [s[0]] + s[1..] && t == [t[0]] + t[1..];
      }
    }
  }

  lemma {:induction false} LexicographicTransitive(s: seq<Symbol>, t: seq<Symbol>, u: seq<Symbol>)
    requires Lexicographic(s, t) <= 0 && Lexicographic(t, u) <= 0
    ensures Lexicographic(s, u) <= 0
    decreases |s|
  {
    if s != [] && t != [] && u != [] && SymbolOrder(s[0], t[0]) == 0 && SymbolOrder(t[0], u[0]) == 0 {
      LexicographicTransitive(s[1..], t[1..], u[1..]);
    }
  }

  lemma TotalOrder(p: Prefix, w: int, q: Prefix, x: int, r: Prefix, y: int)
    ensures TriCompare(p, w, q, x) == 0 <==> p == q && w == x
    ensures Sign(TriCompare(p, w, q, x)) == -Sign(TriCompare(q, x, p, w))
    ensures TriCompare(p, w, q, x) <= 0 && TriCompare(q, x, r, y) <= 0 ==> TriCompare(p, w, r, y) <= 0
  {
    ComparesMarked(p, w, q, x);
    ComparesMarked(q, x, p, w);
    ComparesMarked(q, x, r, y);
    ComparesMarked(p, w, r, y);
    MarkedOnce(p, w, q, x);
    LexicographicAntisymmetric(Marked(p, w), Marked(q, x));
    if TriCompare(p, w, q, x) <= 0 && TriCompare(q, x, r, y) <= 0 {
      LexicographicTransitive(Marked(p, w), Marked(q, x), Marked(r, y));
    }
  }

  // ---- Bounds of ranges ----

  datatype Kind = ExclEnd | InclStart | InclEnd | ExclStart

  function Weight(k: Kind): (w: int) {
    match k
    case ExclEnd => -2
    case InclStart => -1
    case InclEnd => 1
    case ExclStart => 2
  }

  function Invert(k: Kind): (r: Kind) {
    match k
    case ExclStart => InclEnd
    case InclStart => ExclEnd
    case ExclEnd => InclStart
    case InclEnd => ExclStart
  }

  datatype Bound = Bound(prefix: Prefix, kind: Kind)

  const BOTTOM := Bound([], InclStart)
  const TOP := Bound([], InclEnd)

  predicate Before(b: Bound, key: Prefix) {
    TriCompare(b.prefix, Weight(b.kind), key, 0) < 0
  }

  predicate After(b: Bound, key: Prefix) {
    TriCompare(key, 0, b.prefix, Weight(b.kind)) < 0
  }

  // A range of keys: either end may be missing, or name a prefix and whether its keys belong
  datatype Limit = Unlimited | Limit(prefix: Prefix, inclusive: bool)
  datatype KeyRange = KeyRange(from: Limit, to: Limit)

  function FromRangeStart(r: KeyRange): (b: Bound) {
    if r.from.Limit? then Bound(r.from.prefix, if r.from.inclusive then InclStart else ExclStart) else BOTTOM
  }

  function FromRangeEnd(r: KeyRange): (b: Bound) {
    if r.to.Limit? then Bound(r.to.prefix, if r.to.inclusive then InclEnd else ExclEnd) else TOP
  }

  // As a user means it: the key's leading components against the limit's
  predicate InRange(key: Prefix, r: KeyRange)
    requires r.from.Limit? ==> |r.from.prefix| <= |key|
    requires r.to.Limit? ==> |r.to.prefix| <= |key|
  {
    && (r.from.Limit? ==>
          var c := PrefixOrder(key[..|r.from.prefix|], r.from.prefix);
          c > 0 || (c == 0 && r.from.inclusive))
    && (r.to.Limit? ==>
          var c := PrefixOrder(key[..|r.to.prefix|], r.to.prefix);
          c < 0 || (c == 0 && r.to.inclusive))
  }

  lemma {:induction false} LeadingDecides(key: Prefix, p: Prefix)
    requires |p| <= |key|
    ensures PrefixOrder(key[..|p|], p) == PrefixOrder(key, p) == -PrefixOrder(p, key)
    decreases |p|
  {
    if p != [] {
      assert key[..|p|][1..] == key[1..][..|p| - 1];
      LeadingDecides(key[1..], p[1..]);
    }
  }

  // A full key is in a range exactly when it lies strictly between the range's bounds
  lemma BetweenBounds(key: Prefix, r: KeyRange)
    requires r.from.Limit? ==> |r.from.prefix| <= |key|
    requires r.to.Limit? ==> |r.to.prefix| <= |key|
    ensures InRange(key, r) <==> Before(FromRangeStart(r), key) && After(FromRangeEnd(r), key)
  {
    if r.from.Limit? {
      LeadingDecides(key, r.from.prefix);
    }
    if r.to.Limit? {
      LeadingDecides(key, r.to.prefix);
    }
  }

  // bound_view::adjacent()
  predicate Adjacent(a: Bound, b: Bound) {
    Invert(b.kind) == a.kind && a.prefix == b.prefix
  }

  // Adjacent bounds: the lower is the end of a range and the upper the start of one, and every key,
  // full or not, lies below both or above both
  lemma NothingBetweenAdjacent(a: Bound, b: Bound, key: Prefix)
    requires Adjacent(a, b)
    ensures Adjacent(b, a)
    ensures CompareBounds(a, b) < 0 <==> (a.kind == ExclEnd || a.kind == InclEnd)
    ensures CompareBounds(a, b) > 0 <==> (a.kind == InclStart || a.kind == ExclStart)
    ensures Before(a, key) <==> Before(b, key)
    ensures After(a, key) <==> After(b, key)
    ensures Before(a, key) <==> !After(a, key)
  {
    TotalOrder(a.prefix, Weight(a.kind), key, 0, key, 0);
    TotalOrder(b.prefix, Weight(b.kind), key, 0, key, 0);
    OppositePrefixes(a.prefix, a.prefix);
  }

  function CompareBounds(a: Bound, b: Bound): (c: int) {
    TriCompare(a.prefix, Weight(a.kind), b.prefix, Weight(b.kind))
  }

  // At one prefix: the end before its keys, the start with them, the end with them, the start after them
  lemma KindsInOrder(p: Prefix)
    ensures CompareBounds(Bound(p, ExclEnd), Bound(p, InclStart)) < 0
    ensures CompareBounds(Bound(p, InclStart), Bound(p, InclEnd)) < 0
    ensures CompareBounds(Bound(p, InclEnd), Bound(p, ExclStart)) < 0
  {
    OppositePrefixes(p, p);
  }

  ghost predicate SomeKeyBetween(s: Bound, e: Bound, n: nat) {
    exists key: Prefix :: |key| == n && Before(s, key) && After(e, key)
  }

  // A range that ends at a prefix lies before one that starts there exactly when no full key belongs to both
  lemma EndMeetsStart(p: Prefix, e: Kind, s: Kind, n: nat)
    requires (e == ExclEnd || e == InclEnd) && (s == InclStart || s == ExclStart) && |p| <= n
    ensures CompareBounds(Bound(p, e), Bound(p, s)) < 0 <==> !SomeKeyBetween(Bound(p, s), Bound(p, e), n)
  {
    OppositePrefixes(p, p);
    if e == InclEnd && s == InclStart {
      var key := p + seq(n - |p|, i => 0);
      LeadingDecides(key, p);
      assert key[..|p|] == p;
      assert |key| == n && Before(Bound(p, s), key) && After(Bound(p, e), key);
    } else {
      forall key: Prefix | |key| == n ensures !(Before(Bound(p, s), key) && After(Bound(p, e), key)) {
        LeadingDecides(key, p);
        TotalOrder(p, Weight(s), key, 0, p, Weight(e));
      }
    }
  }

  // An earlier bound has all the keys after it that a later one has, and none before it that the later has not
  lemma BoundsNest(a: Bound, b: Bound, key: Prefix)
    requires CompareBounds(a, b) <= 0
    ensures (Before(b, key) ==> Before(a, key)) && (After(a, key) ==> After(b, key))
  {
    TotalOrder(a.prefix, Weight(a.kind), b.prefix, Weight(b.kind), key, 0);
    TotalOrder(key, 0, a.prefix, Weight(a.kind), b.prefix, Weight(b.kind));
    TotalOrder(a.prefix, Weight(a.kind), key, 0, key, 0);
    TotalOrder(key, 0, b.prefix, Weight(b.kind), key, 0);
  }

  lemma {:induction false} OppositePrefixes(p: Prefix, q: Prefix)
    ensures PrefixOrder(p, q) == -PrefixOrder(q, p)
    decreases |p|
  {
    if p != [] && q != [] && p[0] == q[0] {
      OppositePrefixes(p[1..], q[1..]);
    }
  }

  // ---- Positions around a key ----

  // A full key owns the positions just before it, at it and just after it: nothing else lies among them
  lemma {:induction false} KeyOwnsItsPositions(key: Prefix, p: Prefix, w: int)
    requires |p| <= |key|
    requires TriCompare(key, -1, p, w) <= 0 && TriCompare(p, w, key, 1) <= 0
    ensures p == key && -1 <= w <= 1
    decreases |key|
  {
    OppositePrefixes(key, p);
    if p != [] {
      KeyOwnsItsPositions(key[1..], p[1..], w);
    }
  }

  ghost predicate KeyBetween(key: Prefix, p: Prefix, w: int, q: Prefix, x: int) {
    TriCompare(p, w, key, 0) < 0 && TriCompare(key, 0, q, x) < 0
  }

  // no_clustering_row_between() on positions of one prefix: right about full keys of n components,
  // provided rows have full keys
  lemma NoRowBetweenExact(p: Prefix, w: int, x: int, n: nat)
    requires -1 <= w <= 1 && -1 <= x <= 1 && |p| <= n && (w == 0 || x == 0 ==> |p| == n)
    ensures (exists key: Prefix :: |key| == n && KeyBetween(key, p, w, p, x)) <==> !(w >= 0 || x <= 0)
  {
    if w < 0 && x > 0 {
      var key := p + seq(n - |p|, i => 0);
      LeadingDecides(key, p);
      assert key[..|p|] == p;
      OppositePrefixes(p, p);
      assert |key| == n && KeyBetween(key, p, w, p, x);
    } else {
      forall key: Prefix | |key| == n ensures !KeyBetween(key, p, w, p, x) {
        OppositePrefixes(p, key);
        if |p| == n {
          TotalOrder(p, w, key, 0, p, x);
          TotalOrder(p, 0, key, 0, p, 0);
          TotalOrder(key, 0, p, 0, p, 0);
        }
      }
    }
  }
}
