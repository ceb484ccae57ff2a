/**
  The chunked output stream: bytes written into a chain of chunks, which are never moved, with places
  left open to be filled in later, positions to return to, and the whole as one plain byte sequence.
*/
module BytesStream {
  import opened Sequences
  import opened Wrappers

  // A chunk of the chain: the bytes written into it, of which the count is its offset, and its room
  datatype Chunk = Chunk(bytes: seq<Byte>, room: nat)

  const CHUNK_SIZE := 512
  const MAX_CHUNK_SIZE := 16 * 1024
  const HEADER := 16          // sizeof(chunk)

  function Min(a: nat, b: nat): (m: nat) {
    if a < b then a else b
  }

  predicate ValidChunks(cs: seq<Chunk>) {
    forall i :: 0 <= i < |cs| ==> 0 < |cs[i].bytes| <= cs[i].room
  }

  // The byte sequence the chain stands for
  function Bytes(cs: seq<Chunk>): (s: seq<Byte>) {
    if cs == [] then [] else Bytes(Init(cs)) + Last(cs).bytes
  }

  lemma BytesSnoc(cs: seq<Chunk>, c: Chunk)
    ensures Bytes(cs + [c]) == Bytes(cs) + c.bytes
  {
    assert Init(cs + [c]) == cs;
  }

  lemma {:induction false} BytesConcat(a: seq<Chunk>, b: seq<Chunk>)
    ensures Bytes(a + b) == Bytes(a) + Bytes(b)
    decreases |b|
  {
    if b == [] {
      assert a + b == a;
    } else {
      BytesConcat(a, Init(b));
      BytesSnoc(a + Init(b), Last(b));
      assert b == Init(b) + [Last(b)];
      Associative(a, Init(b), [Last(b)]);
      Associative(Bytes(a), Bytes(Init(b)), Last(b).bytes);
    }
  }

  // A place in the chain.  A position also may be that of an empty stream.
  datatype Place = Nowhere | At(chunk: nat, offset: nat)

  predicate ValidPlace(cs: seq<Chunk>, p: Place) {
    p.At? ==> p.chunk < |cs| && p.offset <= |cs[p.chunk].bytes|
  }

  // How many bytes come before it
  function Flat(cs: seq<Chunk>, p: Place): (n: nat)
    requires ValidPlace(cs, p)
  {
    if p == Nowhere then 0 else |Bytes(cs[..p.chunk])| + p.offset
  }

  lemma FlatInside(cs: seq<Chunk>, p: Place)
    requires ValidPlace(cs, p) && p.At?
    ensures Bytes(cs) == Bytes(cs[..p.chunk]) + cs[p.chunk].bytes + Bytes(cs[p.chunk + 1..])
    ensures Flat(cs, p) <= |Bytes(cs)|
  {
    var i := p.chunk;
    assert cs == cs[..i] + [cs[i]] + cs[i + 1..];
    BytesConcat(cs[..i] + [cs[i]], cs[i + 1..]);
    BytesConcat(cs[..i], [cs[i]]);
    assert Bytes([cs[i]]) == cs[i].bytes;
  }

  // ---- Growth: nothing already written moves ----

  // All chunks but the last stay as they are, the last may have bytes added, chunks may follow
  predicate Grows(cs: seq<Chunk>, ds: seq<Chunk>) {
    && |cs| <= |ds|
    && (forall i :: 0 <= i < |cs| - 1 ==> ds[i] == cs[i])
    && (cs != [] ==> Last(cs).bytes <= ds[|cs| - 1].bytes && ds[|cs| - 1].room == Last(cs).room)
  }

  // Places keep their meaning
  lemma GrowsKeepsPlaces(cs: seq<Chunk>, ds: seq<Chunk>, p: Place)
    requires Grows(cs, ds) && ValidPlace(cs, p)
    ensures ValidPlace(ds, p) && Flat(ds, p) == Flat(cs, p)
  {
    if p.At? {
      assert ds[..p.chunk] == cs[..p.chunk];
    }
  }

  lemma GrowsPrefix(cs: seq<Chunk>, ds: seq<Chunk>)
    requires Grows(cs, ds)
    ensures Bytes(cs) <= Bytes(ds)
  {
    if cs != [] {
      var n := |cs| - 1;
      assert ds[..n] == cs[..n];
      assert ds == ds[..n] + [ds[n]] + ds[n + 1..];
      BytesConcat(ds[..n] + [ds[n]], ds[n + 1..]);
      BytesConcat(ds[..n], [ds[n]]);
      assert Bytes([ds[n]]) == ds[n].bytes;
    }
  }

  // ---- Overwriting a place left open ----

  predicate ValidHole(cs: seq<Chunk>, p: Place, n: nat) {
    p.At? && p.chunk < |cs| && p.offset + n <= |cs[p.chunk].bytes|
  }

  function Overwritten<T>(s: seq<T>, at: nat, v: seq<T>): (r: seq<T>)
    requires at + |v| <= |s|
    ensures |r| == |s|
  {
    s[..at] + v + s[at + |v|..]
  }

  function Filled(cs: seq<Chunk>, p: Place, v: seq<Byte>): (ds: seq<Chunk>)
    requires ValidHole(cs, p, |v|)
  {
    cs[p.chunk := cs[p.chunk].(bytes := Overwritten(cs[p.chunk].bytes, p.offset, v))]
  }

  lemma FilledBytes(cs: seq<Chunk>, p: Place, v: seq<Byte>)
    requires ValidHole(cs, p, |v|)
    ensures Flat(cs, p) + |v| <= |Bytes(cs)|
    ensures Bytes(Filled(cs, p, v)) == Overwritten(Bytes(cs), Flat(cs, p), v)
  {
    var a, b, c := Bytes(cs[..p.chunk]), cs[p.chunk].bytes, Bytes(cs[p.chunk + 1..]);
    var s, at := Bytes(cs), Flat(cs, p);
    assert s == a + b + c && at == |a| + p.offset by {
      FlatInside(cs, p);
    }
    assert Overwritten(s, at, v) == a + Overwritten(b, p.offset, v) + c by {
      OverwrittenMiddle(a, b, c, p.offset, v);
    }
    FilledSplit(cs, p, v);
  }

  lemma FilledSplit(cs: seq<Chunk>, p: Place, v: seq<Byte>)
    requires ValidHole(cs, p, |v|)
    ensures Bytes(Filled(cs, p, v))
         == Bytes(cs[..p.chunk]) + Overwritten(cs[p.chunk].bytes, p.offset, v) + Bytes(cs[p.chunk + 1..])
  {
    var ds := Filled(cs, p, v);
    FlatInside(ds, p);
    assert ds[..p.chunk] == cs[..p.chunk] && ds[p.chunk + 1..] == cs[p.chunk + 1..];
  }

  lemma OverwrittenMiddle<T>(a: seq<T>, b: seq<T>, c: seq<T>, at: nat, v: seq<T>)
    requires at + |v| <= |b|
    ensures Overwritten(a + b + c, |a| + at, v) == a + Overwritten(b, at, v) + c
  {
  }

  // Filling a hole moves no other place
  lemma FilledKeepsPlaces(cs: seq<Chunk>, p: Place, v: seq<Byte>, q: Place)
    requires ValidHole(cs, p, |v|) && ValidPlace(cs, q)
    ensures ValidPlace(Filled(cs, p, v), q) && Flat(Filled(cs, p, v), q) == Flat(cs, q)
  {
    if q.At? {
      SameLengths(cs[..q.chunk], Filled(cs, p, v)[..q.chunk]);
    }
  }

  lemma {:induction false} SameLengths(cs: seq<Chunk>, ds: seq<Chunk>)
    requires |cs| == |ds| && forall i :: 0 <= i < |cs| ==> |cs[i].bytes| == |ds[i].bytes|
    ensures |Bytes(cs)| == |Bytes(ds)|
    decreases |cs|
  {
    if cs != [] {
      SameLengths(Init(cs), Init(ds));
    }
  }

  // ---- Going back ----

  function CutAt(cs: seq<Chunk>, p: Place): (ds: seq<Chunk>)
    requires ValidPlace(cs, p)
  {
    if p == Nowhere then []
    else cs[..p.chunk] + [cs[p.chunk].(bytes := cs[p.chunk].bytes[..p.offset])]
  }

  lemma CutBytes(cs: seq<Chunk>, p: Place)
    requires ValidPlace(cs, p)
    ensures Flat(cs, p) <= |Bytes(cs)| && Bytes(CutAt(cs, p)) == Bytes(cs)[..Flat(cs, p)]
  {
    if p.At? {
      FlatInside(cs, p);
      assert Init(CutAt(cs, p)) == cs[..p.chunk];
    }
  }

  // Positions no later than the one gone back to stay good
  lemma CutKeepsPlaces(cs: seq<Chunk>, p: Place, q: Place)
    requires ValidPlace(cs, p) && ValidPlace(cs, q) && ValidChunks(cs)
    requires q.At? ==> q.offset > 0
    requires Flat(cs, q) <= Flat(cs, p)
    ensures ValidPlace(CutAt(cs, p), q) && Flat(CutAt(cs, p), q) == Flat(cs, q)
  {
    if q.At? && p.At? {
      if p.chunk < q.chunk {
        LaterIsAfter(cs, p, q);
        assert false;
      }
      if q.chunk < p.chunk {
        assert CutAt(cs, p)[..q.chunk] == cs[..q.chunk];
      }
    }
  }

  lemma LaterIsAfter(cs: seq<Chunk>, p: Place, q: Place)
    requires ValidPlace(cs, p) && ValidPlace(cs, q) && p.At? && q.At? && p.chunk < q.chunk && q.offset > 0
    ensures Flat(cs, p) < Flat(cs, q)
  {
    PrefixBytes(cs, p.chunk + 1, q.chunk);
    assert Init(cs[..p.chunk + 1]) == cs[..p.chunk];
  }

  lemma PrefixBytes(cs: seq<Chunk>, i: nat, j: nat)
    requires i <= j <= |cs|
    ensures |Bytes(cs[..i])| <= |Bytes(cs[..j])|
  {
    assert cs[..j] == cs[..i] + cs[i..j];
    BytesConcat(cs[..i], cs[i..j]);
  }

  // ---- The stream ----

  function Sum(cs: seq<Chunk>): (n: nat) {
    if cs == [] then 0 else Sum(Init(cs)) + |Last(cs).bytes|
  }

  lemma {:induction false} SumIsLength(cs: seq<Chunk>)
    ensures Sum(cs) == |Bytes(cs)|
    decreases |cs|
  {
    if cs != [] {
      SumIsLength(Init(cs));
    }
  }

  // The chain with v added to its last chunk, or with a chunk holding v added
  function Extended(cs: seq<Chunk>, v: seq<Byte>): (ds: seq<Chunk>)
    requires cs != []
  {
    Init(cs) + [Last(cs).(bytes := Last(cs).bytes + v)]
  }

  lemma ExtendedBytes(cs: seq<Chunk>, v: seq<Byte>)
    requires cs != []
    ensures Bytes(Extended(cs, v)) == Bytes(cs) + v && Grows(cs, Extended(cs, v))
  {
    assert Init(Extended(cs, v)) == Init(cs);
    Associative(Bytes(Init(cs)), Last(cs).bytes, v);
  }

  lemma SingleChunk(c: Chunk)
    ensures Bytes([c]) == c.bytes
  {
    assert Init([c]) == [];
  }

  lemma AddedBytes(cs: seq<Chunk>, c: Chunk)
    ensures Bytes(cs + [c]) == Bytes(cs) + c.bytes && Grows(cs, cs + [c])
  {
    assert Init(cs + [c]) == cs;
  }

  // Right after everything written
  predicate Beyond(cs: seq<Chunk>, p: Place) {
    p.At? && (p.chunk >= |cs| || (p.chunk == |cs| - 1 && p.offset == |Last(cs).bytes|))
  }

  lemma FilledGrows(cs: seq<Chunk>, ds: seq<Chunk>, p: Place, v: seq<Byte>)
    requires Grows(cs, ds) && Beyond(cs, p) && ValidHole(ds, p, |v|)
    ensures Grows(cs, Filled(ds, p, v))
  {
  }

  class Stream {
    var chunks: seq<Chunk>
    var size: nat

    ghost predicate Valid()
      reads this
    {
      ValidChunks(chunks) && size == |Contents()|
    }

    ghost function Contents(): (s: seq<Byte>)
      reads this
    {
      Bytes(chunks)
    }

    constructor ()
      ensures Valid() && Contents() == []
    {
      chunks, size := [], 0;
    }

    function SpaceLeft(): (n: nat)
      requires ValidChunks(chunks)
      reads this
    {
      if chunks == [] then 0 else Last(chunks).room - |Last(chunks).bytes|
    }

    // Doubles the chunks up to a limit, but makes room for the data in any case
    function NextAllocSize(dataSize: nat): (n: nat)
      reads this
      ensures n >= dataSize + 16 && (n > dataSize + 16 ==> n <= 16384)
      ensures chunks == [] ==> n >= 512 && (n > dataSize + 16 ==> n == 512)
      ensures chunks != [] ==> n >= 16384 || n >= 2 * Last(chunks).room
      ensures chunks != [] && n > dataSize + 16 ==> n <= 2 * Last(chunks).room
    {
      var next := Min(if chunks == [] then CHUNK_SIZE else Last(chunks).room * 2, MAX_CHUNK_SIZE);
      if next < dataSize + HEADER then dataSize + HEADER else next
    }

    // A contiguous region, counted as written; junk is what the memory happens to hold
    method Alloc(junk: seq<Byte>) returns (p: Place)
      requires Valid() && junk != []
      modifies this
      ensures Valid() && Grows(old(chunks), chunks) && Contents() == old(Contents()) + junk
      ensures ValidHole(chunks, p, |junk|) && Flat(chunks, p) == |old(Contents())| && Beyond(old(chunks), p)
      ensures |chunks| == |old(chunks)| <==> |junk| <= old(SpaceLeft())
      ensures |chunks| > |old(chunks)| ==> Last(chunks).room == old(NextAllocSize(|junk|)) - HEADER
    {
      if |junk| <= SpaceLeft() {
        p := At(|chunks| - 1, |Last(chunks).bytes|);
        ExtendedBytes(chunks, junk);
        chunks := Extended(chunks, junk);
      } else {
        p := At(|chunks|, 0);
        var chunk := Chunk(junk, NextAllocSize(|junk|) - HEADER);
        AddedBytes(chunks, chunk);
        chunks := chunks + [chunk];
      }
      size := size + |junk|;
      assert old(chunks)[..p.chunk] == chunks[..p.chunk];
    }

    // Puts bytes where room was left for them
    method Fill(p: Place, v: seq<Byte>)
      requires Valid() && ValidHole(chunks, p, |v|)
      modifies this
      ensures Valid() && chunks == Filled(old(chunks), p, v)
      ensures Flat(old(chunks), p) + |v| <= |old(Contents())|
      ensures Contents() == Overwritten(old(Contents()), Flat(old(chunks), p), v)
    {
      FilledBytes(chunks, p, v);
      var c := chunks[p.chunk];
      chunks := chunks[p.chunk := Chunk(c.bytes[..p.offset] + v + c.bytes[p.offset + |v|..], c.room)];
    }

    method Write(v: seq<Byte>)
      requires Valid()
      modifies this
      ensures Valid() && Contents() == old(Contents()) + v && Grows(old(chunks), chunks)
    {
      if v == [] {
        assert old(Contents()) + v == old(Contents());
        return;
      }
      var rest := v;
      var thisSize := Min(|v|, SpaceLeft());
      if thisSize > 0 {
        ExtendedBytes(chunks, v[..thisSize]);
        chunks := Extended(chunks, v[..thisSize]);
        size := size + thisSize;
        rest := v[thisSize..];
      }
      WriteChunks(rest);
    }

    method WriteChunks(v: seq<Byte>)
      requires Valid()
      modifies this
      ensures Valid() && Contents() == old(Contents()) + v && Grows(old(chunks), chunks)
    {
      var rest := v;
      while rest != []
        invariant Valid() && Grows(old(chunks), chunks)
        invariant Contents() + rest == old(Contents()) + v
        decreases |rest|
      {
        var thisSize := Min(|rest|, MAX_CHUNK_SIZE);
        var now, later := rest[..thisSize], rest[thisSize..];
        assert rest == now + later;
        Associative(Contents(), now, later);
        WriteChunk(now);
        rest := later;
      }
    }

    // Bytes for a region of their own
    method WriteChunk(v: seq<Byte>)
      requires Valid() && v != []
      modifies this
      ensures Valid() && Contents() == old(Contents()) + v && Grows(old(chunks), chunks)
    {
      var p := Alloc(seq(|v|, i => 0 as Byte));
      FilledGrows(old(chunks), chunks, p, v);
      Fill(p, v);
    }

    // write_place_holder(): a region to be filled in later
    method WritePlaceHolder(junk: seq<Byte>) returns (p: Place)
      requires Valid() && junk != []
      modifies this
      ensures Valid() && Grows(old(chunks), chunks) && ValidHole(chunks, p, |junk|)
      ensures Contents() == old(Contents()) + junk && Flat(chunks, p) == |old(Contents())|
    {
      p := Alloc(junk);
    }

    method Append(o: Stream)
      requires Valid() && o.Valid() && o != this
      modifies this
      ensures Valid() && Contents() == old(Contents()) + o.Contents() && Grows(old(chunks), chunks)
    {
      var i := 0;
      while i < |o.chunks|
        invariant i <= |o.chunks| && Valid() && Grows(old(chunks), chunks)
        invariant unchanged(o)
        invariant Contents() == old(Contents()) + Bytes(o.chunks[..i])
      {
        Write(o.chunks[i].bytes);
        assert Init(o.chunks[..i + 1]) == o.chunks[..i];
        Associative(old(Contents()), Bytes(o.chunks[..i]), o.chunks[i].bytes);
        i := i + 1;
      }
      assert o.chunks[..i] == o.chunks;
    }

    // Makes the storage one chunk; places no longer hold
    method Linearize() returns (view: seq<Byte>)
      requires Valid()
      modifies this
      ensures Valid() && |chunks| <= 1
      ensures view == Contents() == old(Contents())
    {
      if |chunks| > 1 {
        var data: seq<Byte> := [];
        var i := 0;
        while i < |chunks|
          invariant i <= |chunks| && chunks == old(chunks) && size == old(size)
          invariant data == Bytes(chunks[..i])
        {
          assert Init(chunks[..i + 1]) == chunks[..i];
          data := data + chunks[i].bytes;
          i := i + 1;
        }
        assert chunks[..i] == chunks;
        assert |data| >= |Last(chunks).bytes|;
        SingleChunk(Chunk(data, size));
        chunks := [Chunk(data, size)];
      }
      if chunks == [] {
        return [];
      }
      SingleChunk(chunks[0]);
      assert chunks == [chunks[0]];
      return chunks[0].bytes;
    }

    // pos()
    function Position(): (p: Place)
      reads this
    {
      if chunks == [] then Nowhere else At(|chunks| - 1, |Last(chunks).bytes|)
    }

    // The bytes written after a position
    method WrittenSince(p: Place) returns (total: nat)
      requires Valid() && ValidPlace(chunks, p)
      ensures Flat(chunks, p) + total == |Contents()|
    {
      if p == Nowhere {
        return size;
      }
      total := |chunks[p.chunk].bytes| - p.offset;
      var c := p.chunk + 1;
      assert Init(chunks[..c]) == chunks[..p.chunk];
      while c < |chunks|
        invariant p.chunk < c <= |chunks|
        invariant Flat(chunks, p) + total == |Bytes(chunks[..c])|
      {
        assert Init(chunks[..c + 1]) == chunks[..c];
        total := total + |chunks[c].bytes|;
        c := c + 1;
      }
      assert chunks[..c] == chunks;
    }

    // Goes back to a position
    method Retract(p: Place)
      requires Valid() && ValidPlace(chunks, p) && (p.At? ==> p.offset > 0)
      modifies this
      ensures Valid() && chunks == CutAt(old(chunks), p)
      ensures Flat(old(chunks), p) <= |old(Contents())|
      ensures Contents() == old(Contents())[..Flat(old(chunks), p)]
    {
      CutBytes(chunks, p);
      if p == Nowhere {
        chunks, size := [], 0;
        return;
      }
      var since := WrittenSince(p);
      size := size - since;
      chunks := chunks[..p.chunk] + [chunks[p.chunk].(bytes := chunks[p.chunk].bytes[..p.offset])];
    }
  }

  // ---- Comparison, chunk by chunk ----

  // What is left of a stream when `rest` is left of the chunk before chunk i
  function Left(cs: seq<Chunk>, i: nat, rest: seq<Byte>): (s: seq<Byte>)
    requires i <= |cs|
  {
    rest + Bytes(cs[i..])
  }

  // Drops n bytes, moving on to the next chunk at the end of one
  function Advanced(cs: seq<Chunk>, i: nat, rest: seq<Byte>, n: nat): (r: (nat, seq<Byte>))
    requires i <= |cs| && n <= |rest|
    ensures r.0 <= |cs|
  {
    if n == |rest| && i < |cs| then (i + 1, cs[i].bytes) else (i, rest[n..])
  }

  lemma AdvancedLeft(cs: seq<Chunk>, i: nat, rest: seq<Byte>, n: nat)
    requires ValidChunks(cs) && i <= |cs| && n <= |rest|
    ensures var (j, x) := Advanced(cs, i, rest, n);
      Left(cs, i, rest) == rest[..n] + Left(cs, j, x) && (x == [] ==> j == |cs|)
  {
    if n == |rest| && i < |cs| {
      assert cs[i..] == [cs[i]] + cs[i + 1..];
      BytesConcat([cs[i]], cs[i + 1..]);
      SingleChunk(cs[i]);
      assert rest[..n] == rest;
    } else {
      assert rest == rest[..n] + rest[n..];
      Associative(rest[..n], rest[n..], Bytes(cs[i..]));
    }
  }

  // The loop of operator==: two cursors, or an answer
  datatype Comparison = Answer(same: bool) | Comparing(i: nat, x: seq<Byte>, j: nat, y: seq<Byte>)

  // Where the cursors are when one is at the end of a chunk only at the end of its stream
  predicate ValidComparison(cs: seq<Chunk>, ds: seq<Chunk>, c: Comparison) {
    c.Comparing? ==>
      c.i <= |cs| && c.j <= |ds| && (c.x == [] ==> c.i == |cs|) && (c.y == [] ==> c.j == |ds|)
  }

  function Compared(cs: seq<Chunk>, ds: seq<Chunk>, c: Comparison): (d: Comparison)
    requires ValidComparison(cs, ds, c)
  {
    if c.Answer? then c
    else if c.x == [] && c.y == [] then Answer(true)
    else
      var now := Min(|c.x|, |c.y|);
      if c.x[..now] != c.y[..now] then Answer(false)
      else
        var (i, x) := Advanced(cs, c.i, c.x, now);
        var (j, y) := Advanced(ds, c.j, c.y, now);
        Comparing(i, x, j, y)
  }

  function Begun(cs: seq<Chunk>, ds: seq<Chunk>): (c: Comparison)
    requires cs != [] && ds != []
  {
    Comparing(1, cs[0].bytes, 1, ds[0].bytes)
  }

  lemma BegunLeft(cs: seq<Chunk>)
    requires cs != [] && ValidChunks(cs)
    ensures Left(cs, 1, cs[0].bytes) == Bytes(cs)
  {
    assert cs == [cs[0]] + cs[1..];
    BytesConcat([cs[0]], cs[1..]);
    SingleChunk(cs[0]);
  }

  lemma CancelPrefix(w: seq<Byte>, u: seq<Byte>, v: seq<Byte>)
    ensures w + u == w + v <==> u == v
    ensures w + u <= w + v <==> u <= v
  {
    assert (w + u)[|w|..] == u && (w + v)[|w|..] == v;
    if u <= v {
      assert v == u + v[|u|..];
      assert w + v == (w + u) + v[|u|..];
    }
    if w + u <= w + v {
      assert forall k :: 0 <= k < |u| ==> u[k] == (w + u)[|w| + k] == (w + v)[|w| + k] == v[k];
    }
  }

  lemma PrefixStart(a: seq<Byte>, b: seq<Byte>, n: nat)
    requires a <= b && n <= |a|
    ensures a[..n] == b[..n]
  {
  }

  lemma DifferentStarts(x: seq<Byte>, u: seq<Byte>, y: seq<Byte>, v: seq<Byte>, n: nat)
    requires n <= |x| && n <= |y| && x[..n] != y[..n]
    ensures !(x + u <= y + v) && x + u != y + v
  {
    assert (x + u)[..n] == x[..n] && (y + v)[..n] == y[..n];
    if x + u <= y + v {
      PrefixStart(x + u, y + v, n);
    }
  }

  // One turn of the loop compares what is left like before, and moves on unless exactly one stream is used up
  lemma ComparedMeaning(cs: seq<Chunk>, ds: seq<Chunk>, c: Comparison)
    requires ValidChunks(cs) && ValidChunks(ds) && ValidComparison(cs, ds, c) && c.Comparing?
    ensures ValidComparison(cs, ds, Compared(cs, ds, c))
    ensures var u, v := Left(cs, c.i, c.x), Left(ds, c.j, c.y);
      match Compared(cs, ds, c)
      case Answer(same) => (same <==> u == v) && (!same ==> !(u <= v) && !(v <= u))
      case Comparing(i, x, j, y) =>
        var u', v' := Left(cs, i, x), Left(ds, j, y);
        && (u == v <==> u' == v') && (u <= v <==> u' <= v') && (v <= u <==> v' <= u')
        && |u| - |u'| == |v| - |v'| >= 0 && (u != [] && v != [] ==> |u'| < |u|)
  {
    if c.x == [] && c.y == [] {
      assert cs[c.i..] == [] && ds[c.j..] == [];
    } else {
      var now := Min(|c.x|, |c.y|);
      if c.x[..now] != c.y[..now] {
        DifferentStarts(c.x, Bytes(cs[c.i..]), c.y, Bytes(ds[c.j..]), now);
        DifferentStarts(c.y, Bytes(ds[c.j..]), c.x, Bytes(cs[c.i..]), now);
      } else {
        AdvancedLeft(cs, c.i, c.x, now);
        AdvancedLeft(ds, c.j, c.y, now);
        var (i, x) := Advanced(cs, c.i, c.x, now);
        var (j, y) := Advanced(ds, c.j, c.y, now);
        CancelPrefix(c.x[..now], Left(cs, i, x), Left(ds, j, y));
        CancelPrefix(c.x[..now], Left(ds, j, y), Left(cs, i, x));
        assert c.x == [] ==> Left(cs, c.i, c.x) == [] by {
          assert c.x == [] ==> cs[c.i..] == [];
        }
        assert c.y == [] ==> Left(ds, c.j, c.y) == [] by {
          assert c.y == [] ==> ds[c.j..] == [];
        }
      }
    }
  }

  lemma ComparedValid(cs: seq<Chunk>, ds: seq<Chunk>, c: Comparison)
    requires ValidChunks(cs) && ValidChunks(ds) && ValidComparison(cs, ds, c)
    ensures ValidComparison(cs, ds, Compared(cs, ds, c))
  {
    if c.Comparing? {
      ComparedMeaning(cs, ds, c);
    }
  }

  // What is left compares like the whole streams
  predicate Tells(cs: seq<Chunk>, ds: seq<Chunk>, c: Comparison)
    requires ValidComparison(cs, ds, c)
  {
    var a, b := Bytes(cs), Bytes(ds);
    match c
    case Answer(same) => (same <==> a == b) && !(a < b) && !(b < a)
    case Comparing(i, x, j, y) =>
      var u, v := Left(cs, i, x), Left(ds, j, y);
      (u == v <==> a == b) && (u <= v <==> a <= b) && (v <= u <==> b <= a)
  }

  lemma ComparedTells(cs: seq<Chunk>, ds: seq<Chunk>, c: Comparison)
    requires ValidChunks(cs) && ValidChunks(ds) && ValidComparison(cs, ds, c) && Tells(cs, ds, c)
    ensures ValidComparison(cs, ds, Compared(cs, ds, c)) && Tells(cs, ds, Compared(cs, ds, c))
  {
    if c.Comparing? {
      ComparedMeaning(cs, ds, c);
    }
  }

  // operator== on non-empty streams: right whenever it ends, which it does unless one is the beginning of the other
  method Equal(a: Stream, b: Stream) returns (r: bool)
    requires a.Valid() && b.Valid() && a.size > 0 && b.size > 0
    requires !(a.Contents() < b.Contents()) && !(b.Contents() < a.Contents())
    ensures r <==> a.Contents() == b.Contents()
  {
    var cs, ds := a.chunks, b.chunks;
    BegunLeft(cs);
    BegunLeft(ds);
    var c := Begun(cs, ds);
    while c.Comparing?
      invariant ValidComparison(cs, ds, c) && Tells(cs, ds, c)
      decreases if c.Comparing? then |Left(cs, c.i, c.x)| + 1 else 0
    {
      ComparedTells(cs, ds, c);
      ComparedMeaning(cs, ds, c);
      c := Compared(cs, ds, c);
    }
    r := c.same;
  }

  function AfterTurns(cs: seq<Chunk>, ds: seq<Chunk>, n: nat): (c: Comparison)
    requires ValidChunks(cs) && ValidChunks(ds) && cs != [] && ds != []
    ensures ValidComparison(cs, ds, c)
  {
    if n == 0 then Begun(cs, ds)
    else
      ComparedValid(cs, ds, AfterTurns(cs, ds, n - 1));
      Compared(cs, ds, AfterTurns(cs, ds, n - 1))
  }

  // and in that case it does not end
  lemma {:induction false} NeverEnds(cs: seq<Chunk>, ds: seq<Chunk>, n: nat)
    requires ValidChunks(cs) && ValidChunks(ds) && cs != [] && ds != []
    requires Bytes(cs) < Bytes(ds) || Bytes(ds) < Bytes(cs)
    ensures AfterTurns(cs, ds, n).Comparing? && Tells(cs, ds, AfterTurns(cs, ds, n))
  {
    if n == 0 {
      BegunLeft(cs);
      BegunLeft(ds);
    } else {
      NeverEnds(cs, ds, n - 1);
      ComparedTells(cs, ds, AfterTurns(cs, ds, n - 1));
    }
  }

  // ---- Whole runs ----

  // A caller writes, leaves holes and fills them, marks positions and returns to marks it made
  datatype Op =
    | Put(v: seq<Byte>)
    | Join(v: seq<Byte>)            // append a stream that holds v
    | Hole(junk: seq<Byte>)
    | Plug(h: nat, v: seq<Byte>)
    | Mark
    | Back(k: nat)
    | Flatten                       // linearize: holes and marks are no longer good

  // The same on a plain byte sequence: holes are (offset, length), marks are (length, how many holes there were)
  datatype Text = Text(s: seq<Byte>, holes: seq<(nat, nat)>, marks: seq<(nat, nat)>)

  function Applied(t: Text, op: Op): (u: Text) {
    match op
    case Put(v) => t.(s := t.s + v)
    case Join(v) => t.(s := t.s + v)
    case Flatten => t.(holes := [], marks := [])
    case Hole(junk) => if junk == [] then t else t.(s := t.s + junk, holes := t.holes + [(|t.s|, |junk|)])
    case Plug(h, v) =>
      if h < |t.holes| && |v| == t.holes[h].1 && t.holes[h].0 + |v| <= |t.s|
      then t.(s := Overwritten(t.s, t.holes[h].0, v)) else t
    case Mark => t.(marks := t.marks + [(|t.s|, |t.holes|)])
    case Back(k) =>
      if k < |t.marks| && t.marks[k].0 <= |t.s| && t.marks[k].1 <= |t.holes|
      then Text(t.s[..t.marks[k].0], t.holes[..t.marks[k].1], t.marks[..k + 1]) else t
  }

  function AllApplied(t: Text, ops: seq<Op>): (u: Text)
    decreases |ops|
  {
    if ops == [] then t else AllApplied(Applied(t, ops[0]), ops[1..])
  }

  ghost predicate GoodHole(cs: seq<Chunk>, p: Place, hole: (nat, nat)) {
    hole.1 > 0 && ValidHole(cs, p, hole.1) && Flat(cs, p) == hole.0 && hole.0 + hole.1 <= |Bytes(cs)|
  }

  ghost predicate GoodMark(cs: seq<Chunk>, p: Place, at: nat) {
    ValidPlace(cs, p) && (p.At? ==> p.offset > 0) && Flat(cs, p) == at <= |Bytes(cs)|
  }

  // Marks remember how many holes lie before them
  predicate Nested(t: Text) {
    && (forall k, l :: 0 <= k < l < |t.marks| ==> t.marks[k].0 <= t.marks[l].0 && t.marks[k].1 <= t.marks[l].1)
    && (forall k :: 0 <= k < |t.marks| ==> t.marks[k].1 <= |t.holes|)
    && (forall k, h :: 0 <= k < |t.marks| && 0 <= h < t.marks[k].1 ==> t.holes[h].0 + t.holes[h].1 <= t.marks[k].0)
  }

  // The places a caller has kept, holes with their lengths and marks with their counts, are those of the text
  ghost predicate Keeps(cs: seq<Chunk>, t: Text, holes: seq<(Place, nat)>, marks: seq<(Place, nat)>) {
    && ValidChunks(cs) && Bytes(cs) == t.s && Nested(t)
    && |holes| == |t.holes| && |marks| == |t.marks|
    && (forall h :: 0 <= h < |holes| ==> GoodHole(cs, holes[h].0, t.holes[h]) && holes[h].1 == t.holes[h].1)
    && (forall k :: 0 <= k < |marks| ==> GoodMark(cs, marks[k].0, t.marks[k].0) && marks[k].1 == t.marks[k].1)
  }

  lemma KeepsGrown(cs: seq<Chunk>, ds: seq<Chunk>, t: Text, holes: seq<(Place, nat)>, marks: seq<(Place, nat)>)
    requires Keeps(cs, t, holes, marks) && Grows(cs, ds) && ValidChunks(ds)
    ensures Keeps(ds, t.(s := Bytes(ds)), holes, marks)
  {
    GrowsPrefix(cs, ds);
    forall h | 0 <= h < |holes| ensures GoodHole(ds, holes[h].0, t.holes[h]) {
      GrowsKeepsPlaces(cs, ds, holes[h].0);
    }
    forall k | 0 <= k < |marks| ensures GoodMark(ds, marks[k].0, t.marks[k].0) {
      GrowsKeepsPlaces(cs, ds, marks[k].0);
    }
  }

  lemma KeepsFilled(cs: seq<Chunk>, t: Text, holes: seq<(Place, nat)>, marks: seq<(Place, nat)>, h: nat, v: seq<Byte>)
    requires Keeps(cs, t, holes, marks) && h < |holes| && |v| == t.holes[h].1
    ensures ValidHole(cs, holes[h].0, |v|)
    ensures Keeps(Filled(cs, holes[h].0, v), Applied(t, Plug(h, v)), holes, marks)
  {
    var p := holes[h].0;
    var ds := Filled(cs, p, v);
    FilledBytes(cs, p, v);
    forall g | 0 <= g < |holes| ensures GoodHole(ds, holes[g].0, t.holes[g]) {
      FilledKeepsPlaces(cs, p, v, holes[g].0);
    }
    forall k | 0 <= k < |marks| ensures GoodMark(ds, marks[k].0, t.marks[k].0) {
      FilledKeepsPlaces(cs, p, v, marks[k].0);
    }
  }

  lemma CutKeepsHole(cs: seq<Chunk>, p: Place, q: Place, hole: (nat, nat), at: nat)
    requires ValidChunks(cs) && GoodMark(cs, p, at) && GoodHole(cs, q, hole) && hole.0 + hole.1 <= at
    ensures GoodHole(CutAt(cs, p), q, hole)
  {
    var ds, end := CutAt(cs, p), At(q.chunk, q.offset + hole.1);
    assert Flat(cs, end) == hole.0 + hole.1;
    CutKeepsPlaces(cs, p, end);
    assert Flat(ds, q) == hole.0;
    assert |Bytes(ds)| == at by {
      CutBytes(cs, p);
    }
  }

  lemma CutKeepsMark(cs: seq<Chunk>, p: Place, q: Place, mark: nat, at: nat)
    requires ValidChunks(cs) && GoodMark(cs, p, at) && GoodMark(cs, q, mark) && mark <= at
    ensures GoodMark(CutAt(cs, p), q, mark)
  {
    CutKeepsPlaces(cs, p, q);
    assert |Bytes(CutAt(cs, p))| == at by {
      CutBytes(cs, p);
    }
  }

  lemma NestedCut(t: Text, k: nat)
    requires Nested(t) && k < |t.marks| && t.marks[k].0 <= |t.s|
    ensures t.marks[k].1 <= |t.holes| && Nested(Applied(t, Back(k)))
  {
  }

  lemma KeepsCut(cs: seq<Chunk>, t: Text, holes: seq<(Place, nat)>, marks: seq<(Place, nat)>, k: nat)
    requires Keeps(cs, t, holes, marks) && k < |marks|
    ensures t.marks[k].0 <= |t.s| && t.marks[k].1 <= |t.holes|
    ensures Keeps(CutAt(cs, marks[k].0), Applied(t, Back(k)), holes[..marks[k].1], marks[..k + 1])
  {
    var p, at, n := marks[k].0, t.marks[k].0, t.marks[k].1;
    var ds, u := CutAt(cs, p), Applied(t, Back(k));
    var holes', marks' := holes[..n], marks[..k + 1];
    NestedCut(t, k);
    CutChunks(cs, p);
    assert Bytes(ds) == u.s by {
      CutBytes(cs, p);
    }
    forall h | 0 <= h < n ensures GoodHole(ds, holes'[h].0, u.holes[h]) {
      CutKeepsHole(cs, p, holes[h].0, t.holes[h], at);
    }
    forall l | 0 <= l <= k ensures GoodMark(ds, marks'[l].0, u.marks[l].0) {
      assert l < k ==> t.marks[l].0 <= t.marks[k].0;
      CutKeepsMark(cs, p, marks[l].0, t.marks[l].0, at);
    }
  }

  lemma CutChunks(cs: seq<Chunk>, p: Place)
    requires ValidChunks(cs) && ValidPlace(cs, p) && (p.At? ==> p.offset > 0)
    ensures ValidChunks(CutAt(cs, p))
  {
  }

  lemma MarkedHere(cs: seq<Chunk>, p: Place)
    requires ValidChunks(cs) && p == if cs == [] then Nowhere else At(|cs| - 1, |Last(cs).bytes|)
    ensures GoodMark(cs, p, |Bytes(cs)|)
  {
    if cs != [] {
      assert cs[..|cs| - 1] == Init(cs);
    }
  }

  lemma KeepsMark(cs: seq<Chunk>, t: Text, holes: seq<(Place, nat)>, marks: seq<(Place, nat)>, p: Place)
    requires Keeps(cs, t, holes, marks) && p == if cs == [] then Nowhere else At(|cs| - 1, |Last(cs).bytes|)
    ensures Keeps(cs, Applied(t, Mark), holes, marks + [(p, |holes|)])
  {
    MarkedHere(cs, p);
    var u := Applied(t, Mark);
    forall k, h | 0 <= k < |u.marks| && 0 <= h < u.marks[k].1 ensures u.holes[h].0 + u.holes[h].1 <= u.marks[k].0 {
      assert GoodHole(cs, holes[h].0, t.holes[h]);
    }
    forall k, l | 0 <= k < l < |u.marks| ensures u.marks[k].0 <= u.marks[l].0 && u.marks[k].1 <= u.marks[l].1 {
      assert GoodMark(cs, marks[k].0, t.marks[k].0);
    }
  }

  lemma KeepsHole(ds: seq<Chunk>, t: Text, holes: seq<(Place, nat)>, marks: seq<(Place, nat)>, p: Place, junk: seq<Byte>)
    requires Keeps(ds, t.(s := t.s + junk), holes, marks) && junk != []
    requires ValidHole(ds, p, |junk|) && Flat(ds, p) == |t.s|
    ensures Keeps(ds, Applied(t, Hole(junk)), holes + [(p, |junk|)], marks)
  {
  }

  // A caller's session with a stream
  class Session {
    const out: Stream
    var holes: seq<(Place, nat)>
    var marks: seq<(Place, nat)>
    ghost var text: Text

    ghost predicate Valid()
      reads this, out
    {
      out.Valid() && Keeps(out.chunks, text, holes, marks)
    }

    constructor (o: Stream)
      requires o.Valid()
      ensures Valid() && out == o && text == Text(o.Contents(), [], [])
    {
      out, holes, marks, text := o, [], [], Text(o.Contents(), [], []);
    }

    method DoPut(v: seq<Byte>)
      requires Valid()
      modifies this, out
      ensures Valid() && text == Applied(old(text), Put(v))
    {
      ghost var cs, t := out.chunks, text;
      text := Applied(text, Put(v));
      out.Write(v);
      KeepsGrown(cs, out.chunks, t, holes, marks);
    }

    method DoJoin(v: seq<Byte>)
      requires Valid()
      modifies this, out
      ensures Valid() && text == Applied(old(text), Join(v))
    {
      ghost var cs, t := out.chunks, text;
      text := Applied(text, Join(v));
      var other := new Stream();
      other.Write(v);
      out.Append(other);
      KeepsGrown(cs, out.chunks, t, holes, marks);
    }

    method DoFlatten()
      requires Valid()
      modifies this, out
      ensures Valid() && text == Applied(old(text), Flatten)
    {
      text := Applied(text, Flatten);
      var _ := out.Linearize();
      holes, marks := [], [];
    }

    method DoHole(junk: seq<Byte>)
      requires Valid()
      modifies this, out
      ensures Valid() && text == Applied(old(text), Hole(junk))
    {
      ghost var cs, t := out.chunks, text;
      text := Applied(text, Hole(junk));
      if junk != [] {
        var p := out.WritePlaceHolder(junk);
        KeepsGrown(cs, out.chunks, t, holes, marks);
        KeepsHole(out.chunks, t, holes, marks, p, junk);
        holes := holes + [(p, |junk|)];
      }
    }

    method DoPlug(h: nat, v: seq<Byte>)
      requires Valid()
      modifies this, out
      ensures Valid() && text == Applied(old(text), Plug(h, v))
    {
      ghost var cs, t := out.chunks, text;
      text := Applied(text, Plug(h, v));
      if h < |holes| && |v| == holes[h].1 {
        KeepsFilled(cs, t, holes, marks, h, v);
        out.Fill(holes[h].0, v);
      }
    }

    method DoMark()
      requires Valid()
      modifies this, out
      ensures Valid() && text == Applied(old(text), Mark)
    {
      ghost var t := text;
      text := Applied(text, Mark);
      KeepsMark(out.chunks, t, holes, marks, out.Position());
      marks := marks + [(out.Position(), |holes|)];
    }

    method DoBack(k: nat)
      requires Valid()
      modifies this, out
      ensures Valid() && text == Applied(old(text), Back(k))
    {
      ghost var cs, t := out.chunks, text;
      text := Applied(text, Back(k));
      if k < |marks| {
        KeepsCut(cs, t, holes, marks, k);
        out.Retract(marks[k].0);
        holes, marks := holes[..marks[k].1], marks[..k + 1];
      }
    }

    method Do(op: Op)
      requires Valid()
      modifies this, out
      ensures Valid() && text == Applied(old(text), op)
    {
      match op
      case Put(v) => DoPut(v);
      case Join(v) => DoJoin(v);
      case Flatten => DoFlatten();
      case Hole(junk) => DoHole(junk);
      case Plug(h, v) => DoPlug(h, v);
      case Mark => DoMark();
      case Back(k) => DoBack(k);
    }
  }

  // Going back to any mark, after any nesting of marks, holes and returns, restores what was there,
  // with the holes filled since
  method Run(out: Stream, ops: seq<Op>)
    requires out.Valid()
    modifies out
    ensures out.Valid() && out.Contents() == AllApplied(Text(old(out.Contents()), [], []), ops).s
  {
    var session := new Session(out);
    var i := 0;
    assert ops[0..] == ops;
    while i < |ops|
      invariant i <= |ops| && fresh(session) && session.Valid() && session.out == out
      invariant AllApplied(session.text, ops[i..]) == AllApplied(Text(old(out.Contents()), [], []), ops)
    {
      assert ops[i..][0] == ops[i] && ops[i..][1..] == ops[i + 1..];
      session.Do(ops[i]);
      i := i + 1;
    }
  }
}
