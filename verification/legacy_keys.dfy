/**
  Keys in their packed form and in the legacy form of CompositeType, and the order of the latter.

  Packed, a component is preceded by its length in two bytes; in the legacy form of a key of several
  columns it is also followed by a zero byte, and a key of one column is its component alone.
*/
module LegacyKeys {
  import opened Wrappers
  import opened Sequences

  type Component = seq<Byte>
  type Key = seq<Component>

  // Lengths take two bytes
  predicate ValidKey(key: Key) {
    forall c :: c in key ==> |c| < 0x10000
  }

  // The two bytes of a length
  function High(n: nat): (b: Byte)
    requires n < 0x10000
  {
    (n / 0x100) as Byte
  }

  function Low(n: nat): (b: Byte)
    requires n < 0x10000
  {
    (n % 0x100) as Byte
  }

  function Length(c: Component): (r: seq<Byte>)
    requires |c| < 0x10000
    ensures |r| == 2
  {
    [High(|c|), Low(|c|)]
  }

  // ---- The packed form ----

  function Packed(key: Key): (r: seq<Byte>)
    requires ValidKey(key)
  {
    if key == [] then [] else Length(key[0]) + key[0] + Packed(key[1..])
  }

  function PackedSize(key: Key): (n: nat) {
    if key == [] then 0 else 2 + |key[0]| + PackedSize(key[1..])
  }

  // serialize_value(): refuses keys that are too long in all
  method Serialize(key: Key) returns (r: Result<seq<Byte>>)
    ensures r.Ok? <==> ValidKey(key) && |Packed(key)| <= 65535
    ensures r.Ok? ==> r.value == Packed(key)
  {
    if ValidKey(key) {
      SizeOfPacked(key);
    }
    var n := 0;
    for i := 0 to |key|
      invariant n + PackedSize(key[i..]) == PackedSize(key)
    {
      n := n + 2 + |key[i]|;
    }
    if n > 0xffff {
      return Error("Key size too large");
    }
    ShortComponents(key);
    SizeOfPacked(key);
    var out: seq<Byte> := [];
    for i := 0 to |key|
      invariant out + Packed(key[i..]) == Packed(key)
    {
      assert key[i..][1..] == key[i + 1..];
      var val := key[i];
      assert val in key;
      PackedStep(out, key, i);
      out := out + Length(val) + val;
    }
    return Ok(out);
  }

  lemma PackedStep(out: seq<Byte>, key: Key, i: nat)
    requires ValidKey(key) && i < |key|
    ensures out + Packed(key[i..]) == out + Length(key[i]) + key[i] + Packed(key[i + 1..])
  {
    assert key[i..][0] == key[i] && key[i..][1..] == key[i + 1..];
  }

  // The size that is checked is that of the packed form
  lemma {:induction false} SizeOfPacked(key: Key)
    requires ValidKey(key)
    ensures PackedSize(key) == |Packed(key)|
    decreases |key|
  {
    if key != [] {
      SizeOfPacked(key[1..]);
    }
  }

  lemma {:induction false} ShortComponents(key: Key)
    requires PackedSize(key) < 0x10000
    ensures ValidKey(key)
    decreases |key|
  {
    if key != [] {
      ShortComponents(key[1..]);
    }
  }

  // read_current(): a component and what follows it
  function ReadComponent(v: seq<Byte>): (r: Result<(Component, seq<Byte>)>)
    ensures r.Ok? ==> |r.value.1| < |v| && |r.value.0| < 0x10000
  {
    if |v| < 2 then Error("marshal")
    else
      var n := v[0] as int * 0x100 + v[1] as int;
      if |v| - 2 < n then Error("marshal") else Ok((v[2..2 + n], v[2 + n..]))
  }

  function Unpacked(v: seq<Byte>): (r: Result<Key>)
    decreases |v|
  {
    if v == [] then Ok([])
    else match ReadComponent(v)
      case Error(e) => Error(e)
      case Ok((c, rest)) =>
        match Unpacked(rest)
        case Error(e) => Error(e)
        case Ok(key) => Ok([c] + key)
  }

  lemma ReadsBack(c: Component, rest: seq<Byte>)
    requires |c| < 0x10000
    ensures ReadComponent(Length(c) + c + rest) == Ok((c, rest))
  {
    var v := Length(c) + c + rest;
    assert v[2..2 + |c|] == c && v[2 + |c|..] == rest;
  }

  // Unpacking gives back the key
  lemma {:induction false} RoundTrip(key: Key)
    requires ValidKey(key)
    ensures Unpacked(Packed(key)) == Ok(key)
    decreases |key|
  {
    if key != [] {
      RoundTrip(key[1..]);
      ReadsBack(key[0], Packed(key[1..]));
      assert key == [key[0]] + key[1..];
    }
  }

  lemma ReadIsWritten(v: seq<Byte>)
    requires ReadComponent(v).Ok?
    ensures var (c, rest) := ReadComponent(v).value; v == Length(c) + c + rest
  {
    var (c, rest) := ReadComponent(v).value;
    assert v == v[..2] + v[2..2 + |c|] + v[2 + |c|..];
    assert v[..2] == Length(c);
  }

  lemma PackedCons(c: Component, key: Key)
    requires |c| < 0x10000 && ValidKey(key)
    ensures ValidKey([c] + key) && Packed([c] + key) == Length(c) + c + Packed(key)
  {
    assert ([c] + key)[1..] == key;
  }

  // and only packed keys can be unpacked
  lemma {:induction false} UnpackedIsPacked(v: seq<Byte>)
    ensures Unpacked(v).Ok? ==> ValidKey(Unpacked(v).value) && Packed(Unpacked(v).value) == v
    decreases |v|
  {
    if v != [] && Unpacked(v).Ok? {
      var (c, rest) := ReadComponent(v).value;
      UnpackedIsPacked(rest);
      ReadIsWritten(v);
      PackedCons(c, Unpacked(rest).value);
    }
  }

  // ---- The legacy form ----

  function Encoded(c: Component): (r: seq<Byte>)
    requires |c| < 0x10000
  {
    Length(c) + c + [0]
  }

  function Composite(key: Key): (r: seq<Byte>)
    requires ValidKey(key)
  {
    if key == [] then [] else Encoded(key[0]) + Composite(key[1..])
  }

  // Of a key whose type has one column (singular) or several
  function Legacy(key: Key, singular: bool): (r: seq<Byte>)
    requires ValidKey(key) && (singular ==> |key| == 1)
  {
    if singular then key[0] else Composite(key)
  }

  // Both forms byte by byte: the length, high byte first, the component, and in the legacy form a zero
  lemma FormsInBytes(c: Component, rest: Key)
    requires |c| < 0x10000 && ValidKey(rest)
    ensures ValidKey([c] + rest)
    ensures Packed([c] + rest) == [(|c| / 256) as Byte, (|c| % 256) as Byte] + c + Packed(rest)
    ensures Composite([c] + rest) == [(|c| / 256) as Byte, (|c| % 256) as Byte] + c + [0] + Composite(rest)
    ensures Legacy([c], true) == c
  {
    assert ([c] + rest)[1..] == rest;
  }

  // size()
  method Size(key: Key, singular: bool) returns (n: nat)
    requires ValidKey(key) && (singular ==> |key| == 1)
    ensures n == |Legacy(key, singular)|
  {
    if singular {
      return |key[0]|;
    }
    n := 0;
    for i := 0 to |key|
      invariant n + |Composite(key[i..])| == |Composite(key)|
    {
      assert key[i..][1..] == key[i + 1..];
      assert key[i] in key;
      n := n + 2 + |key[i]| + 1;
    }
  }

  // A place in the legacy form: a component and an offset in its encoding, the value starting at offset 0
  predicate ValidAt(key: Key, singular: bool, i: nat, offset: int) {
    && ValidKey(key) && (singular ==> |key| == 1) && i <= |key|
    && (i == |key| ==> offset == -2)
    && (i < |key| && !singular ==> -2 <= offset <= |key[i]|)
    && (i < |key| && singular ==> 0 <= offset && (offset < |key[i]| || (offset == 0 && key[i] == [])))
  }

  // What the iterator yields from there; it leaves the empty component of a singular key by way of the zero byte
  function From(key: Key, singular: bool, i: nat, offset: int): (r: seq<Byte>)
    requires ValidAt(key, singular, i, offset)
  {
    if i == |key| then []
    else if singular then (if key[i] == [] then [0] else key[i][offset..])
    else Encoded(key[i])[offset + 2..] + Composite(key[i + 1..])
  }

  function ByteAt(c: Component, offset: int): (b: Byte)
    requires -2 <= offset && |c| < 0x10000
  {
    if offset == -2 then High(|c|)
    else if offset == -1 then Low(|c|)
    else if offset < |c| then c[offset]
    else 0
  }

  lemma EncodedAt(c: Component, offset: int)
    requires |c| < 0x10000 && -2 <= offset <= |c|
    ensures offset + 2 < |Encoded(c)| && Encoded(c)[offset + 2] == ByteAt(c, offset)
    ensures |Encoded(c)| == |c| + 3
  {
  }

  // r is b followed by t
  predicate Leads(r: seq<Byte>, b: Byte, t: seq<Byte>) {
    r != [] && r[0] == b && r[1..] == t
  }

  lemma DropOne(e: seq<Byte>, k: nat, rest: seq<Byte>)
    requires k < |e|
    ensures Leads(e[k..] + rest, e[k], e[k + 1..] + rest)
  {
  }

  // operator++: within a component, or to the next one.  A singular key has no zero byte at the end.
  function Next(key: Key, singular: bool, i: nat, offset: int): (n: (nat, int))
    requires i < |key|
  {
    if offset < |key[i]| && (!singular || offset != |key[i]| - 1) then (i, offset + 1) else (i + 1, -2)
  }

  lemma CompositeStep(key: Key, i: nat, offset: int)
    requires ValidAt(key, false, i, offset) && i < |key|
    ensures var (j, o) := Next(key, false, i, offset);
      ValidAt(key, false, j, o) && Leads(From(key, false, i, offset), ByteAt(key[i], offset), From(key, false, j, o))
  {
    var c, rest := key[i], Composite(key[i + 1..]);
    EncodedAt(c, offset);
    DropOne(Encoded(c), offset + 2, rest);
    if offset == |c| {
      assert Encoded(c)[offset + 3..] + rest == rest;
      ComponentStart(key, i + 1);
    }
  }

  lemma SingularStep(key: Key, i: nat, offset: int)
    requires ValidAt(key, true, i, offset) && i < |key|
    ensures var (j, o) := Next(key, true, i, offset);
      ValidAt(key, true, j, o) && Leads(From(key, true, i, offset), ByteAt(key[i], offset), From(key, true, j, o))
  {
  }

  lemma Step(key: Key, singular: bool, i: nat, offset: int)
    requires ValidAt(key, singular, i, offset) && i < |key|
    ensures var (j, o) := Next(key, singular, i, offset);
      && ValidAt(key, singular, j, o)
      && Leads(From(key, singular, i, offset), ByteAt(key[i], offset), From(key, singular, j, o))
  {
    if singular {
      SingularStep(key, i, offset);
    } else {
      CompositeStep(key, i, offset);
    }
  }

  lemma ComponentStart(key: Key, i: nat)
    requires ValidKey(key) && i <= |key|
    ensures ValidAt(key, false, i, -2) && From(key, false, i, -2) == Composite(key[i..])
  {
    if i < |key| {
      assert Encoded(key[i])[0..] == Encoded(key[i]);
      assert key[i..][1..] == key[i + 1..];
    }
  }

  // legacy_compound_view::iterator
  class LegacyIterator {
    const key: Key
    const singular: bool
    var i: nat
    var offset: int

    ghost predicate Valid()
      reads this
    {
      ValidAt(key, singular, i, offset)
    }

    ghost function Rest(): (r: seq<Byte>)
      requires Valid()
      reads this
    {
      From(key, singular, i, offset)
    }

    constructor (k: Key, s: bool)
      requires ValidKey(k) && (s ==> |k| == 1)
      ensures Valid() && key == k && singular == s
      ensures Rest() == if s && k[0] == [] then [0] else Legacy(k, s)
    {
      key, singular := k, s;
      i := 0;
      offset := if s then 0 else -2;
      new;
      if s {
        assert k[0][0..] == k[0];
      } else if k != [] {
        assert Encoded(k[0])[0..] == Encoded(k[0]);
      }
    }

    predicate AtEnd()
      reads this
    {
      offset == -2 && i == |key|
    }

    method Current() returns (b: Byte)
      requires Valid() && !AtEnd()
      ensures Rest() != [] && b == Rest()[0]
    {
      Step(key, singular, i, offset);
      b := ByteAt(key[i], offset);
    }

    method Advance()
      requires Valid() && !AtEnd()
      modifies this
      ensures Valid() && old(Rest()) != [] && Rest() == old(Rest())[1..]
    {
      Step(key, singular, i, offset);
      var (j, o) := Next(key, singular, i, offset);
      i, offset := j, o;
    }
  }

  lemma MovedOn(out: seq<Byte>, rest: seq<Byte>)
    requires rest != []
    ensures out + [rest[0]] + rest[1..] == out + rest
  {
  }

  // All the bytes the iterator yields
  method Yielded(key: Key, singular: bool) returns (out: seq<Byte>)
    requires ValidKey(key) && (singular ==> |key| == 1)
    ensures out == if singular && key[0] == [] then [0] else Legacy(key, singular)
  {
    var it := new LegacyIterator(key, singular);
    ghost var rest := it.Rest();
    ghost var all := rest;
    out := [];
    while !it.AtEnd()
      invariant fresh(it) && it.Valid() && it.Rest() == rest && it.key == key
      invariant out + rest == all
      decreases |rest|
    {
      var b := it.Current();
      it.Advance();
      MovedOn(out, rest);
      rest := rest[1..];
      out := out + [b];
    }
  }

  // The buffer of to_legacy() is sized by size() and filled by the iterator.  They agree except on the
  // empty key of a one-column type, where the iterator yields a byte there is no room for.
  method SizeAgrees(key: Key, singular: bool) returns (agrees: bool)
    requires ValidKey(key) && (singular ==> |key| == 1)
    ensures agrees <==> !(singular && key[0] == [])
  {
    var n := Size(key, singular);
    var out := Yielded(key, singular);
    agrees := n == |out|;
  }

  // ---- The order ----

  // compare_unsigned()
  function CompareUnsigned(a: seq<Byte>, b: seq<Byte>): (c: int) {
    if a == [] || b == [] then |a| - |b|
    else if a[0] != b[0] then a[0] as int - b[0] as int
    else CompareUnsigned(a[1..], b[1..])
  }

  // Components compare by length first
  function CompareComponents(a: Component, b: Component): (c: int) {
    if |a| != |b| then (if |a| < |b| then -1 else 1) else CompareUnsigned(a, b)
  }

  function CompareKeys(k: Key, l: Key): (c: int) {
    if k == [] || l == [] then (if k == [] && l == [] then 0 else if k == [] then -1 else 1)
    else if CompareComponents(k[0], l[0]) != 0 then CompareComponents(k[0], l[0])
    else CompareKeys(k[1..], l[1..])
  }

  // tri_comparator on keys of one type
  method TriCompare(k: Key, l: Key, singular: bool) returns (c: int)
    requires singular ==> |k| == |l| == 1
    ensures c == if singular then CompareUnsigned(k[0], l[0]) else CompareKeys(k, l)
  {
    if singular {
      return CompareUnsigned(k[0], l[0]);
    }
    var i := 0;
    while i != |k| && i != |l|
      invariant i <= |k| && i <= |l|
      invariant CompareKeys(k, l) == CompareKeys(k[i..], l[i..])
    {
      c := CompareComponents(k[i], l[i]);
      if c != 0 {
        return;
      }
      i := i + 1;
    }
    if (i == |k|) == (i == |l|) {
      return 0;
    }
    return if i == |l| then 1 else -1;
  }

  function Sign(c: int): (r: int)
    ensures -1 <= r <= 1 && (r < 0 <==> c < 0) && (r > 0 <==> c > 0)
  {
    if c < 0 then -1 else if c > 0 then 1 else 0
  }

  lemma {:induction false} CommonPrefix(p: seq<Byte>, a: seq<Byte>, b: seq<Byte>)
    ensures CompareUnsigned(p + a, p + b) == CompareUnsigned(a, b)
    decreases |p|
  {
    if p == [] {
      assert p + a == a && p + b == b;
    } else {
      assert (p + a)[1..] == p[1..] + a && (p + b)[1..] == p[1..] + b;
      CommonPrefix(p[1..], a, b);
    }
  }

  // Of equal length and different: what follows does not matter
  lemma {:induction false} DifferentDecides(a: seq<Byte>, b: seq<Byte>, x: seq<Byte>, y: seq<Byte>)
    requires |a| == |b|
    ensures CompareUnsigned(a, b) == 0 <==> a == b
    ensures a != b ==> CompareUnsigned(a + x, b + y) == CompareUnsigned(a, b)
    decreases |a|
  {
    if a != [] {
      assert (a + x)[1..] == a[1..] + x && (b + y)[1..] == b[1..] + y;
      assert a == [a[0]] + a[1..] && b == [b[0]] + b[1..];
      DifferentDecides(a[1..], b[1..], x, y);
    }
  }

  lemma LengthOrder(a: Component, b: Component, x: seq<Byte>, y: seq<Byte>)
    requires |a| < 0x10000 && |b| < 0x10000 && |a| != |b|
    ensures Sign(CompareUnsigned(Length(a) + x, Length(b) + y)) == Sign(|a| - |b|)
  {
    var la, lb := Length(a), Length(b);
    assert CompareUnsigned(la, lb) != 0 by {
      DifferentDecides(la, lb, x, y);
      assert |a| == la[0] as int * 0x100 + la[1] as int && |b| == lb[0] as int * 0x100 + lb[1] as int;
    }
    DifferentDecides(la, lb, x, y);
    assert la[1..] == [la[1]] && lb[1..] == [lb[1]];
  }

  // Encodings compare like the components, then like what follows
  lemma EncodedOrder(a: Component, b: Component, x: seq<Byte>, y: seq<Byte>)
    requires |a| < 0x10000 && |b| < 0x10000
    ensures Sign(CompareUnsigned(Encoded(a) + x, Encoded(b) + y))
         == if CompareComponents(a, b) != 0 then Sign(CompareComponents(a, b)) else Sign(CompareUnsigned(x, y))
  {
    assert Encoded(a) + x == Length(a) + (a + ([0] + x));
    assert Encoded(b) + y == Length(b) + (b + ([0] + y));
    if |a| != |b| {
      LengthOrder(a, b, a + ([0] + x), b + ([0] + y));
    } else {
      CommonPrefix(Length(a), a + ([0] + x), b + ([0] + y));
      DifferentDecides(a, b, [0] + x, [0] + y);
      if a == b {
        CommonPrefix(a, [0] + x, [0] + y);
        CommonPrefix([0], x, y);
      }
    }
  }

  // The comparator orders keys of several columns like their legacy forms
  lemma {:induction false} LegacyOrder(k: Key, l: Key)
    requires ValidKey(k) && ValidKey(l)
    ensures Sign(CompareKeys(k, l)) == Sign(CompareUnsigned(Composite(k), Composite(l)))
    decreases |k|
  {
    if k != [] && l != [] {
      EncodedOrder(k[0], l[0], Composite(k[1..]), Composite(l[1..]));
      LegacyOrder(k[1..], l[1..]);
    }
  }

  method CompareIsLegacy(k: Key, l: Key, singular: bool) returns (c: int)
    requires ValidKey(k) && ValidKey(l) && (singular ==> |k| == |l| == 1)
    ensures Sign(c) == Sign(CompareUnsigned(Legacy(k, singular), Legacy(l, singular)))
  {
    LegacyOrder(k, l);
    c := TriCompare(k, l, singular);
  }
}
