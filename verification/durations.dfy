/**
  Durations: counts of months, days and nanoseconds, written as counts with units in decreasing order,
  such as 1y2mo3d4h, and read back.
*/
module Durations {
  import opened Sequences
  import opened Wrappers

  // Counter limits: 32 bits for months and days, 64 for nanoseconds
  const MAX32 := 0x7fff_ffff
  const MAX64 := 0x7fff_ffff_ffff_ffff

  datatype Duration = Duration(months: int, days: int, nanoseconds: int)

  datatype Unit = Year | Month | Week | Day | Hour | Minute | Second | Millisecond | Microsecond | Nanosecond

  datatype Counter = Months | Days | Nanoseconds

  function Index(u: Unit): (i: nat) {
    match u
    case Nanosecond => 0
    case Microsecond => 1
    case Millisecond => 2
    case Second => 3
    case Minute => 4
    case Hour => 5
    case Day => 6
    case Week => 7
    case Month => 8
    case Year => 9
  }

  function CounterOf(u: Unit): (c: Counter) {
    if u == Year || u == Month then Months else if u == Week || u == Day then Days else Nanoseconds
  }

  function Factor(u: Unit): (f: nat)
    ensures f > 0
  {
    match u
    case Nanosecond => 1
    case Microsecond => 1000
    case Millisecond => 1000 * 1000
    case Second => 1000 * 1000 * 1000
    case Minute => 60 * 1000 * 1000 * 1000
    case Hour => 60 * 60 * 1000 * 1000 * 1000
    case Day => 1
    case Week => 7
    case Month => 1
    case Year => 12
  }

  function Limit(c: Counter): (n: nat) {
    if c == Nanoseconds then MAX64 else MAX32
  }

  function Get(d: Duration, c: Counter): (n: int) {
    match c
    case Months => d.months
    case Days => d.days
    case Nanoseconds => d.nanoseconds
  }

  function Plus(d: Duration, c: Counter, n: int): (r: Duration) {
    match c
    case Months => d.(months := d.months + n)
    case Days => d.(days := d.days + n)
    case Nanoseconds => d.(nanoseconds := d.nanoseconds + n)
  }

  // ---- Building a duration unit by unit ----

  datatype Builder = Builder(last: Option<Unit>, duration: Duration)

  const NEW := Builder(None, Duration(0, 0, 0))

  // The counters fit their types
  predicate InRange(d: Duration) {
    0 <= d.months <= MAX32 && 0 <= d.days <= MAX32 && 0 <= d.nanoseconds <= MAX64
  }

  function Available(d: Duration, u: Unit): (n: int)
    requires InRange(d)
  {
    (Limit(CounterOf(u)) - Get(d, CounterOf(u))) / Factor(u)
  }

  // duration_builder::add()
  function Add(b: Builder, count: nat, u: Unit): (r: Result<Builder>)
    requires InRange(b.duration)
  {
    if count > Available(b.duration, u) then Error("too many")
    else if b.last == Some(u) then Error("given twice")
    else if b.last.Some? && Index(u) > Index(b.last.value) then Error("out of order")
    else Ok(Builder(Some(u), Plus(b.duration, CounterOf(u), count * Factor(u))))
  }

  // The capacity check is exact
  lemma AvailableExact(count: nat, f: nat, n: int, limit: int)
    requires f > 0 && 0 <= n <= limit
    ensures count > (limit - n) / f <==> n + count * f > limit
  {
    var q := (limit - n) / f;
    DivMod(limit - n, f);
    if count > q {
      Monotone(q + 1, count, f);
      assert (q + 1) * f == q * f + f;
    } else {
      Monotone(count, q, f);
    }
  }

  lemma {:induction false} Monotone(a: nat, b: nat, f: nat)
    requires a <= b
    ensures a * f <= b * f
  {
    if a < b {
      Monotone(a, b - 1, f);
      assert b * f == (b - 1) * f + f;
    }
  }

  lemma DivMod(n: nat, f: nat)
    requires f > 0
    ensures n / f * f + n % f == n
  {
  }

  // Accepted exactly when the units decrease and the counter holds the sum, so it never overflows
  lemma AddAccepts(b: Builder, count: nat, u: Unit)
    requires InRange(b.duration)
    ensures Add(b, count, u).Ok? <==>
      && (b.last.Some? ==> Index(u) < Index(b.last.value))
      && Get(b.duration, CounterOf(u)) + count * Factor(u) <= Limit(CounterOf(u))
    ensures Add(b, count, u).Ok? ==> InRange(Add(b, count, u).value.duration)
  {
    AvailableExact(count, Factor(u), Get(b.duration, CounterOf(u)), Limit(CounterOf(u)));
  }

  // duration_builder::add_parsed_count(): a count has to fit 64 bits before anything is added
  function AddParsed(b: Builder, count: nat, u: Unit): (r: Result<Builder>)
    requires InRange(b.duration)
  {
    if count > MAX64 then Error("out of range") else Add(b, count, u)
  }

  // A count out of range would not fit any counter
  lemma AddParsedAccepts(b: Builder, count: nat, u: Unit)
    requires InRange(b.duration)
    ensures AddParsed(b, count, u).Ok? <==>
      && (b.last.Some? ==> Index(u) < Index(b.last.value))
      && Get(b.duration, CounterOf(u)) + count * Factor(u) <= Limit(CounterOf(u))
    ensures AddParsed(b, count, u).Ok? ==> InRange(AddParsed(b, count, u).value.duration)
  {
    AddAccepts(b, count, u);
    Times(count, Factor(u));
  }

  lemma Times(count: nat, f: nat)
    requires f > 0
    ensures count <= count * f
  {
  }

  // Counts with their units, as written
  type Parts = seq<(nat, Unit)>

  function AddAll(b: Builder, parts: Parts): (r: Result<Duration>)
    requires InRange(b.duration)
    decreases |parts|
  {
    if parts == [] then Ok(b.duration)
    else
      AddParsedAccepts(b, parts[0].0, parts[0].1);
      match AddParsed(b, parts[0].0, parts[0].1)
      case Error(e) => Error(e)
      case Ok(c) => AddAll(c, parts[1..])
  }

  function Sum(parts: Parts, c: Counter): (n: nat) {
    if parts == [] then 0
    else (if CounterOf(parts[0].1) == c then parts[0].0 * Factor(parts[0].1) else 0) + Sum(parts[1..], c)
  }

  predicate Decreasing(parts: Parts) {
    forall i, j :: 0 <= i < j < |parts| ==> Index(parts[i].1) > Index(parts[j].1)
  }

  predicate AllBelow(parts: Parts, last: Option<Unit>) {
    last.Some? ==> forall i :: 0 <= i < |parts| ==> Index(parts[i].1) < Index(last.value)
  }

  predicate Fits(d: Duration, parts: Parts) {
    forall c :: Get(d, c) + Sum(parts, c) <= Limit(c)
  }

  // A sequence of additions is accepted exactly when its units decrease and the sums fit the counters,
  // and then adds up the counts
  lemma {:induction false} AddAllAccepts(b: Builder, parts: Parts)
    requires InRange(b.duration)
    ensures AddAll(b, parts).Ok? <==> Decreasing(parts) && AllBelow(parts, b.last) && Fits(b.duration, parts)
    ensures AddAll(b, parts).Ok? ==>
      && InRange(AddAll(b, parts).value)
      && forall c :: Get(AddAll(b, parts).value, c) == Get(b.duration, c) + Sum(parts, c)
    decreases |parts|
  {
    if parts != [] {
      var (n, u) := parts[0];
      var rest := parts[1..];
      AddParsedAccepts(b, n, u);
      if AddParsed(b, n, u).Ok? {
        AddAllAccepts(AddParsed(b, n, u).value, rest);
      }
    }
  }

  // ---- Numbers ----

  predicate IsDigit(c: char) {
    '0' <= c <= '9'
  }

  function Digits(n: nat): (s: string)
    ensures s != [] && forall i :: 0 <= i < |s| ==> IsDigit(s[i])
  {
    (if n < 10 then [] else Digits(n / 10)) + ["0123456789"[n % 10]]
  }

  function Value(s: string): (n: nat)
    requires forall i :: 0 <= i < |s| ==> IsDigit(s[i])
  {
    if s == [] then 0
    else
      assert IsDigit(s[|s| - 1]);
      10 * Value(s[..|s| - 1]) + (s[|s| - 1] as int - '0' as int)
  }

  lemma {:induction false} DigitsValue(n: nat)
    ensures Value(Digits(n)) == n
  {
    var s := Digits(n);
    assert s[|s| - 1] as int - '0' as int == n % 10;
    if n < 10 {
      assert s[..|s| - 1] == [];
    } else {
      assert s[..|s| - 1] == Digits(n / 10);
      DigitsValue(n / 10);
    }
  }

  // How many digits a text starts with
  function Count(s: string): (k: nat)
    ensures k <= |s| && (forall i :: 0 <= i < k ==> IsDigit(s[i])) && (k < |s| ==> !IsDigit(s[k]))
  {
    if s == [] || !IsDigit(s[0]) then 0 else 1 + Count(s[1..])
  }

  lemma {:induction false} CountOf(ds: string, rest: string)
    requires forall i :: 0 <= i < |ds| ==> IsDigit(ds[i])
    requires rest == [] || !IsDigit(rest[0])
    ensures Count(ds + rest) == |ds|
    decreases |ds|
  {
    if ds == [] {
      assert ds + rest == rest;
    } else {
      assert (ds + rest)[1..] == ds[1..] + rest;
      CountOf(ds[1..], rest);
    }
  }

  // ---- Units ----

  function Lower(c: char): (r: char) {
    if 'A' <= c <= 'Z' then (c as int + 32) as char else c
  }

  const MU := 0xb5 as char

  // The unit a text starts with and the length of its symbol; longer symbols are tried before the minute
  function UnitAt(s: string): (r: Option<(Unit, nat)>)
    ensures r.Some? ==> 0 < r.value.1 <= |s|
  {
    if s == [] then None
    else
      var a := Lower(s[0]);
      var b := if |s| > 1 then Lower(s[1]) else ' ';
      if a == 'y' then Some((Year, 1))
      else if a == 'm' && b == 'o' then Some((Month, 2))
      else if a == 'w' then Some((Week, 1))
      else if a == 'd' then Some((Day, 1))
      else if a == 'h' then Some((Hour, 1))
      else if a == 's' then Some((Second, 1))
      else if a == 'm' && b == 's' then Some((Millisecond, 2))
      else if (a == 'u' || s[0] == MU) && b == 's' then Some((Microsecond, 2))
      else if a == 'n' && b == 's' then Some((Nanosecond, 2))
      else if a == 'm' then Some((Minute, 1))
      else None
  }

  function ShortName(u: Unit): (s: string) {
    match u
    case Year => "y"
    case Month => "mo"
    case Week => "w"
    case Day => "d"
    case Hour => "h"
    case Minute => "m"
    case Second => "s"
    case Millisecond => "ms"
    case Microsecond => "us"
    case Nanosecond => "ns"
  }

  // A name is read back when a digit, or nothing, follows
  lemma NameReadBack(u: Unit, rest: string)
    requires rest == [] || IsDigit(rest[0])
    ensures UnitAt(ShortName(u) + rest) == Some((u, |ShortName(u)|))
  {
    var s := ShortName(u) + rest;
    assert |ShortName(u)| == 1 && rest != [] ==> s[1] == rest[0];
    assert IsDigit(if rest == [] then '0' else rest[0]);
  }

  // ---- Reading ----

  // One count and unit
  function ReadPart(s: string): (r: Option<(string, Unit, string)>)
    ensures r.Some? ==> |r.value.2| < |s| && forall i :: 0 <= i < |r.value.0| ==> IsDigit(r.value.0[i])
  {
    var k := Count(s);
    if k == 0 then None
    else match UnitAt(s[k..])
      case None => None
      case Some((u, n)) => Some((s[..k], u, s[k + n..]))
  }

  // The loop of parse_duration_standard_format()
  function ParseFrom(s: string, b: Builder): (r: Result<Duration>)
    requires InRange(b.duration)
    decreases |s|
  {
    match ReadPart(s)
    case None => if s == [] then Ok(b.duration) else Error("syntax")
    case Some((ds, u, rest)) =>
      AddParsedAccepts(b, Value(ds), u);
      match AddParsed(b, Value(ds), u)
      case Error(e) => Error(e)
      case Ok(c) => ParseFrom(rest, c)
  }

  function Format(parts: Parts): (s: string) {
    if parts == [] then [] else Digits(parts[0].0) + ShortName(parts[0].1) + Format(parts[1..])
  }

  lemma FormatStart(parts: Parts)
    ensures Format(parts) == [] <==> parts == []
    ensures parts != [] ==> IsDigit(Format(parts)[0])
  {
  }

  lemma PartReadBack(n: nat, u: Unit, rest: string)
    requires rest == [] || IsDigit(rest[0])
    ensures ReadPart(Digits(n) + ShortName(u) + rest) == Some((Digits(n), u, rest))
  {
    var ds, tail := Digits(n), ShortName(u) + rest;
    Associative(ds, ShortName(u), rest);
    CountOf(ds, tail);
    NameReadBack(u, rest);
    SplitAt(ds, tail);
    SplitAt(ds + ShortName(u), rest);
  }

  lemma SplitAt(a: string, b: string)
    ensures (a + b)[..|a|] == a && (a + b)[|a|..] == b
  {
  }

  // Reading what was formatted adds up the parts
  lemma {:induction false} ParseFormatted(parts: Parts, b: Builder)
    requires InRange(b.duration)
    ensures ParseFrom(Format(parts), b) == AddAll(b, parts)
    decreases |parts|
  {
    FormatStart(parts);
    if parts != [] {
      var (n, u) := parts[0];
      FormatStart(parts[1..]);
      PartReadBack(n, u, Format(parts[1..]));
      DigitsValue(n);
      AddParsedAccepts(b, n, u);
      if AddParsed(b, n, u).Ok? {
        ParseFormatted(parts[1..], AddParsed(b, n, u).value);
      }
    }
  }

  // Both are accepted, with the same result, or neither
  predicate Agree(a: Result<Duration>, b: Result<Duration>) {
    a == b || (a.Error? && b.Error?)
  }

  lemma SameCounters(a: Duration, b: Duration)
    requires forall c :: Get(a, c) == Get(b, c)
    ensures a == b
  {
    assert Get(a, Months) == Get(b, Months) && Get(a, Days) == Get(b, Days);
    assert Get(a, Nanoseconds) == Get(b, Nanoseconds);
  }

  // Only the sums matter, not the units they are given in
  lemma SumsDecide(a: Parts, b: Parts)
    requires Decreasing(a) && Decreasing(b) && forall c :: Sum(a, c) == Sum(b, c)
    ensures Agree(AddAll(NEW, a), AddAll(NEW, b))
  {
    AddAllAccepts(NEW, a);
    AddAllAccepts(NEW, b);
    if AddAll(NEW, a).Ok? && AddAll(NEW, b).Ok? {
      SameCounters(AddAll(NEW, a).value, AddAll(NEW, b).value);
    }
  }

  // The next smaller unit of the same counter and how many of it make one
  function Smaller(u: Unit): (r: Option<(Unit, nat)>) {
    match u
    case Year => Some((Month, 12))
    case Week => Some((Day, 7))
    case Hour => Some((Minute, 60))
    case Minute => Some((Second, 60))
    case Second => Some((Millisecond, 1000))
    case Millisecond => Some((Microsecond, 1000))
    case Microsecond => Some((Nanosecond, 1000))
    case _ => None
  }

  lemma SmallerFactor(u: Unit, v: Unit, k: nat)
    requires Smaller(u) == Some((v, k))
    ensures CounterOf(u) == CounterOf(v) && Factor(u) == k * Factor(v)
  {
  }

  lemma Product(n: nat, k: nat, f: nat)
    ensures n * (k * f) == (n * k) * f
  {
  }

  lemma SumOne(n: nat, u: Unit, c: Counter)
    ensures Sum([(n, u)], c) == if CounterOf(u) == c then n * Factor(u) else 0
  {
    assert [(n, u)][1..] == [];
  }

  lemma SameSum(n: nat, u: Unit, v: Unit, k: nat, c: Counter)
    requires Smaller(u) == Some((v, k))
    ensures Sum([(n, u)], c) == Sum([(n * k, v)], c)
  {
    SmallerFactor(u, v, k);
    Product(n, k, Factor(v));
    SumOne(n, u, c);
    SumOne(n * k, v, c);
  }

  lemma LikeSums(a: Parts, b: Parts)
    requires Decreasing(a) && Decreasing(b) && forall c :: Sum(a, c) == Sum(b, c)
    ensures Agree(ParseFrom(Format(a), NEW), ParseFrom(Format(b), NEW))
  {
    ParseFormatted(a, NEW);
    ParseFormatted(b, NEW);
    SumsDecide(a, b);
  }

  // A count of any size reads like as many times the smaller unit: accepted together, with the same result
  lemma UnitsConvert(n: nat, u: Unit, v: Unit, k: nat)
    requires Smaller(u) == Some((v, k))
    ensures Agree(ParseFrom(Format([(n, u)]), NEW), ParseFrom(Format([(n * k, v)]), NEW))
  {
    var a, b := [(n, u)], [(n * k, v)];
    forall c ensures Sum(a, c) == Sum(b, c) {
      SameSum(n, u, v, k, c);
    }
    LikeSums(a, b);
  }

  // ---- As the program does it ----

  class DurationBuilder {
    var last: Option<Unit>
    var duration: Duration

    ghost function State(): (b: Builder)
      reads this
    {
      Builder(last, duration)
    }

    constructor ()
      ensures State() == NEW
    {
      last, duration := None, Duration(0, 0, 0);
    }

    method AddUnit(count: nat, u: Unit) returns (r: Result<()>)
      requires InRange(duration)
      modifies this
      ensures InRange(duration)
      ensures match Add(old(State()), count, u)
        case Error(e) => r == Error(e) && State() == old(State())
        case Ok(b) => r == Ok(()) && State() == b
    {
      AddAccepts(State(), count, u);
      var c := CounterOf(u);
      if count > (Limit(c) - Get(duration, c)) / Factor(u) {
        return Error("too many");
      }
      if last == Some(u) {
        return Error("given twice");
      }
      if last.Some? && Index(u) > Index(last.value) {
        return Error("out of order");
      }
      last := Some(u);
      duration := Plus(duration, c, count * Factor(u));
      return Ok(());
    }

    method AddParsedCount(count: nat, u: Unit) returns (r: Result<()>)
      requires InRange(duration)
      modifies this
      ensures InRange(duration)
      ensures match AddParsed(old(State()), count, u)
        case Error(e) => r == Error(e) && State() == old(State())
        case Ok(b) => r == Ok(()) && State() == b
    {
      if count > MAX64 {
        return Error("out of range");
      }
      r := AddUnit(count, u);
    }
  }

  method ParseStandardFormat(s: string) returns (r: Result<Duration>)
    ensures r == ParseFrom(s, NEW)
  {
    var b := new DurationBuilder();
    var rest := s;
    var part := ReadPart(rest);
    while part.Some?
      invariant fresh(b) && InRange(b.duration) && part == ReadPart(rest)
      invariant ParseFrom(rest, b.State()) == ParseFrom(s, NEW)
      decreases |rest|
    {
      var (ds, u, tail) := part.value;
      var added := b.AddParsedCount(Value(ds), u);
      if added.Error? {
        return Error(added.message);
      }
      rest := tail;
      part := ReadPart(rest);
    }
    if rest != [] {
      return Error("syntax");
    }
    return Ok(b.duration);
  }
}
