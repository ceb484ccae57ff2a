/**
  What texts of durations stand for, letter by letter.
*/
module DurationMeaning {
  import opened Durations
  import opened DurationTexts
  import opened Sequences
  import opened Wrappers

  // The result is these counts, or their negatives, or an error if they are too large
  predicate Is(r: Result<Duration>, minus: bool, months: int, days: int, nanoseconds: int) {
    if months <= 0x7fff_ffff && days <= 0x7fff_ffff && nanoseconds <= 0x7fff_ffff_ffff_ffff then
      r == Ok(if minus then Duration(-months, -days, -nanoseconds) else Duration(months, days, nanoseconds))
    else r.Error?
  }

  // The text stands for these counts, and with a minus for their negatives
  predicate Means(text: string, months: int, days: int, nanoseconds: int) {
    && Is(Parse(text), false, months, days, nanoseconds)
    && Is(Parse("-" + text), true, months, days, nanoseconds)
  }

  lemma SumsAre(parts: Parts, months: nat, days: nat, nanoseconds: nat)
    requires Decreasing(parts)
    requires Sum(parts, Months) == months && Sum(parts, Days) == days && Sum(parts, Nanoseconds) == nanoseconds
    ensures Is(AddAll(NEW, parts), false, months, days, nanoseconds)
  {
    var d := Duration(months, days, nanoseconds);
    if months <= 0x7fff_ffff && days <= 0x7fff_ffff && nanoseconds <= 0x7fff_ffff_ffff_ffff {
      forall c ensures Sum(parts, c) == Get(d, c) <= Limit(c) {
        match c case Months => case Days => case Nanoseconds =>
      }
      AddsUpTo(parts, d);
    } else {
      AddAllAccepts(NEW, parts);
      var c := if months > 0x7fff_ffff then Months else if days > 0x7fff_ffff then Days else Nanoseconds;
      assert Get(NEW.duration, c) + Sum(parts, c) > Limit(c);
    }
  }

  lemma SignsAre(r: Result<Duration>, minus: bool, months: int, days: int, nanoseconds: int)
    requires Is(r, false, months, days, nanoseconds)
    ensures Is(WithSign(r, minus), minus, months, days, nanoseconds)
  {
  }

  // A text whose counts are added as they stand means their sums
  lemma PartsMean(text: string, parts: Parts, months: nat, days: nat, nanoseconds: nat)
    requires !Negative(text) && ParseUnsigned(text) == AddAll(NEW, parts) && Decreasing(parts)
    requires Sum(parts, Months) == months && Sum(parts, Days) == days && Sum(parts, Nanoseconds) == nanoseconds
    ensures Means(text, months, days, nanoseconds)
  {
    SumsAre(parts, months, days, nanoseconds);
    SignsAre(AddAll(NEW, parts), false, months, days, nanoseconds);
    SignsAre(AddAll(NEW, parts), true, months, days, nanoseconds);
    ParsesSigned(text, AddAll(NEW, parts));
  }

  lemma ParsesSigned(text: string, r: Result<Duration>)
    requires !Negative(text) && ParseUnsigned(text) == r
    ensures Parse(text) == WithSign(r, false) && Parse("-" + text) == WithSign(r, true)
  {
    ParseSigned(text, false);
    ParseSigned(text, true);
    assert Signed(text, false) == text;
  }

  // ---- The standard format ----

  // The text is the name of the unit
  predicate Names(name: string, u: Unit) {
    name != [] && !IsDigit(name[0]) && UnitAt(name) == Some((u, |name|))
  }

  lemma NameReads(n: nat, name: string, u: Unit)
    requires Names(name, u)
    ensures ReadPart(Digits(n) + name) == Some((Digits(n), u, []))
  {
    CountOf(Digits(n), name);
    SplitAt(Digits(n), name);
    assert (Digits(n) + name)[|Digits(n)| + |name|..] == [];
  }

  lemma NameAdds(n: nat, name: string, u: Unit)
    requires Names(name, u)
    ensures !Negative(Digits(n) + name) && ParseUnsigned(Digits(n) + name) == AddAll(NEW, [(n, u)])
  {
    NameReads(n, name, u);
    DigitsValue(n);
    ReadsOnePart(Digits(n) + name, Digits(n), u, NEW);
  }

  lemma ReadsOnePart(s: string, ds: string, u: Unit, b: Builder)
    requires InRange(b.duration) && AllDigits(ds) && ReadPart(s) == Some((ds, u, []))
    ensures ParseFrom(s, b) == AddAll(b, [(Value(ds), u)])
  {
    AddParsedAccepts(b, Value(ds), u);
    assert [(Value(ds), u)][1..] == [];
    if AddParsed(b, Value(ds), u).Ok? {
      var c := AddParsed(b, Value(ds), u).value;
      assert ParseFrom([], c) == Ok(c.duration) && AddAll(c, []) == Ok(c.duration);
    }
  }

  lemma NameMeans(n: nat, name: string, u: Unit, months: nat, days: nat, nanoseconds: nat)
    requires Names(name, u)
    requires months == Share(n, u, Months) && days == Share(n, u, Days) && nanoseconds == Share(n, u, Nanoseconds)
    ensures Means(Digits(n) + name, months, days, nanoseconds)
  {
    NameAdds(n, name, u);
    SumOne(n, u, Months);
    SumOne(n, u, Days);
    SumOne(n, u, Nanoseconds);
    PartsMean(Digits(n) + name, [(n, u)], months, days, nanoseconds);
  }

  lemma YearsMean(n: nat, name: string)
    requires name == "y" || name == "Y"
    ensures Means(Digits(n) + name, 12 * n, 0, 0)
  {
    NameMeans(n, name, Year, 12 * n, 0, 0);
  }

  lemma MonthsMean(n: nat, name: string)
    requires name == "mo" || name == "MO" || name == "mO" || name == "Mo"
    ensures Means(Digits(n) + name, n, 0, 0)
  {
    NameMeans(n, name, Month, n, 0, 0);
  }

  lemma WeeksMean(n: nat, name: string)
    requires name == "w" || name == "W"
    ensures Means(Digits(n) + name, 0, 7 * n, 0)
  {
    NameMeans(n, name, Week, 0, 7 * n, 0);
  }

  lemma DaysMean(n: nat, name: string)
    requires name == "d" || name == "D"
    ensures Means(Digits(n) + name, 0, n, 0)
  {
    NameMeans(n, name, Day, 0, n, 0);
  }

  lemma HoursMean(n: nat, name: string)
    requires name == "h" || name == "H"
    ensures Means(Digits(n) + name, 0, 0, 3_600_000_000_000 * n)
  {
    NameMeans(n, name, Hour, 0, 0, 3_600_000_000_000 * n);
  }

  lemma MinutesMean(n: nat, name: string)
    requires name == "m" || name == "M"
    ensures Means(Digits(n) + name, 0, 0, 60_000_000_000 * n)
  {
    NameMeans(n, name, Minute, 0, 0, 60_000_000_000 * n);
  }

  lemma SecondsMean(n: nat, name: string)
    requires name == "s" || name == "S"
    ensures Means(Digits(n) + name, 0, 0, 1_000_000_000 * n)
  {
    NameMeans(n, name, Second, 0, 0, 1_000_000_000 * n);
  }

  lemma MillisecondsMean(n: nat, name: string)
    requires name == "ms" || name == "MS" || name == "mS" || name == "Ms"
    ensures Means(Digits(n) + name, 0, 0, 1_000_000 * n)
  {
    NameMeans(n, name, Millisecond, 0, 0, 1_000_000 * n);
  }

  // The micro sign has no capital
  lemma MicrosecondsMean(n: nat, name: string)
    requires name == "us" || name == "US" || name == "uS" || name == "Us" || name == "\U{00B5}s" || name == "\U{00B5}S"
    ensures Means(Digits(n) + name, 0, 0, 1_000 * n)
  {
    NameMeans(n, name, Microsecond, 0, 0, 1_000 * n);
  }

  lemma NanosecondsMean(n: nat, name: string)
    requires name == "ns" || name == "NS" || name == "nS" || name == "Ns"
    ensures Means(Digits(n) + name, 0, 0, n)
  {
    NameMeans(n, name, Nanosecond, 0, 0, n);
  }

  // ---- The formats of ISO 8601 ----

  function Optional(n: Option<nat>, letter: string): (s: string) {
    if n.Some? then Digits(n.value) + letter else ""
  }

  function OrZero(n: Option<nat>): (m: nat) {
    if n.Some? then n.value else 0
  }

  lemma DesignatedThree(a: Option<nat>, b: Option<nat>, c: Option<nat>, fields: Fields)
    requires |fields| == 3
    ensures Designated([a, b, c], fields) == Written(a, fields[0].0) + Written(b, fields[1].0) + Written(c, fields[2].0)
  {
    var f1, f2 := fields[1..], fields[2..];
    assert [a, b, c][1..] == [b, c] && [b, c][1..] == [c] && f1[1..] == f2;
    assert Designated([c], f2) == Written(c, f2[0].0) + [];
    assert Designated([b, c], f1) == Written(b, f1[0].0) + Written(c, f2[0].0);
    Associative(Written(a, fields[0].0), Written(b, f1[0].0), Written(c, f2[0].0));
  }

  lemma GivenThree(a: Option<nat>, b: Option<nat>, c: Option<nat>, fields: Fields, k: Counter)
    requires |fields| == 3
    ensures Sum(Given([a, b, c], fields), k)
         == Share(OrZero(a), fields[0].1, k) + Share(OrZero(b), fields[1].1, k) + Share(OrZero(c), fields[2].1, k)
  {
    assert [a, b, c][1..] == [b, c] && [b, c][1..] == [c] && [c][1..] == [];
    GivenSum([c], fields[2..], k);
    GivenSum([b, c], fields[1..], k);
    GivenSum([a, b, c], fields, k);
    assert fields[1..][1..] == fields[2..] && fields[2..][1..] == [];
  }

  lemma GivenSum(counts: Counts, fields: Fields, k: Counter)
    requires |counts| == |fields| > 0
    ensures Sum(Given(counts, fields), k) == Share(OrZero(counts[0]), fields[0].1, k) + Sum(Given(counts[1..], fields[1..]), k)
  {
    var rest := Given(counts[1..], fields[1..]);
    if counts[0].Some? {
      SumCons(counts[0].value, fields[0].1, rest, k);
    } else {
      assert Given(counts, fields) == rest;
    }
  }

  // The text of a date and a time with the letters written out
  function IsoLiteral(y: Option<nat>, mo: Option<nat>, d: Option<nat>, h: Option<nat>, mi: Option<nat>, s: Option<nat>,
                      marked: bool): (text: string) {
    "P" + Optional(y, "Y") + Optional(mo, "M") + Optional(d, "D")
    + if marked then "T" + Optional(h, "H") + Optional(mi, "M") + Optional(s, "S") else ""
  }

  lemma LiteralIsText(y: Option<nat>, mo: Option<nat>, d: Option<nat>, h: Option<nat>, mi: Option<nat>, s: Option<nat>,
                      marked: bool)
    ensures IsoLiteral(y, mo, d, h, mi, s, marked) == IsoText([y, mo, d], [h, mi, s], marked)
  {
    DesignatedThree(y, mo, d, DATE);
    DesignatedThree(h, mi, s, TIME);
    Regrouped("T", Optional(h, "H"), Optional(mi, "M"), Optional(s, "S"));
    var date := Optional(y, "Y") + Optional(mo, "M") + Optional(d, "D");
    Regrouped("P", Optional(y, "Y"), Optional(mo, "M"), Optional(d, "D"));
    Associative("P", date, if marked then "T" + (Optional(h, "H") + Optional(mi, "M") + Optional(s, "S")) else "");
  }

  lemma Regrouped(p: string, a: string, b: string, c: string)
    ensures p + a + b + c == p + (a + b + c)
  {
    Associative(p, a, b);
    Associative(p, a + b, c);
  }

  /* Years, months and days, and after a T hours, minutes and seconds, each with its letter and each optional. */
  lemma IsoMeans(y: Option<nat>, mo: Option<nat>, d: Option<nat>, h: Option<nat>, mi: Option<nat>, s: Option<nat>,
                 marked: bool)
    requires marked || (h.None? && mi.None? && s.None?)
    ensures Means(IsoLiteral(y, mo, d, h, mi, s, marked), 12 * OrZero(y) + OrZero(mo), OrZero(d),
                  ((OrZero(h) * 60 + OrZero(mi)) * 60 + OrZero(s)) * 1_000_000_000)
  {
    var date, time := [y, mo, d], [h, mi, s];
    var text, parts := IsoText(date, time, marked), Given(date, DATE) + Given(time, TIME);
    LiteralIsText(y, mo, d, h, mi, s, marked);
    if !marked {
      NoneGiven(time, TIME);
    }
    IsoTextReads(date, time, marked);
    IsoTextInOrder(date, time, marked);
    IsoSums(y, mo, d, h, mi, s, Months);
    IsoSums(y, mo, d, h, mi, s, Days);
    IsoSums(y, mo, d, h, mi, s, Nanoseconds);
    PartsMean(text, parts, 12 * OrZero(y) + OrZero(mo), OrZero(d),
              ((OrZero(h) * 60 + OrZero(mi)) * 60 + OrZero(s)) * 1_000_000_000);
  }

  lemma {:induction false} NoneGiven(counts: Counts, fields: Fields)
    requires |counts| == |fields| && forall i :: 0 <= i < |counts| ==> counts[i].None?
    ensures Given(counts, fields) == []
    decreases |counts|
  {
    if counts != [] {
      NoneGiven(counts[1..], fields[1..]);
    }
  }

  lemma IsoTextInOrder(date: Counts, time: Counts, marked: bool)
    requires |date| == 3 && |time| == 3 && (marked || Given(time, TIME) == [])
    ensures Decreasing(Given(date, DATE) + Given(time, TIME))
  {
    DesignatedReadBack(date, time, marked);
    FieldUnits();
    DesignatedInOrder(IsoText(date, time, marked)[1..], DATE, TIME);
  }

  lemma DateSums(y: Option<nat>, mo: Option<nat>, d: Option<nat>, k: Counter)
    ensures Sum(Given([y, mo, d], DATE), k)
         == match k case Months => 12 * OrZero(y) + OrZero(mo) case Days => OrZero(d) case Nanoseconds => 0
  {
    GivenThree(y, mo, d, DATE, k);
  }

  lemma TimeSums(h: Option<nat>, mi: Option<nat>, s: Option<nat>, k: Counter)
    ensures Sum(Given([h, mi, s], TIME), k)
         == if k == Nanoseconds then ((OrZero(h) * 60 + OrZero(mi)) * 60 + OrZero(s)) * 1_000_000_000 else 0
  {
    GivenThree(h, mi, s, TIME, k);
  }

  lemma IsoSums(y: Option<nat>, mo: Option<nat>, d: Option<nat>, h: Option<nat>, mi: Option<nat>, s: Option<nat>, k: Counter)
    ensures Sum(Given([y, mo, d], DATE) + Given([h, mi, s], TIME), k)
         == match k
            case Months => 12 * OrZero(y) + OrZero(mo)
            case Days => OrZero(d)
            case Nanoseconds => ((OrZero(h) * 60 + OrZero(mi)) * 60 + OrZero(s)) * 1_000_000_000
  {
    DateSums(y, mo, d, k);
    TimeSums(h, mi, s, k);
    SumConcat(Given([y, mo, d], DATE), Given([h, mi, s], TIME), k);
  }

  lemma IsoWeeksMean(n: nat)
    ensures Means("P" + Digits(n) + "W", 0, 7 * n, 0)
  {
    var s := "P" + Digits(n) + "W";
    assert s[1..] == Written(Some(n), 'W') + [];
    FieldReadBack(n, 'W', [], 'W');
    SumOne(n, Week, Months);
    SumOne(n, Week, Days);
    SumOne(n, Week, Nanoseconds);
    PartsMean(s, [(n, Week)], 0, 7 * n, 0);
  }

  // A date and time of fixed width, with the marks written out
  function CalendarLine(y: nat, mo: nat, d: nat, h: nat, mi: nat, s: nat): (text: string) {
    ("P" + Padded(y, 4)) + ("-" + Padded(mo, 2)) + ("-" + Padded(d, 2))
    + ("T" + Padded(h, 2)) + (":" + Padded(mi, 2)) + (":" + Padded(s, 2))
  }

  lemma LineIsTabulated(counts: seq<nat>)
    requires |counts| == |CALENDAR|
    ensures Tabulated(counts, CALENDAR) == CalendarLine(counts[0], counts[1], counts[2], counts[3], counts[4], counts[5])
  {
    TabulatedSix(counts, CALENDAR);
  }

  lemma CalendarAdds(text: string, counts: seq<nat>)
    requires |counts| == |CALENDAR| && FitColumns(counts, CALENDAR) && text == Tabulated(counts, CALENDAR)
    ensures !Negative(text) && Decreasing(InColumns(counts, CALENDAR))
    ensures ParseUnsigned(text) == AddAll(NEW, InColumns(counts, CALENDAR))
  {
    CalendarText(counts);
    ColumnsReadBack(counts, CALENDAR);
    IsoInOrder(text);
  }

  lemma CalendarReadsAs(text: string, counts: seq<nat>)
    requires |counts| == |CALENDAR| && FitColumns(counts, CALENDAR) && text == Tabulated(counts, CALENDAR)
    ensures var d := CalendarDuration(counts); Means(text, d.months, d.days, d.nanoseconds)
  {
    var d, parts := CalendarDuration(counts), InColumns(counts, CALENDAR);
    CalendarAdds(text, counts);
    CalendarCounters(counts, Months);
    CalendarCounters(counts, Days);
    CalendarCounters(counts, Nanoseconds);
    PartsMean(text, parts, d.months, d.days, d.nanoseconds);
  }

  /* All of them mean what they say. */
  lemma CalendarMeans(text: string, counts: seq<nat>)
    requires |counts| == 6 && counts[0] < 10000 && forall i :: 1 <= i < 6 ==> counts[i] < 100
    requires text == CalendarLine(counts[0], counts[1], counts[2], counts[3], counts[4], counts[5])
    ensures Means(text, 12 * counts[0] + counts[1], counts[2],
                  ((counts[3] * 60 + counts[4]) * 60 + counts[5]) * 1_000_000_000)
  {
    LineIsTabulated(counts);
    FitsCalendar(counts);
    CalendarNumbers(counts);
    CalendarReadsAs(text, counts);
  }

  lemma CalendarNumbers(counts: seq<nat>)
    requires |counts| == 6
    ensures CalendarDuration(counts) == Duration(12 * counts[0] + counts[1], counts[2],
                                                 ((counts[3] * 60 + counts[4]) * 60 + counts[5]) * 1_000_000_000)
  {
  }

  lemma FitsCalendar(counts: seq<nat>)
    requires |counts| == 6 && counts[0] < 10000 && forall i :: 1 <= i < 6 ==> counts[i] < 100
    ensures FitColumns(counts, CALENDAR)
  {
    assert Pow10(2) == 100 && Pow10(4) == 10000;
  }

  function Column(counts: seq<nat>, columns: Columns, i: nat): (s: string)
    requires i < |counts| == |columns|
  {
    [columns[i].0] + Padded(counts[i], columns[i].1)
  }

  lemma TabulatedFrom(counts: seq<nat>, columns: Columns, i: nat, front: string)
    requires i < |counts| == |columns|
    ensures front + Tabulated(counts[i..], columns[i..])
         == front + Column(counts, columns, i) + Tabulated(counts[i + 1..], columns[i + 1..])
  {
    assert counts[i..][1..] == counts[i + 1..] && columns[i..][1..] == columns[i + 1..];
    Associative(front, Column(counts, columns, i), Tabulated(counts[i + 1..], columns[i + 1..]));
  }

  lemma TabulatedSix(counts: seq<nat>, columns: Columns)
    requires |counts| == |columns| == 6
    ensures Tabulated(counts, columns) ==
      Column(counts, columns, 0) + Column(counts, columns, 1) + Column(counts, columns, 2)
      + Column(counts, columns, 3) + Column(counts, columns, 4) + Column(counts, columns, 5)
  {
    assert counts[0..] == counts && columns[0..] == columns && counts[6..] == [];
    var front: string := [];
    for i := 0 to 6
      invariant front + Tabulated(counts[i..], columns[i..]) == Tabulated(counts, columns)
      invariant front == FirstColumns(counts, columns, i)
    {
      TabulatedFrom(counts, columns, i, front);
      front := front + Column(counts, columns, i);
    }
    ColumnsInFull(counts, columns);
  }

  function FirstColumns(counts: seq<nat>, columns: Columns, n: nat): (s: string)
    requires n <= |counts| == |columns|
  {
    if n == 0 then [] else FirstColumns(counts, columns, n - 1) + Column(counts, columns, n - 1)
  }

  lemma ColumnsInFull(counts: seq<nat>, columns: Columns)
    requires |counts| == |columns| == 6
    ensures FirstColumns(counts, columns, 6) ==
      Column(counts, columns, 0) + Column(counts, columns, 1) + Column(counts, columns, 2)
      + Column(counts, columns, 3) + Column(counts, columns, 4) + Column(counts, columns, 5)
  {
    assert FirstColumns(counts, columns, 1) == Column(counts, columns, 0);
    assert FirstColumns(counts, columns, 2) == FirstColumns(counts, columns, 1) + Column(counts, columns, 1);
    assert FirstColumns(counts, columns, 3) == FirstColumns(counts, columns, 2) + Column(counts, columns, 2);
    assert FirstColumns(counts, columns, 4) == FirstColumns(counts, columns, 3) + Column(counts, columns, 3);
    assert FirstColumns(counts, columns, 5) == FirstColumns(counts, columns, 4) + Column(counts, columns, 4);
  }

  // ---- Writing ----

  // Decimal notation
  lemma DecimalNotation(n: nat, k: nat)
    requires k < 10
    ensures Digits(k) == [['0', '1', '2', '3', '4', '5', '6', '7', '8', '9'][k]]
    ensures n > 0 ==> Digits(10 * n + k) == Digits(n) + Digits(k)
  {
    assert (10 * n + k) / 10 == n && (10 * n + k) % 10 == k;
  }

  lemma WrittenNames(n: nat)
    ensures Format([(n, Year)]) == Digits(n) + "y" && Format([(n, Month)]) == Digits(n) + "mo"
    ensures Format([(n, Day)]) == Digits(n) + "d" && Format([(n, Hour)]) == Digits(n) + "h"
    ensures Format([(n, Minute)]) == Digits(n) + "m" && Format([(n, Second)]) == Digits(n) + "s"
    ensures Format([(n, Millisecond)]) == Digits(n) + "ms" && Format([(n, Microsecond)]) == Digits(n) + "us"
    ensures Format([(n, Nanosecond)]) == Digits(n) + "ns"
  {
    forall u ensures Format([(n, u)]) == Digits(n) + ShortName(u) {
      assert [(n, u)][1..] == [];
    }
  }

  // No unit is written with as many as make a larger one, nor without a count, and weeks are not written
  predicate Carried(n: nat, u: Unit) {
    n > 0 && match u
      case Month => n < 12
      case Minute => n < 60
      case Second => n < 60
      case Millisecond => n < 1000
      case Microsecond => n < 1000
      case Nanosecond => n < 1000
      case Week => false
      case _ => true
  }

  // Each unit is followed by the next smaller one
  predicate Chain(units: seq<Unit>) {
    |units| > 1 ==> units[0] != Week && Smaller(units[0]).Some? && Smaller(units[0]).value.0 == units[1] && Chain(units[1..])
  }

  lemma {:induction false} CarriedBelow(count: nat, units: seq<Unit>)
    requires Chain(units) && (units != [] ==> count < LargestBelow(units[0]) * Factor(units[0]))
    ensures forall p :: p in BreakDown(count, units) ==> p.0 > 0 && p.1 in units && p.0 < LargestBelow(p.1)
    decreases |units|
  {
    if units != [] {
      var u, f, rest := units[0], Factor(units[0]), units[1..];
      if rest != [] {
        NextSmaller(u, rest[0]);
      }
      if count == 0 || count < f {
        CarriedBelow(count, rest);
      } else {
        Quotient(count, f, LargestBelow(u));
        CarriedBelow(count % f, rest);
      }
    }
  }

  lemma NextSmaller(u: Unit, v: Unit)
    requires u != Week && Smaller(u).Some? && Smaller(u).value.0 == v
    ensures Factor(u) == LargestBelow(v) * Factor(v)
  {
    SmallerFactor(u, v, Smaller(u).value.1);
  }

  // As many of the unit as make one of the next larger that is written, or more than any count for the largest
  function LargestBelow(u: Unit): (n: nat) {
    match u
    case Month => 12
    case Minute => 60
    case Second => 60
    case Millisecond => 1000
    case Microsecond => 1000
    case Nanosecond => 1000
    case _ => 0x8000_0000_0000_0000
  }

  lemma Quotient(n: nat, f: nat, k: nat)
    requires f > 0 && n < k * f
    ensures n / f < k
  {
    DivMod(n, f);
    if n / f >= k {
      Monotone(k, n / f, f);
    }
  }

  lemma NanosecondsChain()
    ensures Chain(NANOSECOND_UNITS)
  {
    var units := NANOSECOND_UNITS;
    assert units[5..] == [Nanosecond] && Chain(units[5..]);
    assert units[4..][1..] == units[5..] && Chain(units[4..]);
    assert units[3..][1..] == units[4..] && Chain(units[3..]);
    assert units[2..][1..] == units[3..] && Chain(units[2..]);
    assert units[1..][1..] == units[2..] && Chain(units[1..]);
  }

  /* What is printed is carried over as far as it goes. */
  lemma PrintedIsCarried(d: Duration)
    requires Representable(d)
    ensures forall p :: p in PartsOf(d) ==> Carried(p.0, p.1)
  {
    assert Chain(MONTH_UNITS) && Chain(DAY_UNITS);
    NanosecondsChain();
    CarriedBelow(Abs(d.months), MONTH_UNITS);
    CarriedBelow(Abs(d.days), DAY_UNITS);
    CarriedBelow(Abs(d.nanoseconds), NANOSECOND_UNITS);
  }
}
