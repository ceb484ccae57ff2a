/**
  Texts of durations: the formats they are read from, including those of ISO 8601, and the one they are
  written in.
*/
module DurationTexts {
  import opened Durations
  import opened Sequences
  import opened Wrappers

  // ---- Reading ----

  // A counter as the formats of ISO 8601 designate it: a letter and the unit it stands for
  type Fields = seq<(char, Unit)>

  const DATE: Fields := [('Y', Year), ('M', Month), ('D', Day)]
  const TIME: Fields := [('H', Hour), ('M', Minute), ('S', Second)]

  // A count and the given letter, and what follows
  function ReadField(s: string, letter: char): (r: Option<(nat, string)>)
    ensures r.Some? ==> |r.value.1| < |s|
  {
    var k := Count(s);
    if 0 < k < |s| && s[k] == letter then Some((Value(s[..k]), s[k + 1..])) else None
  }

  // Optional counts in the order of the fields
  function ReadFields(s: string, fields: Fields): (r: (Parts, string))
    decreases |fields|
  {
    if fields == [] then ([], s)
    else match ReadField(s, fields[0].0)
      case None => ReadFields(s, fields[1..])
      case Some((n, rest)) =>
        var more := ReadFields(rest, fields[1..]);
        ([(n, fields[0].1)] + more.0, more.1)
  }

  // parse_duration_iso8601_format(), after the P: a date, and after a T the time
  function ReadDesignated(s: string, date: Fields, time: Fields): (r: Option<Parts>) {
    var (d, rest) := ReadFields(s, date);
    if rest == [] then Some(d)
    else if rest[0] != 'T' then None
    else
      var (t, end) := ReadFields(rest[1..], time);
      if end == [] then Some(d + t) else None
  }

  // The alternative format: counts of fixed widths, each after its separator
  type Columns = seq<(char, nat, Unit)>

  const CALENDAR: Columns :=
    [('P', 4, Year), ('-', 2, Month), ('-', 2, Day), ('T', 2, Hour), (':', 2, Minute), (':', 2, Second)]

  predicate AllDigits(s: string) {
    forall i :: 0 <= i < |s| ==> IsDigit(s[i])
  }

  // parse_duration_iso8601_alternative_format()
  function ReadColumns(s: string, columns: Columns): (r: Option<Parts>)
    decreases |columns|
  {
    if columns == [] then if s == [] then Some([]) else None
    else
      var (separator, width, u) := columns[0];
      if |s| <= width || s[0] != separator || !AllDigits(s[1..width + 1]) then None
      else match ReadColumns(s[width + 1..], columns[1..])
        case None => None
        case Some(more) => Some([(Value(s[1..width + 1]), u)] + more)
  }

  // parse_duration_iso8601_week_format(), after the P
  function ReadWeeks(s: string): (r: Option<Parts>) {
    match ReadField(s, 'W')
    case None => None
    case Some((n, rest)) => if rest == [] then Some([(n, Week)]) else None
  }

  function IsoParts(s: string): (r: Option<Parts>)
    requires s != [] && s[0] == 'P'
  {
    if Last(s) == 'W' then ReadWeeks(s[1..])
    else if '-' in s then ReadColumns(s, CALENDAR)
    else ReadDesignated(s[1..], DATE, TIME)
  }

  // parse_duration()
  function ParseUnsigned(s: string): (r: Result<Duration>) {
    if s == [] then Error("syntax")
    else if s[0] == 'P' then
      match IsoParts(s)
      case None => Error("syntax")
      case Some(parts) => AddAll(NEW, parts)
    else ParseFrom(s, NEW)
  }

  function Negated(d: Duration): (r: Duration) {
    Duration(-d.months, -d.days, -d.nanoseconds)
  }

  predicate Negative(s: string) {
    s != [] && s[0] == '-'
  }

  function Unsigned(s: string): (r: string) {
    if Negative(s) then s[1..] else s
  }

  function WithSign(r: Result<Duration>, minus: bool): (q: Result<Duration>) {
    match r
    case Error(e) => Error(e)
    case Ok(d) => Ok(if minus then Negated(d) else d)
  }

  function Parse(s: string): (r: Result<Duration>) {
    WithSign(ParseUnsigned(Unsigned(s)), Negative(s))
  }

  function Signed(text: string, minus: bool): (s: string) {
    (if minus then "-" else []) + text
  }

  lemma ParseSigned(text: string, minus: bool)
    requires !Negative(text)
    ensures Parse(Signed(text, minus)) == WithSign(ParseUnsigned(text), minus)
  {
    var s := Signed(text, minus);
    if minus {
      assert s[1..] == text;
    } else {
      assert s == text;
    }
  }

  // ---- The formats of ISO 8601 ----

  predicate Within(parts: Parts, lo: nat, hi: nat) {
    forall p :: p in parts ==> lo <= Index(p.1) < hi
  }

  predicate DecreasingUnits(units: seq<Unit>) {
    forall i, j :: 0 <= i < j < |units| ==> Index(units[i]) > Index(units[j])
  }

  // Units that go down from one limit to another
  predicate GoDown(units: seq<Unit>, lo: nat, hi: nat) {
    DecreasingUnits(units) && forall i :: 0 <= i < |units| ==> lo <= Index(units[i]) < hi
  }

  function UnitsIn(fields: Fields): (units: seq<Unit>)
    ensures |units| == |fields| && forall i :: 0 <= i < |fields| ==> units[i] == fields[i].1
  {
    seq(|fields|, i requires 0 <= i < |fields| => fields[i].1)
  }

  function UnitsInColumns(columns: Columns): (units: seq<Unit>)
    ensures |units| == |columns| && forall i :: 0 <= i < |columns| ==> units[i] == columns[i].2
  {
    seq(|columns|, i requires 0 <= i < |columns| => columns[i].2)
  }

  lemma InOrderCons(n: nat, u: Unit, more: Parts, lo: nat, hi: nat)
    requires lo <= Index(u) < hi && Decreasing(more) && Within(more, lo, Index(u))
    ensures Decreasing([(n, u)] + more) && Within([(n, u)] + more, lo, hi)
  {
    var parts := [(n, u)] + more;
    forall i, j | 0 <= i < j < |parts| ensures Index(parts[i].1) > Index(parts[j].1) {
      assert parts[j] == more[j - 1] && more[j - 1] in more;
    }
  }

  lemma {:induction false} FieldsInOrder(s: string, fields: Fields, lo: nat, hi: nat)
    requires GoDown(UnitsIn(fields), lo, hi)
    ensures Decreasing(ReadFields(s, fields).0) && Within(ReadFields(s, fields).0, lo, hi)
    decreases |fields|
  {
    if fields != [] {
      var u := fields[0].1;
      assert UnitsIn(fields)[1..] == UnitsIn(fields[1..]);
      match ReadField(s, fields[0].0)
      case None =>
        FieldsInOrder(s, fields[1..], lo, Index(u));
      case Some((n, rest)) =>
        FieldsInOrder(rest, fields[1..], lo, Index(u));
        InOrderCons(n, u, ReadFields(rest, fields[1..]).0, lo, hi);
    }
  }

  lemma {:induction false} ColumnsInOrder(s: string, columns: Columns, lo: nat, hi: nat)
    requires GoDown(UnitsInColumns(columns), lo, hi) && ReadColumns(s, columns).Some?
    ensures Decreasing(ReadColumns(s, columns).value) && Within(ReadColumns(s, columns).value, lo, hi)
    decreases |columns|
  {
    if columns != [] {
      var (separator, width, u) := columns[0];
      assert UnitsInColumns(columns)[1..] == UnitsInColumns(columns[1..]);
      ColumnsInOrder(s[width + 1..], columns[1..], lo, Index(u));
      InOrderCons(Value(s[1..width + 1]), u, ReadColumns(s[width + 1..], columns[1..]).value, lo, hi);
    }
  }

  lemma FieldUnits()
    ensures GoDown(UnitsIn(DATE), 6, 10) && GoDown(UnitsIn(TIME), 3, 6)
  {
    assert UnitsIn(DATE) == [Year, Month, Day] && UnitsIn(TIME) == [Hour, Minute, Second];
  }

  lemma ColumnUnits()
    ensures GoDown(UnitsInColumns(CALENDAR), 0, 10)
  {
    assert UnitsInColumns(CALENDAR) == [Year, Month, Day, Hour, Minute, Second];
  }

  lemma DesignatedInOrder(s: string, date: Fields, time: Fields)
    requires GoDown(UnitsIn(date), 6, 10) && GoDown(UnitsIn(time), 3, 6) && ReadDesignated(s, date, time).Some?
    ensures Decreasing(ReadDesignated(s, date, time).value)
  {
    var (d, rest) := ReadFields(s, date);
    FieldsInOrder(s, date, 6, 10);
    if rest != [] {
      FieldsInOrder(rest[1..], time, 3, 6);
      DecreasingConcat(d, ReadFields(rest[1..], time).0, 6);
    }
  }

  lemma IsoInOrder(s: string)
    requires s != [] && s[0] == 'P' && IsoParts(s).Some?
    ensures Decreasing(IsoParts(s).value)
  {
    if Last(s) != 'W' {
      if '-' in s {
        ColumnUnits();
        ColumnsInOrder(s, CALENDAR, 0, 10);
      } else {
        FieldUnits();
        DesignatedInOrder(s[1..], DATE, TIME);
      }
    }
  }

  // These formats cannot get the order wrong: a text that follows one is refused only if its sums do not fit
  lemma IsoAccepts(s: string)
    requires s != [] && s[0] == 'P'
    ensures Parse(s).Ok? <==> IsoParts(s).Some? && Fits(Duration(0, 0, 0), IsoParts(s).value)
  {
    if IsoParts(s).Some? {
      IsoInOrder(s);
      AddAllAccepts(NEW, IsoParts(s).value);
    }
  }

  // Which fields are given, and how they are written
  type Counts = seq<Option<nat>>

  function Written(count: Option<nat>, letter: char): (s: string) {
    if count.Some? then Digits(count.value) + [letter] else []
  }

  function Designated(counts: Counts, fields: Fields): (s: string)
    requires |counts| == |fields|
  {
    if counts == [] then [] else Written(counts[0], fields[0].0) + Designated(counts[1..], fields[1..])
  }

  function Given(counts: Counts, fields: Fields): (parts: Parts)
    requires |counts| == |fields|
  {
    if counts == [] then []
    else (if counts[0].Some? then [(counts[0].value, fields[0].1)] else []) + Given(counts[1..], fields[1..])
  }

  // The letters tell the fields apart from each other and from the counts
  predicate Distinct(fields: Fields) {
    && (forall i :: 0 <= i < |fields| ==> !IsDigit(fields[i].0))
    && forall i, j :: 0 <= i < j < |fields| ==> fields[i].0 != fields[j].0
  }

  lemma FieldReadBack(n: nat, letter: char, rest: string, x: char)
    requires !IsDigit(letter)
    ensures ReadField(Written(Some(n), letter) + rest, x) == if x == letter then Some((n, rest)) else None
  {
    var ds, tail := Digits(n), [letter] + rest;
    Associative(ds, [letter], rest);
    CountOf(ds, tail);
    assert (ds + tail)[..|ds|] == ds && (ds + tail)[|ds|] == letter && (ds + tail)[|ds| + 1..] == rest;
    DigitsValue(n);
  }

  lemma CountNone(rest: string, letter: char)
    requires rest == [] || !IsDigit(rest[0])
    ensures ReadField(rest, letter) == None
  {
  }

  lemma DesignatedCons(counts: Counts, fields: Fields, rest: string)
    requires |counts| == |fields| > 0
    ensures Designated(counts, fields) + rest
         == Written(counts[0], fields[0].0) + (Designated(counts[1..], fields[1..]) + rest)
    ensures counts[0].None? ==> Designated(counts, fields) + rest == Designated(counts[1..], fields[1..]) + rest
  {
    Associative(Written(counts[0], fields[0].0), Designated(counts[1..], fields[1..]), rest);
  }

  // A letter that is not among the fields is not found
  lemma {:induction false} NoField(counts: Counts, fields: Fields, rest: string, letter: char)
    requires |counts| == |fields| && Distinct(fields) && (rest == [] || !IsDigit(rest[0]))
    requires forall i :: 0 <= i < |fields| ==> fields[i].0 != letter
    ensures ReadField(Designated(counts, fields) + rest, letter) == None
    decreases |counts|
  {
    if counts == [] {
      assert Designated(counts, fields) + rest == rest;
      CountNone(rest, letter);
    } else {
      DesignatedCons(counts, fields, rest);
      if counts[0].Some? {
        FieldReadBack(counts[0].value, fields[0].0, Designated(counts[1..], fields[1..]) + rest, letter);
      } else {
        NoField(counts[1..], fields[1..], rest, letter);
      }
    }
  }

  lemma {:induction false} FieldsReadBack(counts: Counts, fields: Fields, rest: string)
    requires |counts| == |fields| && Distinct(fields) && (rest == [] || !IsDigit(rest[0]))
    ensures ReadFields(Designated(counts, fields) + rest, fields) == (Given(counts, fields), rest)
    decreases |counts|
  {
    if counts == [] {
      assert Designated(counts, fields) + rest == rest;
    } else {
      FieldsReadBack(counts[1..], fields[1..], rest);
      DesignatedCons(counts, fields, rest);
      if counts[0].Some? {
        FieldReadBack(counts[0].value, fields[0].0, Designated(counts[1..], fields[1..]) + rest, fields[0].0);
      } else {
        NoField(counts[1..], fields[1..], rest, fields[0].0);
        assert Given(counts, fields) == Given(counts[1..], fields[1..]);
      }
    }
  }

  // The text of a date and a time, whose mark may be left out when no time is given
  function IsoText(date: Counts, time: Counts, marked: bool): (s: string)
    requires |date| == 3 && |time| == 3
  {
    "P" + (Designated(date, DATE) + if marked then "T" + Designated(time, TIME) else [])
  }

  predicate Plain(s: string) {
    forall i :: 0 <= i < |s| ==> IsDigit(s[i]) || s[i] in "PTYMDHS"
  }

  lemma {:induction false} DesignatedPlain(counts: Counts, fields: Fields)
    requires |counts| == |fields| && forall i :: 0 <= i < |fields| ==> fields[i].0 in "PTYMDHS"
    ensures Plain(Designated(counts, fields))
    decreases |counts|
  {
    if counts != [] {
      DesignatedPlain(counts[1..], fields[1..]);
    }
  }

  lemma PlainText(s: string)
    requires Plain(s) && s != []
    ensures Last(s) != 'W' && '-' !in s
  {
  }

  lemma LettersDiffer()
    ensures Distinct(DATE) && Distinct(TIME)
  {
  }

  lemma DesignatedReadBack(date: Counts, time: Counts, marked: bool)
    requires |date| == 3 && |time| == 3 && (marked || Given(time, TIME) == [])
    ensures ReadDesignated(IsoText(date, time, marked)[1..], DATE, TIME) == Some(Given(date, DATE) + Given(time, TIME))
  {
    var rest := if marked then "T" + Designated(time, TIME) else [];
    assert IsoText(date, time, marked)[1..] == Designated(date, DATE) + rest;
    LettersDiffer();
    FieldsReadBack(date, DATE, rest);
    assert Given(date, DATE) + [] == Given(date, DATE);
    if marked {
      assert rest[1..] == Designated(time, TIME) == Designated(time, TIME) + [];
      FieldsReadBack(time, TIME, []);
    }
  }

  lemma IsoTextPlain(date: Counts, time: Counts, marked: bool)
    requires |date| == 3 && |time| == 3
    ensures Plain(IsoText(date, time, marked))
  {
    DesignatedPlain(date, DATE);
    DesignatedPlain(time, TIME);
  }

  lemma IsoTextReads(date: Counts, time: Counts, marked: bool)
    requires |date| == 3 && |time| == 3 && (marked || Given(time, TIME) == [])
    ensures ParseUnsigned(IsoText(date, time, marked)) == AddAll(NEW, Given(date, DATE) + Given(time, TIME))
  {
    IsoTextPlain(date, time, marked);
    PlainText(IsoText(date, time, marked));
    DesignatedReadBack(date, time, marked);
  }

  lemma StandardReads(parts: Parts)
    requires parts != []
    ensures !Negative(Format(parts)) && ParseUnsigned(Format(parts)) == AddAll(NEW, parts)
  {
    FormatStart(parts);
    ParseFormatted(parts, NEW);
  }

  // A text whose counts are added as they stand reads like the standard text of these counts
  lemma LikeStandard(s: string, parts: Parts, minus: bool)
    requires !Negative(s) && ParseUnsigned(s) == AddAll(NEW, parts)
    ensures Parse(Signed(s, minus)) ==
      if parts == [] then Ok(Duration(0, 0, 0)) else Parse(Signed(Format(parts), minus))
  {
    ParseSigned(s, minus);
    if parts != [] {
      StandardReads(parts);
      ParseSigned(Format(parts), minus);
    }
  }

  // Years to seconds read the same in the format of ISO 8601 and in the standard one, whatever the counts;
  // only there a text may give none of them, and then stands for zero
  lemma IsoLikeStandard(date: Counts, time: Counts, marked: bool, minus: bool)
    requires |date| == 3 && |time| == 3 && (marked || Given(time, TIME) == [])
    ensures
      var parts := Given(date, DATE) + Given(time, TIME);
      Parse(Signed(IsoText(date, time, marked), minus)) ==
        if parts == [] then Ok(Duration(0, 0, 0)) else Parse(Signed(Format(parts), minus))
  {
    IsoTextReads(date, time, marked);
    LikeStandard(IsoText(date, time, marked), Given(date, DATE) + Given(time, TIME), minus);
  }

  // So do weeks
  lemma WeeksLikeStandard(n: nat, minus: bool)
    ensures Parse(Signed("P" + Digits(n) + "W", minus)) == Parse(Signed(Format([(n, Week)]), minus))
  {
    var s := "P" + Digits(n) + "W";
    assert s[1..] == Written(Some(n), 'W') + [];
    FieldReadBack(n, 'W', [], 'W');
    LikeStandard(s, [(n, Week)], minus);
  }

  function Pow10(w: nat): (n: nat) {
    if w == 0 then 1 else 10 * Pow10(w - 1)
  }

  function Padded(n: nat, width: nat): (s: string)
    ensures |s| == width && AllDigits(s)
  {
    if width == 0 then [] else Padded(n / 10, width - 1) + ["0123456789"[n % 10]]
  }

  lemma {:induction false} PaddedValue(n: nat, width: nat)
    requires n < Pow10(width)
    ensures Value(Padded(n, width)) == n
  {
    if width > 0 {
      var s := Padded(n, width);
      assert s[|s| - 1] as int - '0' as int == n % 10;
      assert s[..|s| - 1] == Padded(n / 10, width - 1);
      PaddedValue(n / 10, width - 1);
    }
  }

  function Tabulated(counts: seq<nat>, columns: Columns): (s: string)
    requires |counts| == |columns|
  {
    if counts == [] then []
    else [columns[0].0] + Padded(counts[0], columns[0].1) + Tabulated(counts[1..], columns[1..])
  }

  function InColumns(counts: seq<nat>, columns: Columns): (parts: Parts)
    requires |counts| == |columns|
  {
    if counts == [] then [] else [(counts[0], columns[0].2)] + InColumns(counts[1..], columns[1..])
  }

  predicate FitColumns(counts: seq<nat>, columns: Columns)
    requires |counts| == |columns|
  {
    forall i :: 0 <= i < |counts| ==> counts[i] < Pow10(columns[i].1)
  }

  lemma {:induction false} ColumnsReadBack(counts: seq<nat>, columns: Columns)
    requires |counts| == |columns| && FitColumns(counts, columns)
    ensures ReadColumns(Tabulated(counts, columns), columns) == Some(InColumns(counts, columns))
    decreases |counts|
  {
    if counts != [] {
      var (separator, width, u) := columns[0];
      var s, more := Tabulated(counts, columns), Tabulated(counts[1..], columns[1..]);
      assert s[1..width + 1] == Padded(counts[0], width) && s[width + 1..] == more;
      PaddedValue(counts[0], width);
      ColumnsReadBack(counts[1..], columns[1..]);
    }
  }

  lemma CalendarText(counts: seq<nat>)
    requires |counts| == |CALENDAR|
    ensures var s := Tabulated(counts, CALENDAR); s != [] && s[0] == 'P' && Last(s) != 'W' && '-' in s
  {
    var s, more := Tabulated(counts, CALENDAR), Tabulated(counts[1..], CALENDAR[1..]);
    assert s == ['P'] + Padded(counts[0], 4) + more;
    assert more[0] == '-' && s[5] == more[0];
    LastDigit(counts, CALENDAR);
  }

  lemma {:induction false} LastDigit(counts: seq<nat>, columns: Columns)
    requires |counts| == |columns| > 0 && forall i :: 0 <= i < |columns| ==> columns[i].1 > 0
    ensures Tabulated(counts, columns) != [] && IsDigit(Last(Tabulated(counts, columns)))
    decreases |counts|
  {
    var digits := Padded(counts[0], columns[0].1);
    if |counts| == 1 {
      assert Last(Tabulated(counts, columns)) == digits[|digits| - 1];
    } else {
      LastDigit(counts[1..], columns[1..]);
    }
  }

  function Share(n: nat, u: Unit, c: Counter): (m: nat) {
    if CounterOf(u) == c then n * Factor(u) else 0
  }

  lemma CalendarSums(counts: seq<nat>, c: Counter)
    requires |counts| == |CALENDAR|
    ensures Sum(InColumns(counts, CALENDAR), c)
         == Share(counts[0], Year, c) + Share(counts[1], Month, c) + Share(counts[2], Day, c)
            + Share(counts[3], Hour, c) + Share(counts[4], Minute, c) + Share(counts[5], Second, c)
  {
    assert counts[0..] == counts && CALENDAR[0..] == CALENDAR;
    SumThree(counts, CALENDAR, 0, c);
    SumThree(counts, CALENDAR, 3, c);
  }

  lemma CalendarCounters(counts: seq<nat>, c: Counter)
    requires |counts| == |CALENDAR|
    ensures Sum(InColumns(counts, CALENDAR), c) == Get(CalendarDuration(counts), c)
  {
    CalendarSums(counts, c);
  }

  lemma SumColumns(counts: seq<nat>, columns: Columns, i: nat, c: Counter)
    requires |counts| == |columns| && i < |counts|
    ensures Sum(InColumns(counts[i..], columns[i..]), c)
         == Share(counts[i], columns[i].2, c) + Sum(InColumns(counts[i + 1..], columns[i + 1..]), c)
  {
    assert counts[i..][1..] == counts[i + 1..] && columns[i..][1..] == columns[i + 1..];
    SumCons(counts[i], columns[i].2, InColumns(counts[i + 1..], columns[i + 1..]), c);
  }

  lemma SumThree(counts: seq<nat>, columns: Columns, i: nat, c: Counter)
    requires |counts| == |columns| && i + 3 <= |counts|
    ensures Sum(InColumns(counts[i..], columns[i..]), c)
         == Share(counts[i], columns[i].2, c) + Share(counts[i + 1], columns[i + 1].2, c)
            + Share(counts[i + 2], columns[i + 2].2, c) + Sum(InColumns(counts[i + 3..], columns[i + 3..]), c)
  {
    SumColumns(counts, columns, i, c);
    SumColumns(counts, columns, i + 1, c);
    SumColumns(counts, columns, i + 2, c);
  }

  // What years, months, days, hours, minutes and seconds amount to
  function CalendarDuration(counts: seq<nat>): (d: Duration)
    requires |counts| == 6
  {
    Duration(12 * counts[0] + counts[1], counts[2],
             ((counts[3] * 60 + counts[4]) * 60 + counts[5]) * 1000 * 1000 * 1000)
  }

  // Parts in order that sum up to a duration give it
  lemma AddsUpTo(parts: Parts, d: Duration)
    requires Decreasing(parts) && forall c :: Sum(parts, c) == Get(d, c) <= Limit(c)
    ensures AddAll(NEW, parts) == Ok(d)
  {
    AddAllAccepts(NEW, parts);
    forall c ensures Get(NEW.duration, c) + Sum(parts, c) <= Limit(c) {
      assert Sum(parts, c) == Get(d, c);
    }
    SameCounters(AddAll(NEW, parts).value, d);
  }

  // Four digits and five times two always fit, even for a month or an hour no calendar has
  lemma CalendarReads(counts: seq<nat>, minus: bool)
    requires |counts| == |CALENDAR| && FitColumns(counts, CALENDAR)
    ensures Parse(Signed(Tabulated(counts, CALENDAR), minus)) == WithSign(Ok(CalendarDuration(counts)), minus)
  {
    var s, parts := Tabulated(counts, CALENDAR), InColumns(counts, CALENDAR);
    CalendarText(counts);
    ColumnsReadBack(counts, CALENDAR);
    ParseSigned(s, minus);
    IsoInOrder(s);
    CalendarFits(counts);
    forall c ensures Sum(parts, c) == Get(CalendarDuration(counts), c) {
      CalendarCounters(counts, c);
    }
    AddsUpTo(parts, CalendarDuration(counts));
  }

  lemma CalendarFits(counts: seq<nat>)
    requires |counts| == |CALENDAR| && FitColumns(counts, CALENDAR)
    ensures forall c :: Get(CalendarDuration(counts), c) <= Limit(c)
  {
    assert Pow10(2) == 100 && Pow10(4) == 10000;
    forall i | 1 <= i < 6 ensures counts[i] < 100 {
      assert CALENDAR[i].1 == 2;
    }
  }

  // ---- Writing ----

  function Abs(n: int): (m: nat) {
    if n < 0 then -n else n
  }

  // A count of some counter broken down into units from the largest on
  function BreakDown(count: nat, units: seq<Unit>): (parts: Parts) {
    if units == [] then []
    else if count == 0 || count < Factor(units[0]) then BreakDown(count, units[1..])
    else [(count / Factor(units[0]), units[0])] + BreakDown(count % Factor(units[0]), units[1..])
  }

  const MONTH_UNITS := [Year, Month]
  const DAY_UNITS := [Day]
  const NANOSECOND_UNITS := [Hour, Minute, Second, Millisecond, Microsecond, Nanosecond]

  function PartsOf(d: Duration): (parts: Parts) {
    BreakDown(Abs(d.months), MONTH_UNITS) + BreakDown(Abs(d.days), DAY_UNITS)
    + BreakDown(Abs(d.nanoseconds), NANOSECOND_UNITS)
  }

  predicate AnyNegative(d: Duration) {
    d.months < 0 || d.days < 0 || d.nanoseconds < 0
  }

  function Printed(d: Duration): (s: string) {
    Signed(Format(PartsOf(d)), AnyNegative(d))
  }

  lemma {:induction false} SumConcat(a: Parts, b: Parts, c: Counter)
    ensures Sum(a + b, c) == Sum(a, c) + Sum(b, c)
    decreases |a|
  {
    if a == [] {
      assert a + b == b;
    } else {
      assert (a + b)[1..] == a[1..] + b;
      SumConcat(a[1..], b, c);
    }
  }

  predicate UnitsOf(units: seq<Unit>, c: Counter) {
    forall i :: 0 <= i < |units| ==> CounterOf(units[i]) == c
  }

  lemma SumCons(n: nat, u: Unit, rest: Parts, c: Counter)
    ensures Sum([(n, u)] + rest, c) == (if CounterOf(u) == c then n * Factor(u) else 0) + Sum(rest, c)
  {
    assert ([(n, u)] + rest)[1..] == rest;
  }

  // One unit takes its share and leaves the remainder
  lemma ShareOut(count: nat, u: Unit, rest: Parts, x: Counter)
    requires Sum(rest, x) == if x == CounterOf(u) then count % Factor(u) else 0
    ensures Sum([(count / Factor(u), u)] + rest, x) == if x == CounterOf(u) then count else 0
  {
    SumCons(count / Factor(u), u, rest, x);
    DivMod(count, Factor(u));
  }

  // Nothing is lost when the smallest unit counts one by one
  lemma {:induction false} BreakDownSum(count: nat, units: seq<Unit>, c: Counter, x: Counter)
    requires UnitsOf(units, c) && units != [] && Factor(units[|units| - 1]) == 1
    ensures Sum(BreakDown(count, units), x) == if x == c then count else 0
    decreases |units|
  {
    var u, rest := units[0], units[1..];
    if |units| == 1 {
      LastUnit(count, u, x);
      assert units == [u];
    } else if count == 0 || count < Factor(u) {
      BreakDownSum(count, rest, c, x);
    } else {
      BreakDownSum(count % Factor(u), rest, c, x);
      ShareOut(count, u, BreakDown(count % Factor(u), rest), x);
    }
  }

  lemma LastUnit(count: nat, u: Unit, x: Counter)
    requires Factor(u) == 1
    ensures BreakDown(count, [u]) == if count == 0 then [] else [(count, u)]
    ensures Sum(BreakDown(count, [u]), x) == if x == CounterOf(u) then count else 0
  {
    assert [u][1..] == [];
    if count > 0 {
      SumOne(count, u, x);
    }
  }

  // The parts are among the units
  lemma {:induction false} BreakDownParts(count: nat, units: seq<Unit>)
    ensures forall p :: p in BreakDown(count, units) ==> p.1 in units
    decreases |units|
  {
    if units != [] {
      BreakDownParts(count, units[1..]);
      BreakDownParts(count % Factor(units[0]), units[1..]);
    }
  }

  lemma {:induction false} BreakDownDecreasing(count: nat, units: seq<Unit>)
    requires DecreasingUnits(units)
    ensures Decreasing(BreakDown(count, units))
    decreases |units|
  {
    if units != [] {
      var f, rest := Factor(units[0]), units[1..];
      BreakDownDecreasing(count, rest);
      BreakDownDecreasing(count % f, rest);
      BreakDownParts(count % f, rest);
      forall p | p in BreakDown(count % f, rest) ensures Index(p.1) < Index(units[0]) {
        assert p.1 in rest;
      }
    }
  }

  lemma DecreasingConcat(a: Parts, b: Parts, mid: nat)
    requires Decreasing(a) && Decreasing(b)
    requires (forall p :: p in a ==> Index(p.1) >= mid) && (forall p :: p in b ==> Index(p.1) < mid)
    ensures Decreasing(a + b)
  {
    forall i, j | 0 <= i < j < |a + b| ensures Index((a + b)[i].1) > Index((a + b)[j].1) {
      if i < |a| <= j {
        assert a[i] in a && b[j - |a|] in b;
      }
    }
  }

  // The counters without their signs fit their types, which leaves out the smallest value of each
  predicate Representable(d: Duration) {
    Abs(d.months) <= MAX32 && Abs(d.days) <= MAX32 && Abs(d.nanoseconds) <= MAX64
  }

  lemma PartsOfSums(d: Duration, c: Counter)
    ensures Sum(PartsOf(d), c) == Abs(Get(d, c))
  {
    var m, y, n := BreakDown(Abs(d.months), MONTH_UNITS), BreakDown(Abs(d.days), DAY_UNITS),
                   BreakDown(Abs(d.nanoseconds), NANOSECOND_UNITS);
    BreakDownSum(Abs(d.months), MONTH_UNITS, Months, c);
    BreakDownSum(Abs(d.days), DAY_UNITS, Days, c);
    BreakDownSum(Abs(d.nanoseconds), NANOSECOND_UNITS, Nanoseconds, c);
    SumConcat(m + y, n, c);
    SumConcat(m, y, c);
  }

  lemma BreakDownWithin(count: nat, units: seq<Unit>, lo: nat, hi: nat)
    requires GoDown(units, lo, hi)
    ensures Decreasing(BreakDown(count, units)) && Within(BreakDown(count, units), lo, hi)
  {
    BreakDownParts(count, units);
    BreakDownDecreasing(count, units);
  }

  lemma PartsOfOrder(d: Duration)
    ensures Decreasing(PartsOf(d))
  {
    var m, y, n := BreakDown(Abs(d.months), MONTH_UNITS), BreakDown(Abs(d.days), DAY_UNITS),
                   BreakDown(Abs(d.nanoseconds), NANOSECOND_UNITS);
    BreakDownWithin(Abs(d.months), MONTH_UNITS, 8, 10);
    BreakDownWithin(Abs(d.days), DAY_UNITS, 6, 7);
    BreakDownWithin(Abs(d.nanoseconds), NANOSECOND_UNITS, 0, 6);
    DecreasingConcat(m, y, 8);
    DecreasingConcat(m + y, n, 6);
  }

  function Magnitude(d: Duration): (r: Duration) {
    Duration(Abs(d.months), Abs(d.days), Abs(d.nanoseconds))
  }

  // Reading back the parts gives the counters without their signs
  lemma PartsReadBack(d: Duration)
    requires Representable(d)
    ensures ParseFrom(Format(PartsOf(d)), NEW) == Ok(Magnitude(d))
  {
    var parts := PartsOf(d);
    PartsOfOrder(d);
    forall c ensures Sum(parts, c) == Get(Magnitude(d), c) <= Limit(c) {
      PartsOfSums(d, c);
    }
    AddsUpTo(parts, Magnitude(d));
    ParseFormatted(parts, NEW);
  }

  // Only zero has no parts
  lemma NoParts(d: Duration)
    ensures PartsOf(d) == [] <==> d == Duration(0, 0, 0)
  {
    if d == Duration(0, 0, 0) {
      ZeroHasNoParts(MONTH_UNITS);
      ZeroHasNoParts(DAY_UNITS);
      ZeroHasNoParts(NANOSECOND_UNITS);
    } else {
      PartsOfSums(d, Months);
      PartsOfSums(d, Days);
      PartsOfSums(d, Nanoseconds);
    }
  }

  // A printed duration reads back as itself exactly when it is not zero and its counters share a sign
  lemma PrintThenParse(d: Duration)
    requires Representable(d)
    ensures Parse(Printed(d)) == Ok(d) <==>
      && (d.months != 0 || d.days != 0 || d.nanoseconds != 0)
      && ((d.months >= 0 && d.days >= 0 && d.nanoseconds >= 0) || (d.months <= 0 && d.days <= 0 && d.nanoseconds <= 0))
  {
    var parts := PartsOf(d);
    FormatStart(parts);
    NoParts(d);
    PartsReadBack(d);
    ParseSigned(Format(parts), AnyNegative(d));
    SignsAgree(d, Parse(Printed(d)), Format(parts) == []);
  }

  lemma SignsAgree(d: Duration, r: Result<Duration>, zero: bool)
    requires zero <==> d == Duration(0, 0, 0)
    requires r == if zero then Error("syntax") else Ok(if AnyNegative(d) then Negated(Magnitude(d)) else Magnitude(d))
    ensures r == Ok(d) <==>
      && !zero
      && ((d.months >= 0 && d.days >= 0 && d.nanoseconds >= 0) || (d.months <= 0 && d.days <= 0 && d.nanoseconds <= 0))
  {
  }

  lemma {:induction false} ZeroHasNoParts(units: seq<Unit>)
    ensures BreakDown(0, units) == []
    decreases |units|
  {
    if units != [] {
      ZeroHasNoParts(units[1..]);
    }
  }

  // ---- As the program does it ----

  // The counts a format gives, added one after the other
  method Build(parts: Parts) returns (r: Result<Duration>)
    ensures r == AddAll(NEW, parts)
  {
    var b := new DurationBuilder();
    assert parts[0..] == parts;
    for i := 0 to |parts|
      invariant fresh(b) && InRange(b.duration) && AddAll(b.State(), parts[i..]) == AddAll(NEW, parts)
    {
      assert parts[i..][0] == parts[i] && parts[i..][1..] == parts[i + 1..];
      var added := b.AddParsedCount(parts[i].0, parts[i].1);
      if added.Error? {
        return Error(added.message);
      }
    }
    return Ok(b.duration);
  }

  method ToDuration(s: string) returns (r: Result<Duration>)
    ensures r == Parse(s)
  {
    var text := Unsigned(s);
    if text == [] {
      return Error("syntax");
    }
    if text[0] == 'P' {
      var parts := IsoParts(text);
      if parts.None? {
        return Error("syntax");
      }
      r := Build(parts.value);
    } else {
      r := ParseStandardFormat(text);
    }
    if r.Ok? && Negative(s) {
      r := Ok(Negated(r.value));
    }
  }

  // operator<<: each unit takes its share of what the larger ones left
  method Print(d: Duration) returns (out: string)
    requires Representable(d)
    ensures out == Printed(d)
  {
    out := if AnyNegative(d) then "-" else [];
    var m := PrintCounter(Abs(d.months), MONTH_UNITS);
    var y := PrintCounter(Abs(d.days), DAY_UNITS);
    var n := PrintCounter(Abs(d.nanoseconds), NANOSECOND_UNITS);
    FormatConcat(BreakDown(Abs(d.months), MONTH_UNITS) + BreakDown(Abs(d.days), DAY_UNITS),
                 BreakDown(Abs(d.nanoseconds), NANOSECOND_UNITS));
    FormatConcat(BreakDown(Abs(d.months), MONTH_UNITS), BreakDown(Abs(d.days), DAY_UNITS));
    out := out + (m + y + n);
  }

  method PrintCounter(count: nat, units: seq<Unit>) returns (out: string)
    ensures out == Format(BreakDown(count, units))
  {
    out := [];
    var remainder: nat := count;
    assert units[0..] == units;
    for i := 0 to |units|
      invariant out + Format(BreakDown(remainder, units[i..])) == Format(BreakDown(count, units))
    {
      var u := units[i];
      assert units[i..][1..] == units[i + 1..];
      if !(remainder == 0 || remainder < Factor(u)) {
        ghost var rest := BreakDown(remainder % Factor(u), units[i + 1..]);
        assert ([(remainder / Factor(u), u)] + rest)[1..] == rest;
        out := out + (Digits(remainder / Factor(u)) + ShortName(u));
        remainder := remainder % Factor(u);
      }
    }
  }

  lemma {:induction false} FormatConcat(a: Parts, b: Parts)
    ensures Format(a + b) == Format(a) + Format(b)
    decreases |a|
  {
    if a == [] {
      assert a + b == b;
    } else {
      assert (a + b)[1..] == a[1..] + b;
      FormatConcat(a[1..], b);
    }
  }
}
