/** Printed dates and times are read back: no earlier pattern captures the text differently. */
module DateRoundTrip {
  import opened Options
  import opened Decimal
  import opened Patterns
  import opened Calendar
  import opened DateText

  // ----- printing -----

  datatype DateForm = IsoExtended | IsoBasic | Slashes | Spanish | Rfc822(weekday: string)

  datatype DateTimeForm =
    | IsoExtendedTime(mark: char, offset: Option<Zone>)
    | IsoBasicTime
    | DayMonthYearTime(separator: char)
    | Rfc822Time(weekday: string, zone: string)

  /** An offset of hours and minutes from universal time. */
  datatype Zone = Zone(sign: char, hours: nat, minutes: nat)

  function Y(d: Date): (s: string)
    requires Valid(d)
    ensures |s| == 4 && AllDigits(s) && Int(s) == d.year
  {
    assert Pow10(1) == 10 && Pow10(2) == 100 && Pow10(3) == 1000 && Pow10(4) == 10000;
    ValueOfPad(d.year, 4);
    Pad(d.year, 4)
  }

  function Two(n: int): (s: string)
    requires 0 <= n < 100
    ensures |s| == 2 && AllDigits(s) && Int(s) == n
  {
    assert Pow10(1) == 10 && Pow10(2) == 100;
    ValueOfPad(n, 2);
    Pad(n, 2)
  }

  /** One or two digits. */
  function Short(n: int): (s: string)
    requires 0 <= n < 100
    ensures 1 <= |s| <= 2 && AllDigits(s) && Int(s) == n
  {
    ValueOfDigits(n);
    assert n >= 10 ==> |Digits(n / 10)| == 1;
    Digits(n)
  }

  function SpanishName(month: int): (s: string)
    requires 1 <= month <= 12
    ensures s != "" && AllIn(Letters, s)
  {
    ["enero", "febrero", "marzo", "abril", "mayo", "junio",
     "julio", "agosto", "septiembre", "octubre", "noviembre", "diciembre"][month - 1]
  }

  function EnglishName(month: int): (s: string)
    requires 1 <= month <= 12
    ensures s != "" && AllIn(Letters, s)
  {
    ["Jan", "Feb", "Mar", "Apr", "May", "Jun", "Jul", "Aug", "Sep", "Oct", "Nov", "Dec"][month - 1]
  }

  /** `a`, `x`, `b`, `y`, `rest` one after the other: the common shape of all texts. */
  function Joined(a: string, x: string, b: string, y: string, rest: string): string {
    a + (x + (b + (y + rest)))
  }

  function IsoText(d: Date, rest: string): string
    requires Valid(d)
  {
    Joined(Y(d), "-", Two(d.month), "-", Two(d.day) + rest)
  }

  function BasicText(d: Date, rest: string): string
    requires Valid(d)
  {
    Y(d) + (Two(d.month) + (Two(d.day) + rest))
  }

  /** Hour, minute and second fit into two digits each; they need not make a time of day. */
  predicate Printable(t: Time) {
    0 <= t.hour < 100 && 0 <= t.minute < 100 && 0 <= t.second < 100
  }

  function TimeText(t: Time, rest: string): string
    requires Printable(t)
  {
    Joined(Two(t.hour), ":", Two(t.minute), ":", Two(t.second) + rest)
  }

  function RfcText(d: Date, rest: string): string
    requires Valid(d)
  {
    Joined(Two(d.day), " ", EnglishName(d.month), " ", Y(d) + rest)
  }

  function ZoneText(zone: Option<Zone>): string
    requires zone.Some? ==> GoodZone(zone.value)
  {
    match zone
    case None => ""
    case Some(z) => [z.sign] + (Two(z.hours) + (":" + Two(z.minutes)))
  }

  function PrintDate(form: DateForm, d: Date): string
    requires Valid(d)
  {
    match form
    case IsoExtended => IsoText(d, "")
    case IsoBasic => BasicText(d, "")
    case Slashes => Joined(Short(d.day), "/", Short(d.month), "/", Y(d))
    case Spanish => Short(d.day) + (" de " + (SpanishName(d.month) + (" de " + Y(d))))
    case Rfc822(weekday) => weekday + ("," + (" " + RfcText(d, "")))
  }

  function PrintDateTime(form: DateTimeForm, d: Date, t: Time): string
    requires Valid(d) && Printable(t) && GoodTimeForm(form)
  {
    match form
    case IsoExtendedTime(mark, offset) => IsoText(d, [mark] + TimeText(t, ZoneText(offset)))
    case IsoBasicTime => BasicText(d, Two(t.hour) + (Two(t.minute) + Two(t.second)))
    case DayMonthYearTime(c) => Joined(Two(d.day), [c], Two(d.month), [c], Y(d) + (" " + TimeText(t, "")))
    case Rfc822Time(weekday, zone) => weekday + ("," + (" " + RfcText(d, " " + TimeText(t, AfterTime(zone)))))
  }

  /** A zone follows the time after a space; it may be missing. */
  function AfterTime(zone: string): string {
    if zone == "" then "" else " " + zone
  }

  /** A day of the week is abbreviated to three letters. */
  predicate GoodForm(form: DateForm) {
    form.Rfc822? ==> |form.weekday| == 3 && AllIn(Letters, form.weekday)
  }

  predicate GoodZone(z: Zone) {
    (z.sign == '+' || z.sign == '-') && z.hours < 100 && z.minutes < 100
  }

  predicate GoodTimeForm(form: DateTimeForm) {
    match form
    case IsoExtendedTime(mark, offset) => (mark == ' ' || mark == 'T') && (offset.Some? ==> GoodZone(offset.value))
    case IsoBasicTime => true
    case DayMonthYearTime(c) => c == '/' || c == '-'
    case Rfc822Time(weekday, zone) =>
      && |weekday| == 3 && AllIn(Letters, weekday)
      && AllIn(Dot, zone) && (zone != "" ==> !IsSpace(zone[|zone| - 1]))
  }

  /** The RFC 822 form without a zone. */
  predicate ZoneMissing(form: DateTimeForm) {
    form.Rfc822Time? && form.zone == ""
  }

  /** The time that is read: where the zone is missing, the last digit of the seconds is taken for it. */
  function TimeRead(form: DateTimeForm, t: Time): Time {
    if ZoneMissing(form) then Time(t.hour, t.minute, t.second / 10) else t
  }

  // ----- reading prefixes of known shape -----

  /** A digit run, a mark, a run of another class, a mark: four steps at once. */
  lemma FourSteps(r1: Run, r2: Run, r3: Run, r4: Run, tail: Runs,
      a: string, x: string, b: string, y: string, rest: string)
    requires var t4 := Then(r4, tail); var t3 := Then(r3, t4); var t2 := Then(r2, t3);
             && Rigid(r1, t2) && Rigid(r2, t3) && Rigid(r3, t4) && Rigid(r4, tail)
             && Takes(r1, a, x + (b + (y + rest))) && Takes(r2, x, b + (y + rest))
             && Takes(r3, b, y + rest) && Takes(r4, y, rest)
    ensures Match(Then(r1, Then(r2, Then(r3, Then(r4, tail)))), Joined(a, x, b, y, rest))
         == Prepend(r1.field, a, Prepend(r2.field, x, Prepend(r3.field, b, Prepend(r4.field, y, Match(tail, rest)))))
  {
    var t4 := Then(r4, tail);
    var t3 := Then(r3, t4);
    var t2 := Then(r2, t3);
    Step(r4, tail, y, rest);
    Step(r3, t4, b, y + rest);
    Step(r2, t3, x, b + (y + rest));
    Step(r1, t2, a, x + (b + (y + rest)));
  }

  /** The last piece of a text. */
  lemma LastStep(r: Run, a: string)
    requires Takes(r, a, "")
    ensures Match(Then(r, End), a) == Some(Capture(r.field, a, map[]))
  {
    Step(r, End, a, "");
    assert a + "" == a;
  }

  lemma OneChar(c: char, tail: Runs, rest: string)
    ensures Match(Char(c, tail), [c] + rest) == Match(tail, rest)
  {
    Step(Run(One(c), 1, Some(1), Anonymous), tail, [c], rest);
  }

  lemma {:induction false} LiteralText(s: string, tail: Runs, rest: string)
    ensures Match(Text(s, tail), s + rest) == Match(tail, rest)
  {
    if s == "" {
      assert s + rest == rest;
    } else {
      LiteralText(s[1..], tail, rest);
      OneChar(s[0], Text(s[1..], tail), s[1..] + rest);
      assert s + rest == [s[0]] + (s[1..] + rest);
    }
  }

  lemma IsoDateSteps(d: Date, tail: Runs, rest: string)
    requires Valid(d)
    ensures Match(IsoDate(tail), IsoText(d, rest))
         == Prepend(Year, Y(d), Prepend(Month, Two(d.month), Prepend(Day, Two(d.day), Match(tail, rest))))
  {
    var dash := Run(One('-'), 1, Some(1), Anonymous);
    var day := Run(Digits10, 2, Some(2), Day);
    Step(day, tail, Two(d.day), rest);
    FourSteps(Run(Digits10, 4, Some(4), Year), dash, Run(Digits10, 2, Some(2), Month), dash, Then(day, tail),
              Y(d), "-", Two(d.month), "-", Two(d.day) + rest);
  }

  lemma BasicDateSteps(d: Date, tail: Runs, rest: string)
    requires Valid(d)
    ensures Match(BasicDate(tail), BasicText(d, rest))
         == Prepend(Year, Y(d), Prepend(Month, Two(d.month), Prepend(Day, Two(d.day), Match(tail, rest))))
  {
    var day := Run(Digits10, 2, Some(2), Day);
    var month := Run(Digits10, 2, Some(2), Month);
    Step(day, tail, Two(d.day), rest);
    Step(month, Then(day, tail), Two(d.month), Two(d.day) + rest);
    Step(Run(Digits10, 4, Some(4), Year), Then(month, Then(day, tail)), Y(d), Two(d.month) + (Two(d.day) + rest));
  }

  lemma FixedTimeSteps(t: Time, tail: Runs, rest: string)
    requires Printable(t)
    ensures Match(FixedTime(tail), TimeText(t, rest))
         == Prepend(Hour, Two(t.hour), Prepend(Minute, Two(t.minute),
              Prepend(Second, Two(t.second), Match(tail, rest))))
  {
    var colon := Run(One(':'), 1, Some(1), Anonymous);
    var second := Run(Digits10, 2, Some(2), Second);
    Step(second, tail, Two(t.second), rest);
    FourSteps(Run(Digits10, 2, Some(2), Hour), colon, Run(Digits10, 2, Some(2), Minute), colon, Then(second, tail),
              Two(t.hour), ":", Two(t.minute), ":", Two(t.second) + rest);
  }

  /** Hour and minute of the loose time. */
  lemma ClockSteps(t: Time, tail: Runs, rest: string)
    requires Printable(t)
    ensures Match(LooseTime(tail), TimeText(t, rest))
         == Prepend(Hour, Two(t.hour), Prepend(Minute, Two(t.minute),
              Match(Many(Digits10, Second, tail), Two(t.second) + rest)))
  {
    var colon := Run(One(':'), 1, Some(1), Anonymous);
    FourSteps(Run(Digits10, 1, None, Hour), colon, Run(Digits10, 1, None, Minute), colon, Many(Digits10, Second, tail),
              Two(t.hour), ":", Two(t.minute), ":", Two(t.second) + rest);
  }

  /** The loose time needs its tail to match, or to be the end. */
  lemma LooseTimeSteps(t: Time, tail: Runs, rest: string)
    requires Printable(t) && Match(tail, rest).Some? && (rest == "" || !IsDigit(rest[0]))
    ensures Match(LooseTime(tail), TimeText(t, rest))
         == Prepend(Hour, Two(t.hour), Prepend(Minute, Two(t.minute),
              Prepend(Second, Two(t.second), Match(tail, rest))))
  {
    Greedy(Run(Digits10, 1, None, Second), tail, Two(t.second), rest);
    ClockSteps(t, tail, rest);
  }

  /** Day, separator, month, separator, as the first pattern reads them. */
  lemma DmySteps(day: string, x: char, month: string, y: char, rest: string)
    requires day != "" && AllDigits(day) && In(Seps, x) && month != "" && AllIn(Alnum, month) && In(Seps, y)
    ensures Match(Dmy(), Joined(day, [x], month, [y], rest))
         == Prepend(Day, day, Prepend(Month, month, Match(Exactly(Digits10, 4, Year, End), rest)))
  {
    FourSteps(Run(Digits10, 1, None, Day), Run(Seps, 1, None, Anonymous), Run(Alnum, 1, None, Month),
              Run(Seps, 1, Some(1), Anonymous), Exactly(Digits10, 4, Year, End), day, [x], month, [y], rest);
  }

  /** Day, space, word, space, as the RFC 822 patterns read them. */
  lemma RfcSteps(day: string, month: string, tail: Runs, rest: string)
    requires day != "" && AllDigits(day) && month != "" && AllIn(Word, month)
    ensures Match(Rfc822Date(tail), Joined(day, " ", month, " ", rest))
         == Prepend(Day, day, Prepend(Month, month, Match(Many(Digits10, Year, tail), rest)))
  {
    var space := Run(One(' '), 1, Some(1), Anonymous);
    FourSteps(Run(Digits10, 1, None, Day), space, Run(Word, 1, None, Month), space, Many(Digits10, Year, tail),
              day, " ", month, " ", rest);
  }

  lemma WeekdaySteps(weekday: string, tail: Runs, rest: string)
    requires |weekday| == 3 && AllIn(Letters, weekday)
    ensures Match(Weekday(tail), weekday + ("," + (" " + rest))) == Match(tail, rest)
  {
    OneChar(' ', tail, rest);
    OneChar(',', Char(' ', tail), " " + rest);
    Step(Run(Word, 3, Some(3), Anonymous), Char(',', Char(' ', tail)), weekday, "," + (" " + rest));
  }

  // ----- patterns that do not apply -----

  /** Patterns that start with a four-digit year do not match when a non-digit comes sooner. */
  lemma NoFourDigits(s: string, i: nat)
    requires i < 4 && (i >= |s| || !IsDigit(s[i]))
    ensures FirstOf(Parsers()[1], s).None? && FirstOf(Parsers()[2], s).None?
    ensures FirstOf(Parsers()[3], s).None? && FirstOf(Parsers()[4], s).None?
  {
    NoFourDigitsTimed(s, i);
    NoFourDigitsAlone(s, i);
    assert Parsers()[1] == [IsoDateTime(Offset()), IsoDateTime(End)] && Parsers()[2] == [BasicDateTime()];
    assert Parsers()[3] == [BasicDate(End)] && Parsers()[4] == [IsoDate(End)];
  }

  lemma NoFourDigitsTimed(s: string, i: nat)
    requires i < 4 && (i >= |s| || !IsDigit(s[i]))
    ensures FirstOf([IsoDateTime(Offset()), IsoDateTime(End)], s).None?
    ensures FirstOf([BasicDateTime()], s).None?
  {
    NoYear(IsoDateTime(Offset()), s, i);
    NoYear(IsoDateTime(End), s, i);
    NoYear(BasicDateTime(), s, i);
    TwoFail(IsoDateTime(Offset()), IsoDateTime(End), s);
    OneAlternative(BasicDateTime(), s);
  }

  lemma NoFourDigitsAlone(s: string, i: nat)
    requires i < 4 && (i >= |s| || !IsDigit(s[i]))
    ensures FirstOf([BasicDate(End)], s).None? && FirstOf([IsoDate(End)], s).None?
  {
    NoYear(BasicDate(End), s, i);
    NoYear(IsoDate(End), s, i);
    OneAlternative(BasicDate(End), s);
    OneAlternative(IsoDate(End), s);
  }

  lemma NoYear(runs: Runs, s: string, i: nat)
    requires i < 4 && (i >= |s| || !IsDigit(s[i]))
    requires runs.Then? && runs.head == Run(Digits10, 4, Some(4), Year)
    ensures Match(runs, s).None?
  {
    NoMatch(runs.head, runs.tail, s, i);
  }

  lemma TwoFail(first: Runs, second: Runs, s: string)
    requires Match(first, s).None? && Match(second, s).None?
    ensures FirstOf([first, second], s).None?
  {
    OneAlternative(second, s);
    assert [first, second][1..] == [second];
  }

  lemma SecondWins(first: Runs, second: Runs, s: string)
    requires Match(first, s).None?
    ensures FirstOf([first, second], s) == Match(second, s)
  {
    OneAlternative(second, s);
    assert [first, second][1..] == [second];
  }

  lemma OneAlternative(only: Runs, s: string)
    ensures FirstOf([only], s) == Match(only, s)
  {
    assert FirstOf([only][1..], s) == None;
  }

  /** A text whose fourth character or earlier is no word character has no weekday. */
  lemma NoWeekday(tail: Runs, s: string, i: nat)
    requires i < 3 && (i >= |s| || !In(Word, s[i]))
    ensures Match(Weekday(tail), s).None?
  {
    NoMatch(Run(Word, 3, Some(3), Anonymous), Char(',', Char(' ', tail)), s, i);
  }

  lemma StartsNoDay(tail: Runs, s: string)
    requires s == "" || !IsDigit(s[0])
    ensures Match(Many(Digits10, Day, tail), s).None?
  {
    NoMatch(Run(Digits10, 1, None, Day), tail, s, 0);
  }

  /** After the day comes a mark the pattern does not accept. */
  lemma WrongMark(day: string, c: char, tail: Runs, rest: string)
    requires day != "" && AllDigits(day) && rest != "" && rest[0] != c && !IsDigit(rest[0]) && !IsDigit(c)
    ensures Match(Many(Digits10, Day, Char(c, tail)), day + rest).None?
  {
    Step(Run(Digits10, 1, None, Day), Char(c, tail), day, rest);
    NoMatch(Run(One(c), 1, Some(1), Anonymous), tail, rest, 0);
  }

  lemma {:induction false} FirstMatchAt(patterns: seq<Pattern>, s: string, n: nat)
    requires n < |patterns| && FirstOf(patterns[n], s).Some?
    requires forall i :: 0 <= i < n ==> FirstOf(patterns[i], s).None?
    ensures FirstMatch(patterns, s) == FirstOf(patterns[n], s)
  {
    if n > 0 {
      assert forall i :: 0 <= i < n - 1 ==> patterns[1..][i] == patterns[i + 1];
      FirstMatchAt(patterns[1..], s, n - 1);
    }
  }

  lemma {:induction false} StripsNothing(s: string)
    requires s != "" && !IsSpace(s[0]) && !IsSpace(s[|s| - 1])
    ensures Strip(s) == s
  {
  }

  // ----- month names -----

  function SpanishUpper(month: int): string
    requires 1 <= month <= 12
  {
    ["ENERO", "FEBRERO", "MARZO", "ABRIL", "MAYO", "JUNIO",
     "JULIO", "AGOSTO", "SEPTIEMBRE", "OCTUBRE", "NOVIEMBRE", "DICIEMBRE"][month - 1]
  }

  lemma SpanishUpperIs(month: int)
    requires 1 <= month <= 12
    ensures Upper(SpanishName(month)) == SpanishUpper(month)
  {
  }

  lemma SpanishTable(month: int)
    requires 1 <= month <= 12
    ensures ReverseMonth(SpanishUpper(month)) == Some(month)
  {
  }

  lemma SpanishMonth(month: int)
    requires 1 <= month <= 12
    ensures MonthNumber(SpanishName(month)) == Some(month)
  {
    var name := SpanishName(month);
    assert In(Letters, name[0]);
    SpanishUpperIs(month);
    SpanishTable(month);
  }

  lemma EnglishMonth(month: int)
    requires 1 <= month <= 12
    ensures MonthNumber(EnglishName(month)) == Some(month)
  {
    var name := EnglishName(month);
    assert IsLetter(name[0]) && !IsDigit(name[0]);
    var upper := ["JAN", "FEB", "MAR", "APR", "MAY", "JUN", "JUL", "AUG", "SEP", "OCT", "NOV", "DEC"][month - 1];
    assert Upper(name) == upper;
  }

  // ----- reading the captures back -----

  /** A date read with its year widened. */
  function Widened(d: Date): Date {
    Date(if d.year <= 100 then d.year + 2000 else d.year, d.month, d.day)
  }

  /** Widening keeps a date on the calendar, 29 February included. */
  lemma WidenedIsValid(d: Date)
    requires Valid(d)
    ensures Valid(Widened(d))
  {
  }

  /** Captures that spell the parts of `d`. */
  ghost predicate Spells(found: Captures, d: Date) {
    && Int(Group(found, Year)) == d.year && Int(Group(found, Day)) == d.day
    && MonthNumber(Group(found, Month)) == Some(d.month)
  }

  lemma SpelledDate(found: Captures, d: Date)
    requires Valid(d) && Spells(found, d)
    ensures DateOf(found) == Ok(Widened(d))
  {
    WidenedIsValid(d);
  }

  // ----- which pattern reads which text -----

  /** `s` is read by the pattern at position `n`, as the captures `found`. */
  ghost predicate ReadAs(s: string, n: nat, found: Captures) {
    && n < |Parsers()| && FirstOf(Parsers()[n], s) == Some(found)
    && forall i :: 0 <= i < n ==> FirstOf(Parsers()[i], s).None?
  }

  lemma ReadIsFirst(s: string, n: nat, found: Captures)
    requires ReadAs(s, n, found)
    ensures FirstMatch(Parsers(), s) == Some(found)
  {
    FirstMatchAt(Parsers(), s, n);
  }

  /** The first pattern stops at a day of two digits. */
  lemma IsoIsNotDmy(d: Date, rest: string)
    requires Valid(d) && (rest == "" || !IsDigit(rest[0]))
    ensures FirstOf(Parsers()[0], IsoText(d, rest)).None?
  {
    var text := Two(d.day) + rest;
    NoMatch(Run(Digits10, 4, Some(4), Year), End, text, 2);
    DmySteps(Y(d), '-', Two(d.month), '-', text);
    OneAlternative(Dmy(), IsoText(d, rest));
  }

  /** A text of digits only has no separator for the first pattern. */
  lemma DigitsAreNotDmy(s: string)
    requires s != "" && AllDigits(s)
    ensures FirstOf(Parsers()[0], s).None? && FirstOf(Parsers()[1], s).None?
  {
    var tail := Dmy().tail;
    NoMatch(tail.head, tail.tail, "", 0);
    Step(Run(Digits10, 1, None, Day), tail, s, "");
    assert s + "" == s;
    OneAlternative(Dmy(), s);
    NotIso(s, IsoDateTime(Offset()).tail.tail);
    NotIso(s, IsoDateTime(End).tail.tail);
    TwoFail(IsoDateTime(Offset()), IsoDateTime(End), s);
  }

  lemma NotIso(s: string, tail: Runs)
    requires AllDigits(s)
    ensures Match(Exactly(Digits10, 4, Year, Char('-', tail)), s).None?
  {
    var year := Run(Digits10, 4, Some(4), Year);
    if |s| < 4 {
      NoMatch(year, Char('-', tail), s, |s|);
    } else {
      NoMatch(Run(One('-'), 1, Some(1), Anonymous), tail, s[4..], 0);
      Step(year, Char('-', tail), s[..4], s[4..]);
      assert s[..4] + s[4..] == s;
    }
  }

  lemma ReadIsoExtended(d: Date) returns (found: Captures)
    requires Valid(d)
    ensures ReadAs(IsoText(d, ""), 4, found) && Spells(found, d) && Hour !in found
  {
    found := map[Day := Two(d.day)][Month := Two(d.month)][Year := Y(d)];
    IsoIsNotTimed(d);
    IsoIsNotDmy(d, "");
    IsoDateSteps(d, End, "");
    OneAlternative(IsoDate(End), IsoText(d, ""));
  }

  lemma IsoIsNotTimed(d: Date)
    requires Valid(d)
    ensures var s := IsoText(d, "");
            FirstOf(Parsers()[1], s).None? && FirstOf(Parsers()[2], s).None? && FirstOf(Parsers()[3], s).None?
  {
    var s := IsoText(d, "");
    NotIsoDateTime(d, FixedTime(Offset()));
    NotIsoDateTime(d, FixedTime(End));
    TwoFail(IsoDateTime(Offset()), IsoDateTime(End), s);
    assert s[4] == '-';
    NotBasic(s, Exactly(Digits10, 2, Hour, Exactly(Digits10, 2, Minute, Exactly(Digits10, 2, Second, End))));
    NotBasic(s, End);
    OneAlternative(BasicDateTime(), s);
    OneAlternative(BasicDate(End), s);
  }

  lemma NotIsoDateTime(d: Date, tail: Runs)
    requires Valid(d)
    ensures Match(IsoDate(Exactly(SpaceT, 1, Anonymous, tail)), IsoText(d, "")).None?
  {
    NoMatch(Run(SpaceT, 1, Some(1), Anonymous), tail, "", 0);
    IsoDateSteps(d, Exactly(SpaceT, 1, Anonymous, tail), "");
  }

  /** The compact patterns need digits right after the year. */
  lemma NotBasic(s: string, tail: Runs)
    requires |s| > 4 && AllDigits(s[..4]) && !IsDigit(s[4])
    ensures Match(BasicDate(tail), s).None?
  {
    var month := Run(Digits10, 2, Some(2), Month);
    NoMatch(month, Exactly(Digits10, 2, Day, tail), s[4..], 0);
    Step(Run(Digits10, 4, Some(4), Year), Then(month, Exactly(Digits10, 2, Day, tail)), s[..4], s[4..]);
    assert s[..4] + s[4..] == s;
  }

  lemma ReadIsoBasic(d: Date) returns (found: Captures)
    requires Valid(d)
    ensures ReadAs(BasicText(d, ""), 3, found) && Spells(found, d) && Hour !in found
  {
    var s := BasicText(d, "");
    found := map[Day := Two(d.day)][Month := Two(d.month)][Year := Y(d)];
    DigitsAreNotDmy(s);
    var hour := Run(Digits10, 2, Some(2), Hour);
    NoMatch(hour, Exactly(Digits10, 2, Minute, Exactly(Digits10, 2, Second, End)), "", 0);
    BasicDateSteps(d, Then(hour, Exactly(Digits10, 2, Minute, Exactly(Digits10, 2, Second, End))), "");
    OneAlternative(BasicDateTime(), s);
    BasicDateSteps(d, End, "");
    OneAlternative(BasicDate(End), s);
  }

  lemma ReadSlashes(d: Date) returns (found: Captures)
    requires Valid(d)
    ensures ReadAs(PrintDate(Slashes, d), 0, found) && Spells(found, d) && Hour !in found
  {
    found := map[Year := Y(d)][Month := Short(d.month)][Day := Short(d.day)];
    MatchSlashes(Short(d.day), Short(d.month), Y(d));
    OneAlternative(Dmy(), PrintDate(Slashes, d));
  }

  lemma MatchSlashes(day: string, month: string, year: string)
    requires day != "" && AllDigits(day) && month != "" && AllDigits(month) && |year| == 4 && AllDigits(year)
    ensures Match(Dmy(), Joined(day, "/", month, "/", year)) == Some(map[Year := year][Month := month][Day := day])
  {
    LastStep(Run(Digits10, 4, Some(4), Year), year);
    DmySteps(day, '/', month, '/', year);
  }

  // The Spanish long form.

  lemma ReadSpanish(d: Date) returns (found: Captures)
    requires Valid(d)
    ensures ReadAs(PrintDate(Spanish, d), 7, found) && Spells(found, d) && Hour !in found
  {
    found := SpanishCaptures(d);
    SpanishSpells(d);
    ReadDeText(Short(d.day), SpanishName(d.month), Y(d));
  }

  /** A day, a word and a year joined by "de". */
  lemma ReadDeText(day: string, name: string, year: string)
    requires 1 <= |day| <= 2 && AllDigits(day) && name != "" && AllIn(Letters, name) && year != "" && AllDigits(year)
    ensures ReadAs(day + (" de " + (name + (" de " + year))), 7, map[Year := year][Month := name][Day := day])
  {
    var s := day + (" de " + (name + (" de " + year)));
    assert In(Letters, name[0]);
    DeSteps(day, name, year);
    OneAlternative(FechaCompleta(), s);
    SpanishIsNotEarlier(s, day, name + (" de " + year));
  }

  function SpanishCaptures(d: Date): Captures
    requires Valid(d)
  {
    map[Year := Y(d)][Month := SpanishName(d.month)][Day := Short(d.day)]
  }

  lemma SpanishSpells(d: Date)
    requires Valid(d)
    ensures Spells(SpanishCaptures(d), d) && Hour !in SpanishCaptures(d)
  {
    SpanishMonth(d.month);
  }

  /** A day and the word "de", not followed by a digit, are no business of the first seven patterns. */
  lemma SpanishIsNotEarlier(s: string, day: string, rest: string)
    requires s == day + (" de " + rest)
    requires 1 <= |day| <= 2 && AllDigits(day) && rest != "" && !IsDigit(rest[0])
    ensures forall i :: 0 <= i < 7 ==> FirstOf(Parsers()[i], s).None?
  {
    assert s == Joined(day, " ", "de", " ", rest) by {
      assert " de " + rest == " " + ("de" + (" " + rest));
    }
    NoMatch(Run(Digits10, 4, Some(4), Year), End, rest, 0);
    DmySteps(day, ' ', "de", ' ', rest);
    OneAlternative(Dmy(), s);
    assert s[|day|] == ' ';
    NoFourDigits(s, |day|);
    NotRfc(s, day, rest, Char(' ', LooseTime(Many(Dot, Anonymous, End))));
    NotRfc(s, day, rest, End);
    TwoFail(Weekday(Rfc822DateTime()), Rfc822DateTime(), s);
    TwoFail(Weekday(Rfc822Date(End)), Rfc822Date(End), s);
  }

  lemma NotRfc(s: string, day: string, rest: string, tail: Runs)
    requires s == Joined(day, " ", "de", " ", rest) && 1 <= |day| <= 2 && AllDigits(day)
    requires rest != "" && !IsDigit(rest[0])
    ensures Match(Weekday(Rfc822Date(tail)), s).None? && Match(Rfc822Date(tail), s).None?
  {
    NoWeekday(Rfc822Date(tail), s, |day|);
    NoMatch(Run(Digits10, 1, None, Year), tail, rest, 0);
    RfcSteps(day, "de", tail, rest);
  }

  /** A run followed by the word "de" between spaces. */
  lemma BeforeDe(r: Run, tail: Runs, a: string, rest: string)
    requires r.hi.None? && AllIn(r.cls, a) && r.lo <= |a| && !In(r.cls, ' ')
    ensures Match(Then(r, Text(" de ", tail)), a + (" de " + rest)) == Prepend(r.field, a, Match(tail, rest))
  {
    LiteralText(" de ", tail, rest);
    DeStartsWithSpace(tail, rest);
    StepBeforeSpace(r, Text(" de ", tail), a, " de " + rest);
  }

  lemma DeStartsWithSpace(tail: Runs, rest: string)
    ensures Text(" de ", tail).Then? && Text(" de ", tail).head == Run(One(' '), 1, Some(1), Anonymous)
    ensures " de " + rest != "" && (" de " + rest)[0] == ' '
  {
  }

  lemma StepBeforeSpace(r: Run, tail: Runs, a: string, rest: string)
    requires r.hi.None? && AllIn(r.cls, a) && r.lo <= |a| && !In(r.cls, ' ')
    requires tail.Then? && tail.head == Run(One(' '), 1, Some(1), Anonymous)
    requires rest != "" && rest[0] == ' '
    ensures Match(Then(r, tail), a + rest) == Prepend(r.field, a, Match(tail, rest))
  {
    Step(r, tail, a, rest);
  }

  lemma DeSteps(day: string, name: string, y: string)
    requires day != "" && AllDigits(day) && name != "" && AllIn(Letters, name) && y != "" && AllDigits(y)
    ensures Match(FechaCompleta(), day + (" de " + (name + (" de " + y))))
         == Some(map[Year := y][Month := name][Day := day])
  {
    var year := Many(Digits10, Year, End);
    var month := Many(Letters, Month, Text(" de ", year));
    LastStep(Run(Digits10, 1, None, Year), y);
    BeforeDe(Run(Letters, 1, None, Month), year, name, y);
    BeforeDe(Run(Digits10, 1, None, Day), month, day, name + (" de " + y));
  }

  // The form of section 5.1 of RFC 822.

  /** A text that starts with a letter is no business of the first five patterns. */
  lemma LetterFirst(s: string)
    requires s != "" && IsLetter(s[0])
    ensures forall i :: 0 <= i < 5 ==> FirstOf(Parsers()[i], s).None?
    ensures Match(Rfc822DateTime(), s).None? && Match(Rfc822Date(End), s).None?
  {
    StartsNoDay(Dmy().tail, s);
    OneAlternative(Dmy(), s);
    NoFourDigits(s, 0);
    StartsNoDay(Rfc822DateTime().tail, s);
    StartsNoDay(Rfc822Date(End).tail, s);
  }

  lemma ReadRfc822(weekday: string, d: Date) returns (found: Captures)
    requires Valid(d) && GoodForm(Rfc822(weekday))
    ensures ReadAs(PrintDate(Rfc822(weekday), d), 6, found) && Spells(found, d) && Hour !in found
  {
    var s := PrintDate(Rfc822(weekday), d);
    found := map[Year := Y(d)][Month := EnglishName(d.month)][Day := Two(d.day)];
    assert s[0] == weekday[0];
    LetterFirst(s);
    NoRfc822Time(weekday, d);
    RfcYear(d, End, "");
    WeekdaySteps(weekday, Rfc822Date(End), RfcText(d, ""));
    EnglishMonth(d.month);
  }

  /** The pattern with a time wants a space after the year. */
  lemma NoRfc822Time(weekday: string, d: Date)
    requires Valid(d) && GoodForm(Rfc822(weekday))
    ensures FirstOf(Parsers()[5], PrintDate(Rfc822(weekday), d)).None?
  {
    var s := PrintDate(Rfc822(weekday), d);
    assert s[0] == weekday[0];
    LetterFirst(s);
    var more := Char(' ', LooseTime(Many(Dot, Anonymous, End)));
    NoMatch(more.head, more.tail, "", 0);
    RfcYear(d, more, "");
    WeekdaySteps(weekday, Rfc822DateTime(), RfcText(d, ""));
    TwoFail(Weekday(Rfc822DateTime()), Rfc822DateTime(), s);
  }

  /** Day, month and year of the RFC 822 patterns. */
  lemma RfcYear(d: Date, tail: Runs, rest: string)
    requires Valid(d) && (rest == "" || !IsDigit(rest[0]))
    requires Rigid(Run(Digits10, 1, None, Year), tail)
    ensures Match(Rfc822Date(tail), RfcText(d, rest))
         == Prepend(Day, Two(d.day), Prepend(Month, EnglishName(d.month), Prepend(Year, Y(d), Match(tail, rest))))
  {
    YearStep(Y(d), tail, rest);
    RfcSteps(Two(d.day), EnglishName(d.month), tail, Y(d) + rest);
  }

  lemma YearStep(y: string, tail: Runs, rest: string)
    requires y != "" && AllDigits(y) && (rest == "" || !IsDigit(rest[0]))
    requires Rigid(Run(Digits10, 1, None, Year), tail)
    ensures Match(Many(Digits10, Year, tail), y + rest) == Prepend(Year, y, Match(tail, rest))
  {
    Step(Run(Digits10, 1, None, Year), tail, y, rest);
  }

  // ----- the same for dates with a time -----

  /** Captures that spell the parts of `t`. */
  ghost predicate SpellsTime(found: Captures, t: Time) {
    Hour in found && TimeOf(found) == t
  }

  function TimeCaptures(t: Time): Captures
    requires Printable(t)
  {
    map[Second := Two(t.second)][Minute := Two(t.minute)][Hour := Two(t.hour)]
  }

  function NumericCaptures(d: Date, t: Time): Captures
    requires Valid(d) && Printable(t)
  {
    TimeCaptures(t)[Day := Two(d.day)][Month := Two(d.month)][Year := Y(d)]
  }

  lemma NumericSpells(d: Date, t: Time)
    requires Valid(d) && Printable(t)
    ensures Spells(NumericCaptures(d, t), d) && SpellsTime(NumericCaptures(d, t), t)
    ensures TimeCaptures(t)[Year := Y(d)][Month := Two(d.month)][Day := Two(d.day)] == NumericCaptures(d, t)
  {
  }

  function Rfc822Captures(d: Date, t: Time, second: string): Captures
    requires Valid(d) && Printable(t)
  {
    map[Second := second][Minute := Two(t.minute)][Hour := Two(t.hour)]
       [Year := Y(d)][Month := EnglishName(d.month)][Day := Two(d.day)]
  }

  lemma Rfc822Spells(d: Date, t: Time, second: string)
    requires Valid(d) && Printable(t)
    ensures Spells(Rfc822Captures(d, t, second), d)
    ensures SpellsTime(Rfc822Captures(d, t, second), Time(t.hour, t.minute, Int(second)))
  {
    EnglishMonth(d.month);
  }

  lemma OffsetSteps(z: Zone)
    requires GoodZone(z)
    ensures Match(Offset(), ZoneText(Some(z))) == Some(map[])
  {
    var minutes := Exactly(Digits10, 2, Anonymous, End);
    LastStep(minutes.head, Two(z.minutes));
    OneChar(':', minutes, Two(z.minutes));
    var hours := Exactly(Digits10, 2, Anonymous, Char(':', minutes));
    Step(hours.head, hours.tail, Two(z.hours), ":" + Two(z.minutes));
    Step(Run(Sign, 1, Some(1), Anonymous), hours, [z.sign], Two(z.hours) + (":" + Two(z.minutes)));
  }

  lemma ReadIsoExtendedTime(mark: char, offset: Option<Zone>, d: Date, t: Time) returns (found: Captures)
    requires Valid(d) && Printable(t) && GoodTimeForm(IsoExtendedTime(mark, offset))
    ensures ReadAs(PrintDateTime(IsoExtendedTime(mark, offset), d, t), 1, found)
    ensures Spells(found, d) && SpellsTime(found, t)
  {
    found := NumericCaptures(d, t);
    NumericSpells(d, t);
    IsoIsNotDmy(d, [mark] + TimeText(t, ZoneText(offset)));
    MatchIsoExtendedTime(mark, offset, d, t);
  }

  lemma MatchIsoExtendedTime(mark: char, offset: Option<Zone>, d: Date, t: Time)
    requires Valid(d) && Printable(t) && GoodTimeForm(IsoExtendedTime(mark, offset))
    ensures FirstOf(Parsers()[1], IsoText(d, [mark] + TimeText(t, ZoneText(offset)))) == Some(NumericCaptures(d, t))
  {
    var s := IsoText(d, [mark] + TimeText(t, ZoneText(offset)));
    IsoTimeSteps(mark, d, t, Offset(), ZoneText(offset));
    match offset {
      case None =>
        NoMatch(Run(Sign, 1, Some(1), Anonymous), Offset().tail, "", 0);
        IsoTimeSteps(mark, d, t, End, "");
        SecondWins(IsoDateTime(Offset()), IsoDateTime(End), s);
      case Some(z) =>
        OffsetSteps(z);
        FirstWins(IsoDateTime(Offset()), IsoDateTime(End), s);
    }
    assert Parsers()[1] == [IsoDateTime(Offset()), IsoDateTime(End)];
  }

  lemma FirstWins(first: Runs, second: Runs, s: string)
    requires Match(first, s).Some?
    ensures FirstOf([first, second], s) == Match(first, s)
  {
  }

  lemma IsoTimeSteps(mark: char, d: Date, t: Time, tail: Runs, rest: string)
    requires Valid(d) && Printable(t) && (mark == ' ' || mark == 'T')
    ensures Match(IsoDateTime(tail), IsoText(d, [mark] + TimeText(t, rest)))
         == Prepend(Year, Y(d), Prepend(Month, Two(d.month), Prepend(Day, Two(d.day),
              Prepend(Hour, Two(t.hour), Prepend(Minute, Two(t.minute),
                Prepend(Second, Two(t.second), Match(tail, rest)))))))
  {
    FixedTimeSteps(t, tail, rest);
    MarkStep(mark, FixedTime(tail), TimeText(t, rest));
    IsoDateSteps(d, Exactly(SpaceT, 1, Anonymous, FixedTime(tail)), [mark] + TimeText(t, rest));
  }

  lemma MarkStep(mark: char, tail: Runs, rest: string)
    requires mark == ' ' || mark == 'T'
    ensures Match(Exactly(SpaceT, 1, Anonymous, tail), [mark] + rest) == Match(tail, rest)
  {
    Step(Run(SpaceT, 1, Some(1), Anonymous), tail, [mark], rest);
  }

  lemma ReadIsoBasicTime(d: Date, t: Time) returns (found: Captures)
    requires Valid(d) && Printable(t)
    ensures ReadAs(PrintDateTime(IsoBasicTime, d, t), 2, found)
    ensures Spells(found, d) && SpellsTime(found, t)
  {
    var s := PrintDateTime(IsoBasicTime, d, t);
    found := NumericCaptures(d, t);
    NumericSpells(d, t);
    DigitsAreNotDmy(s);
    MatchIsoBasicTime(d, t);
    OneAlternative(BasicDateTime(), s);
  }

  lemma MatchIsoBasicTime(d: Date, t: Time)
    requires Valid(d) && Printable(t)
    ensures Match(BasicDateTime(), PrintDateTime(IsoBasicTime, d, t)) == Some(NumericCaptures(d, t))
  {
    var second := Exactly(Digits10, 2, Second, End);
    var minute := Exactly(Digits10, 2, Minute, second);
    LastStep(second.head, Two(t.second));
    Step(minute.head, second, Two(t.minute), Two(t.second));
    Step(Run(Digits10, 2, Some(2), Hour), minute, Two(t.hour), Two(t.minute) + Two(t.second));
    BasicDateSteps(d, Exactly(Digits10, 2, Hour, minute), Two(t.hour) + (Two(t.minute) + Two(t.second)));
  }

  lemma ReadDayMonthYearTime(c: char, d: Date, t: Time) returns (found: Captures)
    requires Valid(d) && Printable(t) && (c == '/' || c == '-')
    ensures ReadAs(PrintDateTime(DayMonthYearTime(c), d, t), 9, found)
    ensures Spells(found, d) && SpellsTime(found, t)
  {
    found := NumericCaptures(d, t);
    NumericSpells(d, t);
    DayFirstIsRead(c, d, t);
  }

  lemma DayFirstIsRead(c: char, d: Date, t: Time)
    requires Valid(d) && Printable(t) && (c == '/' || c == '-')
    ensures ReadAs(PrintDateTime(DayMonthYearTime(c), d, t), 9,
                   TimeCaptures(t)[Year := Y(d)][Month := Two(d.month)][Day := Two(d.day)])
  {
    DayFirstIsNotEarlier(c, d, t);
    DdmmSteps(c, d, t);
    OneAlternative(Ddmm(4), PrintDateTime(DayMonthYearTime(c), d, t));
  }

  lemma DayFirstIsNotEarlier(c: char, d: Date, t: Time)
    requires Valid(d) && Printable(t) && (c == '/' || c == '-')
    ensures forall i :: 0 <= i < 9 ==> FirstOf(Parsers()[i], PrintDateTime(DayMonthYearTime(c), d, t)).None?
  {
    var s := PrintDateTime(DayMonthYearTime(c), d, t);
    var day, month, clock := Two(d.day), Two(d.month), " " + TimeText(t, "");
    Step(Run(Digits10, 4, Some(4), Year), End, Y(d), clock);
    DmySteps(day, c, month, c, Y(d) + clock);
    OneAlternative(Dmy(), s);
    assert s[2] == c;
    NoFourDigits(s, 2);
    DayMarkOnly(day, c, [c] + (month + ([c] + (Y(d) + clock))));
    NotFechaHora(day, c, month, Y(d), t);
  }

  /** A slash or a dash after the day rules out the patterns that want a space there. */
  lemma DayMarkOnly(day: string, c: char, rest: string)
    requires |day| == 2 && AllDigits(day) && (c == '/' || c == '-') && rest != "" && rest[0] == c
    ensures FirstOf(Parsers()[5], day + rest).None? && FirstOf(Parsers()[6], day + rest).None?
    ensures FirstOf(Parsers()[7], day + rest).None?
  {
    var s := day + rest;
    assert s[2] == c;
    NoWeekday(Rfc822DateTime(), s, 2);
    NoWeekday(Rfc822Date(End), s, 2);
    WrongMark(day, ' ', Rfc822DateTime().tail.tail, rest);
    WrongMark(day, ' ', Rfc822Date(End).tail.tail, rest);
    TwoFail(Weekday(Rfc822DateTime()), Rfc822DateTime(), s);
    TwoFail(Weekday(Rfc822Date(End)), Rfc822Date(End), s);
    var de := FechaCompleta().tail;
    assert de == Char(' ', de.tail);
    WrongMark(day, ' ', de.tail, rest);
    OneAlternative(FechaCompleta(), s);
  }

  /** That pattern wants more digits after the seconds. */
  lemma NotFechaHora(day: string, c: char, month: string, y: string, t: Time)
    requires Printable(t) && (c == '/' || c == '-') && y != "" && AllDigits(y)
    requires |day| == 2 && AllDigits(day) && |month| == 2 && AllDigits(month)
    ensures FirstOf(Parsers()[8], Joined(day, [c], month, [c], y + (" " + TimeText(t, "")))).None?
  {
    var more := Exactly(Dot, 1, Anonymous, Many(Digits10, Anonymous, End));
    var year := Many(Digits10, Year, Char(' ', FixedTime(more)));
    var rest := y + (" " + TimeText(t, ""));
    OneAlternative(FechaHora(), Joined(day, [c], month, [c], rest));
    if c == '/' {
      WrongMark(day, '-', Many(Digits10, Month, Char('-', year)), [c] + (month + ([c] + rest)));
    } else {
      NoMatch(more.head, more.tail, "", 0);
      FixedTimeSteps(t, more, "");
      OneChar(' ', FixedTime(more), TimeText(t, ""));
      YearStep(y, Char(' ', FixedTime(more)), " " + TimeText(t, ""));
      var dash := Run(One('-'), 1, Some(1), Anonymous);
      FourSteps(Run(Digits10, 1, None, Day), dash, Run(Digits10, 1, None, Month), dash, year,
                day, [c], month, [c], rest);
    }
  }

  lemma DdmmClock(t: Time)
    requires Printable(t)
    ensures Match(Char(' ', LooseTime(End)), " " + TimeText(t, "")) == Some(TimeCaptures(t))
  {
    LooseTimeSteps(t, End, "");
    OneChar(' ', LooseTime(End), TimeText(t, ""));
  }

  lemma DdmmYear(y: string, t: Time)
    requires Printable(t) && AllDigits(y)
    ensures Match(Exactly(Digits10, |y|, Year, Char(' ', LooseTime(End))), y + (" " + TimeText(t, "")))
         == Some(TimeCaptures(t)[Year := y])
  {
    DdmmClock(t);
    Step(Run(Digits10, |y|, Some(|y|), Year), Char(' ', LooseTime(End)), y, " " + TimeText(t, ""));
  }

  lemma DdmmDate(c: char, day: string, month: string, width: nat, rest: string, found: Captures)
    requires c == '/' || c == '-'
    requires |day| == 2 && AllDigits(day) && |month| == 2 && AllDigits(month)
    requires Match(Exactly(Digits10, width, Year, Char(' ', LooseTime(End))), rest) == Some(found)
    ensures Match(Ddmm(width), Joined(day, [c], month, [c], rest)) == Some(found[Month := month][Day := day])
  {
    var mark := Run(SlashDash, 1, Some(1), Anonymous);
    FourSteps(Run(Digits10, 1, Some(2), Day), mark, Run(Digits10, 1, Some(2), Month), mark,
              Exactly(Digits10, width, Year, Char(' ', LooseTime(End))), day, [c], month, [c], rest);
  }

  lemma DdmmSteps(c: char, d: Date, t: Time)
    requires Valid(d) && Printable(t) && (c == '/' || c == '-')
    ensures Match(Ddmm(4), PrintDateTime(DayMonthYearTime(c), d, t))
         == Some(TimeCaptures(t)[Year := Y(d)][Month := Two(d.month)][Day := Two(d.day)])
  {
    DdmmYear(Y(d), t);
    DdmmDate(c, Two(d.day), Two(d.month), 4, Y(d) + (" " + TimeText(t, "")), TimeCaptures(t)[Year := Y(d)]);
  }

  /** The digits that the RFC 822 pattern leaves to the seconds. */
  function SecondRead(t: Time, zone: string): string
    requires Printable(t)
  {
    if zone == "" then Two(t.second)[..1] else Two(t.second)
  }

  lemma ReadRfc822Time(weekday: string, zone: string, d: Date, t: Time) returns (found: Captures)
    requires Valid(d) && Printable(t) && GoodTimeForm(Rfc822Time(weekday, zone))
    ensures ReadAs(PrintDateTime(Rfc822Time(weekday, zone), d, t), 5, found)
    ensures Spells(found, d) && SpellsTime(found, TimeRead(Rfc822Time(weekday, zone), t))
  {
    var second := SecondRead(t, zone);
    found := Rfc822Captures(d, t, second);
    Rfc822Spells(d, t, second);
    TensDigit(t.second);
    Rfc822TimeIsRead(weekday, zone, d, t);
  }

  lemma Rfc822TimeIsRead(weekday: string, zone: string, d: Date, t: Time)
    requires Valid(d) && Printable(t) && GoodTimeForm(Rfc822Time(weekday, zone))
    ensures ReadAs(PrintDateTime(Rfc822Time(weekday, zone), d, t), 5, Rfc822Captures(d, t, SecondRead(t, zone)))
  {
    var s := PrintDateTime(Rfc822Time(weekday, zone), d, t);
    assert s[0] == weekday[0];
    LetterFirst(s);
    MatchRfc822Time(zone, d, t);
    WeekdaySteps(weekday, Rfc822DateTime(), RfcText(d, " " + TimeText(t, AfterTime(zone))));
  }

  lemma MatchRfc822Time(zone: string, d: Date, t: Time)
    requires Valid(d) && Printable(t) && AllIn(Dot, zone)
    ensures Match(Rfc822DateTime(), RfcText(d, " " + TimeText(t, AfterTime(zone))))
         == Some(Rfc822Captures(d, t, SecondRead(t, zone)))
  {
    var more := Many(Dot, Anonymous, End);
    var text := TimeText(t, AfterTime(zone));
    MatchRfc822Clock(t, zone);
    OneChar(' ', LooseTime(more), text);
    RfcYear(d, Char(' ', LooseTime(more)), " " + text);
  }

  /** The loose time of that pattern, which wants one more character after the seconds. */
  lemma MatchRfc822Clock(t: Time, zone: string)
    requires Printable(t) && AllIn(Dot, zone)
    ensures Match(LooseTime(Many(Dot, Anonymous, End)), TimeText(t, AfterTime(zone)))
         == Some(map[Second := SecondRead(t, zone)][Minute := Two(t.minute)][Hour := Two(t.hour)])
  {
    var more := Many(Dot, Anonymous, End);
    if zone == "" {
      CutSecond(Two(t.second));
      assert Two(t.second) + "" == Two(t.second);
      ClockSteps(t, more, "");
    } else {
      LastStep(more.head, " " + zone);
      LooseTimeSteps(t, more, " " + zone);
    }
  }

  /** Two digits that must leave a character to the rest leave their second one. */
  lemma CutSecond(s: string)
    requires |s| == 2 && AllDigits(s)
    ensures Match(Many(Digits10, Second, Many(Dot, Anonymous, End)), s) == Some(map[Second := s[..1]])
  {
    var more := Many(Dot, Anonymous, End);
    NoMatch(more.head, End, "", 0);
    LastStep(more.head, s[1..]);
    PrefixIs(Digits10, s, "", 2);
    assert s + "" == s && s[2..] == "";
  }

  lemma TensDigit(n: int)
    requires 0 <= n < 100
    ensures AllDigits(Two(n)[..1]) && Int(Two(n)[..1]) == n / 10
  {
    var s := Pad(n / 10, 1);
    assert Pow10(1) == 10;
    ValueOfPad(n / 10, 1);
    assert Two(n) == Pad(n / 10, 1) + [Digit(n % 10)];
    assert Two(n)[..1] == s;
  }

  // ----- the round trips -----

  lemma ReadDate(form: DateForm, d: Date) returns (n: nat, found: Captures)
    requires Valid(d) && GoodForm(form)
    ensures ReadAs(PrintDate(form, d), n, found) && Spells(found, d) && Hour !in found
  {
    match form {
      case IsoExtended => n := 4; found := ReadIsoExtended(d);
      case IsoBasic => n := 3; found := ReadIsoBasic(d);
      case Slashes => n := 0; found := ReadSlashes(d);
      case Spanish => n := 7; found := ReadSpanish(d);
      case Rfc822(weekday) => n := 6; found := ReadRfc822(weekday, d);
    }
  }

  predicate EndsDark(s: string) {
    s != "" && !IsSpace(s[|s| - 1])
  }

  predicate StartsDark(s: string) {
    s != "" && !IsSpace(s[0])
  }

  lemma AppendEnds(a: string, b: string)
    requires EndsDark(b)
    ensures EndsDark(a + b)
  {
  }

  lemma JoinedEnds(a: string, x: string, b: string, y: string, rest: string)
    requires StartsDark(a) && EndsDark(rest)
    ensures StartsDark(Joined(a, x, b, y, rest)) && EndsDark(Joined(a, x, b, y, rest))
  {
    AppendEnds(y, rest);
    AppendEnds(b, y + rest);
    AppendEnds(x, b + (y + rest));
    AppendEnds(a, x + (b + (y + rest)));
  }

  lemma DigitsAreDark(s: string)
    requires s != "" && AllDigits(s)
    ensures StartsDark(s) && EndsDark(s)
  {
  }

  lemma LettersAreDark(s: string)
    requires s != "" && AllIn(Letters, s)
    ensures StartsDark(s)
  {
  }

  lemma DateTextIsTight(form: DateForm, d: Date)
    requires Valid(d) && GoodForm(form)
    ensures Strip(PrintDate(form, d)) == PrintDate(form, d) != ""
  {
    DigitsAreDark(Y(d));
    DigitsAreDark(Two(d.day));
    DigitsAreDark(Short(d.day));
    match form {
      case IsoExtended =>
        assert Two(d.day) + "" == Two(d.day);
        JoinedEnds(Y(d), "-", Two(d.month), "-", Two(d.day) + "");
      case IsoBasic =>
        assert Two(d.day) + "" == Two(d.day);
        AppendEnds(Two(d.month), Two(d.day));
        AppendEnds(Y(d), Two(d.month) + Two(d.day));
      case Slashes =>
        JoinedEnds(Short(d.day), "/", Short(d.month), "/", Y(d));
      case Spanish =>
        AppendEnds(" de ", Y(d));
        AppendEnds(SpanishName(d.month), " de " + Y(d));
        AppendEnds(" de ", SpanishName(d.month) + (" de " + Y(d)));
        AppendEnds(Short(d.day), " de " + (SpanishName(d.month) + (" de " + Y(d))));
      case Rfc822(weekday) =>
        assert Y(d) + "" == Y(d);
        JoinedEnds(Two(d.day), " ", EnglishName(d.month), " ", Y(d) + "");
        WeekdayEnds(weekday, RfcText(d, ""));
    }
    StripsNothing(PrintDate(form, d));
  }

  lemma WeekdayEnds(weekday: string, rest: string)
    requires |weekday| == 3 && AllIn(Letters, weekday) && EndsDark(rest)
    ensures StartsDark(weekday + ("," + (" " + rest))) && EndsDark(weekday + ("," + (" " + rest)))
  {
    LettersAreDark(weekday);
    AppendEnds(" ", rest);
    AppendEnds(",", " " + rest);
    AppendEnds(weekday, "," + (" " + rest));
  }

  /**
   Printing a date in any of the forms and parsing it returns the date with its
   year widened: the date itself exactly when its year is over 100.
   */
  lemma DateRoundTrips(form: DateForm, d: Date)
    requires Valid(d) && GoodForm(form)
    ensures ParseDate(PrintDate(form, d)) == Ok(Widened(d))
    ensures ParseDate(PrintDate(form, d)) == Ok(d) <==> d.year > 100
  {
    var n, found := ReadDate(form, d);
    DateTextIsTight(form, d);
    ReadIsFirst(PrintDate(form, d), n, found);
    SpelledDate(found, d);
  }

  lemma ReadDateTime(form: DateTimeForm, d: Date, t: Time) returns (n: nat, found: Captures)
    requires Valid(d) && Printable(t) && GoodTimeForm(form)
    ensures ReadAs(PrintDateTime(form, d, t), n, found)
    ensures Spells(found, d) && SpellsTime(found, TimeRead(form, t))
  {
    match form {
      case IsoExtendedTime(mark, offset) => n := 1; found := ReadIsoExtendedTime(mark, offset, d, t);
      case IsoBasicTime => n := 2; found := ReadIsoBasicTime(d, t);
      case DayMonthYearTime(c) => n := 9; found := ReadDayMonthYearTime(c, d, t);
      case Rfc822Time(weekday, zone) => n := 5; found := ReadRfc822Time(weekday, zone, d, t);
    }
  }

  lemma TimeEnds(t: Time, rest: string)
    requires Printable(t) && (rest == "" || EndsDark(rest))
    ensures EndsDark(TimeText(t, rest))
  {
    DigitsAreDark(Two(t.hour));
    DigitsAreDark(Two(t.second));
    if rest == "" {
      assert Two(t.second) + rest == Two(t.second);
    } else {
      AppendEnds(Two(t.second), rest);
    }
    JoinedEnds(Two(t.hour), ":", Two(t.minute), ":", Two(t.second) + rest);
  }

  lemma ZoneEnds(z: Zone)
    requires GoodZone(z)
    ensures EndsDark(ZoneText(Some(z)))
  {
    DigitsAreDark(Two(z.minutes));
    AppendEnds(":", Two(z.minutes));
    AppendEnds(Two(z.hours), ":" + Two(z.minutes));
    AppendEnds([z.sign], Two(z.hours) + (":" + Two(z.minutes)));
  }

  lemma DateTimeTextIsTight(form: DateTimeForm, d: Date, t: Time)
    requires Valid(d) && Printable(t) && GoodTimeForm(form)
    ensures Strip(PrintDateTime(form, d, t)) == PrintDateTime(form, d, t) != ""
  {
    match form {
      case IsoExtendedTime(mark, offset) => IsoTimeEnds(mark, offset, d, t);
      case IsoBasicTime => BasicTimeEnds(d, t);
      case DayMonthYearTime(c) => DayFirstEnds(c, d, t);
      case Rfc822Time(weekday, zone) => Rfc822TimeEnds(weekday, zone, d, t);
    }
    StripsNothing(PrintDateTime(form, d, t));
  }

  lemma IsoTimeEnds(mark: char, offset: Option<Zone>, d: Date, t: Time)
    requires Valid(d) && Printable(t) && GoodTimeForm(IsoExtendedTime(mark, offset))
    ensures var s := PrintDateTime(IsoExtendedTime(mark, offset), d, t); StartsDark(s) && EndsDark(s)
  {
    var clock := TimeText(t, ZoneText(offset));
    if offset.Some? { ZoneEnds(offset.value); }
    TimeEnds(t, ZoneText(offset));
    AppendEnds([mark], clock);
    AppendEnds(Two(d.day), [mark] + clock);
    DigitsAreDark(Y(d));
    JoinedEnds(Y(d), "-", Two(d.month), "-", Two(d.day) + ([mark] + clock));
  }

  lemma DayFirstEnds(c: char, d: Date, t: Time)
    requires Valid(d) && Printable(t) && (c == '/' || c == '-')
    ensures var s := PrintDateTime(DayMonthYearTime(c), d, t); StartsDark(s) && EndsDark(s)
  {
    TimeEnds(t, "");
    AppendEnds(" ", TimeText(t, ""));
    AppendEnds(Y(d), " " + TimeText(t, ""));
    DigitsAreDark(Two(d.day));
    JoinedEnds(Two(d.day), [c], Two(d.month), [c], Y(d) + (" " + TimeText(t, "")));
  }

  lemma Rfc822TimeEnds(weekday: string, zone: string, d: Date, t: Time)
    requires Valid(d) && Printable(t) && GoodTimeForm(Rfc822Time(weekday, zone))
    ensures var s := PrintDateTime(Rfc822Time(weekday, zone), d, t); StartsDark(s) && EndsDark(s)
  {
    var clock := TimeText(t, AfterTime(zone));
    if zone != "" { AppendEnds(" ", zone); }
    TimeEnds(t, AfterTime(zone));
    AppendEnds(" ", clock);
    AppendEnds(Y(d), " " + clock);
    DigitsAreDark(Two(d.day));
    JoinedEnds(Two(d.day), " ", EnglishName(d.month), " ", Y(d) + (" " + clock));
    WeekdayEnds(weekday, RfcText(d, " " + clock));
  }

  lemma BasicTimeEnds(d: Date, t: Time)
    requires Valid(d) && Printable(t)
    ensures StartsDark(PrintDateTime(IsoBasicTime, d, t)) && EndsDark(PrintDateTime(IsoBasicTime, d, t))
  {
    var s := PrintDateTime(IsoBasicTime, d, t);
    assert AllDigits(s) && s != "";
    DigitsAreDark(s);
  }

  /**
   The same for a date with a time: a printed offset or zone is dropped, the date is
   widened, and the time comes back unchanged, except that the RFC 822 form without a
   zone loses the last digit of its seconds.  So the text is read back as printed
   exactly when the year is over 100 and there is a zone, or there are no seconds.
   */
  lemma DateTimeRoundTrips(form: DateTimeForm, d: Date, t: Time)
    requires Valid(d) && ValidTime(t) && GoodTimeForm(form)
    ensures ParseDateTime(PrintDateTime(form, d, t)) == Ok(DateTime(Widened(d), TimeRead(form, t)))
    ensures ParseDateTime(PrintDateTime(form, d, t)) == Ok(DateTime(d, t))
            <==> d.year > 100 && (ZoneMissing(form) ==> t.second == 0)
  {
    DateTimeIsRead(form, d, t);
  }

  /** From midnight to the last second of the day. */
  predicate TimeOfDay(t: Time) {
    0 <= t.hour <= 23 && 0 <= t.minute <= 59 && 0 <= t.second <= 59
  }

  /** Any two digits may be printed for hour, minute and second; what is no time of day is refused. */
  lemma DateTimeIsRead(form: DateTimeForm, d: Date, t: Time)
    requires Valid(d) && Printable(t) && GoodTimeForm(form)
    ensures ParseDateTime(PrintDateTime(form, d, t))
         == if TimeOfDay(TimeRead(form, t)) then Ok(DateTime(Widened(d), TimeRead(form, t))) else Impossible
  {
    var n, found := ReadDateTime(form, d, t);
    DateTimeTextIsTight(form, d, t);
    ReadIsFirst(PrintDateTime(form, d, t), n, found);
    SpelledDate(found, d);
  }

  lemma TwoText(n: int)
    requires 0 <= n < 100
    ensures Two(n) == [Digit(n / 10), Digit(n % 10)]
  {
    assert Pad(n / 10, 1) == Pad(n / 10 / 10, 0) + [Digit(n / 10)];
  }

  lemma YearText(d: Date)
    requires Valid(d)
    ensures Y(d) == Two(d.year / 100) + Two(d.year % 100)
  {
    PadTwice(d.year, 2);
    TwoText(d.year % 100);
    LastDigits(d.year);
  }

  lemma LastDigits(n: nat)
    ensures n % 100 / 10 == n / 10 % 10 && n % 100 % 10 == n % 10 && n / 10 / 10 == n / 100
  {
    var a, b, c := n / 10 / 10, n / 10 % 10, n % 10;
    assert n == 100 * a + (10 * b + c);
    assert n % 100 == 10 * b + c && n / 100 == a;
  }

  lemma PadTwice(n: nat, width: nat)
    ensures Pad(n, width + 2) == Pad(n / 100, width) + [Digit(n / 10 % 10), Digit(n % 10)]
  {
    LastDigits(n);
    assert Pad(n, width + 2) == Pad(n / 10, width + 1) + [Digit(n % 10)];
    assert Pad(n / 10, width + 1) == Pad(n / 10 / 10, width) + [Digit(n / 10 % 10)];
  }

  lemma ClockText(t: Time)
    requires t == Time(10, 20, 30)
    ensures TimeText(t, AfterTime("")) == "10:20:30"
  {
    TwoText(t.hour);
    TwoText(t.minute);
    TwoText(t.second);
  }

  lemma MarchDigits(d: Date)
    requires d == Date(2018, 3, 5)
    ensures Two(d.day) == "05" && Y(d) == "2018" && EnglishName(d.month) == "Mar"
  {
    TwoText(d.day);
    TwoText(d.year / 100);
    TwoText(d.year % 100);
    YearText(d);
  }

  lemma MarchPieces(day: string, month: string, year: string, rest: string)
    requires day == "05" && month == "Mar" && year == "2018"
    ensures Joined(day, " ", month, " ", year + rest) == "05 Mar 2018" + rest
  {
    var date := "05 Mar 2018";
    assert date == day + " " + month + " " + year;
    assert Joined(day, " ", month, " ", year + rest) == (day + " " + month + " " + year) + rest;
  }

  lemma MarchDate(d: Date, rest: string)
    requires d == Date(2018, 3, 5)
    ensures RfcText(d, rest) == "05 Mar 2018" + rest
  {
    MarchDigits(d);
    MarchPieces(Two(d.day), EnglishName(d.month), Y(d), rest);
  }

  lemma MonIsWord(weekday: string)
    requires weekday == "Mon"
    ensures AllIn(Letters, weekday)
  {
  }

  lemma ZonelessText(weekday: string, d: Date, t: Time)
    requires Valid(d) && Printable(t) && GoodTimeForm(Rfc822Time(weekday, ""))
    ensures PrintDateTime(Rfc822Time(weekday, ""), d, t)
         == weekday + ("," + (" " + RfcText(d, " " + TimeText(t, AfterTime("")))))
  {
  }

  lemma MarchText(weekday: string, d: Date, t: Time)
    requires weekday == "Mon" && d == Date(2018, 3, 5) && t == Time(10, 20, 30)
    ensures AllIn(Letters, weekday)
    ensures PrintDateTime(Rfc822Time(weekday, ""), d, t) == "Mon, 05 Mar 2018 10:20:30"
  {
    MonIsWord(weekday);
    ZonelessText(weekday, d, t);
    ClockText(t);
    MarchDate(d, " " + TimeText(t, AfterTime("")));
    Pieces(weekday, RfcText(d, " " + TimeText(t, AfterTime(""))), TimeText(t, AfterTime("")));
  }

  lemma Pieces(weekday: string, date: string, clock: string)
    requires weekday == "Mon" && date == "05 Mar 2018" + (" " + clock) && clock == "10:20:30"
    ensures weekday + ("," + (" " + date)) == "Mon, 05 Mar 2018 10:20:30"
  {
  }

  /** Half a minute past 10:20, without a zone, is read as three seconds past. */
  lemma SecondsAreCut(weekday: string, d: Date, t: Time) returns (text: string)
    requires weekday == "Mon" && d == Date(2018, 3, 5) && t == Time(10, 20, 30)
    ensures ParseDateTime(text) == Ok(DateTime(d, Time(10, 20, 3)))
    ensures text == "Mon, 05 Mar 2018 10:20:30"
  {
    text := PrintDateTime(Rfc822Time(weekday, ""), d, t);
    ZonelessIsRead(weekday, d, t, text);
    MarchText(weekday, d, t);
  }

  lemma ZonelessIsRead(weekday: string, d: Date, t: Time, text: string)
    requires Valid(d) && ValidTime(t) && |weekday| == 3 && AllIn(Letters, weekday) && d.year > 100
    requires text == PrintDateTime(Rfc822Time(weekday, ""), d, t)
    ensures ParseDateTime(text) == Ok(DateTime(d, Time(t.hour, t.minute, t.second / 10)))
  {
    DateTimeRoundTrips(Rfc822Time(weekday, ""), d, t);
  }

  /** A date printed without a time is read by the other parser as midnight. */
  lemma DateReadsAsMidnight(form: DateForm, d: Date)
    requires Valid(d) && GoodForm(form)
    ensures ParseDateTime(PrintDate(form, d)) == Ok(DateTime(Widened(d), Time(0, 0, 0)))
  {
    var n, found := ReadDate(form, d);
    DateTextIsTight(form, d);
    ReadIsFirst(PrintDate(form, d), n, found);
    SpelledDate(found, d);
  }
}
