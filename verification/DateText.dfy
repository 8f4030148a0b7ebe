/** Reading dates and times from text: the ordered list of patterns and the two parsers. */
module DateText {
  import opened Options
  import opened Decimal
  import opened Patterns
  import opened Calendar

  // ----- building patterns -----

  function Many(cls: Class, field: Field, tail: Runs): Runs {
    Then(Run(cls, 1, None, field), tail)
  }

  function Exactly(cls: Class, n: nat, field: Field, tail: Runs): Runs {
    Then(Run(cls, n, Some(n), field), tail)
  }

  function OneOrTwo(cls: Class, field: Field, tail: Runs): Runs {
    Then(Run(cls, 1, Some(2), field), tail)
  }

  function Char(c: char, tail: Runs): Runs {
    Exactly(One(c), 1, Anonymous, tail)
  }

  function Text(s: string, tail: Runs): Runs {
    if s == "" then tail else Char(s[0], Text(s[1..], tail))
  }

  /** A pattern is a list of alternatives, tried in order: an optional group is present, then absent. */
  type Pattern = seq<Runs>

  function Dmy(): Runs {
    Many(Digits10, Day, Many(Seps, Anonymous, Many(Alnum, Month,
      Exactly(Seps, 1, Anonymous, Exactly(Digits10, 4, Year, End)))))
  }

  function IsoDate(tail: Runs): Runs {
    Exactly(Digits10, 4, Year, Char('-', Exactly(Digits10, 2, Month, Char('-', Exactly(Digits10, 2, Day, tail)))))
  }

  function FixedTime(tail: Runs): Runs {
    Exactly(Digits10, 2, Hour, Char(':', Exactly(Digits10, 2, Minute, Char(':', Exactly(Digits10, 2, Second, tail)))))
  }

  function Offset(): Runs {
    Exactly(Sign, 1, Anonymous, Exactly(Digits10, 2, Anonymous, Char(':', Exactly(Digits10, 2, Anonymous, End))))
  }

  function IsoDateTime(tail: Runs): Runs {
    IsoDate(Exactly(SpaceT, 1, Anonymous, FixedTime(tail)))
  }

  function BasicDate(tail: Runs): Runs {
    Exactly(Digits10, 4, Year, Exactly(Digits10, 2, Month, Exactly(Digits10, 2, Day, tail)))
  }

  function BasicDateTime(): Runs {
    BasicDate(Exactly(Digits10, 2, Hour, Exactly(Digits10, 2, Minute, Exactly(Digits10, 2, Second, End))))
  }

  function Weekday(tail: Runs): Runs {
    Exactly(Word, 3, Anonymous, Char(',', Char(' ', tail)))
  }

  function Rfc822Date(tail: Runs): Runs {
    Many(Digits10, Day, Char(' ', Many(Word, Month, Char(' ', Many(Digits10, Year, tail)))))
  }

  function LooseTime(tail: Runs): Runs {
    Many(Digits10, Hour, Char(':', Many(Digits10, Minute, Char(':', Many(Digits10, Second, tail)))))
  }

  function Rfc822DateTime(): Runs {
    Rfc822Date(Char(' ', LooseTime(Many(Dot, Anonymous, End))))
  }

  function FechaCompleta(): Runs {
    Many(Digits10, Day, Text(" de ", Many(Letters, Month, Text(" de ", Many(Digits10, Year, End)))))
  }

  function FechaHora(): Runs {
    Many(Digits10, Day, Char('-', Many(Digits10, Month, Char('-', Many(Digits10, Year, Char(' ',
      FixedTime(Exactly(Dot, 1, Anonymous, Many(Digits10, Anonymous, End)))))))))
  }

  function Ddmm(yearDigits: nat): Runs {
    OneOrTwo(Digits10, Day, Exactly(SlashDash, 1, Anonymous, OneOrTwo(Digits10, Month, Exactly(SlashDash, 1, Anonymous,
      Exactly(Digits10, yearDigits, Year, Char(' ', LooseTime(End)))))))
  }

  /** The patterns in the order in which they are tried. */
  function Parsers(): seq<Pattern> {
    [ [Dmy()],
      [IsoDateTime(Offset()), IsoDateTime(End)],
      [BasicDateTime()],
      [BasicDate(End)],
      [IsoDate(End)],
      [Weekday(Rfc822DateTime()), Rfc822DateTime()],
      [Weekday(Rfc822Date(End)), Rfc822Date(End)],
      [FechaCompleta()],
      [FechaHora()],
      [Ddmm(4)],
      [Ddmm(2)] ]
  }

  // ----- searching -----

  function FirstOf(alternatives: Pattern, s: string): Option<Captures> {
    if alternatives == [] then None
    else if Match(alternatives[0], s).Some? then Match(alternatives[0], s)
    else FirstOf(alternatives[1..], s)
  }

  function FirstMatch(patterns: seq<Pattern>, s: string): Option<Captures> {
    if patterns == [] then None
    else if FirstOf(patterns[0], s).Some? then FirstOf(patterns[0], s)
    else FirstMatch(patterns[1..], s)
  }

  // ----- reading the fields -----

  function Int(s: string): nat {
    if AllDigits(s) then Value(s) else 0
  }

  function UpperChar(c: char): char {
    if 'a' <= c <= 'z' then c - 'a' + 'A' else c
  }

  function Upper(s: string): string {
    seq(|s|, i requires 0 <= i < |s| => UpperChar(s[i]))
  }

  /** The table of month names, Spanish and English. */
  function ReverseMonth(name: string): Option<int> {
    if name in {"JAN", "JANUARY", "ENE", "ENERO"} then Some(1)
    else if name in {"FEB", "FEBRUARY", "FEBRERO"} then Some(2)
    else if name in {"MAR", "MARCH", "MARZO"} then Some(3)
    else if name in {"APR", "APRIL", "ABR", "ABRIL"} then Some(4)
    else if name in {"MAY", "MAYO"} then Some(5)
    else if name in {"JUN", "JUNE", "JUNIO"} then Some(6)
    else if name in {"JUL", "JULY", "JULIO"} then Some(7)
    else if name in {"AUG", "AUGUST", "AGO", "AGOSTO"} then Some(8)
    else if name in {"SEP", "SEPTEMBER", "SEPTIEMBRE"} then Some(9)
    else if name in {"OCT", "OCTOBER", "OCTUBRE"} then Some(10)
    else if name in {"NOV", "NOVEMBER", "NOVIEMBRE"} then Some(11)
    else if name in {"DEC", "DECEMBER", "DIC", "DICIEMBRE"} then Some(12)
    else None
  }

  function MonthNumber(s: string): Option<int> {
    if s != "" && AllDigits(s) then Some(Int(s)) else ReverseMonth(Upper(s))
  }

  /** Years up to 100 are taken to be in the twenty-first century. */
  function Widen(year: int): int {
    if year <= 100 then year + 2000 else year
  }

  function Group(captures: Captures, field: Field): string {
    if field in captures then captures[field] else ""
  }

  datatype Time = Time(hour: int, minute: int, second: int)

  predicate ValidTime(t: Time) {
    0 <= t.hour < 24 && 0 <= t.minute < 60 && 0 <= t.second < 60
  }

  /** The time fields of the match; midnight when the pattern has none. */
  function TimeOf(found: Captures): Time {
    if Hour in found
    then Time(Int(Group(found, Hour)), Int(Group(found, Minute)), Int(Group(found, Second)))
    else Time(0, 0, 0)
  }

  // ----- the parsers -----

  /** What stripping a text takes off, beyond ASCII too. */
  predicate IsSpace(c: char) {
    || '\U{09}' <= c <= '\U{0D}' || '\U{1C}' <= c <= '\U{20}' || c == '\U{85}' || c == '\U{A0}'
    || c == '\U{1680}' || '\U{2000}' <= c <= '\U{200A}' || c == '\U{2028}' || c == '\U{2029}'
    || c == '\U{202F}' || c == '\U{205F}' || c == '\U{3000}'
  }

  function Strip(s: string): string {
    if s != "" && IsSpace(s[0]) then Strip(s[1..])
    else if s != "" && IsSpace(s[|s| - 1]) then Strip(s[..|s| - 1])
    else s
  }

  /** Nothing to read; a value; no pattern matched; an unknown month name; not a calendar date or time. */
  datatype Parsed<T> = Blank | Ok(value: T) | BadFormat | UnknownMonth | Impossible

  function DateOf(found: Captures): Parsed<Date> {
    match MonthNumber(Group(found, Month))
    case None => UnknownMonth
    case Some(month) =>
      match MakeDate(Widen(Int(Group(found, Year))), month, Int(Group(found, Day)))
      case None => Impossible
      case Some(d) => Ok(d)
  }

  function ParseDate(text: string): Parsed<Date> {
    var s := Strip(text);
    if s == "" then Blank
    else match FirstMatch(Parsers(), s)
      case None => BadFormat
      case Some(found) => DateOf(found)
  }

  datatype DateTime = DateTime(date: Date, time: Time)

  function ParseDateTime(text: string): Parsed<DateTime> {
    var s := Strip(text);
    if s == "" then Blank
    else match FirstMatch(Parsers(), s)
      case None => BadFormat
      case Some(found) =>
        match DateOf(found)
        case Ok(d) => if ValidTime(TimeOf(found)) then Ok(DateTime(d, TimeOf(found))) else Impossible
        case UnknownMonth => UnknownMonth
        case _ => Impossible
  }
}
