/** What the date parsers make of texts at large: spaces, names, separators, wrong dates, and two more forms. */
module DateForms {
  import opened Options
  import opened Decimal
  import opened Patterns
  import opened Calendar
  import opened DateText
  import opened DateRoundTrip
  import UrlParts

  // ----- classes of characters -----

  /** The classes of the patterns, character by character. */
  lemma ClassesMean(c: char)
    ensures In(Digits10, c) <==> c in UrlParts.FIGURES
    ensures In(Letters, c) <==> c in UrlParts.SMALL || c in UrlParts.CAPITALS
    ensures In(Alnum, c) <==> In(Letters, c) || In(Digits10, c)
    ensures In(Word, c) <==> In(Letters, c) || In(Digits10, c) || c == '_'
    ensures In(Seps, c) <==> c in "\\/:.,- "
    ensures In(SlashDash, c) <==> c in "/-"
    ensures In(SpaceT, c) <==> c in " T"
    ensures In(Sign, c) <==> c in "+-"
    ensures In(Dot, c) <==> c !in "\n"
  {
    UrlParts.CharsMean(c);
  }

  // ----- space around a text -----

  predicate AllSpace(s: string) {
    forall i :: 0 <= i < |s| ==> IsSpace(s[i])
  }

  predicate Tight(s: string) {
    s != "" ==> !IsSpace(s[0]) && !IsSpace(s[|s| - 1])
  }

  /** The white space of the original, by its code points. */
  lemma SpacesMean(c: char)
    ensures IsSpace(c) <==> var n := c as int;
              9 <= n <= 13 || 28 <= n <= 32 || 8192 <= n <= 8202
              || n in [133, 160, 5760, 8232, 8233, 8239, 8287, 12288]
  {
  }

  /** Stripping takes off all the space at both ends, and nothing else. */
  lemma {:induction false} StripExactly(a: string, s: string, b: string)
    requires AllSpace(a) && Tight(s) && AllSpace(b)
    ensures Strip(a + s + b) == s
    decreases |a| + |b|
  {
    var t := a + s + b;
    if a != "" {
      assert t[0] == a[0] && t[1..] == a[1..] + s + b;
      StripExactly(a[1..], s, b);
    } else if b != "" {
      var n := |b| - 1;
      assert t[|t| - 1] == b[n] && t[..|t| - 1] == a + s + b[..n];
      StripExactly(a, s, b[..n]);
      StripLast(t, s);
    } else {
      assert t == s;
      if s != "" { StripsNothing(s); }
    }
  }

  /** Where the last character goes, it does not matter whether the first goes too. */
  lemma StripLast(t: string, s: string)
    requires t != "" && IsSpace(t[|t| - 1]) && Strip(t[..|t| - 1]) == s
    requires Tight(s) && s <= t && forall i :: |s| <= i < |t| ==> IsSpace(t[i])
    ensures Strip(t) == s
  {
    if IsSpace(t[0]) {
      assert s == "";
      StripSpaces(t);
    }
  }

  lemma {:induction false} StripSpaces(t: string)
    requires AllSpace(t)
    ensures Strip(t) == ""
  {
    if t != "" {
      StripSpaces(t[1..]);
    }
  }

  /** Every text is such a tight one with space around it. */
  lemma {:induction false} TightPart(t: string) returns (a: string, s: string, b: string)
    ensures t == a + s + b && AllSpace(a) && Tight(s) && AllSpace(b)
    decreases |t|
  {
    if t != "" && IsSpace(t[0]) {
      var a';
      a', s, b := TightPart(t[1..]);
      a := [t[0]] + a';
      assert t == [t[0]] + t[1..];
    } else if t != "" && IsSpace(t[|t| - 1]) {
      var b';
      a, s, b' := TightPart(t[..|t| - 1]);
      b := b' + [t[|t| - 1]];
      assert t == t[..|t| - 1] + [t[|t| - 1]];
    } else {
      a, s, b := "", t, "";
    }
  }

  /** So space around a text makes no difference, and a text of nothing else is blank. */
  lemma SpaceIsIgnored(a: string, text: string, b: string)
    requires AllSpace(a) && AllSpace(b)
    ensures ParseDate(a + text + b) == ParseDate(text) && ParseDateTime(a + text + b) == ParseDateTime(text)
    ensures ParseDate(text) == Blank <==> AllSpace(text)
    ensures ParseDateTime(text) == Blank <==> AllSpace(text)
  {
    var a', s, b' := TightPart(text);
    StripExactly(a', s, b');
    assert a + text + b == (a + a') + s + (b' + b);
    StripExactly(a + a', s, b' + b);
    if s != "" {
      assert text[|a'|] == s[0];
    }
  }

  // ----- month names -----

  /** The names of each month, in capitals. */
  function MonthNames(month: int): set<string> {
    match month
    case 1 => {"JAN", "JANUARY", "ENE", "ENERO"}
    case 2 => {"FEB", "FEBRUARY", "FEBRERO"}
    case 3 => {"MAR", "MARCH", "MARZO"}
    case 4 => {"APR", "APRIL", "ABR", "ABRIL"}
    case 5 => {"MAY", "MAYO"}
    case 6 => {"JUN", "JUNE", "JUNIO"}
    case 7 => {"JUL", "JULY", "JULIO"}
    case 8 => {"AUG", "AUGUST", "AGO", "AGOSTO"}
    case 9 => {"SEP", "SEPTEMBER", "SEPTIEMBRE"}
    case 10 => {"OCT", "OCTOBER", "OCTUBRE"}
    case 11 => {"NOV", "NOVEMBER", "NOVIEMBRE"}
    case 12 => {"DEC", "DECEMBER", "DIC", "DICIEMBRE"}
    case _ => {}
  }

  /** Only the small letters change, each to its capital. */
  lemma UpperMeans(s: string)
    ensures |Upper(s)| == |s|
    ensures forall i, j :: 0 <= i < |s| && 0 <= j < 26 && s[i] == UrlParts.SMALL[j] ==>
              Upper(s)[i] == UrlParts.CAPITALS[j]
    ensures forall i :: 0 <= i < |s| && s[i] !in UrlParts.SMALL ==> Upper(s)[i] == s[i]
  {
    forall i, j | 0 <= i < |s| && 0 <= j < 26 && s[i] == UrlParts.SMALL[j] ensures Upper(s)[i] == UrlParts.CAPITALS[j] {
      UrlParts.LetterAt(j);
    }
    forall i | 0 <= i < |s| && s[i] !in UrlParts.SMALL ensures Upper(s)[i] == s[i] {
      UrlParts.CharsMean(s[i]);
    }
  }

  /** A word is a month exactly when it is one of that month's names, in any case. */
  lemma MonthNameExactly(word: string, month: int)
    requires word == "" || !AllDigits(word)
    ensures MonthNumber(word) == Some(month) <==> Upper(word) in MonthNames(month)
  {
    NamedIsListed(Upper(word), month);
    if Upper(word) in MonthNames(month) {
      ListedIsNamed(Upper(word), month);
    }
  }

  lemma NamedIsListed(name: string, month: int)
    ensures ReverseMonth(name) == Some(month) ==> name in MonthNames(month)
  {
  }

  lemma ListedIsNamed(name: string, month: int)
    requires name in MonthNames(month)
    ensures ReverseMonth(name) == Some(month)
  {
  }

  // ----- any date with separators, the impossible ones included -----

  predicate Separator(c: char) {
    c in "\\/:.,- "
  }

  predicate Separators(s: string) {
    s != "" && forall i :: 0 <= i < |s| ==> Separator(s[i])
  }

  predicate Alphanumeric(s: string) {
    s != "" && AllIn(Alnum, s)
  }

  /** What a day, a month word and a year of four digits stand for. */
  function DateOfParts(day: string, month: string, year: string): Parsed<Date>
    requires AllDigits(day) && AllDigits(year)
  {
    var y := if Value(year) <= 100 then Value(year) + 2000 else Value(year);
    match MonthNumber(month)
    case None => UnknownMonth
    case Some(m) => if Valid(Date(y, m, Value(day))) then Ok(Date(y, m, Value(day))) else Impossible
  }

  /**
   A day, separators, a month in figures or letters, a separator, a year of four
   digits: read as what they stand for, or refused as an unknown month or a date
   that does not exist.
   */
  lemma SeparatedExactly(day: string, first: string, month: string, second: char, year: string)
    requires day != "" && AllDigits(day) && Separators(first) && Alphanumeric(month) && Separator(second)
    requires |year| == 4 && AllDigits(year)
    ensures ParseDate(Joined(day, first, month, [second], year)) == DateOfParts(day, month, year)
    ensures ParseDateTime(Joined(day, first, month, [second], year))
         == match DateOfParts(day, month, year)
            case Ok(d) => Ok(DateTime(d, Time(0, 0, 0)))
            case UnknownMonth => UnknownMonth
            case _ => Impossible
  {
    var s := Joined(day, first, month, [second], year);
    MatchSeparated(day, first, month, second, year);
    OneAlternative(Dmy(), s);
    ReadIsFirst(s, 0, map[Year := year][Month := month][Day := day]);
    DigitsAreDark(day);
    DigitsAreDark(year);
    JoinedEnds(day, first, month, [second], year);
    StripsNothing(s);
  }

  lemma MatchSeparated(day: string, first: string, month: string, second: char, year: string)
    requires day != "" && AllDigits(day) && Separators(first) && Alphanumeric(month) && Separator(second)
    requires |year| == 4 && AllDigits(year)
    ensures Match(Dmy(), Joined(day, first, month, [second], year))
         == Some(map[Year := year][Month := month][Day := day])
  {
    ClassesMean(second);
    forall i | 0 <= i < |first| ensures In(Seps, first[i]) {
      ClassesMean(first[i]);
    }
    LastStep(Run(Digits10, 4, Some(4), Year), year);
    FourSteps(Run(Digits10, 1, None, Day), Run(Seps, 1, None, Anonymous), Run(Alnum, 1, None, Month),
              Run(Seps, 1, Some(1), Anonymous), Exactly(Digits10, 4, Year, End), day, first, month, [second], year);
  }

  // ----- two more forms with a time -----

  /** Neither the compact nor the English nor the Spanish patterns read a day followed by a slash or a dash. */
  lemma NotEarlier(c: char, day: string, month: string, rest: string)
    requires (c == '/' || c == '-') && |day| == 2 && AllDigits(day) && |month| == 2 && AllDigits(month)
    requires Match(Exactly(Digits10, 4, Year, End), rest).None?
    ensures forall i :: 0 <= i < 8 ==> FirstOf(Parsers()[i], Joined(day, [c], month, [c], rest)).None?
  {
    var s := Joined(day, [c], month, [c], rest);
    DmySteps(day, c, month, c, rest);
    OneAlternative(Dmy(), s);
    assert s[2] == c;
    NoFourDigits(s, 2);
    DayMarkOnly(day, c, [c] + (month + ([c] + rest)));
  }

  /** A year of two digits is one of the twenty-first century. */
  lemma ShortYearIsRead(c: char, d: Date, t: Time)
    requires Valid(d) && ValidTime(t) && (c == '/' || c == '-')
    ensures ParseDateTime(ShortYearText(c, d, t)) == Ok(DateTime(Date(2000 + d.year % 100, d.month, d.day), t))
    ensures ParseDateTime(ShortYearText(c, d, t)) == Ok(DateTime(d, t)) <==> 2000 <= d.year < 2100
  {
    ShortCenturyIsValid(d);
    ShortYearParses(c, d, t);
    SameShortYear(d);
  }

  function ShortYearText(c: char, d: Date, t: Time): string
    requires Valid(d) && Printable(t)
  {
    Joined(Two(d.day), [c], Two(d.month), [c], Two(d.year % 100) + (" " + TimeText(t, "")))
  }

  lemma SameShortYear(d: Date)
    ensures Date(2000 + d.year % 100, d.month, d.day) == d <==> 2000 <= d.year < 2100
  {
  }

  lemma ShortYearParses(c: char, d: Date, t: Time)
    requires Valid(d) && ValidTime(t) && (c == '/' || c == '-') && Valid(Date(2000 + d.year % 100, d.month, d.day))
    ensures ParseDateTime(ShortYearText(c, d, t))
         == Ok(DateTime(Date(2000 + d.year % 100, d.month, d.day), t))
  {
    var day, month, y := Two(d.day), Two(d.month), Two(d.year % 100);
    var s := Joined(day, [c], month, [c], y + (" " + TimeText(t, "")));
    ShortYearMatches(c, day, month, y, t);
    ReadIsFirst(s, 10, TimeCaptures(t)[Year := y][Month := month][Day := day]);
    ShortYearEnds(c, day, month, y, t);
    StripsNothing(s);
    ShortYearSpells(d, t);
  }

  lemma ShortYearMatches(c: char, day: string, month: string, y: string, t: Time)
    requires (c == '/' || c == '-') && |day| == 2 && AllDigits(day) && |month| == 2 && AllDigits(month)
    requires |y| == 2 && AllDigits(y) && Printable(t)
    ensures ReadAs(Joined(day, [c], month, [c], y + (" " + TimeText(t, ""))), 10,
                   TimeCaptures(t)[Year := y][Month := month][Day := day])
  {
    var rest := y + (" " + TimeText(t, ""));
    assert rest[2] == ' ';
    NoMatch(Run(Digits10, 4, Some(4), Year), End, rest, 2);
    NotEarlier(c, day, month, rest);
    NotFechaHora(day, c, month, y, t);
    NoLongYear(c, day, month, rest);
    DdmmYear(y, t);
    DdmmDate(c, day, month, 2, rest, TimeCaptures(t)[Year := y]);
    OneAlternative(Ddmm(2), Joined(day, [c], month, [c], rest));
  }

  /** The pattern with four digits does not read a shorter year. */
  lemma NoLongYear(c: char, day: string, month: string, rest: string)
    requires (c == '/' || c == '-') && |day| == 2 && AllDigits(day) && |month| == 2 && AllDigits(month)
    requires |rest| > 2 && rest[2] == ' '
    ensures FirstOf(Parsers()[9], Joined(day, [c], month, [c], rest)).None?
  {
    var year := Exactly(Digits10, 4, Year, Char(' ', LooseTime(End)));
    var mark := Run(SlashDash, 1, Some(1), Anonymous);
    NoMatch(year.head, year.tail, rest, 2);
    FourSteps(Run(Digits10, 1, Some(2), Day), mark, Run(Digits10, 1, Some(2), Month), mark, year,
              day, [c], month, [c], rest);
    OneAlternative(Ddmm(4), Joined(day, [c], month, [c], rest));
  }

  lemma ShortYearEnds(c: char, day: string, month: string, y: string, t: Time)
    requires |day| == 2 && AllDigits(day) && Printable(t)
    ensures var s := Joined(day, [c], month, [c], y + (" " + TimeText(t, ""))); StartsDark(s) && EndsDark(s)
  {
    TimeEnds(t, "");
    AppendEnds(" ", TimeText(t, ""));
    AppendEnds(y, " " + TimeText(t, ""));
    DigitsAreDark(day);
    JoinedEnds(day, [c], month, [c], y + (" " + TimeText(t, "")));
  }

  /** Moving a date to the same year of that century keeps it on the calendar. */
  lemma ShortCenturyIsValid(d: Date)
    requires Valid(d)
    ensures Valid(Date(2000 + d.year % 100, d.month, d.day))
  {
    assert IsLeap(d.year) ==> IsLeap(2000 + d.year % 100);
  }

  lemma ShortYearSpells(d: Date, t: Time)
    requires Valid(d) && Printable(t) && Valid(Date(2000 + d.year % 100, d.month, d.day))
    ensures var found := TimeCaptures(t)[Year := Two(d.year % 100)][Month := Two(d.month)][Day := Two(d.day)];
            DateOf(found) == Ok(Date(2000 + d.year % 100, d.month, d.day)) && TimeOf(found) == t
  {
  }

  /** A fraction of the second, after any mark, is dropped. */
  lemma FractionIsRead(d: Date, t: Time, mark: char, fraction: string)
    requires Valid(d) && ValidTime(t) && mark != '\n' && fraction != "" && AllDigits(fraction)
    ensures ParseDateTime(Joined(Two(d.day), "-", Two(d.month), "-", Y(d) + (" " + TimeText(t, [mark] + fraction))))
         == Ok(DateTime(Widened(d), t))
  {
    var s := Joined(Two(d.day), "-", Two(d.month), "-", Y(d) + (" " + TimeText(t, [mark] + fraction)));
    FractionMatches(Two(d.day), Two(d.month), Y(d), t, mark, fraction);
    NumericSpells(d, t);
    SpelledDate(NumericCaptures(d, t), d);
    ReadIsFirst(s, 8, NumericCaptures(d, t));
    FractionEnds(d, t, mark, fraction);
    StripsNothing(s);
  }

  lemma FractionMatches(day: string, month: string, y: string, t: Time, mark: char, fraction: string)
    requires |day| == 2 && AllDigits(day) && |month| == 2 && AllDigits(month) && |y| == 4 && AllDigits(y)
    requires Printable(t) && mark != '\n' && fraction != "" && AllDigits(fraction)
    ensures ReadAs(Joined(day, "-", month, "-", y + (" " + TimeText(t, [mark] + fraction))), 8,
                   TimeCaptures(t)[Year := y][Month := month][Day := day])
  {
    var clock := " " + TimeText(t, [mark] + fraction);
    Step(Run(Digits10, 4, Some(4), Year), End, y, clock);
    NotEarlier('-', day, month, y + clock);
    FechaHoraSteps(day, month, y, t, mark, fraction);
    OneAlternative(FechaHora(), Joined(day, "-", month, "-", y + clock));
  }

  lemma FechaHoraSteps(day: string, month: string, y: string, t: Time, mark: char, fraction: string)
    requires |day| == 2 && AllDigits(day) && |month| == 2 && AllDigits(month) && |y| == 4 && AllDigits(y)
    requires Printable(t) && mark != '\n' && fraction != "" && AllDigits(fraction)
    ensures Match(FechaHora(), Joined(day, "-", month, "-", y + (" " + TimeText(t, [mark] + fraction))))
         == Some(TimeCaptures(t)[Year := y][Month := month][Day := day])
  {
    var clock := " " + TimeText(t, [mark] + fraction);
    FractionSteps(t, mark, fraction);
    var time := FixedTime(Exactly(Dot, 1, Anonymous, Many(Digits10, Anonymous, End)));
    OneChar(' ', time, TimeText(t, [mark] + fraction));
    YearStep(y, Char(' ', time), clock);
    var dash := Run(One('-'), 1, Some(1), Anonymous);
    FourSteps(Run(Digits10, 1, None, Day), dash, Run(Digits10, 1, None, Month), dash,
              Many(Digits10, Year, Char(' ', time)), day, "-", month, "-", y + clock);
  }

  lemma FractionSteps(t: Time, mark: char, fraction: string)
    requires Printable(t) && mark != '\n' && fraction != "" && AllDigits(fraction)
    ensures Match(FixedTime(Exactly(Dot, 1, Anonymous, Many(Digits10, Anonymous, End))), TimeText(t, [mark] + fraction))
         == Some(TimeCaptures(t))
  {
    var digits := Many(Digits10, Anonymous, End);
    LastStep(digits.head, fraction);
    Step(Run(Dot, 1, Some(1), Anonymous), digits, [mark], fraction);
    FixedTimeSteps(t, Exactly(Dot, 1, Anonymous, digits), [mark] + fraction);
  }

  lemma FractionEnds(d: Date, t: Time, mark: char, fraction: string)
    requires Valid(d) && Printable(t) && fraction != "" && AllDigits(fraction)
    ensures var s := Joined(Two(d.day), "-", Two(d.month), "-", Y(d) + (" " + TimeText(t, [mark] + fraction)));
            StartsDark(s) && EndsDark(s)
  {
    DigitsAreDark(fraction);
    AppendEnds([mark], fraction);
    TimeEnds(t, [mark] + fraction);
    AppendEnds(" ", TimeText(t, [mark] + fraction));
    AppendEnds(Y(d), " " + TimeText(t, [mark] + fraction));
    DigitsAreDark(Two(d.day));
    JoinedEnds(Two(d.day), "-", Two(d.month), "-", Y(d) + (" " + TimeText(t, [mark] + fraction)));
  }

  // ----- texts without a date -----

  /** Some run of the pattern takes at least one digit. */
  predicate WantsDigit(runs: Runs) {
    runs.Then? && ((runs.head.cls == Digits10 && runs.head.lo >= 1) || WantsDigit(runs.tail))
  }

  lemma {:induction false} DigitIsThere(runs: Runs, s: string, pieces: seq<string>)
    requires Fits(runs, s, pieces) && WantsDigit(runs)
    ensures exists i :: 0 <= i < |s| && IsDigit(s[i])
  {
    var n := |pieces[0]|;
    if runs.head.cls == Digits10 && runs.head.lo >= 1 {
      assert s[0] == pieces[0][0] && In(Digits10, pieces[0][0]);
    } else {
      DigitIsThere(runs.tail, s[n..], pieces[1..]);
      var i :| 0 <= i < |s[n..]| && IsDigit(s[n..][i]);
      assert IsDigit(s[n + i]);
    }
  }

  lemma NoDigitNoMatch(runs: Runs, s: string)
    requires WantsDigit(runs) && forall i :: 0 <= i < |s| ==> !IsDigit(s[i])
    ensures Match(runs, s).None?
  {
    if Match(runs, s).Some? {
      var pieces := MatchFits(runs, s);
      DigitIsThere(runs, s, pieces);
    }
  }

  lemma {:induction false} NoneOf(pattern: Pattern, s: string)
    requires forall i :: 0 <= i < |pattern| ==> Match(pattern[i], s).None?
    ensures FirstOf(pattern, s).None?
  {
    if pattern != [] {
      NoneOf(pattern[1..], s);
    }
  }

  lemma {:induction false} NoPattern(patterns: seq<Pattern>, s: string)
    requires forall i, j :: 0 <= i < |patterns| && 0 <= j < |patterns[i]| ==> WantsDigit(patterns[i][j])
    requires forall i :: 0 <= i < |s| ==> !IsDigit(s[i])
    ensures FirstMatch(patterns, s).None?
  {
    if patterns != [] {
      forall j | 0 <= j < |patterns[0]| ensures Match(patterns[0][j], s).None? {
        NoDigitNoMatch(patterns[0][j], s);
      }
      NoneOf(patterns[0], s);
      NoPattern(patterns[1..], s);
    }
  }

  lemma AllWantDigits()
    ensures forall i, j :: 0 <= i < |Parsers()| && 0 <= j < |Parsers()[i]| ==> WantsDigit(Parsers()[i][j])
  {
  }

  /** A text with no digit in it, unless it is blank, is in no format. */
  lemma NoDigitIsNoDate(text: string)
    requires !AllSpace(text) && forall i :: 0 <= i < |text| ==> !IsDigit(text[i])
    ensures ParseDate(text) == BadFormat && ParseDateTime(text) == BadFormat
  {
    var a, s, b := TightPart(text);
    StripExactly(a, s, b);
    assert forall i :: 0 <= i < |s| ==> s[i] == text[|a| + i];
    SpaceIsIgnored("", text, "");
    AllWantDigits();
    NoPattern(Parsers(), s);
  }
}
