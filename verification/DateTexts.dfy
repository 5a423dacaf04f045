/**
 The names and the texts themselves: which names stand for which numbers, and what the printers print.
 */
module DateTexts {
  import opened Status
  import opened DateSpec
  import opened DateCompose
  import opened DateRead
  import opened DateRun
  import opened DateWrite
  import opened DateForms
  import opened DateParse
  import opened DateConversions

  // ---- names

  /** The days of the week, in full and abbreviated, by their numbers. */
  predicate IsWeekday(i: int, full: string, ab: string) {
    || (i == 0 && full == "Sunday" && ab == "Sun")
    || (i == 1 && full == "Monday" && ab == "Mon")
    || (i == 2 && full == "Tuesday" && ab == "Tue")
    || (i == 3 && full == "Wednesday" && ab == "Wed")
    || (i == 4 && full == "Thursday" && ab == "Thu")
    || (i == 5 && full == "Friday" && ab == "Fri")
    || (i == 6 && full == "Saturday" && ab == "Sat")
  }

  /** The months of a year. */
  predicate IsEarlyMonth(i: int, full: string, ab: string) {
    || (i == 0 && full == "January" && ab == "Jan")
    || (i == 1 && full == "February" && ab == "Feb")
    || (i == 2 && full == "March" && ab == "Mar")
    || (i == 3 && full == "April" && ab == "Apr")
    || (i == 4 && full == "May" && ab == "May")
    || (i == 5 && full == "June" && ab == "Jun")
  }

  predicate IsLateMonth(i: int, full: string, ab: string) {
    || (i == 6 && full == "July" && ab == "Jul")
    || (i == 7 && full == "August" && ab == "Aug")
    || (i == 8 && full == "September" && ab == "Sep")
    || (i == 9 && full == "October" && ab == "Oct")
    || (i == 10 && full == "November" && ab == "Nov")
    || (i == 11 && full == "December" && ab == "Dec")
  }

  lemma WeekdayTable(i: int, full: string, ab: string)
    requires IsWeekday(i, full, ab)
    ensures 0 <= i < 7 && DAY[i] == full && ABDAY[i] == ab
  {
  }

  lemma EarlyMonthTable(i: int, full: string, ab: string)
    requires IsEarlyMonth(i, full, ab)
    ensures 0 <= i < 12 && MON[i] == full && ABMON[i] == ab
  {
  }

  lemma LateMonthTable(i: int, full: string, ab: string)
    requires IsLateMonth(i, full, ab)
    ensures 0 <= i < 12 && MON[i] == full && ABMON[i] == ab
  {
  }

  /** Equal up to the case of letters. */
  predicate AnyCase(a: string, b: string) {
    && |a| == |b|
    && forall i :: 0 <= i < |a| ==> a[i] == b[i] || CaseOf(a[i], b[i]) || CaseOf(b[i], a[i])
  }

  /** A capital letter and the small one. */
  predicate CaseOf(c: char, c': char) {
    'A' <= c <= 'Z' && c' as int == c as int + 32
  }

  predicate Letter(c: char) {
    'a' <= c <= 'z' || 'A' <= c <= 'Z'
  }

  lemma AnyCaseIsSame(a: string, b: string)
    requires AnyCase(a, b)
    ensures SameLetters(a, b)
  {
    forall i | 0 <= i < |a|
      ensures Lower(a[i]) == Lower(b[i])
    {
    }
  }

  /** Each name is read for its number, in full, or abbreviated with no letter behind it, in any case. */
  lemma NamesRead(c: char, i: int, full: string, ab: string, s: string, rest: string, cur: Time)
    requires c == 'a' || c == 'b'
    requires if c == 'a' then IsWeekday(i, full, ab) else IsEarlyMonth(i, full, ab) || IsLateMonth(i, full, ab)
    requires AnyCase(full, s) || (AnyCase(ab, s) && (rest == [] || !Letter(rest[0])))
    ensures Scan(s + rest, ['%', c], cur) ==
      State(Some(rest), if c == 'a' then cur.(wday := i) else cur.(mon := i), false)
  {
    ScanSingle(Plain, c, s + rest, cur);
    if AnyCase(full, s) { AnyCaseIsSame(full, s); } else { AnyCaseIsSame(ab, s); }
    if c == 'a' {
      WeekdayTable(i, full, ab);
      NameReads(c, s, rest, cur.(wday := i), cur);
    } else {
      if IsEarlyMonth(i, full, ab) { EarlyMonthTable(i, full, ab); } else { LateMonthTable(i, full, ab); }
      NameReads(c, s, rest, cur.(mon := i), cur);
    }
  }

  // ---- white space and plain characters

  /** Blank, tab, newline, vertical tab, form feed, carriage return. */
  predicate White(c: char) {
    c as int == 32 || 9 <= c as int <= 13
  }

  /** A white character of the format stands for any number of them, and so do %n and %t. */
  lemma WhiteReads(f: string, s: string, rest: string, cur: Time)
    requires (|f| == 1 && White(f[0])) || f == ['%', 'n'] || f == ['%', 't']
    requires (forall i :: 0 <= i < |s| ==> White(s[i])) && (rest == [] || !White(rest[0]))
    ensures Scan(s + rest, f, cur) == State(Some(rest), cur, false)
  {
    SkipSpacesReads(s, rest);
    if |f| == 1 {
      OneCharacter(f[0], s + rest, cur);
    } else {
      ScanSingle(Plain, f[1], s + rest, cur);
      assert f == Single(Plain, f[1]);
    }
  }

  lemma OneCharacter(c: char, s: string, cur: Time)
    requires c != '%'
    ensures Scan(s, [c], cur) == Do(if IsSpace(c) then Space(c) else Literal(c), s, cur, false)
  {
    var d := if IsSpace(c) then Space(c) else Literal(c);
    LexCons([c]);
    assert Lex([c]) == [d] + [];
    RunCons(d, [], s, cur, false);
  }

  /** Any other character stands for itself, and %% for a percent sign. */
  lemma CharacterReads(c: char, s: string, cur: Time)
    requires !White(c)
    ensures Scan(s, if c == '%' then ['%', '%'] else [c], cur) ==
      State(if s != [] && s[0] == c then Some(s[1..]) else None, cur, false)
  {
    if c == '%' { ScanSingle(Plain, c, s, cur); } else { OneCharacter(c, s, cur); }
  }

  // ---- what the printers print

  lemma JoinEight(a: string, b: string, c: string, d: string, e: string, f: string, g: string, h: string)
    ensures Join([a, b, c, d, e, f, g, h]) == (a + b + c + d) + (e + f + g + h)
  {
    JoinFour(a, b, c, d);
    JoinFour(e, f, g, h);
    JoinAppend([a, b, c, d], [e, f, g, h]);
    assert [a, b, c, d] + [e, f, g, h] == [a, b, c, d, e, f, g, h];
  }

  lemma JoinTen(a: string, b: string, c: string, d: string, e: string,
                f: string, g: string, h: string, i: string, j: string)
    ensures Join([a, b, c, d, e, f, g, h, i, j]) == (a + b + c + d + e) + (f + g + h + i + j)
  {
    JoinFive(a, b, c, d, e);
    JoinFive(f, g, h, i, j);
    JoinAppend([a, b, c, d, e], [f, g, h, i, j]);
    assert [a, b, c, d, e] + [f, g, h, i, j] == [a, b, c, d, e, f, g, h, i, j];
  }

  /** " HH:MM:SS GMT" */
  function ZoneTime(tm: Time): string
    requires Valid(tm)
  {
    (" " + Two(tm.hour) + ":" + Two(tm.min) + ":") + (Two(tm.sec) + " " + "G" + "M" + "T")
  }

  lemma TimeGmtText(tm: Time)
    requires Valid(tm) && Separated(TIME_GMT)
    ensures Text(TIME_GMT, tm) == ZoneTime(tm)
  {
    assert Pieces(TIME_GMT, tm) == [" ", Two(tm.hour), ":", Two(tm.min), ":", Two(tm.sec), " ", "G", "M", "T"];
    JoinTen(" ", Two(tm.hour), ":", Two(tm.min), ":", Two(tm.sec), " ", "G", "M", "T");
  }

  lemma Date1123Text(tm: Time)
    requires Valid(tm) && Separated(DATE_1123) && 0 <= tm.year + TM_YEAR_BASE
    ensures Text(DATE_1123, tm) ==
      (ABDAY[tm.wday] + "," + " " + Two(tm.mday)) + (" " + ABMON[tm.mon] + " " + Decimal(tm.year + TM_YEAR_BASE))
  {
    var year := Decimal(tm.year + TM_YEAR_BASE);
    assert Pieces(DATE_1123, tm) == [ABDAY[tm.wday], ",", " ", Two(tm.mday), " ", ABMON[tm.mon], " ", year];
    JoinEight(ABDAY[tm.wday], ",", " ", Two(tm.mday), " ", ABMON[tm.mon], " ", year);
  }

  lemma Date1036Text(tm: Time)
    requires Valid(tm) && Separated(DATE_1036)
    ensures Text(DATE_1036, tm) ==
      (DAY[tm.wday] + "," + " " + Two(tm.mday)) + ("-" + ABMON[tm.mon] + "-" + Two((tm.year + TM_YEAR_BASE) % 100))
  {
    var yy := Two((tm.year + TM_YEAR_BASE) % 100);
    assert Pieces(DATE_1036, tm) == [DAY[tm.wday], ",", " ", Two(tm.mday), "-", ABMON[tm.mon], "-", yy];
    JoinEight(DAY[tm.wday], ",", " ", Two(tm.mday), "-", ABMON[tm.mon], "-", yy);
  }

  /** Weekday, day, month and year, time of day: the text of section 3.3.1 of RFC 2616 that RFC 1123 has. */
  lemma Print1123Text(tm: Time)
    requires Valid(tm) && 0 <= tm.year + TM_YEAR_BASE
    ensures Print1123(tm) ==
      (ABDAY[tm.wday] + "," + " " + Two(tm.mday)) + (" " + ABMON[tm.mon] + " " + Decimal(tm.year + TM_YEAR_BASE))
      + ZoneTime(tm)
  {
    Lex1123();
    Separated1123();
    SeparatedDate1123();
    SeparatedTimeGmt();
    TextAppend(DATE_1123, TIME_GMT, tm);
    Date1123Text(tm);
    TimeGmtText(tm);
  }

  /** The same with the weekday in full, dashes, and the year without its century, as RFC 850 has it. */
  lemma Print1036Text(tm: Time)
    requires Valid(tm)
    ensures Print1036(tm) ==
      (DAY[tm.wday] + "," + " " + Two(tm.mday)) + ("-" + ABMON[tm.mon] + "-" + Two((tm.year + TM_YEAR_BASE) % 100))
      + ZoneTime(tm)
  {
    Lex1036();
    Separated1036();
    SeparatedDate1036();
    SeparatedTimeGmt();
    TextAppend(DATE_1036, TIME_GMT, tm);
    Date1036Text(tm);
    TimeGmtText(tm);
  }
}
