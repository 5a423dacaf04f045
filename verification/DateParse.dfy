/**
 mmp_parse_date against the three printers: which branch takes which text, and for which years the
 time comes back.
 */
module DateParse {
  import opened Status
  import opened DateSpec
  import opened DateCompose
  import opened DateRead
  import opened DateRun
  import opened DateWrite
  import opened DateForms

  // ---- the printers

  /** mmp_time_1123_format */
  function Print1123(tm: Time): string
    requires Valid(tm)
  {
    Lex1123();
    Separated1123();
    Strftime(FMT_1123, tm)
  }

  /** mmp_time_1036_format */
  function Print1036(tm: Time): string
    requires Valid(tm)
  {
    Lex1036();
    Separated1036();
    Strftime(FMT_1036, tm)
  }

  /** A day of the month in two places and a blank in front. */
  function Padding(mday: nat): string {
    if mday < 10 then "  " else " "
  }

  /** mmp_time_asctime_format: what the C standard says of asctime, without the newline. */
  function PrintAsctime(tm: Time): string
    requires Valid(tm)
  {
    Join([ABDAY[tm.wday], " ", ABMON[tm.mon], Padding(tm.mday) + Decimal(tm.mday), " ",
          Two(tm.hour), ":", Two(tm.min), ":", Two(tm.sec), " ", Signed(tm.year + TM_YEAR_BASE)])
  }

  // ---- the parsers

  datatype Form = Rfc1123 | Rfc1036 | Asctime

  datatype Outcome = Parsed(form: Form, tm: Time) | Failed

  function FormatOf(form: Form): string {
    match form
    case Rfc1123 => FMT_1123
    case Rfc1036 => FMT_1036
    case Asctime => FMT_ASCTIME
  }

  /** parse_1123_date, parse_1036_date and parse_asctime_date, before mktime.  `junk` is what the
      uninitialised struct tm happens to hold. */
  function ParseForm(date: string, form: Form, junk: Time): Option<Time> {
    var r := Scan(date, FormatOf(form), junk);
    if r.rest == Some([]) then Some(r.tm) else None
  }

  /** mmp_parse_date */
  function ParseDate(date: string, junk: Time, junk': Time, junk'': Time): Outcome {
    var a, b, c := ParseForm(date, Rfc1123, junk), ParseForm(date, Rfc1036, junk'), ParseForm(date, Asctime, junk'');
    if a.Some? then Parsed(Rfc1123, a.value)
    else if b.Some? then Parsed(Rfc1036, b.value)
    else if c.Some? then Parsed(Asctime, c.value)
    else Failed
  }

  // ---- steps

  lemma RunCons(d: Directive, ds: seq<Directive>, s: string, tm: Time, split: bool)
    ensures Run([d] + ds, s, tm, split) == Then(Do(d, s, tm, split), ds)
  {
    assert ([d] + ds)[1..] == ds;
  }

  lemma ByFields(a: Time, b: Time)
    requires forall f :: Get(a, f) == Get(b, f)
    ensures a == b
  {
    assert Get(a, Sec) == Get(b, Sec) && Get(a, Min) == Get(b, Min) && Get(a, Hour) == Get(b, Hour);
    assert Get(a, Mday) == Get(b, Mday) && Get(a, Mon) == Get(b, Mon) && Get(a, Year) == Get(b, Year);
    assert Get(a, Wday) == Get(b, Wday) && Get(a, Yday) == Get(b, Yday);
  }

  lemma JoinAppend(a: seq<string>, b: seq<string>)
    ensures Join(a + b) == Join(a) + Join(b)
  {
    if a == [] {
      assert a + b == b;
    } else {
      assert (a + b)[1..] == a[1..] + b;
      JoinAppend(a[1..], b);
    }
  }

  /** What is left when conv_num stops inside of digits, or behind them. */
  lemma {:induction false} MoreDigitsStop(s: string, rest: string, result: nat, rulim: nat, ulim: nat)
    requires AllDigits(s) && !StartsDigit(rest)
    ensures var r := MoreDigits(s + rest, result, rulim, ulim).0; r == rest || StartsDigit(r)
    decreases |s|
  {
    if s == [] {
      assert s + rest == rest;
    } else {
      assert (s + rest)[1..] == s[1..] + rest;
      MoreDigitsStop(s[1..], rest, result * 10 + Digit(s[0]), rulim / 10, ulim);
    }
  }

  /** No month begins with something else than a letter. */
  lemma NoMonth(s: string, tgt: int)
    requires s == [] || !IsLetter(s[0])
    ensures FindString(s, tgt, MON, ABMON).rest == None
  {
    MonthsAreTable();
    forall k | 0 <= k < 12
      ensures !Matches(MON[k], s) && !Matches(ABMON[k], s)
    {
      assert Row(MON[k], ABMON[k]);
    }
  }

  /** The year of a printed date, at the place of %Y. */
  lemma YearRead(n: int, rest: string, cur: Time)
    requires !StartsDigit(rest)
    ensures var r := Do(Conv(Plain, 'Y'), Signed(n) + rest, cur, false);
      && (0 <= n <= 9999 ==> r == State(Some(rest), cur.(year := n - TM_YEAR_BASE), false))
      && (n < 0 ==> r.rest == None)
      && (n > 9999 ==> |Decimal(n)| > 4 && r.rest == Some(Decimal(n)[4..] + rest))
  {
    var s := Signed(n);
    if 0 <= n <= 9999 {
      DecimalFits(n, rest, 0, 9999);
      ConvNumReads(s, rest, TM_YEAR_BASE, n, 0, 9999);
    } else if n < 0 {
      assert (s + rest)[0] == '-';
    } else {
      LongYearRead(n, rest);
    }
  }

  lemma LongYearRead(n: nat, rest: string)
    requires n > 9999
    ensures var s := Decimal(n); |s| > 4 && ConvNum(s + rest, TM_YEAR_BASE, 0, 9999).rest == Some(s[4..] + rest)
  {
    var s := Decimal(n);
    LongYear(n);
    FirstFourRead(s, rest);
  }

  lemma FirstFourRead(s: string, rest: string)
    requires |s| > 4 && AllDigits(s)
    ensures ConvNum(s + rest, TM_YEAR_BASE, 0, 9999).rest == Some(s[4..] + rest)
  {
    var four := s[..4];
    WidthIsFour();
    FourDigits(four);
    ConvNumReads(four, s[4..] + rest, TM_YEAR_BASE, Total(0, four), 0, 9999);
    assert four + (s[4..] + rest) == s + rest;
  }

  lemma LongYear(n: nat)
    requires n > 9999
    ensures |Decimal(n)| > 4
  {
    DecimalIs(n);
    WidthStep(10000);
    WidthStep(1000);
    WidthStep(100);
    WidthMonotone(10000, n);
  }

  lemma WidthIsFour()
    ensures Width(9999) == 4
  {
    WidthStep(9999);
    WidthStep(999);
  }

  lemma FourDigits(s: string)
    requires |s| == 4 && AllDigits(s)
    ensures Total(0, s) <= 9999
  {
    var a, b, c, d := s[..1], s[1], s[2], s[3];
    assert a[1..] == [];
    TotalAppend(0, a, b);
    TotalAppend(0, a + [b], c);
    TotalAppend(0, a + [b] + [c], d);
    assert s == a + [b] + [c] + [d];
  }

  // ---- parts of the three forms

  function Text(ds: seq<Directive>, tm: Time): string
    requires Valid(tm) && forall i :: 0 <= i < |ds| ==> Writable(ds[i])
  {
    Join(Pieces(ds, tm))
  }

  lemma TextAppend(a: seq<Directive>, b: seq<Directive>, tm: Time)
    requires Valid(tm) && forall i :: 0 <= i < |a + b| ==> Writable((a + b)[i])
    requires forall i :: 0 <= i < |a| ==> Writable(a[i])
    requires forall i :: 0 <= i < |b| ==> Writable(b[i])
    ensures Text(a + b, tm) == Text(a, tm) + Text(b, tm)
  {
    assert Pieces(a + b, tm) == Pieces(a, tm) + Pieces(b, tm);
    JoinAppend(Pieces(a, tm), Pieces(b, tm));
  }

  /** A part that is read back, in front of what follows. */
  lemma RunPart(ds: seq<Directive>, rest: string, tm: Time, cur: Time, split: bool)
    requires Valid(tm) && Separated(ds) && AllDirect(ds) && !Mentions(ds, Year)
    requires ds != [] && rest != [] ==> Apart(ds[|ds| - 1], Literal(rest[0]))
    ensures var r := Run(ds, Text(ds, tm) + rest, cur, split);
      && r.rest == Some(rest) && r.split == split
      && forall f :: Get(r.tm, f) == if Mentions(ds, f) then Get(tm, f) else Get(cur, f)
  {
    PiecesWrittenFit(ds, rest, tm);
    RunDirect(ds, Pieces(ds, tm), rest, tm, cur, split);
  }

  /** The time of day and the zone. */
  lemma TimeGmtMentions(f: Field)
    ensures Mentions(TIME_GMT, f) <==> f == Hour || f == Min || f == Sec
  {
    assert FieldOf(TIME_GMT[1]) == Some(Hour) && FieldOf(TIME_GMT[3]) == Some(Min) && FieldOf(TIME_GMT[5]) == Some(Sec);
    assert forall i :: 0 <= i < |TIME_GMT| && i != 1 && i != 3 && i != 5 ==> FieldOf(TIME_GMT[i]) == None;
  }

  const DAY_1123: seq<Directive> := [Conv(Plain, 'a'), Literal(','), Space(' '), Conv(Plain, 'd')]
  const MON_1123: seq<Directive> := [Space(' '), Conv(Plain, 'b'), Space(' ')]
  const DAY_1036: seq<Directive> := [Conv(Plain, 'A'), Literal(','), Space(' '), Conv(Plain, 'd')]
  const MON_1036: seq<Directive> := [Literal('-'), Conv(Plain, 'b'), Literal('-')]
  const DAY_ASCTIME: seq<Directive> := [Conv(Plain, 'a')]
  const YEAR: seq<Directive> := [Conv(Plain, 'Y')]
  const SHORT_YEAR: seq<Directive> := [Conv(Plain, 'y')]

  lemma Parts()
    ensures DIRS_1123 == DAY_1123 + (MON_1123 + (YEAR + TIME_GMT))
    ensures DIRS_1036 == DAY_1036 + (MON_1036 + (SHORT_YEAR + TIME_GMT))
  {
    assert DATE_1123 == DAY_1123 + (MON_1123 + YEAR);
    assert DATE_1036 == DAY_1036 + (MON_1036 + SHORT_YEAR);
  }

  lemma DayPart(ds: seq<Directive>)
    requires ds == DAY_1123 || ds == DAY_1036
    ensures Separated(ds) && AllDirect(ds) && forall f :: Mentions(ds, f) <==> f == Wday || f == Mday
  {
    assert Writable(ds[0]) && Writable(ds[1]) && Writable(ds[2]) && Writable(ds[3]);
    assert Apart(ds[0], ds[1]) && Apart(ds[1], ds[2]) && Apart(ds[2], ds[3]);
    assert FieldOf(ds[0]) == Some(Wday) && FieldOf(ds[3]) == Some(Mday);
  }

  lemma MonPart(ds: seq<Directive>)
    requires ds == MON_1123 || ds == MON_1036
    ensures Separated(ds) && AllDirect(ds) && forall f :: Mentions(ds, f) <==> f == Mon
  {
    assert Writable(ds[0]) && Writable(ds[1]) && Writable(ds[2]);
    assert Apart(ds[0], ds[1]) && Apart(ds[1], ds[2]);
    assert FieldOf(ds[1]) == Some(Mon);
  }

  lemma RunDay(day: seq<Directive>, rest: string, tm: Time, cur: Time)
    requires Valid(tm) && (day == DAY_1123 || day == DAY_1036) && Separated(day)
    ensures var r := Run(day, Text(day, tm) + rest, cur, false);
      r == State(Some(rest), cur.(wday := tm.wday, mday := tm.mday), false)
  {
    DayPart(day);
    RunPart(day, rest, tm, cur, false);
    ByFields(Run(day, Text(day, tm) + rest, cur, false).tm, cur.(wday := tm.wday, mday := tm.mday));
  }

  lemma RunMon(mon: seq<Directive>, rest: string, tm: Time, cur: Time)
    requires Valid(tm) && (mon == MON_1123 || mon == MON_1036) && Separated(mon)
    requires rest != [] && !IsSpace(rest[0])
    ensures var r := Run(mon, Text(mon, tm) + rest, cur, false);
      r == State(Some(rest), cur.(mon := tm.mon), false)
  {
    MonPart(mon);
    RunPart(mon, rest, tm, cur, false);
    ByFields(Run(mon, Text(mon, tm) + rest, cur, false).tm, cur.(mon := tm.mon));
  }

  /** Weekday, day and month, in front of the year. */
  lemma DatePart(day: seq<Directive>, mon: seq<Directive>, rest: string, tm: Time, cur: Time)
    requires Valid(tm) && ((day == DAY_1123 && mon == MON_1123) || (day == DAY_1036 && mon == MON_1036))
    requires Separated(day) && Separated(mon)
    requires rest != [] && !IsSpace(rest[0])
    ensures Run(day + mon, Text(day, tm) + (Text(mon, tm) + rest), cur, false)
      == State(Some(rest), cur.(wday := tm.wday, mday := tm.mday, mon := tm.mon), false)
  {
    var text := Text(mon, tm) + rest;
    RunDay(day, text, tm, cur);
    RunMon(mon, rest, tm, cur.(wday := tm.wday, mday := tm.mday));
    RunAppend(day, mon, Text(day, tm) + text, cur, false);
  }

  /** ... and on from there. */
  lemma DateThen(day: seq<Directive>, mon: seq<Directive>, ds: seq<Directive>, rest: string, tm: Time, cur: Time)
    requires Valid(tm) && ((day == DAY_1123 && mon == MON_1123) || (day == DAY_1036 && mon == MON_1036))
    requires Separated(day) && Separated(mon)
    requires rest != [] && !IsSpace(rest[0])
    ensures Run(day + (mon + ds), Text(day, tm) + (Text(mon, tm) + rest), cur, false)
      == Run(ds, rest, cur.(wday := tm.wday, mday := tm.mday, mon := tm.mon), false)
  {
    DatePart(day, mon, rest, tm, cur);
    RunThird(day, mon, ds, Text(day, tm) + (Text(mon, tm) + rest), cur);
  }

  lemma RunThird(a: seq<Directive>, b: seq<Directive>, c: seq<Directive>, s: string, cur: Time)
    ensures Run(a + (b + c), s, cur, false) == Then(Run(a + b, s, cur, false), c)
  {
    assert a + (b + c) == a + b + c;
    RunAppend(a + b, c, s, cur, false);
  }

  /** The time of day, to the end. */
  lemma TimePart(tm: Time, cur: Time, split: bool)
    requires Valid(tm) && Separated(TIME_GMT)
    ensures var r := Run(TIME_GMT, Text(TIME_GMT, tm), cur, split);
      r.rest == Some([]) && r.tm == cur.(hour := tm.hour, min := tm.min, sec := tm.sec)
  {
    SeparatedTimeGmt();
    forall f
      ensures Mentions(TIME_GMT, f) <==> f == Hour || f == Min || f == Sec
    {
      TimeGmtMentions(f);
    }
    RunPart(TIME_GMT, [], tm, cur, split);
    assert Text(TIME_GMT, tm) + [] == Text(TIME_GMT, tm);
    ByFields(Run(TIME_GMT, Text(TIME_GMT, tm), cur, split).tm, cur.(hour := tm.hour, min := tm.min, sec := tm.sec));
  }

  /** No time of day is read from digits that go on for too long. */
  lemma TimeSpoiled(s: string, rest: string, cur: Time, split: bool)
    requires s != [] && AllDigits(s) && rest != [] && !IsDigit(rest[0]) && rest[0] != ':'
    ensures Run(TIME_GMT, s + rest, cur, split).rest == None
  {
    assert TIME_GMT == [Space(' ')] + ([Conv(Plain, 'H')] + ([Literal(':')] + TIME_GMT[3..]));
    HourSpoiled(s, rest, TIME_GMT[3..], cur, split);
    RunCons(Space(' '), [Conv(Plain, 'H')] + ([Literal(':')] + TIME_GMT[3..]), s + rest, cur, split);
  }

  lemma HourSpoiled(s: string, rest: string, more: seq<Directive>, cur: Time, split: bool)
    requires s != [] && AllDigits(s) && rest != [] && !IsDigit(rest[0]) && rest[0] != ':'
    ensures Run([Conv(Plain, 'H')] + ([Literal(':')] + more), s + rest, cur, split).rest == None
  {
    RunCons(Conv(Plain, 'H'), [Literal(':')] + more, s + rest, cur, split);
    assert (s + rest)[1..] == s[1..] + rest;
    MoreDigitsStop(s[1..], rest, Digit(s[0]), 23 / 10, 23);
    var r := Do(Conv(Plain, 'H'), s + rest, cur, split);
    if r.rest != None { RunCons(Literal(':'), more, r.rest.value, r.tm, r.split); }
  }

  /** The three parts of a text in one of the first two forms. */
  lemma TextParts(day: seq<Directive>, mon: seq<Directive>, year: seq<Directive>, ds: seq<Directive>, tm: Time)
    requires Valid(tm) && Separated(ds) && ds == day + (mon + (year + TIME_GMT))
    requires Separated(day) && Separated(mon) && Separated(year) && Separated(TIME_GMT)
    ensures Text(ds, tm) == Text(day, tm) + (Text(mon, tm) + (Text(year, tm) + Text(TIME_GMT, tm)))
  {
    var a, b := year + TIME_GMT, mon + (year + TIME_GMT);
    forall i | 0 <= i < |b|
      ensures Writable(b[i])
    {
      assert b[i] == ds[|day| + i];
    }
    forall i | 0 <= i < |a|
      ensures Writable(a[i])
    {
      assert a[i] == b[|mon| + i];
    }
    TextAppend(year, TIME_GMT, tm);
    TextAppend(mon, a, tm);
    TextAppend(day, b, tm);
  }

  lemma BlankFirst(tm: Time)
    requires Valid(tm) && Separated(TIME_GMT)
    ensures Text(TIME_GMT, tm) != [] && Text(TIME_GMT, tm)[0] == ' '
  {
    var ps := Pieces(TIME_GMT, tm);
    assert Join(ps) == ps[0] + Join(ps[1..]);
  }

  lemma Separated1123Parts()
    ensures Separated(DAY_1123) && Separated(MON_1123) && Separated(YEAR) && Separated(TIME_GMT) && Separated(DIRS_1123)
  {
    Separated1123();
    SeparatedTimeGmt();
    DayPart(DAY_1123);
    MonPart(MON_1123);
    assert Writable(YEAR[0]);
  }

  lemma Print1123Parts(tm: Time)
    requires Valid(tm) && Separated(DAY_1123) && Separated(MON_1123) && Separated(YEAR) && Separated(TIME_GMT)
    ensures Print1123(tm) == Text(DAY_1123, tm) + (Text(MON_1123, tm) + (Text(YEAR, tm) + Text(TIME_GMT, tm)))
  {
    Lex1123();
    Separated1123Parts();
    Parts();
    TextParts(DAY_1123, MON_1123, YEAR, DIRS_1123, tm);
  }

  /** The RFC 1123 text under its own format. */
  lemma Own1123(tm: Time, cur: Time)
    requires Valid(tm)
    ensures ParseForm(Print1123(tm), Rfc1123, cur) ==
      if 0 <= tm.year + TM_YEAR_BASE <= 9999 then Some(tm.(yday := cur.yday)) else None
  {
    Separated1123Parts();
    Print1123Parts(tm);
    YearAndTime(tm, cur);
    Lex1123();
    Parts();
  }

  lemma YearAndTime(tm: Time, cur: Time)
    requires Valid(tm) && Separated(DAY_1123) && Separated(MON_1123) && Separated(YEAR) && Separated(TIME_GMT)
    ensures var r := Run(DAY_1123 + (MON_1123 + (YEAR + TIME_GMT)),
      Text(DAY_1123, tm) + (Text(MON_1123, tm) + (Text(YEAR, tm) + Text(TIME_GMT, tm))), cur, false);
      if 0 <= tm.year + TM_YEAR_BASE <= 9999
      then r.rest == Some([]) && r.tm == tm.(yday := cur.yday)
      else r.rest == None
  {
    var n, time := tm.year + TM_YEAR_BASE, Text(TIME_GMT, tm);
    assert Text(YEAR, tm) == Signed(n) by {
      assert Pieces(YEAR, tm) == [Signed(n)] && Join([Signed(n)]) == Signed(n) + Join([]);
    }
    DateThen(DAY_1123, MON_1123, YEAR + TIME_GMT, Signed(n) + time, tm, cur);
    YearThenTime(tm, cur.(wday := tm.wday, mday := tm.mday, mon := tm.mon));
  }

  lemma YearThenTime(tm: Time, cur: Time)
    requires Valid(tm) && Separated(TIME_GMT)
    ensures var n := tm.year + TM_YEAR_BASE;
      var r := Run(YEAR + TIME_GMT, Signed(n) + Text(TIME_GMT, tm), cur, false);
      if 0 <= n <= 9999
      then r.rest == Some([]) && r.tm == cur.(year := tm.year, hour := tm.hour, min := tm.min, sec := tm.sec)
      else r.rest == None
  {
    var n, time := tm.year + TM_YEAR_BASE, Text(TIME_GMT, tm);
    BlankFirst(tm);
    RunCons(YEAR[0], TIME_GMT, Signed(n) + time, cur, false);
    YearRead(n, time, cur);
    if 0 <= n <= 9999 {
      TimePart(tm, cur.(year := tm.year), false);
    } else if n > 9999 {
      var r := Do(YEAR[0], Signed(n) + time, cur, false);
      TimeSpoiled(Decimal(n)[4..], time, r.tm, r.split);
    }
  }

  // ---- RFC 1036

  lemma Separated1036Parts()
    ensures Separated(DAY_1036) && Separated(MON_1036) && Separated(SHORT_YEAR) && Separated(TIME_GMT)
      && Separated(DIRS_1036)
  {
    Separated1036();
    SeparatedTimeGmt();
    DayPart(DAY_1036);
    MonPart(MON_1036);
    assert Writable(SHORT_YEAR[0]);
  }

  lemma Print1036Parts(tm: Time)
    requires Valid(tm) && Separated(DAY_1036) && Separated(MON_1036) && Separated(SHORT_YEAR) && Separated(TIME_GMT)
    ensures Print1036(tm) == Text(DAY_1036, tm) + (Text(MON_1036, tm) + (Text(SHORT_YEAR, tm) + Text(TIME_GMT, tm)))
  {
    Lex1036();
    Separated1036Parts();
    Parts();
    TextParts(DAY_1036, MON_1036, SHORT_YEAR, DIRS_1036, tm);
  }

  lemma ShortYearAndTime(tm: Time, cur: Time)
    requires Valid(tm) && Separated(DAY_1036) && Separated(MON_1036) && Separated(SHORT_YEAR) && Separated(TIME_GMT)
    ensures var r := Run(DAY_1036 + (MON_1036 + (SHORT_YEAR + TIME_GMT)),
      Text(DAY_1036, tm) + (Text(MON_1036, tm) + (Text(SHORT_YEAR, tm) + Text(TIME_GMT, tm))), cur, false);
      r.rest == Some([]) && r.tm == tm.(yday := cur.yday, year := Pivot((tm.year + TM_YEAR_BASE) % 100))
  {
    var n, time := (tm.year + TM_YEAR_BASE) % 100, Text(TIME_GMT, tm);
    assert Text(SHORT_YEAR, tm) == Two(n) by {
      assert Pieces(SHORT_YEAR, tm) == [Two(n)] && Join([Two(n)]) == Two(n) + Join([]);
    }
    var rest := Two(n) + time;
    DateThen(DAY_1036, MON_1036, SHORT_YEAR + TIME_GMT, rest, tm, cur);
    var cur' := cur.(wday := tm.wday, mday := tm.mday, mon := tm.mon);
    RunCons(SHORT_YEAR[0], TIME_GMT, rest, cur', false);
    TwoFits(n, time, 0, 99);
    DoReads(SHORT_YEAR[0], Two(n), time, tm, cur', false);
    TimePart(tm, cur'.(year := Pivot(n)), true);
  }

  /** The RFC 1036 text under its own format. */
  lemma Own1036(tm: Time, cur: Time)
    requires Valid(tm)
    ensures ParseForm(Print1036(tm), Rfc1036, cur) ==
      Some(tm.(yday := cur.yday, year := Pivot((tm.year + TM_YEAR_BASE) % 100)))
  {
    Separated1036Parts();
    Print1036Parts(tm);
    ShortYearAndTime(tm, cur);
    Lex1036();
    Parts();
  }

  // ---- texts under other formats

  lemma SameDay(s: string, cur: Time)
    ensures Run(DAY_1123, s, cur, false) == Run(DAY_1036, s, cur, false)
  {
    var more := DAY_1123[1..];
    assert DAY_1123 == [Conv(Plain, 'a')] + more && DAY_1036 == [Conv(Plain, 'A')] + more;
    RunCons(Conv(Plain, 'a'), more, s, cur, false);
    RunCons(Conv(Plain, 'A'), more, s, cur, false);
  }

  /** The days are followed by a month in one way or the other. */
  lemma DayThenMonth(day: seq<Directive>, day': seq<Directive>, ds: seq<Directive>, rest: string, tm: Time, cur: Time)
    requires Valid(tm) && Separated(day)
    requires (day == DAY_1123 && day' == DAY_1036) || (day == DAY_1036 && day' == DAY_1123)
    requires forall tm' {:trigger Run(ds, rest, tm', false)} :: Run(ds, rest, tm', false).rest == None
    ensures Run(day' + ds, Text(day, tm) + rest, cur, false).rest == None
  {
    RunDay(day, rest, tm, cur);
    SameDay(Text(day, tm) + rest, cur);
    RunAppend(day', ds, Text(day, tm) + rest, cur, false);
  }

  lemma BlankIsNoDash(rest: string, more: seq<Directive>, cur: Time)
    requires rest != [] && rest[0] == ' '
    ensures Run(MON_1036 + more, rest, cur, false).rest == None
  {
    var ds := MON_1036[1..] + more;
    assert MON_1036 + more == [Literal('-')] + ds;
    RunCons(Literal('-'), ds, rest, cur, false);
  }

  lemma NoMonthThere(rest: string, more: seq<Directive>, cur: Time)
    requires rest != [] && !IsSpace(rest[0]) && !IsLetter(rest[0])
    ensures Run([Space(' ')] + ([Conv(Plain, 'b')] + more), rest, cur, false).rest == None
  {
    RunCons(Space(' '), [Conv(Plain, 'b')] + more, rest, cur, false);
    RunCons(Conv(Plain, 'b'), more, rest, cur, false);
    NoMonth(rest, cur.mon);
  }

  lemma DashIsNoMonth(rest: string, more: seq<Directive>, cur: Time)
    requires rest != [] && rest[0] == '-'
    ensures Run(MON_1123 + more, rest, cur, false).rest == None
  {
    assert MON_1123 + more == [Space(' ')] + ([Conv(Plain, 'b')] + ([Space(' ')] + more));
    NoMonthThere(rest, [Space(' ')] + more, cur);
  }

  lemma DashFirst(tm: Time, more: string)
    requires Valid(tm) && Separated(MON_1036)
    ensures Text(MON_1036, tm) + more != [] && (Text(MON_1036, tm) + more)[0] == '-'
  {
    var ps := Pieces(MON_1036, tm);
    assert Join(ps) == ps[0] + Join(ps[1..]) && ps[0] == "-";
  }

  /** No RFC 1036 text passes for RFC 1123. */
  lemma Not1123(tm: Time, cur: Time)
    requires Valid(tm)
    ensures ParseForm(Print1036(tm), Rfc1123, cur) == None
  {
    Separated1036Parts();
    Print1036Parts(tm);
    Lex1123();
    Parts();
    var rest := Text(MON_1036, tm) + (Text(SHORT_YEAR, tm) + Text(TIME_GMT, tm));
    DashFirst(tm, Text(SHORT_YEAR, tm) + Text(TIME_GMT, tm));
    var more := YEAR + TIME_GMT;
    forall tm' {:trigger Run(MON_1123 + more, rest, tm', false)}
      ensures Run(MON_1123 + more, rest, tm', false).rest == None
    {
      DashIsNoMonth(rest, more, tm');
    }
    DayThenMonth(DAY_1036, DAY_1123, MON_1123 + more, rest, tm, cur);
  }

  /** No RFC 1123 text passes for RFC 1036. */
  lemma Not1036(tm: Time, cur: Time)
    requires Valid(tm)
    ensures ParseForm(Print1123(tm), Rfc1036, cur) == None
  {
    Separated1123Parts();
    Print1123Parts(tm);
    Lex1036();
    Parts();
    var rest := Text(MON_1123, tm) + (Text(YEAR, tm) + Text(TIME_GMT, tm));
    assert rest[0] == ' ' by {
      var ps := Pieces(MON_1123, tm);
      assert Join(ps) == ps[0] + Join(ps[1..]) && ps[0] == " ";
    }
    var more := SHORT_YEAR + TIME_GMT;
    forall tm' {:trigger Run(MON_1036 + more, rest, tm', false)}
      ensures Run(MON_1036 + more, rest, tm', false).rest == None
    {
      BlankIsNoDash(rest, more, tm');
    }
    DayThenMonth(DAY_1123, DAY_1036, MON_1036 + more, rest, tm, cur);
  }
}
