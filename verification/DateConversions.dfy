/**
 The conversions one by one, by the letters and texts they are known for: modifiers, synonyms, what the
 complex ones stand for, and what those do that give no field.
 */
module DateConversions {
  import opened Status
  import opened DateSpec
  import opened DateCompose
  import opened DateRead
  import opened DateRun
  import opened DateWrite
  import opened DateForms
  import opened DateParse
  import opened DateBranches
  import opened DateLimits
  import opened DateParts

  // ---- formats of one conversion

  /** A percent sign, a modifier if there is one, and a letter. */
  function Single(alt: Alt, c: char): string {
    match alt
    case Plain => ['%', c]
    case E => ['%', 'E', c]
    case O => ['%', 'O', c]
  }

  lemma LexSingle(alt: Alt, c: char)
    ensures Lex(Single(alt, c)) ==
      if c != 'E' && c != 'O' then [Conv(alt, c)] else [Broken]
  {
    var f := Single(alt, c);
    assert f[1..] == if alt == Plain then [c] else [f[1], c];
    assert alt != Plain ==> f[3..] == [];
    assert f[2..] == if alt == Plain then [] else [c];
    LexCons(f);
  }

  lemma ScanSingle(alt: Alt, c: char, s: string, tm: Time)
    ensures Scan(s, Single(alt, c), tm) ==
      if c != 'E' && c != 'O' then Do(Conv(alt, c), s, tm, false) else State(None, tm, false)
  {
    LexSingle(alt, c);
    var d := if c != 'E' && c != 'O' then Conv(alt, c) else Broken;
    assert [d] == [d] + [];
    RunCons(d, [], s, tm, false);
  }

  /** The letters in front of which a modifier may stand. */
  predicate Modifiable(alt: Alt, c: char) {
    match alt
    case Plain => true
    case E => c == 'c' || c == 'C' || c == 'x' || c == 'X' || c == 'y' || c == 'Y' || Unchecked(c)
    case O =>
      || c == 'd' || c == 'e' || c == 'H' || c == 'I' || c == 'M' || c == 'm' || c == 'S'
      || c == 'U' || c == 'W' || c == 'w' || c == 'u' || c == 'y' || Unchecked(c)
  }

  /** For these the code does not look. */
  predicate Unchecked(c: char) {
    c == 'g' || c == 'G' || c == 'V'
  }

  /** LEGAL_ALT, letter by letter: a modifier makes no difference, or the text is refused. */
  lemma ModifierIff(alt: Alt, c: char, s: string, tm: Time)
    ensures var r := Scan(s, Single(alt, c), tm);
      if Modifiable(alt, c) then r == Scan(s, Single(Plain, c), tm) else r.rest == None
  {
    ScanSingle(alt, c, s, tm);
    ScanSingle(Plain, c, s, tm);
    if KindOf(c) == Complex {
      ComplexModified(alt, c, s, tm);
    } else if KindOf(c) == YearPart {
      YearPartModified(alt, c, s, tm);
    } else {
      ElementaryModified(alt, c, s, tm);
    }
  }

  predicate ModifiedTo(alt: Alt, c: char, r: Read, plain: Read) {
    if Modifiable(alt, c) then r == plain else r.rest == None
  }

  lemma ComplexModified(alt: Alt, c: char, s: string, tm: Time)
    requires KindOf(c) == Complex
    ensures ModifiedTo(alt, c, ReadComplex(alt, c, s, tm), ReadComplex(Plain, c, s, tm))
  {
    assert c in "DFRrT" <==> c == 'D' || c == 'F' || c == 'R' || c == 'r' || c == 'T';
  }

  lemma YearPartModified(alt: Alt, c: char, s: string, tm: Time)
    requires KindOf(c) == YearPart
    ensures ModifiedTo(alt, c, ReadSplitYear(alt, c, s, tm, false), ReadSplitYear(Plain, c, s, tm, false))
  {
  }

  lemma ElementaryModified(alt: Alt, c: char, s: string, tm: Time)
    requires KindOf(c) != Complex && KindOf(c) != YearPart
    ensures ModifiedTo(alt, c, Elementary(alt, c, s, tm), Elementary(Plain, c, s, tm))
  {
    match KindOf(c) {
      case Name => NameModified(alt, c, s, tm);
      case Clock => ClockModified(alt, c, s, tm);
      case Date => DateModified(alt, c, s, tm);
      case Week => WeekModified(alt, c, s, tm);
      case _ =>
    }
  }

  lemma NameModified(alt: Alt, c: char, s: string, tm: Time)
    requires KindOf(c) == Name
    ensures ModifiedTo(alt, c, ReadName(alt, c, s, tm), ReadName(Plain, c, s, tm))
  {
    if alt != Plain {
      assert !Modifiable(alt, c);
      NameRefuses(alt, c, s, tm);
    }
  }

  lemma NameRefuses(alt: Alt, c: char, s: string, tm: Time)
    requires KindOf(c) == Name && alt != Plain
    ensures ReadName(alt, c, s, tm).rest == None
  {
  }

  lemma ClockModified(alt: Alt, c: char, s: string, tm: Time)
    requires KindOf(c) == Clock
    ensures ModifiedTo(alt, c, ReadClock(alt, c, s, tm), ReadClock(Plain, c, s, tm))
  {
  }

  lemma DateModified(alt: Alt, c: char, s: string, tm: Time)
    requires KindOf(c) == Date
    ensures ModifiedTo(alt, c, ReadDate(alt, c, s, tm), ReadDate(Plain, c, s, tm))
  {
  }

  lemma WeekModified(alt: Alt, c: char, s: string, tm: Time)
    requires KindOf(c) == Week
    ensures ModifiedTo(alt, c, ReadWeek(alt, c, s, tm), ReadWeek(Plain, c, s, tm))
  {
  }

  // ---- letters that mean the same, and letters that mean nothing

  /** Every letter with another that reads alike. */
  predicate Alike(c: char, c': char) {
    || (c == 'A' && c' == 'a') || (c == 'B' && c' == 'b') || (c == 'h' && c' == 'b')
    || (c == 'e' && c' == 'd') || (c == 'k' && c' == 'H') || (c == 'l' && c' == 'I')
    || (c == 'W' && c' == 'U') || (c == 'V' && c' == 'U') || (c == 't' && c' == 'n')
    || (c == 'x' && c' == 'D') || (c == 'X' && c' == 'T')
  }

  lemma AlikeRead(c: char, c': char, s: string, tm: Time)
    requires Alike(c, c')
    ensures Scan(s, Single(Plain, c), tm) == Scan(s, Single(Plain, c'), tm)
  {
    ScanSingle(Plain, c, s, tm);
    ScanSingle(Plain, c', s, tm);
    AlikeDo(c, c', s, tm);
  }

  lemma AlikeDo(c: char, c': char, s: string, tm: Time)
    requires Alike(c, c')
    ensures Do(Conv(Plain, c), s, tm, false) == Do(Conv(Plain, c'), s, tm, false)
  {
    if KindOf(c) == Complex {
      ComplexAlike(c, c', s, tm);
    } else if KindOf(c) == Name {
      NameAlike(c, c', s, tm);
    } else {
      OtherAlike(c, c', s, tm);
    }
  }

  lemma ComplexAlike(c: char, c': char, s: string, tm: Time)
    requires Alike(c, c') && KindOf(c) == Complex
    ensures KindOf(c') == Complex && ReadComplex(Plain, c, s, tm) == ReadComplex(Plain, c', s, tm)
  {
    assert Expansion(c) == Expansion(c');
  }

  lemma OtherAlike(c: char, c': char, s: string, tm: Time)
    requires Alike(c, c') && KindOf(c) != Complex && KindOf(c) != Name
    ensures KindOf(c') == KindOf(c) && KindOf(c) != YearPart
    ensures Elementary(Plain, c, s, tm) == Elementary(Plain, c', s, tm)
  {
  }

  lemma NameAlike(c: char, c': char, s: string, tm: Time)
    requires Alike(c, c') && KindOf(c) == Name
    ensures KindOf(c') == Name && ReadName(Plain, c, s, tm) == ReadName(Plain, c', s, tm)
  {
  }

  /** The letters of conversions. */
  predicate IsConversion(c: char) {
    || c == '%' || c == 'A' || c == 'a' || c == 'B' || c == 'b' || c == 'C' || c == 'c' || c == 'D' || c == 'd'
    || c == 'e' || c == 'F' || c == 'G' || c == 'g' || c == 'H' || c == 'h' || c == 'I' || c == 'j' || c == 'k'
    || c == 'l' || c == 'M' || c == 'm' || c == 'n' || c == 'p' || c == 'R' || c == 'r' || c == 'S' || c == 'T'
    || c == 't' || c == 'U' || c == 'u' || c == 'V' || c == 'W' || c == 'w' || c == 'X' || c == 'x' || c == 'Y'
    || c == 'y'
  }

  /** Any other letter is refused, but for those that ask for the time zone of the platform. */
  lemma NoConversion(c: char, s: string, tm: Time)
    requires !IsConversion(c) && c != 's' && c != 'Z' && c != 'z'
    ensures Scan(s, Single(Plain, c), tm) == State(None, tm, false)
  {
    ScanSingle(Plain, c, s, tm);
  }

  // ---- what the complex conversions read

  /** A conversion reads a text as these directives do. */
  ghost predicate ReadsAs(fmt: string, ds: seq<Directive>, s: string, tm: Time) {
    var r, inner := Scan(s, fmt, tm), Run(ds, s, tm, false);
    r.rest == inner.rest && r.tm == inner.tm
  }

  lemma ComplexScan(c: char, ds: seq<Directive>, s: string, tm: Time)
    requires KindOf(c) == Complex && Lex(Expansion(c)) == ds
    ensures ReadsAs(['%', c], ds, s, tm)
  {
    ScanSingle(Plain, c, s, tm);
    assert ReadComplex(Plain, c, s, tm).rest == Run(ds, s, tm, false).rest;
  }

  lemma JoinThree(a: string, b: string, c: string)
    ensures Join([a, b, c]) == a + b + c
  {
    assert [a, b, c][1..] == [b, c] && [b, c][1..] == [c] && [c][1..] == [];
    assert Join([c]) == c;
  }

  lemma JoinFour(a: string, b: string, c: string, d: string)
    ensures Join([a, b, c, d]) == a + b + c + d
  {
    assert [a, b, c, d][1..] == [b, c, d];
    JoinThree(b, c, d);
    assert a + (b + c + d) == a + b + c + d;
  }

  lemma JoinFive(a: string, b: string, c: string, d: string, e: string)
    ensures Join([a, b, c, d, e]) == a + b + c + d + e
  {
    assert [a, b, c, d, e][1..] == [b, c, d, e];
    JoinFour(b, c, d, e);
    assert a + (b + c + d + e) == a + b + c + d + e;
  }

  /** A text of whole fields, read to its end. */
  lemma DirectRun(ds: seq<Directive>, text: string, tm: Time, cur: Time)
    requires Valid(tm) && Separated(ds) && AllDirect(ds) && text == Text(ds, tm)
    requires Mentions(ds, Year) ==> 0 <= tm.year + TM_YEAR_BASE <= 9999
    ensures var r := Run(ds, text, cur, false);
      r.rest == Some([]) && forall f :: Get(r.tm, f) == if Mentions(ds, f) then Get(tm, f) else Get(cur, f)
  {
    PiecesWrittenFit(ds, [], tm);
    RunDirect(ds, Pieces(ds, tm), [], tm, cur, false);
    assert text + [] == text;
  }

  /** The same, with the time told that comes of it. */
  lemma ComplexUndone(fmt: string, ds: seq<Directive>, text: string, tm: Time, cur: Time, back: Time)
    requires Valid(tm) && Separated(ds) && AllDirect(ds) && text == Text(ds, tm) && ReadsAs(fmt, ds, text, cur)
    requires Mentions(ds, Year) ==> 0 <= tm.year + TM_YEAR_BASE <= 9999
    requires forall f :: Get(back, f) == if Mentions(ds, f) then Get(tm, f) else Get(cur, f)
    ensures ReadTo(fmt, text, cur, back)
  {
    DirectRun(ds, text, tm, cur);
    ByFields(Run(ds, text, cur, false).tm, back);
  }

  /** The text is read to its end, and leaves that time. */
  predicate ReadTo(fmt: string, text: string, cur: Time, back: Time) {
    var r := Scan(text, fmt, cur);
    r.rest == Some([]) && r.tm == back
  }

  // ---- %R, and %T or %X

  const HOUR_MINUTE: seq<Directive> := [Conv(Plain, 'H'), Literal(':'), Conv(Plain, 'M')]
  const HOUR_SECOND: seq<Directive> :=
    [Conv(Plain, 'H'), Literal(':'), Conv(Plain, 'M'), Literal(':'), Conv(Plain, 'S')]

  lemma LexHourMinute()
    ensures Lex("%H:%M") == HOUR_MINUTE
  {
    LexIs("%H:%M", HOUR_MINUTE, [0, 2, 3, 5]);
  }

  lemma HourMinutePart()
    ensures Separated(HOUR_MINUTE) && AllDirect(HOUR_MINUTE)
    ensures forall f :: Mentions(HOUR_MINUTE, f) <==> f == Hour || f == Min
  {
    var ds := HOUR_MINUTE;
    assert FieldOf(ds[0]) == Some(Hour) && FieldOf(ds[2]) == Some(Min);
  }

  lemma HourMinuteText(tm: Time)
    requires Valid(tm) && Separated(HOUR_MINUTE)
    ensures Text(HOUR_MINUTE, tm) == Two(tm.hour) + ":" + Two(tm.min)
  {
    assert Pieces(HOUR_MINUTE, tm) == [Two(tm.hour), ":", Two(tm.min)];
    JoinThree(Two(tm.hour), ":", Two(tm.min));
  }

  lemma HourMinuteStands(c: char)
    requires c == 'R'
    ensures Lex(Expansion(c)) == HOUR_MINUTE
  {
    LexHourMinute();
  }

  lemma HourMinuteReads(c: char, text: string, cur: Time)
    requires c == 'R'
    ensures ReadsAs(['%', c], HOUR_MINUTE, text, cur)
  {
    HourMinuteStands(c);
    ComplexScan(c, HOUR_MINUTE, text, cur);
  }

  /** "HH:MM" */
  lemma HourMinuteUndone(c: char, tm: Time, cur: Time)
    requires Valid(tm) && c == 'R'
    ensures ReadTo(['%', c], Two(tm.hour) + ":" + Two(tm.min), cur, cur.(hour := tm.hour, min := tm.min))
  {
    HourMinutePart();
    HourMinuteText(tm);
    HourMinuteReads(c, Text(HOUR_MINUTE, tm), cur);
    ComplexUndone(['%', c], HOUR_MINUTE, Text(HOUR_MINUTE, tm), tm, cur, cur.(hour := tm.hour, min := tm.min));
  }

  lemma LexHourSecond()
    ensures Lex("%H:%M:%S") == HOUR_SECOND
  {
    LexIs("%H:%M:%S", HOUR_SECOND, [0, 2, 3, 5, 6, 8]);
  }

  lemma HourSecondPart()
    ensures Separated(HOUR_SECOND) && AllDirect(HOUR_SECOND)
    ensures forall f :: Mentions(HOUR_SECOND, f) <==> f == Hour || f == Min || f == Sec
  {
    var ds := HOUR_SECOND;
    assert FieldOf(ds[0]) == Some(Hour) && FieldOf(ds[2]) == Some(Min) && FieldOf(ds[4]) == Some(Sec);
  }

  lemma HourSecondText(tm: Time)
    requires Valid(tm) && Separated(HOUR_SECOND)
    ensures Text(HOUR_SECOND, tm) == Two(tm.hour) + ":" + Two(tm.min) + ":" + Two(tm.sec)
  {
    assert Pieces(HOUR_SECOND, tm) == [Two(tm.hour), ":", Two(tm.min), ":", Two(tm.sec)];
    JoinFive(Two(tm.hour), ":", Two(tm.min), ":", Two(tm.sec));
  }

  lemma HourSecondStands(c: char)
    requires c == 'T' || c == 'X'
    ensures Lex(Expansion(c)) == HOUR_SECOND
  {
    LexHourSecond();
  }

  lemma HourSecondReads(c: char, text: string, cur: Time)
    requires c == 'T' || c == 'X'
    ensures ReadsAs(['%', c], HOUR_SECOND, text, cur)
  {
    HourSecondStands(c);
    ComplexScan(c, HOUR_SECOND, text, cur);
  }

  /** "HH:MM:SS" */
  lemma HourSecondUndone(c: char, tm: Time, cur: Time)
    requires Valid(tm) && (c == 'T' || c == 'X')
    ensures ReadTo(['%', c], Two(tm.hour) + ":" + Two(tm.min) + ":" + Two(tm.sec), cur,
                   cur.(hour := tm.hour, min := tm.min, sec := tm.sec))
  {
    HourSecondPart();
    HourSecondText(tm);
    HourSecondReads(c, Text(HOUR_SECOND, tm), cur);
    var back := cur.(hour := tm.hour, min := tm.min, sec := tm.sec);
    ComplexUndone(['%', c], HOUR_SECOND, Text(HOUR_SECOND, tm), tm, cur, back);
  }

  // ---- %F

  const YEAR_MONTH_DAY: seq<Directive> :=
    [Conv(Plain, 'Y'), Literal('-'), Conv(Plain, 'm'), Literal('-'), Conv(Plain, 'd')]

  lemma LexYearMonthDay()
    ensures Lex("%Y-%m-%d") == YEAR_MONTH_DAY
  {
    LexIs("%Y-%m-%d", YEAR_MONTH_DAY, [0, 2, 3, 5, 6, 8]);
  }

  lemma YearMonthDayPart()
    ensures Separated(YEAR_MONTH_DAY) && AllDirect(YEAR_MONTH_DAY)
    ensures forall f :: Mentions(YEAR_MONTH_DAY, f) <==> f == Year || f == Mon || f == Mday
  {
    var ds := YEAR_MONTH_DAY;
    assert FieldOf(ds[0]) == Some(Year) && FieldOf(ds[2]) == Some(Mon) && FieldOf(ds[4]) == Some(Mday);
  }

  lemma YearMonthDayText(tm: Time)
    requires Valid(tm) && Separated(YEAR_MONTH_DAY) && 0 <= tm.year + TM_YEAR_BASE
    ensures Text(YEAR_MONTH_DAY, tm) ==
      Decimal(tm.year + TM_YEAR_BASE) + "-" + Two(tm.mon + 1) + "-" + Two(tm.mday)
  {
    var year := Decimal(tm.year + TM_YEAR_BASE);
    assert Pieces(YEAR_MONTH_DAY, tm) == [year, "-", Two(tm.mon + 1), "-", Two(tm.mday)];
    JoinFive(year, "-", Two(tm.mon + 1), "-", Two(tm.mday));
  }

  lemma YearMonthDayStands(c: char)
    requires c == 'F'
    ensures Lex(Expansion(c)) == YEAR_MONTH_DAY
  {
    LexYearMonthDay();
  }

  lemma YearMonthDayReads(c: char, text: string, cur: Time)
    requires c == 'F'
    ensures ReadsAs(['%', c], YEAR_MONTH_DAY, text, cur)
  {
    YearMonthDayStands(c);
    ComplexScan(c, YEAR_MONTH_DAY, text, cur);
  }

  /** The year in full, the month, the day. */
  lemma YearMonthDayUndone(c: char, tm: Time, cur: Time)
    requires Valid(tm) && c == 'F' && 0 <= tm.year + TM_YEAR_BASE <= 9999
    ensures ReadTo(['%', c], Decimal(tm.year + TM_YEAR_BASE) + "-" + Two(tm.mon + 1) + "-" + Two(tm.mday), cur,
                   cur.(year := tm.year, mon := tm.mon, mday := tm.mday))
  {
    YearMonthDayPart();
    YearMonthDayText(tm);
    YearMonthDayReads(c, Text(YEAR_MONTH_DAY, tm), cur);
    var back := cur.(year := tm.year, mon := tm.mon, mday := tm.mday);
    ComplexUndone(['%', c], YEAR_MONTH_DAY, Text(YEAR_MONTH_DAY, tm), tm, cur, back);
  }

  // ---- %D or %x

  const MONTH_DAY: seq<Directive> := [Conv(Plain, 'm'), Literal('/'), Conv(Plain, 'd'), Literal('/')]

  lemma LexMonthDay()
    ensures Lex("%m/%d/%y") == MONTH_DAY + SHORT_YEAR
  {
    LexIs("%m/%d/%y", MONTH_DAY + SHORT_YEAR, [0, 2, 3, 5, 6, 8]);
  }

  lemma MonthDayPart()
    ensures Separated(MONTH_DAY) && AllDirect(MONTH_DAY)
    ensures forall f :: Mentions(MONTH_DAY, f) <==> f == Mon || f == Mday
  {
    var ds := MONTH_DAY;
    assert FieldOf(ds[0]) == Some(Mon) && FieldOf(ds[2]) == Some(Mday);
  }

  lemma MonthDayText(tm: Time)
    requires Valid(tm) && Separated(MONTH_DAY)
    ensures Text(MONTH_DAY, tm) == Two(tm.mon + 1) + "/" + Two(tm.mday) + "/"
  {
    assert Pieces(MONTH_DAY, tm) == [Two(tm.mon + 1), "/", Two(tm.mday), "/"];
    JoinFour(Two(tm.mon + 1), "/", Two(tm.mday), "/");
  }

  lemma MonthDayStands(c: char)
    requires c == 'D' || c == 'x'
    ensures Lex(Expansion(c)) == MONTH_DAY + SHORT_YEAR
  {
    LexMonthDay();
  }

  lemma MonthDayReads(c: char, text: string, cur: Time)
    requires c == 'D' || c == 'x'
    ensures ReadsAs(['%', c], MONTH_DAY + SHORT_YEAR, text, cur)
  {
    MonthDayStands(c);
    ComplexScan(c, MONTH_DAY + SHORT_YEAR, text, cur);
  }

  lemma ShortYearRead(yy: nat, cur: Time, tm: Time)
    requires yy < 100 && tm == cur.(year := yy - TM_YEAR_BASE)
    ensures Run(SHORT_YEAR, Two(yy), cur, false) == State(Some([]), cur.(year := Pivot(yy)), true)
  {
    PartFits('y', yy, [], tm, cur);
    AfterShortYear(yy, cur, tm);
    OneRead(Conv(Plain, 'y'), Two(yy), [], tm, cur, false);
    assert Two(yy) + [] == Two(yy);
  }

  lemma AfterShortYear(yy: nat, cur: Time, tm: Time)
    requires yy < 100 && tm == cur.(year := yy - TM_YEAR_BASE)
    ensures After(Conv(Plain, 'y'), cur, tm, false) == cur.(year := Pivot(yy)) && Splits(Conv(Plain, 'y'))
  {
  }

  lemma MonthDayRun(tm: Time, cur: Time, yy: nat)
    requires Valid(tm) && yy < 100 && Separated(MONTH_DAY)
    ensures Run(MONTH_DAY + SHORT_YEAR, Text(MONTH_DAY, tm) + Two(yy), cur, false) ==
      State(Some([]), cur.(mon := tm.mon, mday := tm.mday, year := Pivot(yy)), true)
  {
    MonthDayPart();
    RunPart(MONTH_DAY, Two(yy), tm, cur, false);
    var text, cur' := Text(MONTH_DAY, tm) + Two(yy), cur.(mon := tm.mon, mday := tm.mday);
    ByFields(Run(MONTH_DAY, text, cur, false).tm, cur');
    RunAppend(MONTH_DAY, SHORT_YEAR, text, cur, false);
    ShortYearRead(yy, cur', cur'.(year := yy - TM_YEAR_BASE));
  }

  /** The month, the day, and the year without its century. */
  lemma MonthDayYearUndone(c: char, tm: Time, cur: Time, yy: nat)
    requires Valid(tm) && yy < 100 && (c == 'D' || c == 'x')
    ensures ReadTo(['%', c], Two(tm.mon + 1) + "/" + Two(tm.mday) + "/" + Two(yy), cur,
                   cur.(mon := tm.mon, mday := tm.mday, year := if yy <= 68 then 100 + yy else yy))
  {
    MonthDayPart();
    MonthDayText(tm);
    MonthDayReads(c, Text(MONTH_DAY, tm) + Two(yy), cur);
    MonthDayRun(tm, cur, yy);
  }

  // ---- %c and %r

  lemma AsctimeStands(c: char)
    requires c == 'c'
    ensures Lex(Expansion(c)) == DIRS_ASCTIME
  {
    LexAsctime();
  }

  lemma AsctimeReads(c: char, text: string, cur: Time)
    requires c == 'c'
    ensures ReadsAs(['%', c], DIRS_ASCTIME, text, cur)
  {
    AsctimeStands(c);
    ComplexScan(c, DIRS_ASCTIME, text, cur);
  }

  /** asctime's text. */
  lemma AsctimeUndone(c: char, tm: Time, cur: Time)
    requires Valid(tm) && c == 'c' && 0 <= tm.year + TM_YEAR_BASE <= 9999
    ensures ReadTo(['%', c], PrintAsctime(tm), cur, tm.(yday := cur.yday))
  {
    AsctimeReads(c, PrintAsctime(tm), cur);
    OwnAsctime(tm, cur);
    LexAsctime();
  }

  /** The clock of twelve. */
  lemma TwelveHoursUndone(c: char, tm: Time, cur: Time)
    requires Valid(tm) && c == 'r'
    ensures ReadTo(['%', c], Two(Hour12(tm.hour)) + (BehindText(tm) + Half(tm)), cur,
                   cur.(hour := tm.hour, min := tm.min, sec := tm.sec))
  {
    ComplexScan(c, Lex(Expansion(c)), Clock12(tm), cur);
    Clock12Undone(tm, cur);
  }

  // ---- AM or PM, and the conversions that give no field

  /** %p reads the half of the day, and refuses an hour that is none of a clock of twelve. */
  lemma HalfDayIff(c: char, pm: bool, ap: string, rest: string, cur: Time)
    requires c == 'p' && SameLetters(if pm then "PM" else "AM", ap)
    ensures var r := Scan(ap + rest, ['%', c], cur);
      if cur.hour > 11 then r.rest == None
      else r == State(Some(rest), cur.(hour := if pm then cur.hour + 12 else cur.hour), false)
  {
    ScanSingle(Plain, c, ap + rest, cur);
    HalfReads(ap, rest, if pm then 1 else 0);
  }

  /** A second digit is read while ten times the first stays within the limit. */
  lemma WeekDigits(n: nat, rest: string)
    requires n < 100
    ensures ConvNum(Two(n) + rest, 0, 0, 53) ==
      if n <= 53 then Num(Some(rest), n)
      else if n < 60 then Num(None, 0)
      else Num(Some([Two(n)[1]] + rest), n / 10)
  {
    if n <= 53 {
      TwoFits(n, rest, 0, 53);
      ConvNumReads(Two(n), rest, 0, n, 0, 53);
    } else {
      var s := Two(n) + rest;
      assert s[1..] == [Two(n)[1]] + rest && s[1..][1..] == rest;
      assert MoreDigits(rest, n, 0, 53) == (rest, n);
      WidthStep(5);
    }
  }

  /** The week conversions check a range and leave the time alone; of a number from 60 on they read the
      first digit only. */
  lemma WeekNumber(c: char, n: nat, rest: string, cur: Time)
    requires n < 100 && (c == 'U' || c == 'W' || c == 'V')
    ensures var r := Scan(Two(n) + rest, ['%', c], cur);
      if n <= 53 then r == State(Some(rest), cur, false)
      else if n < 60 then r.rest == None
      else r == State(Some([Two(n)[1]] + rest), cur, false)
  {
    ScanSingle(Plain, c, Two(n) + rest, cur);
    WeekDigits(n, rest);
  }

  /** The years that go with them are skipped: two digits, or any character and the digits behind it. */
  lemma WeekYear(c: char, n: nat, rest: string, cur: Time)
    requires n < 100 && c == 'g'
    ensures Scan(Two(n) + rest, ['%', c], cur) == State(Some(rest), cur, false)
  {
    ScanSingle(Plain, c, Two(n) + rest, cur);
    TwoFits(n, rest, 0, 99);
    ConvNumReads(Two(n), rest, 0, n, 0, 99);
  }

  lemma WeekYearInFull(c: char, x: char, digits: string, rest: string, cur: Time)
    requires c == 'G' && AllDigits(digits) && !StartsDigit(rest)
    ensures Scan([x] + digits + rest, ['%', c], cur) == State(Some(rest), cur, false)
  {
    var s := [x] + digits + rest;
    ScanSingle(Plain, c, s, cur);
    assert s[1..] == digits + rest;
    SkipDigitsReads(digits, rest);
  }

  lemma {:induction false} SkipDigitsReads(digits: string, rest: string)
    requires AllDigits(digits) && !StartsDigit(rest)
    ensures SkipDigits(digits + rest) == rest
    decreases |digits|
  {
    if digits == [] {
      assert digits + rest == rest;
    } else {
      assert (digits + rest)[1..] == digits[1..] + rest;
      SkipDigitsReads(digits[1..], rest);
    }
  }

  // ---- numbers that are refused

  lemma TwelveDigits(n: nat, rest: string, dest: int)
    requires n < 100
    ensures ConvNum(Two(n) + rest, dest, 1, 12) ==
      if 1 <= n <= 12 then Num(Some(rest), n)
      else if n < 20 then Num(None, dest)
      else Num(Some([Two(n)[1]] + rest), n / 10)
  {
    if 1 <= n <= 12 {
      TwoFits(n, rest, 1, 12);
      ConvNumReads(Two(n), rest, dest, n, 1, 12);
    } else {
      var s := Two(n) + rest;
      assert s[1..] == [Two(n)[1]] + rest && s[1..][1..] == rest;
      assert MoreDigits(rest, n, 0, 12) == (rest, n);
    }
  }

  /** The clock of twelve has hours from 1 to 12, and twelve is none; of a number from 20 on the first
      digit is read. */
  lemma TwelveHourIff(c: char, n: nat, rest: string, cur: Time)
    requires n < 100 && (c == 'I' || c == 'l')
    ensures var r := Scan(Two(n) + rest, ['%', c], cur);
      if 1 <= n <= 12 then r == State(Some(rest), cur.(hour := if n == 12 then 0 else n), false)
      else if n < 20 then r.rest == None
      else r == State(Some([Two(n)[1]] + rest), cur.(hour := n / 10), false)
  {
    ScanSingle(Plain, c, Two(n) + rest, cur);
    TwelveDigits(n, rest, cur.hour);
  }

  /** The days of the week from Monday on are numbered 1 to 7; from Sunday on, 0 to 6. */
  lemma WeekdayNumberIff(c: char, n: nat, rest: string, cur: Time)
    requires n < 10 && (c == 'u' || c == 'w')
    ensures var r := Scan([DigitChar(n)] + rest, ['%', c], cur);
      if (if c == 'u' then 1 <= n <= 7 else n <= 6)
      then r == State(Some(rest), cur.(wday := if n == 7 then 0 else n), false)
      else r.rest == None
  {
    var s := [DigitChar(n)] + rest;
    ScanSingle(Plain, c, s, cur);
    assert s[1..] == rest;
    assert MoreDigits(rest, n, 0, 7) == (rest, n) && MoreDigits(rest, n, 0, 6) == (rest, n);
  }

  // ---- the century once more

  lemma CenturyAgain(n: nat)
    requires n <= 9999
    ensures n / 100 * 100 - TM_YEAR_BASE + Remainder(n - TM_YEAR_BASE, 100) ==
      if n >= 1900 || n % 100 == 0 then n - TM_YEAR_BASE else n - 100 - TM_YEAR_BASE
  {
    if n < 1900 {
      var a, q, r := 1900 - n, n / 100, n % 100;
      assert n == 100 * q + r && a == 100 * (19 - q) - r;
    }
  }

  lemma ThreeRead(tm: Time, n: nat)
    requires n <= 9999 && tm.year == n - TM_YEAR_BASE
    ensures Run([Conv(Plain, 'C')], Two(n / 100), tm, true) == State(Some([]),
      tm.(year := if n >= 1900 || n % 100 == 0 then n - TM_YEAR_BASE else n - 100 - TM_YEAR_BASE), true)
  {
    PartFits('C', n, [], tm, tm);
    OneRead(Conv(Plain, 'C'), Two(n / 100), [], tm, tm, true);
    assert Two(n / 100) + [] == Two(n / 100);
    CenturyAgain(n);
  }

  lemma TwoReadOn(d: Directive, d': Directive, s: string, s': string, rest: string, tm: Time, cur: Time, cur': Time)
    requires Fits(d, s, s' + rest, tm, cur) && cur' == After(d, cur, tm, false) && Fits(d', s', rest, tm, cur')
    requires Splits(d) && Splits(d')
    ensures Run([d] + [d'], s + (s' + rest), cur, false) == State(Some(rest), After(d', cur', tm, true), true)
  {
    OneRead(d, s, s' + rest, tm, cur, false);
    OneRead(d', s', rest, tm, cur', true);
    RunAppend([d], [d'], s + (s' + rest), cur, false);
  }

  lemma YearInFront(n: nat, rest: string, tm: Time, cur: Time)
    requires n <= 9999 && tm == cur.(year := n - TM_YEAR_BASE)
    ensures Run([Conv(Plain, 'C')] + [Conv(Plain, 'y')], Two(n / 100) + (Two(n % 100) + rest), cur, false) ==
      State(Some(rest), tm, true)
  {
    var cur' := After(Conv(Plain, 'C'), cur, tm, false);
    PartFits('C', n, Two(n % 100) + rest, tm, cur);
    PartFits('y', n, rest, tm, cur');
    TwoReadOn(Conv(Plain, 'C'), Conv(Plain, 'y'), Two(n / 100), Two(n % 100), rest, tm, cur, cur');
    CenturyYearAfter(n, tm, cur);
  }

  lemma LexCenturyTwice()
    ensures Lex("%C%y%C") == [Conv(Plain, 'C')] + [Conv(Plain, 'y')] + [Conv(Plain, 'C')]
  {
    LexIs("%C%y%C", [Conv(Plain, 'C'), Conv(Plain, 'y'), Conv(Plain, 'C')], [0, 2, 4, 6]);
  }

  /** The century read again behind the year: C's remainder truncates, so the year comes back if and only
      if it is from 1900 on or a whole century; any other comes out a hundred years early. */
  lemma CenturyTwiceIff(n: nat, cur: Time)
    requires n <= 9999
    ensures var r := Scan(Two(n / 100) + (Two(n % 100) + Two(n / 100)), "%C%y%C", cur);
      && r.rest == Some([]) && (r.tm.year == n - TM_YEAR_BASE <==> n >= 1900 || n % 100 == 0)
      && r.tm == cur.(year := if n >= 1900 || n % 100 == 0 then n - TM_YEAR_BASE else n - 100 - TM_YEAR_BASE)
  {
    var tm, ds := cur.(year := n - TM_YEAR_BASE), [Conv(Plain, 'C')] + [Conv(Plain, 'y')];
    LexCenturyTwice();
    YearInFront(n, Two(n / 100), tm, cur);
    RunAppend(ds, [Conv(Plain, 'C')], Two(n / 100) + (Two(n % 100) + Two(n / 100)), cur, false);
    ThreeRead(tm, n);
  }
}
