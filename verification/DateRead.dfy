/**
 Reading back what was written: for every format, text that renders a broken-down time piece by
 piece is parsed to the end, and gives the fields back.
 */
module DateRead {
  import opened Status
  import opened DateSpec
  import opened DateCompose

  // ---- numbers

  predicate AllDigits(s: string) {
    forall i :: 0 <= i < |s| ==> IsDigit(s[i])
  }

  /** The number that digits make behind a number. */
  function Total(result: nat, s: string): nat
    requires AllDigits(s)
    decreases |s|
  {
    if s == [] then result else Total(result * 10 + Digit(s[0]), s[1..])
  }

  /** How many digits a limit still allows. */
  function Width(ulim: nat): nat {
    if ulim == 0 then 0 else 1 + Width(ulim / 10)
  }

  lemma {:induction false} TotalGrows(result: nat, s: string)
    requires AllDigits(s)
    ensures Total(result, s) >= result
    decreases |s|
  {
    if s != [] { TotalGrows(result * 10 + Digit(s[0]), s[1..]); }
  }

  predicate StartsDigit(s: string) {
    s != [] && IsDigit(s[0])
  }

  lemma {:induction false} MoreDigitsRead(s: string, rest: string, result: nat, rulim: nat, ulim: nat)
    requires AllDigits(s) && Total(result, s) <= ulim && |s| <= Width(rulim)
    requires |s| == Width(rulim) || !StartsDigit(rest)
    ensures MoreDigits(s + rest, result, rulim, ulim) == (rest, Total(result, s))
  {
    if s == [] {
      assert s + rest == rest;
    } else {
      assert (s + rest)[1..] == s[1..] + rest;
      TotalGrows(result * 10 + Digit(s[0]), s[1..]);
      MoreDigitsRead(s[1..], rest, result * 10 + Digit(s[0]), rulim / 10, ulim);
    }
  }

  /** A numeral that conv_num reads to its end: within the limits, and as long as they allow, or not
      followed by a digit. */
  predicate NumFits(s: string, rest: string, v: int, llim: nat, ulim: nat) {
    && 1 <= |s| <= Width(ulim) && AllDigits(s) && Total(0, s) == v && llim <= v <= ulim
    && (|s| == Width(ulim) || !StartsDigit(rest))
  }

  lemma ConvNumReads(s: string, rest: string, dest: int, v: int, llim: nat, ulim: nat)
    requires NumFits(s, rest, v, llim, ulim)
    ensures ConvNum(s + rest, dest, llim, ulim) == Num(Some(rest), v)
  {
    assert (s + rest)[1..] == s[1..] + rest;
    MoreDigitsRead(s[1..], rest, Digit(s[0]), ulim / 10, ulim);
  }

  // ---- names

  predicate IsLetter(c: char) {
    'a' <= Lower(c) <= 'z'
  }

  /** Equal but for case. */
  predicate SameLetters(a: string, b: string) {
    |a| == |b| && Matches(a, b)
  }

  /** The first three letters, in one number. */
  function Code(s: string): int
    requires |s| >= 3
  {
    Lower(s[0]) as int * 0x1_0000 + Lower(s[1]) as int * 0x100 + Lower(s[2]) as int
  }

  predicate SameStart(a: string, b: string) {
    |a| >= 3 && |b| >= 3 && Lower(a[0]) == Lower(b[0]) && Lower(a[1]) == Lower(b[1]) && Lower(a[2]) == Lower(b[2])
  }

  /** A name of letters and its abbreviation to three. */
  predicate Row(full: string, ab: string) {
    |ab| == 3 && SameStart(full, ab) && forall k :: 0 <= k < |full| ==> IsLetter(full[k])
  }

  /** A table of names and abbreviations that three letters tell apart. */
  predicate Table(full: seq<string>, ab: seq<string>) {
    && |full| == |ab|
    && (forall i :: 0 <= i < |full| ==> Row(full[i], ab[i]))
    && (forall i, j :: 0 <= i < |full| && 0 <= j < |full| && SameStart(full[i], full[j]) ==> i == j)
  }

  const DAY_CODES := [0x73756e, 0x6d6f6e, 0x747565, 0x776564, 0x746875, 0x667269, 0x736174]
  const MON_CODES := [
    0x6a616e, 0x666562, 0x6d6172, 0x617072, 0x6d6179, 0x6a756e, 0x6a756c,
    0x617567, 0x736570, 0x6f6374, 0x6e6f76, 0x646563
  ]

  lemma DayRow(i: nat)
    requires i < 7
    ensures Row(DAY[i], ABDAY[i]) && Code(DAY[i]) == DAY_CODES[i]
  {
    if i == 0 { assert DAY[i] == "Sunday"; }
    else if i == 1 { assert DAY[i] == "Monday"; }
    else if i == 2 { assert DAY[i] == "Tuesday"; }
    else if i == 3 { assert DAY[i] == "Wednesday"; }
    else if i == 4 { assert DAY[i] == "Thursday"; }
    else if i == 5 { assert DAY[i] == "Friday"; }
    else if i == 6 { assert DAY[i] == "Saturday"; }
  }

  lemma MonthRow(i: nat)
    requires i < 12
    ensures Row(MON[i], ABMON[i]) && Code(MON[i]) == MON_CODES[i]
  {
    if i < 6 { EarlyMonthRow(i); } else { LateMonthRow(i); }
  }

  lemma EarlyMonthRow(i: nat)
    requires i < 6
    ensures Row(MON[i], ABMON[i]) && Code(MON[i]) == MON_CODES[i]
  {
    if i == 0 { assert MON[i] == "January"; }
    else if i == 1 { assert MON[i] == "February"; }
    else if i == 2 { assert MON[i] == "March"; }
    else if i == 3 { assert MON[i] == "April"; }
    else if i == 4 { assert MON[i] == "May"; }
    else if i == 5 { assert MON[i] == "June"; }
  }

  lemma LateMonthRow(i: nat)
    requires 6 <= i < 12
    ensures Row(MON[i], ABMON[i]) && Code(MON[i]) == MON_CODES[i]
  {
    if i == 6 { assert MON[i] == "July"; }
    else if i == 7 { assert MON[i] == "August"; }
    else if i == 8 { assert MON[i] == "September"; }
    else if i == 9 { assert MON[i] == "October"; }
    else if i == 10 { assert MON[i] == "November"; }
    else if i == 11 { assert MON[i] == "December"; }
  }

  lemma FromRows(full: seq<string>, ab: seq<string>, codes: seq<int>)
    requires |full| == |ab| == |codes|
    requires forall i :: 0 <= i < |full| ==> Row(full[i], ab[i]) && Code(full[i]) == codes[i]
    requires forall i, j :: 0 <= i < j < |codes| ==> codes[i] != codes[j]
    ensures Table(full, ab)
  {
    forall i, j | 0 <= i < |full| && 0 <= j < |full| && SameStart(full[i], full[j])
      ensures i == j
    {
      assert Code(full[i]) == Code(full[j]);
      assert codes[i] == codes[j];
    }
  }

  lemma DaysAreTable()
    ensures Table(DAY, ABDAY)
  {
    forall i | 0 <= i < 7
      ensures Row(DAY[i], ABDAY[i]) && Code(DAY[i]) == DAY_CODES[i]
    {
      DayRow(i);
    }
    FromRows(DAY, ABDAY, DAY_CODES);
  }

  lemma MonthsAreTable()
    ensures Table(MON, ABMON)
  {
    forall i | 0 <= i < 12
      ensures Row(MON[i], ABMON[i]) && Code(MON[i]) == MON_CODES[i]
    {
      MonthRow(i);
    }
    FromRows(MON, ABMON, MON_CODES);
  }

  /** A name in full or abbreviated, in any case, with no letter behind the abbreviation. */
  predicate NameFits(s: string, rest: string, full: seq<string>, ab: seq<string>, i: int) {
    && 0 <= i < |full| == |ab|
    && (SameLetters(full[i], s) || (SameLetters(ab[i], s) && (rest == [] || !IsLetter(rest[0]))))
  }

  /** A name is found where it is in the table. */
  lemma FindStringReads(s: string, rest: string, tgt: int, full: seq<string>, ab: seq<string>, i: int)
    requires Table(full, ab) && NameFits(s, rest, full, ab, i)
    ensures FindString(s + rest, tgt, full, ab) == Num(Some(rest), i)
  {
    var t := s + rest;
    assert SameStart(full[i], t) && SameStart(ab[i], t);
    OnlyMatch(full, ab, t, i);
    OnlyAbMatch(full, ab, t, i);
    if !SameLetters(full[i], s) && |full[i]| > 3 && |t| > 3 {
      assert t[3] == rest[0] && !IsLetter(t[3]) && IsLetter(full[i][3]);
    }
  }

  lemma OnlyMatch(full: seq<string>, ab: seq<string>, t: string, i: nat)
    requires Table(full, ab) && i < |full| && SameStart(full[i], t)
    ensures FirstMatch(full, t) == if Matches(full[i], t) then i else |full|
  {
    var j := FirstMatch(full, t);
    assert j < |full| ==> SameStart(full[j], full[i]);
  }

  lemma OnlyAbMatch(full: seq<string>, ab: seq<string>, t: string, i: nat)
    requires Table(full, ab) && i < |full| && SameStart(ab[i], t)
    ensures FirstMatch(ab, t) == i
  {
    var j := FirstMatch(ab, t);
    assert j < |ab| ==> SameStart(ab[j], t) && SameStart(full[j], full[i]);
    assert Matches(ab[i], t);
  }

  // ---- directives

  predicate AllSpaces(s: string) {
    forall i :: 0 <= i < |s| ==> IsSpace(s[i])
  }

  lemma {:induction false} SkipSpacesReads(s: string, rest: string)
    requires AllSpaces(s) && (rest == [] || !IsSpace(rest[0]))
    ensures SkipSpaces(s + rest) == rest
  {
    if s == [] {
      assert s + rest == rest;
    } else {
      assert (s + rest)[1..] == s[1..] + rest;
      SkipSpacesReads(s[1..], rest);
    }
  }

  /** The hour on a clock of twelve, from 1 to 12. */
  function Hour12(hour: int): int {
    (hour + 11) % 12 + 1
  }

  /** Some text is what a directive writes for the time `tm`, in a form that it can read in front of
      `rest`, having read `cur` so far. */
  predicate Fits(d: Directive, s: string, rest: string, tm: Time, cur: Time) {
    match d
    case Space(_) => SpaceFits(s, rest)
    case Literal(c) => s == [c]
    case Broken => false
    case Conv(alt, c) => alt == Plain && ConvFits(c, s, rest, tm, cur)
  }

  predicate ConvFits(c: char, s: string, rest: string, tm: Time, cur: Time) {
    match KindOf(c)
    case Percent => s == [c]
    case Name => FitsName(c, s, rest, tm, cur)
    case Clock => FitsClock(c, s, rest, tm)
    case Date => FitsDate(c, s, rest, tm)
    case Week => FitsWeek(c, s, rest, tm)
    case Blank => SpaceFits(s, rest)
    case YearPart => FitsYearPart(c, s, rest, tm)
    case _ => false
  }

  predicate SpaceFits(s: string, rest: string) {
    AllSpaces(s) && (rest == [] || !IsSpace(rest[0]))
  }

  predicate FitsName(c: char, s: string, rest: string, tm: Time, cur: Time) {
    if c == 'A' || c == 'a' then NameFits(s, rest, DAY, ABDAY, tm.wday)
    else if c == 'B' || c == 'b' || c == 'h' then NameFits(s, rest, MON, ABMON, tm.mon)
    else cur.hour <= 11 && SameLetters(AM_PM[if tm.hour >= 12 then 1 else 0], s)
  }

  predicate FitsClock(c: char, s: string, rest: string, tm: Time) {
    if c == 'k' || c == 'H' then NumFits(s, rest, tm.hour, 0, 23)
    else if c == 'l' || c == 'I' then NumFits(s, rest, Hour12(tm.hour), 1, 12)
    else if c == 'M' then NumFits(s, rest, tm.min, 0, 59)
    else NumFits(s, rest, tm.sec, 0, 61)
  }

  predicate FitsDate(c: char, s: string, rest: string, tm: Time) {
    if c == 'd' || c == 'e' then NumFits(s, rest, tm.mday, 1, 31)
    else if c == 'j' then NumFits(s, rest, tm.yday + 1, 1, 366)
    else if c == 'm' then NumFits(s, rest, tm.mon + 1, 1, 12)
    else NumFits(s, rest, tm.year + TM_YEAR_BASE, 0, 9999)
  }

  predicate FitsWeek(c: char, s: string, rest: string, tm: Time) {
    if c == 'w' then NumFits(s, rest, tm.wday, 0, 6)
    else if c == 'u' then 0 <= tm.wday < 7 && NumFits(s, rest, if tm.wday == 0 then 7 else tm.wday, 1, 7)
    else false
  }

  predicate FitsYearPart(c: char, s: string, rest: string, tm: Time) {
    var year := tm.year + TM_YEAR_BASE;
    NumFits(s, rest, if c == 'C' then year / 100 else year % 100, 0, 99)
  }

  /** What a directive gives back of `tm`. */
  function After(d: Directive, cur: Time, tm: Time, split: bool): Time {
    if !d.Conv? then cur else
    match KindOf(d.c)
    case Name => AfterName(d.c, cur, tm)
    case Clock => AfterClock(d.c, cur, tm)
    case Date => AfterDate(d.c, cur, tm)
    case Week => cur.(wday := tm.wday)
    case YearPart => AfterYearPart(d.c, cur, tm, split)
    case _ => cur
  }

  function AfterName(c: char, cur: Time, tm: Time): Time {
    if c == 'A' || c == 'a' then cur.(wday := tm.wday)
    else if c == 'B' || c == 'b' || c == 'h' then cur.(mon := tm.mon)
    else cur.(hour := cur.hour + if tm.hour >= 12 then 12 else 0)
  }

  function AfterClock(c: char, cur: Time, tm: Time): Time {
    if c == 'k' || c == 'H' then cur.(hour := tm.hour)
    else if c == 'l' || c == 'I' then cur.(hour := tm.hour % 12)
    else if c == 'M' then cur.(min := tm.min)
    else cur.(sec := tm.sec)
  }

  function AfterDate(c: char, cur: Time, tm: Time): Time {
    if c == 'd' || c == 'e' then cur.(mday := tm.mday)
    else if c == 'j' then cur.(yday := tm.yday)
    else if c == 'm' then cur.(mon := tm.mon)
    else cur.(year := tm.year)
  }

  function AfterYearPart(c: char, cur: Time, tm: Time, split: bool): Time {
    var year := tm.year + TM_YEAR_BASE;
    if c == 'C' then cur.(year := year / 100 * 100 - TM_YEAR_BASE + if split then Remainder(cur.year, 100) else 0)
    else cur.(year := if split then year % 100 + Quotient(cur.year, 100) * 100 else Pivot(year % 100))
  }

  /** A directive reads what fits it. */
  lemma DoReads(d: Directive, s: string, rest: string, tm: Time, cur: Time, split: bool)
    requires Fits(d, s, rest, tm, cur)
    ensures Do(d, s + rest, cur, split) == State(Some(rest), After(d, cur, tm, split), split || Splits(d))
  {
    match d {
      case Space(_) => SkipSpacesReads(s, rest);
      case Literal(c) => assert (s + rest)[1..] == rest;
      case Conv(_, c) =>
        if KindOf(c) == YearPart {
          YearPartReads(c, s, rest, tm, cur, split);
        } else {
          ElementaryReads(c, s, rest, tm, cur);
        }
    }
  }

  lemma ElementaryReads(c: char, s: string, rest: string, tm: Time, cur: Time)
    requires ConvFits(c, s, rest, tm, cur) && KindOf(c) != YearPart
    ensures Elementary(Plain, c, s + rest, cur) == Read(Some(rest), After(Conv(Plain, c), cur, tm, false))
  {
    match KindOf(c) {
      case Percent => assert (s + rest)[1..] == rest;
      case Name => NameReads(c, s, rest, tm, cur);
      case Clock => ClockReads(c, s, rest, tm, cur);
      case Date => DateReads(c, s, rest, tm, cur);
      case Week => WeekReads(c, s, rest, tm, cur);
      case Blank => SkipSpacesReads(s, rest);
    }
  }

  lemma NameReads(c: char, s: string, rest: string, tm: Time, cur: Time)
    requires KindOf(c) == Name && FitsName(c, s, rest, tm, cur)
    ensures ReadName(Plain, c, s + rest, cur) == Read(Some(rest), AfterName(c, cur, tm))
  {
    if c == 'A' || c == 'a' {
      DaysAreTable();
      FindStringReads(s, rest, cur.wday, DAY, ABDAY, tm.wday);
    } else if c == 'B' || c == 'b' || c == 'h' {
      MonthsAreTable();
      FindStringReads(s, rest, cur.mon, MON, ABMON, tm.mon);
    } else {
      HalfReads(s, rest, if tm.hour >= 12 then 1 else 0);
    }
  }

  lemma HalfReads(s: string, rest: string, i: nat)
    requires i < 2 && SameLetters(AM_PM[i], s)
    ensures FindString(s + rest, 0, AM_PM, []) == Num(Some(rest), i)
  {
    assert Matches(AM_PM[i], s + rest);
    assert !Matches(AM_PM[1 - i], s + rest) by {
      assert Lower(AM_PM[0][0]) == 'a' && Lower(AM_PM[1][0]) == 'p';
    }
    assert (s + rest)[2..] == rest;
  }

  lemma ClockReads(c: char, s: string, rest: string, tm: Time, cur: Time)
    requires KindOf(c) == Clock && FitsClock(c, s, rest, tm)
    ensures ReadClock(Plain, c, s + rest, cur) == Read(Some(rest), AfterClock(c, cur, tm))
  {
    if c == 'k' || c == 'H' {
      ConvNumReads(s, rest, cur.hour, tm.hour, 0, 23);
    } else if c == 'l' || c == 'I' {
      ConvNumReads(s, rest, cur.hour, Hour12(tm.hour), 1, 12);
    } else if c == 'M' {
      ConvNumReads(s, rest, cur.min, tm.min, 0, 59);
    } else {
      ConvNumReads(s, rest, cur.sec, tm.sec, 0, 61);
    }
  }

  lemma DateReads(c: char, s: string, rest: string, tm: Time, cur: Time)
    requires KindOf(c) == Date && FitsDate(c, s, rest, tm)
    ensures ReadDate(Plain, c, s + rest, cur) == Read(Some(rest), AfterDate(c, cur, tm))
  {
    if c == 'd' || c == 'e' {
      ConvNumReads(s, rest, cur.mday, tm.mday, 1, 31);
    } else if c == 'j' {
      ConvNumReads(s, rest, 1, tm.yday + 1, 1, 366);
    } else if c == 'm' {
      ConvNumReads(s, rest, 1, tm.mon + 1, 1, 12);
    } else {
      ConvNumReads(s, rest, TM_YEAR_BASE, tm.year + TM_YEAR_BASE, 0, 9999);
    }
  }

  lemma WeekReads(c: char, s: string, rest: string, tm: Time, cur: Time)
    requires KindOf(c) == Week && FitsWeek(c, s, rest, tm)
    ensures ReadWeek(Plain, c, s + rest, cur) == Read(Some(rest), cur.(wday := tm.wday))
  {
    if c == 'w' {
      ConvNumReads(s, rest, cur.wday, tm.wday, 0, 6);
    } else {
      ConvNumReads(s, rest, 0, if tm.wday == 0 then 7 else tm.wday, 1, 7);
    }
  }

  lemma YearPartReads(c: char, s: string, rest: string, tm: Time, cur: Time, split: bool)
    requires KindOf(c) == YearPart && FitsYearPart(c, s, rest, tm)
    ensures ReadSplitYear(Plain, c, s + rest, cur, split) == Read(Some(rest), AfterYearPart(c, cur, tm, split))
  {
    if c == 'C' {
      ConvNumReads(s, rest, 20, (tm.year + TM_YEAR_BASE) / 100, 0, 99);
    } else {
      ConvNumReads(s, rest, 0, (tm.year + TM_YEAR_BASE) % 100, 0, 99);
    }
  }
}
