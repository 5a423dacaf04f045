/**
 The asctime form, and what mmp_parse_date makes of each of the three texts.
 */
module DateBranches {
  import opened Status
  import opened DateSpec
  import opened DateCompose
  import opened DateRead
  import opened DateRun
  import opened DateWrite
  import opened DateForms
  import opened DateParse
  import Date

  /** asctime's format up to the year. */
  const HEAD_ASCTIME: seq<Directive> :=
    DATE_ASCTIME + [Space(' '), Conv(Plain, 'H'), Literal(':'), Conv(Plain, 'M'), Literal(':'),
      Conv(Plain, 'S'), Space(' ')]

  lemma HeadAsctime()
    ensures DIRS_ASCTIME == HEAD_ASCTIME + YEAR && Separated(HEAD_ASCTIME) && AllDirect(HEAD_ASCTIME)
    ensures forall f :: Mentions(HEAD_ASCTIME, f) <==> f != Year && f != Yday
  {
    SeparatedAsctime();
    var ds := HEAD_ASCTIME;
    assert DIRS_ASCTIME == ds + YEAR;
    forall i | 0 <= i < |ds|
      ensures ds[i] == DIRS_ASCTIME[i]
    {
    }
    assert FieldOf(ds[0]) == Some(Wday) && FieldOf(ds[2]) == Some(Mon) && FieldOf(ds[4]) == Some(Mday);
    assert FieldOf(ds[6]) == Some(Hour) && FieldOf(ds[8]) == Some(Min) && FieldOf(ds[10]) == Some(Sec);
  }

  /** What the pieces of the text are for the parser: the padding goes to the blank in front of %d. */
  function AsctimePieces(tm: Time): (ps: seq<string>)
    requires Valid(tm) && Separated(HEAD_ASCTIME)
  {
    Pieces(HEAD_ASCTIME, tm)[3 := Padding(tm.mday)][4 := Decimal(tm.mday)]
  }

  lemma AsctimeFits(rest: string, tm: Time)
    requires Valid(tm) && Separated(HEAD_ASCTIME) && AllDirect(HEAD_ASCTIME) && !Mentions(HEAD_ASCTIME, Year)
    requires rest != [] && !IsSpace(rest[0])
    ensures PiecesFit(HEAD_ASCTIME, AsctimePieces(tm), rest, tm)
  {
    var ds, was, ps := HEAD_ASCTIME, Pieces(HEAD_ASCTIME, tm), AsctimePieces(tm);
    PiecesWrittenFit(ds, rest, tm);
    forall i | 0 <= i < |ds|
      ensures PieceFits(ds, ps, rest, tm, i)
    {
      assert PieceFits(ds, was, rest, tm, i);
      if i == 2 {
        FitsByHead(ds[2], was[2], was[3], ps[3], tm, tm, tm);
      } else if i == 4 {
        DecimalFits(tm.mday, " ", 1, 31);
      }
    }
  }

  lemma JoinMerge(a: seq<string>, x: string, y: string, b: seq<string>)
    ensures Join(a + ([x, y] + b)) == Join(a + ([x + y] + b))
  {
    assert ([x, y] + b)[1..] == [y] + b && ([y] + b)[1..] == b && ([x + y] + b)[1..] == b;
    JoinAppend(a, [x, y] + b);
    JoinAppend(a, [x + y] + b);
    assert x + (y + Join(b)) == x + y + Join(b);
  }

  lemma AsctimePiecesAre(tm: Time)
    requires Valid(tm) && Separated(HEAD_ASCTIME)
    ensures AsctimePieces(tm) == [ABDAY[tm.wday], " ", ABMON[tm.mon], Padding(tm.mday), Decimal(tm.mday), " ",
      Two(tm.hour), ":", Two(tm.min), ":", Two(tm.sec), " "]
  {
  }

  lemma AsctimeText(tm: Time)
    requires Valid(tm) && Separated(HEAD_ASCTIME)
    ensures PrintAsctime(tm) == Join(AsctimePieces(tm)) + Signed(tm.year + TM_YEAR_BASE)
  {
    AsctimePiecesAre(tm);
    var year, pad, mday := Signed(tm.year + TM_YEAR_BASE), Padding(tm.mday), Decimal(tm.mday);
    var a := [ABDAY[tm.wday], " ", ABMON[tm.mon]];
    var b := [" ", Two(tm.hour), ":", Two(tm.min), ":", Two(tm.sec), " ", year];
    assert AsctimePieces(tm) + [year] == a + ([pad, mday] + b);
    assert PrintAsctime(tm) == Join(a + ([pad + mday] + b)) by {
      assert a + ([pad + mday] + b) == [ABDAY[tm.wday], " ", ABMON[tm.mon], pad + mday, " ",
        Two(tm.hour), ":", Two(tm.min), ":", Two(tm.sec), " ", year];
    }
    JoinMerge(a, pad, mday, b);
    JoinAppend(AsctimePieces(tm), [year]);
    assert Join([year]) == year + Join([]);
  }

  lemma RunHead(tm: Time, cur: Time)
    requires Valid(tm)
    ensures Run(HEAD_ASCTIME, PrintAsctime(tm), cur, false)
      == State(Some(Signed(tm.year + TM_YEAR_BASE)), tm.(yday := cur.yday, year := cur.year), false)
  {
    HeadAsctime();
    AsctimeText(tm);
    var n := tm.year + TM_YEAR_BASE;
    AsctimeFits(Signed(n), tm);
    RunDirect(HEAD_ASCTIME, AsctimePieces(tm), Signed(n), tm, cur, false);
    ByFields(Run(HEAD_ASCTIME, PrintAsctime(tm), cur, false).tm, tm.(yday := cur.yday, year := cur.year));
  }

  lemma RunYear(n: int, cur: Time)
    ensures var r := Run(YEAR, Signed(n), cur, false);
      if 0 <= n <= 9999 then r == State(Some([]), cur.(year := n - TM_YEAR_BASE), false) else r.rest != Some([])
  {
    assert YEAR == [YEAR[0]] + [];
    RunCons(YEAR[0], [], Signed(n), cur, false);
    assert Signed(n) + [] == Signed(n);
    YearRead(n, [], cur);
  }

  /** The asctime text under its own format. */
  lemma OwnAsctime(tm: Time, cur: Time)
    requires Valid(tm)
    ensures ParseForm(PrintAsctime(tm), Asctime, cur) ==
      if 0 <= tm.year + TM_YEAR_BASE <= 9999 then Some(tm.(yday := cur.yday)) else None
  {
    LexAsctime();
    HeadAsctime();
    RunHead(tm, cur);
    RunAppend(HEAD_ASCTIME, YEAR, PrintAsctime(tm), cur, false);
    RunYear(tm.year + TM_YEAR_BASE, tm.(yday := cur.yday, year := cur.year));
  }

  /** A text that goes on with a blank or a comma behind the weekday. */
  lemma BehindWeekday(c: char, rest: string, more: seq<Directive>, tm: Time, cur: Time)
    requires Valid(tm) && (c == 'a' || c == 'A') && rest != [] && !IsLetter(rest[0])
    ensures Run([Conv(Plain, c)] + more, ABDAY[tm.wday] + rest, cur, false)
      == Run(more, rest, cur.(wday := tm.wday), false)
  {
    var d := Conv(Plain, c);
    assert NameFits(ABDAY[tm.wday], rest, DAY, ABDAY, tm.wday);
    DoReads(d, ABDAY[tm.wday], rest, tm, cur, false);
    RunCons(d, more, ABDAY[tm.wday] + rest, cur, false);
  }

  lemma FirstPiece(ps: seq<string>)
    requires |ps| > 0
    ensures Join(ps) == ps[0] + Join(ps[1..])
  {
  }

  /** The first two of some pieces. */
  lemma TwoPieces(ps: seq<string>, a: string, c: char) returns (rest: string)
    requires |ps| > 1 && ps[0] == a && ps[1] == [c]
    ensures Join(ps) == a + rest && rest != [] && rest[0] == c
  {
    FirstPiece(ps);
    FirstPiece(ps[1..]);
    rest := Join(ps[1..]);
  }

  /** No asctime text passes for either of the others. */
  lemma AsctimeIsNoOther(tm: Time, form: Form, cur: Time)
    requires Valid(tm) && form != Asctime
    ensures ParseForm(PrintAsctime(tm), form, cur) == None
  {
    var rest := TwoPieces([ABDAY[tm.wday], " ", ABMON[tm.mon], Padding(tm.mday) + Decimal(tm.mday), " ",
      Two(tm.hour), ":", Two(tm.min), ":", Two(tm.sec), " ", Signed(tm.year + TM_YEAR_BASE)], ABDAY[tm.wday], ' ');
    if form == Rfc1123 {
      Lex1123();
      CommaFails('a', DIRS_1123, rest, tm, cur);
    } else {
      Lex1036();
      CommaFails('A', DIRS_1036, rest, tm, cur);
    }
  }

  lemma CommaFails(c: char, ds: seq<Directive>, rest: string, tm: Time, cur: Time)
    requires Valid(tm) && (c == 'a' || c == 'A') && rest != [] && rest[0] == ' '
    requires |ds| > 1 && ds[0] == Conv(Plain, c) && ds[1] == Literal(',')
    ensures Run(ds, ABDAY[tm.wday] + rest, cur, false).rest == None
  {
    assert ds == [ds[0]] + ([ds[1]] + ds[2..]);
    BehindWeekday(c, rest, [ds[1]] + ds[2..], tm, cur);
    RunCons(ds[1], ds[2..], rest, cur.(wday := tm.wday), false);
  }

  lemma BehindDay(tm: Time) returns (more: string)
    requires Valid(tm) && Separated(DAY_1123)
    ensures Print1123(tm) == Text(DAY_1123, tm) + more
  {
    Separated1123Parts();
    Print1123Parts(tm);
    more := Text(MON_1123, tm) + (Text(YEAR, tm) + Text(TIME_GMT, tm));
  }

  lemma Print1123Starts(tm: Time) returns (rest: string)
    requires Valid(tm)
    ensures Print1123(tm) == ABDAY[tm.wday] + rest && rest != [] && rest[0] == ','
  {
    DayPart(DAY_1123);
    var more := BehindDay(tm);
    var r := DayStarts(tm);
    rest := r + more;
    Associates(ABDAY[tm.wday], r, more);
  }

  lemma Associates(a: string, b: string, c: string)
    ensures a + b + c == a + (b + c)
  {
  }

  lemma DayStarts(tm: Time) returns (rest: string)
    requires Valid(tm) && Separated(DAY_1123)
    ensures Text(DAY_1123, tm) == ABDAY[tm.wday] + rest && rest != [] && rest[0] == ','
  {
    rest := TwoPieces(Pieces(DAY_1123, tm), ABDAY[tm.wday], ',');
  }

  lemma CommaIsNoMonth(rest: string, ds: seq<Directive>, tm: Time, cur: Time)
    requires Valid(tm) && rest != [] && rest[0] == ','
    ensures var after := [Space(' ')] + ([Conv(Plain, 'b')] + ds);
      Run([Conv(Plain, 'a')] + after, ABDAY[tm.wday] + rest, cur, false).rest == None
  {
    BehindWeekday('a', rest, [Space(' ')] + ([Conv(Plain, 'b')] + ds), tm, cur);
    NoMonthThere(rest, ds, cur.(wday := tm.wday));
  }

  lemma AsctimeStarts() returns (ds: seq<Directive>)
    ensures DIRS_ASCTIME == [Conv(Plain, 'a')] + ([Space(' ')] + ([Conv(Plain, 'b')] + ds))
  {
    ds := DIRS_ASCTIME[3..];
  }

  /** No RFC 1123 text passes for an asctime text. */
  lemma NotAsctime(tm: Time, cur: Time)
    requires Valid(tm)
    ensures ParseForm(Print1123(tm), Asctime, cur) == None
  {
    LexAsctime();
    var rest := Print1123Starts(tm);
    var ds := AsctimeStarts();
    CommaIsNoMonth(rest, ds, tm, cur);
  }

  // ---- mmp_parse_date

  /** The RFC 1123 text: taken by the first branch, and given back, if and only if the year has up to
      four digits; otherwise no branch takes it. */
  lemma Parse1123(tm: Time, j: Time, j': Time, j'': Time)
    requires Valid(tm)
    ensures ParseDate(Print1123(tm), j, j', j'') ==
      if 0 <= tm.year + TM_YEAR_BASE <= 9999 then Parsed(Rfc1123, tm.(yday := j.yday)) else Failed
  {
    Own1123(tm, j);
    Not1036(tm, j');
    NotAsctime(tm, j'');
  }

  /** The RFC 1036 text: always taken by the second branch, and given back but for the century. */
  lemma Parse1036(tm: Time, j: Time, j': Time, j'': Time)
    requires Valid(tm)
    ensures ParseDate(Print1036(tm), j, j', j'') ==
      Parsed(Rfc1036, tm.(yday := j'.yday, year := Pivot((tm.year + TM_YEAR_BASE) % 100)))
  {
    Not1123(tm, j);
    Own1036(tm, j');
  }

  lemma PivotIff(n: int)
    ensures Pivot(n % 100) == n - TM_YEAR_BASE <==> 1969 <= n <= 2068
  {
    var q, r := n / 100, n % 100;
    assert n == 100 * q + r && 0 <= r < 100;
  }

  /** ... so the year comes back if and only if it is one from 1969 to 2068. */
  lemma Parse1036Iff(tm: Time, j: Time, j': Time, j'': Time)
    requires Valid(tm)
    ensures ParseDate(Print1036(tm), j, j', j'') == Parsed(Rfc1036, tm.(yday := j'.yday))
      <==> 1969 <= tm.year + TM_YEAR_BASE <= 2068
  {
    Parse1036(tm, j, j', j'');
    var y := Pivot((tm.year + TM_YEAR_BASE) % 100);
    PivotIff(tm.year + TM_YEAR_BASE);
    assert tm.(yday := j'.yday, year := y) == tm.(yday := j'.yday) <==> y == tm.year by {
      assert tm.(yday := j'.yday, year := y).year == y && tm.(yday := j'.yday).year == tm.year;
    }
  }

  /** The asctime text: taken by the last branch, and given back, if and only if the year has up to four
      digits. */
  lemma ParseAsctime(tm: Time, j: Time, j': Time, j'': Time)
    requires Valid(tm)
    ensures ParseDate(PrintAsctime(tm), j, j', j'') ==
      if 0 <= tm.year + TM_YEAR_BASE <= 9999 then Parsed(Asctime, tm.(yday := j''.yday)) else Failed
  {
    AsctimeIsNoOther(tm, Rfc1123, j);
    AsctimeIsNoOther(tm, Rfc1036, j');
    OwnAsctime(tm, j'');
  }

  /** What comes back of a printed time, or None. */
  function ComesBack(form: Form, tm: Time): Option<Time>
    requires Valid(tm)
  {
    if form == Rfc1036 then Some(tm.(year := Pivot((tm.year + TM_YEAR_BASE) % 100)))
    else if 0 <= tm.year + TM_YEAR_BASE <= 9999 then Some(tm)
    else None
  }

  function Print(form: Form, tm: Time): string
    requires Valid(tm)
  {
    match form
    case Rfc1123 => Print1123(tm)
    case Rfc1036 => Print1036(tm)
    case Asctime => PrintAsctime(tm)
  }

  function Back(form: Form, tm: Time, yday: int): Outcome
    requires Valid(tm)
  {
    match ComesBack(form, tm)
    case None => Failed
    case Some(t) => Parsed(form, t.(yday := yday))
  }

  function YdayOf(form: Form, j: Time, j': Time, j'': Time): int {
    match form
    case Rfc1123 => j.yday
    case Rfc1036 => j'.yday
    case Asctime => j''.yday
  }

  lemma BackIs(form: Form, tm: Time, yday: int)
    requires Valid(tm)
    ensures var year := tm.year + TM_YEAR_BASE;
      Back(form, tm, yday) ==
        if form == Rfc1036 then Parsed(form, tm.(yday := yday, year := Pivot(year % 100)))
        else if 0 <= year <= 9999 then Parsed(form, tm.(yday := yday)) else Failed
  {
  }

  /** All three at once. */
  lemma PrintedComesBack(form: Form, tm: Time, j: Time, j': Time, j'': Time)
    requires Valid(tm)
    ensures ParseDate(Print(form, tm), j, j', j'') == Back(form, tm, YdayOf(form, j, j', j''))
  {
    BackIs(form, tm, YdayOf(form, j, j', j''));
    if form == Rfc1123 {
      Parse1123(tm, j, j', j'');
    } else if form == Rfc1036 {
      Parse1036(tm, j, j', j'');
    } else {
      ParseAsctime(tm, j, j', j'');
    }
  }

  /** Printing in one of the forms, and parsing by the code: all fields but the day of the year, which no
      form mentions. */
  method ParsePrinted(form: Form, tm: Time) returns (ret: Ret, tt: Option<Date.Tm>)
    requires Valid(tm)
    ensures ret == (if ComesBack(form, tm) == None then Ret.Parse else Ret.Ok) && (ret == Ret.Ok <==> tt.Some?)
    ensures tt.Some? ==> tt.value.Value() == ComesBack(form, tm).value.(yday := tt.value.yday)
  {
    ghost var junk: seq<Time>;
    ret, tt, junk := Date.ParseDate(Print(form, tm));
    PrintedComesBack(form, tm, junk[0], junk[1], junk[2]);
  }
}
