/**
 strftime, as far as src/mmp_date.c uses it, and the round trip: xstrptime undoes it for every format
 whose directives keep apart.
 */
module DateWrite {
  import opened Status
  import opened DateSpec
  import opened DateCompose
  import opened DateRead
  import opened DateRun

  /** A broken-down time as gmtime makes them. */
  predicate Valid(tm: Time) {
    && 0 <= tm.sec <= 61 && 0 <= tm.min <= 59 && 0 <= tm.hour <= 23
    && 1 <= tm.mday <= 31 && 0 <= tm.mon <= 11 && 0 <= tm.wday <= 6 && 0 <= tm.yday <= 365
  }

  function DigitChar(d: nat): (c: char)
    requires d <= 9
    ensures IsDigit(c) && Digit(c) == d
  {
    '0' + d as char
  }

  function Two(n: nat): (s: string)
    requires n < 100
    ensures |s| == 2 && AllDigits(s)
  {
    [DigitChar(n / 10), DigitChar(n % 10)]
  }

  function Three(n: nat): (s: string)
    requires n < 1000
    ensures |s| == 3 && AllDigits(s)
  {
    [DigitChar(n / 100), DigitChar(n / 10 % 10), DigitChar(n % 10)]
  }

  function Decimal(n: nat): (s: string)
    ensures s != [] && AllDigits(s)
  {
    if n < 10 then [DigitChar(n)] else Decimal(n / 10) + [DigitChar(n % 10)]
  }

  function Signed(n: int): (s: string)
    ensures s != []
  {
    if n < 0 then ['-'] + Decimal(-n) else Decimal(n)
  }

  lemma {:induction false} TotalAppend(result: nat, s: string, c: char)
    requires AllDigits(s) && IsDigit(c)
    ensures Total(result, s + [c]) == Total(result, s) * 10 + Digit(c)
    decreases |s|
  {
    if s == [] {
      assert s + [c] == [c];
    } else {
      assert (s + [c])[1..] == s[1..] + [c];
      TotalAppend(result * 10 + Digit(s[0]), s[1..], c);
    }
  }

  lemma {:induction false} DecimalIs(n: nat)
    ensures Total(0, Decimal(n)) == n && |Decimal(n)| == if n == 0 then 1 else Width(n)
  {
    if n >= 10 {
      DecimalIs(n / 10);
      TotalAppend(0, Decimal(n / 10), DigitChar(n % 10));
    }
  }

  lemma {:induction false} WidthMonotone(m: nat, n: nat)
    requires m <= n
    ensures Width(m) <= Width(n)
  {
    if m > 0 { WidthMonotone(m / 10, n / 10); }
  }

  // ---- strftime

  /** The directives that stand for a whole field or a year without its century, and are written without
      padding blanks. */
  predicate Writable(d: Directive) {
    match d
    case Space(c) => IsSpace(c)
    case Literal(c) => true
    case Broken => false
    case Conv(alt, c) => alt == Plain && (Direct(d) || c == 'y') && c != 'e' && c != 'k'
  }

  /** What strftime writes for one directive. */
  function Written(d: Directive, tm: Time): (s: string)
    requires Valid(tm) && Writable(d)
    ensures s != []
  {
    match d
    case Space(c) => [c]
    case Literal(c) => [c]
    case Conv(_, c) =>
      match KindOf(c)
      case Percent => [c]
      case Blank => if c == 'n' then ['\n'] else ['\t']
      case Name => WrittenName(c, tm)
      case _ => WrittenNumber(c, tm)
  }

  function WrittenName(c: char, tm: Time): (s: string)
    requires Valid(tm)
    ensures |s| >= 3
  {
    if c == 'A' then DAY[tm.wday]
    else if c == 'a' then ABDAY[tm.wday]
    else if c == 'B' then MON[tm.mon]
    else ABMON[tm.mon]
  }

  function WrittenNumber(c: char, tm: Time): (s: string)
    requires Valid(tm)
    ensures s != []
  {
    if c == 'H' then Two(tm.hour)
    else if c == 'M' then Two(tm.min)
    else if c == 'S' then Two(tm.sec)
    else if c == 'd' then Two(tm.mday)
    else if c == 'm' then Two(tm.mon + 1)
    else if c == 'j' then Three(tm.yday + 1)
    else if c == 'w' then Decimal(tm.wday)
    else if c == 'u' then Decimal(if tm.wday == 0 then 7 else tm.wday)
    else if c == 'y' then Two((tm.year + TM_YEAR_BASE) % 100)
    else Signed(tm.year + TM_YEAR_BASE)
  }

  predicate StartsLetter(d: Directive) {
    (d.Literal? && IsLetter(d.c)) || (d.Conv? && KindOf(d.c) == Name)
  }

  predicate StartsNumber(d: Directive) {
    (d.Literal? && IsDigit(d.c)) || (d.Conv? && KindOf(d.c) in {Clock, Date, Week, YearPart})
  }

  predicate StartsBlank(d: Directive) {
    d.Space? || (d.Literal? && IsSpace(d.c)) || (d.Conv? && KindOf(d.c) == Blank)
  }

  /** What a directive writes ends where it should for the reader: no letter behind an abbreviation, no
      digit behind a year, no white space behind white space. */
  predicate Apart(d: Directive, d': Directive) {
    && (d.Conv? && KindOf(d.c) == Name ==> !StartsLetter(d'))
    && (d.Conv? && d.c == 'Y' ==> !StartsNumber(d'))
    && (d.Space? || (d.Conv? && KindOf(d.c) == Blank) ==> !StartsBlank(d'))
  }

  predicate Separated(ds: seq<Directive>) {
    && (forall i :: 0 <= i < |ds| ==> Writable(ds[i]))
    && (forall i :: 0 < i < |ds| ==> Apart(ds[i - 1], ds[i]))
  }

  function Pieces(ds: seq<Directive>, tm: Time): (ps: seq<string>)
    requires Valid(tm) && forall i :: 0 <= i < |ds| ==> Writable(ds[i])
    ensures |ps| == |ds|
  {
    seq(|ds|, i requires 0 <= i < |ds| => Written(ds[i], tm))
  }

  function Strftime(fmt: string, tm: Time): string
    requires Valid(tm) && forall i :: 0 <= i < |Lex(fmt)| ==> Writable(Lex(fmt)[i])
  {
    Join(Pieces(Lex(fmt), tm))
  }

  // ---- reading it back

  lemma TwoFits(n: nat, rest: string, llim: nat, ulim: nat)
    requires llim <= n <= ulim && 10 <= ulim < 100
    ensures NumFits(Two(n), rest, n, llim, ulim)
  {
    WidthStep(ulim);
    WidthStep(ulim / 10);
    var a, b := DigitChar(n / 10), DigitChar(n % 10);
    TotalAppend(0, [a], b);
    assert Two(n) == [a] + [b] && Total(0, [a]) == n / 10;
  }

  lemma WidthStep(n: nat)
    ensures Width(n) == if n == 0 then 0 else 1 + Width(n / 10)
  {
  }

  lemma ThreeFits(n: nat, rest: string, llim: nat, ulim: nat)
    requires llim <= n <= ulim && 100 <= ulim < 1000
    ensures NumFits(Three(n), rest, n, llim, ulim)
  {
    WidthStep(ulim);
    TwoFits(n / 10, rest, 0, ulim / 10);
    TotalAppend(0, Two(n / 10), DigitChar(n % 10));
    assert Three(n) == Two(n / 10) + [DigitChar(n % 10)] by {
      assert n / 10 / 10 == n / 100;
    }
  }

  lemma DecimalFits(n: nat, rest: string, llim: nat, ulim: nat)
    requires llim <= n <= ulim && ulim > 0 && (Width(n) == Width(ulim) || !StartsDigit(rest))
    ensures NumFits(Decimal(n), rest, n, llim, ulim)
  {
    DecimalIs(n);
    WidthMonotone(n, ulim);
    WidthMonotone(1, ulim);
  }

  /** The first character written tells what stands there. */
  lemma FirstWritten(d: Directive, tm: Time)
    requires Valid(tm) && Writable(d)
    ensures var c := Written(d, tm)[0];
      && (IsLetter(c) ==> StartsLetter(d))
      && (IsDigit(c) ==> StartsNumber(d)) && (IsSpace(c) ==> StartsBlank(d))
  {
    if d.Conv? && KindOf(d.c) == Name {
      DaysAreTable();
      MonthsAreTable();
      var i, j := tm.wday, tm.mon;
      assert Row(DAY[i], ABDAY[i]) && Row(MON[j], ABMON[j]);
    }
  }

  lemma ApartWritten(d: Directive, d': Directive, tm: Time)
    requires Valid(tm) && Writable(d') && Apart(d, d')
    ensures Apart(d, Literal(Written(d', tm)[0]))
  {
    FirstWritten(d', tm);
  }

  lemma ClockFits(c: char, rest: string, tm: Time)
    requires Valid(tm) && (c == 'H' || c == 'M' || c == 'S')
    ensures FitsClock(c, WrittenNumber(c, tm), rest, tm)
  {
    TwoFits(tm.hour, rest, 0, 23);
    TwoFits(tm.min, rest, 0, 59);
    TwoFits(tm.sec, rest, 0, 61);
  }

  lemma DateFits(c: char, rest: string, tm: Time)
    requires Valid(tm) && (c == 'd' || c == 'm' || c == 'j' || c == 'Y')
    requires c == 'Y' ==> 0 <= tm.year + TM_YEAR_BASE <= 9999 && !StartsDigit(rest)
    ensures FitsDate(c, WrittenNumber(c, tm), rest, tm)
  {
    if c == 'd' {
      TwoFits(tm.mday, rest, 1, 31);
    } else if c == 'm' {
      TwoFits(tm.mon + 1, rest, 1, 12);
    } else if c == 'j' {
      ThreeFits(tm.yday + 1, rest, 1, 366);
    } else {
      DecimalFits(tm.year + TM_YEAR_BASE, rest, 0, 9999);
    }
  }

  lemma WeekFits(c: char, rest: string, tm: Time)
    requires Valid(tm) && (c == 'w' || c == 'u')
    ensures FitsWeek(c, WrittenNumber(c, tm), rest, tm)
  {
    var n := if c == 'u' && tm.wday == 0 then 7 else tm.wday;
    DecimalIs(n);
    WidthStep(6);
    WidthStep(7);
    WidthStep(n);
  }

  lemma NameFitsWritten(c: char, rest: string, tm: Time)
    requires Valid(tm) && KindOf(c) == Name && c != 'p' && (rest == [] || !IsLetter(rest[0]))
    ensures FitsName(c, WrittenName(c, tm), rest, tm, tm)
  {
  }

  lemma WrittenFits(d: Directive, rest: string, tm: Time)
    requires Valid(tm) && Writable(d) && (d.Conv? && d.c == 'Y' ==> 0 <= tm.year + TM_YEAR_BASE <= 9999)
    requires rest != [] ==> Apart(d, Literal(rest[0]))
    ensures Fits(d, Written(d, tm), rest, tm, tm)
  {
    if d.Conv? {
      match KindOf(d.c) {
        case Percent =>
        case Blank =>
        case Name => NameFitsWritten(d.c, rest, tm);
        case Clock => ClockFits(d.c, rest, tm);
        case Date => DateFits(d.c, rest, tm);
        case Week => WeekFits(d.c, rest, tm);
        case YearPart => TwoFits((tm.year + TM_YEAR_BASE) % 100, rest, 0, 99);
      }
    }
  }

  /** What strftime writes fits piece by piece. */
  lemma PiecesWrittenFit(ds: seq<Directive>, rest: string, tm: Time)
    requires Valid(tm) && Separated(ds) && (Mentions(ds, Year) ==> 0 <= tm.year + TM_YEAR_BASE <= 9999)
    requires ds != [] && rest != [] ==> Apart(ds[|ds| - 1], Literal(rest[0]))
    ensures PiecesFit(ds, Pieces(ds, tm), rest, tm)
  {
    forall i | 0 <= i < |ds|
      ensures PieceFits(ds, Pieces(ds, tm), rest, tm, i)
    {
      PieceWrittenFits(ds, Pieces(ds, tm), rest, tm, i);
    }
  }

  lemma PieceWrittenFits(ds: seq<Directive>, pieces: seq<string>, rest: string, tm: Time, i: nat)
    requires Valid(tm) && Separated(ds) && (Mentions(ds, Year) ==> 0 <= tm.year + TM_YEAR_BASE <= 9999)
    requires i < |ds| && pieces == Pieces(ds, tm) && (rest != [] ==> Apart(ds[|ds| - 1], Literal(rest[0])))
    ensures PieceFits(ds, pieces, rest, tm, i)
  {
    var d := ds[i];
    if i + 1 < |ds| { ApartWritten(d, ds[i + 1], tm); }
    assert d.Conv? && d.c == 'Y' ==> FieldOf(d) == Some(Year);
    WrittenFits(d, if i + 1 < |ds| then pieces[i + 1] else rest, tm);
  }

  /** xstrptime undoes strftime: for every format of whole fields whose directives keep apart, and every
      time, with a year of up to four digits if the format has one. */
  lemma StrftimeUndone(fmt: string, tm: Time, cur: Time)
    requires Valid(tm) && Separated(Lex(fmt)) && (forall i :: 0 <= i < |Lex(fmt)| ==> Direct(Lex(fmt)[i]))
    requires Mentions(Lex(fmt), Year) ==> 0 <= tm.year + TM_YEAR_BASE <= 9999
    ensures var r := Scan(Strftime(fmt, tm), fmt, cur);
      r.rest == Some([]) && forall f :: Get(r.tm, f) == if Mentions(Lex(fmt), f) then Get(tm, f) else Get(cur, f)
  {
    var pieces := Pieces(Lex(fmt), tm);
    PiecesWrittenFit(Lex(fmt), [], tm);
    assert Join(pieces) + [] == Join(pieces);
    RoundTrip(fmt, pieces, [], tm, cur);
  }
}
