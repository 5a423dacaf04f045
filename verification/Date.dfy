/**
 src/mmp_date.c: xstrptime, which writes a struct tm as it goes, and mmp_parse_date.  Each method is
 proved to do what DateSpec.dfy and DateParse.dfy say.
 */
module Date {
  import opened Status
  import opened DateSpec
  import opened DateCompose
  import DateParse
  import DateLimits

  /** struct tm */
  class Tm {
    var sec: int
    var min: int
    var hour: int
    var mday: int
    var mon: int
    var year: int
    var wday: int
    var yday: int

    function Value(): Time
      reads this
    {
      Time(sec, min, hour, mday, mon, year, wday, yday)
    }
  }

  /** conv_num, with `*dest` as a value in and out. */
  method ConvNum(buf: string, dest: int, llim: nat, ulim: nat) returns (r: Option<string>, dest': int)
    ensures Num(r, dest') == DateSpec.ConvNum(buf, dest, llim, ulim)
  {
    if buf == [] || !IsDigit(buf[0]) { return None, dest; }
    ghost var goal := MoreDigits(buf[1..], Digit(buf[0]), ulim / 10, ulim);
    var p := buf;
    var result: nat, rulim: nat, more := 0, ulim, true;
    while more
      invariant more ==> p != [] && IsDigit(p[0])
      invariant more ==> goal == MoreDigits(p[1..], result * 10 + Digit(p[0]), rulim / 10, ulim)
      invariant !more ==> goal == (p, result)
      decreases more, |p|
    {
      result := result * 10;
      result := result + Digit(p[0]);
      rulim := rulim / 10;
      p := p[1..];
      more := result * 10 <= ulim && rulim != 0 && p != [] && IsDigit(p[0]);
    }
    if result < llim || result > ulim { return None, dest; }
    return Some(p), result;
  }

  /** find_string, with `*tgt` as a value in and out, and a second table or NULL. */
  method FindString(bp: string, tgt: int, n1: seq<string>, n2: Option<seq<string>>)
    returns (r: Option<string>, tgt': int)
    ensures Num(r, tgt') == DateSpec.FindString(bp, tgt, n1, if n2.Some? then n2.value else [])
  {
    var names, next := Some(n1), n2;
    ghost var round := 0;
    while names != None
      invariant 0 <= round <= 2
      invariant round == 0 ==> names == Some(n1) && next == n2
      invariant round == 1 ==> names == n2 && next == None
      invariant round == 2 ==> names == None
      invariant round >= 1 ==> FirstMatch(n1, bp) == |n1|
      invariant round >= 2 && n2.Some? ==> FirstMatch(n2.value, bp) == |n2.value|
      decreases 2 - round
    {
      var i := 0;
      while i < |names.value|
        invariant 0 <= i <= |names.value|
        invariant forall j :: 0 <= j < i ==> !Matches(names.value[j], bp)
      {
        if Matches(names.value[i], bp) {
          return Some(bp[|names.value[i]|..]), i;
        }
        i := i + 1;
      }
      names, next, round := next, None, round + 1;
    }
    return None, tgt;
  }

  // ---- the switch of xstrptime, conversion by conversion

  method ConvertName(alt: Alt, c: char, bp: string, tm: Tm) returns (r: Option<string>)
    requires KindOf(c) == Name
    modifies tm
    ensures Read(r, tm.Value()) == ReadName(alt, c, bp, old(tm.Value()))
  {
    if c == 'A' || c == 'a' {
      r, tm.wday := FindString(bp, tm.wday, DAY, Some(ABDAY));
    } else if c == 'B' || c == 'b' || c == 'h' {
      r, tm.mon := FindString(bp, tm.mon, MON, Some(ABMON));
    } else {
      var i;
      r, i := FindString(bp, 0, AM_PM, None);
      if tm.hour > 11 { return None; }
      tm.hour := tm.hour + i * 12;
    }
    if alt != Plain { r := None; }
  }

  method ConvertClock(alt: Alt, c: char, bp: string, tm: Tm) returns (r: Option<string>)
    requires KindOf(c) == Clock
    modifies tm
    ensures Read(r, tm.Value()) == ReadClock(alt, c, bp, old(tm.Value()))
  {
    if (c == 'k' || c == 'l') && alt != Plain { return None; }
    if c == 'k' || c == 'H' {
      r, tm.hour := ConvNum(bp, tm.hour, 0, 23);
    } else if c == 'l' || c == 'I' {
      r, tm.hour := ConvNum(bp, tm.hour, 1, 12);
      if tm.hour == 12 { tm.hour := 0; }
    } else if c == 'M' {
      r, tm.min := ConvNum(bp, tm.min, 0, 59);
    } else {
      r, tm.sec := ConvNum(bp, tm.sec, 0, 61);
    }
    if alt != Plain && alt != O { r := None; }
  }

  method ConvertDate(alt: Alt, c: char, bp: string, tm: Tm) returns (r: Option<string>)
    requires KindOf(c) == Date
    modifies tm
    ensures Read(r, tm.Value()) == ReadDate(alt, c, bp, old(tm.Value()))
  {
    var i;
    if c == 'd' || c == 'e' {
      r, tm.mday := ConvNum(bp, tm.mday, 1, 31);
      if alt != Plain && alt != O { r := None; }
    } else if c == 'j' {
      r, i := ConvNum(bp, 1, 1, 366);
      tm.yday := i - 1;
      if alt != Plain { r := None; }
    } else if c == 'm' {
      r, i := ConvNum(bp, 1, 1, 12);
      tm.mon := i - 1;
      if alt != Plain && alt != O { r := None; }
    } else {
      r, i := ConvNum(bp, TM_YEAR_BASE, 0, 9999);
      tm.year := i - TM_YEAR_BASE;
      if alt != Plain && alt != E { r := None; }
    }
  }

  method ConvertWeek(alt: Alt, c: char, bp: string, tm: Tm) returns (r: Option<string>)
    requires KindOf(c) == Week
    modifies tm
    ensures Read(r, tm.Value()) == ReadWeek(alt, c, bp, old(tm.Value()))
  {
    var i;
    if c == 'U' || c == 'W' {
      r, i := ConvNum(bp, 0, 0, 53);
      if alt != Plain && alt != O { r := None; }
    } else if c == 'w' {
      r, tm.wday := ConvNum(bp, tm.wday, 0, 6);
      if alt != Plain && alt != O { r := None; }
    } else if c == 'u' {
      r, i := ConvNum(bp, 0, 1, 7);
      tm.wday := i % 7;
      if alt != Plain && alt != O { r := None; }
    } else if c == 'g' {
      r, i := ConvNum(bp, 0, 0, 99);
    } else if c == 'V' {
      r, i := ConvNum(bp, 0, 0, 53);
    } else {
      if bp == [] { return None; }
      var p := bp[1..];
      while p != [] && IsDigit(p[0])
        invariant SkipDigits(p) == SkipDigits(bp[1..])
        decreases |p|
      {
        p := p[1..];
      }
      r := Some(p);
    }
  }

  /** C and y, which go by `split_year` and leave it set. */
  method ConvertYearPart(alt: Alt, c: char, bp: string, tm: Tm, splitYear: bool) returns (r: Option<string>)
    requires KindOf(c) == YearPart
    modifies tm
    ensures Read(r, tm.Value()) == ReadSplitYear(alt, c, bp, old(tm.Value()), splitYear)
  {
    var i;
    if c == 'C' {
      r, i := ConvNum(bp, 20, 0, 99);
      i := i * 100 - TM_YEAR_BASE;
      if splitYear { i := i + Remainder(tm.year, 100); }
      tm.year := i;
      if alt != Plain && alt != E { r := None; }
    } else {
      r, i := ConvNum(bp, 0, 0, 99);
      if splitYear {
        i := i + Quotient(tm.year, 100) * 100;
      } else {
        i := if i <= 68 then i + 2000 - TM_YEAR_BASE else i + 1900 - TM_YEAR_BASE;
      }
      tm.year := i;
    }
  }

  method EatSpaces(bp: string) returns (r: string)
    ensures r == SkipSpaces(bp)
  {
    r := bp;
    while r != [] && IsSpace(r[0])
      invariant SkipSpaces(r) == SkipSpaces(bp)
      decreases |r|
    {
      r := r[1..];
    }
  }

  /** The conversions that call nothing else. */
  method Convert(alt: Alt, c: char, bp: string, tm: Tm) returns (r: Option<string>)
    requires KindOf(c) != YearPart && KindOf(c) != Complex
    modifies tm
    ensures Read(r, tm.Value()) == Elementary(alt, c, bp, old(tm.Value()))
  {
    match KindOf(c) {
      case Percent =>
        r := if bp != [] && bp[0] == '%' then Some(bp[1..]) else None;
        if alt != Plain { r := None; }
      case Name => r := ConvertName(alt, c, bp, tm);
      case Clock => r := ConvertClock(alt, c, bp, tm);
      case Date => r := ConvertDate(alt, c, bp, tm);
      case Week => r := ConvertWeek(alt, c, bp, tm);
      case Blank =>
        var rest := EatSpaces(bp);
        r := if alt != Plain then None else Some(rest);
      case _ => r := None;
    }
  }

  // ---- xstrptime

  ghost function Rank(fmt: string): nat {
    if NoComplex(Lex(fmt)) then 0 else 1
  }

  /** The letters behind a percent sign: a conversion with its modifier, and the format behind, or None
      where xstrptime gives up. */
  method Modified(fmt: string) returns (r: Option<(Alt, char, string)>)
    ensures var (d, rest) := Next(['%'] + fmt);
      if r == None then d == Broken else d == Conv(r.value.0, r.value.1) && rest == r.value.2 && |rest| < |fmt|
  {
    assert (['%'] + fmt)[1..] == fmt;
    var alt, f := Plain, fmt;
    while true
      invariant alt == Plain ==> f == fmt
      invariant alt != Plain ==> fmt != [] && f == fmt[1..] && fmt[0] == if alt == E then 'E' else 'O'
      decreases |f|
    {
      if f == [] { return None; }
      var c := f[0];
      f := f[1..];
      if c == 'E' || c == 'O' {
        if alt != Plain { return None; }
        alt := if c == 'E' then E else O;
      } else {
        assert (['%'] + fmt)[2..] == fmt[1..] && (|fmt| > 1 ==> (['%'] + fmt)[3..] == fmt[1..][1..]);
        return Some((alt, c, f));
      }
    }
  }

  /** xstrptime; None is NULL. */
  method XStrptime(buf: string, fmt: string, tm: Tm) returns (r: Option<string>)
    modifies tm
    ensures var s := Scan(buf, fmt, old(tm.Value())); r == s.rest && tm.Value() == s.tm
    decreases Rank(fmt), 1
  {
    var bp, f, splitYear := Some(buf), fmt, false;
    while bp != None && f != []
      invariant Scan(buf, fmt, old(tm.Value())) == Then(State(bp, tm.Value(), splitYear), Lex(f))
      invariant Rank(f) <= Rank(fmt)
      decreases |f|
    {
      ghost var now, ds := State(bp, tm.Value(), splitYear), Lex(f);
      ghost var (d, behind) := Next(f);
      assert ds == [d] + Lex(behind) && ds[1..] == Lex(behind);
      var c := f[0];
      if IsSpace(c) {
        var rest := EatSpaces(bp.value);
        bp := Some(rest);
        f := f[1..];
      } else if c != '%' {
        bp := if bp.value != [] && bp.value[0] == c then Some(bp.value[1..]) else None;
        f := f[1..];
      } else {
        assert f == ['%'] + f[1..];
        var m := Modified(f[1..]);
        if m == None {
          assert Do(d, now.rest.value, now.tm, now.split) == State(None, now.tm, now.split);
          return None;
        }
        var (alt, k, rest) := m.value;
        f := rest;
        bp, splitYear := Switch(alt, k, bp.value, tm, splitYear);
      }
      assert State(bp, tm.Value(), splitYear) == Do(d, now.rest.value, now.tm, now.split);
    }
    r := bp;
  }

  /** One conversion, with its modifier. */
  method Switch(alt: Alt, c: char, bp: string, tm: Tm, splitYear: bool) returns (r: Option<string>, splitYear': bool)
    modifies tm
    ensures State(r, tm.Value(), splitYear') == Do(Conv(alt, c), bp, old(tm.Value()), splitYear)
    decreases if KindOf(c) == Complex then 1 else 0, 0
  {
    splitYear' := splitYear;
    if KindOf(c) == Complex {
      if c == 'D' || c == 'F' || c == 'R' || c == 'r' || c == 'T' {
        if alt != Plain { return None, splitYear; }
      }
      ExpansionIsPlain(c);
      r := XStrptime(bp, Expansion(c), tm);
      if alt != Plain && alt != E { r := None; }
    } else if KindOf(c) == YearPart {
      r := ConvertYearPart(alt, c, bp, tm, splitYear);
      splitYear' := true;
    } else {
      r := Convert(alt, c, bp, tm);
    }
  }

  // ---- mmp_parse_date

  /** parse_1123_date, parse_1036_date and parse_asctime_date: the broken-down time before mktime. */
  method ParseForm(date: string, form: DateParse.Form) returns (ret: Ret, tt: Tm, ghost junk: Time)
    ensures fresh(tt)
    ensures ret == (if DateParse.ParseForm(date, form, junk) == None then Ret.Parse else Ret.Ok)
    ensures ret == Ret.Ok ==> DateParse.ParseForm(date, form, junk) == Some(tt.Value())
  {
    tt := new Tm;
    junk := tt.Value();
    var c := XStrptime(date, DateParse.FormatOf(form), tt);
    ret := if c == None || c.value != [] then Ret.Parse else Ret.Ok;
  }

  /** mmp_parse_date */
  method ParseDate(date: string) returns (ret: Ret, tt: Option<Tm>, ghost junk: seq<Time>)
    ensures |junk| == 3
    ensures match DateParse.ParseDate(date, junk[0], junk[1], junk[2])
      case Failed => ret == Ret.Parse && tt == None
      case Parsed(form, tm) => ret == Ret.Ok && tt.Some? && tt.value.Value() == tm
    ensures tt.Some? ==> DateLimits.IsDate(tt.value.Value())
  {
    var t: Tm;
    ghost var j: Time, j': Time, j'': Time;
    ret, t, j := ParseForm(date, DateParse.Rfc1123);
    DateLimits.FormIsDate(date, DateParse.Rfc1123, j);
    if ret == Ret.Ok { return Ret.Ok, Some(t), [j, j, j]; }
    ret, t, j' := ParseForm(date, DateParse.Rfc1036);
    DateLimits.FormIsDate(date, DateParse.Rfc1036, j');
    if ret == Ret.Ok { return Ret.Ok, Some(t), [j, j', j]; }
    ret, t, j'' := ParseForm(date, DateParse.Asctime);
    DateLimits.FormIsDate(date, DateParse.Asctime, j'');
    if ret == Ret.Ok { return Ret.Ok, Some(t), [j, j', j'']; }
    return Ret.Parse, None, [j, j', j''];
  }
}
