/**
 What the parser refuses: numbers outside their limits, in any text, and so dates and times that are
 none.
 */
module DateLimits {
  import opened Status
  import opened DateSpec
  import opened DateCompose
  import opened DateRead
  import opened DateRun
  import opened DateWrite
  import opened DateForms
  import opened DateParse

  // ---- conv_num, for every text

  /** conv_num has taken so many digits: none behind the first that the limit does not allow ... */
  predicate Taken(s: string, k: nat, ulim: nat) {
    && 1 <= k <= |s| && AllDigits(s[..k])
    && forall j :: 1 <= j < k ==> Total(0, s[..j]) * 10 <= ulim && j < Width(ulim)
  }

  /** ... and no more are to be taken. */
  predicate Enough(s: string, k: nat, ulim: nat)
    requires k <= |s| && AllDigits(s[..k])
  {
    !StartsDigit(s[k..]) || Total(0, s[..k]) * 10 > ulim || k >= Width(ulim)
  }

  lemma TakeOne(s: string, k: nat)
    requires k < |s| && AllDigits(s[..k]) && IsDigit(s[k])
    ensures AllDigits(s[..k + 1]) && Total(0, s[..k + 1]) == Total(0, s[..k]) * 10 + Digit(s[k])
  {
    TotalAppend(0, s[..k], s[k]);
    assert s[..k + 1] == s[..k] + [s[k]];
  }

  /** The digits that are left of a limit after so many. */
  lemma {:induction false} MoreTaken(s: string, k: nat, rulim: nat, ulim: nat, goal: (string, nat)) returns (n: nat)
    requires Taken(s, k, ulim) && k + Width(rulim) == (if ulim == 0 then 1 else Width(ulim))
    requires goal == MoreDigits(s[k..], Total(0, s[..k]), rulim, ulim)
    ensures Taken(s, n, ulim) && Enough(s, n, ulim) && goal == (s[n..], Total(0, s[..n]))
    decreases |s| - k
  {
    n := k;
    if Total(0, s[..k]) * 10 <= ulim && rulim != 0 && StartsDigit(s[k..]) {
      TakeOne(s, k);
      assert s[k..][1..] == s[k + 1..];
      n := MoreTaken(s, k + 1, rulim / 10, ulim, goal);
    }
  }

  /** conv_num, on every text: no number at all, or all the digits that the upper limit allows, and then
      refused exactly when they make a number outside the limits. */
  lemma ConvNumTakes(s: string, dest: int, llim: nat, ulim: nat) returns (k: nat)
    ensures !StartsDigit(s) ==> ConvNum(s, dest, llim, ulim) == Num(None, dest)
    ensures StartsDigit(s) ==>
      && Taken(s, k, ulim) && Enough(s, k, ulim)
      && ConvNum(s, dest, llim, ulim) ==
         if llim <= Total(0, s[..k]) <= ulim then Num(Some(s[k..]), Total(0, s[..k])) else Num(None, dest)
  {
    k := 0;
    if StartsDigit(s) {
      assert s[..1] == [s[0]] && Total(0, s[..1]) == Digit(s[0]);
      k := MoreTaken(s, 1, ulim / 10, ulim, MoreDigits(s[1..], Digit(s[0]), ulim / 10, ulim));
    }
  }

  /** So nothing outside the limits comes through. */
  lemma ConvNumWithin(s: string, dest: int, llim: nat, ulim: nat)
    ensures var n := ConvNum(s, dest, llim, ulim);
      if n.rest.Some? then llim <= n.val <= ulim else n.val == dest
  {
    var k := ConvNumTakes(s, dest, llim, ulim);
  }

  // ---- the fields, for every text

  /** The limits of a field; of the year, those of four digits. */
  predicate InRange(f: Field, v: int) {
    match f
    case Sec => 0 <= v <= 61
    case Min => 0 <= v <= 59
    case Hour => 0 <= v <= 23
    case Mday => 1 <= v <= 31
    case Mon => 0 <= v <= 11
    case Year => 0 <= v + TM_YEAR_BASE <= 9999
    case Wday => 0 <= v <= 6
    case Yday => 0 <= v <= 365
  }

  /** The directive gives the field, whole or as a year without its century. */
  predicate Gives(d: Directive, f: Field) {
    FieldOf(d) == Some(f) || (d.Conv? && d.c == 'y' && f == Year)
  }

  /** A directive of a whole field, or the only part of a year. */
  predicate Whole(d: Directive, split: bool) {
    Direct(d) || (d.Conv? && d.c == 'y' && !split)
  }

  /** What one directive does to a field, if it does not fail. */
  ghost predicate Within(d: Directive, f: Field, before: Time, after: Time) {
    if Gives(d, f) then InRange(f, Get(after, f)) else Get(after, f) == Get(before, f)
  }

  lemma WeekdayWithin(alt: Alt, c: char, s: string, tm: Time, f: Field)
    requires c == 'A' || c == 'a'
    ensures var r := ReadName(alt, c, s, tm); r.rest.Some? ==> Within(Conv(alt, c), f, tm, r.tm)
  {
    FoundWithin(s, tm.wday, DAY, ABDAY, 7);
  }

  lemma MonthWithin(alt: Alt, c: char, s: string, tm: Time, f: Field)
    requires c == 'B' || c == 'b' || c == 'h'
    ensures var r := ReadName(alt, c, s, tm); r.rest.Some? ==> Within(Conv(alt, c), f, tm, r.tm)
  {
    FoundWithin(s, tm.mon, MON, ABMON, 12);
  }

  lemma FoundWithin(s: string, tgt: int, full: seq<string>, ab: seq<string>, n: nat)
    requires |full| == |ab| == n
    ensures var r := FindString(s, tgt, full, ab); r.rest.Some? ==> 0 <= r.val < n
  {
  }

  lemma ClockWithin(alt: Alt, c: char, s: string, tm: Time, f: Field)
    requires KindOf(c) == Clock && Direct(Conv(alt, c))
    ensures var r := ReadClock(alt, c, s, tm); r.rest.Some? ==> Within(Conv(alt, c), f, tm, r.tm)
  {
    if c == 'k' || c == 'H' {
      ConvNumWithin(s, tm.hour, 0, 23);
    } else if c == 'M' {
      ConvNumWithin(s, tm.min, 0, 59);
    } else {
      ConvNumWithin(s, tm.sec, 0, 61);
    }
  }

  lemma DateWithin(alt: Alt, c: char, s: string, tm: Time, f: Field)
    requires KindOf(c) == Date && Direct(Conv(alt, c))
    ensures var r := ReadDate(alt, c, s, tm); r.rest.Some? ==> Within(Conv(alt, c), f, tm, r.tm)
  {
    ConvNumWithin(s, tm.mday, 1, 31);
    ConvNumWithin(s, 1, 1, 366);
    ConvNumWithin(s, 1, 1, 12);
    ConvNumWithin(s, TM_YEAR_BASE, 0, 9999);
  }

  lemma WeekWithin(alt: Alt, c: char, s: string, tm: Time, f: Field)
    requires KindOf(c) == Week && Direct(Conv(alt, c))
    ensures var r := ReadWeek(alt, c, s, tm); r.rest.Some? ==> Within(Conv(alt, c), f, tm, r.tm)
  {
    ConvNumWithin(s, tm.wday, 0, 6);
    ConvNumWithin(s, 0, 1, 7);
  }

  lemma DoWithin(d: Directive, s: string, tm: Time, split: bool, f: Field)
    requires Whole(d, split)
    ensures var r := Do(d, s, tm, split); r.rest.Some? ==> Within(d, f, tm, r.tm) && r.split == (split || Splits(d))
  {
    if d.Conv? {
      match KindOf(d.c) {
        case Name =>
          if d.c == 'A' || d.c == 'a' {
            WeekdayWithin(d.alt, d.c, s, tm, f);
          } else {
            MonthWithin(d.alt, d.c, s, tm, f);
          }
        case Clock => ClockWithin(d.alt, d.c, s, tm, f);
        case Date => DateWithin(d.alt, d.c, s, tm, f);
        case Week => WeekWithin(d.alt, d.c, s, tm, f);
        case YearPart => ConvNumWithin(s, 0, 0, 99);
        case _ =>
      }
    }
  }

  /** Whole fields, and at most one year without its century. */
  predicate AllWhole(ds: seq<Directive>, split: bool) {
    ds != [] ==> Whole(ds[0], split) && AllWhole(ds[1..], split || Splits(ds[0]))
  }

  predicate Given(ds: seq<Directive>, f: Field) {
    exists i :: 0 <= i < |ds| && Gives(ds[i], f)
  }

  lemma GivenFirst(ds: seq<Directive>, f: Field)
    requires ds != []
    ensures Given(ds, f) <==> Gives(ds[0], f) || Given(ds[1..], f)
  {
    if i :| 0 < i < |ds| && Gives(ds[i], f) { assert ds[1..][i - 1] == ds[i]; }
  }

  /** Whatever the text: a run that does not fail leaves every field it gives inside its limits, and the
      others as they were. */
  lemma {:induction false} RunWithin(ds: seq<Directive>, s: string, tm: Time, split: bool, f: Field)
    requires AllWhole(ds, split)
    ensures var r := Run(ds, s, tm, split);
      r.rest.Some? ==> if Given(ds, f) then InRange(f, Get(r.tm, f)) else Get(r.tm, f) == Get(tm, f)
  {
    if ds != [] {
      var r := Do(ds[0], s, tm, split);
      DoWithin(ds[0], s, tm, split, f);
      GivenFirst(ds, f);
      if r.rest.Some? {
        RunWithin(ds[1..], r.rest.value, r.tm, r.split, f);
        RunKeeps(ds[1..], r.rest.value, r.tm, r.split, f);
      }
    }
  }

  /** A field inside its limits stays there. */
  lemma {:induction false} RunKeeps(ds: seq<Directive>, s: string, tm: Time, split: bool, f: Field)
    requires AllWhole(ds, split)
    ensures var r := Run(ds, s, tm, split); r.rest.Some? && InRange(f, Get(tm, f)) ==> InRange(f, Get(r.tm, f))
  {
    if ds != [] {
      var r := Do(ds[0], s, tm, split);
      DoWithin(ds[0], s, tm, split, f);
      if r.rest.Some? { RunKeeps(ds[1..], r.rest.value, r.tm, r.split, f); }
    }
  }

  // ---- the three forms

  function DirsOf(form: Form): seq<Directive> {
    match form
    case Rfc1123 => DIRS_1123
    case Rfc1036 => DIRS_1036
    case Asctime => DIRS_ASCTIME
  }

  lemma LexForm(form: Form)
    ensures Lex(FormatOf(form)) == DirsOf(form)
  {
    match form {
      case Rfc1123 => Lex1123();
      case Rfc1036 => Lex1036();
      case Asctime => LexAsctime();
    }
  }

  lemma {:induction false} WholeFrom(ds: seq<Directive>, k: nat)
    requires k <= |ds| && forall i :: 0 <= i < |ds| && i != k ==> Direct(ds[i]) && !Splits(ds[i])
    requires k < |ds| ==> ds[k].Conv? && ds[k].c == 'y'
    ensures AllWhole(ds, false)
    decreases |ds|
  {
    if ds != [] {
      if k > 0 {
        WholeFrom(ds[1..], k - 1);
      } else {
        AllDirectWhole(ds[1..], true);
      }
    }
  }

  lemma {:induction false} AllDirectWhole(ds: seq<Directive>, split: bool)
    requires forall i :: 0 <= i < |ds| ==> Direct(ds[i]) && !Splits(ds[i])
    ensures AllWhole(ds, split)
    decreases |ds|
  {
    if ds != [] { AllDirectWhole(ds[1..], split); }
  }

  lemma FormWhole(form: Form)
    ensures AllWhole(DirsOf(form), false)
  {
    var ds := DirsOf(form);
    match form {
      case Rfc1123 => Separated1123(); AllDirectWhole(ds, false);
      case Rfc1036 => WholeFrom(ds, 7);
      case Asctime => SeparatedAsctime(); AllDirectWhole(ds, false);
    }
  }

  /** Each form gives every field but the day of the year. */
  lemma FormGives(form: Form, f: Field)
    ensures Given(DirsOf(form), f) <==> f != Yday
  {
    var ds := DirsOf(form);
    match form {
      case Rfc1123 =>
        assert Gives(ds[0], Wday) && Gives(ds[3], Mday) && Gives(ds[5], Mon) && Gives(ds[7], Year);
        assert Gives(ds[9], Hour) && Gives(ds[11], Min) && Gives(ds[13], Sec);
      case Rfc1036 =>
        assert Gives(ds[0], Wday) && Gives(ds[3], Mday) && Gives(ds[5], Mon) && Gives(ds[7], Year);
        assert Gives(ds[9], Hour) && Gives(ds[11], Min) && Gives(ds[13], Sec);
      case Asctime =>
        assert Gives(ds[0], Wday) && Gives(ds[2], Mon) && Gives(ds[4], Mday) && Gives(ds[12], Year);
        assert Gives(ds[6], Hour) && Gives(ds[8], Min) && Gives(ds[10], Sec);
    }
  }

  lemma FormWithin(date: string, form: Form, junk: Time, f: Field)
    ensures var r := ParseForm(date, form, junk);
      r.Some? ==> if f == Yday then Get(r.value, f) == Get(junk, f) else InRange(f, Get(r.value, f))
  {
    LexForm(form);
    FormWhole(form);
    FormGives(form, f);
    RunWithin(DirsOf(form), date, junk, false, f);
  }

  /** A date and a time of day, with a year of up to four digits. */
  predicate IsDate(tm: Time) {
    && 0 <= tm.sec <= 61 && 0 <= tm.min <= 59 && 0 <= tm.hour <= 23
    && 1 <= tm.mday <= 31 && 0 <= tm.mon <= 11 && 0 <= tm.wday <= 6
    && 0 <= tm.year + TM_YEAR_BASE <= 9999
  }

  lemma FormIsDate(date: string, form: Form, junk: Time)
    ensures var r := ParseForm(date, form, junk); r.Some? ==> IsDate(r.value) && r.value.yday == junk.yday
  {
    FormWithin(date, form, junk, Sec);
    FormWithin(date, form, junk, Min);
    FormWithin(date, form, junk, Hour);
    FormWithin(date, form, junk, Mday);
    FormWithin(date, form, junk, Mon);
    FormWithin(date, form, junk, Year);
    FormWithin(date, form, junk, Wday);
    FormWithin(date, form, junk, Yday);
  }

  /** Whatever the text, and whatever the memory held: what mmp_parse_date takes is a date, and only the
      day of the year is left as the memory had it. */
  lemma ParsedIsDate(date: string, j: Time, j': Time, j'': Time)
    ensures match ParseDate(date, j, j', j'')
      case Failed => true
      case Parsed(form, tm) =>
        IsDate(tm) && tm.yday == match form case Rfc1123 => j.yday case Rfc1036 => j'.yday case Asctime => j''.yday
  {
    FormIsDate(date, Rfc1123, j);
    FormIsDate(date, Rfc1036, j');
    FormIsDate(date, Asctime, j'');
  }
}
