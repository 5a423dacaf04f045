/**
 Fields that a text gives in two parts: the century and the year within it, and the hour on a clock of
 twelve.
 */
module DateParts {
  import opened Status
  import opened DateSpec
  import opened DateCompose
  import opened DateRead
  import opened DateRun
  import opened DateWrite
  import opened DateForms
  import opened DateParse
  import opened DateBranches

  lemma LexYearParts()
    ensures Lex("%C") == [Conv(Plain, 'C')] && Lex("%y") == [Conv(Plain, 'y')]
    ensures Lex("%C%y") == [Conv(Plain, 'C'), Conv(Plain, 'y')] && Lex("%y%C") == [Conv(Plain, 'y'), Conv(Plain, 'C')]
  {
    LexIs("%C", [Conv(Plain, 'C')], [0, 2]);
    LexIs("%y", [Conv(Plain, 'y')], [0, 2]);
    LexAppend("%C", "%y");
    LexAppend("%y", "%C");
    assert "%C" + "%y" == "%C%y" && "%y" + "%C" == "%y%C";
  }

  lemma OneRead(d: Directive, s: string, rest: string, tm: Time, cur: Time, split: bool)
    requires Fits(d, s, rest, tm, cur)
    ensures Run([d], s + rest, cur, split) == State(Some(rest), After(d, cur, tm, split), split || Splits(d))
  {
    assert [d] == [d] + [];
    RunCons(d, [], s + rest, cur, split);
    DoReads(d, s, rest, tm, cur, split);
  }

  lemma TwoRead(d: Directive, d': Directive, s: string, s': string, tm: Time, cur: Time, cur': Time)
    requires Fits(d, s, s', tm, cur) && cur' == After(d, cur, tm, false) && Fits(d', s', [], tm, cur') && Splits(d)
    ensures Run([d, d'], s + s', cur, false) == State(Some([]), After(d', cur', tm, true), true)
  {
    OneRead(d, s, s', tm, cur, false);
    OneRead(d', s', [], tm, cur', true);
    assert s' + [] == s' && [d, d'] == [d] + [d'];
    RunAppend([d], [d'], s + s', cur, false);
  }

  lemma PartFits(c: char, n: nat, rest: string, tm: Time, cur: Time)
    requires (c == 'C' || c == 'y') && n == tm.year + TM_YEAR_BASE <= 9999
    ensures Fits(Conv(Plain, c), Two(if c == 'C' then n / 100 else n % 100), rest, tm, cur)
  {
    TwoFits(n / 100, rest, 0, 99);
    TwoFits(n % 100, rest, 0, 99);
  }

  /** Century and year make up the year ... */
  lemma CenturyThenYear(n: nat, cur: Time)
    requires n <= 9999
    ensures var r := Scan(Two(n / 100) + Two(n % 100), "%C%y", cur);
      r.rest == Some([]) && r.tm == cur.(year := n - TM_YEAR_BASE)
  {
    var tm := cur.(year := n - TM_YEAR_BASE);
    var d, d' := Conv(Plain, 'C'), Conv(Plain, 'y');
    LexYearParts();
    PartFits('C', n, Two(n % 100), tm, cur);
    var cur' := After(d, cur, tm, false);
    PartFits('y', n, [], tm, cur');
    TwoRead(d, d', Two(n / 100), Two(n % 100), tm, cur, cur');
    CenturyYearAfter(n, tm, cur);
  }

  /** ... and the other way round. */
  lemma YearThenCentury(n: nat, cur: Time)
    requires n <= 9999
    ensures var r := Scan(Two(n % 100) + Two(n / 100), "%y%C", cur);
      r.rest == Some([]) && r.tm == cur.(year := n - TM_YEAR_BASE)
  {
    var tm := cur.(year := n - TM_YEAR_BASE);
    var d, d' := Conv(Plain, 'y'), Conv(Plain, 'C');
    LexYearParts();
    PartFits('y', n, Two(n / 100), tm, cur);
    var cur' := After(d, cur, tm, false);
    PartFits('C', n, [], tm, cur');
    TwoRead(d, d', Two(n % 100), Two(n / 100), tm, cur, cur');
    YearCenturyAfter(n, tm, cur);
  }

  lemma CenturyYearAfter(n: nat, tm: Time, cur: Time)
    requires n <= 9999 && tm == cur.(year := n - TM_YEAR_BASE)
    ensures After(Conv(Plain, 'y'), After(Conv(Plain, 'C'), cur, tm, false), tm, true) == tm
  {
    CenturyPlusYear(n / 100, n % 100);
  }

  lemma YearCenturyAfter(n: nat, tm: Time, cur: Time)
    requires n <= 9999 && tm == cur.(year := n - TM_YEAR_BASE)
    ensures After(Conv(Plain, 'C'), After(Conv(Plain, 'y'), cur, tm, false), tm, true) == tm
  {
    YearPlusCentury(n % 100);
  }

  lemma CenturyPlusYear(q: nat, r: nat)
    requires r < 100
    ensures r + Quotient(q * 100 - TM_YEAR_BASE, 100) * 100 == q * 100 + r - TM_YEAR_BASE
  {
    assert q * 100 - TM_YEAR_BASE == (q - 19) * 100;
  }

  lemma YearPlusCentury(r: nat)
    requires r < 100
    ensures Remainder(Pivot(r), 100) == r
  {
  }

  /** In two calls the century is lost, because a call does not keep `split_year`: a year comes out as in
      one call if and only if its last two digits alone stand for it. */
  lemma TwoCallsLoseCentury(n: nat, cur: Time)
    requires n <= 9999
    ensures Same(TwoCalls(Two(n / 100) + Two(n % 100), "%C", "%y", cur), Scan(Two(n / 100) + Two(n % 100), "%C%y", cur))
      <==> 1969 <= n <= 2068
  {
    CenturyThenYear(n, cur);
    TwoCallsPivot(n, cur);
    PivotIff(n);
    assert cur.(year := Pivot(n % 100)).year == Pivot(n % 100)
      && cur.(year := n - TM_YEAR_BASE).year == n - TM_YEAR_BASE;
  }

  lemma TwoCallsPivot(n: nat, cur: Time)
    requires n <= 9999
    ensures var r := TwoCalls(Two(n / 100) + Two(n % 100), "%C", "%y", cur);
      r.rest == Some([]) && r.tm == cur.(year := Pivot(n % 100))
  {
    var cur' := CenturyCall(n, cur);
    YearCall(n, cur', cur'.(year := n - TM_YEAR_BASE));
  }

  lemma CenturyCall(n: nat, cur: Time) returns (cur': Time)
    requires n <= 9999
    ensures Scan(Two(n / 100) + Two(n % 100), "%C", cur) == State(Some(Two(n % 100)), cur', true)
    ensures cur' == cur.(year := cur'.year)
  {
    var tm := cur.(year := n - TM_YEAR_BASE);
    LexYearParts();
    PartFits('C', n, Two(n % 100), tm, cur);
    OneRead(Conv(Plain, 'C'), Two(n / 100), Two(n % 100), tm, cur, false);
    cur' := After(Conv(Plain, 'C'), cur, tm, false);
  }

  lemma YearCall(n: nat, cur: Time, tm: Time)
    requires n <= 9999 && tm == cur.(year := n - TM_YEAR_BASE)
    ensures Scan(Two(n % 100), "%y", cur) == State(Some([]), cur.(year := Pivot(n % 100)), true)
  {
    LexYearParts();
    PartFits('y', n, [], tm, cur);
    OneRead(Conv(Plain, 'y'), Two(n % 100), [], tm, cur, false);
    assert Two(n % 100) + [] == Two(n % 100);
  }

  // ---- the clock of twelve

  const BEHIND_HOUR: seq<Directive> := [Literal(':'), Conv(Plain, 'M'), Literal(':'), Conv(Plain, 'S'), Space(' ')]

  function Half(tm: Time): (s: string)
    ensures s != [] && IsLetter(s[0])
  {
    AM_PM[if tm.hour >= 12 then 1 else 0]
  }

  /** What strftime writes for %r. */
  function Clock12(tm: Time): string
    requires Valid(tm)
  {
    Two(Hour12(tm.hour)) + (BehindText(tm) + Half(tm))
  }

  lemma BehindHourPart()
    ensures Separated(BEHIND_HOUR) && AllDirect(BEHIND_HOUR)
    ensures forall f :: Mentions(BEHIND_HOUR, f) <==> f == Min || f == Sec
  {
    var ds := BEHIND_HOUR;
    assert Writable(ds[0]) && Writable(ds[1]) && Writable(ds[2]) && Writable(ds[3]) && Writable(ds[4]);
    assert Apart(ds[0], ds[1]) && Apart(ds[1], ds[2]) && Apart(ds[2], ds[3]) && Apart(ds[3], ds[4]);
    assert FieldOf(ds[1]) == Some(Min) && FieldOf(ds[3]) == Some(Sec);
  }

  lemma BehindHour(rest: string, tm: Time, cur: Time)
    requires Valid(tm) && rest != [] && IsLetter(rest[0])
    ensures Run(BEHIND_HOUR, BehindText(tm) + rest, cur, false)
      == State(Some(rest), cur.(min := tm.min, sec := tm.sec), false)
  {
    BehindHourPart();
    BehindHourText(tm);
    RunPart(BEHIND_HOUR, rest, tm, cur, false);
    ByFields(Run(BEHIND_HOUR, Text(BEHIND_HOUR, tm) + rest, cur, false).tm, cur.(min := tm.min, sec := tm.sec));
  }

  function BehindText(tm: Time): string
    requires Valid(tm)
  {
    ":" + Two(tm.min) + ":" + Two(tm.sec) + " "
  }

  lemma BehindHourText(tm: Time)
    requires Valid(tm) && Separated(BEHIND_HOUR)
    ensures Text(BEHIND_HOUR, tm) == BehindText(tm)
  {
    var ps := [":", Two(tm.min), ":", Two(tm.sec), " "];
    assert Pieces(BEHIND_HOUR, tm) == ps;
    FirstPiece(ps);
    FirstPiece(ps[1..]);
    FirstPiece(ps[1..][1..]);
    FirstPiece(ps[1..][1..][1..]);
    FirstPiece(ps[1..][1..][1..][1..]);
    assert ps[1..][1..][1..][1..] == [" "] && Join([]) == "";
  }

  /** The hour of the day comes back from the clock of twelve. */
  lemma Clock12Undone(tm: Time, cur: Time)
    requires Valid(tm)
    ensures var r := Scan(Clock12(tm), Expansion('r'), cur);
      r.rest == Some([]) && r.tm == cur.(hour := tm.hour, min := tm.min, sec := tm.sec)
  {
    LexClock12();
    var hour, half := Conv(Plain, 'I'), Conv(Plain, 'p');
    var h, ap := Two(Hour12(tm.hour)), Half(tm);
    var rest := BehindText(tm) + ap;
    TwoFits(Hour12(tm.hour), rest, 1, 12);
    DoReads(hour, h, rest, tm, cur, false);
    RunCons(hour, BEHIND_HOUR + [half], h + rest, cur, false);
    var cur' := cur.(hour := tm.hour % 12);
    RunAppend(BEHIND_HOUR, [half], rest, cur', false);
    BehindHour(ap, tm, cur');
    HalfDay(ap, tm, cur'.(min := tm.min, sec := tm.sec));
  }

  lemma LexClock12()
    ensures Lex(Expansion('r')) == [Conv(Plain, 'I')] + (BEHIND_HOUR + [Conv(Plain, 'p')])
  {
    var ds := [Conv(Plain, 'I'), Literal(':'), Conv(Plain, 'M'), Literal(':'), Conv(Plain, 'S'), Space(' '),
      Conv(Plain, 'p')];
    LexIs("%I:%M:%S %p", ds, [0, 2, 3, 5, 6, 8, 9, 11]);
    assert ds == [Conv(Plain, 'I')] + (BEHIND_HOUR + [Conv(Plain, 'p')]);
  }

  lemma HalfDay(ap: string, tm: Time, cur: Time)
    requires Valid(tm) && ap == Half(tm) && cur.hour == tm.hour % 12
    ensures Run([Conv(Plain, 'p')], ap, cur, false) == State(Some([]), cur.(hour := tm.hour), false)
  {
    var half := Conv(Plain, 'p');
    assert SameLetters(ap, ap) && ap + [] == ap;
    DoReads(half, ap, [], tm, cur, false);
    assert [half] == [half] + [];
    RunCons(half, [], ap, cur, false);
  }
}
