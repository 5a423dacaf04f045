/**
 Whole formats: what fits a format piece by piece is parsed to its end, and the fields that the format
 mentions come back.
 */
module DateRun {
  import opened Status
  import opened DateSpec
  import opened DateCompose
  import opened DateRead

  function Join(pieces: seq<string>): string {
    if pieces == [] then [] else pieces[0] + Join(pieces[1..])
  }

  /** Each piece fits its directive, in front of the pieces behind it and of `rest`. */
  predicate AllFit(ds: seq<Directive>, pieces: seq<string>, rest: string, tm: Time, cur: Time, split: bool) {
    && |pieces| == |ds|
    && (ds != [] ==>
      && Fits(ds[0], pieces[0], Join(pieces[1..]) + rest, tm, cur)
      && AllFit(ds[1..], pieces[1..], rest, tm, After(ds[0], cur, tm, split), split || Splits(ds[0])))
  }

  function AfterAll(ds: seq<Directive>, cur: Time, tm: Time, split: bool): Time {
    if ds == [] then cur else AfterAll(ds[1..], After(ds[0], cur, tm, split), tm, split || Splits(ds[0]))
  }

  lemma {:induction false} RunReads(ds: seq<Directive>, pieces: seq<string>, rest: string, tm: Time, cur: Time,
                                    split: bool)
    requires AllFit(ds, pieces, rest, tm, cur, split)
    ensures var r := Run(ds, Join(pieces) + rest, cur, split);
      r.rest == Some(rest) && r.tm == AfterAll(ds, cur, tm, split) && r.split == (split || !NoSplits(ds))
  {
    if ds == [] {
      assert Join(pieces) + rest == rest;
    } else {
      var behind := Join(pieces[1..]) + rest;
      assert Join(pieces) + rest == pieces[0] + behind;
      DoReads(ds[0], pieces[0], behind, tm, cur, split);
      RunReads(ds[1..], pieces[1..], rest, tm, After(ds[0], cur, tm, split), split || Splits(ds[0]));
    }
  }

  // ---- fields

  datatype Field = Sec | Min | Hour | Mday | Mon | Year | Wday | Yday

  function Get(tm: Time, f: Field): int {
    match f
    case Sec => tm.sec
    case Min => tm.min
    case Hour => tm.hour
    case Mday => tm.mday
    case Mon => tm.mon
    case Year => tm.year
    case Wday => tm.wday
    case Yday => tm.yday
  }

  /** The conversions that stand for a whole field, and for which. */
  function FieldOf(d: Directive): Option<Field> {
    if !d.Conv? then None
    else if d.c == 'A' || d.c == 'a' || d.c == 'w' || d.c == 'u' then Some(Wday)
    else if d.c == 'B' || d.c == 'b' || d.c == 'h' || d.c == 'm' then Some(Mon)
    else if d.c == 'k' || d.c == 'H' then Some(Hour)
    else if d.c == 'M' then Some(Min)
    else if d.c == 'S' then Some(Sec)
    else if d.c == 'd' || d.c == 'e' then Some(Mday)
    else if d.c == 'j' then Some(Yday)
    else if d.c == 'Y' then Some(Year)
    else None
  }

  /** No half of a field: no hour of twelve, no AM or PM, no part of a year. */
  predicate Direct(d: Directive) {
    d.Conv? && KindOf(d.c) != Percent && KindOf(d.c) != Blank ==> FieldOf(d).Some?
  }

  predicate Mentions(ds: seq<Directive>, f: Field) {
    exists i :: 0 <= i < |ds| && FieldOf(ds[i]) == Some(f)
  }

  lemma DirectAfter(d: Directive, cur: Time, tm: Time, split: bool, f: Field)
    requires Direct(d)
    ensures Get(After(d, cur, tm, split), f) == if FieldOf(d) == Some(f) then Get(tm, f) else Get(cur, f)
    ensures !Splits(d)
  {
  }

  /** The fields mentioned come from the text, the others stay. */
  lemma {:induction false} DirectAfterAll(ds: seq<Directive>, cur: Time, tm: Time, split: bool, f: Field)
    requires forall i :: 0 <= i < |ds| ==> Direct(ds[i])
    ensures Get(AfterAll(ds, cur, tm, split), f) == if Mentions(ds, f) then Get(tm, f) else Get(cur, f)
  {
    if ds != [] {
      DirectAfter(ds[0], cur, tm, split, f);
      DirectAfterAll(ds[1..], After(ds[0], cur, tm, split), tm, split, f);
      assert Mentions(ds, f) <==> FieldOf(ds[0]) == Some(f) || Mentions(ds[1..], f) by {
        if Mentions(ds, f) {
          var i :| 0 <= i < |ds| && FieldOf(ds[i]) == Some(f);
          assert i > 0 ==> ds[1..][i - 1] == ds[i];
        }
      }
    }
  }

  // ---- piece by piece

  /** Each piece fits its directive, in front of the piece behind it. */
  predicate PiecesFit(ds: seq<Directive>, pieces: seq<string>, rest: string, tm: Time) {
    && |pieces| == |ds|
    && forall i :: 0 <= i < |ds| ==> PieceFits(ds, pieces, rest, tm, i)
  }

  /** AM or PM also fits by what was read before it, so it is not among these. */
  predicate PieceFits(ds: seq<Directive>, pieces: seq<string>, rest: string, tm: Time, i: nat)
    requires i < |ds| == |pieces|
  {
    && !IsHalf(ds[i]) && pieces[i] != []
    && Fits(ds[i], pieces[i], if i + 1 < |pieces| then pieces[i + 1] else rest, tm, tm)
  }

  predicate IsHalf(d: Directive) {
    d.Conv? && d.c == 'p'
  }

  /** Only the first character behind a piece matters. */
  lemma FitsByHead(d: Directive, s: string, rest: string, rest': string, tm: Time, cur: Time, cur': Time)
    requires !IsHalf(d) && Fits(d, s, rest, tm, cur)
    requires if rest == [] then rest' == [] else rest' != [] && rest'[0] == rest[0]
    ensures Fits(d, s, rest', tm, cur')
  {
    if d.Conv? { ConvFitsByHead(d.c, s, rest, rest', tm, cur, cur'); }
  }

  lemma ConvFitsByHead(c: char, s: string, rest: string, rest': string, tm: Time, cur: Time, cur': Time)
    requires c != 'p' && ConvFits(c, s, rest, tm, cur)
    requires StartsDigit(rest) == StartsDigit(rest') && (rest == [] <==> rest' == [])
      && (rest != [] ==> rest'[0] == rest[0])
    ensures ConvFits(c, s, rest', tm, cur')
  {
    match KindOf(c) {
      case Name => NameFitsByHead(c, s, rest, rest', tm, cur, cur');
      case Clock => ClockFitsByHead(c, s, rest, rest', tm);
      case Date => DateFitsByHead(c, s, rest, rest', tm);
      case Week => WeekFitsByHead(c, s, rest, rest', tm);
      case YearPart => YearPartFitsByHead(c, s, rest, rest', tm);
      case _ =>
    }
  }

  lemma ClockFitsByHead(c: char, s: string, rest: string, rest': string, tm: Time)
    requires FitsClock(c, s, rest, tm) && StartsDigit(rest) == StartsDigit(rest')
    ensures FitsClock(c, s, rest', tm)
  {
  }

  lemma DateFitsByHead(c: char, s: string, rest: string, rest': string, tm: Time)
    requires FitsDate(c, s, rest, tm) && StartsDigit(rest) == StartsDigit(rest')
    ensures FitsDate(c, s, rest', tm)
  {
  }

  lemma WeekFitsByHead(c: char, s: string, rest: string, rest': string, tm: Time)
    requires FitsWeek(c, s, rest, tm) && StartsDigit(rest) == StartsDigit(rest')
    ensures FitsWeek(c, s, rest', tm)
  {
  }

  lemma YearPartFitsByHead(c: char, s: string, rest: string, rest': string, tm: Time)
    requires FitsYearPart(c, s, rest, tm) && StartsDigit(rest) == StartsDigit(rest')
    ensures FitsYearPart(c, s, rest', tm)
  {
  }

  lemma NameFitsByHead(c: char, s: string, rest: string, rest': string, tm: Time, cur: Time, cur': Time)
    requires c != 'p' && KindOf(c) == Name && FitsName(c, s, rest, tm, cur)
    requires (rest == [] <==> rest' == []) && (rest != [] ==> rest'[0] == rest[0])
    ensures FitsName(c, s, rest', tm, cur')
  {
  }

  lemma {:induction false} PiecesAllFit(ds: seq<Directive>, pieces: seq<string>, rest: string, tm: Time, cur: Time,
                                        split: bool)
    requires PiecesFit(ds, pieces, rest, tm)
    ensures AllFit(ds, pieces, rest, tm, cur, split)
  {
    if ds != [] {
      assert PieceFits(ds, pieces, rest, tm, 0);
      var behind := Join(pieces[1..]) + rest;
      if |pieces| == 1 {
        assert behind == rest;
      } else {
        assert PieceFits(ds, pieces, rest, tm, 1);
        assert pieces[1..][0] == pieces[1] && behind == pieces[1] + (Join(pieces[1..][1..]) + rest);
      }
      FitsByHead(ds[0], pieces[0], if 1 < |pieces| then pieces[1] else rest, behind, tm, tm, cur);
      forall i | 0 <= i < |ds| - 1
        ensures PieceFits(ds[1..], pieces[1..], rest, tm, i)
      {
        assert PieceFits(ds, pieces, rest, tm, i + 1);
      }
      PiecesAllFit(ds[1..], pieces[1..], rest, tm, After(ds[0], cur, tm, split), split || Splits(ds[0]));
    }
  }

  /** A run over directives of whole fields gives the fields back that they mention. */
  lemma RunDirect(ds: seq<Directive>, pieces: seq<string>, rest: string, tm: Time, cur: Time, split: bool)
    requires PiecesFit(ds, pieces, rest, tm) && forall i :: 0 <= i < |ds| ==> Direct(ds[i])
    ensures var r := Run(ds, Join(pieces) + rest, cur, split);
      && r.rest == Some(rest) && r.split == split
      && forall f :: Get(r.tm, f) == if Mentions(ds, f) then Get(tm, f) else Get(cur, f)
  {
    PiecesAllFit(ds, pieces, rest, tm, cur, split);
    RunReads(ds, pieces, rest, tm, cur, split);
    forall f
      ensures Get(AfterAll(ds, cur, tm, split), f) == if Mentions(ds, f) then Get(tm, f) else Get(cur, f)
    {
      DirectAfterAll(ds, cur, tm, split, f);
    }
    assert NoSplits(ds);
  }

  /** For every format of whole fields, and every text that fits it: xstrptime reads the text to its end
      and gives the fields back that the format mentions. */
  lemma RoundTrip(fmt: string, pieces: seq<string>, rest: string, tm: Time, cur: Time)
    requires PiecesFit(Lex(fmt), pieces, rest, tm) && forall i :: 0 <= i < |Lex(fmt)| ==> Direct(Lex(fmt)[i])
    ensures var r := Scan(Join(pieces) + rest, fmt, cur);
      r.rest == Some(rest) && forall f :: Get(r.tm, f) == if Mentions(Lex(fmt), f) then Get(tm, f) else Get(cur, f)
  {
    RunDirect(Lex(fmt), pieces, rest, tm, cur, false);
  }
}
