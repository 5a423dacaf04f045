/**
 How formats put together are parsed: one after the other, and complex conversions like the formats
 they stand for.
 */
module DateCompose {
  import opened Status
  import opened DateSpec

  lemma NextAppend(f1: string, f2: string)
    requires f1 != [] && Next(f1).0 != Broken
    ensures Next(f1 + f2) == (Next(f1).0, Next(f1).1 + f2)
  {
    var f := f1 + f2;
    assert f[1..] == f1[1..] + f2;
    if |f1| > 1 { assert f[2..] == f1[2..] + f2; }
    if |f1| > 2 { assert f[3..] == f1[3..] + f2; }
  }

  lemma LexCons(f: string)
    requires f != []
    ensures Lex(f) == [Next(f).0] + Lex(Next(f).1)
  {
  }

  lemma {:induction false} LexAppend(f1: string, f2: string)
    requires Broken !in Lex(f1)
    ensures Lex(f1 + f2) == Lex(f1) + Lex(f2)
    decreases |f1|
  {
    if f1 == [] {
      assert f1 + f2 == f2;
    } else {
      var (d, rest) := Next(f1);
      LexCons(f1);
      assert Broken !in Lex(rest);
      NextAppend(f1, f2);
      LexAppend(rest, f2);
      LexCons(f1 + f2);
      assert [d] + (Lex(rest) + Lex(f2)) == [d] + Lex(rest) + Lex(f2);
    }
  }

  /** What comes of a state when more directives follow. */
  function Then(r: State, ds: seq<Directive>): State {
    if r.rest == None then r else Run(ds, r.rest.value, r.tm, r.split)
  }

  lemma {:induction false} RunAppend(ds1: seq<Directive>, ds2: seq<Directive>, s: string, tm: Time, split: bool)
    ensures Run(ds1 + ds2, s, tm, split) == Then(Run(ds1, s, tm, split), ds2)
  {
    if ds1 == [] {
      assert ds1 + ds2 == ds2;
    } else {
      assert (ds1 + ds2)[1..] == ds1[1..] + ds2;
      var r := Do(ds1[0], s, tm, split);
      if r.rest != None { RunAppend(ds1[1..], ds2, r.rest.value, r.tm, r.split); }
    }
  }

  /** Parsing by one format after the other is parsing by the two in a row, with `split_year` carried
      along. */
  lemma ScanAppend(buf: string, f1: string, f2: string, tm: Time)
    requires Broken !in Lex(f1)
    ensures Scan(buf, f1 + f2, tm) == Then(Scan(buf, f1, tm), Lex(f2))
  {
    LexAppend(f1, f2);
    RunAppend(Lex(f1), Lex(f2), buf, tm, false);
  }

  // ---- two calls instead of one

  /** The directives that look at `split_year` or set it. */
  predicate Splits(d: Directive) {
    d.Conv? && KindOf(d.c) == YearPart
  }

  predicate NoSplits(ds: seq<Directive>) {
    forall i :: 0 <= i < |ds| ==> !Splits(ds[i])
  }

  /** What a caller sees of a state. */
  predicate Same(a: State, b: State) {
    a.rest == b.rest && a.tm == b.tm
  }

  lemma DoNoSplit(d: Directive, s: string, tm: Time, split: bool, split': bool)
    requires !Splits(d)
    ensures Do(d, s, tm, split) == Do(d, s, tm, split').(split := split)
  {
  }

  lemma {:induction false} SplitUnused(ds: seq<Directive>, s: string, tm: Time, split: bool, split': bool)
    requires NoSplits(ds)
    ensures Run(ds, s, tm, split) == Run(ds, s, tm, split').(split := split)
  {
    if ds != [] {
      DoNoSplit(ds[0], s, tm, split, split');
      var r := Do(ds[0], s, tm, split);
      if r.rest != None { SplitUnused(ds[1..], r.rest.value, r.tm, split, split'); }
    }
  }

  /** A second call of xstrptime on what a first one left. */
  function TwoCalls(buf: string, f1: string, f2: string, tm: Time): State {
    var r := Scan(buf, f1, tm);
    if r.rest == None then r else Scan(r.rest.value, f2, r.tm)
  }

  /** Two calls are one call, unless both formats deal with parts of a year. */
  lemma TwoCallsAreOne(buf: string, f1: string, f2: string, tm: Time)
    requires Broken !in Lex(f1) && (NoSplits(Lex(f1)) || NoSplits(Lex(f2)))
    ensures Same(Scan(buf, f1 + f2, tm), TwoCalls(buf, f1, f2, tm))
  {
    ScanAppend(buf, f1, f2, tm);
    var r := Scan(buf, f1, tm);
    if NoSplits(Lex(f1)) {
      SplitUnused(Lex(f1), buf, tm, false, true);
    } else if r.rest != None {
      SplitUnused(Lex(f2), r.rest.value, r.tm, r.split, false);
    }
  }

  // ---- complex conversions

  lemma {:induction false} RunSame(ds: seq<Directive>, a: State, b: State)
    requires Same(a, b) && (a.split == b.split || NoSplits(ds))
    ensures Same(Then(a, ds), Then(b, ds))
  {
    if a.rest != None && a.split != b.split { SplitUnused(ds, a.rest.value, a.tm, a.split, b.split); }
  }

  /** A complex conversion means what its expansion means in its place, where `split_year` is not set
      before and not looked at behind it, or where the expansion has no part of a year. */
  lemma SplicedIn(buf: string, f1: string, c: char, f2: string, tm: Time)
    requires Broken !in Lex(f1) && KindOf(c) == Complex
    requires NoSplits(Lex(Expansion(c))) || (NoSplits(Lex(f1)) && NoSplits(Lex(f2)))
    ensures Same(Scan(buf, f1 + (['%', c] + f2), tm), Scan(buf, f1 + (Expansion(c) + f2), tm))
  {
    var d := Conv(Plain, c);
    var inner := Lex(Expansion(c));
    assert Next(['%', c] + f2) == (d, f2);
    ExpansionIsWhole(c);
    LexAppend(Expansion(c), f2);
    ScanAppend(buf, f1, ['%', c] + f2, tm);
    ScanAppend(buf, f1, Expansion(c) + f2, tm);
    var r := Scan(buf, f1, tm);
    if r.rest != None {
      if NoSplits(Lex(f1)) { SplitUnused(Lex(f1), buf, tm, false, true); }
      SplicedRun(c, inner, Lex(f2), r.rest.value, r.tm, r.split);
    }
  }

  lemma SplicedRun(c: char, inner: seq<Directive>, ds: seq<Directive>, s: string, tm: Time, split: bool)
    requires KindOf(c) == Complex && inner == Lex(Expansion(c))
    requires NoSplits(inner) || (!split && NoSplits(ds))
    ensures Same(Run([Conv(Plain, c)] + ds, s, tm, split), Run(inner + ds, s, tm, split))
  {
    RunAppend(inner, ds, s, tm, split);
    if NoSplits(inner) { SplitUnused(inner, s, tm, split, false); }
    assert Do(Conv(Plain, c), s, tm, split) == Plus(ReadComplex(Plain, c, s, tm), split);
    assert ReadComplex(Plain, c, s, tm).rest == Run(inner, s, tm, false).rest;
    RunSame(ds, Do(Conv(Plain, c), s, tm, split), Run(inner, s, tm, split));
  }
}
