/**
 The three date forms of section 3.3.1 of RFC 2616, as src/mmp_date.c prints and parses them.
 */
module DateForms {
  import opened Status
  import opened DateSpec
  import opened DateCompose
  import opened DateRead
  import opened DateRun
  import opened DateWrite

  const FMT_1123 := "%a, %d %b %Y %H:%M:%S GMT"
  const FMT_1036 := "%A, %d-%b-%y %H:%M:%S GMT"
  const FMT_ASCTIME := "%a %b %d %H:%M:%S %Y"

  // The same, in two halves, as directives.
  const DATE_1123: seq<Directive> := [Conv(Plain, 'a'), Literal(','), Space(' '), Conv(Plain, 'd'), Space(' '),
    Conv(Plain, 'b'), Space(' '), Conv(Plain, 'Y')]
  const DATE_1036: seq<Directive> := [Conv(Plain, 'A'), Literal(','), Space(' '), Conv(Plain, 'd'),
    Literal('-'), Conv(Plain, 'b'), Literal('-'), Conv(Plain, 'y')]
  const TIME_GMT: seq<Directive> := [Space(' '), Conv(Plain, 'H'), Literal(':'), Conv(Plain, 'M'),
    Literal(':'), Conv(Plain, 'S'), Space(' '), Literal('G'), Literal('M'), Literal('T')]
  const DATE_ASCTIME: seq<Directive> := [Conv(Plain, 'a'), Space(' '), Conv(Plain, 'b'), Space(' '), Conv(Plain, 'd')]
  const TIME_YEAR: seq<Directive> := [Space(' '), Conv(Plain, 'H'), Literal(':'), Conv(Plain, 'M'),
    Literal(':'), Conv(Plain, 'S'), Space(' '), Conv(Plain, 'Y')]
  const DIRS_1123 := DATE_1123 + TIME_GMT
  const DIRS_1036 := DATE_1036 + TIME_GMT
  const DIRS_ASCTIME := DATE_ASCTIME + TIME_YEAR

  /** The directive at one place of a format, and the place behind it. */
  predicate At(f: string, i: nat, d: Directive, j: nat) {
    i < j <= |f| &&
    match d
    case Space(c) => j == i + 1 && f[i] == c && IsSpace(c)
    case Literal(c) => j == i + 1 && f[i] == c && !IsSpace(c) && c != '%'
    case Conv(alt, c) => j == i + 2 && f[i] == '%' && f[i + 1] == c && alt == Plain && c != 'E' && c != 'O'
    case Broken => false
  }

  lemma {:induction false} LexFrom(f: string, ds: seq<Directive>, places: seq<nat>, k: nat)
    requires |places| == |ds| + 1 && places[|ds|] == |f| && k <= |ds| && places[k] <= |f|
    requires forall i :: 0 <= i < |ds| ==> At(f, places[i], ds[i], places[i + 1])
    ensures Lex(f[places[k]..]) == ds[k..]
    decreases |ds| - k
  {
    if k < |ds| {
      var i, j := places[k], places[k + 1];
      assert At(f, i, ds[k], j);
      LexFrom(f, ds, places, k + 1);
      assert Next(f[i..]) == (ds[k], f[j..]) by {
        assert f[i..][1..] == f[i + 1..];
        if ds[k].Conv? { assert f[i..][2..] == f[i + 2..]; }
      }
      assert ds[k..] == [ds[k]] + ds[k + 1..];
    }
  }

  lemma LexIs(f: string, ds: seq<Directive>, places: seq<nat>)
    requires |places| == |ds| + 1 && places[0] == 0 && places[|ds|] == |f|
    requires forall i :: 0 <= i < |ds| ==> At(f, places[i], ds[i], places[i + 1])
    ensures Lex(f) == ds
  {
    LexFrom(f, ds, places, 0);
    assert f[0..] == f && ds[0..] == ds;
  }

  lemma LexDate1123()
    ensures Lex("%a, %d %b %Y") == DATE_1123
  {
    LexIs("%a, %d %b %Y", DATE_1123, [0, 2, 3, 4, 6, 7, 9, 10, 12]);
  }

  lemma LexDate1036()
    ensures Lex("%A, %d-%b-%y") == DATE_1036
  {
    LexIs("%A, %d-%b-%y", DATE_1036, [0, 2, 3, 4, 6, 7, 9, 10, 12]);
  }

  lemma LexTimeGmt()
    ensures Lex(" %H:%M:%S GMT") == TIME_GMT
  {
    LexIs(" %H:%M:%S GMT", TIME_GMT, [0, 1, 3, 4, 6, 7, 9, 10, 11, 12, 13]);
  }

  lemma LexDateAsctime()
    ensures Lex("%a %b %d") == DATE_ASCTIME
  {
    LexIs("%a %b %d", DATE_ASCTIME, [0, 2, 3, 5, 6, 8]);
  }

  lemma LexTimeYear()
    ensures Lex(" %H:%M:%S %Y") == TIME_YEAR
  {
    LexIs(" %H:%M:%S %Y", TIME_YEAR, [0, 1, 3, 4, 6, 7, 9, 10, 12]);
  }

  lemma LexParts(h: string, f: string, g: string, ds: seq<Directive>, es: seq<Directive>)
    requires h == f + g && Lex(f) == ds && Lex(g) == es && Broken !in ds
    ensures Lex(h) == ds + es
  {
    LexAppend(f, g);
  }

  lemma Halves1123()
    ensures FMT_1123 == "%a, %d %b %Y" + " %H:%M:%S GMT"
  {
  }

  lemma Lex1123()
    ensures Lex(FMT_1123) == DIRS_1123
  {
    Halves1123();
    LexDate1123();
    LexTimeGmt();
    LexParts(FMT_1123, "%a, %d %b %Y", " %H:%M:%S GMT", DATE_1123, TIME_GMT);
  }

  lemma Halves1036()
    ensures FMT_1036 == "%A, %d-%b-%y" + " %H:%M:%S GMT"
  {
  }

  lemma Lex1036()
    ensures Lex(FMT_1036) == DIRS_1036
  {
    Halves1036();
    LexDate1036();
    LexTimeGmt();
    LexParts(FMT_1036, "%A, %d-%b-%y", " %H:%M:%S GMT", DATE_1036, TIME_GMT);
  }

  lemma HalvesAsctime()
    ensures FMT_ASCTIME == "%a %b %d" + " %H:%M:%S %Y"
  {
  }

  lemma LexAsctime()
    ensures Lex(FMT_ASCTIME) == DIRS_ASCTIME
  {
    HalvesAsctime();
    LexDateAsctime();
    LexTimeYear();
    LexParts(FMT_ASCTIME, "%a %b %d", " %H:%M:%S %Y", DATE_ASCTIME, TIME_YEAR);
  }

  lemma SeparatedAppend(a: seq<Directive>, b: seq<Directive>)
    requires Separated(a) && Separated(b) && a != [] && b != [] && Apart(a[|a| - 1], b[0])
    ensures Separated(a + b)
  {
  }

  predicate AllDirect(ds: seq<Directive>) {
    forall i :: 0 <= i < |ds| ==> Direct(ds[i])
  }

  lemma SeparatedDate1123()
    ensures Separated(DATE_1123) && AllDirect(DATE_1123)
  {
    var ds := DATE_1123;
    assert Writable(ds[0]) && Writable(ds[1]) && Writable(ds[2]) && Writable(ds[3]) && Writable(ds[4])
      && Writable(ds[5]) && Writable(ds[6]) && Writable(ds[7]);
    assert Apart(ds[0], ds[1]) && Apart(ds[1], ds[2]) && Apart(ds[2], ds[3]) && Apart(ds[3], ds[4])
      && Apart(ds[4], ds[5]) && Apart(ds[5], ds[6]) && Apart(ds[6], ds[7]);
  }

  lemma SeparatedDate1036()
    ensures Separated(DATE_1036)
  {
    var ds := DATE_1036;
    assert Writable(ds[0]) && Writable(ds[1]) && Writable(ds[2]) && Writable(ds[3]) && Writable(ds[4])
      && Writable(ds[5]) && Writable(ds[6]) && Writable(ds[7]);
    assert Apart(ds[0], ds[1]) && Apart(ds[1], ds[2]) && Apart(ds[2], ds[3]) && Apart(ds[3], ds[4])
      && Apart(ds[4], ds[5]) && Apart(ds[5], ds[6]) && Apart(ds[6], ds[7]);
  }

  lemma SeparatedTimeGmt()
    ensures Separated(TIME_GMT) && AllDirect(TIME_GMT)
  {
    var ds := TIME_GMT;
    assert Writable(ds[0]) && Writable(ds[1]) && Writable(ds[2]) && Writable(ds[3]) && Writable(ds[4])
      && Writable(ds[5]) && Writable(ds[6]) && Writable(ds[7]) && Writable(ds[8]) && Writable(ds[9]);
    assert Apart(ds[0], ds[1]) && Apart(ds[1], ds[2]) && Apart(ds[2], ds[3]) && Apart(ds[3], ds[4])
      && Apart(ds[4], ds[5]) && Apart(ds[5], ds[6]) && Apart(ds[6], ds[7]) && Apart(ds[7], ds[8])
      && Apart(ds[8], ds[9]);
  }

  lemma SeparatedDateAsctime()
    ensures Separated(DATE_ASCTIME) && AllDirect(DATE_ASCTIME)
  {
    var ds := DATE_ASCTIME;
    assert Writable(ds[0]) && Writable(ds[1]) && Writable(ds[2]) && Writable(ds[3]) && Writable(ds[4]);
    assert Apart(ds[0], ds[1]) && Apart(ds[1], ds[2]) && Apart(ds[2], ds[3]) && Apart(ds[3], ds[4]);
  }

  lemma SeparatedTimeYear()
    ensures Separated(TIME_YEAR) && AllDirect(TIME_YEAR)
  {
    var ds := TIME_YEAR;
    assert Writable(ds[0]) && Writable(ds[1]) && Writable(ds[2]) && Writable(ds[3]) && Writable(ds[4])
      && Writable(ds[5]) && Writable(ds[6]) && Writable(ds[7]);
    assert Apart(ds[0], ds[1]) && Apart(ds[1], ds[2]) && Apart(ds[2], ds[3]) && Apart(ds[3], ds[4])
      && Apart(ds[4], ds[5]) && Apart(ds[5], ds[6]) && Apart(ds[6], ds[7]);
  }

  lemma Separated1123()
    ensures Separated(DIRS_1123) && AllDirect(DIRS_1123)
  {
    SeparatedDate1123();
    SeparatedTimeGmt();
    SeparatedAppend(DATE_1123, TIME_GMT);
  }

  lemma Separated1036()
    ensures Separated(DIRS_1036)
  {
    SeparatedDate1036();
    SeparatedTimeGmt();
    SeparatedAppend(DATE_1036, TIME_GMT);
  }

  lemma SeparatedAsctime()
    ensures Separated(DIRS_ASCTIME) && AllDirect(DIRS_ASCTIME)
  {
    SeparatedDateAsctime();
    SeparatedTimeYear();
    SeparatedAppend(DATE_ASCTIME, TIME_YEAR);
  }

}
