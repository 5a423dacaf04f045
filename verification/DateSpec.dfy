/**
 The format language of src/mmp_date.c's xstrptime: its directives, and what each does to the text and
 to the broken-down time.  A `char*` is the string it points to, up to the terminating zero.
 */
module DateSpec {
  import opened Status

  /** struct tm */
  datatype Time = Time(sec: int, min: int, hour: int, mday: int, mon: int, year: int, wday: int, yday: int)

  const ABDAY := ["Sun", "Mon", "Tue", "Wed", "Thu", "Fri", "Sat"]
  const DAY := ["Sunday", "Monday", "Tuesday", "Wednesday", "Thursday", "Friday", "Saturday"]
  const ABMON := ["Jan", "Feb", "Mar", "Apr", "May", "Jun", "Jul", "Aug", "Sep", "Oct", "Nov", "Dec"]
  const MON := ["January", "February", "March", "April", "May", "June", "July",
                "August", "September", "October", "November", "December"]
  const AM_PM := ["AM", "PM"]

  const TM_YEAR_BASE := 1900

  predicate IsSpace(c: char) {
    c == ' ' || '\t' <= c <= '\r'
  }

  predicate IsDigit(c: char) {
    '0' <= c <= '9'
  }

  function Digit(c: char): (d: nat)
    requires IsDigit(c)
    ensures d <= 9
  {
    (c - '0') as nat
  }

  function SkipSpaces(s: string): (r: string)
    ensures |r| <= |s|
  {
    if s != [] && IsSpace(s[0]) then SkipSpaces(s[1..]) else s
  }

  function SkipDigits(s: string): (r: string)
    ensures |r| <= |s|
  {
    if s != [] && IsDigit(s[0]) then SkipDigits(s[1..]) else s
  }

  // ---- conv_num and find_string

  /** What they give back: the text behind, or NULL, and what is then in `*dest`. */
  datatype Num = Num(rest: Option<string>, val: int)

  /** The digits behind the first. */
  function MoreDigits(s: string, result: nat, rulim: nat, ulim: nat): (r: (string, nat))
    decreases |s|
  {
    if result * 10 <= ulim && rulim != 0 && s != [] && IsDigit(s[0])
    then MoreDigits(s[1..], result * 10 + Digit(s[0]), rulim / 10, ulim)
    else (s, result)
  }

  function ConvNum(s: string, dest: int, llim: nat, ulim: nat): Num {
    if s == [] || !IsDigit(s[0]) then Num(None, dest) else
    var (rest, result) := MoreDigits(s[1..], Digit(s[0]), ulim / 10, ulim);
    if result < llim || result > ulim then Num(None, dest) else Num(Some(rest), result)
  }

  function Lower(c: char): char {
    if 'A' <= c <= 'Z' then c - 'A' + 'a' else c
  }

  /** xstrncasecmp over the length of the name gives 0. */
  predicate Matches(name: string, s: string) {
    |name| <= |s| && forall i :: 0 <= i < |name| ==> Lower(name[i]) == Lower(s[i])
  }

  /** The first name that matches, or their number. */
  function FirstMatch(names: seq<string>, s: string): (i: nat)
    ensures i <= |names|
    ensures i < |names| ==> Matches(names[i], s)
    ensures forall j :: 0 <= j < i ==> !Matches(names[j], s)
  {
    if names == [] || Matches(names[0], s) then 0 else 1 + FirstMatch(names[1..], s)
  }

  function FindString(s: string, tgt: int, n1: seq<string>, n2: seq<string>): Num {
    var i, j := FirstMatch(n1, s), FirstMatch(n2, s);
    if i < |n1| then Num(Some(s[|n1[i]|..]), i)
    else if j < |n2| then Num(Some(s[|n2[j]|..]), j)
    else Num(None, tgt)
  }

  // ---- formats

  /** The modifier in front of a conversion. */
  datatype Alt = Plain | E | O

  /** Broken: a format that ends inside of a conversion, or modifies twice. */
  datatype Directive = Space(c: char) | Literal(c: char) | Conv(alt: Alt, c: char) | Broken

  /** The first directive of a format, and what follows it. */
  function Next(f: string): (r: (Directive, string))
    requires f != []
    ensures |r.1| < |f|
  {
    if IsSpace(f[0]) then (Space(f[0]), f[1..])
    else if f[0] != '%' then (Literal(f[0]), f[1..])
    else if |f| == 1 then (Broken, [])
    else if f[1] != 'E' && f[1] != 'O' then (Conv(Plain, f[1]), f[2..])
    else if |f| == 2 || f[2] == 'E' || f[2] == 'O' then (Broken, [])
    else (Conv(if f[1] == 'E' then E else O, f[2]), f[3..])
  }

  function Lex(f: string): seq<Directive>
    decreases |f|
  {
    if f == [] then [] else
    var (d, rest) := Next(f);
    [d] + Lex(rest)
  }

  // ---- what directives do

  /** The kinds of conversions. */
  datatype Kind = Percent | Name | Clock | Date | Week | Blank | YearPart | Complex | Unknown

  function KindOf(c: char): Kind {
    if c == '%' then Percent
    else if c == 'A' || c == 'a' || c == 'B' || c == 'b' || c == 'h' || c == 'p' then Name
    else if c == 'k' || c == 'H' || c == 'l' || c == 'I' || c == 'M' || c == 'S' then Clock
    else if c == 'd' || c == 'e' || c == 'j' || c == 'm' || c == 'Y' then Date
    else if c == 'U' || c == 'W' || c == 'w' || c == 'u' || c == 'g' || c == 'G' || c == 'V' then Week
    else if c == 'n' || c == 't' then Blank
    else if c == 'C' || c == 'y' then YearPart
    else if c == 'c' || c == 'D' || c == 'F' || c == 'R' || c == 'r' || c == 'T' || c == 'X' || c == 'x' then Complex
    else Unknown
  }

  /** What a conversion gives: the text behind, or NULL, and the time. */
  datatype Read = Read(rest: Option<string>, tm: Time)

  /** LEGAL_ALT, with the modifier that is allowed, if any. */
  function Legal(alt: Alt, allowed: Alt, r: Read): Read {
    if alt == Plain || alt == allowed then r else r.(rest := None)
  }

  function ReadLiteral(c: char, s: string, tm: Time): Read {
    Read(if s != [] && s[0] == c then Some(s[1..]) else None, tm)
  }

  function ReadName(alt: Alt, c: char, s: string, tm: Time): Read
    requires KindOf(c) == Name
  {
    if c == 'A' || c == 'a' then
      var n := FindString(s, tm.wday, DAY, ABDAY);
      Legal(alt, Plain, Read(n.rest, tm.(wday := n.val)))
    else if c == 'B' || c == 'b' || c == 'h' then
      var n := FindString(s, tm.mon, MON, ABMON);
      Legal(alt, Plain, Read(n.rest, tm.(mon := n.val)))
    else
      var n := FindString(s, 0, AM_PM, []);
      if tm.hour > 11 then Read(None, tm)
      else Legal(alt, Plain, Read(n.rest, tm.(hour := tm.hour + n.val * 12)))
  }

  function ReadClock(alt: Alt, c: char, s: string, tm: Time): Read
    requires KindOf(c) == Clock
  {
    if (c == 'k' || c == 'l') && alt != Plain then Read(None, tm)
    else if c == 'k' || c == 'H' then
      var n := ConvNum(s, tm.hour, 0, 23);
      Legal(alt, O, Read(n.rest, tm.(hour := n.val)))
    else if c == 'l' || c == 'I' then
      var n := ConvNum(s, tm.hour, 1, 12);
      Legal(alt, O, Read(n.rest, tm.(hour := if n.val == 12 then 0 else n.val)))
    else if c == 'M' then
      var n := ConvNum(s, tm.min, 0, 59);
      Legal(alt, O, Read(n.rest, tm.(min := n.val)))
    else
      var n := ConvNum(s, tm.sec, 0, 61);
      Legal(alt, O, Read(n.rest, tm.(sec := n.val)))
  }

  function ReadDate(alt: Alt, c: char, s: string, tm: Time): Read
    requires KindOf(c) == Date
  {
    if c == 'd' || c == 'e' then
      var n := ConvNum(s, tm.mday, 1, 31);
      Legal(alt, O, Read(n.rest, tm.(mday := n.val)))
    else if c == 'j' then
      var n := ConvNum(s, 1, 1, 366);
      Legal(alt, Plain, Read(n.rest, tm.(yday := n.val - 1)))
    else if c == 'm' then
      var n := ConvNum(s, 1, 1, 12);
      Legal(alt, O, Read(n.rest, tm.(mon := n.val - 1)))
    else
      var n := ConvNum(s, TM_YEAR_BASE, 0, 9999);
      Legal(alt, E, Read(n.rest, tm.(year := n.val - TM_YEAR_BASE)))
  }

  function ReadWeek(alt: Alt, c: char, s: string, tm: Time): Read
    requires KindOf(c) == Week
  {
    if c == 'U' || c == 'W' then
      Legal(alt, O, Read(ConvNum(s, 0, 0, 53).rest, tm))
    else if c == 'w' then
      var n := ConvNum(s, tm.wday, 0, 6);
      Legal(alt, O, Read(n.rest, tm.(wday := n.val)))
    else if c == 'u' then
      var n := ConvNum(s, 0, 1, 7);
      Legal(alt, O, Read(n.rest, tm.(wday := n.val % 7)))
    else if c == 'g' then Read(ConvNum(s, 0, 0, 99).rest, tm)
    else if c == 'V' then Read(ConvNum(s, 0, 0, 53).rest, tm)
    else Read(if s == [] then None else Some(SkipDigits(s[1..])), tm)
  }

  /** The conversions that are neither made of others nor a part of the year. */
  function Elementary(alt: Alt, c: char, s: string, tm: Time): Read {
    match KindOf(c)
    case Percent => Legal(alt, Plain, ReadLiteral(c, s, tm))
    case Name => ReadName(alt, c, s, tm)
    case Clock => ReadClock(alt, c, s, tm)
    case Date => ReadDate(alt, c, s, tm)
    case Week => ReadWeek(alt, c, s, tm)
    case Blank => Legal(alt, Plain, Read(Some(SkipSpaces(s)), tm))
    case _ => Read(None, tm)
  }

  /** The text behind, or NULL; the time; and whether `split_year` is set. */
  datatype State = State(rest: Option<string>, tm: Time, split: bool)

  function Plus(r: Read, split: bool): State {
    State(r.rest, r.tm, split)
  }

  /** C's division and remainder, which truncate. */
  function Quotient(a: int, b: nat): int
    requires b > 0
  {
    if a >= 0 then a / b else -(-a / b)
  }

  function Remainder(a: int, b: nat): int
    requires b > 0
  {
    a - Quotient(a, b) * b
  }

  /** A two-digit year on its own. */
  function Pivot(i: int): int {
    if i <= 68 then i + 2000 - TM_YEAR_BASE else i + 1900 - TM_YEAR_BASE
  }

  /** The century, and the year within it. */
  function ReadSplitYear(alt: Alt, c: char, s: string, tm: Time, split: bool): Read
    requires KindOf(c) == YearPart
  {
    if c == 'C' then
      var n := ConvNum(s, 20, 0, 99);
      var i := n.val * 100 - TM_YEAR_BASE + if split then Remainder(tm.year, 100) else 0;
      Legal(alt, E, Read(n.rest, tm.(year := i)))
    else
      var n := ConvNum(s, 0, 0, 99);
      Read(n.rest, tm.(year := if split then n.val + Quotient(tm.year, 100) * 100 else Pivot(n.val)))
  }

  predicate IsComplex(d: Directive) {
    d.Conv? && KindOf(d.c) == Complex
  }

  /** The format a complex conversion stands for. */
  function Expansion(c: char): string {
    if c == 'c' then "%a %b %d %H:%M:%S %Y"
    else if c in "Dx" then "%m/%d/%y"
    else if c == 'F' then "%Y-%m-%d"
    else if c == 'R' then "%H:%M"
    else if c == 'r' then "%I:%M:%S %p"
    else "%H:%M:%S"
  }

  predicate NoComplex(ds: seq<Directive>) {
    forall i :: 0 <= i < |ds| ==> !IsComplex(ds[i])
  }

  /** No expansion holds a complex conversion, so the recursion is one deep. */
  lemma ExpansionIsPlain(c: char)
    ensures NoComplex(Lex(Expansion(c)))
  {
    if c == 'c' {
      PlainText("%a %b %d %H:%M:%S %Y");
    } else {
      PlainText(Expansion(c));
    }
  }

  lemma ExpansionIsWhole(c: char)
    ensures Broken !in Lex(Expansion(c))
  {
    if c == 'c' {
      WholeText("%a %b %d %H:%M:%S %Y");
    } else if c == 'r' {
      WholeText("%I:%M:%S %p");
    } else {
      WholeText(Expansion(c));
    }
  }

  /** Every percent sign is followed by a letter that is no modifier. */
  predicate Paired(f: string) {
    forall i :: 0 <= i < |f| && f[i] == '%' ==> i + 1 < |f| && f[i + 1] !in "%EO"
  }

  lemma {:induction false} WholeText(f: string)
    requires Paired(f)
    ensures Broken !in Lex(f)
    decreases |f|
  {
    if f != [] {
      WholeText(Next(f).1);
    }
  }

  lemma {:induction false} PlainText(f: string)
    requires forall i :: 0 <= i < |f| ==> KindOf(f[i]) != Complex
    ensures NoComplex(Lex(f))
    decreases |f|
  {
    if f != [] {
      PlainText(Next(f).1);
    }
  }

  /** xstrptime: one directive after the other until one fails. */
  function Run(ds: seq<Directive>, s: string, tm: Time, split: bool): State
    decreases if NoComplex(ds) then 0 else 1, |ds| + 1
  {
    if ds == [] then State(Some(s), tm, split) else
    var r := Do(ds[0], s, tm, split);
    if r.rest == None then r else Run(ds[1..], r.rest.value, r.tm, r.split)
  }

  /** One directive.  A complex conversion is parsed by a call of its own, whose `split_year` starts out
      unset. */
  function Do(d: Directive, s: string, tm: Time, split: bool): State
    decreases if IsComplex(d) then 1 else 0, 1
  {
    match d
    case Space(_) => State(Some(SkipSpaces(s)), tm, split)
    case Literal(c) => Plus(ReadLiteral(c, s, tm), split)
    case Broken => State(None, tm, split)
    case Conv(alt, c) =>
      if IsComplex(d) then Plus(ReadComplex(alt, c, s, tm), split)
      else if KindOf(c) == YearPart then Plus(ReadSplitYear(alt, c, s, tm, split), true)
      else Plus(Elementary(alt, c, s, tm), split)
  }

  function ReadComplex(alt: Alt, c: char, s: string, tm: Time): Read
    decreases 1, 0
  {
    if c in "DFRrT" && alt != Plain then Read(None, tm)
    else
      ExpansionIsPlain(c);
      var inner := Run(Lex(Expansion(c)), s, tm, false);
      Legal(alt, E, Read(inner.rest, inner.tm))
  }

  function Scan(buf: string, fmt: string, tm: Time): State {
    Run(Lex(fmt), buf, tm, false)
  }
}
