/**
 Option syntax as section 12.2 of the POSIX.1-2008 Base Definitions has it: a recursive parse of
 whole argument lists, and the command lines it is meant for.
 */
module GetoptSpec {
  import opened Status

  /** What one call gives the caller: the value returned, and optopt and optarg after it. */
  datatype Event = Event(ret: char, opt: char, arg: Option<string>)

  /** All the events, and the operands that are left. */
  datatype Parsed = Parsed(events: seq<Event>, left: seq<string>)

  function Before(e: Event, p: Parsed): Parsed {
    Parsed([e] + p.events, p.left)
  }

  /** The first place of a character, or the length: strchr. */
  function FirstAt(opts: string, c: char): (i: nat)
    ensures i <= |opts|
    ensures i < |opts| ==> opts[i] == c
    ensures forall j :: 0 <= j < i ==> opts[j] != c
  {
    if opts == [] || opts[0] == c then 0 else 1 + FirstAt(opts[1..], c)
  }

  predicate Known(opts: string, c: char) {
    c != ':' && FirstAt(opts, c) < |opts|
  }

  predicate TakesArg(opts: string, c: char) {
    var i := FirstAt(opts, c);
    Known(opts, c) && i + 1 < |opts| && opts[i + 1] == ':'
  }

  predicate IsOption(s: string) {
    |s| >= 2 && s[0] == '-'
  }

  /** The arguments from the first one that is not begun.  `last` is the optarg so far, which an
      illegal option and a missing argument leave as it is. */
  function ParseArgs(args: seq<string>, opts: string, last: Option<string>): Parsed
    decreases |args|, 0
  {
    if args == [] || !IsOption(args[0]) then Parsed([], args)
    else if args[0] == "--" then Parsed([], args[1..])
    else ParseCluster(args[0][1..], args[1..], opts, last)
  }

  /** What is left of an argument of option letters, and the arguments behind it. */
  function ParseCluster(letters: string, rest: seq<string>, opts: string, last: Option<string>): Parsed
    decreases |rest|, 1 + |letters|
  {
    if letters == [] then ParseArgs(rest, opts, last) else
    var c, more := letters[0], letters[1..];
    if !Known(opts, c) then Before(Event('?', c, last), ParseCluster(more, rest, opts, last))
    else if !TakesArg(opts, c) then Before(Event(c, c, None), ParseCluster(more, rest, opts, None))
    else if more != [] then Before(Event(c, c, Some(more)), ParseArgs(rest, opts, Some(more)))
    else if rest == [] then Parsed([Event('?', c, last)], [])
    else Before(Event(c, c, Some(rest[0])), ParseArgs(rest[1..], opts, Some(rest[0])))
  }

  /** An illegal letter, and a letter that takes no argument. */
  lemma OneLetter(letters: string, rest: seq<string>, opts: string, last: Option<string>)
    requires letters != []
    ensures var c, more := letters[0], letters[1..];
      && (!Known(opts, c) ==>
        ParseCluster(letters, rest, opts, last) == Before(Event('?', c, last), ParseCluster(more, rest, opts, last)))
      && (Known(opts, c) && !TakesArg(opts, c) ==>
        ParseCluster(letters, rest, opts, last) == Before(Event(c, c, None), ParseCluster(more, rest, opts, None)))
  {
  }

  /** What `opts` declares: every letter in it but the colon, */
  lemma KnownIff(opts: string, c: char)
    ensures Known(opts, c) <==> c in opts && c != ':'
  {
  }

  /** with an argument where a colon follows its first place. */
  lemma TakesArgIff(a: string, c: char, b: string)
    requires c !in a && c != ':'
    ensures TakesArg(a + [c] + b, c) <==> b != [] && b[0] == ':'
  {
    var opts := a + [c] + b;
    assert opts[|a|] == c;
    assert forall j :: 0 <= j < |a| ==> opts[j] == a[j];
    assert FirstAt(opts, c) == |a|;
    assert b != [] ==> opts[|a| + 1] == b[0];
  }

  // ---- command lines, written down from what they mean

  /** One argument of options: letters alone, or letters and then an option with an argument, which is
      attached or the next one. */
  datatype Item =
    | Flags(flags: string)
    | Attached(flags: string, c: char, arg: string)
    | Separate(flags: string, c: char, arg: string)

  /** Flags, and letters that `opts` does not have. */
  predicate NoneTakesArg(flags: string, opts: string) {
    forall i :: 0 <= i < |flags| ==> !TakesArg(opts, flags[i])
  }

  predicate ItemOk(item: Item, opts: string) {
    && NoneTakesArg(item.flags, opts)
    && match item
       case Flags(flags) => flags != [] && flags != "-"
       case Attached(_, c, arg) => TakesArg(opts, c) && arg != []
       case Separate(flags, c, _) => TakesArg(opts, c) && (flags == [] ==> c != '-')
  }

  function Render(item: Item): seq<string> {
    match item
    case Flags(flags) => ["-" + flags]
    case Attached(flags, c, arg) => ["-" + flags + [c] + arg]
    case Separate(flags, c, arg) => ["-" + flags + [c], arg]
  }

  function RenderAll(items: seq<Item>): seq<string> {
    if items == [] then [] else Render(items[0]) + RenderAll(items[1..])
  }

  /** A flag gives itself and no argument; any other letter gives '?', and leaves optarg as it is. */
  function LetterEvents(flags: string, opts: string, last: Option<string>): seq<Event> {
    if flags == [] then []
    else if flags[0] in opts && flags[0] != ':'
    then [Event(flags[0], flags[0], None)] + LetterEvents(flags[1..], opts, None)
    else [Event('?', flags[0], last)] + LetterEvents(flags[1..], opts, last)
  }

  /** The optarg they leave. */
  function LetterArg(flags: string, opts: string, last: Option<string>): Option<string> {
    if exists i :: 0 <= i < |flags| && flags[i] in opts && flags[i] != ':' then None else last
  }

  function Meaning(item: Item, opts: string, last: Option<string>): seq<Event> {
    LetterEvents(item.flags, opts, last) + if item.Flags? then [] else [Event(item.c, item.c, Some(item.arg))]
  }

  function ArgAfter(item: Item, opts: string, last: Option<string>): Option<string> {
    if item.Flags? then LetterArg(item.flags, opts, last) else Some(item.arg)
  }

  function MeaningAll(items: seq<Item>, opts: string, last: Option<string>): seq<Event> {
    if items == [] then []
    else Meaning(items[0], opts, last) + MeaningAll(items[1..], opts, ArgAfter(items[0], opts, last))
  }

  function ArgAfterAll(items: seq<Item>, opts: string, last: Option<string>): Option<string> {
    if items == [] then last else ArgAfterAll(items[1..], opts, ArgAfter(items[0], opts, last))
  }

  lemma LetterArgFirst(flags: string, opts: string, last: Option<string>)
    requires flags != []
    ensures LetterArg(flags, opts, last) ==
      LetterArg(flags[1..], opts, if flags[0] in opts && flags[0] != ':' then None else last)
  {
    assert forall i :: 0 < i < |flags| ==> flags[i] == flags[1..][i - 1];
    if i :| 0 < i < |flags| && flags[i] in opts && flags[i] != ':' { assert flags[1..][i - 1] == flags[i]; }
  }

  lemma Joined<T>(a: seq<T>, b: seq<T>, c: seq<T>)
    ensures (a + b) + c == a + (b + c)
  {
  }

  /** What one letter that takes no argument gives, and what it leaves in optarg. */
  lemma FirstLetter(c: char, more: string, rest: seq<string>, opts: string, last: Option<string>)
    requires !TakesArg(opts, c)
    ensures ParseCluster([c] + more, rest, opts, last) ==
      if c in opts && c != ':' then Before(Event(c, c, None), ParseCluster(more, rest, opts, None))
      else Before(Event('?', c, last), ParseCluster(more, rest, opts, last))
  {
    assert ([c] + more)[1..] == more;
    KnownIff(opts, c);
    OneLetter([c] + more, rest, opts, last);
  }

  lemma LettersCons(flags: string, opts: string, last: Option<string>, behind: seq<Event>)
    requires flags != []
    ensures LetterEvents(flags, opts, last) + behind ==
      if flags[0] in opts && flags[0] != ':'
      then [Event(flags[0], flags[0], None)] + (LetterEvents(flags[1..], opts, None) + behind)
      else [Event('?', flags[0], last)] + (LetterEvents(flags[1..], opts, last) + behind)
  {
  }

  /** Letters at the head of a cluster. */
  lemma {:induction false} FlagsFirst(flags: string, letters: string, rest: seq<string>, opts: string,
                                      last: Option<string>, p: Parsed)
    requires NoneTakesArg(flags, opts) && p == ParseCluster(letters, rest, opts, LetterArg(flags, opts, last))
    ensures ParseCluster(flags + letters, rest, opts, last) ==
      Parsed(LetterEvents(flags, opts, last) + p.events, p.left)
    decreases |flags|
  {
    if flags == [] {
      assert flags + letters == letters;
    } else {
      var c, next := flags[0], if flags[0] in opts && flags[0] != ':' then None else last;
      LetterArgFirst(flags, opts, last);
      FlagsFirst(flags[1..], letters, rest, opts, next, p);
      FirstLetter(c, flags[1..] + letters, rest, opts, last);
      Joined([c], flags[1..], letters);
      assert [c] + flags[1..] == flags;
      LettersCons(flags, opts, last, p.events);
    }
  }

  /** The letters of an item behind its flags. */
  function Tail(item: Item): string {
    if item.Flags? then [] else if item.Attached? then [item.c] + item.arg else [item.c]
  }

  lemma NoLoneDash(item: Item, opts: string)
    requires ItemOk(item, opts)
    ensures var b := item.flags + Tail(item); b != [] && b != "-"
  {
    var b := item.flags + Tail(item);
    if item.flags == [] { assert b == Tail(item); } else { assert b[0] == item.flags[0]; }
  }

  lemma RenderHead(item: Item, opts: string)
    requires ItemOk(item, opts)
    ensures var a := Render(item)[0]; a[1..] == item.flags + Tail(item) && IsOption(a) && a != "--"
  {
    var a, b := Render(item)[0], item.flags + Tail(item);
    assert a == "-" + b;
    NoLoneDash(item, opts);
    assert a[1..] == b;
  }

  lemma RenderTail(item: Item, rest: seq<string>, opts: string, last: Option<string>)
    requires ItemOk(item, opts)
    ensures var p := ParseArgs(rest, opts, if item.Flags? then last else Some(item.arg));
      ParseCluster(Tail(item), if item.Separate? then [item.arg] + rest else rest, opts, last)
      == Parsed((if item.Flags? then [] else [Event(item.c, item.c, Some(item.arg))]) + p.events, p.left)
  {
    match item {
      case Flags(_) =>
      case Attached(_, c, arg) => assert ([c] + arg)[1..] == arg;
      case Separate(_, c, arg) => assert ([arg] + rest)[1..] == rest;
    }
  }

  /** One argument of options, and what its parse leaves in optarg. */
  lemma RenderOne(item: Item, rest: seq<string>, opts: string, last: Option<string>)
    requires ItemOk(item, opts)
    ensures var p := ParseArgs(rest, opts, ArgAfter(item, opts, last));
      ParseArgs(Render(item) + rest, opts, last) == Parsed(Meaning(item, opts, last) + p.events, p.left)
  {
    RenderHead(item, opts);
    var args := Render(item) + rest;
    var behind := if item.Separate? then [item.arg] + rest else rest;
    var p := ParseArgs(rest, opts, ArgAfter(item, opts, last));
    var own := if item.Flags? then [] else [Event(item.c, item.c, Some(item.arg))];
    assert Meaning(item, opts, last) + p.events == LetterEvents(item.flags, opts, last) + (own + p.events);
    assert args[0] == Render(item)[0] && args[1..] == behind;
    var arg := LetterArg(item.flags, opts, last);
    FlagsFirst(item.flags, Tail(item), behind, opts, last, ParseCluster(Tail(item), behind, opts, arg));
    RenderTail(item, rest, opts, arg);
  }

  /** Items in front of anything, which is then parsed to `p`. */
  lemma {:induction false} RenderFirst(items: seq<Item>, rest: seq<string>, opts: string, last: Option<string>,
                                       p: Parsed)
    requires forall i :: 0 <= i < |items| ==> ItemOk(items[i], opts)
    requires p == ParseArgs(rest, opts, ArgAfterAll(items, opts, last))
    ensures ParseArgs(RenderAll(items) + rest, opts, last) == Parsed(MeaningAll(items, opts, last) + p.events, p.left)
    decreases |items|
  {
    if items == [] {
      assert RenderAll(items) + rest == rest;
    } else {
      var item, next := items[0], ArgAfter(items[0], opts, last);
      RenderFirst(items[1..], rest, opts, next, p);
      RenderOne(item, RenderAll(items[1..]) + rest, opts, last);
      Joined(Render(item), RenderAll(items[1..]), rest);
      Joined(Meaning(item, opts, last), MeaningAll(items[1..], opts, next), p.events);
    }
  }

  /** The parse undoes the writing down, in front of arguments that end the options: nothing, an empty
      one, a lone dash, two dashes, which are skipped, or one that does not begin with a dash. */
  lemma RenderUndone(items: seq<Item>, rest: seq<string>, opts: string, last: Option<string>)
    requires forall i :: 0 <= i < |items| ==> ItemOk(items[i], opts)
    requires rest == [] || rest[0] == "" || rest[0] == "-" || rest[0] == "--" || rest[0][0] != '-'
    ensures ParseArgs(RenderAll(items) + rest, opts, last)
      == Parsed(MeaningAll(items, opts, last), if rest != [] && rest[0] == "--" then rest[1..] else rest)
  {
    RenderFirst(items, rest, opts, last, ParseArgs(rest, opts, ArgAfterAll(items, opts, last)));
  }

  /** The operands come through whatever they look like, behind a `--`. */
  lemma OperandsUntouched(items: seq<Item>, operands: seq<string>, opts: string)
    requires forall i :: 0 <= i < |items| ==> ItemOk(items[i], opts)
    ensures ParseArgs(RenderAll(items) + ["--"] + operands, opts, None) ==
      Parsed(MeaningAll(items, opts, None), operands)
  {
    assert RenderAll(items) + ["--"] + operands == RenderAll(items) + (["--"] + operands);
    RenderUndone(items, ["--"] + operands, opts, None);
    assert (["--"] + operands)[1..] == operands;
  }

  /** An option whose argument is missing, at the end of everything, gives '?' with its letter in optopt. */
  lemma MissingArgument(items: seq<Item>, flags: string, c: char, opts: string, last: Option<string>)
    requires forall i :: 0 <= i < |items| ==> ItemOk(items[i], opts)
    requires NoneTakesArg(flags, opts) && TakesArg(opts, c) && (flags == [] ==> c != '-')
    ensures var before := ArgAfterAll(items, opts, last);
      ParseArgs(RenderAll(items) + ["-" + flags + [c]], opts, last) ==
      Parsed(MeaningAll(items, opts, last)
             + (LetterEvents(flags, opts, before) + [Event('?', c, LetterArg(flags, opts, before))]), [])
  {
    var a, before := "-" + flags + [c], ArgAfterAll(items, opts, last);
    RenderFirst(items, [a], opts, last, ParseArgs([a], opts, before));
    MissingAlone(flags, c, opts, before);
  }

  lemma MissingAlone(flags: string, c: char, opts: string, last: Option<string>)
    requires NoneTakesArg(flags, opts) && TakesArg(opts, c) && (flags == [] ==> c != '-')
    ensures ParseArgs(["-" + flags + [c]], opts, last) ==
      Parsed(LetterEvents(flags, opts, last) + [Event('?', c, LetterArg(flags, opts, last))], [])
  {
    var a, arg := "-" + flags + [c], LetterArg(flags, opts, last);
    assert a[1..] == flags + [c];
    assert a != "--" by { assert a[1] == if flags == [] then c else flags[0]; }
    var alone: seq<string> := [a];
    assert |[c][1..]| == 0 && |alone[1..]| == 0;
    FlagsFirst(flags, [c], [], opts, last, Parsed([Event('?', c, arg)], []));
  }
}
