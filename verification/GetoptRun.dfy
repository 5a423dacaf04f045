/**
 The loop every caller of xgetopt writes: call it until EOF.
 */
module GetoptRun {
  import opened Status
  import opened GetoptSpec
  import G = Getopt

  /** It ends, having seen the events of the recursive parse, with optind at the operands. */
  method ScanAll(argv: seq<string>, opts: string) returns (events: seq<Event>, optind: nat)
    requires G.NoZeros(argv)
    ensures Parsed(events, G.From(argv, optind)) == ParseArgs(G.From(argv, 1), opts, None)
    ensures 1 <= optind && (argv != [] ==> optind <= |argv|)
  {
    var g := new G.Getopt();
    ghost var p := g.Pending(argv, opts);
    events := [];
    while true
      invariant g.Valid(argv) && 1 <= g.optind && (argv != [] ==> g.optind <= |argv|)
      invariant p == Parsed(events + g.Pending(argv, opts).events, g.Pending(argv, opts).left)
      decreases |argv| - g.optind, if g.optind < |argv| then |argv[g.optind]| - g.sp else 0
    {
      ghost var was := g.Pending(argv, opts);
      var r := g.XGetopt(argv, opts);
      if r == None { break; }
      assert was.events == [Event(r.value, g.optopt, g.optarg)] + g.Pending(argv, opts).events;
      events := events + [Event(r.value, g.optopt, g.optarg)];
    }
    optind := g.optind;
  }

  /** A command line written down from options and what follows them is taken apart into the same. */
  method ScanWritten(prog: string, items: seq<Item>, rest: seq<string>, opts: string)
    returns (events: seq<Event>, left: seq<string>)
    requires forall i :: 0 <= i < |items| ==> ItemOk(items[i], opts)
    requires rest == [] || rest[0] == "" || rest[0] == "-" || rest[0] == "--" || rest[0][0] != '-'
    requires G.NoZeros([prog] + RenderAll(items) + rest)
    ensures events == MeaningAll(items, opts, None)
    ensures left == if rest != [] && rest[0] == "--" then rest[1..] else rest
  {
    var argv := [prog] + RenderAll(items) + rest;
    assert argv[1..] == RenderAll(items) + rest;
    RenderUndone(items, rest, opts, None);
    var optind;
    events, optind := ScanAll(argv, opts);
    left := argv[optind..];
  }

  /** And one that ends with an option whose argument is missing. */
  method ScanMissing(prog: string, items: seq<Item>, flags: string, c: char, opts: string)
    returns (events: seq<Event>, left: seq<string>)
    requires forall i :: 0 <= i < |items| ==> ItemOk(items[i], opts)
    requires NoneTakesArg(flags, opts) && TakesArg(opts, c) && (flags == [] ==> c != '-')
    requires G.NoZeros([prog] + RenderAll(items) + ["-" + flags + [c]])
    ensures left == [] && |events| > 0 && events[|events| - 1].ret == '?' && events[|events| - 1].opt == c
    ensures events[..|events| - 1] ==
      MeaningAll(items, opts, None) + LetterEvents(flags, opts, ArgAfterAll(items, opts, None))
  {
    var argv := [prog] + RenderAll(items) + ["-" + flags + [c]];
    assert argv[1..] == RenderAll(items) + ["-" + flags + [c]];
    MissingArgument(items, flags, c, opts, None);
    var optind;
    events, optind := ScanAll(argv, opts);
    left := argv[optind..];
  }
}
