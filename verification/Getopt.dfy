/**
 src/mmp_getopt.c: the option scanner, one option a call, with its place kept in `optind` and `sp`.
 Each call is proved to give the next event of the recursive parse of GetoptSpec.dfy.
 */
module Getopt {
  import opened Status
  import opened GetoptSpec

  /** A C string's character, with the zero behind its last. */
  function CharAt(s: string, i: nat): char
    requires i <= |s|
  {
    if i < |s| then s[i] else '\0'
  }

  ghost predicate NoZeros(argv: seq<string>) {
    forall i :: 0 <= i < |argv| ==> '\0' !in argv[i]
  }

  /** The arguments from one on, as far as there are any. */
  function From(argv: seq<string>, i: nat): seq<string> {
    if i <= |argv| then argv[i..] else []
  }

  /** At the first letter of an argument. */
  lemma Begun(argv: seq<string>, opts: string, i: nat, last: Option<string>)
    requires i < |argv| && IsOption(argv[i]) && argv[i] != "--"
    ensures ParseArgs(From(argv, i), opts, last) == ParseCluster(argv[i][1..], argv[i + 1..], opts, last)
  {
    assert argv[i..][1..] == argv[i + 1..];
  }

  /** Behind the letter at `sp`. */
  lemma Behind(argv: seq<string>, opts: string, i: nat, sp: nat, last: Option<string>)
    requires i < |argv| && sp < |argv[i]|
    ensures var letters, rest := argv[i][sp..], argv[i + 1..];
      ParseCluster(letters[1..], rest, opts, last) ==
      if sp + 1 == |argv[i]| then ParseArgs(From(argv, i + 1), opts, last)
      else ParseCluster(argv[i][sp + 1..], rest, opts, last)
  {
    assert argv[i][sp..][1..] == argv[i][sp + 1..];
  }

  class Getopt {
    var optind: nat
    var sp: nat
    var optopt: char
    var optarg: Option<string>

    /** Either between arguments, or inside of one. */
    ghost predicate Valid(argv: seq<string>)
      reads this
    {
      sp >= 1 && (sp > 1 ==> optind < |argv| && sp < |argv[optind]|)
    }

    /** What is still to come. */
    ghost function Pending(argv: seq<string>, opts: string): Parsed
      requires Valid(argv)
      reads this
    {
      PendingFrom(argv, opts, optarg)
    }

    ghost function PendingFrom(argv: seq<string>, opts: string, last: Option<string>): Parsed
      requires Valid(argv)
      reads this
    {
      if sp == 1 then ParseArgs(From(argv, optind), opts, last)
      else ParseCluster(argv[optind][sp..], argv[optind + 1..], opts, last)
    }

    constructor ()
      ensures optind == 1 && sp == 1 && optarg == None
    {
      optind, sp, optopt, optarg := 1, 1, '\0', None;
    }

    /** xgetopt; None is EOF.  A call that gives an option moves on. */
    method XGetopt(argv: seq<string>, opts: string) returns (r: Option<char>)
      requires Valid(argv) && NoZeros(argv)
      modifies this
      ensures Valid(argv)
      ensures var p := old(Pending(argv, opts));
        if p.events == []
        then r == None && optopt == old(optopt) && optarg == old(optarg) && sp == 1 && From(argv, optind) == p.left
        else r.Some? && p == Before(Event(r.value, optopt, optarg), Pending(argv, opts))
      ensures r.None? ==> old(optind) <= optind <= old(optind) + 1 && (old(optind) <= |argv| ==> optind <= |argv|)
      ensures r.Some? ==> optind <= |argv| && (optind > old(optind) || (optind == old(optind) && sp > old(sp)))
    {
      if sp == 1 {
        if optind >= |argv| || CharAt(argv[optind], 0) != '-' || CharAt(argv[optind], 1) == '\0' {
          return None;
        } else if argv[optind] == "--" {
          optind := optind + 1;
          return None;
        }
      }
      if sp == 1 { Begun(argv, opts, optind, optarg); }
      r := TakeLetter(argv, opts);
    }

    /** The second half of xgetopt: the letter at `sp`. */
    method TakeLetter(argv: seq<string>, opts: string) returns (r: Option<char>)
      requires sp >= 1 && optind < |argv| && sp < |argv[optind]| && NoZeros(argv)
      modifies this
      ensures Valid(argv) && r.Some?
      ensures old(ParseCluster(argv[optind][sp..], argv[optind + 1..], opts, optarg))
        == Before(Event(r.value, optopt, optarg), Pending(argv, opts))
      ensures optind <= |argv| && (optind > old(optind) || (optind == old(optind) && sp > old(sp)))
    {
      OneLetter(argv[optind][sp..], argv[optind + 1..], opts, optarg);
      var c := CharAt(argv[optind], sp);
      optopt := c;
      var cp := FirstAt(opts, c);
      if c == ':' || cp == |opts| {
        NextLetter(argv, opts, optarg);
        return Some('?');
      }
      cp := cp + 1;
      if CharAt(opts, cp) == ':' {
        r := TakeArgument(argv, opts, c);
      } else {
        NextLetter(argv, opts, None);
        optarg := None;
        r := Some(c);
      }
    }

    /** Past the letter at `sp`, and past the argument when that was its last. */
    method NextLetter(argv: seq<string>, ghost opts: string, ghost last: Option<string>)
      requires sp >= 1 && optind < |argv| && sp < |argv[optind]| && NoZeros(argv)
      modifies this`sp, this`optind
      ensures Valid(argv)
      ensures PendingFrom(argv, opts, last) ==
        old(ParseCluster(argv[optind][sp..][1..], argv[optind + 1..], opts, last))
      ensures optind <= |argv| && (optind > old(optind) || (optind == old(optind) && sp > old(sp)))
    {
      Behind(argv, opts, optind, sp, last);
      sp := sp + 1;
      if CharAt(argv[optind], sp) == '\0' {
        optind := optind + 1;
        sp := 1;
      }
    }

    /** The argument of an option: the rest of this argument, or else the next one. */
    method TakeArgument(argv: seq<string>, opts: string, c: char) returns (r: Option<char>)
      requires sp >= 1 && optind < |argv| && sp < |argv[optind]| && NoZeros(argv)
      requires c == argv[optind][sp] == optopt && TakesArg(opts, c)
      modifies this`sp, this`optind, this`optarg
      ensures Valid(argv) && r.Some?
      ensures old(ParseCluster(argv[optind][sp..], argv[optind + 1..], opts, optarg))
        == Before(Event(r.value, optopt, optarg), Pending(argv, opts))
      ensures old(optind) < optind <= |argv|
    {
      ghost var letters, rest := argv[optind][sp..], argv[optind + 1..];
      assert letters[1..] == argv[optind][sp + 1..];
      if CharAt(argv[optind], sp + 1) != '\0' {
        optarg := Some(argv[optind][sp + 1..]);
        optind := optind + 1;
      } else {
        optind := optind + 1;
        if optind >= |argv| {
          sp := 1;
          return Some('?');
        } else {
          optarg := Some(argv[optind]);
          optind := optind + 1;
          assert From(argv, optind) == rest[1..];
        }
      }
      sp := 1;
      return Some(c);
    }
  }
}
