/** src/gui/args.cc: what a command line comes to, argument by argument. */
module ArgsLaws {
  import opened Helpers
  import opened Args

  /** The calls that handlers get and the positionals, or the error. */
  type Outcome = Result<(seq<Call>, seq<string>), Error>

  /** What a command line comes to, the name of the program left aside. */
  function Outcomes(table: Table, args: seq<string>): Outcome {
    match Parse(table, args, false)
    case Ok(parts) => Ok((CallsOf(parts), PositionalsOf(parts)))
    case Err(e) => Err(e)
  }

  /** Something that comes before the rest of a line. */
  function Before(calls: seq<Call>, params: seq<string>, rest: Outcome): Outcome {
    match rest
    case Ok(pair) => Ok((calls + pair.0, params + pair.1))
    case Err(e) => Err(e)
  }

  lemma NoArguments(table: Table)
    ensures Outcomes(table, []) == Ok(([], []))
  {
  }

  /** One part read, and the rest if options are not stopped by it. */
  lemma FirstPart(table: Table, args: seq<string>, rest: seq<string>)
    requires args + rest != [] && ReadPart(table, args + rest, false).Ok?
    requires Render(ReadPart(table, args + rest, false).value) == args
    requires !StoppedAfter(table, ReadPart(table, args + rest, false).value, false)
    ensures var part := ReadPart(table, args + rest, false).value;
      Outcomes(table, args + rest) ==
        Before(CallOf(part), if part.Positional? then [part.text] else [], Outcomes(table, rest))
  {
    hide ReadPart, Render, StoppedAfter, CallOf, CallsOf, PositionalsOf;
    var part := ReadPart(table, args + rest, false).value;
    assert (args + rest)[|args|..] == rest;
    var parsed := Parse(table, rest, false);
    if parsed.Ok? {
      PartFirst(part, parsed.value);
    }
  }

  /** An argument that does not begin with '-' is a positional. */
  lemma PositionalSays(table: Table, arg: string, rest: seq<string>)
    requires !("-" <= arg)
    ensures Outcomes(table, [arg] + rest) == Before([], [arg], Outcomes(table, rest))
  {
    FirstPart(table, [arg], rest);
  }

  /** An option without value calls its handler by its name. */
  lemma FlagSays(table: Table, name: string, rest: seq<string>)
    requires "-" <= name && name in table.flags && name !in table.stops
    ensures Outcomes(table, [name] + rest) == Before([Plain(name)], [], Outcomes(table, rest))
  {
    FirstPart(table, [name], rest);
  }

  /** An option with a value takes the next argument, whatever that looks like. */
  lemma NextValueSays(table: Table, name: string, value: string, rest: seq<string>)
    requires "-" <= name && name !in table.flags && name in table.params
    ensures Outcomes(table, [name, value] + rest) == Before([Valued(name, value)], [], Outcomes(table, rest))
  {
    FirstPart(table, [name, value], rest);
  }

  /** A value joined to the name of its option, the shortest one that fits, goes to that option. */
  lemma JoinedValueSays(table: Table, name: string, value: string, rest: seq<string>)
    requires "-" <= name && |name| >= 2 && name in table.params && value != ""
    requires name + value !in table.flags && name + value !in table.params
    requires forall i :: 2 <= i < |name| ==> name[..i] !in table.params
    ensures Outcomes(table, [name + value] + rest) == Before([Valued(name, value)], [], Outcomes(table, rest))
  {
    assert Readable(table, Joined(name, value), false);
    PartReadBack(table, Joined(name, value), false, rest);
    FirstPart(table, [name + value], rest);
  }

  /** An option that ends the options: all that follows is positional. */
  lemma StopSays(table: Table, name: string, rest: seq<string>)
    requires "-" <= name && name in table.flags && name in table.stops
    ensures Outcomes(table, [name] + rest) == Ok(([Plain(name)], rest))
  {
    AllPositional(table, rest);
    assert ([name] + rest)[1..] == rest;
    var parts := Parse(table, rest, true).value;
    PartFirst(Flag(name), parts);
    assert [Plain(name)] + [] == [Plain(name)] && [] + rest == rest;
  }

  lemma {:induction false} AllPositional(table: Table, args: seq<string>)
    ensures Parse(table, args, true).Ok?
    ensures CallsOf(Parse(table, args, true).value) == [] && PositionalsOf(Parse(table, args, true).value) == args
  {
    if args != [] {
      AllPositional(table, args[1..]);
      PartFirst(Positional(args[0]), Parse(table, args[1..], true).value);
      assert args == [args[0]] + args[1..];
    }
  }

  /** An option that needs a value at the end of the line. */
  lemma MissingSays(table: Table, name: string)
    requires "-" <= name && name !in table.flags && name in table.params
    ensures Outcomes(table, [name]) == Err(ValueMissing(name))
  {
  }

  /** An option that is not registered, and that no registered one with a value begins. */
  lemma UnknownSays(table: Table, arg: string, rest: seq<string>)
    requires "-" <= arg && arg !in table.flags && arg !in table.params
    requires forall i :: 2 <= i < |arg| ==> arg[..i] !in table.params
    ensures Outcomes(table, [arg] + rest) == Err(Unknown(arg))
  {
  }

  /** These are all the ways an argument can be read. */
  lemma EveryArgument(table: Table, arg: string) returns (i: nat)
    ensures || !("-" <= arg) || arg in table.flags || arg in table.params
            || (forall k :: 2 <= k < |arg| ==> arg[..k] !in table.params)
            || (2 <= i < |arg| && arg[..i] in table.params && forall k :: 2 <= k < i ==> arg[..i][..k] !in table.params)
  {
    i := if |arg| < 2 then |arg| else OptionPrefix(table, arg, 2);
    if i < |arg| {
      assert forall k :: 2 <= k < i ==> arg[..i][..k] == arg[..k];
    }
  }

  /** The options of the program: help, version and console take no value, the others the next argument, and "--" ends
      the options. */
  lemma ProgramSays(name: string, value: string, rest: seq<string>)
    ensures name in ["--help", "--version", "-console"] ==>
      Outcomes(PROGRAM_OPTIONS, [name] + rest) == Before([Plain(name)], [], Outcomes(PROGRAM_OPTIONS, rest))
    ensures name in ["-d", "-script", "-run", "-eval", "-s"] ==>
      Outcomes(PROGRAM_OPTIONS, [name, value] + rest)
        == Before([Valued(name, value)], [], Outcomes(PROGRAM_OPTIONS, rest))
    ensures Outcomes(PROGRAM_OPTIONS, ["--"] + rest) == Ok(([Plain("--")], rest))
  {
    hide Outcomes, Before;
    if name in ["--help", "--version", "-console"] {
      assert name != "--" by { assert |name| > 2; }
      FlagSays(PROGRAM_OPTIONS, name, rest);
    }
    if name in ["-d", "-script", "-run", "-eval", "-s"] {
      NotAFlag(name);
      NextValueSays(PROGRAM_OPTIONS, name, value, rest);
    }
    StopSays(PROGRAM_OPTIONS, "--", rest);
  }

  lemma NotAFlag(name: string)
    requires name in ["-d", "-script", "-run", "-eval", "-s"]
    ensures "-" <= name && name !in PROGRAM_OPTIONS.flags && name in PROGRAM_OPTIONS.params
  {
    assert name[1] in ['d', 's', 'r', 'e'];
    assert "--help"[1] == '-' && "--version"[1] == '-' && "-console"[1] == 'c' && "--"[1] == '-';
  }

  /** The whole command line, program name first. */
  method HandleLine(table: Table, argv: seq<string>) returns (r: Result<seq<string>, Error>, calls: seq<Call>)
    requires |argv| >= 1
    ensures match Outcomes(table, argv[1..])
      case Ok(pair) => r == Ok(pair.1) && calls == pair.0
      case Err(e) => r == Err(e)
    // what an option that ends the options does
    ensures |argv| >= 2 && "-" <= argv[1] && argv[1] in table.flags && argv[1] in table.stops ==>
      r == Ok(argv[2..]) && calls == [Plain(argv[1])]
  {
    var parser := new Parser(table);
    r := parser.HandleParams(argv);
    calls := parser.calls;
    if |argv| >= 2 && "-" <= argv[1] && argv[1] in table.flags && argv[1] in table.stops {
      assert argv[1..] == [argv[1]] + argv[2..];
      StopSays(table, argv[1], argv[2..]);
    }
  }
}
