/** src/gui/args.cc: parsing the command line with registered option handlers. */
module Args {
  import opened Helpers

  /** Registered options. Handlers of the options in `stops` end option processing. */
  datatype Table = Table(flags: set<string>, params: set<string>, stops: set<string>)

  /** One thing said on the command line, in the form it was said. */
  datatype Part =
    | Flag(name: string)
    | WithNext(name: string, value: string)
    | Joined(name: string, value: string)
    | Positional(text: string)

  /** A call of a handler; handlers do not see how their value was attached. */
  datatype Call = Plain(name: string) | Valued(name: string, value: string)

  datatype Error = Unknown(option: string) | ValueMissing(option: string)

  /** The arguments one part takes up. */
  function Render(part: Part): seq<string> {
    match part
    case Flag(name) => [name]
    case WithNext(name, value) => [name, value]
    case Joined(name, value) => [name + value]
    case Positional(text) => [text]
  }

  function RenderAll(parts: seq<Part>): seq<string> {
    if parts == [] then [] else Render(parts[0]) + RenderAll(parts[1..])
  }

  function CallOf(part: Part): seq<Call> {
    match part
    case Flag(name) => [Plain(name)]
    case WithNext(name, value) => [Valued(name, value)]
    case Joined(name, value) => [Valued(name, value)]
    case Positional(_) => []
  }

  function CallsOf(parts: seq<Part>): seq<Call> {
    if parts == [] then [] else CallOf(parts[0]) + CallsOf(parts[1..])
  }

  function PositionalsOf(parts: seq<Part>): seq<string> {
    if parts == [] then []
    else (if parts[0].Positional? then [parts[0].text] else []) + PositionalsOf(parts[1..])
  }

  predicate IsOption(arg: string) {
    arg != "" && arg[0] == '-'
  }

  /** Length of the first prefix of at least i characters, short of the whole, that is a valued option; else the
      length of the argument. */
  function OptionPrefix(table: Table, arg: string, i: nat): (r: nat)
    requires i <= |arg|
    ensures i <= r <= |arg|
    ensures r < |arg| ==> arg[..r] in table.params
    ensures forall j :: i <= j < r ==> arg[..j] !in table.params
    decreases |arg| - i
  {
    if i == |arg| || arg[..i] in table.params then i else OptionPrefix(table, arg, i + 1)
  }

  /** What is read from the front of the remaining arguments. */
  function ReadPart(table: Table, args: seq<string>, stopped: bool): Result<Part, Error>
    requires args != []
  {
    var arg := args[0];
    if stopped || !IsOption(arg) then Ok(Positional(arg))
    else if arg in table.flags then Ok(Flag(arg))
    else if arg in table.params then
      if |args| > 1 then Ok(WithNext(arg, args[1])) else Err(ValueMissing(arg))
    else
      var i := if |arg| < 2 then |arg| else OptionPrefix(table, arg, 2);
      if i < |arg| then Ok(Joined(arg[..i], arg[i..])) else Err(Unknown(arg))
  }

  /** Whether options have been stopped after a part. */
  function StoppedAfter(table: Table, part: Part, stopped: bool): bool {
    stopped || (part.Flag? && part.name in table.stops)
  }

  function Parse(table: Table, args: seq<string>, stopped: bool): Result<seq<Part>, Error>
    decreases |args|
  {
    if args == [] then Ok([])
    else match ReadPart(table, args, stopped)
      case Err(e) => Err(e)
      case Ok(part) =>
        match Parse(table, args[|Render(part)|..], StoppedAfter(table, part, stopped))
        case Err(e) => Err(e)
        case Ok(parts) => Ok([part] + parts)
  }

  /** What a part took is exactly the front of the arguments. */
  lemma PartTakesFront(table: Table, args: seq<string>, stopped: bool)
    requires args != [] && ReadPart(table, args, stopped).Ok?
    ensures var taken := Render(ReadPart(table, args, stopped).value);
      |taken| <= |args| && args[..|taken|] == taken
  {
    var part := ReadPart(table, args, stopped).value;
    if part.Joined? {
      assert part.name + part.value == args[0];
    }
  }

  /** Every argument is consumed exactly once, in order, for every command line that parses. */
  lemma {:induction false} RenderAfterParse(table: Table, args: seq<string>, stopped: bool)
    requires Parse(table, args, stopped).Ok?
    ensures RenderAll(Parse(table, args, stopped).value) == args
    decreases |args|
  {
    if args != [] {
      var part := ReadPart(table, args, stopped).value;
      PartTakesFront(table, args, stopped);
      var rest := args[|Render(part)|..];
      RenderAfterParse(table, rest, StoppedAfter(table, part, stopped));
      var parts := Parse(table, rest, StoppedAfter(table, part, stopped)).value;
      assert ([part] + parts)[1..] == parts;
      assert args == args[..|Render(part)|] + rest;
    }
  }

  /** When a part, written out, is read back as itself. */
  predicate Readable(table: Table, part: Part, stopped: bool) {
    match part
    case Positional(text) => stopped || !IsOption(text)
    case Flag(name) => !stopped && IsOption(name) && name in table.flags
    case WithNext(name, _) => !stopped && IsOption(name) && name !in table.flags && name in table.params
    case Joined(name, value) =>
      && !stopped && IsOption(name) && |name| >= 2 && value != "" && name in table.params
      && name + value !in table.flags && name + value !in table.params
      && forall i :: 2 <= i < |name| ==> name[..i] !in table.params
  }

  predicate AllReadable(table: Table, parts: seq<Part>, stopped: bool)
    decreases |parts|
  {
    parts == [] ||
    (Readable(table, parts[0], stopped) && AllReadable(table, parts[1..], StoppedAfter(table, parts[0], stopped)))
  }

  lemma JoinedReadBack(table: Table, name: string, value: string)
    requires Readable(table, Joined(name, value), false)
    ensures OptionPrefix(table, name + value, 2) == |name|
    ensures (name + value)[..|name|] == name && (name + value)[|name|..] == value
  {
    var arg := name + value;
    assert arg[..|name|] == name;
    var r := OptionPrefix(table, arg, 2);
    assert forall i :: 2 <= i < |name| ==> arg[..i] == name[..i];
  }

  /** Reading a written part gives it back exactly when it is readable, whatever follows. */
  lemma PartReadBack(table: Table, part: Part, stopped: bool, rest: seq<string>)
    ensures ReadPart(table, Render(part) + rest, stopped) == Ok(part) <==> Readable(table, part, stopped)
  {
    if part.Joined? {
      var arg := part.name + part.value;
      if Readable(table, part, stopped) {
        JoinedReadBack(table, part.name, part.value);
      } else if ReadPart(table, Render(part) + rest, stopped) == Ok(part) {
        assert arg[0] == part.name[0];
        assert forall i :: 2 <= i < |part.name| ==> arg[..i] == part.name[..i];
      }
    }
  }

  /** A written command line parses to the same parts exactly when each of them is readable where it stands. */
  lemma {:induction false} ParseAfterRender(table: Table, parts: seq<Part>, stopped: bool)
    ensures Parse(table, RenderAll(parts), stopped) == Ok(parts) <==> AllReadable(table, parts, stopped)
    decreases |parts|
  {
    if parts != [] {
      var part, tail := parts[0], parts[1..];
      var rest := RenderAll(tail);
      var after := StoppedAfter(table, part, stopped);
      PartReadBack(table, part, stopped, rest);
      ParseAfterRender(table, tail, after);
      assert (Render(part) + rest)[|Render(part)|..] == rest;
      assert parts == [part] + tail;
      if Parse(table, RenderAll(parts), stopped) == Ok(parts) {
        assert ReadPart(table, Render(part) + rest, stopped) == Ok(part);
        assert Parse(table, rest, after) == Ok(tail);
      }
    }
  }

  /** No valued option is the beginning of another. */
  predicate PrefixFree(table: Table) {
    forall a, b :: a in table.params && b in table.params && a <= b ==> a == b
  }

  /** In such a table a joined value only has to be non-empty and not complete the name of an option. */
  lemma JoinedInPrefixFree(table: Table, name: string, value: string)
    requires PrefixFree(table) && name in table.params && IsOption(name) && |name| >= 2
    ensures Readable(table, Joined(name, value), false) <==>
      value != "" && name + value !in table.flags && name + value !in table.params
  {
  }

  /** The options the program registers. "-s" begins "-script". */
  const PROGRAM_OPTIONS: Table :=
    Table({"--help", "--version", "-console", "--"}, {"-d", "-script", "-run", "-eval", "-s"}, {"--"})

  /** So a file joined to -script always goes to -s, with the rest of the name in front. */
  lemma ScriptCannotBeJoined(value: string)
    requires value != ""
    ensures ReadPart(PROGRAM_OPTIONS, ["-script" + value], false) == Ok(Joined("-s", "cript" + value))
  {
    var arg := "-script" + value;
    assert arg[..2] == "-s" && arg[2..] == "cript" + value;
    assert OptionPrefix(PROGRAM_OPTIONS, arg, 2) == 2;
    assert arg[0] == '-' && arg[1] == 's' && "--help"[1] == "--version"[1] == "--"[1] == '-' && "-console"[1] == 'c';
  }

  class Parser {
    const table: Table
    var argIndex: nat
    var stopOpt: bool
    /** Handlers called so far, with their values. */
    var calls: seq<Call>

    constructor (table: Table)
      ensures this.table == table && !stopOpt && calls == []
    {
      this.table := table;
      argIndex, stopOpt, calls := 0, false, [];
    }

    /** The next argument, which moves the loop on by one; fails at the end of the line. */
    method NextParam(argv: seq<string>) returns (value: Result<string, Error>)
      requires argIndex < |argv|
      modifies this`argIndex
      ensures argIndex == old(argIndex) + 1
      ensures value == if argIndex < |argv| then Ok(argv[argIndex]) else Err(ValueMissing(argv[argIndex - 1]))
    {
      argIndex := argIndex + 1;
      if argIndex < |argv| {
        return Ok(argv[argIndex]);
      }
      return Err(ValueMissing(argv[argIndex - 1]));
    }

    /** Calls the handler of the option at argIndex, which is left at the last argument the option took. */
    method HandleOption(argv: seq<string>) returns (r: Result<(), Error>)
      requires argIndex < |argv| && !stopOpt && IsOption(argv[argIndex])
      modifies this
      ensures var read := ReadPart(table, argv[old(argIndex)..], false);
        if read.Err? then r == Err(read.error)
        else
          && r == Ok(()) && old(argIndex) <= argIndex
          && argIndex + 1 == old(argIndex) + |Render(read.value)| <= |argv|
          && stopOpt == StoppedAfter(table, read.value, false)
          && calls == old(calls) + CallOf(read.value)
      ensures argv[old(argIndex)] in table.flags ==>
        && r == Ok(()) && argIndex == old(argIndex) && calls == old(calls) + [Plain(argv[argIndex])]
        && (stopOpt <==> argv[argIndex] in table.stops)
      ensures r == Ok(()) && argv[old(argIndex)] !in table.flags ==> !stopOpt
    {
      var param := argv[argIndex];
      assert argv[argIndex..][0] == param;
      if param in table.flags {
        stopOpt := param in table.stops;
        calls := calls + [Plain(param)];
        return Ok(());
      }
      if param in table.params {
        var value := NextParam(argv);
        if value.Err? {
          return Err(value.error);
        }
        calls := calls + [Valued(param, value.value)];
        return Ok(());
      }
      var i := 2;
      while i < |param|
        invariant 2 <= i && (|param| < 2 || i <= |param|)
        invariant |param| >= 2 ==> OptionPrefix(table, param, 2) == OptionPrefix(table, param, i)
        invariant calls == old(calls) && argIndex == old(argIndex) && !stopOpt
      {
        if param[..i] in table.params {
          calls := calls + [Valued(param[..i], param[i..])];
          return Ok(());
        }
        i := i + 1;
      }
      return Err(Unknown(param));
    }

    /** Goes through the whole command line; the program name at the front is not looked at. */
    method HandleParams(argv: seq<string>) returns (r: Result<seq<string>, Error>)
      requires |argv| >= 1 && !stopOpt && calls == []
      modifies this
      ensures var parsed := Parse(table, argv[1..], false);
        if parsed.Err? then r == Err(parsed.error)
        else r == Ok(PositionalsOf(parsed.value)) && calls == CallsOf(parsed.value)
    {
      hide ReadPart, CallsOf, PositionalsOf, CallOf, IsOption, Continues, StoppedAfter, Render;
      var params := [];
      argIndex := 1;
      ghost var whole := Parse(table, argv[1..], false);
      StartState(whole);
      while argIndex < |argv|
        invariant 1 <= argIndex <= |argv|
        invariant Continues(whole, calls, params, Parse(table, argv[argIndex..], stopOpt))
        decreases |argv| - argIndex
      {
        ghost var args, stopped := argv[argIndex..], stopOpt;
        ghost var calls0, params0, at := calls, params, argIndex;
        var param := argv[argIndex];
        assert args[0] == param;
        if IsOption(param) && !stopOpt {
          var handled := HandleOption(argv);
          if handled.Err? {
            FailsHere(table, whole, calls0, params0, args, stopped);
            return Err(handled.error);
          }
          NotPositional(table, args);
          assert params + [] == params;
        } else {
          PositionalPart(table, args, stopped);
          assert calls + [] == calls;
          params := params + [param];
        }
        argIndex := argIndex + 1;
        ContinuesNext(table, whole, calls0, params0, args, stopped);
        DropDrop(argv, at, |Render(ReadPart(table, args, stopped).value)|);
      }
      assert argv[argIndex..] == [];
      EndState(whole, calls, params);
      return Ok(params);
    }
  }

  lemma DropDrop<T>(s: seq<T>, i: nat, j: nat)
    requires i + j <= |s|
    ensures s[i..][j..] == s[i + j..]
  {
  }

  lemma NotPositional(table: Table, args: seq<string>)
    requires args != [] && IsOption(args[0]) && ReadPart(table, args, false).Ok?
    ensures !ReadPart(table, args, false).value.Positional?
  {
  }

  lemma FailsHere(table: Table, whole: Result<seq<Part>, Error>, calls: seq<Call>, params: seq<string>,
                  args: seq<string>, stopped: bool)
    requires args != [] && Continues(whole, calls, params, Parse(table, args, stopped))
    requires ReadPart(table, args, stopped).Err?
    ensures whole == Err(ReadPart(table, args, stopped).error)
  {
  }

  /** The whole line parses to what has been done so far followed by what is left. */
  ghost predicate Continues(whole: Result<seq<Part>, Error>, calls: seq<Call>, params: seq<string>,
                            left: Result<seq<Part>, Error>)
  {
    if left.Err? then whole.Err? && whole.error == left.error
    else
      && whole.Ok?
      && CallsOf(whole.value) == calls + CallsOf(left.value)
      && PositionalsOf(whole.value) == params + PositionalsOf(left.value)
  }

  /** One part read from what is left. */
  lemma ContinuesNext(table: Table, whole: Result<seq<Part>, Error>, calls: seq<Call>, params: seq<string>,
                      args: seq<string>, stopped: bool)
    requires args != [] && Continues(whole, calls, params, Parse(table, args, stopped))
    requires ReadPart(table, args, stopped).Ok?
    ensures var part := ReadPart(table, args, stopped).value;
      && |Render(part)| <= |args|
      && Continues(whole, calls + CallOf(part), params + (if part.Positional? then [part.text] else []),
                   Parse(table, args[|Render(part)|..], StoppedAfter(table, part, stopped)))
  {
    hide ReadPart, StoppedAfter, CallsOf, PositionalsOf, CallOf;
    PartTakesFront(table, args, stopped);
    var part := ReadPart(table, args, stopped).value;
    var left := Parse(table, args[|Render(part)|..], StoppedAfter(table, part, stopped));
    if left.Ok? {
      PartFirst(part, left.value);
      ConcatAssoc(calls, CallOf(part), CallsOf(left.value));
      ConcatAssoc(params, if part.Positional? then [part.text] else [], PositionalsOf(left.value));
    }
  }

  lemma PartFirst(part: Part, parts: seq<Part>)
    ensures CallsOf([part] + parts) == CallOf(part) + CallsOf(parts)
    ensures PositionalsOf([part] + parts) == (if part.Positional? then [part.text] else []) + PositionalsOf(parts)
  {
  }

  /** An argument that is no option, or comes after the end of options, stands for itself. */
  lemma PositionalPart(table: Table, args: seq<string>, stopped: bool)
    requires args != [] && (stopped || !IsOption(args[0]))
    ensures ReadPart(table, args, stopped) == Ok(Positional(args[0]))
    ensures CallOf(Positional(args[0])) == [] && Render(Positional(args[0])) == [args[0]]
    ensures StoppedAfter(table, Positional(args[0]), stopped) == stopped
  {
  }

  lemma StartState(whole: Result<seq<Part>, Error>)
    ensures Continues(whole, [], [], whole)
  {
  }

  lemma EndState(whole: Result<seq<Part>, Error>, calls: seq<Call>, params: seq<string>)
    requires Continues(whole, calls, params, Ok([]))
    ensures whole.Ok? && CallsOf(whole.value) == calls && PositionalsOf(whole.value) == params
  {
  }
}
