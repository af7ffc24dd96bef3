/** The `Console` object: its transcript, command table, queue, waits, script
    functions and input line, and the operations that update them in place.
    Each operation is proved to leave exactly the state the functions of
    `Frame`, `Dispatch` and `Functions` describe. */
module ConsoleSystem {
  import opened Wrappers
  import opened Tokenizer
  import opened Frame
  import opened Dispatch
  import opened Functions
  import opened Literals
  import Directory

  const InitLine := "[CONSOLE] Initialized console system"

  /** The four commands `RegisterDefaultCommands` installs. */
  const EchoCommand := Command("echo", "Prints text to the console", Echo)
  const HelpCommand := Command("help", "Displays list of commands", Help)
  const ClearCommand := Command("clear", "Clears console log", Clear)
  const ListCommand := Command("list", "Lists all entities", List)

  class Console {
    const world: Directory.World
    var inputBuffer: string
    var log: seq<LogEntry>
    var isActive: bool
    var commands: map<string, Command>
    /** The order in which the command table is walked by `/help`. */
    var helpOrder: seq<string>
    var queue: seq<string>
    var functions: map<string, ScriptFunction>
    var waits: seq<PendingWait>

    /** `helpOrder` walks every registered command exactly once. */
    predicate Valid()
      reads this
    {
      IsOrderOf(helpOrder, commands.Keys)
    }

    /** The tables the console keeps by name. */
    function Tables(): (map<string, Command>, seq<string>, map<string, ScriptFunction>)
      reads this
    {
      (commands, helpOrder, functions)
    }

    /** The frame-to-frame session state. */
    function Session(): (bool, string, seq<string>, seq<PendingWait>)
      reads this
    {
      (isActive, inputBuffer, queue, waits)
    }

    /** The names of the world's entities in list order, as `/list` reads them. */
    function Names(): seq<string>
      reads this, world
    {
      world.Names()
    }

    /** `Console(world, io)`: closed, with the start-up line logged and the
        default commands registered. */
    constructor(world: Directory.World)
      ensures this.world == world && Valid()
      ensures log == [Entry(InitLine)]
      ensures !WantsInput() && inputBuffer == [] && queue == [] && waits == [] && functions == map[]
      ensures commands == DefaultCommands
    {
      this.world := world;
      inputBuffer := [];
      log := [];
      isActive := false;
      commands := map[];
      helpOrder := [];
      queue := [];
      functions := map[];
      waits := [];
      new;
      Log(InitLine);
      RegisterDefaultCommands();
    }

    /** `WantsInput()`: whether the console is open. */
    function WantsInput(): bool
      reads this
    {
      isActive
    }

    /** `Log(message)`: one new line, alive for `LogDuration`. */
    method Log(message: string)
      modifies this
      ensures log == old(log) + [Entry(message)]
      ensures Tables() == old(Tables()) && Session() == old(Session())
    {
      log := log + [Entry(message)];
    }

    /** `Commands[key] = command`: a second registration under the same key
        replaces the first. */
    method Register(key: string, command: Command)
      requires Valid()
      modifies this
      ensures Valid()
      ensures commands == old(commands)[key := command]
      ensures commands.Keys == old(commands).Keys + {key}
      ensures helpOrder == if key in old(commands) then old(helpOrder) else old(helpOrder) + [key]
      ensures log == old(log) && functions == old(functions) && Session() == old(Session())
    {
      if key !in commands {
        helpOrder := helpOrder + [key];
      }
      commands := commands[key := command];
    }

    /** `RegisterDefaultCommands()`: `/echo`, `/help`, `/clear` and `/list`. */
    method RegisterDefaultCommands()
      requires Valid()
      modifies this
      ensures Valid()
      ensures commands == old(commands)["/echo" := EchoCommand]["/help" := HelpCommand]
                                       ["/clear" := ClearCommand]["/list" := ListCommand]
      ensures log == old(log) && functions == old(functions) && Session() == old(Session())
    {
      Register("/echo", EchoCommand);
      Register("/help", HelpCommand);
      Register("/clear", ClearCommand);
      Register("/list", ListCommand);
    }

    /** `/echo`: the usage line without arguments, else each argument followed by a blank. */
    method RunEcho(args: seq<string>)
      modifies this
      ensures log == old(log) + [Entry(if args == [] then EchoUsage else EchoText(args))]
      ensures Tables() == old(Tables()) && Session() == old(Session())
    {
      if args == [] {
        Log(EchoUsage);
        return;
      }
      var out := "";
      var i := 0;
      while i < |args|
        invariant 0 <= i <= |args|
        invariant out + EchoText(args[i..]) == EchoText(args)
      {
        assert args[i..][1..] == args[i + 1..];
        out := out + args[i] + " ";
        i := i + 1;
      }
      assert args[i..] == [];
      assert out == EchoText(args);
      Log(out);
    }

    /** Logs the given lines in order. */
    method LogAll(lines: seq<string>)
      modifies this
      ensures log == old(log) + Entries(lines)
      ensures Tables() == old(Tables()) && Session() == old(Session())
    {
      var i := 0;
      while i < |lines|
        invariant 0 <= i <= |lines|
        invariant log == old(log) + Entries(lines[..i])
        invariant Tables() == old(Tables()) && Session() == old(Session())
      {
        Log(lines[i]);
        assert lines[..i + 1] == lines[..i] + [lines[i]];
        i := i + 1;
      }
      assert lines[..i] == lines;
    }

    /** `/help`: the header, then one line per command in table order. */
    method RunHelp()
      requires Valid()
      modifies this
      ensures Valid()
      ensures log == old(log) + Entries([HelpHeader] + HelpLines(commands, helpOrder))
      ensures Tables() == old(Tables()) && Session() == old(Session())
    {
      LogAll([HelpHeader] + HelpLines(commands, helpOrder));
    }

    /** `/list`: each entity's position and name, in list order. */
    method RunList()
      modifies this
      ensures log == old(log) + Entries(ListLines(Names()))
      ensures Tables() == old(Tables()) && Session() == old(Session())
    {
      LogAll(ListLines(Names()));
    }

    /** The handler of command `name`, run with `args`; an exception it
        throws is caught and logged. */
    method RunHandler(name: string, h: Handler, args: seq<string>)
      requires Valid()
      modifies this
      ensures Valid()
      ensures log == Dispatch.RunHandler(old(log), name, h, args, commands, helpOrder, Names())
      ensures Tables() == old(Tables()) && Session() == old(Session())
    {
      match h
      case Echo =>
        RunEcho(args);
      case Help =>
        RunHelp();
      case Clear =>
        log := [];
        Log(ClearedLine);
      case List =>
        RunList();
      case External(output, failure) =>
        LogAll(output);
        if failure.Some? {
          Log(ExceptionLine(name, failure.value));
        }
    }

    /** `Execute(line)`: echo the line, then run the command its first token
        names with the remaining tokens, or report the unknown name. */
    method Execute(line: string)
      requires Valid()
      modifies this
      ensures Valid()
      ensures log == ExecuteLog(old(log), commands, helpOrder, Names(), line)
      ensures Tables() == old(Tables()) && Session() == old(Session())
    {
      if line == [] {
        return;
      }
      Log(EchoLine(line));
      var tokens := SplitArgs(line);
      if tokens == [] {
        return;
      }
      var name := tokens[0];
      if name in commands {
        RunHandler(name, commands[name].handler, tokens[1..]);
      } else {
        Log(UnknownLine(name));
      }
    }

    /** Runs the given lines in order. */
    method RunAll(lines: seq<string>)
      requires Valid()
      modifies this
      ensures Valid()
      ensures log == RunLines(old(log), commands, helpOrder, Names(), lines)
      ensures Tables() == old(Tables()) && Session() == old(Session())
    {
      var i := 0;
      while i < |lines|
        invariant 0 <= i <= |lines| && Valid()
        invariant log == RunLines(old(log), commands, helpOrder, Names(), lines[..i])
        invariant Tables() == old(Tables()) && Session() == old(Session())
      {
        assert lines[..i + 1][..i] == lines[..i];
        Execute(lines[i]);
        i := i + 1;
      }
      assert lines[..i] == lines;
    }

    /** `ExecuteScript(script)`: the non-empty lines of the text, in order. */
    method ExecuteScript(script: string)
      requires Valid()
      modifies this
      ensures Valid()
      ensures log == RunLines(old(log), commands, helpOrder, Names(), ScriptLines(script))
      ensures Tables() == old(Tables()) && Session() == old(Session())
    {
      RunAll(ScriptLines(script));
    }

    /** `ExecuteCommands()`: the queued lines in arrival order, then an empty queue. */
    method ExecuteCommands()
      requires Valid()
      modifies this
      ensures Valid()
      ensures log == RunLines(old(log), commands, helpOrder, Names(), old(queue))
      ensures queue == [] && Tables() == old(Tables())
      ensures isActive == old(isActive) && inputBuffer == old(inputBuffer) && waits == old(waits)
    {
      RunAll(queue);
      queue := [];
    }

    /** The transcript part of `Update`: lifetimes drop by `dt`, expired
        entries are erased and the rest keep their order. */
    method DecayLog(dt: real)
      modifies this
      ensures log == Decay(old(log), dt)
      ensures Tables() == old(Tables()) && Session() == old(Session())
    {
      var kept: seq<LogEntry> := [];
      var i := 0;
      while i < |log|
        invariant 0 <= i <= |log|
        invariant kept == Decay(log[..i], dt)
      {
        assert log[..i + 1][..i] == log[..i];
        var e := Aged(log[i], dt);
        if e.timeAlive > 0.0 {
          kept := kept + [e];
        }
        i := i + 1;
      }
      assert log[..i] == log;
      log := kept;
    }

    /** The waits part of `Update`: each wait drops by `dt`; those that run
        out are erased and their commands queued in list order. */
    method MatureWaits(dt: real)
      modifies this
      ensures waits == Pending(old(waits), dt)
      ensures queue == old(queue) + Matured(old(waits), dt)
      ensures Tables() == old(Tables()) && log == old(log)
      ensures isActive == old(isActive) && inputBuffer == old(inputBuffer)
    {
      var remaining: seq<PendingWait> := [];
      var j := 0;
      while j < |waits|
        invariant 0 <= j <= |waits| && waits == old(waits)
        invariant remaining == Pending(waits[..j], dt)
        invariant queue == old(queue) + Matured(waits[..j], dt)
        invariant Tables() == old(Tables()) && log == old(log)
        invariant isActive == old(isActive) && inputBuffer == old(inputBuffer)
      {
        assert waits[..j + 1] == waits[..j] + [waits[j]];
        MaturedAppend(waits[..j], [waits[j]], dt);
        PendingAppend(waits[..j], [waits[j]], dt);
        var kept := MatureWait(waits[j], dt);
        remaining := remaining + kept;
        j := j + 1;
      }
      assert waits[..j] == waits;
      waits := remaining;
    }

    /** One wait of the tick: its command is queued when it runs out,
        otherwise it is handed back `dt` seconds shorter. */
    method MatureWait(w: PendingWait, dt: real) returns (kept: seq<PendingWait>)
      modifies this
      ensures kept == Pending([w], dt)
      ensures queue == old(queue) + Matured([w], dt)
      ensures Tables() == old(Tables()) && log == old(log) && waits == old(waits)
      ensures isActive == old(isActive) && inputBuffer == old(inputBuffer)
    {
      assert [w][..0] == [];
      var t := w.remainingTime - dt;
      if t <= 0.0 {
        queue := queue + [w.nextCommand];
        kept := [];
      } else {
        kept := [PendingWait(t, w.nextCommand)];
      }
    }

    /** Appends the printable characters of the frame to the input line. */
    method TypeChars(chars: seq<WChar>)
      modifies this
      ensures inputBuffer == old(inputBuffer) + Printable(chars)
      ensures Tables() == old(Tables()) && log == old(log)
      ensures isActive == old(isActive) && queue == old(queue) && waits == old(waits)
    {
      var n := 0;
      while n < |chars|
        invariant 0 <= n <= |chars|
        invariant inputBuffer == old(inputBuffer) + Printable(chars[..n])
        invariant Tables() == old(Tables()) && log == old(log)
        invariant isActive == old(isActive) && queue == old(queue) && waits == old(waits)
      {
        assert chars[..n + 1][..n] == chars[..n];
        var c := chars[n];
        if c >= 32 && c != 127 {
          inputBuffer := inputBuffer + [((c as int) % 256) as char];
        }
        n := n + 1;
      }
      assert chars[..n] == chars;
    }

    /** The input part of `Update`. */
    method TakeKeys(keys: Keys)
      modifies this
      ensures Input(isActive, inputBuffer, queue) == InputStep(Input(old(isActive), old(inputBuffer), old(queue)), keys)
      ensures Tables() == old(Tables()) && log == old(log) && waits == old(waits)
    {
      if keys.slash {
        isActive := !isActive;
      }
      if isActive {
        TypeChars(keys.chars);
        if keys.backspace && inputBuffer != [] {
          inputBuffer := inputBuffer[..|inputBuffer| - 1];
        } else if inputBuffer == [] && keys.backspace {
          isActive := false;
        }
        if keys.enter {
          queue := queue + [inputBuffer];
          inputBuffer := [];
          isActive := false;
        }
      }
    }

    /** `Update(deltaTime)` with the frame's keys given explicitly: the
        transcript decays, expired waits are queued, and the input line takes
        the keys. */
    method Update(dt: real, keys: Keys)
      modifies this
      ensures log == Decay(old(log), dt)
      ensures waits == Pending(old(waits), dt)
      ensures Input(isActive, inputBuffer, queue)
              == InputStep(Input(old(isActive), old(inputBuffer), old(queue) + Matured(old(waits), dt)), keys)
      ensures Tables() == old(Tables())
    {
      DecayLog(dt);
      MatureWaits(dt);
      TakeKeys(keys);
    }

    /** The `getline(ss, param, ',')` loop: each piece with its blanks erased,
        kept when something is left. */
    static method ParamList(paramText: string) returns (params: seq<string>)
      ensures params == CleanParams(paramText)
    {
      var pieces := Split(paramText, {','});
      params := [];
      var i := 0;
      while i < |pieces|
        invariant 0 <= i <= |pieces|
        invariant params + CleanPieces(pieces[i..]) == CleanPieces(pieces)
      {
        CleanPiecesAt(pieces, i);
        var p := RemoveSpaces(pieces[i]);
        if p != [] {
          params := params + [p];
        }
        i := i + 1;
      }
      assert pieces[i..] == [];
    }

    /** Stores a matched definition under its name and reports it. */
    method Define(d: Definition)
      modifies this
      ensures functions == old(functions)[d.name := ScriptFunction(CleanParams(d.paramText), d.body)]
      ensures log == old(log) + [Entry(DefinedMessage(d.name, |CleanParams(d.paramText)|))]
      ensures commands == old(commands) && helpOrder == old(helpOrder) && Session() == old(Session())
    {
      var params := ParamList(d.paramText);
      functions := functions[d.name := ScriptFunction(params, d.body)];
      Log(DefinedMessage(d.name, |params|));
    }

    /** `ParseFunction(line)`: on a match, the definition is stored under its
        name, replacing any earlier one, and reported with its parameter
        count; otherwise the table is unchanged and the syntax error logged. */
    method ParseFunction(line: string)
      modifies this
      ensures match MatchDefinition(line)
              case None => functions == old(functions) && log == old(log) + [Entry(InvalidSyntax)]
              case Some(d) =>
                functions == old(functions)[d.name := ScriptFunction(CleanParams(d.paramText), d.body)]
                && log == old(log) + [Entry(DefinedMessage(d.name, |CleanParams(d.paramText)|))]
      ensures commands == old(commands) && helpOrder == old(helpOrder) && Session() == old(Session())
    {
      var m := MatchDefinition(line);
      match m
      case None =>
        Log(InvalidSyntax);
      case Some(d) =>
        Define(d);
    }

    /** The binding loop of `CallFunction`. */
    static method BindLocals(params: seq<string>, args: seq<string>) returns (locals: map<string, string>)
      requires |args| >= 2
      ensures locals == Bind(params, args[2..])
    {
      var values := args[2..];
      var bound := if |params| < |values| then |params| else |values|;
      locals := map[];
      var i := 0;
      while i < |params| && i + 2 < |args|
        invariant 0 <= i <= bound
        invariant locals == BindFirst(params, values, i)
      {
        locals := locals[params[i] := args[i + 2]];
        i := i + 1;
      }
    }

    /** The substitution loop of `CallFunction`: the unordered map of locals
        is walked in an unspecified order, which `order` records. */
    static method ExpandLocals(body: string, locals: map<string, string>) returns (expanded: string)
      ensures exists order :: IsOrderOf(order, locals.Keys) && expanded == Expand(body, locals, order)
    {
      expanded := body;
      var left := locals.Keys;
      ghost var order := [];
      while left != {}
        invariant left <= locals.Keys
        invariant |order| + |left| == |locals.Keys|
        invariant forall k :: 0 <= k < |order| ==> order[k] in locals && order[k] !in left
        invariant forall k, l :: 0 <= k < l < |order| ==> order[k] != order[l]
        invariant expanded == Expand(body, locals, order)
        decreases |left|
      {
        var p :| p in left;
        assert (order + [p])[..|order|] == order;
        expanded := ReplaceWord(expanded, p, locals[p]);
        order := order + [p];
        left := left - {p};
      }
      assert IsOrderOf(order, locals.Keys);
    }

    /** `CallFunction(line)`: binds the arguments after the function name to
        its parameters by position, replaces each bound name, as a whole
        word, by its value, and runs the result as a script. */
    method CallFunction(line: string)
      requires Valid()
      modifies this
      ensures Valid()
      ensures var args := SplitArgs(line);
              if |args| < 2 then log == old(log) + [Entry(CallUsage)]
              else if args[1] !in functions then log == old(log) + [Entry(UnknownFunction(args[1]))]
              else
                var f := functions[args[1]];
                var locals := Bind(f.params, args[2..]);
                exists order :: IsOrderOf(order, locals.Keys)
                  && log == RunLines(old(log), commands, helpOrder, Names(), ScriptLines(Expand(f.body, locals, order)))
      ensures Tables() == old(Tables()) && Session() == old(Session())
    {
      var args := SplitArgs(line);
      if |args| < 2 {
        Log(CallUsage);
        return;
      }
      var name := args[1];
      if name !in functions {
        Log(UnknownFunction(name));
        return;
      }
      var f := functions[name];
      var locals := BindLocals(f.params, args);
      var expanded := ExpandLocals(f.body, locals);
      ExecuteScript(expanded);
    }
  }

  /** The command table of a new console. */
  const DefaultCommands := map["/echo" := EchoCommand, "/help" := HelpCommand,
                               "/clear" := ClearCommand, "/list" := ListCommand]

  /** `/help` on a new console echoes the line, logs the header and then one
      line per default command, in the order the table is walked. */
  lemma HelpOnNewConsole(log: seq<LogEntry>, order: seq<string>, names: seq<string>, line: string)
    requires line == "/help" && IsOrderOf(order, DefaultCommands.Keys)
    ensures ExecuteLog(log, DefaultCommands, order, names, line)
            == log + Entries(["> /help", HelpHeader] + HelpLines(DefaultCommands, order))
  {
    SplitNoDelimiter(line, {' '});
    assert EchoLine(line) == "> /help";
    assert DefaultCommands[line].handler == Help;
    HelpCommandListsTable(log, DefaultCommands, order, names, line);
  }

  /** A line that is just the name of a `/help`-like command logs the echo,
      the header and the table. */
  lemma HelpCommandListsTable(log: seq<LogEntry>, commands: map<string, Command>, order: seq<string>,
                              names: seq<string>, line: string)
    requires Covers(order, commands)
    requires line != [] && SplitArgs(line) == [line] && line in commands && commands[line].handler == Help
    ensures ExecuteLog(log, commands, order, names, line)
            == log + Entries([EchoLine(line), HelpHeader] + HelpLines(commands, order))
  {
    EntriesCons(EchoLine(line), [HelpHeader] + HelpLines(commands, order));
  }

  lemma EntriesCons(first: string, rest: seq<string>)
    ensures Entries([first] + rest) == [Entry(first)] + Entries(rest)
  {
  }
}
