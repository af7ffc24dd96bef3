/** `Console::Execute` and the line runners built on it, as functions of the
    transcript: what a command line, a list of lines or a script appends to
    the log (or, for `/clear`, leaves of it). */
module Dispatch {
  import opened Wrappers
  import opened Tokenizer
  import opened Literals
  import opened Frame
  import Functions

  /** What the `std::function` of a command does. The four built-ins are
      modelled exactly; any other handler is described by the lines it logs
      and the exception, if any, it throws after them. */
  datatype Handler = Echo | Help | Clear | List | External(output: seq<string>, failure: Option<string>)

  /** `ConsoleCommand`. */
  datatype Command = Command(name: string, description: string, handler: Handler)

  /** A new transcript line, alive for `LogDuration`. */
  function Entry(text: string): LogEntry {
    LogEntry(text, LogDuration)
  }

  function Entries(lines: seq<string>): (r: seq<LogEntry>)
    ensures |r| == |lines| && forall i :: 0 <= i < |lines| ==> r[i] == Entry(lines[i])
  {
    seq(|lines|, i requires 0 <= i < |lines| => Entry(lines[i]))
  }

  const EchoUsage := "[USAGE] echo <message>"
  const HelpHeader := "Available commands:"
  const ClearedLine := "[CONSOLE] Log cleared"

  function EchoLine(line: string): string {
    "> " + line
  }

  function UnknownLine(name: string): string {
    "[ERROR] Unknown command: " + name
  }

  function ExceptionLine(name: string, what: string): string {
    "[ERROR] Exception in command '" + name + "': " + what
  }

  /** What `/echo` logs: every argument followed by one blank. */
  function EchoText(args: seq<string>): (r: string)
    ensures r == [] <==> args == []
    ensures r != [] ==> r[|r| - 1] == ' '
    decreases |args|
  {
    if args == [] then [] else args[0] + " " + EchoText(args[1..])
  }

  /** The echoed text tokenizes back to the arguments it was made of. */
  lemma {:induction false} EchoRoundTrip(args: seq<string>)
    requires forall i :: 0 <= i < |args| ==> args[i] != [] && NoneIn(args[i], {' '})
    ensures SplitArgs(EchoText(args)) == args
    decreases |args|
  {
    if args != [] {
      EchoRoundTrip(args[1..]);
      SplitAtDelimiter(args[0], ' ', EchoText(args[1..]), {' '});
      SplitNoDelimiter(args[0], {' '});
      assert args[0] + " " + EchoText(args[1..]) == args[0] + [' '] + EchoText(args[1..]);
      assert args == [args[0]] + args[1..];
    }
  }

  /** Every name `order` walks is a registered command. */
  predicate Covers(order: seq<string>, commands: map<string, Command>) {
    forall i :: 0 <= i < |order| ==> order[i] in commands
  }

  /** What `/help` logs after its header, one line per command in the
      order the command table is walked. */
  function HelpLines(commands: map<string, Command>, order: seq<string>): (r: seq<string>)
    requires Covers(order, commands)
    ensures |r| == |order|
  {
    seq(|order|, i requires 0 <= i < |order| => " - " + order[i] + ": " + commands[order[i]].description)
  }

  /** When the walk visits every command once, `/help` lists each of them. */
  lemma HelpListsEveryCommand(commands: map<string, Command>, order: seq<string>, n: string)
    requires Functions.IsOrderOf(order, commands.Keys) && n in commands
    ensures " - " + n + ": " + commands[n].description in HelpLines(commands, order)
  {
    var seen := set i | 0 <= i < |order| :: order[i];
    assert seen <= commands.Keys;
    SetOfDistinct(order);
    assert |seen| == |order| == |commands.Keys|;
    SubsetOfSameSize(seen, commands.Keys);
    var i :| 0 <= i < |order| && order[i] == n;
    assert HelpLines(commands, order)[i] == " - " + n + ": " + commands[n].description;
  }

  lemma {:induction false} SetOfDistinct(s: seq<string>)
    requires forall i, j :: 0 <= i < j < |s| ==> s[i] != s[j]
    ensures |set i | 0 <= i < |s| :: s[i]| == |s|
    decreases |s|
  {
    if s != [] {
      var front := s[..|s| - 1];
      SetOfDistinct(front);
      var a := set i | 0 <= i < |front| :: front[i];
      var b := set i | 0 <= i < |s| :: s[i];
      assert s[|s| - 1] !in a;
      assert b == a + {s[|s| - 1]};
    }
  }

  lemma {:induction false} SubsetSize(a: set<string>, b: set<string>)
    requires a <= b
    ensures |a| <= |b|
    decreases |a|
  {
    if a != {} {
      var x :| x in a;
      SubsetSize(a - {x}, b - {x});
    }
  }

  lemma SubsetOfSameSize(a: set<string>, b: set<string>)
    requires a <= b && |a| == |b|
    ensures a == b
  {
    if a != b {
      var x :| x in b && x !in a;
      SubsetSize(a, b - {x});
    }
  }

  /** What `/list` logs: each entity's position and name. */
  function ListLines(names: seq<string>): (r: seq<string>)
    ensures |r| == |names|
  {
    seq(|names|, i requires 0 <= i < |names| => NatToString(i) + ": " + names[i])
  }

  /** `after` keeps all of `before` and only adds lines that have just been
      logged. */
  predicate AppendsFresh(before: seq<LogEntry>, after: seq<LogEntry>) {
    before <= after && forall i :: |before| <= i < |after| ==> after[i].timeAlive == LogDuration
  }

  lemma AppendsFreshTransitive(a: seq<LogEntry>, b: seq<LogEntry>, c: seq<LogEntry>)
    ensures AppendsFresh(a, b) && AppendsFresh(b, c) ==> AppendsFresh(a, c)
  {
    if AppendsFresh(a, b) && AppendsFresh(b, c) {
      forall i | |a| <= i < |c|
        ensures c[i].timeAlive == LogDuration
      {
        if i < |b| {
          assert c[i] == b[i];
        }
      }
    }
  }

  /** The transcript after the handler of command `name` ran with `args`.
      Only `/clear` discards earlier lines; every other handler appends
      fresh lines, and a handler that throws ends with the exception line. */
  function RunHandler(log: seq<LogEntry>, name: string, h: Handler, args: seq<string>,
                      commands: map<string, Command>, order: seq<string>, names: seq<string>): (r: seq<LogEntry>)
    requires Covers(order, commands)
    ensures h == Clear ==> r == [Entry(ClearedLine)]
    ensures h != Clear ==> AppendsFresh(log, r)
    ensures h == Echo ==> |r| == |log| + 1
    ensures h == Help ==> |r| == |log| + 1 + |order|
    ensures h == List ==> |r| == |log| + |names|
    ensures h.External? ==> |r| == |log| + |h.output| + (if h.failure.Some? then 1 else 0)
    ensures h.External? && h.failure.Some? ==>
              |r| > 0 && r[|r| - 1] == Entry(ExceptionLine(name, h.failure.value))
  {
    match h
    case Echo => log + [Entry(if args == [] then EchoUsage else EchoText(args))]
    case Help => log + Entries([HelpHeader] + HelpLines(commands, order))
    case Clear => [Entry(ClearedLine)]
    case List => log + Entries(ListLines(names))
    case External(output, failure) =>
      log + Entries(output) + (if failure.Some? then [Entry(ExceptionLine(name, failure.value))] else [])
  }

  /** `Console::Execute(line)`, as the transcript it leaves; `names` are the
      names of the world's entities in list order. */
  function ExecuteLog(log: seq<LogEntry>, commands: map<string, Command>, order: seq<string>,
                      names: seq<string>, line: string): (r: seq<LogEntry>)
    requires Covers(order, commands)
    ensures line == [] ==> r == log
    ensures line != [] && Clears(commands, line) ==> r == [Entry(ClearedLine)]
    ensures !Clears(commands, line) ==> AppendsFresh(log, r)
    ensures line != [] && !Clears(commands, line) ==> log + [Entry(EchoLine(line))] <= r
  {
    if line == [] then log
    else
      var echoed := log + [Entry(EchoLine(line))];
      var tokens := SplitArgs(line);
      if tokens == [] then echoed
      else if tokens[0] in commands then
        RunHandler(echoed, tokens[0], commands[tokens[0]].handler, tokens[1..], commands, order, names)
      else echoed + [Entry(UnknownLine(tokens[0]))]
  }

  /** The line names a command whose handler is `/clear`'s. */
  predicate Clears(commands: map<string, Command>, line: string) {
    var tokens := SplitArgs(line);
    tokens != [] && tokens[0] in commands && commands[tokens[0]].handler == Clear
  }

  /** A line of blanks only is echoed and nothing else happens. */
  lemma BlankLineIsOnlyEchoed(log: seq<LogEntry>, commands: map<string, Command>, order: seq<string>,
                              names: seq<string>, line: string)
    requires Covers(order, commands)
    requires line != [] && forall i :: 0 <= i < |line| ==> line[i] == ' '
    ensures ExecuteLog(log, commands, order, names, line) == log + [Entry(EchoLine(line))]
  {
    SplitEmptyIff(line, {' '});
  }

  /** An unknown command name adds exactly one error line after the echo. */
  lemma UnknownCommandIsReported(log: seq<LogEntry>, commands: map<string, Command>, order: seq<string>,
                                 names: seq<string>, line: string)
    requires Covers(order, commands)
    requires SplitArgs(line) != [] && SplitArgs(line)[0] !in commands
    ensures ExecuteLog(log, commands, order, names, line)
            == log + [Entry(EchoLine(line)), Entry(UnknownLine(SplitArgs(line)[0]))]
  {
    SplitEmptyIff(line, {' '});
  }

  /** A handler that throws does not stop the console: the exception is
      logged with the command's name after whatever the handler logged. */
  lemma FailureIsCaught(log: seq<LogEntry>, commands: map<string, Command>, order: seq<string>,
                        names: seq<string>, line: string, output: seq<string>, what: string)
    requires Covers(order, commands)
    requires SplitArgs(line) != [] && SplitArgs(line)[0] in commands
    requires commands[SplitArgs(line)[0]].handler == External(output, Some(what))
    ensures ExecuteLog(log, commands, order, names, line)
            == log + [Entry(EchoLine(line))] + Entries(output)
               + [Entry(ExceptionLine(SplitArgs(line)[0], what))]
  {
    SplitEmptyIff(line, {' '});
  }

  lemma EchoCommandWords(line: string)
    requires line == "/echo hello world"
    ensures SplitArgs(line) == ["/echo", "hello", "world"]
  {
    var ws := ["/echo", "hello", "world"];
    assert Join(ws, ' ') == line by {
      assert ws[1..] == ["hello", "world"];
      assert ws[1..][1..] == ["world"];
    }
    SplitJoinRoundTrip(ws, ' ', {' '});
  }

  /** `/echo hello world` logs the echo of the line, then `hello world `. */
  lemma EchoExample(log: seq<LogEntry>, commands: map<string, Command>, order: seq<string>,
                    names: seq<string>, line: string)
    requires Covers(order, commands)
    requires "/echo" in commands && commands["/echo"].handler == Echo
    requires line == "/echo hello world"
    ensures ExecuteLog(log, commands, order, names, line)
            == log + [Entry("> /echo hello world"), Entry("hello world ")]
  {
    EchoCommandWords(line);
    var args := ["hello", "world"];
    assert ["/echo", "hello", "world"][1..] == args;
    EchoTextExample(args);
    assert EchoLine(line) == "> /echo hello world";
    var echoed := log + [Entry(EchoLine(line))];
    assert ExecuteLog(log, commands, order, names, line) == echoed + [Entry("hello world ")];
  }

  lemma EchoTextExample(args: seq<string>)
    requires args == ["hello", "world"]
    ensures EchoText(args) == "hello world "
  {
    assert args[1..] == ["world"];
    assert args[1..][1..] == [];
    assert EchoText(args[1..]) == "world" + " " + [];
    assert "hello" + " " + ("world" + " " + []) == "hello world ";
  }

  /** The lines run one after the other, as `ExecuteCommands` and
      `ExecuteScript` run them. */
  function RunLines(log: seq<LogEntry>, commands: map<string, Command>, order: seq<string>,
                    names: seq<string>, lines: seq<string>): (r: seq<LogEntry>)
    requires Covers(order, commands)
    ensures (forall i :: 0 <= i < |lines| ==> lines[i] == []) ==> r == log
    ensures (forall i :: 0 <= i < |lines| ==> !Clears(commands, lines[i])) ==> AppendsFresh(log, r)
    decreases |lines|
  {
    if lines == [] then log
    else
      var before := RunLines(log, commands, order, names, lines[..|lines| - 1]);
      var r := ExecuteLog(before, commands, order, names, lines[|lines| - 1]);
      AppendsFreshTransitive(log, before, r);
      r
  }

  /** Running two lists of lines is running their concatenation. */
  lemma {:induction false} RunLinesAppend(log: seq<LogEntry>, commands: map<string, Command>, order: seq<string>,
                                          names: seq<string>, a: seq<string>, b: seq<string>)
    requires Covers(order, commands)
    ensures RunLines(log, commands, order, names, a + b)
            == RunLines(RunLines(log, commands, order, names, a), commands, order, names, b)
    decreases |b|
  {
    if b == [] {
      assert a + b == a;
    } else {
      var c := a + b;
      assert c[..|c| - 1] == a + b[..|b| - 1];
      assert c[|c| - 1] == b[|b| - 1];
      RunLinesAppend(log, commands, order, names, a, b[..|b| - 1]);
    }
  }

  /** `ExecuteScript(script)`: the non-empty lines of the text, in order. */
  function ScriptLines(script: string): (r: seq<string>)
    ensures forall i :: 0 <= i < |r| ==> r[i] != [] && NoneIn(r[i], {'\n'})
  {
    Split(script, {'\n'})
  }

  lemma ScriptPieces(a: string, b: string)
    ensures a + "\n\n" + b == a + ['\n'] + ([] + ['\n'] + b)
  {
  }

  /** Two lines with an empty line between them run as those two lines. */
  lemma {:induction false} ScriptSkipsEmptyLines(a: string, b: string)
    requires a != [] && NoneIn(a, {'\n'}) && b != [] && NoneIn(b, {'\n'})
    ensures ScriptLines(a + "\n\n" + b) == [a, b]
  {
    ScriptPieces(a, b);
    SplitAtDelimiter(a, '\n', [] + ['\n'] + b, {'\n'});
    SplitAtDelimiter([], '\n', b, {'\n'});
    SplitNoDelimiter(a, {'\n'});
    SplitNoDelimiter(b, {'\n'});
  }
}
