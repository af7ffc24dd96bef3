# liveeditor console, entity directory and OBJ loader, in Dafny

This project models four parts of the liveeditor scene editor:

- **The in-game console.** It keeps a transcript of log lines that fade out after five seconds. It also keeps a table of named commands (`/echo`, `/help`, `/clear`, `/list`, plus any registered later), a queue of submitted lines, timed waits that release a command, a table of user-defined script functions, and the one-line input box.
- **The attribute map** (`CParams`) that every entity carries.
- **The entity directory** (`World`). It holds entity handles in insertion order, and a name resolves to the first entity that carries it.
- **The Wavefront OBJ loader.** It turns `v`/`vn`/`vt`/`f` lines into a vertex list and a fan-triangulated index list.

Modules, one per file:

- `wrappers.dfy`: `Option` and `Result`.
- `tokenizer.dfy`: the `getline`-with-delimiter splitting behind `SplitArgs`, and the `>>` word splitting.
- `literals.dfy`: the decimal prefix that `std::stof` accepts, and `std::to_string`.
- `attributes.dfy`: the tagged attribute value and the `Params` class.
- `directory.dfy`: the `Entity` and `World` classes, and the snapshot that name resolution reads.
- `evaluation.dfy`: the condition, boolean and numeric expression evaluators.
- `functions.dfy`: the script-function machinery:
  - the `function NAME(params) do BODY end` pattern, with its leftmost and lazy matching;
  - parameter cleaning;
  - positional binding;
  - whole-word substitution.
- `frame.dfy`: the per-frame rules, as functions:
  - log ageing;
  - maturing of waits;
  - the input-box state machine.
- `dispatch.dfy`: what one command line adds to the transcript, as a function of the transcript.
- `console.dfy`: the `Console` class. Its methods update the fields in place, and each is proved to produce exactly the state the functions above describe.
- `obj_loader.dfy`: `LoadOBJ`, as a method proved equal to a functional specification. That specification is proved to give a mesh whose indices are in range and come in whole triangles.

Floats are modelled as mathematical reals. A division by zero in the numeric evaluator gives a distinct non-finite value, which absorbs every later step. Several behaviours of the code are easy to miss:

- A line made only of spaces is still echoed. Only `' '` separates command words, so `"\t"` is an (unknown) command name.
- In the boolean evaluator, `and`/`or` replace the running result with the value of the sub-expression, except where C++ short-circuiting skips the call.
- A wide input character is narrowed by `(char)` truncation, so U+010A becomes a line feed.
- Substituting the locals of a function call depends on the order in which the hash map is walked.
- Parameter substitution is `regex_replace` with its format rules. A `\b` boundary is checked against the whole text, so a name such as `x-y` is replaced, and `$&`, `$$` and similar sequences in an argument are expanded.

## Model

| member | source | states |
|---|---|---|
| Attributes.NumericValue | src/console/console.cpp:222-227 | A float attribute reads as itself and an int as its value. Every other alternative has no numeric reading. |
| Attributes.Params.constructor | src/entity/params.hpp:76 | A new attribute map is empty. |
| Attributes.Params.Set | src/entity/params.hpp:18-25 | Afterwards the name maps to the new value, replacing any earlier one. Every other name keeps its value. The key count grows by one exactly when the name was new. |
| Attributes.Params.Get | src/entity/params.hpp:28-40 | Yields the stored value exactly when the name is present, and nothing otherwise. |
| Attributes.Params.GetAs | src/entity/params.hpp:42-52 | Succeeds exactly when the name is present and holds the requested alternative, and then returns that value. Otherwise it fails with the nonexistent-key message or the type-mismatch message. |
| Attributes.Params.GetOr | src/entity/params.hpp:54-62 | The result always has the default's alternative. It is the stored value when the name holds that alternative, and otherwise the default. |
| Attributes.Params.Remove | src/entity/params.hpp:65-67 | Reports whether the name was present. Afterwards the name is absent and every other entry is unchanged. |
| Attributes.Params.Has | src/entity/params.hpp:69-71 | Agrees with the pointer-returning `Get`. An absent name makes every typed `Get<T>` throw the nonexistent-key error. |
| Attributes.GetOrMatchesGetAs | src/entity/params.hpp:42-62 | `GetOr` is `GetAs` with the default substituted for either error. |
| Directory.Entity.constructor | src/world/world.cpp:21 | A new entity carries the given name and a fresh, empty attribute map. |
| Directory.FirstIndexOf | src/world/world.hpp:34-41 | Returns the index of the first occurrence, with no earlier match. It returns nothing exactly when no element matches. |
| Directory.Resolve | src/console/console.cpp:346-350 | Returns the first entity of the directory with that name. It returns nothing exactly when none has it. |
| Directory.RemoveFirst | src/world/world.cpp:45-48 | The list is unchanged when the handle is absent, and one shorter when it is present. |
| Directory.World.constructor | src/world/world.cpp:6-9 | A new world holds exactly its root entity, which carries the world's name. |
| Directory.World.Names | src/world/world.hpp:32 | The entities' names, in list order. |
| Directory.World.GetEntity | src/world/world.hpp:34-41 | Returns the first entity with the name, searching in list order. It returns nothing exactly when no entity has it. |
| Directory.World.GetEntityCount | src/world/world.hpp:30 | One per listed entity, so it is positive whenever some name resolves. |
| Directory.World.View | src/world/world.hpp:32 | The snapshot has one element per entity, in order, with that entity's name and current attributes. |
| Directory.World.CreateEntity | src/world/world.cpp:15-27 | Appends exactly one fresh, empty entity with the given name at the end. The count grows by one. |
| Directory.World.AddEntity | src/world/world.cpp:29-37 | A null handle leaves the list unchanged. Any other handle is appended at the end. |
| Directory.World.RemoveEntity | src/world/world.cpp:39-52 | A null handle leaves the list unchanged. Otherwise the first occurrence of the handle is removed, if there is one. |
| Directory.World.Clear | src/world/world.cpp:54-57 | Afterwards the entity list is empty. |
| Directory.RemoveFirstAt | src/world/world.cpp:45-48 | Removing a handle removes exactly the position of its first occurrence. The other handles keep their order. |
| Directory.RemoveFirstRemovesOne | src/world/world.cpp:45-48 | Removal takes away one copy of the handle and nothing else, as a multiset. |
| Directory.ViewResolvesLikeGetEntity | src/console/console.cpp:346-350 | Resolving a name over the world's snapshot finds an entity exactly when `GetEntity` does, and finds the same one. |
| Dispatch.Entries | src/console/console.cpp:352-356 | Each logged message becomes one entry, in order, with the full log lifetime. |
| Dispatch.EchoRoundTrip | src/console/console.cpp:376-379 | Splitting the text `/echo` logs at spaces gives back its non-empty, space-free arguments. |
| Dispatch.EchoText | src/console/console.cpp:377-379 | The echoed text is empty exactly when there are no arguments, and a non-empty one ends in the blank written after the last argument. |
| Dispatch.HelpLines | src/console/console.cpp:384-385 | `/help` logs one line per command in the table. |
| Dispatch.HelpListsEveryCommand | src/console/console.cpp:382-386 | Every registered command appears in the `/help` listing with its description. |
| Dispatch.ListLines | src/console/console.cpp:393-399 | `/list` logs one numbered line per entity. |
| Dispatch.RunHandler | src/console/console.cpp:113-119 | Only `/clear` discards earlier lines. Every other handler keeps the log and appends fresh lines: one for `/echo`, the header plus one per command for `/help`, one per entity for `/list`. A handler that throws ends with the exception line. |
| Dispatch.ExecuteLog | src/console/console.cpp:100-123 | An empty line logs nothing. `/clear` leaves only the cleared notice. Any other line keeps everything logged before, appends only fresh lines, and first logs the line itself after `> `. |
| Dispatch.BlankLineIsOnlyEchoed | src/console/console.cpp:104-108 | A line of spaces is echoed and nothing else happens. |
| Dispatch.UnknownCommandIsReported | src/console/console.cpp:120-121 | When the first word is not in the table, the echo is followed by the unknown-command error, and nothing else is logged. |
| Dispatch.FailureIsCaught | src/console/console.cpp:115-119 | A handler that throws keeps what it logged before throwing. The exception is then logged with the command name and its message. |
| Dispatch.EchoCommandWords | src/console/console.cpp:358-367 | `"/echo hello world"` splits into the command and its two words. |
| Dispatch.EchoExample | src/console/console.cpp:370-380 | `/echo hello world` logs the echo line and then `hello world ` with its trailing space. |
| Dispatch.RunLines | src/console/console.cpp:61-66 | A list of empty lines leaves the log alone. Without a `/clear` line, the log is kept and only fresh lines are appended. |
| Dispatch.RunLinesAppend | src/console/console.cpp:61-66 | Running a list of lines is running its first part and then its second part. |
| Dispatch.ScriptLines | src/console/console.cpp:133-135 | The lines a script runs are non-empty and contain no line feed. |
| Dispatch.ScriptSkipsEmptyLines | src/console/console.cpp:133-135 | An empty line between two script lines is skipped. |
| ConsoleSystem.Console.constructor | src/console/console.cpp:6-9 | A new console is closed. It has logged only the start-up line, has the four default commands, and has empty input, queue, waits and function table. |
| ConsoleSystem.Console.Log | src/console/console.cpp:352-356 | Appends one entry with the full lifetime. Nothing else changes. |
| ConsoleSystem.Console.Register | src/console/console.cpp:370 | Installs or replaces one command. The help order gains the name only when it is new, so it still lists every command once. |
| ConsoleSystem.Console.RegisterDefaultCommands | src/console/console.cpp:369-400 | Installs `/echo`, `/help`, `/clear` and `/list` with their descriptions, over any earlier entries. |
| ConsoleSystem.Console.RunEcho | src/console/console.cpp:371-380 | With no arguments, logs the usage line. Otherwise logs the arguments, each followed by a space. |
| ConsoleSystem.Console.RunHelp | src/console/console.cpp:382-386 | Logs the header and then one line per command, in table order. |
| ConsoleSystem.Console.RunList | src/console/console.cpp:393-399 | Logs one `index: name` line per entity, in world order. |
| ConsoleSystem.Console.RunHandler | src/console/console.cpp:113-119 | Running a handler changes the log exactly as the dispatch specification says, and changes no table or session state. |
| ConsoleSystem.Console.Execute | src/console/console.cpp:100-123 | The log afterwards is the dispatch specification of the line. Tables, input box, queue and waits are unchanged. |
| ConsoleSystem.Console.ExecuteScript | src/console/console.cpp:129-137 | Runs the script's non-empty lines in order, as `Execute` would one by one. |
| ConsoleSystem.Console.ExecuteCommands | src/console/console.cpp:61-66 | Runs every queued line in order, then empties the queue. |
| ConsoleSystem.Console.RunAll | src/console/console.cpp:62-63 | Executes the lines in order: the log becomes `RunLines` of the old log over the lines, and the command and function tables and the session are unchanged. |
| ConsoleSystem.Console.DecayLog | src/console/console.cpp:17-22 | Every entry ages by the frame time. Exactly those with time left remain, in order. |
| ConsoleSystem.Console.MatureWaits | src/console/console.cpp:24-32 | Waits that run out append their commands to the queue, in order. The others stay with the frame time subtracted. |
| ConsoleSystem.Console.MatureWait | src/console/console.cpp:25-31 | One wait either queues its command or stays with less time left. |
| ConsoleSystem.Console.TypeChars | src/console/console.cpp:39-44 | Appends the printable characters, narrowed to `char`, to the input line. |
| ConsoleSystem.Console.TakeKeys | src/console/console.cpp:34-56 | The input box, the activity flag and the queue follow the input state machine for the frame's keys. |
| ConsoleSystem.Console.Update | src/console/console.cpp:13-59 | One frame: the log decays, due waits are queued, then keys and typed characters are applied. |
| ConsoleSystem.Console.ParamList | src/console/console.cpp:163-169 | The parameter names are the comma pieces with their blanks erased, dropping those left empty. |
| ConsoleSystem.Console.Define | src/console/console.cpp:171-172 | Stores the function under its name, replacing any earlier one, and logs its name and parameter count. |
| ConsoleSystem.Console.ParseFunction | src/console/console.cpp:151-176 | On a match, the definition is stored and reported. Otherwise the table is unchanged and the syntax error is logged. |
| ConsoleSystem.Console.BindLocals | src/console/console.cpp:193-196 | Binds the parameters to the arguments after the function name, by position, as far as both last. |
| ConsoleSystem.Console.ExpandLocals | src/console/console.cpp:198-200 | The body after `regex_replace` of `\bNAME\b` by each bound value, `$` sequences expanded, in some order that visits every local once. |
| ConsoleSystem.Console.CallFunction | src/console/console.cpp:178-203 | Fewer than two words log the usage line, and an unknown name logs an error. Otherwise the expanded body runs as a script, and the tables are unchanged. |
| ConsoleSystem.HelpOnNewConsole | src/console/console.cpp:382-386 | `/help` on the default table logs the echo, the header and one line per default command. |
| ConsoleSystem.HelpCommandListsTable | src/console/console.cpp:382-386 | A one-word line naming a help command logs the echo, the header and the whole table listing. |
| Evaluation.FindChar | src/console/console.cpp:206 | Returns the first position of the character. It returns nothing exactly when the character is absent. |
| Evaluation.AttrReading | src/console/console.cpp:218-227 | An attribute reads as a number exactly when it exists and holds a float or an int; a float reads as itself and an int as its real value. |
| Evaluation.Reading | src/console/console.cpp:206-215 | A reference without a dot reads nothing. |
| Evaluation.ReadingAtFirstDot | src/console/console.cpp:206-227 | `name.attr` with an undotted `name` reads `attr` of the entity `name` resolves to, and nothing when no entity has that name; the split is at the first dot, so `attr` may hold further dots. |
| Evaluation.EvaluateCondition | src/console/console.cpp:205-239 | Fails exactly when the entity resolves and `stof` rejects the value. It is true exactly when the attribute reads numerically, the value parses, and the comparison holds. |
| Evaluation.ParseExpr | src/console/console.cpp:248-276 | Never moves backwards. At top level it consumes every token, unless it stops false at a clause cut short. |
| Evaluation.Loop | src/console/console.cpp:250-274 | The same bound for the token loop from any running result. |
| Evaluation.EmptyExpressionIsTrue | src/console/console.cpp:249 | An expression without tokens is true. |
| Evaluation.EvaluateExpression | src/console/console.cpp:241-280 | Raises only where a complete clause names an entity that resolves and `stof` rejects the clause's literal. An expression without dotted tokens never raises. |
| Evaluation.ClauseValue | src/console/console.cpp:263-270 | A clause of three tokens fails only when its first token is dotted and its third is not a number; it is true exactly when the first token reads a number, the third parses, and the comparison holds. |
| Evaluation.TrueConsumesEverything | src/console/console.cpp:278-279 | A true result consumed all tokens. Stopping early means a false result at a clause cut short. |
| Evaluation.TwoClausesGiveTheSecond | src/console/console.cpp:253-258 | `c1 and c2` and `c1 or c2` both evaluate to the second clause, because the sub-call overwrites the result. |
| Evaluation.NotNegatesTheRest | src/console/console.cpp:259-261 | A leading `not` negates the value of the rest of the expression. |
| Evaluation.Apply | src/console/console.cpp:325-332 | A non-finite value stays non-finite. A finite value becomes non-finite only through division by zero. |
| Evaluation.Fold | src/console/console.cpp:292-341 | A non-finite result requires a `/`. |
| Evaluation.NumericIsLeftToRight | src/console/console.cpp:289-343 | A well-formed expression is evaluated strictly left to right, without precedence. |
| Evaluation.FoldSteps | src/console/console.cpp:292-341 | The token loop equals the left-to-right reference semantics from any accumulator. |
| Evaluation.MissingOperatorRepeatsLast | src/console/console.cpp:334-340 | An operand not followed by an operator reuses the pending operator for the next operand. |
| Evaluation.TokenValue | src/console/console.cpp:294-322 | A token `stof` accepts is that number. Otherwise the value is 0, a resolved reference's reading, or the context entity's attribute. |
| Evaluation.UnresolvedTokenIsZero | src/console/console.cpp:298-322 | A token that is neither a literal nor a reference resolving to a numeric attribute counts as 0. |
| Evaluation.EvaluateNumericExpression | src/console/console.cpp:282-344 | The result is non-finite only when the expression has a `/` token. |
| Evaluation.EmptyNumericIsZero | src/console/console.cpp:289-343 | A blank expression evaluates to 0. |
| Evaluation.BareNameWithoutContextIsZero | src/console/console.cpp:314-322 | Without a context entity, an undotted non-number counts as 0. |
| Evaluation.NoDivisionStaysFinite | src/console/console.cpp:325-332 | An expression without `/` evaluates to a finite number. |
| Evaluation.NumericExample | src/console/console.cpp:282-344 | `2 + 3 * 4` evaluates to 20, not 14. |
| Evaluation.QuotientByZero | src/console/console.cpp:331-332 | Dividing by an operand worth 0 gives a non-finite result. |
| Evaluation.DivisionByZeroExample | src/console/console.cpp:331-332 | `5 / 0` is non-finite. |
| Frame.Decay | src/console/console.cpp:17-22 | Keeps only entries with time left, never adding any. |
| Frame.DecayAppend | src/console/console.cpp:20-22 | Decay acts on each entry independently. |
| Frame.DecaySurvivors | src/console/console.cpp:17-22 | An entry survives exactly when it existed with the frame time more and still has time left. |
| Frame.DecayCompose | src/console/console.cpp:17-22 | Two frames of decay equal one frame of their summed time. |
| Frame.LogLineLifetime | src/console/console.hpp:78 | A new line is shown for exactly `LogDuration` seconds. |
| Frame.Matured | src/console/console.cpp:24-32 | Yields at most one command per wait. |
| Frame.Pending | src/console/console.cpp:24-32 | The remaining waits all have time left. |
| Frame.WaitsPartition | src/console/console.cpp:24-32 | Every wait either matures or stays pending, and no command is lost or duplicated. |
| Frame.MaturedAppend | src/console/console.cpp:24-32 | Maturing is per wait, in order. |
| Frame.PendingAppend | src/console/console.cpp:24-32 | Pending waits are kept per wait, in order. |
| Frame.PendingSurvivors | src/console/console.cpp:24-32 | A wait stays exactly when it had the frame time more and still has time left. |
| Frame.Printable | src/console/console.cpp:39-43 | The accepted characters fit in a `char`, and none is added. |
| Frame.PrintableAscii | src/console/console.cpp:41-42 | Printable ASCII is kept unchanged, in full. |
| Frame.ControlsDropped | src/console/console.cpp:41 | Control characters and DEL are dropped. |
| Frame.WideCharTruncates | src/console/console.cpp:42 | U+010A passes the filter and is narrowed to a line feed. |
| Frame.InputStep | src/console/console.cpp:34-56 | A frame queues at most one line and never drops queued lines. The box stays open only when Enter was not pressed. |
| Frame.ClosedKeepsLine | src/console/console.cpp:34-37 | When the box ends the slash step closed, nothing else changes. |
| Frame.SlashToggles | src/console/console.cpp:34-35 | Slash toggles the box. |
| Frame.TypingAppends | src/console/console.cpp:39-44 | Typed printable characters are appended to the line. |
| Frame.BackspacePops | src/console/console.cpp:46-50 | Backspace removes the last character, or closes the box when the line is empty. |
| Frame.Edited | src/console/console.cpp:39-50 | The edited line is a prefix of the buffer followed by the typed printable characters, one character shorter exactly when backspace is pressed on a non-empty line; the box stays open unless backspace hits a line that was and stayed empty. |
| Frame.EnterSubmits | src/console/console.cpp:52-56 | Enter queues the line, clears it and closes the box. |
| Functions.BodyEndIsShortest | src/console/console.cpp:156 | The lazy `(.*?)\s*end` stops at the first place where blanks and `end` follow, without crossing a line break. There is none exactly when no such place exists. |
| Functions.Tail | src/console/console.cpp:156 | A match of `)\s+do\s*...\s*end` starts with `)` and delimits a body inside the text. |
| Functions.ParamsLength | src/console/console.cpp:156 | The lazy parameter group ends where the rest of the pattern matches, inside the text; when the group is non-empty, the rest does not match at its start and it does not begin with a line break. |
| Functions.MatchHere | src/console/console.cpp:156 | A definition matched at a position has a word-character name. |
| Functions.Leftmost | src/console/console.cpp:158 | `regex_search` picks the leftmost position where the pattern matches. |
| Functions.MatchDefinition | src/console/console.cpp:156-161 | The line has no match exactly when the pattern matches at no position. |
| Functions.TailOfCanonical | src/console/console.cpp:156 | In `) do BODY end`, the body group captures the body exactly. |
| Functions.ParamsLengthBefore | src/console/console.cpp:156 | The parameter group captures the full parameter text. |
| Functions.MatchHereOfSource | src/console/console.cpp:156-161 | A canonical definition matched at its start yields its name, parameters and body. |
| Functions.DefinitionRoundTrip | src/console/console.cpp:156-161 | Writing out a definition and parsing it gives it back. |
| Functions.RemoveSpaces | src/console/console.cpp:166 | The result has no whitespace and only characters of the input. |
| Functions.CleanParams | src/console/console.cpp:163-169 | Every parameter is non-empty, without whitespace or comma. |
| Functions.RemoveSpacesKeeps | src/console/console.cpp:166 | A name without whitespace is kept unchanged. |
| Functions.CleanPiecesKeeps | src/console/console.cpp:165-169 | Clean pieces pass through unchanged. |
| Functions.CleanParamsOfJoin | src/console/console.cpp:163-169 | Parsing comma-joined clean names gives the names back. |
| Functions.BlankPieceIsDropped | src/console/console.cpp:167-168 | A blank piece between commas yields no parameter. |
| Functions.BindFirst | src/console/console.cpp:195-196 | The bound names are exactly the first `n` parameters. |
| Functions.Bind | src/console/console.cpp:195-196 | The names bound are exactly the parameters that have an argument. |
| Functions.BindLastWins | src/console/console.cpp:195-196 | A repeated parameter name takes its last argument. |
| Functions.Format | src/console/console.cpp:200 | A value without `$` is inserted exactly as written. |
| Functions.DollarEscapes | src/console/console.cpp:200 | In a value, `$$` is one dollar sign, and `$x` stays as written. |
| Functions.DollarMatch | src/console/console.cpp:200 | In a value, `$&` and `$0` are replaced by the matched name. |
| Functions.DollarAround | src/console/console.cpp:200 | In a value, `` $` `` and `$'` are replaced by the text before and after the match. |
| Functions.DollarGroups | src/console/console.cpp:200 | In a value, `$1` and `$12` become empty, since the pattern has no groups. |
| Functions.ReplaceWord | src/console/console.cpp:200 | A text in which `\bNAME\b` matches nowhere comes back unchanged. |
| Functions.ReplaceWordSplits | src/console/console.cpp:200 | For a name made of word characters and a value without `$`, replacement never acts across a non-word character. |
| Functions.NameMatchesWholeText | src/console/console.cpp:200 | A name that begins and ends with word characters matches when it is the whole text, non-word characters inside included, and is replaced by the formatted value. |
| Functions.ReplaceWordWhole | src/console/console.cpp:200 | A single word matches exactly when it equals the name, and is then replaced by the formatted value. |
| Functions.ReplaceWordIdentity | src/console/console.cpp:200 | Replacing a name without `$` by itself changes nothing. |
| Functions.ReplaceWordExample | src/console/console.cpp:200 | For a value without `$`, only the whole-word occurrence in `/cmd p other` is replaced. |
| Functions.HyphenatedNameIsReplaced | src/console/console.cpp:200 | The parameter `x-y` is replaced where it is the whole text. |
| Functions.DollarAmpersandInsertsName | src/console/console.cpp:200 | An argument `<$&>` writes the matched name back between the brackets. |
| Functions.Expand | src/console/console.cpp:198-200 | When every name walked is bound to itself, and has no `$`, the body is unchanged. |
| Functions.ExpandOrderMatters | src/console/console.cpp:199-200 | With locals `a:=b`, `b:=c`, the expanded text depends on the order the map is walked. |
| Literals.NatToString | src/console/console.cpp:172 | `to_string` of a count is a non-empty string of digits. |
| Literals.ParseFloat | src/console/console.cpp:217 | `stof` succeeds exactly when a decimal number starts after optional blanks and a sign. |
| Literals.DigitsValueOfNatToString | src/console/console.cpp:172 | Reading back a printed count gives the count. |
| Literals.ParseFloatOfNatToString | src/console/console.cpp:297 | `stof` of a printed count is that count. |
| ObjLoader.GetLines | src/rendering/loaders/obj_loader.hpp:31 | The lines contain no line feed. |
| ObjLoader.GetLinesKeepsEmptyLines | src/rendering/loaders/obj_loader.hpp:31 | Each line feed ends exactly one line, so empty lines are kept. |
| ObjLoader.ExtractInt | src/rendering/loaders/obj_loader.hpp:62-65 | The read position only moves forward. End of input is reached exactly at the end. A failed read stores 0. |
| ObjLoader.ParseFaceVertex | src/rendering/loaders/obj_loader.hpp:59-65 | A definition without any digit reads as three zeros. |
| ObjLoader.Slashes | src/rendering/loaders/obj_loader.hpp:59 | Every slash becomes a blank and every other character is kept, at the same position. |
| ObjLoader.FaceVertexPositionOnly | src/rendering/loaders/obj_loader.hpp:59-65 | A printed number `p` alone reads as position `p`, with texture and normal 0. |
| ObjLoader.FaceVertexWithTexture | src/rendering/loaders/obj_loader.hpp:59-65 | `p/t` reads as position `p` and texture `t`, with normal 0. |
| ObjLoader.FaceVertexDoubleSlash | src/rendering/loaders/obj_loader.hpp:59-65 | `p//n` reads as position `p`, texture `n` and normal 0, for every `p` and `n`. |
| ObjLoader.FaceVertexFullForm | src/rendering/loaders/obj_loader.hpp:59-65 | `p/t/n` reads all three numbers, for every `p`, `t` and `n`. |
| ObjLoader.DoubleSlashReadsTexture | src/rendering/loaders/obj_loader.hpp:59-65 | `3//7` reads as position 3, texture 7 and normal 0: the empty field collapses. |
| ObjLoader.FullFormReadsAll | src/rendering/loaders/obj_loader.hpp:59-65 | `2/5/9` reads all three indices. |
| ObjLoader.MakeVertex | src/rendering/loaders/obj_loader.hpp:72-78 | The position is entry `vi` of the positions. The normal is present exactly when `ni` is in 1..count and is then entry `ni`. The texture coordinates follow the same rule for `ti`. |
| ObjLoader.FaceAppendsVertex | src/rendering/loaders/obj_loader.hpp:67-80 | A usable definition appends exactly its own vertex, and the face gains that vertex's index. |
| ObjLoader.FaceStep | src/rendering/loaders/obj_loader.hpp:67-80 | The lists only grow: by one vertex and one index exactly when the position index is in range, the index naming the new vertex and the vertex holding `positions[vi-1]`; otherwise nothing changes. |
| ObjLoader.AddFaceVertex | src/rendering/loaders/obj_loader.hpp:62-80 | The method leaves the vertex and index lists as `FaceStep` gives them. |
| ObjLoader.DoubleSlashVertex | src/rendering/loaders/obj_loader.hpp:59-80 | A `p//n` definition adds a vertex with no normal. It takes texture coordinates `n` when there are that many. |
| ObjLoader.Face | src/rendering/loaders/obj_loader.hpp:58-81 | Vertices are only appended, one per accepted definition, and the face lists their consecutive indices. |
| ObjLoader.Fan | src/rendering/loaders/obj_loader.hpp:84-88 | A face of n ≥ 3 vertices yields 3(n-2) indices, and smaller faces yield none. |
| ObjLoader.FanTriangles | src/rendering/loaders/obj_loader.hpp:84-88 | Triangle k is (first, k+1, k+2). |
| ObjLoader.FanInRange | src/rendering/loaders/obj_loader.hpp:84-88 | Triangulation only uses the face's own indices. |
| ObjLoader.QuadIsTwoTriangles | src/rendering/loaders/obj_loader.hpp:84-88 | A quad becomes the triangles (0,1,2) and (0,2,3). |
| ObjLoader.UnusableDefinitionIsSkipped | src/rendering/loaders/obj_loader.hpp:67-70 | A definition whose position index is out of range changes nothing. |
| ObjLoader.LineStep | src/rendering/loaders/obj_loader.hpp:31-89 | Every list only grows. At most one coordinate entry is added. Only an `f` line changes the vertices or indices, and it leaves the coordinate pools alone. |
| ObjLoader.LoadLines | src/rendering/loaders/obj_loader.hpp:31-90 | Every list only grows, by at most one coordinate entry per line. |
| ObjLoader.LineKinds | src/rendering/loaders/obj_loader.hpp:32-53 | Empty and `#` lines are skipped. `v`, `vn` and `vt` lines each append one coordinate entry to their pool. |
| ObjLoader.FaceLineCounts | src/rendering/loaders/obj_loader.hpp:54-89 | An `f` line leaves the coordinate pools alone and appends one vertex per accepted definition. |
| ObjLoader.LineKeepsIndicesInRange | src/rendering/loaders/obj_loader.hpp:31-90 | Every line keeps all indices pointing at existing vertices and adds only whole triangles. |
| ObjLoader.Load | src/rendering/loaders/obj_loader.hpp:17-97 | A file that cannot be opened gives the empty mesh. The loaded mesh's indices all name existing vertices and come in whole triangles. |
| ObjLoader.ReadFace | src/rendering/loaders/obj_loader.hpp:58-81 | The face loop produces exactly the vertices and indices of the face specification. |
| ObjLoader.AppendFan | src/rendering/loaders/obj_loader.hpp:84-88 | The triangulation loop appends exactly the fan of the face. |
| ObjLoader.ReadLine | src/rendering/loaders/obj_loader.hpp:32-89 | One pass of the line loop leaves exactly the pools the line specification gives: skipped lines change nothing, coordinate lines append, `f` lines add the face. |
| ObjLoader.LoadOBJ | src/rendering/loaders/obj_loader.hpp:17-97 | Returns the specified mesh: empty when the file cannot be opened, otherwise in range and in whole triangles. |
| Tokenizer.Split | src/console/console.cpp:358-367 | Every token is non-empty and contains no delimiter. |
| Tokenizer.SplitArgs | src/console/console.cpp:358-367 | The arguments are non-empty and free of the delimiter. Concatenated, they are the line with its delimiters removed. There are none exactly when the line is only delimiters. |
| Tokenizer.Words | src/console/console.cpp:243-246 | The words `>>` extracts are non-empty and hold no whitespace, their concatenation is the text without its whitespace, and there are none exactly when the text is all whitespace. |
| Tokenizer.SplitAtDelimiter | src/console/console.cpp:362-364 | A delimiter separates the tokens before it from those after it. |
| Tokenizer.SplitNoDelimiter | src/console/console.cpp:362-364 | A text without delimiter is one token. |
| Tokenizer.SplitEmptyIff | src/console/console.cpp:106-108 | No tokens exactly when the text is only delimiters. |
| Tokenizer.SplitSkipsDelimiterRuns | src/console/console.cpp:363 | Runs of delimiters, leading and trailing ones included, produce no empty tokens. |
| Tokenizer.SplitArgsExample | src/console/console.cpp:358-367 | `"  a   b "` splits into `a` and `b`. |
| Tokenizer.SplitJoinRoundTrip | src/console/console.cpp:358-367 | Splitting delimiter-joined tokens gives them back. |
| Tokenizer.SplitKeepsContent | src/console/console.cpp:358-367 | The tokens, concatenated, are the text with its delimiters removed. |

## Left out

- `Console::Draw` and `World::DrawAll`: rendering with ImGui and OpenGL. They have no state to model.
- `Console::WantsInput`: modelled as a plain reading of the activity flag, with no contract.
- `Console::ExecuteAsync`: a detached thread. Concurrency and the console's mutex are not modelled, and every operation is atomic.
- `Console::ExecuteFile`: file I/O. Only the `ExecuteScript` it ends in is modelled.
- Standard-output and standard-error messages of the console, world and loader are not modelled. The console's transcript is modelled.
- `EvaluateExpression` and `EvaluateNumericExpression` are modelled as functions over a snapshot of the world (`World.View()`). The unused `entityName` argument is dropped. The context entity becomes its attribute map.
- Floating-point rounding: floats are reals. Non-finite results are one value.
- Literals.ParseFloat: the `inf`, `infinity` and `nan` forms and hexadecimal literals of `stof` are not recognised. A numeric token such as `info` or `nanobot.hp` therefore counts as a name or a reference, where the source reads it as a non-finite number. `0x10` reads as 0 instead of 16. In `EvaluateCondition`, a literal such as `inf` raises in the model where the source compares against infinity. Overflow and underflow are not modelled either: `stof` throws `std::out_of_range` when `strtof` reports a range error, as for `1e50` or `1e-50`, and the model reads the exact real instead. In `EvaluateNumericExpression` the source then falls back to the reference or name lookup, where such a token counts as 0, so `5 / 1e-50` is non-finite in the source and `5e50` in the model. In `EvaluateCondition` the source throws where the model compares.
- `std::regex_error` and the regex engine as a whole: only the one definition pattern and the `\bNAME\b` replacement are modelled.
- Functions.ReplaceWord: the name is matched literally. A parameter name containing ECMAScript metacharacters (`^ $ \ . * + ? ( ) [ ] { } |`) is regex syntax in the source, or makes the pattern invalid and throws `std::regex_error`. Names with other non-word characters, such as `x-y`, are matched as the source matches them.
- ConsoleSystem.Console.ExpandLocals: inherits the literal-name reading of `Functions.ReplaceWord` for names with regex metacharacters. `$` sequences in argument values are expanded as in the source.
- ConsoleSystem.Console.CallFunction: inherits the literal-name reading of `Functions.ReplaceWord` for names with regex metacharacters.
- `RunningScripts` is never read or written by the console, so it is not modelled.
- `World::~World`, `SetCamera`, `GetCamera`, and entity transforms are not modelled.
- Integer overflow of `int`/`unsigned` indices in the OBJ loader is not modelled, since integers are unbounded.
- Building the GPU `Mesh` is not modelled. Coordinates are kept as the words after the prefix, and are not parsed to floats.
- A null `WorldPointer` is not modelled: the console always holds a world.
- Null entity handles in the world's list are not modelled: `AddEntity` refuses null.
- Command handlers other than the four built-ins are abstracted. Each one is the lines it logs and an optional exception message.
- Dispatch.RunHandler: every failure is a `std::exception` and is caught. A handler that throws anything else propagates out of `Execute` in the source, and the model has no such case.
- The order in which `unordered_map` walks the command table for `/help` is kept as the console's `helpOrder`, a permutation of the registered names. `RegisterDefaultCommands` appends new names to it rather than fixing one hash order.
- ImGui's input queue and key state are parameters of `Update`: the typed characters and the three keys.
- ConsoleSystem.Console.DecayLog: the ageing pass and the erasing pass are fused into one loop with the same result.
- ConsoleSystem.Console.ExpandLocals: the order in which the locals are substituted is existential, because the hash-map order is unspecified.
- Functions.BodyEndIsShortest: the regex `.` is taken not to cross a line terminator, so bodies and parameter lists are single-line.
- Relative (negative) OBJ indices are rejected like any other out-of-range index, as the code does.
