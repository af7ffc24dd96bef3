/** The console's expression evaluators, over a snapshot of the entity
    directory (`World.View()`): a dotted `entity.attribute` reference resolves
    the entity by name and reads the attribute numerically. */
module Evaluation {
  import opened Wrappers
  import opened Tokenizer
  import opened Attributes
  import opened Directory
  import opened Literals

  /** A float result: a real number, or one of the IEEE infinities and NaNs a
      division by zero produces. */
  datatype Num = Finite(r: real) | NonFinite

  /** `std::string::find(c)`: the first position of `c`. */
  function FindChar(s: string, c: char): (r: Option<nat>)
    ensures r.None? <==> c !in s
    ensures r.Some? ==> r.value < |s| && s[r.value] == c && c !in s[..r.value]
  {
    if s == [] then None
    else if s[0] == c then Some(0)
    else match FindChar(s[1..], c)
      case None => None
      case Some(i) => assert s[..i + 1] == [s[0]] + s[1..][..i]; Some(i + 1)
  }

  /** Numeric reading of a named attribute: Int or Float only. */
  function AttrReading(attrs: map<string, Value>, name: string): (r: Option<real>)
    ensures r.Some? <==> name in attrs && (attrs[name].Float? || attrs[name].Int?)
    ensures name in attrs && attrs[name].Float? ==> r == Some(attrs[name].f)
    ensures name in attrs && attrs[name].Int? ==> r == Some(attrs[name].i as real)
  {
    if name in attrs then NumericValue(attrs[name]) else None
  }

  /** The shared resolution primitive: `entity.attribute`, split at the first dot. */
  function Reading(dir: seq<EntityView>, ref: string): (r: Option<real>)
    ensures '.' !in ref ==> r.None?
  {
    match FindChar(ref, '.')
    case None => None
    case Some(dot) =>
      match Resolve(dir, ref[..dot])
      case None => None
      case Some(e) => AttrReading(e.attrs, ref[dot + 1..])
  }

  /** A reference `name.attr` with an undotted entity name reads `attr` of the entity `name` resolves to. */
  lemma ReadingAtFirstDot(dir: seq<EntityView>, name: string, attr: string)
    requires '.' !in name
    ensures Reading(dir, name + "." + attr)
            == if Resolve(dir, name).Some? then AttrReading(Resolve(dir, name).value.attrs, attr) else None
  {
    var ref := name + "." + attr;
    assert ref[|name|] == '.';
    var dot := FindChar(ref, '.').value;
    assert ref[..dot] == name;
    assert ref[dot + 1..] == attr;
  }

  function Compare(op: string, left: real, right: real): bool {
    if op == ">" then left > right
    else if op == "<" then left < right
    else if op == "==" then left == right
    else if op == "!=" then left != right
    else false
  }

  /** `EvaluateCondition(fullParam, op, value)`. The literal is parsed as soon as
      the entity is found, before the attribute is looked up, so a bad literal
      raises (`Err`) even when the attribute is missing. */
  function EvaluateCondition(dir: seq<EntityView>, fullParam: string, op: string, value: string): (r: Result<bool, string>)
    ensures r.Err? <==> '.' in fullParam && Resolve(dir, fullParam[..FindChar(fullParam, '.').value]).Some?
                         && ParseFloat(value).None?
    ensures r == Ok(true) <==> Reading(dir, fullParam).Some? && ParseFloat(value).Some?
                               && Compare(op, Reading(dir, fullParam).value, ParseFloat(value).value)
  {
    match FindChar(fullParam, '.')
    case None => Ok(false)
    case Some(dot) =>
      match Resolve(dir, fullParam[..dot])
      case None => Ok(false)
      case Some(entity) =>
        match ParseFloat(value)
        case None => Err("stof")
        case Some(right) =>
          match AttrReading(entity.attrs, fullParam[dot + 1..])
          case None => Ok(false)
          case Some(left) => Ok(Compare(op, left, right))
  }

  predicate IsKeyword(t: string) {
    t == "and" || t == "or" || t == "not"
  }

  /** A comparison clause that starts at `idx` with fewer than three tokens left. */
  predicate Truncated(toks: seq<string>, idx: nat) {
    idx < |toks| && !IsKeyword(toks[idx]) && idx + 2 >= |toks|
  }

  /** The clause at `i` is complete, and `std::stof` rejects its literal although
      its entity resolves: the only way evaluation raises. */
  predicate StofFailsAt(dir: seq<EntityView>, toks: seq<string>, i: nat) {
    i + 2 < |toks| && EvaluateCondition(dir, toks[i], toks[i + 1], toks[i + 2]).Err?
  }

  /** What one activation of the recursive `parse_expr` returns: its value and
      where it left the shared index. */
  datatype Parsed = Parsed(value: bool, next: nat)

  /** `parse_expr(idx, in_and)`: starts its loop with `result = true`. */
  function ParseExpr(dir: seq<EntityView>, toks: seq<string>, idx: nat, inAnd: bool): (r: Result<Parsed, string>)
    requires idx <= |toks|
    ensures r.Ok? ==> idx <= r.value.next <= |toks|
    ensures r.Ok? && inAnd ==> r.value.next == |toks| || (!r.value.value && Truncated(toks, r.value.next))
    ensures r.Err? ==> exists i :: idx <= i && StofFailsAt(dir, toks, i)
    decreases |toks| - idx, 1
  {
    Loop(dir, toks, idx, inAnd, true)
  }

  /** The `while (idx < tokens.size())` loop of `parse_expr`, with `result` so far.
      `and`/`or` short-circuit the recursive call exactly as C++'s `&&`/`||` do,
      a comparison overwrites `result`, and a frame that is not `in_and` stops
      after one step. */
  function Loop(dir: seq<EntityView>, toks: seq<string>, idx: nat, inAnd: bool, result: bool): (r: Result<Parsed, string>)
    requires idx <= |toks|
    ensures r.Ok? ==> idx <= r.value.next <= |toks|
    ensures r.Ok? && inAnd ==> r.value.next == |toks| || (!r.value.value && Truncated(toks, r.value.next))
    ensures r.Err? ==> exists i :: idx <= i && StofFailsAt(dir, toks, i)
    decreases |toks| - idx, 0
  {
    if idx == |toks| then Ok(Parsed(result, idx))
    else
      var t := toks[idx];
      if t == "and" && !result then
        if inAnd then Loop(dir, toks, idx + 1, inAnd, false) else Ok(Parsed(false, idx + 1))
      else if t == "or" && result then
        if inAnd then Loop(dir, toks, idx + 1, inAnd, true) else Ok(Parsed(true, idx + 1))
      else if IsKeyword(t) then
        match ParseExpr(dir, toks, idx + 1, t == "and" || t == "not")
        case Err(e) => Err(e)
        case Ok(p) =>
          var v := if t == "not" then !p.value else p.value;
          if inAnd then Loop(dir, toks, p.next, inAnd, v) else Ok(Parsed(v, p.next))
      else if idx + 2 >= |toks| then Ok(Parsed(false, idx))
      else
        match EvaluateCondition(dir, t, toks[idx + 1], toks[idx + 2])
        case Err(e) => assert StofFailsAt(dir, toks, idx); Err(e)
        case Ok(b) =>
          if inAnd then Loop(dir, toks, idx + 3, inAnd, b) else Ok(Parsed(b, idx + 3))
  }

  /** `EvaluateExpression(entityName, expression)`; the entity name is unused by
      the evaluator, so it is not a parameter here. `Err` is the exception
      `std::stof` raises through it. */
  function EvaluateExpression(dir: seq<EntityView>, expression: string): (r: Result<bool, string>)
    ensures r.Err? ==> exists i :: StofFailsAt(dir, Words(expression), i)
    ensures (forall i :: 0 <= i < |Words(expression)| ==> '.' !in Words(expression)[i]) ==> r.Ok?
  {
    match ParseExpr(dir, Words(expression), 0, true)
    case Err(e) => Err(e)
    case Ok(p) => Ok(p.value)
  }

  /** An empty (or blank) expression is true. */
  lemma EmptyExpressionIsTrue(dir: seq<EntityView>, expression: string)
    requires forall i :: 0 <= i < |expression| ==> IsSpace(expression[i])
    ensures EvaluateExpression(dir, expression) == Ok(true)
  {
    SplitEmptyIff(expression, Whitespace);
    assert Words(expression) == [];
    assert Loop(dir, [], 0, true, true) == Ok(Parsed(true, 0));
  }

  /** A true result consumed every token; a parse that stops early stopped at a
      comparison with fewer than three tokens left, and then the whole
      expression is false. */
  lemma TrueConsumesEverything(dir: seq<EntityView>, expression: string)
    ensures var toks := Words(expression);
            match ParseExpr(dir, toks, 0, true)
            case Ok(p) => (p.value ==> p.next == |toks|) && (p.next < |toks| ==> !p.value && Truncated(toks, p.next))
            case Err(_) => true
  {
  }

  /** A complete comparison clause `ref op literal`. */
  predicate IsClause(c: seq<string>) {
    |c| == 3 && !IsKeyword(c[0])
  }

  function ClauseValue(dir: seq<EntityView>, c: seq<string>): (r: Result<bool, string>)
    requires |c| == 3
    ensures r.Err? ==> '.' in c[0] && ParseFloat(c[2]).None?
    ensures r == Ok(true) <==> Reading(dir, c[0]).Some? && ParseFloat(c[2]).Some?
                               && Compare(c[1], Reading(dir, c[0]).value, ParseFloat(c[2]).value)
  {
    EvaluateCondition(dir, c[0], c[1], c[2])
  }

  /** Two clauses joined by `and` or by `or` evaluate to the second clause,
      whatever the first one gave: after a false left side `and` skips the
      call without advancing past the clause, and after a true left side `or`
      does the same, so the next clause is evaluated at the outer level and
      overwrites the result. */
  lemma {:induction false} TwoClausesGiveTheSecond(dir: seq<EntityView>, c1: seq<string>, conj: string, c2: seq<string>)
    requires IsClause(c1) && IsClause(c2) && (conj == "and" || conj == "or")
    requires ClauseValue(dir, c1).Ok?
    ensures var toks := c1 + [conj] + c2;
            match ParseExpr(dir, toks, 0, true)
            case Ok(p) => ClauseValue(dir, c2) == Ok(p.value) && p.next == 7
            case Err(e) => ClauseValue(dir, c2) == Err(e)
  {
    var toks := c1 + [conj] + c2;
    assert toks[..3] == c1 && toks[4..] == c2 && toks[3] == conj;
    var b1 := ClauseValue(dir, c1).value;
    assert Loop(dir, toks, 0, true, true) == Loop(dir, toks, 3, true, b1);
    var second := ClauseValue(dir, c2);
    var r4t := Loop(dir, toks, 4, true, b1);
    var r4f := Loop(dir, toks, 4, false, true);
    if second.Ok? {
      assert Loop(dir, toks, 7, true, second.value) == Ok(Parsed(second.value, 7));
      assert Loop(dir, toks, 7, true, b1 || second.value) == Ok(Parsed(b1 || second.value, 7));
      assert r4t == Ok(Parsed(second.value, 7));
      assert r4f == Ok(Parsed(second.value, 7));
    } else {
      assert r4t == Err(second.error);
      assert r4f == Err(second.error);
    }
    if conj == "and" {
      if b1 {
        assert ParseExpr(dir, toks, 4, true) == Loop(dir, toks, 4, true, true);
      }
    } else {
      if !b1 {
        assert ParseExpr(dir, toks, 4, false) == r4f;
      }
    }
  }

  /** A leading `not` negates everything that follows it, not just the next clause. */
  lemma NotNegatesTheRest(dir: seq<EntityView>, toks: seq<string>)
    requires |toks| > 0 && toks[0] == "not"
    requires ParseExpr(dir, toks, 1, true).Ok? && ParseExpr(dir, toks, 1, true).value.next == |toks|
    ensures ParseExpr(dir, toks, 0, true) == Ok(Parsed(!ParseExpr(dir, toks, 1, true).value.value, |toks|))
  {
    var v := !ParseExpr(dir, toks, 1, true).value.value;
    assert Loop(dir, toks, |toks|, true, v) == Ok(Parsed(v, |toks|));
  }

  /** `EvaluateNumericExpression`'s operator tokens. */
  predicate IsOperator(t: string) {
    t == "+" || t == "-" || t == "*" || t == "/"
  }

  /** `result op= val` in float arithmetic: division by zero leaves the reals,
      and an infinity or NaN stays one under every further step with a finite operand. */
  function Apply(op: string, acc: Num, v: real): (r: Num)
    ensures acc.NonFinite? ==> r.NonFinite?
    ensures r.NonFinite? ==> acc.NonFinite? || (op == "/" && v == 0.0)
  {
    match acc
    case NonFinite => NonFinite
    case Finite(a) =>
      if op == "+" then Finite(a + v)
      else if op == "-" then Finite(a - v)
      else if op == "*" then Finite(a * v)
      else if op == "/" then (if v == 0.0 then NonFinite else Finite(a / v))
      else acc
  }

  /** The value a token contributes: a literal; else a dotted reference; else,
      only with a context entity, that entity's attribute; 0 when unresolved. */
  function TokenValue(dir: seq<EntityView>, context: Option<map<string, Value>>, t: string): (v: real)
    ensures ParseFloat(t).Some? ==> v == ParseFloat(t).value
    ensures v == 0.0 || ParseFloat(t) == Some(v) || Reading(dir, t) == Some(v)
            || (context.Some? && AttrReading(context.value, t) == Some(v))
  {
    match ParseFloat(t)
    case Some(v) => v
    case None =>
      if '.' in t then
        match Reading(dir, t) case Some(v) => v case None => 0.0
      else
        match context
        case None => 0.0
        case Some(attrs) => match AttrReading(attrs, t) case Some(v) => v case None => 0.0
  }

  /** The `for` loop over the tokens, carrying `result` and the pending `op`:
      apply the pending operator to the value, then take the next token as the
      new operator when it is one. */
  function Fold(dir: seq<EntityView>, context: Option<map<string, Value>>, toks: seq<string>, result: Num, op: string): (r: Num)
    ensures r.NonFinite? ==> result.NonFinite? || op == "/" || exists i :: 0 <= i < |toks| && toks[i] == "/"
    decreases |toks|
  {
    if toks == [] then result
    else
      var acc := Apply(op, result, TokenValue(dir, context, toks[0]));
      if |toks| > 1 && IsOperator(toks[1]) then
        var r := Fold(dir, context, toks[2..], acc, toks[1]);
        assert forall i :: 0 <= i < |toks| - 2 ==> toks[2..][i] == toks[i + 2];
        r
      else
        var r := Fold(dir, context, toks[1..], acc, op);
        assert forall i :: 0 <= i < |toks| - 1 ==> toks[1..][i] == toks[i + 1];
        r
  }

  /** `EvaluateNumericExpression(expression, entity = nullptr)`. It never raises:
      a token `std::stof` rejects is resolved instead, or counts as 0. */
  function EvaluateNumericExpression(dir: seq<EntityView>, expression: string,
                                     context: Option<map<string, Value>> := None): (r: Num)
    ensures r.NonFinite? ==> exists i :: 0 <= i < |Words(expression)| && Words(expression)[i] == "/"
  {
    Fold(dir, context, Words(expression), Finite(0.0), "+")
  }

  /** One `operator operand` step of a well-formed expression. */
  datatype Step = Step(op: string, operand: string)

  function StepTokens(steps: seq<Step>): seq<string> {
    if steps == [] then [] else [steps[0].op, steps[0].operand] + StepTokens(steps[1..])
  }

  predicate WellFormed(steps: seq<Step>) {
    forall i :: 0 <= i < |steps| ==> IsOperator(steps[i].op) && !IsOperator(steps[i].operand)
  }

  /** Reference semantics: apply each step to the running value, left to right,
      with no precedence between operators. */
  function LeftToRight(dir: seq<EntityView>, context: Option<map<string, Value>>, acc: Num, steps: seq<Step>): Num
    decreases |steps|
  {
    if steps == [] then acc
    else
      var s := steps[0];
      LeftToRight(dir, context, Apply(s.op, acc, TokenValue(dir, context, s.operand)), steps[1..])
  }

  /** A well-formed expression `v0 op1 v1 ... opn vn` evaluates as the strict
      left-to-right fold `((0 + v0) op1 v1) ... opn vn`. */
  lemma {:induction false} NumericIsLeftToRight(dir: seq<EntityView>, context: Option<map<string, Value>>,
                                                first: string, steps: seq<Step>)
    requires !IsOperator(first) && WellFormed(steps)
    ensures Fold(dir, context, [first] + StepTokens(steps), Finite(0.0), "+")
         == LeftToRight(dir, context, Finite(TokenValue(dir, context, first)), steps)
  {
    FoldSteps(dir, context, first, steps, Finite(0.0), "+");
  }

  lemma {:induction false} FoldSteps(dir: seq<EntityView>, context: Option<map<string, Value>>,
                                     first: string, steps: seq<Step>, acc: Num, op: string)
    requires WellFormed(steps)
    ensures Fold(dir, context, [first] + StepTokens(steps), acc, op)
         == LeftToRight(dir, context, Apply(op, acc, TokenValue(dir, context, first)), steps)
    decreases |steps|
  {
    var toks := [first] + StepTokens(steps);
    var acc' := Apply(op, acc, TokenValue(dir, context, first));
    if steps == [] {
      assert toks[1..] == [];
    } else {
      var s := steps[0];
      var rest := [s.operand] + StepTokens(steps[1..]);
      assert toks == [first, s.op] + rest;
      FoldOperatorStep(dir, context, first, s.op, rest, acc, op);
      FoldSteps(dir, context, s.operand, steps[1..], acc', s.op);
    }
  }

  /** A value followed by an operator: the value is applied and the
      operator becomes the pending one. */
  lemma FoldOperatorStep(dir: seq<EntityView>, context: Option<map<string, Value>>,
                         v: string, o: string, rest: seq<string>, acc: Num, op: string)
    requires IsOperator(o)
    ensures Fold(dir, context, [v, o] + rest, acc, op)
         == Fold(dir, context, rest, Apply(op, acc, TokenValue(dir, context, v)), o)
  {
    assert ([v, o] + rest)[2..] == rest;
  }

  /** Two values in a row: the second reuses the operator that applied to the first. */
  lemma MissingOperatorRepeatsLast(dir: seq<EntityView>, context: Option<map<string, Value>>,
                                   v1: string, v2: string, rest: seq<string>, acc: Num, op: string)
    requires !IsOperator(v2) && (rest == [] || !IsOperator(rest[0]))
    ensures Fold(dir, context, [v1, v2] + rest, acc, op)
         == Fold(dir, context, rest, Apply(op, Apply(op, acc, TokenValue(dir, context, v1)), TokenValue(dir, context, v2)), op)
  {
    var toks := [v1, v2] + rest;
    assert toks[1..] == [v2] + rest;
    assert ([v2] + rest)[1..] == rest;
  }

  /** Without a context entity a bare name (no dot, not a literal) counts as 0. */
  lemma BareNameWithoutContextIsZero(dir: seq<EntityView>, t: string)
    requires ParseFloat(t).None? && '.' !in t
    ensures TokenValue(dir, None, t) == 0.0
  {
  }

  /** A token that is neither a literal nor a reference that resolves to a
      numeric attribute counts as 0. */
  lemma UnresolvedTokenIsZero(dir: seq<EntityView>, context: Option<map<string, Value>>, t: string)
    requires ParseFloat(t).None?
    requires '.' in t ==> Reading(dir, t).None?
    requires '.' !in t && context.Some? ==> AttrReading(context.value, t).None?
    ensures TokenValue(dir, context, t) == 0.0
  {
  }

  /** An empty (or blank) expression is 0. */
  lemma {:induction false} EmptyNumericIsZero(dir: seq<EntityView>, e: string, context: Option<map<string, Value>>)
    requires forall i :: 0 <= i < |e| ==> IsSpace(e[i])
    ensures EvaluateNumericExpression(dir, e, context) == Finite(0.0)
  {
    SplitEmptyIff(e, Whitespace);
  }

  /** Without a `/` token the result is always a real number. */
  lemma NoDivisionStaysFinite(dir: seq<EntityView>, context: Option<map<string, Value>>, expression: string)
    requires forall i :: 0 <= i < |Words(expression)| ==> Words(expression)[i] != "/"
    ensures EvaluateNumericExpression(dir, expression, context).Finite?
  {
  }

  /** A single decimal digit is read as a literal by `std::stof`. */
  lemma DigitLiteral(n: nat, t: string)
    requires n < 10 && t == NatToString(n)
    ensures TokenValue([], None, t) == n as real
  {
    ParseFloatOfNatToString(n);
  }

  lemma WordsOfSum()
    ensures Words("2 + 3 * 4") == ["2", "+", "3", "*", "4"]
  {
    var ws := ["2", "+", "3", "*", "4"];
    assert Join(ws, ' ') == "2 + 3 * 4";
    SplitJoinRoundTrip(ws, ' ', Whitespace);
  }

  lemma WordsOfQuotient()
    ensures Words("5 / 0") == ["5", "/", "0"]
  {
    var ws := ["5", "/", "0"];
    assert Join(ws, ' ') == "5 / 0";
    SplitJoinRoundTrip(ws, ' ', Whitespace);
  }

  /** Three operands joined by `+` then `*` fold strictly left to right. */
  lemma SumThenProduct(dir: seq<EntityView>, expression: string, a: string, b: string, c: string)
    requires Words(expression) == [a, "+", b, "*", c]
    ensures EvaluateNumericExpression(dir, expression)
         == Apply("*", Apply("+", Apply("+", Finite(0.0), TokenValue(dir, None, a)), TokenValue(dir, None, b)), TokenValue(dir, None, c))
  {
    var toks := Words(expression);
    var s1 := Apply("+", Finite(0.0), TokenValue(dir, None, a));
    var s2 := Apply("+", s1, TokenValue(dir, None, b));
    var s3 := Apply("*", s2, TokenValue(dir, None, c));
    assert toks[2..] == [b, "*", c];
    assert toks[2..][2..] == [c];
    assert Fold(dir, None, [c], s2, "*") == Fold(dir, None, [], s3, "*");
    assert Fold(dir, None, [b, "*", c], s1, "+") == Fold(dir, None, [c], s2, "*");
    assert Fold(dir, None, toks, Finite(0.0), "+") == Fold(dir, None, [b, "*", c], s1, "+");
  }

  /** `"2 + 3 * 4"` is 20, not 14: no operator precedence. */
  lemma NumericExample(e: string)
    requires e == "2 + 3 * 4"
    ensures EvaluateNumericExpression([], e) == Finite(20.0)
  {
    WordsOfSum();
    ExampleDigits();
    SumThenProduct([], e, "2", "3", "4");
    ExampleArithmetic();
  }

  lemma ExampleDigits()
    ensures TokenValue([], None, "2") == 2.0 && TokenValue([], None, "3") == 3.0
            && TokenValue([], None, "4") == 4.0
  {
    DigitLiteral(2, "2");
    DigitLiteral(3, "3");
    DigitLiteral(4, "4");
  }

  lemma ExampleArithmetic()
    ensures Apply("*", Apply("+", Apply("+", Finite(0.0), 2.0), 3.0), 4.0) == Finite(20.0)
  {
    assert Apply("+", Finite(0.0), 2.0) == Finite(2.0);
    assert Apply("+", Finite(2.0), 3.0) == Finite(5.0);
  }

  /** One operand divided by another whose value is 0. */
  lemma QuotientByZero(dir: seq<EntityView>, expression: string, a: string, b: string)
    requires Words(expression) == [a, "/", b]
    requires !IsOperator(a) && !IsOperator(b) && TokenValue(dir, None, b) == 0.0
    ensures EvaluateNumericExpression(dir, expression) == NonFinite
  {
    var steps := [Step("/", b)];
    var x := TokenValue(dir, None, a);
    assert EvaluateNumericExpression(dir, expression) == LeftToRight(dir, None, Finite(x), steps) by {
      assert StepTokens(steps) == ["/", b];
      assert Words(expression) == [a] + StepTokens(steps);
      NumericIsLeftToRight(dir, None, a, steps);
    }
    assert LeftToRight(dir, None, Finite(x), steps) == NonFinite by {
      assert steps[1..] == [];
    }
  }

  /** `"5 / 0"` does not raise; it yields an IEEE infinity. */
  lemma DivisionByZeroExample()
    ensures EvaluateNumericExpression([], "5 / 0") == NonFinite
  {
    WordsOfQuotient();
    DigitLiteral(0, "0");
    QuotientByZero([], "5 / 0", "5", "0");
  }
}
