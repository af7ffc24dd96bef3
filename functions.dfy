/** Script functions: the `function NAME(params) do BODY end` definition syntax
    (matched the way `std::regex_search` with an ECMAScript pattern does),
    parameter-list cleaning, argument binding and whole-word substitution. */
module Functions {
  import opened Wrappers
  import opened Tokenizer
  import opened Literals

  /** What the definition pattern captures. */
  datatype Definition = Definition(name: string, paramText: string, body: string)

  /** `ScriptFunction`: the stored parameter names and body. */
  datatype ScriptFunction = ScriptFunction(params: seq<string>, body: string)

  /** `\w`: letters, digits and underscore. */
  predicate IsWordChar(c: char) {
    ('a' <= c <= 'z') || ('A' <= c <= 'Z') || ('0' <= c <= '9') || c == '_'
  }

  /** The characters `.` does not match. */
  predicate IsLineTerminator(c: char) {
    c == '\n' || c == '\r'
  }

  predicate IsWord(s: string) {
    |s| > 0 && forall i :: 0 <= i < |s| ==> IsWordChar(s[i])
  }

  predicate OnOneLine(s: string) {
    forall i :: 0 <= i < |s| ==> !IsLineTerminator(s[i])
  }

  /** End of the maximal run of word characters starting at `i` (greedy `\w+`). */
  function WordsEnd(s: string, i: nat): (k: nat)
    requires i <= |s|
    ensures i <= k <= |s|
    ensures forall j :: i <= j < k ==> IsWordChar(s[j])
    ensures k < |s| ==> !IsWordChar(s[k])
    decreases |s| - i
  {
    if i < |s| && IsWordChar(s[i]) then WordsEnd(s, i + 1) else i
  }

  predicate StartsWith(t: string, lit: string) {
    |lit| <= |t| && t[..|lit|] == lit
  }

  /** `\s*end` matches at position `i` of `t`. */
  predicate EndAt(t: string, i: nat)
    requires i <= |t|
  {
    StartsWith(t[SpacesEnd(t, i)..], "end")
  }

  /** The lazy `(.*?)\s*end` from position `i` of `t`: where the shortest
      one-line body after which `\s*end` matches ends. */
  function BodyEnd(t: string, i: nat): (r: Option<nat>)
    requires i <= |t|
    ensures r.Some? ==> i <= r.value <= |t|
    decreases |t| - i
  {
    if EndAt(t, i) then Some(i)
    else if i < |t| && !IsLineTerminator(t[i]) then BodyEnd(t, i + 1)
    else None
  }

  /** The lazy group takes the shortest one-line body after which `\s*end`
      matches, and fails only when there is none. */
  lemma {:induction false} BodyEndIsShortest(t: string, i: nat)
    requires i <= |t|
    ensures BodyEnd(t, i).Some? ==>
              var e := BodyEnd(t, i).value;
              EndAt(t, e) && forall j :: i <= j < e ==> !EndAt(t, j) && !IsLineTerminator(t[j])
    ensures BodyEnd(t, i).None? ==>
              forall e :: i <= e <= |t| && (forall j :: i <= j < e ==> !IsLineTerminator(t[j])) ==> !EndAt(t, e)
  {
    BodyEndFound(t, i);
    BodyEndMissing(t, i);
  }

  lemma {:induction false} BodyEndFound(t: string, i: nat)
    requires i <= |t|
    ensures BodyEnd(t, i).Some? ==>
              var e := BodyEnd(t, i).value;
              EndAt(t, e) && forall j :: i <= j < e ==> !EndAt(t, j) && !IsLineTerminator(t[j])
    decreases |t| - i
  {
    if !EndAt(t, i) && i < |t| && !IsLineTerminator(t[i]) {
      BodyEndFound(t, i + 1);
    }
  }

  lemma {:induction false} BodyEndMissing(t: string, i: nat)
    requires i <= |t|
    ensures BodyEnd(t, i).None? ==>
              forall e :: i <= e <= |t| && (forall j :: i <= j < e ==> !IsLineTerminator(t[j])) ==> !EndAt(t, e)
    decreases |t| - i
  {
    if !EndAt(t, i) && i < |t| && !IsLineTerminator(t[i]) {
      BodyEndMissing(t, i + 1);
    }
  }

  /** `\)\s+do\s*(.*?)\s*end` at the start of `t`: where the body starts and
      where it ends. */
  function Tail(t: string): (r: Option<(nat, nat)>)
    ensures r.Some? ==> t != [] && t[0] == ')' && r.value.0 <= r.value.1 <= |t|
  {
    if t != [] && t[0] == ')' then
      var w := SpacesEnd(t, 1);
      if w > 1 && StartsWith(t[w..], "do") then
        var b := SpacesEnd(t, w + 2);
        match BodyEnd(t, b)
        case Some(e) => Some((b, e))
        case None => None
      else None
    else None
  }

  /** The lazy `(.*?)` of the parameter list at the start of `t`: the length
      of the shortest one-line text after which the tail matches. */
  function ParamsLength(t: string): (r: Option<nat>)
    ensures r.Some? ==> r.value <= |t| && Tail(t[r.value..]).Some?
    ensures r.Some? && r.value > 0 ==> Tail(t).None? && !IsLineTerminator(t[0])
  {
    if Tail(t).Some? then Some(0)
    else if t != [] && !IsLineTerminator(t[0]) then
      match ParamsLength(t[1..])
      case None => None
      case Some(n) =>
        assert t[1..][n..] == t[n + 1..];
        Some(n + 1)
    else None
  }

  lemma WordSlice(t: string, w: nat, q: nat)
    requires w < q <= |t| && forall j :: w <= j < q ==> IsWordChar(t[j])
    ensures IsWord(t[w..q])
  {
    forall n | 0 <= n < q - w
      ensures IsWordChar(t[w..q][n])
    {
      assert t[w..q][n] == t[w + n];
    }
  }

  /** The whole pattern `function\s+(\w+)\((.*?)\)\s+do\s*(.*?)\s*end` at the
      start of `t`. */
  function MatchHere(t: string): (r: Option<Definition>)
    ensures r.Some? ==> IsWord(r.value.name)
  {
    if StartsWith(t, "function") then
      var w := SpacesEnd(t, 8);
      var q := WordsEnd(t, w);
      if w > 8 && q > w && q < |t| && t[q] == '(' then
        var rest := t[q + 1..];
        match ParamsLength(rest)
        case None => None
        case Some(k) =>
          var tail := rest[k..];
          var range := Tail(tail).value;
          WordSlice(t, w, q);
          Some(Definition(t[w..q], rest[..k], tail[range.0..range.1]))
      else None
    else None
  }

  predicate MatchesAt(s: string, q: nat)
    requires q <= |s|
  {
    MatchHere(s[q..]).Some?
  }

  /** `std::regex_search`: the leftmost position from `p` on where the
      pattern matches. */
  function Leftmost(s: string, p: nat): (r: Option<nat>)
    requires p <= |s|
    ensures r.Some? ==> p <= r.value <= |s| && MatchesAt(s, r.value)
    ensures r.Some? ==> forall q :: p <= q < r.value ==> !MatchesAt(s, q)
    ensures r.None? ==> forall q :: p <= q <= |s| ==> !MatchesAt(s, q)
    decreases |s| - p
  {
    if MatchesAt(s, p) then Some(p)
    else if p < |s| then Leftmost(s, p + 1)
    else None
  }

  /** The definition a command line holds: the match at the leftmost
      position that has one. */
  function MatchDefinition(line: string): (r: Option<Definition>)
    ensures r.Some? ==> IsWord(r.value.name)
    ensures r.None? <==> forall q :: 0 <= q <= |line| ==> !MatchesAt(line, q)
  {
    match Leftmost(line, 0)
    case Some(q) => MatchHere(line[q..])
    case None => None
  }

  /** The canonical way to write a definition. */
  function Source(d: Definition): string {
    "function " + d.name + "(" + d.paramText + ") do " + d.body + " end"
  }

  /** A body the pattern reads back whole: one line, no leading blank, and
      no `end` (after optional blanks) anywhere before its own end. */
  predicate PlainBody(body: string) {
    OnOneLine(body) && (body == [] || !IsSpace(body[0]))
    && forall k :: 0 <= k < |body| ==> !EndAt(body + " end", k)
  }

  // ---- lemmas about the matcher ----

  lemma {:induction false} WordsEndOf(s: string, i: nat, n: nat)
    requires i + n <= |s|
    requires forall j :: i <= j < i + n ==> IsWordChar(s[j])
    requires i + n == |s| || !IsWordChar(s[i + n])
    ensures WordsEnd(s, i) == i + n
    decreases n
  {
    if n > 0 {
      WordsEndOf(s, i + 1, n - 1);
    }
  }

  /** A plain body followed by ` end` is matched whole by the lazy body group. */
  lemma {:induction false} BodyEndOfPlain(body: string, k: nat)
    requires k <= |body| && PlainBody(body)
    ensures BodyEnd(body + " end", k) == Some(|body|)
    decreases |body| - k
  {
    var u := body + " end";
    if k == |body| {
      assert SpacesEnd(u, k) == k + 1;
      assert u[k + 1..] == "end";
    } else {
      assert u[k] == body[k];
      BodyEndOfPlain(body, k + 1);
    }
  }

  lemma {:induction false} SpacesEndShift(p: string, u: string, i: nat)
    requires i <= |u|
    ensures SpacesEnd(p + u, |p| + i) == |p| + SpacesEnd(u, i)
    decreases |u| - i
  {
    if i < |u| {
      assert (p + u)[|p| + i] == u[i];
      SpacesEndShift(p, u, i + 1);
    }
  }

  lemma EndAtShift(p: string, u: string, i: nat)
    requires i <= |u|
    ensures EndAt(p + u, |p| + i) == EndAt(u, i)
  {
    SpacesEndShift(p, u, i);
    assert (p + u)[|p| + SpacesEnd(u, i)..] == u[SpacesEnd(u, i)..];
  }

  /** The body group reads a text the same way whatever precedes it. */
  lemma {:induction false} BodyEndShift(p: string, u: string, i: nat)
    requires i <= |u|
    ensures BodyEnd(p + u, |p| + i) == match BodyEnd(u, i) case Some(e) => Some(|p| + e) case None => None
    decreases |u| - i
  {
    EndAtShift(p, u, i);
    if !EndAt(u, i) && i < |u| {
      BodyEndShift(p, u, i + 1);
      BodyEndShiftStep(p, u, i);
    }
  }

  lemma BodyEndShiftStep(p: string, u: string, i: nat)
    requires i < |u| && !EndAt(u, i) && !EndAt(p + u, |p| + i)
    ensures BodyEnd(p + u, |p| + i) == (if IsLineTerminator(u[i]) then None else BodyEnd(p + u, |p| + i + 1))
    ensures BodyEnd(u, i) == (if IsLineTerminator(u[i]) then None else BodyEnd(u, i + 1))
  {
    assert (p + u)[|p| + i] == u[i];
  }

  lemma CanonicalTailPieces(body: string)
    ensures var u := ") do " + body + " end";
            u[0] == ')' && u[1] == ' ' && u[2] == 'd' && u[4] == ' ' && u[2..][..2] == "do"
            && u[5..] == body + " end" && (body != [] ==> u[5] == body[0])
            && (body == [] ==> u[5] == ' ' && u[6] == 'e' && u[6..] == "end")
  {
  }

  lemma {:induction false} TailOfCanonicalEmpty(u: string)
    requires u == ") do  end"
    ensures Tail(u) == Some((6, 6))
  {
    EmptyTailPieces(u);
    EmptyTailEnd(u);
  }

  lemma EmptyTailPieces(u: string)
    requires u == ") do  end"
    ensures u != [] && u[0] == ')' && SpacesEnd(u, 1) == 2 && StartsWith(u[2..], "do")
  {
    assert u[1] == ' ' && u[2] == 'd';
    assert u[2..][..2] == "do";
  }

  lemma EmptyTailEnd(u: string)
    requires u == ") do  end"
    ensures SpacesEnd(u, 4) == 6 && EndAt(u, 6)
  {
    assert u[4] == ' ' && u[5] == ' ' && u[6] == 'e';
    assert SpacesEnd(u, 6) == 6;
    assert u[6..][..3] == "end";
  }

  lemma {:induction false} TailOfCanonicalBody(body: string)
    requires PlainBody(body) && body != []
    ensures var u := ") do " + body + " end";
            Tail(u) == Some((5, 5 + |body|))
  {
    var u := ") do " + body + " end";
    CanonicalTailPieces(body);
    assert SpacesEnd(u, 1) == 2;
    assert SpacesEnd(u, 4) == SpacesEnd(u, 5) == 5;
    assert u == ") do " + (body + " end");
    BodyEndOfPlain(body, 0);
    BodyEndShift(") do ", body + " end", 0);
  }

  /** `) do BODY end`: the tail matches and captures BODY. */
  lemma TailOfCanonical(body: string)
    requires PlainBody(body)
    ensures var u := ") do " + body + " end";
            Tail(u).Some? && u[Tail(u).value.0..Tail(u).value.1] == body
  {
    var u := ") do " + body + " end";
    CanonicalTailPieces(body);
    if body == [] {
      TailOfCanonicalEmpty(u);
    } else {
      TailOfCanonicalBody(body);
      assert u[5..5 + |body|] == u[5..][..|body|];
      assert (body + " end")[..|body|] == body;
    }
  }

  lemma ParamsTailPieces(params: string, tail: string)
    requires params != []
    ensures (params + tail)[0] == params[0] && (params + tail)[1..] == params[1..] + tail
  {
  }

  lemma PlainParamsRest(params: string)
    requires params != [] && OnOneLine(params) && ')' !in params
    ensures OnOneLine(params[1..]) && ')' !in params[1..]
    ensures params[0] != ')' && !IsLineTerminator(params[0])
  {
    assert params[0] in params;
    forall c | c in params[1..] ensures c in params { }
    forall i | 0 <= i < |params[1..]| ensures !IsLineTerminator(params[1..][i]) {
      assert params[1..][i] == params[i + 1];
    }
  }

  /** The lazy group stops at the first place where the tail matches; a
      one-line text without `)` before a matching tail is taken whole. */
  lemma {:induction false} ParamsLengthBefore(params: string, u: string)
    requires OnOneLine(params) && ')' !in params && Tail(u).Some?
    ensures ParamsLength(params + u) == Some(|params|)
    decreases |params|
  {
    var t := params + u;
    if params == [] {
      assert t == u;
    } else {
      ParamsTailPieces(params, u);
      PlainParamsRest(params);
      assert Tail(t).None?;
      ParamsLengthBefore(params[1..], u);
    }
  }

  lemma CanonicalPieces(params: string, body: string)
    ensures params + ") do " + body + " end" == params + (") do " + body + " end")
  {
  }

  /** A one-line parameter list without `)` is matched whole by the lazy group. */
  lemma ParamsLengthOfPlain(params: string, body: string)
    requires OnOneLine(params) && ')' !in params && PlainBody(body)
    ensures ParamsLength(params + ") do " + body + " end") == Some(|params|)
  {
    TailOfCanonical(body);
    CanonicalPieces(params, body);
    ParamsLengthBefore(params, ") do " + body + " end");
  }

  lemma SourcePieces(d: Definition)
    ensures var s := Source(d);
            s[..8] == "function" && s[8] == ' ' && |s| > 9 + |d.name|
            && s[9..9 + |d.name|] == d.name && s[9 + |d.name|] == '('
            && s[10 + |d.name|..] == d.paramText + ") do " + d.body + " end"
            && (d.name != [] ==> s[9] == d.name[0])
  {
  }

  /** `function NAME(` at the head of the canonical text. */
  lemma SourceHead(d: Definition)
    requires IsWord(d.name)
    ensures var s := Source(d);
            StartsWith(s, "function") && SpacesEnd(s, 8) == 9 && WordsEnd(s, 9) == 9 + |d.name|
            && s[9 + |d.name|] == '(' && s[9..9 + |d.name|] == d.name
            && s[10 + |d.name|..] == d.paramText + ") do " + d.body + " end"
  {
    var s := Source(d);
    var q := 9 + |d.name|;
    SourcePieces(d);
    assert SpacesEnd(s, 8) == 9;
    forall j | 9 <= j < q
      ensures IsWordChar(s[j])
    {
      assert s[j] == s[9..q][j - 9];
    }
    WordsEndOf(s, 9, |d.name|);
  }

  lemma RestPieces(params: string, u: string)
    ensures (params + u)[|params|..] == u && (params + u)[..|params|] == params
  {
  }

  /** The pattern matches the canonical text at its start. */
  lemma MatchHereOfSource(d: Definition)
    requires IsWord(d.name) && OnOneLine(d.paramText) && ')' !in d.paramText && PlainBody(d.body)
    ensures MatchHere(Source(d)) == Some(d)
  {
    var s := Source(d);
    var q := 9 + |d.name|;
    SourceHead(d);
    var u := ") do " + d.body + " end";
    var rest := s[q + 1..];
    assert rest == d.paramText + u;
    ParamsLengthOfPlain(d.paramText, d.body);
    RestPieces(d.paramText, u);
    TailOfCanonical(d.body);
  }

  /** Round trip: the canonical text of a definition whose name is a word,
      whose parameter list is one line without `)` and whose body is plain is
      matched back to that very definition. */
  lemma DefinitionRoundTrip(d: Definition)
    requires IsWord(d.name) && OnOneLine(d.paramText) && ')' !in d.paramText && PlainBody(d.body)
    ensures MatchDefinition(Source(d)) == Some(d)
  {
    var s := Source(d);
    MatchHereOfSource(d);
    assert s[0..] == s;
    assert MatchesAt(s, 0);
  }

  // ---- parameter list ----

  /** `erase(remove_if(..., isspace))`. */
  function RemoveSpaces(s: string): (r: string)
    ensures NoneIn(r, Whitespace)
    ensures forall c :: c in r ==> c in s
  {
    if s == [] then []
    else (if IsSpace(s[0]) then [] else [s[0]]) + RemoveSpaces(s[1..])
  }

  lemma RemoveSpacesKeepsOut(s: string, delims: set<char>)
    requires NoneIn(s, delims)
    ensures NoneIn(RemoveSpaces(s), Whitespace + delims)
  {
    var r := RemoveSpaces(s);
    forall i | 0 <= i < |r|
      ensures r[i] !in Whitespace + delims
    {
      assert r[i] in r;
      assert r[i] in s;
    }
  }

  /** Each `getline(ss, param, ',')` piece with its blanks removed, kept when
      non-empty. */
  function CleanPieces(pieces: seq<string>): (r: seq<string>)
    requires forall k :: 0 <= k < |pieces| ==> NoneIn(pieces[k], {','})
    ensures forall i :: 0 <= i < |r| ==> r[i] != [] && NoneIn(r[i], Whitespace + {','})
  {
    if pieces == [] then []
    else
      var p := RemoveSpaces(pieces[0]);
      RemoveSpacesKeepsOut(pieces[0], {','});
      (if p == [] then [] else [p]) + CleanPieces(pieces[1..])
  }

  lemma CleanPiecesAt(pieces: seq<string>, i: nat)
    requires i < |pieces| && forall k :: 0 <= k < |pieces| ==> NoneIn(pieces[k], {','})
    ensures var p := RemoveSpaces(pieces[i]);
            CleanPieces(pieces[i..]) == (if p == [] then [] else [p]) + CleanPieces(pieces[i + 1..])
  {
    assert pieces[i..][1..] == pieces[i + 1..];
  }

  /** The parameter names of a definition: the comma-separated pieces of the
      captured text with blanks removed; empty pieces are dropped. */
  function CleanParams(paramText: string): (r: seq<string>)
    ensures forall i :: 0 <= i < |r| ==> r[i] != [] && NoneIn(r[i], Whitespace + {','})
  {
    CleanPieces(Split(paramText, {','}))
  }

  lemma {:induction false} RemoveSpacesKeeps(s: string)
    requires NoneIn(s, Whitespace)
    ensures RemoveSpaces(s) == s
  {
    if s != [] {
      assert s[0] in s;
      assert NoneIn(s[1..], Whitespace) by {
        forall c | c in s[1..] ensures c !in Whitespace { assert c in s; }
      }
      RemoveSpacesKeeps(s[1..]);
    }
  }

  lemma {:induction false} CleanPiecesKeeps(names: seq<string>)
    requires forall i :: 0 <= i < |names| ==> names[i] != [] && NoneIn(names[i], Whitespace)
    requires forall i :: 0 <= i < |names| ==> NoneIn(names[i], {','})
    ensures CleanPieces(names) == names
  {
    if names != [] {
      RemoveSpacesKeeps(names[0]);
      CleanPiecesKeeps(names[1..]);
    }
  }

  /** Round trip: names without blanks or commas, written as a comma-separated
      list, are read back as the same list. */
  lemma {:induction false} CleanParamsOfJoin(names: seq<string>)
    requires forall i :: 0 <= i < |names| ==> names[i] != [] && NoneIn(names[i], Whitespace + {','})
    ensures CleanParams(Join(names, ',')) == names
  {
    forall i | 0 <= i < |names|
      ensures names[i] != [] && NoneIn(names[i], {','}) && NoneIn(names[i], Whitespace)
    {
    }
    SplitJoinRoundTrip(names, ',', {','});
    CleanPiecesKeeps(names);
  }

  lemma BlankPiecePieces(a: string, b: string)
    ensures a + ", ," + b == a + [','] + (" " + [','] + b)
  {
  }

  lemma {:induction false} SplitWithBlankPiece(a: string, b: string)
    requires a != [] && NoneIn(a, {','}) && b != [] && NoneIn(b, {','})
    ensures Split(a + ", ," + b, {','}) == [a, " ", b]
  {
    BlankPiecePieces(a, b);
    SplitAtDelimiter(a, ',', " " + [','] + b, {','});
    SplitAtDelimiter(" ", ',', b, {','});
    SplitNoDelimiter(a, {','});
    SplitNoDelimiter(" ", {','});
    SplitNoDelimiter(b, {','});
  }

  /** A blank-only piece such as the middle of `a, ,b` names no parameter. */
  lemma {:induction false} BlankPieceIsDropped(a: string, b: string)
    requires a != [] && NoneIn(a, Whitespace + {','}) && b != [] && NoneIn(b, Whitespace + {','})
    ensures CleanParams(a + ", ," + b) == [a, b]
  {
    SplitWithBlankPiece(a, b);
    RemoveSpacesKeeps(a);
    RemoveSpacesKeeps(b);
    assert RemoveSpaces(" ") == [];
    var rest := [" ", b];
    assert rest[1..] == [b];
    assert CleanPieces([b]) == [b];
    assert CleanPieces(rest) == [b];
    assert [a, " ", b][1..] == rest;
  }

  // ---- binding and substitution ----

    /** The locals after the first `n` rounds of the binding loop, which binds
      the parameter at position `i` to the argument at position `i`. */
  function BindFirst(params: seq<string>, values: seq<string>, n: nat): (r: map<string, string>)
    requires n <= |params| && n <= |values|
    ensures r.Keys == set i | 0 <= i < n :: params[i]
  {
    if n == 0 then map[]
    else
      var before := BindFirst(params, values, n - 1);
      assert (set i | 0 <= i < n :: params[i]) == (set i | 0 <= i < n - 1 :: params[i]) + {params[n - 1]};
      before[params[n - 1] := values[n - 1]]
  }

  /** The locals of a call: the loop runs while both lists have an element. */
  function Bind(params: seq<string>, values: seq<string>): (r: map<string, string>)
    ensures r.Keys == set i | 0 <= i < |params| && i < |values| :: params[i]
  {
    var n := if |params| < |values| then |params| else |values|;
    assert (set i | 0 <= i < |params| && i < |values| :: params[i]) == (set i | 0 <= i < n :: params[i]);
    BindFirst(params, values, n)
  }

  lemma {:induction false} BindFirstLastWins(params: seq<string>, values: seq<string>, n: nat, i: nat)
    requires n <= |params| && n <= |values| && i < n
    requires forall j :: i < j < n ==> params[j] != params[i]
    ensures params[i] in BindFirst(params, values, n) && BindFirst(params, values, n)[params[i]] == values[i]
    decreases n
  {
    if i < n - 1 {
      BindFirstLastWins(params, values, n - 1, i);
    }
  }

  /** The value bound to each name is the argument at its last position. */
  lemma BindLastWins(params: seq<string>, values: seq<string>, i: nat)
    requires i < |params| && i < |values|
    requires forall j :: i < j < |params| && j < |values| ==> params[j] != params[i]
    ensures params[i] in Bind(params, values) && Bind(params, values)[params[i]] == values[i]
  {
    var n := if |params| < |values| then |params| else |values|;
    BindFirstLastWins(params, values, n, i);
  }

  // ---- std::regex_replace(text, std::regex("\\b" + name + "\\b"), value) ----

  /** `\b` at position `k` of `t`: a word character on exactly one side. The
      text before a later search start counts, as `match_prev_avail` makes it. */
  predicate Boundary(t: string, k: nat)
    requires k <= |t|
  {
    (k > 0 && IsWordChar(t[k - 1])) != (k < |t| && IsWordChar(t[k]))
  }

  /** `\bNAME\b` matches at position `i` of `t`, the name read literally. */
  predicate MatchAt(t: string, name: string, i: nat)
    requires i <= |t|
  {
    name != [] && i + |name| <= |t| && PrefixAt(t, i, name)
    && Boundary(t, i) && Boundary(t, i + |name|)
  }

  /** `name` is spelled out in `t` from position `i` on, character by character. */
  predicate PrefixAt(t: string, i: nat, name: string)
    decreases |name|
  {
    name == [] || (i < |t| && t[i] == name[0] && PrefixAt(t, i + 1, name[1..]))
  }

  lemma {:induction false} PrefixAtSlice(t: string, i: nat, name: string)
    requires i + |name| <= |t|
    ensures PrefixAt(t, i, name) <==> t[i..i + |name|] == name
    decreases |name|
  {
    if name != [] {
      PrefixAtSlice(t, i + 1, name[1..]);
      assert t[i..i + |name|] == [t[i]] + t[i + 1..i + |name|];
      assert name == [name[0]] + name[1..];
    }
  }

  /** The text `regex_replace` writes for one match `m` under the default
      (ECMAScript) format rules: `$$` is a dollar sign, `$&`, `$0` and `$00`
      are the match, `` $` `` is the text since the previous match, `$'` is the
      rest of the text, any other one- or two-digit group number is empty (the
      pattern has no groups), and any other `$` stands for itself. */
  function Format(v: string, m: string, before: string, after: string): (r: string)
    ensures '$' !in v ==> r == v
    decreases |v|
  {
    if v == [] then []
    else if v[0] != '$' then [v[0]] + Format(v[1..], m, before, after)
    else if |v| == 1 then "$"
    else if v[1] == '$' then "$" + Format(v[2..], m, before, after)
    else if v[1] == '&' then m + Format(v[2..], m, before, after)
    else if v[1] == '`' then before + Format(v[2..], m, before, after)
    else if v[1] == '\'' then after + Format(v[2..], m, before, after)
    else if IsDigit(v[1]) then
      if |v| > 2 && IsDigit(v[2]) then
        (if v[1] == '0' && v[2] == '0' then m else []) + Format(v[3..], m, before, after)
      else
        (if v[1] == '0' then m else []) + Format(v[2..], m, before, after)
    else "$" + Format(v[1..], m, before, after)
  }

  /** The dollar sequences of a value, expanded: `$$` is a dollar sign,
      and a dollar before anything without a meaning stays as written. */
  lemma DollarEscapes(m: string, before: string, after: string)
    ensures Format("$$", m, before, after) == "$"
    ensures Format("$x", m, before, after) == "$x"
  {
    assert "$$"[2..] == [];
    assert "$x"[1..] == "x" && "x"[1..] == [];
  }

  /** `$&` and `$0` insert the match. */
  lemma DollarMatch(m: string, before: string, after: string)
    ensures Format("$&", m, before, after) == m && Format("$0", m, before, after) == m
  {
    assert "$&"[2..] == [] && "$0"[2..] == [];
  }

  /** `` $` `` and `$'` insert the text before and after the match. */
  lemma DollarAround(m: string, before: string, after: string)
    ensures Format("$`", m, before, after) == before && Format("$'", m, before, after) == after
  {
    assert "$`"[2..] == [] && "$'"[2..] == [];
  }

  /** The pattern has no groups, so `$1` and `$12` insert nothing. */
  lemma DollarGroups(m: string, before: string, after: string)
    ensures Format("$1", m, before, after) == [] && Format("$12", m, before, after) == []
  {
    assert "$1"[2..] == [] && "$12"[3..] == [];
  }

  /** The scan `regex_replace` makes from position `pos`, the previous match
      having ended at `last`: each leftmost match is replaced by the formatted
      value, and the text around matches is copied. */
  function ReplaceFrom(t: string, name: string, v: string, pos: nat, last: nat): string
    requires last <= pos <= |t|
    decreases |t| - pos
  {
    if pos == |t| then []
    else if MatchAt(t, name, pos) then
      Format(v, name, t[last..pos], t[pos + |name|..]) + ReplaceFrom(t, name, v, pos + |name|, pos + |name|)
    else [t[pos]] + ReplaceFrom(t, name, v, pos + 1, last)
  }

  /** `std::regex_replace(t, std::regex("\\b" + name + "\\b"), v)` for a name
      without regex metacharacters. Text without a match comes back unchanged. */
  function ReplaceWord(t: string, name: string, v: string): (r: string)
    ensures (forall i :: 0 <= i <= |t| ==> !MatchAt(t, name, i)) ==> r == t
  {
    NoMatchFrom(t, name, v, 0, 0);
    assert t[0..] == t;
    ReplaceFrom(t, name, v, 0, 0)
  }

  lemma {:induction false} NoMatchFrom(t: string, name: string, v: string, pos: nat, last: nat)
    requires last <= pos <= |t|
    ensures (forall i :: pos <= i <= |t| ==> !MatchAt(t, name, i)) ==> ReplaceFrom(t, name, v, pos, last) == t[pos..]
    decreases |t| - pos
  {
    if pos < |t| && forall i :: pos <= i <= |t| ==> !MatchAt(t, name, i) {
      NoMatchFrom(t, name, v, pos + 1, last);
      assert t[pos..] == [t[pos]] + t[pos + 1..];
    }
  }

  /** Without dollar sequences the value is inserted as it is, so where the
      previous match ended makes no difference. */
  lemma {:induction false} LastIrrelevant(t: string, name: string, v: string, pos: nat, l1: nat, l2: nat)
    requires l1 <= pos <= |t| && l2 <= pos && '$' !in v
    ensures ReplaceFrom(t, name, v, pos, l1) == ReplaceFrom(t, name, v, pos, l2)
    decreases |t| - pos
  {
    if pos < |t| {
      if MatchAt(t, name, pos) {
      } else {
        LastIrrelevant(t, name, v, pos + 1, l1, l2);
      }
    }
  }

  /** The text from `k` on, after a non-word character or at the very start,
      is scanned as if it stood alone. */
  predicate FreshStart(t: string, k: nat, b: string) {
    k <= |t| && t[k..] == b && (k == 0 || !IsWordChar(t[k - 1]))
  }

  lemma {:induction false} ShiftFrom(t: string, k: nat, b: string, name: string, v: string, j: nat, l: nat)
    requires FreshStart(t, k, b) && '$' !in v && l <= j <= |b|
    ensures ReplaceFrom(t, name, v, k + j, k + l) == ReplaceFrom(b, name, v, j, l)
    decreases |b| - j, 1
  {
    if j == |b| {
      ShiftEnd(t, k, b, name, v, l);
    } else if MatchAt(b, name, j) {
      ShiftMatchCase(t, k, b, name, v, j, l);
    } else {
      ShiftSkipCase(t, k, b, name, v, j, l);
    }
  }

  lemma ShiftEnd(t: string, k: nat, b: string, name: string, v: string, l: nat)
    requires FreshStart(t, k, b) && l <= |b|
    ensures ReplaceFrom(t, name, v, k + |b|, k + l) == ReplaceFrom(b, name, v, |b|, l)
  {
    assert |t[k..]| == |t| - k;
  }

  lemma {:induction false} ShiftMatchCase(t: string, k: nat, b: string, name: string, v: string, j: nat, l: nat)
    requires FreshStart(t, k, b) && '$' !in v && l <= j < |b| && MatchAt(b, name, j)
    ensures ReplaceFrom(t, name, v, k + j, k + l) == ReplaceFrom(b, name, v, j, l)
    decreases |b| - j, 0
  {
    var e := j + |name|;
    ShiftFrom(t, k, b, name, v, e, e);
    ShiftMatchJoin(t, k, b, name, v, j, l, e);
  }

  lemma ShiftMatchJoin(t: string, k: nat, b: string, name: string, v: string, j: nat, l: nat, e: nat)
    requires FreshStart(t, k, b) && '$' !in v && l <= j < |b| && MatchAt(b, name, j) && e == j + |name|
    requires ReplaceFrom(t, name, v, k + e, k + e) == ReplaceFrom(b, name, v, e, e)
    ensures ReplaceFrom(t, name, v, k + j, k + l) == ReplaceFrom(b, name, v, j, l)
  {
    assert ReplaceFrom(t, name, v, k + j, k + l) == v + ReplaceFrom(t, name, v, k + e, k + e) by {
      ShiftMatch(t, k, b, name, j);
      assert k + j + |name| == k + e;
      MatchStep(t, name, v, k + j, k + l);
    }
    assert ReplaceFrom(b, name, v, j, l) == v + ReplaceFrom(b, name, v, e, e) by {
      MatchStep(b, name, v, j, l);
    }
  }

  lemma {:induction false} ShiftSkipCase(t: string, k: nat, b: string, name: string, v: string, j: nat, l: nat)
    requires FreshStart(t, k, b) && '$' !in v && l <= j < |b| && !MatchAt(b, name, j)
    ensures ReplaceFrom(t, name, v, k + j, k + l) == ReplaceFrom(b, name, v, j, l)
    decreases |b| - j, 0
  {
    var e := j + 1;
    ShiftFrom(t, k, b, name, v, e, l);
    ShiftSkipJoin(t, k, b, name, v, j, l, e);
  }

  lemma ShiftSkipJoin(t: string, k: nat, b: string, name: string, v: string, j: nat, l: nat, e: nat)
    requires FreshStart(t, k, b) && l <= j < |b| && !MatchAt(b, name, j) && e == j + 1
    requires ReplaceFrom(t, name, v, k + e, k + l) == ReplaceFrom(b, name, v, e, l)
    ensures ReplaceFrom(t, name, v, k + j, k + l) == ReplaceFrom(b, name, v, j, l)
  {
    assert ReplaceFrom(t, name, v, k + j, k + l) == [b[j]] + ReplaceFrom(t, name, v, k + e, k + l) by {
      ShiftMatch(t, k, b, name, j);
      SuffixSlices(t, k, b, j, j + 1, j + 1);
      assert t[k + j] == b[j] by {
        assert t[k..][j] == t[k + j];
      }
      assert k + j + 1 == k + e;
      SkipStep(t, name, v, k + j, k + l);
    }
    assert ReplaceFrom(b, name, v, j, l) == [b[j]] + ReplaceFrom(b, name, v, e, l) by {
      SkipStep(b, name, v, j, l);
    }
  }

  lemma SuffixSlices(t: string, k: nat, b: string, x: nat, y: nat, z: nat)
    requires FreshStart(t, k, b) && x <= y <= z <= |b|
    ensures b[x..y] == t[k + x..k + y]
    ensures b[z..] == t[k + z..]
  {
    assert forall i :: 0 <= i < y - x ==> t[k..][x..y][i] == t[k + x + i];
    assert forall i :: 0 <= i < |t| - k - z ==> t[k..][z..][i] == t[k + z + i];
  }

  lemma ShiftMatch(t: string, k: nat, b: string, name: string, j: nat)
    requires FreshStart(t, k, b) && j <= |b|
    ensures MatchAt(t, name, k + j) == MatchAt(b, name, j)
  {
    assert forall i :: 0 <= i < |b| ==> t[k + i] == b[i];
    assert Boundary(t, k + j) == Boundary(b, j) by {
      if j > 0 { assert t[k + j - 1] == b[j - 1]; }
      if j < |b| { assert t[k + j] == b[j]; }
    }
    if name != [] && j + |name| <= |b| {
      var e := j + |name|;
      SuffixSlices(t, k, b, j, e, e);
      PrefixAtSlice(t, k + j, name);
      PrefixAtSlice(b, j, name);
      assert Boundary(t, k + e) == Boundary(b, e) by {
        assert t[k + e - 1] == b[e - 1];
        if e < |b| { assert t[k + e] == b[e]; }
      }
    }
  }

  /** `t` is `a`, then the character `c`, then `b`. */
  predicate SplitsAt(t: string, a: string, c: char, b: string) {
    |a| < |t| && t[..|a|] == a && t[|a|] == c && t[|a| + 1..] == b
  }

  lemma PrefixChar(t: string, a: string, c: char, b: string, i: nat)
    requires SplitsAt(t, a, c, b) && i < |a|
    ensures t[i] == a[i]
  {
    assert t[..|a|][i] == t[i];
  }

  /** A name made of word characters never matches across a non-word character. */
  lemma SplitMatch(t: string, a: string, c: char, b: string, name: string, i: nat)
    requires SplitsAt(t, a, c, b) && !IsWordChar(c) && IsWord(name) && i <= |a|
    ensures MatchAt(t, name, i) == MatchAt(a, name, i)
  {
    assert Boundary(t, i) == Boundary(a, i) by {
      if i > 0 { PrefixChar(t, a, c, b, i - 1); }
      if i < |a| { PrefixChar(t, a, c, b, i); }
    }
    if i + |name| <= |a| {
      var k := i + |name|;
      PrefixAtSlice(t, i, name);
      PrefixAtSlice(a, i, name);
      assert t[i..k] == a[i..k] by {
        forall j | 0 <= j < |name|
          ensures t[i..k][j] == a[i..k][j]
        {
          PrefixChar(t, a, c, b, i + j);
        }
      }
      assert Boundary(t, k) == Boundary(a, k) by {
        PrefixChar(t, a, c, b, k - 1);
        if k < |a| { PrefixChar(t, a, c, b, k); }
      }
    } else if i + |name| <= |t| {
      PrefixAtSlice(t, i, name);
      assert t[i..i + |name|][|a| - i] == c;
      assert IsWordChar(name[|a| - i]);
      assert t[i..i + |name|] != name;
    }
  }

  lemma {:induction false} SplitFrom(t: string, a: string, c: char, b: string, name: string, v: string, i: nat, last: nat)
    requires SplitsAt(t, a, c, b) && !IsWordChar(c) && IsWord(name) && '$' !in v && last <= i <= |a|
    ensures ReplaceFrom(t, name, v, i, last)
            == ReplaceFrom(a, name, v, i, last) + [c] + ReplaceFrom(b, name, v, 0, 0)
    decreases |a| - i
  {
    if i == |a| {
      SplitAtSeparator(t, a, c, b, name, v, last);
    } else if MatchAt(a, name, i) {
      SplitFrom(t, a, c, b, name, v, i + |name|, i + |name|);
      SplitMatchCase(t, a, c, b, name, v, i, last, ReplaceFrom(b, name, v, 0, 0));
    } else {
      SplitFrom(t, a, c, b, name, v, i + 1, last);
      SplitSkipCase(t, a, c, b, name, v, i, last, ReplaceFrom(b, name, v, 0, 0));
    }
  }

  /** A match before the separator is replaced in both texts alike. */
  lemma SplitMatchCase(t: string, a: string, c: char, b: string, name: string, v: string, i: nat, last: nat, rest: string)
    requires SplitsAt(t, a, c, b) && !IsWordChar(c) && IsWord(name) && '$' !in v && last <= i < |a|
    requires MatchAt(a, name, i)
    requires ReplaceFrom(t, name, v, i + |name|, i + |name|) == ReplaceFrom(a, name, v, i + |name|, i + |name|) + [c] + rest
    ensures ReplaceFrom(t, name, v, i, last) == ReplaceFrom(a, name, v, i, last) + [c] + rest
  {
    SplitMatch(t, a, c, b, name, i);
    MatchStep(t, name, v, i, last);
    MatchStep(a, name, v, i, last);
  }

  /** A character before the separator that starts no match is copied in both texts alike. */
  lemma SplitSkipCase(t: string, a: string, c: char, b: string, name: string, v: string, i: nat, last: nat, rest: string)
    requires SplitsAt(t, a, c, b) && !IsWordChar(c) && IsWord(name) && last <= i < |a|
    requires !MatchAt(a, name, i)
    requires ReplaceFrom(t, name, v, i + 1, last) == ReplaceFrom(a, name, v, i + 1, last) + [c] + rest
    ensures ReplaceFrom(t, name, v, i, last) == ReplaceFrom(a, name, v, i, last) + [c] + rest
  {
    SplitMatch(t, a, c, b, name, i);
    PrefixChar(t, a, c, b, i);
    SkipStep(t, name, v, i, last);
    SkipStep(a, name, v, i, last);
  }

  /** At the separator itself: it is copied, and what follows is scanned afresh. */
  lemma SplitAtSeparator(t: string, a: string, c: char, b: string, name: string, v: string, last: nat)
    requires SplitsAt(t, a, c, b) && !IsWordChar(c) && IsWord(name) && '$' !in v && last <= |a|
    ensures ReplaceFrom(t, name, v, |a|, last) == ReplaceFrom(a, name, v, |a|, last) + [c] + ReplaceFrom(b, name, v, 0, 0)
  {
    SplitMatch(t, a, c, b, name, |a|);
    SkipStep(t, name, v, |a|, last);
    LastIrrelevant(t, name, v, |a| + 1, last, |a| + 1);
    ShiftFrom(t, |a| + 1, b, name, v, 0, 0);
  }

  lemma MatchStep(t: string, name: string, v: string, pos: nat, last: nat)
    requires last <= pos < |t| && MatchAt(t, name, pos) && '$' !in v
    ensures ReplaceFrom(t, name, v, pos, last) == v + ReplaceFrom(t, name, v, pos + |name|, pos + |name|)
  {
  }

  lemma SkipStep(t: string, name: string, v: string, pos: nat, last: nat)
    requires last <= pos < |t| && !MatchAt(t, name, pos)
    ensures ReplaceFrom(t, name, v, pos, last) == [t[pos]] + ReplaceFrom(t, name, v, pos + 1, last)
  {
  }

  /** Replacement of a word-character name never reaches across a non-word
      character, when the value holds no dollar sequence. */
  lemma ReplaceWordSplits(a: string, c: char, b: string, name: string, v: string)
    requires !IsWordChar(c) && IsWord(name) && '$' !in v
    ensures ReplaceWord(a + [c] + b, name, v) == ReplaceWord(a, name, v) + [c] + ReplaceWord(b, name, v)
  {
    var t := a + [c] + b;
    assert t[..|a|] == a && t[|a| + 1..] == b;
    SplitFrom(t, a, c, b, name, v, 0, 0);
  }

  /** A text that is exactly the name, starting and ending with a word
      character, is replaced as a whole, whatever lies between (`x-y` too). */
  lemma NameMatchesWholeText(t: string, v: string)
    requires t != [] && IsWordChar(t[0]) && IsWordChar(t[|t| - 1])
    ensures ReplaceWord(t, t, v) == Format(v, t, [], [])
  {
    assert t[0..|t|] == t;
    PrefixAtSlice(t, 0, t);
    assert MatchAt(t, t, 0);
    assert t[0..0] == [] && t[|t|..] == [];
    assert ReplaceFrom(t, t, v, |t|, |t|) == [];
    assert ReplaceFrom(t, t, v, 0, 0) == Format(v, t, [], []);
  }

  /** A whole word is replaced exactly when it is the name. */
  lemma ReplaceWordWhole(w: string, name: string, v: string)
    requires IsWord(w)
    ensures ReplaceWord(w, name, v) == if w == name then Format(v, w, [], []) else w
  {
    if w == name {
      NameMatchesWholeText(w, v);
    } else {
      forall i | 0 <= i <= |w|
        ensures !MatchAt(w, name, i)
      {
        if 0 < i < |w| {
          assert IsWordChar(w[i - 1]) && IsWordChar(w[i]);
          assert !Boundary(w, i);
        } else if i == 0 && 0 < |name| < |w| {
          assert IsWordChar(w[|name| - 1]) && IsWordChar(w[|name|]);
          assert !Boundary(w, |name|);
        } else if i == 0 && |name| == |w| {
          assert w[0..|w|] == w;
          PrefixAtSlice(w, 0, name);
        }
      }
    }
  }

  lemma {:induction false} IdentityFrom(t: string, name: string, pos: nat, last: nat)
    requires '$' !in name && last <= pos <= |t|
    ensures ReplaceFrom(t, name, name, pos, last) == t[pos..]
    decreases |t| - pos
  {
    if pos < |t| {
      if MatchAt(t, name, pos) {
        PrefixAtSlice(t, pos, name);
        IdentityFrom(t, name, pos + |name|, pos + |name|);
        assert t[pos..] == t[pos..pos + |name|] + t[pos + |name|..];
      } else {
        IdentityFrom(t, name, pos + 1, last);
        assert t[pos..] == [t[pos]] + t[pos + 1..];
      }
    }
  }

  /** Replacing a name by itself changes nothing. */
  lemma ReplaceWordIdentity(t: string, name: string)
    requires '$' !in name
    ensures ReplaceWord(t, name, name) == t
  {
    IdentityFrom(t, name, 0, 0);
    assert t[0..] == t;
  }

  lemma WordHasNoDollar(w: string)
    requires IsWord(w)
    ensures '$' !in w
  {
    forall i | 0 <= i < |w|
      ensures w[i] != '$'
    {
      assert IsWordChar(w[i]);
    }
  }

  lemma ExamplePieces(cmd: string, p: string, other: string)
    ensures "/" + cmd + " " + p + " " + other == [] + ['/'] + (cmd + [' '] + (p + [' '] + other))
  {
  }

  lemma ExampleResult(cmd: string, v: string, other: string)
    ensures [] + ['/'] + (cmd + [' '] + (v + [' '] + other)) == "/" + cmd + " " + v + " " + other
  {
  }

  /** Replacement in two words separated by a blank. */
  lemma ReplaceWordPair(w: string, rest: string, p: string, v: string)
    requires IsWord(w) && IsWord(p) && '$' !in v
    ensures ReplaceWord(w + [' '] + rest, p, v) == (if w == p then v else w) + [' '] + ReplaceWord(rest, p, v)
  {
    ReplaceWordSplits(w, ' ', rest, p, v);
    ReplaceWordWhole(w, p, v);
  }

  /** Only a whole word is replaced: in `/cmd p other` just the `p` changes. */
  lemma {:induction false} ReplaceWordExample(cmd: string, p: string, other: string, v: string)
    requires IsWord(cmd) && IsWord(p) && IsWord(other) && other != p && cmd != p && '$' !in v
    ensures ReplaceWord("/" + cmd + " " + p + " " + other, p, v) == "/" + cmd + " " + v + " " + other
  {
    var tail := p + [' '] + other;
    var body := cmd + [' '] + tail;
    ExamplePieces(cmd, p, other);
    ReplaceWordSplits([], '/', body, p, v);
    assert ReplaceWord([], p, v) == [];
    ReplaceWordPair(cmd, tail, p, v);
    ReplaceWordPair(p, other, p, v);
    ReplaceWordWhole(other, p, v);
    ExampleResult(cmd, v, other);
  }

  /** A name with a non-word character inside, such as `x-y`, still matches
      where it stands as the whole text. */
  lemma HyphenatedNameIsReplaced()
    ensures ReplaceWord("x-y", "x-y", "7") == "7"
  {
    NameMatchesWholeText("x-y", "7");
  }

  /** An argument containing `$&` writes the matched name back into the text. */
  lemma DollarAmpersandInsertsName(p: string)
    requires IsWord(p)
    ensures ReplaceWord(p, p, "<$&>") == "<" + p + ">"
  {
    NameMatchesWholeText(p, "<$&>");
    assert "<$&>"[1..] == "$&>" && "$&>"[2..] == ">";
  }

  /** The body after replacing the bound names one after the other, in the
      order the `unordered_map` of locals is walked. */
  function Expand(body: string, locals: map<string, string>, order: seq<string>): (r: string)
    requires forall i :: 0 <= i < |order| ==> order[i] in locals
    ensures (forall i :: 0 <= i < |order| ==> locals[order[i]] == order[i] && '$' !in order[i]) ==> r == body
    decreases |order|
  {
    if order == [] then body
    else
      var last := order[|order| - 1];
      var before := Expand(body, locals, order[..|order| - 1]);
      if locals[last] == last && '$' !in last then
        ReplaceWordIdentity(before, last);
        ReplaceWord(before, last, locals[last])
      else ReplaceWord(before, last, locals[last])
  }

  /** `order` walks every bound name exactly once. */
  predicate IsOrderOf(order: seq<string>, keys: set<string>) {
    |order| == |keys| && (forall i :: 0 <= i < |order| ==> order[i] in keys)
    && forall i, j :: 0 <= i < j < |order| ==> order[i] != order[j]
  }

  /** The walk order is visible: when one bound value is another parameter's
      name, the two orders of replacement give different texts. */
  lemma {:induction false} ExpandOrderMatters(a: string, b: string, c: string)
    requires IsWord(a) && IsWord(b) && IsWord(c) && a != b && b != c && a != c
    ensures var locals := map[a := b, b := c];
            IsOrderOf([a, b], locals.Keys) && IsOrderOf([b, a], locals.Keys)
            && Expand(a, locals, [a, b]) == c && Expand(a, locals, [b, a]) == b
  {
    assert map[a := b, b := c].Keys == {a, b};
    ExpandNameFirst(a, b, c);
    ExpandValueFirst(a, b, c);
  }

  /** Replacing `a` first turns the body `a` into `b`, which the second
      replacement then turns into `c`. */
  lemma ExpandNameFirst(a: string, b: string, c: string)
    requires IsWord(a) && IsWord(b) && IsWord(c) && a != b
    ensures Expand(a, map[a := b, b := c], [a, b]) == c
  {
    var locals := map[a := b, b := c];
    WordHasNoDollar(b);
    WordHasNoDollar(c);
    ReplaceWordWhole(a, a, b);
    ReplaceWordWhole(b, b, c);
    assert [a, b][..1] == [a] && [a][..0] == [];
    assert Expand(a, locals, [a]) == b;
  }

  /** Replacing `b` first leaves the body `a` alone; replacing `a` then
      gives `b`, which is not replaced again. */
  lemma ExpandValueFirst(a: string, b: string, c: string)
    requires IsWord(a) && IsWord(b) && IsWord(c) && a != b
    ensures Expand(a, map[a := b, b := c], [b, a]) == b
  {
    var locals := map[a := b, b := c];
    WordHasNoDollar(b);
    WordHasNoDollar(c);
    ReplaceWordWhole(a, b, c);
    ReplaceWordWhole(a, a, b);
    assert [b, a][..1] == [b] && [b][..0] == [];
    assert Expand(a, locals, [b]) == a;
  }

  // ---- console messages ----

  function DefinedMessage(name: string, count: nat): string {
    "Defined function: " + name + " with " + NatToString(count) + " parameters"
  }

  const InvalidSyntax := "Invalid function syntax!"
  const CallUsage := "Usage: call <function_name> [args...]"

  function UnknownFunction(name: string): string {
    "Unknown function: " + name
  }
}
