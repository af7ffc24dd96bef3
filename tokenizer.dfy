/** Splitting a line into tokens.

    `Console::SplitArgs` reads pieces with `std::getline(ss, item, delimiter)`
    and keeps only the non-empty ones; the `while (ss >> t)` loops of the
    evaluators and the OBJ loader keep the maximal runs of non-whitespace.
    Both are `Split` over a set of delimiter characters. */
module Tokenizer {

  /** The characters `std::isspace` accepts in the "C" locale. */
  const Whitespace: set<char> := {' ', '\t', '\n', '\U{B}', '\U{C}', '\r'}

  predicate IsSpace(c: char) {
    c in Whitespace
  }

  predicate NoneIn(s: string, delims: set<char>) {
    forall i :: 0 <= i < |s| ==> s[i] !in delims
  }

  /** Length of the piece at the front of `s`: everything up to the first delimiter. */
  function PieceLength(s: string, delims: set<char>): (k: nat)
    ensures k <= |s|
    ensures NoneIn(s[..k], delims)
    ensures k < |s| ==> s[k] in delims
  {
    if s == [] || s[0] in delims then 0 else 1 + PieceLength(s[1..], delims)
  }

  /** The non-empty pieces of `s` between delimiters, in input order. */
  function Split(s: string, delims: set<char>): (r: seq<string>)
    ensures forall i :: 0 <= i < |r| ==> r[i] != [] && NoneIn(r[i], delims)
    decreases |s|
  {
    if s == [] then []
    else
      var k := PieceLength(s, delims);
      var head := if k == 0 then [] else [s[..k]];
      if k == |s| then head else head + Split(s[k + 1..], delims)
  }

  /** `Console::SplitArgs`: split on one delimiter, a space unless another is given. */
  function SplitArgs(s: string, delimiter: char := ' '): (args: seq<string>)
    ensures forall i :: 0 <= i < |args| ==> args[i] != [] && delimiter !in args[i]
    ensures Concat(args) == Strip(s, {delimiter})
    ensures args == [] <==> forall i :: 0 <= i < |s| ==> s[i] == delimiter
  {
    SplitKeepsContent(s, {delimiter});
    SplitEmptyIff(s, {delimiter});
    Split(s, {delimiter})
  }

  /** The tokens `std::istream >> std::string` extracts one after another. */
  function Words(s: string): (r: seq<string>)
    ensures forall i :: 0 <= i < |r| ==> r[i] != [] && NoneIn(r[i], Whitespace)
    ensures Concat(r) == Strip(s, Whitespace)
    ensures r == [] <==> forall i :: 0 <= i < |s| ==> IsSpace(s[i])
  {
    SplitKeepsContent(s, Whitespace);
    SplitEmptyIff(s, Whitespace);
    Split(s, Whitespace)
  }

  /** The characters of `s` that are not delimiters, in order. */
  function Strip(s: string, delims: set<char>): string {
    if s == [] then []
    else (if s[0] in delims then [] else [s[0]]) + Strip(s[1..], delims)
  }

  function Concat(ss: seq<string>): string {
    if ss == [] then [] else ss[0] + Concat(ss[1..])
  }

  lemma ConcatAppend(a: seq<string>, b: seq<string>)
    ensures Concat(a + b) == Concat(a) + Concat(b)
  {
    if a == [] {
      assert a + b == b;
    } else {
      assert (a + b)[1..] == a[1..] + b;
      ConcatAppend(a[1..], b);
    }
  }

  lemma StripAppend(a: string, b: string, delims: set<char>)
    ensures Strip(a + b, delims) == Strip(a, delims) + Strip(b, delims)
  {
    if a == [] {
      assert a + b == b;
    } else {
      assert (a + b)[1..] == a[1..] + b;
      StripAppend(a[1..], b, delims);
    }
  }

  lemma StripNoDelimiter(s: string, delims: set<char>)
    requires NoneIn(s, delims)
    ensures Strip(s, delims) == s
  {
    if s != [] {
      StripNoDelimiter(s[1..], delims);
    }
  }

  /** Tokens reproduce the input with its delimiters removed: no character is
      lost, duplicated or reordered. */
  lemma {:induction false} SplitKeepsContent(s: string, delims: set<char>)
    ensures Concat(Split(s, delims)) == Strip(s, delims)
    decreases |s|
  {
    if s != [] {
      var k := PieceLength(s, delims);
      var piece, rest := s[..k], s[k..];
      assert s == piece + rest;
      StripAppend(piece, rest, delims);
      StripNoDelimiter(piece, delims);
      if k == |s| {
        assert Split(s, delims) == [piece];
      } else {
        var tail := s[k + 1..];
        assert rest == [s[k]] + tail;
        StripAppend([s[k]], tail, delims);
        assert Strip(rest, delims) == Strip(tail, delims);
        SplitKeepsContent(tail, delims);
        var head := if k == 0 then [] else [piece];
        assert Concat(head) == piece;
        assert Split(s, delims) == head + Split(tail, delims);
        ConcatAppend(head, Split(tail, delims));
      }
    }
  }

  /** A line splits into no tokens exactly when it consists of delimiters only. */
  lemma SplitEmptyIff(s: string, delims: set<char>)
    ensures Split(s, delims) == [] <==> forall i :: 0 <= i < |s| ==> s[i] in delims
  {
    SplitKeepsContent(s, delims);
    var r := Split(s, delims);
    if r != [] {
      ConcatAppend([r[0]], r[1..]);
      assert r == [r[0]] + r[1..];
    }
    StripEmptyIff(s, delims);
  }

  lemma StripEmptyIff(s: string, delims: set<char>)
    ensures Strip(s, delims) == [] <==> forall i :: 0 <= i < |s| ==> s[i] in delims
  {
    if s != [] {
      StripEmptyIff(s[1..], delims);
      assert forall i :: 1 <= i < |s| ==> s[i] == s[1..][i - 1];
    }
  }

  lemma PieceLengthAppend(a: string, d: char, b: string, delims: set<char>)
    requires d in delims
    ensures PieceLength(a + [d] + b, delims) == PieceLength(a, delims)
  {
    if a != [] {
      assert (a + [d] + b)[1..] == a[1..] + [d] + b;
      PieceLengthAppend(a[1..], d, b, delims);
    }
  }

  /** A delimiter separates the tokens of what precedes it from those of what
      follows it; with the two lemmas below this fixes `Split` completely. */
  lemma {:induction false} SplitAtDelimiter(a: string, d: char, b: string, delims: set<char>)
    requires d in delims
    ensures Split(a + [d] + b, delims) == Split(a, delims) + Split(b, delims)
    decreases |a|
  {
    var k := PieceLength(a, delims);
    if k < |a| {
      SplitAtDelimiter(a[k + 1..], d, b, delims);
      DelimiterAfterFirstPiece(a, d, b, delims);
    } else {
      DelimiterAfterLastPiece(a, d, b, delims);
    }
  }

  /** `Split` unfolded once: the first piece, then the pieces after its delimiter. */
  lemma SplitFirstPiece(s: string, delims: set<char>)
    requires s != []
    ensures var k := PieceLength(s, delims);
            Split(s, delims) == (if k == 0 then [] else [s[..k]]) + (if k == |s| then [] else Split(s[k + 1..], delims))
  {
  }

  lemma DelimiterAfterFirstPiece(a: string, d: char, b: string, delims: set<char>)
    requires d in delims && PieceLength(a, delims) < |a|
    requires var k := PieceLength(a, delims);
             Split(a[k + 1..] + [d] + b, delims) == Split(a[k + 1..], delims) + Split(b, delims)
    ensures Split(a + [d] + b, delims) == Split(a, delims) + Split(b, delims)
  {
    var s := a + [d] + b;
    var k := PieceLength(a, delims);
    PieceLengthAppend(a, d, b, delims);
    AroundDelimiter(a, d, b, k);
    SplitFirstPiece(s, delims);
    SplitFirstPiece(a, delims);
    var head := if k == 0 then [] else [a[..k]];
    RegroupPieces(head, Split(a[k + 1..], delims), Split(b, delims));
  }

  lemma AroundDelimiter(a: string, d: char, b: string, k: nat)
    requires k < |a|
    ensures (a + [d] + b)[..k] == a[..k] && (a + [d] + b)[k + 1..] == a[k + 1..] + [d] + b
  {
  }

  lemma RegroupPieces(x: seq<string>, y: seq<string>, z: seq<string>)
    ensures x + (y + z) == (x + y) + z
  {
  }

  lemma DelimiterAfterLastPiece(a: string, d: char, b: string, delims: set<char>)
    requires d in delims && PieceLength(a, delims) == |a|
    ensures Split(a + [d] + b, delims) == Split(a, delims) + Split(b, delims)
  {
    var s := a + [d] + b;
    var k := |a|;
    PieceLengthAppend(a, d, b, delims);
    assert s[..k] == a;
    assert s[k + 1..] == b;
    SplitFirstPiece(s, delims);
    if a != [] {
      SplitFirstPiece(a, delims);
      assert a[..k] == a;
    }
  }

  /** A non-empty run without delimiters is a single token. */
  lemma SplitNoDelimiter(s: string, delims: set<char>)
    requires s != [] && NoneIn(s, delims)
    ensures Split(s, delims) == [s]
  {
    PieceLengthWhole(s, delims);
    assert s[..|s|] == s;
  }

  lemma PieceLengthWhole(s: string, delims: set<char>)
    requires NoneIn(s, delims)
    ensures PieceLength(s, delims) == |s|
  {
    if s != [] {
      PieceLengthWhole(s[1..], delims);
    }
  }

  /** A leading delimiter produces no token. */
  lemma DropsLeadingDelimiter(d: char, t: string, delims: set<char>)
    requires d in delims
    ensures Split([d] + t, delims) == Split(t, delims)
  {
    var e: string := [];
    SplitAtDelimiter(e, d, t, delims);
    assert e + [d] + t == [d] + t;
  }

  /** A token followed by one delimiter. */
  lemma TokenThenDelimiter(b: string, d: char, delims: set<char>)
    requires d in delims && b != [] && NoneIn(b, delims)
    ensures Split(b + [d], delims) == [b]
  {
    var e: string := [];
    SplitAtDelimiter(b, d, e, delims);
    assert b + [d] + e == b + [d];
    SplitNoDelimiter(b, delims);
  }

  lemma Regroup(a: string, b: string, d: char)
    ensures [d, d] + a + [d, d, d] + b + [d] == [d] + ([d] + (a + [d] + ([d] + ([d] + (b + [d])))))
  {
  }

  /** Runs of delimiters produce no empty tokens: two words surrounded by
      runs of delimiters give exactly those two words. */
  lemma {:induction false} SplitSkipsDelimiterRuns(a: string, b: string, d: char, delims: set<char>)
    requires d in delims
    requires a != [] && NoneIn(a, delims) && b != [] && NoneIn(b, delims)
    ensures Split([d, d] + a + [d, d, d] + b + [d], delims) == [a, b]
  {
    var t1 := b + [d];
    var t3 := [d] + ([d] + t1);
    var t4 := a + [d] + t3;
    Regroup(a, b, d);
    TokenThenDelimiter(b, d, delims);
    DropsLeadingDelimiter(d, t1, delims);
    DropsLeadingDelimiter(d, [d] + t1, delims);
    SplitAtDelimiter(a, d, t3, delims);
    SplitNoDelimiter(a, delims);
    DropsLeadingDelimiter(d, t4, delims);
    DropsLeadingDelimiter(d, [d] + t4, delims);
  }

  /** The case `"  a   b "`, which gives `["a", "b"]`. */
  lemma SplitArgsExample()
    ensures SplitArgs("  a   b ") == ["a", "b"]
  {
    SplitSkipsDelimiterRuns("a", "b", ' ', {' '});
    assert "  a   b " == [' ', ' '] + "a" + [' ', ' ', ' '] + "b" + [' '];
  }

  /** Tokens written out with one delimiter between them. */
  function Join(ws: seq<string>, d: char): string {
    if ws == [] then []
    else if |ws| == 1 then ws[0]
    else ws[0] + [d] + Join(ws[1..], d)
  }

  /** Splitting undoes joining, for tokens that are non-empty and free of delimiters. */
  lemma {:induction false} SplitJoinRoundTrip(ws: seq<string>, d: char, delims: set<char>)
    requires d in delims
    requires forall i :: 0 <= i < |ws| ==> ws[i] != [] && NoneIn(ws[i], delims)
    ensures Split(Join(ws, d), delims) == ws
  {
    if |ws| == 1 {
      SplitNoDelimiter(ws[0], delims);
    } else if |ws| > 1 {
      SplitNoDelimiter(ws[0], delims);
      SplitJoinRoundTrip(ws[1..], d, delims);
      SplitAtDelimiter(ws[0], d, Join(ws[1..], d), delims);
      assert ws == [ws[0]] + ws[1..];
    }
  }
}
