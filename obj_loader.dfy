/** `MeshLoader::LoadOBJ`: the `v`, `vn`, `vt` and `f` lines of a Wavefront
    OBJ text become a vertex list and a fan-triangulated index list. */
module ObjLoader {
  import opened Wrappers
  import opened Tokenizer
  import opened Literals

  /** The coordinates of a `v`, `vn` or `vt` line, kept as the words after
      the prefix; their numeric parsing is not modelled. */
  type Coords = seq<string>

  /** `Vertex{}` as a face fills it in: a position, and a normal and texture
      coordinates when the face names valid ones; `None` is the zero vector
      a value-initialised vertex keeps. */
  datatype Vertex = Vertex(position: Coords, normal: Option<Coords>, texCoords: Option<Coords>)

  /** `Mesh(vertices, indices)`. */
  datatype Mesh = Mesh(vertices: seq<Vertex>, indices: seq<nat>)

  /** The loader's five working lists. */
  datatype Pools = Pools(positions: seq<Coords>, normals: seq<Coords>, texCoords: seq<Coords>,
                         vertices: seq<Vertex>, indices: seq<nat>)

  const NoPools := Pools([], [], [], [], [])

  /** Every index names an existing vertex. */
  predicate IndicesInRange(indices: seq<nat>, count: nat) {
    forall i :: 0 <= i < |indices| ==> indices[i] < count
  }

  // ---- std::getline on the file ----

  /** The lines `std::getline` yields: the text cut at each line feed, a
      final line feed ending the last line rather than starting an empty one. */
  function GetLines(s: string): (r: seq<string>)
    ensures forall i :: 0 <= i < |r| ==> NoneIn(r[i], {'\n'})
    decreases |s|
  {
    if s == [] then []
    else
      var k := PieceLength(s, {'\n'});
      [s[..k]] + (if k == |s| then [] else GetLines(s[k + 1..]))
  }

  /** Unlike the console's splitter, `getline` keeps empty lines: each line
      feed ends exactly one line, whatever that line holds. */
  lemma GetLinesKeepsEmptyLines(a: string, b: string)
    requires NoneIn(a, {'\n'})
    ensures GetLines(a + "\n" + b) == [a] + GetLines(b)
  {
    var s := a + "\n" + b;
    PieceLengthAppend(a, '\n', b, {'\n'});
    PieceLengthWhole(a, {'\n'});
    assert s[..|a|] == a && s[|a| + 1..] == b;
  }

  /** A text without line feeds is one line. */
  lemma GetLinesSingleLine(a: string)
    requires a != [] && NoneIn(a, {'\n'})
    ensures GetLines(a) == [a]
  {
    PieceLengthWhole(a, {'\n'});
    assert a[..|a|] == a;
  }

  // ---- one face-vertex definition ----

  /** What `stream >> n` does for an `int` from position `i` of a stream
      whose error flags are clear: skip blanks, read an optional sign and
      the digits after it. No digits sets the fail flag and stores 0;
      running into the end of the text sets the end flag. */
  datatype Extraction = Extraction(value: int, next: nat, failed: bool, eof: bool)

  function ExtractInt(s: string, i: nat): (r: Extraction)
    requires i <= |s|
    ensures i <= r.next <= |s|
    ensures r.eof <==> r.next == |s|
    ensures r.failed ==> r.value == 0
  {
    var j := SpacesEnd(s, i);
    if j == |s| then Extraction(0, j, true, true)
    else
      var (negative, k) := SignAt(s, j);
      var d := DigitsEnd(s, k);
      if d == k then Extraction(0, d, true, d == |s|)
      else
        var n: int := DigitsValueAt(s, k, d);
        Extraction(if negative then -n else n, d, false, d == |s|)
  }

  /** `std::replace(vertexDef.begin(), vertexDef.end(), '/', ' ')`. */
  function Slashes(t: string): (r: string)
    ensures |r| == |t|
    ensures forall i :: 0 <= i < |t| ==> r[i] == if t[i] == '/' then ' ' else t[i]
  {
    seq(|t|, i requires 0 <= i < |t| => if t[i] == '/' then ' ' else t[i])
  }

  /** The position, texture and normal numbers of a face-vertex definition. */
  datatype FaceRef = FaceRef(vi: int, ti: int, ni: int)

  /** `vss >> vi; if (!vss.eof()) vss >> ti; if (!vss.eof()) vss >> ni;`.
      Once an extraction has failed the later ones leave their 0, so a
      definition without any digit reads as all zeros. */
  function ParseFaceVertex(def: string): (r: FaceRef)
    ensures (forall i :: 0 <= i < |def| ==> !IsDigit(def[i])) ==> r == FaceRef(0, 0, 0)
  {
    var s := Slashes(def);
    var a := ExtractInt(s, 0);
    if a.eof then FaceRef(a.value, 0, 0)
    else if a.failed then FaceRef(0, 0, 0)
    else
      var b := ExtractInt(s, a.next);
      if b.eof || b.failed then FaceRef(a.value, b.value, 0)
      else FaceRef(a.value, b.value, ExtractInt(s, b.next).value)
  }

  lemma ExtractDigits(s: string, i: nat, d: nat)
    requires i < d <= |s| && forall j :: i <= j < d ==> IsDigit(s[j])
    requires d < |s| ==> !IsDigit(s[d])
    ensures ExtractInt(s, i) == Extraction(DigitsValue(s[i..d]), d, false, d == |s|)
  {
    assert !IsSpace(s[i]) && s[i] != '-' && s[i] != '+';
    DigitsEndFrom(s, i, d);
    DigitsValueAtSlice(s, i, d);
  }

  lemma {:induction false} DigitsEndFrom(s: string, i: nat, d: nat)
    requires i <= d <= |s| && forall j :: i <= j < d ==> IsDigit(s[j])
    requires d < |s| ==> !IsDigit(s[d])
    ensures DigitsEnd(s, i) == d
    decreases d - i
  {
    if i < d {
      DigitsEndFrom(s, i + 1, d);
    }
  }

  lemma {:induction false} SpacesEndFrom(s: string, i: nat, k: nat)
    requires i <= k < |s| && forall j :: i <= j < k ==> IsSpace(s[j])
    requires !IsSpace(s[k])
    ensures SpacesEnd(s, i) == k
    decreases k - i
  {
    if i < k {
      SpacesEndFrom(s, i + 1, k);
    }
  }

  /** `>>` from `j` skips the blanks up to `i` and reads the printed number
      `n` that starts there. */
  lemma ExtractNumber(s: string, j: nat, i: nat, n: nat)
    requires j <= i && i + |NatToString(n)| <= |s|
    requires forall k :: j <= k < i ==> IsSpace(s[k])
    requires s[i..i + |NatToString(n)|] == NatToString(n)
    requires i + |NatToString(n)| < |s| ==> !IsDigit(s[i + |NatToString(n)|])
    ensures ExtractInt(s, j) == Extraction(n, i + |NatToString(n)|, false, i + |NatToString(n)| == |s|)
  {
    var t := NatToString(n);
    var d := i + |t|;
    assert forall k :: i <= k < d ==> s[k] == t[k - i];
    assert s[i] == t[0];
    SpacesEndFrom(s, j, i);
    DigitsEndFrom(s, i, d);
    DigitsValueAtSlice(s, i, d);
    DigitsValueOfNatToString(n);
  }

  lemma SlashesOfDigits(t: string)
    requires forall i :: 0 <= i < |t| ==> IsDigit(t[i])
    ensures Slashes(t) == t
  {
  }

  lemma SlashesAppend(a: string, b: string)
    ensures Slashes(a + b) == Slashes(a) + Slashes(b)
  {
  }

  /** A lone printed position number reads as that position. */
  lemma FaceVertexPositionOnly(p: nat)
    ensures ParseFaceVertex(NatToString(p)) == FaceRef(p, 0, 0)
  {
    var s := NatToString(p);
    SlashesOfDigits(s);
    assert s[0..|s|] == s;
    ExtractNumber(s, 0, 0, p);
  }

  /** The `p/t` form reads the position and the texture number. */
  lemma FaceVertexWithTexture(p: nat, t: nat)
    ensures ParseFaceVertex(NatToString(p) + "/" + NatToString(t)) == FaceRef(p, t, 0)
  {
    var P, T := NatToString(p), NatToString(t);
    var i := |P|;
    var def := P + "/" + T;
    var s := P + " " + T;
    assert Slashes(def) == s by {
      SlashesAppend(P + "/", T);
      SlashesAppend(P, "/");
      SlashesOfDigits(P);
      SlashesOfDigits(T);
    }
    assert ExtractInt(s, 0) == Extraction(p, i, false, false) by {
      assert s[0..i] == P && s[i] == ' ';
      ExtractNumber(s, 0, 0, p);
    }
    assert ExtractInt(s, i).value == t && ExtractInt(s, i).eof by {
      assert s[i] == ' ' && s[i + 1..] == T;
      LastNumber(s, i, 1, t);
    }
    TwoNumbers(def, s, p, t, i);
  }

  /** In the `p//n` form both slashes become blanks, so the number after
      them is read as the texture number and the normal number stays 0. */
  lemma FaceVertexDoubleSlash(p: nat, n: nat)
    ensures ParseFaceVertex(NatToString(p) + "//" + NatToString(n)) == FaceRef(p, n, 0)
  {
    var P, N := NatToString(p), NatToString(n);
    var i := |P|;
    var def := P + "//" + N;
    var s := P + "  " + N;
    assert Slashes(def) == s by {
      SlashesAppend(P + "//", N);
      SlashesAppend(P, "//");
      SlashesOfDigits(P);
      SlashesOfDigits(N);
    }
    assert ExtractInt(s, 0) == Extraction(p, i, false, false) by {
      assert s[0..i] == P && s[i] == ' ';
      ExtractNumber(s, 0, 0, p);
    }
    assert ExtractInt(s, i).value == n && ExtractInt(s, i).eof by {
      assert s[i] == ' ' && s[i + 1] == ' ' && s[i + 2..] == N;
      LastNumber(s, i, 2, n);
    }
    TwoNumbers(def, s, p, n, i);
  }

  /** `ParseFaceVertex` when the first extraction succeeds before the end
      and the second one reaches it. */
  lemma TwoNumbers(def: string, s: string, x: int, y: int, i: nat)
    requires Slashes(def) == s
    requires ExtractInt(s, 0) == Extraction(x, i, false, false)
    requires i <= |s| && ExtractInt(s, i).value == y && ExtractInt(s, i).eof
    ensures ParseFaceVertex(def) == FaceRef(x, y, 0)
  {
  }

  /** The full `p/t/n` form reads all three numbers. */
  lemma FaceVertexFullForm(p: nat, t: nat, n: nat)
    ensures ParseFaceVertex(NatToString(p) + "/" + NatToString(t) + "/" + NatToString(n)) == FaceRef(p, t, n)
  {
    var P, T, N := NatToString(p), NatToString(t), NatToString(n);
    var i, k := |P|, |P| + 1 + |T|;
    FullFormFirst(P, T, N, p, t, n, i);
    FullFormSecond(P, T, N, p, t, n, i, k);
    FullFormThird(P, T, N, p, t, n, k);
    var def := P + "/" + T + "/" + N;
    ThreeNumbers(def, Slashes(def), p, t, n, i, k);
  }

  lemma FullFormFirst(P: string, T: string, N: string, p: nat, t: nat, n: nat, i: nat)
    requires P == NatToString(p) && T == NatToString(t) && N == NatToString(n)
    requires i == |P|
    ensures ExtractInt(Slashes(P + "/" + T + "/" + N), 0) == Extraction(p, i, false, false)
  {
    var s := P + " " + T + " " + N;
    assert Slashes(P + "/" + T + "/" + N) == s by {
      SlashesOfFullForm(P, T, N);
    }
    assert ExtractInt(s, 0) == Extraction(p, i, false, false) by {
      FullFormPieces(s, P, T, N);
      ExtractNumber(s, 0, 0, p);
    }
  }

  lemma FullFormSecond(P: string, T: string, N: string, p: nat, t: nat, n: nat, i: nat, k: nat)
    requires P == NatToString(p) && T == NatToString(t) && N == NatToString(n)
    requires i == |P| && k == |P| + 1 + |T|
    ensures ExtractInt(Slashes(P + "/" + T + "/" + N), i) == Extraction(t, k, false, false)
  {
    var s := P + " " + T + " " + N;
    assert Slashes(P + "/" + T + "/" + N) == s by {
      SlashesOfFullForm(P, T, N);
    }
    assert ExtractInt(s, i) == Extraction(t, k, false, false) by {
      FullFormPieces(s, P, T, N);
      ExtractNumber(s, i, i + 1, t);
    }
  }

  lemma FullFormThird(P: string, T: string, N: string, p: nat, t: nat, n: nat, k: nat)
    requires P == NatToString(p) && T == NatToString(t) && N == NatToString(n)
    requires k == |P| + 1 + |T|
    ensures ExtractInt(Slashes(P + "/" + T + "/" + N), k).value == n
  {
    var s := P + " " + T + " " + N;
    assert Slashes(P + "/" + T + "/" + N) == s by {
      SlashesOfFullForm(P, T, N);
    }
    assert ExtractInt(s, k).value == n by {
      FullFormPieces(s, P, T, N);
      LastNumber(s, k, 1, n);
    }
  }

  /** After `g` blanks from `k` on, a printed number that ends the text is
      read whole, and the read reaches the end. */
  lemma LastNumber(s: string, k: nat, g: nat, n: nat)
    requires k + g + |NatToString(n)| == |s|
    requires forall j :: k <= j < k + g ==> s[j] == ' '
    requires s[k + g..] == NatToString(n)
    ensures ExtractInt(s, k).value == n && ExtractInt(s, k).eof
  {
    assert s[k + g..|s|] == NatToString(n);
    ExtractNumber(s, k, k + g, n);
  }

  lemma FullFormPieces(s: string, P: string, T: string, N: string)
    requires s == P + " " + T + " " + N
    ensures |s| == |P| + |T| + |N| + 2
    ensures s[0..|P|] == P && s[|P|] == ' '
    ensures s[|P| + 1..|P| + 1 + |T|] == T && s[|P| + 1 + |T|] == ' '
    ensures s[|P| + 1 + |T| + 1..] == N
  {
  }

  /** `ParseFaceVertex` when the first two extractions succeed before the end. */
  lemma ThreeNumbers(def: string, s: string, x: int, y: int, z: int, i: nat, k: nat)
    requires Slashes(def) == s
    requires ExtractInt(s, 0) == Extraction(x, i, false, false)
    requires ExtractInt(s, i) == Extraction(y, k, false, false)
    requires ExtractInt(s, k).value == z
    ensures ParseFaceVertex(def) == FaceRef(x, y, z)
  {
  }

  lemma SlashesOfFullForm(P: string, T: string, N: string)
    requires forall i :: 0 <= i < |P| ==> IsDigit(P[i])
    requires forall i :: 0 <= i < |T| ==> IsDigit(T[i])
    requires forall i :: 0 <= i < |N| ==> IsDigit(N[i])
    ensures Slashes(P + "/" + T + "/" + N) == P + " " + T + " " + N
  {
    SlashesAppend(P + "/" + T + "/", N);
    SlashesAppend(P + "/" + T, "/");
    SlashesAppend(P + "/", T);
    SlashesAppend(P, "/");
    SlashesOfDigits(P);
    SlashesOfDigits(T);
    SlashesOfDigits(N);
  }

  /** In the `p//n` form both slashes become blanks, so the number after
      them is read as the texture index and the normal index stays 0. */
  lemma DoubleSlashReadsTexture(def: string)
    requires def == "3//7"
    ensures ParseFaceVertex(def) == FaceRef(3, 7, 0)
  {
    assert NatToString(3) == "3" && NatToString(7) == "7";
    assert def == NatToString(3) + "//" + NatToString(7);
    FaceVertexDoubleSlash(3, 7);
  }

  /** The full `p/t/n` form reads all three numbers. */
  lemma FullFormReadsAll(def: string)
    requires def == "2/5/9"
    ensures ParseFaceVertex(def) == FaceRef(2, 5, 9)
  {
    assert NatToString(2) == "2" && NatToString(5) == "5" && NatToString(9) == "9";
    assert def == NatToString(2) + "/" + NatToString(5) + "/" + NatToString(9);
    FaceVertexFullForm(2, 5, 9);
  }

  // ---- faces ----

  /** A definition is used only when its position number is one of 1..count;
      negative (relative) numbers are rejected. */
  predicate Accepted(p: Pools, r: FaceRef) {
    0 < r.vi <= |p.positions|
  }

  /** The vertex a used definition adds; texture and normal numbers outside
      1..count leave those fields at their default. */
  function MakeVertex(p: Pools, r: FaceRef): (v: Vertex)
    requires Accepted(p, r)
    ensures v.position == p.positions[r.vi - 1]
    ensures v.normal.Some? <==> 0 < r.ni <= |p.normals|
    ensures v.normal.Some? ==> v.normal.value == p.normals[r.ni - 1]
    ensures v.texCoords.Some? <==> 0 < r.ti <= |p.texCoords|
    ensures v.texCoords.Some? ==> v.texCoords.value == p.texCoords[r.ti - 1]
  {
    Vertex(p.positions[r.vi - 1],
           if 0 < r.ni <= |p.normals| then Some(p.normals[r.ni - 1]) else None,
           if 0 < r.ti <= |p.texCoords| then Some(p.texCoords[r.ti - 1]) else None)
  }

  /** The vertex list and the face's own index list after the definitions
      `defs` of one `f` line. */
  function Face(p: Pools, defs: seq<string>): (r: (seq<Vertex>, seq<nat>))
    ensures p.vertices <= r.0 && |r.0| == |p.vertices| + |r.1|
    ensures forall i :: 0 <= i < |r.1| ==> r.1[i] == |p.vertices| + i
    decreases |defs|
  {
    if defs == [] then (p.vertices, [])
    else FaceStep(p, Face(p, defs[..|defs| - 1]), ParseFaceVertex(defs[|defs| - 1]))
  }

  /** One definition: a used one adds its vertex and that vertex's index. */
  function FaceStep(p: Pools, acc: (seq<Vertex>, seq<nat>), ref: FaceRef): (r: (seq<Vertex>, seq<nat>))
    ensures acc.0 <= r.0 && acc.1 <= r.1
    ensures |r.0| - |acc.0| == |r.1| - |acc.1| == if Accepted(p, ref) then 1 else 0
    ensures Accepted(p, ref) ==> r.1[|acc.1|] == |acc.0| && r.0[|acc.0|].position == p.positions[ref.vi - 1]
  {
    if Accepted(p, ref) then (acc.0 + [MakeVertex(p, ref)], acc.1 + [|acc.0|])
    else acc
  }

  /** The fan a face is cut into: `(f0, fi, fi+1)` for every `i` from 1 while
      `i + 1` is a position of the face. */
  function Fan(face: seq<nat>): (r: seq<nat>)
    ensures |r| == if |face| < 3 then 0 else 3 * (|face| - 2)
  {
    if |face| < 3 then []
    else Fan(face[..|face| - 1]) + [face[0], face[|face| - 2], face[|face| - 1]]
  }

  /** Triangle `k` of the fan is `(f0, f(k+1), f(k+2))`. */
  lemma {:induction false} FanTriangles(face: seq<nat>, k: nat)
    requires k + 2 < |face|
    ensures Fan(face)[3 * k] == face[0]
    ensures Fan(face)[3 * k + 1] == face[k + 1]
    ensures Fan(face)[3 * k + 2] == face[k + 2]
    decreases |face|
  {
    var front := face[..|face| - 1];
    if k + 3 < |face| {
      FanTriangles(front, k);
    }
  }

  /** A fan uses only the face's own indices. */
  lemma {:induction false} FanInRange(face: seq<nat>, count: nat)
    requires IndicesInRange(face, count)
    ensures IndicesInRange(Fan(face), count)
    decreases |face|
  {
    if |face| >= 3 {
      FanInRange(face[..|face| - 1], count);
    }
  }

  /** A quad `f a b c d` becomes the triangles `(a, b, c)` and `(a, c, d)`. */
  lemma QuadIsTwoTriangles(face: seq<nat>)
    requires |face| == 4
    ensures Fan(face) == [face[0], face[1], face[2], face[0], face[2], face[3]]
  {
    assert face[..3][..2] == face[..2];
  }

  /** A usable definition appends exactly its own vertex, and the face gains
      that vertex's index. */
  lemma FaceAppendsVertex(p: Pools, defs: seq<string>, def: string)
    requires Accepted(p, ParseFaceVertex(def))
    ensures var (vertices, face) := Face(p, defs);
            Face(p, defs + [def]) == (vertices + [MakeVertex(p, ParseFaceVertex(def))], face + [|vertices|])
  {
    assert (defs + [def])[..|defs|] == defs;
  }

  /** What `p//n` yields when `p` is a position read so far: the vertex takes
      texture coordinates `n` (when there are that many) and no normal. */
  lemma DoubleSlashVertex(q: Pools, defs: seq<string>, p: nat, n: nat)
    requires 0 < p <= |q.positions|
    ensures Face(q, defs + [NatToString(p) + "//" + NatToString(n)]).0
            == Face(q, defs).0 + [Vertex(q.positions[p - 1], None,
                                         if 0 < n <= |q.texCoords| then Some(q.texCoords[n - 1]) else None)]
  {
    FaceVertexDoubleSlash(p, n);
    FaceAppendsVertex(q, defs, NatToString(p) + "//" + NatToString(n));
  }

  /** A definition whose position number is negative, zero or past the
      positions read so far adds nothing to the face. */
  lemma UnusableDefinitionIsSkipped(p: Pools, defs: seq<string>, def: string)
    requires ParseFaceVertex(def).vi <= 0 || ParseFaceVertex(def).vi > |p.positions|
    ensures Face(p, defs + [def]) == Face(p, defs)
  {
    assert (defs + [def])[..|defs|] == defs;
  }

  // ---- lines ----

  /** Every working list of `q` extends the same list of `p`: the loader
      only ever appends. */
  predicate Grows(p: Pools, q: Pools) {
    p.positions <= q.positions && p.normals <= q.normals && p.texCoords <= q.texCoords
    && p.vertices <= q.vertices && p.indices <= q.indices
  }

  /** One line of the file. At most one of the coordinate pools gains one
      entry, and only an `f` line touches the vertices and indices. */
  function LineStep(p: Pools, line: string): (q: Pools)
    ensures Grows(p, q)
    ensures |q.positions| + |q.normals| + |q.texCoords| <= |p.positions| + |p.normals| + |p.texCoords| + 1
    ensures q.vertices != p.vertices || q.indices != p.indices ==>
              Words(line) != [] && Words(line)[0] == "f" && q.positions == p.positions
              && q.normals == p.normals && q.texCoords == p.texCoords
  {
    if line == [] || line[0] == '#' then p
    else
      var words := Words(line);
      var prefix := if words == [] then "" else words[0];
      var rest := if words == [] then [] else words[1..];
      if prefix == "v" then p.(positions := p.positions + [rest])
      else if prefix == "vn" then p.(normals := p.normals + [rest])
      else if prefix == "vt" then p.(texCoords := p.texCoords + [rest])
      else if prefix == "f" then
        var (vertices, face) := Face(p, rest);
        p.(vertices := vertices, indices := p.indices + Fan(face))
      else p
  }

  /** The lines one after another; every list only grows, and the pools
      gain at most one coordinate entry per line. */
  function LoadLines(p: Pools, lines: seq<string>): (q: Pools)
    ensures Grows(p, q)
    ensures |q.positions| + |q.normals| + |q.texCoords| <= |p.positions| + |p.normals| + |p.texCoords| + |lines|
    decreases |lines|
  {
    if lines == [] then p else LineStep(LoadLines(p, lines[..|lines| - 1]), lines[|lines| - 1])
  }

  /** `LoadOBJ(path)` on the file's text, `None` when it cannot be opened.
      A loaded mesh is a list of whole triangles over its own vertices. */
  function Load(file: Option<string>): (m: Mesh)
    ensures file.None? ==> m == Mesh([], [])
    ensures IndicesInRange(m.indices, |m.vertices|)
    ensures |m.indices| % 3 == 0
  {
    match file
    case None => Mesh([], [])
    case Some(text) =>
      var p := LoadLines(NoPools, GetLines(text));
      LoadLinesInRange(GetLines(text));
      Mesh(p.vertices, p.indices)
  }

  /** Empty lines and comments change nothing; a `v`, `vn` or `vt` line adds
      exactly one element to its own list and leaves the others. */
  lemma LineKinds(p: Pools, line: string)
    ensures line == [] || line[0] == '#' ==> LineStep(p, line) == p
    ensures line != [] && line[0] != '#' && Words(line) != [] && Words(line)[0] == "v" ==>
              LineStep(p, line) == p.(positions := p.positions + [Words(line)[1..]])
    ensures line != [] && line[0] != '#' && Words(line) != [] && Words(line)[0] == "vn" ==>
              LineStep(p, line) == p.(normals := p.normals + [Words(line)[1..]])
    ensures line != [] && line[0] != '#' && Words(line) != [] && Words(line)[0] == "vt" ==>
              LineStep(p, line) == p.(texCoords := p.texCoords + [Words(line)[1..]])
  {
  }

  /** An `f` line with `k` usable definitions appends `k` new vertices,
      numbered from the old vertex count on, and `3 * max(0, k - 2)` indices. */
  lemma FaceLineCounts(p: Pools, line: string)
    requires line != [] && line[0] != '#' && Words(line) != [] && Words(line)[0] == "f"
    ensures var k := |Face(p, Words(line)[1..]).1|;
            var q := LineStep(p, line);
            q.positions == p.positions && q.normals == p.normals && q.texCoords == p.texCoords
            && p.vertices <= q.vertices && |q.vertices| == |p.vertices| + k
            && p.indices <= q.indices && |q.indices| == |p.indices| + (if k < 3 then 0 else 3 * (k - 2))
  {
  }

  /** Every line keeps every index pointing at an existing vertex. */
  lemma LineKeepsIndicesInRange(p: Pools, line: string)
    requires IndicesInRange(p.indices, |p.vertices|)
    ensures var q := LineStep(p, line);
            IndicesInRange(q.indices, |q.vertices|) && |p.vertices| <= |q.vertices|
            && |q.indices| % 3 == |p.indices| % 3
  {
    if line != [] && line[0] != '#' {
      var words := Words(line);
      if words != [] && words[0] == "f" {
        var (vertices, face) := Face(p, words[1..]);
        assert LineStep(p, line) == p.(vertices := vertices, indices := p.indices + Fan(face));
        FaceKeepsIndicesInRange(p, words[1..]);
        WholeTriangles(p.indices, Fan(face));
      }
    }
  }

  lemma WholeTriangles(indices: seq<nat>, fan: seq<nat>)
    requires |fan| == 0 || exists k: nat :: |fan| == 3 * k
    ensures |indices + fan| % 3 == |indices| % 3
  {
    if |fan| > 0 {
      var k: nat :| |fan| == 3 * k;
      assert |indices + fan| == |indices| + 3 * k;
    }
  }

  lemma FaceKeepsIndicesInRange(p: Pools, defs: seq<string>)
    requires IndicesInRange(p.indices, |p.vertices|)
    ensures var (vertices, face) := Face(p, defs);
            IndicesInRange(p.indices + Fan(face), |vertices|) && |p.vertices| <= |vertices|
  {
    var (vertices, face) := Face(p, defs);
    FanInRange(face, |vertices|);
    var all := p.indices + Fan(face);
    forall i | 0 <= i < |all| ensures all[i] < |vertices| {
      if i >= |p.indices| {
        assert all[i] == Fan(face)[i - |p.indices|];
      }
    }
  }

  lemma {:induction false} LoadLinesInRange(lines: seq<string>)
    ensures var p := LoadLines(NoPools, lines);
            IndicesInRange(p.indices, |p.vertices|) && |p.indices| % 3 == 0
    decreases |lines|
  {
    if lines != [] {
      LoadLinesInRange(lines[..|lines| - 1]);
      LineKeepsIndicesInRange(LoadLines(NoPools, lines[..|lines| - 1]), lines[|lines| - 1]);
    }
  }

  lemma LoadLinesNext(lines: seq<string>, n: nat)
    requires n < |lines|
    ensures LoadLines(NoPools, lines[..n + 1]) == LineStep(LoadLines(NoPools, lines[..n]), lines[n])
  {
    assert lines[..n + 1][..n] == lines[..n];
  }

  // ---- the loader itself ----

  /** The body of the `while (ss >> vertexDef)` loop for one parsed
      definition: a usable one gets a fresh vertex and its index. */
  method AddFaceVertex(p: Pools, vertices: seq<Vertex>, face: seq<nat>, ref: FaceRef)
    returns (vertices': seq<Vertex>, face': seq<nat>)
    ensures (vertices', face') == FaceStep(p, (vertices, face), ref)
  {
    vertices', face' := vertices, face;
    if 0 < ref.vi <= |p.positions| {
      var normal := if 0 < ref.ni <= |p.normals| then Some(p.normals[ref.ni - 1]) else None;
      var uv := if 0 < ref.ti <= |p.texCoords| then Some(p.texCoords[ref.ti - 1]) else None;
      vertices' := vertices' + [Vertex(p.positions[ref.vi - 1], normal, uv)];
      face' := face' + [|vertices'| - 1];
    }
  }

  /** The `while (ss >> vertexDef)` loop of an `f` line. */
  method ReadFace(p: Pools, defs: seq<string>) returns (vertices: seq<Vertex>, face: seq<nat>)
    ensures (vertices, face) == Face(p, defs)
  {
    vertices := p.vertices;
    face := [];
    var i := 0;
    while i < |defs|
      invariant 0 <= i <= |defs|
      invariant (vertices, face) == Face(p, defs[..i])
    {
      assert defs[..i + 1][..i] == defs[..i];
      vertices, face := AddFaceVertex(p, vertices, face, ParseFaceVertex(defs[i]));
      i := i + 1;
    }
    assert defs[..i] == defs;
  }

  /** The triangulation loop: appends the fan of `face` to `indices`. */
  method AppendFan(indices: seq<nat>, face: seq<nat>) returns (out: seq<nat>)
    ensures out == indices + Fan(face)
  {
    out := indices;
    var i := 1;
    while i + 1 < |face|
      invariant 1 <= i && (|face| >= 2 ==> i < |face|)
      invariant |face| >= 2 ==> out == indices + Fan(face[..i + 1])
      invariant |face| < 2 ==> out == indices
    {
      assert face[..i + 2][..i + 1] == face[..i + 1];
      out := out + [face[0], face[i], face[i + 1]];
      i := i + 1;
    }
    if |face| >= 2 {
      assert face[..i + 1] == face;
    } else {
      assert Fan(face) == [];
    }
  }

  /** The body of the `while (std::getline(file, line))` loop for one line. */
  method ReadLine(p: Pools, line: string) returns (q: Pools)
    ensures q == LineStep(p, line)
  {
    q := p;
    if line != [] && line[0] != '#' {
      var words := Words(line);
      var prefix := if words == [] then "" else words[0];
      var rest := if words == [] then [] else words[1..];
      if prefix == "v" {
        q := q.(positions := q.positions + [rest]);
      } else if prefix == "vn" {
        q := q.(normals := q.normals + [rest]);
      } else if prefix == "vt" {
        q := q.(texCoords := q.texCoords + [rest]);
      } else if prefix == "f" {
        var vertices, face := ReadFace(q, rest);
        var indices := AppendFan(q.indices, face);
        q := q.(vertices := vertices, indices := indices);
      }
    }
  }

  /** `LoadOBJ(path)`, given the file's text or `None` when it cannot be opened. */
  method LoadOBJ(file: Option<string>) returns (mesh: Mesh)
    ensures mesh == Load(file)
    ensures IndicesInRange(mesh.indices, |mesh.vertices|) && |mesh.indices| % 3 == 0
  {
    if file.None? {
      return Mesh([], []);
    }
    var lines := GetLines(file.value);
    var p := NoPools;
    var n := 0;
    while n < |lines|
      invariant 0 <= n <= |lines|
      invariant p == LoadLines(NoPools, lines[..n])
    {
      LoadLinesNext(lines, n);
      p := ReadLine(p, lines[n]);
      n := n + 1;
    }
    assert lines[..n] == lines;
    mesh := Mesh(p.vertices, p.indices);
  }
}
