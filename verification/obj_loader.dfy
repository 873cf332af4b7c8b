/** `load_obj` (src/obj_parser.cpp): reading the `v`, `o` and `f` records
    of a Wavefront OBJ text, then scaling the vertices and translating them
    so that the middle of their bounding box lands on a target point.

    The file's text is a parameter (opening and reading the file is not
    modelled).  `std::stod` and `std::stoi` are parameters too: `None`
    stands for the exception they throw, which `load_obj` does not catch. */
module ObjLoader {
  import opened Wrappers
  import opened Text
  import opened Geometry
  import opened Bounds
  import opened Mesh

  /** How loading stops.  `NumberError` is the uncaught exception of
      `std::stod`/`std::stoi` on `token`.  `Malformed` marks a line on
      which the source reads a token that is not there (an empty line, or
      a `v`, `o` or `f` record with too few fields): undefined behaviour,
      which `Load` excludes by its precondition. */
  datatype LoadError = NumberError(token: string) | Malformed(line: string)

  /** What one line contributes. */
  datatype Record =
    | VertexRecord(p: Point3d)
    | ObjectName(name: string)
    | FaceRecord(f: Face)
    | Other

  // ---------------------------------------------------------------------
  // One line

  function Tokens(line: string): seq<string> {
    Split(line, ' ')
  }

  /** The line has every token a record of its kind needs: the tag, three
      coordinates for `v`, a name for `o`, three non-empty fields for `f`. */
  predicate WellFormedLine(line: string) {
    var ts := Tokens(line);
    |ts| >= 1
    && (ts[0] == "v" ==> |ts| >= 4)
    && (ts[0] == "o" ==> |ts| >= 2)
    && (ts[0] == "f" ==> |ts| >= 4 && ts[1] != [] && ts[2] != [] && ts[3] != [])
  }

  /** On a well-formed line, every number the record needs reads. */
  predicate NumbersRead(line: string, stod: string -> Option<real>, stoi: string -> Option<int>)
    requires WellFormedLine(line)
  {
    var ts := Tokens(line);
    (ts[0] == "v" ==> stod(ts[1]).Some? && stod(ts[2]).Some? && stod(ts[3]).Some?)
    && (ts[0] == "f" ==> FaceIndex(ts[1], stoi).Ok? && FaceIndex(ts[2], stoi).Ok? && FaceIndex(ts[3], stoi).Ok?)
  }

  function ReadReal(token: string, stod: string -> Option<real>): Result<real, LoadError> {
    match stod(token)
    case None => Err(NumberError(token))
    case Some(x) => Ok(x)
  }

  /** The 0-based vertex index of a face field `v[/vt[/vn]]`: only the part
      before the first `/` is read, as a 1-based integer; when it does not
      parse, that part is what is reported. */
  function FaceIndex(field: string, stoi: string -> Option<int>): (r: Result<int, LoadError>)
    requires field != []
    ensures var first := field[..FirstIndex(field, '/')];
            '/' !in first
            && (r.Ok? ==> stoi(first) == Some(r.value + 1))
            && (r.Err? ==> r == Err(NumberError(first)) && stoi(first).None?)
  {
    SplitHead(field, '/');
    var first := Split(field, '/')[0];
    match stoi(first)
    case None => Err(NumberError(first))
    case Some(n) => Ok(n - 1)
  }

  /** `v abc`: the first coordinate fails to parse before the missing
      second one is reached, so loading stops with a number error. */
  lemma NumberErrorBeforeMissingField(stod: string -> Option<real>, stoi: string -> Option<int>)
    requires stod("abc").None?
    ensures ParseRecord("v abc", stod, stoi) == Err(NumberError("abc"))
  {
    SplitJoin(["v", "abc"], ' ');
    assert Join(["v", "abc"], ' ') == "v abc";
  }

  /** `f x  2`: the first field fails to parse before the empty second one
      is indexed. */
  lemma NumberErrorBeforeEmptyField(stod: string -> Option<real>, stoi: string -> Option<int>)
    requires stoi("x").None?
    ensures ParseRecord("f x  2", stod, stoi) == Err(NumberError("x"))
  {
    SplitJoin(["f", "x", "", "2"], ' ');
    assert Join(["f", "x", "", "2"], ' ') == "f x  2";
    assert FirstIndex("x", '/') == 1;
  }

  /** A quad such as `f 1 2 3 4` keeps its first three corners:
      `tokens[4]` is never read. */
  lemma QuadKeepsFirstThree(line: string, stod: string -> Option<real>, stoi: string -> Option<int>)
    requires Tokens(line) == ["f", "1", "2", "3", "4"]
    requires stoi("1") == Some(1) && stoi("2") == Some(2) && stoi("3") == Some(3)
    ensures ParseRecord(line, stod, stoi) == Ok(FaceRecord(Face(0, 1, 2)))
  {
    FaceIndexWhole("1", stoi);
    FaceIndexWhole("2", stoi);
    FaceIndexWhole("3", stoi);
    assert Tokens(line)[..4] == ["f", "1", "2", "3"];
    ParseFaceLine(line, Face(0, 1, 2), "1", "2", "3", stod, stoi);
  }

  /** The line `f 1 2 3 4` has those five tokens. */
  lemma QuadTokens()
    ensures Tokens("f 1 2 3 4") == ["f", "1", "2", "3", "4"]
  {
    SplitJoin(["f", "1", "2", "3", "4"], ' ');
    assert Join(["f", "1", "2", "3", "4"], ' ') == "f 1 2 3 4";
  }

  /** A face field without `/` is read whole. */
  lemma FaceIndexWhole(v: string, stoi: string -> Option<int>)
    requires v != [] && '/' !in v
    ensures FaceIndex(v, stoi) == if stoi(v).Some? then Ok(stoi(v).value - 1) else Err(NumberError(v))
  {
    assert FirstIndex(v, '/') == |v| by {
      assert forall j :: 0 <= j < |v| ==> v[j] != '/';
    }
    assert v[..|v|] == v;
  }

  /** The texture and normal indices after the first `/` are ignored. */
  lemma FaceIndexIgnoresTail(v: string, tail: string, stoi: string -> Option<int>)
    requires v != [] && '/' !in v
    ensures FaceIndex(v + ['/'] + tail, stoi) == FaceIndex(v, stoi)
  {
    FirstIndexAfter(v, '/', tail);
    assert (v + ['/'] + tail)[..|v|] == v;
    assert FirstIndex(v, '/') == |v| by {
      assert forall j :: 0 <= j < |v| ==> v[j] != '/';
    }
  }

  /** Coordinate `k` of a `v` line.  The coordinates are read left to
      right, so a missing token is reached only once the earlier ones have
      been read. */
  function ReadCoord(line: string, ts: seq<string>, k: nat, stod: string -> Option<real>): Result<real, LoadError> {
    if k < |ts| then ReadReal(ts[k], stod) else Err(Malformed(line))
  }

  /** Field `k` of an `f` line: `split(tokens[k], '/')[0]` read with
      `stoi`; an empty field has no part `[0]`. */
  function ReadField(line: string, ts: seq<string>, k: nat, stoi: string -> Option<int>): Result<int, LoadError>
    requires k < |ts|
  {
    if ts[k] == [] then Err(Malformed(line)) else FaceIndex(ts[k], stoi)
  }

  /** The body of the read loop for one line.  Fields are read left to
      right, and each is looked up only when the source reaches it: a
      number that does not parse is reported even when a later field is
      missing.  A line reads exactly when it is well formed and its numbers
      parse; it then yields a record of the kind its tag names. */
  function ParseRecord(line: string, stod: string -> Option<real>, stoi: string -> Option<int>): (r: Result<Record, LoadError>)
    ensures r.Ok? <==> WellFormedLine(line) && NumbersRead(line, stod, stoi)
    ensures r.Ok? ==> (r.value.VertexRecord? <==> Head(line) == "v")
                      && (r.value.ObjectName? <==> Head(line) == "o")
                      && (r.value.FaceRecord? <==> Head(line) == "f")
    ensures r.Err? ==> r.error == Malformed(line) || r.error.NumberError?
    ensures WellFormedLine(line) ==> r != Err(Malformed(line))
    ensures r.Err? && r.error.NumberError? ==>
              (Head(line) == "v" && stod(r.error.token).None?) || (Head(line) == "f" && stoi(r.error.token).None?)
    ensures var ts := Tokens(line);
            |ts| >= 2 && ts[0] == "v" && stod(ts[1]).None? ==> r == Err(NumberError(ts[1]))
  {
    var ts := Tokens(line);
    if ts == [] then Err(Malformed(line))
    else if ts[0] == "v" then
      match ReadCoord(line, ts, 1, stod)
      case Err(e) => Err(e)
      case Ok(x) =>
        match ReadCoord(line, ts, 2, stod)
        case Err(e) => Err(e)
        case Ok(y) =>
          match ReadCoord(line, ts, 3, stod)
          case Err(e) => Err(e)
          case Ok(z) => Ok(VertexRecord(Point3d(x, y, z)))
    else if ts[0] == "o" then
      if |ts| < 2 then Err(Malformed(line)) else Ok(ObjectName(ts[1]))
    else if ts[0] == "f" then
      if |ts| < 4 then Err(Malformed(line))
      else
        match ReadField(line, ts, 1, stoi)
        case Err(e) => Err(e)
        case Ok(v1) =>
          match ReadField(line, ts, 2, stoi)
          case Err(e) => Err(e)
          case Ok(v2) =>
            match ReadField(line, ts, 3, stoi)
            case Err(e) => Err(e)
            case Ok(v3) => Ok(FaceRecord(Face(v1, v2, v3)))
    else
      Ok(Other)
  }

  /** What a line that reads yields: a vertex of its first three
      coordinates, the name in its first token after `o`, or a face of the
      indices in its first three fields. Further tokens, such as a `w`
      coordinate or a quad's fourth corner, are never read. */
  lemma ParseRecordContents(line: string, stod: string -> Option<real>, stoi: string -> Option<int>)
    ensures var r := ParseRecord(line, stod, stoi); var ts := Tokens(line);
            r.Ok? && Head(line) == "v" ==>
              |ts| >= 4 && stod(ts[1]).Some? && stod(ts[2]).Some? && stod(ts[3]).Some?
              && r.value == VertexRecord(Point3d(stod(ts[1]).value, stod(ts[2]).value, stod(ts[3]).value))
    ensures var r := ParseRecord(line, stod, stoi); var ts := Tokens(line);
            r.Ok? && Head(line) == "o" ==> |ts| >= 2 && r.value == ObjectName(ts[1])
    ensures var r := ParseRecord(line, stod, stoi); var ts := Tokens(line);
            r.Ok? && Head(line) == "f" ==>
              |ts| >= 4 && ts[1] != [] && ts[2] != [] && ts[3] != []
              && FaceIndex(ts[1], stoi).Ok? && FaceIndex(ts[2], stoi).Ok? && FaceIndex(ts[3], stoi).Ok?
              && r.value == FaceRecord(Face(FaceIndex(ts[1], stoi).value, FaceIndex(ts[2], stoi).value,
                                            FaceIndex(ts[3], stoi).value))
  {
  }

  // ---------------------------------------------------------------------
  // Writing a record back as a line

  /** `show` prints numbers as single tokens that the reader maps back to
      the same value. */
  ghost predicate RealsReadBack(show: real -> string, stod: string -> Option<real>) {
    forall x :: stod(show(x)) == Some(x) && show(x) != [] && ' ' !in show(x)
  }

  ghost predicate IntsReadBack(show: int -> string, stoi: string -> Option<int>) {
    forall n :: stoi(show(n)) == Some(n) && show(n) != [] && ' ' !in show(n) && '/' !in show(n)
  }

  /** Object names the `o` line can carry: one non-empty token. */
  predicate Printable(rec: Record) {
    rec.ObjectName? ==> rec.name != [] && ' ' !in rec.name
  }

  function RecordTokens(rec: Record, showReal: real -> string, showInt: int -> string): seq<string> {
    match rec
    case VertexRecord(p) => ["v", showReal(p.x), showReal(p.y), showReal(p.z)]
    case ObjectName(name) => ["o", name]
    case FaceRecord(f) => ["f", showInt(f.v1 + 1), showInt(f.v2 + 1), showInt(f.v3 + 1)]
    case Other => ["#"]
  }

  /** An OBJ line for `rec`, with 1-based face indices. */
  function FormatRecord(rec: Record, showReal: real -> string, showInt: int -> string): string {
    Join(RecordTokens(rec, showReal, showInt), ' ')
  }

  lemma FaceIndexOfShown(n: int, showInt: int -> string, stoi: string -> Option<int>)
    requires IntsReadBack(showInt, stoi)
    ensures showInt(n) != [] && FaceIndex(showInt(n), stoi) == Ok(n - 1)
  {
    var s := showInt(n);
    assert FirstIndex(s, '/') == |s| by {
      assert forall j :: 0 <= j < |s| ==> s[j] != '/';
    }
  }

  /** Reading a written record gives the record back. */
  lemma ParseFormat(rec: Record, showReal: real -> string, showInt: int -> string,
                    stod: string -> Option<real>, stoi: string -> Option<int>)
    requires RealsReadBack(showReal, stod) && IntsReadBack(showInt, stoi) && Printable(rec)
    ensures ParseRecord(FormatRecord(rec, showReal, showInt), stod, stoi) == Ok(rec)
  {
    match rec
    case VertexRecord(p) => FormatVertex(p, showReal, showInt, stod, stoi);
    case ObjectName(name) => FormatName(name, showReal, showInt, stod, stoi);
    case FaceRecord(f) => FormatFace(f, showReal, showInt, stod, stoi);
    case Other => FormatOther(showReal, showInt, stod, stoi);
  }

  lemma FormatVertex(p: Point3d, showReal: real -> string, showInt: int -> string,
                     stod: string -> Option<real>, stoi: string -> Option<int>)
    requires RealsReadBack(showReal, stod)
    ensures ParseRecord(FormatRecord(VertexRecord(p), showReal, showInt), stod, stoi) == Ok(VertexRecord(p))
  {
    var ts := RecordTokens(VertexRecord(p), showReal, showInt);
    assert ts == ["v", showReal(p.x), showReal(p.y), showReal(p.z)];
    assert forall i :: 0 <= i < |ts| ==> ' ' !in ts[i];
    SplitJoin(ts, ' ');
    ParseVertexLine(FormatRecord(VertexRecord(p), showReal, showInt), p, ts[1], ts[2], ts[3], stod, stoi);
  }

  lemma FormatName(name: string, showReal: real -> string, showInt: int -> string,
                   stod: string -> Option<real>, stoi: string -> Option<int>)
    requires name != [] && ' ' !in name
    ensures ParseRecord(FormatRecord(ObjectName(name), showReal, showInt), stod, stoi) == Ok(ObjectName(name))
  {
    var ts := RecordTokens(ObjectName(name), showReal, showInt);
    assert ts == ["o", name];
    SplitJoin(ts, ' ');
    ParseNameLine(FormatRecord(ObjectName(name), showReal, showInt), name, stod, stoi);
  }

  lemma FormatFace(f: Face, showReal: real -> string, showInt: int -> string,
                   stod: string -> Option<real>, stoi: string -> Option<int>)
    requires IntsReadBack(showInt, stoi)
    ensures ParseRecord(FormatRecord(FaceRecord(f), showReal, showInt), stod, stoi) == Ok(FaceRecord(f))
  {
    var ts := RecordTokens(FaceRecord(f), showReal, showInt);
    assert ts == ["f", showInt(f.v1 + 1), showInt(f.v2 + 1), showInt(f.v3 + 1)];
    assert forall i :: 0 <= i < |ts| ==> ' ' !in ts[i];
    SplitJoin(ts, ' ');
    FaceIndexOfShown(f.v1 + 1, showInt, stoi);
    FaceIndexOfShown(f.v2 + 1, showInt, stoi);
    FaceIndexOfShown(f.v3 + 1, showInt, stoi);
    ParseFaceLine(FormatRecord(FaceRecord(f), showReal, showInt), f, ts[1], ts[2], ts[3], stod, stoi);
  }

  lemma FormatOther(showReal: real -> string, showInt: int -> string,
                    stod: string -> Option<real>, stoi: string -> Option<int>)
    ensures ParseRecord(FormatRecord(Other, showReal, showInt), stod, stoi) == Ok(Other)
  {
    var ts := RecordTokens(Other, showReal, showInt);
    assert ts == ["#"];
    SplitJoin(ts, ' ');
    ParseOtherLine(FormatRecord(Other, showReal, showInt), stod, stoi);
  }

  lemma ParseVertexLine(line: string, p: Point3d, sx: string, sy: string, sz: string,
                        stod: string -> Option<real>, stoi: string -> Option<int>)
    requires |Tokens(line)| >= 4 && Tokens(line)[..4] == ["v", sx, sy, sz]
    requires stod(sx) == Some(p.x) && stod(sy) == Some(p.y) && stod(sz) == Some(p.z)
    ensures ParseRecord(line, stod, stoi) == Ok(VertexRecord(p))
  {
  }

  lemma ParseNameLine(line: string, name: string, stod: string -> Option<real>, stoi: string -> Option<int>)
    requires |Tokens(line)| >= 2 && Tokens(line)[..2] == ["o", name]
    ensures ParseRecord(line, stod, stoi) == Ok(ObjectName(name))
  {
  }

  lemma ParseFaceLine(line: string, f: Face, s1: string, s2: string, s3: string,
                      stod: string -> Option<real>, stoi: string -> Option<int>)
    requires |Tokens(line)| >= 4 && Tokens(line)[..4] == ["f", s1, s2, s3]
    requires s1 != [] && s2 != [] && s3 != []
    requires FaceIndex(s1, stoi) == Ok(f.v1) && FaceIndex(s2, stoi) == Ok(f.v2) && FaceIndex(s3, stoi) == Ok(f.v3)
    ensures ParseRecord(line, stod, stoi) == Ok(FaceRecord(f))
  {
  }

  lemma ParseOtherLine(line: string, stod: string -> Option<real>, stoi: string -> Option<int>)
    requires Tokens(line) == ["#"]
    ensures ParseRecord(line, stod, stoi) == Ok(Other)
  {
  }

  // ---------------------------------------------------------------------
  // The read loop

  /** The local variables `name`, `vert` and `faces` of `load_obj`. */
  datatype ParseState = ParseState(name: string, vert: seq<Point3d>, faces: seq<Face>)

  const Initial := ParseState("", [], [])

  /** The vertex a record adds, if any. */
  function RecordVerts(rec: Record): seq<Point3d> {
    if rec.VertexRecord? then [rec.p] else []
  }

  /** The face a record adds, if any. */
  function RecordFaces(rec: Record): seq<Face> {
    if rec.FaceRecord? then [rec.f] else []
  }

  /** One pass of the loop body: a `v` record pushes its vertex, an `f`
      record its face, an `o` record sets the name. */
  function Apply(st: ParseState, rec: Record): (r: ParseState)
    ensures r.vert == st.vert + RecordVerts(rec) && r.faces == st.faces + RecordFaces(rec)
    ensures r.name == (if rec.ObjectName? then rec.name else st.name)
  {
    match rec
    case VertexRecord(p) => st.(vert := st.vert + [p])
    case ObjectName(name) => st.(name := name)
    case FaceRecord(f) => st.(faces := st.faces + [f])
    case Other => st
  }

  /** The read loop over `lines` from state `st`; it stops at the first
      line that fails.  It only appends to the vertices and faces already
      read, and an error it reports is the error of one of the lines. */
  function ParseFrom(st: ParseState, lines: seq<string>, stod: string -> Option<real>, stoi: string -> Option<int>): (r: Result<ParseState, LoadError>)
    ensures r.Ok? ==> st.vert <= r.value.vert && st.faces <= r.value.faces
    ensures r.Err? ==> exists i :: 0 <= i < |lines| && ParseRecord(lines[i], stod, stoi) == Err(r.error)
    decreases |lines|
  {
    if lines == [] then Ok(st)
    else
      match ParseRecord(lines[0], stod, stoi)
      case Err(e) => Err(e)
      case Ok(rec) =>
        var r := ParseFrom(Apply(st, rec), lines[1..], stod, stoi);
        assert forall i :: 1 <= i < |lines| ==> lines[i] == lines[1..][i - 1];
        r
  }

  /** A non-empty line that is not a `v`, `o` or `f` record (a comment,
      `vt`, `vn`, `s`, `usemtl`, ...) is skipped. */
  lemma OtherLineSkipped(st: ParseState, line: string, rest: seq<string>,
                         stod: string -> Option<real>, stoi: string -> Option<int>)
    requires line != [] && Head(line) != "v" && Head(line) != "o" && Head(line) != "f"
    ensures ParseFrom(st, [line] + rest, stod, stoi) == ParseFrom(st, rest, stod, stoi)
  {
    assert ([line] + rest)[1..] == rest;
    assert ParseRecord(line, stod, stoi) == Ok(Other);
  }

  /** Reading `a + b` is reading `a`, then reading `b` from where `a` left
      off. */
  lemma {:induction false} ParseFromConcat(st: ParseState, a: seq<string>, b: seq<string>,
                                          stod: string -> Option<real>, stoi: string -> Option<int>)
    ensures ParseFrom(st, a + b, stod, stoi)
            == match ParseFrom(st, a, stod, stoi)
               case Err(e) => Err(e)
               case Ok(mid) => ParseFrom(mid, b, stod, stoi)
    decreases |a|
  {
    if a == [] {
      assert a + b == b;
    } else {
      assert (a + b)[0] == a[0];
      assert (a + b)[1..] == a[1..] + b;
      match ParseRecord(a[0], stod, stoi)
      case Err(e) =>
      case Ok(rec) => ParseFromConcat(Apply(st, rec), a[1..], b, stod, stoi);
    }
  }

  /** Reading succeeds exactly when every line reads; otherwise the error
      is the one of the first line that fails. */
  lemma {:induction false} ParseFromErrors(st: ParseState, lines: seq<string>,
                                          stod: string -> Option<real>, stoi: string -> Option<int>)
    ensures var r := ParseFrom(st, lines, stod, stoi);
            r.Ok? <==> forall i :: 0 <= i < |lines| ==> ParseRecord(lines[i], stod, stoi).Ok?
    ensures var r := ParseFrom(st, lines, stod, stoi);
            r.Err? ==> exists i :: 0 <= i < |lines| && ParseRecord(lines[i], stod, stoi) == Err(r.error)
                        && forall j :: 0 <= j < i ==> ParseRecord(lines[j], stod, stoi).Ok?
    decreases |lines|
  {
    if lines != [] {
      match ParseRecord(lines[0], stod, stoi)
      case Err(e) =>
      case Ok(rec) =>
        var rest := lines[1..];
        ParseFromErrors(Apply(st, rec), rest, stod, stoi);
        assert forall i :: 1 <= i < |lines| ==> lines[i] == rest[i - 1];
        var r := ParseFrom(st, lines, stod, stoi);
        if r.Err? {
          var i :| 0 <= i < |rest| && ParseRecord(rest[i], stod, stoi) == Err(r.error)
                   && forall j :: 0 <= j < i ==> ParseRecord(rest[j], stod, stoi).Ok?;
          assert ParseRecord(lines[i + 1], stod, stoi) == Err(r.error);
        }
    }
  }

  /** The first token of a line, or the empty string for an empty line. */
  function Head(line: string): string {
    var ts := Tokens(line);
    if ts == [] then "" else ts[0]
  }

  /** How many lines start with `tag`. */
  function CountTag(lines: seq<string>, tag: string): nat
    decreases |lines|
  {
    if lines == [] then 0 else (if Head(lines[0]) == tag then 1 else 0) + CountTag(lines[1..], tag)
  }

  /** The vertices the `v` lines among `lines` carry, in file order. */
  function VertsOf(lines: seq<string>, stod: string -> Option<real>, stoi: string -> Option<int>): seq<Point3d>
    decreases |lines|
  {
    if lines == [] then []
    else
      var here := if ParseRecord(lines[0], stod, stoi).Ok? then RecordVerts(ParseRecord(lines[0], stod, stoi).value) else [];
      here + VertsOf(lines[1..], stod, stoi)
  }

  /** The faces the `f` lines among `lines` carry, in file order. */
  function FacesOf(lines: seq<string>, stod: string -> Option<real>, stoi: string -> Option<int>): seq<Face>
    decreases |lines|
  {
    if lines == [] then []
    else
      var here := if ParseRecord(lines[0], stod, stoi).Ok? then RecordFaces(ParseRecord(lines[0], stod, stoi).value) else [];
      here + FacesOf(lines[1..], stod, stoi)
  }

  /** The loop appends, after what was read before, exactly the vertices of
      the `v` lines and the faces of the `f` lines, in file order. */
  lemma ParseFromContents(st: ParseState, lines: seq<string>,
                          stod: string -> Option<real>, stoi: string -> Option<int>)
    ensures var r := ParseFrom(st, lines, stod, stoi);
            r.Ok? ==> r.value.vert == st.vert + VertsOf(lines, stod, stoi)
                      && r.value.faces == st.faces + FacesOf(lines, stod, stoi)
  {
    ParseFromVerts(st, lines, stod, stoi);
    ParseFromFaces(st, lines, stod, stoi);
  }

  lemma {:induction false} ParseFromVerts(st: ParseState, lines: seq<string>,
                                         stod: string -> Option<real>, stoi: string -> Option<int>)
    ensures var r := ParseFrom(st, lines, stod, stoi);
            r.Ok? ==> r.value.vert == st.vert + VertsOf(lines, stod, stoi)
    decreases |lines|
  {
    if lines == [] {
      assert st.vert + [] == st.vert;
    } else {
      var rest := lines[1..];
      var head := ParseRecord(lines[0], stod, stoi);
      if head.Ok? {
        var next := Apply(st, head.value);
        ParseFromStep(st, lines, stod, stoi);
        ParseFromVerts(next, rest, stod, stoi);
        ConcatAssoc(st.vert, RecordVerts(head.value), VertsOf(rest, stod, stoi));
      }
    }
  }

  lemma {:induction false} ParseFromFaces(st: ParseState, lines: seq<string>,
                                         stod: string -> Option<real>, stoi: string -> Option<int>)
    ensures var r := ParseFrom(st, lines, stod, stoi);
            r.Ok? ==> r.value.faces == st.faces + FacesOf(lines, stod, stoi)
    decreases |lines|
  {
    if lines == [] {
      assert st.faces + [] == st.faces;
    } else {
      var rest := lines[1..];
      var head := ParseRecord(lines[0], stod, stoi);
      if head.Ok? {
        var next := Apply(st, head.value);
        ParseFromStep(st, lines, stod, stoi);
        ParseFromFaces(next, rest, stod, stoi);
        ConcatAssoc(st.faces, RecordFaces(head.value), FacesOf(rest, stod, stoi));
      }
    }
  }

  lemma ConcatAssoc<T>(a: seq<T>, b: seq<T>, c: seq<T>)
    ensures a + b + c == a + (b + c)
  {
  }

  /** One turn of the loop, on a line that reads. */
  lemma ParseFromStep(st: ParseState, lines: seq<string>, stod: string -> Option<real>, stoi: string -> Option<int>)
    requires lines != [] && ParseRecord(lines[0], stod, stoi).Ok?
    ensures var rec := ParseRecord(lines[0], stod, stoi).value;
            ParseFrom(st, lines, stod, stoi) == ParseFrom(Apply(st, rec), lines[1..], stod, stoi)
            && VertsOf(lines, stod, stoi) == RecordVerts(rec) + VertsOf(lines[1..], stod, stoi)
            && FacesOf(lines, stod, stoi) == RecordFaces(rec) + FacesOf(lines[1..], stod, stoi)
  {
  }

  /** One vertex per `v` line and one face per `f` line, appended after
      what was read before. */
  lemma {:induction false} ParseFromCounts(st: ParseState, lines: seq<string>,
                                          stod: string -> Option<real>, stoi: string -> Option<int>)
    ensures var r := ParseFrom(st, lines, stod, stoi);
            r.Ok? ==> |r.value.vert| == |st.vert| + CountTag(lines, "v")
                      && |r.value.faces| == |st.faces| + CountTag(lines, "f")
                      && st.vert <= r.value.vert && st.faces <= r.value.faces
    decreases |lines|
  {
    if lines != [] {
      match ParseRecord(lines[0], stod, stoi)
      case Err(e) =>
      case Ok(rec) =>
        ApplyCounts(st, lines[0], stod, stoi);
        ParseFromCounts(Apply(st, rec), lines[1..], stod, stoi);
    }
  }

  /** A line that reads adds one vertex if it is a `v` line and one face if
      it is an `f` line, after what was there. */
  lemma ApplyCounts(st: ParseState, line: string, stod: string -> Option<real>, stoi: string -> Option<int>)
    requires ParseRecord(line, stod, stoi).Ok?
    ensures var next := Apply(st, ParseRecord(line, stod, stoi).value);
            |next.vert| == |st.vert| + (if Head(line) == "v" then 1 else 0)
            && |next.faces| == |st.faces| + (if Head(line) == "f" then 1 else 0)
            && st.vert <= next.vert && st.faces <= next.faces
  {
  }

  /** The name an `o` line sets, if it is one. */
  function ObjectNameOf(line: string): Option<string> {
    var ts := Tokens(line);
    if |ts| >= 2 && ts[0] == "o" then Some(ts[1]) else None
  }

  /** The token of the last `o` line, or `dflt` when there is none. */
  function LastObjectName(lines: seq<string>, dflt: string): string
    decreases |lines|
  {
    if lines == [] then dflt
    else
      match ObjectNameOf(lines[|lines| - 1])
      case Some(n) => n
      case None => LastObjectName(lines[..|lines| - 1], dflt)
  }

  lemma ApplyName(st: ParseState, line: string, stod: string -> Option<real>, stoi: string -> Option<int>)
    requires ParseRecord(line, stod, stoi).Ok?
    ensures Apply(st, ParseRecord(line, stod, stoi).value).name
            == match ObjectNameOf(line) case Some(n) => n case None => st.name
  {
  }

  /** A later `o` line overrides an earlier one. */
  lemma {:induction false} ParseFromName(st: ParseState, lines: seq<string>,
                                        stod: string -> Option<real>, stoi: string -> Option<int>)
    ensures var r := ParseFrom(st, lines, stod, stoi);
            r.Ok? ==> r.value.name == LastObjectName(lines, st.name)
    decreases |lines|
  {
    if lines != [] {
      var init := lines[..|lines| - 1];
      var last := lines[|lines| - 1];
      assert lines == init + [last];
      ParseFromConcat(st, init, [last], stod, stoi);
      ParseFromName(st, init, stod, stoi);
      match ParseFrom(st, init, stod, stoi)
      case Err(e) =>
      case Ok(mid) =>
        assert [last][1..] == [];
        if ParseRecord(last, stod, stoi).Ok? {
          ApplyName(mid, last, stod, stoi);
        }
    }
  }

  // ---------------------------------------------------------------------
  // Scaling and centring

  function ScalePoint(p: Point3d, scale: int): (q: Point3d)
    ensures forall a :: Coord(q, a) == Coord(p, a) * scale as real
  {
    Point3d(p.x * scale as real, p.y * scale as real, p.z * scale as real)
  }

  function Translate(p: Point3d, o: Point3d): (q: Point3d)
    ensures forall a :: Coord(q, a) == Coord(p, a) + Coord(o, a)
  {
    Point3d(p.x + o.x, p.y + o.y, p.z + o.z)
  }

  function Difference(p: Point3d, q: Point3d): (d: Point3d)
    ensures Translate(q, d) == p
  {
    Point3d(p.x - q.x, p.y - q.y, p.z - q.z)
  }

  function ScaleAll(vert: seq<Point3d>, scale: int): (r: seq<Point3d>)
    ensures |r| == |vert| && forall i :: 0 <= i < |vert| ==> r[i] == ScalePoint(vert[i], scale)
  {
    seq(|vert|, i requires 0 <= i < |vert| => ScalePoint(vert[i], scale))
  }

  function TranslateAll(pts: seq<Point3d>, o: Point3d): (r: seq<Point3d>)
    ensures |r| == |pts| && forall i :: 0 <= i < |pts| ==> r[i] == Translate(pts[i], o)
  {
    seq(|pts|, i requires 0 <= i < |pts| => Translate(pts[i], o))
  }

  const AllAxes: set<Axis> := {X, Y, Z}

  /** A box holding every point. */
  function Extent(pts: seq<Point3d>): (box: BBox)
    requires |pts| > 0
    ensures forall i, a :: 0 <= i < |pts| ==> WithinOn(box, pts[i], a)
  {
    FoldBox(BBox(pts[0], pts[0]), pts, AllAxes)
  }

  /** It is the smallest such box: each entry is attained by some point. */
  lemma ExtentAttained(pts: seq<Point3d>, a: Axis)
    requires |pts| > 0
    ensures exists i :: 0 <= i < |pts| && Coord(pts[i], a) == Coord(Extent(pts).lo, a)
    ensures exists i :: 0 <= i < |pts| && Coord(pts[i], a) == Coord(Extent(pts).hi, a)
  {
    var lo := FoldMin(Coord(pts[0], a), pts, a);
    var hi := FoldMax(Coord(pts[0], a), pts, a);
    assert Coord(Extent(pts).lo, a) == lo && Coord(Extent(pts).hi, a) == hi;
    if lo == Coord(pts[0], a) {
      assert Coord(pts[0], a) == Coord(Extent(pts).lo, a);
    }
    if hi == Coord(pts[0], a) {
      assert Coord(pts[0], a) == Coord(Extent(pts).hi, a);
    }
  }

  /** The model that `load_obj` returns once the box is known: the box's
      midpoint is `model_center`, and every vertex moves by the offset from
      it to `center`. */
  function Centre(name: string, scaled: seq<Point3d>, faces: seq<Face>, box: BBox, center: Point3d, scale: int): (m: Model)
    ensures |m.vertices| == |scaled|
    ensures forall i :: 0 <= i < |scaled| ==> m.vertices[i] == Translate(scaled[i], m.offset)
    ensures Translate(m.modelCenter, m.offset) == center
    ensures m.modelCenter == Midpoint(box) && m.bbox == box
    ensures m.name == name && m.triangles == [] && m.faces == faces && m.scale == scale as real
  {
    var mid := Midpoint(box);
    var offset := Difference(center, mid);
    Model(name, TranslateAll(scaled, offset), [], faces, box, mid, scale as real, offset)
  }

  /** Scaling and centring as `load_obj` writes it: the running minimum
      and maximum start from the first vertex BEFORE scaling, so the box
      stored is the extent of the scaled vertices together with the
      unscaled first vertex, and it is that box's middle that lands on
      `center`. */
  function NormaliseAsWritten(name: string, vert: seq<Point3d>, faces: seq<Face>, center: Point3d, scale: int): (m: Model)
    requires |vert| > 0
    ensures |m.vertices| == |vert|
    ensures forall i :: 0 <= i < |vert| ==> m.vertices[i] == Translate(ScalePoint(vert[i], scale), m.offset)
    ensures m.bbox == Extent([vert[0]] + ScaleAll(vert, scale))
    ensures m.modelCenter == Midpoint(m.bbox) && Translate(m.modelCenter, m.offset) == center
    ensures m.name == name && m.triangles == [] && m.faces == faces && m.scale == scale as real
  {
    var scaled := ScaleAll(vert, scale);
    SeededFold(vert[0], scaled);
    Centre(name, scaled, faces, FoldBox(BBox(vert[0], vert[0]), scaled, AllAxes), center, scale)
  }

  /** Folding from a seed point is folding a list that starts with it. */
  lemma SeededFold(p: Point3d, pts: seq<Point3d>)
    ensures FoldBox(BBox(p, p), pts, AllAxes) == Extent([p] + pts)
  {
    var qs := [p] + pts;
    assert qs[1..] == pts;
    var b1 := FoldBox(BBox(p, p), pts, AllAxes);
    var b2 := Extent(qs);
    forall a
      ensures Coord(b1.lo, a) == Coord(b2.lo, a) && Coord(b1.hi, a) == Coord(b2.hi, a)
    {
      assert a in AllAxes;
      assert Min(Coord(p, a), Coord(qs[0], a)) == Coord(p, a);
      assert Max(Coord(p, a), Coord(qs[0], a)) == Coord(p, a);
    }
    SameCoords(b1.lo, b2.lo);
    SameCoords(b1.hi, b2.hi);
  }

  lemma SameCoords(p: Point3d, q: Point3d)
    requires forall a :: Coord(p, a) == Coord(q, a)
    ensures p == q
  {
    assert Coord(p, X) == Coord(q, X) && Coord(p, Y) == Coord(q, Y) && Coord(p, Z) == Coord(q, Z);
  }

  /** The first vertex, unscaled, lies within the extent of the scaled
      vertices on every axis. */
  predicate SeedWithin(vert: seq<Point3d>, scale: int)
    requires |vert| > 0
  {
    forall a :: WithinOn(Extent(ScaleAll(vert, scale)), vert[0], a)
  }

  /** A point within the extent of `pts` does not widen it. */
  lemma ExtentAbsorbs(p: Point3d, pts: seq<Point3d>)
    requires |pts| > 0 && forall a :: WithinOn(Extent(pts), p, a)
    ensures Extent([p] + pts) == Extent(pts)
  {
    forall a
      ensures Coord(Extent([p] + pts).lo, a) == Coord(Extent(pts).lo, a)
      ensures Coord(Extent([p] + pts).hi, a) == Coord(Extent(pts).hi, a)
    {
      AbsorbLo(p, pts, a);
      AbsorbHi(p, pts, a);
    }
    SameCoords(Extent([p] + pts).lo, Extent(pts).lo);
    SameCoords(Extent([p] + pts).hi, Extent(pts).hi);
  }

  lemma AbsorbLo(p: Point3d, pts: seq<Point3d>, a: Axis)
    requires |pts| > 0 && WithinOn(Extent(pts), p, a)
    ensures Coord(Extent([p] + pts).lo, a) == Coord(Extent(pts).lo, a)
  {
    ExtentAttained(pts, a);
    ExtentAttained([p] + pts, a);
    ConsFacts(p, pts, Extent([p] + pts), a);
    BoxesAgree(p, pts, Extent(pts), Extent([p] + pts), a);
  }

  lemma AbsorbHi(p: Point3d, pts: seq<Point3d>, a: Axis)
    requires |pts| > 0 && WithinOn(Extent(pts), p, a)
    ensures Coord(Extent([p] + pts).hi, a) == Coord(Extent(pts).hi, a)
  {
    ExtentAttained(pts, a);
    ExtentAttained([p] + pts, a);
    ConsFacts(p, pts, Extent([p] + pts), a);
    BoxesAgree(p, pts, Extent(pts), Extent([p] + pts), a);
  }

  /** What holds of `[p] + pts` holds of `p` and of each point of `pts`. */
  lemma ConsFacts(p: Point3d, pts: seq<Point3d>, f: BBox, a: Axis)
    requires forall i :: 0 <= i < |[p] + pts| ==> WithinOn(f, ([p] + pts)[i], a)
    requires exists i :: 0 <= i < |[p] + pts| && Coord(([p] + pts)[i], a) == Coord(f.lo, a)
    requires exists i :: 0 <= i < |[p] + pts| && Coord(([p] + pts)[i], a) == Coord(f.hi, a)
    ensures WithinOn(f, p, a) && forall i :: 0 <= i < |pts| ==> WithinOn(f, pts[i], a)
    ensures Coord(f.lo, a) == Coord(p, a) || exists i :: 0 <= i < |pts| && Coord(pts[i], a) == Coord(f.lo, a)
    ensures Coord(f.hi, a) == Coord(p, a) || exists i :: 0 <= i < |pts| && Coord(pts[i], a) == Coord(f.hi, a)
  {
    var qs := [p] + pts;
    assert qs[0] == p;
    forall i | 0 <= i < |pts|
      ensures WithinOn(f, pts[i], a)
    {
      assert qs[i + 1] == pts[i];
    }
    var k :| 0 <= k < |qs| && Coord(qs[k], a) == Coord(f.lo, a);
    if k > 0 {
      assert qs[k] == pts[k - 1];
    }
    var l :| 0 <= l < |qs| && Coord(qs[l], a) == Coord(f.hi, a);
    if l > 0 {
      assert qs[l] == pts[l - 1];
    }
  }

  /** Two boxes that both hold `p` and `pts` on `a`, each with entries
      attained there, where `p` adds nothing to the first, agree on `a`. */
  lemma BoxesAgree(p: Point3d, pts: seq<Point3d>, e: BBox, f: BBox, a: Axis)
    requires forall i :: 0 <= i < |pts| ==> WithinOn(e, pts[i], a) && WithinOn(f, pts[i], a)
    requires WithinOn(e, p, a) && WithinOn(f, p, a)
    requires exists i :: 0 <= i < |pts| && Coord(pts[i], a) == Coord(e.lo, a)
    requires exists i :: 0 <= i < |pts| && Coord(pts[i], a) == Coord(e.hi, a)
    requires Coord(f.lo, a) == Coord(p, a) || exists i :: 0 <= i < |pts| && Coord(pts[i], a) == Coord(f.lo, a)
    requires Coord(f.hi, a) == Coord(p, a) || exists i :: 0 <= i < |pts| && Coord(pts[i], a) == Coord(f.hi, a)
    ensures Coord(f.lo, a) == Coord(e.lo, a) && Coord(f.hi, a) == Coord(e.hi, a)
  {
  }

  /** The code as written stores the extent of the scaled vertices exactly
      when the unscaled first vertex lies within that extent; then it agrees
      with the corrected form and the loaded vertices are centred on
      `center`. */
  lemma NormaliseAsWrittenCentres(name: string, vert: seq<Point3d>, faces: seq<Face>, center: Point3d, scale: int)
    requires |vert| > 0
    ensures SeedWithin(vert, scale)
            <==> NormaliseAsWritten(name, vert, faces, center, scale).bbox == Extent(ScaleAll(vert, scale))
    ensures SeedWithin(vert, scale) ==>
              NormaliseAsWritten(name, vert, faces, center, scale) == Normalise(name, vert, faces, center, scale)
              && Midpoint(Extent(NormaliseAsWritten(name, vert, faces, center, scale).vertices)) == center
  {
    if SeedWithin(vert, scale) {
      SeedWithinAgrees(name, vert, faces, center, scale);
    }
    if NormaliseAsWritten(name, vert, faces, center, scale).bbox == Extent(ScaleAll(vert, scale)) {
      SeedWithinNeeded(vert[0], ScaleAll(vert, scale));
    }
  }

  lemma SeedWithinAgrees(name: string, vert: seq<Point3d>, faces: seq<Face>, center: Point3d, scale: int)
    requires |vert| > 0 && SeedWithin(vert, scale)
    ensures NormaliseAsWritten(name, vert, faces, center, scale) == Normalise(name, vert, faces, center, scale)
    ensures Midpoint(Extent(Normalise(name, vert, faces, center, scale).vertices)) == center
  {
    var scaled := ScaleAll(vert, scale);
    ExtentAbsorbs(vert[0], scaled);
    SeededFold(vert[0], scaled);
    NormaliseCentres(name, vert, faces, center, scale);
  }

  /** A box holding the seed is the extent only if the seed lies within it. */
  lemma SeedWithinNeeded(p: Point3d, pts: seq<Point3d>)
    requires |pts| > 0 && Extent([p] + pts) == Extent(pts)
    ensures forall a :: WithinOn(Extent(pts), p, a)
  {
    forall a
      ensures WithinOn(Extent(pts), p, a)
    {
      assert ([p] + pts)[0] == p;
      assert WithinOn(Extent([p] + pts), ([p] + pts)[0], a);
    }
  }

  /** At scale 1 the first vertex is one of the scaled ones. */
  lemma UnitScaleSeedWithin(vert: seq<Point3d>)
    requires |vert| > 0
    ensures SeedWithin(vert, 1)
  {
    assert ScaleAll(vert, 1)[0] == vert[0];
  }

  /** Scaling and centring with the running minimum and maximum started
      from the first SCALED vertex: the box is the extent of the scaled
      vertices. */
  function Normalise(name: string, vert: seq<Point3d>, faces: seq<Face>, center: Point3d, scale: int): (m: Model)
    requires |vert| > 0
    ensures |m.vertices| == |vert|
    ensures forall i :: 0 <= i < |vert| ==> m.vertices[i] == Translate(ScalePoint(vert[i], scale), m.offset)
    ensures m.bbox == Extent(ScaleAll(vert, scale))
    ensures Translate(m.modelCenter, m.offset) == center
    ensures m.name == name && m.triangles == [] && m.faces == faces && m.scale == scale as real
  {
    var scaled := ScaleAll(vert, scale);
    Centre(name, scaled, faces, Extent(scaled), center, scale)
  }

  /** At scale 1 the two agree. */
  lemma NormaliseAtUnitScale(name: string, vert: seq<Point3d>, faces: seq<Face>, center: Point3d)
    requires |vert| > 0
    ensures NormaliseAsWritten(name, vert, faces, center, 1) == Normalise(name, vert, faces, center, 1)
  {
    assert ScaleAll(vert, 1)[0] == vert[0];
  }

  /** The extent of one point is that point. */
  lemma ExtentSingle(q: Point3d)
    ensures Extent([q]) == BBox(q, q)
  {
    var e := Extent([q]);
    assert Coord(e.lo, X) == q.x && Coord(e.lo, Y) == q.y && Coord(e.lo, Z) == q.z;
    assert Coord(e.hi, X) == q.x && Coord(e.hi, Y) == q.y && Coord(e.hi, Z) == q.z;
  }

  /** One vertex `(1, 1, 1)` at scale 2 centred on the origin: the box
      written runs from `(1, 1, 1)`, which no scaled vertex has, to
      `(2, 2, 2)`, so the only vertex ends at `(0.5, 0.5, 0.5)` rather than
      at the origin. */
  lemma AsWrittenMissesCenter()
    ensures var m := NormaliseAsWritten("", [Point3d(1.0, 1.0, 1.0)], [], Origin3d, 2);
            m.bbox == BBox(Point3d(1.0, 1.0, 1.0), Point3d(2.0, 2.0, 2.0))
            && m.vertices == [Point3d(0.5, 0.5, 0.5)]
            && Midpoint(Extent(m.vertices)) != Origin3d
  {
    var one := Point3d(1.0, 1.0, 1.0);
    var two := Point3d(2.0, 2.0, 2.0);
    assert ScaleAll([one], 2) == [two];
    FoldPairBox(one, two);
    var m := Centre("", [two], [], BBox(one, two), Origin3d, 2);
    assert m.offset == Point3d(-1.5, -1.5, -1.5);
    assert m.vertices == [Point3d(0.5, 0.5, 0.5)];
    ExtentSingle(Point3d(0.5, 0.5, 0.5));
  }

  /** Folding a point into the box of a smaller one spans the two. */
  lemma FoldPairBox(p: Point3d, q: Point3d)
    requires p.x <= q.x && p.y <= q.y && p.z <= q.z
    ensures FoldBox(BBox(p, p), [q], AllAxes) == BBox(p, q)
  {
    var box := FoldBox(BBox(p, p), [q], AllAxes);
    assert Coord(box.lo, X) == p.x && Coord(box.lo, Y) == p.y && Coord(box.lo, Z) == p.z;
    assert Coord(box.hi, X) == q.x && Coord(box.hi, Y) == q.y && Coord(box.hi, Z) == q.z;
  }

  /** Translating every point moves a running minimum by the same amount. */
  lemma {:induction false} FoldMinTranslate(seed: real, pts: seq<Point3d>, o: Point3d, k: Axis)
    ensures FoldMin(seed + Coord(o, k), TranslateAll(pts, o), k) == FoldMin(seed, pts, k) + Coord(o, k)
    decreases |pts|
  {
    if pts != [] {
      var moved := TranslateAll(pts, o);
      assert moved[1..] == TranslateAll(pts[1..], o);
      FoldMinTranslate(Min(seed, Coord(pts[0], k)), pts[1..], o, k);
    }
  }

  lemma {:induction false} FoldMaxTranslate(seed: real, pts: seq<Point3d>, o: Point3d, k: Axis)
    ensures FoldMax(seed + Coord(o, k), TranslateAll(pts, o), k) == FoldMax(seed, pts, k) + Coord(o, k)
    decreases |pts|
  {
    if pts != [] {
      var moved := TranslateAll(pts, o);
      assert moved[1..] == TranslateAll(pts[1..], o);
      FoldMaxTranslate(Max(seed, Coord(pts[0], k)), pts[1..], o, k);
    }
  }

  lemma ExtentTranslateOn(pts: seq<Point3d>, o: Point3d, a: Axis)
    requires |pts| > 0
    ensures Coord(Extent(TranslateAll(pts, o)).lo, a) == Coord(Extent(pts).lo, a) + Coord(o, a)
    ensures Coord(Extent(TranslateAll(pts, o)).hi, a) == Coord(Extent(pts).hi, a) + Coord(o, a)
  {
    var moved := TranslateAll(pts, o);
    assert Coord(moved[0], a) == Coord(pts[0], a) + Coord(o, a);
    FoldMinTranslate(Coord(pts[0], a), pts, o, a);
    FoldMaxTranslate(Coord(pts[0], a), pts, o, a);
  }

  /** The extent of translated points is the translated extent. */
  lemma ExtentTranslate(pts: seq<Point3d>, o: Point3d)
    requires |pts| > 0
    ensures Midpoint(Extent(TranslateAll(pts, o))) == Translate(Midpoint(Extent(pts)), o)
  {
    var c1 := Midpoint(Extent(TranslateAll(pts, o)));
    var c2 := Translate(Midpoint(Extent(pts)), o);
    ExtentTranslateOn(pts, o, X);
    ExtentTranslateOn(pts, o, Y);
    ExtentTranslateOn(pts, o, Z);
    assert Coord(c1, X) == Coord(c2, X);
    assert Coord(c1, Y) == Coord(c2, Y);
    assert Coord(c1, Z) == Coord(c2, Z);
  }

  /** The loaded vertices span a box whose middle is exactly `center`. */
  lemma NormaliseCentres(name: string, vert: seq<Point3d>, faces: seq<Face>, center: Point3d, scale: int)
    requires |vert| > 0
    ensures Midpoint(Extent(Normalise(name, vert, faces, center, scale).vertices)) == center
  {
    var m := Normalise(name, vert, faces, center, scale);
    var scaled := ScaleAll(vert, scale);
    assert m.vertices == TranslateAll(scaled, m.offset);
    ExtentTranslate(scaled, m.offset);
  }

  // ---------------------------------------------------------------------
  // load_obj

  /** What `load_obj` needs of its input: no line on which it would read a
      missing token before the loop ends or throws, and at least one
      vertex when it does not throw (`vert[0]` is read). */
  predicate LoadDefined(lines: seq<string>, stod: string -> Option<real>, stoi: string -> Option<int>) {
    match ParseFrom(Initial, lines, stod, stoi)
    case Err(e) => !e.Malformed?
    case Ok(st) => |st.vert| > 0
  }

  /** No line makes the read loop stop. */
  predicate EveryLineReads(lines: seq<string>, stod: string -> Option<real>, stoi: string -> Option<int>) {
    forall i :: 0 <= i < |lines| ==> ParseRecord(lines[i], stod, stoi).Ok?
  }

  /** What the read loop yields from the start of a file. */
  lemma ParseFacts(lines: seq<string>, stod: string -> Option<real>, stoi: string -> Option<int>)
    ensures var r := ParseFrom(Initial, lines, stod, stoi);
            (r.Ok? <==> EveryLineReads(lines, stod, stoi))
            && (r.Ok? ==> |r.value.vert| == CountTag(lines, "v")
                          && |r.value.faces| == CountTag(lines, "f")
                          && r.value.vert == VertsOf(lines, stod, stoi)
                          && r.value.faces == FacesOf(lines, stod, stoi)
                          && r.value.name == LastObjectName(lines, ""))
  {
    ParseFromContents(Initial, lines, stod, stoi);
    ParseFromErrors(Initial, lines, stod, stoi);
    ParseFromCounts(Initial, lines, stod, stoi);
    ParseFromName(Initial, lines, stod, stoi);
  }

  /** `load_obj` on the lines of a file. The stored box's midpoint always
      lands on `center`; the vertices are centred on `center` when the
      unscaled first vertex lies within the scaled ones, at scale 1 in
      particular. */
  function LoadLines(lines: seq<string>, center: Point3d, scale: int,
                     stod: string -> Option<real>, stoi: string -> Option<int>): (r: Result<Model, LoadError>)
    requires LoadDefined(lines, stod, stoi)
    ensures r.Ok? <==> EveryLineReads(lines, stod, stoi)
    ensures r.Err? ==> r.error.NumberError?
    ensures r.Ok? ==> |r.value.vertices| > 0
    ensures r.Ok? ==> |r.value.vertices| == CountTag(lines, "v")
                      && |r.value.faces| == CountTag(lines, "f")
                      && r.value.name == LastObjectName(lines, "")
                      && r.value.triangles == []
                      && Translate(Midpoint(r.value.bbox), r.value.offset) == center
    ensures r.Ok? ==> |VertsOf(lines, stod, stoi)| == |r.value.vertices|
                      && (forall i :: 0 <= i < |r.value.vertices| ==>
                            r.value.vertices[i] == Translate(ScalePoint(VertsOf(lines, stod, stoi)[i], scale), r.value.offset))
                      && r.value.faces == FacesOf(lines, stod, stoi)
    ensures r.Ok? && SeedWithin(VertsOf(lines, stod, stoi), scale) ==>
              Midpoint(Extent(r.value.vertices)) == center
    ensures r.Ok? && scale == 1 ==> Midpoint(Extent(r.value.vertices)) == center
  {
    ParseFacts(lines, stod, stoi);
    var parsed := ParseFrom(Initial, lines, stod, stoi);
    assert parsed.Ok? ==> SeedWithin(parsed.value.vert, 1) by {
      if parsed.Ok? { UnitScaleSeedWithin(parsed.value.vert); }
    }
    Finish(parsed, center, scale)
  }

  /** What follows the read loop: an exception passes through; otherwise
      the vertices read are scaled and centred as `load_obj` does it. */
  function Finish(parsed: Result<ParseState, LoadError>, center: Point3d, scale: int): (r: Result<Model, LoadError>)
    requires parsed.Ok? ==> |parsed.value.vert| > 0
    ensures parsed.Err? ==> r == Err(parsed.error)
    ensures parsed.Ok? ==>
              r.Ok? && |r.value.vertices| == |parsed.value.vert| && |r.value.vertices| > 0
              && r.value.faces == parsed.value.faces
              && r.value.name == parsed.value.name
              && r.value.triangles == []
              && (forall i :: 0 <= i < |parsed.value.vert| ==>
                    r.value.vertices[i] == Translate(ScalePoint(parsed.value.vert[i], scale), r.value.offset))
              && Translate(Midpoint(r.value.bbox), r.value.offset) == center
              && (SeedWithin(parsed.value.vert, scale) ==> Midpoint(Extent(r.value.vertices)) == center)
  {
    if parsed.Err? then Err(parsed.error) else Ok(FromState(parsed.value, center, scale))
  }

  /** The model built from the vertices and faces read, as `load_obj`
      builds it: the box also spans the unscaled first vertex, so the
      vertices are centred only when that vertex lies within the scaled
      ones. */
  function FromState(st: ParseState, center: Point3d, scale: int): (m: Model)
    requires |st.vert| > 0
    ensures |m.vertices| == |st.vert| && m.faces == st.faces && m.name == st.name && m.triangles == []
    ensures forall i :: 0 <= i < |st.vert| ==> m.vertices[i] == Translate(ScalePoint(st.vert[i], scale), m.offset)
    ensures m.bbox == Extent([st.vert[0]] + ScaleAll(st.vert, scale))
    ensures Translate(Midpoint(m.bbox), m.offset) == center
    ensures SeedWithin(st.vert, scale) <==> m.bbox == Extent(ScaleAll(st.vert, scale))
    ensures SeedWithin(st.vert, scale) ==> Midpoint(Extent(m.vertices)) == center
  {
    NormaliseAsWrittenCentres(st.name, st.vert, st.faces, center, scale);
    NormaliseAsWritten(st.name, st.vert, st.faces, center, scale)
  }

  /** `load_obj` on the text of a file: its lines are what `std::getline`
      extracts, split at `'\n'` like `split` splits at `' '`. */
  function Load(text: string, center: Point3d, scale: int,
                stod: string -> Option<real>, stoi: string -> Option<int>): (r: Result<Model, LoadError>)
    requires LoadDefined(Split(text, '\n'), stod, stoi)
    ensures r.Ok? <==> EveryLineReads(Split(text, '\n'), stod, stoi)
    ensures r.Ok? ==> |r.value.vertices| > 0
    ensures r.Ok? ==> Translate(Midpoint(r.value.bbox), r.value.offset) == center
    ensures r.Ok? && scale == 1 ==> Midpoint(Extent(r.value.vertices)) == center
  {
    LoadLines(Split(text, '\n'), center, scale, stod, stoi)
  }

  /** `load_obj` with the running box seeded from the first SCALED vertex,
      on the lines of a file: it reads them as `load_obj` does and always
      centres the vertices on `center`. */
  function LoadLinesCorrected(lines: seq<string>, center: Point3d, scale: int,
                              stod: string -> Option<real>, stoi: string -> Option<int>): (r: Result<Model, LoadError>)
    requires LoadDefined(lines, stod, stoi)
    ensures r.Ok? <==> EveryLineReads(lines, stod, stoi)
    ensures r.Ok? ==> |r.value.vertices| == CountTag(lines, "v") > 0
    ensures r.Ok? ==> Translate(Midpoint(r.value.bbox), r.value.offset) == center
    ensures r.Ok? ==> Midpoint(Extent(r.value.vertices)) == center
  {
    ParseFacts(lines, stod, stoi);
    var parsed := ParseFrom(Initial, lines, stod, stoi);
    if parsed.Err? then Err(parsed.error) else Ok(FromStateCorrected(parsed.value, center, scale))
  }

  /** The corrected loader on the text of a file. */
  function LoadCorrected(text: string, center: Point3d, scale: int,
                         stod: string -> Option<real>, stoi: string -> Option<int>): (r: Result<Model, LoadError>)
    requires LoadDefined(Split(text, '\n'), stod, stoi)
    ensures r.Ok? <==> EveryLineReads(Split(text, '\n'), stod, stoi)
    ensures r.Ok? ==> |r.value.vertices| > 0
    ensures r.Ok? ==> Midpoint(Extent(r.value.vertices)) == center
  {
    LoadLinesCorrected(Split(text, '\n'), center, scale, stod, stoi)
  }

  /** The model built from the vertices and faces read, with the box taken
      over the scaled vertices only. */
  function FromStateCorrected(st: ParseState, center: Point3d, scale: int): (m: Model)
    requires |st.vert| > 0
    ensures |m.vertices| == |st.vert| && m.faces == st.faces && m.name == st.name && m.triangles == []
    ensures m.bbox == Extent(ScaleAll(st.vert, scale))
    ensures Translate(Midpoint(m.bbox), m.offset) == center
    ensures Midpoint(Extent(m.vertices)) == center
  {
    NormaliseCentres(st.name, st.vert, st.faces, center, scale);
    Normalise(st.name, st.vert, st.faces, center, scale)
  }

  /** The corrected loader fails exactly where `load_obj` fails, with the
      same error, and returns the same model at scale 1. */
  lemma LoadCorrectedAgrees(text: string, center: Point3d, scale: int,
                            stod: string -> Option<real>, stoi: string -> Option<int>)
    requires LoadDefined(Split(text, '\n'), stod, stoi)
    ensures LoadCorrected(text, center, scale, stod, stoi).Err? ==>
              LoadCorrected(text, center, scale, stod, stoi) == Load(text, center, scale, stod, stoi)
    ensures scale == 1 ==> LoadCorrected(text, center, scale, stod, stoi) == Load(text, center, scale, stod, stoi)
  {
    LoadUnfolds(text, center, scale, stod, stoi);
    var parsed := ParseFrom(Initial, Split(text, '\n'), stod, stoi);
    if parsed.Ok? {
      NormaliseAtUnitScale(parsed.value.name, parsed.value.vert, parsed.value.faces, center);
    }
  }

  lemma LoadUnfolds(text: string, center: Point3d, scale: int,
                    stod: string -> Option<real>, stoi: string -> Option<int>)
    requires LoadDefined(Split(text, '\n'), stod, stoi)
    ensures var parsed := ParseFrom(Initial, Split(text, '\n'), stod, stoi);
            parsed.Err? ==> Load(text, center, scale, stod, stoi) == Err(parsed.error)
    ensures var parsed := ParseFrom(Initial, Split(text, '\n'), stod, stoi);
            parsed.Ok? ==> Load(text, center, scale, stod, stoi)
                           == Ok(NormaliseAsWritten(parsed.value.name, parsed.value.vert, parsed.value.faces, center, scale))
  {
  }
}
