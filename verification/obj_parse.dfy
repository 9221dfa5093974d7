/** The line-by-line reading of a Wavefront OBJ file done by the `ObjModel`
    constructor (src/extensions/ObjModel.cs): `v ` lines become placed
    vertices, `vn ` lines mirrored normals and `f ` lines faces, and every
    other line is skipped.  Reading the file is left to the caller, who passes
    its lines; `double.Parse` is a parameter whose `None` stands for the
    exception it throws. */
module ObjParse {
  import opened Wrappers
  import opened Vectors
  import opened Text

  /** `double.Parse`: the number a field denotes, or `None` where it throws. */
  type NumberParser = string -> Option<real>

  datatype LineKind = VertexLine | NormalLine | FaceLine | Ignored

  /** Which branch of the reading loop a line takes.  The three prefixes
      exclude each other, so the order of the tests does not matter. */
  function Classify(line: string): (k: LineKind)
    ensures k == VertexLine <==> StartsWith(line, "v ")
    ensures k == NormalLine <==> StartsWith(line, "vn ")
    ensures k == FaceLine <==> StartsWith(line, "f ")
  {
    if StartsWith(line, "v ") then
      assert !StartsWith(line, "vn ") by { assert line[1] == ' '; }
      VertexLine
    else if StartsWith(line, "vn ") then
      assert !StartsWith(line, "f ") by { assert line[0] == 'v'; }
      NormalLine
    else if StartsWith(line, "f ") then FaceLine
    else Ignored
  }

  /** Where a vertex read as `(x, y, z)` is put: scaled, its `z` negated, then
      offset. */
  function PlaceVertex(raw: Vector3, offset: Vector3, scale: real): Vector3 {
    Vector3(raw.x * scale + offset.x, raw.y * scale + offset.y, -raw.z * scale + offset.z)
  }

  /** The reflection in the `z = 0` plane applied to normals. */
  function Mirror(v: Vector3): Vector3 {
    Vector3(v.x, v.y, -v.z)
  }

  /** The inverse placement, defined for a non-zero scale. */
  function UnplaceVertex(p: Vector3, offset: Vector3, scale: real): Vector3
    requires scale != 0.0
  {
    Vector3((p.x - offset.x) / scale, (p.y - offset.y) / scale, -((p.z - offset.z) / scale))
  }

  /** With a non-zero scale the placement is a bijection: the file's vertex
      can be recovered from the placed one and conversely. */
  lemma PlaceVertexInverse(raw: Vector3, p: Vector3, offset: Vector3, scale: real)
    requires scale != 0.0
    ensures UnplaceVertex(PlaceVertex(raw, offset, scale), offset, scale) == raw
    ensures PlaceVertex(UnplaceVertex(p, offset, scale), offset, scale) == p
  {
  }

  /** Mirroring is an involution that preserves dot products. */
  lemma MirrorIsometry(a: Vector3, b: Vector3)
    ensures Mirror(Mirror(a)) == a
    ensures Dot(Mirror(a), Mirror(b)) == Dot(a, b)
  {
  }

  /** The placement moves edges by the same mirror the normals undergo, scaled:
      so a file normal perpendicular to a file edge stays perpendicular to the
      placed edge, and the model's shape is kept up to the scale factor. */
  lemma PlacementKeepsShape(a: Vector3, b: Vector3, n: Vector3, offset: Vector3, scale: real)
    ensures Sub(PlaceVertex(a, offset, scale), PlaceVertex(b, offset, scale))
            == Scale(Mirror(Sub(a, b)), scale)
    ensures Dot(Mirror(n), Sub(PlaceVertex(a, offset, scale), PlaceVertex(b, offset, scale)))
            == scale * Dot(n, Sub(a, b))
  {
    var e := Sub(PlaceVertex(a, offset, scale), PlaceVertex(b, offset, scale));
    assert e == Scale(Mirror(Sub(a, b)), scale);
    MirroredDot(n.x, n.y, n.z, a.x - b.x, a.y - b.y, a.z - b.z, scale);
  }

  lemma MirroredDot(n1: real, n2: real, n3: real, d1: real, d2: real, d3: real, k: real)
    ensures n1 * (d1 * k) + n2 * (d2 * k) + -n3 * (-d3 * k) == k * (n1 * d1 + n2 * d2 + n3 * d3)
  {
  }

  /** What one line contributes. */
  datatype Entry = VertexEntry(position: Vector3) | NormalEntry(normal: Vector3)
                 | FaceEntry(face: Vector3) | Skip

  function EntryKind(e: Entry): LineKind {
    match e
    case VertexEntry(_) => VertexLine
    case NormalEntry(_) => NormalLine
    case FaceEntry(_) => FaceLine
    case Skip => Ignored
  }

  /** Three fields through `double.Parse`, in order. */
  function Triple(parse: NumberParser, a: string, b: string, c: string): (r: Option<Vector3>)
    ensures r.Some? <==> parse(a).Some? && parse(b).Some? && parse(c).Some?
    ensures r.Some? ==> r.value == Vector3(parse(a).value, parse(b).value, parse(c).value)
  {
    match (parse(a), parse(b), parse(c))
    case (Some(x), Some(y), Some(z)) => Some(Vector3(x, y, z))
    case _ => None
  }

  /** The three fields a line of kind `kind` reads all go through
      `double.Parse`: fields 1 to 3, or for a face their text before the
      first `/`. */
  predicate FieldsParse(parse: NumberParser, kind: LineKind, parts: seq<string>)
    requires |parts| >= 4
  {
    if kind == FaceLine then
      && parse(FirstField(parts[1], '/')).Some? && parse(FirstField(parts[2], '/')).Some?
      && parse(FirstField(parts[3], '/')).Some?
    else parse(parts[1]).Some? && parse(parts[2]).Some? && parse(parts[3]).Some?
  }

  /** One iteration of the reading loop.  The line is split at single spaces;
      fields 1 to 3 are read, so a short line or an unparsable field is an
      error, and any fields after the third are never looked at.  A vertex is
      placed; a normal only has its `z` negated; a face keeps the text before
      the first `/` of each field and lists the fields in the order 3, 2, 1. */
  function ParseLine(parse: NumberParser, offset: Vector3, scale: real, line: string): (r: Option<Entry>)
    ensures r == Some(Skip) <==> Classify(line) == Ignored
    ensures r.Some? ==> EntryKind(r.value) == Classify(line)
    ensures r.None? <==>
              && Classify(line) != Ignored
              && (|Split(line, ' ')| < 4 || !FieldsParse(parse, Classify(line), Split(line, ' ')))
    ensures r.Some? && r.value.VertexEntry? ==>
              var p := Split(line, ' ');
              && |p| >= 4 && parse(p[1]).Some? && parse(p[2]).Some? && parse(p[3]).Some?
              && r.value.position
                 == Vector3(parse(p[1]).value * scale + offset.x, parse(p[2]).value * scale + offset.y,
                            -parse(p[3]).value * scale + offset.z)
    ensures r.Some? && r.value.NormalEntry? ==>
              var p := Split(line, ' ');
              && |p| >= 4 && parse(p[1]).Some? && parse(p[2]).Some? && parse(p[3]).Some?
              && r.value.normal == Vector3(parse(p[1]).value, parse(p[2]).value, -parse(p[3]).value)
    ensures r.Some? && r.value.FaceEntry? ==>
              var p := Split(line, ' ');
              && |p| >= 4 && FieldsParse(parse, FaceLine, p)
              && r.value.face == Vector3(parse(FirstField(p[3], '/')).value, parse(FirstField(p[2], '/')).value,
                                         parse(FirstField(p[1], '/')).value)
  {
    var parts := Split(line, ' ');
    match Classify(line)
    case Ignored => Some(Skip)
    case VertexLine =>
      if |parts| < 4 then None
      else (match Triple(parse, parts[1], parts[2], parts[3])
        case None => None
        case Some(raw) => Some(VertexEntry(PlaceVertex(raw, offset, scale))))
    case NormalLine =>
      if |parts| < 4 then None
      else (match Triple(parse, parts[1], parts[2], parts[3])
        case None => None
        case Some(raw) => Some(NormalEntry(Mirror(raw))))
    case FaceLine =>
      if |parts| < 4 then None
      else (match Triple(parse, FirstField(parts[3], '/'), FirstField(parts[2], '/'),
                         FirstField(parts[1], '/'))
        case None => None
        case Some(face) => Some(FaceEntry(face)))
  }

  /** `v a b c`, a vertex line as a writer would produce it. */
  function VertexText(a: string, b: string, c: string): string {
    "v " + a + " " + b + " " + c
  }

  /** `vn a b c`, a normal line. */
  function NormalText(a: string, b: string, c: string): string {
    "vn " + a + " " + b + " " + c
  }

  /** `f i j k`, a face line whose fields may carry `/texture/normal` tails. */
  function FaceText(i: string, j: string, k: string): string {
    "f " + i + " " + j + " " + k
  }

  /** The fields of `head a b c` split at spaces, for space-free fields. */
  lemma {:induction false} FieldsOf(head: string, a: string, b: string, c: string)
    requires ' ' !in head && ' ' !in a && ' ' !in b && ' ' !in c
    ensures Split(head + " " + a + " " + b + " " + c, ' ') == [head, a, b, c]
  {
    var parts := [head, a, b, c];
    assert forall i :: 0 <= i < |parts| ==> ' ' !in parts[i];
    SplitJoin(parts, ' ');
    assert parts[1..] == [a, b, c] && parts[1..][1..] == [b, c] && parts[1..][1..][1..] == [c];
    assert Join([c], ' ') == c;
    assert Join([b, c], ' ') == b + " " + c;
    assert Join([a, b, c], ' ') == a + " " + (b + " " + c);
    assert Join(parts, ' ') == head + " " + (a + " " + (b + " " + c));
    assert head + " " + (a + " " + (b + " " + c)) == head + " " + a + " " + b + " " + c;
  }

  /** Reading a written vertex line gives back its numbers, placed. */
  lemma ReadVertexText(parse: NumberParser, offset: Vector3, scale: real,
                       a: string, b: string, c: string, x: real, y: real, z: real)
    requires ' ' !in a && ' ' !in b && ' ' !in c
    requires parse(a) == Some(x) && parse(b) == Some(y) && parse(c) == Some(z)
    ensures ParseLine(parse, offset, scale, VertexText(a, b, c))
            == Some(VertexEntry(PlaceVertex(Vector3(x, y, z), offset, scale)))
  {
    var line := VertexText(a, b, c);
    assert line == "v" + " " + a + " " + b + " " + c;
    FieldsOf("v", a, b, c);
    assert StartsWith(line, "v ") by { assert line[..2] == "v "; }
  }

  /** Reading a written normal line gives back its numbers with `z` negated,
      neither scaled nor offset. */
  lemma ReadNormalText(parse: NumberParser, offset: Vector3, scale: real,
                       a: string, b: string, c: string, x: real, y: real, z: real)
    requires ' ' !in a && ' ' !in b && ' ' !in c
    requires parse(a) == Some(x) && parse(b) == Some(y) && parse(c) == Some(z)
    ensures ParseLine(parse, offset, scale, NormalText(a, b, c)) == Some(NormalEntry(Vector3(x, y, -z)))
  {
    var line := NormalText(a, b, c);
    assert line == "vn" + " " + a + " " + b + " " + c;
    FieldsOf("vn", a, b, c);
    assert StartsWith(line, "vn ") by { assert line[..3] == "vn "; }
  }

  /** Fields after the third are ignored: two lines of the same kind whose
      first four fields agree read the same, so a fourth vertex coordinate or
      a fourth face corner changes nothing. */
  lemma ExtraFieldsIgnored(parse: NumberParser, offset: Vector3, scale: real, line: string, other: string)
    requires Classify(line) == Classify(other)
    requires |Split(line, ' ')| >= 4 && |Split(other, ' ')| >= 4
    requires Split(line, ' ')[..4] == Split(other, ' ')[..4]
    ensures ParseLine(parse, offset, scale, line) == ParseLine(parse, offset, scale, other)
  {
    var p, q := Split(line, ' '), Split(other, ' ');
    assert p[1] == q[1] && p[2] == q[2] && p[3] == q[3] by {
      assert p[1] == p[..4][1] && q[1] == q[..4][1];
      assert p[2] == p[..4][2] && q[2] == q[..4][2];
      assert p[3] == p[..4][3] && q[3] == q[..4][3];
    }
  }

  /** Reading a written face line keeps the text before each `/` and lists
      the three indices in reverse order. */
  lemma ReadFaceText(parse: NumberParser, offset: Vector3, scale: real,
                     i: string, j: string, k: string, a: real, b: real, c: real)
    requires ' ' !in i && ' ' !in j && ' ' !in k
    requires parse(FirstField(i, '/')) == Some(a) && parse(FirstField(j, '/')) == Some(b)
    requires parse(FirstField(k, '/')) == Some(c)
    ensures ParseLine(parse, offset, scale, FaceText(i, j, k)) == Some(FaceEntry(Vector3(c, b, a)))
  {
    var line := FaceText(i, j, k);
    assert line == "f" + " " + i + " " + j + " " + k;
    FieldsOf("f", i, j, k);
    assert StartsWith(line, "f ") by { assert line[..2] == "f "; }
  }

  /** The three lists the loop fills. */
  datatype ObjData = ObjData(vertices: seq<Vector3>, normals: seq<Vector3>, faces: seq<Vector3>)

  /** Adding one line's entry to the list of its kind. */
  function Append(data: ObjData, e: Entry): (r: ObjData)
    ensures e.VertexEntry? ==> r == data.(vertices := data.vertices + [e.position])
    ensures e.NormalEntry? ==> r == data.(normals := data.normals + [e.normal])
    ensures e.FaceEntry? ==> r == data.(faces := data.faces + [e.face])
    ensures e.Skip? ==> r == data
  {
    match e
    case VertexEntry(p) => data.(vertices := data.vertices + [p])
    case NormalEntry(n) => data.(normals := data.normals + [n])
    case FaceEntry(f) => data.(faces := data.faces + [f])
    case Skip => data
  }

  /** The number of lines of one kind. */
  function Count(lines: seq<string>, kind: LineKind): nat {
    if |lines| == 0 then 0
    else Count(lines[..|lines| - 1], kind) + (if Classify(lines[|lines| - 1]) == kind then 1 else 0)
  }

  /** The exception that ends the constructor: the 0-based index of the first
      line whose reading throws. */
  datatype LoadError = MalformedLine(line: nat)

  predicate Readable(parse: NumberParser, offset: Vector3, scale: real, line: string) {
    ParseLine(parse, offset, scale, line).Some?
  }

  /** The reading loop over all lines.  It succeeds exactly when every line
      is readable, and then holds one entry per line of each kind; otherwise
      it reports the first unreadable line. */
  function ParseLines(parse: NumberParser, offset: Vector3, scale: real, lines: seq<string>)
    : (r: Result<ObjData, LoadError>)
    ensures r.Ok? <==> forall i :: 0 <= i < |lines| ==> Readable(parse, offset, scale, lines[i])
    ensures r.Err? ==>
              && r.error.line < |lines|
              && !Readable(parse, offset, scale, lines[r.error.line])
              && forall i :: 0 <= i < r.error.line ==> Readable(parse, offset, scale, lines[i])
    ensures r.Ok? ==>
              && |r.value.vertices| == Count(lines, VertexLine)
              && |r.value.normals| == Count(lines, NormalLine)
              && |r.value.faces| == Count(lines, FaceLine)
  {
    if |lines| == 0 then Ok(ObjData([], [], []))
    else
      var last := |lines| - 1;
      var front := lines[..last];
      assert forall i :: 0 <= i < last ==> front[i] == lines[i];
      match ParseLines(parse, offset, scale, front)
      case Err(e) => Err(e)
      case Ok(data) =>
        match ParseLine(parse, offset, scale, lines[last])
        case None => Err(MalformedLine(last))
        case Some(e) => Ok(Append(data, e))
  }

  /** The list a kind of line fills; a skipped line fills none. */
  function Listed(data: ObjData, kind: LineKind): seq<Vector3> {
    match kind
    case VertexLine => data.vertices
    case NormalLine => data.normals
    case FaceLine => data.faces
    case Ignored => []
  }

  /** The value an entry adds to its list. */
  function Payload(e: Entry): Vector3 {
    match e
    case VertexEntry(p) => p
    case NormalEntry(n) => n
    case FaceEntry(f) => f
    case Skip => Zero
  }

  /** Appending an entry extends the list of its own kind by its value and
      leaves the other lists alone. */
  lemma ListedAppend(data: ObjData, e: Entry, kind: LineKind)
    requires kind != Ignored
    ensures Listed(Append(data, e), kind)
            == Listed(data, kind) + (if EntryKind(e) == kind then [Payload(e)] else [])
  {
  }

  /** The loop over one more line: a readable last line appends its entry. */
  lemma ParseSnoc(parse: NumberParser, offset: Vector3, scale: real, front: seq<string>, line: string,
                  data: ObjData, e: Entry)
    requires ParseLines(parse, offset, scale, front) == Ok(data)
    requires ParseLine(parse, offset, scale, line) == Some(e)
    ensures ParseLines(parse, offset, scale, front + [line]) == Ok(Append(data, e))
  {
    assert (front + [line])[..|front|] == front;
  }

  /** The loop over three more lines. */
  lemma ParseThree(parse: NumberParser, offset: Vector3, scale: real, lines: seq<string>, start: nat,
                   data: ObjData, e0: Entry, e1: Entry, e2: Entry)
    requires start + 3 <= |lines|
    requires ParseLines(parse, offset, scale, lines[..start]) == Ok(data)
    requires ParseLine(parse, offset, scale, lines[start]) == Some(e0)
    requires ParseLine(parse, offset, scale, lines[start + 1]) == Some(e1)
    requires ParseLine(parse, offset, scale, lines[start + 2]) == Some(e2)
    ensures ParseLines(parse, offset, scale, lines[..start + 3]) == Ok(Append(Append(Append(data, e0), e1), e2))
  {
    ParseAt(parse, offset, scale, lines, start, data, e0);
    ParseAt(parse, offset, scale, lines, start + 1, Append(data, e0), e1);
    ParseAt(parse, offset, scale, lines, start + 2, Append(Append(data, e0), e1), e2);
  }

  /** One more line of a file read up to it. */
  lemma ParseAt(parse: NumberParser, offset: Vector3, scale: real, lines: seq<string>, k: nat,
                data: ObjData, e: Entry)
    requires k < |lines|
    requires ParseLines(parse, offset, scale, lines[..k]) == Ok(data)
    requires ParseLine(parse, offset, scale, lines[k]) == Some(e)
    ensures ParseLines(parse, offset, scale, lines[..k + 1]) == Ok(Append(data, e))
  {
    ParseSnoc(parse, offset, scale, lines[..k], lines[k], data, e);
    assert lines[..k] + [lines[k]] == lines[..k + 1];
  }

  /** File order is index order, for each of the three lists: the `j`-th
      line of a kind (counting from zero) becomes position `j` of that kind's
      list.  A face addresses vertex and normal `j` as index `j + 1`. */
  lemma {:induction false} FileOrder(parse: NumberParser, offset: Vector3, scale: real,
                                     lines: seq<string>, i: nat)
    requires ParseLines(parse, offset, scale, lines).Ok?
    requires i < |lines| && Classify(lines[i]) != Ignored
    ensures var data := ParseLines(parse, offset, scale, lines).value;
            var kind := Classify(lines[i]);
            var j := Count(lines[..i], kind);
            && j < |Listed(data, kind)|
            && Listed(data, kind)[j] == Payload(ParseLine(parse, offset, scale, lines[i]).value)
    decreases |lines|
  {
    var kind := Classify(lines[i]);
    var last := |lines| - 1;
    var front := lines[..last];
    var data := ParseLines(parse, offset, scale, lines).value;
    var before := ParseLines(parse, offset, scale, front).value;
    var e := ParseLine(parse, offset, scale, lines[last]).value;
    assert data == Append(before, e);
    ListedAppend(before, e, kind);
    if i == last {
      assert lines[..i] == front;
      assert EntryKind(e) == kind;
      CountListed(parse, offset, scale, front, kind);
    } else {
      assert front[i] == lines[i];
      assert front[..i] == lines[..i];
      FileOrder(parse, offset, scale, front, i);
    }
  }

  /** The list of a kind holds one value per line of that kind. */
  lemma CountListed(parse: NumberParser, offset: Vector3, scale: real, lines: seq<string>, kind: LineKind)
    requires ParseLines(parse, offset, scale, lines).Ok? && kind != Ignored
    ensures |Listed(ParseLines(parse, offset, scale, lines).value, kind)| == Count(lines, kind)
  {
  }
}
