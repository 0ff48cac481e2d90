/** util::loadOBJ: the Wavefront OBJ importer. The lines of the file are read
    in order into three attribute pools (positions, texture coordinates,
    normals); every face line contributes three vertex tokens, which are
    interned through a map from the token text to a 16-bit index. A token seen
    for the first time packs three vec3 values (position, normal, uv padded
    with 0) onto the vertex data and gets the next index; a token seen before
    re-emits its stored index.

    The attribute values are opaque: V stands for glm::vec3 and T for
    glm::vec2, and the parsers captureVec3 and captureVec2 are parameters. */
module ObjLoader {
  import opened Capture

  /** GLushort: 16-bit unsigned. */
  const USHORT_MOD: nat := 0x1_0000
  type Ushort = x: int | 0 <= x < 0x1_0000

  /** The conversion to GLushort keeps the low 16 bits. */
  function ToUshort(x: nat): (r: Ushort)
    ensures x < USHORT_MOD ==> r == x
    ensures (r - x) % USHORT_MOD == 0
  {
    x % USHORT_MOD
  }

  /** What one line of the file is, by its first one or two characters. */
  datatype LineKind =
    | Blank          // an empty line, skipped
    | PositionLine   // "v "
    | TexCoordLine   // "vt"
    | NormalLine     // "vn"
    | FaceLine       // "f"
    | Ignored        // anything else, including other "v?" lines
    | AtThrows       // the line "v": line.at(1) throws std::out_of_range

  function Classify(line: string): (r: LineKind)
    ensures r == Blank <==> line == []
    ensures r == AtThrows <==> |line| == 1 && line[0] == 'v'
    ensures r == PositionLine <==> |line| >= 2 && line[0] == 'v' && line[1] == ' '
    ensures r == TexCoordLine <==> |line| >= 2 && line[0] == 'v' && line[1] == 't'
    ensures r == NormalLine <==> |line| >= 2 && line[0] == 'v' && line[1] == 'n'
    ensures r == FaceLine <==> line != [] && line[0] == 'f'
  {
    if line == [] then Blank
    else if line[0] == 'v' then
      if |line| < 2 then AtThrows
      else if line[1] == ' ' then PositionLine
      else if line[1] == 't' then TexCoordLine
      else if line[1] == 'n' then NormalLine
      else Ignored
    else if line[0] == 'f' then FaceLine
    else Ignored
  }

  /** One glm::vec3 of the packed vertex data: an attribute, or a texture
      coordinate padded with a 0 as third component. */
  datatype Packed<V, T> = Vec3(v: V) | UvPad(uv: T)

  /** The local state of loadOBJ. */
  datatype Loader<V, T> = Loader(
    tmpPos: seq<V>,
    tmpNorm: seq<V>,
    tmpUv: seq<T>,
    vertexIndices: map<string, Ushort>,
    vertexData: seq<Packed<V, T>>,
    indices: seq<Ushort>)

  function Empty<V, T>(): Loader<V, T>
  {
    Loader([], [], [], map[], [], [])
  }

  /** How far the loop gets: still running, stopped by the exception of
      line.at(1), or into undefined behaviour (indeterminate indices read
      from an unscannable token, or a pool read out of bounds). */
  datatype Progress<V, T> = Running(st: Loader<V, T>) | Threw | Undefined

  /** The 1-based indices of a token name existing pool entries. */
  predicate Resolvable<V, T>(st: Loader<V, T>, r: VertexRef)
  {
    1 <= r.p <= |st.tmpPos| && 1 <= r.t <= |st.tmpUv| && 1 <= r.n <= |st.tmpNorm|
  }

  /** The three vec3 values packed for a token p/t/n. */
  function Pack<V, T>(st: Loader<V, T>, r: VertexRef): seq<Packed<V, T>>
    requires Resolvable(st, r)
  {
    [Vec3(st.tmpPos[r.p - 1]), Vec3(st.tmpNorm[r.n - 1]), UvPad(st.tmpUv[r.t - 1])]
  }

  /** A token the map holds: its index is emitted again. */
  function Reuse<V, T>(st: Loader<V, T>, tok: string): Loader<V, T>
    requires tok in st.vertexIndices
  {
    st.(indices := st.indices + [st.vertexIndices[tok]])
  }

  /** A new token: its three values are packed, and the index of the new
      vertex, (|vertexData| - 1) / 3 truncated to 16 bits, is emitted and
      stored under the token. */
  function Intern<V, T>(st: Loader<V, T>, tok: string, r: VertexRef): Loader<V, T>
    requires Resolvable(st, r)
  {
    var data := st.vertexData + Pack(st, r);
    var idx := ToUshort((|data| - 1) / 3);
    st.(vertexData := data, indices := st.indices + [idx], vertexIndices := st.vertexIndices[tok := idx])
  }

  /** One vertex token of a face. */
  function StepToken<V, T>(st: Loader<V, T>, tok: string): (r: Progress<V, T>)
    ensures r != Threw
    ensures r.Undefined? <==>
      tok !in st.vertexIndices && (CaptureVertex(tok).None? || !Resolvable(st, CaptureVertex(tok).value))
  {
    if tok in st.vertexIndices then Running(Reuse(st, tok))
    else
      match CaptureVertex(tok)
      case None => Undefined
      case Some(r) => if Resolvable(st, r) then Running(Intern(st, tok, r)) else Undefined
  }

  /** The tokens of a face, in order; Threw and Undefined are final. */
  function StepTokens<V, T>(st: Loader<V, T>, toks: seq<string>): (r: Progress<V, T>)
    ensures r != Threw
    ensures r.Running? ==> |r.st.indices| == |st.indices| + |toks| && st.indices <= r.st.indices
    ensures r.Running? ==> r.st.tmpPos == st.tmpPos && r.st.tmpNorm == st.tmpNorm && r.st.tmpUv == st.tmpUv
  {
    if toks == [] then Running(st)
    else
      var before := StepTokens(st, toks[..|toks| - 1]);
      if before.Running? then StepToken(before.st, toks[|toks| - 1]) else before
  }

  /** One line of the file. */
  function StepLine<V, T>(st: Loader<V, T>, line: string, vec3: string -> V, vec2: string -> T): (r: Progress<V, T>)
    ensures r == Threw <==> Classify(line) == AtThrows
    ensures r.Undefined? ==> Classify(line) == FaceLine
    ensures r.Running? && Classify(line) != FaceLine ==>
      r.st.vertexIndices == st.vertexIndices && r.st.vertexData == st.vertexData && r.st.indices == st.indices
  {
    match Classify(line)
    case Blank => Running(st)
    case Ignored => Running(st)
    case AtThrows => Threw
    case PositionLine => Running(st.(tmpPos := st.tmpPos + [vec3(line)]))
    case TexCoordLine => Running(st.(tmpUv := st.tmpUv + [vec2(line)]))
    case NormalLine => Running(st.(tmpNorm := st.tmpNorm + [vec3(line)]))
    case FaceLine => StepTokens(st, FaceFields(line))
  }

  /** The loop of loadOBJ over the lines read so far. */
  function Run<V, T>(lines: seq<string>, vec3: string -> V, vec2: string -> T): (r: Progress<V, T>)
    ensures r.Running? ==> forall k | 0 <= k < |lines| :: Classify(lines[k]) != AtThrows
  {
    if lines == [] then Running(Empty())
    else
      var before := Run(lines[..|lines| - 1], vec3, vec2);
      if before.Running? then StepLine(before.st, lines[|lines| - 1], vec3, vec2) else before
  }

  /** What loadOBJ reports: false when the file does not open, the
      exception of line.at(1), or true with nElems and the two buffers handed
      to OpenGL (vertex data and element indices). A file that runs into
      undefined behaviour has no outcome the C++ code defines. */
  datatype LoadOutcome<V, T> =
    | NotOpened
    | OutOfRange
    | Loaded(nElems: nat, vbo: seq<Packed<V, T>>, ebo: seq<Ushort>)
    | NoDefinedOutcome   // the file led into undefined behaviour

  /** Every line fits a std::string, whose size stays below npos. */
  predicate LinesFit(lines: seq<string>)
  {
    forall k | 0 <= k < |lines| :: |lines[k]| < NPOS
  }

  /** The outcome of loadOBJ on a file (None when it cannot be opened). */
  function Load<V, T>(file: Option<seq<string>>, vec3: string -> V, vec2: string -> T): (r: LoadOutcome<V, T>)
    ensures r == NotOpened <==> file.None?
    ensures r.Loaded? ==> r.nElems == |r.ebo| && forall k | 0 <= k < |file.value| :: file.value[k] != "v"
  {
    match file
    case None => NotOpened
    case Some(lines) =>
      match Run(lines, vec3, vec2)
      case Running(st) => Loaded(|st.indices|, st.vertexData, st.indices)
      case Threw => OutOfRange
      case Undefined => NoDefinedOutcome
  }

  /** The local variables of loadOBJ, which its loop updates in place. */
  class ObjReader<V, T> {
    var tmpPos: seq<V>
    var tmpNorm: seq<V>
    var tmpUv: seq<T>
    var vertexIndices: map<string, Ushort>
    var vertexData: seq<Packed<V, T>>
    var indices: seq<Ushort>

    function State(): Loader<V, T>
      reads this
    {
      Loader(tmpPos, tmpNorm, tmpUv, vertexIndices, vertexData, indices)
    }

    constructor()
      ensures State() == Empty()
    {
      tmpPos, tmpNorm, tmpUv := [], [], [];
      vertexIndices := map[];
      vertexData, indices := [], [];
    }

    /** The body of the loop of loadOBJ for one line. It reports whether
        line.at(1) threw. */
    method ReadLine(line: string, vec3: string -> V, vec2: string -> T) returns (threw: bool)
      requires |line| < NPOS && !StepLine(State(), line, vec3, vec2).Undefined?
      modifies this
      ensures threw ==> StepLine(old(State()), line, vec3, vec2) == Threw
      ensures !threw ==> StepLine(old(State()), line, vec3, vec2) == Running(State())
    {
      threw := false;
      if line == [] {
        return;
      } else if line[0] == 'v' {
        if |line| < 2 {
          return true;
        }
        if line[1] == ' ' {
          tmpPos := tmpPos + [vec3(line)];
        } else if line[1] == 't' {
          tmpUv := tmpUv + [vec2(line)];
        } else if line[1] == 'n' {
          tmpNorm := tmpNorm + [vec3(line)];
        }
      } else if line[0] == 'f' {
        var face := CaptureFaces(line);
        AddFace(face);
      }
    }

    /** The loop over the three vertex tokens of a face. */
    method AddFace(face: seq<string>)
      requires !StepTokens(State(), face).Undefined?
      modifies this
      ensures StepTokens(old(State()), face) == Running(State())
    {
      ghost var st0 := State();
      assert face[..0] == [];
      for k := 0 to |face|
        invariant StepTokens(st0, face[..k]) == Running(State())
      {
        TokenDefined(st0, face, k);
        AddVertex(face[k]);
      }
      assert face[..|face|] == face;
    }

    /** One vertex token of a face: re-emit the index the map holds, or pack
        a new vertex and store its index. */
    method AddVertex(v: string)
      requires StepToken(State(), v).Running?
      modifies this
      ensures StepToken(old(State()), v) == Running(State())
    {
      if v in vertexIndices {
        indices := indices + [vertexIndices[v]];
      } else {
        ghost var st := State();
        var vertex := CaptureVertex(v).value;
        NewToken(st, v, vertex);
        vertexData := vertexData + [Vec3(tmpPos[vertex.p - 1])];
        vertexData := vertexData + [Vec3(tmpNorm[vertex.n - 1])];
        vertexData := vertexData + [UvPad(tmpUv[vertex.t - 1])];
        indices := indices + [ToUshort((|vertexData| - 1) / 3)];
        vertexIndices := vertexIndices[v := indices[|indices| - 1]];
      }
    }
  }

  /** util::loadOBJ. The caller must hand it a file whose face tokens scan
      and name existing attributes; on other files the C++ code has no
      defined behaviour. */
  method LoadObj<V, T>(file: Option<seq<string>>, vec3: string -> V, vec2: string -> T)
    returns (r: LoadOutcome<V, T>)
    requires file.Some? ==> LinesFit(file.value) && !Run(file.value, vec3, vec2).Undefined?
    ensures r == Load(file, vec3, vec2)
  {
    if file.None? {
      return NotOpened;
    }
    var lines := file.value;
    var reader := new ObjReader<V, T>();
    var i := 0;
    assert lines[..0] == [];
    while i < |lines|
      invariant 0 <= i <= |lines|
      invariant Run(lines[..i], vec3, vec2) == Running(reader.State())
    {
      RunStep(lines, i, vec3, vec2);
      PrefixDefined(lines, i + 1, vec3, vec2);
      var threw := reader.ReadLine(lines[i], vec3, vec2);
      if threw {
        RunStops(lines, i + 1, vec3, vec2);
        return OutOfRange;
      }
      i := i + 1;
    }
    assert lines[..i] == lines;
    r := Loaded(|reader.indices|, reader.vertexData, reader.indices);
  }

  /** A token not in the map yet packs its three values, in the order
      position, normal, uv, and gets the next index. */
  lemma NewToken<V, T>(st: Loader<V, T>, tok: string, r: VertexRef)
    requires tok !in st.vertexIndices
    requires CaptureVertex(tok) == Some(r) && Resolvable(st, r)
    ensures
      var data := st.vertexData + [Vec3(st.tmpPos[r.p - 1])] + [Vec3(st.tmpNorm[r.n - 1])]
                  + [UvPad(st.tmpUv[r.t - 1])];
      var indices := st.indices + [ToUshort((|data| - 1) / 3)];
      StepToken(st, tok)
        == Running(Loader(st.tmpPos, st.tmpNorm, st.tmpUv,
                          st.vertexIndices[tok := indices[|indices| - 1]], data, indices))
  {
    var data := st.vertexData + [Vec3(st.tmpPos[r.p - 1])] + [Vec3(st.tmpNorm[r.n - 1])]
                + [UvPad(st.tmpUv[r.t - 1])];
    assert data == st.vertexData + Pack(st, r);
  }

  /** The loop reads one more line. */
  lemma RunStep<V, T>(lines: seq<string>, i: nat, vec3: string -> V, vec2: string -> T)
    requires i < |lines| && Run(lines[..i], vec3, vec2).Running?
    ensures Run(lines[..i + 1], vec3, vec2) == StepLine(Run(lines[..i], vec3, vec2).st, lines[i], vec3, vec2)
  {
    assert lines[..i + 1][..i] == lines[..i];
  }

  /** Once the loop has thrown or run into undefined behaviour, the later
      lines change nothing. */
  lemma {:induction false} RunStops<V, T>(lines: seq<string>, i: nat, vec3: string -> V, vec2: string -> T)
    requires i <= |lines| && !Run(lines[..i], vec3, vec2).Running?
    ensures Run(lines, vec3, vec2) == Run(lines[..i], vec3, vec2)
    decreases |lines| - i
  {
    if i < |lines| {
      assert lines[..i + 1][..i] == lines[..i];
      RunStops(lines, i + 1, vec3, vec2);
    } else {
      assert lines[..i] == lines;
    }
  }

  /** A file without undefined behaviour has none in any prefix either. */
  lemma PrefixDefined<V, T>(lines: seq<string>, i: nat, vec3: string -> V, vec2: string -> T)
    requires i <= |lines| && !Run(lines, vec3, vec2).Undefined?
    ensures !Run(lines[..i], vec3, vec2).Undefined?
  {
    if Run(lines[..i], vec3, vec2).Undefined? {
      RunStops(lines, i, vec3, vec2);
    }
  }

  /** Tokens after undefined behaviour stay undefined. */
  lemma {:induction false} StepTokensStops<V, T>(st: Loader<V, T>, toks: seq<string>, k: nat)
    requires k <= |toks| && StepTokens(st, toks[..k]).Undefined?
    ensures StepTokens(st, toks).Undefined?
    decreases |toks| - k
  {
    if k < |toks| {
      assert toks[..k + 1][..k] == toks[..k];
      StepTokensStops(st, toks, k + 1);
    } else {
      assert toks[..k] == toks;
    }
  }

  /** On a line without undefined behaviour, the next face token does not
      run into any either. */
  lemma TokenDefined<V, T>(st0: Loader<V, T>, face: seq<string>, k: nat)
    requires k < |face| && !StepTokens(st0, face).Undefined?
    requires StepTokens(st0, face[..k]).Running?
    ensures StepToken(StepTokens(st0, face[..k]).st, face[k]).Running?
    ensures StepTokens(st0, face[..k + 1]) == StepToken(StepTokens(st0, face[..k]).st, face[k])
  {
    assert face[..k + 1][..k] == face[..k];
    if !StepToken(StepTokens(st0, face[..k]).st, face[k]).Running? {
      StepTokensStops(st0, face, k + 1);
    }
  }
}
