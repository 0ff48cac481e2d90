/** What loadOBJ builds, stated against reference definitions that read the
    file directly: the attribute pools are the attribute lines in file order,
    the element indices follow the face tokens one for one, and the vertex
    indices number the distinct tokens in order of first occurrence, modulo
    2^16. */
module ObjLoaderProofs {
  import opened Capture
  import opened ObjLoader

  // ---------------------------------------------------------------------
  // Reference definitions

  /** The vertex tokens one line contributes: the three of a face line. */
  function LineTokens(line: string): (r: seq<string>)
    ensures |r| == if Classify(line) == FaceLine then 3 else 0
  {
    if Classify(line) == FaceLine then FaceFields(line) else []
  }

  /** All face tokens of the lines, in file order. */
  function FaceTokens(lines: seq<string>): seq<string>
  {
    if lines == [] then []
    else FaceTokens(lines[..|lines| - 1]) + LineTokens(lines[|lines| - 1])
  }

  /** The number of face lines. */
  function FaceLineCount(lines: seq<string>): nat
  {
    if lines == [] then 0
    else FaceLineCount(lines[..|lines| - 1]) + (if Classify(lines[|lines| - 1]) == FaceLine then 1 else 0)
  }

  /** The values of the lines of one kind, in file order. */
  function Attributes<A>(lines: seq<string>, kind: LineKind, parse: string -> A): seq<A>
  {
    if lines == [] then []
    else
      var last := lines[|lines| - 1];
      Attributes(lines[..|lines| - 1], kind, parse) + (if Classify(last) == kind then [parse(last)] else [])
  }

  /** The distinct tokens, in order of first occurrence. */
  function Dedup(toks: seq<string>): seq<string>
  {
    if toks == [] then []
    else
      var d := Dedup(toks[..|toks| - 1]);
      if toks[|toks| - 1] in d then d else d + [toks[|toks| - 1]]
  }

  lemma DedupSnoc(toks: seq<string>, tok: string)
    ensures Dedup(toks + [tok]) == if tok in Dedup(toks) then Dedup(toks) else Dedup(toks) + [tok]
  {
    assert (toks + [tok])[..|toks|] == toks;
  }

  /** Dedup holds every token once and nothing else. */
  lemma {:induction false} DedupSpec(toks: seq<string>)
    ensures forall t :: t in Dedup(toks) <==> t in toks
    ensures forall a, b | 0 <= a < b < |Dedup(toks)| :: Dedup(toks)[a] != Dedup(toks)[b]
  {
    if toks != [] {
      var init, last := toks[..|toks| - 1], toks[|toks| - 1];
      assert toks == init + [last];
      DedupSpec(init);
      DedupSnoc(init, last);
    }
  }

  // ---------------------------------------------------------------------
  // The invariant of the loop

  /** The map and the index list agree with the tokens read so far: the map
      holds exactly the distinct tokens, the m-th of them under index m
      (wrapped to 16 bits), every token emitted its map entry, and three vec3
      values were packed per distinct token. */
  ghost predicate Interned<V, T>(st: Loader<V, T>, toks: seq<string>)
  {
    var d := Dedup(toks);
    && (forall tok | tok in st.vertexIndices :: tok in d)
    && (forall m | 0 <= m < |d| :: d[m] in st.vertexIndices && st.vertexIndices[d[m]] == ToUshort(m))
    && |st.vertexData| == 3 * |d|
    && |st.indices| == |toks|
    && (forall j | 0 <= j < |toks| :: toks[j] in st.vertexIndices && st.indices[j] == st.vertexIndices[toks[j]])
  }

  /** The m-th distinct token packed the three values its p/t/n indices name. */
  ghost predicate PackedInOrder<V, T>(st: Loader<V, T>, d: seq<string>)
  {
    && |st.vertexData| == 3 * |d|
    && forall m | 0 <= m < |d| ::
         && CaptureVertex(d[m]).Some?
         && Resolvable(st, CaptureVertex(d[m]).value)
         && st.vertexData[3 * m..3 * m + 3] == Pack(st, CaptureVertex(d[m]).value)
  }

  /** Pools that only grew keep resolving the same indices to the same values. */
  ghost predicate PoolsGrew<V, T>(st: Loader<V, T>, st': Loader<V, T>)
  {
    && st.tmpPos <= st'.tmpPos && st.tmpNorm <= st'.tmpNorm && st.tmpUv <= st'.tmpUv
    && st'.vertexData == st.vertexData
  }

  lemma PackedAfterGrowth<V, T>(st: Loader<V, T>, st': Loader<V, T>, d: seq<string>)
    requires PackedInOrder(st, d) && PoolsGrew(st, st')
    ensures PackedInOrder(st', d)
  {
    forall m | 0 <= m < |d|
      ensures && CaptureVertex(d[m]).Some?
              && Resolvable(st', CaptureVertex(d[m]).value)
              && st'.vertexData[3 * m..3 * m + 3] == Pack(st', CaptureVertex(d[m]).value)
    {
      var r := CaptureVertex(d[m]).value;
      assert Pack(st', r) == Pack(st, r) by {
        assert st'.tmpPos[r.p - 1] == st.tmpPos[r.p - 1];
        assert st'.tmpNorm[r.n - 1] == st.tmpNorm[r.n - 1];
        assert st'.tmpUv[r.t - 1] == st.tmpUv[r.t - 1];
      }
    }
  }

  // ---------------------------------------------------------------------
  // One token

  /** A token already in the map: the distinct tokens stay the same and the
      token emits its index again. */
  lemma ReuseKeeps<V, T>(st: Loader<V, T>, toks: seq<string>, tok: string)
    requires Interned(st, toks) && tok in st.vertexIndices
    ensures Interned(Reuse(st, tok), toks + [tok])
    ensures Dedup(toks + [tok]) == Dedup(toks)
  {
    DedupSnoc(toks, tok);
    var st' := Reuse(st, tok);
    var toks' := toks + [tok];
    forall j | 0 <= j < |toks'|
      ensures toks'[j] in st'.vertexIndices && st'.indices[j] == st'.vertexIndices[toks'[j]]
    {
      if j < |toks| {
        assert toks'[j] == toks[j] && st'.indices[j] == st.indices[j];
      }
    }
  }

  /** A token not in the map yet: it becomes the next distinct token and
      takes the next index, (|vertexData| - 1) / 3 after packing. */
  lemma InternKeeps<V, T>(st: Loader<V, T>, toks: seq<string>, tok: string, r: VertexRef)
    requires Interned(st, toks) && tok !in st.vertexIndices && Resolvable(st, r)
    ensures Interned(Intern(st, tok, r), toks + [tok])
    ensures Dedup(toks + [tok]) == Dedup(toks) + [tok]
  {
    DedupSnoc(toks, tok);
    var d := Dedup(toks);
    var st' := Intern(st, tok, r);
    assert (|st'.vertexData| - 1) / 3 == |d|;
    NumberedExtend(st.vertexIndices, d, tok);
    EmittedExtend(st.vertexIndices, st.indices, toks, tok, ToUshort(|d|));
  }

  /** Storing the next number under a new token keeps the map numbering the
      distinct tokens in order. */
  lemma NumberedExtend(mp: map<string, Ushort>, d: seq<string>, tok: string)
    requires forall t | t in mp :: t in d
    requires forall m | 0 <= m < |d| :: d[m] in mp && mp[d[m]] == ToUshort(m)
    requires tok !in mp
    ensures forall t | t in mp[tok := ToUshort(|d|)] :: t in d + [tok]
    ensures forall m | 0 <= m < |d| + 1 ::
      (d + [tok])[m] in mp[tok := ToUshort(|d|)] && mp[tok := ToUshort(|d|)][(d + [tok])[m]] == ToUshort(m)
  {
    var d' := d + [tok];
    forall m | 0 <= m < |d'|
      ensures d'[m] in mp[tok := ToUshort(|d|)] && mp[tok := ToUshort(|d|)][d'[m]] == ToUshort(m)
    {
      if m < |d| {
        assert d'[m] == d[m] != tok;
      }
    }
  }

  /** Emitting the index stored for a new token keeps every emitted index
      equal to the map entry of its token. */
  lemma EmittedExtend(mp: map<string, Ushort>, idx: seq<Ushort>, toks: seq<string>, tok: string, v: Ushort)
    requires |idx| == |toks| && tok !in mp
    requires forall j | 0 <= j < |toks| :: toks[j] in mp && idx[j] == mp[toks[j]]
    ensures forall j | 0 <= j < |toks| + 1 ::
      (toks + [tok])[j] in mp[tok := v] && (idx + [v])[j] == mp[tok := v][(toks + [tok])[j]]
  {
    var toks' := toks + [tok];
    forall j | 0 <= j < |toks'|
      ensures toks'[j] in mp[tok := v] && (idx + [v])[j] == mp[tok := v][toks'[j]]
    {
      if j < |toks| {
        assert toks'[j] == toks[j] != tok;
      }
    }
  }

  /** Packing one more vertex keeps the earlier ones and adds the new one. */
  lemma PackedAfterIntern<V, T>(st: Loader<V, T>, d: seq<string>, tok: string)
    requires PackedInOrder(st, d)
    requires CaptureVertex(tok).Some? && Resolvable(st, CaptureVertex(tok).value)
    ensures PackedInOrder(Intern(st, tok, CaptureVertex(tok).value), d + [tok])
  {
    var st' := Intern(st, tok, CaptureVertex(tok).value);
    var d' := d + [tok];
    forall m | 0 <= m < |d'|
      ensures && CaptureVertex(d'[m]).Some?
              && Resolvable(st', CaptureVertex(d'[m]).value)
              && st'.vertexData[3 * m..3 * m + 3] == Pack(st', CaptureVertex(d'[m]).value)
    {
      if m < |d| {
        assert d'[m] == d[m];
        assert st'.vertexData[3 * m..3 * m + 3] == st.vertexData[3 * m..3 * m + 3];
      } else {
        assert st'.vertexData[3 * m..3 * m + 3] == Pack(st, CaptureVertex(tok).value);
      }
    }
  }

  // ---------------------------------------------------------------------
  // Tokens, lines and the whole loop keep the invariant

  ghost predicate Inv<V, T>(st: Loader<V, T>, toks: seq<string>)
  {
    Interned(st, toks) && PackedInOrder(st, Dedup(toks))
  }

  /** What the loop has built after reading `lines`. */
  ghost predicate Built<V, T>(st: Loader<V, T>, lines: seq<string>, vec3: string -> V, vec2: string -> T)
  {
    Inv(st, FaceTokens(lines)) && PoolsAfter(st, lines, vec3, vec2)
  }

  lemma TokenKeeps<V, T>(st: Loader<V, T>, toks: seq<string>, tok: string)
    requires Inv(st, toks) && StepToken(st, tok).Running?
    ensures Inv(StepToken(st, tok).st, toks + [tok])
    ensures StepToken(st, tok).st.tmpPos == st.tmpPos
    ensures StepToken(st, tok).st.tmpNorm == st.tmpNorm
    ensures StepToken(st, tok).st.tmpUv == st.tmpUv
  {
    if tok in st.vertexIndices {
      ReuseKeeps(st, toks, tok);
      PackedAfterGrowth(st, Reuse(st, tok), Dedup(toks));
    } else {
      var r := CaptureVertex(tok).value;
      assert StepToken(st, tok) == Running(Intern(st, tok, r));
      InternKeeps(st, toks, tok, r);
      PackedAfterIntern(st, Dedup(toks), tok);
    }
  }

  lemma {:induction false} TokensKeep<V, T>(st: Loader<V, T>, toks: seq<string>, face: seq<string>)
    requires Inv(st, toks) && StepTokens(st, face).Running?
    ensures Inv(StepTokens(st, face).st, toks + face)
    ensures StepTokens(st, face).st.tmpPos == st.tmpPos
    ensures StepTokens(st, face).st.tmpNorm == st.tmpNorm
    ensures StepTokens(st, face).st.tmpUv == st.tmpUv
    decreases |face|
  {
    if face == [] {
      assert toks + face == toks;
    } else {
      var init, last := face[..|face| - 1], face[|face| - 1];
      assert StepTokens(st, init).Running?;
      TokensKeep(st, toks, init);
      TokenKeeps(StepTokens(st, init).st, toks + init, last);
      AppendLast(toks, face);
    }
  }

  lemma AppendLast<X>(a: seq<X>, b: seq<X>)
    requires b != []
    ensures a + b[..|b| - 1] + [b[|b| - 1]] == a + b
  {
    assert b == b[..|b| - 1] + [b[|b| - 1]];
  }

  lemma FaceTokensSnoc(lines: seq<string>, line: string)
    ensures FaceTokens(lines + [line]) == FaceTokens(lines) + LineTokens(line)
    ensures FaceLineCount(lines + [line]) == FaceLineCount(lines) + (if Classify(line) == FaceLine then 1 else 0)
  {
    assert (lines + [line])[..|lines|] == lines;
  }

  lemma AttributesSnoc<A>(lines: seq<string>, line: string, kind: LineKind, parse: string -> A)
    ensures Attributes(lines + [line], kind, parse)
         == Attributes(lines, kind, parse) + (if Classify(line) == kind then [parse(line)] else [])
  {
    assert (lines + [line])[..|lines|] == lines;
  }

  /** The three pools after one more line. */
  ghost predicate PoolsAfter<V, T>(st: Loader<V, T>, lines: seq<string>, vec3: string -> V, vec2: string -> T)
  {
    && st.tmpPos == Attributes(lines, PositionLine, vec3)
    && st.tmpUv == Attributes(lines, TexCoordLine, vec2)
    && st.tmpNorm == Attributes(lines, NormalLine, vec3)
  }

  lemma PoolsSnoc<V, T>(st: Loader<V, T>, st': Loader<V, T>, lines: seq<string>, line: string, vec3: string -> V, vec2: string -> T)
    requires PoolsAfter(st, lines, vec3, vec2)
    requires st'.tmpPos == st.tmpPos + (if Classify(line) == PositionLine then [vec3(line)] else [])
    requires st'.tmpUv == st.tmpUv + (if Classify(line) == TexCoordLine then [vec2(line)] else [])
    requires st'.tmpNorm == st.tmpNorm + (if Classify(line) == NormalLine then [vec3(line)] else [])
    ensures PoolsAfter(st', lines + [line], vec3, vec2)
  {
    AttributesSnoc(lines, line, PositionLine, vec3);
    AttributesSnoc(lines, line, TexCoordLine, vec2);
    AttributesSnoc(lines, line, NormalLine, vec3);
  }

  /** A line of none of the three attribute kinds leaves the pools as they are. */
  lemma PoolsKept<V, T>(st: Loader<V, T>, st': Loader<V, T>, lines: seq<string>, line: string, vec3: string -> V, vec2: string -> T)
    requires PoolsAfter(st, lines, vec3, vec2)
    requires Classify(line) !in {PositionLine, TexCoordLine, NormalLine}
    requires st'.tmpPos == st.tmpPos && st'.tmpUv == st.tmpUv && st'.tmpNorm == st.tmpNorm
    ensures PoolsAfter(st', lines + [line], vec3, vec2)
  {
    AppendNil(st.tmpPos);
    AppendNil(st.tmpUv);
    AppendNil(st.tmpNorm);
    PoolsSnoc(st, st', lines, line, vec3, vec2);
  }

  /** A line that only appends to a pool keeps the index side of the invariant. */
  lemma InvAfterGrowth<V, T>(st: Loader<V, T>, st': Loader<V, T>, toks: seq<string>)
    requires Inv(st, toks) && PoolsGrew(st, st')
    requires st'.vertexIndices == st.vertexIndices && st'.indices == st.indices
    ensures Inv(st', toks)
  {
    PackedAfterGrowth(st, st', Dedup(toks));
  }

  lemma FaceLineKeeps<V, T>(st: Loader<V, T>, st': Loader<V, T>, lines: seq<string>, line: string, face: seq<string>,
                            vec3: string -> V, vec2: string -> T)
    requires Built(st, lines, vec3, vec2)
    requires Classify(line) == FaceLine && LineTokens(line) == face && StepTokens(st, face) == Running(st')
    ensures Built(st', lines + [line], vec3, vec2)
  {
    FaceTokensSnoc(lines, line);
    FaceInvKeeps(st, st', FaceTokens(lines), face);
    PoolsKept(st, st', lines, line, vec3, vec2);
  }

  lemma FaceInvKeeps<V, T>(st: Loader<V, T>, st': Loader<V, T>, toks: seq<string>, face: seq<string>)
    requires Inv(st, toks) && StepTokens(st, face) == Running(st')
    ensures Inv(st', toks + face)
    ensures st'.tmpPos == st.tmpPos && st'.tmpNorm == st.tmpNorm && st'.tmpUv == st.tmpUv
  {
    TokensKeep(st, toks, face);
  }

  lemma OtherLineKeeps<V, T>(st: Loader<V, T>, lines: seq<string>, line: string, vec3: string -> V, vec2: string -> T)
    requires Built(st, lines, vec3, vec2) && Classify(line) != FaceLine
    requires StepLine(st, line, vec3, vec2).Running?
    ensures Built(StepLine(st, line, vec3, vec2).st, lines + [line], vec3, vec2)
  {
    FaceTokensSnoc(lines, line);
    AppendNil(FaceTokens(lines));
    OtherLineInv(st, FaceTokens(lines), line, vec3, vec2);
    OtherLinePools(st, lines, line, vec3, vec2);
  }

  /** A line that is not a face keeps the index side of the invariant. */
  lemma OtherLineInv<V, T>(st: Loader<V, T>, toks: seq<string>, line: string, vec3: string -> V, vec2: string -> T)
    requires Inv(st, toks) && Classify(line) != FaceLine
    requires StepLine(st, line, vec3, vec2).Running?
    ensures Inv(StepLine(st, line, vec3, vec2).st, toks)
  {
    InvAfterGrowth(st, StepLine(st, line, vec3, vec2).st, toks);
  }

  /** A line that is not a face adds its value to the pool of its kind. */
  lemma OtherLinePools<V, T>(st: Loader<V, T>, lines: seq<string>, line: string, vec3: string -> V, vec2: string -> T)
    requires PoolsAfter(st, lines, vec3, vec2) && Classify(line) != FaceLine
    requires StepLine(st, line, vec3, vec2).Running?
    ensures PoolsAfter(StepLine(st, line, vec3, vec2).st, lines + [line], vec3, vec2)
  {
    var st' := StepLine(st, line, vec3, vec2).st;
    if Classify(line) !in {PositionLine, TexCoordLine, NormalLine} {
      PoolsKept(st, st', lines, line, vec3, vec2);
    } else {
      PoolsSnoc(st, st', lines, line, vec3, vec2);
    }
  }

  lemma LineKeeps<V, T>(st: Loader<V, T>, lines: seq<string>, line: string, vec3: string -> V, vec2: string -> T)
    requires Built(st, lines, vec3, vec2) && StepLine(st, line, vec3, vec2).Running?
    ensures Built(StepLine(st, line, vec3, vec2).st, lines + [line], vec3, vec2)
  {
    if Classify(line) == FaceLine {
      FaceLineKeeps(st, StepLine(st, line, vec3, vec2).st, lines, line, FaceFields(line), vec3, vec2);
    } else {
      OtherLineKeeps(st, lines, line, vec3, vec2);
    }
  }

  lemma AppendNil<X>(a: seq<X>)
    ensures a + [] == a
  {
  }

  lemma InitLast<X>(s: seq<X>)
    requires s != []
    ensures s[..|s| - 1] + [s[|s| - 1]] == s
  {
  }

  /** The main invariant: after any number of lines, the state is what the
      reference definitions describe. */
  lemma {:induction false} RunBuilt<V, T>(lines: seq<string>, vec3: string -> V, vec2: string -> T)
    requires Run(lines, vec3, vec2).Running?
    ensures Built(Run(lines, vec3, vec2).st, lines, vec3, vec2)
  {
    if lines == [] {
      assert Dedup([]) == [];
    } else {
      var init, last := lines[..|lines| - 1], lines[|lines| - 1];
      assert Run(init, vec3, vec2).Running?;
      RunBuilt(init, vec3, vec2);
      LineKeeps(Run(init, vec3, vec2).st, init, last, vec3, vec2);
      InitLast(lines);
    }
  }

  // ---------------------------------------------------------------------
  // What loadOBJ hands out

  /** Each face line contributes three tokens. */
  lemma {:induction false} FaceTokensCount(lines: seq<string>)
    ensures |FaceTokens(lines)| == 3 * FaceLineCount(lines)
  {
    if lines != [] {
      FaceTokensCount(lines[..|lines| - 1]);
    }
  }

  /** nElems is the number of element indices, three per face line, and the
      vertex data holds three vec3 values per distinct face token. */
  lemma LoadedCounts<V, T>(lines: seq<string>, vec3: string -> V, vec2: string -> T)
    requires Load(Some(lines), vec3, vec2).Loaded?
    ensures var o := Load(Some(lines), vec3, vec2);
      && o.nElems == |o.ebo| == |FaceTokens(lines)| == 3 * FaceLineCount(lines)
      && |o.vbo| == 3 * |Dedup(FaceTokens(lines))|
  {
    RunBuilt(lines, vec3, vec2);
    FaceTokensCount(lines);
  }

  /** The j-th element index is the first-occurrence number of the j-th face
      token, truncated to 16 bits; equal tokens get equal indices. */
  lemma LoadedIndices<V, T>(lines: seq<string>, vec3: string -> V, vec2: string -> T)
    requires Load(Some(lines), vec3, vec2).Loaded?
    ensures var o := Load(Some(lines), vec3, vec2);
      var toks := FaceTokens(lines);
      var d := Dedup(toks);
      && |o.ebo| == |toks|
      && (forall j, m | 0 <= j < |toks| && 0 <= m < |d| && d[m] == toks[j] :: o.ebo[j] == ToUshort(m))
      && (forall j1, j2 | 0 <= j1 < |toks| && 0 <= j2 < |toks| && toks[j1] == toks[j2] :: o.ebo[j1] == o.ebo[j2])
  {
    RunBuilt(lines, vec3, vec2);
  }

  /** The m-th distinct token names existing attributes, and vertex m of the
      data is its position, its normal and its uv padded with 0, taken from
      the attribute lines of the file in order. */
  lemma LoadedVertexData<V, T>(lines: seq<string>, vec3: string -> V, vec2: string -> T)
    requires Load(Some(lines), vec3, vec2).Loaded?
    ensures var o := Load(Some(lines), vec3, vec2);
      var d := Dedup(FaceTokens(lines));
      var pos := Attributes(lines, PositionLine, vec3);
      var norm := Attributes(lines, NormalLine, vec3);
      var uv := Attributes(lines, TexCoordLine, vec2);
      && |o.vbo| == 3 * |d|
      && forall m | 0 <= m < |d| ::
           && CaptureVertex(d[m]).Some?
           && var r := CaptureVertex(d[m]).value;
           && 1 <= r.p <= |pos| && 1 <= r.n <= |norm| && 1 <= r.t <= |uv|
           && o.vbo[3 * m..3 * m + 3] == [Vec3(pos[r.p - 1]), Vec3(norm[r.n - 1]), UvPad(uv[r.t - 1])]
  {
    var st := Run(lines, vec3, vec2).st;
    RunBuilt(lines, vec3, vec2);
    PackedFromPools(st, Dedup(FaceTokens(lines)));
  }

  lemma PackedFromPools<V, T>(st: Loader<V, T>, d: seq<string>)
    requires PackedInOrder(st, d)
    ensures forall m | 0 <= m < |d| ::
      && CaptureVertex(d[m]).Some?
      && var r := CaptureVertex(d[m]).value;
      && 1 <= r.p <= |st.tmpPos| && 1 <= r.n <= |st.tmpNorm| && 1 <= r.t <= |st.tmpUv|
      && st.vertexData[3 * m..3 * m + 3] == [Vec3(st.tmpPos[r.p - 1]), Vec3(st.tmpNorm[r.n - 1]), UvPad(st.tmpUv[r.t - 1])]
  {
  }

  /** With at most 65536 distinct tokens the indices are exact: two element
      indices agree exactly when their tokens do, and each one names a vertex
      of the data. */
  lemma LoadedDistinct<V, T>(lines: seq<string>, vec3: string -> V, vec2: string -> T)
    requires Load(Some(lines), vec3, vec2).Loaded?
    requires |Dedup(FaceTokens(lines))| <= USHORT_MOD
    ensures var o := Load(Some(lines), vec3, vec2);
      var toks := FaceTokens(lines);
      && |o.ebo| == |toks|
      && (forall j1, j2 | 0 <= j1 < |toks| && 0 <= j2 < |toks| :: o.ebo[j1] == o.ebo[j2] <==> toks[j1] == toks[j2])
      && (forall j | 0 <= j < |toks| :: o.ebo[j] < |o.vbo| / 3)
  {
    var o := Load(Some(lines), vec3, vec2);
    var toks := FaceTokens(lines);
    var d := Dedup(toks);
    LoadedIndices(lines, vec3, vec2);
    LoadedCounts(lines, vec3, vec2);
    DedupSpec(toks);
    forall j | 0 <= j < |toks|
      ensures exists m :: 0 <= m < |d| && d[m] == toks[j] && o.ebo[j] == m
    {
      assert toks[j] in d;
      var m :| 0 <= m < |d| && d[m] == toks[j];
      assert o.ebo[j] == ToUshort(m) == m;
    }
  }

  /** With more than 65536 distinct tokens the 16-bit indices collide: two
      different tokens emit the same index. */
  lemma LoadedWraps<V, T>(lines: seq<string>, vec3: string -> V, vec2: string -> T)
    requires Load(Some(lines), vec3, vec2).Loaded?
    requires |Dedup(FaceTokens(lines))| > USHORT_MOD
    ensures var o := Load(Some(lines), vec3, vec2);
      var toks := FaceTokens(lines);
      && |o.ebo| == |toks|
      && exists j1, j2 | 0 <= j1 < |toks| && 0 <= j2 < |toks| :: toks[j1] != toks[j2] && o.ebo[j1] == o.ebo[j2]
  {
    var o := Load(Some(lines), vec3, vec2);
    var toks := FaceTokens(lines);
    var d := Dedup(toks);
    LoadedIndices(lines, vec3, vec2);
    DedupSpec(toks);
    assert d[0] in toks && d[USHORT_MOD] in toks;
    var j1 :| 0 <= j1 < |toks| && toks[j1] == d[0];
    var j2 :| 0 <= j2 < |toks| && toks[j2] == d[USHORT_MOD];
    assert o.ebo[j1] == ToUshort(0) == 0;
    assert o.ebo[j2] == ToUshort(USHORT_MOD) == 0;
  }

  /** Empty lines and lines of no known kind change nothing. */
  lemma SkippedLine<V, T>(lines: seq<string>, line: string, vec3: string -> V, vec2: string -> T)
    requires Classify(line) == Blank || Classify(line) == Ignored
    ensures Run(lines + [line], vec3, vec2) == Run(lines, vec3, vec2)
  {
    assert (lines + [line])[..|lines|] == lines;
  }

  /** Only the line "v" classifies as the one whose second character is
      missing. */
  lemma AtThrowsIsBareV(line: string)
    ensures Classify(line) == AtThrows <==> line == "v"
  {
    if line == "v" {
      assert line[0] == 'v' && |line| == 1;
    }
  }

  /** On a file without undefined behaviour, the loop ends in the exception
      of line.at(1) exactly when some line is "v". */
  lemma {:induction false} ThrowsIffBareV<V, T>(lines: seq<string>, vec3: string -> V, vec2: string -> T)
    requires !Run(lines, vec3, vec2).Undefined?
    ensures Run(lines, vec3, vec2) == Threw <==> exists k | 0 <= k < |lines| :: lines[k] == "v"
  {
    if lines != [] {
      var init, last := lines[..|lines| - 1], lines[|lines| - 1];
      PrefixDefined(lines, |lines| - 1, vec3, vec2);
      ThrowsIffBareV(init, vec3, vec2);
      AtThrowsIsBareV(last);
      if exists k | 0 <= k < |lines| :: lines[k] == "v" {
        var k :| 0 <= k < |lines| && lines[k] == "v";
        if k < |init| {
          assert init[k] == "v";
        }
      }
      if exists k | 0 <= k < |init| :: init[k] == "v" {
        var k :| 0 <= k < |init| && init[k] == "v";
        assert lines[k] == "v";
      }
    }
  }

  /** loadOBJ reports std::out_of_range exactly when some line is "v". */
  lemma OutOfRangeIffBareV<V, T>(lines: seq<string>, vec3: string -> V, vec2: string -> T)
    requires !Run(lines, vec3, vec2).Undefined?
    ensures Load(Some(lines), vec3, vec2) == OutOfRange <==> exists k | 0 <= k < |lines| :: lines[k] == "v"
  {
    ThrowsIffBareV(lines, vec3, vec2);
  }

  // ---------------------------------------------------------------------
  // Which files run into undefined behaviour

  /** The number of lines of one kind. */
  function KindCount(lines: seq<string>, kind: LineKind): nat
  {
    if lines == [] then 0
    else KindCount(lines[..|lines| - 1], kind) + (if Classify(lines[|lines| - 1]) == kind then 1 else 0)
  }

  /** Each pool holds one value per line of its kind. */
  lemma {:induction false} AttributesCount<A>(lines: seq<string>, kind: LineKind, parse: string -> A)
    ensures |Attributes(lines, kind, parse)| == KindCount(lines, kind)
  {
    if lines != [] {
      AttributesCount(lines[..|lines| - 1], kind, parse);
    }
  }

  /** The 1-based indices name a position, a uv and a normal declared on the
      lines `before`. */
  predicate DeclaredBefore(r: VertexRef, before: seq<string>)
  {
    && 1 <= r.p <= KindCount(before, PositionLine)
    && 1 <= r.t <= KindCount(before, TexCoordLine)
    && 1 <= r.n <= KindCount(before, NormalLine)
  }

  /** A token captureVertex cannot fill, or whose indices name attributes not
      declared yet. */
  predicate Unresolvable(tok: string, before: seq<string>)
  {
    CaptureVertex(tok).None? || !DeclaredBefore(CaptureVertex(tok).value, before)
  }

  /** Token i of a face is new (neither among the tokens `seen` before the
      face nor earlier in it) and cannot be resolved. */
  predicate BadToken(seen: seq<string>, face: seq<string>, i: int, before: seq<string>)
  {
    0 <= i < |face| && face[i] !in seen + face[..i] && Unresolvable(face[i], before)
  }

  /** A face line, read after the lines `before`, with a new token that
      cannot be resolved. */
  ghost predicate BadFaceLine(before: seq<string>, line: string)
  {
    Classify(line) == FaceLine && exists i :: BadToken(FaceTokens(before), FaceFields(line), i, before)
  }

  /** No line is "v". */
  predicate NoBareV(lines: seq<string>)
  {
    forall j | 0 <= j < |lines| :: lines[j] != "v"
  }

  /** The keys of the map are exactly the tokens seen so far. */
  lemma KeysAreSeen<V, T>(st: Loader<V, T>, seen: seq<string>)
    requires Interned(st, seen)
    ensures forall t :: t in st.vertexIndices <==> t in seen
  {
    var d := Dedup(seen);
    DedupSpec(seen);
    forall t | t in seen
      ensures t in st.vertexIndices
    {
      assert t in d;
      var m :| 0 <= m < |d| && d[m] == t;
    }
  }

  /** The pools hold as many values as the lines `before` declare. */
  ghost predicate PoolsCounted<V, T>(st: Loader<V, T>, before: seq<string>)
  {
    && |st.tmpPos| == KindCount(before, PositionLine)
    && |st.tmpUv| == KindCount(before, TexCoordLine)
    && |st.tmpNorm| == KindCount(before, NormalLine)
  }

  /** One token runs into undefined behaviour exactly when it is new and
      cannot be resolved. */
  lemma StepTokenUndefinedIff<V, T>(st: Loader<V, T>, seen: seq<string>, tok: string, before: seq<string>)
    requires Interned(st, seen) && PoolsCounted(st, before)
    ensures StepToken(st, tok).Undefined? <==> tok !in seen && Unresolvable(tok, before)
  {
    KeysAreSeen(st, seen);
  }

  lemma BadTokenPrefix(seen: seq<string>, face: seq<string>, before: seq<string>)
    requires face != []
    ensures forall i | 0 <= i < |face| - 1 ::
      BadToken(seen, face, i, before) <==> BadToken(seen, face[..|face| - 1], i, before)
    ensures face[..|face| - 1] == face[..|face| - 1][..|face| - 1]
  {
    var init := face[..|face| - 1];
    forall i | 0 <= i < |face| - 1
      ensures BadToken(seen, face, i, before) <==> BadToken(seen, init, i, before)
    {
      assert init[..i] == face[..i] && init[i] == face[i];
    }
  }

  /** Once the tokens before it ran, the last token of a face runs into
      undefined behaviour exactly when it is new and cannot be resolved. */
  lemma LastTokenUndefinedIff<V, T>(st: Loader<V, T>, seen: seq<string>, face: seq<string>, before: seq<string>)
    requires Inv(st, seen) && PoolsCounted(st, before) && face != []
    requires StepTokens(st, face[..|face| - 1]).Running?
    ensures StepTokens(st, face).Undefined? <==> BadToken(seen, face, |face| - 1, before)
  {
    var init := face[..|face| - 1];
    TokensKeep(st, seen, init);
    StepTokenUndefinedIff(StepTokens(st, init).st, seen + init, face[|face| - 1], before);
    assert face[..|init|] == init;
  }

  /** A face runs into undefined behaviour exactly when one of its tokens is
      new and cannot be resolved. */
  lemma {:induction false} FaceUndefinedIff<V, T>(st: Loader<V, T>, seen: seq<string>, face: seq<string>, before: seq<string>)
    requires Inv(st, seen) && PoolsCounted(st, before)
    ensures StepTokens(st, face).Undefined? <==> exists i :: BadToken(seen, face, i, before)
    decreases |face|
  {
    if face != [] {
      var init := face[..|face| - 1];
      FaceUndefinedIff(st, seen, init, before);
      if StepTokens(st, init).Running? {
        FaceStepRunning(st, seen, init, face, before);
      } else {
        FaceStepUndefined(st, seen, init, face, before);
      }
    }
  }

  lemma FaceStepRunning<V, T>(st: Loader<V, T>, seen: seq<string>, init: seq<string>, face: seq<string>, before: seq<string>)
    requires Inv(st, seen) && PoolsCounted(st, before) && face != [] && init == face[..|face| - 1]
    requires StepTokens(st, init).Running?
    requires forall i :: !BadToken(seen, init, i, before)
    ensures StepTokens(st, face).Undefined? <==> exists i :: BadToken(seen, face, i, before)
  {
    BadTokenPrefix(seen, face, before);
    LastTokenUndefinedIff(st, seen, face, before);
  }

  lemma FaceStepUndefined<V, T>(st: Loader<V, T>, seen: seq<string>, init: seq<string>, face: seq<string>, before: seq<string>)
    requires face != [] && init == face[..|face| - 1] && StepTokens(st, init).Undefined?
    requires exists i :: BadToken(seen, init, i, before)
    ensures StepTokens(st, face).Undefined? && exists i :: BadToken(seen, face, i, before)
  {
    var i :| BadToken(seen, init, i, before);
    BadTokenPrefix(seen, face, before);
    assert BadToken(seen, face, i, before);
  }

  /** A line runs into undefined behaviour exactly when it is a face line
      with a new token that cannot be resolved. */
  lemma LineUndefinedIff<V, T>(st: Loader<V, T>, before: seq<string>, line: string, vec3: string -> V, vec2: string -> T)
    requires Built(st, before, vec3, vec2)
    ensures StepLine(st, line, vec3, vec2).Undefined? <==> BadFaceLine(before, line)
  {
    if Classify(line) == FaceLine {
      AttributesCount(before, PositionLine, vec3);
      AttributesCount(before, TexCoordLine, vec2);
      AttributesCount(before, NormalLine, vec3);
      FaceUndefinedIff(st, FaceTokens(before), FaceFields(line), before);
    }
  }

  /** The lines of a file that runs on hold no "v". */
  lemma RunningNoBareV<V, T>(lines: seq<string>, vec3: string -> V, vec2: string -> T)
    requires Run(lines, vec3, vec2).Running?
    ensures NoBareV(lines)
  {
    forall j | 0 <= j < |lines|
      ensures lines[j] != "v"
    {
      AtThrowsIsBareV(lines[j]);
    }
  }

  /** Some face line, before any line "v", has a new token that cannot be
      resolved. */
  ghost predicate BadFaceBeforeBareV(lines: seq<string>)
  {
    exists k | 0 <= k < |lines| :: NoBareV(lines[..k]) && BadFaceLine(lines[..k], lines[k])
  }

  /** loadOBJ runs into undefined behaviour exactly when, before any line
      "v", some face line has a token that is new (not seen on an earlier
      face or earlier on this one) and either does not scan as p/t/n or names
      a position, uv or normal not declared on an earlier line. */
  lemma {:induction false} UndefinedIffBadFace<V, T>(lines: seq<string>, vec3: string -> V, vec2: string -> T)
    ensures Run(lines, vec3, vec2).Undefined? <==> BadFaceBeforeBareV(lines)
  {
    if lines != [] {
      var init := lines[..|lines| - 1];
      UndefinedIffBadFace(init, vec3, vec2);
      var prev := Run(init, vec3, vec2);
      if prev.Running? {
        RunStepRunning(lines, vec3, vec2);
      } else if prev.Threw? {
        RunStepThrew(lines, vec3, vec2);
      } else {
        RunStepUndefined(lines, vec3, vec2);
      }
    }
  }

  lemma RunStepRunning<V, T>(lines: seq<string>, vec3: string -> V, vec2: string -> T)
    requires lines != [] && Run(lines[..|lines| - 1], vec3, vec2).Running?
    requires !BadFaceBeforeBareV(lines[..|lines| - 1])
    ensures Run(lines, vec3, vec2).Undefined? <==> BadFaceBeforeBareV(lines)
  {
    var init, last := lines[..|lines| - 1], lines[|lines| - 1];
    SnocPrefixes(lines);
    RunBuilt(init, vec3, vec2);
    LineUndefinedIff(Run(init, vec3, vec2).st, init, last, vec3, vec2);
    RunningNoBareV(init, vec3, vec2);
    if Run(lines, vec3, vec2).Undefined? {
      assert NoBareV(lines[..|init|]) && BadFaceLine(lines[..|init|], lines[|init|]);
    } else {
      forall k | 0 <= k < |lines|
        ensures !(NoBareV(lines[..k]) && BadFaceLine(lines[..k], lines[k]))
      {
        if k < |init| {
          assert !(NoBareV(init[..k]) && BadFaceLine(init[..k], init[k]));
        }
      }
    }
  }

  lemma RunStepThrew<V, T>(lines: seq<string>, vec3: string -> V, vec2: string -> T)
    requires lines != [] && Run(lines[..|lines| - 1], vec3, vec2).Threw?
    requires !BadFaceBeforeBareV(lines[..|lines| - 1])
    ensures !Run(lines, vec3, vec2).Undefined? && !BadFaceBeforeBareV(lines)
  {
    var init := lines[..|lines| - 1];
    SnocPrefixes(lines);
    ThrowsIffBareV(init, vec3, vec2);
    var j :| 0 <= j < |init| && init[j] == "v";
    forall k | 0 <= k < |lines|
      ensures !(NoBareV(lines[..k]) && BadFaceLine(lines[..k], lines[k]))
    {
      if k < |init| {
        assert !(NoBareV(init[..k]) && BadFaceLine(init[..k], init[k]));
      } else {
        assert lines[..k][j] == "v";
      }
    }
  }

  lemma RunStepUndefined<V, T>(lines: seq<string>, vec3: string -> V, vec2: string -> T)
    requires lines != [] && Run(lines[..|lines| - 1], vec3, vec2).Undefined?
    requires BadFaceBeforeBareV(lines[..|lines| - 1])
    ensures Run(lines, vec3, vec2).Undefined? && BadFaceBeforeBareV(lines)
  {
    var init := lines[..|lines| - 1];
    SnocPrefixes(lines);
    var k :| 0 <= k < |init| && NoBareV(init[..k]) && BadFaceLine(init[..k], init[k]);
    assert NoBareV(lines[..k]) && BadFaceLine(lines[..k], lines[k]);
  }

  lemma SnocPrefixes(lines: seq<string>)
    requires lines != []
    ensures forall k | 0 <= k < |lines| - 1 :: lines[..k] == lines[..|lines| - 1][..k] && lines[k] == lines[..|lines| - 1][k]
  {
  }

  /** A file whose face tokens all scan and name attributes declared on
      earlier lines (the triangle mesh with vertex, texture and normal data
      loadOBJ asks for) runs without undefined behaviour. */
  lemma WellFormedDefined<V, T>(lines: seq<string>, vec3: string -> V, vec2: string -> T)
    requires forall k | 0 <= k < |lines| && Classify(lines[k]) == FaceLine ::
      forall i | 0 <= i < 3 :: !Unresolvable(FaceFields(lines[k])[i], lines[..k])
    ensures !Run(lines, vec3, vec2).Undefined?
  {
    UndefinedIffBadFace(lines, vec3, vec2);
  }
}
