# Wavefront OBJ importer of the deferred renderer, in Dafny

This project models `util::loadOBJ` and its two string helpers,
`util::captureFaces` and `util::captureVertex`, all from `src/util.cpp`.
Together they make the Wavefront OBJ importer of the renderer, and the project
proves what that importer builds.

`loadOBJ` reads the file line by line.
- An empty line is skipped.
- A line `v ` adds a position to the position pool.
- A line `vt` adds a texture coordinate to the uv pool.
- A line `vn` adds a normal to the normal pool.
- A line `f` is a face. `captureFaces` cuts it into three vertex tokens.
- Any other line is ignored.

Each vertex token is interned through a `std::map` from the token text to a
`GLushort` index. A token seen before emits its stored index again. A new
token goes through `captureVertex`, which reads its `p/t/n` indices. The
importer then appends three `vec3` values to the vertex data: the position,
the normal, and the uv padded with 0. The new token gets the index
`(vertexData.size() - 1) / 3`, truncated to 16 bits. At the end, `nElems` is
the number of indices, and the vertex data and the indices go to OpenGL.

Files:
- `capture.dfy` (module `Capture`) holds the `size_t` arithmetic of
  `std::string::find`/`substr`. It models `captureFaces` as a method with
  its loop, proved against a specification function (`FaceFields`). It models
  `captureVertex` as a function over the `sscanf` `%u` conversion.
- `obj_loader.dfy` (module `ObjLoader`) holds the importer.
  - A pure fold (`StepToken`, `StepTokens`, `StepLine`, `Run`, `Load`) is the
    specification.
  - The class `ObjReader`, whose fields are the local containers of
    `loadOBJ`, carries the loop body (`ReadLine`, `AddFace`, `AddVertex`).
  - The method `LoadObj` runs the `getline` loop over the lines. It is proved
    equal to `Load`.
- `obj_loader_proofs.dfy` (module `ObjLoaderProofs`) gives reference
  definitions that read the file directly:
  - the face tokens in file order (`FaceTokens`);
  - the distinct tokens in order of first occurrence (`Dedup`);
  - the attribute lines of each kind (`Attributes`).

  It proves that the loop keeps the state equal to what those definitions
  describe (`RunBuilt`), and derives from that the counts, the index, layout
  and wrap-around properties, the cases where the importer throws, and the
  files that lead it into undefined behaviour (`UndefinedIffBadFace`).

Modelling choices:
- The attribute values are opaque. `V` stands for `glm::vec3` and `T` for
  `glm::vec2`, and the parsers `captureVec3`/`captureVec2` are function
  parameters.
- Indices are 1-based and are read without bounds checks, so an out-of-range
  index is undefined behaviour. So is a token `sscanf` cannot fill. Both lead
  the fold to `Undefined` and `Load` to `NoDefinedOutcome`. `LoadObj`
  requires a file that avoids them, and `UndefinedIffBadFace` says exactly
  which files those are.
- `line.at(1)` on the one-character line `v` throws `std::out_of_range`. The
  model follows this: `Threw` in the fold, `OutOfRange` in the outcome.
- `captureFaces` runs `find`/`substr` with `size_t` wrap-around:
  `npos + 1 == 0`, and `next - prev - 1` wraps. On any line it returns
  fields 1, 2 and 3 of the split on single spaces, counted cyclically. On a
  well-formed line `f a b c` that is exactly `[a, b, c]`.

## Model

| member | source | states |
|---|---|---|
| Capture.SizeTIsModular | src/util.cpp:179-180 | `prev + 1` and `next - prev - 1` in the loop of captureFaces are size_t sums modulo 2^64; npos + 1 is 0 |
| Capture.Find | src/util.cpp:176-179 | `find(" ", from)` returns npos or a position at or after `from` holding a space |
| Capture.FindFirst | src/util.cpp:176-179 | the position `find` returns is the first space from `from` on (none at all when it returns npos) |
| Capture.Substr | src/util.cpp:180 | `substr(pos, count)` is the slice from `pos` of at most `count` characters, cut short only at the end of the string |
| Capture.Split | src/util.cpp:176-182 | cutting the line at every space gives at least one field |
| Capture.SplitJoin | src/util.cpp:176-182 | the fields joined with single spaces give back the line, so the split loses nothing |
| Capture.SplitFieldsSpaceFree | src/util.cpp:176-182 | no field of the split holds a space |
| Capture.SplitSpaceFree | src/util.cpp:176-182 | a text without spaces is a single field |
| Capture.SplitAppendSep | src/util.cpp:176-182 | a space between two texts joins their field lists |
| Capture.SplitAfterSpace | src/util.cpp:176-182 | cutting at one space splits the field list in two, and the text up to that space ends in an empty field |
| Capture.SplitAt | src/util.cpp:179-180 | the fields from a field boundary on are the fields of the rest of the line |
| Capture.LastField | src/util.cpp:179-180 | with no space after a boundary, the field there is the last one and runs to the end of the line |
| Capture.FieldBeforeSpace | src/util.cpp:179-180 | the field from a boundary up to the next space is that slice, and the next field starts past the space |
| Capture.NextField | src/util.cpp:179-181 | one turn of captureFaces reads the field after the separator `prev`, and the separator it stops at starts the next field, cyclically |
| Capture.FaceFields | src/util.cpp:173-184 | what captureFaces returns: three tokens, fields 1, 2, 3 of the split, counted cyclically |
| Capture.CaptureFaces | src/util.cpp:173-184 | the loop over the three faces (find, substr, prev := next) returns exactly FaceFields of the line |
| Capture.NextTurn | src/util.cpp:178-182 | each loop turn keeps the invariant: the k faces read so far are fields 1..k of the split, cyclically |
| Capture.LastTurnRead | src/util.cpp:183 | after three turns the array holds FaceFields of the line |
| Capture.FaceFieldsOfFaceLine | src/util.cpp:173-184 | on `f a b c` with space-free tokens, captureFaces returns `[a, b, c]`, the third token running to the end of the line |
| Capture.ScanDigitsStops | src/util.cpp:187 | a `%u` conversion consumes a run of digits and stops at the first non-digit |
| Capture.ScanDigitsShow | src/util.cpp:187 | reading the decimal text of n gives n |
| Capture.ScanUnsigned | src/util.cpp:187 | a `%u` conversion skips white space and an optional '+', then reads digits; a value it stores is at most UINT_MAX, and a '-', a missing digit or a larger value fails it |
| Capture.ScanUnsignedStops | src/util.cpp:187 | a successful `%u` consumes at least one character and leaves the rest of the text unread, starting at a non-digit or at the end |
| Capture.ScanUnsignedShow | src/util.cpp:187 | `%u` on the decimal text of n (n at most UINT_MAX) stores n and leaves the non-digit rest unread |
| Capture.CaptureVertex | src/util.cpp:185-189 | captureVertex reads `%u/%u/%u`: three indices, each at most UINT_MAX, when all three conversions and both slashes match, and no result otherwise |
| Capture.CaptureVertexRoundTrip | src/util.cpp:185-189 | captureVertex of `str(p) + "/" + str(t) + "/" + str(n)` plus a non-digit tail returns `[p, t, n]` |
| Capture.LeadingZeroSameRef | src/util.cpp:185-189 | "0" + tok is a different text from tok, yet captureVertex reads the same indices from both |
| ObjLoader.ToUshort | src/util.cpp:148-149 | storing into GLushort keeps the value below 65536 and congruent modulo 65536, and exact when it fits |
| ObjLoader.Classify | src/util.cpp:113-130 | the branch a line takes, each exactly on its leading characters: empty; the one-character line `v`, where `line.at(1)` throws; `v `, `vt`, `vn` pool lines; `f` face line; anything else |
| ObjLoader.StepToken | src/util.cpp:133-149 | one face token never throws; it runs into undefined behaviour exactly when it is not in the map and captureVertex fails or names an index outside a pool |
| ObjLoader.StepTokens | src/util.cpp:132-151 | the tokens of a face never throw; when they run, they append one index per token after the earlier ones and leave the pools alone |
| ObjLoader.StepLine | src/util.cpp:113-152 | one line throws exactly on the `line.at(1)` branch; only a face line can run into undefined behaviour; any other line leaves the map, the vertex data and the indices unchanged |
| ObjLoader.Run | src/util.cpp:112-153 | the getline loop over all lines; when it completes, no line took the throwing branch |
| ObjLoader.Load | src/util.cpp:95-161 | loadOBJ: NotOpened exactly when the file cannot be opened; when it loads, nElems is the number of indices and no line of the file is "v" |
| ObjLoader.ObjReader.constructor | src/util.cpp:102-109 | the containers start empty |
| ObjLoader.ObjReader.AddVertex | src/util.cpp:132-150 | one vertex token updates the state exactly as StepToken describes: re-emit the stored index, or pack a new vertex and store its index |
| ObjLoader.ObjReader.AddFace | src/util.cpp:132-151 | the loop over the tokens of a face applies them one by one, in order, as StepTokens describes |
| ObjLoader.ObjReader.ReadLine | src/util.cpp:113-152 | one loop turn classifies the line, grows the right pool or interns the three face tokens, and reports the throw of `line.at(1)`, matching StepLine |
| ObjLoader.LoadObj | src/util.cpp:95-162 | on an unopened file it returns NotOpened; otherwise it returns OutOfRange or nElems with the vertex data and the indices, exactly Load of the file |
| ObjLoader.RunStops | src/util.cpp:112-153 | after a throw (or undefined behaviour) the remaining lines change nothing |
| ObjLoader.PrefixDefined | src/util.cpp:112-153 | a file without undefined behaviour has none in any prefix |
| ObjLoader.StepTokensStops | src/util.cpp:132-151 | undefined behaviour on one token of a face carries through the rest of the face |
| ObjLoader.TokenDefined | src/util.cpp:132-151 | on a defined face each next token is defined |
| ObjLoaderProofs.LineTokens | src/util.cpp:130-131 | a face line gives three tokens, any other line none |
| ObjLoaderProofs.DedupSpec | src/util.cpp:133-149 | the first-occurrence list of the tokens holds each token exactly once and nothing else |
| ObjLoaderProofs.ReuseKeeps | src/util.cpp:133-137 | a token already in the map re-emits its stored index, and the distinct tokens, the map and the data do not change |
| ObjLoaderProofs.InternKeeps | src/util.cpp:138-149 | a new token becomes the next distinct token, and its index equals the number of distinct tokens before it (mod 65536) |
| ObjLoaderProofs.NumberedExtend | src/util.cpp:148-149 | storing the next number under a new token keeps the map numbering the distinct tokens in order |
| ObjLoaderProofs.EmittedExtend | src/util.cpp:148-149 | every emitted index stays equal to its token's map entry |
| ObjLoaderProofs.PackedAfterIntern | src/util.cpp:140-145 | the data of earlier vertices is kept, and the new vertex packs the attributes its p/t/n name |
| ObjLoaderProofs.PackedAfterGrowth | src/util.cpp:117-128 | pools that only grow keep resolving every packed vertex to the same values |
| ObjLoaderProofs.TokenKeeps | src/util.cpp:132-151 | one token keeps the invariant (map, indices, packed data) and leaves the pools alone |
| ObjLoaderProofs.TokensKeep | src/util.cpp:130-152 | the three tokens of a face keep the invariant over the tokens read so far |
| ObjLoaderProofs.PoolsSnoc | src/util.cpp:117-128 | the three pools after one more line are the attribute lines of the longer file |
| ObjLoaderProofs.PoolsKept | src/util.cpp:113-152 | an empty, ignored or face line leaves the three pools as the attribute lines of the longer file |
| ObjLoaderProofs.InvAfterGrowth | src/util.cpp:117-128 | an attribute line keeps the map, indices and packed data valid |
| ObjLoaderProofs.FaceLineKeeps | src/util.cpp:130-152 | a face line keeps the state equal to the reference description of the longer file |
| ObjLoaderProofs.OtherLineKeeps | src/util.cpp:113-128 | an empty, attribute or ignored line keeps the state equal to the reference description of the longer file |
| ObjLoaderProofs.OtherLineInv | src/util.cpp:113-128 | a line that is not a face keeps the map, indices and packed data valid |
| ObjLoaderProofs.OtherLinePools | src/util.cpp:113-128 | a line that is not a face adds its value to the pool of its own kind, or to none |
| ObjLoaderProofs.LineKeeps | src/util.cpp:113-152 | any line that does not throw keeps the state equal to the reference description |
| ObjLoaderProofs.RunBuilt | src/util.cpp:112-153 | after any lines: the pools are the attribute lines in file order; the map numbers the distinct tokens by first occurrence mod 65536; indices follow the tokens one for one; each distinct token packed its three values |
| ObjLoaderProofs.FaceTokensCount | src/util.cpp:130-132 | three tokens per face line |
| ObjLoaderProofs.LoadedCounts | src/util.cpp:130-154 | nElems = number of indices = 3 x face lines; vertex data = 3 vec3 per distinct token |
| ObjLoaderProofs.LoadedIndices | src/util.cpp:133-149 | element index j is the first-occurrence number of token j, truncated to 16 bits; equal token texts get equal indices |
| ObjLoaderProofs.LoadedVertexData | src/util.cpp:140-145 | vertex m of the data (the pos, normal, uv packing the header promises) is position, normal, uv of the m-th distinct token, taken from the attribute lines in order, with 1-based indices in range |
| ObjLoaderProofs.LoadedDistinct | src/util.cpp:106-149 | with at most 65536 distinct tokens, two indices are equal exactly when their tokens are, and every index is below the vertex count |
| ObjLoaderProofs.LoadedWraps | src/util.cpp:106-149 | with more than 65536 distinct tokens, two different tokens emit the same index (nothing checks the overflow) |
| ObjLoaderProofs.SkippedLine | src/util.cpp:113-128 | an empty line, or one of no known kind (including other `v?` lines), changes nothing |
| ObjLoaderProofs.AtThrowsIsBareV | src/util.cpp:117-119 | the second character is missing exactly on the line "v" |
| ObjLoaderProofs.ThrowsIffBareV | src/util.cpp:117-119 | on a defined file the loop throws exactly when some line is "v" |
| ObjLoaderProofs.OutOfRangeIffBareV | src/util.cpp:117-161 | loadOBJ ends in std::out_of_range exactly when some line is "v"; otherwise it returns true with nElems |
| ObjLoaderProofs.AttributesCount | src/util.cpp:117-128 | each pool holds one value per line of its kind |
| ObjLoaderProofs.KeysAreSeen | src/util.cpp:133-149 | the keys of the map are exactly the face tokens read so far |
| ObjLoaderProofs.StepTokenUndefinedIff | src/util.cpp:133-145 | a token runs into undefined behaviour exactly when it was not read before and either fails to scan or names a position, uv or normal not declared on an earlier line |
| ObjLoaderProofs.FaceUndefinedIff | src/util.cpp:132-151 | a face runs into undefined behaviour exactly when one of its tokens is new (not on an earlier face, not earlier on this one) and cannot be resolved |
| ObjLoaderProofs.LineUndefinedIff | src/util.cpp:113-152 | a line runs into undefined behaviour exactly when it is a face line with a new token that cannot be resolved from the lines before it |
| ObjLoaderProofs.RunningNoBareV | src/util.cpp:112-153 | lines the loop got through without a throw contain no line "v" |
| ObjLoaderProofs.UndefinedIffBadFace | src/util.cpp:112-153 | loadOBJ runs into undefined behaviour exactly when, before any line "v", some face line has a new token that fails to scan as p/t/n or names an attribute not declared on an earlier line |
| ObjLoaderProofs.WellFormedDefined | src/util.cpp:130-149 | a file whose face tokens all scan and name attributes declared on earlier lines (the triangle mesh with vertex, texture and normal data loadOBJ asks for) has no undefined behaviour |

## Left out

- `readFile`, `loadShader`, `loadProgram` and `logGLError` (src/util.cpp:11-94) are file I/O and OpenGL calls, and are not part of this model.
- Opening the file and `getline`: the file is a `seq<string>` of lines, or `None` when it cannot be opened. The model does not cover the message printed on failure.
- The GL upload (`glBindBuffer`/`glBufferData`, src/util.cpp:155-159) is foreign GPU code. The model hands out the vertex data and the indices as `vbo` and `ebo` instead.
- `captureVec2`/`captureVec3` (src/util.cpp:163-172) parse floats with `sscanf`. They are parameters here, and attribute values stay opaque.
- src/main.cpp, src/model.cpp and include/model.h are SDL/OpenGL glue, and are not part of this model.
- Capture.CaptureVertex: `sscanf` `%u` accepts a '-' sign and wraps values beyond UINT_MAX. The model treats both as failed conversions, and so as undefined behaviour.
- ObjLoader.LoadObj: it requires a file free of undefined behaviour. Such behaviour comes from a face token that scans fewer than three values, or from a 1-based index outside its pool (UndefinedIffBadFace). The model does not describe what the C++ code does then. It also requires every line to be shorter than npos.
- ObjLoader.LoadObj: an opened file with no face line leaves `vertexData` and `indices` empty, and then `&vertexData[0]` and `&indices[0]` (src/util.cpp:156 and :159) index an empty vector, which is undefined behaviour. The model returns `Loaded(0, [], [])` there, because the GL upload that takes those addresses is outside the model.
- Exceptions other than `line.at(1)` on the line "v" (such as allocation failure) are not modelled.
- No overflow error is raised when more than 65536 distinct tokens occur: the code stores the index into `GLushort` without a check. The model follows the code: indices wrap (LoadedWraps).
- ObjLoader.ObjReader: the local containers of `loadOBJ` become fields of a class, so that the loop body can be split into `ReadLine` and `AddVertex`. The three `vertexData.push_back` calls become three sequence appends.
- Malformed faces are not detected by the code. Lines with fewer than three spaces still yield three tokens (FaceFields, cyclically). If those tokens do not scan, the result is undefined behaviour, which the precondition excludes.
