# stb_test rasterizer, modelled in Dafny

This project models the software rasterizer of `stb_test`. Each routine
below is matched to the Dafny module that models it.

- `drawLine` draws a Bresenham line. Module `Line`.
- `fillTriangle` is a flat, white scanline fill. Module `FlatFill`.
- `fillTriangle2` is a depth-tested, shaded scanline fill. Module `DepthFill`.
- `main` sets up the depth buffer and the image before drawing. Module `FrameBuffers`.
- `viewport` builds the viewport matrix. Module `ViewportMatrix`.
- `ModelManager::assimpGetMeshData` flattens a mesh into an interleaved
  vertex buffer and a 16-bit index buffer. Module `MeshData`.

Module `ScreenMath` holds the conversions that the C++ code performs
implicitly:

- float to `int` is truncation toward zero (`Trunc`);
- float to `unsigned char` is the low 8 bits of the truncated value (`ToByte`);
- `INT_MIN` is the 32-bit least value.

The buffers that the source writes in place are Dafny arrays, written by
methods with the source's own loops. Each such method is proved against a
function on values:

- `FlatFill.FillTriangle` against the predicate `FlatLit`;
- `DepthFill.FillTriangle2` against the fold `Fill`;
- `Line.DrawLine` and `Line.DrawSegment` against `LineLit`.

The mesh manager is a class. Its two `std::vector` members are `seq`
fields, and the method appends to them.

The model follows the code wherever it departs from the intended
behaviour of a rasteriser. The intended behaviour, which the code does not
have, is:

- a line drawing that terminates for every pair of endpoints;
- a bounds check before every buffer write;
- a viewport matrix that maps `[-1, 1]` onto `[x, x + w] x [y, y + h]`;
- a flat triangle whose height rounds to zero still drawing its one
  scanline (the source draws nothing, `FlatFill.FlatDrawsNothing`);
- a depth test whose result does not depend on the order of submission, and
  a triangle drawn twice leaving the buffers as drawn once (the source's
  integer depth buffer and its colour index break both; see "Left out" and
  "Findings").

The model reproduces the source's quirks as written:

- the point `A + phi * B - A` (main.cpp:110);
- a colour index that is not multiplied by 3 (main.cpp:112, 117);
- the row flip of `fillTriangle`, which uses `image_size[0]` and
  `image_size[1]` the other way round from `drawLine` (main.cpp:73);
- intensity swaps that always exchange `ity0` and `ity1` (main.cpp:84-86).

Where a quirk makes the program misbehave, the "Findings" section below
gives it both as written and corrected.

## Model

| member | source | states |
|---|---|---|
| ScreenMath.Trunc | main.cpp:93 | The float-to-int conversion truncates toward zero. Its result is within one unit of the argument, on the side of 0. |
| ScreenMath.ToByte | main.cpp:117-119 | The float-to-byte store: it gives the truncated value when that is in 0..255. Otherwise it gives the truncated value modulo 256. |
| Line.Step | main.cpp:36-53 | One pass of the loop never takes the `break`. Each coordinate moves by 0 or by its step toward `b`. On `b`'s row only `x` moves, by `sx`. |
| Line.StepInv | main.cpp:36-53 | The Bresenham invariant is preserved by every pass. The error term tracks the distance from the ideal line, and `x` never passes `b.x` off `b`'s row. Off that row every pass advances. |
| Line.ReachesEnd | main.cpp:21-55 | The walk reaches `b` within `dx + dy` passes. |
| Line.Connected | main.cpp:24-25 | Consecutive pixels are distinct 8-neighbours, each one step or none toward `b` on each axis. |
| Line.RunsPastEnd | main.cpp:38-41 | As written, once the walk is at `b` it keeps moving along `b`'s row. `k` passes later it is `k` columns past `b`. |
| Line.DiagonalOvershoots | main.cpp:38-44 | The line from (100,100) to (400,400) on a 512 x 512 image reaches `b`. The next pass lights (401,400), which is inside the image and off the line. |
| Line.DiagonalLength | main.cpp:22-53 | On that diagonal, `b` is first reached on pass 300. |
| Line.PlotWhite | main.cpp:30-35 | The three bytes at `((h-1-y)*w + x)*3` become 255 exactly when the bounds test passes. Every other byte is unchanged. |
| Line.DrawLine | main.cpp:21-55 | The loop as written, run for a given number of passes, never leaves by the `break`. Afterwards exactly the bytes of the in-bounds pixels visited are white, and the rest are unchanged. |
| Line.DrawSegment | main.cpp:21-55 | The corrected walk stops on reaching `b`, the first time it does. A line whose endpoints coincide lights one pixel. Exactly the in-bounds pixels of the path are white. |
| FlatFill.SortByY | main.cpp:59-61 | After the three swaps the vertices are ascending in `y` and are a permutation of the arguments. |
| FlatFill.HalfHeight | main.cpp:64-65 | The half height is at least 1 in every row the loop reaches. This is why line 67 never divides by 0. |
| FlatFill.Fractions | main.cpp:66-67 | The long-edge fraction `a` lies in [0, 1) and the half-edge fraction `b` in [0, 1]. |
| FlatFill.Span | main.cpp:68-70 | After the swap `A.x <= B.x`. Both ends lie within the horizontal extent of the triangle. |
| FlatFill.SpanInBox | main.cpp:63-71 | Every written pixel lies in the triangle's bounding box. Its row is below `v2.y`, so the top vertex row is never drawn. |
| FlatFill.SpanIsSection | main.cpp:66-70 | The long edge and the edge of the row's half both reach the row's height `v0.y + i` at the fractions of lines 66-67, and the span runs from the left crossing to the right one. |
| FlatFill.ColumnsOfSection | main.cpp:71 | Every integer column between the two crossings is written, and every written column lies less than one pixel left of the left crossing and not right of the right one. |
| FlatFill.SectionLit | main.cpp:63-78 | Every byte of a pixel of a swept row's section is lit by the fill. |
| FlatFill.OutsideBoxUntouched | main.cpp:63-78 | A byte that belongs to no pixel of the bounding box is never written. |
| FlatFill.FlatDrawsNothing | main.cpp:62-63 | A triangle with `total_height` 0 draws nothing. |
| FlatFill.FillTriangle | main.cpp:57-80 | Afterwards exactly the bytes of the pixels on the rows' inclusive spans are 255, and every other byte is unchanged. |
| DepthFill.SortByY | main.cpp:84-86 | The vertices become ascending in `y` and are a permutation of the arguments. `ity2` stays third, and the first two slots hold `ity0` and `ity1` in some order. |
| DepthFill.IntensitiesDoNotFollowVertices | main.cpp:84-86 | For vertices at heights 2, 3 and 1, the lowest vertex ends up first but carries `ity0`, not its own `ity2`. |
| DepthFill.Scaled | main.cpp:87-92 | Scaling by 800 keeps the order by `y`. |
| DepthFill.ZeroHalfOnlyAtBase | main.cpp:97-100 | A half height of 0 occurs only at row 0 of a lower half less than one unit tall, where line 100 computes 0/0. |
| DepthFill.RowEnds | main.cpp:97-106 | The interpolated ends come out with `A.x <= B.x`. The only row without ends is the 0/0 row 0. |
| DepthFill.ColumnsVisited | main.cpp:108 | The columns counted are exactly those `j` with `trunc(A.x) <= j < B.x`. |
| DepthFill.FragmentAt | main.cpp:109-111 | The point computed is `phi * B`, because the two `A` terms cancel. |
| DepthFill.InFrameAdmitsOverrun | main.cpp:112-113 | The guard as written admits a point it should reject. On a 4 x 4 image, column 3 of row 4 of a concrete triangle lies in the image but has index 17, past the 16 entries of the buffer. |
| DepthFill.InFrameWholeRowInBuffer | main.cpp:112-113 | For a point in the image whose `y` is a whole number, the index is within `[0, w*h)`. |
| DepthFill.AdmitsInBuffer | main.cpp:112-113 | The corrected guard keeps every index within the depth buffer. |
| DepthFill.Plot | main.cpp:112-120 | One fragment: no depth entry decreases. Only the depth entry at the point's index and the three bytes from it can change. Nothing changes for a rejected point. |
| DepthFill.PlotCoversDepth | main.cpp:114-115 | After an admitted fragment, the stored depth is at least its truncated depth. |
| DepthFill.PlotWinner | main.cpp:114-119 | A nearer fragment stores its truncated depth. The three bytes from the index get `ityP.x * 255`. |
| DepthFill.PlotLoser | main.cpp:114 | A fragment no nearer than the stored depth changes nothing. |
| DepthFill.PlotTwice | main.cpp:112-120 | Plotting a fragment is idempotent. |
| DepthFill.PlotRepeatAtEqualDepth | main.cpp:114-119 | A repeat fragment at the same point writes nothing when the depth is a whole number or negative (its truncation toward zero is not below it), because the stored depth is then at least the repeat's and the test is strict. |
| DepthFill.SecondAtIndex | main.cpp:112-119 | For two admitted fragments at one index, the entry after the first is its truncated depth if it won and the old entry otherwise; the second writes its depth and bytes if and only if its depth exceeds that entry, and changes nothing otherwise. |
| DepthFill.NearerWinsEitherOrder | main.cpp:112-120 | Two admitted fragments at the same index whose truncated depths differ give, in either order, the buffers of the nearer one alone. |
| DepthFill.TieDependsOnOrder | main.cpp:114-119 | Two fragments at one pixel with depths 10.3 and 10.7, which both truncate to 10: whichever comes second sets the colour. |
| DepthFill.NegativeTieKeepsFirst | main.cpp:114-119 | Two fragments at one pixel with depths -10.3 and -10.7, which both truncate to -10: whichever comes first keeps the colour. |
| DepthFill.PlotRepeatFractionalRewrites | main.cpp:114-119 | A repeat at the same point with a fractional non-negative depth passes the strict test again, because only the truncation was stored, and rewrites the bytes with its own intensity. |
| DepthFill.AdjacentPlotsOverlap | main.cpp:112-119 | Fragments at pixels 0 and 1 of a 2 x 1 image both write byte 1, so their order decides that byte. |
| DepthFill.RepeatedPairOverwrites | main.cpp:112-119 | Drawing those two fragments a second time changes byte 1: the first one's fractional depth passes again and the second one's whole depth does not. |
| DepthFill.StoreIntended | main.cpp:115-119 | The intended store: the depth at `idx` and the three bytes from `3*idx`, nothing else. |
| DepthFill.PlotIntended | main.cpp:112-120 | With the colour index multiplied by 3, a fragment changes only its own depth entry and its own pixel's three bytes, and never lowers a depth. |
| DepthFill.PlotIntendedCommutes | main.cpp:112-120 | With the intended index, fragments at different points give the same buffers in either order. |
| DepthFill.ColumnsChange | main.cpp:108-122 | A row's columns never lower a depth entry. They change only entries that some admitted fragment of those columns touches. |
| DepthFill.RowsChange | main.cpp:96-123 | The same holds for the rows swept so far. |
| DepthFill.FillChanges | main.cpp:82-124 | The whole fill never lowers a depth entry. Every changed entry or byte lies on an admitted fragment of the triangle. |
| DepthFill.ThinTriangleDrawsNothing | main.cpp:93-96 | A triangle less than one unit tall after scaling leaves both buffers unchanged. |
| DepthFill.PlotFragment | main.cpp:112-120 | On the arrays, one column leaves exactly what `Plot` computes. |
| DepthFill.FillRow | main.cpp:108-122 | On the arrays, one row's columns loop leaves exactly the fold of `Plot` over its columns. |
| DepthFill.SortAndScale | main.cpp:84-92 | The local swaps and the scaling give the sorted, scaled triangle. |
| DepthFill.FillTriangle2 | main.cpp:82-124 | The arrays end up holding the value-level `Fill` of the old buffers, and no depth entry decreases. |
| FrameBuffers.ClearedFits | main.cpp:148-161 | The cleared buffers have `w*h` depth entries, all `INT_MIN`, and `3*w*h` image bytes, all 0. |
| FrameBuffers.ClearedAcceptsFirst | main.cpp:148-151 | On cleared buffers, any admitted fragment nearer than `INT_MIN` passes the depth test and is stored. |
| FrameBuffers.NewDepthBuffer | main.cpp:148-151 | The loop fills a fresh depth buffer of `w*h` entries with `INT_MIN`. |
| FrameBuffers.NewImage | main.cpp:154-161 | The loop fills a fresh image of `3*w*h` bytes with 0. |
| ViewportMatrix.Viewport | main.cpp:126-136 | The matrix as written, in glm's column-major layout. The offsets land in the bottom (`w`) row, and the half-extents lie on the diagonal. |
| ViewportMatrix.ViewportImage | main.cpp:126-136 | As written, the matrix scales `x`, `y` and `z` about the origin and folds the offsets into `w`. |
| ViewportMatrix.ViewportMissesCentre | main.cpp:126-136 | For every rectangle of positive size at a non-negative offset, main's (100,100,600,600) among them, the origin maps to (0,0,0,1) and not to the rectangle's centre. |
| ViewportMatrix.ViewportIntended | main.cpp:126-136 | The corrected matrix has the same diagonal and zero off-diagonal entries in the first three columns. |
| ViewportMatrix.ViewportIntendedImage | main.cpp:126-136 | The corrected matrix maps `[-1,1]` onto `[x, x+w]` and `[y, y+h]`, and depths onto `[0, 255]`, keeping `w = 1`. |
| ViewportMatrix.ViewportIntendedCorners | main.cpp:126-136 | The corrected matrix maps the two corners of the cube to the rectangle's corners and depths 0 and 255, and the origin to the centre. |
| MeshData.Narrow | model.cpp:78-80 | Storing an `unsigned int` into a `uint16_t` keeps an index below 65536 and otherwise a value congruent to it modulo 65536. |
| MeshData.NarrowKeeps | model.cpp:78-80 | An index is stored unchanged exactly when it is below 65536. |
| MeshData.NarrowWraps | model.cpp:78-80 | The indices 65536 and 65541 are stored as 0 and 5. |
| MeshData.VertexDataLength | model.cpp:45-73 | The vertex loop appends exactly 8 values per vertex. |
| MeshData.VertexDataAt | model.cpp:45-73 | Slot `k` of vertex `v` is at position `8*v + k`. |
| MeshData.VertexLayout | model.cpp:47-67 | Per vertex, in order: the position's x, y and z, the normal's x, y and z, then UV x and y. The UV slots are 0 and 0 when there is no texture-coordinate set 0. |
| MeshData.IndexDataLength | model.cpp:75-81 | The face loop appends exactly 3 indices per face. |
| MeshData.IndexDataAt | model.cpp:75-81 | Entry `3*f + k` is face `f`'s `mIndices[k]` modulo 65536. |
| MeshData.ModelManager.constructor | model.cpp:3-9 | Both buffers start empty. |
| MeshData.ModelManager.PushVertex | model.cpp:47-67 | One vertex appends its 8-value record and leaves the index buffer unchanged. |
| MeshData.ModelManager.PushFace | model.cpp:77-80 | One face appends its 3 narrowed indices and leaves the vertex buffer unchanged. |
| MeshData.ModelManager.AssimpGetMeshData | model.cpp:40-84 | The result is always `true`. Both buffers keep their old contents and gain, appended, the mesh's vertex data and index data, so two calls concatenate. |

## Left out

- The rest of `main` (main.cpp:162-256) is not modelled because it is glue around foreign libraries:
  - Assimp import;
  - `glm::lookAt`, the projection and the matrix products;
  - the perspective divide and the per-vertex intensity;
  - the `stbi_write_tga` calls;
  - the depth dump.
- `ModelManager::loadModel`, `processData`, the destructor and the getters are not modelled. They are library calls, traversal of a library-owned node tree, and console I/O.
- Console output in the constructor and an image-allocation failure are not modelled. Under `nothrow`, main returns 1 when allocation fails; here allocation always succeeds.
- Floating point is modelled as exact real arithmetic plus explicit truncation. The rounding of `a`, `b`, `phi` and of the scaling by 800 is not modelled.
- The 32-bit range of `int` is not modelled. Truncated depths, indices and the error term are unbounded integers, so overflow of `Trunc(P.z)` or of an index is not captured.
- ScreenMath.ToByte: out-of-range float-to-`unsigned char` conversion is undefined in C++. The model takes the low 8 bits of the truncated value.
- `drawLine` and `fillTriangle` take integer endpoints: main calls `fillTriangle` with integer vertices (main.cpp:231-236) and never calls `drawLine`. Fractional `glm::vec2` coordinates are not modelled for them.
- Line.DrawLine: the source's `while (true)` never terminates. The model runs a caller-chosen number of passes of it, so the contract covers every finite prefix of the run and not the run itself.
- DepthFill.RowEnds: in the row where the source divides 0 by 0, `b` becomes NaN and the column loop runs zero times. The model represents that row as `Skipped`, without NaN arithmetic.
- DepthFill.Plot: uses the corrected guard (see "Findings"). The source's guard is modelled separately as `InFrame`, and the overrun it allows is exhibited, not executed.
- DepthFill.FillTriangle2: the `color` parameter is accepted and unused, as in the source.
- FlatFill.FillTriangle: the source writes without a bounds check. The method requires every byte it writes to lie in the buffer.
- DepthFill.Plot: the depth buffer holds `int`s, so a later fragment at an index wins exactly when its depth exceeds the truncation stored there (`SecondAtIndex`). Order never matters when the truncated depths differ (`NearerWinsEitherOrder`). When they agree, the result depends on the depths themselves. At 10.3 and 10.7 the second fragment wins (`TieDependsOnOrder`). At -10.3 and -10.7 the first one stays (`NegativeTieKeepsFirst`). At 10.0 and 10.5 the 10.5 fragment wins in either order.
- DepthFill.PlotRepeatAtEqualDepth: covers whole-number and negative depths, where a repeat writes nothing. Only at a fractional positive depth does the repeat pass line 114 again and rewrite the colour (`PlotRepeatFractionalRewrites`).
- DepthFill.FillTriangle2: drawing a triangle twice need not leave the buffers as drawing it once (`RepeatedPairOverwrites`). `Fill` keeps the source's colour index; the corrected `PlotIntended` is stated beside it and is not used by `Fill`.

## Findings

| source | as written | input that shows it | evidently intended | confidence | as-written member | corrected member |
|---|---|---|---|---|---|---|
| main.cpp:38-44 | The `break` is inside the `else` of `a.y == b.y` and tests `a.y == b.y` again, so it never fires. The loop never ends and runs along `b`'s row past `b`. | `drawLine((100,100), (400,400), ...)` reaches (400,400), then lights (401,400) and continues forever. | The walk stops at `b`. | not executed | Line.DrawLine, Line.RunsPastEnd, Line.DiagonalOvershoots | Line.DrawSegment |
| main.cpp:112-113 | The guard checks only that `P` lies in `[0,w) x [0,h)`. With fractional `P.y`, the truncated `P.x + P.y*w` can reach `w*h`, past the end of the depth buffer. | 4 x 4 image, vertices (-1/1600, 0), (-15/1600, 3/800), (9/1600, 5/800): row 4, column 3 gives P = (63/20, 18/5) and index 17 (from 17.55) in exact reals. That is more than one unit past the last entry, 15, and more than 0.4 from an integer, so float rounding of the intermediate values does not bring it back. | Only indices below `w*h` are read or written. | not executed | DepthFill.InFrameAdmitsOverrun | DepthFill.AdmitsInBuffer, DepthFill.Plot |
| main.cpp:128-130 | glm's `m[c][r]` is column `c`, row `r`, so the offsets are written to the bottom row of columns 0-2. | `viewport(100,100,600,600)` maps (0,0,0,1) to (0,0,0,1) instead of (400,400,127.5,1). | The offsets in column 3: `m[3][0]`, `m[3][1]`, `m[3][2]`. | not executed | ViewportMatrix.Viewport, ViewportMatrix.ViewportMissesCentre | ViewportMatrix.ViewportIntended, ViewportMatrix.ViewportIntendedCorners |
| main.cpp:112, 117-119 | The colour bytes are written at the pixel index and the next two, not at three times it, so neighbouring pixels share bytes. The image then depends on the order of fragments at different points and changes when a triangle is redrawn. | 2 x 1 image, cleared: fragment (0, 0, depth 5.5, red 1/2), then (1, 0, depth 7, red 1/4). Byte 1 is 63 after one drawing, and 127 in the other order or after drawing both again. | The three bytes from `3 * index`. | not executed | DepthFill.AdjacentPlotsOverlap, DepthFill.RepeatedPairOverwrites | DepthFill.PlotIntended, DepthFill.PlotIntendedCommutes |
