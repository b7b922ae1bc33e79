# Marching Cubes extraction, modelled in Dafny

This project models the isosurface-extraction core of `code/main.cpp`, a small raylib
program. The core turns a scalar field, sampled on an N x N x N lattice, into a triangle
soup: the triangles approximate the surface where the field equals an isovalue. The model
covers five parts:

- **Field layout** (`Lattice`): `cube_cord_index` and the flat z-major layout of the
  N^3 samples.
- **Field generators** (`ScalarField`): `generate_scalar_field` and
  `generate_cube_scalar_field`, which fill the buffer in place with triple loops.
- **Interpolation** (`Interpolation`): `interpolate_vertex` and the `min`/`max`
  helpers, including the three tolerance rules and their order.
- **One cell** (`CaseTables`, `Cell`):
  - sampling the eight corners and building the 8-bit configuration index;
  - the early exit on an empty edge mask;
  - interpolating the flagged edges into the twelve-slot `vertex_list` buffer;
  - emitting the triangle-table triples as red vertices moved by the cell position.
- **The whole extraction** (`Extraction`, `MeshPacking`): the z/y/x scan over all cells,
  which appends to the pre-sized `vertices` buffer, and the packing of that buffer into
  the mesh's flat position and colour buffers.

The lookup tables of `lookuptables.h` (`edge_table`, `tri_table`, `cube_cords`) are not
part of this model. They are a parameter `Tables`. `Tables.Valid()` states what the code
relies on:

- 256 edge masks of 12 bits each;
- 256 rows of 16 slots, each scanned safely in triples up to the `-1` marker;
- every edge a row names is flagged in that configuration's mask;
- corner offsets in {0, 1}.

Every imperative routine is a method proved against a specification function. The
sample generator is specified by `SampleAt` and the cube generator by `CubeAt`. The
scan is specified by `Extract`: every cell's `CellVertices`, concatenated in z, y, x
order. Packing is specified by `FlattenPositions` and `PackColors`. The lemmas then
prove what the code promises about those functions: bounds, layout, bit semantics,
capacity and the colour bytes.

Two facts about the buffers shape the model:

- `vertex_list` (code/main.cpp:102) is declared once, outside the cell loops, so slots of
  unflagged edges keep values left by earlier cells. The model keeps one twelve-slot
  array across all cells. `Cell.EmitReadsOnlyFlagged` proves that those stale slots are
  never read.
- The vertex buffer (code/main.cpp:104) holds size^3 * 15 slots, more than the
  (size-1)^3 * 15 vertices the scan can emit. `Extraction.ExtractBound` proves both
  bounds.

## Model

| member | source | states |
|---|---|---|
| Lattice.CubeCordIndex | code/main.cpp:32-34 | the flat index x + size * (y + size * z) of lattice point (x, y, z); its range and inverse are stated by IndexInRange, DecodeIndex and EncodeDecode |
| Lattice.IndexInRange | code/main.cpp:32-34 | for an in-grid point the index x + N(y + Nz) lies in [0, N^3) and equals the z*N*N + y*N + x slot the generators write |
| Lattice.DecodeIndex | code/main.cpp:32-34 | the index of an in-grid point decodes back to that point, so distinct points never share a slot |
| Lattice.EncodeDecode | code/main.cpp:76-82 | every slot of the N^3 buffer decodes to an in-grid point whose index is that slot: the layout is a bijection |
| Interpolation.Min | code/main.cpp:36-38 | the result is one of the arguments and at most both |
| Interpolation.Max | code/main.cpp:40-42 | the result is one of the arguments and at least both |
| Interpolation.InterpolateVertex | code/main.cpp:52-69 | the edge point: p1 when the isovalue is within 1e-5 of v1, else p2 when within 1e-5 of v2, else p1 when v1 and v2 are within 1e-5, else p1 + mu (p2 - p1) with mu = (isovalue - v1) / (v2 - v1); its properties are stated by the lemmas below |
| Interpolation.InterpolationRules | code/main.cpp:52-69 | the four rules in order: isovalue near v1 gives p1, else near v2 gives p2, else a flat edge gives p1, else p1 + mu(p2 - p1), where the linear field takes the isovalue |
| Interpolation.EqualValuesGiveFirstPoint | code/main.cpp:56-61 | equal samples at the isovalue give p1, because the first rule fires before the flat-edge rule |
| Interpolation.HalfwayGivesMidpoint | code/main.cpp:63-66 | samples 0 and 1 with isovalue 0.5 give the midpoint of the edge |
| Interpolation.StrictlyBetweenGivesInnerFraction | code/main.cpp:63 | with the isovalue strictly between the samples in the general case, mu is strictly between 0 and 1 |
| Interpolation.BetweenGivesPointOnSegment | code/main.cpp:52-69 | with the isovalue between the samples, every rule yields a point of the closed segment p1-p2 |
| ScalarField.Remap | code/main.cpp:79-81 | lattice coordinate c mapped to c / (size - 1) * 2 - 1; RemapEnds states its range and order |
| ScalarField.RemapEnds | code/main.cpp:79-81 | the remap sends lattice 0 to -1 and lattice N-1 to 1, is monotone, and keeps every lattice point in [-1, 1] |
| ScalarField.GenerateScalarField | code/main.cpp:75-86 | afterwards every slot i holds func at the remapped coordinates of the point i decodes to, and every in-grid point holds func at its remapped coordinates |
| ScalarField.ScanSlot | code/main.cpp:76-82 | the slot written at step (x, y, z) is the number of steps before it, so the scan writes each slot exactly once in increasing order, and it decodes to (x, y, z) |
| ScalarField.SampledAtEveryPoint | code/main.cpp:79-82 | a buffer filled slot by slot with the sample generator's values holds func of the remapped coordinates at every in-grid point |
| ScalarField.GenerateCubeScalarField | code/main.cpp:88-100 | afterwards every in-grid point holds 1.0 exactly when it is strictly inside on all three axes, and 0.0 otherwise |
| ScalarField.CubeSlot | code/main.cpp:93-96 | the generator's test at (x, y, z) picks the value the specification gives to the slot that decodes to (x, y, z) |
| ScalarField.CubeAtEveryPoint | code/main.cpp:93-96 | a buffer filled slot by slot with the cube values is 1.0 at interior points and 0.0 on the outer shell |
| CaseTables.RefsShape | code/main.cpp:162 | the triple scan of a row reads whole triples of edge indices in 0..11, exactly the slots before the -1 marker |
| CaseTables.RefsEnd | code/main.cpp:162 | the triple scan from slot i reads a multiple of 3 slots and stops on the -1 marker inside the row |
| CaseTables.RefsSlice | code/main.cpp:162-165 | the indices the triple scan reads are the row slots it passes over, in row order |
| CaseTables.RefsAreEdges | code/main.cpp:162-165 | every index the triple scan reads names one of the twelve edges |
| CaseTables.AtMostFiveTriangles | code/main.cpp:162-170 | a valid row holds whole triangles, at most five (15 indices) |
| CaseTables.EmptyMaskEmptyRow | code/main.cpp:134-135 | a configuration whose mask flags no edge has an empty row |
| Cell.SetBit | code/main.cpp:131 | or-ing in 1 << k sets bit k and leaves the other seven bits as they were |
| Cell.Classify | code/main.cpp:121-132 | bit i of the configuration index is set exactly when corner i is read and its value is strictly below the isovalue |
| Cell.ClassifyStep | code/main.cpp:130-131 | classifying one more corner or-s in that corner's bit exactly when its value is below the isovalue |
| Cell.ClassifyUnique | code/main.cpp:121-132 | an 8-bit index with the bit pattern of the eight corners is the configuration index |
| Cell.ClassifyExtremes | code/main.cpp:121-132 | all corners below the isovalue give 255, none below gives 0 |
| Cell.CornerInBounds | code/main.cpp:121-128 | for cells 0 <= x, y, z < N-1 and offsets in {0,1}, every corner is an in-grid point and its field index is below N^3 |
| Cell.CornerRead | code/main.cpp:127-128 | the read at corner i is in bounds and yields that corner's field value |
| Cell.EdgeEnds | code/main.cpp:137-160 | each of the twelve edges joins two distinct corners out of the eight |
| Cell.CellVertices | code/main.cpp:134-170 | each cell contributes whole triangles, at most 15 vertices |
| Cell.Emit | code/main.cpp:162-170 | the vertices one triangle-table row emits: for each edge index before the -1 marker, in row order, the point of that edge plus the cell position, coloured red; as many vertices as indices |
| Cell.EmitReadsOnlyFlagged | code/main.cpp:137-165 | two edge-point buffers that agree on the flagged edges emit the same vertices, so stale slots of the shared buffer are never read |
| Cell.EmptyMaskSkipIsSound | code/main.cpp:134-135 | the early exit on an empty mask gives the same output as running the triangle loop on that configuration's row |
| Cell.CellVertexOnFlaggedEdge | code/main.cpp:162-169 | vertex j of a cell is the fresh crossing point of the edge in slot j of its row, which its mask flags, moved by the cell position and coloured (1, 0, 0) |
| Cell.EmptyMaskIffUniform | code/main.cpp:134-135 | under an edge table that flags exactly the edges whose corners differ, the mask is 0 exactly for configurations 0 and 255 |
| Cell.VertexOnCrossingSegment | code/main.cpp:137-169 | under that edge table, every emitted vertex lies on the segment joining the corners of some edge, moved by the cell position |
| Cell.SampleCell | code/main.cpp:111-132 | returns the eight corner positions, the eight corner samples read from the field and their configuration index |
| Cell.ReadCorner | code/main.cpp:122-128 | reads the position and the field sample of corner i |
| Cell.InterpolateEdges | code/main.cpp:137-160 | slot e of the buffer becomes the interpolated crossing of edge e when e is flagged, and keeps its old value otherwise |
| Cell.EmitTriangles | code/main.cpp:162-170 | appends exactly the row's vertices (buffer point of each named edge plus the cell position, red) behind count, leaving earlier slots as they were |
| Cell.WriteTriangle | code/main.cpp:167-169 | stores three red vertices in consecutive slots and changes nothing else |
| Extraction.Extract | code/main.cpp:107-173 | the vertex list of the whole scan: every cell's CellVertices, concatenated with z outermost, then y, then x |
| Extraction.CellAppends | code/main.cpp:107-109 | processing cell (x, y, z) appends its output to what the scan emitted before it |
| Extraction.RowCompletes | code/main.cpp:107-109 | a finished x loop is one more row of the slab |
| Extraction.SlabCompletes | code/main.cpp:107-109 | a finished y loop is one more slab of the lattice |
| Extraction.RowBound | code/main.cpp:162-170 | a row of cells emits a multiple of 3 vertices, at most 15 per cell |
| Extraction.SlabBound | code/main.cpp:162-170 | a slab emits a multiple of 3 vertices, at most 15 per cell |
| Extraction.GridBound | code/main.cpp:162-170 | the slabs scanned so far emit a multiple of 3 vertices, at most 15 per cell |
| Extraction.MarchingCellBound | code/main.cpp:162-170 | every cell of the lattice emits whole triangles, at most five |
| Extraction.ExtractBound | code/main.cpp:103-105 | the vertex count is a multiple of 3, at most 15 (N-1)^3, and so within max_vertices = N^3 * 15 |
| Extraction.CellFits | code/main.cpp:167-169 | every write of the scan, up to and including cell (x, y, z), stays inside the N^3 * 15 buffer |
| Extraction.ExtractRed | code/main.cpp:167-169 | every vertex of the extraction is coloured (1, 0, 0) |
| Extraction.ExtractColors | code/main.cpp:184-187 | the colour bytes of every mesh vertex are 255, 0, 0, 255 |
| Extraction.UniformCellEmitsNothing | code/main.cpp:130-135 | a cell whose configuration index is 0 or 255 (all corners on one side of the isovalue) emits no vertex, under the standard edge table |
| Extraction.CellSilent | code/main.cpp:121-135 | a cell of a field entirely on one side of the isovalue emits nothing under the standard edge table |
| Extraction.UniformFieldEmptyMesh | code/main.cpp:107-135 | a field entirely at or above the isovalue, or entirely below it, gives an empty mesh under the standard edge table |
| Extraction.ProcessCell | code/main.cpp:110-170 | one cell-loop iteration appends exactly that cell's vertices to the buffer and keeps what came before |
| Extraction.ScanRow | code/main.cpp:109-171 | the x loop appends the cells of row (y, z) in x order, within the buffer |
| Extraction.ScanSlab | code/main.cpp:108-172 | the y loop appends the rows of slab z in y order |
| Extraction.ScanLattice | code/main.cpp:107-173 | the z loop leaves the buffer holding every cell's vertices in z, y, x order, within its N^3 * 15 slots |
| Extraction.MarchingCubes | code/main.cpp:101-192 | the mesh holds exactly the extraction: its count, positions flattened in vertex order and colours packed per vertex, in fresh buffers |
| MeshPacking.ColorChannel | code/main.cpp:184-186 | the byte for a channel in [0, 1] is 255 times the channel truncated toward zero |
| MeshPacking.FlattenPositions | code/main.cpp:180-183 | the position buffer of a vertex list: x, y, z of each vertex in vertex order, three reals per vertex |
| MeshPacking.PackColors | code/main.cpp:180-187 | the colour buffer of a vertex list: the three converted channels and 255 for each vertex in order, four bytes per vertex |
| MeshPacking.FlattenAt | code/main.cpp:181-183 | slot 3k + c of the position buffer is component c of vertex k's position |
| MeshPacking.ColorsAt | code/main.cpp:184-187 | slots 4k .. 4k+2 of the colour buffer are vertex k's converted channels, and slot 4k+3 is 255 |
| MeshPacking.UnflattenFlatten | code/main.cpp:180-183 | reading the position buffer back three at a time gives every vertex position in order, nothing dropped, merged or reordered |
| MeshPacking.RedBytes | code/main.cpp:184-186 | the colour (1, 0, 0) converts to the bytes 255, 0, 0 |
| MeshPacking.AllRedPacksToRed | code/main.cpp:184-187 | an all-red vertex list packs to 255, 0, 0, 255 per vertex |
| MeshPacking.PackMesh | code/main.cpp:175-188 | the mesh count is vertex_count, and its buffers are the flattened positions and packed colours of the first vertex_count vertices |
| MeshPacking.PackVertex | code/main.cpp:181-187 | one packing iteration writes vertex i's three components and four colour bytes after the slots of earlier vertices |

## Left out

- The camera and the window (`update_camera_custom` and `main`) are not part of this model. They are rendering and input code over raylib.
- `Mesh` upload and the draw loop are not part of this model. They are calls into raylib.
- `sphere` is not part of this model. It needs `sqrtf`, so the sample generator takes the field function as an opaque parameter.
- Single-precision floating point is modelled as exact reals. Rounding in `interpolate_vertex`, the remap and the colour conversion is not captured.
- `malloc` failure and `free` are not modelled. Buffers are Dafny arrays of the stated sizes, and the freed vertex buffer simply goes out of scope.
- The contents of `lookuptables.h` are not part of this model. The tables are a parameter constrained by `Tables.Valid()`.
- `interpolate_values` is not modelled. It is never called.
- Two whole-mesh properties are not modelled: the sphere mesh is closed, and the solid cube at isovalue 0.5 has six faces. They depend on float geometry and on the actual table contents.
- Cell.EmptyMaskIffUniform: assumes the standard edge-table construction (a mask flags exactly the edges whose two corners differ) as the extra precondition `MaskMatchesCorners`, because the table contents are not available.
- Cell.VertexOnCrossingSegment: assumes `MaskMatchesCorners`, for the same reason.
- Extraction.UniformCellEmitsNothing: assumes `MaskMatchesCorners`, for the same reason.
- Extraction.CellSilent: assumes `MaskMatchesCorners`, for the same reason.
- Extraction.UniformFieldEmptyMesh: assumes `MaskMatchesCorners`, for the same reason.
- Extraction.MarchingCubes: does not model 32-bit `int` arithmetic; all integers are unbounded. The first wrap of each expression: `size * size * size * 15` (code/main.cpp:104) at size 524; `vertex_count * 4` (code/main.cpp:178) at vertex_count 536,870,912 and the colour index `i * 4 + c` (code/main.cpp:184-187) from i = 536,870,912, neither possible before size 331; `vertex_count * 3` (code/main.cpp:177) at vertex_count 715,827,883 and the position index `i * 3 + k` (code/main.cpp:181-183) from i = 715,827,882, neither possible before size 364; `cube_cord_index` (code/main.cpp:33) and the generators' slot `z * size * size + y * size + x` (code/main.cpp:82, 94, 96) from size 1291. Whether any field reaches those vertex counts depends on the table contents. The program's grid has size 16.
- ScalarField.GenerateScalarField: requires size >= 2. With size 1 the remap divides 0.0 by 0 and passes NaN coordinates to func, which reals cannot represent (with `sphere` the stored sample is NaN). With size 0 the source writes nothing.
- MeshPacking.ColorChannel: requires the channel in [0, 1]. The model keeps to the normalised range [0, 1], which holds the only colour the extraction emits, (1, 0, 0). The `unsigned char` cast itself truncates first and is undefined only for channels outside (-1/255, 256/255).
- MeshPacking.PackMesh: requires every colour channel in [0, 1], for the same reason. `Extraction.ExtractRed` discharges this for the extraction.
- The twelve unrolled `if (edge_table[cube_index] & 2^e)` tests are one loop over e in `Cell.InterpolateEdges`. The corner pairs are taken from `Cell.EdgeEnds`, and the edges are examined in the same order.
- Loop bodies are separate methods. Each cell iteration is `Extraction.ProcessCell`, and the three cell loops are `ScanRow`, `ScanSlab` and `ScanLattice`. The corner read is `Cell.ReadCorner`, the three vertex writes are `Cell.WriteTriangle`, and one packing iteration is `MeshPacking.PackVertex`. The statements and their order are those of the source.
- The local arrays `p[8]` and `val[8]` are sequences built corner by corner.
- `Cell.EmitTriangles` receives the contents of `vertex_list` as a value, since it only reads the buffer.
- The initial contents of `vertex_list` and `vertices` are not modelled. The source leaves them uninitialised, and the model fills them with zero vectors. No slot is read before it is written (`Cell.EmitReadsOnlyFlagged`, `MeshPacking.PackMesh` reads only `vertices[..count]`).
