/** The whole extraction: the scan over every cell in z, y, x order, the
    pre-sized vertex buffer it appends to, and the packing of that buffer into
    the mesh. */
module Extraction {
  import opened Geometry
  import opened Lattice
  import opened CaseTables
  import opened Cell
  import opened MeshPacking

  /** What one cell (x, y, z) contributes to the vertex list. */
  type CellOutput = (int, int, int) -> seq<Vertex>

  /** Cells along each axis: size - 1, and none when the lattice has fewer than two points. */
  function Cells(size: int): nat
  {
    if size < 1 then 0 else size - 1
  }

  /** The vertices of the first n cells of row (y, z), in x order. */
  function RowVerts(cell: CellOutput, y: int, z: int, n: nat): seq<Vertex>
  {
    if n == 0 then [] else RowVerts(cell, y, z, n - 1) + cell(n - 1, y, z)
  }

  /** The vertices of the first m rows of slab z, in y order, rows of `cells` cells. */
  function SlabVerts(cell: CellOutput, cells: nat, z: int, m: nat): seq<Vertex>
  {
    if m == 0 then [] else SlabVerts(cell, cells, z, m - 1) + RowVerts(cell, m - 1, z, cells)
  }

  /** The vertices of the first k slabs, in z order. */
  function GridVerts(cell: CellOutput, cells: nat, k: nat): seq<Vertex>
  {
    if k == 0 then [] else GridVerts(cell, cells, k - 1) + SlabVerts(cell, cells, k - 1, cells)
  }

  /** The marching-cubes output of each cell of the lattice (nothing outside it). */
  function MarchingCell(t: Tables, f: seq<real>, size: int, isovalue: real): CellOutput
    requires t.Valid() && |f| == size * size * size
  {
    (x: int, y: int, z: int) =>
      if CellInGrid(size, x, y, z) then CellVertices(t, f, size, isovalue, x, y, z) else []
  }

  /** cell gives the marching-cubes output of every cell of the lattice. */
  predicate IsMarchingCell(cell: CellOutput, t: Tables, f: seq<real>, size: int, isovalue: real)
    requires t.Valid() && |f| == size * size * size
  {
    forall x, y, z {:trigger CellVertices(t, f, size, isovalue, x, y, z)} ::
      0 <= x < size - 1 && 0 <= y < size - 1 && 0 <= z < size - 1 ==>
      cell(x, y, z) == CellVertices(t, f, size, isovalue, x, y, z)
  }

  /** The vertex list of the whole lattice: every cell's vertices, cells in
      z, then y, then x order, nothing merged or dropped. */
  function Extract(t: Tables, f: seq<real>, size: int, isovalue: real): seq<Vertex>
    requires t.Valid() && |f| == size * size * size
  {
    GridVerts(MarchingCell(t, f, size, isovalue), Cells(size), Cells(size))
  }

  /** Everything the scan has emitted before cell (x, y, z): z full slabs,
      y full rows of slab z and x cells of row (y, z). */
  function ScanPrefix(cell: CellOutput, cells: nat, z: nat, y: nat, x: nat): seq<Vertex>
  {
    GridVerts(cell, cells, z) + SlabVerts(cell, cells, z, y) + RowVerts(cell, y, z, x)
  }

  /** Scanning cell (x, y, z) appends its output. */
  lemma CellAppends(cell: CellOutput, cells: nat, z: nat, y: nat, x: nat)
    ensures ScanPrefix(cell, cells, z, y, x + 1) == ScanPrefix(cell, cells, z, y, x) + cell(x, y, z)
  {
    var a := GridVerts(cell, cells, z) + SlabVerts(cell, cells, z, y);
    assert ScanPrefix(cell, cells, z, y, x + 1) == a + (RowVerts(cell, y, z, x) + cell(x, y, z));
  }

  /** A finished row is one more row of the slab. */
  lemma RowCompletes(cell: CellOutput, cells: nat, z: nat, y: nat)
    ensures ScanPrefix(cell, cells, z, y, cells) == ScanPrefix(cell, cells, z, y + 1, 0)
  {
    var g := GridVerts(cell, cells, z);
    var sl := SlabVerts(cell, cells, z, y);
    var r := RowVerts(cell, y, z, cells);
    assert ScanPrefix(cell, cells, z, y + 1, 0) == g + (sl + r) + [];
    assert ScanPrefix(cell, cells, z, y, cells) == g + sl + r;
  }

  /** A finished slab is one more slab of the grid. */
  lemma SlabCompletes(cell: CellOutput, cells: nat, z: nat)
    ensures ScanPrefix(cell, cells, z, cells, 0) == ScanPrefix(cell, cells, z + 1, 0, 0)
  {
    assert ScanPrefix(cell, cells, z + 1, 0, 0) == GridVerts(cell, cells, z) + SlabVerts(cell, cells, z, cells) + [] + [];
  }

  // ----- counts -----

  /** Every cell of a cells^3 block emits whole triangles, at most five. */
  predicate AtMostFivePerCell(cell: CellOutput, cells: nat)
  {
    forall x, y, z :: 0 <= x < cells && 0 <= y < cells && 0 <= z < cells ==>
      |cell(x, y, z)| % 3 == 0 && |cell(x, y, z)| <= 15
  }

  /** Two runs of whole triangles make a run of whole triangles. */
  lemma TriplesAdd(a: int, b: int)
    requires a % 3 == 0 && b % 3 == 0
    ensures (a + b) % 3 == 0
  {
    DivModOf(a + b, 3, a / 3 + b / 3, 0);
  }

  lemma {:induction false} RowBound(cell: CellOutput, cells: nat, y: int, z: int, n: nat)
    requires AtMostFivePerCell(cell, cells) && 0 <= y < cells && 0 <= z < cells && n <= cells
    ensures |RowVerts(cell, y, z, n)| % 3 == 0 && |RowVerts(cell, y, z, n)| <= 15 * n
  {
    if n > 0 {
      RowBound(cell, cells, y, z, n - 1);
      TriplesAdd(|RowVerts(cell, y, z, n - 1)|, |cell(n - 1, y, z)|);
    }
  }

  lemma {:induction false} SlabBound(cell: CellOutput, cells: nat, z: int, m: nat)
    requires AtMostFivePerCell(cell, cells) && 0 <= z < cells && m <= cells
    ensures |SlabVerts(cell, cells, z, m)| % 3 == 0 && |SlabVerts(cell, cells, z, m)| <= 15 * cells * m
  {
    if m > 0 {
      SlabBound(cell, cells, z, m - 1);
      RowBound(cell, cells, m - 1, z, cells);
      TriplesAdd(|SlabVerts(cell, cells, z, m - 1)|, |RowVerts(cell, m - 1, z, cells)|);
      assert 15 * cells * m == 15 * cells * (m - 1) + 15 * cells;
    }
  }

  lemma {:induction false} GridBound(cell: CellOutput, cells: nat, k: nat)
    requires AtMostFivePerCell(cell, cells) && k <= cells
    ensures |GridVerts(cell, cells, k)| % 3 == 0 && |GridVerts(cell, cells, k)| <= 15 * cells * cells * k
  {
    if k > 0 {
      GridBound(cell, cells, k - 1);
      SlabBound(cell, cells, k - 1, cells);
      TriplesAdd(|GridVerts(cell, cells, k - 1)|, |SlabVerts(cell, cells, k - 1, cells)|);
      assert 15 * cells * cells * k == 15 * cells * cells * (k - 1) + 15 * cells * cells;
    }
  }

  /** The table rows bound every marching-cubes cell to five triangles. */
  lemma MarchingCellBound(t: Tables, f: seq<real>, size: int, isovalue: real)
    requires t.Valid() && |f| == size * size * size
    ensures AtMostFivePerCell(MarchingCell(t, f, size, isovalue), Cells(size))
  {
    var cell := MarchingCell(t, f, size, isovalue);
    forall x, y, z | 0 <= x < Cells(size) && 0 <= y < Cells(size) && 0 <= z < Cells(size)
      ensures |cell(x, y, z)| % 3 == 0 && |cell(x, y, z)| <= 15
    {
      assert CellInGrid(size, x, y, z);
    }
  }

  /** c^3 <= s^3 for 0 <= c <= s. */
  lemma CubeBelow(c: int, s: int)
    requires 0 <= c <= s
    ensures c * c * c <= s * s * s
    ensures 15 * c * c * c <= s * s * s * 15
  {
    MulLe(c, s, c);
    MulLe(c, s, s);
    MulLe(c * c, s * s, c);
    MulLe(c, s, s * s);
  }

  /** The mesh holds whole triangles, at most five per cell, so it fits the
      size^3 * 15 slots allocated for it. */
  lemma ExtractBound(t: Tables, f: seq<real>, size: int, isovalue: real)
    requires t.Valid() && |f| == size * size * size
    ensures |Extract(t, f, size, isovalue)| % 3 == 0
    ensures |Extract(t, f, size, isovalue)| <= 15 * Cells(size) * Cells(size) * Cells(size)
    ensures |Extract(t, f, size, isovalue)| <= size * size * size * 15
  {
    var c := Cells(size);
    MarchingCellBound(t, f, size, isovalue);
    GridBound(MarchingCell(t, f, size, isovalue), c, c);
    if c > 0 {
      CubeBelow(c, size);
    }
  }

  /** The capacity step of the scan, as arithmetic: before cell (x, y, z) come
      z full slabs, y full rows and x cells, and with this cell that is at
      most 15 vertices per cell of the lattice. */
  lemma CapacityArith(g: int, sl: int, r: int, c: int, size: int, x: int, y: int, z: int)
    requires c == Cells(size) && 0 <= x < c && 0 <= y < c && 0 <= z < c
    requires g <= 15 * c * c * z && sl <= 15 * c * y && r <= 15 * (x + 1)
    ensures g + sl + r <= size * size * size * 15
  {
    MulLe(y + 1, c, c);
    assert c * y + c <= c * c;
    MulLe(z + 1, c, c * c);
    assert c * c * z + c * c <= c * c * c;
    CubeBelow(c, size);
  }

  /** The vertices emitted up to and including cell (x, y, z) fit the buffer. */
  lemma CellFits(cell: CellOutput, size: int, x: nat, y: nat, z: nat)
    requires AtMostFivePerCell(cell, Cells(size)) && x < Cells(size) && y < Cells(size) && z < Cells(size)
    ensures |ScanPrefix(cell, Cells(size), z, y, x + 1)| <= size * size * size * 15
  {
    var c := Cells(size);
    GridBound(cell, c, z);
    SlabBound(cell, c, z, y);
    RowBound(cell, c, y, z, x + 1);
    CapacityArith(|GridVerts(cell, c, z)|, |SlabVerts(cell, c, z, y)|, |RowVerts(cell, y, z, x + 1)|, c, size, x, y, z);
  }

  // ----- colours -----

  predicate AllRed(vs: seq<Vertex>)
  {
    forall j :: 0 <= j < |vs| ==> vs[j].color == Red
  }

  predicate RedCells(cell: CellOutput, cells: nat)
  {
    forall x, y, z :: 0 <= x < cells && 0 <= y < cells && 0 <= z < cells ==> AllRed(cell(x, y, z))
  }

  lemma {:induction false} RowRed(cell: CellOutput, cells: nat, y: int, z: int, n: nat)
    requires RedCells(cell, cells) && 0 <= y < cells && 0 <= z < cells && n <= cells
    ensures AllRed(RowVerts(cell, y, z, n))
  {
    if n > 0 {
      RowRed(cell, cells, y, z, n - 1);
    }
  }

  lemma {:induction false} SlabRed(cell: CellOutput, cells: nat, z: int, m: nat)
    requires RedCells(cell, cells) && 0 <= z < cells && m <= cells
    ensures AllRed(SlabVerts(cell, cells, z, m))
  {
    if m > 0 {
      SlabRed(cell, cells, z, m - 1);
      RowRed(cell, cells, m - 1, z, cells);
    }
  }

  lemma {:induction false} GridRed(cell: CellOutput, cells: nat, k: nat)
    requires RedCells(cell, cells) && k <= cells
    ensures AllRed(GridVerts(cell, cells, k))
  {
    if k > 0 {
      GridRed(cell, cells, k - 1);
      SlabRed(cell, cells, k - 1, cells);
    }
  }

  /** Every vertex of the mesh is red, a colour in the range the byte conversion accepts. */
  lemma ExtractRed(t: Tables, f: seq<real>, size: int, isovalue: real)
    requires t.Valid() && |f| == size * size * size
    ensures AllRed(Extract(t, f, size, isovalue))
    ensures forall j :: 0 <= j < |Extract(t, f, size, isovalue)| ==> ColorInRange(Extract(t, f, size, isovalue)[j].color)
  {
    var cell := MarchingCell(t, f, size, isovalue);
    forall x, y, z | 0 <= x < Cells(size) && 0 <= y < Cells(size) && 0 <= z < Cells(size)
      ensures AllRed(cell(x, y, z))
    {
      assert CellInGrid(size, x, y, z);
    }
    GridRed(cell, Cells(size), Cells(size));
    RedBytes();
  }

  /** The colour bytes of every mesh vertex are (255, 0, 0, 255). */
  lemma ExtractColors(t: Tables, f: seq<real>, size: int, isovalue: real, k: int, c: int)
    requires t.Valid() && |f| == size * size * size
    requires 0 <= k < |Extract(t, f, size, isovalue)| && 0 <= c < 4
    ensures forall j :: 0 <= j < |Extract(t, f, size, isovalue)| ==> ColorInRange(Extract(t, f, size, isovalue)[j].color)
    ensures PackColors(Extract(t, f, size, isovalue))[4 * k + c] == if c == 0 || c == 3 then 255 else 0
  {
    ExtractRed(t, f, size, isovalue);
    AllRedPacksToRed(Extract(t, f, size, isovalue), k, c);
  }

  // ----- uniform fields -----

  predicate SilentCells(cell: CellOutput, cells: nat)
  {
    forall x, y, z :: 0 <= x < cells && 0 <= y < cells && 0 <= z < cells ==> cell(x, y, z) == []
  }

  lemma {:induction false} RowSilent(cell: CellOutput, cells: nat, y: int, z: int, n: nat)
    requires SilentCells(cell, cells) && 0 <= y < cells && 0 <= z < cells && n <= cells
    ensures RowVerts(cell, y, z, n) == []
  {
    if n > 0 {
      RowSilent(cell, cells, y, z, n - 1);
    }
  }

  lemma {:induction false} SlabSilent(cell: CellOutput, cells: nat, z: int, m: nat)
    requires SilentCells(cell, cells) && 0 <= z < cells && m <= cells
    ensures SlabVerts(cell, cells, z, m) == []
  {
    if m > 0 {
      SlabSilent(cell, cells, z, m - 1);
      RowSilent(cell, cells, m - 1, z, cells);
    }
  }

  lemma {:induction false} GridSilent(cell: CellOutput, cells: nat, k: nat)
    requires SilentCells(cell, cells) && k <= cells
    ensures GridVerts(cell, cells, k) == []
  {
    if k > 0 {
      GridSilent(cell, cells, k - 1);
      SlabSilent(cell, cells, k - 1, cells);
    }
  }

  /** A cell of configuration 0 or 255, all corners on one side of the
      isovalue, emits nothing under the standard edge table. */
  lemma UniformCellEmitsNothing(t: Tables, f: seq<real>, size: int, isovalue: real, x: int, y: int, z: int)
    requires t.Valid() && MaskMatchesCorners(t) && |f| == size * size * size && CellInGrid(size, x, y, z)
    requires Classify(CornerValues(t, f, size, x, y, z), isovalue) == 0 ||
             Classify(CornerValues(t, f, size, x, y, z), isovalue) == 0xFF
    ensures CellVertices(t, f, size, isovalue, x, y, z) == []
  {
    EmptyMaskIffUniform(t, Classify(CornerValues(t, f, size, x, y, z), isovalue));
  }

  /** A cell whose eight corners all lie on one side of the isovalue emits
      nothing under the standard edge table. */
  lemma CellSilent(t: Tables, f: seq<real>, size: int, isovalue: real, x: int, y: int, z: int)
    requires t.Valid() && MaskMatchesCorners(t) && |f| == size * size * size && CellInGrid(size, x, y, z)
    requires (forall i :: 0 <= i < |f| ==> f[i] >= isovalue) || (forall i :: 0 <= i < |f| ==> f[i] < isovalue)
    ensures CellVertices(t, f, size, isovalue, x, y, z) == []
  {
    var val := CornerValues(t, f, size, x, y, z);
    forall i | 0 <= i < 8
      ensures 0 <= CubeCordIndex(size, x + t.cubeCords[i][0], y + t.cubeCords[i][1], z + t.cubeCords[i][2]) < |f|
      ensures val[i] == f[CubeCordIndex(size, x + t.cubeCords[i][0], y + t.cubeCords[i][1], z + t.cubeCords[i][2])]
    {
      CornerInBounds(t, f, size, x, y, z, i);
    }
    ClassifyExtremes(val, isovalue);
    UniformCellEmitsNothing(t, f, size, isovalue, x, y, z);
  }

  /** A field entirely above (or entirely below) the isovalue has no surface:
      the mesh is empty. */
  lemma UniformFieldEmptyMesh(t: Tables, f: seq<real>, size: int, isovalue: real)
    requires t.Valid() && MaskMatchesCorners(t) && |f| == size * size * size
    requires (forall i :: 0 <= i < |f| ==> f[i] >= isovalue) || (forall i :: 0 <= i < |f| ==> f[i] < isovalue)
    ensures Extract(t, f, size, isovalue) == []
  {
    var cell := MarchingCell(t, f, size, isovalue);
    forall x, y, z | 0 <= x < Cells(size) && 0 <= y < Cells(size) && 0 <= z < Cells(size)
      ensures cell(x, y, z) == []
    {
      CellSilent(t, f, size, isovalue, x, y, z);
    }
    GridSilent(cell, Cells(size), Cells(size));
  }

  // ----- the scan -----

  /** One iteration of the cell loop: samples and classifies cell (x, y, z);
      on an empty mask moves on at once, otherwise interpolates the flagged
      edges into the twelve-slot buffer and appends the cell's triangles. */
  method ProcessCell(t: Tables, field: array<real>, size: int, isovalue: real, x: int, y: int, z: int,
                     vertexList: array<Vec3>, vertices: array<Vertex>, count: int)
    returns (newCount: int)
    requires t.Valid() && field.Length == size * size * size && CellInGrid(size, x, y, z)
    requires vertexList.Length == 12 && 0 <= count
    requires count + |CellVertices(t, field[..], size, isovalue, x, y, z)| <= vertices.Length
    modifies vertexList, vertices
    ensures newCount == count + |CellVertices(t, field[..], size, isovalue, x, y, z)|
    ensures vertices[..newCount] == old(vertices[..count]) + CellVertices(t, field[..], size, isovalue, x, y, z)
  {
    var cellPos := Vec3(x as real, y as real, z as real);
    var p, val, cubeIndex := SampleCell(t, field, size, x, y, z, isovalue);
    var mask := t.edgeTable[cubeIndex as int];
    if mask == 0 {
      return count;
    }
    InterpolateEdges(mask, p, val, isovalue, vertexList);
    var row := t.triTable[cubeIndex as int];
    assert RowValid(row, mask);
    EmitReadsOnlyFlagged(row, mask, vertexList[..], EdgePoints(p, val, isovalue), cellPos);
    newCount := EmitTriangles(row, vertexList[..], cellPos, vertices, count);
    assert vertices[..newCount] == vertices[..count] + vertices[count..newCount];
    assert vertices[..count] == old(vertices[..count]);
  }

  /** The x loop of row (y, z): processes its cells in x order, appending
      each one's output behind what the scan emitted before the row. */
  method ScanRow(t: Tables, field: array<real>, size: int, isovalue: real, y: int, z: int,
                 vertexList: array<Vec3>, vertices: array<Vertex>, count: int,
                 ghost f: seq<real>, ghost cell: CellOutput)
    returns (newCount: int)
    requires t.Valid() && field[..] == f && |f| == size * size * size && 0 <= y < Cells(size) && 0 <= z < Cells(size)
    requires IsMarchingCell(cell, t, f, size, isovalue) && AtMostFivePerCell(cell, Cells(size))
    requires vertexList.Length == 12 && vertices.Length == size * size * size * 15
    requires 0 <= count <= vertices.Length
    requires vertices[..count] == ScanPrefix(cell, Cells(size), z, y, 0)
    modifies vertexList, vertices
    ensures 0 <= newCount <= vertices.Length
    ensures vertices[..newCount] == ScanPrefix(cell, Cells(size), z, y + 1, 0)
  {
    ghost var cells := Cells(size);
    newCount := count;
    for x := 0 to Cells(size)
      invariant 0 <= newCount <= vertices.Length
      invariant vertices[..newCount] == ScanPrefix(cell, cells, z, y, x)
    {
      CellAppends(cell, cells, z, y, x);
      CellFits(cell, size, x, y, z);
      assert CellInGrid(size, x, y, z);
      assert cell(x, y, z) == CellVertices(t, f, size, isovalue, x, y, z);
      newCount := ProcessCell(t, field, size, isovalue, x, y, z, vertexList, vertices, newCount);
    }
    RowCompletes(cell, cells, z, y);
  }

  /** The y loop of slab z: every row of the slab, in y order. */
  method ScanSlab(t: Tables, field: array<real>, size: int, isovalue: real, z: int,
                  vertexList: array<Vec3>, vertices: array<Vertex>, count: int,
                  ghost f: seq<real>, ghost cell: CellOutput)
    returns (newCount: int)
    requires t.Valid() && field[..] == f && |f| == size * size * size && 0 <= z < Cells(size)
    requires IsMarchingCell(cell, t, f, size, isovalue) && AtMostFivePerCell(cell, Cells(size))
    requires vertexList.Length == 12 && vertices.Length == size * size * size * 15
    requires 0 <= count <= vertices.Length
    requires vertices[..count] == ScanPrefix(cell, Cells(size), z, 0, 0)
    modifies vertexList, vertices
    ensures 0 <= newCount <= vertices.Length
    ensures vertices[..newCount] == ScanPrefix(cell, Cells(size), z + 1, 0, 0)
  {
    newCount := count;
    for y := 0 to Cells(size)
      invariant 0 <= newCount <= vertices.Length
      invariant vertices[..newCount] == ScanPrefix(cell, Cells(size), z, y, 0)
    {
      newCount := ScanRow(t, field, size, isovalue, y, z, vertexList, vertices, newCount, f, cell);
    }
    SlabCompletes(cell, Cells(size), z);
  }

  /** The z loop: every slab of the lattice, in z order, starting from an
      empty buffer. */
  method ScanLattice(t: Tables, field: array<real>, size: int, isovalue: real,
                     vertexList: array<Vec3>, vertices: array<Vertex>, ghost f: seq<real>, ghost cell: CellOutput)
    returns (count: int)
    requires t.Valid() && field[..] == f && |f| == size * size * size
    requires IsMarchingCell(cell, t, f, size, isovalue) && AtMostFivePerCell(cell, Cells(size))
    requires vertexList.Length == 12 && vertices.Length == size * size * size * 15
    modifies vertexList, vertices
    ensures 0 <= count <= vertices.Length
    ensures vertices[..count] == GridVerts(cell, Cells(size), Cells(size))
  {
    count := 0;
    for z := 0 to Cells(size)
      invariant 0 <= count <= vertices.Length
      invariant vertices[..count] == ScanPrefix(cell, Cells(size), z, 0, 0)
    {
      count := ScanSlab(t, field, size, isovalue, z, vertexList, vertices, count, f, cell);
    }
  }

  /** Extracts the isosurface of a size^3 field: scans every cell in z, y, x
      order appending its vertices to a buffer of size^3 * 15 slots, then packs
      the filled part into the mesh. */
  method MarchingCubes(t: Tables, field: array<real>, size: int, isovalue: real) returns (mesh: Mesh)
    requires t.Valid() && field.Length == size * size * size
    ensures fresh(mesh.vertices) && fresh(mesh.colors)
    ensures mesh.vertexCount == |Extract(t, field[..], size, isovalue)|
    ensures mesh.vertices[..] == FlattenPositions(Extract(t, field[..], size, isovalue))
    ensures forall j :: 0 <= j < |Extract(t, field[..], size, isovalue)| ==>
              ColorInRange(Extract(t, field[..], size, isovalue)[j].color)
    ensures mesh.colors[..] == PackColors(Extract(t, field[..], size, isovalue))
  {
    ghost var cell := MarchingCell(t, field[..], size, isovalue);
    MarchingCellBound(t, field[..], size, isovalue);
    var vertexList := new Vec3[12](_ => Vec3(0.0, 0.0, 0.0));
    var maxVertices := size * size * size * 15;
    var vertices := new Vertex[maxVertices](_ => Vertex(Vec3(0.0, 0.0, 0.0), Vec3(0.0, 0.0, 0.0)));
    var vertexCount := ScanLattice(t, field, size, isovalue, vertexList, vertices, field[..], cell);
    ExtractRed(t, field[..], size, isovalue);
    forall k | 0 <= k < vertexCount
      ensures ColorInRange(vertices[k].color)
    {
      assert vertices[k] == vertices[..vertexCount][k];
    }
    mesh := PackMesh(vertices, vertexCount);
  }
}
