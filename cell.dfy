/** One cell of the lattice: sampling its eight corners, classifying them
    against the isovalue, interpolating the crossing edges and emitting the
    triangles of its configuration. */
module Cell {
  import opened Geometry
  import opened Lattice
  import opened Interpolation
  import opened CaseTables

  /** Whether bit i of a configuration index is set. */
  predicate Bit(c: bv8, i: int)
    requires 0 <= i < 8
  {
    (c >> i) & 1 == 1
  }

  lemma SetBit(c: bv8, k: int)
    requires 0 <= k < 8
    ensures forall i :: 0 <= i < 8 ==> (Bit(c | (1 << k), i) <==> Bit(c, i) || i == k)
  {
  }

  lemma NoBitInZero()
    ensures forall i :: 0 <= i < 8 ==> !Bit(0, i)
  {
  }

  /** Two configuration indices with the same eight bits are equal. */
  lemma BitsDetermine(a: bv8, b: bv8)
    requires forall i :: 0 <= i < 8 ==> (Bit(a, i) <==> Bit(b, i))
    ensures a == b
  {
    assert Bit(a, 0) == Bit(b, 0) && Bit(a, 1) == Bit(b, 1) && Bit(a, 2) == Bit(b, 2) && Bit(a, 3) == Bit(b, 3);
    assert Bit(a, 4) == Bit(b, 4) && Bit(a, 5) == Bit(b, 5) && Bit(a, 6) == Bit(b, 6) && Bit(a, 7) == Bit(b, 7);
  }

  /** The configuration index of the first |vals| corners: bit i is set exactly
      when corner i lies strictly below the isovalue. */
  function Classify(vals: seq<real>, isovalue: real): (c: bv8)
    requires |vals| <= 8
    ensures forall i :: 0 <= i < 8 ==> (Bit(c, i) <==> i < |vals| && vals[i] < isovalue)
  {
    if |vals| == 0 then
      NoBitInZero();
      0
    else
      var k := |vals| - 1;
      var prev := Classify(vals[..k], isovalue);
      SetBit(prev, k);
      if vals[k] < isovalue then prev | (1 << k) else prev
  }

  /** Classifying one more corner sets at most the bit of that corner. */
  lemma ClassifyStep(vals: seq<real>, v: real, isovalue: real)
    requires |vals| < 8
    ensures Classify(vals + [v], isovalue) ==
              if v < isovalue then Classify(vals, isovalue) | (1 << |vals|) else Classify(vals, isovalue)
  {
    assert (vals + [v])[..|vals|] == vals;
  }

  /** The bit condition determines the configuration index: no other index has
      the same bits. */
  lemma ClassifyUnique(vals: seq<real>, isovalue: real, c: bv8)
    requires |vals| == 8
    requires forall i :: 0 <= i < 8 ==> (Bit(c, i) <==> vals[i] < isovalue)
    ensures c == Classify(vals, isovalue)
  {
    BitsDetermine(c, Classify(vals, isovalue));
  }

  /** All corners below the isovalue give 255, none below gives 0. */
  lemma ClassifyExtremes(vals: seq<real>, isovalue: real)
    requires |vals| == 8
    ensures (forall i :: 0 <= i < 8 ==> vals[i] < isovalue) ==> Classify(vals, isovalue) == 0xFF
    ensures (forall i :: 0 <= i < 8 ==> vals[i] >= isovalue) ==> Classify(vals, isovalue) == 0
  {
    assert forall i :: 0 <= i < 8 ==> Bit(0xFF, i);
    NoBitInZero();
    if forall i :: 0 <= i < 8 ==> vals[i] < isovalue {
      ClassifyUnique(vals, isovalue, 0xFF);
    }
    if forall i :: 0 <= i < 8 ==> vals[i] >= isovalue {
      ClassifyUnique(vals, isovalue, 0);
    }
  }

  /** The cells of a lattice of size^3 points: one per point whose three
      coordinates are below size - 1. */
  predicate CellInGrid(size: int, x: int, y: int, z: int)
  {
    0 <= x < size - 1 && 0 <= y < size - 1 && 0 <= z < size - 1
  }

  /** The unit-cube position of corner i, from its offsets. */
  function CornerPosition(t: Tables, i: int): Vec3
    requires CubeCordsValid(t.cubeCords) && 0 <= i < 8
  {
    Vec3(t.cubeCords[i][0] as real, t.cubeCords[i][1] as real, t.cubeCords[i][2] as real)
  }

  /** The unit-cube positions of the eight corners. */
  function CornerPositions(t: Tables): (ps: seq<Vec3>)
    requires CubeCordsValid(t.cubeCords)
    ensures |ps| == 8
  {
    seq(8, i requires 0 <= i < 8 => CornerPosition(t, i))
  }

  /** Every corner of a cell is a lattice point, so its field index is within
      the size^3 samples and the read there is the corner's value. */
  lemma CornerInBounds(t: Tables, f: seq<real>, size: int, x: int, y: int, z: int, i: int)
    requires CubeCordsValid(t.cubeCords) && |f| == size * size * size && CellInGrid(size, x, y, z) && 0 <= i < 8
    ensures InGrid(size, x + t.cubeCords[i][0], y + t.cubeCords[i][1], z + t.cubeCords[i][2])
    ensures 0 <= CubeCordIndex(size, x + t.cubeCords[i][0], y + t.cubeCords[i][1], z + t.cubeCords[i][2]) < |f|
  {
    assert CornerValid(t.cubeCords[i]);
    IndexInRange(size, x + t.cubeCords[i][0], y + t.cubeCords[i][1], z + t.cubeCords[i][2]);
  }

  /** The field sample at corner i of cell (x, y, z). */
  function CornerValue(t: Tables, f: seq<real>, size: int, x: int, y: int, z: int, i: int): real
    requires CubeCordsValid(t.cubeCords) && |f| == size * size * size && CellInGrid(size, x, y, z) && 0 <= i < 8
  {
    assert CornerValid(t.cubeCords[i]);
    FieldAt(f, size, x + t.cubeCords[i][0], y + t.cubeCords[i][1], z + t.cubeCords[i][2])
  }

  /** The field sample at each corner of cell (x, y, z). */
  function CornerValues(t: Tables, f: seq<real>, size: int, x: int, y: int, z: int): (vs: seq<real>)
    requires CubeCordsValid(t.cubeCords) && |f| == size * size * size && CellInGrid(size, x, y, z)
    ensures |vs| == 8
  {
    seq(8, i requires 0 <= i < 8 => CornerValue(t, f, size, x, y, z, i))
  }

  /** The two corners joined by cube edge e: edges 0-3 go around the bottom
      face, 4-7 around the top face, 8-11 are the uprights. */
  function EdgeEnds(e: int): (ends: (int, int))
    requires 0 <= e < 12
    ensures 0 <= ends.0 < 8 && 0 <= ends.1 < 8 && ends.0 != ends.1
  {
    match e
    case 0 => (0, 1)
    case 1 => (1, 2)
    case 2 => (2, 3)
    case 3 => (3, 0)
    case 4 => (4, 5)
    case 5 => (5, 6)
    case 6 => (6, 7)
    case 7 => (7, 4)
    case 8 => (0, 4)
    case 9 => (1, 5)
    case 10 => (2, 6)
    case _ => (3, 7)
  }

  /** The crossing point on edge e of a cell with corner positions p and values val. */
  function EdgePoint(p: seq<Vec3>, val: seq<real>, isovalue: real, e: int): Vec3
    requires |p| == 8 && |val| == 8 && 0 <= e < 12
  {
    var (a, b) := EdgeEnds(e);
    InterpolateVertex(p[a], p[b], val[a], val[b], isovalue)
  }

  /** The crossing point of every edge, computed afresh. */
  function EdgePoints(p: seq<Vec3>, val: seq<real>, isovalue: real): (pts: seq<Vec3>)
    requires |p| == 8 && |val| == 8
    ensures |pts| == 12
  {
    seq(12, e requires 0 <= e < 12 => EdgePoint(p, val, isovalue, e))
  }

  /** The red vertices a triangle-table row emits: one per edge index before the
      end marker, placed at that edge's point moved by the cell position. */
  function Emit(row: seq<int>, pts: seq<Vec3>, cellPos: Vec3): (vs: seq<Vertex>)
    requires ScanSafe(row, 0) && |pts| == 12
    ensures |vs| == |EdgeRefs(row, 0)|
  {
    RefsAreEdges(row, 0);
    var es := EdgeRefs(row, 0);
    seq(|es|, j requires 0 <= j < |es| => Vertex(Add(pts[es[j]], cellPos), Red))
  }

  /** Emission reads only the edge points the row names: two point lists that
      agree on every flagged edge emit the same vertices when the row names
      flagged edges only. */
  lemma EmitReadsOnlyFlagged(row: seq<int>, mask: EdgeMask, pts: seq<Vec3>, pts': seq<Vec3>, cellPos: Vec3)
    requires RowValid(row, mask) && |pts| == 12 && |pts'| == 12
    requires forall e :: 0 <= e < 12 && Flagged(mask, e) ==> pts[e] == pts'[e]
    ensures Emit(row, pts, cellPos) == Emit(row, pts', cellPos)
  {
    var es := EdgeRefs(row, 0);
    RefsShape(row, 0);
    forall j | 0 <= j < |es|
      ensures pts[es[j]] == pts'[es[j]]
    {
      assert es[j] in es;
    }
  }

  /** The vertices cell (x, y, z) contributes: none when its configuration
      flags no edge, otherwise those its triangle-table row emits from freshly
      interpolated edge points. */
  function CellVertices(t: Tables, f: seq<real>, size: int, isovalue: real, x: int, y: int, z: int): (vs: seq<Vertex>)
    requires t.Valid() && |f| == size * size * size && CellInGrid(size, x, y, z)
    ensures |vs| % 3 == 0 && |vs| <= 15
  {
    var val := CornerValues(t, f, size, x, y, z);
    var c := Classify(val, isovalue) as int;
    AtMostFiveTriangles(t, c);
    assert RowValid(t.triTable[c], t.edgeTable[c]);
    if t.edgeTable[c] == 0 then []
    else Emit(t.triTable[c], EdgePoints(CornerPositions(t), val, isovalue), Vec3(x as real, y as real, z as real))
  }

  /** The early exit on an empty mask changes nothing: the row of such a
      configuration emits no vertex either. */
  lemma EmptyMaskSkipIsSound(t: Tables, f: seq<real>, size: int, isovalue: real, x: int, y: int, z: int)
    requires t.Valid() && |f| == size * size * size && CellInGrid(size, x, y, z)
    ensures
      var val := CornerValues(t, f, size, x, y, z);
      var c := Classify(val, isovalue) as int;
      CellVertices(t, f, size, isovalue, x, y, z) ==
        Emit(t.triTable[c], EdgePoints(CornerPositions(t), val, isovalue), Vec3(x as real, y as real, z as real))
  {
    var val := CornerValues(t, f, size, x, y, z);
    var c := Classify(val, isovalue) as int;
    assert RowValid(t.triTable[c], t.edgeTable[c]);
    if t.edgeTable[c] == 0 {
      EmptyMaskEmptyRow(t, c);
    }
  }

  /** Vertex j of a cell sits at the fresh crossing point of the edge named
      in slot j of the configuration's row, an edge its mask flags, moved by
      the cell position and coloured red. */
  lemma CellVertexOnFlaggedEdge(t: Tables, f: seq<real>, size: int, isovalue: real, x: int, y: int, z: int, j: int)
    requires t.Valid() && |f| == size * size * size && CellInGrid(size, x, y, z)
    requires 0 <= j < |CellVertices(t, f, size, isovalue, x, y, z)|
    ensures
      var val := CornerValues(t, f, size, x, y, z);
      var c := Classify(val, isovalue) as int;
      var e := t.triTable[c][j];
      0 <= e < 12 && Flagged(t.edgeTable[c], e) &&
      CellVertices(t, f, size, isovalue, x, y, z)[j] ==
        Vertex(Add(EdgePoint(CornerPositions(t), val, isovalue, e), Vec3(x as real, y as real, z as real)), Red)
  {
    var val := CornerValues(t, f, size, x, y, z);
    var c := Classify(val, isovalue) as int;
    var row := t.triTable[c];
    assert RowValid(row, t.edgeTable[c]);
    RefsShape(row, 0);
    EmptyMaskSkipIsSound(t, f, size, isovalue, x, y, z);
    assert EdgeRefs(row, 0)[j] in EdgeRefs(row, 0);
  }

  /** The standard construction of the edge table: configuration c flags
      edge e exactly when the two corners of e lie on opposite sides. */
  ghost predicate MaskMatchesCorners(t: Tables)
    requires |t.edgeTable| == 256
  {
    forall c: bv8, e :: 0 <= e < 12 ==>
      (Flagged(t.edgeTable[c as int], e) <==> Bit(c, EdgeEnds(e).0) != Bit(c, EdgeEnds(e).1))
  }

  /** Under the standard edge table, a configuration flags no edge exactly
      when all eight corners lie on the same side (index 0 or 255). */
  lemma EmptyMaskIffUniform(t: Tables, c: bv8)
    requires t.Valid() && MaskMatchesCorners(t)
    ensures t.edgeTable[c as int] == 0 <==> c == 0 || c == 0xFF
  {
    var mask := t.edgeTable[c as int];
    assert mask < 0x1000;
    if mask == 0 {
      NothingFlaggedInZero();
      assert Bit(c, 0) == Bit(c, 1) by { EdgeSides(t, c, 0); }
      assert Bit(c, 1) == Bit(c, 2) by { EdgeSides(t, c, 1); }
      assert Bit(c, 2) == Bit(c, 3) by { EdgeSides(t, c, 2); }
      assert Bit(c, 4) == Bit(c, 5) by { EdgeSides(t, c, 4); }
      assert Bit(c, 5) == Bit(c, 6) by { EdgeSides(t, c, 5); }
      assert Bit(c, 6) == Bit(c, 7) by { EdgeSides(t, c, 6); }
      assert Bit(c, 0) == Bit(c, 4) by { EdgeSides(t, c, 8); }
      if Bit(c, 0) {
        assert forall i :: 0 <= i < 8 ==> Bit(0xFF, i);
        BitsDetermine(c, 0xFF);
      } else {
        NoBitInZero();
        BitsDetermine(c, 0);
      }
    }
    if c == 0 || c == 0xFF {
      assert forall i :: 0 <= i < 8 ==> Bit(0xFF, i);
      NoBitInZero();
      forall e | 0 <= e < 12
        ensures !Flagged(mask, e)
      {
        EdgeSides(t, c, e);
      }
      NoFlagMeansZero(mask);
    }
  }

  /** One instance of MaskMatchesCorners. */
  lemma EdgeSides(t: Tables, c: bv8, e: int)
    requires t.Valid() && MaskMatchesCorners(t) && 0 <= e < 12
    ensures Flagged(t.edgeTable[c as int], e) <==> Bit(c, EdgeEnds(e).0) != Bit(c, EdgeEnds(e).1)
  {
  }

  /** A 12-bit mask with none of its twelve flags set is zero. */
  lemma NoFlagMeansZero(mask: EdgeMask)
    requires mask < 0x1000
    requires forall e :: 0 <= e < 12 ==> !Flagged(mask, e)
    ensures mask == 0
  {
    assert !Flagged(mask, 0) && !Flagged(mask, 1) && !Flagged(mask, 2) && !Flagged(mask, 3);
    assert !Flagged(mask, 4) && !Flagged(mask, 5) && !Flagged(mask, 6) && !Flagged(mask, 7);
    assert !Flagged(mask, 8) && !Flagged(mask, 9) && !Flagged(mask, 10) && !Flagged(mask, 11);
  }

  /** Under the standard edge table every emitted vertex lies on the segment
      joining the two corners of a crossing edge, moved by the cell position. */
  lemma VertexOnCrossingSegment(t: Tables, f: seq<real>, size: int, isovalue: real, x: int, y: int, z: int, j: int)
    requires t.Valid() && MaskMatchesCorners(t) && |f| == size * size * size && CellInGrid(size, x, y, z)
    requires 0 <= j < |CellVertices(t, f, size, isovalue, x, y, z)|
    ensures exists e, mu ::
              && 0 <= e < 12 && 0.0 <= mu <= 1.0
              && CellVertices(t, f, size, isovalue, x, y, z)[j].position ==
                 Add(Lerp(CornerPositions(t)[EdgeEnds(e).0], CornerPositions(t)[EdgeEnds(e).1], mu),
                     Vec3(x as real, y as real, z as real))
  {
    var val := CornerValues(t, f, size, x, y, z);
    var cube := Classify(val, isovalue);
    var c := cube as int;
    var p := CornerPositions(t);
    CellVertexOnFlaggedEdge(t, f, size, isovalue, x, y, z, j);
    var e := t.triTable[c][j];
    var (a, b) := EdgeEnds(e);
    assert Flagged(t.edgeTable[c], e);
    assert Bit(cube, a) != Bit(cube, b);
    assert Min(val[a], val[b]) <= isovalue <= Max(val[a], val[b]);
    BetweenGivesPointOnSegment(p[a], p[b], val[a], val[b], isovalue);
    var mu :| 0.0 <= mu <= 1.0 && InterpolateVertex(p[a], p[b], val[a], val[b], isovalue) == Lerp(p[a], p[b], mu);
    assert CellVertices(t, f, size, isovalue, x, y, z)[j].position ==
      Add(Lerp(p[a], p[b], mu), Vec3(x as real, y as real, z as real));
  }

  /** Samples the eight corners of cell (x, y, z) and builds its configuration
      index, setting bit i when corner i lies strictly below the isovalue. */
  method SampleCell(t: Tables, field: array<real>, size: int, x: int, y: int, z: int, isovalue: real)
    returns (p: seq<Vec3>, val: seq<real>, cubeIndex: bv8)
    requires CubeCordsValid(t.cubeCords) && field.Length == size * size * size && CellInGrid(size, x, y, z)
    ensures p == CornerPositions(t)
    ensures val == CornerValues(t, field[..], size, x, y, z)
    ensures cubeIndex == Classify(val, isovalue)
  {
    cubeIndex := 0;
    p := [];
    val := [];
    for i := 0 to 8
      invariant |p| == i && |val| == i
      invariant forall j :: 0 <= j < i ==> p[j] == CornerPosition(t, j)
      invariant forall j :: 0 <= j < i ==> val[j] == CornerValue(t, field[..], size, x, y, z, j)
      invariant cubeIndex == Classify(val, isovalue)
    {
      var pi, vi := ReadCorner(t, field, size, x, y, z, i);
      p := p + [pi];
      ClassifyStep(val, vi, isovalue);
      val := val + [vi];
      if val[i] < isovalue {
        cubeIndex := cubeIndex | (1 << i);
      }
    }
  }

  /** Corner i of cell (x, y, z): its unit-cube position and the field sample
      read at the lattice point the offsets reach. */
  method ReadCorner(t: Tables, field: array<real>, size: int, x: int, y: int, z: int, i: int)
    returns (pos: Vec3, v: real)
    requires CubeCordsValid(t.cubeCords) && field.Length == size * size * size && CellInGrid(size, x, y, z) && 0 <= i < 8
    ensures pos == CornerPosition(t, i)
    ensures v == CornerValue(t, field[..], size, x, y, z, i)
  {
    var ix := t.cubeCords[i][0];
    var iy := t.cubeCords[i][1];
    var iz := t.cubeCords[i][2];
    pos := Vec3(ix as real, iy as real, iz as real);
    CornerRead(t, field[..], size, x, y, z, i);
    var idx := CubeCordIndex(size, x + ix, y + iy, z + iz);
    v := field[idx];
  }

  /** The read at corner i of cell (x, y, z) is in bounds and yields the corner's value. */
  lemma CornerRead(t: Tables, f: seq<real>, size: int, x: int, y: int, z: int, i: int)
    requires CubeCordsValid(t.cubeCords) && |f| == size * size * size && CellInGrid(size, x, y, z) && 0 <= i < 8
    ensures 0 <= CubeCordIndex(size, x + t.cubeCords[i][0], y + t.cubeCords[i][1], z + t.cubeCords[i][2]) < |f|
    ensures CornerValue(t, f, size, x, y, z, i) ==
              f[CubeCordIndex(size, x + t.cubeCords[i][0], y + t.cubeCords[i][1], z + t.cubeCords[i][2])]
  {
    CornerInBounds(t, f, size, x, y, z, i);
  }

  /** Interpolates the crossing point of every edge flagged in the mask into
      the twelve-slot buffer, testing the edges in order 0 to 11 (the twelve
      tests written out one after another). Slots of unflagged edges keep
      whatever an earlier cell left there. */
  method InterpolateEdges(mask: EdgeMask, p: seq<Vec3>, val: seq<real>, isovalue: real, vertexList: array<Vec3>)
    requires |p| == 8 && |val| == 8 && vertexList.Length == 12
    modifies vertexList
    ensures forall e :: 0 <= e < 12 ==>
              vertexList[e] == if Flagged(mask, e) then EdgePoint(p, val, isovalue, e) else old(vertexList[e])
  {
    for e := 0 to 12
      invariant forall k :: 0 <= k < e ==>
                  vertexList[k] == if Flagged(mask, k) then EdgePoint(p, val, isovalue, k) else old(vertexList[k])
      invariant forall k :: e <= k < 12 ==> vertexList[k] == old(vertexList[k])
    {
      if mask & EdgeBit(e) != 0 {
        var (a, b) := EdgeEnds(e);
        vertexList[e] := InterpolateVertex(p[a], p[b], val[a], val[b], isovalue);
      }
    }
  }

  /** Appends the vertices of one triangle-table row at position count of the
      output buffer, scanning triples until the end marker; each vertex is the
      buffered edge point moved by the cell position, coloured red. The
      buffer is read, never written, so its contents are passed as a value. */
  method EmitTriangles(row: seq<int>, vertexList: seq<Vec3>, cellPos: Vec3, vertices: array<Vertex>, count: int)
    returns (newCount: int)
    requires ScanSafe(row, 0) && |vertexList| == 12
    requires 0 <= count && count + |EdgeRefs(row, 0)| <= vertices.Length
    modifies vertices
    ensures newCount == count + |EdgeRefs(row, 0)|
    ensures forall k :: 0 <= k < count ==> vertices[k] == old(vertices[k])
    ensures vertices[count..newCount] == Emit(row, vertexList, cellPos)
    ensures forall k :: newCount <= k < vertices.Length ==> vertices[k] == old(vertices[k])
  {
    ghost var es := EdgeRefs(row, 0);
    RefsShape(row, 0);
    newCount := count;
    var i := 0;
    while row[i] != EndMarker
      invariant 0 <= i <= |es| && i % 3 == 0
      invariant newCount == count + i
      invariant forall k :: 0 <= k < count ==> vertices[k] == old(vertices[k])
      invariant forall k :: newCount <= k < vertices.Length ==> vertices[k] == old(vertices[k])
      invariant forall k :: count <= k < newCount ==> vertices[k] == Vertex(Add(vertexList[es[k - count]], cellPos), Red)
      decreases |es| - i
    {
      var p1 := Add(vertexList[row[i]], cellPos);
      var p2 := Add(vertexList[row[i + 1]], cellPos);
      var p3 := Add(vertexList[row[i + 2]], cellPos);
      WriteTriangle(vertices, newCount, p1, p2, p3);
      newCount := newCount + 3;
      i := i + 3;
    }
  }

  /** Stores one red triangle in slots n, n + 1 and n + 2 and nothing else. */
  method WriteTriangle(vertices: array<Vertex>, n: int, p1: Vec3, p2: Vec3, p3: Vec3)
    requires 0 <= n && n + 3 <= vertices.Length
    modifies vertices
    ensures vertices[n] == Vertex(p1, Red) && vertices[n + 1] == Vertex(p2, Red) && vertices[n + 2] == Vertex(p3, Red)
    ensures forall k :: 0 <= k < vertices.Length && (k < n || n + 3 <= k) ==> vertices[k] == old(vertices[k])
  {
    vertices[n] := Vertex(p1, Red);
    vertices[n + 1] := Vertex(p2, Red);
    vertices[n + 2] := Vertex(p3, Red);
  }

}
