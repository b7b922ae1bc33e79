/** The three lookup tables of the algorithm, taken as a parameter together
    with the well-formedness the extraction relies on. */
module CaseTables {

  /** An edge mask: bit e is set when cube edge e crosses the surface. */
  type EdgeMask = bv16

  /** The index of the end marker in a triangle-table row. */
  const EndMarker: int := -1

  /** edgeTable[c] is the edge mask of corner configuration c, triTable[c] the
      edge indices of its triangles (in triples, ended by -1), and cubeCords[i]
      the unit offset of cube corner i. */
  datatype Tables = Tables(edgeTable: seq<EdgeMask>, triTable: seq<seq<int>>, cubeCords: seq<seq<int>>)
  {
    /** What the extraction assumes of the tables: every mask is a 12-bit mask,
        every row has 16 slots and is read safely by the triple scan, every edge
        a row names is flagged in the matching mask, and every corner offset is
        0 or 1 on each axis. */
    predicate Valid()
    {
      && |edgeTable| == 256
      && |triTable| == 256
      && (forall c :: 0 <= c < 256 ==> edgeTable[c] < 0x1000)
      && (forall c :: 0 <= c < 256 ==> RowValid(triTable[c], edgeTable[c]))
      && CubeCordsValid(cubeCords)
    }
  }

  /** Eight corner offsets, each 0 or 1 on every axis. */
  predicate CubeCordsValid(cubeCords: seq<seq<int>>)
  {
    |cubeCords| == 8 && forall i :: 0 <= i < 8 ==> CornerValid(cubeCords[i])
  }

  predicate CornerValid(offset: seq<int>)
  {
    |offset| == 3 && 0 <= offset[0] <= 1 && 0 <= offset[1] <= 1 && 0 <= offset[2] <= 1
  }

  predicate RowValid(row: seq<int>, mask: EdgeMask)
  {
    |row| == 16 && ScanSafe(row, 0) && forall e :: e in EdgeRefs(row, 0) ==> 0 <= e < 12 && Flagged(mask, e)
  }

  /** Whether edge e (0..11) is flagged in a mask: bit 2^e is set. */
  predicate Flagged(mask: EdgeMask, e: int)
    requires 0 <= e < 12
  {
    mask & EdgeBit(e) != 0
  }

  /** The mask bit of edge e, 2^e. */
  function EdgeBit(e: int): EdgeMask
    requires 0 <= e < 12
  {
    match e
    case 0 => 1
    case 1 => 2
    case 2 => 4
    case 3 => 8
    case 4 => 16
    case 5 => 32
    case 6 => 64
    case 7 => 128
    case 8 => 256
    case 9 => 512
    case 10 => 1024
    case _ => 2048
  }

  /** The triangle scan starting at slot i reads only slots of the row: it
      meets the end marker at slot i, or finds a whole triple of edge indices
      there and the scan continues safely three slots on. */
  predicate ScanSafe(row: seq<int>, i: nat)
    decreases |row| - i
  {
    i < |row| &&
    (row[i] == EndMarker ||
     (i + 2 < |row| && 0 <= row[i] < 12 && 0 <= row[i + 1] < 12 && 0 <= row[i + 2] < 12 &&
      ScanSafe(row, i + 3)))
  }

  /** The edge indices the scan reads from slot i up to the end marker. */
  function EdgeRefs(row: seq<int>, i: nat): seq<int>
    requires ScanSafe(row, i)
    decreases |row| - i
  {
    if row[i] == EndMarker then []
    else row[i..i + 3] + EdgeRefs(row, i + 3)
  }

  /** The scan from slot i reads whole triples of edge indices (0..11), which
      are exactly the slots before the end marker. */
  lemma RefsShape(row: seq<int>, i: nat)
    requires ScanSafe(row, i)
    ensures var es := EdgeRefs(row, i);
      |es| % 3 == 0 && i + |es| < |row| && es == row[i..i + |es|] && row[i + |es|] == EndMarker &&
      forall j :: 0 <= j < |es| ==> 0 <= es[j] < 12
  {
    RefsEnd(row, i);
    RefsSlice(row, i);
    RefsAreEdges(row, i);
  }

  /** The scan from slot i reads whole triples and stops at the end marker. */
  lemma {:induction false} RefsEnd(row: seq<int>, i: nat)
    requires ScanSafe(row, i)
    ensures |EdgeRefs(row, i)| % 3 == 0 && i + |EdgeRefs(row, i)| < |row| && row[i + |EdgeRefs(row, i)|] == EndMarker
    decreases |row| - i
  {
    if row[i] != EndMarker {
      RefsEnd(row, i + 3);
    }
  }

  /** The indices the scan from slot i reads are the slots it passes over, in order. */
  lemma {:induction false} RefsSlice(row: seq<int>, i: nat)
    requires ScanSafe(row, i)
    ensures i + |EdgeRefs(row, i)| <= |row| && EdgeRefs(row, i) == row[i..i + |EdgeRefs(row, i)|]
    decreases |row| - i
  {
    if row[i] != EndMarker {
      RefsSlice(row, i + 3);
      var rest := EdgeRefs(row, i + 3);
      assert row[i..i + 3 + |rest|] == row[i..i + 3] + row[i + 3..i + 3 + |rest|];
    }
  }

  /** Every index the scan from slot i reads names one of the twelve edges. */
  lemma {:induction false} RefsAreEdges(row: seq<int>, i: nat)
    requires ScanSafe(row, i)
    ensures forall j :: 0 <= j < |EdgeRefs(row, i)| ==> 0 <= EdgeRefs(row, i)[j] < 12
    decreases |row| - i
  {
    if row[i] != EndMarker {
      RefsAreEdges(row, i + 3);
    }
  }

  /** A row of 16 slots holds at most five triangles. */
  lemma AtMostFiveTriangles(t: Tables, c: int)
    requires t.Valid() && 0 <= c < 256
    ensures |EdgeRefs(t.triTable[c], 0)| <= 15 && |EdgeRefs(t.triTable[c], 0)| % 3 == 0
  {
    assert RowValid(t.triTable[c], t.edgeTable[c]);
    RefsShape(t.triTable[c], 0);
  }

  /** A configuration whose mask flags no edge has no triangles. */
  lemma EmptyMaskEmptyRow(t: Tables, c: int)
    requires t.Valid() && 0 <= c < 256 && t.edgeTable[c] == 0
    ensures EdgeRefs(t.triTable[c], 0) == []
  {
    var es := EdgeRefs(t.triTable[c], 0);
    FirstIsMember(es);
    assert RowValid(t.triTable[c], t.edgeTable[c]);
    NothingFlaggedInZero();
  }

  lemma NothingFlaggedInZero()
    ensures forall e :: 0 <= e < 12 ==> !Flagged(0, e)
  {
  }

  lemma FirstIsMember(s: seq<int>)
    ensures |s| > 0 ==> s[0] in s
  {
  }
}
