/** The two field generators: sampling a function over the lattice, and the
    synthetic solid cube. Both fill a flat N^3 buffer in z, y, x order. */
module ScalarField {
  import opened Lattice

  /** Lattice coordinate c remapped linearly from [0, size - 1] to [-1, 1]. */
  function Remap(size: int, c: int): real
    requires size >= 2
  {
    (c as real) / ((size - 1) as real) * 2.0 - 1.0
  }

  /** The remap sends the first lattice point to -1, the last to 1, and keeps
      every lattice point inside [-1, 1], in increasing order. */
  lemma RemapEnds(size: int, c: int, d: int)
    requires size >= 2 && 0 <= c <= d < size
    ensures Remap(size, 0) == -1.0 && Remap(size, size - 1) == 1.0
    ensures -1.0 <= Remap(size, c) <= Remap(size, d) <= 1.0
  {
    var n := (size - 1) as real;
    DivMono(c as real, d as real, n);
    DivMono(d as real, n, n);
  }

  /** Dividing by a positive number keeps the order. */
  lemma DivMono(a: real, b: real, n: real)
    requires 0.0 < n && a <= b
    ensures a / n <= b / n
  {
    assert b / n - a / n == (b - a) / n;
  }

  /** The value the sampling generator stores in slot i. */
  function SampleAt(size: int, func: (real, real, real) -> real, i: int): real
    requires size >= 2
  {
    func(Remap(size, LatticeX(size, i)), Remap(size, LatticeY(size, i)), Remap(size, LatticeZ(size, i)))
  }

  /** Fills every slot with func sampled at the remapped lattice coordinates.
      The scan writes slot z*N*N + y*N + x, which grows by one per step, so each
      of the N^3 slots is written exactly once. */
  method GenerateScalarField(field: array<real>, size: int, func: (real, real, real) -> real)
    requires size >= 2 && field.Length == size * size * size
    modifies field
    ensures forall i :: 0 <= i < field.Length ==> field[i] == SampleAt(size, func, i)
    ensures forall x, y, z :: InGrid(size, x, y, z) ==>
              FieldAt(field[..], size, x, y, z) == func(Remap(size, x), Remap(size, y), Remap(size, z))
  {
    ghost var plane := size * size;
    ghost var n := 0;  // slots written so far
    for z := 0 to size
      invariant n == z * plane && n <= field.Length
      invariant forall i :: 0 <= i < n ==> field[i] == SampleAt(size, func, i)
    {
      for y := 0 to size
        invariant n == z * plane + y * size && n <= field.Length
        invariant forall i :: 0 <= i < n ==> field[i] == SampleAt(size, func, i)
      {
        for x := 0 to size
          invariant n == z * plane + y * size + x && n <= field.Length
          invariant forall i :: 0 <= i < n ==> field[i] == SampleAt(size, func, i)
        {
          var fx := (x as real) / ((size - 1) as real) * 2.0 - 1.0;
          var fy := (y as real) / ((size - 1) as real) * 2.0 - 1.0;
          var fz := (z as real) / ((size - 1) as real) * 2.0 - 1.0;
          ScanSlot(size, x, y, z, n);
          field[z * size * size + y * size + x] := func(fx, fy, fz);
          n := n + 1;
        }
        ScanNextRow(size, y);
      }
      ScanNextPlane(size, z, plane);
    }
    ScanEnd(size, plane);
    SampledAtEveryPoint(field[..], size, func);
  }

  /** The scan's write counter n equals the slot written at (x, y, z), which
      lies inside the buffer and decodes back to (x, y, z). */
  lemma ScanSlot(size: int, x: int, y: int, z: int, n: int)
    requires InGrid(size, x, y, z) && n == z * (size * size) + y * size + x
    ensures z * size * size + y * size + x == n == CubeCordIndex(size, x, y, z)
    ensures 0 <= n < size * size * size
    ensures LatticeX(size, n) == x && LatticeY(size, n) == y && LatticeZ(size, n) == z
  {
    IndexInRange(size, x, y, z);
    DecodeIndex(size, x, y, z);
  }

  lemma ScanNextRow(size: int, y: int)
    ensures y * size + size == (y + 1) * size
  {
  }

  lemma ScanNextPlane(size: int, z: int, plane: int)
    requires plane == size * size
    ensures z * plane + size * size == (z + 1) * plane
  {
  }

  lemma ScanEnd(size: int, plane: int)
    requires plane == size * size
    ensures size * plane == size * size * size
  {
  }

  /** The value the cube generator stores in slot i. */
  function CubeAt(size: int, i: int): real
    requires size > 0
  {
    if Interior(size, LatticeX(size, i), LatticeY(size, i), LatticeZ(size, i)) then 1.0 else 0.0
  }

  /** The value the cube generator's test picks at (x, y, z) is CubeAt of its slot. */
  lemma CubeSlot(size: int, x: int, y: int, z: int, n: int)
    requires InGrid(size, x, y, z) && LatticeX(size, n) == x && LatticeY(size, n) == y && LatticeZ(size, n) == z
    ensures CubeAt(size, n) ==
              if (x != 0 && x < size - 1) && (y != 0 && y < size - 1) && (z != 0 && z < size - 1) then 1.0 else 0.0
  {
  }

  /** Strictly inside the grid on all three axes. */
  predicate Interior(size: int, x: int, y: int, z: int)
  {
    0 < x < size - 1 && 0 < y < size - 1 && 0 < z < size - 1
  }

  /** The synthetic solid cube: 1.0 at interior lattice points, 0.0 on the
      outer shell of the grid, each slot written exactly once. */
  method GenerateCubeScalarField(field: array<real>, size: int)
    requires field.Length == size * size * size
    modifies field
    ensures forall i :: 0 <= i < field.Length ==> field[i] == CubeAt(size, i)
    ensures forall x, y, z :: InGrid(size, x, y, z) ==>
              FieldAt(field[..], size, x, y, z) == if Interior(size, x, y, z) then 1.0 else 0.0
  {
    ghost var plane := size * size;
    ghost var n := 0;  // slots written so far
    for z := 0 to size
      invariant n == z * plane && n <= field.Length
      invariant forall i :: 0 <= i < n ==> field[i] == CubeAt(size, i)
    {
      for y := 0 to size
        invariant n == z * plane + y * size && n <= field.Length
        invariant forall i :: 0 <= i < n ==> field[i] == CubeAt(size, i)
      {
        for x := 0 to size
          invariant n == z * plane + y * size + x && n <= field.Length
          invariant forall i :: 0 <= i < n ==> field[i] == CubeAt(size, i)
        {
          ScanSlot(size, x, y, z, n);
          CubeSlot(size, x, y, z, n);
          var idx := z * size * size + y * size + x;
          if (x != 0 && x < size - 1) && (y != 0 && y < size - 1) && (z != 0 && z < size - 1) {
            field[idx] := 1.0;
          } else {
            field[idx] := 0.0;
          }
          n := n + 1;
        }
        ScanNextRow(size, y);
      }
      ScanNextPlane(size, z, plane);
    }
    ScanEnd(size, plane);
    if size > 0 {
      CubeAtEveryPoint(field[..], size);
    }
  }

  /** A buffer filled slot by slot with SampleAt holds func of the remapped
      coordinates at every in-grid point. */
  lemma SampledAtEveryPoint(f: seq<real>, size: int, func: (real, real, real) -> real)
    requires size >= 2 && |f| == size * size * size
    requires forall i :: 0 <= i < |f| ==> f[i] == SampleAt(size, func, i)
    ensures forall x, y, z :: InGrid(size, x, y, z) ==>
              FieldAt(f, size, x, y, z) == func(Remap(size, x), Remap(size, y), Remap(size, z))
  {
    forall x, y, z | InGrid(size, x, y, z)
      ensures FieldAt(f, size, x, y, z) == func(Remap(size, x), Remap(size, y), Remap(size, z))
    {
      IndexInRange(size, x, y, z);
      DecodeIndex(size, x, y, z);
    }
  }

  /** A buffer filled slot by slot with CubeAt holds 1.0 exactly at the
      interior lattice points. */
  lemma CubeAtEveryPoint(f: seq<real>, size: int)
    requires size > 0 && |f| == size * size * size
    requires forall i :: 0 <= i < |f| ==> f[i] == CubeAt(size, i)
    ensures forall x, y, z :: InGrid(size, x, y, z) ==>
              FieldAt(f, size, x, y, z) == if Interior(size, x, y, z) then 1.0 else 0.0
  {
    forall x, y, z | InGrid(size, x, y, z)
      ensures FieldAt(f, size, x, y, z) == if Interior(size, x, y, z) then 1.0 else 0.0
    {
      IndexInRange(size, x, y, z);
      DecodeIndex(size, x, y, z);
    }
  }
}
