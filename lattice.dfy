/** Flat layout of an N x N x N lattice of samples: point (x, y, z) lives at
    x + N * (y + N * z), i.e. z-major, then y, then x. */
module Lattice {

  /** Flat index of lattice point (x, y, z) in a grid of the given size
      (IndexInRange, DecodeIndex and EncodeDecode state its properties). */
  function CubeCordIndex(size: int, x: int, y: int, z: int): (r: int)
  {
    x + size * (y + size * z)
  }

  predicate InGrid(size: int, x: int, y: int, z: int)
  {
    0 <= x < size && 0 <= y < size && 0 <= z < size
  }

  /** The three coordinates of flat index i (inverse of CubeCordIndex). */
  function LatticeX(size: int, i: int): int
    requires size > 0
  {
    i % size
  }

  function LatticeY(size: int, i: int): int
    requires size > 0
  {
    (i / size) % size
  }

  function LatticeZ(size: int, i: int): int
    requires size > 0
  {
    i / size / size
  }

  lemma MulAtLeast(a: int, s: int)
    requires a >= 1 && s > 0
    ensures a * s >= s
  {
  }

  lemma MulLe(a: int, b: int, s: int)
    requires 0 <= a <= b && s >= 0
    ensures s * a <= s * b
  {
  }

  /** Euclidean division is determined by quotient and remainder. */
  lemma DivModOf(n: int, s: int, q: int, r: int)
    requires s > 0 && 0 <= r < s && n == q * s + r
    ensures n / s == q && n % s == r
  {
    var q', r' := n / s, n % s;
    assert n == q' * s + r';
    assert (q - q') * s == r' - r;
    if q > q' {
      MulAtLeast(q - q', s);
    } else if q < q' {
      MulAtLeast(q' - q, s);
    }
  }

  /** Mixed-radix bound: a digit below s plus s times a number below t stays below s * t. */
  lemma MixedRadixBound(a: int, b: int, s: int, t: int)
    requires 0 <= a < s && 0 <= b < t
    ensures 0 <= a + s * b < s * t
  {
    MulLe(b, t - 1, s);
    assert s * (t - 1) == s * t - s;
  }

  /** Cubing groups either way. */
  lemma CubeAssoc(s: int)
    ensures s * (s * s) == s * s * s
  {
  }

  /** The nested form of the index equals the expanded z-major form. */
  lemma IndexExpands(size: int, x: int, y: int, z: int)
    ensures x + size * (y + size * z) == z * size * size + y * size + x
  {
    assert size * (y + size * z) == size * y + size * (size * z);
    assert size * (size * z) == z * size * size;
  }

  /** The bound and the layout stated by CubeCordIndex, on the raw expression. */
  lemma IndexInRange(size: int, x: int, y: int, z: int)
    requires InGrid(size, x, y, z)
    ensures 0 <= x + size * (y + size * z) < size * size * size
    ensures x + size * (y + size * z) == z * size * size + y * size + x
  {
    var w := y + size * z;
    MixedRadixBound(y, z, size, size);
    MixedRadixBound(x, w, size, size * size);
    CubeAssoc(size);
    IndexExpands(size, x, y, z);
  }

  /** Decoding the index of an in-grid point gives the point back, so distinct
      points never share a slot. */
  lemma DecodeIndex(size: int, x: int, y: int, z: int)
    requires InGrid(size, x, y, z)
    ensures LatticeX(size, CubeCordIndex(size, x, y, z)) == x
    ensures LatticeY(size, CubeCordIndex(size, x, y, z)) == y
    ensures LatticeZ(size, CubeCordIndex(size, x, y, z)) == z
  {
    var n := CubeCordIndex(size, x, y, z);
    DivModOf(n, size, y + size * z, x);
    DivModOf(y + size * z, size, z, y);
  }

  /** A quotient by s of a number below s * t is below t. */
  lemma DivBelow(n: int, s: int, t: int)
    requires s > 0 && 0 <= n < s * t
    ensures 0 <= n / s < t
  {
    var q := n / s;
    assert n == q * s + n % s;
    if q >= t {
      MulLe(t, q, s);
    }
  }

  /** Every slot of the N^3 buffer is the index of exactly one in-grid point:
      decoding it gives an in-grid point that encodes back to it. */
  lemma EncodeDecode(size: int, i: int)
    requires size > 0 && 0 <= i < size * size * size
    ensures InGrid(size, LatticeX(size, i), LatticeY(size, i), LatticeZ(size, i))
    ensures CubeCordIndex(size, LatticeX(size, i), LatticeY(size, i), LatticeZ(size, i)) == i
  {
    var q := i / size;
    CubeAssoc(size);
    DivBelow(i, size, size * size);
    DivBelow(q, size, size);
    DivModSplit(i, size);
    DivModSplit(q, size);
  }

  /** Euclidean division splits n into a remainder below s and s times the quotient. */
  lemma DivModSplit(n: int, s: int)
    requires s > 0
    ensures n == n % s + s * (n / s) && 0 <= n % s < s
  {
  }

  /** The sample at in-grid point (x, y, z) of a flat field. */
  function FieldAt(f: seq<real>, size: int, x: int, y: int, z: int): real
    requires |f| == size * size * size && InGrid(size, x, y, z)
  {
    IndexInRange(size, x, y, z);
    f[CubeCordIndex(size, x, y, z)]
  }
}
