/** Packing the vertex list into a raylib mesh: three floats of position and
    four bytes of colour per vertex, in vertex order. */
module MeshPacking {
  import opened Geometry

  newtype byte = b: int | 0 <= b < 256

  /** The mesh handed to the renderer: a vertex count and two flat buffers. */
  datatype Mesh = Mesh(vertexCount: int, vertices: array<real>, colors: array<byte>)

  /** A colour whose three channels are normalised to [0, 1], a range in
      which the conversion of 255 * channel to an unsigned char is defined. */
  predicate ColorInRange(c: Vec3)
  {
    0.0 <= c.x <= 1.0 && 0.0 <= c.y <= 1.0 && 0.0 <= c.z <= 1.0
  }

  /** The byte for a normalised channel: 255 * r truncated toward zero. */
  function ColorChannel(r: real): (b: byte)
    requires 0.0 <= r <= 1.0
    ensures b as real <= 255.0 * r < b as real + 1.0
  {
    (255.0 * r).Floor as byte
  }

  /** The flat position buffer of a vertex list: x, y, z of each vertex in turn. */
  function FlattenPositions(vs: seq<Vertex>): (fs: seq<real>)
    ensures |fs| == 3 * |vs|
  {
    if |vs| == 0 then []
    else
      var p := vs[|vs| - 1].position;
      FlattenPositions(vs[..|vs| - 1]) + [p.x, p.y, p.z]
  }

  /** The flat colour buffer of a vertex list: the three converted channels
      and an opaque alpha of 255 for each vertex in turn. */
  function PackColors(vs: seq<Vertex>): (cs: seq<byte>)
    requires forall k :: 0 <= k < |vs| ==> ColorInRange(vs[k].color)
    ensures |cs| == 4 * |vs|
  {
    if |vs| == 0 then []
    else
      var c := vs[|vs| - 1].color;
      assert ColorInRange(c);
      PackColors(vs[..|vs| - 1]) + [ColorChannel(c.x), ColorChannel(c.y), ColorChannel(c.z), 255]
  }

  /** Slot 3k + c of the position buffer is component c of vertex k. */
  lemma {:induction false} FlattenAt(vs: seq<Vertex>, k: int, c: int)
    requires 0 <= k < |vs| && 0 <= c < 3
    ensures FlattenPositions(vs)[3 * k + c] == Component(vs[k].position, c)
  {
    var n := |vs| - 1;
    if k < n {
      FlattenAt(vs[..n], k, c);
    }
  }

  /** Slots 4k .. 4k + 3 of the colour buffer are the converted channels of
      vertex k followed by 255. */
  lemma {:induction false} ColorsAt(vs: seq<Vertex>, k: int, c: int)
    requires forall j :: 0 <= j < |vs| ==> ColorInRange(vs[j].color)
    requires 0 <= k < |vs| && 0 <= c < 4
    ensures PackColors(vs)[4 * k + c] == if c < 3 then ColorChannel(Component(vs[k].color, c)) else 255
  {
    var n := |vs| - 1;
    if k < n {
      ColorsAt(vs[..n], k, c);
    }
  }

  /** Reading a flat position buffer back as points, three reals at a time. */
  function UnflattenPositions(fs: seq<real>): (ps: seq<Vec3>)
    requires |fs| % 3 == 0
    ensures |ps| == |fs| / 3
  {
    if |fs| == 0 then []
    else
      var n := |fs| - 3;
      UnflattenPositions(fs[..n]) + [Vec3(fs[n], fs[n + 1], fs[n + 2])]
  }

  /** The position buffer loses nothing and reorders nothing: reading it back
      gives every vertex position, in vertex order. */
  lemma {:induction false} UnflattenFlatten(vs: seq<Vertex>)
    ensures UnflattenPositions(FlattenPositions(vs)) == seq(|vs|, k requires 0 <= k < |vs| => vs[k].position)
  {
    if |vs| > 0 {
      var n := |vs| - 1;
      var fs := FlattenPositions(vs);
      assert fs[..3 * n] == FlattenPositions(vs[..n]);
      UnflattenFlatten(vs[..n]);
    }
  }

  /** Red converts to the bytes (255, 0, 0). */
  lemma RedBytes()
    ensures ColorInRange(Red)
    ensures ColorChannel(Red.x) == 255 && ColorChannel(Red.y) == 0 && ColorChannel(Red.z) == 0
  {
  }

  /** Every vertex of an all-red list packs to (255, 0, 0, 255). */
  lemma AllRedPacksToRed(vs: seq<Vertex>, k: int, c: int)
    requires forall j :: 0 <= j < |vs| ==> vs[j].color == Red
    requires 0 <= k < |vs| && 0 <= c < 4
    ensures PackColors(vs)[4 * k + c] == if c == 0 || c == 3 then 255 else 0
  {
    RedBytes();
    ColorsAt(vs, k, c);
  }

  /** Builds the mesh from the first count vertices: the count, then for each
      vertex its three position components and its four colour bytes. */
  method PackMesh(vertices: array<Vertex>, count: int) returns (mesh: Mesh)
    requires 0 <= count <= vertices.Length
    requires forall k :: 0 <= k < count ==> ColorInRange(vertices[k].color)
    ensures fresh(mesh.vertices) && fresh(mesh.colors)
    ensures mesh.vertexCount == count
    ensures mesh.vertices[..] == FlattenPositions(vertices[..count])
    ensures mesh.colors[..] == PackColors(vertices[..count])
  {
    var positions := new real[count * 3];
    var colors := new byte[count * 4];
    for i := 0 to count
      invariant positions[..3 * i] == FlattenPositions(vertices[..i])
      invariant colors[..4 * i] == PackColors(vertices[..i])
    {
      PackVertex(positions, colors, i, vertices[i]);
      assert vertices[..i + 1][..i] == vertices[..i];
    }
    assert positions[..] == positions[..3 * count];
    assert colors[..] == colors[..4 * count];
    mesh := Mesh(count, positions, colors);
  }

  /** Writes vertex v into slot i of both buffers, leaving the slots before it as they were. */
  method PackVertex(positions: array<real>, colors: array<byte>, i: int, v: Vertex)
    requires 0 <= i && 3 * i + 3 <= positions.Length && 4 * i + 4 <= colors.Length
    requires ColorInRange(v.color)
    modifies positions, colors
    ensures positions[..3 * i + 3] == old(positions[..3 * i]) + [v.position.x, v.position.y, v.position.z]
    ensures colors[..4 * i + 4] == old(colors[..4 * i]) + [ColorChannel(v.color.x), ColorChannel(v.color.y), ColorChannel(v.color.z), 255]
    ensures forall k :: 3 * i + 3 <= k < positions.Length ==> positions[k] == old(positions[k])
    ensures forall k :: 4 * i + 4 <= k < colors.Length ==> colors[k] == old(colors[k])
  {
    positions[i * 3 + 0] := v.position.x;
    positions[i * 3 + 1] := v.position.y;
    positions[i * 3 + 2] := v.position.z;
    colors[i * 4 + 0] := ColorChannel(v.color.x);
    colors[i * 4 + 1] := ColorChannel(v.color.y);
    colors[i * 4 + 2] := ColorChannel(v.color.z);
    colors[i * 4 + 3] := 255;
  }
}
