/**
  generate_terrain_mesh: the vertex, texture-coordinate and triangle lists of
  the terrain. One vertex per grid cell, laid out row-major (cell (x, z) is
  vertex x * size + z), and two triangles per unit quad with a fixed
  diagonal. Normals (calculate_normals) are not part of this model.
*/
module TerrainMesh {
  import opened Geometry

  /** Vertical scale applied to every height sample. */
  const HeightScale: real := 15.0

  /** Position of cell (x, z) in a row-major layout whose rows hold `width` cells. */
  function VertexIndex(x: int, z: int, width: int): (i: int)
    ensures 0 <= x < width && 0 <= z < width ==> 0 <= i < width * width
    ensures 0 <= x && 0 <= z && 0 <= width ==> 0 <= i
  {
    assert 0 <= x < width && 0 <= z < width ==> x * width <= (width - 1) * width;
    x * width + z
  }

  /**
    Row-major numbering decodes back: the index of (x, z) divides to x with
    remainder z. With VertexIndexOnto this makes the numbering a bijection
    between the cells of a width × width grid and [0, width * width).
  */
  lemma {:induction false} VertexIndexDecode(x: int, z: int, width: int)
    requires 0 <= x && 0 <= z < width
    ensures VertexIndex(x, z, width) / width == x
    ensures VertexIndex(x, z, width) % width == z
  {
    var k := x * width + z;
    var q, r := k / width, k % width;
    assert (q - x) * width == z - r;
    MultipleBounds(q - x, width);
  }

  lemma MultipleBounds(m: int, w: int)
    requires w > 0
    ensures m >= 1 ==> m * w >= w
    ensures m <= -1 ==> m * w <= -w
  {
  }

  /** Every index in [0, width * width) is the vertex index of exactly the in-grid cell it decodes to. */
  lemma {:induction false} VertexIndexOnto(i: int, width: int)
    requires width > 0 && 0 <= i < width * width
    ensures 0 <= i / width < width && 0 <= i % width < width
    ensures VertexIndex(i / width, i % width, width) == i
  {
    var q, r := i / width, i % width;
    assert q * width + r == i;
    MultipleBounds(q - width, width);
    MultipleBounds(q, width);
  }

  /** Cells (x, z) and (x', z') share a vertex index only when they are the same cell. */
  lemma VertexIndexInjective(x: int, z: int, x': int, z': int, width: int)
    requires 0 <= x && 0 <= z < width && 0 <= x' && 0 <= z' < width
    requires VertexIndex(x, z, width) == VertexIndex(x', z', width)
    ensures x == x' && z == z'
  {
    VertexIndexDecode(x, z, width);
    VertexIndexDecode(x', z', width);
  }

  /**
    The world position emitted for cell (x, z): straight above the cell on the
    ground plane, at its height sample scaled by 15, from which the sample
    can be read back. Land above sea level stays above it.
  */
  function CellPosition(h: array2<real>, x: int, z: int): (p: Vec3)
    reads h
    requires 0 <= x < h.Length0 && 0 <= z < h.Length1
    ensures p.x == x as real && p.z == z as real
    ensures p.y / HeightScale == h[x, z]
    ensures h[x, z] > 0.0 <==> p.y > 0.0
  {
    Vec3(x as real, h[x, z] * HeightScale, z as real)
  }

  /**
    The texture coordinate of cell (x, z): its grid coordinates divided by the
    side and scaled by the texture repeat. For a positive repeat both
    coordinates fall in [0, textureScale).
  */
  function CellUV(x: int, z: int, size: int, textureScale: real): (r: UV)
    requires size > 0
    ensures 0 <= x < size && 0 <= z < size && textureScale > 0.0 ==>
      0.0 <= r.u < textureScale && 0.0 <= r.v < textureScale
  {
    var u := x as real / size as real;
    var v := z as real / size as real;
    assert 0 <= x < size && 0 <= z < size && textureScale > 0.0 ==>
      0.0 <= u * textureScale < textureScale && 0.0 <= v * textureScale < textureScale by {
      if 0 <= x < size && 0 <= z < size && textureScale > 0.0 {
        UnitFractionScaled(x, size, textureScale);
        UnitFractionScaled(z, size, textureScale);
      }
    }
    UV(u * textureScale, v * textureScale)
  }

  lemma UnitFractionScaled(a: int, n: int, s: real)
    requires 0 <= a < n && s > 0.0
    ensures 0.0 <= a as real / n as real * s < s
  {
    var f := a as real / n as real;
    assert f * n as real == a as real;
    assert 0.0 <= f < 1.0;
    assert f * s < 1.0 * s;
  }

  /** Number of unit quads, hence of triangle pairs, in a size × size grid. */
  function QuadCount(size: nat): (n: nat)
  {
    if size == 0 then 0 else (size - 1) * (size - 1)
  }

  /** Quads are numbered row-major over the (size - 1) × (size - 1) grid of quads. */
  function QuadIndex(x: int, z: int, size: int): (q: int)
    ensures 0 <= x < size - 1 && 0 <= z < size - 1 ==> 0 <= q < QuadCount(size)
  {
    VertexIndex(x, z, size - 1)
  }

  /**
    The six indices emitted for the quad whose lowest corner is cell (x, z):
    the triangles (i, i+1, i+size) and (i+1, i+size+1, i+size) with
    i = x * size + z. Together they use exactly the quad's four corners.
  */
  function QuadTriangles(x: int, z: int, size: int): (t: seq<int>)
    ensures |t| == 6
    ensures t[0] == VertexIndex(x, z, size) && t[1] == VertexIndex(x, z + 1, size) && t[2] == VertexIndex(x + 1, z, size)
    ensures t[3] == VertexIndex(x, z + 1, size) && t[4] == VertexIndex(x + 1, z + 1, size) && t[5] == VertexIndex(x + 1, z, size)
  {
    var i := x * size + z;
    [i, i + 1, i + size, i + 1, i + size + 1, i + size]
  }

  /** Every index of a quad's triangles names a vertex of the size × size grid. */
  lemma {:induction false} QuadTrianglesInRange(x: int, z: int, size: int)
    requires 0 <= x < size - 1 && 0 <= z < size - 1
    ensures forall j :: 0 <= j < 6 ==> 0 <= QuadTriangles(x, z, size)[j] < size * size
  {
    assert VertexIndex(x + 1, z + 1, size) < size * size;
  }

  /** Quads fully emitted when the scan of generate_terrain_mesh is about to visit cell (x, z). */
  ghost function QuadsBefore(x: int, z: int, size: nat): int
  {
    if size <= 1 then 0
    else if x >= size - 1 then (size - 1) * (size - 1)
    else x * (size - 1) + MinInt(z, size - 1)
  }

  /** Signed doubled area of the triangle p1 p2 p3 projected on the ground plane (x, z). */
  function Orientation(p1: (int, int), p2: (int, int), p3: (int, int)): int
  {
    (p2.0 - p1.0) * (p3.1 - p1.1) - (p2.1 - p1.1) * (p3.0 - p1.0)
  }

  /** The grid cell that vertex i of a size × size layout stands for. */
  function DecodeVertex(i: int, size: int): (int, int)
    requires size > 0
  {
    (i / size, i % size)
  }

  /**
    The fixed diagonal gives both triangles of every quad the same winding:
    seen from above, each has doubled signed area -1 over the grid, so the whole
    surface is wound consistently.
  */
  lemma {:induction false} QuadWinding(x: int, z: int, size: int)
    requires 0 <= x < size - 1 && 0 <= z < size - 1
    ensures var t := QuadTriangles(x, z, size);
      Orientation(DecodeVertex(t[0], size), DecodeVertex(t[1], size), DecodeVertex(t[2], size)) == -1 &&
      Orientation(DecodeVertex(t[3], size), DecodeVertex(t[4], size), DecodeVertex(t[5], size)) == -1
  {
    VertexIndexDecode(x, z, size);
    VertexIndexDecode(x, z + 1, size);
    VertexIndexDecode(x + 1, z, size);
    VertexIndexDecode(x + 1, z + 1, size);
  }

  /** The vertices and texture coordinates of every cell scanned before (x, z) are in place. */
  ghost predicate VerticesBefore(vertices: seq<Vec3>, uvs: seq<UV>, h: array2<real>, size: nat, textureScale: real, x: int, z: int)
    reads h
    requires size <= h.Length0 && size <= h.Length1
  {
    |vertices| == |uvs| == VertexIndex(x, z, size) &&
    forall a, b :: 0 <= a < size && 0 <= b < size && (a < x || (a == x && b < z)) ==>
      0 <= VertexIndex(a, b, size) < |vertices| &&
      vertices[VertexIndex(a, b, size)] == CellPosition(h, a, b) &&
      uvs[VertexIndex(a, b, size)] == CellUV(a, b, size, textureScale)
  }

  /** The six indices of every quad scanned before (x, z) are in place, and every index is a vertex. */
  ghost predicate TrianglesBefore(triangles: seq<int>, size: nat, x: int, z: int)
  {
    |triangles| == 6 * QuadsBefore(x, z, size) &&
    (forall k :: 0 <= k < |triangles| ==> 0 <= triangles[k] < size * size) &&
    forall a, b, j :: 0 <= a < size - 1 && 0 <= b < size - 1 && (a < x || (a == x && b < z)) && 0 <= j < 6 ==>
      0 <= EntryIndex(a, b, j, size) < |triangles| &&
      triangles[EntryIndex(a, b, j, size)] == QuadTriangles(a, b, size)[j]
  }

  /** Position in the flat triangle list of entry j of quad (x, z)'s six indices. */
  ghost function EntryIndex(x: int, z: int, j: int, size: int): int
  {
    6 * QuadIndex(x, z, size) + j
  }

  /**
    generate_terrain_mesh without the normals: scans the cells row by row,
    appending one vertex and one texture coordinate per cell and, for every
    cell that is the lowest corner of a quad, that quad's six indices.
  */
  method GenerateTerrainMesh(size: nat, h: array2<real>, textureScale: real)
    returns (vertices: seq<Vec3>, triangles: seq<int>, uvs: seq<UV>)
    requires size <= h.Length0 && size <= h.Length1
    ensures |vertices| == size * size && |uvs| == size * size
    ensures forall x, z :: 0 <= x < size && 0 <= z < size ==>
      vertices[VertexIndex(x, z, size)] == CellPosition(h, x, z) &&
      uvs[VertexIndex(x, z, size)] == CellUV(x, z, size, textureScale)
    ensures |triangles| == 6 * QuadCount(size)
    ensures forall x, z :: 0 <= x < size - 1 && 0 <= z < size - 1 ==>
      triangles[6 * QuadIndex(x, z, size) .. 6 * QuadIndex(x, z, size) + 6] == QuadTriangles(x, z, size)
    ensures forall k :: 0 <= k < |triangles| ==> 0 <= triangles[k] < |vertices|
  {
    vertices, triangles, uvs := [], [], [];
    for x := 0 to size
      invariant VerticesBefore(vertices, uvs, h, size, textureScale, x, 0)
      invariant TrianglesBefore(triangles, size, x, 0)
    {
      for z := 0 to size
        invariant VerticesBefore(vertices, uvs, h, size, textureScale, x, z)
        invariant TrianglesBefore(triangles, size, x, z)
      {
        vertices, triangles, uvs := EmitCell(vertices, triangles, uvs, h, size, textureScale, x, z);
      }
      VerticesNextRow(vertices, uvs, h, size, textureScale, x);
      TrianglesNextRow(triangles, size, x);
    }
    MeshComplete(vertices, triangles, uvs, h, size, textureScale);
  }

  /**
    The body of generate_terrain_mesh's nested loop for cell (x, z): one
    vertex and one texture coordinate, and the quad's six indices when (x, z)
    is a quad's lowest corner.
  */
  method EmitCell(vertices: seq<Vec3>, triangles: seq<int>, uvs: seq<UV>, h: array2<real>, size: nat, textureScale: real,
                  x: int, z: int)
    returns (vertices': seq<Vec3>, triangles': seq<int>, uvs': seq<UV>)
    requires size <= h.Length0 && size <= h.Length1
    requires 0 <= x < size && 0 <= z < size
    requires VerticesBefore(vertices, uvs, h, size, textureScale, x, z)
    requires TrianglesBefore(triangles, size, x, z)
    ensures VerticesBefore(vertices', uvs', h, size, textureScale, x, z + 1)
    ensures TrianglesBefore(triangles', size, x, z + 1)
  {
    VerticesStep(vertices, uvs, h, size, textureScale, x, z);
    TrianglesStep(triangles, size, x, z);
    var y := h[x, z] * HeightScale;
    vertices' := vertices + [Vec3(x as real, y, z as real)];
    uvs' := uvs + [UV(x as real / size as real * textureScale, z as real / size as real * textureScale)];
    triangles' := triangles;
    if x < size - 1 && z < size - 1 {
      var i := x * size + z;
      assert [i, i + 1, i + size, i + 1, i + size + 1, i + size] == QuadTriangles(x, z, size);
      triangles' := triangles + [i, i + 1, i + size, i + 1, i + size + 1, i + size];
    }
  }

  lemma VerticesStep(vertices: seq<Vec3>, uvs: seq<UV>, h: array2<real>, size: nat, textureScale: real, x: int, z: int)
    requires size <= h.Length0 && size <= h.Length1
    requires 0 <= x < size && 0 <= z < size
    requires VerticesBefore(vertices, uvs, h, size, textureScale, x, z)
    ensures VerticesBefore(vertices + [CellPosition(h, x, z)], uvs + [CellUV(x, z, size, textureScale)],
                           h, size, textureScale, x, z + 1)
  {
  }

  lemma VerticesNextRow(vertices: seq<Vec3>, uvs: seq<UV>, h: array2<real>, size: nat, textureScale: real, x: int)
    requires size <= h.Length0 && size <= h.Length1
    requires 0 <= x < size
    requires VerticesBefore(vertices, uvs, h, size, textureScale, x, size)
    ensures VerticesBefore(vertices, uvs, h, size, textureScale, x + 1, 0)
  {
    assert VertexIndex(x, size, size) == VertexIndex(x + 1, 0, size);
  }

  lemma TrianglesStep(triangles: seq<int>, size: nat, x: int, z: int)
    requires 0 <= x < size && 0 <= z < size
    requires TrianglesBefore(triangles, size, x, z)
    ensures TrianglesBefore(if x < size - 1 && z < size - 1 then triangles + QuadTriangles(x, z, size) else triangles,
                            size, x, z + 1)
  {
    if x < size - 1 && z < size - 1 {
      QuadTrianglesInRange(x, z, size);
      var t := triangles + QuadTriangles(x, z, size);
      assert QuadsBefore(x, z, size) == QuadIndex(x, z, size);
      assert QuadsBefore(x, z + 1, size) == QuadIndex(x, z, size) + 1;
      assert forall k :: |triangles| <= k < |t| ==> t[k] == QuadTriangles(x, z, size)[k - |triangles|];
    } else {
      assert QuadsBefore(x, z + 1, size) == QuadsBefore(x, z, size);
    }
  }

  lemma TrianglesNextRow(triangles: seq<int>, size: nat, x: int)
    requires 0 <= x < size
    requires TrianglesBefore(triangles, size, x, size)
    ensures TrianglesBefore(triangles, size, x + 1, 0)
  {
    assert QuadsBefore(x, size, size) == QuadsBefore(x + 1, 0, size);
  }

  /** Once every cell has been scanned, the lists have the layout generate_terrain_mesh promises. */
  lemma MeshComplete(vertices: seq<Vec3>, triangles: seq<int>, uvs: seq<UV>, h: array2<real>, size: nat, textureScale: real)
    requires size <= h.Length0 && size <= h.Length1
    requires VerticesBefore(vertices, uvs, h, size, textureScale, size, 0)
    requires TrianglesBefore(triangles, size, size, 0)
    ensures |vertices| == size * size && |uvs| == size * size
    ensures forall x, z :: 0 <= x < size && 0 <= z < size ==>
      vertices[VertexIndex(x, z, size)] == CellPosition(h, x, z) &&
      uvs[VertexIndex(x, z, size)] == CellUV(x, z, size, textureScale)
    ensures |triangles| == 6 * QuadCount(size)
    ensures forall x, z :: 0 <= x < size - 1 && 0 <= z < size - 1 ==>
      triangles[6 * QuadIndex(x, z, size) .. 6 * QuadIndex(x, z, size) + 6] == QuadTriangles(x, z, size)
    ensures forall k :: 0 <= k < |triangles| ==> 0 <= triangles[k] < |vertices|
  {
    forall x, z | 0 <= x < size - 1 && 0 <= z < size - 1
      ensures triangles[6 * QuadIndex(x, z, size) .. 6 * QuadIndex(x, z, size) + 6] == QuadTriangles(x, z, size)
    {
      assert forall j :: 0 <= j < 6 ==> triangles[EntryIndex(x, z, j, size)] == QuadTriangles(x, z, size)[j];
    }
  }
}
