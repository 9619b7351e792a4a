/**
  create_circular_water_mesh: the flat disc drawn as the water surface. It is
  a fan of `resolution` triangles around a centre vertex, every vertex facing
  straight up. The cosine and sine of the rim angles are a parameter:
  `unitCircle(t)` stands for (cos 2πt, sin 2πt) at the fraction t of a full
  turn.
*/
module WaterMesh {
  import opened Geometry

  /** A renderable mesh: vertex positions, a flat triangle index list, one normal and one UV per vertex. */
  datatype Mesh = Mesh(vertices: seq<Vec3>, triangles: seq<int>, normals: seq<Vec3>, uvs: seq<UV>)

  /** The centre of the disc. */
  const Centre := Vec3(0.0, 0.0, 0.0)

  /** Rim vertex i: the point at angle 2πi / resolution on the circle of the given radius, at height 0. */
  function RimPoint(i: int, resolution: nat, radius: real, unitCircle: real -> (real, real)): (p: Vec3)
    requires resolution > 0
    ensures p.y == 0.0
  {
    var (c, s) := unitCircle(i as real / resolution as real);
    Vec3(c * radius, 0.0, s * radius)
  }

  /** When unitCircle does return points of the unit circle, every rim vertex lies on the circle of the given radius. */
  lemma {:induction false} RimOnCircle(i: int, resolution: nat, radius: real, unitCircle: real -> (real, real))
    requires resolution > 0
    requires var (c, s) := unitCircle(i as real / resolution as real); c * c + s * s == 1.0
    ensures var p := RimPoint(i, resolution, radius, unitCircle); p.x * p.x + p.z * p.z == radius * radius
  {
    var (c, s) := unitCircle(i as real / resolution as real);
    assert (c * radius) * (c * radius) + (s * radius) * (s * radius) == (c * c + s * s) * (radius * radius);
  }

  /**
    The texture coordinate of a disc vertex: its ground coordinates divided by
    the diameter and shifted by one half. It can be mapped back to the
    vertex's ground position, sends the centre to (0.5, 0.5) and sends the
    square circumscribing the disc onto [0, 1] × [0, 1].
  */
  function DiscUV(p: Vec3, radius: real): (r: UV)
    requires radius != 0.0
    ensures (r.u - 0.5) * 2.0 * radius == p.x && (r.v - 0.5) * 2.0 * radius == p.z
    ensures p.x == 0.0 && p.z == 0.0 ==> r == UV(0.5, 0.5)
    ensures radius > 0.0 && -radius <= p.x <= radius && -radius <= p.z <= radius ==>
      0.0 <= r.u <= 1.0 && 0.0 <= r.v <= 1.0
  {
    UnitScale(p.x, radius);
    UnitScale(p.z, radius);
    UV(p.x / radius / 2.0 + 0.5, p.z / radius / 2.0 + 0.5)
  }

  lemma UnitScale(a: real, radius: real)
    requires radius != 0.0
    ensures (a / radius / 2.0 + 0.5 - 0.5) * 2.0 * radius == a
    ensures radius > 0.0 && -radius <= a <= radius ==> 0.0 <= a / radius / 2.0 + 0.5 <= 1.0
  {
    var q := a / radius;
    assert q * radius == a;
    assert (q / 2.0 + 0.5 - 0.5) * 2.0 == q;
    if radius > 0.0 && -radius <= a <= radius {
      ProductBounds(q, radius);
    }
  }

  lemma ProductBounds(q: real, r: real)
    requires r > 0.0
    ensures q > 1.0 ==> q * r > r
    ensures q < -1.0 ==> q * r < -r
  {
  }

  /**
    Fan triangle k: the centre (index `resolution`), rim vertex k and the next
    rim vertex, wrapping from the last rim vertex back to the first. The three
    corners are distinct exactly when there are at least two rim vertices.
  */
  function FanTriangle(k: int, resolution: nat): (t: seq<int>)
    requires 0 <= k < resolution
    ensures |t| == 3 && t[0] == resolution && t[1] == k
    ensures t[2] == if k + 1 < resolution then k + 1 else 0
    ensures (t[0] != t[1] && t[1] != t[2] && t[0] != t[2]) <==> resolution >= 2
  {
    [resolution, k, (k + 1) % resolution]
  }

  /**
    The rim is closed: every rim vertex j starts the rim edge of fan triangle j
    and ends the rim edge of the triangle before it (cyclically).
  */
  lemma {:induction false} RimClosed(j: int, resolution: nat)
    requires 0 <= j < resolution
    ensures FanTriangle(j, resolution)[1] == j
    ensures FanTriangle((j + resolution - 1) % resolution, resolution)[2] == j
  {
    var k := (j + resolution - 1) % resolution;
    if j == 0 {
      assert k == resolution - 1;
    } else {
      assert k == j - 1;
    }
  }

  /**
    Builds the water disc: `resolution` rim vertices in order, then the
    centre; one fan triangle per rim vertex; the upward normal everywhere; and
    each vertex's disc texture coordinate.
  */
  method CreateCircularWaterMesh(radius: real, resolution: nat, unitCircle: real -> (real, real))
    returns (m: Mesh)
    requires radius != 0.0
    ensures |m.vertices| == resolution + 1
    ensures forall i :: 0 <= i < resolution ==> m.vertices[i] == RimPoint(i, resolution, radius, unitCircle)
    ensures m.vertices[resolution] == Centre
    ensures forall i :: 0 <= i < |m.vertices| ==> m.vertices[i].y == 0.0
    ensures |m.triangles| == 3 * resolution
    ensures forall k :: 0 <= k < resolution ==> m.triangles[3 * k .. 3 * k + 3] == FanTriangle(k, resolution)
    ensures forall e :: 0 <= e < |m.triangles| ==> 0 <= m.triangles[e] < |m.vertices|
    ensures |m.normals| == |m.vertices| && forall i :: 0 <= i < |m.normals| ==> m.normals[i] == Up
    ensures |m.uvs| == |m.vertices| && forall i :: 0 <= i < |m.uvs| ==> m.uvs[i] == DiscUV(m.vertices[i], radius)
  {
    var vertices: seq<Vec3> := [];
    var triangles: seq<int> := [];
    for i := 0 to resolution
      invariant |vertices| == i
      invariant forall j :: 0 <= j < i ==> vertices[j] == RimPoint(j, resolution, radius, unitCircle)
    {
      var (c, s) := unitCircle(i as real / resolution as real);
      vertices := vertices + [Vec3(c * radius, 0.0, s * radius)];
    }
    vertices := vertices + [Centre];
    for i := 0 to resolution
      invariant |triangles| == 3 * i
      invariant forall k :: 0 <= k < i ==> triangles[3 * k .. 3 * k + 3] == FanTriangle(k, resolution)
      invariant forall e :: 0 <= e < |triangles| ==> 0 <= triangles[e] <= resolution
    {
      var next := [resolution, i, (i + 1) % resolution];
      AppendKeepsTriples(triangles, next, i);
      triangles := triangles + next;
    }
    var normals := seq(|vertices|, _ => Up);
    var uvs := seq(|vertices|, i requires 0 <= i < |vertices| => DiscUV(vertices[i], radius));
    m := Mesh(vertices, triangles, normals, uvs);
  }

  /** Appending a triple after i triples keeps the first i and makes the new one triple i. */
  lemma AppendKeepsTriples(t: seq<int>, next: seq<int>, i: int)
    requires |t| == 3 * i && |next| == 3
    ensures forall k :: 0 <= k < i ==> (t + next)[3 * k .. 3 * k + 3] == t[3 * k .. 3 * k + 3]
    ensures (t + next)[3 * i .. 3 * i + 3] == next
  {
    forall k | 0 <= k < i
      ensures (t + next)[3 * k .. 3 * k + 3] == t[3 * k .. 3 * k + 3]
    {
      assert (t + next)[3 * k] == t[3 * k];
      assert (t + next)[3 * k + 1] == t[3 * k + 1];
      assert (t + next)[3 * k + 2] == t[3 * k + 2];
    }
  }
}
