/**
  The square height grid of the terrain: sampling it from coherent noise
  (generate_heightmap) and sinking its border below the water plane
  (apply_edge_fade). The grid is a numpy array in the program and is
  rewritten in place, so it is an `array2<real>` here.
*/
module Heightmap {
  import opened Geometry

  /** Depth by which a border cell is pushed under the water level. */
  const Epsilon: real := 0.05

  /**
    Distance from cell (x, z) of a size × size grid to the nearest edge:
    the least of the four distances to the rows and columns at the border.
  */
  function EdgeDistance(x: int, z: int, size: int): (d: int)
    ensures d <= x && d <= z && d <= size - x - 1 && d <= size - z - 1
    ensures d == x || d == z || d == size - x - 1 || d == size - z - 1
    ensures 0 <= x < size && 0 <= z < size ==> 0 <= d && 2 * d <= size - 1
  {
    MinInt(MinInt(x, z), MinInt(size - x - 1, size - z - 1))
  }

  /** A cell lies on the outermost ring exactly when its edge distance is 0. */
  lemma OnBorderIffDistanceZero(x: int, z: int, size: int)
    requires 0 <= x < size && 0 <= z < size
    ensures EdgeDistance(x, z, size) == 0 <==> (x == 0 || z == 0 || x == size - 1 || z == size - 1)
  {
  }

  /**
    The linear fade factor min(1, distance / margin). For a positive margin it
    lies in [0, 1] and is exactly 1 from the margin inwards.
  */
  function FadeFactor(d: int, fadeMargin: int): (f: real)
    requires fadeMargin != 0
    ensures f <= 1.0
    ensures fadeMargin > 0 && d >= 0 ==> 0.0 <= f
    ensures fadeMargin > 0 && d >= fadeMargin ==> f == 1.0
    ensures fadeMargin > 0 && 0 <= d < fadeMargin ==> f < 1.0
  {
    assert fadeMargin > 0 && d >= fadeMargin ==> d as real / fadeMargin as real >= 1.0 by {
      if fadeMargin > 0 && d >= fadeMargin {
        QuotientAtLeastOne(d as real, fadeMargin as real);
      }
    }
    MinReal(1.0, d as real / fadeMargin as real)
  }

  lemma QuotientAtLeastOne(a: real, b: real)
    requires 0.0 < b <= a
    ensures a / b >= 1.0
  {
    assert a / b * b == a;
  }

  /**
    The height a cell at edge distance d ends with: the original height
    scaled by the fade factor, and, inside the margin, clamped to at most
    waterLevel - 0.05.
  */
  function FadedHeight(h: real, d: int, fadeMargin: int, waterLevel: real): (r: real)
    requires fadeMargin != 0
    ensures d < fadeMargin ==> r <= waterLevel - Epsilon
    ensures fadeMargin > 0 && d >= fadeMargin ==> r == h
    ensures fadeMargin > 0 && d >= 0 && h >= 0.0 ==> r <= h
    ensures fadeMargin > 0 && d >= 0 && h >= 0.0 && h * FadeFactor(d, fadeMargin) <= waterLevel - Epsilon
            ==> r == h * FadeFactor(d, fadeMargin)
  {
    var f := FadeFactor(d, fadeMargin);
    var faded := h * f;
    assert fadeMargin > 0 && d >= 0 && h >= 0.0 ==> faded <= h by {
      if fadeMargin > 0 && d >= 0 && h >= 0.0 {
        ScaleByFraction(h, f);
      }
    }
    if d < fadeMargin then MinReal(faded, waterLevel - Epsilon) else faded
  }

  lemma ScaleByFraction(h: real, f: real)
    requires h >= 0.0 && 0.0 <= f <= 1.0
    ensures h * f <= h
  {
    assert h * f <= h * 1.0;
  }

  /**
    generate_heightmap: one noise sample per cell, taken at (x / noiseScale,
    z / noiseScale). The noise library and the per-cell random octave count
    are parameters: `octaves(x, z)` is the draw for that cell and
    `noise(px, pz, octaves)` the tileable sample for the chosen base.
  */
  method GenerateHeightmap(size: nat, noiseScale: real, octaves: (int, int) -> int,
                           noise: (real, real, int) -> real)
    returns (h: array2<real>)
    requires size == 0 || noiseScale != 0.0
    ensures fresh(h) && h.Length0 == size && h.Length1 == size
    ensures forall x, z :: 0 <= x < size && 0 <= z < size ==>
      h[x, z] == noise(x as real / noiseScale, z as real / noiseScale, octaves(x, z))
  {
    h := new real[size, size];
    for x := 0 to size
      invariant forall i, j :: 0 <= i < x && 0 <= j < size ==>
        h[i, j] == noise(i as real / noiseScale, j as real / noiseScale, octaves(i, j))
    {
      for z := 0 to size
        invariant forall i, j :: 0 <= i < x && 0 <= j < size ==>
          h[i, j] == noise(i as real / noiseScale, j as real / noiseScale, octaves(i, j))
        invariant forall j :: 0 <= j < z ==>
          h[x, j] == noise(x as real / noiseScale, j as real / noiseScale, octaves(x, j))
      {
        h[x, z] := noise(x as real / noiseScale, z as real / noiseScale, octaves(x, z));
      }
    }
  }

  /**
    apply_edge_fade, in place: every cell is multiplied by its fade factor and,
    when it lies within the margin, clamped to waterLevel - 0.05. The grid is
    square (its side is taken from its first dimension).
  */
  method ApplyEdgeFade(h: array2<real>, fadeMargin: int, waterLevel: real)
    requires h.Length0 == h.Length1
    requires h.Length0 == 0 || fadeMargin != 0
    modifies h
    ensures forall x, z :: 0 <= x < h.Length0 && 0 <= z < h.Length1 ==>
      h[x, z] == FadedHeight(old(h[x, z]), EdgeDistance(x, z, h.Length0), fadeMargin, waterLevel)
    ensures forall x, z :: 0 <= x < h.Length0 && 0 <= z < h.Length1 && EdgeDistance(x, z, h.Length0) < fadeMargin ==>
      h[x, z] <= waterLevel - Epsilon
    ensures fadeMargin > 0 ==> forall x, z :: 0 <= x < h.Length0 && 0 <= z < h.Length1 && EdgeDistance(x, z, h.Length0) >= fadeMargin ==>
      h[x, z] == old(h[x, z])
  {
    var size := h.Length0;
    for x := 0 to size
      invariant forall i, j :: 0 <= i < x && 0 <= j < size ==>
        h[i, j] == FadedHeight(old(h[i, j]), EdgeDistance(i, j, size), fadeMargin, waterLevel)
      invariant forall i, j :: x <= i < size && 0 <= j < size ==> h[i, j] == old(h[i, j])
    {
      for z := 0 to size
        invariant forall i, j :: 0 <= i < x && 0 <= j < size ==>
          h[i, j] == FadedHeight(old(h[i, j]), EdgeDistance(i, j, size), fadeMargin, waterLevel)
        invariant forall j :: 0 <= j < z ==>
          h[x, j] == FadedHeight(old(h[x, j]), EdgeDistance(x, j, size), fadeMargin, waterLevel)
        invariant forall j :: z <= j < size ==> h[x, j] == old(h[x, j])
        invariant forall i, j :: x < i < size && 0 <= j < size ==> h[i, j] == old(h[i, j])
      {
        FadeCell(h, x, z, fadeMargin, waterLevel);
      }
    }
  }

  /** The body of the nested loop of apply_edge_fade, for the one cell (x, z). */
  method FadeCell(h: array2<real>, x: int, z: int, fadeMargin: int, waterLevel: real)
    requires 0 <= x < h.Length0 && 0 <= z < h.Length1
    requires fadeMargin != 0
    modifies h
    ensures h[x, z] == FadedHeight(old(h[x, z]), EdgeDistance(x, z, h.Length0), fadeMargin, waterLevel)
    ensures forall i, j :: 0 <= i < h.Length0 && 0 <= j < h.Length1 && (i != x || j != z) ==>
      h[i, j] == old(h[i, j])
  {
    var distanceToEdge := EdgeDistance(x, z, h.Length0);
    var fadeFactor := FadeFactor(distanceToEdge, fadeMargin);
    h[x, z] := h[x, z] * fadeFactor;
    if distanceToEdge < fadeMargin {
      h[x, z] := MinReal(h[x, z], waterLevel - Epsilon);
    }
  }

  /**
    A margin wider than half the grid leaves no interior: every cell sinks
    below the water plane.
  */
  lemma WideMarginSinksEverything(h: real, x: int, z: int, size: int, fadeMargin: int, waterLevel: real)
    requires 0 <= x < size && 0 <= z < size
    requires 2 * fadeMargin >= size
    ensures FadedHeight(h, EdgeDistance(x, z, size), fadeMargin, waterLevel) <= waterLevel - Epsilon
  {
  }
}
