/**
  Vegetation placement: the density map built from a second noise field
  (generate_noise_map), the banded density test, the surface query and tier
  rule, and the occupancy marking that keeps trees apart (generate_trees,
  mark_surroundings). The density map is a numpy array rewritten in place,
  so it is an `array2<real>` here. The engine's downward ray cast is the
  parameter `surfaceY(x, y)`: the height of the terrain hit under map cell
  (x, y), or None when the ray misses.
*/
module Trees {
  import opened Wrappers

  /** Bounds of the density band in which trees may grow. */
  const LowerTreeLimit: real := 0.375
  const UpperTreeLimit: real := 0.75

  /** The value mark_surroundings writes into an occupied cell. */
  const Occupied: real := 1.0

  /** Upper height of the `low` tier and of the `med` tier. */
  const LowTierCeiling: real := 2.0
  const MedTierCeiling: real := 15.0

  // ---------------------------------------------------------------- density map

  /**
    generate_noise_map's rescale of a raw noise sample, (v + 0.5) / 1.5. It is
    invertible, and sends the raw range [-0.5, 1] exactly onto [0, 1].
  */
  function Rescale(v: real): (r: real)
    ensures v == 1.5 * r - 0.5
    ensures -0.5 <= v <= 1.0 <==> 0.0 <= r <= 1.0
  {
    (v + 0.5) / 1.5
  }

  /**
    generate_noise_map: a (size * terrainScale)-square map whose cell (x, y)
    holds the rescaled noise sample at (x / terrainScale, y / terrainScale).
    The noise library with its random base is the parameter `noise`.
  */
  method GenerateNoiseMap(size: nat, terrainScale: nat, noise: (real, real) -> real)
    returns (noiseMap: array2<real>)
    ensures fresh(noiseMap)
    ensures noiseMap.Length0 == size * terrainScale && noiseMap.Length1 == size * terrainScale
    ensures forall x, y :: 0 <= x < noiseMap.Length0 && 0 <= y < noiseMap.Length1 ==>
      noiseMap[x, y] == Rescale(noise(x as real / terrainScale as real, y as real / terrainScale as real))
  {
    var sizeMap := size * terrainScale;
    noiseMap := new real[sizeMap, sizeMap];
    if terrainScale == 0 {
      return;
    }
    for y := 0 to sizeMap
      invariant forall i, j :: 0 <= i < sizeMap && 0 <= j < y ==>
        noiseMap[i, j] == Rescale(noise(i as real / terrainScale as real, j as real / terrainScale as real))
    {
      for x := 0 to sizeMap
        invariant forall i, j :: 0 <= i < sizeMap && 0 <= j < y ==>
          noiseMap[i, j] == Rescale(noise(i as real / terrainScale as real, j as real / terrainScale as real))
        invariant forall i :: 0 <= i < x ==>
          noiseMap[i, y] == Rescale(noise(i as real / terrainScale as real, y as real / terrainScale as real))
      {
        var noiseValue := noise(x as real / terrainScale as real, y as real / terrainScale as real);
        noiseMap[x, y] := (noiseValue + 0.5) / 1.5;
      }
    }
  }

  // ---------------------------------------------------------------- density band

  /**
    The effective lower density limit, interpolated between the two limits by
    tree_percent: 0 keeps the full band from 0.375, 100 narrows it to 0.75.
  */
  function AdjustedLowerLimit(treePercent: real): (r: real)
    ensures treePercent == 0.0 ==> r == LowerTreeLimit
    ensures treePercent == 100.0 ==> r == UpperTreeLimit
    ensures 0.0 <= treePercent <= 100.0 ==> LowerTreeLimit <= r <= UpperTreeLimit
  {
    LowerTreeLimit + ((UpperTreeLimit - LowerTreeLimit) * treePercent) / 100.0
  }

  /**
    A cell may receive a tree when its density value lies in [lower, 0.75].
    A cell marked occupied never qualifies, and a lower limit above 0.75
    (tree_percent above 100) leaves no candidate at all.
  */
  predicate IsCandidate(value: real, lower: real): (b: bool)
    ensures b ==> value < Occupied
    ensures lower > UpperTreeLimit ==> !b
    ensures lower <= value <= UpperTreeLimit ==> b
  {
    lower <= value <= UpperTreeLimit
  }

  /**
    Raising tree_percent only removes candidate cells: a value that qualifies
    at a higher percentage qualifies at every lower one. The number of trees
    is not monotone in tree_percent (TreeCountNotMonotone): a candidate that
    drops out of the band can free neighbours it would have blocked.
  */
  lemma {:induction false} HigherPercentFewerCandidates(value: real, lowPercent: real, highPercent: real)
    requires lowPercent <= highPercent
    requires IsCandidate(value, AdjustedLowerLimit(highPercent))
    ensures IsCandidate(value, AdjustedLowerLimit(lowPercent))
  {
    assert (UpperTreeLimit - LowerTreeLimit) * lowPercent <= (UpperTreeLimit - LowerTreeLimit) * highPercent;
  }

  // ---------------------------------------------------------------- tiers

  /** The three asset buckets of a planet: trees near the shore, on the slopes, and on the peaks. */
  datatype Tier = Low | Med | Top

  /**
    The skip rule and the tier chain for one surface query: a miss or a hit at
    or below the water level places nothing; otherwise the hit height picks
    `low` up to 2, `med` up to 15 and `top` above.
  */
  function SurfaceTier(hit: Option<real>, waterLevel: real): (t: Option<Tier>)
    ensures t.None? <==> hit.None? || hit.value <= waterLevel
    ensures t == Some(Low) <==> hit.Some? && waterLevel < hit.value <= LowTierCeiling
    ensures t == Some(Med) <==> hit.Some? && waterLevel < hit.value && LowTierCeiling < hit.value <= MedTierCeiling
    ensures t == Some(Top) <==> hit.Some? && waterLevel < hit.value && MedTierCeiling < hit.value
  {
    if hit.Some? && hit.value > waterLevel then
      var y := hit.value;
      if waterLevel < y <= LowTierCeiling then Some(Low)
      else if LowTierCeiling < y <= MedTierCeiling then Some(Med)
      else if y > MedTierCeiling then Some(Top)
      else None
    else
      None
  }

  // ---------------------------------------------------------------- occupancy

  /** A map cell (x, y). */
  type Cell = (int, int)

  predicate InGrid(c: Cell, size: int)
  {
    0 <= c.0 < size && 0 <= c.1 < size
  }

  /** q is one of the eight cells around p (p itself excluded). */
  predicate Adjacent(p: Cell, q: Cell)
  {
    p != q && -1 <= q.0 - p.0 <= 1 && -1 <= q.1 - p.1 <= 1
  }

  /** The eight neighbour offsets mark_surroundings visits, in its order. */
  const Offsets: seq<Cell> := [(-1, -1), (-1, 0), (-1, 1), (0, -1), (0, 1), (1, -1), (1, 0), (1, 1)]

  /** The cell that offset n moves (x, y) onto. */
  function Shifted(x: int, y: int, n: int): Cell
    requires 0 <= n < |Offsets|
  {
    (x + Offsets[n].0, y + Offsets[n].1)
  }

  /** One of the first k offsets moves (x, y) onto c. */
  ghost predicate ReachedBy(x: int, y: int, c: Cell, k: int)
    requires k <= |Offsets|
  {
    k > 0 && (ReachedBy(x, y, c, k - 1) || c == Shifted(x, y, k - 1))
  }

  /** The offset list is exactly the eight-neighbourhood: the centre is not among them. */
  lemma {:induction false} OffsetsAreNeighbourhood(x: int, y: int, c: Cell)
    ensures ReachedBy(x, y, c, |Offsets|) <==> Adjacent((x, y), c)
  {
    assert ReachedBy(x, y, c, 8) <==> ReachedBy(x, y, c, 6) || c == Shifted(x, y, 6) || c == Shifted(x, y, 7);
    assert ReachedBy(x, y, c, 6) <==> ReachedBy(x, y, c, 4) || c == Shifted(x, y, 4) || c == Shifted(x, y, 5);
    assert ReachedBy(x, y, c, 4) <==> ReachedBy(x, y, c, 2) || c == Shifted(x, y, 2) || c == Shifted(x, y, 3);
    assert !ReachedBy(x, y, c, 0);
    assert ReachedBy(x, y, c, 2) <==> c == Shifted(x, y, 0) || c == Shifted(x, y, 1);
  }

  /**
    mark_surroundings: writes the occupied value into every in-bounds
    neighbour of (x, y). The cell (x, y) itself and every other cell keep
    their value.
  */
  method MarkSurroundings(objectsMap: array2<real>, x: int, y: int, size: int)
    requires size <= objectsMap.Length0 && size <= objectsMap.Length1
    modifies objectsMap
    ensures forall i, j :: 0 <= i < objectsMap.Length0 && 0 <= j < objectsMap.Length1 ==>
      objectsMap[i, j] == if InGrid((i, j), size) && Adjacent((x, y), (i, j)) then Occupied else old(objectsMap[i, j])
  {
    for k := 0 to |Offsets|
      invariant forall i, j :: 0 <= i < objectsMap.Length0 && 0 <= j < objectsMap.Length1 ==>
        objectsMap[i, j] == if InGrid((i, j), size) && ReachedBy(x, y, (i, j), k) then Occupied else old(objectsMap[i, j])
    {
      var (dx, dy) := Offsets[k];
      assert (x + dx, y + dy) == Shifted(x, y, k);
      var nx, ny := x + dx, y + dy;
      if 0 <= nx < size && 0 <= ny < size {
        objectsMap[nx, ny] := Occupied;
      }
    }
    forall i, j | 0 <= i < objectsMap.Length0 && 0 <= j < objectsMap.Length1
      ensures objectsMap[i, j] == if InGrid((i, j), size) && Adjacent((x, y), (i, j)) then Occupied else old(objectsMap[i, j])
    {
      OffsetsAreNeighbourhood(x, y, (i, j));
    }
  }

  // ---------------------------------------------------------------- placement

  /** One placed tree: its map cell, its tier and the height of the surface hit it stands on. */
  datatype TreeRecord = TreeRecord(x: int, y: int, tier: Tier, height: real)

  function CellOf(t: TreeRecord): Cell
  {
    (t.x, t.y)
  }

  /** The cells of a list of placed trees. */
  ghost function Cells(trees: seq<TreeRecord>): set<Cell>
  {
    set n | 0 <= n < |trees| :: CellOf(trees[n])
  }

  /** Scan order of generate_trees: row by row in y, and by x within a row. */
  predicate ScanBefore(a: Cell, b: Cell)
  {
    a.1 < b.1 || (a.1 == b.1 && a.0 < b.0)
  }

  /** c lies next to a cell that already holds a tree. */
  ghost predicate Covered(c: Cell, placed: set<Cell>)
  {
    exists p :: p in placed && Adjacent(p, c)
  }

  /**
    c lies next to a tree placed at a cell the scan reached before c: the only
    reason generate_trees skips a cell that would otherwise qualify.
  */
  ghost predicate CoveredEarlier(c: Cell, placed: set<Cell>)
  {
    exists p :: p in placed && Adjacent(p, c) && ScanBefore(p, c)
  }

  lemma CoveredAdd(q: Cell, placed: set<Cell>, c: Cell)
    ensures Covered(q, placed + {c}) <==> Covered(q, placed) || Adjacent(c, q)
  {
    if Covered(q, placed + {c}) {
      var p :| p in placed + {c} && Adjacent(p, q);
      if p != c {
        assert p in placed;
      }
    }
    if Covered(q, placed) {
      var p :| p in placed && Adjacent(p, q);
      assert p in placed + {c};
    }
    if Adjacent(c, q) {
      assert c in placed + {c};
    }
  }

  /** The values of a grid, read off the heap once. */
  ghost function Snapshot(m: array2<real>): (s: seq<seq<real>>)
    reads m
    ensures |s| == m.Length0
    ensures forall i :: 0 <= i < m.Length0 ==> |s[i]| == m.Length1
    ensures forall i, j :: 0 <= i < m.Length0 && 0 <= j < m.Length1 ==> s[i][j] == m[i, j]
  {
    seq(m.Length0, i requires 0 <= i < m.Length0 reads m => seq(m.Length1, j requires 0 <= j < m.Length1 reads m => m[i, j]))
  }

  /**
    generate_trees: scans the map in y-major order. A cell whose density lies
    in the band is queried; a hit above water of some tier places a tree there
    (unless the cell was already placed), records the cell, and marks its
    neighbours occupied. Placed trees are returned in scan order, together
    with the set of placed cells; the map is left marked.
    Afterwards: the map is the original with exactly the neighbours of the
    placed cells occupied; every tree stands on a candidate cell with a hit
    above water and carries that hit's tier and height; no two trees are
    neighbours and no cell holds two; and every cell left without a tree was
    no candidate, had no usable hit, or lies next to a tree.
  */
  method GenerateTrees(waterLevel: real, objectsMap: array2<real>, treePercent: real,
                       surfaceY: (int, int) -> Option<real>)
    returns (trees: seq<TreeRecord>, placedPositions: set<Cell>)
    requires objectsMap.Length0 == objectsMap.Length1
    modifies objectsMap
    ensures forall i, j :: 0 <= i < objectsMap.Length0 && 0 <= j < objectsMap.Length1 ==>
      objectsMap[i, j] == if Covered((i, j), placedPositions) then Occupied else old(objectsMap[i, j])
    ensures placedPositions == Cells(trees) && |trees| == |placedPositions|
    ensures forall a, b :: 0 <= a < b < |trees| ==> ScanBefore(CellOf(trees[a]), CellOf(trees[b]))
    ensures forall n :: 0 <= n < |trees| ==>
      InGrid(CellOf(trees[n]), objectsMap.Length0) &&
      IsCandidate(old(objectsMap[trees[n].x, trees[n].y]), AdjustedLowerLimit(treePercent)) &&
      surfaceY(trees[n].x, trees[n].y) == Some(trees[n].height) &&
      SurfaceTier(Some(trees[n].height), waterLevel) == Some(trees[n].tier)
    ensures forall p, q :: p in placedPositions && q in placedPositions ==> !Adjacent(p, q)
    ensures forall i, j :: 0 <= i < objectsMap.Length0 && 0 <= j < objectsMap.Length1 && (i, j) !in placedPositions ==>
      !IsCandidate(old(objectsMap[i, j]), AdjustedLowerLimit(treePercent)) ||
      SurfaceTier(surfaceY(i, j), waterLevel).None? ||
      CoveredEarlier((i, j), placedPositions)
    ensures ScanInvariant(Snapshot(objectsMap), old(Snapshot(objectsMap)), objectsMap.Length0, trees, placedPositions,
                          waterLevel, AdjustedLowerLimit(treePercent), surfaceY, 0, objectsMap.Length0)
  {
    ghost var m0 := Snapshot(objectsMap);
    var size := objectsMap.Length0;
    var adjustLowerTreeLimit := AdjustedLowerLimit(treePercent);
    trees, placedPositions := [], {};
    for y := 0 to size
      invariant ScanInvariant(Snapshot(objectsMap), m0, size, trees, placedPositions, waterLevel, adjustLowerTreeLimit, surfaceY, 0, y)
    {
      trees, placedPositions := ScanRow(objectsMap, waterLevel, adjustLowerTreeLimit, surfaceY, y, trees, placedPositions, m0);
    }
    ScanComplete(Snapshot(objectsMap), m0, size, trees, placedPositions, waterLevel, adjustLowerTreeLimit, surfaceY);
  }

  /** The inner loop of generate_trees: the cells of row y, in increasing x. */
  method ScanRow(objectsMap: array2<real>, waterLevel: real, adjustLowerTreeLimit: real,
                 surfaceY: (int, int) -> Option<real>, y: int,
                 trees: seq<TreeRecord>, placedPositions: set<Cell>, ghost m0: seq<seq<real>>)
    returns (trees': seq<TreeRecord>, placedPositions': set<Cell>)
    requires objectsMap.Length0 == objectsMap.Length1
    requires 0 <= y < objectsMap.Length0
    requires ScanInvariant(Snapshot(objectsMap), m0, objectsMap.Length0, trees, placedPositions,
                           waterLevel, adjustLowerTreeLimit, surfaceY, 0, y)
    modifies objectsMap
    ensures ScanInvariant(Snapshot(objectsMap), m0, objectsMap.Length0, trees', placedPositions',
                          waterLevel, adjustLowerTreeLimit, surfaceY, 0, y + 1)
  {
    var size := objectsMap.Length0;
    trees', placedPositions' := trees, placedPositions;
    for x := 0 to size
      invariant ScanInvariant(Snapshot(objectsMap), m0, size, trees', placedPositions', waterLevel, adjustLowerTreeLimit, surfaceY, x, y)
    {
      trees', placedPositions' := VisitCell(objectsMap, waterLevel, adjustLowerTreeLimit, surfaceY, x, y, trees', placedPositions', m0);
    }
    RowStep(Snapshot(objectsMap), m0, size, trees', placedPositions', waterLevel, adjustLowerTreeLimit, surfaceY, y);
  }

  /**
    The body of generate_trees's nested loop for cell (x, y): the band test on
    the current map value, the surface query, the tier, the check against the
    placed set, and on success the record, the placed cell and the marking.
    The new map is the one the scan invariant fixes: the starting map with
    exactly the neighbours of the placed cells occupied.
  */
  method VisitCell(objectsMap: array2<real>, waterLevel: real, adjustLowerTreeLimit: real,
                   surfaceY: (int, int) -> Option<real>, x: int, y: int,
                   trees: seq<TreeRecord>, placedPositions: set<Cell>, ghost m0: seq<seq<real>>)
    returns (trees': seq<TreeRecord>, placedPositions': set<Cell>)
    requires objectsMap.Length0 == objectsMap.Length1
    requires 0 <= x < objectsMap.Length0 && 0 <= y < objectsMap.Length0
    requires ScanInvariant(Snapshot(objectsMap), m0, objectsMap.Length0, trees, placedPositions,
                           waterLevel, adjustLowerTreeLimit, surfaceY, x, y)
    modifies objectsMap
    ensures ScanInvariant(Snapshot(objectsMap), m0, objectsMap.Length0, trees', placedPositions',
                          waterLevel, adjustLowerTreeLimit, surfaceY, x + 1, y)
    ensures var placeHere := IsCandidate(old(objectsMap[x, y]), adjustLowerTreeLimit) &&
                             SurfaceTier(surfaceY(x, y), waterLevel).Some? && (x, y) !in placedPositions;
      && trees' == (if placeHere then trees + [TreeRecord(x, y, SurfaceTier(surfaceY(x, y), waterLevel).value, surfaceY(x, y).value)]
                    else trees)
      && placedPositions' == (if placeHere then placedPositions + {(x, y)} else placedPositions)
  {
    var size := objectsMap.Length0;
    ghost var before := Snapshot(objectsMap);
    trees', placedPositions' := trees, placedPositions;
    if adjustLowerTreeLimit <= objectsMap[x, y] <= UpperTreeLimit {
      var hit := surfaceY(x, y);
      if hit.Some? && hit.value > waterLevel {
        var treeType := SurfaceTier(hit, waterLevel);
        if treeType.Some? && (x, y) !in placedPositions {
          trees' := trees + [TreeRecord(x, y, treeType.value, hit.value)];
          placedPositions' := placedPositions + {(x, y)};
          MarkSurroundings(objectsMap, x, y, size);
          PlaceStep(before, Snapshot(objectsMap), m0, size, trees, placedPositions, waterLevel, adjustLowerTreeLimit,
                    surfaceY, x, y, treeType.value, hit.value);
          return;
        }
      }
    }
    SkipStep(before, m0, size, trees, placedPositions, waterLevel, adjustLowerTreeLimit, surfaceY, x, y);
  }

  /** The state of generate_trees's scan just before it visits cell (x, y); `cur` is the map now, `m0` the map it started from. */
  ghost predicate ScanInvariant(cur: seq<seq<real>>, m0: seq<seq<real>>, size: int, trees: seq<TreeRecord>, placed: set<Cell>,
                                waterLevel: real, lower: real, surfaceY: (int, int) -> Option<real>, x: int, y: int)
  {
    && Square(cur, size) && Square(m0, size)
    && MarkedAround(cur, m0, size, placed)
    && Recorded(trees, placed, size, x, y)
    && Sound(trees, m0, size, waterLevel, lower, surfaceY)
    && Spaced(placed)
    && Maximal(m0, size, placed, waterLevel, lower, surfaceY, x, y)
  }

  /** The map is the original one with exactly the neighbours of placed cells occupied. */
  ghost predicate MarkedAround(cur: seq<seq<real>>, m0: seq<seq<real>>, size: int, placed: set<Cell>)
    requires Square(cur, size) && Square(m0, size)
  {
    forall i, j :: 0 <= i < size && 0 <= j < size ==>
      cur[i][j] == if Covered((i, j), placed) then Occupied else m0[i][j]
  }

  /** The placed set is the set of the trees' cells, one tree per cell, in scan order, all scanned before (x, y). */
  ghost predicate Recorded(trees: seq<TreeRecord>, placed: set<Cell>, size: int, x: int, y: int)
  {
    && placed == Cells(trees)
    && |trees| == |placed|
    && (forall a, b :: 0 <= a < b < |trees| ==> ScanBefore(CellOf(trees[a]), CellOf(trees[b])))
    && (forall p :: p in placed ==> InGrid(p, size) && ScanBefore(p, (x, y)))
    && (forall n :: 0 <= n < |trees| ==> InGrid(CellOf(trees[n]), size) && ScanBefore(CellOf(trees[n]), (x, y)))
  }

  /** Every tree stands on a cell that was a candidate, over a hit above water, with that hit's tier and height. */
  ghost predicate Sound(trees: seq<TreeRecord>, m0: seq<seq<real>>, size: int,
                        waterLevel: real, lower: real, surfaceY: (int, int) -> Option<real>)
    requires Square(m0, size)
  {
    forall n :: 0 <= n < |trees| ==>
      InGrid(CellOf(trees[n]), size) &&
      IsCandidate(m0[trees[n].x][trees[n].y], lower) &&
      surfaceY(trees[n].x, trees[n].y) == Some(trees[n].height) &&
      SurfaceTier(Some(trees[n].height), waterLevel) == Some(trees[n].tier)
  }

  /** No two placed cells are neighbours. */
  ghost predicate Spaced(placed: set<Cell>)
  {
    forall p, q :: p in placed && q in placed ==> !Adjacent(p, q)
  }

  /** Every cell scanned before (x, y) and left empty had no reason to receive a tree. */
  ghost predicate Maximal(m0: seq<seq<real>>, size: int, placed: set<Cell>,
                          waterLevel: real, lower: real, surfaceY: (int, int) -> Option<real>, x: int, y: int)
    requires Square(m0, size)
  {
    forall i, j :: 0 <= i < size && 0 <= j < size && ScanBefore((i, j), (x, y)) && (i, j) !in placed ==>
      !IsCandidate(m0[i][j], lower) ||
      SurfaceTier(surfaceY(i, j), waterLevel).None? ||
      CoveredEarlier((i, j), placed)
  }

  ghost predicate Square(g: seq<seq<real>>, size: int)
  {
    |g| == size && forall i :: 0 <= i < size ==> |g[i]| == size
  }

  lemma SkipStep(cur: seq<seq<real>>, m0: seq<seq<real>>, size: int, trees: seq<TreeRecord>, placed: set<Cell>,
                 waterLevel: real, lower: real, surfaceY: (int, int) -> Option<real>, x: int, y: int)
    requires 0 <= x < size && 0 <= y < size
    requires ScanInvariant(cur, m0, size, trees, placed, waterLevel, lower, surfaceY, x, y)
    requires !IsCandidate(cur[x][y], lower) || SurfaceTier(surfaceY(x, y), waterLevel).None? || (x, y) in placed
    ensures ScanInvariant(cur, m0, size, trees, placed, waterLevel, lower, surfaceY, x + 1, y)
  {
    if Covered((x, y), placed) {
      var p :| p in placed && Adjacent(p, (x, y));
      assert ScanBefore(p, (x, y));
    }
  }

  lemma PlaceStep(before: seq<seq<real>>, after: seq<seq<real>>, m0: seq<seq<real>>, size: int,
                  trees: seq<TreeRecord>, placed: set<Cell>,
                  waterLevel: real, lower: real, surfaceY: (int, int) -> Option<real>, x: int, y: int,
                  tier: Tier, height: real)
    requires 0 <= x < size && 0 <= y < size
    requires ScanInvariant(before, m0, size, trees, placed, waterLevel, lower, surfaceY, x, y)
    requires IsCandidate(before[x][y], lower)
    requires surfaceY(x, y) == Some(height) && SurfaceTier(Some(height), waterLevel) == Some(tier)
    requires (x, y) !in placed
    requires Square(after, size)
    requires forall i, j :: 0 <= i < size && 0 <= j < size ==>
      after[i][j] == if InGrid((i, j), size) && Adjacent((x, y), (i, j)) then Occupied else before[i][j]
    ensures ScanInvariant(after, m0, size, trees + [TreeRecord(x, y, tier, height)], placed + {(x, y)},
                          waterLevel, lower, surfaceY, x + 1, y)
  {
    var c := (x, y);
    UnmarkedCandidate(before, m0, size, placed, x, y, lower);
    PlaceKeepsMarks(before, after, m0, size, placed, x, y);
    PlaceKeepsRecord(trees, placed, size, x, y, TreeRecord(x, y, tier, height));
    PlaceKeepsSound(trees, m0, size, waterLevel, lower, surfaceY, TreeRecord(x, y, tier, height));
    PlaceKeepsSpaced(placed, c);
    PlaceKeepsMaximal(m0, size, placed, waterLevel, lower, surfaceY, x, y);
  }

  /** A cell still in the band was never marked: no placed cell is next to it and it keeps its original value. */
  lemma UnmarkedCandidate(cur: seq<seq<real>>, m0: seq<seq<real>>, size: int, placed: set<Cell>, x: int, y: int, lower: real)
    requires 0 <= x < size && 0 <= y < size
    requires Square(cur, size) && Square(m0, size)
    requires MarkedAround(cur, m0, size, placed)
    requires IsCandidate(cur[x][y], lower)
    ensures !Covered((x, y), placed) && cur[x][y] == m0[x][y]
  {
  }

  lemma PlaceKeepsMarks(before: seq<seq<real>>, after: seq<seq<real>>, m0: seq<seq<real>>, size: int, placed: set<Cell>, x: int, y: int)
    requires Square(before, size) && Square(after, size) && Square(m0, size)
    requires MarkedAround(before, m0, size, placed)
    requires forall i, j :: 0 <= i < size && 0 <= j < size ==>
      after[i][j] == if InGrid((i, j), size) && Adjacent((x, y), (i, j)) then Occupied else before[i][j]
    ensures MarkedAround(after, m0, size, placed + {(x, y)})
  {
    forall i, j | 0 <= i < size && 0 <= j < size
      ensures after[i][j] == if Covered((i, j), placed + {(x, y)}) then Occupied else m0[i][j]
    {
      CoveredAdd((i, j), placed, (x, y));
    }
  }

  lemma PlaceKeepsRecord(trees: seq<TreeRecord>, placed: set<Cell>, size: int, x: int, y: int, r: TreeRecord)
    requires 0 <= x < size && 0 <= y < size
    requires Recorded(trees, placed, size, x, y)
    requires CellOf(r) == (x, y) && (x, y) !in placed
    ensures Recorded(trees + [r], placed + {(x, y)}, size, x + 1, y)
  {
    CellsAppend(trees, r);
    PlaceKeepsOrder(trees, placed, size, x, y, r);
    forall p | p in placed + {(x, y)} ensures InGrid(p, size) && ScanBefore(p, (x + 1, y)) {
      if p != (x, y) {
        assert p in placed;
      }
    }
  }

  /** The new tree comes after every earlier one in scan order, and every tree lies in the grid before (x + 1, y). */
  lemma PlaceKeepsOrder(trees: seq<TreeRecord>, placed: set<Cell>, size: int, x: int, y: int, r: TreeRecord)
    requires 0 <= x < size && 0 <= y < size
    requires Recorded(trees, placed, size, x, y)
    requires CellOf(r) == (x, y)
    ensures forall a, b :: 0 <= a < b < |trees + [r]| ==> ScanBefore(CellOf((trees + [r])[a]), CellOf((trees + [r])[b]))
    ensures forall n :: 0 <= n < |trees + [r]| ==>
      InGrid(CellOf((trees + [r])[n]), size) && ScanBefore(CellOf((trees + [r])[n]), (x + 1, y))
  {
    var trees' := trees + [r];
    assert forall n :: 0 <= n < |trees| ==> trees'[n] == trees[n];
    forall a, b | 0 <= a < b < |trees'| ensures ScanBefore(CellOf(trees'[a]), CellOf(trees'[b])) {
      if b == |trees| {
        assert CellOf(trees[a]) in placed;
      }
    }
    forall n | 0 <= n < |trees'| ensures InGrid(CellOf(trees'[n]), size) && ScanBefore(CellOf(trees'[n]), (x + 1, y)) {
      if n < |trees| {
        assert trees'[n] == trees[n];
      }
    }
  }

  /** Appending a tree adds exactly its cell to the cells of a list. */
  lemma CellsAppend(trees: seq<TreeRecord>, r: TreeRecord)
    ensures Cells(trees + [r]) == Cells(trees) + {CellOf(r)}
  {
    var trees' := trees + [r];
    assert CellOf(trees'[|trees|]) == CellOf(r);
    assert forall n :: 0 <= n < |trees| ==> trees'[n] == trees[n];
  }

  lemma PlaceKeepsSound(trees: seq<TreeRecord>, m0: seq<seq<real>>, size: int,
                        waterLevel: real, lower: real, surfaceY: (int, int) -> Option<real>, r: TreeRecord)
    requires Square(m0, size)
    requires Sound(trees, m0, size, waterLevel, lower, surfaceY)
    requires InGrid(CellOf(r), size) && IsCandidate(m0[r.x][r.y], lower)
    requires surfaceY(r.x, r.y) == Some(r.height) && SurfaceTier(Some(r.height), waterLevel) == Some(r.tier)
    ensures Sound(trees + [r], m0, size, waterLevel, lower, surfaceY)
  {
  }

  lemma PlaceKeepsSpaced(placed: set<Cell>, c: Cell)
    requires Spaced(placed) && !Covered(c, placed)
    ensures Spaced(placed + {c})
  {
    forall p | p in placed ensures !Adjacent(p, c) && !Adjacent(c, p) {
    }
  }

  lemma PlaceKeepsMaximal(m0: seq<seq<real>>, size: int, placed: set<Cell>,
                          waterLevel: real, lower: real, surfaceY: (int, int) -> Option<real>, x: int, y: int)
    requires Square(m0, size)
    requires Maximal(m0, size, placed, waterLevel, lower, surfaceY, x, y)
    ensures Maximal(m0, size, placed + {(x, y)}, waterLevel, lower, surfaceY, x + 1, y)
  {
    forall i, j | 0 <= i < size && 0 <= j < size && ScanBefore((i, j), (x + 1, y)) && (i, j) !in placed + {(x, y)}
      ensures !IsCandidate(m0[i][j], lower) || SurfaceTier(surfaceY(i, j), waterLevel).None? || CoveredEarlier((i, j), placed + {(x, y)})
    {
      if CoveredEarlier((i, j), placed) {
        var p :| p in placed && Adjacent(p, (i, j)) && ScanBefore(p, (i, j));
        assert p in placed + {(x, y)};
      }
    }
  }

  lemma RowStep(cur: seq<seq<real>>, m0: seq<seq<real>>, size: int, trees: seq<TreeRecord>, placed: set<Cell>,
                waterLevel: real, lower: real, surfaceY: (int, int) -> Option<real>, y: int)
    requires ScanInvariant(cur, m0, size, trees, placed, waterLevel, lower, surfaceY, size, y)
    ensures ScanInvariant(cur, m0, size, trees, placed, waterLevel, lower, surfaceY, 0, y + 1)
  {
  }

  lemma ScanComplete(cur: seq<seq<real>>, m0: seq<seq<real>>, size: int, trees: seq<TreeRecord>, placed: set<Cell>,
                     waterLevel: real, lower: real, surfaceY: (int, int) -> Option<real>)
    requires ScanInvariant(cur, m0, size, trees, placed, waterLevel, lower, surfaceY, 0, size)
    ensures forall i, j :: 0 <= i < size && 0 <= j < size && (i, j) !in placed ==>
      !IsCandidate(m0[i][j], lower) || SurfaceTier(surfaceY(i, j), waterLevel).None? || CoveredEarlier((i, j), placed)
  {
  }

  // ---------------------------------------------------------------- the result is determined

  /**
    Two finished scans of the same map over the same surface that agree on
    every cell before c also agree on c: a cell the first placed a tree on is
    a candidate with a tier, and no tree the second placed before c is next
    to it, so the second placed one there too.
  */
  lemma {:induction false} OneCellAgrees(cur1: seq<seq<real>>, cur2: seq<seq<real>>, m0: seq<seq<real>>, size: int,
                                         t1: seq<TreeRecord>, p1: set<Cell>, t2: seq<TreeRecord>, p2: set<Cell>,
                                         waterLevel: real, lower: real, surfaceY: (int, int) -> Option<real>, c: Cell)
    requires ScanInvariant(cur1, m0, size, t1, p1, waterLevel, lower, surfaceY, 0, size)
    requires ScanInvariant(cur2, m0, size, t2, p2, waterLevel, lower, surfaceY, 0, size)
    requires InGrid(c, size) && c in p1
    requires forall q :: InGrid(q, size) && ScanBefore(q, c) ==> (q in p1 <==> q in p2)
    ensures c in p2
  {
    var n :| 0 <= n < |t1| && CellOf(t1[n]) == c;
    assert IsCandidate(m0[c.0][c.1], lower);
    assert SurfaceTier(surfaceY(c.0, c.1), waterLevel).Some?;
    forall q | q in p2 && ScanBefore(q, c) ensures !Adjacent(q, c) {
      assert q in p1;
    }
    assert ScanBefore(c, (0, size));
  }

  /** The finished scans agree on every cell the scan reaches before (x, y). */
  lemma {:induction false} AgreeBefore(cur1: seq<seq<real>>, cur2: seq<seq<real>>, m0: seq<seq<real>>, size: int,
                                       t1: seq<TreeRecord>, p1: set<Cell>, t2: seq<TreeRecord>, p2: set<Cell>,
                                       waterLevel: real, lower: real, surfaceY: (int, int) -> Option<real>, x: int, y: int)
    requires ScanInvariant(cur1, m0, size, t1, p1, waterLevel, lower, surfaceY, 0, size)
    requires ScanInvariant(cur2, m0, size, t2, p2, waterLevel, lower, surfaceY, 0, size)
    requires 0 <= x <= size && 0 <= y < size
    ensures forall q :: InGrid(q, size) && ScanBefore(q, (x, y)) ==> (q in p1 <==> q in p2)
    decreases y, x
  {
    if x == 0 {
      if y > 0 {
        AgreeBefore(cur1, cur2, m0, size, t1, p1, t2, p2, waterLevel, lower, surfaceY, size, y - 1);
      }
    } else {
      AgreeBefore(cur1, cur2, m0, size, t1, p1, t2, p2, waterLevel, lower, surfaceY, x - 1, y);
      var c := (x - 1, y);
      if c in p1 {
        OneCellAgrees(cur1, cur2, m0, size, t1, p1, t2, p2, waterLevel, lower, surfaceY, c);
      }
      if c in p2 {
        OneCellAgrees(cur2, cur1, m0, size, t2, p2, t1, p1, waterLevel, lower, surfaceY, c);
      }
    }
  }

  /**
    The outcome of generate_trees is fully determined by the map and the
    surface: any two results satisfying its finished scan invariant place
    the same trees and leave the same map.
  */
  lemma {:induction false} PlacementIsDetermined(cur1: seq<seq<real>>, cur2: seq<seq<real>>, m0: seq<seq<real>>, size: int,
                                                 t1: seq<TreeRecord>, p1: set<Cell>, t2: seq<TreeRecord>, p2: set<Cell>,
                                                 waterLevel: real, lower: real, surfaceY: (int, int) -> Option<real>)
    requires ScanInvariant(cur1, m0, size, t1, p1, waterLevel, lower, surfaceY, 0, size)
    requires ScanInvariant(cur2, m0, size, t2, p2, waterLevel, lower, surfaceY, 0, size)
    ensures p1 == p2 && t1 == t2 && cur1 == cur2
  {
    if size > 0 {
      AgreeBefore(cur1, cur2, m0, size, t1, p1, t2, p2, waterLevel, lower, surfaceY, size, size - 1);
      assert forall q :: InGrid(q, size) ==> ScanBefore(q, (size, size - 1));
    }
    assert p1 == p2;
    ScanOrderedRecordsUnique(t1, t2, waterLevel, surfaceY);
    forall i | 0 <= i < size ensures cur1[i] == cur2[i] {
      assert forall j :: 0 <= j < size ==> cur1[i][j] == cur2[i][j];
    }
  }

  // ---------------------------------------------------------------- a second pass

  lemma CellsEmpty(trees: seq<TreeRecord>)
    ensures Cells(trees) == {} <==> |trees| == 0
  {
    if |trees| > 0 {
      assert CellOf(trees[0]) in Cells(trees);
    }
  }

  /**
    Two lists of trees in strict scan order, over the same cells, whose
    records are read off the same surface, are the same list.
  */
  lemma {:induction false} ScanOrderedRecordsUnique(t1: seq<TreeRecord>, t2: seq<TreeRecord>,
                                                    waterLevel: real, surfaceY: (int, int) -> Option<real>)
    requires forall a, b :: 0 <= a < b < |t1| ==> ScanBefore(CellOf(t1[a]), CellOf(t1[b]))
    requires forall a, b :: 0 <= a < b < |t2| ==> ScanBefore(CellOf(t2[a]), CellOf(t2[b]))
    requires Cells(t1) == Cells(t2)
    requires forall n :: 0 <= n < |t1| ==>
      surfaceY(t1[n].x, t1[n].y) == Some(t1[n].height) && SurfaceTier(Some(t1[n].height), waterLevel) == Some(t1[n].tier)
    requires forall n :: 0 <= n < |t2| ==>
      surfaceY(t2[n].x, t2[n].y) == Some(t2[n].height) && SurfaceTier(Some(t2[n].height), waterLevel) == Some(t2[n].tier)
    ensures t1 == t2
    decreases |t1| + |t2|
  {
    CellsEmpty(t1);
    CellsEmpty(t2);
    if |t1| > 0 && |t2| > 0 {
      var c1, c2 := CellOf(t1[0]), CellOf(t2[0]);
      // Each first cell occurs in the other list, never before that list's first cell.
      assert c1 in Cells(t2);
      var k :| 0 <= k < |t2| && CellOf(t2[k]) == c1;
      assert c2 in Cells(t1);
      var m :| 0 <= m < |t1| && CellOf(t1[m]) == c2;
      assert k == 0 || ScanBefore(c2, c1);
      assert m == 0 || ScanBefore(c1, c2);
      assert c1 == c2;
      assert t1[0] == t2[0];
      var r1, r2 := t1[1..], t2[1..];
      assert Cells(r1) == Cells(t1) - {c1} by {
        forall n | 0 <= n < |r1| ensures CellOf(r1[n]) != c1 {
          assert ScanBefore(c1, CellOf(t1[n + 1]));
        }
        assert forall n :: 0 <= n < |r1| ==> r1[n] == t1[n + 1];
        forall c | c in Cells(t1) && c != c1 ensures c in Cells(r1) {
          var n :| 0 <= n < |t1| && CellOf(t1[n]) == c;
          assert CellOf(r1[n - 1]) == c;
        }
      }
      assert Cells(r2) == Cells(t2) - {c2} by {
        forall n | 0 <= n < |r2| ensures CellOf(r2[n]) != c2 {
          assert ScanBefore(c2, CellOf(t2[n + 1]));
        }
        assert forall n :: 0 <= n < |r2| ==> r2[n] == t2[n + 1];
        forall c | c in Cells(t2) && c != c2 ensures c in Cells(r2) {
          var n :| 0 <= n < |t2| && CellOf(t2[n]) == c;
          assert CellOf(r2[n - 1]) == c;
        }
      }
      ScanOrderedRecordsUnique(r1, r2, waterLevel, surfaceY);
      assert t1 == [t1[0]] + r1 && t2 == [t2[0]] + r2;
    }
  }

  /**
    Running the placement a second time over the map the first pass left
    behind, with a surface query `surfaceY2` that may differ from the first
    one only on the cells that received a tree, and still finds ground above
    water there (as the trees' own colliders do), places trees on exactly the
    same cells and leaves the map as it was: those cells are still
    candidates, and every other cell that could have qualified is now
    marked. When the query also answers the same on those cells, the records
    are the same.
  */
  lemma {:induction false} SecondPassRepeatsFirst(s0: seq<seq<real>>, s1: seq<seq<real>>, s2: seq<seq<real>>, size: int,
                                                  t1: seq<TreeRecord>, p1: set<Cell>, t2: seq<TreeRecord>, p2: set<Cell>,
                                                  waterLevel: real, lower: real,
                                                  surfaceY1: (int, int) -> Option<real>, surfaceY2: (int, int) -> Option<real>)
    requires ScanInvariant(s1, s0, size, t1, p1, waterLevel, lower, surfaceY1, 0, size)
    requires ScanInvariant(s2, s1, size, t2, p2, waterLevel, lower, surfaceY2, 0, size)
    requires forall i, j :: InGrid((i, j), size) && (i, j) !in p1 ==> surfaceY2(i, j) == surfaceY1(i, j)
    requires forall c :: c in p1 ==> SurfaceTier(surfaceY2(c.0, c.1), waterLevel).Some?
    ensures p2 == p1 && s2 == s1
    ensures (forall c :: c in p1 ==> surfaceY2(c.0, c.1) == surfaceY1(c.0, c.1)) ==> t2 == t1
  {
    forall c | c in p2 ensures c in p1 {
      var n :| 0 <= n < |t2| && CellOf(t2[n]) == c;
      assert IsCandidate(s1[c.0][c.1], lower);
      assert !Covered(c, p1);
      assert c !in p1 ==> surfaceY2(c.0, c.1) == surfaceY1(c.0, c.1);
    }
    forall c | c in p1 ensures c in p2 {
      var n :| 0 <= n < |t1| && CellOf(t1[n]) == c;
      assert !Covered(c, p1);
      assert s1[c.0][c.1] == s0[c.0][c.1];
      forall p | p in p2 ensures !Adjacent(p, c) {
        assert p in p1;
      }
    }
    assert p2 == p1;
    if forall c :: c in p1 ==> surfaceY2(c.0, c.1) == surfaceY1(c.0, c.1) {
      forall n | 0 <= n < |t2| ensures surfaceY1(t2[n].x, t2[n].y) == Some(t2[n].height) {
        assert CellOf(t2[n]) in p2;
      }
      ScanOrderedRecordsUnique(t1, t2, waterLevel, surfaceY1);
    }
    forall i | 0 <= i < size ensures s2[i] == s1[i] {
      assert forall j :: 0 <= j < size ==> s2[i][j] == s1[i][j];
    }
  }

  /**
    Calling generate_trees twice on the same map. The map ends marked around
    the trees of both calls. When the second call's surface query agrees with
    the first off the first trees' cells and still finds ground above water
    on them, the second call places trees on the same cells; when it agrees
    on those cells too, it repeats the first call's records.
  */
  method GenerateTreesTwice(waterLevel: real, objectsMap: array2<real>, treePercent: real,
                            surfaceY1: (int, int) -> Option<real>, surfaceY2: (int, int) -> Option<real>)
    returns (first: seq<TreeRecord>, second: seq<TreeRecord>)
    requires objectsMap.Length0 == objectsMap.Length1
    modifies objectsMap
    ensures forall i, j :: 0 <= i < objectsMap.Length0 && 0 <= j < objectsMap.Length1 ==>
      objectsMap[i, j] == if Covered((i, j), Cells(first)) || Covered((i, j), Cells(second)) then Occupied else old(objectsMap[i, j])
    ensures (forall i, j :: InGrid((i, j), objectsMap.Length0) && (i, j) !in Cells(first) ==> surfaceY2(i, j) == surfaceY1(i, j)) &&
            (forall c :: c in Cells(first) ==> SurfaceTier(surfaceY2(c.0, c.1), waterLevel).Some?) ==>
      Cells(second) == Cells(first) &&
      ((forall c :: c in Cells(first) ==> surfaceY2(c.0, c.1) == surfaceY1(c.0, c.1)) ==> second == first)
  {
    ghost var s0 := Snapshot(objectsMap);
    var p1, p2;
    first, p1 := GenerateTrees(waterLevel, objectsMap, treePercent, surfaceY1);
    ghost var s1 := Snapshot(objectsMap);
    second, p2 := GenerateTrees(waterLevel, objectsMap, treePercent, surfaceY2);
    if (forall i, j :: InGrid((i, j), objectsMap.Length0) && (i, j) !in p1 ==> surfaceY2(i, j) == surfaceY1(i, j)) &&
       (forall c :: c in p1 ==> SurfaceTier(surfaceY2(c.0, c.1), waterLevel).Some?) {
      SecondPassRepeatsFirst(s0, s1, Snapshot(objectsMap), objectsMap.Length0, first, p1, second, p2,
                             waterLevel, AdjustedLowerLimit(treePercent), surfaceY1, surfaceY2);
    }
  }

  // ---------------------------------------------------------------- the tree count is not monotone

  /** A 3 × 3 density map, indexed [x][y]: 0.5 at (1, 0), 0.7 at (0, 1) and (2, 1), 0 elsewhere. */
  const SampleMap: seq<seq<real>> := [[0.0, 0.7, 0.0], [0.5, 0.0, 0.0], [0.0, 0.7, 0.0]]

  /** A surface whose ray hits ground at height 1 under every cell. */
  function FlatGround(x: int, y: int): Option<real>
  {
    Some(1.0)
  }

  /** The scan of SampleMap at tree_percent 0: one tree at (1, 0), and the map it leaves. */
  const OneTree: seq<TreeRecord> := [TreeRecord(1, 0, Low, 1.0)]
  const OneTreeMap: seq<seq<real>> := [[1.0, 1.0, 0.0], [0.5, 1.0, 0.0], [1.0, 1.0, 0.0]]

  /** The scan of SampleMap at tree_percent 50: trees at (0, 1) and (2, 1), and the map they leave. */
  const TwoTrees: seq<TreeRecord> := [TreeRecord(0, 1, Low, 1.0), TreeRecord(2, 1, Low, 1.0)]
  const TwoTreesMap: seq<seq<real>> := [[1.0, 0.7, 1.0], [1.0, 1.0, 1.0], [1.0, 0.7, 1.0]]

  lemma CoveredByOne(c: Cell, a: Cell)
    ensures Covered(c, {a}) <==> Adjacent(a, c)
    ensures CoveredEarlier(c, {a}) <==> Adjacent(a, c) && ScanBefore(a, c)
  {
  }

  lemma CoveredByTwo(c: Cell, a: Cell, b: Cell)
    ensures Covered(c, {a, b}) <==> Adjacent(a, c) || Adjacent(b, c)
    ensures CoveredEarlier(c, {a, b}) <==> (Adjacent(a, c) && ScanBefore(a, c)) || (Adjacent(b, c) && ScanBefore(b, c))
  {
  }

  lemma OneTreeCells()
    ensures Cells(OneTree) == {(1, 0)}
  {
    assert CellOf(OneTree[0]) == (1, 0);
  }

  lemma TwoTreesCells()
    ensures Cells(TwoTrees) == {(0, 1), (2, 1)}
  {
    assert CellOf(TwoTrees[0]) == (0, 1) && CellOf(TwoTrees[1]) == (2, 1);
  }

  lemma OneTreeScan()
    ensures ScanInvariant(OneTreeMap, SampleMap, 3, OneTree, {(1, 0)}, 0.0, AdjustedLowerLimit(0.0), FlatGround, 0, 3)
  {
    OneTreeCells();
    forall i, j | 0 <= i < 3 && 0 <= j < 3
      ensures OneTreeMap[i][j] == if Covered((i, j), {(1, 0)}) then Occupied else SampleMap[i][j]
      ensures ScanBefore((i, j), (0, 3)) && (i, j) !in {(1, 0)} ==>
        !IsCandidate(SampleMap[i][j], AdjustedLowerLimit(0.0)) || CoveredEarlier((i, j), {(1, 0)})
    {
      CoveredByOne((i, j), (1, 0));
    }
  }

  lemma TwoTreesMarked()
    ensures Square(TwoTreesMap, 3) && Square(SampleMap, 3)
    ensures MarkedAround(TwoTreesMap, SampleMap, 3, {(0, 1), (2, 1)})
  {
    forall i, j | 0 <= i < 3 && 0 <= j < 3
      ensures TwoTreesMap[i][j] == if Covered((i, j), {(0, 1), (2, 1)}) then Occupied else SampleMap[i][j]
    {
      CoveredByTwo((i, j), (0, 1), (2, 1));
    }
  }

  lemma TwoTreesMaximal()
    ensures Square(SampleMap, 3)
    ensures Maximal(SampleMap, 3, {(0, 1), (2, 1)}, 0.0, AdjustedLowerLimit(50.0), FlatGround, 0, 3)
  {
    assert AdjustedLowerLimit(50.0) == 0.5625;
    forall i, j | 0 <= i < 3 && 0 <= j < 3 && (i, j) !in {(0, 1), (2, 1)}
      ensures !IsCandidate(SampleMap[i][j], AdjustedLowerLimit(50.0))
    {
    }
  }

  lemma TwoTreesRecorded()
    ensures Square(SampleMap, 3)
    ensures Recorded(TwoTrees, {(0, 1), (2, 1)}, 3, 0, 3)
    ensures Sound(TwoTrees, SampleMap, 3, 0.0, AdjustedLowerLimit(50.0), FlatGround)
    ensures Spaced({(0, 1), (2, 1)})
  {
    TwoTreesCells();
    assert AdjustedLowerLimit(50.0) == 0.5625;
  }

  lemma TwoTreesScan()
    ensures ScanInvariant(TwoTreesMap, SampleMap, 3, TwoTrees, {(0, 1), (2, 1)}, 0.0, AdjustedLowerLimit(50.0), FlatGround, 0, 3)
  {
    TwoTreesRecorded();
    TwoTreesMarked();
    TwoTreesMaximal();
  }

  /**
    Raising tree_percent removes candidates, yet can give more trees: on
    SampleMap over flat ground and water level 0, every finished scan at
    tree_percent 0 holds one tree, at (1, 0), which blocks both cells of
    density 0.7; every finished scan at tree_percent 50 leaves (1, 0) out of
    the band and holds two trees, at (0, 1) and (2, 1).
  */
  lemma {:induction false} TreeCountNotMonotone(cur0: seq<seq<real>>, t0: seq<TreeRecord>, p0: set<Cell>,
                                                cur50: seq<seq<real>>, t50: seq<TreeRecord>, p50: set<Cell>)
    requires ScanInvariant(cur0, SampleMap, 3, t0, p0, 0.0, AdjustedLowerLimit(0.0), FlatGround, 0, 3)
    requires ScanInvariant(cur50, SampleMap, 3, t50, p50, 0.0, AdjustedLowerLimit(50.0), FlatGround, 0, 3)
    ensures t0 == OneTree && |t0| == 1
    ensures t50 == TwoTrees && |t50| == 2
  {
    OneTreeScan();
    PlacementIsDetermined(cur0, OneTreeMap, SampleMap, 3, t0, p0, OneTree, {(1, 0)},
                          0.0, AdjustedLowerLimit(0.0), FlatGround);
    TwoTreesScan();
    PlacementIsDetermined(cur50, TwoTreesMap, SampleMap, 3, t50, p50, TwoTrees, {(0, 1), (2, 1)},
                          0.0, AdjustedLowerLimit(50.0), FlatGround);
  }
}
