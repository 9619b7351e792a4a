# Terrain Trek procedural terrain, in Dafny

Terrain Trek builds a small game world procedurally. This project models
the part that computes that world: the module `procedural_terrain.py`. It
covers these steps:

- sample a square height grid from coherent noise;
- sink its border under the water plane with a linear edge fade;
- turn the grid into a mesh, with one vertex and one texture coordinate per
  cell and two triangles per unit quad;
- build the water surface as a flat disc fanned around its centre;
- build a second noise field as a tree-density map;
- place trees on the cells whose density lies in a band and whose ground,
  found by a downward ray, is above the water; each tree marks its eight
  neighbours as occupied;
- pick one of three planets' asset sets from a random draw.

Representation:

- Heights and densities are `real`.
- The two numpy grids, which the program rewrites in place, are
  `array2<real>`.
- The appended Python lists are sequences.
- The noise library, the trigonometry of the rim angles, the ray cast and
  the random draws are function or value parameters.

Modules:

- `Geometry`: vectors, texture coordinates, `min`.
- `Heightmap`: `generate_heightmap`, `apply_edge_fade`.
- `TerrainMesh`: `generate_terrain_mesh`.
- `WaterMesh`: `create_circular_water_mesh`.
- `Trees`: `generate_noise_map`, `generate_trees`, `mark_surroundings`.
- `Planet`: `select_planet`.

Properties proved, beyond each operation's own result:

- **Edge fade.** Every border cell ends strictly below the water level, and
  the interior is untouched.
- **Terrain mesh.**
  - Vertex numbering is a bijection between the cells and [0, size²): in range, injective and onto.
  - Every triangle index names a vertex.
  - Every quad's two triangles have the same winding.
- **Water mesh.**
  - The fan's rim is closed.
  - Texture coordinates map back to positions.
  - The rim lies on the circle.
- **Tree placement.**
  - Every tree is sound: its cell was in the band and its ray hit is above
    water, with the matching tier.
  - No two trees are adjacent.
  - The placement is maximal: every skipped cell was out of the band, had no tier, or lies next to a tree placed earlier in the scan.
  - The result is determined: any two results that meet the finished scan's invariant on the same map and surface are equal, so the contract fixes the first-come placement in y-major order.
  - A second pass over the marked map places trees on exactly the same cells, as long as its ray still finds ground above water on the first trees' cells and the same ground elsewhere; it repeats the records only when the ray also hits the same heights there.
- **Band direction.** A higher `tree_percent` only removes candidate cells.
  It does not always remove trees: on a 3 × 3 map, one tree at `tree_percent`
  0 becomes two at 50, because the cell that drops out of the band had
  blocked its two neighbours.

Where the code and its description differ, the model follows the code:

- **`tree_percent`.** The band's lower limit grows with `tree_percent`
  (`procedural_terrain.py:137`). A higher setting therefore narrows the band
  and leaves fewer candidate cells (`Trees.HigherPercentFewerCandidates`).
  The setting's comment in `main.py:124` ("inverse percentage, the closer to
  0 the more trees") holds for candidate cells. It does not hold for trees:
  placement is first come, first served, so the tree count is not monotone
  in `tree_percent` (`Trees.TreeCountNotMonotone`). Nor does the setting act
  as a plain density percentage.
- **`mark_surroundings`.** The comment above it
  (`procedural_terrain.py:171`) says the object's own cell is marked too.
  The offset list (`procedural_terrain.py:173`) leaves out (0, 0), so only
  the eight neighbours are written (`Trees.MarkSurroundings`,
  `Trees.OffsetsAreNeighbourhood`). The tree's own cell keeps its value. The
  y-major scan never visits it again, so this changes no placement.

## Model

| member | source | states |
|---|---|---|
| Geometry.MinReal | procedural_terrain.py:43 | the result is one of the two arguments and at most both |
| Geometry.MinInt | procedural_terrain.py:38 | the result is one of the two arguments and at most both |
| Heightmap.EdgeDistance | procedural_terrain.py:38 | the distance is one of the four distances to the border, no more than any of them, and inside the grid lies in [0, (size-1)/2] |
| Heightmap.OnBorderIffDistanceZero | procedural_terrain.py:38 | a cell has distance 0 exactly when it lies on the outer ring |
| Heightmap.FadeFactor | procedural_terrain.py:39 | the factor is at most 1; for a positive margin it is non-negative, exactly 1 from the margin inwards and below 1 inside the margin |
| Heightmap.FadedHeight | procedural_terrain.py:39-43 | a cell inside the margin ends at or below water_level - 0.05; from the margin inwards it keeps its height; a non-negative height never rises; where the faded height is already below the cap it is the faded height |
| Heightmap.GenerateHeightmap | procedural_terrain.py:23-31 | a fresh size × size grid whose cell (x, z) is the noise sample at (x / noise_scale, z / noise_scale) with that cell's octave draw |
| Heightmap.ApplyEdgeFade | procedural_terrain.py:34-44 | in place, every cell becomes its faded height for its own edge distance; every cell inside the margin is at or below water_level - 0.05; for a positive margin every interior cell is unchanged |
| Heightmap.FadeCell | procedural_terrain.py:38-43 | one loop iteration: the cell becomes its faded height, no other cell changes |
| Heightmap.WideMarginSinksEverything | procedural_terrain.py:34-44 | when twice the margin reaches the side, every cell ends below the water plane |
| TerrainMesh.VertexIndex | procedural_terrain.py:68 | the row-major index of an in-grid cell lies in [0, size²) |
| TerrainMesh.VertexIndexDecode | procedural_terrain.py:62-65 | the vertex index of (x, z) divides back to x with remainder z |
| TerrainMesh.VertexIndexOnto | procedural_terrain.py:62-65 | every index in [0, size²) is the vertex index of the in-grid cell it decodes to |
| TerrainMesh.VertexIndexInjective | procedural_terrain.py:62-65 | two cells with the same vertex index are the same cell |
| TerrainMesh.CellPosition | procedural_terrain.py:64-65 | the vertex stands straight above its cell, its height divided by 15 gives back the sample, and it is above 0 exactly when the sample is |
| TerrainMesh.CellUV | procedural_terrain.py:66 | for a positive texture scale both coordinates of an in-grid cell lie in [0, texture_scale) |
| TerrainMesh.QuadIndex | procedural_terrain.py:67-68 | quads are numbered in [0, (size-1)²) |
| TerrainMesh.QuadTriangles | procedural_terrain.py:68-74 | the six indices are the quad's corners (x,z), (x,z+1), (x+1,z) and (x,z+1), (x+1,z+1), (x+1,z) |
| TerrainMesh.QuadTrianglesInRange | procedural_terrain.py:67-74 | every index a quad emits names a vertex of the grid |
| TerrainMesh.QuadWinding | procedural_terrain.py:69-74 | both triangles of every quad have doubled signed ground-plane area -1, so the surface has one consistent winding |
| TerrainMesh.GenerateTerrainMesh | procedural_terrain.py:58-75 | size² vertices and UVs with cell (x, z) at index x·size+z holding its scaled height and UV; 6·(size-1)² triangle indices, quad (x, z)'s six at position 6·((size-1)·x+z); every index names a vertex |
| TerrainMesh.EmitCell | procedural_terrain.py:63-74 | one loop iteration: the vertex and UV of (x, z) are appended, and the quad's six indices when (x, z) is a quad's lowest corner, keeping the layout of every cell scanned so far |
| TerrainMesh.MeshComplete | procedural_terrain.py:62-74 | once the scan is finished, the lists are exactly the full layout above |
| WaterMesh.RimPoint | procedural_terrain.py:92-96 | every rim vertex is at height 0 |
| WaterMesh.RimOnCircle | procedural_terrain.py:93-95 | when the cosine and sine are on the unit circle, the rim vertex is on the circle of the radius |
| WaterMesh.DiscUV | procedural_terrain.py:103 | the UV maps back to the vertex's ground position, the centre maps to (0.5, 0.5), and the disc's bounding square maps into [0, 1]² |
| WaterMesh.FanTriangle | procedural_terrain.py:98-101 | the triangle is (centre, k, next k), wrapping after the last rim vertex; its corners are distinct exactly when there are at least two rim vertices |
| WaterMesh.RimClosed | procedural_terrain.py:98-101 | every rim vertex starts one fan triangle's rim edge and ends the previous one's |
| WaterMesh.CreateCircularWaterMesh | procedural_terrain.py:89-105 | resolution rim vertices and then the centre, all at height 0; 3·resolution indices, triangle k being the fan triangle k, all naming vertices; one upward normal and one disc UV per vertex |
| Trees.Rescale | procedural_terrain.py:126 | the rescale is inverted by 1.5·r - 0.5 and sends raw values in [-0.5, 1] exactly onto [0, 1] |
| Trees.GenerateNoiseMap | procedural_terrain.py:118-128 | a fresh (size·terrain_scale)-square map whose cell (x, y) is the rescaled sample at (x / terrain_scale, y / terrain_scale) |
| Trees.IsCandidate | procedural_terrain.py:145 | a cell in [lower, 0.75] qualifies; a cell marked occupied never qualifies; a lower limit above 0.75 leaves no candidate |
| Trees.AdjustedLowerLimit | procedural_terrain.py:133-137 | percentage 0 gives 0.375, 100 gives 0.75, and percentages in between stay in [0.375, 0.75] |
| Trees.HigherPercentFewerCandidates | procedural_terrain.py:137-145 | a value in the band at a higher tree_percent is in the band at every lower one |
| Trees.TreeCountNotMonotone | procedural_terrain.py:132-169 | on a 3 × 3 sample map over flat ground, every finished scan holds one tree at tree_percent 0 and two at tree_percent 50 |
| Trees.SurfaceTier | procedural_terrain.py:149-156 | no tree exactly for a miss or a hit at or below water; low exactly for heights in (water, 2], med for (2, 15] above water, top above 15 and above water |
| Trees.OffsetsAreNeighbourhood | procedural_terrain.py:173 | the eight offsets reach exactly the cells adjacent to (x, y), and never (x, y) itself |
| Trees.MarkSurroundings | procedural_terrain.py:172-177 | in place, exactly the in-grid neighbours of (x, y) become 1.0; every other cell, (x, y) included, keeps its value |
| Trees.CoveredAdd | procedural_terrain.py:166-167 | adding a tree covers exactly the cells it is adjacent to, on top of those covered before |
| Trees.GenerateTrees | procedural_terrain.py:132-169 | in place, the map becomes 1.0 exactly on the cells next to a placed tree; trees are in strict scan order at distinct cells; each is in the grid, had a density in the band, stands on its ray hit with that hit's tier; no two are adjacent; every other cell was outside the band, had no tier, or is next to a tree placed earlier in scan order |
| Trees.ScanRow | procedural_terrain.py:144-167 | one row of the scan carries the scan invariant from (0, y) to (0, y+1) |
| Trees.VisitCell | procedural_terrain.py:145-167 | a tree is recorded at (x, y), with its tier and hit height, exactly when the cell's current value is in the band, the hit has a tier and the cell is not yet placed; the scan invariant is kept, so the map stays the starting map with exactly the neighbours of the placed cells at 1.0 |
| Trees.PlacementIsDetermined | procedural_terrain.py:143-167 | two results meeting the finished scan invariant for the same map and surface have the same trees, placed cells and map |
| Trees.OneCellAgrees | procedural_terrain.py:145-158 | two finished scans agreeing on every earlier cell agree on whether a cell holds a tree |
| Trees.AgreeBefore | procedural_terrain.py:143-144 | two finished scans agree on every cell before any point of the scan |
| Trees.PlaceStep | procedural_terrain.py:158-167 | placing a tree at a band cell with a tier, then marking around it, keeps the scan invariant |
| Trees.SkipStep | procedural_terrain.py:145-158 | skipping a cell that is out of band or has no tier keeps the scan invariant |
| Trees.ScanOrderedRecordsUnique | procedural_terrain.py:143-166 | two strictly scan-ordered tree lists over the same cells and the same surface are equal |
| Trees.SecondPassRepeatsFirst | procedural_terrain.py:132-169 | running the placement again over the map the first pass left, with a surface that differs only on the first trees' cells and still has a tier there, finds the same cells and leaves the map unchanged; with the same surface on those cells it finds the same records |
| Trees.GenerateTreesTwice | procedural_terrain.py:132-169 | after two consecutive calls the map is marked exactly around the trees of either call; under the surface condition above the second call places trees on the first call's cells, and with unchanged hits there it returns the same records |
| Planet.SelectPlanet | procedural_terrain.py:12-19 | draws 0, 1 and 2 give Earth, Mars and Venus; any other draw gives nothing |
| Planet.EachPlanetHasOneDraw | procedural_terrain.py:12-19 | with distinct asset sets, each set is returned by exactly one draw in 0..2 |

## Left out

- `calculate_normals` (`procedural_terrain.py:47-55`): cross products and normalisation need square roots and floating point. The terrain model returns vertices, triangles and UVs, without normals.
- Floating point: heights, densities and coordinates are exact reals. There is no rounding, overflow, NaN or infinity.
- `noise` and `random`: the Perlin noise samples, the random `base`, the per-cell octave draw, the choice of tree model within a tier and its yaw are parameters or left out. `GenerateHeightmap` takes the octave draw per cell as a function, and `SelectPlanet` takes the draw as an argument.
- Trigonometry of the rim angles: `cos` and `sin` at angle 2πi / resolution are the parameter `unitCircle`.
- Trees.GenerateTrees: the ray cast is the fixed function `surfaceY` of the cell. The colliders of trees placed earlier in the same pass, which a real ray could hit, are not modelled. The tree entity's model, scale, collider and rotation are not built; a tree is recorded by its cell, its tier and its hit height. The surface position offset of the terrain entity is folded into `surfaceY`.
- Trees.GenerateTrees: `tree_type` is taken as truthy whenever a tier is chosen. An empty asset dictionary, which Python treats as false and which would skip the placement, is not modelled.
- Trees.GenerateTreesTwice / Trees.SecondPassRepeatsFirst: each tree the program places is an entity with a box collider standing on the ray's hit point (`procedural_terrain.py:159-165`), and a later call's ray ignores only the water (`procedural_terrain.py:147`). A second call therefore hits the first call's trees, and records other heights and possibly other tiers there. The model takes the second call's surface as a separate parameter. It promises the same cells only when that surface has a tier on the first trees' cells and is unchanged elsewhere, and the same records only when the hits on those cells are unchanged too. It does not model that the program, whose placed set is local to each call (`procedural_terrain.py:139`), builds a second entity on every such cell.
- TerrainMesh.GenerateTerrainMesh: requires a grid of at least size × size. `generate_terrain_mesh` takes `size` apart from the grid and raises an index error at `procedural_terrain.py:64` when the grid is smaller; that error path is not modelled.
- Trees.VisitCell: places a tree whenever a tier is chosen. `random.choice` on an empty tier list (`procedural_terrain.py:152`, `:154`, `:156`) raises an index error in the program; the model assumes every tier's list is non-empty.
- Heightmap.ApplyEdgeFade and Trees.GenerateTrees: the grid is required to be square. The source reads its side from the first dimension only, so a non-square grid either raises an index error or is partly ignored.
- Heightmap.ApplyEdgeFade: the fade margin is an integer, as the program passes it (`main.py:119`); a zero margin with a non-empty grid is excluded because the source divides by it. Heightmap.GenerateHeightmap and WaterMesh.CreateCircularWaterMesh likewise exclude a zero `noise_scale` and a zero `radius`, on which the source raises.
- Engine objects: `Mesh`, `Entity`, `create_terrain_entity`, `create_water`, `custom_sky` and everything else in `procedural_terrain.py` that only constructs engine entities is not part of this model; nor are `main.py`, `custom_shaders.py` and `program_settings.py`.
