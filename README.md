# Voronoi hive and distant exit filters of mapgen, modelled in Dafny

This project models two filters of the mapgen map-generation pipeline. Both
work on a map whose tiles are stored row-major, so the cell (x, y) is at
index `y * width + x`.

- **VoronoiHive** draws `n_seeds` distinct seed points (64 by default). A
  repeated draw is rejected. Every cell is assigned to its nearest seed, and
  ties go to the lowest seed index. The filter then carves to Floor every
  interior cell that has fewer than two orthogonal neighbours in another
  region.
- **DistantExit** scans a distance field in row-major order. It keeps the
  first cell holding the greatest reached distance, and sets the exit point
  to that cell.

Files:

- `grid.dfy` (module `Grid`): tiles, points and the `Map<D>` value. Also
  the index convention and its round-trip lemmas.
- `voronoi.dfy` (module `Voronoi`): seed generation, membership, carving
  and the whole filter.
- `distant_exit.dfy` (module `DistantExit`): the argmax scan, the index to
  point conversion, and the unit-test scenario.

Both filters clone their input and change only some fields, so a map is a
datatype value. Each filter is a method that returns a new map. The loops
of the source are kept as loops with invariants. The cloned tiles and the
membership vector are fresh local arrays, filled in place as the source
fills its vectors. The `(seed, distance)` table is a local sequence. It is
overwritten for every cell and then sorted.

Modelling choices:

- The random source is a sequence of draws. Each draw is the pair of dice
  rolls `(vx, vy)` of one turn of the seed loop, with `1 <= vx <= width - 1`
  and `1 <= vy <= height - 1`. The model also returns how many draws were
  consumed.
- The seed loop ends only once enough distinct points have been drawn. So
  the model requires the draws to hold at least `n_seeds` distinct points.
  `Voronoi.SeedCountBound` shows, from `Voronoi.DrawablePointBound`, that
  this requirement implies `n_seeds <= (width - 1) * (height - 1)`.
- The floating-point Euclidean distance is replaced by the integer squared
  distance. The square root is monotone, so this gives the same nearest seed.
- `Voronoi.New` builds a hive with `DefaultSeedCount` (64) seeds, as `new`
  does (src/filter/voronoi.rs:38-43). `Voronoi.DocExample` uses it.
- The standard library's stable `sort_by` is modelled by a stable insertion
  sort, `Voronoi.SortByDistance`. A stable sort's output is fully determined
  by its input, so any stable sort gives the same result.
- The distance field of DistantExit is an input: one `Distance` per cell,
  either `Unreached` or `Reached(steps)`. `Unreached` stands for the
  `f32::MAX` sentinel.

Two details of the code:

- `roll_dice(1, width - 1)` is assumed to be inclusive, so seeds are drawn
  from `[1, width - 1] x [1, height - 1]`. A seed can then lie on the right
  or bottom border, but never on the left or top one.
- Nearest-seed selection is a stable sort followed by taking the head. It
  picks the same seed as a scan that keeps the first nearest one.

Members without a row: `Voronoi.New` only builds the constant hive of 64
seeds, and `Voronoi.DocExample` uses it. `Grid.Idx` and `Grid.CellOf` are
the index encoding and decoding; their rows are the round-trip lemmas
`Grid.CellOfIdx` and `Grid.IdxOfCell`. `Voronoi.SortByDistance` and
`Voronoi.InsertByDistance` are the stable sort; their rows are
`Voronoi.SortByDistancePermutes`, `Voronoi.SortByDistanceOrdered` and
`Voronoi.SortHeadIsFirstNearest`. `DistantExit.FixtureRow`,
`DistantExit.TestTiles` and `DistantExit.TestField` only build the unit
test's tiles and distance field; the row that states something about them
is `DistantExit.TestFieldIsStepField`.

## Model

| member | source | states |
|---|---|---|
| `Grid.IdxInBounds` | src/filter/voronoi.rs:68-79 | a cell inside the grid has its index `y * width + x` inside the tile array |
| `Grid.CellOfIdx` | src/filter/voronoi.rs:52-53 | decoding the index of an in-range cell with `% width` and `/ width` gives the cell back |
| `Grid.IdxOfCell` | src/filter/distant_exit.rs:46-47 | an index below `width * height` decodes to a cell with `x < width` and `y < height`, and re-encoding that cell gives back the index |
| `Voronoi.GenerateSeeds` | src/filter/voronoi.rs:93-106 | returns exactly `n_seeds` pairwise-distinct points, each in the draw range. They are the distinct draws in order of first occurrence. The loop stops at the first draw that completes the count, and the number of draws consumed is returned |
| `Voronoi.DedupElements` | src/filter/voronoi.rs:100-102 | keeping only the draws not already held yields distinct points, and every drawn point is held |
| `Voronoi.DedupLength` | src/filter/voronoi.rs:96-103 | the number of seeds held after a prefix of draws equals the number of distinct points in that prefix |
| `Voronoi.DrawsRemain` | src/filter/voronoi.rs:96-98 | while fewer distinct points have been drawn than the source holds, another draw is available, so the loop never runs out of draws |
| `Voronoi.DrawableAreaFacts` | src/filter/voronoi.rs:97-98 | the drawable points are exactly those with `1 <= x <= width - 1` and `1 <= y <= height - 1`, and there are `(width - 1) * (height - 1)` of them |
| `Voronoi.DrawablePointBound` | src/filter/voronoi.rs:96-99 | no set of drawable points exceeds `(width - 1) * (height - 1)`, so the seed loop can only finish when `n_seeds` is at most that |
| `Voronoi.SeedCountBound` | src/filter/voronoi.rs:94-99 | draws that meet `Voronoi.GenerateSeeds`' requirements exist only when `n_seeds <= (width - 1) * (height - 1)` |
| `Voronoi.SquaredDistance` | src/filter/voronoi.rs:56 | the distance that stands for `distance_to`: it is zero exactly when the two points coincide |
| `Voronoi.SortByDistancePermutes` | src/filter/voronoi.rs:60 | sorting the `(seed, distance)` table permutes it and keeps its length |
| `Voronoi.SortByDistanceOrdered` | src/filter/voronoi.rs:60 | the sorted table is in nondecreasing distance order |
| `Voronoi.FirstNearest` | src/filter/voronoi.rs:60-62 | reference definition of the first entry of least distance: no entry is nearer, and every earlier entry is strictly farther |
| `Voronoi.SortHeadIsFirstNearest` | src/filter/voronoi.rs:60-62 | since the sort is stable, the head of the sorted table is the first entry of least distance in the unsorted table |
| `Voronoi.NearestSeedUnique` | src/filter/voronoi.rs:55-62 | at most one seed is nearest with ties going to the lowest index, so membership is determined |
| `Voronoi.ComputeMembership` | src/filter/voronoi.rs:49-63 | yields one entry per cell. The entry for cell `i` is a valid seed index that is nearest to `(i % width, i / width)`, and every lower seed index is strictly farther |
| `Voronoi.DifferentNeighbours` | src/filter/voronoi.rs:67-81 | the count of the four orthogonal neighbours whose membership differs from the cell's own, at most 4 |
| `Voronoi.CarveTiles` | src/filter/voronoi.rs:65-87 | border-ring cells keep their tile. An interior cell becomes Floor when fewer than 2 of its 4 orthogonal neighbours have a different membership, and otherwise keeps its tile |
| `Voronoi.Build` | src/filter/voronoi.rs:45-90 | the whole filter. Only the tiles change, so width, height, starting point, exit point and data are copied. The seeds are distinct and there are `n_seeds` of them. The draws consumed stop at the first one that completes the count. Membership is nearest-seed with the lowest index on ties. Border cells are kept, and interior cells follow the carving rule. No Floor becomes Wall: a tile either stays or goes from Wall to Floor |
| `Voronoi.DocExample` | src/filter/voronoi.rs:7-12 | an 80 x 50 map run through a default hive comes out 80 x 50 |
| `DistantExit.Build` | src/filter/distant_exit.rs:34-50 | only the exit point changes, and it is always set and inside the grid. If no cell is reached in a positive number of steps, it is `(0, 0)`. Otherwise its cell holds a positive reached distance that no reached cell exceeds, and no earlier cell holds the same distance |
| `DistantExit.FarthestUnique` | src/filter/distant_exit.rs:40-44 | the strict comparison leaves exactly one candidate cell, the earliest farthest one |
| `DistantExit.TestFieldIsStepField` | src/filter/distant_exit.rs:66-73 | the distance field written out for the test is a step-count field of the fixture from (9, 2): the start has 0 steps, every other reached cell is Floor and has an orthogonal neighbour one step nearer, reached neighbours differ by at most one step, and every Floor neighbour of a reached cell is reached |
| `DistantExit.TestExit` | src/filter/distant_exit.rs:64-80 | on the 10 x 4 fixture started at (9, 2), the exit is (1, 2) |

## Left out

- The random number generator and its `roll_dice` are not modelled. Draws are an input sequence whose values are assumed to lie in the dice range.
- A hive with no seeds is excluded: `Voronoi.Build` requires at least one seed. With zero seeds the source would index an empty distance table and panic, and `new` always sets 64.
- The distance is not computed in floating point. Rounding in `f32` could make two different true distances compare equal, which would change a tie-break. The integer squared distance never does.
- `partial_cmp().unwrap()` is not modelled. It cannot fail, because distances are never NaN.
- The sort's algorithm is not modelled: only its output is, which is the same for every stable sort.
- The distance-field engine (`DijkstraMap`) is not part of this model, and neither is the starting point it reads. `DistantExit.Build` takes the field as an input with one entry per cell.
- The field in `DistantExit.TestExit` is written out by hand as the breadth-first step counts from (9, 2). Nothing computes it. `DistantExit.TestFieldIsStepField` checks it cell by cell against the fixture's tiles. That check assumes DijkstraMap moves between orthogonal neighbours through Floor cells only.
- DistantExit ignores its random source, so the model of it takes none.
- `Map::from_string`, rendering, the builder, the other filters and the example drivers are not part of this model. `DistantExit.FixtureRow` models only the `#`-is-Wall rule of the fixture format.
- Trait-object dispatch (`MapFilter`, `Box`) and `PhantomData` carry no behaviour. Each filter is a plain method.
- The `i32` cast of the seed index is not modelled. Seed indices are below `n_seeds` and fit.
- `Point::distance_to` and the `Map` and `Tile` definitions are not part of this model. Their meaning is taken from how the filters use them: `xy_idx(x, y)` is `y * width + x`, and `set_tile` writes that index.
