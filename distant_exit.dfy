/** The DistantExit filter: place the exit on the cell farthest from the
    starting point, as measured by a step-count distance field. */
module DistantExit {
  import opened Grid

  /** One entry of the distance field: the cell was not reached from the
      starting point, or was reached in the given number of steps. */
  datatype Distance = Unreached | Reached(steps: nat)

  /** Some cell was reached in a positive number of steps. */
  ghost predicate AnyReachedBeyondStart(dist: seq<Distance>)
  {
    exists j :: 0 <= j < |dist| && dist[j].Reached? && dist[j].steps > 0
  }

  /** Cell k holds the greatest reached distance, that distance is positive,
      and no earlier cell holds the same distance. */
  ghost predicate IsFarthest(dist: seq<Distance>, k: nat)
  {
    && k < |dist|
    && dist[k].Reached? && dist[k].steps > 0
    && (forall j :: 0 <= j < |dist| && dist[j].Reached? ==> dist[j].steps <= dist[k].steps)
    && (forall j :: 0 <= j < k ==> dist[j] != dist[k])
  }

  /** The earliest-occurrence tie-break leaves exactly one farthest cell. */
  lemma FarthestUnique(dist: seq<Distance>, a: nat, b: nat)
    requires IsFarthest(dist, a) && IsFarthest(dist, b)
    ensures a == b
  {
  }

  /** The row-major scan with strict comparison, then the conversion of the
      best index into the exit point.  dist is the distance field of m from
      its starting point, one entry per cell. */
  method Build<D>(m: Map<D>, dist: seq<Distance>) returns (r: Map<D>)
    requires m.Valid() && |dist| == m.width * m.height
    ensures r == m.(exitPoint := r.exitPoint)
    ensures r.exitPoint.Some?
    ensures r.exitPoint.value.x < m.width && r.exitPoint.value.y < m.height
    ensures !AnyReachedBeyondStart(dist) ==> r.exitPoint == Some(Point(0, 0))
    ensures AnyReachedBeyondStart(dist) ==>
      IsFarthest(dist, Idx(m.width, r.exitPoint.value.x, r.exitPoint.value.y))
  {
    var bestIdx: nat := 0;
    var bestValue: nat := 0;
    for i := 0 to |dist|
      invariant bestIdx < |dist|
      invariant bestValue == 0 ==> bestIdx == 0
      invariant bestValue == 0 ==> forall j :: 0 <= j < i && dist[j].Reached? ==> dist[j].steps == 0
      invariant bestValue > 0 ==> bestIdx < i && dist[bestIdx] == Reached(bestValue)
      invariant forall j :: 0 <= j < i && dist[j].Reached? ==> dist[j].steps <= bestValue
      invariant forall j :: 0 <= j < bestIdx ==> dist[j] != Reached(bestValue)
    {
      if dist[i].Reached? && dist[i].steps > bestValue {
        bestValue := dist[i].steps;
        bestIdx := i;
      }
    }
    IdxOfCell(m.width, m.height, bestIdx);
    r := m.(exitPoint := Some(Point(bestIdx % m.width, bestIdx / m.width)));
  }

  /** A fixture row: '#' is a Wall, any other character a Floor. */
  function FixtureRow(s: string): (row: seq<Tile>)
    ensures |row| == |s|
    ensures forall i :: 0 <= i < |s| ==> (row[i] == Wall <==> s[i] == '#')
  {
    seq(|s|, i requires 0 <= i < |s| => if s[i] == '#' then Wall else Floor)
  }

  // ---------------------------------------------------------------------------
  // A step-count field of a map, stated cell by cell.  Cells i and j are
  // orthogonal neighbours when j is i + 1 in the same row or i + width.

  /** Two neighbouring cells: reached distances differ by at most one step,
      and a Floor cell next to a reached cell is reached itself. */
  ghost predicate Linked(tiles: seq<Tile>, dist: seq<Distance>, i: nat, j: nat)
    requires i < |tiles| == |dist| && j < |dist|
  {
    && (dist[i].Reached? && dist[j].Reached? ==>
          dist[i].steps <= dist[j].steps + 1 && dist[j].steps <= dist[i].steps + 1)
    && (dist[i].Reached? && tiles[j] == Floor ==> dist[j].Reached?)
    && (dist[j].Reached? && tiles[i] == Floor ==> dist[i].Reached?)
  }

  /** Some orthogonal neighbour of cell i is reached one step sooner. */
  ghost predicate HasNearerNeighbour(width: nat, dist: seq<Distance>, i: nat)
    requires width > 0 && i < |dist| && dist[i].Reached? && dist[i].steps > 0
  {
    var nearer := Reached(dist[i].steps - 1);
    || (i % width != 0 && dist[i - 1] == nearer)
    || ((i + 1) % width != 0 && i + 1 < |dist| && dist[i + 1] == nearer)
    || (i >= width && dist[i - width] == nearer)
    || (i + width < |dist| && dist[i + width] == nearer)
  }

  /** Cell i of a step-count field from start: start is reached in 0 steps;
      any other reached cell is Floor and has a neighbour one step nearer;
      and the cell is linked to its right and lower neighbours. */
  ghost predicate CellOk(tiles: seq<Tile>, width: nat, start: nat, dist: seq<Distance>, i: nat)
    requires width > 0 && |tiles| == |dist| && i < |dist|
  {
    && (i == start ==> dist[i] == Reached(0))
    && (i != start && dist[i].Reached? ==>
          tiles[i] == Floor && dist[i].steps > 0 && HasNearerNeighbour(width, dist, i))
    && ((i + 1) % width != 0 && i + 1 < |dist| ==> Linked(tiles, dist, i, i + 1))
    && (i + width < |dist| ==> Linked(tiles, dist, i, i + width))
  }

  /** dist is a step-count field from start over the Floor cells, moving
      between orthogonal neighbours: every cell satisfies CellOk.  These are
      the conditions a breadth-first count of steps from start meets. */
  ghost predicate IsStepField(tiles: seq<Tile>, width: nat, start: nat, dist: seq<Distance>)
  {
    && width > 0 && |tiles| == |dist| && start < |dist|
    && forall i :: 0 <= i < |dist| ==> CellOk(tiles, width, start, dist, i)
  }

  /** Cell-by-cell check of the cells from k on. */
  ghost predicate CellsOkFrom(tiles: seq<Tile>, width: nat, start: nat, dist: seq<Distance>, k: nat)
    requires width > 0 && |tiles| == |dist|
    decreases |dist| - k
  {
    k >= |dist| || (CellOk(tiles, width, start, dist, k) && CellsOkFrom(tiles, width, start, dist, k + 1))
  }

  lemma {:induction false} CellsOkFromSound(tiles: seq<Tile>, width: nat, start: nat, dist: seq<Distance>, k: nat)
    requires width > 0 && |tiles| == |dist|
    requires CellsOkFrom(tiles, width, start, dist, k)
    ensures forall i :: k <= i < |dist| ==> CellOk(tiles, width, start, dist, i)
    decreases |dist| - k
  {
    if k < |dist| {
      CellsOkFromSound(tiles, width, start, dist, k + 1);
    }
  }

  /** The unit test's 10 x 4 fixture. */
  function TestTiles(): (tiles: seq<Tile>)
    ensures |tiles| == 40
  {
    FixtureRow("##########") + FixtureRow("#        #")
    + FixtureRow("#  #     #") + FixtureRow("##########")
  }

  /** The step-count field of the fixture from (9, 2), row by row. */
  function TestField(): (dist: seq<Distance>)
    ensures |dist| == 40
  {
    var U := Unreached;
    [U, U, U, U, U, U, U, U, U, U]
    + [U, Reached(9), Reached(8), Reached(7), Reached(6), Reached(5), Reached(4), Reached(3), Reached(2), U]
    + [U, Reached(10), Reached(9), U, Reached(5), Reached(4), Reached(3), Reached(2), Reached(1), Reached(0)]
    + [U, U, U, U, U, U, U, U, U, U]
  }

  /** The fixture's tiles, written out one row at a time. */
  lemma TestTilesSpelled()
    ensures TestTiles() == [Wall, Wall, Wall, Wall, Wall, Wall, Wall, Wall, Wall, Wall]
      + [Wall, Floor, Floor, Floor, Floor, Floor, Floor, Floor, Floor, Wall]
      + [Wall, Floor, Floor, Wall, Floor, Floor, Floor, Floor, Floor, Wall]
      + [Wall, Wall, Wall, Wall, Wall, Wall, Wall, Wall, Wall, Wall]
  {
    assert FixtureRow("##########") == [Wall, Wall, Wall, Wall, Wall, Wall, Wall, Wall, Wall, Wall];
    assert FixtureRow("#        #") == [Wall, Floor, Floor, Floor, Floor, Floor, Floor, Floor, Floor, Wall];
    assert FixtureRow("#  #     #") == [Wall, Floor, Floor, Wall, Floor, Floor, Floor, Floor, Floor, Wall];
    assert FixtureRow("##########") == [Wall, Wall, Wall, Wall, Wall, Wall, Wall, Wall, Wall, Wall];
  }

  /** The fixture's cells from 35 down to 0, checked five at a time. */
  lemma TestCellsFrom35()
    ensures CellsOkFrom(TestTiles(), 10, 29, TestField(), 35)
  {
    TestTilesSpelled();
    var t, d := TestTiles(), TestField();
    assert CellsOkFrom(t, 10, 29, d, 39);
    assert CellsOkFrom(t, 10, 29, d, 38);
    assert CellsOkFrom(t, 10, 29, d, 37);
    assert CellsOkFrom(t, 10, 29, d, 36);
    assert CellsOkFrom(t, 10, 29, d, 35);
  }

  lemma TestCellsFrom30()
    ensures CellsOkFrom(TestTiles(), 10, 29, TestField(), 30)
  {
    TestCellsFrom35();
    TestTilesSpelled();
    var t, d := TestTiles(), TestField();
    assert CellsOkFrom(t, 10, 29, d, 34);
    assert CellsOkFrom(t, 10, 29, d, 33);
    assert CellsOkFrom(t, 10, 29, d, 32);
    assert CellsOkFrom(t, 10, 29, d, 31);
    assert CellsOkFrom(t, 10, 29, d, 30);
  }

  lemma TestCellsFrom25()
    ensures CellsOkFrom(TestTiles(), 10, 29, TestField(), 25)
  {
    TestCellsFrom30();
    TestTilesSpelled();
    var t, d := TestTiles(), TestField();
    assert CellsOkFrom(t, 10, 29, d, 29);
    assert CellsOkFrom(t, 10, 29, d, 28);
    assert CellsOkFrom(t, 10, 29, d, 27);
    assert CellsOkFrom(t, 10, 29, d, 26);
    assert CellsOkFrom(t, 10, 29, d, 25);
  }

  lemma TestCellsFrom20()
    ensures CellsOkFrom(TestTiles(), 10, 29, TestField(), 20)
  {
    TestCellsFrom25();
    TestTilesSpelled();
    var t, d := TestTiles(), TestField();
    assert CellsOkFrom(t, 10, 29, d, 24);
    assert CellsOkFrom(t, 10, 29, d, 23);
    assert CellsOkFrom(t, 10, 29, d, 22);
    assert CellsOkFrom(t, 10, 29, d, 21);
    assert CellsOkFrom(t, 10, 29, d, 20);
  }

  lemma TestCellsFrom15()
    ensures CellsOkFrom(TestTiles(), 10, 29, TestField(), 15)
  {
    TestCellsFrom20();
    TestTilesSpelled();
    var t, d := TestTiles(), TestField();
    assert CellsOkFrom(t, 10, 29, d, 19);
    assert CellsOkFrom(t, 10, 29, d, 18);
    assert CellsOkFrom(t, 10, 29, d, 17);
    assert CellsOkFrom(t, 10, 29, d, 16);
    assert CellsOkFrom(t, 10, 29, d, 15);
  }

  lemma TestCellsFrom10()
    ensures CellsOkFrom(TestTiles(), 10, 29, TestField(), 10)
  {
    TestCellsFrom15();
    TestTilesSpelled();
    var t, d := TestTiles(), TestField();
    assert CellsOkFrom(t, 10, 29, d, 14);
    assert CellsOkFrom(t, 10, 29, d, 13);
    assert CellsOkFrom(t, 10, 29, d, 12);
    assert CellsOkFrom(t, 10, 29, d, 11);
    assert CellsOkFrom(t, 10, 29, d, 10);
  }

  lemma TestCellsFrom5()
    ensures CellsOkFrom(TestTiles(), 10, 29, TestField(), 5)
  {
    TestCellsFrom10();
    TestTilesSpelled();
    var t, d := TestTiles(), TestField();
    assert CellsOkFrom(t, 10, 29, d, 9);
    assert CellsOkFrom(t, 10, 29, d, 8);
    assert CellsOkFrom(t, 10, 29, d, 7);
    assert CellsOkFrom(t, 10, 29, d, 6);
    assert CellsOkFrom(t, 10, 29, d, 5);
  }

  lemma TestCellsFrom0()
    ensures CellsOkFrom(TestTiles(), 10, 29, TestField(), 0)
  {
    TestCellsFrom5();
    TestTilesSpelled();
    var t, d := TestTiles(), TestField();
    assert CellsOkFrom(t, 10, 29, d, 4);
    assert CellsOkFrom(t, 10, 29, d, 3);
    assert CellsOkFrom(t, 10, 29, d, 2);
    assert CellsOkFrom(t, 10, 29, d, 1);
    assert CellsOkFrom(t, 10, 29, d, 0);
  }

  /** The written-out field is the step-count field of the fixture from the
      starting point (9, 2), which is cell 29. */
  lemma TestFieldIsStepField()
    ensures IsStepField(TestTiles(), 10, Idx(10, 9, 2), TestField())
  {
    TestCellsFrom0();
    CellsOkFromSound(TestTiles(), 10, 29, TestField(), 0);
  }

  /** The unit-test scenario: the fixture map started at (9, 2), whose
      step-count field is TestField. */
  method TestExit() returns (r: Map<NoData>)
    ensures r.exitPoint == Some(Point(1, 2))
  {
    var m := Map(10, 4, TestTiles(), Some(Point(9, 2)), None, NoData);
    var dist := TestField();
    assert dist[21] == Reached(10);
    r := Build(m, dist);
    var e := r.exitPoint.value;
    var k := Idx(10, e.x, e.y);
    assert dist[k].steps >= 10;
    assert k == 21;
  }
}
