/** Grid primitives shared by the filters: tiles, points and the map value
    that every filter receives and returns.  Cells are stored row-major:
    the cell at (x, y) lives at index y * width + x. */
module Grid {

  datatype Option<T> = None | Some(value: T)

  /** The terrain kind of one cell. */
  datatype Tile = Wall | Floor

  /** A grid coordinate; also the location of a Voronoi seed. */
  datatype Point = Point(x: nat, y: nat)

  /** The empty payload used by maps that carry no host data. */
  datatype NoData = NoData

  /** A map: its dimensions, its flat row-major tiles, the optional starting
      and exit points, and an opaque payload of type D. */
  datatype Map<D> = Map(
    width: nat,
    height: nat,
    tiles: seq<Tile>,
    startingPoint: Option<Point>,
    exitPoint: Option<Point>,
    data: D)
  {
    /** Positive dimensions and exactly one tile per cell. */
    predicate Valid()
    {
      width > 0 && height > 0 && |tiles| == width * height
    }
  }

  /** The index of cell (x, y) in a row-major array of the given width. */
  function Idx(width: nat, x: nat, y: nat): (i: nat)
  {
    y * width + x
  }

  /** The cell at index i, as the filters compute it: (i % width, i / width). */
  function CellOf(width: nat, i: nat): (p: Point)
    requires width > 0
  {
    Point(i % width, i / width)
  }

  /** True of a cell strictly inside a width x height grid.  A cell of the
      grid that is not interior lies on the border ring: x == 0,
      x == width - 1, y == 0 or y == height - 1. */
  predicate IsInterior(width: nat, height: nat, p: Point)
  {
    0 < p.x && p.x + 1 < width && 0 < p.y && p.y + 1 < height
  }

  /** A cell inside the grid has an index inside the tile array. */
  lemma IdxInBounds(width: nat, height: nat, x: nat, y: nat)
    requires x < width && y < height
    ensures Idx(width, x, y) < width * height
  {
    calc {
      Idx(width, x, y);
      <  y * width + width;
      == (y + 1) * width;
      <= { MulMonotone(y + 1, height, width); }
         height * width;
    }
  }

  lemma MulMonotone(a: nat, b: nat, c: nat)
    requires a <= b
    ensures a * c <= b * c
  {
  }

  /** Decoding the index of an in-range cell gives the cell back. */
  lemma CellOfIdx(width: nat, x: nat, y: nat)
    requires x < width
    ensures CellOf(width, Idx(width, x, y)) == Point(x, y)
  {
    DivModUnique(width, Idx(width, x, y), y, x);
  }

  /** Encoding the decoded cell gives the index back, and an index inside a
      width x height array decodes to a cell inside the grid. */
  lemma IdxOfCell(width: nat, height: nat, i: nat)
    requires width > 0 && i < width * height
    ensures CellOf(width, i).x < width && CellOf(width, i).y < height
    ensures Idx(width, CellOf(width, i).x, CellOf(width, i).y) == i
  {
    var q, r := i / width, i % width;
    assert i == q * width + r;
    if q >= height {
      MulMonotone(height, q, width);
      assert false;
    }
  }

  /** Euclidean division by a positive divisor has unique quotient and remainder. */
  lemma DivModUnique(d: nat, n: nat, q: nat, r: nat)
    requires r < d && n == q * d + r
    ensures n / d == q && n % d == r
  {
    var q', r' := n / d, n % d;
    assert n == q' * d + r';
    if q' < q {
      MulMonotone(q' + 1, q, d);
      assert false;
    } else if q < q' {
      MulMonotone(q + 1, q', d);
      assert false;
    }
  }

  /** A cell whose row is above the given row has an index below that row's first cell. */
  lemma IdxBelowRow(width: nat, i: nat, row: nat)
    requires width > 0 && i / width < row
    ensures i < row * width
  {
    assert i == (i / width) * width + i % width;
    MulMonotone(i / width + 1, row, width);
  }
}
