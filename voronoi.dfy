/** The VoronoiHive filter: draw distinct seed points, assign every cell to
    its nearest seed, and carve to Floor every interior cell that has fewer
    than two orthogonal neighbours in another region. */
module Voronoi {
  import opened Grid

  /** The seed count every VoronoiHive is built with. */
  const DefaultSeedCount: nat := 64

  datatype VoronoiHive = VoronoiHive(nSeeds: nat)

  function New(): VoronoiHive
  {
    VoronoiHive(DefaultSeedCount)
  }

  // ---------------------------------------------------------------------------
  // Seed generation.  Each draw is the pair of dice rolls (vx, vy) of one turn
  // of the rejection loop; the random source is the sequence of those pairs.

  /** The range of one draw: 1 <= vx <= width - 1 and 1 <= vy <= height - 1. */
  predicate InDrawRange(p: Point, width: nat, height: nat)
  {
    1 <= p.x < width && 1 <= p.y < height
  }

  ghost function Elements(s: seq<Point>): set<Point>
  {
    set p | p in s
  }

  ghost predicate Distinct(s: seq<Point>)
  {
    forall i, j :: 0 <= i < j < |s| ==> s[i] != s[j]
  }

  /** The distinct points of s in the order of their first occurrence. */
  ghost function Dedup(s: seq<Point>): seq<Point>
    decreases |s|
  {
    if s == [] then []
    else
      var d := Dedup(s[..|s| - 1]);
      if s[|s| - 1] in d then d else d + [s[|s| - 1]]
  }

  lemma {:induction false} DedupElements(s: seq<Point>)
    ensures Distinct(Dedup(s))
    ensures forall p :: p in Dedup(s) <==> p in s
    decreases |s|
  {
    if s != [] {
      var t := s[..|s| - 1];
      DedupElements(t);
      assert forall p :: p in s <==> p in t || p == s[|s| - 1];
    }
  }

  lemma {:induction false} DistinctCard(s: seq<Point>)
    requires Distinct(s)
    ensures |Elements(s)| == |s|
    decreases |s|
  {
    if s != [] {
      var t := s[..|s| - 1];
      DistinctCard(t);
      assert Elements(s) == Elements(t) + {s[|s| - 1]};
      assert s[|s| - 1] !in Elements(t);
    }
  }

  /** Dedup keeps exactly one copy of every distinct point. */
  lemma DedupLength(s: seq<Point>)
    ensures |Dedup(s)| == |Elements(s)|
  {
    DedupElements(s);
    DistinctCard(Dedup(s));
    assert Elements(Dedup(s)) == Elements(s);
  }

  /** While fewer distinct points have been drawn than the source holds, a
      draw remains. */
  lemma DrawsRemain(draws: seq<Point>, used: nat)
    requires used <= |draws|
    requires |Elements(draws[..used])| < |Elements(draws)|
    ensures used < |draws|
  {
    assert draws == draws[..used] + draws[used..];
    assert Elements(draws) == Elements(draws[..used]) + Elements(draws[used..]);
  }

  /** The rejection loop: keep drawing until nSeeds distinct points are held,
      dropping every draw that repeats a point already held. */
  method GenerateSeeds(nSeeds: nat, draws: seq<Point>, width: nat, height: nat)
    returns (seeds: seq<Point>, used: nat)
    requires forall i :: 0 <= i < |draws| ==> InDrawRange(draws[i], width, height)
    requires nSeeds <= |Elements(draws)|
    ensures used <= |draws|
    ensures seeds == Dedup(draws[..used])
    ensures |seeds| == nSeeds && Distinct(seeds)
    ensures forall i :: 0 <= i < |seeds| ==> InDrawRange(seeds[i], width, height)
    ensures nSeeds > 0 ==> 0 < used && |Dedup(draws[..used - 1])| < nSeeds
  {
    seeds, used := [], 0;
    while |seeds| < nSeeds
      invariant used <= |draws|
      invariant seeds == Dedup(draws[..used])
      invariant |seeds| <= nSeeds
      invariant 0 < used ==> |Dedup(draws[..used - 1])| < nSeeds
      decreases |draws| - used
    {
      DedupLength(draws[..used]);
      DrawsRemain(draws, used);
      var candidate := draws[used];
      assert draws[..used + 1][..used] == draws[..used];
      used := used + 1;
      if candidate !in seeds {
        seeds := seeds + [candidate];
      }
    }
    DedupElements(draws[..used]);
    forall i | 0 <= i < |seeds| ensures InDrawRange(seeds[i], width, height) {
      assert seeds[i] in draws[..used];
      var k :| 0 <= k < used && draws[..used][k] == seeds[i];
    }
  }

  // The seeds are drawn from a (width - 1) x (height - 1) rectangle, so the
  // rejection loop can only finish when nSeeds is at most its area.

  ghost function DrawableRow(width: nat, y: nat): set<Point>
    decreases width
  {
    if width <= 1 then {} else DrawableRow(width - 1, y) + {Point(width - 1, y)}
  }

  ghost function DrawableArea(width: nat, height: nat): set<Point>
    decreases height
  {
    if height <= 1 then {} else DrawableArea(width, height - 1) + DrawableRow(width, height - 1)
  }

  lemma {:induction false} DrawableRowFacts(width: nat, y: nat)
    requires width >= 1
    ensures forall p :: p in DrawableRow(width, y) <==> 1 <= p.x < width && p.y == y
    ensures |DrawableRow(width, y)| == width - 1
    decreases width
  {
    if width > 1 {
      DrawableRowFacts(width - 1, y);
    }
  }

  lemma {:induction false} DrawableAreaFacts(width: nat, height: nat)
    requires width >= 1 && height >= 1
    ensures forall p :: p in DrawableArea(width, height) <==> InDrawRange(p, width, height)
    ensures |DrawableArea(width, height)| == (width - 1) * (height - 1)
    decreases height
  {
    if height > 1 {
      DrawableAreaFacts(width, height - 1);
      DrawableRowFacts(width, height - 1);
      var upper, row := DrawableArea(width, height - 1), DrawableRow(width, height - 1);
      assert forall p :: p in upper ==> p.y < height - 1;
      assert forall p :: p in row ==> p.y == height - 1;
      assert upper * row == {};
      assert |upper + row| == |upper| + |row|;
      assert (width - 1) * (height - 1) == (width - 1) * (height - 2) + (width - 1);
    }
  }

  /** Any set of drawable points has at most (width - 1) * (height - 1) members. */
  lemma DrawablePointBound(points: set<Point>, width: nat, height: nat)
    requires width >= 1 && height >= 1
    requires forall p :: p in points ==> InDrawRange(p, width, height)
    ensures |points| <= (width - 1) * (height - 1)
  {
    DrawableAreaFacts(width, height);
    var area := DrawableArea(width, height);
    assert points <= area;
    assert area == points + (area - points);
    assert |area| == |points| + |area - points|;
  }

  /** The draws GenerateSeeds accepts can only hold nSeeds distinct points
      when nSeeds is at most the drawable area. */
  lemma SeedCountBound(nSeeds: nat, draws: seq<Point>, width: nat, height: nat)
    requires width >= 1 && height >= 1
    requires forall i :: 0 <= i < |draws| ==> InDrawRange(draws[i], width, height)
    requires nSeeds <= |Elements(draws)|
    ensures nSeeds <= (width - 1) * (height - 1)
  {
    DrawablePointBound(Elements(draws), width, height);
  }

  // ---------------------------------------------------------------------------
  // Membership.  The distance to a seed is the integer squared Euclidean
  // distance; the square root is monotone, so it orders seeds the same way.

  function SquaredDistance(a: Point, b: Point): (d: nat)
    ensures d == 0 <==> a == b
  {
    var dx := if a.x < b.x then b.x - a.x else a.x - b.x;
    var dy := if a.y < b.y then b.y - a.y else a.y - b.y;
    dx * dx + dy * dy
  }

  /** Stable insertion of e, which precedes every element of s, into s. */
  function InsertByDistance(e: (nat, nat), s: seq<(nat, nat)>): (r: seq<(nat, nat)>)
  {
    if s == [] || e.1 <= s[0].1 then [e] + s
    else [s[0]] + InsertByDistance(e, s[1..])
  }

  /** A stable sort of (seed, distance) pairs by distance. */
  function SortByDistance(s: seq<(nat, nat)>): (r: seq<(nat, nat)>)
  {
    if s == [] then [] else InsertByDistance(s[0], SortByDistance(s[1..]))
  }

  ghost predicate OrderedByDistance(s: seq<(nat, nat)>)
  {
    forall i, j :: 0 <= i < j < |s| ==> s[i].1 <= s[j].1
  }

  lemma {:induction false} InsertByDistancePermutes(e: (nat, nat), s: seq<(nat, nat)>)
    ensures multiset(InsertByDistance(e, s)) == multiset(s) + multiset{e}
    ensures |InsertByDistance(e, s)| == |s| + 1
  {
    if s != [] && s[0].1 < e.1 {
      InsertByDistancePermutes(e, s[1..]);
      assert s == [s[0]] + s[1..];
    }
  }

  lemma {:induction false} InsertByDistanceOrdered(e: (nat, nat), s: seq<(nat, nat)>)
    requires OrderedByDistance(s)
    ensures OrderedByDistance(InsertByDistance(e, s))
  {
    if s != [] && s[0].1 < e.1 {
      var rest := InsertByDistance(e, s[1..]);
      InsertByDistanceOrdered(e, s[1..]);
      InsertByDistancePermutes(e, s[1..]);
      forall k | 0 <= k < |rest| ensures s[0].1 <= rest[k].1 {
        assert rest[k] in multiset(rest);
        assert rest[k] == e || rest[k] in multiset(s[1..]);
        if rest[k] != e {
          var j :| 0 <= j < |s[1..]| && s[1..][j] == rest[k];
          assert s[j + 1] == rest[k];
        }
      }
    }
  }

  /** SortByDistance returns an ordering of its input. */
  lemma {:induction false} SortByDistancePermutes(s: seq<(nat, nat)>)
    ensures multiset(SortByDistance(s)) == multiset(s)
    ensures |SortByDistance(s)| == |s|
  {
    if s != [] {
      SortByDistancePermutes(s[1..]);
      InsertByDistancePermutes(s[0], SortByDistance(s[1..]));
      assert s == [s[0]] + s[1..];
    }
  }

  /** SortByDistance orders its result by nondecreasing distance. */
  lemma {:induction false} SortByDistanceOrdered(s: seq<(nat, nat)>)
    ensures OrderedByDistance(SortByDistance(s))
  {
    if s != [] {
      SortByDistanceOrdered(s[1..]);
      InsertByDistanceOrdered(s[0], SortByDistance(s[1..]));
    }
  }

  /** The position of the first pair of least distance. */
  ghost function FirstNearest(s: seq<(nat, nat)>): (k: nat)
    requires |s| > 0
    ensures k < |s|
    ensures forall j :: 0 <= j < |s| ==> s[k].1 <= s[j].1
    ensures forall j :: 0 <= j < k ==> s[k].1 < s[j].1
  {
    if |s| == 1 then 0
    else
      var k := FirstNearest(s[1..]);
      if s[0].1 <= s[k + 1].1 then 0 else k + 1
  }

  /** Because the sort is stable, its first element is the first pair of least
      distance in the input. */
  lemma {:induction false} SortHeadIsFirstNearest(s: seq<(nat, nat)>)
    requires |s| > 0
    ensures |SortByDistance(s)| == |s|
    ensures SortByDistance(s)[0] == s[FirstNearest(s)]
  {
    SortByDistancePermutes(s);
    if |s| > 1 {
      SortHeadIsFirstNearest(s[1..]);
    }
  }

  /** Seed s is at least distance from p, and strictly nearer than every seed
      before it. */
  ghost predicate IsNearestSeed(seeds: seq<Point>, s: nat, p: Point)
  {
    && s < |seeds|
    && (forall t :: 0 <= t < |seeds| ==> SquaredDistance(seeds[s], p) <= SquaredDistance(seeds[t], p))
    && (forall t :: 0 <= t < s ==> SquaredDistance(seeds[s], p) < SquaredDistance(seeds[t], p))
  }

  /** The nearest seed with ties going to the lowest index is unique. */
  lemma NearestSeedUnique(seeds: seq<Point>, a: nat, b: nat, p: Point)
    requires IsNearestSeed(seeds, a, p) && IsNearestSeed(seeds, b, p)
    ensures a == b
  {
    var da, db := SquaredDistance(seeds[a], p), SquaredDistance(seeds[b], p);
    assert da <= db && db <= da;
  }

  /** For every cell, fill the (seed, distance) table, sort it stably by
      distance and record the seed at its head. */
  method ComputeMembership(seeds: seq<Point>, width: nat, height: nat)
    returns (membership: seq<nat>)
    requires |seeds| > 0 && width > 0
    ensures |membership| == width * height
    ensures forall i :: 0 <= i < width * height ==> IsNearestSeed(seeds, membership[i], CellOf(width, i))
  {
    var distances: seq<(nat, nat)> := seq(|seeds|, _ => (0, 0));
    var cells := new nat[width * height];
    for i := 0 to width * height
      invariant |distances| == |seeds|
      invariant forall j :: 0 <= j < i ==> IsNearestSeed(seeds, cells[j], CellOf(width, j))
    {
      var p := Point(i % width, i / width);
      for s := 0 to |seeds|
        invariant |distances| == |seeds|
        invariant forall k :: 0 <= k < s ==> distances[k] == (k, SquaredDistance(seeds[k], p))
      {
        distances := distances[s := (s, SquaredDistance(seeds[s], p))];
      }
      ghost var filled := distances;
      distances := SortByDistance(distances);
      SortHeadIsFirstNearest(filled);
      cells[i] := distances[0].0;
      assert cells[i] == FirstNearest(filled);
    }
    membership := cells[..];
  }

  // ---------------------------------------------------------------------------
  // Carving.

  /** How many of the four orthogonal neighbours of p lie in another region. */
  ghost function DifferentNeighbours(membership: seq<nat>, width: nat, height: nat, p: Point): (n: nat)
    requires |membership| == width * height
    requires IsInterior(width, height, p)
    ensures n <= 4
  {
    IdxInBounds(width, height, p.x, p.y);
    IdxInBounds(width, height, p.x - 1, p.y);
    IdxInBounds(width, height, p.x + 1, p.y);
    IdxInBounds(width, height, p.x, p.y - 1);
    IdxInBounds(width, height, p.x, p.y + 1);
    var mine := membership[Idx(width, p.x, p.y)];
    (if membership[Idx(width, p.x - 1, p.y)] != mine then 1 else 0)
    + (if membership[Idx(width, p.x + 1, p.y)] != mine then 1 else 0)
    + (if membership[Idx(width, p.x, p.y - 1)] != mine then 1 else 0)
    + (if membership[Idx(width, p.x, p.y + 1)] != mine then 1 else 0)
  }

  /** The tile at index j once every cell before index bound has been visited. */
  ghost function CarvedBefore(tiles: seq<Tile>, membership: seq<nat>, width: nat, height: nat, j: nat, bound: nat): Tile
    requires width > 0 && |tiles| == width * height && |membership| == width * height
    requires j < |tiles|
  {
    if j < bound && IsInterior(width, height, CellOf(width, j)) && DifferentNeighbours(membership, width, height, CellOf(width, j)) < 2
    then Floor
    else tiles[j]
  }

  /** The nested row and column loops over the interior; reads only the
      membership, so the result does not depend on the visiting order. */
  method CarveTiles(tiles: seq<Tile>, membership: seq<nat>, width: nat, height: nat)
    returns (carved: seq<Tile>)
    requires width >= 2 && height >= 2
    requires |tiles| == width * height && |membership| == width * height
    ensures |carved| == |tiles|
    ensures forall i :: 0 <= i < |tiles| && !IsInterior(width, height, CellOf(width, i)) ==> carved[i] == tiles[i]
    ensures forall i :: 0 <= i < |tiles| && IsInterior(width, height, CellOf(width, i)) ==>
      carved[i] == (if DifferentNeighbours(membership, width, height, CellOf(width, i)) < 2 then Floor else tiles[i])
  {
    var a := new Tile[|tiles|](j requires 0 <= j < |tiles| => tiles[j]);
    forall j | 0 <= j < width ensures CellOf(width, j).y == 0 {
      DivModUnique(width, j, 0, j);
    }
    for y: nat := 1 to height - 1
      invariant forall j :: 0 <= j < |tiles| ==> a[j] == CarvedBefore(tiles, membership, width, height, j, y * width)
    {
      CellOfIdx(width, 0, y);
      for x: nat := 1 to width - 1
        invariant forall j :: 0 <= j < |tiles| ==> a[j] == CarvedBefore(tiles, membership, width, height, j, Idx(width, x, y))
      {
        var myIdx := Idx(width, x, y);
        IdxInBounds(width, height, x, y);
        IdxInBounds(width, height, x - 1, y);
        IdxInBounds(width, height, x + 1, y);
        IdxInBounds(width, height, x, y - 1);
        IdxInBounds(width, height, x, y + 1);
        var neighbors := 0;
        var mySeed := membership[myIdx];
        if membership[Idx(width, x - 1, y)] != mySeed {
          neighbors := neighbors + 1;
        }
        if membership[Idx(width, x + 1, y)] != mySeed {
          neighbors := neighbors + 1;
        }
        if membership[Idx(width, x, y - 1)] != mySeed {
          neighbors := neighbors + 1;
        }
        if membership[Idx(width, x, y + 1)] != mySeed {
          neighbors := neighbors + 1;
        }
        CellOfIdx(width, x, y);
        assert neighbors == DifferentNeighbours(membership, width, height, Point(x, y));
        if neighbors < 2 {
          a[myIdx] := Floor;
        }
      }
      CellOfIdx(width, width - 1, y);
      assert Idx(width, width - 1, y) + 1 == (y + 1) * width;
    }
    forall j | 0 <= j < |tiles| && IsInterior(width, height, CellOf(width, j))
      ensures j < (height - 1) * width
    {
      IdxBelowRow(width, j, height - 1);
    }
    carved := a[..];
  }

  /** The whole filter.  The seeds and the membership the contract speaks of
      are returned as ghost results; used is the number of draws consumed. */
  method Build<D>(hive: VoronoiHive, draws: seq<Point>, m: Map<D>)
    returns (r: Map<D>, used: nat, ghost seeds: seq<Point>, ghost membership: seq<nat>)
    requires m.Valid() && m.width >= 2 && m.height >= 2
    requires hive.nSeeds > 0
    requires forall i :: 0 <= i < |draws| ==> InDrawRange(draws[i], m.width, m.height)
    requires hive.nSeeds <= |Elements(draws)|
    ensures r.Valid() && r == m.(tiles := r.tiles)
    ensures used <= |draws| && seeds == Dedup(draws[..used])
    ensures 0 < used && |Dedup(draws[..used - 1])| < hive.nSeeds
    ensures |seeds| == hive.nSeeds && Distinct(seeds)
    ensures |membership| == |m.tiles|
    ensures forall i :: 0 <= i < |m.tiles| ==> IsNearestSeed(seeds, membership[i], CellOf(m.width, i))
    ensures forall i :: 0 <= i < |m.tiles| && !IsInterior(m.width, m.height, CellOf(m.width, i)) ==>
      r.tiles[i] == m.tiles[i]
    ensures forall i :: 0 <= i < |m.tiles| && IsInterior(m.width, m.height, CellOf(m.width, i)) ==>
      r.tiles[i] == (if DifferentNeighbours(membership, m.width, m.height, CellOf(m.width, i)) < 2 then Floor else m.tiles[i])
    ensures forall i :: 0 <= i < |m.tiles| ==> r.tiles[i] == m.tiles[i] || (m.tiles[i] == Wall && r.tiles[i] == Floor)
  {
    var s;
    s, used := GenerateSeeds(hive.nSeeds, draws, m.width, m.height);
    var cells := ComputeMembership(s, m.width, m.height);
    var carved := CarveTiles(m.tiles, cells, m.width, m.height);
    r := m.(tiles := carved);
    seeds, membership := s, cells;
  }

  /** The documented usage: an 80 x 50 map stays 80 x 50. */
  method DocExample<D>(draws: seq<Point>, m: Map<D>) returns (r: Map<D>)
    requires m.Valid() && m.width == 80 && m.height == 50
    requires forall i :: 0 <= i < |draws| ==> InDrawRange(draws[i], 80, 50)
    requires DefaultSeedCount <= |Elements(draws)|
    ensures r.width == 80 && r.height == 50
  {
    var used;
    ghost var seeds, membership;
    r, used, seeds, membership := Build(New(), draws, m);
  }
}
