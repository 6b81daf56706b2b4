/** A worked search on a 2×2 grid: the outcome a finished search promises
    pins every distance down exactly, not only bounds it. The distances and
    the terrain are contiguous `int32_t` maps; the cell `[0, 0]` is the only
    source, at distance 0; every other cell holds `INT_MAX`; the terrain is 1
    everywhere; a cardinal move costs 2 and a diagonal one 3. */
module SearchExample {
  import opened Common
  import opened Maps
  import opened Graphs
  import opened Search

  // ------------------------------------------- what a finished search gives

  /** A source is not raised by the search. */
  lemma OutcomeSource(s: Setup, mem0: seq<int>, mem: seq<int>, r: seq<int>)
    requires Fits(s, |mem0|) && |mem| == |mem0| && Outcome(s, mem0, mem)
    requires Cell(s, r) && !IsMax(s.dist, mem0, r)
    ensures Dist(s, mem, r) <= Dist(s, mem0, r)
  {
  }

  /** An edge out of a source cannot lower its leaf any more. */
  lemma OutcomeEdge(s: Setup, mem0: seq<int>, mem: seq<int>, r: seq<int>, e: Edge)
    requires Fits(s, |mem0|) && |mem| == |mem0| && Outcome(s, mem0, mem)
    requires Cell(s, r) && !IsMax(s.dist, mem0, r) && e in EdgesAt(s, r)
    ensures Dist(s, mem, e.leaf) <= Dist(s, mem, r) + e.cost
  {
    var es := EdgesAt(s, r);
    var j :| 0 <= j < |es| && es[j] == e;
  }

  /** A cell whose distance the search changed, or that was a source, is at
      or above every lower bound on path lengths. */
  lemma OutcomeBound(s: Setup, mem0: seq<int>, mem: seq<int>, bound: seq<int> -> int, r: seq<int>)
    requires Fits(s, |mem0|) && |mem| == |mem0| && Outcome(s, mem0, mem)
    requires LowerBound(s, mem0, bound)
    requires Cell(s, r) && (!IsMax(s.dist, mem0, r) || Dist(s, mem, r) != Dist(s, mem0, r))
    ensures bound(r) <= Dist(s, mem, r)
  {
  }

  /** The edge enumeration can be asked for the edges of any cell. */
  lemma CellReady(s: Setup, len: int, r: seq<int>)
    requires Fits(s, len) && Cell(s, r)
    ensures Ready(s.graph, s.terrain, s.n, r)
  {
  }

  /** On a 2D graph over two coordinates, an edge is the move by some
      `(y, x)` to an index in the terrain's bounds, at the move's multiplier
      times the terrain there. */
  lemma EdgeMove(g: Graph, terrain: seq<int>, r: seq<int>, e: Edge) returns (y: int, x: int)
    requires g.Basic2D? && g.terrainMap.IsBuffer() && Ready(g, terrain, 2, r)
    requires e in Edges(g, terrain, 2, r)
    ensures -1 <= y <= 1 && -1 <= x <= 1
    ensures e.leaf == [r[0] + y, r[1] + x] && InBounds(g.terrainMap, e.leaf)
    ensures e.cost == BaseCost(g, y, x) * Get(g.terrainMap, terrain, e.leaf)
  {
    EdgesSound(g, terrain, 2, r);
    assert GridMove(g, terrain, 2, r, e);
    y, x := e.leaf[0] - r[0], e.leaf[1] - r[1];
    LeafPair(r, y, x);
    PositiveFactor(BaseCost(g, y, x), Get(g.terrainMap, terrain, e.leaf));
  }

  /** On a 2D graph over two coordinates whose terrain is 1 at `l`, the move
      from `r` to the neighbour `l` is an edge, at 3 when it is diagonal and
      at 2 otherwise. */
  lemma MoveEdge(g: Graph, terrain: seq<int>, r: seq<int>, l: seq<int>)
    requires g.Basic2D? && g.cardinal == 2 && g.diagonal == 3 && Ready(g, terrain, 2, r)
    requires |l| == 2 && l != r && -1 <= l[0] - r[0] <= 1 && -1 <= l[1] - r[1] <= 1
    requires Get(g.terrainMap, terrain, l) == 1
    ensures Edge(r, l, if l[0] != r[0] && l[1] != r[1] then 3 else 2) in Edges(g, terrain, 2, r)
  {
    var y, x := l[0] - r[0], l[1] - r[1];
    LeafPair(r, y, x);
    assert Leaf(r, 2, y, x) == l;
    EdgesComplete(g, terrain, 2, r, y, x);
  }

  /** On a 2D graph over two coordinates whose cardinal multiplier is 2 and
      diagonal one 3, an edge to a leaf of terrain 1 costs 3 when it is
      diagonal and 2 otherwise. */
  lemma UnitEdge(g: Graph, terrain: seq<int>, r: seq<int>, e: Edge)
    requires g.Basic2D? && g.cardinal == 2 && g.diagonal == 3
    requires g.terrainMap.IsBuffer() && Ready(g, terrain, 2, r) && e in Edges(g, terrain, 2, r)
    requires Get(g.terrainMap, terrain, e.leaf) == 1
    ensures |e.leaf| == 2
    ensures e.cost == if e.leaf[0] != r[0] && e.leaf[1] != r[1] then 3 else 2
  {
    var y, x := EdgeMove(g, terrain, r, e);
  }

  /** A move of a two-coordinate index adds to both coordinates. */
  lemma LeafPair(r: seq<int>, y: int, x: int)
    requires |r| == 2
    ensures Leaf(r, 2, y, x) == [r[0] + y, r[1] + x]
  {
  }

  // ----------------------------------------------------- a unit 2×2 square

  /** A search over a 2D grid of two coordinates with terrain 1 under every
      cell, cardinal moves at 2 and diagonal ones at 3. */
  ghost predicate UnitTerrain(s: Setup, len: int) {
    && Fits(s, len) && s.n == 2
    && s.graph.Basic2D? && s.graph.cardinal == 2 && s.graph.diagonal == 3
    && (forall r | Cell(s, r) :: Get(s.graph.terrainMap, s.terrain, r) == 1)
  }

  /** A unit-terrain search over a 2×2 grid whose only source is `[0, 0]` at
      distance 0. */
  ghost predicate UnitSquare(s: Setup, mem0: seq<int>) {
    && UnitTerrain(s, |mem0|)
    && (forall r | |r| == 2 :: Cell(s, r) <==> 0 <= r[0] < 2 && 0 <= r[1] < 2)
    && (forall r | Cell(s, r) :: IsMax(s.dist, mem0, r) <==> r != [0, 0])
    && (forall r | Cell(s, r) :: Dist(s, mem0, r) == if r == [0, 0] then 0 else IntMax)
  }

  /** The lengths of the cheapest paths from `[0, 0]` on the square. */
  function Shortest(r: seq<int>): int {
    if |r| != 2 then 0
    else if r[0] == 1 && r[1] == 1 then 3
    else 2 * (r[0] + r[1])
  }

  /** An edge of the square joins a cell to a neighbouring cell, at 3 when
      both coordinates change and at 2 otherwise. */
  lemma SquareEdge(s: Setup, len: int, r: seq<int>, e: Edge)
    requires UnitTerrain(s, len) && Cell(s, r) && e in EdgesAt(s, r)
    ensures Cell(s, e.leaf) && |e.leaf| == 2
    ensures -1 <= e.leaf[0] - r[0] <= 1 && -1 <= e.leaf[1] - r[1] <= 1
    ensures e.cost == if e.leaf[0] != r[0] && e.leaf[1] != r[1] then 3 else 2
  {
    CellReady(s, len, r);
    var y, x := EdgeMove(s.graph, s.terrain, r, e);
    TerrainCell(s, len, e.leaf);
    TerrainAt(s, len, e.leaf);
    UnitEdge(s.graph, s.terrain, r, e);
  }

  /** Every cell of a unit-terrain search reads 1 from the terrain. */
  lemma TerrainAt(s: Setup, len: int, l: seq<int>)
    requires UnitTerrain(s, len) && Cell(s, l)
    ensures Get(s.graph.terrainMap, s.terrain, l) == 1
  {
  }

  /** Every move between two different cells of the square is an edge, at
      3 when it is diagonal and at 2 otherwise. */
  lemma SquareMove(s: Setup, len: int, r: seq<int>, l: seq<int>)
    requires UnitTerrain(s, len) && Cell(s, r) && Cell(s, l) && r != l
    requires -1 <= l[0] - r[0] <= 1 && -1 <= l[1] - r[1] <= 1
    ensures Edge(r, l, if l[0] != r[0] && l[1] != r[1] then 3 else 2) in EdgesAt(s, r)
  {
    CellReady(s, len, r);
    MoveEdge(s.graph, s.terrain, r, l);
  }

  /** The path lengths from `[0, 0]` are a lower bound for the search. */
  lemma ShortestBound(s: Setup, mem0: seq<int>)
    requires UnitSquare(s, mem0)
    ensures LowerBound(s, mem0, Shortest)
  {
    forall r | Cell(s, r) && !IsMax(s.dist, mem0, r)
      ensures Shortest(r) <= Dist(s, mem0, r)
    {
    }
    forall r, e | Cell(s, r) && e in EdgesAt(s, r)
      ensures Shortest(e.leaf) <= Shortest(r) + e.cost
    {
      SquareEdge(s, |mem0|, r, e);
    }
  }

  /** A finished search on the square reaches every cell along one edge
      from `[0, 0]`. */
  lemma SquareUpper(s: Setup, mem0: seq<int>, mem: seq<int>)
    requires UnitSquare(s, mem0) && |mem| == |mem0| && Outcome(s, mem0, mem)
    ensures Dist(s, mem, [0, 0]) <= 0
    ensures Dist(s, mem, [1, 0]) <= 2
    ensures Dist(s, mem, [0, 1]) <= 2
    ensures Dist(s, mem, [1, 1]) <= 3
  {
    var o, a, b, c := [0, 0], [1, 0], [0, 1], [1, 1];
    assert Cell(s, o) && Cell(s, a) && Cell(s, b) && Cell(s, c);
    OutcomeSource(s, mem0, mem, o);
    SquareMove(s, |mem0|, o, a);
    OutcomeEdge(s, mem0, mem, o, Edge(o, a, 2));
    SquareMove(s, |mem0|, o, b);
    OutcomeEdge(s, mem0, mem, o, Edge(o, b, 2));
    SquareMove(s, |mem0|, o, c);
    OutcomeEdge(s, mem0, mem, o, Edge(o, c, 3));
  }

  /** Whatever buffer a finished search on the square leaves holds exactly
      the lengths of the cheapest paths from `[0, 0]`. */
  lemma SquareOutcome(s: Setup, mem0: seq<int>, mem: seq<int>)
    requires UnitSquare(s, mem0) && |mem| == |mem0| && Outcome(s, mem0, mem)
    ensures Dist(s, mem, [0, 0]) == 0
    ensures Dist(s, mem, [1, 0]) == 2
    ensures Dist(s, mem, [0, 1]) == 2
    ensures Dist(s, mem, [1, 1]) == 3
  {
    SquareUpper(s, mem0, mem);
    ShortestBound(s, mem0);
    var o, a, b, c := [0, 0], [1, 0], [0, 1], [1, 1];
    assert Cell(s, o) && Cell(s, a) && Cell(s, b) && Cell(s, c);
    OutcomeBound(s, mem0, mem, Shortest, o);
    OutcomeBound(s, mem0, mem, Shortest, a);
    OutcomeBound(s, mem0, mem, Shortest, b);
    OutcomeBound(s, mem0, mem, Shortest, c);
  }

  // ------------------------------------------------------------ the example

  /** A contiguous 2×2 map of `int32_t` elements: `[i, j]` sits at byte
      offset `4 * i + 8 * j`. */
  const Grid: GridMap := Contiguous(2, [2, 2], -4)

  /** Terrain 1 under every cell. */
  const Terrain: seq<int> := seq(16, _ => 1)

  const Example: Setup := Setup(2, Grid, Basic2D(Grid, 2, 3), Terrain)

  /** The distances before the search, one element per byte offset: 0 at
      offset 0, the cell `[0, 0]`, and `INT_MAX` at offsets 4, 8 and 12, the
      other three cells. */
  const Start: seq<int> := seq(16, i => if i == 0 then 0 else if i % 4 == 0 then IntMax else 0)

  /** The cell `[i, j]` sits at byte offset `4 * i + 8 * j`. */
  lemma GridOffset(r: seq<int>)
    requires |r| == 2
    ensures Offset(Grid, r) == 4 * r[0] + 8 * r[1]
  {
    assert Product([2, 2], 1) == 2;
    assert Linear(r, [2, 2], 1) == r[0];
    assert Linear(r, [2, 2], 2) == r[0] + 2 * r[1];
  }

  /** Every in-bounds index of the grid reads 1 from the terrain. */
  lemma TerrainOne(r: seq<int>)
    requires |r| == 2 && InBounds(Grid, r) && Valid(Grid, |Terrain|)
    ensures Get(Grid, Terrain, r) == 1
  {
    ContiguousOffsets(Grid, r, r);
  }

  /** Only `[0, 0]` starts below `INT_MAX`. */
  lemma StartCell(r: seq<int>)
    requires |r| == 2 && InBounds(Grid, r) && Valid(Grid, |Start|)
    ensures Get(Grid, Start, r) == if r == [0, 0] then 0 else IntMax
    ensures IsMax(Grid, Start, r) <==> r != [0, 0]
  {
    assert 0 <= r[0] < 2 && 0 <= r[1] < 2;
    GridOffset(r);
    var raw := Start[Offset(Grid, r)];
    assert r == [0, 0] <==> r[0] == 0 && r[1] == 0;
    assert raw == if r == [0, 0] then 0 else IntMax;
    TruncateFits(raw, -4);
    assert Get(Grid, Start, r) == raw;
    IsMaxReads(Grid, Start, r);
  }

  /** The example meets the conditions under which the search is modelled. */
  lemma ExampleFits()
    ensures Fits(Example, |Start|)
  {
    ContiguousValid(Grid, 16);
    ContiguousInjective(Grid);
  }

  /** The cells of the example are the indices within `[2, 2]`. */
  lemma ExampleCells()
    ensures forall r | |r| == 2 :: Cell(Example, r) <==> 0 <= r[0] < 2 && 0 <= r[1] < 2
  {
  }

  /** The terrain of the example is 1 under every cell. */
  lemma ExampleTerrain()
    ensures TerrainFits(Example)
    ensures forall r | Cell(Example, r) :: Get(Grid, Terrain, r) == 1
  {
    ExampleFits();
    forall r | Cell(Example, r)
      ensures Get(Grid, Terrain, r) == 1
    {
      TerrainOne(r);
    }
  }

  /** Before the search only `[0, 0]` holds a distance; every other cell
      holds the sentinel. */
  lemma ExampleStart()
    ensures Fits(Example, |Start|)
    ensures forall r | Cell(Example, r) :: IsMax(Grid, Start, r) <==> r != [0, 0]
    ensures forall r | Cell(Example, r) :: Dist(Example, Start, r) == if r == [0, 0] then 0 else IntMax
  {
    ExampleFits();
    forall r | Cell(Example, r)
      ensures (IsMax(Grid, Start, r) <==> r != [0, 0])
      ensures Get(Grid, Start, r) == if r == [0, 0] then 0 else IntMax
    {
      StartCell(r);
    }
  }

  /** The example is a unit-terrain search over a 2×2 grid sourced at
      `[0, 0]`. */
  lemma ExampleSquare()
    ensures UnitSquare(Example, Start)
  {
    ExampleCells();
    ExampleTerrain();
    ExampleStart();
  }

  /** A search over the example that has finished leaves 0 at `[0, 0]`, 2
      at `[1, 0]` and `[0, 1]`, and 3 at `[1, 1]`: one cardinal move of
      cost 2, and one diagonal move of cost 3 that beats two cardinal ones. */
  lemma ExampleOutcome(mem: seq<int>)
    requires |mem| == |Start| && (ExampleFits(); Outcome(Example, Start, mem))
    ensures Dist(Example, mem, [0, 0]) == 0
    ensures Dist(Example, mem, [1, 0]) == 2
    ensures Dist(Example, mem, [0, 1]) == 2
    ensures Dist(Example, mem, [1, 1]) == 3
  {
    ExampleSquare();
    SquareOutcome(Example, Start, mem);
  }
}
