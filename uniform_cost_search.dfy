/** Uniform-cost search (Dijkstra's algorithm) over a distance map: every
    cell that does not hold its width's maximum is a source at its current
    distance; the search relaxes edges of the graph, lowering distances, until
    its frontier is empty.

    The first half of the module states the search on values: the effect of
    relaxing an edge and of a whole step on the distance buffer and on the
    multiset of frontier nodes, and the invariant the run keeps. The second
    half is the search state and its methods, proved against those values. */
module Search {
  import opened Common
  import opened Maps
  import opened Heapq
  import Indexes
  import opened Graphs
  import Relaxation

  /** What a search works on: the number of dimensions, the distance map,
      the graph and the graph's terrain buffer. */
  datatype Setup = Setup(n: int, dist: GridMap, graph: Graph, terrain: seq<int>)

  /** A 2D graph reads its terrain from a buffer map laid over the same grid
      as the distances. */
  ghost predicate TerrainFits(s: Setup) {
    s.graph.Basic2D? ==>
      var t := s.graph.terrainMap;
      && t.IsBuffer() && t.dimensions == s.n && Valid(t, |s.terrain|)
      && s.dist.IsBuffer() && |s.dist.shape| >= s.n
      && forall i :: 0 <= i < s.n ==> t.shape[i] == s.dist.shape[i]
  }

  /** The conditions under which the search is modelled: a distance buffer
      map of `n` dimensions, valid for a buffer of `len` cells, whose
      in-bounds indices never share an element. */
  ghost predicate Fits(s: Setup, len: int) {
    && 1 <= s.n <= MaxDimensions
    && (s.graph.Basic2D? ==> 2 <= s.n)
    && s.dist.IsBuffer() && s.dist.dimensions == s.n
    && Valid(s.dist, len) && Injective(s.dist)
    && TerrainFits(s)
  }

  /** An in-bounds index of the distance map. */
  ghost predicate Cell(s: Setup, r: seq<int>) {
    && |r| == s.n && s.dist.IsBuffer() && s.dist.dimensions == s.n && WellFormed(s.dist)
    && InBounds(s.dist, r)
  }

  /** The terrain under `r` is positive. */
  ghost predicate Passable(s: Setup, r: seq<int>)
    requires TerrainFits(s) && |r| == s.n
  {
    s.graph.Basic2D? && Get(s.graph.terrainMap, s.terrain, r) > 0
  }

  function Dist(s: Setup, mem: seq<int>, r: seq<int>): Int32
    requires Fits(s, |mem|) && |r| == s.n
  {
    Get(s.dist, mem, r)
  }

  /** The element under `r` is the same in both buffers. An unknown width
      stores nothing, so every element counts as unchanged. */
  ghost predicate Unchanged(s: Setup, mem: seq<int>, mem': seq<int>, r: seq<int>)
    requires Fits(s, |mem|) && |mem'| == |mem| && Cell(s, r)
  {
    !KnownWidth(s.dist.intSize) || mem'[Offset(s.dist, r)] == mem[Offset(s.dist, r)]
  }

  /** The edges of the graph at `r`. */
  function EdgesAt(s: Setup, r: seq<int>): (es: seq<Edge>)
    requires TerrainFits(s) && |r| == s.n && (s.graph.Basic2D? ==> 2 <= s.n)
    ensures forall j :: 0 <= j < |es| ==> |es[j].leaf| == s.n
  {
    Edges(s.graph, s.terrain, s.n, r)
  }

  /** No edge out of `r` can lower the distance of its leaf. */
  ghost predicate Relaxed(s: Setup, mem: seq<int>, r: seq<int>)
    requires Fits(s, |mem|) && Cell(s, r)
  {
    var es := EdgesAt(s, r);
    forall j :: 0 <= j < |es| ==> Dist(s, mem, es[j].leaf) <= Dist(s, mem, r) + es[j].cost
  }

  /** No distance is higher in `mem'` than in `mem`. */
  ghost predicate Lowered(s: Setup, mem: seq<int>, mem': seq<int>)
    requires Fits(s, |mem|) && |mem'| == |mem|
  {
    forall r | Cell(s, r) :: Dist(s, mem', r) <= Dist(s, mem, r)
  }

  /** The edges of `r0` as the search sees them under `Fits`: from `r0`, to
      a different in-bounds, passable leaf, at a positive cost. */
  ghost predicate FromRoot(s: Setup, r0: seq<int>, es: seq<Edge>)
    requires TerrainFits(s)
  {
    forall j :: 0 <= j < |es| ==>
      && es[j].root == r0 && Cell(s, es[j].leaf) && es[j].leaf != r0 && es[j].cost > 0
      && Passable(s, es[j].leaf)
  }

  /** `bound` underestimates every distance that is not the sentinel and
      grows along no edge by more than the edge's cost: it is a lower bound
      on the lengths of paths from the sources. */
  ghost predicate LowerBound(s: Setup, mem: seq<int>, bound: seq<int> -> int)
    requires Fits(s, |mem|)
  {
    && (forall r | Cell(s, r) && !IsMax(s.dist, mem, r) :: bound(r) <= Dist(s, mem, r))
    && (forall r | Cell(s, r) ::
          forall e | e in EdgesAt(s, r) :: bound(e.leaf) <= bound(r) + e.cost)
  }

  // ---------------------------------------------------------- relaxation

  /** The priority a node is pushed with: its distance, which makes the
      search uniform-cost. */
  function HeuristicAt(index: seq<int>, distance: Int32): (h: Int32)
    ensures h == distance
  {
    distance
  }

  /** Relaxing one edge: when the path through the root is strictly shorter,
      the leaf's distance becomes that sum and the leaf is pushed with it as
      priority (the heuristic is the identity); otherwise nothing happens. */
  function RelaxEdge(s: Setup, mem: seq<int>, e: Edge): (r: (seq<int>, multiset<Node>))
    requires Fits(s, |mem|) && |e.root| == s.n && |e.leaf| == s.n && e.cost > 0
    ensures |r.0| == |mem|
    ensures r.1 != multiset{} <==> Dist(s, mem, e.root) + e.cost < Dist(s, mem, e.leaf)
    ensures r.1 == multiset{} ==> r.0 == mem
    ensures r.1 != multiset{} ==> r.1 == multiset{Node(Dist(s, mem, e.root) + e.cost, e.leaf)}
  {
    var dr := Dist(s, mem, e.root);
    var dl := Dist(s, mem, e.leaf);
    var total := dr + e.cost;
    if dl <= total then (mem, multiset{})
    else (Store(s.dist, mem, e.leaf, total), multiset{Node(HeuristicAt(e.leaf, total), e.leaf)})
  }

  /** The edges can be handed to the search: they join cells, at positive
      costs. */
  ghost predicate Leads(s: Setup, es: seq<Edge>) {
    forall j :: 0 <= j < |es| ==> Cell(s, es[j].root) && Cell(s, es[j].leaf) && es[j].cost > 0
  }

  /** Relaxing the first `k` edges in order: the buffer after them and the
      nodes they push. */
  function RelaxRun(s: Setup, mem: seq<int>, es: seq<Edge>, k: nat): (r: (seq<int>, multiset<Node>))
    requires Fits(s, |mem|) && k <= |es| && Leads(s, es)
    ensures |r.0| == |mem|
  {
    if k == 0 then (mem, multiset{})
    else
      var prior := RelaxRun(s, mem, es, k - 1);
      var last := RelaxEdge(s, prior.0, es[k - 1]);
      (last.0, prior.1 + last.1)
  }

  // ------------------------------------------------------------ potential

  /** How far a cell's distance is above the lowest readable value. */
  function Height(w: int, raw: int): nat {
    DecodeRange(w, raw);
    Decode(w, raw) - Lowest(w)
  }

  /** The sum of the heights of all cells: every successful relaxation
      lowers it by at least one. */
  function Potential(w: int, mem: seq<int>): nat {
    if |mem| == 0 then 0 else Potential(w, mem[..|mem| - 1]) + Height(w, mem[|mem| - 1])
  }

  lemma {:induction false} PotentialUpdate(w: int, mem: seq<int>, p: int, v: int)
    requires 0 <= p < |mem|
    ensures Potential(w, mem[p := v]) == Potential(w, mem) - Height(w, mem[p]) + Height(w, v)
  {
    var last := |mem| - 1;
    var mem' := mem[p := v];
    assert mem'[..last] == if p == last then mem[..last] else mem[..last][p := v];
    if p < last {
      PotentialUpdate(w, mem[..last], p, v);
    }
  }

  // --------------------------------------------------------------- lemmas

  /** Reads and sentinel tests of an unchanged element agree. */
  lemma SameCell(s: Setup, mem: seq<int>, mem': seq<int>, r: seq<int>)
    requires Fits(s, |mem|) && |mem'| == |mem| && Cell(s, r) && Unchanged(s, mem, mem', r)
    ensures Dist(s, mem', r) == Dist(s, mem, r)
    ensures IsMax(s.dist, mem', r) == IsMax(s.dist, mem, r)
  {
  }

  /** No read of a buffer map is below the width's lowest value. */
  lemma DistAboveLowest(s: Setup, mem: seq<int>, r: seq<int>)
    requires Fits(s, |mem|) && |r| == s.n
    ensures Lowest(s.dist.intSize) <= Dist(s, mem, r)
  {
    var w := s.dist.intSize;
    if KnownWidth(w) && InBounds(s.dist, r) {
      DecodeRange(w, mem[Offset(s.dist, r)]);
    }
  }

  /** A store at an in-bounds index of a map whose width is known writes
      exactly the element at that index's offset. */
  lemma StoreAt(m: GridMap, mem: seq<int>, ij: seq<int>, v: Int32)
    requires m.IsBuffer() && Valid(m, |mem|) && |ij| == m.dimensions && InBounds(m, ij)
    requires KnownWidth(m.intSize)
    ensures 0 <= Offset(m, ij) < |mem|
    ensures Store(m, mem, ij, v) == mem[Offset(m, ij) := Truncate(v, m.intSize)]
  {
  }

  /** Writing a lower readable value at a cell: the cell reads it back and
      the potential drops. */
  lemma StoreLowerCell(m: GridMap, mem: seq<int>, leaf: seq<int>, v: Int32)
    requires m.IsBuffer() && Valid(m, |mem|) && |leaf| == m.dimensions && InBounds(m, leaf)
    requires KnownWidth(m.intSize) && Lowest(m.intSize) <= v < Get(m, mem, leaf)
    ensures Get(m, Store(m, mem, leaf, v), leaf) == v
    ensures Potential(m.intSize, Store(m, mem, leaf, v)) < Potential(m.intSize, mem)
  {
    var w := m.intSize;
    StoreAt(m, mem, leaf, v);
    var off := Offset(m, leaf);
    DecodeStoredBelow(w, mem[off], v);
    PotentialUpdate(w, mem, off, Truncate(v, w));
  }

  /** A store leaves every other in-bounds index of an injective map. */
  lemma StoreOthers(m: GridMap, mem: seq<int>, leaf: seq<int>, q: seq<int>, v: Int32)
    requires m.IsBuffer() && Valid(m, |mem|) && Injective(m)
    requires |leaf| == |q| == m.dimensions && InBounds(m, leaf) && InBounds(m, q) && q != leaf
    requires KnownWidth(m.intSize)
    ensures Store(m, mem, leaf, v)[Offset(m, q)] == mem[Offset(m, q)]
  {
    StoreAt(m, mem, leaf, v);
  }

  /** Writing a lower readable value at a cell: the cell reads it back, no
      other cell changes, no distance rises and the potential drops. */
  lemma StoreLower(s: Setup, mem: seq<int>, leaf: seq<int>, v: Int32)
    requires Fits(s, |mem|) && Cell(s, leaf) && KnownWidth(s.dist.intSize)
    requires Lowest(s.dist.intSize) <= v < Dist(s, mem, leaf)
    ensures var m := Store(s.dist, mem, leaf, v);
      && Dist(s, m, leaf) == v
      && (forall q | Cell(s, q) && q != leaf :: Unchanged(s, mem, m, q))
      && Lowered(s, mem, m)
      && Potential(s.dist.intSize, m) < Potential(s.dist.intSize, mem)
  {
    var m := Store(s.dist, mem, leaf, v);
    StoreLowerCell(s.dist, mem, leaf, v);
    forall q | Cell(s, q) && q != leaf
      ensures Unchanged(s, mem, m, q)
    {
      StoreOthers(s.dist, mem, leaf, q, v);
    }
    forall q | Cell(s, q)
      ensures Dist(s, m, q) <= Dist(s, mem, q)
    {
      if q != leaf {
        SameCell(s, mem, m, q);
      }
    }
  }

  /** The two outcomes of relaxing an edge. */
  lemma RelaxCases(s: Setup, mem: seq<int>, e: Edge)
    requires Fits(s, |mem|) && |e.root| == s.n && Cell(s, e.leaf) && e.cost > 0
    ensures var total := Dist(s, mem, e.root) + e.cost;
      if Dist(s, mem, e.leaf) <= total then RelaxEdge(s, mem, e) == (mem, multiset{})
      else
        && RelaxEdge(s, mem, e) == (Store(s.dist, mem, e.leaf, total), multiset{Node(total, e.leaf)})
        && KnownWidth(s.dist.intSize) && Lowest(s.dist.intSize) <= total
  {
    DistAboveLowest(s, mem, e.root);
  }

  /** Relaxing one edge whose leaf is a cell: the leaf ends up with the
      lesser of its distance and the root's distance plus the cost, and no
      other cell changes. */
  lemma RelaxOne(s: Setup, mem: seq<int>, e: Edge)
    requires Fits(s, |mem|) && |e.root| == s.n && Cell(s, e.leaf) && e.cost > 0
    ensures forall q | Cell(s, q) && q != e.leaf :: Unchanged(s, mem, RelaxEdge(s, mem, e).0, q)
    ensures var total := Dist(s, mem, e.root) + e.cost;
      Dist(s, RelaxEdge(s, mem, e).0, e.leaf) == if Dist(s, mem, e.leaf) <= total then Dist(s, mem, e.leaf) else total
  {
    RelaxCases(s, mem, e);
    var total := Dist(s, mem, e.root) + e.cost;
    var relaxed := RelaxEdge(s, mem, e);
    if Dist(s, mem, e.leaf) > total {
      var m := Store(s.dist, mem, e.leaf, total);
      assert relaxed.0 == m;
      StoreLowerCell(s.dist, mem, e.leaf, total);
      forall q | Cell(s, q) && q != e.leaf
        ensures Unchanged(s, mem, m, q)
      {
        StoreOthers(s.dist, mem, e.leaf, q, total);
      }
    } else {
      assert relaxed.0 == mem;
    }
  }

  /** Relaxing one edge lowers the potential by at least the number of nodes
      it pushes. */
  lemma RelaxOnePotential(s: Setup, mem: seq<int>, e: Edge)
    requires Fits(s, |mem|) && |e.root| == s.n && Cell(s, e.leaf) && e.cost > 0
    ensures Potential(s.dist.intSize, RelaxEdge(s, mem, e).0) + |RelaxEdge(s, mem, e).1|
      <= Potential(s.dist.intSize, mem)
  {
    RelaxCases(s, mem, e);
    var total := Dist(s, mem, e.root) + e.cost;
    var relaxed := RelaxEdge(s, mem, e);
    if Dist(s, mem, e.leaf) > total {
      StoreLowerCell(s.dist, mem, e.leaf, total);
      assert |relaxed.1| == 1;
    } else {
      assert relaxed == (mem, multiset{});
    }
  }

  /** An index in the terrain's bounds is a cell of the distance map. */
  lemma TerrainCell(s: Setup, len: int, r: seq<int>)
    requires Fits(s, len) && s.graph.Basic2D? && |r| == s.n
    requires InBounds(s.graph.terrainMap, r)
    ensures Cell(s, r)
  {
    forall i | 0 <= i < s.n
      ensures 0 <= r[i] < s.dist.shape[i]
    {
      assert 0 <= r[i] < s.graph.terrainMap.shape[i];
    }
  }

  /** One edge of a cell, read under `Fits`: from the cell, to another
      passable cell, at a positive cost. */
  lemma EdgeFromRoot(s: Setup, len: int, r0: seq<int>, e: Edge)
    requires Fits(s, len) && Cell(s, r0) && s.graph.Basic2D?
    requires e in EdgesAt(s, r0)
    ensures e.root == r0 && Cell(s, e.leaf) && e.leaf != r0 && e.cost > 0
    ensures Passable(s, e.leaf)
  {
    EdgesMove(s.graph, s.terrain, s.n, r0, e);
    EdgesInBounds(s.graph, s.terrain, s.n, r0, e);
    TerrainCell(s, len, e.leaf);
  }

  /** The edges of a cell, read under `Fits`: all from the cell, to other
      passable cells, at positive costs. */
  lemma EdgesFromRoot(s: Setup, len: int, r0: seq<int>)
    requires Fits(s, len) && Cell(s, r0)
    ensures FromRoot(s, r0, EdgesAt(s, r0))
  {
    var es := EdgesAt(s, r0);
    if s.graph.Basic2D? {
      forall j | 0 <= j < |es|
        ensures es[j].root == r0 && Cell(s, es[j].leaf) && es[j].leaf != r0 && es[j].cost > 0
        ensures Passable(s, es[j].leaf)
      {
        assert es[j] in es;
        EdgeFromRoot(s, len, r0, es[j]);
      }
    }
  }

  lemma FromRootLeads(s: Setup, r0: seq<int>, es: seq<Edge>)
    requires TerrainFits(s) && Cell(s, r0) && FromRoot(s, r0, es)
    ensures Leads(s, es)
  {
  }

  // --------------------------------------------------- the view of values

  /** The graph as the search on values sees it: the cells of the distance
      map, the passable indices and the edges of each cell. */
  ghost function NetOf(s: Setup): Relaxation.Net
    requires TerrainFits(s) && (s.graph.Basic2D? ==> 2 <= s.n)
  {
    Relaxation.Net(
      r => Cell(s, r),
      r => |r| == s.n && Passable(s, r),
      r => if Cell(s, r) then EdgesAt(s, r) else [])
  }

  /** Every cell of `mem` reads as `d` says. */
  ghost predicate Reads(s: Setup, mem: seq<int>, d: Relaxation.View)
    requires Fits(s, |mem|)
  {
    forall r | Cell(s, r) :: Dist(s, mem, r) == d(r)
  }

  /** The distances of `mem` as a view. */
  ghost function ViewOf(s: Setup, mem: seq<int>): (d: Relaxation.View)
    requires Fits(s, |mem|)
    ensures Reads(s, mem, d)
  {
    r => if |r| == s.n then Dist(s, mem, r) else 0
  }

  /** The cells that hold the largest value of the width in `mem0`. */
  ghost function SentinelOf(s: Setup, mem0: seq<int>): seq<int> -> bool
    requires Fits(s, |mem0|)
  {
    r => Cell(s, r) && IsMax(s.dist, mem0, r)
  }

  /** The edges of the grid graph make a sound graph of the cells. */
  lemma NetSound(s: Setup, len: int)
    requires Fits(s, len)
    ensures Relaxation.Sound(NetOf(s))
  {
    var net := NetOf(s);
    forall r, e | net.cell(r) && e in net.edges(r)
      ensures e.root == r && e.leaf != r && e.cost > 0 && net.cell(e.leaf) && net.passable(e.leaf)
    {
      var es := EdgesAt(s, r);
      EdgesFromRoot(s, len, r);
      var j :| 0 <= j < |es| && es[j] == e;
    }
  }

  /** A lower bound grows along no edge of the graph by more than its cost. */
  lemma BoundConsistent(s: Setup, mem: seq<int>, bound: Relaxation.View)
    requires Fits(s, |mem|) && LowerBound(s, mem, bound)
    ensures Relaxation.Consistent(NetOf(s), bound)
  {
  }

  /** Relaxing an edge between two cells of the buffer follows relaxing it on
      the view the buffer reads as: the same distances and the same pushed
      nodes. */
  lemma ReadsStep(s: Setup, mem: seq<int>, d: Relaxation.View, e: Edge)
    requires Fits(s, |mem|) && Reads(s, mem, d) && Cell(s, e.root) && Cell(s, e.leaf) && e.cost > 0
    ensures Reads(s, RelaxEdge(s, mem, e).0, Relaxation.Relax(d, e).0)
    ensures RelaxEdge(s, mem, e).1 == Relaxation.Relax(d, e).1
  {
    var m' := RelaxEdge(s, mem, e).0;
    RelaxCases(s, mem, e);
    RelaxOne(s, mem, e);
    forall q | Cell(s, q)
      ensures Dist(s, m', q) == Relaxation.Relax(d, e).0(q)
    {
      if q != e.leaf {
        SameCell(s, mem, m', q);
      }
    }
  }

  /** Relaxing the first `k` edges of a cell in the buffer follows relaxing
      them on the view the buffer reads as. */
  lemma {:induction false} ReadsRun(s: Setup, mem: seq<int>, d: Relaxation.View, es: seq<Edge>, k: nat)
    requires Fits(s, |mem|) && Reads(s, mem, d) && Leads(s, es) && k <= |es|
    ensures Reads(s, RelaxRun(s, mem, es, k).0, Relaxation.RelaxAll(d, es, k).0)
    ensures RelaxRun(s, mem, es, k).1 == Relaxation.RelaxAll(d, es, k).1
  {
    if k > 0 {
      ReadsRun(s, mem, d, es, k - 1);
      var prior := RelaxRun(s, mem, es, k - 1);
      var view := Relaxation.RelaxAll(d, es, k - 1);
      var e := es[k - 1];
      assert Cell(s, e.root) && Cell(s, e.leaf) && e.cost > 0;
      ReadsStep(s, prior.0, view.0, e);
      assert RelaxRun(s, mem, es, k) == (RelaxEdge(s, prior.0, e).0, prior.1 + RelaxEdge(s, prior.0, e).1);
      assert Relaxation.RelaxAll(d, es, k) == (Relaxation.Relax(view.0, e).0, view.1 + Relaxation.Relax(view.0, e).1);
    }
  }

  /** Relaxing the first `k` edges of a cell lowers the potential by at
      least the number of nodes pushed. */
  lemma {:induction false} PotentialRun(s: Setup, mem: seq<int>, es: seq<Edge>, k: nat)
    requires Fits(s, |mem|) && Leads(s, es) && k <= |es|
    ensures Potential(s.dist.intSize, RelaxRun(s, mem, es, k).0) + |RelaxRun(s, mem, es, k).1|
      <= Potential(s.dist.intSize, mem)
  {
    if k > 0 {
      PotentialRun(s, mem, es, k - 1);
      RelaxOnePotential(s, RelaxRun(s, mem, es, k - 1).0, es[k - 1]);
    }
  }

  /** A cell whose edges are relaxed on the view is relaxed in the buffer. */
  lemma ReadsRelaxed(s: Setup, mem: seq<int>, d: Relaxation.View, r: seq<int>)
    requires Fits(s, |mem|) && Reads(s, mem, d) && Cell(s, r)
    requires Relaxation.Relaxed(NetOf(s), d, r)
    ensures Relaxed(s, mem, r)
  {
    var es := EdgesAt(s, r);
    EdgesFromRoot(s, |mem|, r);
    forall j | 0 <= j < |es|
      ensures Dist(s, mem, es[j].leaf) <= Dist(s, mem, r) + es[j].cost
    {
      assert es[j] in NetOf(s).edges(r);
    }
  }
  // ------------------------------------------------------------ the search

  /** The nodes the first `t` steps of the index walk push: each index the
      walk reaches that does not hold the sentinel, with its distance as
      priority. */
  ghost function Seeds(s: Setup, mem: seq<int>, t: int): multiset<Node>
    requires Fits(s, |mem|)
  {
    if t <= 0 then multiset{}
    else
      var w := Indexes.Walk(s.dist.shape, s.n, t);
      Seeds(s, mem, t - 1)
        + if w.1 && !IsMax(s.dist, mem, w.0) then multiset{Node(Dist(s, mem, w.0), w.0)} else multiset{}
  }

  /** Each index the walk yields within the first `Product` steps is a cell,
      and the walk yields no more after them. */
  lemma WalkCell(s: Setup, len: int, t: nat, r: seq<int>)
    requires Fits(s, len) && Indexes.Positive(s.dist.shape)
    requires 1 <= t <= Product(s.dist.shape, s.n) && Indexes.Walk(s.dist.shape, s.n, t) == (r, true)
    ensures Cell(s, r)
    ensures Indexes.Walk(s.dist.shape, s.n, t + 1).1 <==> t + 1 <= Product(s.dist.shape, s.n)
  {
    Indexes.WalkRank(s.dist.shape, s.n, t);
    Indexes.WalkValidBound(s.dist.shape, s.n, t + 1);
    if t + 1 <= Product(s.dist.shape, s.n) {
      Indexes.WalkRank(s.dist.shape, s.n, t + 1);
    }
    CellInRange(s, len, r);
  }

  /** The cells of the distance map are the indices in range of its shape. */
  lemma CellInRange(s: Setup, len: int, r: seq<int>)
    requires Fits(s, len) && |r| == s.n
    ensures Cell(s, r) <==> Indexes.InRange(r, s.dist.shape, s.n)
  {
  }

  /** The `t`-th step of the walk, for `1 <= t <= Product`, is a cell, and
      it is the cell `r` exactly when `r` has rank `t - 1`. */
  lemma WalkAt(s: Setup, len: int, t: nat, r: seq<int>)
    requires Fits(s, len) && Indexes.Positive(s.dist.shape) && 1 <= t <= Product(s.dist.shape, s.n)
    requires |r| == s.n
    ensures Indexes.Walk(s.dist.shape, s.n, t).1 && Cell(s, Indexes.Walk(s.dist.shape, s.n, t).0)
    ensures Indexes.Walk(s.dist.shape, s.n, t).0 == r <==>
      Cell(s, r) && Indexes.Rank(r, s.dist.shape, s.n) == t - 1
  {
    var shape := s.dist.shape;
    Indexes.WalkRank(shape, s.n, t);
    var w := Indexes.Walk(shape, s.n, t).0;
    CellInRange(s, len, w);
    CellInRange(s, len, r);
    if Cell(s, r) && Indexes.Rank(r, shape, s.n) == t - 1 {
      Indexes.RankInjective(r, w, shape, s.n);
      assert r == w;
    }
  }

  /** The first `t` steps of the walk push every cell of rank below `t`
      that does not hold the sentinel exactly once, with its distance as
      priority, and nothing else. */
  lemma {:induction false} SeedsCount(s: Setup, mem: seq<int>, t: nat, nd: Node)
    requires Fits(s, |mem|) && Indexes.Positive(s.dist.shape) && t <= Product(s.dist.shape, s.n)
    ensures Seeds(s, mem, t)[nd] ==
      if && |nd.payload| == s.n && Cell(s, nd.payload)
         && Indexes.Rank(nd.payload, s.dist.shape, s.n) < t
         && !IsMax(s.dist, mem, nd.payload) && nd.priority == Dist(s, mem, nd.payload)
      then 1 else 0
  {
    var r := nd.payload;
    if t == 0 {
      if |r| == s.n && Cell(s, r) {
        CellInRange(s, |mem|, r);
        Indexes.RankBounds(r, s.dist.shape, s.n);
      }
    } else {
      SeedsCount(s, mem, t - 1, nd);
      if |r| == s.n {
        WalkAt(s, |mem|, t, r);
      } else {
        Indexes.WalkRank(s.dist.shape, s.n, t);
      }
    }
  }

  /** What holds of the search between steps: the invariant of the search
      on values, started from the view of `mem0` with the cells holding the
      largest value as sentinels, and every lower bound staying below the
      reached distances. */
  ghost predicate Searching(s: Setup, mem0: seq<int>, d: Relaxation.View, c: multiset<Node>)
    requires Fits(s, |mem0|)
  {
    var net := NetOf(s);
    var sentinel := SentinelOf(s, mem0);
    var d0 := ViewOf(s, mem0);
    && Relaxation.Inv(net, sentinel, d0, d, c)
    && forall bound: Relaxation.View | LowerBound(s, mem0, bound) :: Relaxation.Above(net, sentinel, bound, d0, d)
  }

  /** The seeded frontier starts the search. */
  lemma SeedsStart(s: Setup, mem0: seq<int>)
    requires Fits(s, |mem0|) && Indexes.Positive(s.dist.shape)
    ensures Searching(s, mem0, ViewOf(s, mem0), Seeds(s, mem0, Product(s.dist.shape, s.n)))
  {
    var net := NetOf(s);
    var sentinel := SentinelOf(s, mem0);
    var d0 := ViewOf(s, mem0);
    var c := Seeds(s, mem0, Product(s.dist.shape, s.n));
    forall r | net.cell(r) && !sentinel(r)
      ensures Relaxation.Queued(c, r)
    {
      var nd := Node(Dist(s, mem0, r), r);
      CellInRange(s, |mem0|, r);
      Indexes.RankBounds(r, s.dist.shape, s.n);
      SeedsCount(s, mem0, Product(s.dist.shape, s.n), nd);
      assert nd in c;
    }
    forall nd | nd in c
      ensures net.cell(nd.payload) && !sentinel(nd.payload)
    {
      SeedsCount(s, mem0, Product(s.dist.shape, s.n), nd);
    }
    Relaxation.StartInv(net, sentinel, d0, c);
  }

  /** Expanding a node of the frontier keeps the search inside the
      invariant. */
  lemma SearchingStep(s: Setup, mem0: seq<int>, d: Relaxation.View, c: multiset<Node>, nd: Node)
    requires Fits(s, |mem0|) && Searching(s, mem0, d, c) && nd in c
    ensures Searching(s, mem0, Relaxation.Step(NetOf(s), d, c, nd).0, Relaxation.Step(NetOf(s), d, c, nd).1)
  {
    var net := NetOf(s);
    var sentinel := SentinelOf(s, mem0);
    var d0 := ViewOf(s, mem0);
    NetSound(s, |mem0|);
    Relaxation.StepKeeps(net, sentinel, d0, d, c, nd);
    forall bound: Relaxation.View | LowerBound(s, mem0, bound)
      ensures Relaxation.Above(net, sentinel, bound, d0, Relaxation.Step(net, d, c, nd).0)
    {
      BoundConsistent(s, mem0, bound);
      Relaxation.StepAbove(net, sentinel, bound, d0, d, c, nd);
    }
  }

  /** What a finished search leaves in the buffer that held `mem0`: no
      distance went up; every cell has all of its edges relaxed unless it
      held the sentinel and was never reached; only passable cells changed;
      and every reached cell is at or above every lower bound on path
      lengths from the sources. */
  ghost predicate Outcome(s: Setup, mem0: seq<int>, mem: seq<int>)
    requires Fits(s, |mem0|) && |mem| == |mem0|
  {
    && Lowered(s, mem0, mem)
    && (forall r | Cell(s, r) ::
          Relaxed(s, mem, r) || (IsMax(s.dist, mem0, r) && Dist(s, mem, r) == Dist(s, mem0, r)))
    && (forall r | Cell(s, r) && Dist(s, mem, r) != Dist(s, mem0, r) :: Passable(s, r))
    && forall bound: Relaxation.View | LowerBound(s, mem0, bound) ::
         forall r | Cell(s, r) && !(IsMax(s.dist, mem0, r) && Dist(s, mem, r) == Dist(s, mem0, r)) ::
           bound(r) <= Dist(s, mem, r)
  }

  /** A search whose frontier is empty has reached its outcome. */
  lemma SearchingDone(s: Setup, mem0: seq<int>, mem: seq<int>, d: Relaxation.View)
    requires Fits(s, |mem0|) && |mem| == |mem0| && Reads(s, mem, d) && Searching(s, mem0, d, multiset{})
    ensures Outcome(s, mem0, mem)
  {
    var net := NetOf(s);
    var sentinel := SentinelOf(s, mem0);
    var d0 := ViewOf(s, mem0);
    Relaxation.Finished(net, sentinel, d0, d);
    forall r | Cell(s, r)
      ensures Relaxed(s, mem, r) || (IsMax(s.dist, mem0, r) && Dist(s, mem, r) == Dist(s, mem0, r))
    {
      if !Relaxation.Unreached(sentinel, d0, d, r) {
        ReadsRelaxed(s, mem, d, r);
      }
    }
  }

  // ------------------------------------------------------- the search state

  /** The state of a search: the frontier of nodes still to expand, the
      graph, and the distance map with the buffer it reads and writes. */
  class UniformCostSearch {
    const dimensions: int
    const frontier: MinHeap
    const graph: Graph
    const terrain: seq<int>
    const distance: GridMap
    const data: array<int>
    /** The distance map fits its buffer: fixed for the life of the search. */
    ghost const fits: bool := Fits(Setup(dimensions, distance, graph, terrain), data.Length)

    ghost function Setting(): Setup {
      Setup(dimensions, distance, graph, terrain)
    }

    /** The frontier is a min-heap of cells whose payloads fill its data
        size, and the distance map fits its buffer. */
    ghost predicate Valid()
      reads frontier, frontier.nodes
    {
      && frontier.Valid() && frontier.IsMinHeap()
      && frontier.dataSize == dimensions * IntBytes
      && fits
    }

    /** Every node of the frontier holds a cell of the distance map. */
    ghost predicate HoldsCells()
      reads frontier, frontier.nodes
      requires Valid()
    {
      forall nd | nd in frontier.Contents() :: Cell(Setting(), nd.payload)
    }

    /** A search over `graph` and the distance map, with a zeroed frontier
        (`= {0}` in C). */
    constructor (graph: Graph, distance: GridMap, terrain: seq<int>, data: array<int>)
      ensures this.dimensions == Dimensions(distance) && this.graph == graph && this.distance == distance
      ensures this.terrain == terrain && this.data == data
      ensures fresh(frontier) && fresh(frontier.nodes) && frontier.Valid() && frontier.size == 0
    {
      this.dimensions := Dimensions(distance);
      this.graph := graph;
      this.distance := distance;
      this.terrain := terrain;
      this.data := data;
      frontier := new MinHeap();
    }

    /** The first loop of `dijkstra`: walks every index of the distance map
        and pushes each one that does not hold the largest value, with its
        distance as priority. */
    method Seed()
      requires Valid() && frontier.Contents() == multiset{} && Indexes.Positive(distance.shape)
      modifies frontier, frontier.nodes
      ensures Valid()
      ensures frontier.nodes == old(frontier.nodes) || fresh(frontier.nodes)
      ensures frontier.Contents() == Seeds(Setting(), data[..], Product(distance.shape, dimensions))
    {
      var index := new int[dimensions];
      var valid := SeedFirst(index);
      ghost var t := 1;
      ProductPositive(distance.shape, dimensions);
      Indexes.WalkRank(distance.shape, dimensions, 1);
      while valid
        invariant 1 <= t <= Product(distance.shape, dimensions) + 1
        invariant index[..] == Indexes.Walk(distance.shape, dimensions, t).0
        invariant valid == Indexes.Walk(distance.shape, dimensions, t).1
        invariant valid <==> t <= Product(distance.shape, dimensions)
        invariant Valid()
        invariant frontier.nodes == old(frontier.nodes) || fresh(frontier.nodes)
        invariant frontier.Contents() == Seeds(Setting(), data[..], t - 1)
        decreases Product(distance.shape, dimensions) - t
      {
        valid := SeedNext(index, t);
        t := t + 1;
      }
    }

    /** Starts the walk of the first loop at its first index. */
    method SeedFirst(index: array<int>) returns (valid: bool)
      requires Valid() && index.Length == dimensions
      modifies index
      ensures (index[..], valid) == Indexes.Walk(distance.shape, dimensions, 1)
    {
      Indexes.IterBegin(dimensions, index);
      assert index[..] == index[..dimensions];
      valid := Indexes.IterStep(dimensions, Shape(distance), index);
    }

    /** One turn of the first loop of `dijkstra`: pushes the index the walk
        is at, then steps the walk. */
    method SeedNext(index: array<int>, ghost t: nat) returns (valid: bool)
      requires Valid() && index != data && index.Length == dimensions && Indexes.Positive(distance.shape)
      requires 1 <= t <= Product(distance.shape, dimensions)
      requires index[..] == Indexes.Walk(distance.shape, dimensions, t).0 && Indexes.Walk(distance.shape, dimensions, t).1
      requires frontier.Contents() == Seeds(Setting(), data[..], t - 1)
      modifies frontier, frontier.nodes, index
      ensures Valid() && data[..] == old(data[..])
      ensures frontier.nodes == old(frontier.nodes) || fresh(frontier.nodes)
      ensures frontier.Contents() == Seeds(Setting(), data[..], t)
      ensures index[..] == Indexes.Walk(distance.shape, dimensions, t + 1).0
      ensures valid == Indexes.Walk(distance.shape, dimensions, t + 1).1
      ensures valid <==> t + 1 <= Product(distance.shape, dimensions)
    {
      WalkCell(Setting(), data.Length, t, index[..]);
      var here := index[..];
      SeedAt(here, t);
      valid := Indexes.IterStep(dimensions, Shape(distance), index);
    }

    /** Pushes `index` with its distance as priority, unless it holds the
        largest value. */
    method SeedAt(index: seq<int>, ghost t: nat)
      requires Valid() && Cell(Setting(), index) && t >= 1
      requires Indexes.Walk(distance.shape, dimensions, t) == (index, true)
      requires frontier.Contents() == Seeds(Setting(), data[..], t - 1)
      modifies frontier, frontier.nodes
      ensures Valid()
      ensures frontier.nodes == old(frontier.nodes) || fresh(frontier.nodes)
      ensures frontier.Contents() == Seeds(Setting(), data[..], t)
    {
      if IsMax(distance, data[..], index) {
        return;
      }
      var here := Get(distance, data[..], index);
      Enqueue(HeuristicAt(index, here), index);
    }

    /** Relaxes one edge handed out by the graph: when the path through
        `root` is strictly shorter than the leaf's distance, writes it to the
        leaf and pushes the leaf with it as priority. */
    method SetEdge(root: seq<int>, leaf: seq<int>, cost: int)
      requires Valid() && |root| == dimensions && Cell(Setting(), leaf) && cost > 0
      modifies frontier, frontier.nodes, data
      ensures Valid()
      ensures frontier.nodes == old(frontier.nodes) || fresh(frontier.nodes)
      ensures data[..] == RelaxEdge(Setting(), old(data[..]), Edge(root, leaf, cost)).0
      ensures frontier.Contents() == old(frontier.Contents()) + RelaxEdge(Setting(), old(data[..]), Edge(root, leaf, cost)).1
    {
      ghost var mem := data[..];
      ghost var relaxed := RelaxEdge(Setting(), mem, Edge(root, leaf, cost));
      RelaxCases(Setting(), mem, Edge(root, leaf, cost));
      var atRoot := Get(distance, data[..], root);
      var atLeaf := Get(distance, data[..], leaf);
      assert atRoot == Dist(Setting(), mem, root) && atLeaf == Dist(Setting(), mem, leaf);
      var total := atRoot + cost;
      if atLeaf <= total {
        assert relaxed == (mem, multiset{});
        return;
      }
      assert relaxed == (Store(distance, mem, leaf, total), multiset{Node(HeuristicAt(leaf, total), leaf)});
      Lower(leaf, total);
    }

    /** Pops the node of least priority and relaxes every edge of its cell
        in the order the graph hands them out. On the values the buffer
        reads as (`d`), this is `Relaxation.Step`; and it lowers the
        potential plus the frontier's size, which is what makes the search
        end. */
    method Expand(ghost d: Relaxation.View) returns (ghost popped: Node)
      requires Valid() && HoldsCells() && frontier.size > 0 && Reads(Setting(), data[..], d)
      modifies frontier, frontier.nodes, data
      ensures Valid()
      ensures frontier.nodes == old(frontier.nodes) || fresh(frontier.nodes)
      ensures popped in old(frontier.Contents())
      ensures forall nd | nd in old(frontier.Contents()) :: popped.priority <= nd.priority
      ensures Expanded(Setting(), d, old(frontier.Contents()), popped, data[..], frontier.Contents())
      ensures Potential(distance.intSize, data[..]) + frontier.size
        < old(Potential(distance.intSize, data[..])) + old(frontier.size)
    {
      ghost var s := Setting();
      ghost var c := frontier.Contents();
      ghost var mem0 := data[..];
      popped := frontier.nodes[0];
      assert popped in c;
      var index := frontier.Pop();
      var root := index.value;
      assert Cell(s, root);
      var edges := CollectEdges(graph, terrain, dimensions, root);
      RunExpands(s, mem0, d, c, popped, edges);
      ghost var run := RelaxRun(s, mem0, edges, |edges|);
      ghost var c1 := frontier.Contents();
      assert c1 == c - multiset{popped};
      RelaxEdges(edges);
      assert data[..] == run.0 && frontier.Contents() == c1 + run.1;
      assert |frontier.Contents()| == frontier.size;
    }

    /** Relaxes the edges of `root` in order, as the edge enumeration's
        callback does. */
    method RelaxEdges(edges: seq<Edge>)
      requires Valid() && Leads(Setting(), edges)
      modifies frontier, frontier.nodes, data
      ensures Valid()
      ensures frontier.nodes == old(frontier.nodes) || fresh(frontier.nodes)
      ensures var run := RelaxRun(Setting(), old(data[..]), edges, |edges|);
        data[..] == run.0 && frontier.Contents() == old(frontier.Contents()) + run.1
    {
      ghost var s := Setting();
      ghost var c := frontier.Contents();
      ghost var mem0 := data[..];
      var j := 0;
      while j < |edges|
        invariant 0 <= j <= |edges|
        invariant Valid() && data.Length == |mem0|
        invariant frontier.nodes == old(frontier.nodes) || fresh(frontier.nodes)
        invariant var run := RelaxRun(s, mem0, edges, j); data[..] == run.0 && frontier.Contents() == c + run.1
      {
        var e := edges[j];
        ghost var run := RelaxRun(s, mem0, edges, j);
        ghost var step := RelaxEdge(s, run.0, e);
        assert RelaxRun(s, mem0, edges, j + 1) == (step.0, run.1 + step.1);
        assert Edge(e.root, e.leaf, e.cost) == e;
        SetEdge(e.root, e.leaf, e.cost);
        j := j + 1;
      }
    }

    /** Writes a shorter distance to a cell and pushes the cell. */
    method Lower(leaf: seq<int>, total: Int32)
      requires Valid() && Cell(Setting(), leaf)
      modifies frontier, frontier.nodes, data
      ensures Valid()
      ensures frontier.nodes == old(frontier.nodes) || fresh(frontier.nodes)
      ensures data[..] == Store(distance, old(data[..]), leaf, total)
      ensures frontier.Contents() == old(frontier.Contents()) + multiset{Node(HeuristicAt(leaf, total), leaf)}
    {
      Set(distance, data, leaf, total);
      Enqueue(HeuristicAt(leaf, total), leaf);
    }

    /** Pushes a cell onto the frontier. A failed reallocation is not
        modelled: the push always succeeds. */
    method Enqueue(priority: Int32, index: seq<int>)
      requires Valid() && Cell(Setting(), index)
      modifies frontier, frontier.nodes
      ensures Valid()
      ensures frontier.nodes == old(frontier.nodes) || fresh(frontier.nodes)
      ensures frontier.Contents() == old(frontier.Contents()) + multiset{Node(priority, index)}
    {
      var status := frontier.Push(priority, index, true);
    }
  }

  /** The buffer `mem'` and the frontier `c'` are what expanding `nd` from
      the frontier `c` gives on the view `d`. */
  ghost predicate Expanded(s: Setup, d: Relaxation.View, c: multiset<Node>, nd: Node,
                           mem': seq<int>, c': multiset<Node>)
    requires Fits(s, |mem'|)
  {
    var next := Relaxation.Step(NetOf(s), d, c, nd);
    Reads(s, mem', next.0) && c' == next.1
  }

  /** Relaxing, in the buffer, the edges of the cell of a node popped from
      the frontier expands it on the view; the potential drops by at least
      the number of nodes pushed. */
  lemma RunExpands(s: Setup, mem: seq<int>, d: Relaxation.View, c: multiset<Node>, nd: Node, es: seq<Edge>)
    requires Fits(s, |mem|) && Reads(s, mem, d) && Cell(s, nd.payload) && es == EdgesAt(s, nd.payload)
    ensures Leads(s, es)
    ensures Expanded(s, d, c, nd, RelaxRun(s, mem, es, |es|).0, c - multiset{nd} + RelaxRun(s, mem, es, |es|).1)
    ensures nd in c ==>
      Potential(s.dist.intSize, RelaxRun(s, mem, es, |es|).0) + |c - multiset{nd} + RelaxRun(s, mem, es, |es|).1|
        < Potential(s.dist.intSize, mem) + |c|
  {
    EdgesFromRoot(s, |mem|, nd.payload);
    assert es == NetOf(s).edges(nd.payload);
    FromRootLeads(s, nd.payload, es);
    ReadsRun(s, mem, d, es, |es|);
    PotentialRun(s, mem, es, |es|);
    if nd in c {
      assert |c - multiset{nd}| == |c| - 1;
    }
  }

  /** One step of the search: fails on a missing search, reports that it is
      done when the frontier is empty, and otherwise expands the node of
      least priority. */
  method Step(ucs: UniformCostSearch?, ghost d: Relaxation.View) returns (status: Code, ghost popped: Node)
    requires ucs != null ==> ucs.Valid() && ucs.HoldsCells() && Reads(ucs.Setting(), ucs.data[..], d)
    modifies if ucs == null then {} else {ucs.frontier, ucs.frontier.nodes, ucs.data}
    ensures ucs == null ==> status == InvalidArgument
    ensures ucs != null ==> ucs.Valid()
    ensures ucs != null ==> ucs.frontier.nodes == old(ucs.frontier.nodes) || fresh(ucs.frontier.nodes)
    ensures ucs != null && old(ucs.frontier.size) <= 0 ==>
      && status == Done && ucs.data[..] == old(ucs.data[..])
      && ucs.frontier.Contents() == old(ucs.frontier.Contents())
    ensures ucs != null && old(ucs.frontier.size) > 0 ==>
      && status == Ok
      && popped in old(ucs.frontier.Contents())
      && (forall nd | nd in old(ucs.frontier.Contents()) :: popped.priority <= nd.priority)
      && Expanded(ucs.Setting(), d, old(ucs.frontier.Contents()), popped, ucs.data[..], ucs.frontier.Contents())
      && Potential(ucs.distance.intSize, ucs.data[..]) + ucs.frontier.size
           < old(Potential(ucs.distance.intSize, ucs.data[..])) + old(ucs.frontier.size)
  {
    popped := Node(0, []);
    if ucs == null {
      return InvalidArgument, popped;
    }
    if ucs.frontier.size <= 0 {
      return Done, popped;
    }
    popped := ucs.Expand(d);
    status := Ok;
  }

  /** Dijkstra's algorithm over the distance map: seeds the frontier with
      every cell that does not hold the largest value, then steps the search
      until it reports anything but success, and releases the frontier. */
  method Dijkstra(graph: Graph, distance: GridMap, terrain: seq<int>, data: array<int>)
    requires Fits(Setup(Dimensions(distance), distance, graph, terrain), data.Length)
    requires Indexes.Positive(distance.shape)
    modifies data
    ensures Outcome(Setup(Dimensions(distance), distance, graph, terrain), old(data[..]), data[..])
  {
    var ucs := new UniformCostSearch(graph, distance, terrain, data);
    var dimensions := ucs.dimensions;
    var initialized := ucs.frontier.Init(dimensions * IntBytes);
    ucs.Seed();
    SeedsStart(ucs.Setting(), data[..]);
    Drain(ucs);
    ucs.frontier.Uninit();
  }

  /** The second loop of `dijkstra`: steps the search until the frontier is
      empty. */
  method Drain(ucs: UniformCostSearch)
    requires ucs.Valid()
    requires Searching(ucs.Setting(), ucs.data[..], ViewOf(ucs.Setting(), ucs.data[..]), ucs.frontier.Contents())
    modifies ucs.frontier, ucs.frontier.nodes, ucs.data
    ensures ucs.Valid() && Outcome(ucs.Setting(), old(ucs.data[..]), ucs.data[..])
  {
    ghost var s := ucs.Setting();
    ghost var mem0 := ucs.data[..];
    ghost var d := ViewOf(s, mem0);
    var more := true;
    while more
      invariant ucs.Valid() && |ucs.data[..]| == |mem0|
      invariant ucs.frontier.nodes == old(ucs.frontier.nodes) || fresh(ucs.frontier.nodes)
      invariant Reads(s, ucs.data[..], d) && Searching(s, mem0, d, ucs.frontier.Contents())
      invariant !more ==> ucs.frontier.Contents() == multiset{}
      decreases Potential(ucs.distance.intSize, ucs.data[..]) + ucs.frontier.size, more
    {
      more, d := Turn(ucs, mem0, d);
    }
    SearchingDone(s, mem0, ucs.data[..], d);
  }

  /** One turn of the second loop of `dijkstra`: a step of the search, and
      whether it succeeded. The search stays inside its invariant, and a
      successful step lowers the potential plus the frontier's size. */
  method Turn(ucs: UniformCostSearch, ghost mem0: seq<int>, ghost d: Relaxation.View)
    returns (more: bool, ghost d': Relaxation.View)
    requires ucs.Valid() && |mem0| == ucs.data.Length
    requires Reads(ucs.Setting(), ucs.data[..], d) && Searching(ucs.Setting(), mem0, d, ucs.frontier.Contents())
    modifies ucs.frontier, ucs.frontier.nodes, ucs.data
    ensures ucs.Valid()
    ensures ucs.frontier.nodes == old(ucs.frontier.nodes) || fresh(ucs.frontier.nodes)
    ensures Reads(ucs.Setting(), ucs.data[..], d') && Searching(ucs.Setting(), mem0, d', ucs.frontier.Contents())
    ensures more ==>
      Potential(ucs.distance.intSize, ucs.data[..]) + ucs.frontier.size
        < old(Potential(ucs.distance.intSize, ucs.data[..])) + old(ucs.frontier.size)
    ensures !more ==> ucs.frontier.Contents() == multiset{} && ucs.data[..] == old(ucs.data[..]) && ucs.frontier.size == 0
  {
    ghost var s := ucs.Setting();
    ghost var c := ucs.frontier.Contents();
    var status, popped := Step(ucs, d);
    more := status == Ok;
    if !more {
      assert |ucs.frontier.Contents()| == ucs.frontier.size;
      d' := d;
      return;
    }
    SearchingStep(s, mem0, d, c, popped);
    d' := Relaxation.Step(NetOf(s), d, c, popped).0;
  }
}
