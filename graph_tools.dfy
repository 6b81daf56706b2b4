/** Graphs over a grid: the basic 2D graph connects each index to the up to
    eight neighbours that differ from it in the last two coordinates, with a
    cost of a cardinal or diagonal multiplier times the terrain there. */
module Graphs {
  import opened Common
  import opened Maps

  /** The graph types. `Basic2D` reads its terrain from `terrainMap`. */
  datatype Graph =
    | Undefined
    | Basic2D(terrainMap: GridMap, cardinal: Int32, diagonal: Int32)
    | Static

  /** An edge as handed to the edge callback: the root index, the leaf index
      and the cost of moving from one to the other. The cost is the exact
      product of the multiplier and the terrain value. */
  datatype Edge = Edge(root: seq<int>, leaf: seq<int>, cost: int)

  /** The vertical and horizontal offsets of the `k`-th neighbour position:
      `y` is the outer loop and `x` the inner one, both from -1 to 1, so
      position 4 is the centre. */
  function DeltaY(k: int): int { k / 3 - 1 }
  function DeltaX(k: int): int { k % 3 - 1 }

  /** The root moved by `(y, x)` in its last two coordinates. */
  function Leaf(root: seq<int>, n: int, y: int, x: int): (r: seq<int>)
    requires 2 <= n <= |root|
    ensures |r| == |root|
  {
    root[n - 2 := root[n - 2] + y][n - 1 := root[n - 1] + x]
  }

  /** The multiplier of a move: diagonal when both offsets are non-zero. */
  function BaseCost(g: Graph, y: int, x: int): Int32
    requires g.Basic2D?
  {
    if x != 0 && y != 0 then g.diagonal else g.cardinal
  }

  /** What the callers of the edge enumeration must provide: an index of
      `n` coordinates, at least two for the 2D graph, and a terrain map valid for its buffer that
      reads no coordinate beyond `n`. */
  ghost predicate Ready(g: Graph, terrain: seq<int>, n: int, root: seq<int>) {
    && n == |root|
    && (g.Basic2D? ==> 2 <= n && Valid(g.terrainMap, |terrain|) && Dimensions(g.terrainMap) <= n)
  }

  /** The edge to the `k`-th neighbour position, if it is emitted: never the
      centre, never when the multiplier is not positive, never when the cost
      is not positive. */
  function EdgeAt(g: Graph, terrain: seq<int>, n: int, root: seq<int>, k: int): (r: Option<Edge>)
    requires g.Basic2D? && Ready(g, terrain, n, root)
    ensures DeltaY(k) == 0 && DeltaX(k) == 0 ==> r.None?
    ensures BaseCost(g, DeltaY(k), DeltaX(k)) <= 0 ==> r.None?
    ensures r.Some? ==> r.value.root == root && r.value.leaf == Leaf(root, n, DeltaY(k), DeltaX(k))
    ensures r.Some? ==>
      0 < r.value.cost == BaseCost(g, DeltaY(k), DeltaX(k)) * Get(g.terrainMap, terrain, r.value.leaf)
  {
    var y, x := DeltaY(k), DeltaX(k);
    if x == 0 && y == 0 then None
    else
      var base := BaseCost(g, y, x);
      if base <= 0 then None
      else
        var leaf := Leaf(root, n, y, x);
        var cost := base * Get(g.terrainMap, terrain, leaf);
        if cost <= 0 then None else Some(Edge(root, leaf, cost))
  }

  /** The edge fits the description of a grid move from `root`: same root,
      a leaf that agrees with it except for offsets in `{-1, 0, 1}` on the
      last two coordinates, not both zero, and a positive cost that is the
      move's multiplier times the terrain at the leaf. */
  ghost predicate GridMove(g: Graph, terrain: seq<int>, n: int, root: seq<int>, e: Edge)
    requires g.Basic2D? && Ready(g, terrain, n, root)
  {
    exists y, x | -1 <= y <= 1 && -1 <= x <= 1 && (y, x) != (0, 0) ::
      && e.root == root
      && e.leaf == Leaf(root, n, y, x)
      && BaseCost(g, y, x) > 0
      && e.cost == BaseCost(g, y, x) * Get(g.terrainMap, terrain, e.leaf)
      && e.cost > 0
  }

  /** The edges emitted for the first `k` neighbour positions, in order. */
  function EdgesBefore(g: Graph, terrain: seq<int>, n: int, root: seq<int>, k: nat): (r: seq<Edge>)
    requires g.Basic2D? && Ready(g, terrain, n, root) && k <= 9
    ensures |r| <= k - (if k > 4 then 1 else 0)
    ensures forall i :: 0 <= i < |r| ==> |r[i].leaf| == n
  {
    if k == 0 then []
    else
      var prior := EdgesBefore(g, terrain, n, root, k - 1);
      match EdgeAt(g, terrain, n, root, k - 1)
      case None => prior
      case Some(e) => prior + [e]
  }

  /** Every edge the graph emits for `root`, in emission order: at most
      eight, and none for a static or undefined graph. */
  function Edges(g: Graph, terrain: seq<int>, n: int, root: seq<int>): (r: seq<Edge>)
    requires Ready(g, terrain, n, root)
    ensures !g.Basic2D? ==> r == []
    ensures |r| <= 8
    ensures forall i :: 0 <= i < |r| ==> |r[i].leaf| == n
  {
    if g.Basic2D? then EdgesBefore(g, terrain, n, root, 9) else []
  }

  /** Enumerates the edges of `root` with the nested `y`/`x` loops, moving a
      copy of the root to each neighbour in turn. */
  method CollectEdges(g: Graph, terrain: seq<int>, n: int, root: seq<int>) returns (r: seq<Edge>)
    requires Ready(g, terrain, n, root)
    ensures r == Edges(g, terrain, n, root)
  {
    if !g.Basic2D? {
      return [];
    }
    r := [];
    var leaf := root;
    var y := -1;
    while y <= 1
      invariant -1 <= y <= 2
      invariant |leaf| == n && leaf[..n - 2] == root[..n - 2]
      invariant r == EdgesBefore(g, terrain, n, root, 3 * (y + 1))
    {
      r, leaf := CollectRow(g, terrain, n, root, y, r, leaf);
      y := y + 1;
    }
  }

  /** The inner loop of the enumeration: the three positions of row `y`. */
  method CollectRow(g: Graph, terrain: seq<int>, n: int, root: seq<int>, y: int,
                    r0: seq<Edge>, leaf0: seq<int>) returns (r: seq<Edge>, leaf: seq<int>)
    requires g.Basic2D? && Ready(g, terrain, n, root) && -1 <= y <= 1
    requires |leaf0| == n && leaf0[..n - 2] == root[..n - 2]
    requires r0 == EdgesBefore(g, terrain, n, root, 3 * (y + 1))
    ensures |leaf| == n && leaf[..n - 2] == root[..n - 2]
    ensures r == EdgesBefore(g, terrain, n, root, 3 * (y + 2))
  {
    r, leaf := r0, leaf0;
    var x := -1;
    ghost var k := 3 * (y + 1);
    while x <= 1
      invariant -1 <= x <= 2 && k == 3 * (y + 1) + (x + 1)
      invariant |leaf| == n && leaf[..n - 2] == root[..n - 2]
      invariant r == EdgesBefore(g, terrain, n, root, k)
    {
      var emit, cost;
      emit, cost, leaf := Neighbour(g, terrain, n, root, y, x, leaf);
      assert 3 * (y + 1) + (x + 1) == k;
      NextPosition(g, terrain, n, root, k);
      if emit {
        r := r + [Edge(root, leaf, cost)];
      }
      x, k := x + 1, k + 1;
    }
  }

  /** The body of the inner loop: skips the centre, moves the leaf to
      `(y, x)` and decides whether the edge to it is emitted, and at what
      cost. */
  method Neighbour(g: Graph, terrain: seq<int>, n: int, root: seq<int>, y: int, x: int, leaf0: seq<int>)
    returns (emit: bool, cost: int, leaf: seq<int>)
    requires g.Basic2D? && Ready(g, terrain, n, root) && -1 <= y <= 1 && -1 <= x <= 1
    requires |leaf0| == n && leaf0[..n - 2] == root[..n - 2]
    ensures |leaf| == n && leaf[..n - 2] == root[..n - 2]
    ensures EdgeAt(g, terrain, n, root, 3 * (y + 1) + (x + 1)) ==
      if emit then Some(Edge(root, leaf, cost)) else None
  {
    var k := 3 * (y + 1) + (x + 1);
    assert DeltaY(k) == y && DeltaX(k) == x;
    emit, cost, leaf := false, 0, leaf0;
    if x == 0 && y == 0 {
      return;
    }
    leaf := leaf[n - 2 := root[n - 2] + y][n - 1 := root[n - 1] + x];
    assert leaf == Leaf(root, n, y, x);
    var base := if x != 0 && y != 0 then g.diagonal else g.cardinal;
    if base <= 0 {
      return;
    }
    cost := base * Get(g.terrainMap, terrain, leaf);
    emit := cost > 0;
  }

  // ---------------------------------------------------------------- lemmas

  /** One more position appends its edge, if any. */
  lemma NextPosition(g: Graph, terrain: seq<int>, n: int, root: seq<int>, k: nat)
    requires g.Basic2D? && Ready(g, terrain, n, root) && k < 9
    ensures EdgesBefore(g, terrain, n, root, k + 1) ==
      EdgesBefore(g, terrain, n, root, k) +
        (if EdgeAt(g, terrain, n, root, k).Some? then [EdgeAt(g, terrain, n, root, k).value] else [])
  {
  }

  /** Every emitted edge is a grid move from the root with a positive cost. */
  lemma EdgesSound(g: Graph, terrain: seq<int>, n: int, root: seq<int>)
    requires g.Basic2D? && Ready(g, terrain, n, root)
    ensures forall e :: e in Edges(g, terrain, n, root) ==> GridMove(g, terrain, n, root, e)
  {
    SoundBefore(g, terrain, n, root, 9);
  }

  lemma {:induction false} SoundBefore(g: Graph, terrain: seq<int>, n: int, root: seq<int>, k: nat)
    requires g.Basic2D? && Ready(g, terrain, n, root) && k <= 9
    ensures forall e :: e in EdgesBefore(g, terrain, n, root, k) ==> GridMove(g, terrain, n, root, e)
  {
    if k > 0 {
      SoundBefore(g, terrain, n, root, k - 1);
      match EdgeAt(g, terrain, n, root, k - 1)
      case None =>
      case Some(e) =>
        var y, x := DeltaY(k - 1), DeltaX(k - 1);
        assert -1 <= y <= 1 && -1 <= x <= 1 && (y, x) != (0, 0);
        assert GridMove(g, terrain, n, root, e);
    }
  }

  /** Each neighbour position whose multiplier and cost are positive is
      emitted: the edge to it is among the graph's edges. */
  lemma {:induction false} EdgesComplete(g: Graph, terrain: seq<int>, n: int, root: seq<int>, y: int, x: int)
    requires g.Basic2D? && Ready(g, terrain, n, root)
    requires -1 <= y <= 1 && -1 <= x <= 1 && (y, x) != (0, 0)
    requires BaseCost(g, y, x) > 0
    requires BaseCost(g, y, x) * Get(g.terrainMap, terrain, Leaf(root, n, y, x)) > 0
    ensures Edge(root, Leaf(root, n, y, x), BaseCost(g, y, x) * Get(g.terrainMap, terrain, Leaf(root, n, y, x)))
            in Edges(g, terrain, n, root)
  {
    var k := 3 * (y + 1) + (x + 1);
    assert DeltaY(k) == y && DeltaX(k) == x;
    var leaf := Leaf(root, n, y, x);
    var e := Edge(root, leaf, BaseCost(g, y, x) * Get(g.terrainMap, terrain, leaf));
    assert EdgeAt(g, terrain, n, root, k) == Some(e);
    Emitted(g, terrain, n, root, k, e);
  }

  /** The edge a position yields is among the graph's edges. */
  lemma Emitted(g: Graph, terrain: seq<int>, n: int, root: seq<int>, k: nat, e: Edge)
    requires g.Basic2D? && Ready(g, terrain, n, root) && k < 9
    requires EdgeAt(g, terrain, n, root, k) == Some(e)
    ensures e in Edges(g, terrain, n, root)
  {
    assert EdgesBefore(g, terrain, n, root, k + 1) == EdgesBefore(g, terrain, n, root, k) + [e];
    EmittedStays(g, terrain, n, root, k + 1, 9);
    assert EdgesBefore(g, terrain, n, root, 9)[|EdgesBefore(g, terrain, n, root, k)|] == e;
  }

  /** Later positions only append: the edges of the first `j` positions are a
      prefix of those of the first `k`. */
  lemma {:induction false} EmittedStays(g: Graph, terrain: seq<int>, n: int, root: seq<int>, j: nat, k: nat)
    requires g.Basic2D? && Ready(g, terrain, n, root) && j <= k <= 9
    ensures EdgesBefore(g, terrain, n, root, j) <= EdgesBefore(g, terrain, n, root, k)
  {
    if j < k {
      EmittedStays(g, terrain, n, root, j, k - 1);
    }
  }

  /** Distinct positions give distinct leaves, so no leaf is emitted twice. */
  lemma EdgesDistinct(g: Graph, terrain: seq<int>, n: int, root: seq<int>)
    requires g.Basic2D? && Ready(g, terrain, n, root)
    ensures forall i, j :: 0 <= i < j < |Edges(g, terrain, n, root)| ==>
      Edges(g, terrain, n, root)[i].leaf != Edges(g, terrain, n, root)[j].leaf
  {
    DistinctBefore(g, terrain, n, root, 9);
  }

  /** Every edge among the first `k` positions comes from a position before
      `k`, and the positions increase along the sequence. */
  ghost predicate FromPositions(root: seq<int>, n: int, es: seq<Edge>, k: int)
    requires 2 <= n <= |root|
  {
    forall i :: 0 <= i < |es| ==>
      exists p | 0 <= p < k && p != 4 :: es[i].leaf == Leaf(root, n, DeltaY(p), DeltaX(p))
  }

  lemma {:induction false} DistinctBefore(g: Graph, terrain: seq<int>, n: int, root: seq<int>, k: nat)
    requires g.Basic2D? && Ready(g, terrain, n, root) && k <= 9
    ensures FromPositions(root, n, EdgesBefore(g, terrain, n, root, k), k)
    ensures forall i, j :: 0 <= i < j < |EdgesBefore(g, terrain, n, root, k)| ==>
      EdgesBefore(g, terrain, n, root, k)[i].leaf != EdgesBefore(g, terrain, n, root, k)[j].leaf
  {
    if k > 0 {
      DistinctBefore(g, terrain, n, root, k - 1);
      var prior := EdgesBefore(g, terrain, n, root, k - 1);
      var es := EdgesBefore(g, terrain, n, root, k);
      match EdgeAt(g, terrain, n, root, k - 1)
      case None =>
      case Some(e) =>
        assert es == prior + [e];
        var last := Leaf(root, n, DeltaY(k - 1), DeltaX(k - 1));
        forall i | 0 <= i < |prior|
          ensures prior[i].leaf != last
        {
          var p :| 0 <= p < k - 1 && p != 4 && prior[i].leaf == Leaf(root, n, DeltaY(p), DeltaX(p));
          LeavesApart(root, n, p, k - 1);
        }
        forall i | 0 <= i < |es|
          ensures exists p | 0 <= p < k && p != 4 :: es[i].leaf == Leaf(root, n, DeltaY(p), DeltaX(p))
        {
          if i == |prior| {
            assert k - 1 != 4;
          } else {
            assert es[i] == prior[i];
          }
        }
    }
  }

  /** Two different positions move the root to different leaves. */
  lemma LeavesApart(root: seq<int>, n: int, p: int, q: int)
    requires 2 <= n <= |root| && 0 <= p < q < 9
    ensures Leaf(root, n, DeltaY(p), DeltaX(p)) != Leaf(root, n, DeltaY(q), DeltaX(q))
  {
    var a, b := Leaf(root, n, DeltaY(p), DeltaX(p)), Leaf(root, n, DeltaY(q), DeltaX(q));
    if DeltaY(p) != DeltaY(q) {
      assert a[n - 2] != b[n - 2];
    } else {
      assert a[n - 1] != b[n - 1];
    }
  }

  /** With a bounded buffer terrain no edge leaves the terrain's bounds: an
      out-of-bounds leaf reads as 0, which makes its cost 0. */
  lemma EdgesInBounds(g: Graph, terrain: seq<int>, n: int, root: seq<int>, e: Edge)
    requires g.Basic2D? && Ready(g, terrain, n, root) && g.terrainMap.IsBuffer()
    requires e in Edges(g, terrain, n, root)
    ensures |e.leaf| == n && InBounds(g.terrainMap, e.leaf) && Get(g.terrainMap, terrain, e.leaf) > 0
  {
    EdgesSound(g, terrain, n, root);
    var y, x :| -1 <= y <= 1 && -1 <= x <= 1 && (y, x) != (0, 0) &&
      e.leaf == Leaf(root, n, y, x) && BaseCost(g, y, x) > 0 &&
      e.cost == BaseCost(g, y, x) * Get(g.terrainMap, terrain, e.leaf) && e.cost > 0;
    PositiveFactor(BaseCost(g, y, x), Get(g.terrainMap, terrain, e.leaf));
  }

  /** Every edge leads from the root to a different index at a positive cost. */
  lemma EdgesMove(g: Graph, terrain: seq<int>, n: int, root: seq<int>, e: Edge)
    requires g.Basic2D? && Ready(g, terrain, n, root)
    requires e in Edges(g, terrain, n, root)
    ensures e.root == root && e.leaf != root && e.cost > 0
  {
    EdgesSound(g, terrain, n, root);
    var y, x :| -1 <= y <= 1 && -1 <= x <= 1 && (y, x) != (0, 0) &&
      e.root == root && e.leaf == Leaf(root, n, y, x) && e.cost > 0;
    assert e.leaf[n - 2] != root[n - 2] || e.leaf[n - 1] != root[n - 1];
  }

  /** A non-positive multiplier suppresses its whole class of moves: without
      diagonal moves every leaf keeps one of the two coordinates, without
      cardinal moves every leaf changes both. */
  lemma ClassSuppressed(g: Graph, terrain: seq<int>, n: int, root: seq<int>)
    requires g.Basic2D? && Ready(g, terrain, n, root)
    ensures g.diagonal <= 0 ==> forall e :: e in Edges(g, terrain, n, root) ==>
      |e.leaf| == n && (e.leaf[n - 2] == root[n - 2] || e.leaf[n - 1] == root[n - 1])
    ensures g.cardinal <= 0 ==> forall e :: e in Edges(g, terrain, n, root) ==>
      |e.leaf| == n && e.leaf[n - 2] != root[n - 2] && e.leaf[n - 1] != root[n - 1]
  {
    EdgesSound(g, terrain, n, root);
    forall e | e in Edges(g, terrain, n, root)
      ensures |e.leaf| == n
      ensures g.diagonal <= 0 ==> e.leaf[n - 2] == root[n - 2] || e.leaf[n - 1] == root[n - 1]
      ensures g.cardinal <= 0 ==> e.leaf[n - 2] != root[n - 2] && e.leaf[n - 1] != root[n - 1]
    {
      var y, x :| -1 <= y <= 1 && -1 <= x <= 1 && (y, x) != (0, 0) &&
        e.leaf == Leaf(root, n, y, x) && BaseCost(g, y, x) > 0;
    }
  }

  // ---------------------------------------------------- arithmetic support
  // A fact about integer multiplication that the proofs above need spelled
  // out; it models nothing of the library.

  lemma PositiveFactor(a: int, b: int)
    requires a > 0 && a * b > 0
    ensures b > 0
  {
  }
}
