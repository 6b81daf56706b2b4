/** Uniform-cost search on values: the distances as a function from index to
    distance (a view of the distance map), the graph as the edge list handed
    out for each index, and the frontier as a multiset of heap nodes. This
    module states what relaxing an edge and a whole search step do, and the
    invariant the search keeps; the search state in module Search is proved
    to follow these values step by step. */
module Relaxation {
  import opened Heapq
  import opened Graphs

  /** A distance for every index. */
  type View = seq<int> -> int

  /** The graph as the search sees it: which indices are cells of the
      distance map, which ones may be entered at all, and the edges out of
      each cell, in the order the graph hands them out. */
  datatype Net = Net(cell: seq<int> -> bool, passable: seq<int> -> bool, edges: seq<int> -> seq<Edge>)

  /** Every edge out of a cell starts there, ends at a different passable
      cell and costs something. */
  ghost predicate Sound(net: Net) {
    forall r, e | net.cell(r) && e in net.edges(r) ::
      e.root == r && e.leaf != r && e.cost > 0 && net.cell(e.leaf) && net.passable(e.leaf)
  }

  /** `bound` grows along no edge by more than the edge's cost. */
  ghost predicate Consistent(net: Net, bound: View) {
    forall r, e | net.cell(r) && e in net.edges(r) :: bound(e.leaf) <= bound(r) + e.cost
  }

  function Update(d: View, leaf: seq<int>, v: int): (d': View)
    ensures d'(leaf) == v
    ensures forall r :: r != leaf ==> d'(r) == d(r)
  {
    r => if r == leaf then v else d(r)
  }

  /** Relaxing one edge: when the path through the root is strictly shorter
      than the leaf's distance, the leaf takes that distance and is pushed
      with it as priority; otherwise nothing happens. */
  function Relax(d: View, e: Edge): (View, multiset<Node>) {
    var total := d(e.root) + e.cost;
    if d(e.leaf) <= total then (d, multiset{})
    else (Update(d, e.leaf, total), multiset{Node(total, e.leaf)})
  }

  /** Relaxing the first `k` edges in order: the view after them and the
      nodes they push. */
  function RelaxAll(d: View, es: seq<Edge>, k: nat): (View, multiset<Node>)
    requires k <= |es|
  {
    if k == 0 then (d, multiset{})
    else
      var prior := RelaxAll(d, es, k - 1);
      var last := Relax(prior.0, es[k - 1]);
      (last.0, prior.1 + last.1)
  }

  /** No distance is higher in `d'` than in `d`. */
  ghost predicate Lowered(d: View, d': View) {
    forall r :: d'(r) <= d(r)
  }

  /** No edge out of `r` can lower its leaf. */
  ghost predicate Relaxed(net: Net, d: View, r: seq<int>) {
    forall e | e in net.edges(r) :: d(e.leaf) <= d(r) + e.cost
  }

  /** Some node of the frontier holds `r`. */
  ghost predicate Queued(c: multiset<Node>, r: seq<int>) {
    exists nd :: nd in c && nd.payload == r
  }

  /** `r` held the sentinel when the search began and still has its
      distance: the search never reached it. */
  ghost predicate Unreached(sentinel: seq<int> -> bool, d0: View, d: View, r: seq<int>) {
    sentinel(r) && d(r) == d0(r)
  }

  /** The frontier holds cells that were reached. */
  ghost predicate FrontierCells(net: Net, sentinel: seq<int> -> bool, d0: View, d: View, c: multiset<Node>) {
    forall nd | nd in c :: net.cell(nd.payload) && !Unreached(sentinel, d0, d, nd.payload)
  }

  /** Every cell is in the frontier, unreached, or has all of its edges
      relaxed. */
  ghost predicate Settled(net: Net, sentinel: seq<int> -> bool, d0: View, d: View, c: multiset<Node>) {
    forall r | net.cell(r) :: Queued(c, r) || Unreached(sentinel, d0, d, r) || Relaxed(net, d, r)
  }

  /** Every reached cell's distance is at least `bound`. */
  ghost predicate Above(net: Net, sentinel: seq<int> -> bool, bound: View, d0: View, d: View) {
    forall r | net.cell(r) && !Unreached(sentinel, d0, d, r) :: bound(r) <= d(r)
  }

  /** Only passable indices changed. */
  ghost predicate ChangedPassable(net: Net, d0: View, d: View) {
    forall r | d(r) != d0(r) :: net.passable(r)
  }

  /** What holds of the search between steps, for a search that started
      from the view `d0` with `sentinel` telling the cells that held the
      largest value. */
  ghost predicate Inv(net: Net, sentinel: seq<int> -> bool, d0: View, d: View, c: multiset<Node>) {
    && Lowered(d0, d)
    && FrontierCells(net, sentinel, d0, d, c)
    && Settled(net, sentinel, d0, d, c)
    && ChangedPassable(net, d0, d)
  }

  // ------------------------------------------------ relaxing a root's edges

  /** The edges `es` all leave `r0` for other passable cells at a positive
      cost. */
  ghost predicate Leaving(net: Net, r0: seq<int>, es: seq<Edge>) {
    forall j :: 0 <= j < |es| ==>
      es[j].root == r0 && es[j].leaf != r0 && es[j].cost > 0 && net.cell(es[j].leaf) && net.passable(es[j].leaf)
  }

  lemma RelaxLowers(d: View, e: Edge)
    ensures Lowered(d, Relax(d, e).0)
  {
  }

  /** Relaxing an edge changes at most its leaf, to the root's distance
      plus the cost. */
  lemma RelaxChanges(d: View, e: Edge, r: seq<int>)
    ensures Relax(d, e).0(r) == d(r) || (r == e.leaf && Relax(d, e).0(r) == d(e.root) + e.cost)
  {
  }

  /** A node pushed by relaxing an edge holds its leaf, which went down to
      the node's priority. */
  lemma RelaxPushes(d: View, e: Edge, nd: Node)
    requires nd in Relax(d, e).1
    ensures nd.payload == e.leaf && Relax(d, e).0(e.leaf) == nd.priority < d(e.leaf)
  {
  }

  /** Relaxing edges lowers distances only. */
  lemma {:induction false} PrefixLowers(d: View, es: seq<Edge>, k: nat)
    requires k <= |es|
    ensures Lowered(d, RelaxAll(d, es, k).0)
  {
    if k > 0 {
      PrefixLowers(d, es, k - 1);
      var m := RelaxAll(d, es, k - 1).0;
      RelaxLowers(m, es[k - 1]);
      assert RelaxAll(d, es, k).0 == Relax(m, es[k - 1]).0;
    }
  }

  /** An index that is no leaf of the first `k` edges keeps its distance. */
  lemma {:induction false} PrefixKeeps(d: View, es: seq<Edge>, k: nat, r: seq<int>)
    requires k <= |es| && forall j :: 0 <= j < k ==> es[j].leaf != r
    ensures RelaxAll(d, es, k).0(r) == d(r)
  {
    if k > 0 {
      PrefixKeeps(d, es, k - 1, r);
      assert RelaxAll(d, es, k).0 == Relax(RelaxAll(d, es, k - 1).0, es[k - 1]).0;
    }
  }

  /** After the first `k` edges out of `r0`, none of them can lower its leaf
      any more. */
  lemma {:induction false} PrefixRelaxes(net: Net, d: View, r0: seq<int>, es: seq<Edge>, k: nat)
    requires k <= |es| && Leaving(net, r0, es)
    ensures forall j :: 0 <= j < k ==>
      RelaxAll(d, es, k).0(es[j].leaf) <= RelaxAll(d, es, k).0(r0) + es[j].cost
  {
    if k > 0 {
      PrefixRelaxes(net, d, r0, es, k - 1);
      var m := RelaxAll(d, es, k - 1).0;
      var e := es[k - 1];
      var m' := Relax(m, e).0;
      assert RelaxAll(d, es, k).0 == m';
      RelaxLowers(m, e);
      assert m'(r0) == m(r0);
      forall j | 0 <= j < k
        ensures m'(es[j].leaf) <= m'(r0) + es[j].cost
      {
        if j < k - 1 {
          assert m'(es[j].leaf) <= m(es[j].leaf);
        }
      }
    }
  }

  /** Every index whose distance the first `k` edges changed was pushed. */
  lemma {:induction false} PrefixQueues(d: View, es: seq<Edge>, k: nat, r: seq<int>)
    requires k <= |es|
    ensures RelaxAll(d, es, k).0(r) == d(r) || Queued(RelaxAll(d, es, k).1, r)
  {
    if k > 0 {
      PrefixQueues(d, es, k - 1, r);
      var (m, pushed) := RelaxAll(d, es, k - 1);
      var e := es[k - 1];
      var (m', more) := Relax(m, e);
      assert RelaxAll(d, es, k) == (m', pushed + more);
      if Queued(pushed, r) {
        var nd :| nd in pushed && nd.payload == r;
        assert nd in pushed + more;
      } else if m'(r) != m(r) {
        var total := m(e.root) + e.cost;
        assert more == multiset{Node(total, e.leaf)} && r == e.leaf;
        assert Node(total, e.leaf) in pushed + more;
      }
    }
  }

  /** Every node the first `k` edges pushed holds one of their leaves. */
  lemma {:induction false} PrefixPushed(d: View, es: seq<Edge>, k: nat, nd: Node)
    requires k <= |es| && nd in RelaxAll(d, es, k).1
    ensures exists j :: 0 <= j < k && es[j].leaf == nd.payload
  {
    var m := RelaxAll(d, es, k - 1).0;
    assert RelaxAll(d, es, k).1 == RelaxAll(d, es, k - 1).1 + Relax(m, es[k - 1]).1;
    if nd in RelaxAll(d, es, k - 1).1 {
      PrefixPushed(d, es, k - 1, nd);
    } else {
      RelaxPushes(m, es[k - 1], nd);
      assert es[k - 1].leaf == nd.payload;
    }
  }

  /** The distance of every index a pushed node holds went down. */
  lemma {:induction false} PrefixPushedLower(d: View, es: seq<Edge>, k: nat, nd: Node)
    requires k <= |es| && nd in RelaxAll(d, es, k).1
    ensures RelaxAll(d, es, k).0(nd.payload) < d(nd.payload)
  {
    var m := RelaxAll(d, es, k - 1).0;
    var e := es[k - 1];
    assert RelaxAll(d, es, k).0 == Relax(m, e).0;
    assert RelaxAll(d, es, k).1 == RelaxAll(d, es, k - 1).1 + Relax(m, e).1;
    var p := nd.payload;
    if nd in RelaxAll(d, es, k - 1).1 {
      PrefixPushedLower(d, es, k - 1, nd);
      RelaxLowers(m, e);
    } else {
      RelaxPushes(m, e, nd);
      PrefixLowers(d, es, k - 1);
      assert m(p) <= d(p);
    }
  }

  /** When the root is at least `bound` and `bound` grows along no edge by
      more than its cost, every index the first `k` edges changed is at
      least `bound` too. */
  lemma {:induction false} PrefixAbove(bound: View, d: View, r0: seq<int>, es: seq<Edge>, k: nat, r: seq<int>)
    requires k <= |es| && bound(r0) <= d(r0)
    requires forall j :: 0 <= j < |es| ==> es[j].root == r0 && es[j].leaf != r0
    requires forall j :: 0 <= j < |es| ==> bound(es[j].leaf) <= bound(r0) + es[j].cost
    ensures RelaxAll(d, es, k).0(r) == d(r) || bound(r) <= RelaxAll(d, es, k).0(r)
  {
    if k > 0 {
      PrefixAbove(bound, d, r0, es, k - 1, r);
      var m := RelaxAll(d, es, k - 1).0;
      var e := es[k - 1];
      var v := Relax(m, e).0(r);
      assert RelaxAll(d, es, k).0(r) == v;
      RelaxChanges(m, e, r);
      if v != m(r) {
        PrefixKeeps(d, es, k - 1, r0);
        assert e.root == r0 && r == e.leaf && v == m(r0) + e.cost;
        assert bound(e.leaf) <= bound(r0) + e.cost;
      }
    }
  }

  // ------------------------------------------------------ one search step

  /** The edges out of a cell, as a sound graph hands them out. */
  lemma EdgesLeave(net: Net, r0: seq<int>)
    requires Sound(net) && net.cell(r0)
    ensures Leaving(net, r0, net.edges(r0))
  {
    var es := net.edges(r0);
    forall j | 0 <= j < |es|
      ensures es[j].root == r0 && es[j].leaf != r0 && es[j].cost > 0
      ensures net.cell(es[j].leaf) && net.passable(es[j].leaf)
    {
      assert es[j] in net.edges(r0);
    }
  }

  /** The view and the frontier after popping `nd` and relaxing the edges
      out of its cell. */
  function Step(net: Net, d: View, c: multiset<Node>, nd: Node): (View, multiset<Node>) {
    var es := net.edges(nd.payload);
    var (d', pushed) := RelaxAll(d, es, |es|);
    (d', c - multiset{nd} + pushed)
  }

  /** A node the step pushed holds a passable cell whose distance went
      down. */
  lemma StepPushed(net: Net, d: View, nd: Node, x: Node)
    requires Sound(net) && net.cell(nd.payload)
    requires x in RelaxAll(d, net.edges(nd.payload), |net.edges(nd.payload)|).1
    ensures net.cell(x.payload) && net.passable(x.payload)
    ensures RelaxAll(d, net.edges(nd.payload), |net.edges(nd.payload)|).0(x.payload) < d(x.payload)
  {
    var es := net.edges(nd.payload);
    EdgesLeave(net, nd.payload);
    PrefixPushed(d, es, |es|, x);
    PrefixPushedLower(d, es, |es|, x);
  }

  lemma StepFrontier(net: Net, sentinel: seq<int> -> bool, d0: View, d: View, c: multiset<Node>, nd: Node)
    requires Sound(net) && Lowered(d0, d) && FrontierCells(net, sentinel, d0, d, c) && nd in c
    ensures FrontierCells(net, sentinel, d0, Step(net, d, c, nd).0, Step(net, d, c, nd).1)
  {
    var es := net.edges(nd.payload);
    var (d', pushed) := RelaxAll(d, es, |es|);
    assert Step(net, d, c, nd) == (d', c - multiset{nd} + pushed);
    PrefixLowers(d, es, |es|);
    forall x | x in c - multiset{nd} + pushed
      ensures net.cell(x.payload) && !Unreached(sentinel, d0, d', x.payload)
    {
      var p := x.payload;
      if x in pushed {
        StepPushed(net, d, nd, x);
        assert d'(p) < d(p) <= d0(p);
      } else {
        assert x in c;
        assert d'(p) <= d(p) <= d0(p);
      }
    }
  }

  lemma StepSettled(net: Net, sentinel: seq<int> -> bool, d0: View, d: View, c: multiset<Node>, nd: Node)
    requires Sound(net) && Settled(net, sentinel, d0, d, c) && nd in c && net.cell(nd.payload)
    ensures Settled(net, sentinel, d0, Step(net, d, c, nd).0, Step(net, d, c, nd).1)
  {
    var r0 := nd.payload;
    var es := net.edges(r0);
    var (d', pushed) := RelaxAll(d, es, |es|);
    var c' := c - multiset{nd} + pushed;
    assert Step(net, d, c, nd) == (d', c');
    EdgesLeave(net, r0);
    PrefixLowers(d, es, |es|);
    forall r | net.cell(r)
      ensures Queued(c', r) || Unreached(sentinel, d0, d', r) || Relaxed(net, d', r)
    {
      PrefixQueues(d, es, |es|, r);
      if d'(r) != d(r) {
        var x :| x in pushed && x.payload == r;
        assert x in c';
      } else if r == r0 {
        PrefixRelaxes(net, d, r0, es, |es|);
        forall e | e in net.edges(r0)
          ensures d'(e.leaf) <= d'(r0) + e.cost
        {
          var j :| 0 <= j < |es| && es[j] == e;
        }
      } else if Queued(c, r) {
        var x :| x in c && x.payload == r;
        assert x in c';
      } else if !Unreached(sentinel, d0, d, r) {
        assert Relaxed(net, d, r);
        forall e | e in net.edges(r)
          ensures d'(e.leaf) <= d'(r) + e.cost
        {
          assert d'(e.leaf) <= d(e.leaf);
        }
      }
    }
  }

  lemma StepAbove(net: Net, sentinel: seq<int> -> bool, bound: View, d0: View, d: View,
                  c: multiset<Node>, nd: Node)
    requires Sound(net) && Consistent(net, bound) && Lowered(d0, d)
    requires FrontierCells(net, sentinel, d0, d, c) && Above(net, sentinel, bound, d0, d) && nd in c
    ensures Above(net, sentinel, bound, d0, Step(net, d, c, nd).0)
  {
    var r0 := nd.payload;
    var es := net.edges(r0);
    var d' := RelaxAll(d, es, |es|).0;
    assert Step(net, d, c, nd).0 == d';
    assert net.cell(r0) && !Unreached(sentinel, d0, d, r0);
    EdgesLeave(net, r0);
    forall j | 0 <= j < |es|
      ensures bound(es[j].leaf) <= bound(r0) + es[j].cost
    {
      assert es[j] in net.edges(r0);
    }
    PrefixLowers(d, es, |es|);
    forall r | net.cell(r) && !Unreached(sentinel, d0, d', r)
      ensures bound(r) <= d'(r)
    {
      PrefixAbove(bound, d, r0, es, |es|, r);
      if d'(r) == d(r) {
        assert !Unreached(sentinel, d0, d, r);
      }
    }
  }

  lemma StepPassable(net: Net, d0: View, d: View, c: multiset<Node>, nd: Node)
    requires Sound(net) && ChangedPassable(net, d0, d) && net.cell(nd.payload)
    ensures ChangedPassable(net, d0, Step(net, d, c, nd).0)
  {
    var es := net.edges(nd.payload);
    var (d', pushed) := RelaxAll(d, es, |es|);
    assert Step(net, d, c, nd).0 == d';
    forall r | d'(r) != d0(r)
      ensures net.passable(r)
    {
      PrefixQueues(d, es, |es|, r);
      if d'(r) != d(r) {
        var x :| x in pushed && x.payload == r;
        StepPushed(net, d, nd, x);
      }
    }
  }

  /** One search step keeps the invariant. */
  lemma StepKeeps(net: Net, sentinel: seq<int> -> bool, d0: View, d: View, c: multiset<Node>, nd: Node)
    requires Sound(net) && Inv(net, sentinel, d0, d, c) && nd in c
    ensures Inv(net, sentinel, d0, Step(net, d, c, nd).0, Step(net, d, c, nd).1)
  {
    var es := net.edges(nd.payload);
    PrefixLowers(d, es, |es|);
    assert Step(net, d, c, nd).0 == RelaxAll(d, es, |es|).0;
    StepFrontier(net, sentinel, d0, d, c, nd);
    StepSettled(net, sentinel, d0, d, c, nd);
    StepPassable(net, d0, d, c, nd);
  }

  // ------------------------------------------------------ start and finish

  /** A search whose frontier holds every cell that does not start out as
      the sentinel, and nothing else, starts inside the invariant. */
  lemma StartInv(net: Net, sentinel: seq<int> -> bool, d0: View, c: multiset<Node>)
    requires forall r | net.cell(r) && !sentinel(r) :: Queued(c, r)
    requires forall nd | nd in c :: net.cell(nd.payload) && !sentinel(nd.payload)
    ensures Inv(net, sentinel, d0, d0, c)
  {
  }

  /** Once the frontier is empty, every cell has all of its edges relaxed,
      unless it still holds the sentinel it started with. */
  lemma Finished(net: Net, sentinel: seq<int> -> bool, d0: View, d: View)
    requires Inv(net, sentinel, d0, d, multiset{})
    ensures forall r | net.cell(r) :: Unreached(sentinel, d0, d, r) || Relaxed(net, d, r)
  {
    forall r | net.cell(r)
      ensures Unreached(sentinel, d0, d, r) || Relaxed(net, d, r)
    {
      assert !Queued(multiset{}, r);
    }
  }
}
