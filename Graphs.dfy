/** The crawl graph (`self._graph`, a defaultdict of sets): for each expanded
    page, the set of pages it links to; and paths through it. */
module Graphs {

  /** A page, identified by its absolute URL. */
  type Node = string

  type Graph = map<Node, set<Node>>

  /** Out-edges of `u`; a page without an entry has none. */
  function Neighbors(g: Graph, u: Node): set<Node> {
    if u in g then g[u] else {}
  }

  predicate Edge(g: Graph, u: Node, v: Node) {
    v in Neighbors(g, u)
  }

  /** `graph[u].add(v)` on a defaultdict: creates the entry of `u` if needed. */
  function AddEdge(g: Graph, u: Node, v: Node): Graph {
    g[u := Neighbors(g, u) + {v}]
  }

  /** Adds the edges `u -> vs[0]`, ..., `u -> vs[|vs|-1]` one after the other. */
  function AddEdges(g: Graph, u: Node, vs: seq<Node>): Graph {
    if vs == [] then g else AddEdge(AddEdges(g, u, vs[..|vs| - 1]), u, vs[|vs| - 1])
  }

  /** Every edge and every entry of `g` is still in `h`. */
  ghost predicate Grows(g: Graph, h: Graph) {
    g.Keys <= h.Keys && forall u :: Neighbors(g, u) <= Neighbors(h, u)
  }

  /** Adding an edge records it, keeps every other edge, and creates the
      entry of the source page. */
  lemma AddEdgeEffect(g: Graph, u: Node, v: Node)
    ensures Edge(AddEdge(g, u, v), u, v)
    ensures AddEdge(g, u, v).Keys == g.Keys + {u}
    ensures forall w, x :: Edge(AddEdge(g, u, v), w, x) <==> Edge(g, w, x) || (w == u && x == v)
    ensures Grows(g, AddEdge(g, u, v))
  {
  }

  /** Adding the same edge twice is the same as adding it once (a set `add`
      is idempotent). */
  lemma AddEdgeIdempotent(g: Graph, u: Node, v: Node)
    ensures AddEdge(AddEdge(g, u, v), u, v) == AddEdge(g, u, v)
  {
    assert Neighbors(AddEdge(g, u, v), u) + {v} == Neighbors(g, u) + {v};
  }

  /** After `AddEdges`, `u` links to exactly its old neighbours and the pages of
      `vs`, every other page keeps its neighbours, and an entry for `u` exists
      precisely when it existed before or `vs` is non-empty. */
  lemma {:induction false} AddEdgesEffect(g: Graph, u: Node, vs: seq<Node>)
    ensures Neighbors(AddEdges(g, u, vs), u) == Neighbors(g, u) + set v | v in vs
    ensures forall w | w != u :: Neighbors(AddEdges(g, u, vs), w) == Neighbors(g, w)
    ensures AddEdges(g, u, vs).Keys == if vs == [] then g.Keys else g.Keys + {u}
    ensures Grows(g, AddEdges(g, u, vs))
    decreases |vs|
  {
    if vs != [] {
      var init := vs[..|vs| - 1];
      AddEdgesEffect(g, u, init);
      assert vs == init + [vs[|vs| - 1]];
      assert (set v | v in vs) == (set v | v in init) + {vs[|vs| - 1]};
    }
  }

  /** Consecutive pages of `p` are joined by edges of `g`. */
  ghost predicate IsPath(g: Graph, p: seq<Node>) {
    |p| > 0 && forall i | 0 <= i < |p| - 1 :: Edge(g, p[i], p[i + 1])
  }

  ghost predicate PathFromTo(g: Graph, p: seq<Node>, a: Node, b: Node) {
    IsPath(g, p) && p[0] == a && p[|p| - 1] == b
  }

  ghost predicate Reachable(g: Graph, a: Node, b: Node) {
    exists p :: PathFromTo(g, p, a, b)
  }

  /** A path followed by one more edge is a path. */
  lemma PathExtend(g: Graph, p: seq<Node>, a: Node, b: Node, v: Node)
    requires PathFromTo(g, p, a, b) && Edge(g, b, v)
    ensures PathFromTo(g, p + [v], a, v)
  {
    var q := p + [v];
    forall i | 0 <= i < |q| - 1 ensures Edge(g, q[i], q[i + 1]) {
      if i < |p| - 1 {
        assert q[i] == p[i] && q[i + 1] == p[i + 1];
      }
    }
  }

  /** Every proper non-empty prefix of a path is a path. */
  lemma PathPrefix(g: Graph, p: seq<Node>, n: nat)
    requires IsPath(g, p) && 0 < n <= |p|
    ensures IsPath(g, p[..n]) && p[..n][0] == p[0]
  {
    forall i | 0 <= i < n - 1 ensures Edge(g, p[..n][i], p[..n][i + 1]) {
      assert p[..n][i] == p[i] && p[..n][i + 1] == p[i + 1];
    }
  }

  /** Paths survive the growth of the graph. */
  lemma PathGrows(g: Graph, h: Graph, p: seq<Node>)
    requires Grows(g, h) && IsPath(g, p)
    ensures IsPath(h, p)
  {
    forall i | 0 <= i < |p| - 1 ensures Edge(h, p[i], p[i + 1]) {
      assert Edge(g, p[i], p[i + 1]);
    }
  }

  lemma ReachableGrows(g: Graph, h: Graph, a: Node, b: Node)
    requires Grows(g, h) && Reachable(g, a, b)
    ensures Reachable(h, a, b)
  {
    var p :| PathFromTo(g, p, a, b);
    PathGrows(g, h, p);
    assert PathFromTo(h, p, a, b);
  }

  lemma ReachableStep(g: Graph, a: Node, b: Node, c: Node)
    requires Reachable(g, a, b) && Edge(g, b, c)
    ensures Reachable(g, a, c)
  {
    var p :| PathFromTo(g, p, a, b);
    PathExtend(g, p, a, b, c);
  }
}
