/** The pieces of `shortest_path`: the nested `[parentPath, node]` lists that
    breadth-first search stores per page, `_flatten`, and the invariants of
    the search with the lemmas that keep them. */
module PathFinder {
  import opened Wrappers
  import opened Graphs

  /** `[start]` is `Leaf(start)`; `[dist[at], next]` is `Pair(dist[at], next)`. */
  datatype Nest = Leaf(node: Node) | Pair(parent: Nest, node: Node)

  /** The page at the innermost `Leaf`. */
  function Root(n: Nest): Node {
    match n
    case Leaf(x) => x
    case Pair(p, _) => Root(p)
  }

  /** `list(_flatten(n))`: the pages of the nesting, outermost last. */
  function Flatten(n: Nest): (r: seq<Node>)
    ensures |r| > 0 && r[0] == Root(n) && r[|r| - 1] == n.node
  {
    match n
    case Leaf(x) => [x]
    case Pair(p, x) => Flatten(p) + [x]
  }

  /** `_flatten(None)` yields nothing (`iterable or []`). */
  function FlattenOpt(o: Option<Nest>): (r: seq<Node>)
    ensures r == [] <==> o == None
    ensures o != None ==> r == Flatten(o.value)
  {
    match o
    case None => []
    case Some(n) => Flatten(n)
  }

  /** What `dist.get(v)` returns. */
  function Get(dist: map<Node, Nest>, v: Node): Option<Nest> {
    if v in dist then Some(dist[v]) else None
  }

  /** Number of pages on the path stored for `v`. */
  ghost function Len(dist: map<Node, Nest>, v: Node): nat
    requires v in dist
  {
    |Flatten(dist[v])|
  }

  /** Every page ever reached by the search: `start` or the target of an edge. */
  ghost function Universe(g: Graph, start: Node): set<Node> {
    {start} + set u, v | u in g && v in g[u] :: v
  }

  lemma NeighborInUniverse(g: Graph, start: Node, u: Node, v: Node)
    requires Edge(g, u, v)
    ensures v in Universe(g, start)
  {
    assert u in g && v in g[u];
  }

  // ---- invariants of the search ----

  /** The stored path of each reached page leads from `start` to it. */
  ghost predicate Sound(g: Graph, start: Node, dist: map<Node, Nest>) {
    start in dist && forall v | v in dist :: PathFromTo(g, Flatten(dist[v]), start, v)
  }

  /** No path from `start` to a reached page is shorter than the stored one. */
  ghost predicate Minimal(g: Graph, start: Node, dist: map<Node, Nest>) {
    forall v, p | v in dist && PathFromTo(g, p, start, v) :: |Flatten(dist[v])| <= |p|
  }

  /** The queue holds reached pages whose path lengths are sorted and lie in
      `[lo, lo + 1]`. */
  ghost predicate Layered(dist: map<Node, Nest>, q: seq<Node>, lo: nat) {
    (forall i | 0 <= i < |q| :: q[i] in dist && lo <= Len(dist, q[i]) <= lo + 1)
    && (forall i, j | 0 <= i < j < |q| :: Len(dist, q[i]) <= Len(dist, q[j]))
  }

  /** Every page ending a path from `start` with fewer than `bound` pages is reached. */
  ghost predicate Covered(g: Graph, start: Node, dist: map<Node, Nest>, bound: nat) {
    forall p | IsPath(g, p) && p[0] == start && |p| < bound :: p[|p| - 1] in dist
  }

  /** Every reached page that has left the queue has all its neighbours reached. */
  ghost predicate Closed(g: Graph, dist: map<Node, Nest>, q: seq<Node>) {
    forall u | u in dist && u !in q :: Neighbors(g, u) <= dist.Keys
  }

  /** `Closed`, except for the page `at` whose neighbours are being visited. */
  ghost predicate ClosedBut(g: Graph, dist: map<Node, Nest>, q: seq<Node>, at: Node) {
    forall u | u in dist && u !in q && u != at :: Neighbors(g, u) <= dist.Keys
  }

  /** The state while the neighbours of `at` are visited: `at` has left the
      queue, its path has `level` pages, and `seen` of its neighbours are done. */
  ghost predicate Visiting(g: Graph, start: Node, dist: map<Node, Nest>, q: seq<Node>,
                           at: Node, level: nat, seen: set<Node>)
  {
    && Sound(g, start, dist) && Minimal(g, start, dist)
    && at in dist && Len(dist, at) == level
    && Layered(dist, q, level)
    && Covered(g, start, dist, level)
    && ClosedBut(g, dist, q, at)
    && seen <= dist.Keys
    && dist.Keys <= Universe(g, start)
  }

  /** The state at the head of the outer loop. */
  ghost predicate Searching(g: Graph, start: Node, dist: map<Node, Nest>, q: seq<Node>) {
    && Sound(g, start, dist) && Minimal(g, start, dist)
    && Closed(g, dist, q)
    && (q != [] ==> q[0] in dist && Layered(dist, q, Len(dist, q[0]))
                    && Covered(g, start, dist, Len(dist, q[0])))
    && dist.Keys <= Universe(g, start)
  }

  // ---- the lemmas that keep them ----

  lemma SearchInit(g: Graph, start: Node)
    ensures Searching(g, start, map[start := Leaf(start)], [start])
  {
    var dist := map[start := Leaf(start)];
    assert PathFromTo(g, [start], start, start);
    forall v, p | v in dist && PathFromTo(g, p, start, v) ensures |Flatten(dist[v])| <= |p| {
    }
  }

  /** Taking the head `at` off the queue starts the visit of its neighbours. */
  lemma SearchPop(g: Graph, start: Node, dist: map<Node, Nest>, q: seq<Node>)
    requires Searching(g, start, dist, q) && q != []
    ensures Visiting(g, start, dist, q[1..], q[0], Len(dist, q[0]), {})
  {
    var at, rest := q[0], q[1..];
    var level := Len(dist, at);
    forall i | 0 <= i < |rest| ensures rest[i] in dist && level <= Len(dist, rest[i]) <= level + 1 {
      assert rest[i] == q[i + 1];
    }
    forall i, j | 0 <= i < j < |rest| ensures Len(dist, rest[i]) <= Len(dist, rest[j]) {
      assert rest[i] == q[i + 1] && rest[j] == q[j + 1];
    }
    forall u | u in dist && u !in rest && u != at ensures Neighbors(g, u) <= dist.Keys {
      assert u !in q;
    }
  }

  /** During the visit of `at`, a path from `start` with at most as many pages
      as the one stored for `at` ends at a reached page: the page before its
      end is reached by a shorter path, so it has left the queue and is closed. */
  lemma ShortPathReached(g: Graph, start: Node, dist: map<Node, Nest>, q: seq<Node>,
                         at: Node, level: nat, seen: set<Node>, p: seq<Node>)
    requires Visiting(g, start, dist, q, at, level, seen)
    requires IsPath(g, p) && p[0] == start && 1 < |p| <= level
    ensures p[|p| - 1] in dist
  {
    var n := |p| - 1;
    var u := p[n - 1];
    PathPrefix(g, p, n);
    assert p[..n][n - 1] == u;
    assert Covered(g, start, dist, level);
    assert u in dist;
    assert PathFromTo(g, p[..n], start, u);
    assert Minimal(g, start, dist);
    assert Len(dist, u) <= n < level;
    assert Layered(dist, q, level);
    assert u !in q;
    assert u != at;
    assert ClosedBut(g, dist, q, at);
    assert Edge(g, u, p[n]);
  }

  /** No path from `start` to a neighbour `next` of `at` that is not reached yet
      has as few pages as the path stored for `at`. */
  lemma NewNodeMinimal(g: Graph, start: Node, dist: map<Node, Nest>, q: seq<Node>,
                       at: Node, level: nat, seen: set<Node>, next: Node, p: seq<Node>)
    requires Visiting(g, start, dist, q, at, level, seen)
    requires next !in dist && PathFromTo(g, p, start, next)
    ensures level + 1 <= |p|
  {
    if |p| <= level {
      if |p| == 1 {
        assert false;
      }
      ShortPathReached(g, start, dist, q, at, level, seen, p);
      assert false;
    }
  }

  /** Reaching a new neighbour `next` of `at` keeps every invariant of the visit. */
  lemma VisitNew(g: Graph, start: Node, dist: map<Node, Nest>, q: seq<Node>,
                 at: Node, level: nat, seen: set<Node>, next: Node)
    requires Visiting(g, start, dist, q, at, level, seen)
    requires Edge(g, at, next) && next !in dist
    ensures Visiting(g, start, dist[next := Pair(dist[at], next)], q + [next], at, level, seen + {next})
  {
    var dist' := dist[next := Pair(dist[at], next)];
    VisitNewPaths(g, start, dist, q, at, level, seen, next);
    VisitNewQueue(dist, q, at, level, next);
    forall u | u in dist' && u !in q + [next] && u != at ensures Neighbors(g, u) <= dist'.Keys {
      assert u != next && u !in q;
    }
    NeighborInUniverse(g, start, at, next);
  }

  /** The path stored for the new page `next` leads to it and is shortest. */
  lemma VisitNewPaths(g: Graph, start: Node, dist: map<Node, Nest>, q: seq<Node>,
                      at: Node, level: nat, seen: set<Node>, next: Node)
    requires Visiting(g, start, dist, q, at, level, seen)
    requires Edge(g, at, next) && next !in dist
    ensures var dist' := dist[next := Pair(dist[at], next)];
      Sound(g, start, dist') && Minimal(g, start, dist') && Covered(g, start, dist', level)
  {
    var dist' := dist[next := Pair(dist[at], next)];
    assert Flatten(dist'[next]) == Flatten(dist[at]) + [next];
    PathExtend(g, Flatten(dist[at]), start, at, next);
    forall v, p | v in dist' && PathFromTo(g, p, start, v) ensures |Flatten(dist'[v])| <= |p| {
      if v == next {
        NewNodeMinimal(g, start, dist, q, at, level, seen, next, p);
      }
    }
  }

  /** Appending `next`, whose path is one page longer than that of `at`, keeps
      the queue sorted within `[level, level + 1]`. */
  lemma VisitNewQueue(dist: map<Node, Nest>, q: seq<Node>, at: Node, level: nat, next: Node)
    requires at in dist && Len(dist, at) == level && Layered(dist, q, level) && next !in dist
    ensures Layered(dist[next := Pair(dist[at], next)], q + [next], level)
  {
    var dist' := dist[next := Pair(dist[at], next)];
    var q' := q + [next];
    assert Flatten(dist'[next]) == Flatten(dist[at]) + [next];
    forall i | 0 <= i < |q'| ensures q'[i] in dist' && level <= Len(dist', q'[i]) <= level + 1 {
      if i < |q| { assert q'[i] == q[i]; }
    }
    forall i, j | 0 <= i < j < |q'| ensures Len(dist', q'[i]) <= Len(dist', q'[j]) {
      if j < |q| { assert q'[i] == q[i] && q'[j] == q[j]; }
      else { assert q'[i] == q[i]; }
    }
  }

  /** Once all neighbours of `at` are reached, the outer invariant holds again
      for the remaining queue. */
  lemma SearchNext(g: Graph, start: Node, dist: map<Node, Nest>, q: seq<Node>,
                   at: Node, level: nat)
    requires Visiting(g, start, dist, q, at, level, Neighbors(g, at))
    ensures Searching(g, start, dist, q)
  {
    CoveredNext(g, start, dist, q, at, level);
    if q != [] {
      var lo := Len(dist, q[0]);
      forall i | 0 <= i < |q| ensures q[i] in dist && lo <= Len(dist, q[i]) <= lo + 1 {
        if i > 0 { assert Len(dist, q[0]) <= Len(dist, q[i]); }
      }
      assert Covered(g, start, dist, lo);
    }
  }

  /** After the visit of `at`, every path with as many pages as the one stored
      for `at` ends at a reached page. */
  lemma CoveredNext(g: Graph, start: Node, dist: map<Node, Nest>, q: seq<Node>,
                    at: Node, level: nat)
    requires Visiting(g, start, dist, q, at, level, Neighbors(g, at))
    ensures Covered(g, start, dist, level + 1)
  {
    forall p | IsPath(g, p) && p[0] == start && |p| < level + 1 ensures p[|p| - 1] in dist {
      if |p| == level && |p| > 1 {
        ShortPathReached(g, start, dist, q, at, level, Neighbors(g, at), p);
      }
    }
  }

  /** When every reached page is closed, every page reachable from `start` is reached. */
  lemma {:induction false} ClosedReachesAll(g: Graph, start: Node, dist: map<Node, Nest>, p: seq<Node>)
    requires start in dist && Closed(g, dist, [])
    requires IsPath(g, p) && p[0] == start
    ensures p[|p| - 1] in dist
    decreases |p|
  {
    if |p| > 1 {
      var n := |p| - 1;
      PathPrefix(g, p, n);
      ClosedReachesAll(g, start, dist, p[..n]);
      assert p[..n][n - 1] == p[n - 1];
      assert Edge(g, p[n - 1], p[n]);
    }
  }
}
