/** The sequential core of `WikiCrawler`: recording the links of a fetched
    page, one step of a worker, and the breadth-first reconstruction of the
    path from start to target over the recorded graph. */
module Crawler {
  import opened Wrappers
  import opened Prioritizer
  import opened Graphs
  import opened PathFinder

  /** A frontier entry: `(priority, url)` as put on the priority queue. */
  datatype Entry = Entry(priority: nat, node: Node)

  /** What one pass of the worker loop did. */
  datatype StepOutcome =
    | Stopped   // the target was already found: no dequeue
    | Blocked   // the frontier is empty: `queue.get()` would wait
    | Skipped   // the dequeued page already has a graph entry
    | Dropped   // the page is not HTML: nothing recorded
    | Expanded  // the page's links were recorded

  function Nodes(es: seq<Entry>): seq<Node> {
    seq(|es|, i requires 0 <= i < |es| => es[i].node)
  }

  /** Each ranked href resolved against the page `current`. */
  function Resolve(join: (Node, string) -> Node, current: Node, ranked: seq<Ranked>): seq<Entry> {
    seq(|ranked|, i requires 0 <= i < |ranked| => Entry(ranked[i].priority, join(current, ranked[i].href)))
  }

  /** The index of the first entry whose page is `target`, or `|es|`. */
  function HitIndex(es: seq<Entry>, target: Node): (n: nat)
    ensures n <= |es|
    ensures n < |es| ==> es[n].node == target
    ensures forall j | 0 <= j < n :: es[j].node != target
  {
    if es == [] then 0
    else if es[0].node == target then 0
    else 1 + HitIndex(es[1..], target)
  }

  /** The first hit exists exactly when some entry reaches `target`. */
  lemma HitIndexFound(es: seq<Entry>, target: Node)
    ensures (HitIndex(es, target) < |es|) == (target in Nodes(es))
  {
    var n := HitIndex(es, target);
    if n < |es| {
      assert Nodes(es)[n] == target;
    } else {
      forall i | 0 <= i < |es| ensures Nodes(es)[i] != target {
      }
    }
  }

  /** Past a prefix that misses `target` and an entry that misses it too. */
  lemma HitIndexBeyond(es: seq<Entry>, target: Node, i: nat)
    requires i < |es| && i <= HitIndex(es, target) && es[i].node != target
    ensures i + 1 <= HitIndex(es, target)
  {
  }

  /** Where the recording loop stops: just after the first hit, or at the end. */
  lemma StopPoint(es: seq<Entry>, target: Node, i: nat, hit: bool)
    requires i <= |es| && i <= HitIndex(es, target)
    requires hit ==> i < |es| && es[i].node == target
    requires !hit ==> i == |es|
    ensures Processed(es, target) == es[..if hit then i + 1 else i]
    ensures Enqueued(es, target) == es[..i]
    ensures (target in Nodes(es)) == hit
  {
    HitIndexFound(es, target);
    assert es[..|es|] == es;
  }

  /** The entries whose edges are recorded: all of them up to and including the
      first one that reaches `target`, or all of them when none does. */
  function Processed(es: seq<Entry>, target: Node): (r: seq<Entry>)
    ensures r <= es
    ensures (target in Nodes(es)) == (r != [] && r[|r| - 1].node == target)
    ensures forall j | 0 <= j < |r| - 1 :: r[j].node != target
    ensures target !in Nodes(es) ==> r == es
  {
    HitIndexFound(es, target);
    var n := HitIndex(es, target);
    if n < |es| then es[..n + 1] else es
  }

  /** The entries put on the frontier: those before the first one that reaches
      `target`; `target` itself is never among them. */
  function Enqueued(es: seq<Entry>, target: Node): (r: seq<Entry>)
    ensures r <= Processed(es, target)
    ensures forall e | e in r :: e.node != target
    ensures |Processed(es, target)| == |r| + (if target in Nodes(es) then 1 else 0)
  {
    HitIndexFound(es, target);
    es[..HitIndex(es, target)]
  }

  /** The index of the first entry of least priority. */
  function FirstMinimum(es: seq<Entry>): (k: nat)
    requires es != []
    ensures k < |es|
    ensures forall j | 0 <= j < |es| :: es[k].priority <= es[j].priority
    ensures forall j | 0 <= j < k :: es[k].priority < es[j].priority
  {
    if |es| == 1 then 0
    else
      var k := FirstMinimum(es[1..]);
      if es[0].priority <= es[k + 1].priority then 0 else k + 1
  }

  /** The frontier without its `k`-th entry. */
  function Without(es: seq<Entry>, k: nat): (r: seq<Entry>)
    requires k < |es|
    ensures |r| == |es| - 1
    ensures multiset(r) + multiset{es[k]} == multiset(es)
    ensures forall e | e in r :: e in es
  {
    assert es == es[..k] + [es[k]] + es[k + 1..];
    es[..k] + es[k + 1..]
  }

  class WikiCrawler {
    const start: Node
    const target: Node
    const keywords: seq<string>
    /** `URL.join`: resolves an href against the page it was found on. */
    const join: (Node, string) -> Node

    var graph: Graph
    var frontier: seq<Entry>
    var targetFound: bool

    /** Every frontier page is reachable from `start` in the recorded graph, is
        not the target, and has a priority of at most `|keywords|`; once the
        target is found, it is reachable from `start` too. */
    ghost predicate Valid()
      reads this
    {
      CrawlInvariant(graph, frontier, targetFound, start, target, |keywords|)
    }

    constructor (start: Node, target: Node, keywords: Option<seq<string>>, join: (Node, string) -> Node)
      ensures this.start == start && this.target == target && this.join == join
      ensures this.keywords == KeywordList(keywords)
      ensures graph == map[] && frontier == [] && !targetFound
      ensures Valid()
    {
      this.start := start;
      this.target := target;
      this.keywords := KeywordList(keywords);
      this.join := join;
      graph := map[];
      frontier := [];
      targetFound := false;
    }

    /** The links of page `current`, ranked and resolved against it, in page order. */
    function Outgoing(links: seq<Link>, current: Node): (r: seq<Entry>)
      ensures |r| == |links|
      ensures forall i | 0 <= i < |r| ::
        r[i].node == join(current, links[i].href) && r[i].priority == Priority(links[i], keywords)
    {
      Resolve(join, current, Prioritize(links, Some(keywords)))
    }

    /** `_process_links`: records the edge `current -> url` for each link in order
        up to and including the first one that reaches the target, raises the
        flag at that one, and puts every other processed link on the frontier. */
    method ProcessLinks(links: seq<Link>, current: Node)
      modifies this
      ensures old(Valid()) && Reachable(old(graph), start, current) ==> Valid()
      ensures var es := Outgoing(links, current);
        && graph == AddEdges(old(graph), current, Nodes(Processed(es, target)))
        && frontier == old(frontier) + Enqueued(es, target)
        && targetFound == (old(targetFound) || target in Nodes(es))
      ensures Grows(old(graph), graph)
    {
      var ranked := PrioritizeByKeyword(links, Some(keywords));
      RecordRanked(ranked, current);
      ghost var es := Resolve(join, current, ranked);
      AddEdgesEffect(old(graph), current, Nodes(Processed(es, target)));
      if old(Valid()) && Reachable(old(graph), start, current) {
        ProcessKeepsInvariant(old(graph), old(frontier), old(targetFound), start, target, |keywords|, current, es);
      }
    }

    /** One pass of `_worker`'s loop with a single worker: stop once the target
        is found; otherwise take an entry of least priority off the frontier,
        skip it if its page already has a graph entry, drop it if `fetch` finds
        no HTML page, and record the page's links otherwise. */
    method WorkerStep(fetch: Node -> Option<seq<Link>>) returns (outcome: StepOutcome)
      requires Valid()
      modifies this
      ensures Valid() && Grows(old(graph), graph)
      ensures old(targetFound) ==>
        outcome == Stopped && graph == old(graph) && frontier == old(frontier) && targetFound
      ensures !old(targetFound) && old(frontier) == [] ==>
        outcome == Blocked && graph == old(graph) && frontier == [] && !targetFound
      ensures !old(targetFound) && old(frontier) != [] ==>
        var k := FirstMinimum(old(frontier));
        var node := old(frontier)[k].node;
        var rest := Without(old(frontier), k);
        if node in old(graph) then
          outcome == Skipped && graph == old(graph) && frontier == rest && !targetFound
        else if fetch(node) == None then
          outcome == Dropped && graph == old(graph) && frontier == rest && !targetFound
        else
          var es := Outgoing(fetch(node).value, node);
          && outcome == Expanded
          && graph == AddEdges(old(graph), node, Nodes(Processed(es, target)))
          && frontier == rest + Enqueued(es, target)
          && targetFound == (target in Nodes(es))
    {
      if targetFound {
        return Stopped;
      }
      if frontier == [] {
        return Blocked;
      }
      var k := FirstMinimum(frontier);
      var current := frontier[k].node;
      assert frontier[k] in frontier;
      frontier := Without(frontier, k);
      if current in graph {
        return Skipped;
      }
      match fetch(current) {
        case None =>
          return Dropped;
        case Some(links) =>
          ProcessLinks(links, current);
          return Expanded;
      }
    }

    /** `shortest_path`: breadth-first search from `start` over the recorded
        edges, storing for each newly reached page the nested path to it, then
        flattening the one stored for `target` (nothing if there is none). */
    method ShortestPath() returns (path: seq<Node>)
      ensures path == [] <==> !Reachable(graph, start, target)
      ensures path != [] ==> PathFromTo(graph, path, start, target)
      ensures forall p | PathFromTo(graph, p, start, target) :: |path| <= |p|
      ensures start != target && Edge(graph, start, target) ==> path == [start, target]
      ensures Valid() && targetFound ==> path != []
    {
      var g := graph;
      var dist := map[start := Leaf(start)];
      var q := [start];
      SearchInit(g, start);
      ghost var universe := Universe(g, start);
      while q != []
        invariant Searching(g, start, dist, q)
        decreases universe - dist.Keys, |q|
      {
        ghost var reached := dist.Keys;
        ghost var waiting := |q|;
        var at := q[0];
        SearchPop(g, start, dist, q);
        ghost var level := Len(dist, at);
        q := q[1..];
        var todo := Neighbors(g, at);
        while todo != {}
          invariant todo <= Neighbors(g, at)
          invariant Visiting(g, start, dist, q, at, level, Neighbors(g, at) - todo)
          invariant reached <= dist.Keys && (dist.Keys == reached ==> |q| < waiting)
          decreases todo
        {
          var next :| next in todo;
          todo := todo - {next};
          if next !in dist {
            VisitNew(g, start, dist, q, at, level, Neighbors(g, at) - todo - {next}, next);
            dist := dist[next := Pair(dist[at], next)];
            q := q + [next];
          }
        }
        SearchNext(g, start, dist, q, at, level);
        SearchProgress(universe, reached, dist.Keys);
      }
      path := FlattenOpt(Get(dist, target));
      SearchResult(g, start, target, dist, path);
    }
    /** The loop of `_process_links` over the ranked hrefs of page `current`. */
    method RecordRanked(ranked: seq<Ranked>, current: Node)
      modifies this
      ensures var es := Resolve(join, current, ranked);
        && graph == AddEdges(old(graph), current, Nodes(Processed(es, target)))
        && frontier == old(frontier) + Enqueued(es, target)
        && targetFound == (old(targetFound) || target in Nodes(es))
    {
      ghost var es := Resolve(join, current, ranked);
      var i := 0;
      while i < |ranked|
        invariant Recorded(old(graph), old(frontier), current, es, target, i, graph, frontier)
        invariant targetFound == old(targetFound)
      {
        var url := join(current, ranked[i].href);
        assert url == es[i].node;
        if url == target {
          RecordHit(old(graph), old(frontier), current, es, target, i, graph, frontier);
        } else {
          RecordMiss(old(graph), old(frontier), current, es, target, i, graph, frontier);
        }
        graph := AddEdge(graph, current, url);
        if url == target {
          targetFound := true;
          return;
        }
        frontier := frontier + [Entry(ranked[i].priority, url)];
        i := i + 1;
      }
      RecordAll(old(graph), old(frontier), current, es, target, graph, frontier);
    }
  }

  /** After `i` links of `es`, none of them the target: their edges are recorded
      and they are all on the frontier. */
  ghost predicate Recorded(g0: Graph, fr0: seq<Entry>, current: Node, es: seq<Entry>, target: Node,
                           i: nat, g: Graph, fr: seq<Entry>)
  {
    && i <= |es| && i <= HitIndex(es, target)
    && g == AddEdges(g0, current, Nodes(es[..i]))
    && fr == fr0 + es[..i]
  }

  lemma RecordMiss(g0: Graph, fr0: seq<Entry>, current: Node, es: seq<Entry>, target: Node,
                   i: nat, g: Graph, fr: seq<Entry>)
    requires Recorded(g0, fr0, current, es, target, i, g, fr)
    requires i < |es| && es[i].node != target
    ensures Recorded(g0, fr0, current, es, target, i + 1, AddEdge(g, current, es[i].node), fr + [es[i]])
  {
    RecordOne(g0, current, es, i);
    assert es[..i + 1] == es[..i] + [es[i]];
    HitIndexBeyond(es, target, i);
  }

  lemma RecordHit(g0: Graph, fr0: seq<Entry>, current: Node, es: seq<Entry>, target: Node,
                  i: nat, g: Graph, fr: seq<Entry>)
    requires Recorded(g0, fr0, current, es, target, i, g, fr)
    requires i < |es| && es[i].node == target
    ensures AddEdge(g, current, es[i].node) == AddEdges(g0, current, Nodes(Processed(es, target)))
    ensures fr == fr0 + Enqueued(es, target)
    ensures target in Nodes(es)
  {
    RecordOne(g0, current, es, i);
    StopPoint(es, target, i, true);
  }

  lemma RecordAll(g0: Graph, fr0: seq<Entry>, current: Node, es: seq<Entry>, target: Node,
                  g: Graph, fr: seq<Entry>)
    requires Recorded(g0, fr0, current, es, target, |es|, g, fr)
    ensures g == AddEdges(g0, current, Nodes(Processed(es, target)))
    ensures fr == fr0 + Enqueued(es, target)
    ensures target !in Nodes(es)
  {
    StopPoint(es, target, |es|, false);
  }

  /** What the finished search yields: the stored path of `target` when it is
      reached, which is a shortest path, and nothing when it is unreachable. */
  lemma SearchResult(g: Graph, start: Node, target: Node, dist: map<Node, Nest>, path: seq<Node>)
    requires Searching(g, start, dist, []) && path == FlattenOpt(Get(dist, target))
    ensures path == [] <==> !Reachable(g, start, target)
    ensures path != [] ==> PathFromTo(g, path, start, target)
    ensures forall p | PathFromTo(g, p, start, target) :: |path| <= |p|
    ensures start != target && Edge(g, start, target) ==> path == [start, target]
  {
    if target in dist {
      assert PathFromTo(g, path, start, target);
    } else {
      forall p | PathFromTo(g, p, start, target) ensures false {
        ClosedReachesAll(g, start, dist, p);
      }
    }
    if start != target && Edge(g, start, target) {
      assert PathFromTo(g, [start, target], start, target);
    }
  }

  /** Reaching more pages of a finite universe leaves fewer to reach. */
  lemma SearchProgress(universe: set<Node>, before: set<Node>, after: set<Node>)
    requires before <= after <= universe
    ensures after != before ==> universe - after < universe - before
  {
    if after != before {
      var v :| v in after && v !in before;
      assert v in universe - before && v !in universe - after;
    }
  }

  /** The crawl invariant over plain values (see `WikiCrawler.Valid`). */
  ghost predicate CrawlInvariant(graph: Graph, frontier: seq<Entry>, found: bool,
                                 start: Node, target: Node, bound: nat)
  {
    && (forall e | e in frontier ::
          e.priority <= bound && e.node != target && Reachable(graph, start, e.node))
    && (found ==> Reachable(graph, start, target))
  }

  /** Recording the links of a page reachable from `start` keeps the crawl
      invariant: the linked pages become reachable through the new edges. */
  lemma ProcessKeepsInvariant(graph: Graph, frontier: seq<Entry>, found: bool, start: Node,
                              target: Node, bound: nat, current: Node, es: seq<Entry>)
    requires CrawlInvariant(graph, frontier, found, start, target, bound)
    requires Reachable(graph, start, current)
    requires forall e | e in es :: e.priority <= bound
    ensures CrawlInvariant(AddEdges(graph, current, Nodes(Processed(es, target))),
                           frontier + Enqueued(es, target), found || target in Nodes(es),
                           start, target, bound)
  {
    var done := Nodes(Processed(es, target));
    var g := AddEdges(graph, current, done);
    AddEdgesEffect(graph, current, done);
    FrontierStaysReachable(graph, g, start, frontier);
    ReachableGrows(graph, g, start, current);
    forall e | e in Processed(es, target) ensures Reachable(g, start, e.node) {
      var k :| 0 <= k < |Processed(es, target)| && Processed(es, target)[k] == e;
      assert done[k] == e.node;
      ReachableStep(g, start, current, e.node);
    }
    if found {
      ReachableGrows(graph, g, start, target);
    }
    if target in Nodes(es) {
      var r := Processed(es, target);
      assert r[|r| - 1] in r;
    }
    forall e | e in frontier + Enqueued(es, target)
      ensures e.priority <= bound && e.node != target && Reachable(g, start, e.node)
    {
      if e !in frontier {
        var r := Enqueued(es, target);
        var k :| 0 <= k < |r| && r[k] == e;
        assert e == Processed(es, target)[k];
      }
    }
  }

  /** Recording one more link extends the recorded prefix by one page. */
  lemma RecordOne(g: Graph, current: Node, es: seq<Entry>, i: nat)
    requires i < |es|
    ensures AddEdges(g, current, Nodes(es[..i + 1]))
         == AddEdge(AddEdges(g, current, Nodes(es[..i])), current, es[i].node)
  {
    var ns := Nodes(es[..i + 1]);
    assert ns[..|ns| - 1] == Nodes(es[..i]);
  }

  /** Growing the graph keeps every frontier page reachable from `a`. */
  lemma FrontierStaysReachable(g: Graph, h: Graph, a: Node, es: seq<Entry>)
    requires Grows(g, h)
    ensures forall e | e in es && Reachable(g, a, e.node) :: Reachable(h, a, e.node)
  {
    forall e | e in es && Reachable(g, a, e.node) ensures Reachable(h, a, e.node) {
      ReachableGrows(g, h, a, e.node);
    }
  }
}
