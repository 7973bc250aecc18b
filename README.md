# WikiCrawler, sequential core

`WikiCrawler` searches Wikipedia for a chain of article links from a start
page to a target page. Each fetched page yields its article links. These are
ranked by keyword relevance, each link is recorded as an edge of a crawl graph,
and the linked pages go on a priority frontier. The crawl stops as soon as a
page links to the target. A breadth-first search over the recorded graph then
rebuilds a shortest chain of pages from start to target.

This project models the sequential logic of that crawler:

- `Prioritizer.dfy` models `_prioritize_by_keyword`:
  - ASCII lower-casing and Python's substring test `w in s`;
  - the priority of a link, which is the index of the first keyword it matches, or the number of keywords when it matches none;
  - the generator's nested loops, as a method proved equal to the specification function.
- `Graphs.dfy` models the crawl graph, a map from page to the set of pages it links to. It defines adding edges, paths and reachability.
- `PathFinder.dfy` models the pieces of `shortest_path`:
  - the nested `[parentPath, node]` lists stored per page;
  - `_flatten`;
  - the invariants of the breadth-first search and the lemmas that preserve them.
- `Crawler.dfy` holds the class `WikiCrawler`. Its fields are the graph, the frontier of `(priority, page)` entries and the "target found" flag. It has three methods:
  - `ProcessLinks` models `_process_links`;
  - `WorkerStep` models one pass of `_worker`'s loop for a single worker;
  - `ShortestPath` models `shortest_path`.

Abstractions:

- Resolving an href against the page it was found on (`URL.join`) is the class constant `join`. Nothing about it is assumed.
- Fetching a page and extracting its article links is the parameter `fetch` of `WorkerStep`. It returns `None` for a page that is not HTML.
- Pages are compared as strings.

The class invariant `Valid()` says three things:

- every frontier page is reachable from `start` in the recorded graph;
- no frontier page is the target, and every priority is at most the number of keywords;
- once the flag is set, the target is reachable.

The constructor establishes `Valid()`. `ProcessLinks` preserves it for a page reachable from `start`, which holds for `start` and for every page taken off the frontier. `WorkerStep` always preserves it. `ShortestPath` therefore returns a non-empty path whenever the flag is set.

Two behaviours of the code are easy to miss; the model follows the code:

- A page becomes a graph entry ("expanded") only when at least one of its links is recorded, because `self._graph[str(current)].add(...)` runs inside the loop. A page with no article links, or one whose fetch fails, stays unmarked and is fetched again when it is dequeued again.
- On an empty frontier the worker waits forever on `queue.get()`. The model reports this as the outcome `Blocked` and leaves the state unchanged.

## Model

| member | source | states |
|---|---|---|
| Prioritizer.ContainsIsOccurs | martin/src/WikiCrawler.py:111 | the left-to-right scan `Contains(s, w)` holds exactly when `w` occurs as a contiguous piece of `s` at some position |
| Prioritizer.Priority | martin/src/WikiCrawler.py:110-115 | the priority is at most the number of keywords; when it is smaller, the keyword at that index matches the link; no earlier keyword matches (the first match, or `len(keywords)` when none) |
| Prioritizer.Prioritize | martin/src/WikiCrawler.py:106-115 | one ranked entry per link, in link order, carrying that link's own href and its `Priority`; every priority lies in `[0, len(keywords)]`; with no or empty keywords every priority is 0 |
| Prioritizer.PrioritizeByKeyword | martin/src/WikiCrawler.py:105-115 | the nested loops, which lower-case text, href and keyword and break at the first match, produce exactly `Prioritize(links, keywords)` |
| Prioritizer.PriorityExample | martin/src/WikiCrawler.py:105-115 | with keywords `physics, math`, "Physics today" ranks 0, while "Chemistry" and "Unrelated" match neither keyword and rank 2 |
| Graphs.AddEdgeEffect | martin/src/WikiCrawler.py:74 | `graph[u].add(v)` records the edge `u -> v`, keeps every other edge and adds no other, creates the entry of `u`, and only grows the graph |
| Graphs.AddEdgeIdempotent | martin/src/WikiCrawler.py:74 | adding an edge a second time changes nothing |
| Graphs.AddEdgesEffect | martin/src/WikiCrawler.py:72-77 | after adding `u -> v` for each page of a sequence, `u` links to its old neighbours plus exactly those pages; every other page keeps its neighbours; `u` has an entry iff it had one or the sequence is non-empty; the graph only grows |
| PathFinder.Flatten | martin/src/WikiCrawler.py:97-102 | flattening a nested path yields a non-empty list that begins at the innermost page and ends at the outermost page |
| PathFinder.FlattenOpt | martin/src/WikiCrawler.py:98 | flattening `None` yields `[]`; flattening a stored nesting yields a non-empty list |
| PathFinder.SearchInit | martin/src/WikiCrawler.py:49-51 | `dist = {start: [start]}` with queue `[start]` satisfies the search invariant: stored paths are real paths from start, each is shortest, and the queue is sorted by path length |
| PathFinder.SearchPop | martin/src/WikiCrawler.py:53 | popping the queue head starts its visit with every invariant kept |
| PathFinder.VisitNew | martin/src/WikiCrawler.py:55-57 | storing `[dist[at], next]` for an unreached neighbour and appending it to the queue keeps the stored paths sound and shortest and keeps the queue sorted within two adjacent lengths |
| PathFinder.SearchNext | martin/src/WikiCrawler.py:52-57 | once all neighbours of the popped page are reached, the outer invariant holds again, including that all pages at distance below the new head's are reached |
| PathFinder.ClosedReachesAll | martin/src/WikiCrawler.py:52-57 | when the queue is empty and every reached page has all its neighbours reached, every page on a path from start is reached |
| Crawler.HitIndex | martin/src/WikiCrawler.py:75-77 | the index of the first resolved link equal to the target, or the number of links when none is |
| Crawler.HitIndexFound | martin/src/WikiCrawler.py:75 | a hit exists exactly when some resolved link is the target |
| Crawler.Processed | martin/src/WikiCrawler.py:72-77 | the links whose edges are recorded form a prefix of the resolved links; the prefix ends with the target exactly when some link is the target; no earlier link is the target; when no link is the target, every link is recorded |
| Crawler.Enqueued | martin/src/WikiCrawler.py:75-79 | the links put on the frontier are a prefix of the processed ones and never include the target; the target-matching link is the only one processed but not enqueued |
| Crawler.FirstMinimum | martin/src/WikiCrawler.py:83 | the dequeued entry has least priority, and it is the earliest such entry |
| Crawler.Without | martin/src/WikiCrawler.py:83 | removing the dequeued entry leaves the frontier one shorter, and the entry together with the rest is the same multiset as the old frontier |
| Crawler.WikiCrawler.constructor | martin/src/WikiCrawler.py:17-38 | the keyword list is `keywords` or `[]` when it is missing; graph and frontier start empty, the flag clear, and the class invariant holds |
| Crawler.WikiCrawler.Outgoing | martin/src/WikiCrawler.py:72-73 | one entry per link, in order, holding the link's priority and its href joined against the current page |
| Crawler.WikiCrawler.RecordRanked | martin/src/WikiCrawler.py:72-79 | the loop records the edges of exactly the processed links, appends exactly the enqueued ones to the frontier in order, and sets the flag iff a link is the target |
| Crawler.WikiCrawler.ProcessLinks | martin/src/WikiCrawler.py:71-79 | the new graph is the old one plus `current -> url` for each processed link; the frontier gains exactly the enqueued entries in order; the flag is set iff it was set or a link is the target; the graph only grows; the class invariant is kept for a page reachable from start |
| Crawler.ProcessKeepsInvariant | martin/src/WikiCrawler.py:71-79 | recording the links of a reachable page keeps every frontier page reachable and non-target with bounded priority, and makes a found target reachable |
| Crawler.WikiCrawler.WorkerStep | martin/src/WikiCrawler.py:82-94 | a set flag stops the worker with no dequeue and no change; otherwise the earliest least-priority entry is dequeued and then skipped if already a graph entry (graph unchanged), dropped if not HTML (nothing recorded), or its links are recorded as by `ProcessLinks`; the invariant holds and the graph only grows |
| Crawler.WikiCrawler.ShortestPath | martin/src/WikiCrawler.py:46-58 | the result is `[]` iff the target is unreachable from start in the recorded graph; otherwise it runs from start to target along recorded edges; no path is shorter; a direct start-to-target edge gives `[start, target]`; a found target gives a non-empty result |
| Crawler.SearchResult | martin/src/WikiCrawler.py:58 | when the search has finished, `FlattenOpt(Get(dist, target))`, the flattened entry of the target, is empty exactly for an unreachable target, and otherwise is a shortest path from start to target |

## Left out

- Network I/O is not modelled: the aiohttp session, the `text/html` content-type check and the session close. Fetching is the parameter `fetch`, where `None` stands for a response that is not HTML.
- `_get_article_links` is not modelled. It uses the BeautifulSoup HTML parser. Links arrive as `(text, href)` records.
- `yarl.URL` construction, `URL.join` and URL equality are not modelled. They follow section 5.2 of RFC 3986. Joining is an arbitrary function `join`, and pages are compared as strings.
- `str.lower()` is modelled on ASCII letters only, not with full Unicode case mapping.
- asyncio is not modelled: the `PriorityQueue`'s blocking `get` and `task_done`, the `Event`, the `Semaphore`, `gather`/`create_task`, and several workers running at once. With several workers, two can expand the same page. Only one sequential worker is modelled.
- Crawler.WikiCrawler.WorkerStep: the `PriorityQueue` orders equal priorities by comparing URLs. The model instead takes the earliest frontier entry of least priority.
- Crawler.WikiCrawler.WorkerStep: on an empty frontier the source waits forever. The model returns `Blocked` and changes nothing.
- `_first` and `__call__` are not modelled separately. They fetch the start page, call `_process_links` on it, start the workers and then call `shortest_path`; `ProcessLinks` on `start`, `WorkerStep` and `ShortestPath` cover that sequence. When the start page is not `text/html`, `_first` returns before any `_process_links` call and starts no worker, so `shortest_path` runs on the empty graph and returns `[]` (or `[start]` when start equals target); in the model this is the constructor followed directly by `ShortestPath`.
- Crawler.WikiCrawler.ShortestPath: `self._graph[at]` on the defaultdict inserts an empty entry for each visited page that has no links. The model reads the graph without changing it, since no edge is affected.
- Crawler.WikiCrawler.ShortestPath: when there are several shortest paths, the one returned depends on the iteration order of Python sets. The model picks neighbours in an unspecified order and states only that the result is a shortest path.
- Logging through `robot.api.logger`, the `concurrent` setting and the `__main__` command-line block are not modelled.
