// The route search of the route finder: Dijkstra's algorithm over the
// adjacency lists of the road graph, with a priority queue of
// (cost, node, path) entries and a visited set, and the index check the
// command-line driver applies before searching.

module ShortestPath {
  import opened Wrappers
  import opened RoadGraph

  // ---------------------------------------------------------------------
  // Walks and their lengths
  // ---------------------------------------------------------------------

  function Sum(ws: seq<nat>): nat {
    if ws == [] then 0 else Sum(ws[..|ws| - 1]) + ws[|ws| - 1]
  }

  lemma SumAppend(ws: seq<nat>, w: nat)
    ensures Sum(ws + [w]) == Sum(ws) + w
  {
    assert (ws + [w])[..|ws|] == ws;
  }

  /** A prefix of the weights never weighs more than the whole. */
  lemma {:induction false} SumPrefix(ws: seq<nat>, i: nat)
    requires i <= |ws|
    ensures Sum(ws[..i]) <= Sum(ws)
    decreases |ws| - i
  {
    if i < |ws| {
      SumPrefix(ws, i + 1);
      assert ws[..i + 1] == ws[..i] + [ws[i]];
      SumAppend(ws[..i], ws[i]);
    } else {
      assert ws[..i] == ws;
    }
  }

  /** `nodes` is a walk in `g` whose i-th step uses an adjacency entry of
      weight ws[i]. */
  ghost predicate IsWalk(g: Graph, nodes: seq<nat>, ws: seq<nat>) {
    |nodes| == |ws| + 1 &&
    forall i {:trigger ws[i]} :: 0 <= i < |ws| ==> Edge(nodes[i + 1], ws[i]) in Adj(g, nodes[i])
  }

  /** A walk from `a` to `b`. */
  ghost predicate WalkBetween(g: Graph, a: nat, b: nat, nodes: seq<nat>, ws: seq<nat>) {
    IsWalk(g, nodes, ws) && nodes[0] == a && nodes[|nodes| - 1] == b
  }

  /** No walk from `a` to `b` is shorter than `c`. */
  ghost predicate Shortest(g: Graph, a: nat, b: nat, c: nat) {
    forall nodes, ws :: WalkBetween(g, a, b, nodes, ws) ==> c <= Sum(ws)
  }

  ghost predicate Reachable(g: Graph, a: nat, b: nat) {
    exists nodes, ws :: WalkBetween(g, a, b, nodes, ws)
  }

  predicate Distinct(s: seq<nat>) {
    forall i, j :: 0 <= i < j < |s| ==> s[i] != s[j]
  }

  lemma WalkExtend(g: Graph, nodes: seq<nat>, ws: seq<nat>, e: Edge)
    requires IsWalk(g, nodes, ws) && e in Adj(g, nodes[|nodes| - 1])
    ensures IsWalk(g, nodes + [e.to], ws + [e.weight])
  {
    var nodes', ws' := nodes + [e.to], ws + [e.weight];
    forall i | 0 <= i < |ws'|
      ensures Edge(nodes'[i + 1], ws'[i]) in Adj(g, nodes'[i])
    {
      if i < |ws| {
        assert nodes'[i + 1] == nodes[i + 1] && ws'[i] == ws[i];
      }
    }
  }

  lemma WalkPrefix(g: Graph, nodes: seq<nat>, ws: seq<nat>, i: nat)
    requires IsWalk(g, nodes, ws) && i < |nodes|
    ensures IsWalk(g, nodes[..i + 1], ws[..i])
  {
    forall j | 0 <= j < i
      ensures Edge(nodes[..i + 1][j + 1], ws[..i][j]) in Adj(g, nodes[..i + 1][j])
    {
      assert nodes[..i + 1][j + 1] == nodes[j + 1];
    }
  }

  /** A walk that starts inside `s` and ends outside it has a step that
      leaves `s`. */
  lemma {:induction false} FirstExit(nodes: seq<nat>, s: set<nat>) returns (i: nat)
    requires |nodes| > 0 && nodes[0] in s && nodes[|nodes| - 1] !in s
    ensures i + 1 < |nodes| && nodes[i] in s && nodes[i + 1] !in s
    decreases |nodes|
  {
    if nodes[1] !in s {
      i := 0;
    } else {
      var j := FirstExit(nodes[1..], s);
      i := j + 1;
    }
  }

  // ---------------------------------------------------------------------
  // The priority queue
  // ---------------------------------------------------------------------

  /** A queue entry (cost, node, path); `weights` are the weights of the
      walk path + [node], kept for the proof only. */
  datatype Entry = Entry(cost: nat, node: nat, path: seq<nat>, ghost weights: seq<nat>)

  /** Python's ordering of lists of integers: lexicographic, a proper
      prefix first. */
  predicate ListLess(a: seq<nat>, b: seq<nat>) {
    if a == [] then b != []
    else if b == [] then false
    else a[0] < b[0] || (a[0] == b[0] && ListLess(a[1..], b[1..]))
  }

  lemma {:induction false} ListLessTransitive(a: seq<nat>, b: seq<nat>, c: seq<nat>)
    requires ListLess(a, b) && ListLess(b, c)
    ensures ListLess(a, c)
  {
    if a != [] && a[0] == b[0] && b[0] == c[0] {
      ListLessTransitive(a[1..], b[1..], c[1..]);
    }
  }

  lemma {:induction false} ListLessIrreflexive(a: seq<nat>)
    ensures !ListLess(a, a)
  {
    if a != [] {
      ListLessIrreflexive(a[1..]);
    }
  }

  /** The ordering of the tuples (cost, node, path) on the heap. */
  predicate EntryLess(a: Entry, b: Entry) {
    a.cost < b.cost ||
    (a.cost == b.cost && (a.node < b.node || (a.node == b.node && ListLess(a.path, b.path))))
  }

  lemma EntryLessTransitive(a: Entry, b: Entry, c: Entry)
    requires EntryLess(a, b) && EntryLess(b, c)
    ensures EntryLess(a, c)
  {
    if a.cost == b.cost == c.cost && a.node == b.node == c.node {
      ListLessTransitive(a.path, b.path, c.path);
    }
  }

  /** heapq.heappop: the position of an entry that no other entry
      precedes, so in particular one of least cost. */
  method PopIndex(queue: seq<Entry>) returns (k: nat)
    requires queue != []
    ensures k < |queue|
    ensures forall j :: 0 <= j < |queue| ==> !EntryLess(queue[j], queue[k])
    ensures forall j :: 0 <= j < |queue| ==> queue[k].cost <= queue[j].cost
  {
    k := 0;
    ListLessIrreflexive(queue[0].path);
    for i := 1 to |queue|
      invariant k < i
      invariant forall j :: 0 <= j < i ==> !EntryLess(queue[j], queue[k])
    {
      if EntryLess(queue[i], queue[k]) {
        forall j | 0 <= j < i
          ensures !EntryLess(queue[j], queue[i])
        {
          if EntryLess(queue[j], queue[i]) {
            EntryLessTransitive(queue[j], queue[i], queue[k]);
          }
        }
        ListLessIrreflexive(queue[i].path);
        k := i;
      }
    }
  }

  // ---------------------------------------------------------------------
  // The invariant of the search
  // ---------------------------------------------------------------------

  /** An entry describes a walk from `start` to its node whose length is
      its cost, through visited nodes only, repeating no node. */
  ghost predicate ValidEntry(g: Graph, start: nat, e: Entry, visited: set<nat>) {
    var full := e.path + [e.node];
    IsWalk(g, full, e.weights) && full[0] == start && Sum(e.weights) == e.cost
    && (forall x :: x in e.path ==> x in visited) && Distinct(full)
  }

  ghost predicate EntriesValid(g: Graph, start: nat, queue: seq<Entry>, visited: set<nat>) {
    forall j :: 0 <= j < |queue| ==> ValidEntry(g, start, queue[j], visited)
  }

  /** Some entry for `x` costs at most `c`. */
  ghost predicate HasEntry(queue: seq<Entry>, x: nat, c: nat) {
    exists j :: 0 <= j < |queue| && queue[j].node == x && queue[j].cost <= c
  }

  /** Every edge out of a settled node into an unvisited one is offered by
      the queue at no more than the settled cost plus its weight. */
  ghost predicate Frontier(g: Graph, queue: seq<Entry>, visited: set<nat>, settled: map<nat, nat>) {
    forall u, e :: u in visited && u in settled && e in Adj(g, u) && e.to !in visited ==>
      HasEntry(queue, e.to, settled[u] + e.weight)
  }

  /** Every settled cost is the length of a shortest walk. */
  ghost predicate SettledShortest(g: Graph, start: nat, settled: map<nat, nat>) {
    forall u :: u in settled ==> Shortest(g, start, u, settled[u])
  }

  /** The nodes a search from `start` can meet: `start` and every neighbor. */
  ghost function Nodes(g: Graph, start: nat): set<nat> {
    {start} + Neighbors(g)
  }

  /** Every node some adjacency list leads to. */
  ghost function Neighbors(g: Graph): set<nat>
    decreases |g|
  {
    if g == map[] then {}
    else
      var u :| u in g;
      ListTargets(g[u]) + Neighbors(g - {u})
  }

  ghost function ListTargets(es: seq<Edge>): set<nat> {
    if es == [] then {} else {es[0].to} + ListTargets(es[1..])
  }

  lemma {:induction false} ListTargetsHas(es: seq<Edge>, e: Edge)
    requires e in es
    ensures e.to in ListTargets(es)
  {
    if es[0] != e {
      ListTargetsHas(es[1..], e);
    }
  }

  lemma {:induction false} NeighborsHas(g: Graph, u: nat, e: Edge)
    requires u in g && e in g[u]
    ensures e.to in Neighbors(g)
    decreases |g|
  {
    var w :| w in g && Neighbors(g) == ListTargets(g[w]) + Neighbors(g - {w});
    if w == u {
      ListTargetsHas(g[u], e);
    } else {
      NeighborsHas(g - {w}, u, e);
    }
  }

  /** Every queued node is one the search can meet. */
  ghost predicate InNodes(g: Graph, start: nat, queue: seq<Entry>) {
    forall j :: 0 <= j < |queue| ==> queue[j].node in Nodes(g, start)
  }

  lemma HasEntryExtend(queue: seq<Entry>, queue': seq<Entry>, x: nat, c: nat)
    requires HasEntry(queue, x, c)
    requires |queue| <= |queue'| && queue'[..|queue|] == queue
    ensures HasEntry(queue', x, c)
  {
    var j :| 0 <= j < |queue| && queue[j].node == x && queue[j].cost <= c;
    assert queue'[j] == queue'[..|queue|][j];
  }

  lemma HasEntryRemove(queue: seq<Entry>, k: nat, x: nat, c: nat)
    requires k < |queue| && HasEntry(queue, x, c) && queue[k].node != x
    ensures HasEntry(queue[..k] + queue[k + 1..], x, c)
  {
    var j :| 0 <= j < |queue| && queue[j].node == x && queue[j].cost <= c;
    var rest := queue[..k] + queue[k + 1..];
    if j < k {
      assert rest[j] == queue[j];
    } else {
      assert rest[j - 1] == queue[j];
    }
  }

  /** The entries left after dropping entry k are still valid, also for a
      larger visited set, and still for nodes the search can meet. */
  lemma RestValid(g: Graph, start: nat, queue: seq<Entry>, k: nat, visited: set<nat>, visited': set<nat>)
    requires k < |queue| && visited <= visited'
    requires EntriesValid(g, start, queue, visited) && InNodes(g, start, queue)
    ensures EntriesValid(g, start, queue[..k] + queue[k + 1..], visited')
    ensures InNodes(g, start, queue[..k] + queue[k + 1..])
  {
    var rest := queue[..k] + queue[k + 1..];
    forall j | 0 <= j < |rest|
      ensures ValidEntry(g, start, rest[j], visited') && rest[j].node in Nodes(g, start)
    {
      var i := if j < k then j else j + 1;
      assert rest[j] == queue[i];
      assert ValidEntry(g, start, queue[i], visited);
    }
  }

  /** Dropping entry k, for a node other than the ones it offers, keeps
      the offers for the edges out of settled nodes. */
  lemma RestOffers(g: Graph, queue: seq<Entry>, k: nat, visited: set<nat>, settled: map<nat, nat>, out: set<nat>)
    requires k < |queue| && queue[k].node in out
    requires Frontier(g, queue, visited, settled)
    ensures forall u, e :: u in visited && u in settled && e in Adj(g, u) && e.to !in visited + out ==>
              HasEntry(queue[..k] + queue[k + 1..], e.to, settled[u] + e.weight)
  {
    forall u, e | u in visited && u in settled && e in Adj(g, u) && e.to !in visited + out
      ensures HasEntry(queue[..k] + queue[k + 1..], e.to, settled[u] + e.weight)
    {
      HasEntryRemove(queue, k, e.to, settled[u] + e.weight);
    }
  }

  /** Dropping the popped entry keeps the invariant when its node was
      already visited. */
  lemma RemoveVisited(g: Graph, start: nat, queue: seq<Entry>, k: nat, visited: set<nat>, settled: map<nat, nat>)
    requires k < |queue| && queue[k].node in visited
    requires EntriesValid(g, start, queue, visited) && Frontier(g, queue, visited, settled)
    requires InNodes(g, start, queue)
    ensures InNodes(g, start, queue[..k] + queue[k + 1..])
    ensures EntriesValid(g, start, queue[..k] + queue[k + 1..], visited)
    ensures Frontier(g, queue[..k] + queue[k + 1..], visited, settled)
  {
    RestValid(g, start, queue, k, visited, visited);
    RestOffers(g, queue, k, visited, settled, {queue[k].node});
    assert visited + {queue[k].node} == visited;
  }

  /** The weights up to step i, and step i itself, weigh no more than the
      whole walk. */
  lemma SumPrefixStep(ws: seq<nat>, i: nat)
    requires i < |ws|
    ensures Sum(ws[..i]) + ws[i] <= Sum(ws)
  {
    assert ws[..i + 1] == ws[..i] + [ws[i]];
    SumAppend(ws[..i], ws[i]);
    SumPrefix(ws, i + 1);
  }

  /** The first i steps of a walk from `start` reach nodes[i], so they weigh
      at least its settled cost. */
  lemma PrefixCost(g: Graph, start: nat, settled: map<nat, nat>, nodes: seq<nat>, ws: seq<nat>, i: nat)
    requires IsWalk(g, nodes, ws) && nodes[0] == start && i < |nodes|
    requires nodes[i] in settled && SettledShortest(g, start, settled)
    ensures settled[nodes[i]] <= Sum(ws[..i])
  {
    WalkPrefix(g, nodes, ws, i);
    assert WalkBetween(g, start, nodes[i], nodes[..i + 1], ws[..i]);
  }

  /** The popped entry of an unvisited node gives that node's shortest
      walk: any walk to it leaves the visited set through an edge the
      queue already offers at no less than the popped cost. */
  lemma PopIsShortest(g: Graph, start: nat, queue: seq<Entry>, k: nat, visited: set<nat>, settled: map<nat, nat>)
    requires k < |queue| && queue[k].node !in visited
    requires forall j :: 0 <= j < |queue| ==> queue[k].cost <= queue[j].cost
    requires visited == settled.Keys && SettledShortest(g, start, settled)
    requires Frontier(g, queue, visited, settled)
    requires visited == {} ==> queue == [Entry(0, start, [], [])]
    requires visited != {} ==> start in visited
    ensures Shortest(g, start, queue[k].node, queue[k].cost)
  {
    var v, c := queue[k].node, queue[k].cost;
    forall nodes, ws | WalkBetween(g, start, v, nodes, ws)
      ensures c <= Sum(ws)
    {
      if visited != {} {
        var i := FirstExit(nodes, visited);
        PrefixCost(g, start, settled, nodes, ws, i);
        SumPrefixStep(ws, i);
        var e := Edge(nodes[i + 1], ws[i]);
        assert e in Adj(g, nodes[i]);
        var j :| 0 <= j < |queue| && queue[j].node == e.to && queue[j].cost <= settled[nodes[i]] + e.weight;
      }
    }
  }

  /** A visited set that the frontier never leaves holds every node a walk
      from inside it reaches. */
  lemma ClosedKeepsWalks(g: Graph, visited: set<nat>, nodes: seq<nat>, ws: seq<nat>)
    requires IsWalk(g, nodes, ws) && nodes[0] in visited
    requires forall u, e :: u in visited && e in Adj(g, u) ==> e.to in visited
    ensures nodes[|nodes| - 1] in visited
  {
    var k := 0;
    while k < |ws|
      invariant k <= |ws| && nodes[k] in visited
    {
      assert Edge(nodes[k + 1], ws[k]) in Adj(g, nodes[k]);
      k := k + 1;
    }
  }

  // Here and below, a predicate written `P(...) == true` in a requires or
  // an invariant is used as it stands: Dafny does not split its body into
  // separate proof obligations at that point, which keeps the proofs small.

  /** The entry pushed for neighbor `e` of a freshly settled node. */
  lemma PushValid(g: Graph, start: nat, ent: Entry, e: Edge, visited: set<nat>)
    requires ValidEntry(g, start, ent, visited - {ent.node}) == true
    requires ent.node in visited && e in Adj(g, ent.node) && e.to !in visited
    ensures ValidEntry(g, start, Entry(ent.cost + e.weight, e.to, ent.path + [ent.node], ent.weights + [e.weight]), visited)
  {
    var full := ent.path + [ent.node];
    WalkExtend(g, full, ent.weights, e);
    SumAppend(ent.weights, e.weight);
    assert (full + [e.to])[0] == start;
    forall i, j | 0 <= i < j < |full + [e.to]|
      ensures (full + [e.to])[i] != (full + [e.to])[j]
    {
      if j == |full| {
        assert (full + [e.to])[i] in full;
      }
    }
  }

  /** Dropping the popped entry of a node about to be settled keeps every
      other entry valid for the grown visited set, and keeps the offers
      for the edges out of the older settled nodes. */
  lemma RemoveSettled(g: Graph, start: nat, queue: seq<Entry>, k: nat, visited: set<nat>, settled: map<nat, nat>)
    requires k < |queue| && queue[k].node !in visited
    requires EntriesValid(g, start, queue, visited) && Frontier(g, queue, visited, settled)
    requires InNodes(g, start, queue)
    ensures InNodes(g, start, queue[..k] + queue[k + 1..])
    ensures var v := queue[k].node;
      EntriesValid(g, start, queue[..k] + queue[k + 1..], visited + {v}) &&
      forall u, e :: u in visited && u in settled && e in Adj(g, u) && e.to !in visited + {v} ==>
        HasEntry(queue[..k] + queue[k + 1..], e.to, settled[u] + e.weight)
  {
    RestValid(g, start, queue, k, visited, visited + {queue[k].node});
    RestOffers(g, queue, k, visited, settled, {queue[k].node});
  }

  /** After a node is settled and its neighbors pushed, every edge out of
      a settled node into an unvisited one is offered again. */
  lemma FrontierAfterSettle(g: Graph, rest: seq<Entry>, queue: seq<Entry>, visited: set<nat>,
                            settled: map<nat, nat>, v: nat)
    requires v in settled && settled.Keys == visited + {v}
    requires forall u, e :: u in visited && u in settled && e in Adj(g, u) && e.to !in visited + {v} ==>
               HasEntry(rest, e.to, settled[u] + e.weight)
    requires |rest| <= |queue| && queue[..|rest|] == rest
    requires forall e :: e in Adj(g, v) && e.to !in visited + {v} ==> HasEntry(queue, e.to, settled[v] + e.weight)
    ensures Frontier(g, queue, visited + {v}, settled)
  {
    forall u, e | u in visited + {v} && u in settled && e in Adj(g, u) && e.to !in visited + {v}
      ensures HasEntry(queue, e.to, settled[u] + e.weight)
    {
      if u != v {
        HasEntryExtend(rest, queue, e.to, settled[u] + e.weight);
      }
    }
  }

  /** With the queue empty, no walk from `start` leaves the visited set,
      so a node outside it is unreachable. */
  lemma ClosedAtEnd(g: Graph, start: nat, end: nat, visited: set<nat>, settled: map<nat, nat>)
    requires visited == settled.Keys && start in visited && end !in visited
    requires Frontier(g, [], visited, settled)
    ensures !Reachable(g, start, end)
  {
    forall u, e | u in visited && e in Adj(g, u)
      ensures e.to in visited
    {
    }
    forall nodes, ws | WalkBetween(g, start, end, nodes, ws)
      ensures false
    {
      ClosedKeepsWalks(g, visited, nodes, ws);
    }
  }

  lemma NodesOfNeighbor(g: Graph, start: nat, u: nat, e: Edge)
    requires e in Adj(g, u)
    ensures e.to in Nodes(g, start)
  {
    NeighborsHas(g, u, e);
  }

  // ---------------------------------------------------------------------
  // dijkstra
  // ---------------------------------------------------------------------

  /** dijkstra's result: ([], inf) is NoRoute. */
  datatype Route = NoRoute | Route(path: seq<nat>, cost: nat)

  /** What dijkstra promises of a route it returns: a walk from `start` to
      `end` whose length is `cost`, no longer than any other walk between
      them, repeating no node. */
  ghost predicate ShortestRoute(g: Graph, start: nat, end: nat, path: seq<nat>, cost: nat) {
    |path| > 0 && path[0] == start && path[|path| - 1] == end
    && (exists ws :: IsWalk(g, path, ws) && Sum(ws) == cost)
    && Shortest(g, start, end, cost) && Distinct(path) && Reachable(g, start, end)
    && (start == end ==> path == [start] && cost == 0)
  }

  /** `queue` is `rest` followed by entries for unvisited nodes, each
      reached along `path`. */
  ghost predicate Appended(rest: seq<Entry>, queue: seq<Entry>, visited: set<nat>, path: seq<nat>) {
    |rest| <= |queue| && queue[..|rest|] == rest
    && forall j :: |rest| <= j < |queue| ==> queue[j].node !in visited && queue[j].path == path
  }

  /** The queue offers every edge of `adj` into an unvisited node at no
      more than `base` plus its weight. */
  ghost predicate Offered(queue: seq<Entry>, adj: seq<Edge>, base: nat, visited: set<nat>) {
    forall e :: e in adj && e.to !in visited ==> HasEntry(queue, e.to, base + e.weight)
  }

  /** Passing over a visited neighbor keeps the offers. */
  lemma OfferedSkip(queue: seq<Entry>, adj: seq<Edge>, i: nat, base: nat, visited: set<nat>)
    requires i < |adj| && adj[i].to in visited
    requires Offered(queue, adj[..i], base, visited)
    ensures Offered(queue, adj[..i + 1], base, visited)
  {
    assert forall f :: f in adj[..i + 1] ==> f in adj[..i] || f == adj[i];
  }

  /** Appending a valid entry for a node the search can meet keeps the
      queue valid. */
  lemma AppendValid(g: Graph, start: nat, queue: seq<Entry>, pushed: Entry, visited: set<nat>)
    requires EntriesValid(g, start, queue, visited) && InNodes(g, start, queue)
    requires ValidEntry(g, start, pushed, visited) && pushed.node in Nodes(g, start)
    ensures EntriesValid(g, start, queue + [pushed], visited) && InNodes(g, start, queue + [pushed])
  {
    forall j | 0 <= j < |queue| + 1
      ensures ValidEntry(g, start, (queue + [pushed])[j], visited)
      ensures (queue + [pushed])[j].node in Nodes(g, start)
    {
      if j < |queue| {
        assert (queue + [pushed])[j] == queue[j];
      }
    }
  }

  /** Appending the entry for adj[i] at cost base + weight keeps the offers
      for adj[..i] and adds the one for adj[i]. */
  lemma AppendOffers(queue: seq<Entry>, adj: seq<Edge>, i: nat, base: nat, pushed: Entry, visited: set<nat>)
    requires i < |adj| && pushed.node == adj[i].to && pushed.cost == base + adj[i].weight
    requires Offered(queue, adj[..i], base, visited)
    ensures Offered(queue + [pushed], adj[..i + 1], base, visited)
  {
    forall f | f in adj[..i + 1] && f.to !in visited
      ensures HasEntry(queue + [pushed], f.to, base + f.weight)
    {
      if f in adj[..i] {
        HasEntryExtend(queue, queue + [pushed], f.to, base + f.weight);
      } else {
        assert f == adj[i] && (queue + [pushed])[|queue|] == pushed;
      }
    }
  }

  /** What the scan of a settled node's neighbors leaves: `queue` is `rest`
      followed by entries for unvisited nodes along `ent`'s path, and it
      offers every unvisited neighbor at `ent`'s cost plus the weight of the
      edge. */
  ghost predicate Pushed(g: Graph, start: nat, rest: seq<Entry>, queue: seq<Entry>, ent: Entry, visited: set<nat>) {
    Appended(rest, queue, visited, ent.path + [ent.node])
    && Offered(queue, Adj(g, ent.node), ent.cost, visited)
    && EntriesValid(g, start, queue, visited) && InNodes(g, start, queue)
  }

  /** The entries the scan of `adj` pushes for the settled entry `ent`: one
      (cost + weight, neighbor, path) per edge into a node not visited, in
      the order of the adjacency list. */
  ghost function Pushes(adj: seq<Edge>, ent: Entry, visited: set<nat>): seq<Entry> {
    if adj == [] then []
    else
      var e := adj[|adj| - 1];
      Pushes(adj[..|adj| - 1], ent, visited)
      + if e.to in visited then [] else [Entry(ent.cost + e.weight, e.to, ent.path + [ent.node], ent.weights + [e.weight])]
  }

  /** `queue` is `rest` followed by what the scan of adj[..i] pushes. */
  ghost predicate ScannedTo(rest: seq<Entry>, queue: seq<Entry>, adj: seq<Edge>, i: nat, ent: Entry,
                            visited: set<nat>) {
    i <= |adj| && queue == rest + Pushes(adj[..i], ent, visited)
  }

  /** Scanning adj[i] pushes its entry when its node is not visited, and
      nothing otherwise. */
  lemma ScanStep(rest: seq<Entry>, queue: seq<Entry>, adj: seq<Edge>, i: nat, ent: Entry,
                 visited: set<nat>, queue': seq<Entry>)
    requires i < |adj| && ScannedTo(rest, queue, adj, i, ent, visited)
    requires adj[i].to in visited ==> queue' == queue
    requires adj[i].to !in visited ==>
               queue' == queue + [Entry(ent.cost + adj[i].weight, adj[i].to, ent.path + [ent.node],
                                        ent.weights + [adj[i].weight])]
    ensures ScannedTo(rest, queue', adj, i + 1, ent, visited)
  {
    assert adj[..i + 1][..i] == adj[..i];
  }

  /** Every pushed entry is for an unvisited node and carries the settled
      entry's path extended by its node. */
  lemma {:induction false} PushesAlong(adj: seq<Edge>, ent: Entry, visited: set<nat>)
    ensures forall j :: 0 <= j < |Pushes(adj, ent, visited)| ==>
              Pushes(adj, ent, visited)[j].node !in visited && Pushes(adj, ent, visited)[j].path == ent.path + [ent.node]
  {
    if adj != [] {
      var front := Pushes(adj[..|adj| - 1], ent, visited);
      PushesAlong(adj[..|adj| - 1], ent, visited);
      var pushes := Pushes(adj, ent, visited);
      var e := adj[|adj| - 1];
      assert pushes == front + if e.to in visited then [] else [Entry(ent.cost + e.weight, e.to, ent.path + [ent.node], ent.weights + [e.weight])];
      forall j | 0 <= j < |pushes|
        ensures pushes[j].node !in visited && pushes[j].path == ent.path + [ent.node]
      {
        if j < |front| {
          assert pushes[j] == front[j];
        } else {
          assert e.to !in visited && pushes[j] == Entry(ent.cost + e.weight, e.to, ent.path + [ent.node], ent.weights + [e.weight]);
        }
      }
    }
  }

  /** The scan `for neighbor, weight in graph[node]` after `node` is
      settled: one entry is pushed for each neighbor not yet visited, at
      the node's cost plus the edge weight, with the node's path. */
  method PushNeighbors(g: Graph, start: nat, queue: seq<Entry>, ent: Entry, visited: set<nat>)
    returns (queue': seq<Entry>)
    requires ent.node in visited && ValidEntry(g, start, ent, visited - {ent.node})
    requires EntriesValid(g, start, queue, visited)
    requires InNodes(g, start, queue)
    ensures queue' == queue + Pushes(Adj(g, ent.node), ent, visited)
    ensures Pushed(g, start, queue, queue', ent, visited)
  {
    var path := ent.path + [ent.node];
    var adj := Adj(g, ent.node);
    queue' := queue;
    for i := 0 to |adj|
      invariant ScannedTo(queue, queue', adj, i, ent, visited) == true
      invariant Offered(queue', adj[..i], ent.cost, visited) == true
      invariant EntriesValid(g, start, queue', visited) == true
      invariant InNodes(g, start, queue') == true
    {
      var e := adj[i];
      if e.to !in visited {
        var pushed := Entry(ent.cost + e.weight, e.to, path, ent.weights + [e.weight]);
        ScanStep(queue, queue', adj, i, ent, visited, queue' + [pushed]);
        PushValid(g, start, ent, e, visited);
        NodesOfNeighbor(g, start, ent.node, e);
        AppendValid(g, start, queue', pushed, visited);
        AppendOffers(queue', adj, i, ent.cost, pushed, visited);
        queue' := queue' + [pushed];
      } else {
        ScanStep(queue, queue', adj, i, ent, visited, queue');
        OfferedSkip(queue', adj, i, ent.cost, visited);
      }
    }
    assert adj[..|adj|] == adj;
    PushesAlong(adj, ent, visited);
    assert queue'[..|queue|] == queue;
  }

  /** What the search keeps about its visited set, apart from the queue. */
  ghost predicate StateInv(g: Graph, start: nat, end: nat, visited: set<nat>,
                           settled: map<nat, nat>, expanded: seq<nat>) {
    visited == settled.Keys && visited <= Nodes(g, start)
    && SettledShortest(g, start, settled)
    && (visited != {} ==> start in visited)
    && end !in visited
    && Distinct(expanded) && (forall x :: x in expanded <==> x in visited)
  }

  /** Everything the search loop keeps between two pops. */
  ghost predicate SearchInv(g: Graph, start: nat, end: nat, queue: seq<Entry>, visited: set<nat>,
                            settled: map<nat, nat>, expanded: seq<nat>) {
    StateInv(g, start, end, visited, settled, expanded)
    && EntriesValid(g, start, queue, visited) && InNodes(g, start, queue)
    && Frontier(g, queue, visited, settled)
    && (visited == {} ==> queue == [Entry(0, start, [], [])])
  }

  /** What popping entry k, for a node not yet visited, establishes: its
      cost is that of a shortest walk, and the rest of the queue suits the
      visited set grown by the node. */
  ghost predicate Popped(g: Graph, start: nat, queue: seq<Entry>, k: nat, visited: set<nat>, settled: map<nat, nat>) {
    k < |queue| &&
    var v := queue[k].node;
    var rest := queue[..k] + queue[k + 1..];
    v !in visited && v in Nodes(g, start)
    && ValidEntry(g, start, queue[k], visited)
    && Shortest(g, start, v, queue[k].cost)
    && EntriesValid(g, start, rest, visited + {v})
    && InNodes(g, start, rest)
    && (forall u, e :: u in visited && u in settled && e in Adj(g, u) && e.to !in visited + {v} ==>
          HasEntry(rest, e.to, settled[u] + e.weight))
    && (visited == {} ==> queue[k] == Entry(0, start, [], []))
  }

  lemma SettleDistinct(expanded: seq<nat>, v: nat)
    requires Distinct(expanded) && v !in expanded
    ensures Distinct(expanded + [v])
  {
    var expanded' := expanded + [v];
    forall i, j | 0 <= i < j < |expanded'|
      ensures expanded'[i] != expanded'[j]
    {
      if j == |expanded| {
        assert expanded'[i] in expanded;
      }
    }
  }

  /** The popped entry is for a visited node: dropping it keeps the invariant. */
  lemma SkipKeeps(g: Graph, start: nat, end: nat, queue: seq<Entry>, k: nat, visited: set<nat>,
                  settled: map<nat, nat>, expanded: seq<nat>)
    requires SearchInv(g, start, end, queue, visited, settled, expanded) == true
    requires k < |queue| && queue[k].node in visited
    ensures SearchInv(g, start, end, queue[..k] + queue[k + 1..], visited, settled, expanded)
  {
    RemoveVisited(g, start, queue, k, visited, settled);
  }

  /** The popped entry is a least one, for an unvisited node. */
  lemma PopFacts(g: Graph, start: nat, end: nat, queue: seq<Entry>, k: nat, visited: set<nat>,
                 settled: map<nat, nat>, expanded: seq<nat>)
    requires SearchInv(g, start, end, queue, visited, settled, expanded) == true
    requires k < |queue| && queue[k].node !in visited
    requires forall j :: 0 <= j < |queue| ==> queue[k].cost <= queue[j].cost
    ensures Popped(g, start, queue, k, visited, settled)
  {
    PopIsShortest(g, start, queue, k, visited, settled);
    RemoveSettled(g, start, queue, k, visited, settled);
  }

  /** The popped node is the destination: its entry is the answer. */
  lemma FoundFacts(g: Graph, start: nat, end: nat, queue: seq<Entry>, k: nat, visited: set<nat>,
                   settled: map<nat, nat>, expanded: seq<nat>)
    requires k < |queue| && queue[k].node == end
    requires StateInv(g, start, end, visited, settled, expanded) == true
    requires Popped(g, start, queue, k, visited, settled) == true
    ensures ShortestRoute(g, start, end, queue[k].path + [end], queue[k].cost)
    ensures Distinct(expanded + [end])
  {
    var ent := queue[k];
    assert WalkBetween(g, start, end, ent.path + [ent.node], ent.weights);
    SettleDistinct(expanded, end);
  }

  /** Settling node v at a shortest cost c keeps the invariant about the
      visited set, and leaves one node fewer to settle. */
  lemma StateKeeps(g: Graph, start: nat, end: nat, visited: set<nat>, settled: map<nat, nat>,
                   expanded: seq<nat>, v: nat, c: nat)
    requires StateInv(g, start, end, visited, settled, expanded) == true
    requires v !in visited && v != end && v in Nodes(g, start) && Shortest(g, start, v, c)
    requires visited == {} ==> v == start
    ensures StateInv(g, start, end, visited + {v}, settled[v := c], expanded + [v])
    ensures |Nodes(g, start) - (visited + {v})| < |Nodes(g, start) - visited|
  {
    SettleDistinct(expanded, v);
    assert Nodes(g, start) - (visited + {v}) == (Nodes(g, start) - visited) - {v};
  }

  /** Settling the popped node and pushing its neighbors restores the
      invariant, with one node fewer left to settle. */
  lemma SettleKeeps(g: Graph, start: nat, end: nat, queue: seq<Entry>, k: nat, pushed: seq<Entry>,
                    visited: set<nat>, settled: map<nat, nat>, expanded: seq<nat>)
    requires k < |queue| && queue[k].node != end
    requires StateInv(g, start, end, visited, settled, expanded) == true
    requires Popped(g, start, queue, k, visited, settled) == true
    requires Pushed(g, start, queue[..k] + queue[k + 1..], pushed, queue[k], visited + {queue[k].node}) == true
    ensures var v := queue[k].node;
      SearchInv(g, start, end, pushed, visited + {v}, settled[v := queue[k].cost], expanded + [v])
      && |Nodes(g, start) - (visited + {v})| < |Nodes(g, start) - visited|
  {
    var ent := queue[k];
    var v := ent.node;
    var settled' := settled[v := ent.cost];
    StateKeeps(g, start, end, visited, settled, expanded, v, ent.cost);
    FrontierAfterSettle(g, queue[..k] + queue[k + 1..], pushed, visited, settled', v);
  }

  /** The queue ran empty: the destination is unreachable. */
  lemma ExhaustedFacts(g: Graph, start: nat, end: nat, visited: set<nat>, settled: map<nat, nat>,
                       expanded: seq<nat>)
    requires SearchInv(g, start, end, [], visited, settled, expanded) == true
    ensures !Reachable(g, start, end) && start != end
    ensures forall x :: Reachable(g, start, x) ==> x in expanded
    ensures Distinct(expanded)
  {
    ClosedAtEnd(g, start, end, visited, settled);
    forall x | Reachable(g, start, x)
      ensures x in expanded
    {
      if x !in visited {
        ClosedAtEnd(g, start, x, visited, settled);
      }
    }
  }

  /** One round of the loop of dijkstra: pop the least entry; skip it if its
      node is visited; otherwise settle the node, stop if it is the
      destination, and push its unvisited neighbors. */
  method SearchStep(g: Graph, start: nat, end: nat, queue: seq<Entry>, visited: set<nat>,
                    ghost settled: map<nat, nat>, ghost expanded: seq<nat>)
    returns (queue': seq<Entry>, visited': set<nat>, ghost settled': map<nat, nat>,
             ghost expanded': seq<nat>, found: Option<Route>)
    requires queue != [] && SearchInv(g, start, end, queue, visited, settled, expanded) == true
    ensures found.Some? ==>
              found.value.Route? && Distinct(expanded')
              && ShortestRoute(g, start, end, found.value.path, found.value.cost) == true
    ensures found.Some? ==> end !in visited && visited' == visited + {end} && expanded' == expanded + [end]
    ensures found.None? ==> SearchInv(g, start, end, queue', visited', settled', expanded') == true
    ensures found.None? ==>
      (visited' == visited && expanded' == expanded)
      || exists v :: v !in visited && visited' == visited + {v} && expanded' == expanded + [v]
    ensures found.None? ==>
      (visited' == visited && |queue'| < |queue|)
      || |Nodes(g, start) - visited'| < |Nodes(g, start) - visited|
  {
    var k := PopIndex(queue);
    var ent := queue[k];
    var v := ent.node;
    var rest := queue[..k] + queue[k + 1..];
    if v in visited {
      SkipKeeps(g, start, end, queue, k, visited, settled, expanded);
      return rest, visited, settled, expanded, None;
    }
    PopFacts(g, start, end, queue, k, visited, settled, expanded);
    var path := ent.path + [v];
    if v == end {
      FoundFacts(g, start, end, queue, k, visited, settled, expanded);
      return queue, visited + {v}, settled[v := ent.cost], expanded + [v], Some(Route(path, ent.cost));
    }
    assert (visited + {v}) - {v} == visited;
    var pushed := PushNeighbors(g, start, rest, ent, visited + {v});
    SettleKeeps(g, start, end, queue, k, pushed, visited, settled, expanded);
    return pushed, visited + {v}, settled[v := ent.cost], expanded + [v], None;
  }

  /** The search starts from one entry for `start` at cost 0, with nothing
      visited. */
  lemma InitialInv(g: Graph, start: nat, end: nat)
    ensures SearchInv(g, start, end, [Entry(0, start, [], [])], {}, map[], []) == true
  {
  }

  /** The parts of a shortest route, one by one. */
  lemma RouteParts(g: Graph, start: nat, end: nat, r: Route)
    requires r.Route? && ShortestRoute(g, start, end, r.path, r.cost) == true
    ensures |r.path| > 0 && r.path[0] == start && r.path[|r.path| - 1] == end
    ensures exists ws :: IsWalk(g, r.path, ws) && Sum(ws) == r.cost
    ensures Shortest(g, start, end, r.cost) && Distinct(r.path) && Reachable(g, start, end)
    ensures start == end ==> r == Route([start], 0)
  {
  }

  /** dijkstra(graph, start, end). The route it returns is a shortest walk
      and repeats no node, and there is no route exactly when no walk
      leads from `start` to `end`. `expanded` lists the nodes whose
      neighbors were scanned, in order: none twice, the last one `end`
      when a route is returned, and every node reachable from `start` when
      none is. */
  method Dijkstra(g: Graph, start: nat, end: nat) returns (r: Route, ghost expanded: seq<nat>)
    ensures r.Route? ==> |r.path| > 0 && r.path[0] == start && r.path[|r.path| - 1] == end
    ensures r.Route? ==> exists ws :: IsWalk(g, r.path, ws) && Sum(ws) == r.cost
    ensures r.Route? ==> Shortest(g, start, end, r.cost)
    ensures r.Route? ==> Distinct(r.path)
    ensures r.NoRoute? <==> !Reachable(g, start, end)
    ensures start == end ==> r == Route([start], 0)
    ensures Distinct(expanded)
    ensures r.Route? ==> expanded != [] && expanded[|expanded| - 1] == end
    ensures r.NoRoute? ==> forall x :: Reachable(g, start, x) ==> x in expanded
  {
    var found;
    found, expanded := Search(g, start, end);
    if found.Some? {
      RouteParts(g, start, end, found.value);
      r := found.value;
    } else {
      r := NoRoute;
    }
  }

  /** The loop of dijkstra: rounds of SearchStep from a queue holding only
      `start` at cost 0 until a route is found or the queue runs out. */
  method Search(g: Graph, start: nat, end: nat) returns (found: Option<Route>, ghost expanded: seq<nat>)
    ensures found.Some? ==>
              found.value.Route? && ShortestRoute(g, start, end, found.value.path, found.value.cost) == true
              && Distinct(expanded) && expanded != [] && expanded[|expanded| - 1] == end
    ensures found.None? ==>
              !Reachable(g, start, end) && start != end && Distinct(expanded)
              && forall x :: Reachable(g, start, x) ==> x in expanded
  {
    var queue := [Entry(0, start, [], [])];
    var visited: set<nat> := {};
    ghost var settled: map<nat, nat> := map[];
    expanded := [];
    InitialInv(g, start, end);
    while queue != []
      invariant SearchInv(g, start, end, queue, visited, settled, expanded) == true
      decreases |Nodes(g, start) - visited|, |queue|
    {
      queue, visited, settled, expanded, found := SearchStep(g, start, end, queue, visited, settled, expanded);
      if found.Some? {
        return;
      }
    }
    ExhaustedFacts(g, start, end, visited, settled, expanded);
    return None, expanded;
  }

  // ---------------------------------------------------------------------
  // The driver's checks
  // ---------------------------------------------------------------------

  /** What the command-line driver ends with. */
  datatype Outcome = EmptyInput | InvalidIndex | NoPathFound | Found(path: seq<nat>, cost: nat)

  /** The driver after reading the two indices: it gives up on an empty
      graph or an empty point list, then on an index outside the point
      list, and otherwise searches and reports either that no path exists
      or the route found. */
  method FindRoute(g: Graph, pointCount: nat, start: int, end: int) returns (o: Outcome)
    ensures o == EmptyInput <==> g == map[] || pointCount == 0
    ensures o == InvalidIndex <==>
              g != map[] && pointCount > 0 && !(0 <= start < pointCount && 0 <= end < pointCount)
    ensures o == NoPathFound <==>
              g != map[] && 0 <= start < pointCount && 0 <= end < pointCount && !Reachable(g, start, end)
    ensures o.Found? ==> 0 <= start < pointCount && 0 <= end < pointCount
                         && ShortestRoute(g, start, end, o.path, o.cost)
  {
    if g == map[] || pointCount == 0 {
      return EmptyInput;
    }
    if start < 0 || end < 0 || start >= pointCount || end >= pointCount {
      return InvalidIndex;
    }
    var r;
    ghost var expanded;
    r, expanded := Dijkstra(g, start, end);
    if r.NoRoute? {
      return NoPathFound;
    }
    return Found(r.path, r.cost);
  }
}
