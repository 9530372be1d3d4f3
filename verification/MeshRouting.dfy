/** Next-hop tables by breadth-first search, and forwarding along them:
    build_routing_tables and the hop step of simulate_traffic. */
module MeshRouting {

  /** Node i can hear the nodes in g[i]. */
  type Graph = seq<seq<nat>>
  type Table = map<nat, nat>

  predicate ValidGraph(g: Graph) {
    forall i, k :: 0 <= i < |g| && 0 <= k < |g[i]| ==> g[i][k] < |g|
  }

  // ------------------------------------------------------------- distance

  /** v can be reached from u in exactly k hops. */
  ghost predicate Hops(g: Graph, u: nat, v: nat, k: nat)
    requires ValidGraph(g)
    decreases k
  {
    u < |g| && if k == 0 then u == v else exists x :: x in g[u] && Hops(g, x, v, k - 1)
  }

  ghost predicate Distance(g: Graph, u: nat, v: nat, d: nat)
    requires ValidGraph(g)
  {
    Hops(g, u, v, d) && forall k :: 0 <= k < d ==> !Hops(g, u, v, k)
  }

  lemma {:induction false} HopsExtend(g: Graph, u: nat, v: nat, w: nat, k: nat)
    requires ValidGraph(g) && Hops(g, u, v, k) && v < |g| && w in g[v] && w < |g|
    ensures Hops(g, u, w, k + 1)
    decreases k
  {
    if k == 0 {
      assert Hops(g, w, w, 0);
    } else {
      var x :| x in g[u] && Hops(g, x, v, k - 1);
      HopsExtend(g, x, v, w, k - 1);
    }
  }

  lemma {:induction false} HopsBack(g: Graph, u: nat, w: nat, k: nat) returns (v: nat)
    requires ValidGraph(g) && Hops(g, u, w, k) && k > 0
    ensures v < |g| && Hops(g, u, v, k - 1) && w in g[v]
    decreases k
  {
    var x :| x in g[u] && Hops(g, x, w, k - 1);
    if k == 1 {
      v := u;
    } else {
      v := HopsBack(g, x, w, k - 1);
    }
  }

  lemma DistanceUnique(g: Graph, u: nat, v: nat, d: nat, e: nat)
    requires ValidGraph(g) && Distance(g, u, v, d) && Distance(g, u, v, e)
    ensures d == e
  {
  }

  // ---------------------------------------------------------------- tables

  /** The table of src holds exactly the other nodes it can reach, and each
      entry is a neighbour that is one hop closer. */
  ghost predicate Correct(g: Graph, src: nat, table: Table)
    requires ValidGraph(g) && src < |g|
  {
    && (forall v, k :: v != src && Hops(g, src, v, k) ==> v in table)
    && (forall v :: v in table ==> v != src && Entry(g, src, v, table[v]))
  }

  ghost predicate Entry(g: Graph, src: nat, v: nat, hop: nat)
    requires ValidGraph(g) && src < |g|
  {
    hop in g[src] && exists d :: d > 0 && Distance(g, src, v, d) && Distance(g, hop, v, d - 1)
  }

  // ---------------------------------------------------- breadth-first state

  /** What the search knows: a hop count for every visited node, and a first
      hop for every one but the source. */
  ghost predicate Explored(g: Graph, src: nat, dist: map<nat, nat>, table: Table)
    requires ValidGraph(g) && src < |g|
  {
    && src in dist && dist[src] == 0
    && table.Keys == dist.Keys - {src}
    && (forall v :: v in dist ==> v < |g| && Hops(g, src, v, dist[v]))
    && (forall v :: v in table ==>
          dist[v] > 0 && table[v] in g[src] && Hops(g, table[v], v, dist[v] - 1))
  }

  /** All neighbours of v have been visited, at most one hop further. */
  predicate Expanded(g: Graph, dist: map<nat, nat>, v: nat)
    requires v < |g| && v in dist
  {
    forall k :: 0 <= k < |g[v]| ==> g[v][k] in dist && dist[g[v][k]] <= dist[v] + 1
  }

  /** Visited nodes still to expand, in order of distance, two levels at most. */
  ghost predicate Frontier(g: Graph, dist: map<nat, nat>, done: set<nat>, queue: seq<nat>, level: nat)
  {
    && dist.Keys == done + (set v | v in queue)
    && (forall v :: v in dist ==> dist[v] <= level + 1)
    && (forall i :: 0 <= i < |queue| ==> queue[i] !in done && dist[queue[i]] >= level)
    && (forall i, j :: 0 <= i < j < |queue| ==>
          queue[i] != queue[j] && dist[queue[i]] <= dist[queue[j]])
  }

  ghost predicate AllExpanded(g: Graph, dist: map<nat, nat>, done: set<nat>) {
    forall v :: v in done ==> v < |g| && v in dist && Expanded(g, dist, v)
  }

  /** With every visited node expanded, hop counts are distances. */
  lemma {:induction false} Closed(g: Graph, src: nat, dist: map<nat, nat>, v: nat, k: nat)
    requires ValidGraph(g) && src < |g| && src in dist && dist[src] == 0
    requires AllExpanded(g, dist, dist.Keys)
    requires Hops(g, src, v, k)
    ensures v in dist && dist[v] <= k
    decreases k
  {
    if k > 0 {
      var x := HopsBack(g, src, v, k);
      Closed(g, src, dist, x, k - 1);
      var i :| 0 <= i < |g[x]| && g[x][i] == v;
      assert Expanded(g, dist, x);
    }
  }

  lemma TableCorrect(g: Graph, src: nat, dist: map<nat, nat>, table: Table)
    requires ValidGraph(g) && src < |g| && Explored(g, src, dist, table)
    requires AllExpanded(g, dist, dist.Keys)
    ensures Correct(g, src, table)
  {
    forall v, k | Hops(g, src, v, k)
      ensures v in dist && dist[v] <= k
    {
      Closed(g, src, dist, v, k);
    }
    forall v | v in table
      ensures Entry(g, src, v, table[v])
    {
      var d, hop := dist[v], table[v];
      forall k | 0 <= k < d - 1
        ensures !Hops(g, hop, v, k)
      {
        if Hops(g, hop, v, k) {
          assert Hops(g, src, v, k + 1);
        }
      }
      assert Distance(g, src, v, d) && Distance(g, hop, v, d - 1);
    }
  }

  // ----------------------------------------------------------------- search

  datatype Item = Item(node: nat, first: Hop)
  datatype Hop = NoHop | Hop(node: nat)

  ghost function Nodes(queue: seq<Item>): (nodes: seq<nat>)
    ensures |nodes| == |queue|
  {
    seq(|queue|, i requires 0 <= i < |queue| => queue[i].node)
  }

  /** Queue items carry the first hop recorded for their node. */
  ghost predicate Labelled(src: nat, table: Table, queue: seq<Item>) {
    forall i :: 0 <= i < |queue| ==> Label(src, table, queue[i])
  }

  predicate Label(src: nat, table: Table, item: Item) {
    if item.first.NoHop? then item.node == src
    else item.node in table && item.first.node == table[item.node]
  }

  /** A new neighbour w of the node c being expanded joins the search. */
  lemma VisitExplored(g: Graph, src: nat, dist: map<nat, nat>, table: Table, c: nat, w: nat, hop: nat)
    requires ValidGraph(g) && src < |g| && Explored(g, src, dist, table)
    requires c in dist && w in g[c] && w !in dist
    requires hop == if c == src then w else table[c]
    ensures w < |g| && Explored(g, src, dist[w := dist[c] + 1], table[w := hop])
  {
    var k :| 0 <= k < |g[c]| && g[c][k] == w;
    assert w < |g|;
    HopsExtend(g, src, c, w, dist[c]);
    if c == src {
      assert Hops(g, w, w, 0);
    } else {
      HopsExtend(g, table[c], c, w, dist[c] - 1);
    }
  }

  lemma VisitFrontier(g: Graph, dist: map<nat, nat>, done: set<nat>, queue: seq<nat>, level: nat, w: nat)
    requires Frontier(g, dist, done, queue, level) && w !in dist
    ensures Frontier(g, dist[w := level + 1], done, queue + [w], level)
  {
    assert forall i :: 0 <= i < |queue| ==> queue[i] in queue;
    assert (set v | v in queue + [w]) == (set v | v in queue) + {w};
  }

  lemma PopFrontier(g: Graph, dist: map<nat, nat>, done: set<nat>, queue: seq<nat>, level: nat)
    requires Frontier(g, dist, done, queue, level) && queue != []
    ensures queue[0] in dist && Frontier(g, dist, done + {queue[0]}, queue[1..], dist[queue[0]])
  {
    assert queue[0] in queue;
    assert (set v | v in queue) == {queue[0]} + (set v | v in queue[1..]);
  }

  /** The search while node c, in `done` already, is being expanded. */
  ghost predicate Searching(g: Graph, src: nat, queue: seq<Item>, table: Table,
                            dist: map<nat, nat>, done: set<nat>, level: nat)
    requires ValidGraph(g) && src < |g|
  {
    && Explored(g, src, dist, table) && Labelled(src, table, queue)
    && Frontier(g, dist, done, Nodes(queue), level)
  }

  lemma VisitLabelled(src: nat, table: Table, queue: seq<Item>, w: nat, hop: nat)
    requires Labelled(src, table, queue) && w !in table
    ensures Labelled(src, table[w := hop], queue + [Item(w, Hop(hop))])
  {
    assert forall i :: 0 <= i < |queue| ==> Label(src, table[w := hop], queue[i]);
  }

  /** Only the source carries no first hop. */
  lemma SourceOnly(g: Graph, src: nat, dist: map<nat, nat>, table: Table, item: Item)
    requires ValidGraph(g) && src < |g| && Explored(g, src, dist, table)
    requires item.node in dist && Label(src, table, item)
    ensures item.first.NoHop? <==> item.node == src
  {
    hide Hops;
  }

  lemma Visit(g: Graph, src: nat, item: Item, queue: seq<Item>, table: Table,
              dist: map<nat, nat>, done: set<nat>, level: nat, w: nat, hop: nat)
    requires ValidGraph(g) && src < |g| && Searching(g, src, queue, table, dist, done, level)
    requires item.node in dist && dist[item.node] == level && Label(src, table, item)
    requires w in g[item.node] && w !in dist
    requires hop == if item.first.Hop? then item.first.node else w
    ensures var table' := table[w := hop];
            && Searching(g, src, queue + [Item(w, Hop(hop))], table', dist[w := level + 1], done, level)
            && Label(src, table', item)
  {
    hide Hops, Explored, Frontier, Labelled;
    SourceOnly(g, src, dist, table, item);
    VisitExplored(g, src, dist, table, item.node, w, hop);
    TableVisited(g, src, dist, table);
    VisitLabelled(src, table, queue, w, hop);
    VisitFrontier(g, dist, done, Nodes(queue), level, w);
    assert Nodes(queue + [Item(w, Hop(hop))]) == Nodes(queue) + [w];
  }

  lemma TableVisited(g: Graph, src: nat, dist: map<nat, nat>, table: Table)
    requires ValidGraph(g) && src < |g| && Explored(g, src, dist, table)
    ensures forall v :: v in table ==> v in dist
  {
  }

  lemma StillExpanded(g: Graph, dist: map<nat, nat>, done: set<nat>, w: nat, d: nat)
    requires AllExpanded(g, dist, done) && w !in dist
    ensures AllExpanded(g, dist[w := d], done)
  {
  }

  method Expand(g: Graph, src: nat, item: Item, visited0: set<nat>, queue0: seq<Item>, table0: Table,
                ghost dist0: map<nat, nat>, ghost done: set<nat>)
    returns (visited: set<nat>, queue: seq<Item>, table: Table, ghost dist: map<nat, nat>)
    requires ValidGraph(g) && src < |g| && item.node < |g|
    requires item.node in dist0 && Label(src, table0, item) && visited0 == dist0.Keys
    requires Searching(g, src, queue0, table0, dist0, done + {item.node}, dist0[item.node])
    requires AllExpanded(g, dist0, done)
    ensures visited == dist.Keys && item.node in dist
    ensures Searching(g, src, queue, table, dist, done + {item.node}, dist[item.node])
    ensures AllExpanded(g, dist, done + {item.node})
  {
    hide Searching;
    hide AllExpanded;
    visited, queue, table, dist := visited0, queue0, table0, dist0;
    var c := item.node;
    ghost var level := dist0[c];
    for k := 0 to |g[c]|
      invariant visited == dist.Keys && c in dist && dist[c] == level && Label(src, table, item)
      invariant Searching(g, src, queue, table, dist, done + {c}, level)
      invariant AllExpanded(g, dist, done)
      invariant forall i :: 0 <= i < k ==> g[c][i] in dist
    {
      var w := g[c][k];
      if w !in visited {
        var hop := if item.first.Hop? then item.first.node else w;
        Visit(g, src, item, queue, table, dist, done + {c}, level, w, hop);
        StillExpanded(g, dist, done, w, level + 1);
        visited := visited + {w};
        table := table[w := hop];
        queue := queue + [Item(w, Hop(hop))];
        dist := dist[w := level + 1];
      }
    }
    OneMoreExpanded(g, src, queue, table, dist, done, c);
  }

  lemma OneMoreExpanded(g: Graph, src: nat, queue: seq<Item>, table: Table,
                        dist: map<nat, nat>, done: set<nat>, c: nat)
    requires ValidGraph(g) && src < |g| && c < |g| && c in dist
    requires Searching(g, src, queue, table, dist, done + {c}, dist[c])
    requires AllExpanded(g, dist, done)
    requires forall i :: 0 <= i < |g[c]| ==> g[c][i] in dist
    ensures AllExpanded(g, dist, done + {c})
  {
    assert Expanded(g, dist, c);
  }

  function NodeSet(n: nat): (s: set<nat>)
    ensures forall i :: i in s <==> 0 <= i < n
  {
    if n == 0 then {} else NodeSet(n - 1) + {n - 1}
  }

  /** The breadth-first search from one node. */
  method Search(g: Graph, src: nat) returns (table: Table)
    requires ValidGraph(g) && src < |g|
    ensures Correct(g, src, table)
  {
    hide Hops;
    var visited := {src};
    var queue := [Item(src, NoHop)];
    table := map[];
    ghost var dist: map<nat, nat>, done: set<nat>, level: nat := map[src := 0], {}, 0;
    StartSearching(g, src);
    while queue != []
      invariant Searching(g, src, queue, table, dist, done, level) && visited == dist.Keys
      invariant AllExpanded(g, dist, done)
      decreases NodeSet(|g|) - done
    {
      hide AllExpanded;
      hide Searching;
      var item := queue[0];
      PopSearching(g, src, queue, table, dist, done, level);
      visited, queue, table, dist := Expand(g, src, item, visited, queue[1..], table, dist, done);
      done, level := done + {item.node}, dist[item.node];
    }
    assert done == dist.Keys;
    TableCorrect(g, src, dist, table);
  }

  lemma StartSearching(g: Graph, src: nat)
    requires ValidGraph(g) && src < |g|
    ensures Searching(g, src, [Item(src, NoHop)], map[], map[src := 0], {}, 0)
  {
    assert Nodes([Item(src, NoHop)]) == [src];
    assert Hops(g, src, src, 0);
  }

  lemma PopSearching(g: Graph, src: nat, queue: seq<Item>, table: Table,
                     dist: map<nat, nat>, done: set<nat>, level: nat)
    requires ValidGraph(g) && src < |g| && queue != []
    requires Searching(g, src, queue, table, dist, done, level)
    ensures var c := queue[0].node;
            && c in dist && c < |g| && c !in done && Label(src, table, queue[0])
            && Searching(g, src, queue[1..], table, dist, done + {c}, dist[c])
  {
    hide Hops;
    PopFrontier(g, dist, done, Nodes(queue), level);
    assert Nodes(queue)[1..] == Nodes(queue[1..]);
    assert Nodes(queue)[0] == queue[0].node;
  }

  /** build_routing_tables */
  method BuildTables(g: Graph) returns (tables: seq<Table>)
    requires ValidGraph(g)
    ensures AllCorrect(g, tables)
  {
    hide Correct;
    tables := [];
    for src := 0 to |g|
      invariant |tables| == src && forall u :: 0 <= u < src ==> Correct(g, u, tables[u])
    {
      var table := Search(g, src);
      tables := tables + [table];
    }
  }

  ghost predicate AllCorrect(g: Graph, tables: seq<Table>)
    requires ValidGraph(g)
  {
    |tables| == |g| && forall u :: 0 <= u < |g| ==> Correct(g, u, tables[u])
  }

  // ------------------------------------------------------------- forwarding

  datatype Outcome = Delivered(hops: nat) | Failed(hops: nat) | InFlight(at: nat)

  /** Forwarding for at most `limit` hops: stop at the destination, fail where
      it is not in the table, else hand over to the next hop. */
  function Forward(tables: seq<Table>, at: nat, dst: nat, hops: nat, limit: nat): (r: Outcome)
    decreases limit
  {
    if at == dst then Delivered(hops)
    else if at >= |tables| || dst !in tables[at] then Failed(hops)
    else if limit == 0 then InFlight(at)
    else Forward(tables, tables[at][dst], dst, hops + 1, limit - 1)
  }

  /** Hop-by-hop forwarding through everybody's own table takes exactly the
      shortest-path number of hops. */
  lemma {:induction false} ForwardShortest(g: Graph, tables: seq<Table>, at: nat, dst: nat, hops: nat,
                                           d: nat, limit: nat)
    requires ValidGraph(g) && AllCorrect(g, tables) && Distance(g, at, dst, d) && d <= limit
    ensures Forward(tables, at, dst, hops, limit) == Delivered(hops + d)
    decreases d
  {
    if d > 0 {
      assert !Hops(g, at, dst, 0);
      assert Correct(g, at, tables[at]);
      var hop := tables[at][dst];
      assert Entry(g, at, dst, hop);
      var e :| e > 0 && Distance(g, at, dst, e) && Distance(g, hop, dst, e - 1);
      DistanceUnique(g, at, dst, d, e);
      ForwardShortest(g, tables, hop, dst, hops + 1, d - 1, limit - 1);
    }
  }

  /** A destination out of reach fails where the message starts. */
  lemma ForwardUnreachable(g: Graph, tables: seq<Table>, at: nat, dst: nat, limit: nat)
    requires ValidGraph(g) && AllCorrect(g, tables) && at < |g|
    requires forall k :: !Hops(g, at, dst, k)
    ensures Forward(tables, at, dst, 0, limit) == Failed(0)
  {
    assert !Hops(g, at, dst, 0);
    assert Correct(g, at, tables[at]);
    assert dst in tables[at] ==> Entry(g, at, dst, tables[at][dst]);
  }
}
