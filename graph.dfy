/**
 * The threshold graphs of the clustering step and their connected components:
 * a networkx.Graph replaced by a class over an adjacency map (make_graph,
 * make_graph_anin), and cluster_graph as a breadth-first search that numbers
 * the components 0, 1, 2, ... in the order it meets them.
 */
module Graphs {
  import opened Tables

  /** Each node mapped to the set of its neighbours. */
  type Adjacency = map<Genome, set<Genome>>

  /** Every neighbour is itself a node and every edge is recorded at both ends, as in an undirected graph. */
  ghost predicate Undirected(adj: Adjacency) {
    forall u, v :: u in adj && v in adj[u] ==> v in adj && u in adj[v]
  }

  /** The neighbours of `x`, none when `x` is not a node. */
  function Neighbours(adj: Adjacency, x: Genome): set<Genome> {
    if x in adj then adj[x] else {}
  }

  /** The adjacency after add_edge(u, v): both ends become nodes when they were not, and each joins the other's neighbours. */
  function Link(adj: Adjacency, u: Genome, v: Genome): Adjacency {
    var a := adj[u := Neighbours(adj, u) + {v}];
    a[v := Neighbours(a, v) + {u}]
  }

  /** add_edge changes the neighbours of its two ends only, by adding the other end. */
  lemma LinkSpec(adj: Adjacency, u: Genome, v: Genome, x: Genome)
    ensures x in Link(adj, u, v) <==> x in adj || x == u || x == v
    ensures x in Link(adj, u, v) ==>
              Link(adj, u, v)[x] == Neighbours(adj, x) + (if x == u then {v} else {}) + (if x == v then {u} else {})
  {
  }

  /** add_edge keeps a graph undirected. */
  lemma LinkUndirected(adj: Adjacency, u: Genome, v: Genome)
    requires Undirected(adj)
    ensures Undirected(Link(adj, u, v))
  {
    var l := Link(adj, u, v);
    forall x, y | x in l && y in l[x] ensures y in l && x in l[y] {
      LinkSpec(adj, u, v, x);
      LinkSpec(adj, u, v, y);
    }
  }

  /** The graph with a node for each seed, then each edge of `edges` added in turn. */
  function EdgeGraph(seeds: seq<Genome>, edges: seq<(Genome, Genome)>): Adjacency
    decreases |edges|
  {
    if edges == [] then map v | v in seeds :: {}
    else
      var e := edges[|edges| - 1];
      Link(EdgeGraph(seeds, edges[..|edges| - 1]), e.0, e.1)
  }

  /** `x` is one end of an edge of `edges`. */
  predicate IsEnd(edges: seq<(Genome, Genome)>, x: Genome) {
    exists i :: 0 <= i < |edges| && (edges[i].0 == x || edges[i].1 == x)
  }

  /** `edges` joins `x` and `y`, in either direction. */
  predicate Joins(edges: seq<(Genome, Genome)>, x: Genome, y: Genome) {
    exists i :: 0 <= i < |edges| && (edges[i] == (x, y) || edges[i] == (y, x))
  }

  /** The nodes of the graph are the seeds and the ends of the edges. */
  lemma {:induction false} EdgeGraphNode(seeds: seq<Genome>, edges: seq<(Genome, Genome)>, x: Genome)
    ensures x in EdgeGraph(seeds, edges) <==> x in seeds || IsEnd(edges, x)
    decreases |edges|
  {
    if edges != [] {
      var prev, e := edges[..|edges| - 1], edges[|edges| - 1];
      EdgeGraphNode(seeds, prev, x);
      LinkSpec(EdgeGraph(seeds, prev), e.0, e.1, x);
      if IsEnd(prev, x) {
        var i :| 0 <= i < |prev| && (prev[i].0 == x || prev[i].1 == x);
        assert edges[i] == prev[i];
      }
      if IsEnd(edges, x) && !IsEnd(prev, x) {
        assert e.0 == x || e.1 == x;
      }
    }
  }

  /** Two nodes are neighbours exactly when some edge joins them. */
  lemma {:induction false} EdgeGraphEdge(seeds: seq<Genome>, edges: seq<(Genome, Genome)>, x: Genome, y: Genome)
    requires x in EdgeGraph(seeds, edges)
    ensures y in EdgeGraph(seeds, edges)[x] <==> Joins(edges, x, y)
    decreases |edges|
  {
    if edges == [] {
    } else {
      var prev, e := edges[..|edges| - 1], edges[|edges| - 1];
      var g := EdgeGraph(seeds, prev);
      LinkSpec(g, e.0, e.1, x);
      if x in g {
        EdgeGraphEdge(seeds, prev, x, y);
      } else {
        assert !Joins(prev, x, y) by {
          EdgeGraphNode(seeds, prev, x);
          forall i | 0 <= i < |prev| ensures prev[i] != (x, y) && prev[i] != (y, x) {
            assert prev[i].0 != x && prev[i].1 != x;
          }
        }
      }
      if Joins(prev, x, y) {
        var i :| 0 <= i < |prev| && (prev[i] == (x, y) || prev[i] == (y, x));
        assert edges[i] == prev[i];
      }
      if Joins(edges, x, y) && !Joins(prev, x, y) {
        assert e == (x, y) || e == (y, x);
      }
    }
  }

  /** The graph built from seeds and edges is undirected. */
  lemma EdgeGraphUndirected(seeds: seq<Genome>, edges: seq<(Genome, Genome)>)
    ensures Undirected(EdgeGraph(seeds, edges))
  {
    var g := EdgeGraph(seeds, edges);
    forall x, y | x in g && y in g[x] ensures y in g && x in g[y] {
      EdgeGraphEdge(seeds, edges, x, y);
      var i :| 0 <= i < |edges| && (edges[i] == (x, y) || edges[i] == (y, x));
      EdgeGraphNode(seeds, edges, y);
      EdgeGraphEdge(seeds, edges, y, x);
    }
  }

  // ---------------------------------------------------------------------
  // The mutable graph (networkx.Graph restricted to what make_graph uses)

  class Graph {
    /** The nodes, in the order they were added. */
    var nodes: seq<Genome>
    /** The neighbours of each node; a self-loop puts a node among its own neighbours. */
    var adj: Adjacency

    ghost predicate Valid()
      reads this
    {
      && Distinct(nodes)
      && (forall v :: v in adj <==> v in nodes)
      && Undirected(adj)
    }

    /** nx.Graph(): no nodes, no edges. */
    constructor()
      ensures Valid() && nodes == [] && adj == map[]
    {
      nodes := [];
      adj := map[];
    }

    /** add_node: a node that is already there is left as it is. */
    method AddNode(v: Genome)
      requires Valid()
      modifies this
      ensures Valid()
      ensures v in old(adj) ==> nodes == old(nodes) && adj == old(adj)
      ensures v !in old(adj) ==> nodes == old(nodes) + [v] && adj == old(adj)[v := {}]
    {
      if v !in adj {
        nodes := nodes + [v];
        adj := adj[v := {}];
      }
    }

    /** add_edge: adds whichever end is not yet a node, then the edge itself. */
    method AddEdge(u: Genome, v: Genome)
      requires Valid()
      modifies this
      ensures Valid()
      ensures adj == Link(old(adj), u, v)
      ensures nodes == old(nodes) + (if u in old(adj) then [] else [u]) + (if v in old(adj) || v == u then [] else [v])
      ensures old(nodes) <= nodes
    {
      var adj0 := adj;
      if u !in adj0 {
        DistinctSnoc(nodes, u);
        nodes := nodes + [u];
      }
      if v !in adj0 && v != u {
        DistinctSnoc(nodes, v);
        nodes := nodes + [v];
      }
      LinkUndirected(adj0, u, v);
      forall x ensures x in Link(adj0, u, v) <==> x in nodes {
        LinkSpec(adj0, u, v, x);
      }
      adj := Link(adj0, u, v);
    }
  }

  /** A sequence of distinct values stays distinct when a value not in it is appended. */
  lemma DistinctSnoc(s: seq<Genome>, x: Genome)
    requires Distinct(s) && x !in s
    ensures Distinct(s + [x])
  {
    var t := s + [x];
    forall i, j | 0 <= i < j < |t| ensures t[i] != t[j] {
      assert t[i] == s[i];
      if j < |s| {
        assert t[j] == s[j];
      }
    }
  }

  // ---------------------------------------------------------------------
  // Paths and connectivity

  /** A walk along edges: every step goes from a node to one of its neighbours. */
  ghost predicate IsPath(adj: Adjacency, p: seq<Genome>) {
    && |p| >= 1
    && (forall i :: 0 <= i < |p| ==> p[i] in adj)
    && (forall i, j :: 0 <= i < j < |p| && j == i + 1 ==> p[i] in adj && p[j] in adj[p[i]])
  }

  /** `u` and `v` lie in the same connected component. */
  ghost predicate Connected(adj: Adjacency, u: Genome, v: Genome) {
    exists p :: IsPath(adj, p) && p[0] == u && p[|p| - 1] == v
  }

  lemma ConnectedRefl(adj: Adjacency, u: Genome)
    requires u in adj
    ensures Connected(adj, u, u)
  {
    assert IsPath(adj, [u]);
  }

  /** A path extended by one edge at its end. */
  lemma ConnectedStep(adj: Adjacency, u: Genome, v: Genome, w: Genome)
    requires Undirected(adj)
    requires Connected(adj, u, v) && v in adj && w in adj[v]
    ensures Connected(adj, u, w)
  {
    var p :| IsPath(adj, p) && p[0] == u && p[|p| - 1] == v;
    var q := p + [w];
    assert forall i :: 0 <= i < |p| ==> q[i] == p[i];
    assert IsPath(adj, q);
  }

  lemma ConnectedSym(adj: Adjacency, u: Genome, v: Genome)
    requires Undirected(adj)
    requires Connected(adj, u, v)
    ensures Connected(adj, v, u)
  {
    var p :| IsPath(adj, p) && p[0] == u && p[|p| - 1] == v;
    var q := seq(|p|, i requires 0 <= i < |p| => p[|p| - 1 - i]);
    forall i, j | 0 <= i < j < |q| && j == i + 1 ensures q[i] in adj && q[j] in adj[q[i]] {
      var k := |p| - 2 - i;
      assert p[k] == q[j] && p[k + 1] == q[i];
    }
    assert IsPath(adj, q);
  }

  lemma ConnectedSymmetric(adj: Adjacency, u: Genome, v: Genome)
    requires Undirected(adj)
    ensures Connected(adj, u, v) <==> Connected(adj, v, u)
  {
    if Connected(adj, u, v) {
      ConnectedSym(adj, u, v);
    }
    if Connected(adj, v, u) {
      ConnectedSym(adj, v, u);
    }
  }

  lemma ConnectedTrans(adj: Adjacency, u: Genome, v: Genome, w: Genome)
    requires Connected(adj, u, v) && Connected(adj, v, w)
    ensures Connected(adj, u, w)
  {
    var p :| IsPath(adj, p) && p[0] == u && p[|p| - 1] == v;
    var q :| IsPath(adj, q) && q[0] == v && q[|q| - 1] == w;
    var r := p + q[1..];
    forall i, j | 0 <= i < j < |r| && j == i + 1 ensures r[i] in adj && r[j] in adj[r[i]] {
      if i < |p| - 1 {
        assert r[i] == p[i] && r[j] == p[i + 1];
      } else {
        var k := i - (|p| - 1);
        assert r[i] == q[k] && r[j] == q[k + 1];
      }
    }
    assert IsPath(adj, r);
  }

  /** A node set closed under taking neighbours contains every node connected to one of its members. */
  lemma {:induction false} ClosedSetSpreads(adj: Adjacency, nodes: set<Genome>, p: seq<Genome>)
    requires forall x, y :: x in nodes && x in adj && y in adj[x] ==> y in nodes
    requires IsPath(adj, p) && p[0] in nodes
    ensures p[|p| - 1] in nodes
    decreases |p|
  {
    if |p| > 1 {
      var init := p[..|p| - 1];
      assert IsPath(adj, init);
      ClosedSetSpreads(adj, nodes, init);
      assert p[|p| - 2] in adj && p[|p| - 1] in adj[p[|p| - 2]];
    }
  }

  // ---------------------------------------------------------------------
  // cluster_graph

  /**
   * The component of `s`, found by breadth-first search as networkx does: `seen` holds the nodes
   * reached so far and `frontier` those whose neighbours have not yet been looked at.
   */
  method PlainBfs(adj: Adjacency, s: Genome) returns (seen: set<Genome>)
    requires Undirected(adj) && s in adj
    ensures forall x :: x in seen <==> Connected(adj, s, x)
    ensures seen <= adj.Keys
  {
    seen := {s};
    var frontier := {s};
    ConnectedRefl(adj, s);
    while frontier != {}
      invariant frontier <= seen <= adj.Keys && s in seen
      invariant forall x :: x in seen ==> Connected(adj, s, x)
      invariant forall x, y :: x in seen - frontier && y in adj[x] ==> y in seen
      decreases adj.Keys - seen, frontier
    {
      var v :| v in frontier;
      var reached := adj[v] - seen;
      forall y | y in reached ensures Connected(adj, s, y) {
        ConnectedStep(adj, s, v, y);
      }
      seen := seen + reached;
      frontier := frontier - {v} + reached;
    }
    forall x | Connected(adj, s, x) ensures x in seen {
      var p :| IsPath(adj, p) && p[0] == s && p[|p| - 1] == x;
      ClosedSetSpreads(adj, seen, p);
    }
  }

  /** Rows carry the same label exactly when their genomes are connected. */
  ghost predicate Partitioned(adj: Adjacency, rows: seq<ClusterRow>) {
    forall i, j {:trigger Connected(adj, rows[i].genome, rows[j].genome)} :: 0 <= i < |rows| && 0 <= j < |rows| ==>
      (rows[i].cluster == rows[j].cluster <==> Connected(adj, rows[i].genome, rows[j].genome))
  }

  /** No genome has two rows. */
  ghost predicate DistinctGenomes(rows: seq<ClusterRow>) {
    forall i, j :: 0 <= i < j < |rows| ==> rows[i].genome != rows[j].genome
  }

  /** The genomes of the rows are the nodes of `nodes`. */
  ghost predicate Covers(rows: seq<ClusterRow>, nodes: set<Genome>) {
    && (forall i :: 0 <= i < |rows| ==> rows[i].genome in nodes)
    && (forall x :: x in nodes ==> exists i :: 0 <= i < |rows| && rows[i].genome == x)
  }

  /** Every node connected to a node of `nodes` is in `nodes`: a union of whole components. */
  ghost predicate Closed(adj: Adjacency, nodes: set<Genome>) {
    forall x, y :: x in nodes && Connected(adj, x, y) ==> y in nodes
  }

  /** Labels start at 0, never decrease, and go up by at most one from a row to the next. */
  ghost predicate LabelSteps(rows: seq<ClusterRow>) {
    && (|rows| > 0 ==> rows[0].cluster == 0)
    && (forall i, j :: 0 <= i < j < |rows| ==> rows[i].cluster <= rows[j].cluster)
    && (forall i, j :: 0 <= i < j < |rows| && j == i + 1 ==> rows[j].cluster <= rows[i].cluster + 1)
  }

  /** The rows for a new component, appended after those of the components already seen. */
  ghost predicate AppendedComponent(rows0: seq<ClusterRow>, rows: seq<ClusterRow>, comp: set<Genome>, c: nat) {
    && |rows| >= |rows0| && rows[..|rows0|] == rows0
    && (forall k :: |rows0| <= k < |rows| ==> rows[k].cluster == c && rows[k].genome in comp)
    && (forall k, l :: |rows0| <= k < l < |rows| ==> rows[k].genome != rows[l].genome)
    && (forall x :: x in comp ==> exists k :: |rows0| <= k < |rows| && rows[k].genome == x)
  }

  /** Appends a row labelled c for each node of the component, in no particular order. */
  method AppendComponent(rows0: seq<ClusterRow>, comp: set<Genome>, c: nat) returns (rows: seq<ClusterRow>)
    ensures AppendedComponent(rows0, rows, comp, c)
  {
    rows := rows0;
    var members := comp;
    while members != {}
      invariant members <= comp
      invariant |rows| >= |rows0| && rows[..|rows0|] == rows0
      invariant forall k :: |rows0| <= k < |rows| ==> rows[k].cluster == c && rows[k].genome in comp - members
      invariant forall k, l :: |rows0| <= k < l < |rows| ==> rows[k].genome != rows[l].genome
      invariant forall x :: x in comp - members ==> exists k :: |rows0| <= k < |rows| && rows[k].genome == x
      decreases members
    {
      var x :| x in members;
      ghost var before, left := rows, members;
      rows := rows + [ClusterRow(c, x)];
      forall y | y in comp - (members - {x}) ensures exists k :: |rows0| <= k < |rows| && rows[k].genome == y {
        if y == x {
          assert rows[|before|].genome == y;
        } else {
          assert y in comp - left;
          var k :| |rows0| <= k < |before| && before[k].genome == y;
          assert rows[k].genome == y;
        }
      }
      members := members - {x};
    }
    assert comp - members == comp;
  }

  /** A component not yet seen shares no node with the components seen so far. */
  lemma ComponentIsNew(adj: Adjacency, seen: set<Genome>, comp: set<Genome>, v: Genome)
    requires Undirected(adj) && Closed(adj, seen) && v !in seen
    requires forall x :: x in comp <==> Connected(adj, v, x)
    ensures forall x :: x in comp ==> x !in seen
  {
    forall x | x in comp ensures x in seen ==> v in seen {
      ConnectedSymmetric(adj, v, x);
    }
  }

  /** Adding a new component keeps rows labelled by component. */
  lemma PartitionedAdd(adj: Adjacency, rows0: seq<ClusterRow>, rows: seq<ClusterRow>, seen: set<Genome>,
                       comp: set<Genome>, c: nat, v: Genome)
    requires Undirected(adj) && Closed(adj, seen) && v !in seen
    requires forall x :: x in comp <==> Connected(adj, v, x)
    requires Partitioned(adj, rows0) && Covers(rows0, seen)
    requires forall k :: 0 <= k < |rows0| ==> rows0[k].cluster < c
    requires AppendedComponent(rows0, rows, comp, c)
    ensures Partitioned(adj, rows)
  {
    ComponentIsNew(adj, seen, comp, v);
    forall i, j | 0 <= i < |rows| && 0 <= j < |rows|
      ensures rows[i].cluster == rows[j].cluster <==> Connected(adj, rows[i].genome, rows[j].genome)
    {
      var gi, gj := rows[i].genome, rows[j].genome;
      if i < |rows0| && j < |rows0| {
        assert rows[i] == rows0[i] && rows[j] == rows0[j];
      } else if i >= |rows0| && j >= |rows0| {
        ConnectedSym(adj, v, gi);
        ConnectedTrans(adj, gi, v, gj);
      } else if i < |rows0| {
        assert rows[i] == rows0[i] && gi in seen && gj in comp;
      } else {
        assert rows[j] == rows0[j] && gj in seen && gi in comp;
        ConnectedSymmetric(adj, gi, gj);
      }
    }
  }

  /** Adding a new component keeps the seen nodes a union of whole components, covered once each by the rows. */
  lemma CoversAdd(adj: Adjacency, rows0: seq<ClusterRow>, rows: seq<ClusterRow>, seen: set<Genome>,
                  comp: set<Genome>, c: nat, v: Genome)
    requires Undirected(adj) && Closed(adj, seen) && v !in seen
    requires forall x :: x in comp <==> Connected(adj, v, x)
    requires Covers(rows0, seen) && DistinctGenomes(rows0)
    requires AppendedComponent(rows0, rows, comp, c)
    ensures Covers(rows, seen + comp) && DistinctGenomes(rows) && Closed(adj, seen + comp)
  {
    ComponentIsNew(adj, seen, comp, v);
    forall x | x in seen + comp ensures exists i :: 0 <= i < |rows| && rows[i].genome == x {
      if x in seen {
        var i :| 0 <= i < |rows0| && rows0[i].genome == x;
        assert rows[i] == rows0[i];
      }
    }
    forall i, j | 0 <= i < j < |rows| ensures rows[i].genome != rows[j].genome {
      if j < |rows0| {
        assert rows[i] == rows0[i] && rows[j] == rows0[j];
      } else if i < |rows0| {
        assert rows[i] == rows0[i];
      }
    }
    forall i | 0 <= i < |rows| ensures rows[i].genome in seen + comp {
      if i < |rows0| {
        assert rows[i] == rows0[i];
      }
    }
    forall x, y | x in seen + comp && Connected(adj, x, y) ensures y in seen + comp {
      if x in comp {
        ConnectedTrans(adj, v, x, y);
      }
    }
  }

  /** The labels of a new component, one more than the last, keep the labels in steps. */
  lemma LabelStepsAdd(rows0: seq<ClusterRow>, rows: seq<ClusterRow>, comp: set<Genome>, c: nat)
    requires LabelSteps(rows0) && (c == 0 <==> rows0 == [])
    requires forall k :: 0 <= k < |rows0| ==> rows0[k].cluster < c
    requires |rows0| > 0 ==> rows0[|rows0| - 1].cluster == c - 1
    requires AppendedComponent(rows0, rows, comp, c) && comp != {}
    ensures LabelSteps(rows) && |rows| > |rows0| && rows[|rows| - 1].cluster == c
    ensures forall k :: 0 <= k < |rows| ==> rows[k].cluster <= c
  {
    var x :| x in comp;
    var k :| |rows0| <= k < |rows| && rows[k].genome == x;
    var n := |rows0|;
    assert forall i :: 0 <= i < n ==> rows[i] == rows0[i];
    if n == 0 {
      assert rows[0].cluster == c;
    }
    forall i, j | 0 <= i < j < |rows| ensures rows[i].cluster <= rows[j].cluster {
      if j < n {
        assert rows[i] == rows0[i] && rows[j] == rows0[j];
      } else if i < n {
        assert rows[i] == rows0[i] && rows[j].cluster == c;
      }
    }
    forall i, j | 0 <= i < j < |rows| && j == i + 1 ensures rows[j].cluster <= rows[i].cluster + 1 {
      if j < n {
        assert rows[i] == rows0[i] && rows[j] == rows0[j];
      } else if j == n {
        assert rows[i] == rows0[n - 1] && rows[j].cluster == c;
      }
    }
    forall i | 0 <= i < |rows| ensures rows[i].cluster <= c {
      if i < n {
        assert rows[i] == rows0[i];
      }
    }
  }

  /** The rows so far label the seen nodes, whole components of them, with labels 0 .. c - 1 in steps. */
  ghost predicate Labelled(adj: Adjacency, rows: seq<ClusterRow>, seen: set<Genome>, c: nat) {
    && seen <= adj.Keys
    && Covers(rows, seen) && DistinctGenomes(rows)
    && Partitioned(adj, rows) && Closed(adj, seen)
    && LabelSteps(rows) && (c == 0 <==> rows == [])
    && (forall k :: 0 <= k < |rows| ==> rows[k].cluster < c)
    && (|rows| > 0 ==> rows[|rows| - 1].cluster == c - 1)
  }

  /** One turn of cluster_graph's outer loop: when `v` is not yet seen, its component gets label c. */
  method NextComponent(adj: Adjacency, rows0: seq<ClusterRow>, seen0: set<Genome>, c0: nat, v: Genome)
    returns (rows: seq<ClusterRow>, seen: set<Genome>, c: nat)
    requires Undirected(adj) && v in adj
    requires Labelled(adj, rows0, seen0, c0)
    ensures Labelled(adj, rows, seen, c)
    ensures seen0 <= seen && v in seen
  {
    if v in seen0 {
      return rows0, seen0, c0;
    }
    var comp := PlainBfs(adj, v);
    ConnectedRefl(adj, v);
    rows := AppendComponent(rows0, comp, c0);
    PartitionedAdd(adj, rows0, rows, seen0, comp, c0, v);
    CoversAdd(adj, rows0, rows, seen0, comp, c0, v);
    LabelStepsAdd(rows0, rows, comp, c0);
    seen, c := seen0 + comp, c0 + 1;
  }

  /**
   * cluster_graph: one row per node, labelled with the number of its connected component; the components
   * are numbered 0, 1, 2, ... in the order the search meets them, and their rows follow one another.
   */
  method ClusterGraph(g: Graph) returns (rows: seq<ClusterRow>)
    requires g.Valid()
    ensures forall v :: v in g.adj <==> exists i :: 0 <= i < |rows| && rows[i].genome == v
    ensures forall i, j :: 0 <= i < j < |rows| ==> rows[i].genome != rows[j].genome
    ensures LabelSteps(rows)
    ensures Partitioned(g.adj, rows)
  {
    rows := ClusterComponents(g.nodes, g.adj);
  }

  /** The components of the graph with adjacency `adj`, searched from its nodes in the order of `nodes`. */
  method ClusterComponents(nodes: seq<Genome>, adj: Adjacency) returns (rows: seq<ClusterRow>)
    requires Undirected(adj) && forall v :: v in adj <==> v in nodes
    ensures forall v :: v in adj <==> exists i :: 0 <= i < |rows| && rows[i].genome == v
    ensures forall i, j :: 0 <= i < j < |rows| ==> rows[i].genome != rows[j].genome
    ensures LabelSteps(rows)
    ensures Partitioned(adj, rows)
  {
    var seen: set<Genome> := {};
    var cluster: nat := 0;
    rows := [];
    var i := 0;
    while i < |nodes|
      invariant 0 <= i <= |nodes|
      invariant SeenPrefix(nodes, i, seen)
      invariant Labelled(adj, rows, seen, cluster)
    {
      ghost var before := seen;
      rows, seen, cluster := NextComponent(adj, rows, seen, cluster, nodes[i]);
      SeenPrefixStep(nodes, i, before, seen);
      i := i + 1;
    }
    assert seen == adj.Keys by {
      forall v | v in adj ensures v in seen {
        var k :| 0 <= k < |nodes| && nodes[k] == v;
      }
    }
    LabelledAll(adj, rows, seen, cluster);
  }

  /** The first i nodes are all seen. */
  ghost predicate SeenPrefix(nodes: seq<Genome>, i: nat, seen: set<Genome>) {
    forall k :: 0 <= k < i && k < |nodes| ==> nodes[k] in seen
  }

  lemma SeenPrefixStep(nodes: seq<Genome>, i: nat, before: set<Genome>, seen: set<Genome>)
    requires i < |nodes| && SeenPrefix(nodes, i, before) && before <= seen && nodes[i] in seen
    ensures SeenPrefix(nodes, i + 1, seen)
  {
  }

  /** Once every node is seen, the rows are exactly the nodes, labelled by component. */
  lemma LabelledAll(adj: Adjacency, rows: seq<ClusterRow>, seen: set<Genome>, c: nat)
    requires Labelled(adj, rows, seen, c) && seen == adj.Keys
    ensures forall v :: v in adj <==> exists i :: 0 <= i < |rows| && rows[i].genome == v
    ensures forall i, j :: 0 <= i < j < |rows| ==> rows[i].genome != rows[j].genome
    ensures LabelSteps(rows)
    ensures Partitioned(adj, rows)
  {
  }

  /** Every label up to the last row's is used by some row: with LabelSteps, the labels are exactly 0 .. k - 1. */
  lemma {:induction false} LabelsAreRange(rows: seq<ClusterRow>, c: int)
    requires LabelSteps(rows) && |rows| > 0 && 0 <= c <= rows[|rows| - 1].cluster
    ensures exists i :: 0 <= i < |rows| && rows[i].cluster == c
    decreases |rows|
  {
    var n := |rows|;
    if c == rows[n - 1].cluster {
      assert rows[n - 1].cluster == c;
    } else {
      var init := rows[..n - 1];
      assert n > 1 by {
        if n == 1 { assert rows[0].cluster == 0; }
      }
      assert rows[n - 2].cluster <= rows[n - 1].cluster <= rows[n - 2].cluster + 1;
      assert init[|init| - 1] == rows[n - 2];
      LabelsAreRange(init, c);
      var i :| 0 <= i < |init| && init[i].cluster == c;
      assert rows[i].cluster == c;
    }
  }

  // ---------------------------------------------------------------------
  // make_graph, make_graph_anin, cluster_database

  /** The nodes make_graph adds first: the distinct genome1 values, in order of appearance. */
  function MashSeeds(rows: seq<MashRow>): seq<Genome> {
    Unique(Column(rows, (r: MashRow) => r.genome1))
  }

  /** The edges make_graph adds: (genome1, genome2) of each row whose similarity is above the threshold. */
  function MashEdges(rows: seq<MashRow>, threshold: real): seq<(Genome, Genome)>
    decreases |rows|
  {
    if rows == [] then []
    else
      var r := rows[|rows| - 1];
      MashEdges(rows[..|rows| - 1], threshold) + (if r.similarity > threshold then [(r.genome1, r.genome2)] else [])
  }

  /** Row `r` is above make_graph's threshold and gives the edge `e`. */
  predicate MashEdgeOf(r: MashRow, threshold: real, e: (Genome, Genome)) {
    r.similarity > threshold && e == (r.genome1, r.genome2)
  }

  /** An edge of make_graph comes from a row whose similarity is strictly above the threshold, and every such row gives one. */
  lemma {:induction false} MashEdgesSpec(rows: seq<MashRow>, threshold: real, e: (Genome, Genome))
    ensures e in MashEdges(rows, threshold) <==> exists i :: 0 <= i < |rows| && MashEdgeOf(rows[i], threshold, e)
    decreases |rows|
  {
    if rows != [] {
      var n := |rows| - 1;
      var init, last := rows[..n], rows[n];
      MashEdgesSpec(init, threshold, e);
      var tail := if last.similarity > threshold then [(last.genome1, last.genome2)] else [];
      assert MashEdges(rows, threshold) == MashEdges(init, threshold) + tail;
      if e in MashEdges(init, threshold) {
        var i :| 0 <= i < |init| && MashEdgeOf(init[i], threshold, e);
        assert rows[i] == init[i];
      } else if e in tail {
        assert MashEdgeOf(rows[n], threshold, e);
      }
      if exists i :: 0 <= i < |rows| && MashEdgeOf(rows[i], threshold, e) {
        var i :| 0 <= i < |rows| && MashEdgeOf(rows[i], threshold, e);
        if i < n {
          assert init[i] == rows[i];
        } else {
          assert e in tail;
        }
      }
    }
  }

  /** The threshold graph of a MASH table. */
  function MashGraph(rows: seq<MashRow>, threshold: real): Adjacency {
    EdgeGraph(MashSeeds(rows), MashEdges(rows, threshold))
  }

  lemma EdgeGraphSnoc(seeds: seq<Genome>, edges: seq<(Genome, Genome)>, u: Genome, v: Genome)
    ensures EdgeGraph(seeds, edges + [(u, v)]) == Link(EdgeGraph(seeds, edges), u, v)
  {
    assert (edges + [(u, v)])[..|edges|] == edges;
  }

  lemma MashEdgesSnoc(rows: seq<MashRow>, k: nat, threshold: real)
    requires k < |rows|
    ensures MashEdges(rows[..k + 1], threshold) ==
            MashEdges(rows[..k], threshold) + (if rows[k].similarity > threshold then [(rows[k].genome1, rows[k].genome2)] else [])
  {
    assert rows[..k + 1][..k] == rows[..k];
  }

  lemma AninEdgesSnoc(rows: seq<AlignmentRow>, k: nat, covThresh: real, aninThresh: real)
    requires k < |rows|
    ensures AninEdges(rows[..k + 1], covThresh, aninThresh) ==
            AninEdges(rows[..k], covThresh, aninThresh)
              + (if rows[k].refCoverage > covThresh && rows[k].ani > aninThresh then [(rows[k].reference, rows[k].querry)] else [])
  {
    assert rows[..k + 1][..k] == rows[..k];
  }

  /** The nodes added one by one, each new: a graph without edges. */
  method AddSeeds(g: Graph, seeds: seq<Genome>)
    requires g.Valid() && g.nodes == [] && g.adj == map[] && Distinct(seeds)
    modifies g
    ensures g.Valid() && g.nodes == seeds && g.adj == EdgeGraph(seeds, [])
  {
    var k := 0;
    while k < |seeds|
      invariant 0 <= k <= |seeds| && g.Valid()
      invariant g.nodes == seeds[..k] && g.adj == EdgeGraph(seeds[..k], [])
    {
      g.AddNode(seeds[k]);
      assert seeds[..k + 1] == seeds[..k] + [seeds[k]];
      k := k + 1;
    }
    assert seeds[..k] == seeds;
  }

  /** One step of make_graph's edge loop: the edge of row `k` when its similarity is above the threshold. */
  method AddMashRow(g: Graph, seeds: seq<Genome>, rows: seq<MashRow>, k: nat, threshold: real)
    requires k < |rows| && g.Valid()
    requires g.adj == EdgeGraph(seeds, MashEdges(rows[..k], threshold))
    requires seeds <= g.nodes
    modifies g
    ensures g.Valid() && g.adj == EdgeGraph(seeds, MashEdges(rows[..k + 1], threshold))
    ensures seeds <= g.nodes
  {
    var row := rows[k];
    MashEdgesSnoc(rows, k, threshold);
    if row.similarity > threshold {
      EdgeGraphSnoc(seeds, MashEdges(rows[..k], threshold), row.genome1, row.genome2);
      g.AddEdge(row.genome1, row.genome2);
    } else {
      assert MashEdges(rows[..k + 1], threshold) == MashEdges(rows[..k], threshold);
    }
  }

  /** The edge loop of make_graph, over all rows. */
  method AddMashEdges(g: Graph, seeds: seq<Genome>, rows: seq<MashRow>, threshold: real)
    requires g.Valid() && g.adj == EdgeGraph(seeds, []) && g.nodes == seeds
    modifies g
    ensures g.Valid() && g.adj == EdgeGraph(seeds, MashEdges(rows, threshold))
    ensures seeds <= g.nodes
  {
    assert rows[..0] == [] && MashEdges([], threshold) == [];
    var k := 0;
    while k < |rows|
      invariant 0 <= k <= |rows| && g.Valid()
      invariant g.adj == EdgeGraph(seeds, MashEdges(rows[..k], threshold))
      invariant seeds <= g.nodes
    {
      AddMashRow(g, seeds, rows, k, threshold);
      k := k + 1;
    }
    assert rows[..k] == rows;
  }

  /** make_graph: a node per distinct genome1, then an edge for each row whose similarity is above the threshold. */
  method MakeGraph(rows: seq<MashRow>, threshold: real) returns (g: Graph)
    ensures fresh(g) && g.Valid()
    ensures g.adj == MashGraph(rows, threshold)
    ensures |g.nodes| >= |MashSeeds(rows)| && g.nodes[..|MashSeeds(rows)|] == MashSeeds(rows)
  {
    g := new Graph();
    var seeds := MashSeeds(rows);
    AddSeeds(g, seeds);
    AddMashEdges(g, seeds, rows, threshold);
  }

  /** The nodes make_graph_anin adds first: the distinct reference values, in order of appearance. */
  function AninSeeds(rows: seq<AlignmentRow>): seq<Genome> {
    Unique(Column(rows, Reference))
  }

  /** The edges make_graph_anin adds: (reference, querry) of each row whose reference coverage and ani are both above their thresholds. */
  function AninEdges(rows: seq<AlignmentRow>, covThresh: real, aninThresh: real): seq<(Genome, Genome)>
    decreases |rows|
  {
    if rows == [] then []
    else
      var r := rows[|rows| - 1];
      AninEdges(rows[..|rows| - 1], covThresh, aninThresh)
        + (if r.refCoverage > covThresh && r.ani > aninThresh then [(r.reference, r.querry)] else [])
  }

  /** Row `r` passes both thresholds of make_graph_anin and gives the edge `e`. */
  predicate AninEdgeOf(r: AlignmentRow, covThresh: real, aninThresh: real, e: (Genome, Genome)) {
    r.refCoverage > covThresh && r.ani > aninThresh && e == (r.reference, r.querry)
  }

  /** An edge of make_graph_anin comes from a row above both thresholds, and every such row gives one. */
  lemma {:induction false} AninEdgesSpec(rows: seq<AlignmentRow>, covThresh: real, aninThresh: real, e: (Genome, Genome))
    ensures e in AninEdges(rows, covThresh, aninThresh) <==>
            exists i :: 0 <= i < |rows| && AninEdgeOf(rows[i], covThresh, aninThresh, e)
    decreases |rows|
  {
    if rows != [] {
      var n := |rows| - 1;
      var init, last := rows[..n], rows[n];
      AninEdgesSpec(init, covThresh, aninThresh, e);
      var tail := if last.refCoverage > covThresh && last.ani > aninThresh then [(last.reference, last.querry)] else [];
      assert AninEdges(rows, covThresh, aninThresh) == AninEdges(init, covThresh, aninThresh) + tail;
      if e in AninEdges(init, covThresh, aninThresh) {
        var i :| 0 <= i < |init| && AninEdgeOf(init[i], covThresh, aninThresh, e);
        assert rows[i] == init[i];
      } else if e in tail {
        assert AninEdgeOf(rows[n], covThresh, aninThresh, e);
      }
      if exists i :: 0 <= i < |rows| && AninEdgeOf(rows[i], covThresh, aninThresh, e) {
        var i :| 0 <= i < |rows| && AninEdgeOf(rows[i], covThresh, aninThresh, e);
        if i < n {
          assert init[i] == rows[i];
        } else {
          assert e in tail;
        }
      }
    }
  }

  /** The ANIn threshold graph of an alignment table. */
  function AninGraph(rows: seq<AlignmentRow>, covThresh: real, aninThresh: real): Adjacency {
    EdgeGraph(AninSeeds(rows), AninEdges(rows, covThresh, aninThresh))
  }

  /** One step of make_graph_anin's edge loop: the edge of row `k` when it passes both thresholds. */
  method AddAninRow(g: Graph, seeds: seq<Genome>, rows: seq<AlignmentRow>, k: nat, covThresh: real, aninThresh: real)
    requires k < |rows| && g.Valid()
    requires g.adj == EdgeGraph(seeds, AninEdges(rows[..k], covThresh, aninThresh))
    requires seeds <= g.nodes
    modifies g
    ensures g.Valid() && g.adj == EdgeGraph(seeds, AninEdges(rows[..k + 1], covThresh, aninThresh))
    ensures seeds <= g.nodes
  {
    var row := rows[k];
    AninEdgesSnoc(rows, k, covThresh, aninThresh);
    if row.refCoverage > covThresh && row.ani > aninThresh {
      EdgeGraphSnoc(seeds, AninEdges(rows[..k], covThresh, aninThresh), row.reference, row.querry);
      g.AddEdge(row.reference, row.querry);
    } else {
      assert AninEdges(rows[..k + 1], covThresh, aninThresh) == AninEdges(rows[..k], covThresh, aninThresh);
    }
  }

  /** The edge loop of make_graph_anin, over all rows. */
  method AddAninEdges(g: Graph, seeds: seq<Genome>, rows: seq<AlignmentRow>, covThresh: real, aninThresh: real)
    requires g.Valid() && g.adj == EdgeGraph(seeds, []) && g.nodes == seeds
    modifies g
    ensures g.Valid() && g.adj == EdgeGraph(seeds, AninEdges(rows, covThresh, aninThresh))
    ensures seeds <= g.nodes
  {
    assert rows[..0] == [] && AninEdges([], covThresh, aninThresh) == [];
    var k := 0;
    while k < |rows|
      invariant 0 <= k <= |rows| && g.Valid()
      invariant g.adj == EdgeGraph(seeds, AninEdges(rows[..k], covThresh, aninThresh))
      invariant seeds <= g.nodes
    {
      AddAninRow(g, seeds, rows, k, covThresh, aninThresh);
      k := k + 1;
    }
    assert rows[..k] == rows;
  }

  /** make_graph_anin: a node per distinct reference, then an edge for each row above both thresholds. */
  method MakeGraphAnin(rows: seq<AlignmentRow>, covThresh: real, aninThresh: real) returns (g: Graph)
    ensures fresh(g) && g.Valid()
    ensures g.adj == AninGraph(rows, covThresh, aninThresh)
    ensures |g.nodes| >= |AninSeeds(rows)| && g.nodes[..|AninSeeds(rows)|] == AninSeeds(rows)
  {
    g := new Graph();
    var seeds := AninSeeds(rows);
    AddSeeds(g, seeds);
    AddAninEdges(g, seeds, rows, covThresh, aninThresh);
  }

  /** The nodes of make_graph's graph are the genome1 values and the genome2 values of rows above the threshold. */
  lemma MashGraphNodes(rows: seq<MashRow>, threshold: real, x: Genome)
    ensures x in MashGraph(rows, threshold) <==>
            (exists i :: 0 <= i < |rows| && rows[i].genome1 == x)
            || (exists i :: 0 <= i < |rows| && rows[i].similarity > threshold && rows[i].genome2 == x)
  {
    var seeds, edges := MashSeeds(rows), MashEdges(rows, threshold);
    var col := Column(rows, (r: MashRow) => r.genome1);
    EdgeGraphNode(seeds, edges, x);
    if x in seeds {
      var k :| 0 <= k < |seeds| && seeds[k] == x;
      assert seeds[k] in col;
    }
    if exists i :: 0 <= i < |rows| && rows[i].genome1 == x {
      var i :| 0 <= i < |rows| && rows[i].genome1 == x;
      assert col[i] == x;
    }
    if IsEnd(edges, x) {
      var j :| 0 <= j < |edges| && (edges[j].0 == x || edges[j].1 == x);
      MashEdgesSpec(rows, threshold, edges[j]);
    }
    if exists i :: 0 <= i < |rows| && rows[i].similarity > threshold && rows[i].genome2 == x {
      var i :| 0 <= i < |rows| && rows[i].similarity > threshold && rows[i].genome2 == x;
      MashEdgesSpec(rows, threshold, (rows[i].genome1, rows[i].genome2));
      var j :| 0 <= j < |edges| && edges[j] == (rows[i].genome1, rows[i].genome2);
    }
  }

  /** Two nodes of make_graph's graph are neighbours exactly when a row above the threshold names them, either way round. */
  lemma MashGraphEdges(rows: seq<MashRow>, threshold: real, x: Genome, y: Genome)
    requires x in MashGraph(rows, threshold)
    ensures y in MashGraph(rows, threshold)[x] <==>
            exists i :: 0 <= i < |rows| && rows[i].similarity > threshold
                        && ((rows[i].genome1 == x && rows[i].genome2 == y) || (rows[i].genome1 == y && rows[i].genome2 == x))
  {
    var seeds, edges := MashSeeds(rows), MashEdges(rows, threshold);
    EdgeGraphEdge(seeds, edges, x, y);
    MashEdgesSpec(rows, threshold, (x, y));
    MashEdgesSpec(rows, threshold, (y, x));
  }

  /** The nodes of make_graph_anin's graph are the reference values and the querry values of rows above both thresholds. */
  lemma AninGraphNodes(rows: seq<AlignmentRow>, covThresh: real, aninThresh: real, x: Genome)
    ensures x in AninGraph(rows, covThresh, aninThresh) <==>
            (exists i :: 0 <= i < |rows| && rows[i].reference == x)
            || (exists i :: 0 <= i < |rows| && rows[i].refCoverage > covThresh && rows[i].ani > aninThresh && rows[i].querry == x)
  {
    var seeds, edges := AninSeeds(rows), AninEdges(rows, covThresh, aninThresh);
    var col := Column(rows, Reference);
    EdgeGraphNode(seeds, edges, x);
    if x in seeds {
      var k :| 0 <= k < |seeds| && seeds[k] == x;
      assert seeds[k] in col;
    }
    if exists i :: 0 <= i < |rows| && rows[i].reference == x {
      var i :| 0 <= i < |rows| && rows[i].reference == x;
      assert col[i] == x;
    }
    if IsEnd(edges, x) {
      var j :| 0 <= j < |edges| && (edges[j].0 == x || edges[j].1 == x);
      AninEdgesSpec(rows, covThresh, aninThresh, edges[j]);
    }
    if exists i :: 0 <= i < |rows| && rows[i].refCoverage > covThresh && rows[i].ani > aninThresh && rows[i].querry == x {
      var i :| 0 <= i < |rows| && rows[i].refCoverage > covThresh && rows[i].ani > aninThresh && rows[i].querry == x;
      AninEdgesSpec(rows, covThresh, aninThresh, (rows[i].reference, rows[i].querry));
      var j :| 0 <= j < |edges| && edges[j] == (rows[i].reference, rows[i].querry);
    }
  }

  /** Two nodes of make_graph_anin's graph are neighbours exactly when a row above both thresholds names them, either way round. */
  lemma AninGraphEdges(rows: seq<AlignmentRow>, covThresh: real, aninThresh: real, x: Genome, y: Genome)
    requires x in AninGraph(rows, covThresh, aninThresh)
    ensures y in AninGraph(rows, covThresh, aninThresh)[x] <==>
            exists i :: 0 <= i < |rows| && rows[i].refCoverage > covThresh && rows[i].ani > aninThresh
                        && ((rows[i].reference == x && rows[i].querry == y) || (rows[i].reference == y && rows[i].querry == x))
  {
    var seeds, edges := AninSeeds(rows), AninEdges(rows, covThresh, aninThresh);
    EdgeGraphEdge(seeds, edges, x, y);
    AninEdgesSpec(rows, covThresh, aninThresh, (x, y));
    AninEdgesSpec(rows, covThresh, aninThresh, (y, x));
  }

  /**
   * cluster_database (the 'simple' MASH clustering): the rows label every node of the threshold graph
   * once, by connected component, with labels 0, 1, 2, ... in steps.
   */
  method ClusterDatabase(rows: seq<MashRow>, threshold: real) returns (cdb: seq<ClusterRow>)
    ensures forall v :: v in MashGraph(rows, threshold) <==> exists i :: 0 <= i < |cdb| && cdb[i].genome == v
    ensures forall i, j :: 0 <= i < j < |cdb| ==> cdb[i].genome != cdb[j].genome
    ensures LabelSteps(cdb)
    ensures Partitioned(MashGraph(rows, threshold), cdb)
  {
    var g := MakeGraph(rows, threshold);
    cdb := ClusterGraph(g);
  }
}
