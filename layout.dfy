/** The viewer's tree layout: a breadth-first search over the undirected view
    of the graph puts each node reachable from the root on the row of its
    distance from the root; every unreached node gets a row of its own below. */
module TreeLayout {
  import opened Seqs
  import opened Graph
  import opened StableSort

  /** Edge e joins u and v, in either direction. */
  predicate Joins(e: Edge, u: NodeId, v: NodeId) {
    (e.src == u && e.dst == v) || (e.src == v && e.dst == u)
  }

  /** u and v are neighbours in `G.to_undirected()`. */
  ghost predicate Adjacent(g: DiGraph, u: NodeId, v: NodeId) {
    exists e :: e in g.edges && Joins(e, u, v)
  }

  /** The far end of every edge of es that touches n, in edge order. */
  function OtherEnds(es: seq<Edge>, n: NodeId): (r: seq<NodeId>)
    ensures forall m :: m in r ==> exists e :: e in es && Joins(e, n, m)
    ensures forall e, m :: e in es && Joins(e, n, m) ==> m in r
  {
    if |es| == 0 then []
    else
      var e := es[|es| - 1];
      var p := OtherEnds(es[..|es| - 1], n);
      var r := p + (if e.src == n then [e.dst] else if e.dst == n then [e.src] else []);
      assert forall m :: m in r ==> exists f :: f in es && Joins(f, n, m) by {
        forall m | m in r ensures exists f :: f in es && Joins(f, n, m) {
          if m in p {
            var f :| f in es[..|es| - 1] && Joins(f, n, m);
            assert f in es;
          } else {
            assert Joins(e, n, m);
          }
        }
      }
      assert forall f :: f in es ==> f in es[..|es| - 1] || f == e;
      r
  }

  /** `UG.neighbors(n)`: each neighbour once, in the order the undirected view
      first meets it while walking `G.edges`. */
  function UNeighbors(g: DiGraph, n: NodeId): (r: seq<NodeId>)
    ensures Distinct(r)
  {
    Dedup(OtherEnds(EdgeList(g), n))
  }

  /** The neighbour list holds exactly the nodes adjacent to n. */
  lemma UNeighborsAdjacent(g: DiGraph, n: NodeId, m: NodeId)
    requires Valid(g)
    ensures m in UNeighbors(g, n) <==> Adjacent(g, n, m)
  {
    if Adjacent(g, n, m) {
      var e :| e in g.edges && Joins(e, n, m);
      assert e in EdgeList(g);
    }
  }

  lemma UNeighborInGraph(g: DiGraph, n: NodeId, m: NodeId)
    requires Valid(g) && m in UNeighbors(g, n)
    ensures m in g.attrs
  {
    UNeighborsAdjacent(g, n, m);
  }

  /** `G.to_undirected()`: the nodes of G in their order, each with its neighbour list. */
  datatype UGraph = UGraph(nodes: seq<NodeId>, adj: map<NodeId, seq<NodeId>>)

  function ToUndirected(g: DiGraph): (u: UGraph)
    ensures u.nodes == g.nodes
    ensures forall n :: n in u.adj <==> n in g.attrs
  {
    UGraph(g.nodes, map n | n in g.attrs :: UNeighbors(g, n))
  }

  /** `UG.neighbors(n)` (no neighbours for a node not in the graph). */
  function Nbrs(u: UGraph, n: NodeId): seq<NodeId> {
    if n in u.adj then u.adj[n] else []
  }

  /** The undirected view joins two nodes exactly when some edge of G does. */
  lemma ToUndirectedAdjacent(g: DiGraph, n: NodeId, m: NodeId)
    requires Valid(g)
    ensures m in Nbrs(ToUndirected(g), n) <==> Adjacent(g, n, m)
    ensures m in Nbrs(ToUndirected(g), n) <==> n in Nbrs(ToUndirected(g), m)
  {
    UNeighborsAdjacent(g, n, m);
    UNeighborsAdjacent(g, m, n);
    if Adjacent(g, n, m) {
      var e :| e in g.edges && Joins(e, n, m);
      assert n in g.attrs && m in g.attrs;
      assert Joins(e, m, n);
    }
    if Adjacent(g, m, n) {
      var e :| e in g.edges && Joins(e, m, n);
      assert n in g.attrs && m in g.attrs;
      assert Joins(e, n, m);
    }
  }

  /** Every neighbour list is repetition-free and names nodes of the view. */
  ghost predicate Closed(u: UGraph) {
    forall n, m :: n in u.adj && m in u.adj[n] ==> m in u.adj
  }

  lemma ToUndirectedClosed(g: DiGraph)
    requires Valid(g)
    ensures Closed(ToUndirected(g))
    ensures forall n :: n in ToUndirected(g).adj ==> Distinct(ToUndirected(g).adj[n])
  {
    var u := ToUndirected(g);
    forall n, m | n in u.adj && m in u.adj[n] ensures m in u.adj {
      UNeighborInGraph(g, n, m);
    }
  }

  /** `UG.degree(n)`: a self-loop counts twice. */
  function UDegree(u: UGraph, n: NodeId): nat {
    |Nbrs(u, n)| + (if n in Nbrs(u, n) then 1 else 0)
  }

  /** The sort key of every row. */
  function ByDegree(u: UGraph): NodeId -> int {
    n => UDegree(u, n)
  }

  // ----- Paths and distance in the undirected view -----

  /** Every node of p after the first is a neighbour of the one before it. */
  ghost predicate IsPath(u: UGraph, p: seq<NodeId>)
    decreases |p|
  {
    |p| >= 1 && (|p| == 1 || (IsPath(u, p[..|p| - 1]) && p[|p| - 1] in Nbrs(u, p[|p| - 2])))
  }

  /** p leads from a to b along `len` edges. */
  ghost predicate PathFrom(u: UGraph, p: seq<NodeId>, a: NodeId, b: NodeId, len: nat) {
    IsPath(u, p) && |p| == len + 1 && p[0] == a && p[len] == b
  }

  /** b can be reached from a along exactly `len` edges. */
  ghost predicate Reach(u: UGraph, a: NodeId, b: NodeId, len: nat) {
    exists p :: PathFrom(u, p, a, b, len)
  }

  ghost predicate Connected(u: UGraph, a: NodeId, b: NodeId) {
    exists len: nat :: Reach(u, a, b, len)
  }

  /** The shortest path from a to b has `len` edges. */
  ghost predicate IsDistance(u: UGraph, a: NodeId, b: NodeId, len: nat) {
    Reach(u, a, b, len) && forall j: nat :: j < len ==> !Reach(u, a, b, j)
  }

  // ----- Breadth-first levels -----

  /** The search's progress: the nodes it has enqueued, in order, and its
      visited set. */
  datatype Frontier = Frontier(found: seq<NodeId>, seen: set<NodeId>)

  /** The scan of a dequeued node's neighbour list s: every neighbour not yet
      visited is marked visited and enqueued. */
  function Scan(s: seq<NodeId>, seen: set<NodeId>): Frontier
    decreases |s|
  {
    if |s| == 0 then Frontier([], seen)
    else
      var p := Scan(s[..|s| - 1], seen);
      var x := s[|s| - 1];
      if x in p.seen then p else Frontier(p.found + [x], p.seen + {x})
  }

  /** The scan visits s and enqueues exactly the nodes of s it had not visited. */
  lemma {:induction false} ScanMembers(s: seq<NodeId>, seen: set<NodeId>, x: NodeId)
    ensures x in Scan(s, seen).seen <==> x in seen || x in s
    ensures x in Scan(s, seen).found <==> x in s && x !in seen
    decreases |s|
  {
    if |s| > 0 {
      var front := s[..|s| - 1];
      ScanMembers(front, seen, x);
      ScanMembers(front, seen, s[|s| - 1]);
      SplitLast(s);
    }
  }

  /** Nothing is enqueued twice by one scan. */
  lemma {:induction false} ScanDistinct(s: seq<NodeId>, seen: set<NodeId>)
    ensures Distinct(Scan(s, seen).found)
    decreases |s|
  {
    if |s| > 0 {
      var front := s[..|s| - 1];
      var x := s[|s| - 1];
      ScanDistinct(front, seen);
      if x !in Scan(front, seen).seen {
        ScanMembers(front, seen, x);
        DistinctConcat(Scan(front, seen).found, [x]);
      }
    }
  }

  /** Dequeuing the nodes of `layer` in order, scanning the neighbours of each. */
  function Expand(u: UGraph, layer: seq<NodeId>, seen: set<NodeId>): Frontier
    decreases |layer|
  {
    if |layer| == 0 then Frontier([], seen)
    else
      var p := Expand(u, layer[..|layer| - 1], seen);
      var q := Scan(Nbrs(u, layer[|layer| - 1]), p.seen);
      Frontier(p.found + q.found, q.seen)
  }

  /** x is a neighbour of some node of `layer`. */
  ghost predicate NbrOf(u: UGraph, layer: seq<NodeId>, x: NodeId) {
    exists j :: 0 <= j < |layer| && x in Nbrs(u, layer[j])
  }

  lemma NbrOfLast(u: UGraph, layer: seq<NodeId>, x: NodeId)
    requires |layer| > 0
    ensures NbrOf(u, layer, x) <==> NbrOf(u, layer[..|layer| - 1], x) || x in Nbrs(u, layer[|layer| - 1])
  {
    var front := layer[..|layer| - 1];
    if NbrOf(u, layer, x) {
      var j :| 0 <= j < |layer| && x in Nbrs(u, layer[j]);
      if j < |front| {
        assert front[j] == layer[j];
      }
    }
    if NbrOf(u, front, x) {
      var j :| 0 <= j < |front| && x in Nbrs(u, front[j]);
      assert layer[j] == front[j];
    }
  }

  /** Expanding a layer visits, and enqueues when they were unvisited, exactly
      the neighbours of its nodes. */
  lemma {:induction false} ExpandMembers(u: UGraph, layer: seq<NodeId>, seen: set<NodeId>, x: NodeId)
    ensures x in Expand(u, layer, seen).seen <==> x in seen || NbrOf(u, layer, x)
    ensures x in Expand(u, layer, seen).found <==> x !in seen && NbrOf(u, layer, x)
    decreases |layer|
  {
    if |layer| > 0 {
      var front := layer[..|layer| - 1];
      ExpandMembers(u, front, seen, x);
      ScanMembers(Nbrs(u, layer[|layer| - 1]), Expand(u, front, seen).seen, x);
      NbrOfLast(u, layer, x);
    }
  }

  /** Nothing is enqueued twice while a layer is expanded. */
  lemma {:induction false} ExpandDistinct(u: UGraph, layer: seq<NodeId>, seen: set<NodeId>)
    ensures Distinct(Expand(u, layer, seen).found)
    decreases |layer|
  {
    if |layer| > 0 {
      var front := layer[..|layer| - 1];
      var p := Expand(u, front, seen);
      var s := Nbrs(u, layer[|layer| - 1]);
      ExpandDistinct(u, front, seen);
      ScanDistinct(s, p.seen);
      forall x | x in Scan(s, p.seen).found
        ensures x !in p.found
      {
        ScanMembers(s, p.seen, x);
        ExpandMembers(u, front, seen, x);
      }
      DistinctConcat(p.found, Scan(s, p.seen).found);
    }
  }

  /** The search once every node of depth d has been enqueued: its found part
      is level d, its visited set holds the nodes of depth d or less. */
  function Search(u: UGraph, root: NodeId, d: nat): Frontier
    decreases d
  {
    if d == 0 then Frontier([root], {root})
    else
      var p := Search(u, root, d - 1);
      Expand(u, p.found, p.seen)
  }

  /** Level(d): the nodes at depth d, in the order they are dequeued. */
  function Level(u: UGraph, root: NodeId, d: nat): seq<NodeId> {
    Search(u, root, d).found
  }

  /** Seen(d): the nodes of depth d or less. */
  function Seen(u: UGraph, root: NodeId, d: nat): set<NodeId> {
    Search(u, root, d).seen
  }

  /** Level d + 1 holds the unvisited neighbours of level d, and they are what
      the visited set gains. */
  lemma LevelStep(u: UGraph, root: NodeId, d: nat, x: NodeId)
    ensures x in Level(u, root, d + 1) <==> x !in Seen(u, root, d) && NbrOf(u, Level(u, root, d), x)
    ensures x in Seen(u, root, d + 1) <==> x in Seen(u, root, d) || x in Level(u, root, d + 1)
  {
    ExpandMembers(u, Level(u, root, d), Seen(u, root, d), x);
  }

  /** No node occurs twice on a level. */
  lemma LevelDistinct(u: UGraph, root: NodeId, d: nat)
    ensures Distinct(Level(u, root, d))
  {
    if d > 0 {
      ExpandDistinct(u, Level(u, root, d - 1), Seen(u, root, d - 1));
    }
  }

  /** Every node of a level is a node of the graph. */
  lemma LevelInGraph(u: UGraph, root: NodeId, d: nat, x: NodeId)
    requires Closed(u) && root in u.adj && x in Level(u, root, d)
    ensures x in u.adj
  {
    if d > 0 {
      var layer := Level(u, root, d - 1);
      LevelStep(u, root, d - 1, x);
      var j :| 0 <= j < |layer| && x in Nbrs(u, layer[j]);
    }
  }

  /** So is every visited node. */
  lemma SeenInGraph(u: UGraph, root: NodeId, d: nat, x: NodeId)
    requires Closed(u) && root in u.adj && x in Seen(u, root, d)
    ensures x in u.adj
  {
    var j := DepthOf(u, root, d, x);
    LevelInGraph(u, root, j, x);
  }

  /** The visited set only grows. */
  lemma {:induction false} SeenMono(u: UGraph, root: NodeId, d1: nat, d2: nat, x: NodeId)
    requires d1 <= d2 && x in Seen(u, root, d1)
    ensures x in Seen(u, root, d2)
    decreases d2
  {
    if d1 < d2 {
      SeenMono(u, root, d1, d2 - 1, x);
      LevelStep(u, root, d2 - 1, x);
    }
  }

  /** The level on which a node visited by depth d was enqueued. */
  ghost function DepthOf(u: UGraph, root: NodeId, d: nat, x: NodeId): (j: nat)
    requires x in Seen(u, root, d)
    ensures j <= d && x in Level(u, root, j)
    decreases d
  {
    if d == 0 then 0
    else
      LevelStep(u, root, d - 1, x);
      if x in Level(u, root, d) then d else DepthOf(u, root, d - 1, x)
  }

  /** Dequeuing level d visits every neighbour of its nodes by depth d + 1. */
  lemma NeighborSeen(u: UGraph, root: NodeId, d: nat, v: NodeId, w: NodeId)
    requires v in Level(u, root, d) && w in Nbrs(u, v)
    ensures w in Seen(u, root, d + 1)
  {
    var layer := Level(u, root, d);
    var j :| 0 <= j < |layer| && layer[j] == v;
    assert NbrOf(u, layer, w);
    LevelStep(u, root, d, w);
  }

  /** A path followed by one more edge is a path. */
  lemma PathExtend(u: UGraph, p: seq<NodeId>, a: NodeId, b: NodeId, len: nat, x: NodeId)
    requires PathFrom(u, p, a, b, len) && x in Nbrs(u, b)
    ensures PathFrom(u, p + [x], a, x, len + 1)
  {
    SplitAppend(p, [x]);
  }

  lemma ReachExtend(u: UGraph, a: NodeId, b: NodeId, len: nat, x: NodeId)
    requires Reach(u, a, b, len) && x in Nbrs(u, b)
    ensures Reach(u, a, x, len + 1)
  {
    var p :| PathFrom(u, p, a, b, len);
    PathExtend(u, p, a, b, len, x);
  }

  /** Every node on level d is reached from the root along d edges. */
  lemma {:induction false} LevelReach(u: UGraph, root: NodeId, d: nat, x: NodeId)
    requires x in Level(u, root, d)
    ensures Reach(u, root, x, d)
    decreases d
  {
    if d == 0 {
      assert PathFrom(u, [root], root, x, 0);
    } else {
      var layer := Level(u, root, d - 1);
      LevelStep(u, root, d - 1, x);
      var j :| 0 <= j < |layer| && x in Nbrs(u, layer[j]);
      LevelReach(u, root, d - 1, layer[j]);
      ReachExtend(u, root, layer[j], d - 1, x);
    }
  }

  /** The node before the last on a path of `len` edges. */
  lemma ReachPrev(u: UGraph, a: NodeId, x: NodeId, len: nat) returns (v: NodeId)
    requires len > 0 && Reach(u, a, x, len)
    ensures Reach(u, a, v, len - 1) && x in Nbrs(u, v)
  {
    var p :| PathFrom(u, p, a, x, len);
    v := p[len - 1];
    assert PathFrom(u, p[..len], a, v, len - 1);
  }

  /** A neighbour of a node visited by depth d is visited by depth d + 1. */
  lemma SeenStep(u: UGraph, root: NodeId, d: nat, v: NodeId, x: NodeId)
    requires v in Seen(u, root, d) && x in Nbrs(u, v)
    ensures x in Seen(u, root, d + 1)
  {
    var j := DepthOf(u, root, d, v);
    NeighborSeen(u, root, j, v, x);
    SeenMono(u, root, j + 1, d + 1, x);
  }

  /** Whatever is reached along `len` edges is visited by depth `len`. */
  lemma {:induction false} ReachSeen(u: UGraph, root: NodeId, x: NodeId, len: nat)
    requires Reach(u, root, x, len)
    ensures x in Seen(u, root, len)
    decreases len
  {
    if len > 0 {
      var v := ReachPrev(u, root, x, len);
      ReachSeen(u, root, v, len - 1);
      SeenStep(u, root, len - 1, v, x);
    } else {
      var p :| PathFrom(u, p, root, x, 0);
    }
  }

  /** No node of level d is reached along fewer than d edges. */
  lemma LevelShortest(u: UGraph, root: NodeId, d: nat, x: NodeId, j: nat)
    requires x in Level(u, root, d) && j < d
    ensures !Reach(u, root, x, j)
  {
    if Reach(u, root, x, j) {
      ReachSeen(u, root, x, j);
      SeenMono(u, root, j, d - 1, x);
      LevelStep(u, root, d - 1, x);
    }
  }

  /** Level d holds exactly the nodes whose distance from the root is d. */
  lemma LevelIsDistance(u: UGraph, root: NodeId, d: nat, x: NodeId)
    ensures x in Level(u, root, d) <==> IsDistance(u, root, x, d)
  {
    if x in Level(u, root, d) {
      LevelReach(u, root, d, x);
      forall j: nat | j < d ensures !Reach(u, root, x, j) {
        LevelShortest(u, root, d, x, j);
      }
    }
    if IsDistance(u, root, x, d) {
      ReachSeen(u, root, x, d);
      var j := DepthOf(u, root, d, x);
      LevelReach(u, root, j, x);
    }
  }

  /** A node of level j is visited by depth j. */
  lemma LevelSeen(u: UGraph, root: NodeId, j: nat, x: NodeId)
    requires x in Level(u, root, j)
    ensures x in Seen(u, root, j)
  {
    if j > 0 {
      LevelStep(u, root, j - 1, x);
    }
  }

  /** A node of level j is visited by every depth from j on. */
  lemma LevelSeenFrom(u: UGraph, root: NodeId, j: nat, d: nat, x: NodeId)
    requires j <= d && x in Level(u, root, j)
    ensures x in Seen(u, root, d)
  {
    LevelSeen(u, root, j, x);
    SeenMono(u, root, j, d, x);
  }

  /** No node lies on two levels. */
  lemma LevelsApart(u: UGraph, root: NodeId, d1: nat, d2: nat, x: NodeId)
    requires x in Level(u, root, d1) && x in Level(u, root, d2)
    ensures d1 == d2
  {
    LevelIsDistance(u, root, d1, x);
    LevelIsDistance(u, root, d2, x);
  }

  // ----- The number of levels -----

  /** Once a level is empty, the search has nothing left to dequeue. */
  lemma {:induction false} EmptyLevelStays(u: UGraph, root: NodeId, d: nat, e: nat)
    requires d <= e && |Level(u, root, d)| == 0
    ensures |Level(u, root, e)| == 0 && Seen(u, root, e) == Seen(u, root, d)
    decreases e - d
  {
    if d < e {
      assert Search(u, root, d + 1) == Expand(u, Level(u, root, d), Seen(u, root, d));
      EmptyLevelStays(u, root, d + 1, e);
    }
  }

  /** A non-empty level d + 1 follows a non-empty level d and adds nodes not
      visited before. */
  lemma SeenGrows(u: UGraph, root: NodeId, d: nat)
    requires |Level(u, root, d + 1)| > 0
    ensures |Level(u, root, d)| > 0
    ensures Seen(u, root, d) < Seen(u, root, d + 1)
  {
    assert Search(u, root, d + 1) == Expand(u, Level(u, root, d), Seen(u, root, d));
    var x := Level(u, root, d + 1)[0];
    LevelStep(u, root, d, x);
    forall y | y in Seen(u, root, d) ensures y in Seen(u, root, d + 1) {
      LevelStep(u, root, d, y);
    }
  }

  /** A non-empty level d means at least d + 1 nodes have been visited. */
  lemma {:induction false} SeenCount(u: UGraph, root: NodeId, d: nat)
    requires |Level(u, root, d)| > 0
    ensures |Seen(u, root, d)| >= d + 1
    decreases d
  {
    if d > 0 {
      SeenGrows(u, root, d - 1);
      SeenCount(u, root, d - 1);
      ProperSubsetCard(Seen(u, root, d - 1), Seen(u, root, d));
    }
  }

  /** Level h is the first empty one. */
  ghost predicate IsHeight(u: UGraph, root: NodeId, h: nat) {
    h >= 1 && |Level(u, root, h)| == 0 && |Level(u, root, h - 1)| > 0
  }

  /** Some level at most d is the first empty one, when level d is empty. */
  lemma {:induction false} FirstEmptyLevel(u: UGraph, root: NodeId, d: nat)
    requires |Level(u, root, d)| == 0
    ensures exists h: nat :: h <= d && IsHeight(u, root, h)
    decreases d
  {
    assert d > 0;
    if |Level(u, root, d - 1)| == 0 {
      FirstEmptyLevel(u, root, d - 1);
    } else {
      assert IsHeight(u, root, d);
    }
  }

  /** The search stops: there is a first empty level. */
  lemma HeightExists(u: UGraph, root: NodeId)
    requires Closed(u) && root in u.adj
    ensures exists h: nat :: IsHeight(u, root, h)
  {
    var n := |u.adj.Keys|;
    if |Level(u, root, n)| > 0 {
      SeenCount(u, root, n);
      forall x | x in Seen(u, root, n) ensures x in u.adj.Keys {
        SeenInGraph(u, root, n, x);
      }
      SubsetCard(Seen(u, root, n), u.adj.Keys);
    }
    FirstEmptyLevel(u, root, n);
  }

  /** The number of non-empty levels: the search gives its layer dictionary
      the keys 0 .. Height - 1. */
  ghost function Height(u: UGraph, root: NodeId): (h: nat)
    requires Closed(u) && root in u.adj
    ensures IsHeight(u, root, h)
  {
    HeightExists(u, root);
    var h: nat :| IsHeight(u, root, h);
    h
  }

  /** Levels below the height are non-empty and those from it on are empty. */
  lemma HeightLevels(u: UGraph, root: NodeId, d: nat)
    requires Closed(u) && root in u.adj
    ensures d < Height(u, root) <==> |Level(u, root, d)| > 0
  {
    var h := Height(u, root);
    if d < h && |Level(u, root, d)| == 0 {
      EmptyLevelStays(u, root, d, h - 1);
    }
    if d >= h {
      EmptyLevelStays(u, root, h, d);
    }
  }

  /** Nothing is visited after the last non-empty level. */
  lemma SeenAfterLast(u: UGraph, root: NodeId, h: nat, d: nat, x: NodeId)
    requires IsHeight(u, root, h) && d >= h - 1
    ensures x in Seen(u, root, d) <==> x in Seen(u, root, h - 1)
  {
    if d >= h {
      EmptyLevelStays(u, root, h, d);
      LevelStep(u, root, h - 1, x);
    }
  }

  lemma HeightSeen(u: UGraph, root: NodeId, d: nat, x: NodeId)
    requires Closed(u) && root in u.adj
    requires d >= Height(u, root) - 1
    ensures x in Seen(u, root, d) <==> x in Seen(u, root, Height(u, root) - 1)
  {
    SeenAfterLast(u, root, Height(u, root), d, x);
  }

  /** The search visits exactly the nodes connected to the root. */
  lemma SeenIsConnected(u: UGraph, root: NodeId, x: NodeId)
    requires Closed(u) && root in u.adj
    ensures x in Seen(u, root, Height(u, root) - 1) <==> Connected(u, root, x)
  {
    var h := Height(u, root) - 1;
    if x in Seen(u, root, h) {
      var j := DepthOf(u, root, h, x);
      LevelReach(u, root, j, x);
    }
    if Connected(u, root, x) {
      var len: nat :| Reach(u, root, x, len);
      ReachSeen(u, root, x, len);
      if len >= h {
        HeightSeen(u, root, len, x);
      } else {
        SeenMono(u, root, len, h, x);
      }
    }
  }

  // ----- The search as the viewer runs it -----

  /** The queue entries `(n, depth)` for the nodes of s, in order. */
  function Tagged(s: seq<NodeId>, depth: nat): (r: seq<(NodeId, nat)>)
    ensures |r| == |s|
    decreases |s|
  {
    if |s| == 0 then [] else [(s[0], depth)] + Tagged(s[1..], depth)
  }

  lemma TaggedHead(s: seq<NodeId>, depth: nat)
    requires |s| > 0
    ensures Tagged(s, depth)[0] == (s[0], depth) && Tagged(s, depth)[1..] == Tagged(s[1..], depth)
  {
    SplitAppend([(s[0], depth)], Tagged(s[1..], depth));
  }

  lemma {:induction false} TaggedAppend(a: seq<NodeId>, b: seq<NodeId>, depth: nat)
    ensures Tagged(a + b, depth) == Tagged(a, depth) + Tagged(b, depth)
    decreases |a|
  {
    if |a| == 0 {
      assert a + b == b;
    } else {
      DropFirstAppend(a, b);
      TaggedAppend(a[1..], b, depth);
      AppendAssoc([(a[0], depth)], Tagged(a[1..], depth), Tagged(b, depth));
    }
  }

  /** Popping the head of a queue that holds the rest of one level and then
      part of the next, and appending more of the next level. */
  lemma QueuePop(a: seq<NodeId>, b: seq<NodeId>, c: seq<NodeId>, d: nat)
    requires |a| > 0
    ensures (Tagged(a, d) + Tagged(b, d + 1))[0] == (a[0], d)
    ensures (Tagged(a, d) + Tagged(b, d + 1))[1..] + Tagged(c, d + 1) == Tagged(a[1..], d) + Tagged(b + c, d + 1)
  {
    TaggedHead(a, d);
    TaggedAppend(b, c, d + 1);
    DropFirstAppend(Tagged(a, d), Tagged(b, d + 1));
    AppendAssoc(Tagged(a[1..], d), Tagged(b, d + 1), Tagged(c, d + 1));
  }

  /** The scan of one more neighbour. */
  lemma ScanSnoc(s: seq<NodeId>, k: nat, seen: set<NodeId>)
    requires k < |s|
    ensures var p := Scan(s[..k], seen);
            Scan(s[..k + 1], seen) == if s[k] in p.seen then p else Frontier(p.found + [s[k]], p.seen + {s[k]})
  {
    assert s[..k + 1][..k] == s[..k];
  }

  /** The scan of one neighbour list, as the viewer's inner loop does it. */
  method EnqueueNeighbors(nbrs: seq<NodeId>, depth: nat, visited0: set<NodeId>, queue0: seq<(NodeId, nat)>)
    returns (visited: set<NodeId>, queue: seq<(NodeId, nat)>)
    ensures visited == Scan(nbrs, visited0).seen
    ensures queue == queue0 + Tagged(Scan(nbrs, visited0).found, depth)
  {
    visited, queue := visited0, queue0;
    for k := 0 to |nbrs|
      invariant visited == Scan(nbrs[..k], visited0).seen
      invariant queue == queue0 + Tagged(Scan(nbrs[..k], visited0).found, depth)
    {
      ghost var p := Scan(nbrs[..k], visited0);
      ScanSnoc(nbrs, k, visited0);
      if nbrs[k] !in visited {
        TaggedAppend(p.found, [nbrs[k]], depth);
        assert Tagged([nbrs[k]], depth) == [(nbrs[k], depth)];
        AppendAssoc(queue0, Tagged(p.found, depth), [(nbrs[k], depth)]);
        visited := visited + {nbrs[k]};
        queue := queue + [(nbrs[k], depth)];
      }
    }
    assert nbrs[..|nbrs|] == nbrs;
  }

  /** The search part way through dequeuing level d: its first i nodes are done. */
  function Partial(u: UGraph, root: NodeId, d: nat, i: nat): Frontier
    requires i <= |Level(u, root, d)|
  {
    Expand(u, Level(u, root, d)[..i], Seen(u, root, d))
  }

  /** Dequeuing node i of level d scans its neighbours. */
  lemma PartialStep(u: UGraph, root: NodeId, d: nat, i: nat)
    requires i < |Level(u, root, d)|
    ensures var p := Partial(u, root, d, i);
            var q := Scan(Nbrs(u, Level(u, root, d)[i]), p.seen);
            Partial(u, root, d, i + 1) == Frontier(p.found + q.found, q.seen)
  {
    var layer := Level(u, root, d);
    assert layer[..i + 1][..i] == layer[..i];
  }

  /** Once all of level d has been dequeued, level d + 1 is enqueued. */
  lemma PartialDone(u: UGraph, root: NodeId, d: nat)
    ensures Partial(u, root, d, |Level(u, root, d)|) == Search(u, root, d + 1)
  {
    assert Level(u, root, d)[..|Level(u, root, d)|] == Level(u, root, d);
  }

  /** The last level adds nothing to the visited set. */
  lemma LastLevelSeen(u: UGraph, root: NodeId, d: nat)
    requires |Level(u, root, d + 1)| == 0
    ensures Seen(u, root, d + 1) == Seen(u, root, d)
  {
    forall x ensures x in Seen(u, root, d + 1) <==> x in Seen(u, root, d) {
      LevelStep(u, root, d, x);
    }
  }

  /** `layers.setdefault(depth, []).append(node)` on a dictionary whose keys
      are 0 .. |layers| - 1. */
  function AppendToLayer(layers: seq<seq<NodeId>>, depth: nat, node: NodeId): (r: seq<seq<NodeId>>)
    requires depth <= |layers|
    ensures |r| == if depth < |layers| then |layers| else |layers| + 1
    ensures r[depth] == (if depth < |layers| then layers[depth] else []) + [node]
    ensures forall k :: 0 <= k < |layers| && k != depth ==> r[k] == layers[k]
  {
    if depth < |layers| then layers[depth := layers[depth] + [node]] else layers + [[node]]
  }

  /** The layers recorded once the first i nodes of level d are dequeued. */
  ghost predicate LayersSoFar(u: UGraph, root: NodeId, d: nat, i: nat, layers: seq<seq<NodeId>>)
    requires i <= |Level(u, root, d)|
  {
    && |layers| == (if i > 0 then d + 1 else d)
    && (forall k :: 0 <= k < d ==> layers[k] == Level(u, root, k))
    && (i > 0 ==> layers[d] == Level(u, root, d)[..i])
  }

  /** The state of the search loop part way through level d: the first i
      nodes of the level have been dequeued, the queue holds the rest of the
      level and what they have enqueued of level d + 1. */
  ghost predicate QueueState(u: UGraph, root: NodeId, d: nat, i: nat,
                             layers: seq<seq<NodeId>>, visited: set<NodeId>, queue: seq<(NodeId, nat)>)
  {
    && |Level(u, root, d)| > 0 && i <= |Level(u, root, d)|
    && visited == Partial(u, root, d, i).seen
    && queue == Tagged(Level(u, root, d)[i..], d) + Tagged(Partial(u, root, d, i).found, d + 1)
    && LayersSoFar(u, root, d, i, layers)
  }

  lemma QueueStart(u: UGraph, root: NodeId)
    ensures QueueState(u, root, 0, 0, [], {root}, [(root, 0)])
  {
    assert Level(u, root, 0)[0..] == [root];
    assert Tagged([root], 0) == [(root, 0)];
    assert [(root, 0)] + [] == [(root, 0)];
  }

  /** Recording node i of level d in the layer of its depth. */
  lemma LayersStep(u: UGraph, root: NodeId, d: nat, i: nat, layers: seq<seq<NodeId>>)
    requires i < |Level(u, root, d)| && LayersSoFar(u, root, d, i, layers)
    ensures d <= |layers| && LayersSoFar(u, root, d, i + 1, AppendToLayer(layers, d, Level(u, root, d)[i]))
  {
    var layer := Level(u, root, d);
    assert layer[..i + 1] == layer[..i] + [layer[i]];
  }

  /** Dequeuing node i of level d: the head of the queue is that node at
      depth d, and scanning its neighbours leaves the queue and the visited
      set of the search with i + 1 nodes done. */
  lemma QueueStep(u: UGraph, root: NodeId, d: nat, i: nat, queue: seq<(NodeId, nat)>)
    requires i < |Level(u, root, d)|
    requires queue == Tagged(Level(u, root, d)[i..], d) + Tagged(Partial(u, root, d, i).found, d + 1)
    ensures |queue| > 0 && queue[0] == (Level(u, root, d)[i], d)
    ensures var q := Scan(Nbrs(u, Level(u, root, d)[i]), Partial(u, root, d, i).seen);
            && q.seen == Partial(u, root, d, i + 1).seen
            && queue[1..] + Tagged(q.found, d + 1)
               == Tagged(Level(u, root, d)[i + 1..], d) + Tagged(Partial(u, root, d, i + 1).found, d + 1)
  {
    var layer := Level(u, root, d);
    var p := Partial(u, root, d, i);
    var q := Scan(Nbrs(u, layer[i]), p.seen);
    QueuePop(layer[i..], p.found, q.found, d);
    assert layer[i..][1..] == layer[i + 1..];
    PartialStep(u, root, d, i);
  }

  /** Dequeuing node i of level d keeps the state of the search loop. */
  lemma QueueAdvance(u: UGraph, root: NodeId, d: nat, i: nat,
                     layers: seq<seq<NodeId>>, visited: set<NodeId>, queue: seq<(NodeId, nat)>)
    requires QueueState(u, root, d, i, layers, visited, queue) && i < |Level(u, root, d)|
    ensures |queue| > 0 && queue[0] == (Level(u, root, d)[i], d) && queue[0].1 <= |layers|
    ensures var (node, depth) := queue[0];
            var q := Scan(Nbrs(u, node), visited);
            QueueState(u, root, d, i + 1, AppendToLayer(layers, depth, node),
                       q.seen, queue[1..] + Tagged(q.found, depth + 1))
  {
    QueueStep(u, root, d, i, queue);
    LayersStep(u, root, d, i, layers);
  }

  /** Level d is done and the queue is not empty: the search is at the start of level d + 1. */
  lemma QueueNextLevel(u: UGraph, root: NodeId, d: nat,
                       layers: seq<seq<NodeId>>, visited: set<NodeId>, queue: seq<(NodeId, nat)>)
    requires QueueState(u, root, d, |Level(u, root, d)|, layers, visited, queue) && |queue| > 0
    ensures QueueState(u, root, d + 1, 0, layers, visited, queue)
  {
    var layer := Level(u, root, d);
    var next := Level(u, root, d + 1);
    PartialDone(u, root, d);
    assert Tagged(layer[|layer|..], d) == [];
    assert queue == Tagged(next, d + 1);
    assert next[0..] == next;
    assert layer[..|layer|] == layer;
    assert queue == Tagged(next[0..], d + 1) + [];
  }

  /** An empty queue: every level has been recorded. */
  lemma QueueEnd(u: UGraph, root: NodeId, d: nat, i: nat,
                 layers: seq<seq<NodeId>>, visited: set<NodeId>, queue: seq<(NodeId, nat)>)
    requires Closed(u) && root in u.adj && d < Height(u, root)
    requires QueueState(u, root, d, i, layers, visited, queue) && |queue| == 0
    ensures |layers| == Height(u, root)
    ensures forall k :: 0 <= k < |layers| ==> layers[k] == Level(u, root, k)
    ensures visited == Seen(u, root, Height(u, root) - 1)
  {
    var layer := Level(u, root, d);
    assert i == |layer|;
    PartialDone(u, root, d);
    HeightLevels(u, root, d + 1);
    LastLevelSeen(u, root, d);
    assert layer[..i] == layer;
  }

  /** One turn of the search loop: dequeue the head, record it in the layer
      of its depth, and enqueue its unvisited neighbours at the next depth. */
  method Dequeue(u: UGraph, layers0: seq<seq<NodeId>>, visited0: set<NodeId>, queue0: seq<(NodeId, nat)>)
    returns (layers: seq<seq<NodeId>>, visited: set<NodeId>, queue: seq<(NodeId, nat)>)
    requires |queue0| > 0 && queue0[0].1 <= |layers0|
    ensures var (node, depth) := queue0[0];
            var q := Scan(Nbrs(u, node), visited0);
            && layers == AppendToLayer(layers0, depth, node)
            && visited == q.seen
            && queue == queue0[1..] + Tagged(q.found, depth + 1)
  {
    var node, depth := queue0[0].0, queue0[0].1;
    layers := AppendToLayer(layers0, depth, node);
    visited, queue := EnqueueNeighbors(Nbrs(u, node), depth + 1, visited0, queue0[1..]);
  }

  /** A non-empty level lies at a depth below the number of nodes. */
  lemma LevelDepthBound(u: UGraph, root: NodeId, d: nat)
    requires Closed(u) && root in u.adj && |Level(u, root, d)| > 0
    ensures d < |u.adj.Keys|
  {
    SeenCount(u, root, d);
    forall x | x in Seen(u, root, d) ensures x in u.adj.Keys {
      SeenInGraph(u, root, d, x);
    }
    SubsetCard(Seen(u, root, d), u.adj.Keys);
  }

  /** The search loop of the tree layout: a FIFO queue of `(node, depth)`
      pairs, a visited set, and a layer per depth held as a sequence. */
  method BreadthFirst(u: UGraph, root: NodeId) returns (layers: seq<seq<NodeId>>, visited: set<NodeId>)
    requires Closed(u) && root in u.adj
    ensures |layers| == Height(u, root)
    ensures forall d :: 0 <= d < |layers| ==> layers[d] == Level(u, root, d)
    ensures visited == Seen(u, root, Height(u, root) - 1)
  {
    ghost var d: nat, i: nat := 0, 0;
    layers, visited := [], {root};
    var queue := [(root, 0)];
    QueueStart(u, root);
    LevelDepthBound(u, root, 0);
    while |queue| > 0
      invariant QueueState(u, root, d, i, layers, visited, queue)
      invariant d < |u.adj.Keys|
      decreases |u.adj.Keys| - d, |Level(u, root, d)| - i
    {
      if i == |Level(u, root, d)| {
        QueueNextLevel(u, root, d, layers, visited, queue);
        d, i := d + 1, 0;
        LevelDepthBound(u, root, d);
      }
      QueueAdvance(u, root, d, i, layers, visited, queue);
      layers, visited, queue := Dequeue(u, layers, visited, queue);
      i := i + 1;
    }
    HeightLevels(u, root, d);
    QueueEnd(u, root, d, i, layers, visited, queue);
  }
}
