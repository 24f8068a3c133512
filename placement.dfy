/** The rest of the viewer's tree layout: after the search, every unreached
    node gets a layer of its own, each layer is sorted by descending degree,
    and each layer becomes a horizontal row centred on x = 0. */
module TreePlacement {
  import opened Seqs
  import opened Graph
  import opened StableSort
  import opened TreeLayout

  const HorizontalGap: int := 150
  const VerticalGap: int := 170

  type Point = (int, int)

  // ----- Geometry of a row -----

  /** The x coordinate of slot i of a row of `count` nodes. The source computes
      it in floating point, where `(count - 1) * 150 / 2.0` is exact. */
  function SlotX(i: int, count: int): int {
    -((count - 1) * HorizontalGap / 2) + i * HorizontalGap
  }

  /** The position of slot i of the row at depth d. */
  function Slot(d: nat, i: nat, count: nat): Point {
    (SlotX(i, count), d * VerticalGap)
  }

  /** A row is symmetric about x = 0 and its slots lie exactly one gap apart. */
  lemma SlotGeometry(i: int, count: int)
    ensures SlotX(i, count) == -(count - 1) * 75 + i * 150
    ensures SlotX(count - 1 - i, count) == -SlotX(i, count)
    ensures SlotX(i + 1, count) - SlotX(i, count) == HorizontalGap
  {
    assert (count - 1) * HorizontalGap == 2 * ((count - 1) * 75);
  }

  // ----- Unreached nodes -----

  /** The nodes of ns the search did not visit, in the order of ns. */
  function Unreached(ns: seq<NodeId>, visited: set<NodeId>): seq<NodeId>
    decreases |ns|
  {
    if |ns| == 0 then []
    else Unreached(ns[..|ns| - 1], visited) + (if ns[|ns| - 1] in visited then [] else [ns[|ns| - 1]])
  }

  lemma {:induction false} UnreachedMembers(ns: seq<NodeId>, visited: set<NodeId>, x: NodeId)
    ensures x in Unreached(ns, visited) <==> x in ns && x !in visited
    decreases |ns|
  {
    if |ns| > 0 {
      UnreachedMembers(ns[..|ns| - 1], visited, x);
      SplitLast(ns);
    }
  }

  lemma {:induction false} UnreachedDistinct(ns: seq<NodeId>, visited: set<NodeId>)
    requires Distinct(ns)
    ensures Distinct(Unreached(ns, visited))
    decreases |ns|
  {
    if |ns| > 0 {
      var front := ns[..|ns| - 1];
      var x := ns[|ns| - 1];
      DistinctLast(ns);
      UnreachedDistinct(front, visited);
      if x !in visited {
        UnreachedMembers(front, visited, x);
        DistinctConcat(Unreached(front, visited), [x]);
      }
    }
  }

  /** One layer per node. */
  function Singletons(s: seq<NodeId>): (r: seq<seq<NodeId>>)
    ensures |r| == |s|
    ensures forall k :: 0 <= k < |s| ==> r[k] == [s[k]]
  {
    seq(|s|, k requires 0 <= k < |s| => [s[k]])
  }

  lemma SingletonsSnoc(s: seq<NodeId>, x: NodeId)
    ensures Singletons(s + [x]) == Singletons(s) + [[x]]
  {
  }

  lemma UnreachedSnoc(ns: seq<NodeId>, k: nat, visited: set<NodeId>)
    requires k < |ns|
    ensures Unreached(ns[..k + 1], visited)
            == Unreached(ns[..k], visited) + (if ns[k] in visited then [] else [ns[k]])
  {
    assert ns[..k + 1][..k] == ns[..k];
  }

  /** The loop over the graph's nodes after the search: each unvisited node
      goes alone on the layer below the deepest so far. */
  method AddUnreachedRows(nodes: seq<NodeId>, visited: set<NodeId>, layers0: seq<seq<NodeId>>)
    returns (layers: seq<seq<NodeId>>)
    requires |layers0| > 0
    ensures layers == layers0 + Singletons(Unreached(nodes, visited))
  {
    var maxDepth := if |layers0| > 0 then |layers0| - 1 else 0;
    layers := layers0;
    for k := 0 to |nodes|
      invariant maxDepth == |layers| - 1
      invariant layers == layers0 + Singletons(Unreached(nodes[..k], visited))
    {
      ghost var front := Unreached(nodes[..k], visited);
      UnreachedSnoc(nodes, k, visited);
      if nodes[k] !in visited {
        maxDepth := maxDepth + 1;
        layers := AppendToLayer(layers, maxDepth, nodes[k]);
        SingletonsSnoc(front, nodes[k]);
        AppendAssoc(layers0, Singletons(front), [[nodes[k]]]);
      } else {
        assert front + [] == front;
      }
    }
    assert nodes[..|nodes|] == nodes;
  }

  // ----- Sorting the layers -----

  /** Every layer sorted by descending key, ties in their old order. */
  function SortEach(layers: seq<seq<NodeId>>, key: NodeId -> int): (r: seq<seq<NodeId>>)
    ensures |r| == |layers|
    ensures forall d :: 0 <= d < |layers| ==> r[d] == SortDesc(layers[d], key)
  {
    seq(|layers|, d requires 0 <= d < |layers| => SortDesc(layers[d], key))
  }

  /** `for depth in layers: layers[depth].sort(key=..., reverse=True)`. */
  method SortRows(layers0: seq<seq<NodeId>>, key: NodeId -> int) returns (layers: seq<seq<NodeId>>)
    ensures layers == SortEach(layers0, key)
  {
    layers := layers0;
    for d := 0 to |layers|
      invariant |layers| == |layers0|
      invariant forall j :: 0 <= j < d ==> layers[j] == SortDesc(layers0[j], key)
      invariant forall j :: d <= j < |layers| ==> layers[j] == layers0[j]
    {
      layers := layers[d := SortDesc(layers[d], key)];
    }
  }

  // ----- Placing the rows -----

  /** `pos` after the nodes of `row`, the row at depth d with `count` slots,
      have been placed; a node placed again takes its new position. */
  function PlaceRow(pos: map<NodeId, Point>, row: seq<NodeId>, d: nat, count: nat): map<NodeId, Point>
    decreases |row|
  {
    if |row| == 0 then pos
    else PlaceRow(pos, row[..|row| - 1], d, count)[row[|row| - 1] := Slot(d, |row| - 1, count)]
  }

  /** `pos` after every row has been placed, in depth order. */
  function Placement(rows: seq<seq<NodeId>>): map<NodeId, Point>
    decreases |rows|
  {
    if |rows| == 0 then map[]
    else
      var row := rows[|rows| - 1];
      PlaceRow(Placement(rows[..|rows| - 1]), row, |rows| - 1, |row|)
  }

  /** The placement loops of the tree layout. */
  method PlaceRows(rows: seq<seq<NodeId>>) returns (pos: map<NodeId, Point>)
    ensures pos == Placement(rows)
  {
    pos := map[];
    for d := 0 to |rows|
      invariant pos == Placement(rows[..d])
    {
      var row := rows[d];
      var count := |row|;
      var totalWidth := (count - 1) * HorizontalGap;
      var startX := -(totalWidth / 2);
      ghost var pos0 := pos;
      for i := 0 to count
        invariant pos == PlaceRow(pos0, row[..i], d, count)
      {
        assert row[..i + 1][..i] == row[..i];
        var x := startX + i * HorizontalGap;
        var y := d * VerticalGap;
        pos := pos[row[i] := (x, y)];
      }
      assert row[..count] == row;
      assert rows[..d + 1][..d] == rows[..d];
    }
    assert rows[..|rows|] == rows;
  }

  lemma {:induction false} PlaceRowMembers(pos: map<NodeId, Point>, row: seq<NodeId>, d: nat, count: nat, x: NodeId)
    ensures x in PlaceRow(pos, row, d, count) <==> x in pos || x in row
    ensures x !in row && x in pos ==> PlaceRow(pos, row, d, count)[x] == pos[x]
    decreases |row|
  {
    if |row| > 0 {
      PlaceRowMembers(pos, row[..|row| - 1], d, count, x);
      SplitLast(row);
    }
  }

  /** In a repetition-free row, slot i holds the i-th node. */
  lemma {:induction false} PlaceRowAt(pos: map<NodeId, Point>, row: seq<NodeId>, d: nat, count: nat, i: nat)
    requires Distinct(row) && i < |row|
    ensures row[i] in PlaceRow(pos, row, d, count) && PlaceRow(pos, row, d, count)[row[i]] == Slot(d, i, count)
    decreases |row|
  {
    var front := row[..|row| - 1];
    PlaceRowMembers(pos, row, d, count, row[i]);
    if i < |row| - 1 {
      DistinctLast(row);
      PlaceRowAt(pos, front, d, count, i);
    }
  }

  /** The nodes placed are those of the rows. */
  lemma {:induction false} PlacementMembers(rows: seq<seq<NodeId>>, x: NodeId)
    ensures x in Placement(rows) <==> exists d :: 0 <= d < |rows| && x in rows[d]
    decreases |rows|
  {
    if |rows| > 0 {
      var front := rows[..|rows| - 1];
      PlacementMembers(front, x);
      PlaceRowMembers(Placement(front), rows[|rows| - 1], |rows| - 1, |rows[|rows| - 1]|, x);
      if exists d :: 0 <= d < |rows| && x in rows[d] {
        var d :| 0 <= d < |rows| && x in rows[d];
        if d < |front| {
          assert x in front[d];
        }
      }
      if exists d :: 0 <= d < |front| && x in front[d] {
        var d :| 0 <= d < |front| && x in front[d];
        assert x in rows[d];
      }
    }
  }

  /** A node that occurs once in its row and in no later row sits in its slot. */
  lemma {:induction false} PlacementAt(rows: seq<seq<NodeId>>, d: nat, i: nat)
    requires d < |rows| && i < |rows[d]| && Distinct(rows[d])
    requires forall e :: d < e < |rows| ==> rows[d][i] !in rows[e]
    ensures rows[d][i] in Placement(rows) && Placement(rows)[rows[d][i]] == Slot(d, i, |rows[d]|)
    decreases |rows|
  {
    PlacementMembers(rows, rows[d][i]);
    var front := rows[..|rows| - 1];
    var last := rows[|rows| - 1];
    if d == |rows| - 1 {
      PlaceRowAt(Placement(front), last, d, |last|, i);
    } else {
      assert front[d] == rows[d];
      forall e | d < e < |front| ensures front[d][i] !in front[e] {
        assert front[e] == rows[e];
      }
      PlacementAt(front, d, i);
      PlacementMembers(front, rows[d][i]);
      PlaceRowMembers(Placement(front), last, |rows| - 1, |last|, rows[d][i]);
    }
  }

  // ----- The whole layout -----

  /** The search's levels as the layer dictionary holds them. */
  ghost function Levels(u: UGraph, root: NodeId): (r: seq<seq<NodeId>>)
    requires Closed(u) && root in u.adj
    ensures |r| == Height(u, root)
    ensures forall d :: 0 <= d < |r| ==> r[d] == Level(u, root, d)
  {
    seq(Height(u, root), d requires 0 <= d < Height(u, root) => Level(u, root, d))
  }

  lemma LevelsOf(u: UGraph, root: NodeId, layers: seq<seq<NodeId>>)
    requires Closed(u) && root in u.adj
    requires |layers| == Height(u, root)
    requires forall d :: 0 <= d < |layers| ==> layers[d] == Level(u, root, d)
    ensures layers == Levels(u, root) && |layers| > 0
  {
  }

  /** What the layout needs of the undirected view: it is closed, and its node
      list holds every node once. */
  ghost predicate Indexed(u: UGraph) {
    && Closed(u)
    && Distinct(u.nodes)
    && (forall n :: n in u.adj <==> n in u.nodes)
  }

  lemma ToUndirectedIndexed(g: DiGraph)
    requires Valid(g)
    ensures Indexed(ToUndirected(g))
  {
    ToUndirectedClosed(g);
  }

  /** The nodes the search from the root does not visit, in node order. */
  ghost function Unvisited(u: UGraph, root: NodeId): seq<NodeId>
    requires Closed(u) && root in u.adj
  {
    Unreached(u.nodes, Seen(u, root, Height(u, root) - 1))
  }

  /** The layers before sorting: the levels, then one layer per unvisited node. */
  ghost function Layers(u: UGraph, root: NodeId): (r: seq<seq<NodeId>>)
    requires Closed(u) && root in u.adj
    ensures |r| == Height(u, root) + |Unvisited(u, root)|
  {
    Levels(u, root) + Singletons(Unvisited(u, root))
  }

  lemma LayerIsLevel(u: UGraph, root: NodeId, d: nat)
    requires Closed(u) && root in u.adj && d < Height(u, root)
    ensures Layers(u, root)[d] == Level(u, root, d)
  {
  }

  lemma LayerIsUnvisited(u: UGraph, root: NodeId, d: nat)
    requires Closed(u) && root in u.adj && Height(u, root) <= d < |Layers(u, root)|
    ensures Layers(u, root)[d] == [Unvisited(u, root)[d - Height(u, root)]]
  {
    var lv, sg := Levels(u, root), Singletons(Unvisited(u, root));
    IndexRight(lv, sg, d);
  }

  /** The rows of the tree layout, top to bottom. */
  ghost function TreeRows(u: UGraph, root: NodeId): seq<seq<NodeId>>
    requires Closed(u) && root in u.adj
  {
    SortEach(Layers(u, root), ByDegree(u))
  }

  /** The search and the unreached layers of `compute_tree_layout`. */
  method SearchLayers(g: DiGraph, root: NodeId) returns (layers: seq<seq<NodeId>>)
    requires Valid(g) && root in g.attrs
    ensures Closed(ToUndirected(g))
    ensures layers == Layers(ToUndirected(g), root)
  {
    var u := ToUndirected(g);
    ToUndirectedClosed(g);
    var levels, visited := BreadthFirst(u, root);
    LevelsOf(u, root, levels);
    layers := AddUnreachedRows(u.nodes, visited, levels);
    LayersOf(u, root, levels, visited);
  }

  lemma LayersOf(u: UGraph, root: NodeId, levels: seq<seq<NodeId>>, visited: set<NodeId>)
    requires Closed(u) && root in u.adj
    requires levels == Levels(u, root) && visited == Seen(u, root, Height(u, root) - 1)
    ensures levels + Singletons(Unreached(u.nodes, visited)) == Layers(u, root)
  {
  }

  /** `compute_tree_layout(root_id)`: every node of the graph gets a position,
      the root at the origin. */
  method ComputeTreeLayout(g: DiGraph, root: NodeId) returns (pos: map<NodeId, Point>)
    requires Valid(g) && root in g.attrs
    ensures Closed(ToUndirected(g))
    ensures pos == Placement(TreeRows(ToUndirected(g), root))
    ensures forall x :: x in pos <==> x in g.attrs
    ensures root in pos && pos[root] == (0, 0)
  {
    var layers := SearchLayers(g, root);
    layers := SortRows(layers, ByDegree(ToUndirected(g)));
    pos := PlaceRows(layers);
    ToUndirectedIndexed(g);
    forall x ensures x in pos <==> x in g.attrs {
      TreeLayoutKeys(ToUndirected(g), root, x);
    }
    TreeLayoutRoot(ToUndirected(g), root);
  }

  // ----- What the layout promises -----

  lemma UnvisitedMembers(u: UGraph, root: NodeId, x: NodeId)
    requires Closed(u) && root in u.adj
    ensures x in Unvisited(u, root) <==> x in u.nodes && x !in Seen(u, root, Height(u, root) - 1)
  {
    UnreachedMembers(u.nodes, Seen(u, root, Height(u, root) - 1), x);
  }

  /** A node is unvisited exactly when it is a node of the graph the root is not connected to. */
  lemma UnvisitedIsUnconnected(u: UGraph, root: NodeId, x: NodeId)
    requires Indexed(u) && root in u.adj
    ensures x in Unvisited(u, root) <==> x in u.adj && !Connected(u, root, x)
  {
    UnvisitedMembers(u, root, x);
    SeenIsConnected(u, root, x);
  }

  /** No layer holds a node twice. */
  lemma LayerDistinct(u: UGraph, root: NodeId, d: nat)
    requires Closed(u) && Distinct(u.nodes) && root in u.adj && d < |Layers(u, root)|
    ensures Distinct(Layers(u, root)[d])
  {
    if d < Height(u, root) {
      LayerIsLevel(u, root, d);
      LevelDistinct(u, root, d);
    } else {
      LayerIsUnvisited(u, root, d);
    }
  }

  /** A node on a level of the search is visited by the last level. */
  lemma LayerSeen(u: UGraph, root: NodeId, d: nat, x: NodeId)
    requires Closed(u) && root in u.adj && d < Height(u, root) && x in Layers(u, root)[d]
    ensures x in Seen(u, root, Height(u, root) - 1)
  {
    LayerIsLevel(u, root, d);
    LevelSeenFrom(u, root, d, Height(u, root) - 1, x);
  }

  lemma SeenNotUnvisited(u: UGraph, root: NodeId, x: NodeId)
    requires Closed(u) && root in u.adj && x in Seen(u, root, Height(u, root) - 1)
    ensures x !in Unvisited(u, root)
  {
    UnvisitedMembers(u, root, x);
  }

  lemma NotOnUnvisitedLayer(u: UGraph, root: NodeId, d: nat, x: NodeId)
    requires Closed(u) && root in u.adj && Height(u, root) <= d < |Layers(u, root)|
    requires x !in Unvisited(u, root)
    ensures x !in Layers(u, root)[d]
  {
    LayerIsUnvisited(u, root, d);
  }

  /** A node on a level of the search is on no layer of unvisited nodes. */
  lemma LevelNotUnvisited(u: UGraph, root: NodeId, d1: nat, d2: nat, x: NodeId)
    requires Closed(u) && root in u.adj
    requires d1 < Height(u, root) <= d2 < |Layers(u, root)|
    requires x in Layers(u, root)[d1]
    ensures x !in Layers(u, root)[d2]
  {
    LayerSeen(u, root, d1, x);
    SeenNotUnvisited(u, root, x);
    NotOnUnvisitedLayer(u, root, d2, x);
  }

  /** Two layers of unvisited nodes hold different nodes. */
  lemma UnvisitedApart(u: UGraph, root: NodeId, d1: nat, d2: nat, x: NodeId)
    requires Closed(u) && Distinct(u.nodes) && root in u.adj
    requires Height(u, root) <= d1 < |Layers(u, root)| && Height(u, root) <= d2 < |Layers(u, root)|
    requires x in Layers(u, root)[d1] && x in Layers(u, root)[d2]
    ensures d1 == d2
  {
    var h := Height(u, root);
    var un := Unvisited(u, root);
    LayerIsUnvisited(u, root, d1);
    LayerIsUnvisited(u, root, d2);
    UnreachedDistinct(u.nodes, Seen(u, root, h - 1));
    assert un[d1 - h] == x == un[d2 - h];
  }

  /** No node lies on two layers. */
  lemma LayersApart(u: UGraph, root: NodeId, d1: nat, d2: nat, x: NodeId)
    requires Closed(u) && Distinct(u.nodes) && root in u.adj
    requires d1 < |Layers(u, root)| && d2 < |Layers(u, root)|
    requires x in Layers(u, root)[d1] && x in Layers(u, root)[d2]
    ensures d1 == d2
  {
    var h := Height(u, root);
    if d1 < h && d2 < h {
      LayerIsLevel(u, root, d1);
      LayerIsLevel(u, root, d2);
      LevelsApart(u, root, d1, d2, x);
    } else if d1 < h {
      LevelNotUnvisited(u, root, d1, d2, x);
    } else if d2 < h {
      LevelNotUnvisited(u, root, d2, d1, x);
    } else {
      UnvisitedApart(u, root, d1, d2, x);
    }
  }

  /** A visited node lies on the layer of its depth. */
  lemma SeenOnLayer(u: UGraph, root: NodeId, x: NodeId) returns (d: nat)
    requires Closed(u) && root in u.adj && x in Seen(u, root, Height(u, root) - 1)
    ensures d < |Layers(u, root)| && x in Layers(u, root)[d]
  {
    d := DepthOf(u, root, Height(u, root) - 1, x);
    LayerIsLevel(u, root, d);
  }

  /** An unvisited node of the graph lies on its own layer. */
  lemma UnvisitedOnLayer(u: UGraph, root: NodeId, x: NodeId) returns (d: nat)
    requires Indexed(u) && root in u.adj && x in u.adj && x !in Seen(u, root, Height(u, root) - 1)
    ensures d < |Layers(u, root)| && x in Layers(u, root)[d]
  {
    var un := Unvisited(u, root);
    UnvisitedMembers(u, root, x);
    var k :| 0 <= k < |un| && un[k] == x;
    d := Height(u, root) + k;
    LayerIsUnvisited(u, root, d);
  }

  lemma LevelLayerInGraph(u: UGraph, root: NodeId, d: nat, x: NodeId)
    requires Closed(u) && root in u.adj && d < Height(u, root) && x in Layers(u, root)[d]
    ensures x in u.adj
  {
    LayerIsLevel(u, root, d);
    LevelInGraph(u, root, d, x);
  }

  lemma UnvisitedLayerInGraph(u: UGraph, root: NodeId, d: nat, x: NodeId)
    requires Indexed(u) && root in u.adj && Height(u, root) <= d < |Layers(u, root)|
    requires x in Layers(u, root)[d]
    ensures x in u.adj
  {
    LayerIsUnvisited(u, root, d);
    UnvisitedInGraph(u, root, x);
  }

  lemma UnvisitedInGraph(u: UGraph, root: NodeId, x: NodeId)
    requires Indexed(u) && root in u.adj && x in Unvisited(u, root)
    ensures x in u.adj
  {
    UnvisitedMembers(u, root, x);
  }

  /** Only nodes of the graph lie on a layer. */
  lemma LayerInGraph(u: UGraph, root: NodeId, d: nat, x: NodeId)
    requires Indexed(u) && root in u.adj && d < |Layers(u, root)| && x in Layers(u, root)[d]
    ensures x in u.adj
  {
    if d < Height(u, root) {
      LevelLayerInGraph(u, root, d, x);
    } else {
      UnvisitedLayerInGraph(u, root, d, x);
    }
  }

  /** Every node of the graph lies on some layer, and only nodes of the graph do. */
  lemma LayersCover(u: UGraph, root: NodeId, x: NodeId)
    requires Indexed(u) && root in u.adj
    ensures x in u.adj <==> exists d :: 0 <= d < |Layers(u, root)| && x in Layers(u, root)[d]
  {
    if x in u.adj {
      var d;
      if x in Seen(u, root, Height(u, root) - 1) {
        d := SeenOnLayer(u, root, x);
      } else {
        d := UnvisitedOnLayer(u, root, x);
      }
    }
    if exists d :: 0 <= d < |Layers(u, root)| && x in Layers(u, root)[d] {
      var d :| 0 <= d < |Layers(u, root)| && x in Layers(u, root)[d];
      LayerInGraph(u, root, d, x);
    }
  }

  /** A row holds the nodes of its layer, each once, in descending degree,
      nodes of equal degree in the order the layer had them. */
  lemma TreeRowSorted(u: UGraph, root: NodeId, d: nat, x: NodeId)
    requires Closed(u) && Distinct(u.nodes) && root in u.adj && d < |Layers(u, root)|
    ensures |TreeRows(u, root)| == |Layers(u, root)|
    ensures x in TreeRows(u, root)[d] <==> x in Layers(u, root)[d]
    ensures Distinct(TreeRows(u, root)[d])
    ensures SortedDesc(TreeRows(u, root)[d], ByDegree(u))
    ensures StableFor(TreeRows(u, root)[d], Layers(u, root)[d], ByDegree(u))
  {
    var layer := Layers(u, root)[d];
    var key := ByDegree(u);
    SortDescPermutation(layer, key);
    assert x in SortDesc(layer, key) <==> x in multiset(SortDesc(layer, key));
    LayerDistinct(u, root, d);
    SortDescDistinct(layer, key);
    SortDescSorted(layer, key);
    SortDescStable(layer, key);
  }

  /** The position of every node: slot i of row d. */
  lemma TreeLayoutAt(u: UGraph, root: NodeId, d: nat, i: nat)
    requires Closed(u) && Distinct(u.nodes) && root in u.adj
    requires d < |TreeRows(u, root)| && i < |TreeRows(u, root)[d]|
    ensures var rows := TreeRows(u, root);
            rows[d][i] in Placement(rows) && Placement(rows)[rows[d][i]] == Slot(d, i, |rows[d]|)
  {
    var rows := TreeRows(u, root);
    var x := rows[d][i];
    TreeRowSorted(u, root, d, x);
    forall e | d < e < |rows| ensures x !in rows[e] {
      TreeRowSorted(u, root, e, x);
      if x in rows[e] {
        LayersApart(u, root, d, e, x);
      }
    }
    PlacementAt(rows, d, i);
  }

  /** Exactly the nodes of the graph get a position. */
  lemma TreeLayoutKeys(u: UGraph, root: NodeId, x: NodeId)
    requires Indexed(u) && root in u.adj
    ensures x in Placement(TreeRows(u, root)) <==> x in u.adj
  {
    var rows := TreeRows(u, root);
    PlacementMembers(rows, x);
    LayersCover(u, root, x);
    if exists d :: 0 <= d < |rows| && x in rows[d] {
      var d :| 0 <= d < |rows| && x in rows[d];
      TreeRowSorted(u, root, d, x);
    }
    if x in u.adj {
      var d :| 0 <= d < |Layers(u, root)| && x in Layers(u, root)[d];
      TreeRowSorted(u, root, d, x);
    }
  }

  /** A node at distance d from the root sits on the row at y = d * 170. */
  lemma TreeLayoutDepth(u: UGraph, root: NodeId, x: NodeId, d: nat)
    requires Closed(u) && Distinct(u.nodes) && root in u.adj
    requires IsDistance(u, root, x, d)
    ensures x in Placement(TreeRows(u, root)) && Placement(TreeRows(u, root))[x].1 == d * VerticalGap
  {
    var rows := TreeRows(u, root);
    LevelIsDistance(u, root, d, x);
    HeightLevels(u, root, d);
    LayerIsLevel(u, root, d);
    TreeRowSorted(u, root, d, x);
    var i :| 0 <= i < |rows[d]| && rows[d][i] == x;
    TreeLayoutAt(u, root, d, i);
  }

  /** A layer of one node is a row of that node. */
  lemma SingletonRow(u: UGraph, root: NodeId, d: nat, x: NodeId)
    requires Closed(u) && root in u.adj && d < |Layers(u, root)| && Layers(u, root)[d] == [x]
    ensures TreeRows(u, root)[d] == [x]
  {
    assert TreeRows(u, root)[d] == SortDesc([x], ByDegree(u));
    assert SortDesc([x], ByDegree(u)) == [x] by {
      assert [x][..0] == [];
    }
  }

  /** A row of one node puts it on the axis x = 0. */
  lemma SingleSlot(d: nat)
    ensures Slot(d, 0, 1) == (0, d * VerticalGap)
  {
  }

  /** The first layer holds the root alone. */
  lemma RootLayer(u: UGraph, root: NodeId)
    requires Closed(u) && root in u.adj
    ensures 0 < |Layers(u, root)| && Layers(u, root)[0] == [root]
  {
    HeightLevels(u, root, 0);
    LayerIsLevel(u, root, 0);
  }

  /** The root, alone at distance 0, sits at the origin. */
  lemma TreeLayoutRoot(u: UGraph, root: NodeId)
    requires Closed(u) && Distinct(u.nodes) && root in u.adj
    ensures root in Placement(TreeRows(u, root)) && Placement(TreeRows(u, root))[root] == (0, 0)
  {
    RootLayer(u, root);
    SingletonRow(u, root, 0, root);
    TreeLayoutAt(u, root, 0, 0);
    SingleSlot(0);
  }

  /** The k-th unvisited node sits alone on row Height + k, at x = 0. */
  lemma TreeLayoutUnvisited(u: UGraph, root: NodeId, k: nat)
    requires Closed(u) && Distinct(u.nodes) && root in u.adj && k < |Unvisited(u, root)|
    ensures var h := Height(u, root);
            var x := Unvisited(u, root)[k];
            && TreeRows(u, root)[h + k] == [x]
            && x in Placement(TreeRows(u, root))
            && Placement(TreeRows(u, root))[x].0 == 0
            && Placement(TreeRows(u, root))[x].1 == (h + k) * VerticalGap
  {
    var d := Height(u, root) + k;
    var x := Unvisited(u, root)[k];
    var rows := TreeRows(u, root);
    LayerIsUnvisited(u, root, d);
    SingletonRow(u, root, d, x);
    TreeLayoutAt(u, root, d, 0);
    assert Placement(rows)[x] == Slot(d, 0, 1);
    SingleSlot(d);
  }
}
