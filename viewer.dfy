/** graph_viewer.py: the scene the relationship map keeps -- one node item per
    node, at most one edge item per unordered pair of linked nodes -- and how the
    layout buttons, clicks and drags change it. Painting, curve geometry, zoom,
    fitting and export are not modelled. */
module Viewer {
  import opened Wrappers
  import opened Seqs
  import opened Graph
  import opened TreeLayout
  import opened TreePlacement

  // ----- Node size and colour -----

  const BaseRadius := 22
  const RadiusStep := 4
  const DegreeCap := 8

  /** `base_radius + mult * min(degree, 8)`, over the directed degree. */
  function Radius(degree: nat): (r: int)
    ensures BaseRadius <= r <= BaseRadius + RadiusStep * DegreeCap
  {
    BaseRadius + RadiusStep * (if degree < DegreeCap then degree else DegreeCap)
  }

  /** A node never shrinks as its degree grows. */
  lemma RadiusMonotone(d1: nat, d2: nat)
    requires d1 <= d2
    ensures Radius(d1) <= Radius(d2)
  {
  }

  /** Every extra link adds 4 up to degree 8; from there on the radius stays 54. */
  lemma RadiusSteps(d: nat)
    ensures d < DegreeCap ==> Radius(d + 1) == Radius(d) + RadiusStep
    ensures d >= DegreeCap ==> Radius(d) == 54
  {
  }

  const DefaultColor := "#AAAAAA"

  /** The category colours of `draw_graph`. */
  const ColorMap: map<string, string> := map[
    "Character" := "#66AAFF",
    "Location" := "#88CC66",
    "Item" := "#FFCC66",
    "Event" := "#CC66FF",
    "default" := DefaultColor]

  /** `color_map.get(category, "#AAAAAA")`: a known category has its own colour,
      everything else is grey. */
  function ColorOf(category: string): (c: string)
    ensures c in ColorMap.Values
    ensures category in ColorMap ==> c == ColorMap[category]
    ensures c == DefaultColor <==> category !in {"Character", "Location", "Item", "Event"}
  {
    assert ColorMap["Character"][1] != DefaultColor[1] && ColorMap["Location"][1] != DefaultColor[1];
    assert ColorMap["Item"][1] != DefaultColor[1] && ColorMap["Event"][1] != DefaultColor[1];
    assert ColorMap["default"] == DefaultColor;
    if category in ColorMap then ColorMap[category] else DefaultColor
  }

  // ----- Scene items -----

  /** Opacities in percent: Qt's 1.0, 0.25 and 0.2. */
  const Opaque := 100
  const NodeDimmed := 25
  const EdgeDimmed := 20

  datatype NodeItem = NodeItem(pos: Point, radius: int, color: string, labelText: string, opacity: int)

  /** An edge item; its label item shares the edge's endpoints and carries its own opacity. */
  datatype EdgeItem = EdgeItem(src: NodeId, dst: NodeId, labelText: string, opacity: int, labelOpacity: int)

  /** The node item `draw_graph` makes for n. */
  function NodeItemOf(g: DiGraph, positions: map<NodeId, Point>, n: NodeId): (item: NodeItem)
    requires n in g.attrs
    ensures item.radius == Radius(Degree(g, n)) && item.color == ColorOf(g.attrs[n].category)
    ensures item.pos == (if n in positions then positions[n] else (0, 0))
    ensures item.labelText == g.attrs[n].labelText && item.opacity == Opaque
  {
    NodeItem(if n in positions then positions[n] else (0, 0), Radius(Degree(g, n)),
             ColorOf(g.attrs[n].category), g.attrs[n].labelText, Opaque)
  }

  function EdgeItemOf(e: Edge): EdgeItem {
    EdgeItem(e.src, e.dst, e.labelText, Opaque, Opaque)
  }

  // ----- Edge deduplication -----

  /** `tuple(sorted((src, dst)))`: the unordered pair of an edge. */
  function PairKey(src: NodeId, dst: NodeId): (k: (NodeId, NodeId))
    ensures k.0 <= k.1
    ensures k == (src, dst) || k == (dst, src)
  {
    if src <= dst then (src, dst) else (dst, src)
  }

  /** Two edges share a key exactly when they join the same two nodes, either way round. */
  lemma PairKeySame(a: NodeId, b: NodeId, c: NodeId, d: NodeId)
    ensures PairKey(a, b) == PairKey(c, d) <==> (a == c && b == d) || (a == d && b == c)
  {
  }

  function EdgeKey(e: Edge): (NodeId, NodeId) {
    PairKey(e.src, e.dst)
  }

  function ItemKey(x: EdgeItem): (NodeId, NodeId) {
    PairKey(x.src, x.dst)
  }

  /** Every edge item joins two nodes of ids. */
  ghost predicate EdgesJoin(edges: seq<EdgeItem>, ids: set<NodeId>) {
    forall k :: 0 <= k < |edges| ==> edges[k].src in ids && edges[k].dst in ids
  }

  /** No two edge items join the same two nodes. */
  ghost predicate PairsUnique(edges: seq<EdgeItem>) {
    forall i, j :: 0 <= i < j < |edges| ==> ItemKey(edges[i]) != ItemKey(edges[j])
  }

  /** `seen_pairs` after the edges es. */
  function SeenPairs(es: seq<Edge>): set<(NodeId, NodeId)>
    decreases |es|
  {
    if |es| == 0 then {} else SeenPairs(es[..|es| - 1]) + {EdgeKey(es[|es| - 1])}
  }

  lemma {:induction false} SeenPairsMembers(es: seq<Edge>, key: (NodeId, NodeId))
    ensures key in SeenPairs(es) <==> exists k :: 0 <= k < |es| && EdgeKey(es[k]) == key
    decreases |es|
  {
    if |es| > 0 {
      var front := es[..|es| - 1];
      SeenPairsMembers(front, key);
      if exists k :: 0 <= k < |es| && EdgeKey(es[k]) == key {
        var k :| 0 <= k < |es| && EdgeKey(es[k]) == key;
        if k < |front| {
          assert front[k] == es[k];
        }
      }
      if exists k :: 0 <= k < |front| && EdgeKey(front[k]) == key {
        var k :| 0 <= k < |front| && EdgeKey(front[k]) == key;
        assert es[k] == front[k];
      }
    }
  }

  /** es[k] is the first edge of its unordered pair. */
  predicate FirstOfPair(es: seq<Edge>, k: nat)
    requires k < |es|
  {
    EdgeKey(es[k]) !in SeenPairs(es[..k])
  }

  /** The edge items `draw_graph` makes from the edges es: the first edge of each
      unordered pair, when both its ends have node items. */
  function DrawnEdges(es: seq<Edge>, ids: set<NodeId>): seq<EdgeItem>
    decreases |es|
  {
    if |es| == 0 then []
    else
      var front, e := es[..|es| - 1], es[|es| - 1];
      DrawnEdges(front, ids)
        + (if EdgeKey(e) !in SeenPairs(front) && e.src in ids && e.dst in ids then [EdgeItemOf(e)] else [])
  }

  /** Every drawn edge item joins two node items, is fully opaque, and its pair
      is among those of es. */
  lemma {:induction false} DrawnItem(es: seq<Edge>, ids: set<NodeId>, j: nat)
    requires j < |DrawnEdges(es, ids)|
    ensures var x := DrawnEdges(es, ids)[j];
            && x.src in ids && x.dst in ids && x.opacity == Opaque && x.labelOpacity == Opaque
            && ItemKey(x) in SeenPairs(es)
    decreases |es|
  {
    var front := es[..|es| - 1];
    if j < |DrawnEdges(front, ids)| {
      DrawnItem(front, ids, j);
    }
  }

  /** No two edge items join the same two nodes. */
  lemma {:induction false} DrawnUnique(es: seq<Edge>, ids: set<NodeId>, i: nat, j: nat)
    requires i < j < |DrawnEdges(es, ids)|
    ensures ItemKey(DrawnEdges(es, ids)[i]) != ItemKey(DrawnEdges(es, ids)[j])
    decreases |es|
  {
    var front := es[..|es| - 1];
    var d := DrawnEdges(front, ids);
    if j < |d| {
      DrawnUnique(front, ids, i, j);
    } else {
      DrawnItem(front, ids, i);
      assert DrawnEdges(es, ids)[i] == d[i];
    }
  }

  /** The first edge of each pair whose ends have node items is drawn. */
  lemma {:induction false} DrawnFirst(es: seq<Edge>, ids: set<NodeId>, k: nat)
    requires k < |es| && FirstOfPair(es, k) && es[k].src in ids && es[k].dst in ids
    ensures EdgeItemOf(es[k]) in DrawnEdges(es, ids)
    decreases |es|
  {
    var front := es[..|es| - 1];
    if k < |front| {
      assert front[k] == es[k] && front[..k] == es[..k];
      DrawnFirst(front, ids, k);
    }
  }

  /** Every edge item comes from the first edge of its pair: first seen wins. */
  lemma {:induction false} DrawnSource(es: seq<Edge>, ids: set<NodeId>, j: nat) returns (k: nat)
    requires j < |DrawnEdges(es, ids)|
    ensures k < |es| && FirstOfPair(es, k) && DrawnEdges(es, ids)[j] == EdgeItemOf(es[k])
    decreases |es|
  {
    var front := es[..|es| - 1];
    if j < |DrawnEdges(front, ids)| {
      k := DrawnSource(front, ids, j);
      assert front[k] == es[k] && front[..k] == es[..k];
    } else {
      k := |es| - 1;
    }
  }

  /** Every pair of linked node items gets an edge item. */
  lemma {:induction false} DrawnCovers(es: seq<Edge>, ids: set<NodeId>, k: nat) returns (j: nat)
    requires k < |es| && es[k].src in ids && es[k].dst in ids
    ensures j < |DrawnEdges(es, ids)| && ItemKey(DrawnEdges(es, ids)[j]) == EdgeKey(es[k])
    decreases k
  {
    var key := EdgeKey(es[k]);
    if key in SeenPairs(es[..k]) {
      SeenPairsMembers(es[..k], key);
      var k' :| 0 <= k' < k && EdgeKey(es[..k][k']) == key;
      assert es[..k][k'] == es[k'];
      PairKeySame(es[k'].src, es[k'].dst, es[k].src, es[k].dst);
      j := DrawnCovers(es, ids, k');
    } else {
      DrawnFirst(es, ids, k);
      var d := DrawnEdges(es, ids);
      j :| 0 <= j < |d| && d[j] == EdgeItemOf(es[k]);
    }
  }

  /** The edge items of `draw_graph` join node items, at most one per pair. */
  lemma DrawnEdgesConsistent(es: seq<Edge>, ids: set<NodeId>)
    ensures EdgesJoin(DrawnEdges(es, ids), ids) && PairsUnique(DrawnEdges(es, ids))
  {
    var d := DrawnEdges(es, ids);
    forall k | 0 <= k < |d| ensures d[k].src in ids && d[k].dst in ids {
      DrawnItem(es, ids, k);
    }
    forall i, j | 0 <= i < j < |d| ensures ItemKey(d[i]) != ItemKey(d[j]) {
      DrawnUnique(es, ids, i, j);
    }
  }

  // ----- Highlighting -----

  /** `succ | pred` plus the node itself. */
  function Neighborhood(g: DiGraph, n: NodeId): set<NodeId> {
    Successors(g, n) + Predecessors(g, n) + {n}
  }

  /** A node is lit exactly when it is the clicked node or linked to it either way. */
  lemma NeighborhoodMembers(g: DiGraph, n: NodeId, m: NodeId)
    ensures m in Neighborhood(g, n) <==> m == n || EdgeLabel(g, n, m).Some? || EdgeLabel(g, m, n).Some?
  {
  }

  function HighlightNode(x: NodeItem, lit: bool): NodeItem {
    x.(opacity := if lit then Opaque else NodeDimmed)
  }

  function HighlightEdge(x: EdgeItem, nb: set<NodeId>): EdgeItem {
    var o := if x.src in nb && x.dst in nb then Opaque else EdgeDimmed;
    x.(opacity := o, labelOpacity := o)
  }

  ghost function HighlightNodes(items: map<NodeId, NodeItem>, nb: set<NodeId>): map<NodeId, NodeItem> {
    map m | m in items :: HighlightNode(items[m], m in nb)
  }

  function HighlightEdges(items: seq<EdgeItem>, nb: set<NodeId>): (r: seq<EdgeItem>)
    ensures |r| == |items| && forall k :: 0 <= k < |items| ==> r[k] == HighlightEdge(items[k], nb)
  {
    seq(|items|, k requires 0 <= k < |items| => HighlightEdge(items[k], nb))
  }

  /** After a click on n, node item m is fully opaque when it is n or linked to n,
      and at a quarter otherwise; nothing else about it changes. */
  lemma ClickedNode(g: DiGraph, items: map<NodeId, NodeItem>, n: NodeId, m: NodeId)
    requires m in items
    ensures var h := HighlightNodes(items, Neighborhood(g, n));
            && m in h
            && (h[m].opacity == Opaque <==> m == n || EdgeLabel(g, n, m).Some? || EdgeLabel(g, m, n).Some?)
            && (h[m].opacity == Opaque || h[m].opacity == NodeDimmed)
            && h[m].(opacity := items[m].opacity) == items[m]
  {
    NeighborhoodMembers(g, n, m);
  }

  /** After a click, an edge item and its label are fully opaque when both ends are
      lit, and at a fifth otherwise; the item still joins the same nodes. */
  lemma ClickedEdge(g: DiGraph, items: seq<EdgeItem>, n: NodeId, k: nat)
    requires k < |items|
    ensures var nb := Neighborhood(g, n);
            var x := HighlightEdges(items, nb)[k];
            && x.opacity == x.labelOpacity
            && (x.opacity == Opaque <==> items[k].src in nb && items[k].dst in nb)
            && (x.opacity == Opaque || x.opacity == EdgeDimmed)
            && x.(opacity := items[k].opacity, labelOpacity := items[k].labelOpacity) == items[k]
  {
  }

  /** Clicking the same node again changes nothing. */
  lemma HighlightIdempotent(items: map<NodeId, NodeItem>, edges: seq<EdgeItem>, nb: set<NodeId>)
    ensures HighlightNodes(HighlightNodes(items, nb), nb) == HighlightNodes(items, nb)
    ensures HighlightEdges(HighlightEdges(edges, nb), nb) == HighlightEdges(edges, nb)
  {
    var h := HighlightNodes(items, nb);
    assert HighlightNodes(h, nb).Keys == h.Keys;
    forall m | m in h ensures HighlightNodes(h, nb)[m] == h[m] {
    }
  }

  // ----- Moving nodes -----

  /** `apply_positions`: every node item with a position moves there. */
  ghost function Moved(items: map<NodeId, NodeItem>, positions: map<NodeId, Point>): map<NodeId, NodeItem> {
    map m | m in items :: if m in positions then items[m].(pos := positions[m]) else items[m]
  }

  /** The positions of the tree layout (the root must be a node of g). */
  ghost function TreePositions(g: DiGraph, root: NodeId): map<NodeId, Point>
    requires Valid(g) && root in g.attrs
  {
    ToUndirectedClosed(g);
    Placement(TreeRows(ToUndirected(g), root))
  }

  /** After the tree layout every node item sits at its tree position, the root's at the origin. */
  lemma TreeLayoutMoves(g: DiGraph, root: NodeId, items: map<NodeId, NodeItem>, m: NodeId)
    requires Valid(g) && root in g.attrs && m in items && m in g.attrs
    ensures var p := TreePositions(g, root);
            && m in p && Moved(items, p)[m] == items[m].(pos := p[m])
            && (m == root ==> Moved(items, p)[m].pos == (0, 0))
  {
    ToUndirectedIndexed(g);
    TreeLayoutKeys(ToUndirected(g), root, m);
    TreeLayoutRoot(ToUndirected(g), root);
  }

  // ----- The loops of draw_graph, highlight_neighbors and apply_positions -----

  /** The node loop of `draw_graph`. */
  method MakeNodeItems(g: DiGraph, positions: map<NodeId, Point>) returns (items: map<NodeId, NodeItem>)
    requires Valid(g)
    ensures items == DrawnNodes(g, positions)
  {
    items := map[];
    for i := 0 to |g.nodes|
      invariant forall n :: n in items <==> n in g.nodes[..i]
      invariant forall n :: n in items ==> n in g.attrs && items[n] == NodeItemOf(g, positions, n)
    {
      var n := g.nodes[i];
      assert g.nodes[..i + 1] == g.nodes[..i] + [n];
      items := items[n := NodeItemOf(g, positions, n)];
    }
    assert g.nodes[..|g.nodes|] == g.nodes;
    assert items.Keys == DrawnNodes(g, positions).Keys;
  }

  /** The edge loop of `draw_graph`, with `seen_pairs`. */
  method MakeEdgeItems(es: seq<Edge>, ids: set<NodeId>) returns (items: seq<EdgeItem>, seen: set<(NodeId, NodeId)>)
    ensures items == DrawnEdges(es, ids) && seen == SeenPairs(es)
  {
    items, seen := [], {};
    for k := 0 to |es|
      invariant seen == SeenPairs(es[..k])
      invariant items == DrawnEdges(es[..k], ids)
    {
      var e := es[k];
      assert es[..k + 1][..k] == es[..k] && es[..k + 1][k] == e;
      var key := PairKey(e.src, e.dst);
      if key in seen {
        continue;
      }
      seen := seen + {key};
      if e.src !in ids || e.dst !in ids {
        continue;
      }
      items := items + [EdgeItemOf(e)];
    }
    assert es[..|es|] == es;
  }

  /** The node loop of `highlight_neighbors`, over the node items in the order
      `draw_graph` added them. */
  method HighlightNodeItems(order: seq<NodeId>, items0: map<NodeId, NodeItem>, nb: set<NodeId>)
    returns (items: map<NodeId, NodeItem>)
    requires forall m :: m in items0 <==> m in order
    ensures items == HighlightNodes(items0, nb)
  {
    items := items0;
    for i := 0 to |order|
      invariant items.Keys == items0.Keys
      invariant forall m :: m in items ==>
                  items[m] == if m in order[..i] then HighlightNode(items0[m], m in nb) else items0[m]
    {
      var m := order[i];
      assert order[..i + 1] == order[..i] + [m];
      items := items[m := HighlightNode(items[m], m in nb)];
    }
    assert order[..|order|] == order;
    assert items.Keys == HighlightNodes(items0, nb).Keys;
    assert forall m :: m in items ==> items[m] == HighlightNodes(items0, nb)[m];
  }

  /** The edge loop of `highlight_neighbors`. */
  method HighlightEdgeItems(edges0: seq<EdgeItem>, nb: set<NodeId>) returns (edges: seq<EdgeItem>)
    ensures edges == HighlightEdges(edges0, nb)
  {
    edges := edges0;
    for k := 0 to |edges|
      invariant |edges| == |edges0|
      invariant forall j :: 0 <= j < |edges| ==> edges[j] == if j < k then HighlightEdge(edges0[j], nb) else edges0[j]
    {
      edges := edges[k := HighlightEdge(edges[k], nb)];
    }
  }

  /** The loop of `apply_positions`, taken over the node items: each node item
      with a position moves there. */
  method MoveItems(order: seq<NodeId>, items0: map<NodeId, NodeItem>, positions: map<NodeId, Point>)
    returns (items: map<NodeId, NodeItem>)
    requires forall m :: m in items0 <==> m in order
    ensures items == Moved(items0, positions)
  {
    items := items0;
    for i := 0 to |order|
      invariant items.Keys == items0.Keys
      invariant forall m :: m in items ==>
                  items[m] == if m in order[..i] && m in positions then items0[m].(pos := positions[m]) else items0[m]
    {
      var m := order[i];
      assert order[..i + 1] == order[..i] + [m];
      if m in positions {
        items := items[m := items[m].(pos := positions[m])];
      }
    }
    assert order[..|order|] == order;
    assert items.Keys == Moved(items0, positions).Keys;
    assert forall m :: m in items ==> items[m] == Moved(items0, positions)[m];
  }

  /** What the viewer keeps between events: one node item per node of g, and edge
      items that join node items, at most one per unordered pair. */
  ghost predicate Scene(g: DiGraph, nodeItems: map<NodeId, NodeItem>, edgeItems: seq<EdgeItem>) {
    && Valid(g)
    && (forall n :: n in nodeItems <==> n in g.attrs)
    && EdgesJoin(edgeItems, nodeItems.Keys)
    && PairsUnique(edgeItems)
  }

  /** The node items are keyed by the node list of g. */
  lemma SceneOrder(g: DiGraph, nodeItems: map<NodeId, NodeItem>, edgeItems: seq<EdgeItem>)
    requires Scene(g, nodeItems, edgeItems)
    ensures forall m :: m in nodeItems <==> m in g.nodes
  {
  }

  /** `draw_graph` sets up a scene. */
  lemma DrawnScene(g: DiGraph, positions: map<NodeId, Point>)
    requires Valid(g)
    ensures Scene(g, DrawnNodes(g, positions), DrawnEdges(EdgeList(g), g.attrs.Keys))
  {
    var items := DrawnNodes(g, positions);
    assert items.Keys == g.attrs.Keys;
    DrawnEdgesConsistent(EdgeList(g), g.attrs.Keys);
  }

  /** Highlighting keeps every edge item's ends, so it keeps the scene. */
  lemma HighlightKeepsScene(g: DiGraph, nodeItems: map<NodeId, NodeItem>, edgeItems: seq<EdgeItem>, nb: set<NodeId>)
    requires Scene(g, nodeItems, edgeItems)
    ensures Scene(g, HighlightNodes(nodeItems, nb), HighlightEdges(edgeItems, nb))
  {
    var h := HighlightEdges(edgeItems, nb);
    assert HighlightNodes(nodeItems, nb).Keys == nodeItems.Keys;
    assert forall k :: 0 <= k < |h| ==> ItemKey(h[k]) == ItemKey(edgeItems[k]) && h[k].src == edgeItems[k].src && h[k].dst == edgeItems[k].dst;
  }

  /** Moving node items keeps the scene. */
  lemma MoveKeepsScene(g: DiGraph, nodeItems: map<NodeId, NodeItem>, edgeItems: seq<EdgeItem>, positions: map<NodeId, Point>)
    requires Scene(g, nodeItems, edgeItems)
    ensures Scene(g, Moved(nodeItems, positions), edgeItems)
  {
    assert Moved(nodeItems, positions).Keys == nodeItems.Keys;
  }

  /** Dragging one node item keeps the scene. */
  lemma DragKeepsScene(g: DiGraph, nodeItems: map<NodeId, NodeItem>, edgeItems: seq<EdgeItem>, n: NodeId, p: Point)
    requires Scene(g, nodeItems, edgeItems) && n in nodeItems
    ensures Scene(g, nodeItems[n := nodeItems[n].(pos := p)], edgeItems)
  {
    assert nodeItems[n := nodeItems[n].(pos := p)].Keys == nodeItems.Keys;
  }

  /** The items of a scene highlighted for the neighbourhood nb. */
  method HighlightScene(g: DiGraph, nodeItems: map<NodeId, NodeItem>, edgeItems: seq<EdgeItem>, nb: set<NodeId>)
    returns (items: map<NodeId, NodeItem>, edges: seq<EdgeItem>)
    requires Scene(g, nodeItems, edgeItems)
    ensures items == HighlightNodes(nodeItems, nb) && edges == HighlightEdges(edgeItems, nb)
    ensures Scene(g, items, edges)
  {
    SceneOrder(g, nodeItems, edgeItems);
    items := HighlightNodeItems(g.nodes, nodeItems, nb);
    edges := HighlightEdgeItems(edgeItems, nb);
    HighlightKeepsScene(g, nodeItems, edgeItems, nb);
  }

  /** `_compute_tree_layout(root_id)` as the viewer sees it. */
  method TreeLayoutOf(g: DiGraph, root: NodeId) returns (pos: map<NodeId, Point>)
    requires Valid(g) && root in g.attrs
    ensures pos == TreePositions(g, root)
  {
    pos := ComputeTreeLayout(g, root);
  }

  /** `apply_tree_layout` on the state of a viewer: nothing happens unless the root
      is a node of g; otherwise the tree layout is computed and applied. */
  method TreeLayoutStep(g: DiGraph, rootId: Option<NodeId>, layout0: LayoutKind, pos0: map<NodeId, Point>,
                        nodeItems: map<NodeId, NodeItem>, edgeItems: seq<EdgeItem>)
    returns (layout: LayoutKind, pos: map<NodeId, Point>, items: map<NodeId, NodeItem>)
    requires Scene(g, nodeItems, edgeItems)
    ensures HasRoot(g, rootId) ==>
              layout == Tree && pos == TreePositions(g, rootId.value) && items == Moved(nodeItems, pos)
    ensures !HasRoot(g, rootId) ==> layout == layout0 && pos == pos0 && items == nodeItems
    ensures Scene(g, items, edgeItems)
  {
    if HasRoot(g, rootId) {
      layout := Tree;
      pos := TreeLayoutOf(g, rootId.value);
      SceneOrder(g, nodeItems, edgeItems);
      items := MoveItems(g.nodes, nodeItems, pos);
      MoveKeepsScene(g, nodeItems, edgeItems, pos);
    } else {
      layout, pos, items := layout0, pos0, nodeItems;
    }
  }

  // ----- The viewer -----

  datatype LayoutKind = Tree | Force

  /** `root_id is not None and root_id in G.nodes`. */
  predicate HasRoot(g: DiGraph, rootId: Option<NodeId>) {
    rootId.Some? && rootId.value in g.attrs
  }

  /** The node items of `draw_graph`, keyed by node. */
  ghost function DrawnNodes(g: DiGraph, positions: map<NodeId, Point>): map<NodeId, NodeItem> {
    map n | n in g.attrs :: NodeItemOf(g, positions, n)
  }

  /** The scene of one `GraphViewer`. The force layout, which is randomised, is a
      parameter of the operations that use it; `notified` records the entry
      callback's calls. */
  class GraphViewer {
    const graph: DiGraph
    const rootId: Option<NodeId>
    const hasCallback: bool
    var currentLayout: LayoutKind
    var positions: map<NodeId, Point>
    var nodeItems: map<NodeId, NodeItem>
    var edgeItems: seq<EdgeItem>
    var notified: seq<NodeId>

    /** One node item per node; edge items join node items, at most one per pair. */
    ghost predicate Consistent()
      reads this
    {
      Scene(graph, nodeItems, edgeItems)
    }

    /** `GraphViewer(G, root_id, ...)`: the tree layout when the root is a node of G,
        the force layout otherwise, then `draw_graph`. */
    constructor(g: DiGraph, rootId: Option<NodeId>, force: map<NodeId, Point>, hasCallback: bool)
      requires Valid(g)
      ensures graph == g && this.rootId == rootId && this.hasCallback == hasCallback
      ensures HasRoot(g, rootId) ==> currentLayout == Tree && positions == TreePositions(g, rootId.value)
      ensures !HasRoot(g, rootId) ==> currentLayout == Force && positions == force
      ensures nodeItems == DrawnNodes(g, positions)
      ensures edgeItems == DrawnEdges(EdgeList(g), g.attrs.Keys)
      ensures notified == [] && Consistent()
    {
      graph, this.rootId, this.hasCallback := g, rootId, hasCallback;
      if HasRoot(g, rootId) {
        currentLayout := Tree;
        var tree := TreeLayoutOf(g, rootId.value);
        positions := tree;
      } else {
        currentLayout := Force;
        positions := force;
      }
      nodeItems, edgeItems, notified := map[], [], [];
      new;
      DrawGraph();
    }

    /** `draw_graph`: one node item per node, then one edge item per first edge of
        each unordered pair whose ends have node items. */
    method DrawGraph()
      requires Valid(graph)
      modifies this`nodeItems, this`edgeItems
      ensures nodeItems == DrawnNodes(graph, positions)
      ensures edgeItems == DrawnEdges(EdgeList(graph), graph.attrs.Keys)
      ensures Consistent()
    {
      var items := MakeNodeItems(graph, positions);
      assert items.Keys == graph.attrs.Keys;
      var edges, _ := MakeEdgeItems(EdgeList(graph), items.Keys);
      DrawnScene(graph, positions);
      nodeItems, edgeItems := items, edges;
    }

    /** `highlight_neighbors(node_id)`; G must hold the node. */
    method HighlightNeighbors(n: NodeId)
      requires Consistent() && n in graph.attrs
      modifies this`nodeItems, this`edgeItems
      ensures nodeItems == HighlightNodes(old(nodeItems), Neighborhood(graph, n))
      ensures edgeItems == HighlightEdges(old(edgeItems), Neighborhood(graph, n))
      ensures Consistent()
    {
      var items, edges := HighlightScene(graph, nodeItems, edgeItems, Neighborhood(graph, n));
      nodeItems, edgeItems := items, edges;
    }

    /** `on_node_clicked(node_id)`: highlight, then notify the host when it asked to be. */
    method OnNodeClicked(n: NodeId)
      requires Consistent() && n in graph.attrs
      modifies this`nodeItems, this`edgeItems, this`notified
      ensures nodeItems == HighlightNodes(old(nodeItems), Neighborhood(graph, n))
      ensures edgeItems == HighlightEdges(old(edgeItems), Neighborhood(graph, n))
      ensures notified == if hasCallback then old(notified) + [n] else old(notified)
      ensures Consistent()
    {
      HighlightNeighbors(n);
      if hasCallback {
        notified := notified + [n];
      }
    }

    /** `apply_positions`. */
    method ApplyPositions()
      requires Consistent()
      modifies this`nodeItems
      ensures nodeItems == Moved(old(nodeItems), positions)
      ensures Consistent()
    {
      SceneOrder(graph, nodeItems, edgeItems);
      var items := MoveItems(graph.nodes, nodeItems, positions);
      MoveKeepsScene(graph, nodeItems, edgeItems, positions);
      nodeItems := items;
    }

    /** `apply_tree_layout`: nothing happens unless the root is a node of G. */
    method ApplyTreeLayout()
      requires Consistent()
      modifies this`currentLayout, this`positions, this`nodeItems
      ensures HasRoot(graph, rootId) ==>
                && currentLayout == Tree && positions == TreePositions(graph, rootId.value)
                && nodeItems == Moved(old(nodeItems), positions)
      ensures !HasRoot(graph, rootId) ==>
                currentLayout == old(currentLayout) && positions == old(positions) && nodeItems == old(nodeItems)
      ensures Consistent()
    {
      var layout, tree, items := TreeLayoutStep(graph, rootId, currentLayout, positions, nodeItems, edgeItems);
      currentLayout, positions, nodeItems := layout, tree, items;
    }

    /** `apply_force_layout`, with the layout's result as a parameter. */
    method ApplyForceLayout(force: map<NodeId, Point>)
      requires Consistent()
      modifies this`currentLayout, this`positions, this`nodeItems
      ensures currentLayout == Force && positions == force
      ensures nodeItems == Moved(old(nodeItems), force)
      ensures Consistent()
    {
      currentLayout := Force;
      positions := force;
      ApplyPositions();
    }

    /** A node item dragged to p. `positions` is not updated, so the next layout
        button moves the node back. */
    method MoveNode(n: NodeId, p: Point)
      requires Consistent() && n in nodeItems
      modifies this`nodeItems
      ensures nodeItems == old(nodeItems)[n := old(nodeItems)[n].(pos := p)]
      ensures Consistent()
    {
      DragKeepsScene(graph, nodeItems, edgeItems, n, p);
      nodeItems := nodeItems[n := nodeItems[n].(pos := p)];
    }
  }
}
