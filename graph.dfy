/** graph.py: the directed relationship graph that `build_graph` derives from
    the store's rows, and the parts of networkx's `DiGraph` it relies on. */
module Graph {
  import opened Wrappers
  import opened Text
  import opened Seqs
  import opened Models

  type NodeId = int

  datatype NodeAttr = NodeAttr(labelText: string, category: string)

  datatype Edge = Edge(src: NodeId, dst: NodeId, labelText: string)

  /** A networkx `DiGraph`: the nodes in insertion order with their attribute
      dicts, and the edges in insertion order, at most one per ordered pair. */
  datatype DiGraph = DiGraph(nodes: seq<NodeId>, attrs: map<NodeId, NodeAttr>, edges: seq<Edge>)

  function Pairs(es: seq<Edge>): (r: seq<(NodeId, NodeId)>)
    ensures |r| == |es| && forall i :: 0 <= i < |es| ==> r[i] == (es[i].src, es[i].dst)
  {
    seq(|es|, i requires 0 <= i < |es| => (es[i].src, es[i].dst))
  }

  ghost predicate Valid(g: DiGraph) {
    && Distinct(g.nodes)
    && (forall n :: n in g.attrs <==> n in g.nodes)
    && Distinct(Pairs(g.edges))
    && (forall e :: e in g.edges ==> e.src in g.attrs && e.dst in g.attrs)
  }

  /** A fresh `nx.DiGraph()`. */
  const EmptyGraph := DiGraph([], map[], [])

  /** `G.add_node(n, **attrs)`: a new node goes last; a node already present
      keeps its place and takes the new attributes. */
  function AddNode(g: DiGraph, n: NodeId, a: NodeAttr): (r: DiGraph)
    requires Valid(g)
    ensures Valid(r)
    ensures r.edges == g.edges && r.attrs == g.attrs[n := a]
    ensures r.nodes == if n in g.attrs then g.nodes else g.nodes + [n]
  {
    DiGraph(if n in g.attrs then g.nodes else g.nodes + [n], g.attrs[n := a], g.edges)
  }

  /** The index of the edge a->b, or |es| when there is none. */
  function FindEdge(es: seq<Edge>, a: NodeId, b: NodeId): (k: nat)
    ensures k <= |es|
    ensures k < |es| ==> es[k].src == a && es[k].dst == b
    ensures forall j :: 0 <= j < k ==> !(es[j].src == a && es[j].dst == b)
  {
    if |es| == 0 then 0
    else if es[0].src == a && es[0].dst == b then 0
    else 1 + FindEdge(es[1..], a, b)
  }

  /** The label of the edge a->b, if the graph has one. */
  function EdgeLabel(g: DiGraph, a: NodeId, b: NodeId): (r: Option<string>)
    ensures r.Some? <==> exists e :: e in g.edges && e.src == a && e.dst == b
  {
    var k := FindEdge(g.edges, a, b);
    if k < |g.edges| then Some(g.edges[k].labelText) else None
  }

  lemma EdgeIndexUnique(g: DiGraph, k: nat)
    requires Valid(g) && k < |g.edges|
    ensures FindEdge(g.edges, g.edges[k].src, g.edges[k].dst) == k
  {
    var j := FindEdge(g.edges, g.edges[k].src, g.edges[k].dst);
    assert j <= k;
    if j < k {
      assert false;
    }
  }

  /** `G.add_edge(a, b, label=...)` between nodes already present: a new pair
      goes last; an existing pair keeps its place and takes the new label. */
  function AddEdge(g: DiGraph, a: NodeId, b: NodeId, text: string): (r: DiGraph)
    requires Valid(g) && a in g.attrs && b in g.attrs
    ensures Valid(r)
    ensures r.nodes == g.nodes && r.attrs == g.attrs
  {
    var k := FindEdge(g.edges, a, b);
    if k < |g.edges| then
      assert Pairs(g.edges[k := Edge(a, b, text)]) == Pairs(g.edges);
      g.(edges := g.edges[k := Edge(a, b, text)])
    else
      assert Pairs(g.edges + [Edge(a, b, text)]) == Pairs(g.edges) + [(a, b)];
      assert (a, b) !in Pairs(g.edges);
      g.(edges := g.edges + [Edge(a, b, text)])
  }

  /** Adding an edge appends its pair exactly when the pair is new. */
  lemma AddEdgePairs(g: DiGraph, a: NodeId, b: NodeId, text: string)
    requires Valid(g) && a in g.attrs && b in g.attrs
    ensures Pairs(AddEdge(g, a, b, text).edges) ==
            if (a, b) in Pairs(g.edges) then Pairs(g.edges) else Pairs(g.edges) + [(a, b)]
  {
    var k := FindEdge(g.edges, a, b);
    if k < |g.edges| {
      assert Pairs(g.edges)[k] == (a, b);
      assert Pairs(g.edges[k := Edge(a, b, text)]) == Pairs(g.edges);
    } else {
      assert Pairs(g.edges + [Edge(a, b, text)]) == Pairs(g.edges) + [(a, b)];
    }
  }

  /** Adding an edge relabels exactly that pair. */
  lemma AddEdgeLabel(g: DiGraph, a: NodeId, b: NodeId, text: string, x: NodeId, y: NodeId)
    requires Valid(g) && a in g.attrs && b in g.attrs
    ensures EdgeLabel(AddEdge(g, a, b, text), x, y) == if (x, y) == (a, b) then Some(text) else EdgeLabel(g, x, y)
  {
    var r := AddEdge(g, a, b, text);
    var k := FindEdge(g.edges, a, b);
    assert r.edges[k] == Edge(a, b, text);
    assert forall m :: 0 <= m < |g.edges| && m != k ==> r.edges[m] == g.edges[m];
    if (x, y) == (a, b) {
      EdgeIndexUnique(r, k);
    } else {
      var i := FindEdge(g.edges, x, y);
      if i < |g.edges| {
        assert r.edges[i] == g.edges[i];
        EdgeIndexUnique(r, i);
      } else {
        var j := FindEdge(r.edges, x, y);
        if j < |r.edges| {
          assert false;
        }
      }
    }
  }

  /** A node's attributes as build_graph derives them: the title, or
      "ID {id}" when the title is NULL or empty; the category, or "default". */
  function NodeAttrOf(e: EntryRow): (a: NodeAttr)
    ensures a.labelText != "" && a.category != ""
    ensures a.labelText == "ID " + IntToString(e.id) || e.title == Some(a.labelText)
    ensures (e.title == None || e.title == Some("")) ==> a.labelText == "ID " + IntToString(e.id)
    ensures e.title.Some? && e.title.value != "" ==> a.labelText == e.title.value
    ensures (e.category == None || e.category == Some("")) ==> a.category == "default"
    ensures e.category.Some? && e.category.value != "" ==> a.category == e.category.value
  {
    NodeAttr(Or(e.title, "ID " + IntToString(e.id)), Or(e.category, "default"))
  }

  /** An edge's label: the relationship type, or "relationship" when it is NULL or empty. */
  function EdgeLabelOf(r: RelationshipRow): (l: string)
    ensures l != ""
    ensures l == "relationship" || r.relType == Some(l)
    ensures (r.relType == None || r.relType == Some("")) ==> l == "relationship"
    ensures r.relType.Some? && r.relType.value != "" ==> l == r.relType.value
  {
    Or(r.relType, "relationship")
  }

  /** Two entries without titles get different labels exactly when their ids differ. */
  lemma FallbackLabelsDistinct(e1: EntryRow, e2: EntryRow)
    requires e1.title in {None, Some("")} && e2.title in {None, Some("")}
    ensures NodeAttrOf(e1).labelText == NodeAttrOf(e2).labelText <==> e1.id == e2.id
  {
    if NodeAttrOf(e1).labelText == NodeAttrOf(e2).labelText {
      var n1, n2 := IntToString(e1.id), IntToString(e2.id);
      assert ("ID " + n1)[3..] == n1 && ("ID " + n2)[3..] == n2;
      IntToStringInjective(e1.id, e2.id);
    }
  }

  function Ids(es: seq<EntryRow>): (r: seq<NodeId>)
    ensures |r| == |es| && forall i :: 0 <= i < |es| ==> r[i] == es[i].id
  {
    seq(|es|, i requires 0 <= i < |es| => es[i].id)
  }

  /** The endpoint pairs of the relationships whose endpoints are both in `ids`, in order. */
  function KeptPairs(rs: seq<RelationshipRow>, ids: set<NodeId>): (r: seq<(NodeId, NodeId)>)
    ensures forall p :: p in r <==> exists i :: 0 <= i < |rs| && p == (rs[i].entryA, rs[i].entryB)
                                                 && rs[i].entryA in ids && rs[i].entryB in ids
  {
    if |rs| == 0 then []
    else
      var last := rs[|rs| - 1];
      var pre := KeptPairs(rs[..|rs| - 1], ids);
      var r := if last.entryA in ids && last.entryB in ids then pre + [(last.entryA, last.entryB)] else pre;
      assert forall i :: 0 <= i < |rs| - 1 ==> rs[..|rs| - 1][i] == rs[i];
      r
  }

  /** No later entry row carries the same id as row i. */
  ghost predicate LastWithId(es: seq<EntryRow>, i: nat)
    requires i < |es|
  {
    forall j :: i < j < |es| ==> es[j].id != es[i].id
  }

  /** No later relationship row connects the same ordered pair as row i. */
  ghost predicate LastWithPair(rs: seq<RelationshipRow>, i: nat)
    requires i < |rs|
  {
    forall j :: i < j < |rs| ==> (rs[j].entryA, rs[j].entryB) != (rs[i].entryA, rs[i].entryB)
  }

  /** One step of the node loop keeps the loop's description of the graph
      (for any attribute function, so that the proof does not see its strings). */
  lemma AddNodeStep(entries: seq<EntryRow>, i: nat, g: DiGraph, attr: EntryRow -> NodeAttr)
    requires i < |entries| && Valid(g)
    requires g.nodes == Dedup(Ids(entries[..i]))
    requires forall k :: 0 <= k < i && LastWithId(entries[..i], k) ==>
               g.attrs[entries[k].id] == attr(entries[k])
    ensures AddNode(g, entries[i].id, attr(entries[i])).nodes == Dedup(Ids(entries[..i + 1]))
    ensures forall k :: 0 <= k < i + 1 && LastWithId(entries[..i + 1], k) ==>
               AddNode(g, entries[i].id, attr(entries[i])).attrs[entries[k].id] == attr(entries[k])
  {
    var e := entries[i];
    var r := AddNode(g, e.id, attr(e));
    var ids := Ids(entries[..i + 1]);
    assert ids[..|ids| - 1] == Ids(entries[..i]);
    assert ids[|ids| - 1] == e.id;
    forall k | 0 <= k < i + 1 && LastWithId(entries[..i + 1], k)
      ensures r.attrs[entries[k].id] == attr(entries[k])
    {
      if k < i {
        assert entries[..i + 1][i] == e;
        assert e.id != entries[k].id;
        assert LastWithId(entries[..i], k) by {
          forall j | k < j < i ensures entries[..i][j].id != entries[..i][k].id {
            assert entries[..i + 1][j] == entries[j];
          }
        }
      }
    }
  }

  /** The edge added for the next relationship row, if both its endpoints are nodes. */
  function EdgeStep(g: DiGraph, x: RelationshipRow, text: string): (r: DiGraph)
    requires Valid(g)
    ensures Valid(r) && r.nodes == g.nodes && r.attrs == g.attrs
  {
    if x.entryA in g.attrs && x.entryB in g.attrs then AddEdge(g, x.entryA, x.entryB, text) else g
  }

  /** One step of the edge loop keeps the edges the deduplicated kept pairs. */
  lemma AddEdgeStepPairs(rs: seq<RelationshipRow>, j: nat, ids: set<NodeId>, g: DiGraph, text: string)
    requires j < |rs| && Valid(g)
    requires forall n :: n in g.attrs <==> n in ids
    requires Pairs(g.edges) == Dedup(KeptPairs(rs[..j], ids))
    ensures Pairs(EdgeStep(g, rs[j], text).edges) == Dedup(KeptPairs(rs[..j + 1], ids))
  {
    var x := rs[j];
    var kept := x.entryA in g.attrs && x.entryB in g.attrs;
    assert rs[..j + 1][..j] == rs[..j];
    assert rs[..j + 1][j] == x;
    var pre := KeptPairs(rs[..j], ids);
    assert KeptPairs(rs[..j + 1], ids) == if kept then pre + [(x.entryA, x.entryB)] else pre;
    if kept {
      AddEdgePairs(g, x.entryA, x.entryB, text);
      assert (pre + [(x.entryA, x.entryB)])[..|pre|] == pre;
    }
  }

  /** One step of the edge loop keeps every kept pair labelled by its last relationship row. */
  lemma AddEdgeStepLabels(rs: seq<RelationshipRow>, j: nat, g: DiGraph, labelOf: RelationshipRow -> string)
    requires j < |rs| && Valid(g)
    requires forall k :: (0 <= k < j && LastWithPair(rs[..j], k)
                         && rs[k].entryA in g.attrs && rs[k].entryB in g.attrs) ==>
               EdgeLabel(g, rs[k].entryA, rs[k].entryB) == Some(labelOf(rs[k]))
    ensures var r := EdgeStep(g, rs[j], labelOf(rs[j]));
            forall k :: (0 <= k < j + 1 && LastWithPair(rs[..j + 1], k)
                         && rs[k].entryA in r.attrs && rs[k].entryB in r.attrs) ==>
              EdgeLabel(r, rs[k].entryA, rs[k].entryB) == Some(labelOf(rs[k]))
  {
    var x := rs[j];
    var kept := x.entryA in g.attrs && x.entryB in g.attrs;
    var r := EdgeStep(g, x, labelOf(x));
    forall k | 0 <= k < j + 1 && LastWithPair(rs[..j + 1], k) && rs[k].entryA in r.attrs && rs[k].entryB in r.attrs
      ensures EdgeLabel(r, rs[k].entryA, rs[k].entryB) == Some(labelOf(rs[k]))
    {
      if kept {
        AddEdgeLabel(g, x.entryA, x.entryB, labelOf(x), rs[k].entryA, rs[k].entryB);
      }
      if k < j {
        assert rs[..j + 1][j] == x;
        assert (rs[k].entryA, rs[k].entryB) != (x.entryA, x.entryB);
        assert LastWithPair(rs[..j], k) by {
          forall m | k < m < j ensures (rs[..j][m].entryA, rs[..j][m].entryB) != (rs[..j][k].entryA, rs[..j][k].entryB) {
            assert rs[..j + 1][m] == rs[m];
          }
        }
      }
    }
  }

  /** The node loop of `build_graph`: one `add_node` per entry row, in order. */
  method AddEntryNodes(entries: seq<EntryRow>) returns (g: DiGraph)
    ensures Valid(g) && |g.edges| == 0
    ensures g.nodes == Dedup(Ids(entries))
    ensures forall i :: 0 <= i < |entries| && LastWithId(entries, i) ==>
              g.attrs[entries[i].id] == NodeAttrOf(entries[i])
  {
    g := EmptyGraph;
    var i := 0;
    while i < |entries|
      invariant 0 <= i <= |entries|
      invariant Valid(g) && |g.edges| == 0
      invariant g.nodes == Dedup(Ids(entries[..i]))
      invariant forall k :: 0 <= k < i && LastWithId(entries[..i], k) ==>
                  g.attrs[entries[k].id] == NodeAttrOf(entries[k])
    {
      AddNodeStep(entries, i, g, NodeAttrOf);
      g := AddNode(g, entries[i].id, NodeAttrOf(entries[i]));
      i := i + 1;
    }
    assert entries[..i] == entries;
  }

  /** The nodes the node loop leaves are the ids of the entry rows. */
  lemma EntryNodeKeys(entries: seq<EntryRow>, g: DiGraph)
    requires Valid(g) && g.nodes == Dedup(Ids(entries))
    ensures forall n :: n in g.attrs <==> n in set e | e in entries :: e.id
  {
    forall n | n in set e | e in entries :: e.id
      ensures n in g.attrs
    {
      var e :| e in entries && e.id == n;
      var k :| 0 <= k < |entries| && entries[k] == e;
      assert Ids(entries)[k] == n;
    }
  }

  /** The edge loop of `build_graph`: one guarded `add_edge` per relationship row, in order. */
  method AddRelationshipEdges(g0: DiGraph, relationships: seq<RelationshipRow>, ghost ids: set<NodeId>) returns (g: DiGraph)
    requires Valid(g0) && |g0.edges| == 0
    requires forall n :: n in g0.attrs <==> n in ids
    ensures Valid(g) && g.nodes == g0.nodes && g.attrs == g0.attrs
    ensures Pairs(g.edges) == Dedup(KeptPairs(relationships, ids))
    ensures forall i :: (0 <= i < |relationships| && LastWithPair(relationships, i)
                         && relationships[i].entryA in g.attrs && relationships[i].entryB in g.attrs) ==>
              EdgeLabel(g, relationships[i].entryA, relationships[i].entryB) == Some(EdgeLabelOf(relationships[i]))
  {
    g := g0;
    var j := 0;
    assert Pairs(g.edges) == [];
    while j < |relationships|
      invariant 0 <= j <= |relationships|
      invariant Valid(g) && g.nodes == g0.nodes && g.attrs == g0.attrs
      invariant Pairs(g.edges) == Dedup(KeptPairs(relationships[..j], ids))
      invariant forall k :: (0 <= k < j && LastWithPair(relationships[..j], k)
                             && relationships[k].entryA in g.attrs && relationships[k].entryB in g.attrs) ==>
                  EdgeLabel(g, relationships[k].entryA, relationships[k].entryB) == Some(EdgeLabelOf(relationships[k]))
    {
      var r := relationships[j];
      AddEdgeStepPairs(relationships, j, ids, g, EdgeLabelOf(r));
      AddEdgeStepLabels(relationships, j, g, EdgeLabelOf);
      g := EdgeStep(g, r, EdgeLabelOf(r));
      j := j + 1;
    }
    assert relationships[..j] == relationships;
  }

  /** `build_graph(entries, relationships)`. One node per distinct entry id in
      first-seen order, carrying the attributes of the last row with that id;
      one edge per distinct ordered pair among the relationships whose two
      endpoints are entries, carrying the label of the last such relationship.
      Relationships with a missing endpoint are dropped, so no edge dangles. */
  method BuildGraph(entries: seq<EntryRow>, relationships: seq<RelationshipRow>) returns (g: DiGraph)
    ensures Valid(g)
    ensures g.nodes == Dedup(Ids(entries))
    ensures forall n :: n in g.attrs <==> exists e :: e in entries && e.id == n
    ensures forall i :: 0 <= i < |entries| && LastWithId(entries, i) ==>
              g.attrs[entries[i].id] == NodeAttrOf(entries[i])
    ensures Pairs(g.edges) == Dedup(KeptPairs(relationships, set e | e in entries :: e.id))
    ensures forall i :: (0 <= i < |relationships| && LastWithPair(relationships, i)
                         && relationships[i].entryA in g.attrs && relationships[i].entryB in g.attrs) ==>
              EdgeLabel(g, relationships[i].entryA, relationships[i].entryB) == Some(EdgeLabelOf(relationships[i]))
    ensures forall e :: e in g.edges ==> e.src in g.nodes && e.dst in g.nodes
  {
    var nodes := AddEntryNodes(entries);
    EntryNodeKeys(entries, nodes);
    g := AddRelationshipEdges(nodes, relationships, set e | e in entries :: e.id);
  }

  // ---------------------------------------------------------------------------
  // The views of a DiGraph that the viewer reads.

  /** The edges leaving n, in insertion order (networkx's successor order). */
  function OutEdges(es: seq<Edge>, n: NodeId): (r: seq<Edge>)
    ensures forall e :: e in r <==> e in es && e.src == n
  {
    if |es| == 0 then []
    else OutEdges(es[..|es| - 1], n) + (if es[|es| - 1].src == n then [es[|es| - 1]] else [])
  }

  /** The edges entering n, in insertion order. */
  function InEdges(es: seq<Edge>, n: NodeId): (r: seq<Edge>)
    ensures forall e :: e in r <==> e in es && e.dst == n
  {
    if |es| == 0 then []
    else InEdges(es[..|es| - 1], n) + (if es[|es| - 1].dst == n then [es[|es| - 1]] else [])
  }

  function EdgesBySource(ns: seq<NodeId>, es: seq<Edge>): (r: seq<Edge>)
    ensures forall e :: e in r <==> e in es && e.src in ns
  {
    if |ns| == 0 then []
    else
      var r := EdgesBySource(ns[..|ns| - 1], es) + OutEdges(es, ns[|ns| - 1]);
      assert forall x :: x in ns <==> x in ns[..|ns| - 1] || x == ns[|ns| - 1] by {
        assert ns == ns[..|ns| - 1] + [ns[|ns| - 1]];
      }
      r
  }

  /** `G.edges`: grouped by source in node order, each source's edges in the
      order they were first added. */
  function EdgeList(g: DiGraph): (r: seq<Edge>)
    ensures Valid(g) ==> forall e :: e in r <==> e in g.edges
  {
    EdgesBySource(g.nodes, g.edges)
  }

  /** `set(G.successors(n))`. */
  function Successors(g: DiGraph, n: NodeId): (r: set<NodeId>)
    ensures forall m :: m in r <==> EdgeLabel(g, n, m).Some?
  {
    set e | e in g.edges && e.src == n :: e.dst
  }

  /** `set(G.predecessors(n))`. */
  function Predecessors(g: DiGraph, n: NodeId): (r: set<NodeId>)
    ensures forall m :: m in r <==> EdgeLabel(g, m, n).Some?
  {
    set e | e in g.edges && e.dst == n :: e.src
  }

  /** `G.degree(n)` of a DiGraph: out-degree plus in-degree, so a self-loop counts twice. */
  function Degree(g: DiGraph, n: NodeId): nat {
    |OutEdges(g.edges, n)| + |InEdges(g.edges, n)|
  }
}
