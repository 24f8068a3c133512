# Writer memory: a verified model of the store, search, editor and relationship map

The modelled program is a desktop "writer memory" for worldbuilding. It keeps
entries (characters, locations, items, events) and typed relationships between
them in an SQLite file. The editor window lists the entries and saves the five
text fields of the current one, autosaving as you switch between them. It has a
fuzzy search. A dialog lists the relationships of one entry and lets you add and
delete them. From that dialog a relationship map opens: a directed graph built
from the store, drawn with a rooted tree layout or a force layout, whose nodes
can be dragged and clicked.

The Dafny modules follow the program's files:

| module | file | form |
|---|---|---|
| `Models` | models.py | datatypes for entries and relationships and for stored rows (NULL columns as `None`); `__repr__` with a parser that inverts it |
| `Store` | database.py | class `Database`: the two tables as sequences of rows in id order, plus the AUTOINCREMENT counters |
| `Search` | search.py | functions: the searchable text of each entry and the blank-query guard; the rapidfuzz ranking is a parameter |
| `Graph` | graph.py | the `DiGraph` value networkx builds, and `build_graph` as loops over the rows |
| `TreeLayout`, `TreePlacement`, `StableSort` | graph_viewer.py `compute_tree_layout` | the breadth-first search with its FIFO queue, proved against a level-by-level specification; unreached rows; the stable degree sort; row placement |
| `Viewer` | graph_viewer.py `GraphViewer` | class `GraphViewer`: the scene of node items and edge items, changed by drawing, layout buttons, clicks and drags |
| `RelationshipDialog` | relationship_ui.py | class `RelationshipEditor` over a `Database` |
| `Session` | main.py | class `MainWindow` over a `Database`: current entry, field texts, entry list and the loading flag |
| `Text`, `Seqs`, `Wrappers` | — | Python's `str(int)` and `str.strip()`, sequence lemmas, `Option` |

Facts about the code that the model keeps as written:

- `Database.delete_entry` does not cascade to the entry's relationships.
  `delete_entry_and_relationships`, which the main window's `delete_entry` calls (main.py:244), does. Both are modelled.
- `add_relationship` does not check that its endpoints are stored entries, so the
  model stores any pair. `build_graph` drops the edges whose endpoints are missing.
- `draw_graph` sizes nodes by `G.degree` of the directed graph, so a pair linked both
  ways counts twice and a self-loop counts twice. The tree layout sorts its rows by
  the degree of the undirected view. The model uses each degree where the code uses it.
- `apply_tree_layout` without a valid root does nothing. Only the viewer's constructor
  falls back to the force layout.

## Model

| member | source | states |
|---|---|---|
| `Models.Or` | graph.py:21-22 | Python's `value or fallback` on a nullable column: NULL and "" give the fallback, and any other value is returned as it is |
| `Models.EntryDefaults` | models.py:1-19 | an `Entry` built from an id and a title has empty description, category, tags and synonyms; every `Relationship` built without a type has the type "" |
| `Models.EntryRepr` | models.py:10-11 | the repr of an entry starts with "<Entry " and ends with ">" |
| `Models.EntryReprRoundTrip` | models.py:10-11 | the id and the title can be read back out of the repr of every entry, whatever its title holds |
| `Models.RelationshipRepr` | models.py:21-22 | the repr of a relationship starts with "<Relationship " and ends with ">" |
| `Models.RelationshipReprRoundTrip` | models.py:21-22 | id, both endpoints and the type can be read back out of the repr of every relationship, even when the type text contains ")-> " or digits, and for negative ids |
| `Text.IntToStringShape` | graph.py:21 | `str(i)` starts with '-' exactly for negative i, and the rest is decimal digits |
| `Text.IntToStringInjective` | graph.py:21 | different integers have different `str` texts |
| `Text.StripBlank` | search.py:40 | `not text.strip()` holds exactly when every character is white space |
| `Text.StripSlice` | relationship_ui.py:115 | `strip()` gives the slice between the leading and the trailing white space, both of which are all white space |
| `Text.StripTrimmed` | relationship_ui.py:115 | a stripped text is empty or neither starts nor ends with white space |
| `Text.StripIdempotent` | search.py:40 | stripping the query again, as `fuzzy_search` does with the query `run_search` has already stripped, changes nothing |
| `Graph.NodeAttrOf` | graph.py:20-24 | a node's label is the title when that is non-empty, and "ID {id}" when the title is NULL or empty; the category is the stored one when that is non-empty, and "default" when it is NULL or empty |
| `Graph.EdgeLabelOf` | graph.py:30 | an edge's label is the relationship type when that is non-empty, and "relationship" when the type is NULL or empty |
| `Graph.FallbackLabelsDistinct` | graph.py:21 | two untitled entries get the same label exactly when they have the same id |
| `Graph.AddNode` | graph.py:24 | `add_node` keeps the graph well formed; a new node goes last; a node already present keeps its place and takes the new attributes |
| `Graph.AddEdge` | graph.py:33 | `add_edge` between present nodes keeps the graph well formed and leaves the nodes alone |
| `Graph.AddEdgePairs` | graph.py:33 | `add_edge` appends its pair exactly when the pair is new; a repeated pair keeps its place |
| `Graph.AddEdgeLabel` | graph.py:33 | `add_edge` relabels exactly its own pair; every other pair keeps its label or stays absent |
| `Graph.EdgeLabel` | graph.py:33 | a pair has a label exactly when the graph has an edge for it |
| `Graph.KeptPairs` | graph.py:32 | a pair is kept exactly when some relationship row connects it and both its endpoints are entries |
| `Graph.AddEntryNodes` | graph.py:18-24 | the node loop gives one node per distinct entry id, in first-seen order, with the attributes of the last row carrying that id |
| `Graph.EntryNodeKeys` | graph.py:19-24 | the nodes are exactly the ids of the entry rows |
| `Graph.AddRelationshipEdges` | graph.py:26-33 | the edge loop gives one edge per distinct ordered pair of kept relationships, in first-seen order, labelled by the last such relationship; the nodes are unchanged |
| `Graph.BuildGraph` | graph.py:5-35 | the graph of the store: nodes are exactly the entry ids; the attributes and labels are those of the last rows; no edge has a missing endpoint |
| `Graph.OutEdges` | graph_viewer.py:334 | the edges leaving a node are exactly those of the graph with that source |
| `Graph.InEdges` | graph_viewer.py:334 | the edges entering a node are exactly those of the graph with that target |
| `Graph.EdgesBySource` | graph_viewer.py:362 | grouping the edges by source over a node list keeps exactly the edges whose source is listed |
| `Graph.EdgeList` | graph_viewer.py:362 | `G.edges` lists exactly the edges of a well-formed graph |
| `Graph.Successors` | graph_viewer.py:420 | m is a successor of n exactly when the graph has an edge n->m |
| `Graph.Predecessors` | graph_viewer.py:421 | m is a predecessor of n exactly when the graph has an edge m->n |
| `Store.KeepIncreasing` | database.py:20 | deleting rows keeps the ids in increasing order |
| `Store.IncreasingAppend` | database.py:20 | a row appended with an id above every stored id keeps the ids increasing |
| `Store.FindEntry` | database.py:56-59 | `get_entry` finds a stored row with that id, and finds nothing exactly when no row has the id |
| `Store.FindEntryAt` | database.py:56-59 | with increasing ids, the row found for an id is the one row carrying it |
| `Store.FindEntryMember` | database.py:56-59 | with increasing ids, every stored row is what a lookup of its id finds |
| `Store.UpdateRows` | database.py:66-73 | `update_entry` keeps the number of rows and every row's id |
| `Store.UpdateThenFind` | database.py:66-73 | after `update_entry`, the id finds the new fields when it was stored and nothing otherwise; every other id finds what it found before |
| `Store.UpdateFindsAt` | database.py:66-73 | a lookup after `update_entry` finds the new fields for the updated id, the old row for any other stored id, and nothing where it found nothing |
| `Store.UpdateIncreasing` | database.py:66-73 | `update_entry` keeps the ids increasing |
| `Store.UpdateUnknown` | database.py:66-73 | `update_entry` on an unknown id changes nothing |
| `Store.AddThenFind` | database.py:47-54 | after `add_entry`, the new id finds the new row and every other id finds what it found before |
| `Store.AppendFind` | database.py:47-54 | an appended row does not change what a lookup of an already stored id finds |
| `Store.EntriesWithout` | database.py:75-78 | `delete_entry` leaves exactly the rows with other ids |
| `Store.DeleteThenFind` | database.py:75-78 | after `delete_entry`, the id finds nothing and every other id finds what it found before |
| `Store.DeleteUnknown` | database.py:75-78 | `delete_entry` on an unknown id changes nothing |
| `Store.RelationshipsTouching` | database.py:106-112 | `get_relationships_for_entry` returns exactly the rows with the entry at either end |
| `Store.RelationshipsAvoiding` | database.py:85-88 | the cascade leaves exactly the rows with the entry at neither end |
| `Store.RelationshipsWithout` | database.py:119-122 | `delete_relationship` leaves exactly the rows with other ids |
| `Store.TouchingOrAvoiding` | database.py:80-91 | the cascade removes exactly the relationships that `get_relationships_for_entry` lists |
| `Store.Database.constructor` | database.py:8-41 | a new database has both tables empty and both counters at zero |
| `Store.Database.AddEntry` | database.py:47-54 | the new row goes last with the next AUTOINCREMENT id, above every id ever handed out; the ids stay increasing |
| `Store.Database.UpdateEntry` | database.py:66-73 | the table becomes `UpdateRows` of the old one, and stays well formed |
| `Store.Database.DeleteEntry` | database.py:75-78 | only the entry goes; its relationships stay behind |
| `Store.Database.DeleteEntryAndRelationships` | database.py:80-91 | the relationships that mention the entry go, then the entry |
| `Store.Database.AddRelationship` | database.py:97-104 | the new row goes last with the next AUTOINCREMENT id; its endpoints are not checked |
| `Store.Database.DeleteRelationship` | database.py:119-122 | exactly the rows with that relationship id go |
| `Search.CombinedParts` | search.py:29 | the searchable text is the five fields joined by single spaces: it starts with the title and ends with the synonyms |
| `Search.BlankRowText` | search.py:13-29 | a row whose text columns are all NULL or empty is searched as four spaces |
| `Search.PrepareSearchData` | search.py:3-32 | the loop builds the dictionary that `SearchData` describes, one source after the other |
| `Search.SearchDataKeys` | search.py:9-32 | the keys of the dictionary are exactly the ids of the sources |
| `Search.SearchDataLast` | search.py:30 | an id maps to the text of the last source carrying it: later sources overwrite earlier ones |
| `Search.Trunc` | search.py:54 | `int()` of a float truncates toward zero |
| `Search.FuzzySearch` | search.py:35-56 | a blank query gives no results; otherwise one (key, truncated score) pair per match, in the ranking's order |
| `StableSort.SortDescPermutation` | graph_viewer.py:294-295 | the sorted row is a rearrangement of the row |
| `StableSort.SortDescSorted` | graph_viewer.py:294-295 | the sorted row is in descending key order |
| `StableSort.SortDescStable` | graph_viewer.py:294-295 | nodes with equal keys keep their order, as Python's stable sort keeps them |
| `StableSort.SortDescUnique` | graph_viewer.py:294-295 | every stable descending sort of the row gives the same result, so insertion sort stands in for Timsort |
| `StableSort.SortDescDistinct` | graph_viewer.py:294-295 | sorting a repetition-free row gives a repetition-free row |
| `TreeLayout.UNeighborsAdjacent` | graph_viewer.py:283 | `UG.neighbors(n)` lists exactly the nodes joined to n by an edge in either direction |
| `TreeLayout.ToUndirectedAdjacent` | graph_viewer.py:274 | the undirected view joins two nodes exactly when some edge does, and symmetrically |
| `TreeLayout.ToUndirectedClosed` | graph_viewer.py:274 | every neighbour list of the undirected view is repetition-free and names its nodes |
| `TreeLayout.ScanMembers` | graph_viewer.py:283-286 | scanning a neighbour list visits it and enqueues exactly the neighbours not yet visited |
| `TreeLayout.EnqueueNeighbors` | graph_viewer.py:283-286 | the inner loop marks and enqueues, at depth + 1, exactly what the scan specifies |
| `TreeLayout.AppendToLayer` | graph_viewer.py:282 | `layers.setdefault(depth, []).append(node)` on keys 0 .. n-1: the node joins its depth's layer, and no other layer changes |
| `TreeLayout.Dequeue` | graph_viewer.py:280-286 | one turn of the search loop: pop the head, record it in its layer, and enqueue its unvisited neighbours one level deeper |
| `TreeLayout.LevelStep` | graph_viewer.py:280-286 | level d + 1 holds exactly the unvisited neighbours of level d |
| `TreeLayout.LevelDistinct` | graph_viewer.py:284-285 | no node is enqueued twice on a level |
| `TreeLayout.LevelsApart` | graph_viewer.py:284-285 | no node lies on two levels |
| `TreeLayout.LevelReach` | graph_viewer.py:280-286 | every node on level d is reached from the root along d edges of the undirected view |
| `TreeLayout.ReachSeen` | graph_viewer.py:280-286 | every node reached along d edges is visited by the time level d is done |
| `TreeLayout.LevelShortest` | graph_viewer.py:280-286 | no node of level d is reached along fewer than d edges |
| `TreeLayout.LevelIsDistance` | graph_viewer.py:274-286 | level d holds exactly the nodes at distance d from the root in the undirected view |
| `TreeLayout.HeightLevels` | graph_viewer.py:280 | the levels below the height are non-empty and the rest are empty, so the queue runs dry |
| `TreeLayout.LevelDepthBound` | graph_viewer.py:280 | a non-empty level lies at a depth below the number of nodes |
| `TreeLayout.SeenIsConnected` | graph_viewer.py:274-286 | the search visits exactly the nodes connected to the root |
| `TreeLayout.QueueAdvance` | graph_viewer.py:280-286 | dequeuing keeps the loop invariant: the queue holds the rest of the level and the part of the next level found so far |
| `TreeLayout.QueueEnd` | graph_viewer.py:280 | once the queue is empty, the layers are exactly the levels and the visited set is everything reachable |
| `TreeLayout.BreadthFirst` | graph_viewer.py:274-286 | the FIFO search loop records layer d as exactly level d, for every non-empty level, and visits exactly the reachable nodes |
| `TreePlacement.SlotGeometry` | graph_viewer.py:301-308 | a row of `count` nodes starts at -(count-1) * 75, its slots lie 150 apart, and it is symmetric about x = 0 |
| `TreePlacement.UnreachedMembers` | graph_viewer.py:289-290 | the unreached nodes are exactly the graph's nodes the search did not visit |
| `TreePlacement.AddUnreachedRows` | graph_viewer.py:288-292 | each unreached node goes alone on a new layer below the deepest so far, in node order |
| `TreePlacement.SortRows` | graph_viewer.py:294-295 | every layer is sorted by the stable descending degree sort |
| `TreePlacement.PlaceRows` | graph_viewer.py:297-308 | the placement loops build the positions that `Placement` describes |
| `TreePlacement.PlaceRowAt` | graph_viewer.py:305-308 | in a repetition-free row, the i-th node gets slot i of its row |
| `TreePlacement.PlacementAt` | graph_viewer.py:301-308 | a node that occurs once in its row and in no later row keeps the slot of that row |
| `TreePlacement.SearchLayers` | graph_viewer.py:274-292 | the search and the unreached loop give the levels of the search followed by one layer per unvisited node |
| `TreePlacement.LayerIsUnvisited` | graph_viewer.py:288-292 | the layers past the last level hold one unvisited node each, in node order, at strictly increasing depths |
| `TreePlacement.LayerIsLevel` | graph_viewer.py:282-286 | each layer below the height is exactly the level of the search at that depth |
| `TreePlacement.LayerDistinct` | graph_viewer.py:282-292 | no layer holds a node twice |
| `TreePlacement.UnvisitedIsUnconnected` | graph_viewer.py:288-292 | a node is unvisited exactly when it is a node of the graph not connected to the root |
| `TreePlacement.LayersApart` | graph_viewer.py:282-292 | no node lies on two layers |
| `TreePlacement.LayersCover` | graph_viewer.py:282-292 | every node of the graph lies on some layer, and only nodes of the graph do |
| `TreePlacement.TreeRowSorted` | graph_viewer.py:294-295 | each row holds the nodes of its layer, once each, by descending degree, ties in discovery order |
| `TreePlacement.TreeLayoutAt` | graph_viewer.py:297-308 | node i of row d sits at slot i of that row |
| `TreePlacement.TreeLayoutKeys` | graph_viewer.py:273-310 | exactly the nodes of the graph get a position |
| `TreePlacement.TreeLayoutDepth` | graph_viewer.py:301-308 | a node at distance d from the root sits at y = d * 170 |
| `TreePlacement.TreeLayoutRoot` | graph_viewer.py:277-308 | the root sits at the origin |
| `TreePlacement.TreeLayoutUnvisited` | graph_viewer.py:288-308 | the k-th unreached node sits alone on row height + k, at x = 0 |
| `TreePlacement.ComputeTreeLayout` | graph_viewer.py:273-310 | `compute_tree_layout` gives every node of the graph, and nothing else, a position; the root is at the origin |
| `Viewer.Radius` | graph_viewer.py:334-335 | the radius lies between 22 and 22 + 4 * 8 |
| `Viewer.RadiusMonotone` | graph_viewer.py:334-335 | a node never shrinks as its degree grows |
| `Viewer.RadiusSteps` | graph_viewer.py:334-335 | each extra link adds 4 up to degree 8; from there on the radius stays 54 |
| `Viewer.ColorOf` | graph_viewer.py:340-347 | a category in the table gets its table colour, so the four known categories get their own colours; everything else gets grey, and grey is exactly the colour of every category but those four, "default" included |
| `Viewer.NodeItemOf` | graph_viewer.py:328-356 | a node item has the degree's radius, the category's colour, the node's label, full opacity, and its position or (0, 0) |
| `Viewer.PairKey` | graph_viewer.py:363 | the sorted pair of an edge: its two ends, smaller first |
| `Viewer.PairKeySame` | graph_viewer.py:363 | two edges share a key exactly when they join the same two nodes, either way round |
| `Viewer.SeenPairsMembers` | graph_viewer.py:360-366 | `seen_pairs` holds exactly the keys of the edges looked at |
| `Viewer.DrawnItem` | graph_viewer.py:362-383 | every edge item joins two node items and is fully opaque |
| `Viewer.DrawnUnique` | graph_viewer.py:360-369 | no two edge items join the same two nodes |
| `Viewer.DrawnFirst` | graph_viewer.py:362-369 | the first edge of each unordered pair is drawn when both its ends have node items |
| `Viewer.DrawnSource` | graph_viewer.py:362-369 | every edge item comes from the first edge of its pair: first seen wins |
| `Viewer.DrawnCovers` | graph_viewer.py:362-383 | every pair of node items linked by an edge gets an edge item |
| `Viewer.DrawnEdgesConsistent` | graph_viewer.py:358-383 | the edge items join node items, at most one per unordered pair |
| `Viewer.MakeNodeItems` | graph_viewer.py:328-356 | the node loop makes one node item per node, as `NodeItemOf` describes |
| `Viewer.MakeEdgeItems` | graph_viewer.py:358-383 | the edge loop with `seen_pairs` makes the edge items `DrawnEdges` describes |
| `Viewer.NeighborhoodMembers` | graph_viewer.py:420-423 | the highlighted set is the clicked node and every node linked to it in either direction |
| `Viewer.ClickedNode` | graph_viewer.py:425-426 | after a click, a node item is fully opaque exactly when it is the node or linked to it, and otherwise at 0.25; nothing else about it changes |
| `Viewer.ClickedEdge` | graph_viewer.py:428-433 | after a click, an edge item and its label are fully opaque exactly when both ends are highlighted, and otherwise at 0.2; its ends are unchanged |
| `Viewer.HighlightIdempotent` | graph_viewer.py:419-433 | clicking the same node twice is the same as clicking it once |
| `Viewer.HighlightNodeItems` | graph_viewer.py:425-426 | the node loop of `highlight_neighbors` sets every node item's opacity as `HighlightNodes` describes |
| `Viewer.HighlightEdgeItems` | graph_viewer.py:428-433 | the edge loop of `highlight_neighbors` sets every edge item's opacity as `HighlightEdges` describes |
| `Viewer.MoveItems` | graph_viewer.py:399-402 | the loop of `apply_positions` moves every node item that has a position and leaves the others |
| `Viewer.TreeLayoutMoves` | graph_viewer.py:386-391 | after the tree layout, every node item sits at its tree position and the root's item at the origin |
| `Viewer.DrawnScene` | graph_viewer.py:318-383 | `draw_graph` sets up a consistent scene: one node item per node, edge items that join node items, at most one per pair |
| `Viewer.SceneOrder` | graph_viewer.py:328-356 | in a consistent scene, the node items are exactly the nodes of the graph |
| `Viewer.HighlightKeepsScene` | graph_viewer.py:419-433 | highlighting keeps the scene consistent |
| `Viewer.MoveKeepsScene` | graph_viewer.py:399-403 | applying positions keeps the scene consistent |
| `Viewer.DragKeepsScene` | graph_viewer.py:129-132 | dragging one node item keeps the scene consistent |
| `Viewer.HighlightScene` | graph_viewer.py:419-433 | the highlighted items, with the scene kept consistent |
| `Viewer.TreeLayoutOf` | graph_viewer.py:264 | the viewer's tree layout is `compute_tree_layout` of its graph and root |
| `Viewer.TreeLayoutStep` | graph_viewer.py:386-391 | with a valid root, the layout becomes the tree and the items move there; without one, nothing changes |
| `Viewer.GraphViewer.constructor` | graph_viewer.py:219-269 | the viewer opens on the tree layout when the root is a node of G, and on the force layout otherwise; then the scene is drawn and consistent |
| `Viewer.GraphViewer.DrawGraph` | graph_viewer.py:318-383 | the scene is rebuilt from the graph and the current positions |
| `Viewer.GraphViewer.HighlightNeighbors` | graph_viewer.py:419-433 | node and edge opacities follow the clicked node's neighbourhood; the scene stays consistent |
| `Viewer.GraphViewer.OnNodeClicked` | graph_viewer.py:414-417 | highlight, then report the node to the host when a callback was given |
| `Viewer.GraphViewer.ApplyPositions` | graph_viewer.py:399-403 | every node item with a position moves there |
| `Viewer.GraphViewer.ApplyTreeLayout` | graph_viewer.py:386-391 | with a valid root, the tree layout is computed and applied; without one, nothing changes |
| `Viewer.GraphViewer.ApplyForceLayout` | graph_viewer.py:393-397 | the force layout's positions replace the old ones and the items move there |
| `Viewer.GraphViewer.MoveNode` | graph_viewer.py:129-133 | a drag moves only that node item; the stored layout keeps the old position |
| `RelationshipDialog.IdNameInjective` | relationship_ui.py:92-93 | two fallback names "ID {id}" are equal exactly when the ids are |
| `RelationshipDialog.MissingNameTellsId` | relationship_ui.py:90-93 | two missing entries get the same shown name exactly when their ids are equal |
| `RelationshipDialog.CurrentOnTheLeft` | relationship_ui.py:95-103 | the current entry is named on the left whichever end it is stored as, and the other end on the right |
| `RelationshipDialog.ListedRelationships` | relationship_ui.py:81-107 | an id is on the list exactly when it is the id of a relationship touching the current entry |
| `RelationshipDialog.MakeRelationshipItem` | relationship_ui.py:86-107 | one list line: the type, or "relationship"; both names; the current entry on the left; the relationship id as data |
| `RelationshipDialog.MakeRelationshipItems` | relationship_ui.py:81-107 | `load_relationships` builds one line per touching relationship, in store order |
| `RelationshipDialog.OtherChoices` | relationship_ui.py:72-79 | there are never more choices than entries |
| `RelationshipDialog.OfferedEntries` | relationship_ui.py:72-79 | an id is offered exactly when it is a stored entry other than the current one |
| `RelationshipDialog.OfferedStored` | relationship_ui.py:72-79 | an id is offered exactly when it is not the current one and some entry row carries it |
| `RelationshipDialog.AddChoice` | relationship_ui.py:76-79 | one pass of the loop: the current entry is skipped, and any other gets "{title} (ID {id})" |
| `RelationshipDialog.MakeChoices` | relationship_ui.py:72-79 | `populate_other_entries` offers every entry but the current one, in store order |
| `RelationshipDialog.StoredType` | relationship_ui.py:115-117 | the stored type is the typed text stripped, or "relationship" when it is blank; it never starts or ends with white space |
| `RelationshipDialog.StoredFound` | relationship_ui.py:90 | an id is carried by an entry row exactly when `get_entry` finds it |
| `RelationshipDialog.RelationshipEditor.constructor` | relationship_ui.py:14-69 | the dialog's title names the entry, or "ID {id}" when it is missing; the choices and the relationship list are loaded |
| `RelationshipDialog.RelationshipEditor.LoadRelationships` | relationship_ui.py:81-107 | the list shows the relationships that touch the current entry in the store as it is now |
| `RelationshipDialog.RelationshipEditor.AddRelationship` | relationship_ui.py:110-121 | nothing happens without a chosen entry; otherwise one relationship from the current entry is stored with the stripped type and the next relationship id, the list is reloaded and the type field cleared; the entries and their counter never change |
| `RelationshipDialog.RelationshipEditor.DeleteSelectedRelationship` | relationship_ui.py:123-129 | nothing happens without a selected line; otherwise its relationship is deleted and the list reloaded |
| `RelationshipDialog.RelationshipEditor.OpenMap` | relationship_ui.py:132-145 | the map of the whole store: its nodes are the entry ids with the last rows' attributes, its edges the distinct kept relationship pairs with the last rows' labels; it is rooted at the current entry and reports clicks; it opens on the tree layout at the tree positions exactly when the current entry is stored, and on the given force positions otherwise; its scene is drawn from those positions and is consistent, and nothing has been reported yet |
| `Session.LoadAfterSave` | main.py:165-172 | after saving the fields of a stored entry, loading it shows the same fields |
| `Session.Autosaved` | main.py:122-140 | autosave writes the fields only when no entry is loading, there is a current entry and some field is non-empty; otherwise the store is unchanged |
| `Session.EntryItems` | main.py:145-151 | the full list has one item per stored entry |
| `Session.EntryItemsFind` | main.py:145-165 | clicking the k-th item of the full list loads the k-th entry |
| `Session.EntryItemsListed` | main.py:145-151 | every item of the full list names a stored entry |
| `Session.UpdateKeepsListed` | main.py:231-233 | saving keeps every listed id stored |
| `Session.AutosaveKeepsListed` | main.py:122-140 | autosaving keeps every listed id stored |
| `Session.MakeEntryItems` | main.py:145-151 | the loop of `load_all_entries` builds the full list: each entry's title, carrying its id |
| `Session.FirstWithData` | main.py:187-199 | the loop stops at the first item carrying the id, and finds none exactly when no item carries it |
| `Session.ResultItems` | main.py:263-268 | there are never more result lines than results |
| `Session.ResultItemsListed` | main.py:263-268 | every result line names a stored entry |
| `Session.ResultItemsCover` | main.py:263-268 | an id is on the result list exactly when it was ranked and its entry is stored |
| `Session.ShowsPiece` | main.py:264-268 | the line for one result shows an id exactly when the result carries it and its entry is stored |
| `Session.AddResultItem` | main.py:263-268 | one pass of the loop: a line "{title}  ({score}%)" when the entry still exists, and nothing otherwise |
| `Session.MakeResultItems` | main.py:262-268 | the loop of `run_search` builds the result list, in rank order |
| `Session.MainWindow.constructor` | main.py:17-107 | a new window over a new, empty store: no current entry, empty fields, an empty list, not loading |
| `Session.MainWindow.AutosaveCurrentEntry` | main.py:122-140 | the store becomes `Autosaved` of the old store and the window's state |
| `Session.MainWindow.LoadAllEntries` | main.py:145-151 | the list becomes the full list, and every listed id is stored |
| `Session.MainWindow.LoadEntryDetails` | main.py:156-174 | the flag is raised before the autosave, so the entry left behind is never written; the clicked entry becomes current and its fields load |
| `Session.MainWindow.SelectEntryById` | main.py:179-201 | the id becomes current in any case; its fields load only when the list shows it, and otherwise the old texts stay |
| `Session.MainWindow.CreateEntry` | main.py:206-216 | autosave, then a "New Entry" row with the next id, the full list, and the new entry current with its fields |
| `Session.MainWindow.SaveEntry` | main.py:221-234 | with a current entry, all five fields are written, even when empty, and the list is reloaded; without one, nothing changes |
| `Session.MainWindow.DeleteEntry` | main.py:239-247 | with a current entry, it and every relationship that mentions it go, nothing is current, the fields clear and the list reloads |
| `Session.MainWindow.RunSearch` | main.py:252-268 | a blank query lists every entry; any other lists the ranked results whose entries are stored |
| `Session.MainWindow.OpenRelationshipEditor` | main.py:273-279 | without a current entry, nothing; otherwise an autosave and a dialog on the current entry |
| `Session.MainWindow.CloseEvent` | main.py:284-287 | a last autosave before the window closes |

## Left out

- The force layout: `compute_force_layout` (graph_viewer.py:312-315) runs networkx's `spring_layout` from a random start. Its scaled positions are a parameter (`force`) of `GraphViewer.constructor`, `ApplyForceLayout` and `OpenMap`.
- The rapidfuzz ranking: `process.extract` with `token_sort_ratio` is the parameter `extract` of `FuzzySearch`. How results are scored and ordered, and whether the limit of 20 is honoured, are not modelled.
- Qt drawing: the curved edge geometry (`CurvedEdgeItem.update_path`, the control point 40 units off the chord), `OutlineTextItem`, painting, bounding rectangles, z-order, wheel zoom, `fit_to_view` and `export_png`. The scene is modelled as node items and edge items with position, radius, colour, label and opacity. So `on_node_moved` and `update_all_edges`, which only recompute curves, have nothing to change in the model.
- Mouse events: `NodeItem.mousePressEvent` and `itemChange` are modelled as calls of `OnNodeClicked` and `MoveNode`. `MoveNode` takes the dragged node's new point as an argument.
- Real numbers in the tree layout: its positions are integers, which is the value the code's floating-point computation produces there, since `(count - 1) * 150 / 2.0` is exact.
- Real numbers in the force layout: the positions `spring_layout` gives, scaled by 320.0 (graph_viewer.py:312-315), are arbitrary floats. The model gives the `force` parameter integer points, so it does not capture fractional force positions.
- Real numbers in the opacities: they are percentages (100, 25, 20) instead of 1.0, 0.25 and 0.2.
- Sorting: CPython's Timsort is replaced by a stable insertion sort. `SortDescUnique` shows that every stable descending sort gives the same result.
- Persistence: the SQLite file `writer_memory.db` is modelled as a new, empty database. Reopening an existing file and `commit` are not modelled. `Database.close` is not modelled either, so `CloseEvent` states only the autosave.
- Row order: `SELECT *` without `ORDER BY` is modelled as rowid order, SQLite's usual order, which SQL does not guarantee.
- NULL titles: `title TEXT NOT NULL` (database.py:21) is not imposed on `EntryRow`. The model also covers NULL titles, where an f-string prints "None" (`FormatColumn`).
- Foreign keys: the FOREIGN KEY clauses are not enforced. SQLite leaves them off unless a pragma turns them on, and the code sets none.
- `Store.Database.GetEntry`, `GetRelationshipsForEntry`, `get_all_entries` and `get_all_relationships`: these reads have no contracts of their own. They return `FindEntry`, `RelationshipsTouching` and the tables themselves, whose properties are proved above.
- Widget glue: list selection (`setCurrentItem`), `show`, `raise_`, `activateWindow`, window sizes, window icons and the header label of the dialog. The dialog's header repeats the entry's name, which the window title already shows.
- Qt choices: the combo box's current data and the list's current item are parameters of `AddRelationship` and `DeleteSelectedRelationship`.
- `clear_entry_fields`: modelled as the field values becoming empty in `DeleteEntry`.
- `select_entry_in_main` (relationship_ui.py:147-150): this forwards a map click to the main window's `select_entry_by_id`. The viewer records the reported nodes in `notified`, and `SelectEntryById` models the method it calls. The wiring between the two windows is not modelled.
- `Viewer.GraphViewer.HighlightNeighbors`: requires the clicked node to be in G. `G.successors` raises for an unknown node, and a click only comes from a node item.
- models.py:7 is indented by seven spaces, so the file cannot be imported as written. The model uses the evidently intended `Entry` with all six fields.
- Python `Entry`/`Relationship` objects passed to `prepare_search_data` are `SearchSource.EntrySource`. Nothing in the modelled code passes them, and the rows from the store are `RowSource`.
- `Models.EntryDefaults`: this documents the default parameters of the two constructors. Dafny proves it from the datatype declarations alone.
- `Search.CombinedParts`: this is a fact about string concatenation that the verifier proves without help. It is kept as documentation of the searchable text.
