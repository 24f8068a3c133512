/** relationship_ui.py: the relationship editor of one entry. It lists the
    relationships that touch the entry, offers every other entry as the far end of a
    new one, and adds and deletes relationships in the store. */
module RelationshipDialog {
  import opened Wrappers
  import opened Seqs
  import opened Text
  import opened Models
  import opened Store
  import G = Graph
  import V = Viewer

  /** A list-widget or combo-box item: its text and the id kept as its data. */
  datatype ListItem = ListItem(text: string, data: int)

  /** Some item of the list carries id. */
  ghost predicate Shows(items: seq<ListItem>, id: int) {
    exists k :: 0 <= k < |items| && items[k].data == id
  }

  lemma ShowsAppend(a: seq<ListItem>, b: seq<ListItem>, id: int)
    ensures Shows(a + b, id) <==> Shows(a, id) || Shows(b, id)
  {
    var c := a + b;
    if Shows(c, id) {
      var k :| 0 <= k < |c| && c[k].data == id;
      if k >= |a| {
        assert b[k - |a|].data == id;
      }
    }
    if Shows(b, id) {
      var k :| 0 <= k < |b| && b[k].data == id;
      assert c[k + |a|].data == id;
    }
    if Shows(a, id) {
      var k :| 0 <= k < |a| && a[k].data == id;
      assert c[k].data == id;
    }
  }

  /** `f"ID {id}"`. */
  function IdName(id: int): string {
    "ID " + IntToString(id)
  }

  /** Different ids are named differently. */
  lemma IdNameInjective(id: int, other: int)
    ensures IdName(id) == IdName(other) <==> id == other
  {
    if IdName(id) == IdName(other) {
      assert IdName(id)[3..] == IntToString(id);
      assert IdName(other)[3..] == IntToString(other);
      IntToStringInjective(id, other);
    }
  }

  /** The name shown for an entry id: the stored title when the entry exists, and
      "ID {id}" otherwise. */
  function EntryName(entries: seq<EntryRow>, id: int): string {
    match FindEntry(entries, id)
    case Some(row) => FormatColumn(row.title)
    case None => IdName(id)
  }

  /** The shown name of an absent entry tells its id. */
  lemma MissingNameTellsId(entries: seq<EntryRow>, id: int, other: int)
    requires FindEntry(entries, id).None? && FindEntry(entries, other).None?
    ensures EntryName(entries, id) == EntryName(entries, other) <==> id == other
  {
    IdNameInjective(id, other);
  }

  /** `r["type"] or "relationship"`. */
  function TypeText(r: RelationshipRow): string {
    Or(r.relType, "relationship")
  }

  /** The entry at the far end of r, seen from current. */
  function OtherEnd(r: RelationshipRow, current: int): int {
    if current == r.entryA then r.entryB else r.entryA
  }

  /** The list line of one relationship: `f"{left} --[{rel_type}]--> {right}"`. */
  function RelationshipLine(entries: seq<EntryRow>, current: int, r: RelationshipRow): string {
    var aName := EntryName(entries, r.entryA);
    var bName := EntryName(entries, r.entryB);
    var left := if current == r.entryA then aName else bName;
    var right := if current == r.entryA then bName else aName;
    left + (" --[" + (TypeText(r) + ("]--> " + right)))
  }

  /** The current entry is named on the left, whichever end of the relationship it
      is stored as, and the other end on the right. */
  lemma CurrentOnTheLeft(entries: seq<EntryRow>, current: int, r: RelationshipRow)
    requires r.entryA == current || r.entryB == current
    ensures RelationshipLine(entries, current, r) ==
              EntryName(entries, current) + (" --[" + (TypeText(r) + ("]--> " + EntryName(entries, OtherEnd(r, current)))))
  {
  }

  /** The items `load_relationships` lists: one per relationship touching the
      current entry, carrying the relationship's id. */
  function RelationshipItems(entries: seq<EntryRow>, rels: seq<RelationshipRow>, current: int): (r: seq<ListItem>)
    ensures |r| == |RelationshipsTouching(rels, current)|
  {
    var touching := RelationshipsTouching(rels, current);
    seq(|touching|, k requires 0 <= k < |touching| => ListItem(RelationshipLine(entries, current, touching[k]), touching[k].id))
  }

  /** An id is on the list exactly when it is the id of a relationship that touches
      the current entry. */
  lemma ListedRelationships(entries: seq<EntryRow>, rels: seq<RelationshipRow>, current: int, rid: int)
    ensures Shows(RelationshipItems(entries, rels, current), rid)
            <==> exists x :: x in rels && (x.entryA == current || x.entryB == current) && x.id == rid
  {
    var items := RelationshipItems(entries, rels, current);
    var touching := RelationshipsTouching(rels, current);
    if Shows(items, rid) {
      var k :| 0 <= k < |items| && items[k].data == rid;
      assert touching[k] in touching;
    }
    if exists x :: x in rels && (x.entryA == current || x.entryB == current) && x.id == rid {
      var x :| x in rels && (x.entryA == current || x.entryB == current) && x.id == rid;
      var k :| 0 <= k < |touching| && touching[k] == x;
      assert items[k].data == rid;
    }
  }

  /** One pass of the `load_relationships` loop: the names of both ends, the
      current entry's on the left. */
  method MakeRelationshipItem(entries: seq<EntryRow>, current: int, r: RelationshipRow) returns (item: ListItem)
    ensures item == ListItem(RelationshipLine(entries, current, r), r.id)
  {
    var relType := TypeText(r);
    var aName := EntryName(entries, r.entryA);
    var bName := EntryName(entries, r.entryB);
    var left, right;
    if current == r.entryA {
      left, right := aName, bName;
    } else {
      left, right := bName, aName;
    }
    item := ListItem(left + (" --[" + (relType + ("]--> " + right))), r.id);
  }

  /** `load_relationships`. */
  method MakeRelationshipItems(entries: seq<EntryRow>, rels: seq<RelationshipRow>, current: int)
    returns (items: seq<ListItem>)
    ensures items == RelationshipItems(entries, rels, current)
  {
    var touching := RelationshipsTouching(rels, current);
    ghost var target := RelationshipItems(entries, rels, current);
    items := [];
    for k := 0 to |touching|
      invariant items == target[..k]
    {
      var item := MakeRelationshipItem(entries, current, touching[k]);
      PrefixSnoc(target, k);
      items := items + [item];
    }
    assert target[..|touching|] == target;
  }

  /** The combo-box text of an entry: `f"{e['title']} (ID {e['id']})"`. */
  function ChoiceText(e: EntryRow): string {
    FormatColumn(e.title) + (" (" + (IdName(e.id) + ")"))
  }

  /** The choice `populate_other_entries` offers for one entry: none for the
      current entry itself. */
  function ChoicePiece(e: EntryRow, current: int): seq<ListItem> {
    if e.id == current then [] else [ListItem(ChoiceText(e), e.id)]
  }

  /** The choices `populate_other_entries` offers: every entry but the current
      one, in store order. */
  function OtherChoices(entries: seq<EntryRow>, current: int): (r: seq<ListItem>)
    ensures |r| <= |entries|
  {
    if |entries| == 0 then []
    else OtherChoices(entries[..|entries| - 1], current) + ChoicePiece(entries[|entries| - 1], current)
  }

  lemma OtherChoicesSnoc(entries: seq<EntryRow>, current: int, k: nat)
    requires k < |entries|
    ensures OtherChoices(entries[..k + 1], current) == OtherChoices(entries[..k], current) + ChoicePiece(entries[k], current)
  {
    assert entries[..k + 1][..k] == entries[..k];
  }

  /** Some stored row carries id. */
  ghost predicate Stored(entries: seq<EntryRow>, id: int) {
    exists j :: 0 <= j < |entries| && entries[j].id == id
  }

  lemma StoredLast(entries: seq<EntryRow>, id: int)
    requires |entries| > 0
    ensures Stored(entries, id) <==> Stored(entries[..|entries| - 1], id) || entries[|entries| - 1].id == id
  {
    var n := |entries| - 1;
    if Stored(entries, id) {
      var j :| 0 <= j < |entries| && entries[j].id == id;
      if j < n {
        assert entries[..n][j].id == id;
      }
    }
    if Stored(entries[..n], id) {
      var j :| 0 <= j < n && entries[..n][j].id == id;
      assert entries[j].id == id;
    }
  }

  /** A stored id is exactly one that `get_entry` finds. */
  lemma StoredFound(entries: seq<EntryRow>, id: int)
    ensures Stored(entries, id) <==> FindEntry(entries, id).Some?
  {
    if Stored(entries, id) {
      var j :| 0 <= j < |entries| && entries[j].id == id;
      assert entries[j] in entries;
    }
    if FindEntry(entries, id).Some? {
      var x := FindEntry(entries, id).value;
      var j :| 0 <= j < |entries| && entries[j] == x;
      assert entries[j].id == id;
    }
  }

  lemma ShowsChoicePiece(e: EntryRow, current: int, id: int)
    ensures Shows(ChoicePiece(e, current), id) <==> e.id != current && e.id == id
  {
    var piece := ChoicePiece(e, current);
    if |piece| > 0 {
      assert piece[0].data == e.id;
    }
  }

  lemma {:induction false} OfferedStored(entries: seq<EntryRow>, current: int, id: int)
    ensures Shows(OtherChoices(entries, current), id) <==> id != current && Stored(entries, id)
  {
    if |entries| > 0 {
      var n := |entries| - 1;
      OfferedStored(entries[..n], current, id);
      StoredLast(entries, id);
      ShowsAppend(OtherChoices(entries[..n], current), ChoicePiece(entries[n], current), id);
      ShowsChoicePiece(entries[n], current, id);
    }
  }

  /** An id is offered exactly when it is the id of an entry other than the current one. */
  lemma OfferedEntries(entries: seq<EntryRow>, current: int, id: int)
    ensures Shows(OtherChoices(entries, current), id) <==> id != current && FindEntry(entries, id).Some?
  {
    OfferedStored(entries, current, id);
    StoredFound(entries, id);
  }

  /** One pass of the `populate_other_entries` loop: the current entry is skipped. */
  method AddChoice(choices: seq<ListItem>, e: EntryRow, current: int) returns (r: seq<ListItem>)
    ensures r == choices + ChoicePiece(e, current)
  {
    if e.id == current {
      return choices;
    }
    var display := FormatColumn(e.title) + (" (" + ("ID " + IntToString(e.id) + ")"));
    r := choices + [ListItem(display, e.id)];
  }

  /** `populate_other_entries`. */
  method MakeChoices(entries: seq<EntryRow>, current: int) returns (choices: seq<ListItem>)
    ensures choices == OtherChoices(entries, current)
  {
    choices := [];
    for k := 0 to |entries|
      invariant choices == OtherChoices(entries[..k], current)
    {
      choices := AddChoice(choices, entries[k], current);
      OtherChoicesSnoc(entries, current, k);
    }
    assert entries[..|entries|] == entries;
  }

  /** The type `add_relationship` stores: the typed text stripped, or "relationship"
      when that leaves nothing. */
  function StoredType(typed: string): (t: string)
    ensures |t| > 0 && !IsSpace(t[0]) && !IsSpace(t[|t| - 1])
    ensures AllSpace(typed) ==> t == "relationship"
    ensures !AllSpace(typed) ==> t == Strip(typed)
  {
    StripTrimmed(typed);
    StripBlank(typed);
    var s := Strip(typed);
    if |s| == 0 then "relationship" else s
  }

  /** The title of the dialog: the entry's title, or "ID {id}" when it is missing. */
  function DialogTitle(entries: seq<EntryRow>, current: int): string {
    "Relationships for: " + EntryName(entries, current)
  }

  /** `RelationshipEditorDialog` over a store. */
  class RelationshipEditor {
    const db: Database
    const currentEntryId: int
    var windowTitle: string
    var choices: seq<ListItem>
    var items: seq<ListItem>
    var typeField: string

    constructor(db: Database, current: int)
      requires db.Valid()
      ensures this.db == db && currentEntryId == current
      ensures windowTitle == DialogTitle(db.entries, current)
      ensures choices == OtherChoices(db.entries, current)
      ensures items == RelationshipItems(db.entries, db.relationships, current)
      ensures typeField == ""
    {
      this.db, currentEntryId := db, current;
      windowTitle := DialogTitle(db.entries, current);
      var cs := MakeChoices(db.entries, current);
      var rs := MakeRelationshipItems(db.entries, db.relationships, current);
      choices, items, typeField := cs, rs, "";
    }

    /** `load_relationships`, after the store has changed. */
    method LoadRelationships()
      modifies this`items
      ensures items == RelationshipItems(db.entries, db.relationships, currentEntryId)
    {
      items := MakeRelationshipItems(db.entries, db.relationships, currentEntryId);
    }

    /** `add_relationship`: other is the data of the chosen combo item, None when
        there is none. Nothing happens without a choice; otherwise the relationship
        from the current entry to other is stored and the type field is cleared. */
    method AddRelationship(other: Option<int>)
      requires db.Valid()
      modifies db`relationships, db`relationshipSeq, this`items, this`typeField
      ensures db.Valid() && db.entries == old(db.entries) && db.entrySeq == old(db.entrySeq)
      ensures other.None? ==>
                && db.relationships == old(db.relationships) && db.relationshipSeq == old(db.relationshipSeq)
                && items == old(items) && typeField == old(typeField)
      ensures other.Some? ==>
                && db.relationshipSeq == old(db.relationshipSeq) + 1
                && db.relationships == old(db.relationships) + [RelationshipRow(db.relationshipSeq, currentEntryId, other.value, Some(StoredType(old(typeField))))]
                && items == RelationshipItems(db.entries, db.relationships, currentEntryId)
                && typeField == ""
    {
      if other.None? {
        return;
      }
      var _ := db.AddRelationship(currentEntryId, other.value, StoredType(typeField));
      LoadRelationships();
      typeField := "";
    }

    /** `delete_selected_relationship`: selected is the index of the current list
        item, None when there is none. */
    method DeleteSelectedRelationship(selected: Option<nat>)
      requires db.Valid()
      requires selected.Some? ==> selected.value < |items|
      modifies db`relationships, this`items
      ensures db.Valid()
      ensures selected.None? ==> db.relationships == old(db.relationships) && items == old(items)
      ensures selected.Some? ==>
                && db.relationships == RelationshipsWithout(old(db.relationships), old(items)[selected.value].data)
                && items == RelationshipItems(db.entries, db.relationships, currentEntryId)
    {
      if selected.None? {
        return;
      }
      db.DeleteRelationship(items[selected.value].data);
      LoadRelationships();
    }

    /** `open_map`: the relationship map of the whole store, rooted at the current
        entry, whose clicks are reported back to the host. It opens on the tree
        layout when the current entry is stored, and on the force layout otherwise. */
    method OpenMap(force: map<int, (int, int)>) returns (viewer: V.GraphViewer)
      ensures G.Valid(viewer.graph)
      ensures viewer.graph.nodes == Dedup(G.Ids(db.entries))
      ensures forall n :: n in viewer.graph.attrs <==> exists e :: e in db.entries && e.id == n
      ensures forall i :: 0 <= i < |db.entries| && G.LastWithId(db.entries, i) ==>
                viewer.graph.attrs[db.entries[i].id] == G.NodeAttrOf(db.entries[i])
      ensures G.Pairs(viewer.graph.edges) == Dedup(G.KeptPairs(db.relationships, set e | e in db.entries :: e.id))
      ensures forall i :: (0 <= i < |db.relationships| && G.LastWithPair(db.relationships, i)
                           && db.relationships[i].entryA in viewer.graph.attrs
                           && db.relationships[i].entryB in viewer.graph.attrs) ==>
                G.EdgeLabel(viewer.graph, db.relationships[i].entryA, db.relationships[i].entryB)
                  == Some(G.EdgeLabelOf(db.relationships[i]))
      ensures viewer.rootId == Some(currentEntryId) && viewer.hasCallback
      ensures (exists e :: e in db.entries && e.id == currentEntryId) ==>
                viewer.currentLayout == V.Tree && viewer.positions == V.TreePositions(viewer.graph, currentEntryId)
      ensures (forall e :: e in db.entries ==> e.id != currentEntryId) ==>
                viewer.currentLayout == V.Force && viewer.positions == force
      ensures viewer.nodeItems == V.DrawnNodes(viewer.graph, viewer.positions)
      ensures viewer.edgeItems == V.DrawnEdges(G.EdgeList(viewer.graph), viewer.graph.attrs.Keys)
      ensures viewer.notified == [] && viewer.Consistent()
    {
      var g := G.BuildGraph(db.entries, db.relationships);
      viewer := new V.GraphViewer(g, Some(currentEntryId), force, true);
    }
  }
}
