/** main.py: the editor window's session over the store. It tracks the entry being
    edited, the five text fields, the entry list and the flag that keeps autosave
    quiet while an entry is being loaded. */
module Session {
  import opened Wrappers
  import opened Text
  import opened Models
  import opened Store
  import opened Search
  import opened RelationshipDialog

  /** The fields of a freshly cleared editor. */
  const NoFields := EntryFields("", "", "", "", "")

  /** What `create_entry` stores: the title "New Entry", every other field empty. */
  const NewEntryFields := EntryFields("New Entry", "", "", "", "")

  /** The result limit of `fuzzy_search`. */
  const SearchLimit := 20

  /** The five field texts a stored row loads into the editor (a NULL column
      loads as empty). */
  function FieldsOf(row: EntryRow): EntryFields {
    EntryFields(row.title.GetOr(""), row.description.GetOr(""), row.category.GetOr(""),
                row.tags.GetOr(""), row.synonyms.GetOr(""))
  }

  /** Saving fields and loading the row back gives the same fields. */
  lemma LoadAfterSave(rows: seq<EntryRow>, id: int, f: EntryFields)
    requires Increasing(rows, EntryKey) && FindEntry(rows, id).Some?
    ensures FindEntry(UpdateRows(rows, id, f), id).Some?
    ensures FieldsOf(FindEntry(UpdateRows(rows, id, f), id).value) == f
  {
    UpdateThenFind(rows, id, f, id);
  }

  /** `not (title or description or category or tags or synonyms)`. */
  predicate AllEmpty(f: EntryFields) {
    |f.title| == 0 && |f.description| == 0 && |f.category| == 0 && |f.tags| == 0 && |f.synonyms| == 0
  }

  /** Whether `autosave_current_entry` writes: not while an entry is loading, not
      without a current entry, and not when every field is empty. */
  predicate AutosaveWrites(loading: bool, current: Option<int>, f: EntryFields) {
    !loading && current.Some? && !AllEmpty(f)
  }

  /** The entries table after an autosave from the given state. */
  function Autosaved(rows: seq<EntryRow>, loading: bool, current: Option<int>, f: EntryFields): (r: seq<EntryRow>)
    ensures !AutosaveWrites(loading, current, f) ==> r == rows
    ensures AutosaveWrites(loading, current, f) ==> r == UpdateRows(rows, current.value, f)
  {
    if AutosaveWrites(loading, current, f) then UpdateRows(rows, current.value, f) else rows
  }

  /** The list `load_all_entries` shows: each entry's title, carrying its id. */
  function EntryItems(rows: seq<EntryRow>): (r: seq<ListItem>)
    ensures |r| == |rows|
  {
    seq(|rows|, k requires 0 <= k < |rows| => ListItem(rows[k].title.GetOr(""), rows[k].id))
  }

  /** Every listed id names a stored entry. */
  ghost predicate Listed(items: seq<ListItem>, rows: seq<EntryRow>) {
    forall k :: 0 <= k < |items| ==> FindEntry(rows, items[k].data).Some?
  }

  /** Clicking the k-th item of the full list loads the k-th entry. */
  lemma EntryItemsFind(rows: seq<EntryRow>, k: nat)
    requires Increasing(rows, EntryKey) && k < |rows|
    ensures FindEntry(rows, EntryItems(rows)[k].data) == Some(rows[k])
  {
    FindEntryAt(rows, k);
  }

  lemma EntryItemsListed(rows: seq<EntryRow>)
    requires Increasing(rows, EntryKey)
    ensures Listed(EntryItems(rows), rows)
  {
    forall k | 0 <= k < |rows| ensures FindEntry(rows, EntryItems(rows)[k].data).Some? {
      EntryItemsFind(rows, k);
    }
  }

  /** An update keeps every id, so a listed id still names an entry. */
  lemma UpdateKeepsListed(items: seq<ListItem>, rows: seq<EntryRow>, id: int, f: EntryFields)
    requires Increasing(rows, EntryKey) && Listed(items, rows)
    ensures Listed(items, UpdateRows(rows, id, f))
  {
    forall k | 0 <= k < |items| ensures FindEntry(UpdateRows(rows, id, f), items[k].data).Some? {
      UpdateFindsAt(rows, id, f, items[k].data);
    }
  }

  /** After an autosave the list still names stored entries. */
  lemma AutosaveKeepsListed(items: seq<ListItem>, rows: seq<EntryRow>, current: Option<int>, f: EntryFields)
    requires Increasing(rows, EntryKey) && Listed(items, rows)
    ensures Listed(items, Autosaved(rows, false, current, f))
  {
    if AutosaveWrites(false, current, f) {
      UpdateKeepsListed(items, rows, current.value, f);
    }
  }

  /** `load_all_entries`. */
  method MakeEntryItems(rows: seq<EntryRow>) returns (items: seq<ListItem>)
    ensures items == EntryItems(rows)
  {
    items := [];
    for k := 0 to |rows|
      invariant |items| == k
      invariant forall j :: 0 <= j < k ==> items[j] == ListItem(rows[j].title.GetOr(""), rows[j].id)
    {
      items := items + [ListItem(rows[k].title.GetOr(""), rows[k].id)];
    }
  }

  /** The loop of `select_entry_by_id` and `create_entry`: the first item whose data
      is id, or None when no item carries it. */
  method FirstWithData(items: seq<ListItem>, id: int) returns (k: Option<nat>)
    ensures k.Some? ==> k.value < |items| && items[k.value].data == id
    ensures k.Some? ==> forall j :: 0 <= j < k.value ==> items[j].data != id
    ensures k.None? ==> forall j :: 0 <= j < |items| ==> items[j].data != id
  {
    k := None;
    var i := 0;
    while i < |items|
      invariant 0 <= i <= |items|
      invariant forall j :: 0 <= j < i ==> items[j].data != id
    {
      if items[i].data == id {
        k := Some(i);
        break;
      }
      i := i + 1;
    }
  }

  /** The line of one search result: `f"{entry['title']}  ({score}%)"`. */
  function ResultText(row: EntryRow, score: int): string {
    FormatColumn(row.title) + ("  (" + (IntToString(score) + "%)"))
  }

  /** The item `run_search` shows for one ranked result: none when its entry is
      no longer stored. */
  function ResultPiece(result: (int, int), rows: seq<EntryRow>): seq<ListItem> {
    match FindEntry(rows, result.0)
    case None => []
    case Some(row) => [ListItem(ResultText(row, result.1), result.0)]
  }

  /** The list `run_search` shows for the ranked results: one item per result
      whose entry still exists, in rank order. */
  function ResultItems(results: seq<(int, int)>, rows: seq<EntryRow>): (r: seq<ListItem>)
    ensures |r| <= |results|
  {
    if |results| == 0 then []
    else ResultItems(results[..|results| - 1], rows) + ResultPiece(results[|results| - 1], rows)
  }

  lemma ResultItemsSnoc(results: seq<(int, int)>, rows: seq<EntryRow>, k: nat)
    requires k < |results|
    ensures ResultItems(results[..k + 1], rows) == ResultItems(results[..k], rows) + ResultPiece(results[k], rows)
  {
    assert results[..k + 1][..k] == results[..k];
  }

  /** Every listed result names a stored entry. */
  lemma {:induction false} ResultItemsListed(results: seq<(int, int)>, rows: seq<EntryRow>)
    ensures Listed(ResultItems(results, rows), rows)
  {
    if |results| > 0 {
      var n := |results| - 1;
      ResultItemsListed(results[..n], rows);
      var prev := ResultItems(results[..n], rows);
      var piece := ResultPiece(results[n], rows);
      var r := prev + piece;
      assert forall k :: 0 <= k < |prev| ==> r[k] == prev[k];
      assert forall k :: 0 <= k < |piece| ==> r[|prev| + k] == piece[k];
    }
  }

  /** Some result carries id. */
  ghost predicate Ranked(results: seq<(int, int)>, id: int) {
    exists j :: 0 <= j < |results| && results[j].0 == id
  }

  lemma RankedLast(results: seq<(int, int)>, id: int)
    requires |results| > 0
    ensures Ranked(results, id) <==> Ranked(results[..|results| - 1], id) || results[|results| - 1].0 == id
  {
    var n := |results| - 1;
    if Ranked(results, id) {
      var j :| 0 <= j < |results| && results[j].0 == id;
      if j < n {
        assert results[..n][j].0 == id;
      }
    }
    if Ranked(results[..n], id) {
      var j :| 0 <= j < n && results[..n][j].0 == id;
      assert results[j].0 == id;
    }
  }

  /** The item of one result shows id exactly when the result carries id and its
      entry is stored. */
  lemma ShowsPiece(result: (int, int), rows: seq<EntryRow>, id: int)
    ensures Shows(ResultPiece(result, rows), id) <==> FindEntry(rows, id).Some? && result.0 == id
  {
    var piece := ResultPiece(result, rows);
    if |piece| > 0 {
      assert piece[0].data == result.0;
    }
  }

  /** A result is listed exactly when its entry is stored. */
  lemma {:induction false} ResultItemsCover(results: seq<(int, int)>, rows: seq<EntryRow>, id: int)
    ensures Shows(ResultItems(results, rows), id) <==> FindEntry(rows, id).Some? && Ranked(results, id)
  {
    if |results| > 0 {
      var n := |results| - 1;
      ResultItemsCover(results[..n], rows, id);
      RankedLast(results, id);
      ShowsAppend(ResultItems(results[..n], rows), ResultPiece(results[n], rows), id);
      ShowsPiece(results[n], rows, id);
    }
  }

  /** The database rows as `fuzzy_search` sees them. */
  function RowSources(rows: seq<EntryRow>): (r: seq<SearchSource>)
    ensures |r| == |rows| && forall k :: 0 <= k < |r| ==> r[k] == RowSource(rows[k])
  {
    seq(|rows|, k requires 0 <= k < |rows| => RowSource(rows[k]))
  }

  /** One pass of the `run_search` loop: the result's item is added when its
      entry is still stored. */
  method AddResultItem(items: seq<ListItem>, result: (int, int), rows: seq<EntryRow>) returns (r: seq<ListItem>)
    ensures r == items + ResultPiece(result, rows)
  {
    var (id, score) := result;
    var entry := FindEntry(rows, id);
    r := items;
    if entry.Some? {
      r := items + [ListItem(ResultText(entry.value, score), id)];
    }
  }

  /** `run_search` for non-blank queries. */
  method MakeResultItems(results: seq<(int, int)>, rows: seq<EntryRow>) returns (items: seq<ListItem>)
    ensures items == ResultItems(results, rows)
  {
    items := [];
    for k := 0 to |results|
      invariant items == ResultItems(results[..k], rows)
    {
      items := AddResultItem(items, results[k], rows);
      ResultItemsSnoc(results, rows, k);
    }
    assert results[..|results|] == results;
  }

  /** `MainWindow`, over the store it opens. */
  class MainWindow {
    const db: Database
    var loadingEntry: bool
    var currentEntryId: Option<int>
    var fields: EntryFields
    var entryList: seq<ListItem>

    /** Between events: the store is well formed, no entry is loading, and every
        listed id names a stored entry. */
    ghost predicate Valid()
      reads this, db
    {
      db.Valid() && !loadingEntry && Listed(entryList, db.entries)
    }

    constructor()
      ensures Valid() && fresh(db)
      ensures db.entries == [] && db.relationships == []
      ensures currentEntryId == None && fields == NoFields && entryList == []
    {
      db := new Database();
      loadingEntry, currentEntryId, fields, entryList := false, None, NoFields, [];
    }

    /** `autosave_current_entry`. */
    method AutosaveCurrentEntry()
      requires db.Valid()
      modifies db`entries
      ensures db.Valid()
      ensures db.entries == Autosaved(old(db.entries), loadingEntry, currentEntryId, fields)
    {
      if loadingEntry {
        return;
      }
      if currentEntryId.None? {
        return;
      }
      if AllEmpty(fields) {
        return;
      }
      db.UpdateEntry(currentEntryId.value, fields);
    }

    /** `load_all_entries`. */
    method LoadAllEntries()
      requires db.Valid()
      modifies this`entryList
      ensures entryList == EntryItems(db.entries) && Listed(entryList, db.entries)
    {
      EntryItemsListed(db.entries);
      entryList := MakeEntryItems(db.entries);
    }

    /** `load_entry_details` for the k-th list item. The flag is raised before the
        autosave, so switching entries never writes the entry left behind. */
    method LoadEntryDetails(k: nat)
      requires Valid() && k < |entryList|
      modifies this`loadingEntry, this`currentEntryId, this`fields, db`entries
      ensures Valid()
      ensures db.entries == old(db.entries)
      ensures currentEntryId == Some(entryList[k].data)
      ensures fields == FieldsOf(FindEntry(db.entries, entryList[k].data).value)
    {
      loadingEntry := true;
      AutosaveCurrentEntry();
      var id := entryList[k].data;
      currentEntryId := Some(id);
      var data := db.GetEntry(id);
      fields := FieldsOf(data.value);
      loadingEntry := false;
    }

    /** `select_entry_by_id`: the id becomes current in any case, but the fields
        are loaded only when the list shows the id; otherwise they keep the texts
        of the entry shown before. */
    method SelectEntryById(id: int)
      requires Valid()
      modifies this`loadingEntry, this`currentEntryId, this`fields, db`entries
      ensures Valid()
      ensures db.entries == old(db.entries)
      ensures currentEntryId == Some(id)
      ensures (exists j :: 0 <= j < |entryList| && entryList[j].data == id) ==>
                fields == FieldsOf(FindEntry(db.entries, id).value)
      ensures (forall j :: 0 <= j < |entryList| ==> entryList[j].data != id) ==> fields == old(fields)
    {
      loadingEntry := true;
      AutosaveCurrentEntry();
      currentEntryId := Some(id);
      var k := FirstWithData(entryList, id);
      if k.Some? {
        var data := db.GetEntry(id);
        fields := FieldsOf(data.value);
      }
      loadingEntry := false;
    }

    /** `create_entry`: autosave, store "New Entry", list every entry again, and
        load the new entry, which becomes current. */
    method CreateEntry()
      requires Valid()
      modifies this`loadingEntry, this`currentEntryId, this`fields, this`entryList, db`entries, db`entrySeq
      ensures Valid()
      ensures db.entrySeq == old(db.entrySeq) + 1
      ensures db.entries == Autosaved(old(db.entries), false, old(currentEntryId), old(fields))
                            + [RowOf(db.entrySeq, NewEntryFields)]
      ensures currentEntryId == Some(db.entrySeq) && fields == NewEntryFields
      ensures entryList == EntryItems(db.entries)
    {
      AutosaveCurrentEntry();
      var newId := db.AddEntry("New Entry");
      LoadAllEntries();
      var k := FirstWithData(entryList, newId);
      ghost var last := |entryList| - 1;
      assert entryList[last].data == newId;
      if k.Some? {
        LoadEntryDetails(k.value);
        AddThenFind(old(db.entries), RowOf(newId, NewEntryFields), newId);
      }
    }

    /** `save_entry`: with a current entry, all five fields are written, even when
        they are all empty, and the list is reloaded. */
    method SaveEntry()
      requires Valid()
      modifies db`entries, this`entryList
      ensures Valid()
      ensures currentEntryId.None? ==> db.entries == old(db.entries) && entryList == old(entryList)
      ensures currentEntryId.Some? ==>
                db.entries == UpdateRows(old(db.entries), currentEntryId.value, fields)
                && entryList == EntryItems(db.entries)
    {
      if currentEntryId.None? {
        return;
      }
      db.UpdateEntry(currentEntryId.value, fields);
      LoadAllEntries();
    }

    /** `delete_entry`: with a current entry, the entry and every relationship that
        mentions it are deleted, nothing is current and the fields are cleared. */
    method DeleteEntry()
      requires Valid()
      modifies db`entries, db`relationships, this`currentEntryId, this`fields, this`entryList
      ensures Valid()
      ensures old(currentEntryId).None? ==>
                && db.entries == old(db.entries) && db.relationships == old(db.relationships)
                && currentEntryId == None && fields == old(fields) && entryList == old(entryList)
      ensures old(currentEntryId).Some? ==>
                && db.entries == EntriesWithout(old(db.entries), old(currentEntryId).value)
                && db.relationships == RelationshipsAvoiding(old(db.relationships), old(currentEntryId).value)
                && currentEntryId == None && fields == NoFields
                && entryList == EntryItems(db.entries)
    {
      if currentEntryId.None? {
        return;
      }
      var id := currentEntryId.value;
      db.DeleteEntryAndRelationships(id);
      currentEntryId := None;
      fields := NoFields;
      LoadAllEntries();
    }

    /** `run_search`, with rapidfuzz's ranking given as `extract`: a query that is
        blank once stripped lists every entry. */
    method RunSearch(query: string, extract: (string, map<int, string>, nat) -> seq<Match>)
      requires Valid()
      modifies this`entryList
      ensures Valid()
      ensures AllSpace(query) ==> entryList == EntryItems(db.entries)
      ensures !AllSpace(query) ==>
                entryList == ResultItems(FuzzySearch(Strip(query), RowSources(db.entries), SearchLimit, extract), db.entries)
    {
      var q := Strip(query);
      StripBlank(query);
      if |q| == 0 {
        LoadAllEntries();
        return;
      }
      var results := FuzzySearch(q, RowSources(db.entries), SearchLimit, extract);
      entryList := MakeResultItems(results, db.entries);
      ResultItemsListed(results, db.entries);
    }

    /** `open_relationship_editor`: nothing without a current entry; otherwise an
        autosave, then a dialog on the current entry. */
    method OpenRelationshipEditor() returns (dialog: Option<RelationshipEditor>)
      requires Valid()
      modifies db`entries
      ensures Valid()
      ensures db.entries == Autosaved(old(db.entries), false, currentEntryId, fields)
      ensures currentEntryId.None? ==> dialog.None?
      ensures currentEntryId.Some? ==>
                && dialog.Some? && dialog.value.db == db
                && dialog.value.currentEntryId == currentEntryId.value
                && dialog.value.items == RelationshipItems(db.entries, db.relationships, currentEntryId.value)
    {
      if currentEntryId.None? {
        return None;
      }
      AutosaveCurrentEntry();
      AutosaveKeepsListed(entryList, old(db.entries), currentEntryId, fields);
      var d := new RelationshipEditor(db, currentEntryId.value);
      dialog := Some(d);
    }

    /** `closeEvent`: a last autosave before the store is closed. */
    method CloseEvent()
      requires Valid()
      modifies db`entries
      ensures Valid()
      ensures db.entries == Autosaved(old(db.entries), false, currentEntryId, fields)
    {
      AutosaveCurrentEntry();
      AutosaveKeepsListed(entryList, old(db.entries), currentEntryId, fields);
    }

  }
}
