/** database.py: the `entries` and `relationships` tables held in memory as
    sequences of rows in rowid order, with the AUTOINCREMENT counters that sqlite
    keeps in `sqlite_sequence`. */
module Store {
  import opened Wrappers
  import opened Models

  // ----- Filtering and keys -----

  /** The elements of s that p accepts, in their order: what `SELECT ... WHERE p`
      returns, and what `DELETE ... WHERE not p` leaves. */
  function Keep<T(!new)>(s: seq<T>, p: T -> bool): (r: seq<T>)
    ensures forall x :: x in r <==> x in s && p(x)
    ensures |r| <= |s|
  {
    if |s| == 0 then [] else (if p(s[0]) then [s[0]] else []) + Keep(s[1..], p)
  }

  /** Filtering a table that p wholly accepts changes nothing. */
  lemma {:induction false} KeepAll<T(!new)>(s: seq<T>, p: T -> bool)
    requires forall x :: x in s ==> p(x)
    ensures Keep(s, p) == s
  {
    if |s| > 0 {
      assert forall x :: x in s[1..] ==> x in s;
      KeepAll(s[1..], p);
      assert [s[0]] + s[1..] == s;
    }
  }

  /** The keys of s strictly increase from first to last. */
  ghost predicate Increasing<T>(s: seq<T>, key: T -> int) {
    forall i, j :: 0 <= i < j < |s| ==> key(s[i]) < key(s[j])
  }

  /** Filtering keeps the keys increasing. */
  lemma {:induction false} KeepIncreasing<T(!new)>(s: seq<T>, p: T -> bool, key: T -> int)
    requires Increasing(s, key)
    ensures Increasing(Keep(s, p), key)
  {
    if |s| > 0 {
      var t := Keep(s[1..], p);
      KeepIncreasing(s[1..], p, key);
      forall x | x in t ensures key(s[0]) < key(x) {
        var j :| 0 <= j < |s[1..]| && s[1..][j] == x;
        assert s[j + 1] == x;
      }
      if p(s[0]) {
        var r := [s[0]] + t;
        forall i, j | 0 <= i < j < |r| ensures key(r[i]) < key(r[j]) {
          assert r[j] == t[j - 1];
          if i > 0 {
            assert r[i] == t[i - 1];
          } else {
            assert r[j] in t;
          }
        }
      } else {
        assert Keep(s, p) == t;
      }
    }
  }

  /** A row appended with a key above every key in s keeps the keys increasing. */
  lemma IncreasingAppend<T>(s: seq<T>, x: T, key: T -> int)
    requires Increasing(s, key)
    requires forall y :: y in s ==> key(y) < key(x)
    ensures Increasing(s + [x], key)
  {
    var r := s + [x];
    forall i, j | 0 <= i < j < |r| ensures key(r[i]) < key(r[j]) {
      assert r[i] == s[i];
      if j == |s| {
        assert r[i] in s;
      } else {
        assert r[j] == s[j];
      }
    }
  }

  function EntryKey(x: EntryRow): int {
    x.id
  }

  function RelationshipKey(x: RelationshipRow): int {
    x.id
  }

  /** The row filters of the WHERE clauses. */
  function EntryNotId(id: int): EntryRow -> bool {
    (x: EntryRow) => x.id != id
  }

  function RelationshipNotId(rid: int): RelationshipRow -> bool {
    (x: RelationshipRow) => x.id != rid
  }

  function Touches(id: int): RelationshipRow -> bool {
    (x: RelationshipRow) => x.entryA == id || x.entryB == id
  }

  function Avoids(id: int): RelationshipRow -> bool {
    (x: RelationshipRow) => x.entryA != id && x.entryB != id
  }

  // ----- The entries table -----

  /** The five text columns the editor writes. */
  datatype EntryFields = EntryFields(title: string, description: string, category: string,
                                     tags: string, synonyms: string)

  /** The row stored for the given id and fields. */
  function RowOf(id: int, f: EntryFields): EntryRow {
    EntryRow(id, Some(f.title), Some(f.description), Some(f.category), Some(f.tags), Some(f.synonyms))
  }

  /** `SELECT * FROM entries WHERE id = ?` with `fetchone()`: the row with that id,
      or None when there is none. */
  function FindEntry(rows: seq<EntryRow>, id: int): (r: Option<EntryRow>)
    ensures r.Some? ==> r.value in rows && r.value.id == id
    ensures r.None? <==> forall x :: x in rows ==> x.id != id
  {
    if |rows| == 0 then None
    else if rows[0].id == id then Some(rows[0])
    else
      assert forall x :: x in rows ==> x == rows[0] || x in rows[1..];
      FindEntry(rows[1..], id)
  }

  /** With increasing ids, the row found for an id is the one row carrying it. */
  lemma FindEntryAt(rows: seq<EntryRow>, k: nat)
    requires Increasing(rows, EntryKey) && k < |rows|
    ensures FindEntry(rows, rows[k].id) == Some(rows[k])
  {
    var r := FindEntry(rows, rows[k].id);
    var j :| 0 <= j < |rows| && rows[j] == r.value;
    assert EntryKey(rows[j]) == EntryKey(rows[k]);
  }

  /** With increasing ids, a row of the table is what a lookup of its id finds. */
  lemma FindEntryMember(rows: seq<EntryRow>, x: EntryRow)
    requires Increasing(rows, EntryKey) && x in rows
    ensures FindEntry(rows, x.id) == Some(x)
  {
    var k :| 0 <= k < |rows| && rows[k] == x;
    FindEntryAt(rows, k);
  }

  /** `UPDATE entries SET ... WHERE id = ?`. */
  function UpdateRows(rows: seq<EntryRow>, id: int, f: EntryFields): (r: seq<EntryRow>)
    ensures |r| == |rows|
    ensures forall k :: 0 <= k < |r| ==> r[k].id == rows[k].id
  {
    seq(|rows|, k requires 0 <= k < |rows| => if rows[k].id == id then RowOf(id, f) else rows[k])
  }

  /** After `update_entry(id, ...)` a lookup of id finds the new fields when the id
      was stored and nothing otherwise; every other id finds what it found before. */
  lemma UpdateThenFind(rows: seq<EntryRow>, id: int, f: EntryFields, other: int)
    requires Increasing(rows, EntryKey)
    ensures FindEntry(UpdateRows(rows, id, f), id) ==
              if FindEntry(rows, id).Some? then Some(RowOf(id, f)) else None
    ensures other != id ==> FindEntry(UpdateRows(rows, id, f), other) == FindEntry(rows, other)
  {
    var r := UpdateRows(rows, id, f);
    UpdateIncreasing(rows, id, f);
    UpdateFindsAt(rows, id, f, id);
    UpdateFindsAt(rows, id, f, other);
  }

  lemma UpdateFindsAt(rows: seq<EntryRow>, id: int, f: EntryFields, q: int)
    requires Increasing(rows, EntryKey)
    ensures FindEntry(UpdateRows(rows, id, f), q) ==
              match FindEntry(rows, q)
              case None => None
              case Some(x) => Some(if q == id then RowOf(id, f) else x)
  {
    var r := UpdateRows(rows, id, f);
    UpdateIncreasing(rows, id, f);
    match FindEntry(rows, q)
    case None =>
      forall y | y in r ensures y.id != q {
        var k :| 0 <= k < |r| && r[k] == y;
        assert rows[k] in rows;
      }
    case Some(x) =>
      var k :| 0 <= k < |rows| && rows[k] == x;
      FindEntryAt(r, k);
  }

  /** An update keeps the ids, so it keeps them increasing. */
  lemma UpdateIncreasing(rows: seq<EntryRow>, id: int, f: EntryFields)
    requires Increasing(rows, EntryKey)
    ensures Increasing(UpdateRows(rows, id, f), EntryKey)
  {
    var r := UpdateRows(rows, id, f);
    forall i, j | 0 <= i < j < |r| ensures EntryKey(r[i]) < EntryKey(r[j]) {
      assert r[i].id == rows[i].id && r[j].id == rows[j].id;
    }
  }

  /** After `add_entry` a lookup of the new id finds the new row, and a lookup of
      any other id finds what it found before. */
  lemma AddThenFind(rows: seq<EntryRow>, row: EntryRow, other: int)
    requires forall x :: x in rows ==> x.id < row.id
    ensures FindEntry(rows + [row], row.id) == Some(row)
    ensures other != row.id ==> FindEntry(rows + [row], other) == FindEntry(rows, other)
  {
    var r := rows + [row];
    assert FindEntry(r, row.id).value in r;
    assert forall x :: x in r <==> x in rows || x == row;
    if other != row.id {
      match FindEntry(rows, other)
      case None =>
      case Some(x) => AppendFind(rows, row, other);
    }
  }

  /** Appending a row does not change what a lookup finds first. */
  lemma {:induction false} AppendFind(rows: seq<EntryRow>, row: EntryRow, q: int)
    requires FindEntry(rows, q).Some?
    ensures FindEntry(rows + [row], q) == FindEntry(rows, q)
  {
    if rows[0].id != q {
      assert (rows + [row])[1..] == rows[1..] + [row];
      AppendFind(rows[1..], row, q);
    }
  }

  /** `update_entry` on an unknown id changes nothing. */
  lemma UpdateUnknown(rows: seq<EntryRow>, id: int, f: EntryFields)
    requires FindEntry(rows, id).None?
    ensures UpdateRows(rows, id, f) == rows
  {
    var r := UpdateRows(rows, id, f);
    forall k | 0 <= k < |r| ensures r[k] == rows[k] {
      assert rows[k] in rows;
    }
  }

  /** `DELETE FROM entries WHERE id = ?`. */
  function EntriesWithout(rows: seq<EntryRow>, id: int): (r: seq<EntryRow>)
    ensures forall x :: x in r <==> x in rows && x.id != id
  {
    Keep(rows, EntryNotId(id))
  }

  /** After deleting id a lookup of id finds nothing, and a lookup of any other id
      finds what it found before. */
  lemma DeleteThenFind(rows: seq<EntryRow>, id: int, other: int)
    requires Increasing(rows, EntryKey)
    ensures FindEntry(EntriesWithout(rows, id), id).None?
    ensures other != id ==> FindEntry(EntriesWithout(rows, id), other) == FindEntry(rows, other)
  {
    var r := EntriesWithout(rows, id);
    KeepIncreasing(rows, EntryNotId(id), EntryKey);
    if other != id {
      match FindEntry(rows, other)
      case None =>
      case Some(x) =>
        assert x in r;
        FindEntryMember(r, x);
    }
  }

  /** `delete_entry` on an unknown id changes nothing. */
  lemma DeleteUnknown(rows: seq<EntryRow>, id: int)
    requires FindEntry(rows, id).None?
    ensures EntriesWithout(rows, id) == rows
  {
    KeepAll(rows, EntryNotId(id));
  }

  // ----- The relationships table -----

  /** The relationship rows `WHERE entry_a = ? OR entry_b = ?`. */
  function RelationshipsTouching(rows: seq<RelationshipRow>, id: int): (r: seq<RelationshipRow>)
    ensures forall x :: x in r <==> x in rows && (x.entryA == id || x.entryB == id)
  {
    Keep(rows, Touches(id))
  }

  /** What `DELETE FROM relationships WHERE entry_a = ? OR entry_b = ?` leaves. */
  function RelationshipsAvoiding(rows: seq<RelationshipRow>, id: int): (r: seq<RelationshipRow>)
    ensures forall x :: x in r <==> x in rows && x.entryA != id && x.entryB != id
  {
    Keep(rows, Avoids(id))
  }

  /** What `DELETE FROM relationships WHERE id = ?` leaves. */
  function RelationshipsWithout(rows: seq<RelationshipRow>, rid: int): (r: seq<RelationshipRow>)
    ensures forall x :: x in r <==> x in rows && x.id != rid
  {
    Keep(rows, RelationshipNotId(rid))
  }

  /** The relationship rows split exactly into those touching an entry and those
      the cascade keeps. */
  lemma TouchingOrAvoiding(rows: seq<RelationshipRow>, id: int, x: RelationshipRow)
    requires x in rows
    ensures x in RelationshipsTouching(rows, id) <==> x !in RelationshipsAvoiding(rows, id)
  {
  }

  // ----- The store -----

  /** `Database`, over a fresh database file. */
  class Database {
    var entries: seq<EntryRow>
    var relationships: seq<RelationshipRow>
    /** The largest entry id ever handed out. */
    var entrySeq: nat
    /** The largest relationship id ever handed out. */
    var relationshipSeq: nat

    /** Rows are in increasing id order, and no id lies above its counter. */
    ghost predicate Valid()
      reads this
    {
      && Increasing(entries, EntryKey)
      && Increasing(relationships, RelationshipKey)
      && (forall x :: x in entries ==> 0 < x.id <= entrySeq)
      && (forall x :: x in relationships ==> 0 < x.id <= relationshipSeq)
    }

    constructor()
      ensures Valid()
      ensures entries == [] && relationships == [] && entrySeq == 0 && relationshipSeq == 0
    {
      entries, relationships, entrySeq, relationshipSeq := [], [], 0, 0;
    }

    /** `add_entry`: the new row takes the next AUTOINCREMENT id, which no entry
        has ever had. */
    method AddEntry(title: string, description: string := "", category: string := "",
                    tags: string := "", synonyms: string := "") returns (id: int)
      requires Valid()
      modifies this`entries, this`entrySeq
      ensures Valid()
      ensures id == old(entrySeq) + 1 && entrySeq == id
      ensures entries == old(entries) + [RowOf(id, EntryFields(title, description, category, tags, synonyms))]
      ensures forall x :: x in old(entries) ==> x.id < id
    {
      id := entrySeq + 1;
      var row := RowOf(id, EntryFields(title, description, category, tags, synonyms));
      IncreasingAppend(entries, row, EntryKey);
      entries, entrySeq := entries + [row], id;
    }

    /** `get_entry`. */
    function GetEntry(id: int): Option<EntryRow>
      reads this
    {
      FindEntry(entries, id)
    }

    /** `update_entry`: rewrites the five columns of the row with that id. */
    method UpdateEntry(id: int, f: EntryFields)
      requires Valid()
      modifies this`entries
      ensures Valid()
      ensures entries == UpdateRows(old(entries), id, f)
    {
      UpdateIncreasing(entries, id, f);
      entries := UpdateRows(entries, id, f);
    }

    /** `delete_entry`: relationships that mention the entry stay behind. */
    method DeleteEntry(id: int)
      requires Valid()
      modifies this`entries
      ensures Valid()
      ensures entries == EntriesWithout(old(entries), id)
    {
      KeepIncreasing(entries, EntryNotId(id), EntryKey);
      entries := EntriesWithout(entries, id);
    }

    /** `delete_entry_and_relationships`: the relationships that mention the entry
        go first, then the entry. */
    method DeleteEntryAndRelationships(id: int)
      requires Valid()
      modifies this`entries, this`relationships
      ensures Valid()
      ensures relationships == RelationshipsAvoiding(old(relationships), id)
      ensures entries == EntriesWithout(old(entries), id)
    {
      KeepIncreasing(relationships, Avoids(id), RelationshipKey);
      relationships := RelationshipsAvoiding(relationships, id);
      KeepIncreasing(entries, EntryNotId(id), EntryKey);
      entries := EntriesWithout(entries, id);
    }

    /** `add_relationship`: the endpoints are not checked against the entries. */
    method AddRelationship(a: int, b: int, relType: string := "") returns (id: int)
      requires Valid()
      modifies this`relationships, this`relationshipSeq
      ensures Valid()
      ensures id == old(relationshipSeq) + 1 && relationshipSeq == id
      ensures relationships == old(relationships) + [RelationshipRow(id, a, b, Some(relType))]
      ensures forall x :: x in old(relationships) ==> x.id < id
    {
      id := relationshipSeq + 1;
      var row := RelationshipRow(id, a, b, Some(relType));
      IncreasingAppend(relationships, row, RelationshipKey);
      relationships, relationshipSeq := relationships + [row], id;
    }

    /** `get_relationships_for_entry`. */
    function GetRelationshipsForEntry(id: int): seq<RelationshipRow>
      reads this
    {
      RelationshipsTouching(relationships, id)
    }

    /** `delete_relationship`. */
    method DeleteRelationship(rid: int)
      requires Valid()
      modifies this`relationships
      ensures Valid()
      ensures relationships == RelationshipsWithout(old(relationships), rid)
    {
      KeepIncreasing(relationships, RelationshipNotId(rid), RelationshipKey);
      relationships := RelationshipsWithout(relationships, rid);
    }
  }
}
