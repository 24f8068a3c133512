/** The record types: the `Entry` and `Relationship` classes of models.py with
    their `__repr__` texts, and the rows returned by the sqlite store, whose
    nullable text columns may hold NULL (`None`). */
module Models {
  import opened Wrappers
  import opened Text
  import opened Seqs

  /** models.py `Entry`; the optional constructor arguments default to "". */
  datatype Entry = Entry(id: int, title: string, description: string := "",
                         category: string := "", tags: string := "", synonyms: string := "")

  /** models.py `Relationship`; its `rel_type` argument, default "", is kept as the type. */
  datatype Relationship = Relationship(id: int, entryA: int, entryB: int, relType: string := "")

  /** A row of the `entries` table. Only `id` is never NULL in every reader's view:
      the text columns are Option<string>, None standing for NULL. */
  datatype EntryRow = EntryRow(id: int, title: Option<string>, description: Option<string>,
                               category: Option<string>, tags: Option<string>,
                               synonyms: Option<string>)

  /** A row of the `relationships` table. */
  datatype RelationshipRow = RelationshipRow(id: int, entryA: int, entryB: int, relType: Option<string>)

  /** Python's `value or fallback` on a text column: NULL and "" are both falsy. */
  function Or(v: Option<string>, fallback: string): (r: string)
    ensures r == fallback || (v == Some(r) && r != "")
    ensures r == fallback <== (v == None || v == Some(""))
    ensures v.Some? && v.value != "" ==> r == v.value
  {
    if v.Some? && v.value != "" then v.value else fallback
  }

  /** A column interpolated into a Python f-string: NULL prints as "None". */
  function FormatColumn(v: Option<string>): string {
    match v
    case Some(s) => s
    case None => "None"
  }

  /** The defaults of the two constructors: an entry made from an id and a title has
      empty text fields, and a relationship made without a type has the type "". */
  lemma EntryDefaults(id: int, title: string, a: int, b: int)
    ensures Entry(id, title) == Entry(id, title, "", "", "", "")
    ensures Relationship(id, a, b) == Relationship(id, a, b, "")
  {
  }

  /** `repr(Entry)`: "<Entry {id}: {title}>" (the pieces nested to the right). */
  function EntryRepr(e: Entry): (s: string)
    ensures |s| >= 10 && s[..7] == "<Entry " && s[|s| - 1] == '>'
  {
    "<Entry " + ((IntToString(e.id) + (": " + e.title)) + ">")
  }

  /** Reads the id and title back out of an `Entry` repr. */
  function ParseEntryRepr(s: string): Option<(int, string)> {
    if |s| < 8 || s[..7] != "<Entry " || s[|s| - 1] != '>' then None
    else ParseEntryBody(s[7..|s| - 1])
  }

  function ParseEntryBody(body: string): Option<(int, string)> {
    match ReadIntPrefix(body)
    case None => None
    case Some((id, k)) =>
      if |body| >= k + 2 && body[k..k + 2] == ": " then Some((id, body[k + 2..])) else None
  }

  lemma ParseEntryReprOf(body: string)
    ensures ParseEntryRepr("<Entry " + (body + ">")) == ParseEntryBody(body)
  {
    Split3("<Entry ", body, ">");
  }

  lemma ParseEntryBodyOf(id: int, title: string)
    ensures ParseEntryBody(IntToString(id) + (": " + title)) == Some((id, title))
  {
    ReadIntPrefixOfString(id, ": " + title);
    Split3(IntToString(id), ": ", title);
  }

  /** The repr of an entry determines its id and title. */
  lemma EntryReprRoundTrip(e: Entry)
    ensures ParseEntryRepr(EntryRepr(e)) == Some((e.id, e.title))
  {
    ParseEntryReprOf(IntToString(e.id) + (": " + e.title));
    ParseEntryBodyOf(e.id, e.title);
  }

  /** `repr(Relationship)`: "<Relationship {id}: {entry_a} -({type})-> {entry_b}>"
      (the pieces nested to the right). */
  function RelationshipRepr(r: Relationship): (s: string)
    ensures |s| >= 24 && s[..14] == "<Relationship " && s[|s| - 1] == '>'
  {
    "<Relationship " + (RelationshipBody(r) + ">")
  }

  /** The text between "<Relationship " and ">". */
  function RelationshipBody(r: Relationship): string {
    IntToString(r.id) + (": " + (IntToString(r.entryA) + (" -(" + (r.relType + (")-> " + IntToString(r.entryB))))))
  }

  /** Reads id, endpoints and type back out of a `Relationship` repr. The type
      text may itself contain ")-> ", so the last endpoint is read from the end. */
  function ParseRelationshipRepr(s: string): Option<Relationship> {
    if |s| < 15 || s[..14] != "<Relationship " || s[|s| - 1] != '>' then None
    else ParseRelationshipId(s[14..|s| - 1])
  }

  function ParseRelationshipId(body: string): Option<Relationship> {
    match ReadIntPrefix(body)
    case None => None
    case Some((id, k)) =>
      if |body| < k + 2 || body[k..k + 2] != ": " then None
      else ParseRelationshipSource(id, body[k + 2..])
  }

  function ParseRelationshipSource(id: int, rest: string): Option<Relationship> {
    match ReadIntPrefix(rest)
    case None => None
    case Some((a, k)) =>
      if |rest| < k + 3 || rest[k..k + 3] != " -(" then None
      else ParseRelationshipTail(id, a, rest[k + 3..])
  }

  function ParseRelationshipTail(id: int, a: int, rest: string): Option<Relationship> {
    match ReadIntSuffix(rest)
    case None => None
    case Some((b, k)) =>
      var front := rest[..|rest| - k];
      if |front| < 4 || front[|front| - 4..] != ")-> " then None
      else Some(Relationship(id, a, b, front[..|front| - 4]))
  }

  lemma ParseRelationshipTailOf(id: int, a: int, t: string, b: int)
    ensures ParseRelationshipTail(id, a, t + (")-> " + IntToString(b))) == Some(Relationship(id, a, b, t))
  {
    var front := t + ")-> ";
    var nb := IntToString(b);
    assert front[|front| - 1] == ' ';
    AppendAssoc(t, ")-> ", nb);
    ReadIntSuffixOfString(front, b);
    SplitAppend(front, nb);
    SplitAppend(t, ")-> ");
  }

  lemma ParseRelationshipSourceOf(id: int, a: int, tail: string)
    ensures ParseRelationshipSource(id, IntToString(a) + (" -(" + tail)) == ParseRelationshipTail(id, a, tail)
  {
    var na := IntToString(a);
    ReadIntPrefixOfString(a, " -(" + tail);
    Split3(na, " -(", tail);
  }

  lemma ParseRelationshipIdOf(id: int, rest: string)
    ensures ParseRelationshipId(IntToString(id) + (": " + rest)) == ParseRelationshipSource(id, rest)
  {
    var ni := IntToString(id);
    ReadIntPrefixOfString(id, ": " + rest);
    Split3(ni, ": ", rest);
  }

  lemma ParseRelationshipReprOf(body: string)
    ensures ParseRelationshipRepr("<Relationship " + (body + ">")) == ParseRelationshipId(body)
  {
    Split3("<Relationship ", body, ">");
  }

  /** The repr of a relationship determines all four of its fields. */
  lemma RelationshipReprRoundTrip(r: Relationship)
    ensures ParseRelationshipRepr(RelationshipRepr(r)) == Some(r)
  {
    var tail := r.relType + (")-> " + IntToString(r.entryB));
    var rest := IntToString(r.entryA) + (" -(" + tail);
    var body := RelationshipBody(r);
    assert body == IntToString(r.id) + (": " + rest);
    ParseRelationshipReprOf(body);
    ParseRelationshipIdOf(r.id, rest);
    ParseRelationshipSourceOf(r.id, r.entryA, tail);
    ParseRelationshipTailOf(r.id, r.entryA, r.relType, r.entryB);
  }
}
