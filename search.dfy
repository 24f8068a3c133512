/** search.py: the searchable text of each entry and the blank-query guard of the
    fuzzy search. The scoring itself (rapidfuzz `process.extract`) is a parameter. */
module Search {
  import opened Wrappers
  import opened Text
  import opened Models

  /** What `prepare_search_data` accepts: a dict-like database row, or an `Entry` object. */
  datatype SearchSource = RowSource(row: EntryRow) | EntrySource(entry: Entry)

  function SourceId(e: SearchSource): int {
    match e
    case RowSource(r) => r.id
    case EntrySource(x) => x.id
  }

  /** `f"{title} {description} {category} {tags} {synonyms}"`. */
  function Combined(title: string, description: string, category: string, tags: string, synonyms: string): string {
    title + " " + description + " " + category + " " + tags + " " + synonyms
  }

  /** The combined text starts with the title and ends with the synonyms, each
      set off by a space, and has room for exactly the five fields and four spaces. */
  lemma CombinedParts(title: string, description: string, category: string, tags: string, synonyms: string)
    ensures var s := Combined(title, description, category, tags, synonyms);
            && |s| == |title| + |description| + |category| + |tags| + |synonyms| + 4
            && s[..|title|] == title && s[|title|] == ' '
            && s[|s| - |synonyms|..] == synonyms && s[|s| - |synonyms| - 1] == ' '
  {
  }

  /** The searchable text of one source: a row's NULL or empty column counts as "",
      an `Entry` object's fields are used as they are. */
  function SearchText(e: SearchSource): string {
    match e
    case RowSource(r) =>
      Combined(Or(r.title, ""), Or(r.description, ""), Or(r.category, ""), Or(r.tags, ""), Or(r.synonyms, ""))
    case EntrySource(x) =>
      Combined(x.title, x.description, x.category, x.tags, x.synonyms)
  }

  /** A row whose text columns are all NULL or empty is searched as four spaces. */
  lemma BlankRowText(id: int, t: Option<string>, d: Option<string>, c: Option<string>, g: Option<string>, s: Option<string>)
    requires t in {None, Some("")} && d in {None, Some("")} && c in {None, Some("")}
    requires g in {None, Some("")} && s in {None, Some("")}
    ensures SearchText(RowSource(EntryRow(id, t, d, c, g, s))) == "    "
  {
  }

  /** The dictionary `prepare_search_data` fills, one source after the other. */
  function SearchData(items: seq<SearchSource>): map<int, string>
  {
    if |items| == 0 then map[]
    else
      var e := items[|items| - 1];
      SearchData(items[..|items| - 1])[SourceId(e) := SearchText(e)]
  }

  /** `prepare_search_data`. */
  method PrepareSearchData(items: seq<SearchSource>) returns (d: map<int, string>)
    ensures d == SearchData(items)
  {
    d := map[];
    for i := 0 to |items|
      invariant d == SearchData(items[..i])
    {
      var e := items[i];
      d := d[SourceId(e) := SearchText(e)];
      assert items[..i + 1][..i] == items[..i];
    }
    assert items[..|items|] == items;
  }

  /** The keys are exactly the ids of the sources. */
  lemma {:induction false} SearchDataKeys(items: seq<SearchSource>, id: int)
    ensures id in SearchData(items) <==> exists k :: 0 <= k < |items| && SourceId(items[k]) == id
  {
    if |items| > 0 {
      var n := |items| - 1;
      SearchDataKeys(items[..n], id);
      if id in SearchData(items[..n]) {
        var k :| 0 <= k < n && SourceId(items[..n][k]) == id;
        assert items[k] == items[..n][k];
      }
      if exists k :: 0 <= k < |items| && SourceId(items[k]) == id {
        var k :| 0 <= k < |items| && SourceId(items[k]) == id;
        if k < n {
          assert SourceId(items[..n][k]) == id;
        }
      }
    }
  }

  /** The text kept for an id is that of the last source carrying it: a later
      source with the same id overwrites an earlier one. */
  lemma {:induction false} SearchDataLast(items: seq<SearchSource>, k: nat)
    requires k < |items|
    requires forall j :: k < j < |items| ==> SourceId(items[j]) != SourceId(items[k])
    ensures SourceId(items[k]) in SearchData(items)
    ensures SearchData(items)[SourceId(items[k])] == SearchText(items[k])
  {
    var n := |items| - 1;
    var front := items[..n];
    var id, last := SourceId(items[k]), SourceId(items[n]);
    var m := SearchData(front);
    assert SearchData(items) == m[last := SearchText(items[n])];
    if k < n {
      assert forall j :: k < j < n ==> front[j] == items[j];
      SearchDataLast(front, k);
      assert front[k] == items[k];
      assert last != id && id in m && m[id] == SearchText(items[k]);
    }
  }

  /** One result of `process.extract`: the matched text, its score and its key. */
  datatype Match = Match(choice: string, score: real, key: int)

  /** Python's `int()` of a float: truncation toward zero. */
  function Trunc(x: real): (n: int)
    ensures x >= 0.0 ==> n as real <= x < n as real + 1.0
    ensures x < 0.0 ==> n as real - 1.0 < x <= n as real
  {
    if x >= 0.0 then x.Floor else -((-x).Floor)
  }

  /** `fuzzy_search(query, entries, limit)`, with rapidfuzz's ranking given as `extract`:
      a blank query gives no results, scored or not. */
  function FuzzySearch(query: string, items: seq<SearchSource>, limit: nat,
                       extract: (string, map<int, string>, nat) -> seq<Match>): (r: seq<(int, int)>)
    ensures AllSpace(query) ==> r == []
    ensures !AllSpace(query) ==>
              var ms := extract(query, SearchData(items), limit);
              |r| == |ms| && forall k :: 0 <= k < |r| ==> r[k] == (ms[k].key, Trunc(ms[k].score))
  {
    StripBlank(query);
    if |Strip(query)| == 0 then []
    else
      var ms := extract(query, SearchData(items), limit);
      seq(|ms|, k requires 0 <= k < |ms| => (ms[k].key, Trunc(ms[k].score)))
  }
}
