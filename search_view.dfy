/** The search tab: a prefix search over headwords, case- and
    diacritic-insensitive and sorted by headword, and the highlight of the
    search text inside each shown row. */
module SearchView {
  import opened Entries
  import opened Text
  import opened FetchRequests
  import opened Store

  /** The request `fetchDataInBackground` builds: always sorted by
      headword, with the `BEGINSWITH[cd]` predicate only for a non-empty
      query. */
  function Request(query: string): (req: FetchRequest)
    ensures req.sortKey == English
    ensures query == [] <==> req.filter == All
  {
    if query == [] then FetchRequest(All, English)
    else FetchRequest(EnglishBeginsWith(query), English)
  }

  /** Whether or not the predicate is set, the request admits exactly the
      records whose folded headword starts with the folded query. */
  lemma RequestAdmitsPrefixMatches(query: string, e: Entry)
    ensures Admits(Request(query).filter, e) <==> BeginsWithFolded(e.english, query)
  {
    if query == [] {
      EmptyQueryMatchesAll(e.english);
    }
  }

  /** `fetchDataInBackground(query:completion:)`, as the list handed to the
      completion; `failed` stands for the fetch throwing. */
  function FetchDataInBackground(m: map<Id, Entry>, query: string, failed: bool): (r: seq<Entry>)
    requires WellKeyed(m)
    ensures failed ==> r == []
    ensures forall i, j | 0 <= i < j < |r| :: LexLeq(r[i].english, r[j].english)
    ensures forall i | 0 <= i < |r| :: r[i].id in m && m[r[i].id] == r[i] && BeginsWithFolded(r[i].english, query)
    ensures !failed ==> forall k | k in m && BeginsWithFolded(m[k].english, query) :: m[k] in r
    ensures DistinctIds(r)
  {
    if failed then []
    else
      var r := Fetch(m, Request(query));
      forall e ensures Admits(Request(query).filter, e) <==> BeginsWithFolded(e.english, query) {
        RequestAdmitsPrefixMatches(query, e);
      }
      r
  }

  /** `fetchInitialData` searches with the empty query and so lists every
      record of the store. */
  lemma EmptyQueryListsEverything(m: map<Id, Entry>)
    requires WellKeyed(m)
    ensures forall k | k in m :: m[k] in FetchDataInBackground(m, "", false)
  {
    forall k | k in m ensures BeginsWithFolded(m[k].english, "") {
      EmptyQueryMatchesAll(m[k].english);
    }
  }

  /** A half-open range of character positions. */
  datatype Range = Range(start: nat, end: nat)

  /** The range `highlightedText` styles: the first place where `text`
      matches `searchText` ignoring case and diacritics. The empty search
      text has no range. */
  function HighlightedRange(text: string, searchText: string): (r: Option<Range>)
    ensures r.Some? ==> searchText != [] && r.value.end == r.value.start + |searchText| <= |text|
    ensures r.Some? ==> FoldString(text[r.value.start..r.value.end]) == FoldString(searchText)
    ensures r.Some? ==> forall j | 0 <= j < r.value.start :: !OccursAt(FoldString(text), FoldString(searchText), j)
    ensures r.None? ==> searchText == [] || forall j :: !OccursAt(FoldString(text), FoldString(searchText), j)
  {
    if searchText == [] then None
    else
      match FindFrom(FoldString(text), FoldString(searchText), 0)
      case None => None
      case Some(i) =>
        assert FoldString(text[i..i + |searchText|]) == FoldString(text)[i..i + |searchText|];
        Some(Range(i, i + |searchText|))
  }

  /** Every row a non-empty search shows has its headword highlighted from
      the first character, over the length of the search text. */
  lemma MatchHighlightsPrefix(english: string, query: string)
    requires BeginsWithFolded(english, query) && query != []
    ensures HighlightedRange(english, query) == Some(Range(0, |query|))
  {
    assert OccursAt(FoldString(english), FoldString(query), 0);
  }

  /** The search tab's state: the text typed, the rows shown and whether
      the first load is still running. */
  class SearchScreen {
    var searchText: string
    var words: seq<Entry>
    var isLoading: bool

    constructor ()
      ensures searchText == "" && words == [] && isLoading
    {
      searchText := "";
      words := [];
      isLoading := true;
    }

    /** `fetchInitialData`: shows every record, then stops loading. The
        store is only read. */
    method FetchInitialData(c: Context, failed: bool)
      requires c.Valid()
      modifies this
      ensures words == FetchDataInBackground(c.entries, "", failed)
      ensures !isLoading && searchText == old(searchText)
      ensures unchanged(c)
    {
      isLoading := true;
      words := FetchDataInBackground(c.entries, "", failed);
      isLoading := false;
    }

    /** The `onChange(of: searchText)` handler: the rows become the results
        for the new text. The store is only read. */
    method SearchTextChanged(c: Context, text: string, failed: bool)
      requires c.Valid()
      modifies this
      ensures searchText == text && isLoading == old(isLoading)
      ensures words == FetchDataInBackground(c.entries, text, failed)
      ensures unchanged(c)
    {
      searchText := text;
      words := FetchDataInBackground(c.entries, text, failed);
    }
  }
}
