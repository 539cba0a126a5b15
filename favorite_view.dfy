/** The favourites tab: the records marked favourite, sorted by headword,
    with swipe-to-delete. */
module FavoriteView {
  import opened Entries
  import opened Text
  import opened FetchRequests
  import opened Store
  import opened Listings
  import DetailView
  import AddWordView

  /** `isFavorite == true`, ascending `english`. */
  const WordsRequest := FetchRequest(IsFavorite, English)

  /** The rows of the tab: exactly the favourites, each once, in
      non-decreasing order of headword. */
  function Words(m: map<Id, Entry>): (r: seq<Entry>)
    requires WellKeyed(m)
    ensures forall i, j | 0 <= i < j < |r| :: LexLeq(r[i].english, r[j].english)
    ensures forall i | 0 <= i < |r| :: r[i].id in m && m[r[i].id] == r[i] && r[i].isFavorite
    ensures forall k | k in m && m[k].isFavorite :: m[k] in r
    ensures DistinctIds(r)
  {
    Fetch(m, WordsRequest)
  }

  /** `deleteWords(at:)`: deletes the rows at `offsets` of the tab as shown. */
  method DeleteWords(c: Context, offsets: set<nat>)
    requires c.Valid()
    requires forall i | i in offsets :: i < |Words(c.entries)|
    modifies c
    ensures c.Valid()
    ensures c.entries == old(c.entries) - Targets(Words(old(c.entries)), offsets)
    ensures c.nextId == old(c.nextId)
  {
    var words := Words(c.entries);
    DeleteAtOffsets(c, words, offsets);
  }

  /** Deleting rows of the tab removes exactly the favourites on those rows;
      every record that is not a favourite survives, and survivors keep
      their fields. */
  lemma DeleteWordsRemovesExactly(m: map<Id, Entry>, offsets: set<nat>)
    requires WellKeyed(m)
    requires forall i | i in offsets :: i < |Words(m)|
    ensures var r := Words(m); var after := m - Targets(r, offsets);
      forall j | 0 <= j < |r| :: r[j].id in after <==> j !in offsets
    ensures var after := m - Targets(Words(m), offsets);
      forall k | k in m && !m[k].isFavorite :: k in after
    ensures var after := m - Targets(Words(m), offsets);
      forall k | k in after :: k in m && after[k] == m[k]
    ensures |m - Targets(Words(m), offsets)| == |m| - |offsets|
  {
    DeleteFromListing(m, WordsRequest, offsets);
  }

  /** A word saved from the "Add Word" sheet is listed among the favourites. */
  lemma AddedWordIsListed(s: Snapshot, english: string, mon: string)
    requires ValidSnapshot(s)
    ensures var t := AddWordView.WithWordAdded(s, english, mon);
      AddWordView.NewWord(s.nextId, english, mon) in Words(t.entries)
  {
    var t := AddWordView.WithWordAdded(s, english, mon);
    assert s.nextId in t.entries;
  }

  /** Toggling the favourite flag of a record moves it into or out of the
      tab: afterwards it is listed iff it was not listed before. */
  lemma ToggleMovesInOrOut(m: map<Id, Entry>, id: Id)
    requires WellKeyed(m) && id in m
    ensures var t := DetailView.WithFavoriteToggled(m, id);
      (exists i | 0 <= i < |Words(t)| :: Words(t)[i].id == id) <==>
      !(exists i | 0 <= i < |Words(m)| :: Words(m)[i].id == id)
  {
    var t := DetailView.WithFavoriteToggled(m, id);
    if m[id].isFavorite {
      assert m[id] in Words(m);
    } else {
      assert t[id] in Words(t);
    }
  }
}
