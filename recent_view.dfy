/** The recently viewed tab: the records that carry a last-viewed stamp,
    oldest first, with swipe-to-delete. */
module RecentView {
  import opened Entries
  import opened FetchRequests
  import opened Store
  import opened Listings
  import DetailView

  /** `lastViewed != nil`, ascending `lastViewed`. */
  const WordsRequest := FetchRequest(HasLastViewed, LastViewed)

  /** The rows of the tab: exactly the stamped records, each once, in
      non-decreasing order of stamp (oldest first). */
  function Words(m: map<Id, Entry>): (r: seq<Entry>)
    requires WellKeyed(m)
    ensures forall i | 0 <= i < |r| :: r[i].id in m && m[r[i].id] == r[i] && r[i].lastViewed.Some?
    ensures forall k | k in m && m[k].lastViewed.Some? :: m[k] in r
    ensures forall i, j | 0 <= i < j < |r| :: r[i].lastViewed.value <= r[j].lastViewed.value
    ensures DistinctIds(r)
  {
    var r := Fetch(m, WordsRequest);
    StampOrder(r);
    r
  }

  lemma StampOrder(r: seq<Entry>)
    requires Sorted(LastViewed, r)
    requires forall i | 0 <= i < |r| :: r[i].lastViewed.Some?
    ensures forall i, j | 0 <= i < j < |r| :: r[i].lastViewed.value <= r[j].lastViewed.value
  {
    forall i, j | 0 <= i < j < |r| ensures r[i].lastViewed.value <= r[j].lastViewed.value {
      assert KeyLeq(LastViewed, r[i], r[j]);
    }
  }

  /** `deleteItems(offsets:)`: deletes the rows at `offsets` of the tab as
      shown. */
  method DeleteItems(c: Context, offsets: set<nat>)
    requires c.Valid()
    requires forall i | i in offsets :: i < |Words(c.entries)|
    modifies c
    ensures c.Valid()
    ensures c.entries == old(c.entries) - Targets(Words(old(c.entries)), offsets)
    ensures c.nextId == old(c.nextId)
  {
    var words := Words(c.entries);
    DeleteAtOffsets(c, words, offsets);
  }

  /** Deleting rows of the tab removes exactly the records on those rows;
      every record without a stamp survives, and survivors keep their
      fields. */
  lemma DeleteItemsRemovesExactly(m: map<Id, Entry>, offsets: set<nat>)
    requires WellKeyed(m)
    requires forall i | i in offsets :: i < |Words(m)|
    ensures var r := Words(m); var after := m - Targets(r, offsets);
      forall j | 0 <= j < |r| :: r[j].id in after <==> j !in offsets
    ensures var after := m - Targets(Words(m), offsets);
      forall k | k in m && m[k].lastViewed.None? :: k in after
    ensures var after := m - Targets(Words(m), offsets);
      forall k | k in after :: k in m && after[k] == m[k]
    ensures |m - Targets(Words(m), offsets)| == |m| - |offsets|
  {
    DeleteFromListing(m, WordsRequest, offsets);
  }

  /** A record stamped from the detail screen is listed in the tab. */
  lemma StampedRecordIsListed(m: map<Id, Entry>, id: Id, now: Timestamp)
    requires WellKeyed(m) && id in m
    ensures var t := DetailView.WithLastViewed(m, id, now);
      t[id] in Words(t)
  {
  }

  /** A record stamped later than every other stamp is the last row: the
      tab is oldest first, so viewing a word again moves it to the end. */
  lemma LatestStampComesLast(m: map<Id, Entry>, id: Id, now: Timestamp)
    requires WellKeyed(m) && id in m
    requires forall k | k in m && k != id && m[k].lastViewed.Some? :: m[k].lastViewed.value < now
    ensures var r := Words(DetailView.WithLastViewed(m, id, now));
      |r| > 0 && r[|r| - 1].id == id
  {
    var t := DetailView.WithLastViewed(m, id, now);
    var r := Words(t);
    assert t[id] in r;
    var j :| 0 <= j < |r| && r[j] == t[id];
    assert r[|r| - 1].lastViewed.value >= now;
  }
}
