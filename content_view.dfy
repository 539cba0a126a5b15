/** The list of all words: every record sorted by headword, with a
    placeholder "add" button and swipe-to-delete. */
module ContentView {
  import opened Entries
  import opened Text
  import opened FetchRequests
  import opened Store
  import opened Listings

  /** The `@FetchRequest` of the list: no predicate, ascending `english`. */
  const ItemsRequest := FetchRequest(All, English)

  /** The rows of the list: every record exactly once, in non-decreasing
      order of headword. */
  function Items(m: map<Id, Entry>): (r: seq<Entry>)
    requires WellKeyed(m)
    ensures forall i, j | 0 <= i < j < |r| :: LexLeq(r[i].english, r[j].english)
    ensures forall i | 0 <= i < |r| :: r[i].id in m && m[r[i].id] == r[i]
    ensures forall k | k in m :: m[k] in r
    ensures |r| == |m|
  {
    var r := Fetch(m, ItemsRequest);
    EveryRecordIsListed(m);
    r
  }

  lemma EveryRecordIsListed(m: map<Id, Entry>)
    requires WellKeyed(m)
    ensures |Fetch(m, ItemsRequest)| == |m|
  {
    ListingSize(m, ItemsRequest);
    assert Matching(m, All) == m.Keys;
  }

  /** The attribute values a new `MonDic` object starts with before any
      assignment: the data model's defaults, which `addItem` does not
      overwrite. */
  datatype ModelDefaults = ModelDefaults(mon: string, isFavorite: bool, lastViewed: Option<Timestamp>)

  /** The store after `addItem`: one more record, headword "love". */
  function WithItemAdded(s: Snapshot, d: ModelDefaults): (t: Snapshot)
    requires ValidSnapshot(s)
    ensures ValidSnapshot(t)
    ensures |t.entries| == |s.entries| + 1
    ensures forall k | k in s.entries :: k in t.entries && t.entries[k] == s.entries[k]
    ensures forall k | k in t.entries && k !in s.entries :: t.entries[k].english == "love"
  {
    Snapshot(s.entries[s.nextId := Entry(s.nextId, "love", d.mon, d.isFavorite, d.lastViewed)], s.nextId + 1)
  }

  /** `addItem`: a new object whose only assigned attribute is `english`. */
  method AddItem(c: Context, d: ModelDefaults) returns (id: Id)
    requires c.Valid()
    modifies c
    ensures c.Valid()
    ensures id == old(c.nextId) && id !in old(c.entries)
    ensures c.State() == WithItemAdded(old(c.State()), d)
  {
    id := c.Insert("love", d.mon, d.isFavorite, d.lastViewed);
  }

  /** `deleteItems(offsets:)`: deletes the rows at `offsets` of the list as
      shown. Offsets come from the rows on screen, so each is in range. */
  method DeleteItems(c: Context, offsets: set<nat>)
    requires c.Valid()
    requires forall i | i in offsets :: i < |Items(c.entries)|
    modifies c
    ensures c.Valid()
    ensures c.entries == old(c.entries) - Targets(Items(old(c.entries)), offsets)
    ensures c.nextId == old(c.nextId)
  {
    var items := Items(c.entries);
    DeleteAtOffsets(c, items, offsets);
  }

  /** Deleting rows of the list removes exactly the records on those rows:
      a row's record survives iff its offset was not chosen, survivors keep
      their fields, and the store shrinks by the number of offsets. */
  lemma DeleteItemsRemovesExactly(m: map<Id, Entry>, offsets: set<nat>)
    requires WellKeyed(m)
    requires forall i | i in offsets :: i < |Items(m)|
    ensures var r := Items(m); var after := m - Targets(r, offsets);
      forall j | 0 <= j < |r| :: r[j].id in after <==> j !in offsets
    ensures var after := m - Targets(Items(m), offsets);
      forall k | k in after :: k in m && after[k] == m[k]
    ensures |m - Targets(Items(m), offsets)| == |m| - |offsets|
  {
    DeleteFromListing(m, ItemsRequest, offsets);
  }
}
