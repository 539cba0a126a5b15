/** The "Add Word" sheet: a headword and a definition typed by the user,
    saved as a new favourite. */
module AddWordView {
  import opened Entries
  import opened Store

  /** The Save button is enabled only when both fields hold text. */
  predicate CanSave(english: string, mon: string)
  {
    !(english == [] || mon == [])
  }

  /** The record `addWord` creates: a favourite that has never been viewed. */
  function NewWord(id: Id, english: string, mon: string): (e: Entry)
    ensures e.id == id && e.english == english && e.mon == mon
    ensures e.isFavorite && e.lastViewed.None?
  {
    Entry(id, english, mon, true, None)
  }

  /** The store after a word is added under the fresh id of `s`. */
  function WithWordAdded(s: Snapshot, english: string, mon: string): (t: Snapshot)
    requires ValidSnapshot(s)
    ensures ValidSnapshot(t)
    ensures |t.entries| == |s.entries| + 1
    ensures forall k | k in s.entries :: k in t.entries && t.entries[k] == s.entries[k]
    ensures forall k | k in t.entries && k !in s.entries :: t.entries[k] == NewWord(k, english, mon)
  {
    Snapshot(s.entries[s.nextId := NewWord(s.nextId, english, mon)], s.nextId + 1)
  }

  /** `addWord`: one new record under a fresh id; every existing record
      stays as it was. */
  method AddWord(c: Context, english: string, mon: string) returns (id: Id)
    requires c.Valid()
    modifies c
    ensures c.Valid()
    ensures id == old(c.nextId) && id !in old(c.entries)
    ensures c.State() == WithWordAdded(old(c.State()), english, mon)
  {
    id := c.Insert(english, mon, true, None);
  }

  /** Pressing Save: with both fields filled the word is added, and
      otherwise the disabled button does nothing. */
  method SaveTapped(c: Context, english: string, mon: string) returns (added: Option<Id>)
    requires c.Valid()
    modifies c
    ensures c.Valid()
    ensures added.Some? <==> CanSave(english, mon)
    ensures added.None? ==> c.entries == old(c.entries) && c.nextId == old(c.nextId)
    ensures added.Some? ==> added.value == old(c.nextId)
    ensures added.Some? ==> c.State() == WithWordAdded(old(c.State()), english, mon)
  {
    if english == [] || mon == [] {
      return None;
    }
    var id := AddWord(c, english, mon);
    return Some(id);
  }
}
