/** The shared object store (the app's managed object context): the live
    `MonDic` records keyed by id, and the counter that hands out fresh ids
    where the app calls `UUID()`. Saving is taken to succeed always. */
module Store {
  import opened Entries

  /** The store's state as a value. */
  datatype Snapshot = Snapshot(entries: map<Id, Entry>, nextId: Id)

  /** Every record sits under its own id, and every id in use is below the
      counter, so the counter's next value is fresh. */
  predicate ValidSnapshot(s: Snapshot)
  {
    WellKeyed(s.entries) && forall k | k in s.entries :: k < s.nextId
  }

  class Context {
    var entries: map<Id, Entry>
    var nextId: Id

    function State(): Snapshot
      reads this
    {
      Snapshot(entries, nextId)
    }

    ghost predicate Valid()
      reads this
    {
      ValidSnapshot(State())
    }

    constructor ()
      ensures Valid()
      ensures entries == map[] && nextId == 0
    {
      entries := map[];
      nextId := 0;
    }

    /** `count(for:)` on a request with `fetchLimit` `limit` (0 is no limit). */
    method Count(limit: nat) returns (n: nat)
      ensures limit == 0 ==> n == |entries|
      ensures limit > 0 ==> n == if |entries| < limit then |entries| else limit
      ensures n == 0 <==> entries == map[]
    {
      n := |entries|;
      if limit > 0 && limit < n {
        n := limit;
      }
    }

    /** Creates a record under a fresh id (`MonDic(context:)` followed by
        the assignment of its fields). */
    method Insert(english: string, mon: string, isFavorite: bool, lastViewed: Option<Timestamp>)
      returns (id: Id)
      requires Valid()
      modifies this
      ensures Valid()
      ensures id == old(nextId) && id !in old(entries)
      ensures entries == old(entries)[id := Entry(id, english, mon, isFavorite, lastViewed)]
      ensures nextId == old(nextId) + 1
    {
      id := nextId;
      entries := entries[id := Entry(id, english, mon, isFavorite, lastViewed)];
      nextId := nextId + 1;
    }

    /** Writes the fields of a live record. */
    method Update(e: Entry)
      requires Valid() && e.id in entries
      modifies this
      ensures Valid()
      ensures entries == old(entries)[e.id := e]
      ensures nextId == old(nextId)
    {
      entries := entries[e.id := e];
    }

    /** `context.delete(object)`. */
    method Delete(id: Id)
      requires Valid()
      modifies this
      ensures Valid()
      ensures entries == old(entries) - {id}
      ensures nextId == old(nextId)
    {
      entries := entries - {id};
    }
  }

  /** The ids shown at `offsets` of a listing. */
  function Targets(items: seq<Entry>, offsets: set<nat>): (ids: set<Id>)
    ensures forall i | i in offsets && i < |items| :: items[i].id in ids
    ensures forall k | k in ids :: exists i | i in offsets && i < |items| :: items[i].id == k
  {
    set i | i in offsets && i < |items| :: items[i].id
  }

  /** `offsets.map { items[$0] }.forEach(context.delete)`: deletes the
      records shown at the given offsets of a listing. */
  method DeleteAtOffsets(c: Context, items: seq<Entry>, offsets: set<nat>)
    requires c.Valid()
    requires forall i | i in offsets :: i < |items|
    modifies c
    ensures c.Valid()
    ensures c.entries == old(c.entries) - Targets(items, offsets)
    ensures c.nextId == old(c.nextId)
  {
    var remaining := offsets;
    while remaining != {}
      invariant remaining <= offsets
      invariant c.Valid()
      invariant c.entries == old(c.entries) - Targets(items, offsets - remaining)
      invariant c.nextId == old(c.nextId)
      decreases remaining
    {
      var i :| i in remaining;
      c.Delete(items[i].id);
      assert Targets(items, offsets - (remaining - {i})) == Targets(items, offsets - remaining) + {items[i].id};
      remaining := remaining - {i};
    }
    assert offsets - remaining == offsets;
  }

  /** Deleting at `offsets` removes exactly the records shown there: a
      record of the listing survives iff its offset was not chosen, and a
      record the listing does not show survives unchanged. */
  lemma DeletedExactlyAtOffsets(m: map<Id, Entry>, items: seq<Entry>, offsets: set<nat>)
    requires DistinctIds(items)
    requires forall i | 0 <= i < |items| :: items[i].id in m
    ensures forall j | 0 <= j < |items| :: items[j].id in m - Targets(items, offsets) <==> j !in offsets
    ensures forall k | k in m && (forall j | 0 <= j < |items| :: items[j].id != k) ::
      k in m - Targets(items, offsets) && (m - Targets(items, offsets))[k] == m[k]
  {
    var t := Targets(items, offsets);
    forall j | 0 <= j < |items| ensures items[j].id in t <==> j in offsets {
      if items[j].id in t {
        var i :| i in offsets && i < |items| && items[i].id == items[j].id;
        assert i == j;
      }
    }
  }

  /** Distinct records at distinct offsets: as many records go as offsets
      were chosen. */
  lemma {:induction false} TargetsSize(items: seq<Entry>, offsets: set<nat>)
    requires DistinctIds(items)
    requires forall i | i in offsets :: i < |items|
    decreases offsets
    ensures |Targets(items, offsets)| == |offsets|
  {
    if offsets != {} {
      var i :| i in offsets;
      var rest := offsets - {i};
      TargetsSize(items, rest);
      assert items[i].id !in Targets(items, rest);
      assert Targets(items, offsets) == Targets(items, rest) + {items[i].id};
    } else {
      assert Targets(items, offsets) == {};
    }
  }
}
