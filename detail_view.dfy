/** The detail screen of one record: the favourite toggle and the "Mark
    Viewed" stamp. Both write one field of the shown record and save. */
module DetailView {
  import opened Entries
  import opened Store

  /** The store after `word.isFavorite.toggle()` on the record `id`. */
  function WithFavoriteToggled(m: map<Id, Entry>, id: Id): (r: map<Id, Entry>)
    requires id in m
    ensures r.Keys == m.Keys
    ensures r[id].isFavorite == !m[id].isFavorite
    ensures r[id].id == m[id].id && r[id].english == m[id].english
    ensures r[id].mon == m[id].mon && r[id].lastViewed == m[id].lastViewed
    ensures forall k | k in m && k != id :: r[k] == m[k]
  {
    m[id := m[id].(isFavorite := !m[id].isFavorite)]
  }

  /** The store after `word.lastViewed = now` on the record `id`. */
  function WithLastViewed(m: map<Id, Entry>, id: Id, now: Timestamp): (r: map<Id, Entry>)
    requires id in m
    ensures r.Keys == m.Keys
    ensures r[id].lastViewed == Some(now)
    ensures r[id].id == m[id].id && r[id].english == m[id].english
    ensures r[id].mon == m[id].mon && r[id].isFavorite == m[id].isFavorite
    ensures forall k | k in m && k != id :: r[k] == m[k]
  {
    m[id := m[id].(lastViewed := Some(now))]
  }

  /** Toggling twice gives the store back. */
  lemma ToggleTwice(m: map<Id, Entry>, id: Id)
    requires id in m
    ensures WithFavoriteToggled(WithFavoriteToggled(m, id), id) == m
  {
    var once := WithFavoriteToggled(m, id);
    assert once[id].(isFavorite := !once[id].isFavorite) == m[id];
  }

  /** Both writes keep every record under its own id. */
  lemma WritesKeepStoreWellKeyed(m: map<Id, Entry>, id: Id, now: Timestamp)
    requires WellKeyed(m) && id in m
    ensures WellKeyed(WithFavoriteToggled(m, id))
    ensures WellKeyed(WithLastViewed(m, id, now))
  {
  }

  /** Only the latest stamp counts: stamping again overwrites the first. */
  lemma LatestStampWins(m: map<Id, Entry>, id: Id, t1: Timestamp, t2: Timestamp)
    requires id in m
    ensures WithLastViewed(WithLastViewed(m, id, t1), id, t2) == WithLastViewed(m, id, t2)
  {
    assert WithLastViewed(m, id, t1)[id].(lastViewed := Some(t2)) == m[id].(lastViewed := Some(t2));
  }

  /** The toggle and the stamp write different fields, so their order does
      not matter. */
  lemma ToggleAndStampCommute(m: map<Id, Entry>, id: Id, now: Timestamp)
    requires id in m
    ensures WithLastViewed(WithFavoriteToggled(m, id), id, now) ==
      WithFavoriteToggled(WithLastViewed(m, id, now), id)
  {
    assert m[id].(isFavorite := !m[id].isFavorite).(lastViewed := Some(now)) ==
      m[id].(lastViewed := Some(now)).(isFavorite := !m[id].isFavorite);
  }

  /** `toggleFavorite` followed by the save. The view holds the record
      itself, so the record is live in the store. */
  method ToggleFavorite(c: Context, id: Id)
    requires c.Valid() && id in c.entries
    modifies c
    ensures c.Valid()
    ensures c.entries == WithFavoriteToggled(old(c.entries), id)
    ensures c.nextId == old(c.nextId)
  {
    var word := c.entries[id];
    c.Update(word.(isFavorite := !word.isFavorite));
  }

  /** `updateLastViewed` followed by the save; `now` is the `Date()` read
      when the button is pressed. */
  method UpdateLastViewed(c: Context, id: Id, now: Timestamp)
    requires c.Valid() && id in c.entries
    modifies c
    ensures c.Valid()
    ensures c.entries == WithLastViewed(old(c.entries), id, now)
    ensures c.nextId == old(c.nextId)
  {
    var word := c.entries[id];
    c.Update(word.(lastViewed := Some(now)));
  }
}
