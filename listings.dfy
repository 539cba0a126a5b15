/** Facts shared by every listing of the app: how many rows a listing has,
    and what swipe-to-delete on a listing does to the store. */
module Listings {
  import opened Entries
  import opened FetchRequests
  import opened Store

  /** The ids of the records a predicate admits. */
  function Matching(m: map<Id, Entry>, p: Predicate): set<Id>
  {
    set k | k in m && Admits(p, m[k])
  }

  /** The ids shown by a listing. */
  function IdsOf(s: seq<Entry>): (ids: set<Id>)
    ensures forall i | 0 <= i < |s| :: s[i].id in ids
    ensures forall k | k in ids :: exists i | 0 <= i < |s| :: s[i].id == k
  {
    if s == [] then {}
    else
      var n := |s| - 1;
      var rest := IdsOf(s[..n]);
      assert forall i | 0 <= i < n :: s[i] == s[..n][i];
      rest + {s[n].id}
  }

  lemma {:induction false} IdsOfDistinct(s: seq<Entry>)
    requires DistinctIds(s)
    ensures |IdsOf(s)| == |s|
  {
    if s != [] {
      var n := |s| - 1;
      assert DistinctIds(s[..n]) by {
        assert forall i | 0 <= i < n :: s[..n][i] == s[i];
      }
      IdsOfDistinct(s[..n]);
      assert s[n].id !in IdsOf(s[..n]);
    }
  }

  /** A listing shows each admitted record exactly once: its length is the
      number of records the predicate admits. */
  lemma ListingSize(m: map<Id, Entry>, req: FetchRequest)
    requires WellKeyed(m)
    ensures |Fetch(m, req)| == |Matching(m, req.filter)|
  {
    var r := Fetch(m, req);
    IdsOfDistinct(r);
    ShownIdsAreMatching(m, req.filter, r);
  }

  lemma ShownIdsAreMatching(m: map<Id, Entry>, p: Predicate, r: seq<Entry>)
    requires forall i | 0 <= i < |r| :: r[i].id in m && m[r[i].id] == r[i] && Admits(p, r[i])
    requires forall k | k in m && Admits(p, m[k]) :: m[k] in r
    requires WellKeyed(m)
    ensures IdsOf(r) == Matching(m, p)
  {
    forall k | k in Matching(m, p) ensures k in IdsOf(r) {
      var i :| 0 <= i < |r| && r[i] == m[k];
    }
  }

  lemma RemovingKeysShrinks(m: map<Id, Entry>, t: set<Id>)
    requires t <= m.Keys
    ensures |m - t| == |m| - |t|
  {
    assert (m - t).Keys == m.Keys - t;
    assert m.Keys == (m.Keys - t) + t;
  }

  /** Only records a predicate admits are shown, so deleting at offsets
      never touches a record it does not admit. */
  lemma TargetsAreAdmitted(m: map<Id, Entry>, p: Predicate, r: seq<Entry>, offsets: set<nat>)
    requires forall i | 0 <= i < |r| :: r[i].id in m && m[r[i].id] == r[i] && Admits(p, r[i])
    ensures Targets(r, offsets) <= m.Keys
    ensures forall k | k in m && !Admits(p, m[k]) :: k !in Targets(r, offsets)
  {
  }

  /** Deleting at `offsets` of a listing removes exactly the records shown
      there: a shown record survives iff its offset was not chosen, every
      record the request does not admit survives, survivors keep their
      fields, and the store shrinks by the number of offsets. */
  lemma DeleteFromListing(m: map<Id, Entry>, req: FetchRequest, offsets: set<nat>)
    requires WellKeyed(m)
    requires forall i | i in offsets :: i < |Fetch(m, req)|
    ensures var r := Fetch(m, req);
      forall j | 0 <= j < |r| :: r[j].id in m - Targets(r, offsets) <==> j !in offsets
    ensures var r := Fetch(m, req);
      forall k | k in m && !Admits(req.filter, m[k]) :: k in m - Targets(r, offsets)
    ensures var r := Fetch(m, req);
      forall k | k in m - Targets(r, offsets) :: k in m && (m - Targets(r, offsets))[k] == m[k]
    ensures |m - Targets(Fetch(m, req), offsets)| == |m| - |offsets|
  {
    var r := Fetch(m, req);
    DeletedExactlyAtOffsets(m, r, offsets);
    TargetsSize(r, offsets);
    TargetsAreAdmitted(m, req.filter, r, offsets);
    RemovingKeysShrinks(m, Targets(r, offsets));
  }
}
