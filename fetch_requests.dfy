/** Fetch requests over the object store: a predicate that selects records
    and a sort descriptor that orders them. Every listing of the app
    (search results, favourites, recently viewed, all words) is one such
    request evaluated against the store's current records. */
module FetchRequests {
  import opened Entries
  import opened Text

  /** The `NSPredicate` of a request; `All` is a request without one. */
  datatype Predicate =
    | All
    | EnglishBeginsWith(query: string)
    | IsFavorite
    | HasLastViewed

  /** The key of the (ascending) sort descriptor. */
  datatype SortKey = English | LastViewed

  datatype FetchRequest = FetchRequest(filter: Predicate, sortKey: SortKey)

  predicate Admits(p: Predicate, e: Entry)
  {
    match p
    case All => true
    case EnglishBeginsWith(q) => BeginsWithFolded(e.english, q)
    case IsFavorite => e.isFavorite
    case HasLastViewed => e.lastViewed.Some?
  }

  /** Ascending order on optional stamps; an absent stamp sorts first. */
  predicate StampLeq(a: Option<Timestamp>, b: Option<Timestamp>)
  {
    a.None? || (b.Some? && a.value <= b.value)
  }

  /** `a` may precede `b` in a listing sorted on `key`. */
  predicate KeyLeq(key: SortKey, a: Entry, b: Entry)
  {
    match key
    case English => LexLeq(a.english, b.english)
    case LastViewed => StampLeq(a.lastViewed, b.lastViewed)
  }

  lemma KeyLeqTotal(key: SortKey, a: Entry, b: Entry)
    ensures KeyLeq(key, a, b) || KeyLeq(key, b, a)
  {
    if key == English {
      LexLeqTotal(a.english, b.english);
    }
  }

  lemma KeyLeqTransitive(key: SortKey, a: Entry, b: Entry, c: Entry)
    requires KeyLeq(key, a, b) && KeyLeq(key, b, c)
    ensures KeyLeq(key, a, c)
  {
    if key == English {
      LexLeqTransitive(a.english, b.english, c.english);
    }
  }

  /** Non-decreasing order of the sort key; equal keys may come in any order. */
  predicate Sorted(key: SortKey, s: seq<Entry>)
  {
    forall i, j | 0 <= i < j < |s| :: KeyLeq(key, s[i], s[j])
  }

  predicate Distinct(s: seq<Entry>)
  {
    forall i, j | 0 <= i < j < |s| :: s[i] != s[j]
  }

  lemma DistinctCons(a: Entry, s: seq<Entry>)
    ensures Distinct([a] + s) <==> a !in s && Distinct(s)
  {
    var t := [a] + s;
    if a in s {
      var k :| 0 <= k < |s| && s[k] == a;
      assert t[0] == t[k + 1];
    }
    if Distinct(t) {
      forall i, j | 0 <= i < j < |s| ensures s[i] != s[j] {
        assert s[i] == t[i + 1] && s[j] == t[j + 1];
      }
    }
  }

  /** A sequence is free of repeats exactly when its multiset holds each
      element once; so a permutation keeps a listing free of repeats. */
  lemma {:induction false} DistinctIffSingleCopies(s: seq<Entry>)
    ensures Distinct(s) <==> forall e | e in multiset(s) :: multiset(s)[e] == 1
  {
    if s != [] {
      DistinctIffSingleCopies(s[1..]);
      DistinctCons(s[0], s[1..]);
      assert s == [s[0]] + s[1..];
      assert multiset(s) == multiset{s[0]} + multiset(s[1..]);
      if forall e | e in multiset(s) :: multiset(s)[e] == 1 {
        assert s[0] in multiset(s);
        assert multiset(s)[s[0]] == 1;
        assert s[0] !in multiset(s[1..]);
        forall e | e in multiset(s[1..]) ensures multiset(s[1..])[e] == 1 {
          assert multiset(s)[e] == 1;
        }
      }
    }
  }

  lemma PermutationKeepsDistinct(s: seq<Entry>, t: seq<Entry>)
    requires multiset(s) == multiset(t) && Distinct(s)
    ensures Distinct(t)
  {
    DistinctIffSingleCopies(s);
    DistinctIffSingleCopies(t);
  }

  /** A record at most every element of a sorted listing may lead it. */
  lemma ConsSorted(key: SortKey, y: Entry, t: seq<Entry>)
    requires Sorted(key, t)
    requires forall j | 0 <= j < |t| :: KeyLeq(key, y, t[j])
    ensures Sorted(key, [y] + t)
  {
    var r := [y] + t;
    forall i, j | 0 <= i < j < |r| ensures KeyLeq(key, r[i], r[j]) {
      assert r[j] == t[j - 1];
      if i > 0 {
        assert r[i] == t[i - 1];
      }
    }
  }

  /** A record that may precede the head of a sorted listing may precede
      all of it. */
  lemma BelowHeadBelowAll(key: SortKey, x: Entry, s: seq<Entry>)
    requires Sorted(key, s)
    requires s == [] || KeyLeq(key, x, s[0])
    ensures forall j | 0 <= j < |s| :: KeyLeq(key, x, s[j])
  {
    forall j | 0 < j < |s| ensures KeyLeq(key, x, s[j]) {
      KeyLeqTransitive(key, x, s[0], s[j]);
    }
  }

  /** A lower bound of `t` and of `x` bounds every element of a
      permutation of `t` plus `x`. */
  lemma BoundOfPermutation(key: SortKey, y: Entry, x: Entry, t: seq<Entry>, r: seq<Entry>)
    requires forall j | 0 <= j < |t| :: KeyLeq(key, y, t[j])
    requires KeyLeq(key, y, x)
    requires multiset(r) == multiset(t) + multiset{x}
    ensures forall j | 0 <= j < |r| :: KeyLeq(key, y, r[j])
  {
    forall j | 0 <= j < |r| ensures KeyLeq(key, y, r[j]) {
      assert r[j] in multiset(r);
      if r[j] != x {
        assert r[j] in multiset(t);
        assert r[j] in t;
      }
    }
  }

  /** Places `x` into the sorted `s`, before the first element it may precede. */
  function Insert(key: SortKey, x: Entry, s: seq<Entry>): (r: seq<Entry>)
    requires Sorted(key, s)
    ensures Sorted(key, r)
    ensures multiset(r) == multiset(s) + multiset{x}
  {
    if s == [] || KeyLeq(key, x, s[0]) then
      BelowHeadBelowAll(key, x, s);
      ConsSorted(key, x, s);
      [x] + s
    else
      assert s == [s[0]] + s[1..];
      var rest := Insert(key, x, s[1..]);
      KeyLeqTotal(key, x, s[0]);
      assert forall j | 0 <= j < |s[1..]| :: KeyLeq(key, s[0], s[1..][j]);
      BoundOfPermutation(key, s[0], x, s[1..], rest);
      ConsSorted(key, s[0], rest);
      [s[0]] + rest
  }

  /** Insertion sort on `key`: a sorted permutation of `s`. */
  function Sort(key: SortKey, s: seq<Entry>): (r: seq<Entry>)
    ensures Sorted(key, r)
    ensures multiset(r) == multiset(s)
  {
    if s == [] then []
    else
      assert s == [s[0]] + s[1..];
      Insert(key, s[0], Sort(key, s[1..]))
  }

  /** A set holding `x` has a least element: either `x` is one, or some
      smaller element of the set is. */
  lemma {:induction false} MinimumExists(ids: set<Id>, x: Id)
    requires x in ids
    decreases x
    ensures exists k :: k in ids && forall j | j in ids :: k <= j
  {
    if !(forall j | j in ids :: x <= j) {
      var y :| y in ids && y < x;
      MinimumExists(ids, y);
    }
  }

  /** The least id of a non-empty set. */
  function LeastId(ids: set<Id>): (k: Id)
    requires ids != {}
    ensures k in ids && forall j | j in ids :: k <= j
  {
    var x :| x in ids;
    MinimumExists(ids, x);
    var k :| k in ids && forall j | j in ids :: k <= j;
    k
  }

  /** The ids of a set in ascending order. */
  function AscendingIds(ids: set<Id>): (r: seq<Id>)
    decreases |ids|
    ensures forall k :: k in ids <==> k in r
    ensures forall i, j | 0 <= i < j < |r| :: r[i] < r[j]
  {
    if ids == {} then []
    else
      var k := LeastId(ids);
      var rest := AscendingIds(ids - {k});
      assert forall i | 0 <= i < |rest| :: k < rest[i] by {
        forall i | 0 <= i < |rest| ensures k < rest[i] {
          assert rest[i] in ids - {k};
        }
      }
      [k] + rest
  }

  /** The records under `ids`, in that order, that `p` admits. */
  function Select(m: map<Id, Entry>, p: Predicate, ids: seq<Id>): (r: seq<Entry>)
    requires WellKeyed(m)
    requires forall i | 0 <= i < |ids| :: ids[i] in m
    requires forall i, j | 0 <= i < j < |ids| :: ids[i] < ids[j]
    ensures forall i | 0 <= i < |r| :: r[i].id in ids && m[r[i].id] == r[i] && Admits(p, r[i])
    ensures forall i | 0 <= i < |ids| && Admits(p, m[ids[i]]) :: m[ids[i]] in r
    ensures forall i, j | 0 <= i < j < |r| :: r[i].id < r[j].id
  {
    if ids == [] then []
    else
      var rest := Select(m, p, ids[1..]);
      SelectStep(m, p, ids, rest);
      if Admits(p, m[ids[0]]) then [m[ids[0]]] + rest else rest
  }

  /** The selection from the tail, with or without the head record, is a
      selection from the whole. */
  lemma SelectStep(m: map<Id, Entry>, p: Predicate, ids: seq<Id>, rest: seq<Entry>)
    requires WellKeyed(m) && |ids| > 0
    requires forall i | 0 <= i < |ids| :: ids[i] in m
    requires forall i, j | 0 <= i < j < |ids| :: ids[i] < ids[j]
    requires forall i | 0 <= i < |rest| :: rest[i].id in ids[1..] && m[rest[i].id] == rest[i] && Admits(p, rest[i])
    requires forall i | 0 <= i < |ids[1..]| && Admits(p, m[ids[1..][i]]) :: m[ids[1..][i]] in rest
    requires forall i, j | 0 <= i < j < |rest| :: rest[i].id < rest[j].id
    ensures var r := if Admits(p, m[ids[0]]) then [m[ids[0]]] + rest else rest;
      && (forall i | 0 <= i < |r| :: r[i].id in ids && m[r[i].id] == r[i] && Admits(p, r[i]))
      && (forall i | 0 <= i < |ids| && Admits(p, m[ids[i]]) :: m[ids[i]] in r)
      && (forall i, j | 0 <= i < j < |r| :: r[i].id < r[j].id)
  {
    var tail := ids[1..];
    forall i | 0 <= i < |rest| ensures ids[0] < rest[i].id && rest[i].id in ids {
      assert rest[i].id in tail;
      var k :| 0 <= k < |tail| && tail[k] == rest[i].id;
      assert tail[k] == ids[k + 1];
    }
    forall i | 1 <= i < |ids| ensures ids[i] == tail[i - 1] {
    }
  }

  /** `context.fetch(request)`: the store's records that the predicate
      admits, sorted on the request's key. */
  function Fetch(m: map<Id, Entry>, req: FetchRequest): (r: seq<Entry>)
    requires WellKeyed(m)
    ensures Sorted(req.sortKey, r)
    ensures forall i | 0 <= i < |r| :: r[i].id in m && m[r[i].id] == r[i] && Admits(req.filter, r[i])
    ensures forall k | k in m && Admits(req.filter, m[k]) :: m[k] in r
    ensures DistinctIds(r)
  {
    var ids := AscendingIds(m.Keys);
    var selected := Select(m, req.filter, ids);
    var r := Sort(req.sortKey, selected);
    FetchFacts(m, req.filter, ids, selected, r);
    r
  }

  lemma FetchFacts(m: map<Id, Entry>, p: Predicate, ids: seq<Id>, selected: seq<Entry>, r: seq<Entry>)
    requires WellKeyed(m)
    requires forall k :: k in m <==> k in ids
    requires forall i | 0 <= i < |selected| :: selected[i].id in m && m[selected[i].id] == selected[i] && Admits(p, selected[i])
    requires forall i | 0 <= i < |ids| && ids[i] in m && Admits(p, m[ids[i]]) :: m[ids[i]] in selected
    requires forall i, j | 0 <= i < j < |selected| :: selected[i].id < selected[j].id
    requires multiset(r) == multiset(selected)
    ensures forall i | 0 <= i < |r| :: r[i].id in m && m[r[i].id] == r[i] && Admits(p, r[i])
    ensures forall k | k in m && Admits(p, m[k]) :: m[k] in r
    ensures DistinctIds(r)
  {
    forall k | k in m && Admits(p, m[k]) ensures m[k] in r {
      var i :| 0 <= i < |ids| && ids[i] == k;
      assert m[k] in multiset(selected);
    }
    forall i | 0 <= i < |r| ensures r[i] in selected {
      assert r[i] in multiset(selected);
    }
    PermutationKeepsDistinct(selected, r);
  }

  /** In a listing, a record whose key is strictly smaller comes earlier. */
  lemma SmallerKeyComesFirst(key: SortKey, s: seq<Entry>, i: nat, j: nat)
    requires Sorted(key, s)
    requires i < |s| && j < |s|
    requires !KeyLeq(key, s[j], s[i])
    ensures i < j
  {
    KeyLeqTotal(key, s[i], s[i]);
  }
}
