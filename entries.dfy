/** The `MonDic` record of the dictionary's object store. */
module Entries {

  datatype Option<+T> = None | Some(value: T)

  /** Identity of a record; stands for the `UUID()` the app gives each new record. */
  type Id = nat

  /** A point in time, as the `Date()` passed to `lastViewed`. */
  type Timestamp = int

  /** One dictionary record: the English headword, its Mon definition,
      the favourite flag and the optional last-viewed stamp. */
  datatype Entry = Entry(
    id: Id,
    english: string,
    mon: string,
    isFavorite: bool,
    lastViewed: Option<Timestamp>)

  /** Every record is stored under its own id. */
  predicate WellKeyed(m: map<Id, Entry>)
  {
    forall k | k in m :: m[k].id == k
  }

  /** No two positions of a listing show the same record. */
  predicate DistinctIds(s: seq<Entry>)
  {
    forall i, j | 0 <= i < j < |s| :: s[i].id != s[j].id
  }
}
