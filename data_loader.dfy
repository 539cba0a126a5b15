/** One-time seeding of the store from the dictionary JSON files of the
    app bundle. */
module DataLoader {
  import opened Entries
  import opened Text
  import opened Store

  /** One `{ "word": ..., "def": ... }` object of a JSON file. */
  datatype DictionaryEntry = DictionaryEntry(word: string, def: string)

  /** What the seeding code sees of the app bundle. `listing` is the result
      of enumerating the bundle directory (the last path component of each
      file), `None` when the enumeration throws. `files` maps a resource's
      file name to the `data` array decoded from it, `None` when the file
      cannot be read or does not decode; a name that is not a key has no
      resource. */
  datatype Bundle = Bundle(
    listing: Option<seq<string>>,
    files: map<string, Option<seq<DictionaryEntry>>>)

  /** The position of the last dot of `s`, if any. */
  function LastDot(s: string): (r: Option<nat>)
    ensures r.Some? ==> r.value < |s| && s[r.value] == '.'
    ensures r.Some? ==> forall i | r.value < i < |s| :: s[i] != '.'
    ensures r.None? ==> forall i | 0 <= i < |s| :: s[i] != '.'
  {
    if s == [] then None
    else if s[|s| - 1] == '.' then Some(|s| - 1)
    else LastDot(s[..|s| - 1])
  }

  /** `pathExtension`: the text after the last dot, empty when there is
      no dot or the only dot starts the name. */
  function PathExtension(name: string): string
  {
    match LastDot(name)
    case Some(i) => if i == 0 then "" else name[i + 1..]
    case None => ""
  }

  /** `deletingPathExtension().lastPathComponent`: the name without its
      extension and the dot before it. */
  function DeletingPathExtension(name: string): string
  {
    match LastDot(name)
    case Some(i) => if i == 0 then name else name[..i]
    case None => name
  }

  /** The name filter: a `json` extension and the prefix `dictionary`. */
  predicate IsDictionaryFile(name: string)
  {
    PathExtension(name) == "json" && HasPrefix(name, "dictionary")
  }

  /** A name ending in `.json` has its last dot five characters from the end. */
  lemma LastDotOfJsonName(name: string)
    requires |name| > 5 && name[|name| - 5..] == ".json"
    ensures LastDot(name) == Some(|name| - 5)
  {
    var n := |name|;
    var tail := name[n - 5..];
    assert name[n - 5] == tail[0] == '.';
    forall i | n - 5 < i < n ensures name[i] != '.' {
      assert name[i] == tail[i - (n - 5)];
    }
  }

  /** The extension is `json` exactly when the name ends in `.json` after
      at least one other character. */
  lemma JsonExtensionIff(name: string)
    ensures PathExtension(name) == "json" <==> |name| > 5 && name[|name| - 5..] == ".json"
  {
    var n := |name|;
    if |name| > 5 && name[n - 5..] == ".json" {
      LastDotOfJsonName(name);
      assert name[n - 4..] == "json";
    }
    if PathExtension(name) == "json" {
      var i := LastDot(name).value;
      assert i > 0;
      assert name[i + 1..] == "json";
      assert |name[i + 1..]| == n - i - 1;
      assert i == n - 5;
      assert name[n - 5..] == [name[i]] + name[i + 1..];
    }
  }

  /** The kept name and the extension give back the file name. */
  lemma StemRoundTrip(name: string)
    requires PathExtension(name) == "json"
    ensures DeletingPathExtension(name) + ".json" == name
  {
    var i := LastDot(name).value;
    assert name == name[..i] + ['.'] + name[i + 1..];
  }

  /** The `filter`/`map` of `getJSONFileNames` over the directory's names. */
  function JsonFileNames(names: seq<string>): (r: seq<string>)
    ensures |r| <= |names|
    ensures forall i | 0 <= i < |r| :: r[i] + ".json" in names && IsDictionaryFile(r[i] + ".json")
  {
    if names == [] then []
    else
      var rest := JsonFileNames(names[1..]);
      if IsDictionaryFile(names[0]) then
        StemRoundTrip(names[0]);
        [DeletingPathExtension(names[0])] + rest
      else rest
  }

  /** Every dictionary file of the directory is kept. */
  lemma {:induction false} JsonFileNamesKeepsEvery(names: seq<string>, i: nat)
    requires i < |names| && IsDictionaryFile(names[i])
    ensures DeletingPathExtension(names[i]) in JsonFileNames(names)
  {
    if i > 0 {
      JsonFileNamesKeepsEvery(names[1..], i - 1);
    }
  }

  /** The filter keeps directory order: the names kept from two runs of
      the listing are those of the first run followed by those of the
      second. */
  lemma {:induction false} JsonFileNamesKeepsOrder(a: seq<string>, b: seq<string>)
    ensures JsonFileNames(a + b) == JsonFileNames(a) + JsonFileNames(b)
  {
    if a == [] {
      assert a + b == b;
    } else {
      var ab := a + b;
      assert ab[0] == a[0];
      assert ab[1..] == a[1..] + b;
      var head := if IsDictionaryFile(a[0]) then [DeletingPathExtension(a[0])] else [];
      var ta, tb := JsonFileNames(a[1..]), JsonFileNames(b);
      calc {
        JsonFileNames(ab);
        { JsonFileNamesHead(ab); }
        head + JsonFileNames(a[1..] + b);
        { JsonFileNamesKeepsOrder(a[1..], b); }
        head + (ta + tb);
        (head + ta) + tb;
        { JsonFileNamesHead(a); }
        JsonFileNames(a) + tb;
      }
    }
  }

  /** One step of the filter: the head is kept, stripped, iff it is a
      dictionary file. */
  lemma JsonFileNamesHead(names: seq<string>)
    requires names != []
    ensures JsonFileNames(names) ==
      (if IsDictionaryFile(names[0]) then [DeletingPathExtension(names[0])] else []) + JsonFileNames(names[1..])
  {
  }

  /** `getJSONFileNames()`: no names when the directory cannot be listed. */
  function GetJSONFileNames(bundle: Bundle): (r: seq<string>)
    ensures bundle.listing.None? ==> r == []
    ensures bundle.listing.Some? ==>
      forall i | 0 <= i < |r| :: r[i] + ".json" in bundle.listing.value && IsDictionaryFile(r[i] + ".json")
  {
    match bundle.listing
    case None => []
    case Some(names) => JsonFileNames(names)
  }

  /** `loadJSON(from:)`: the `data` array of the resource `filename.json`,
      and no entries when that resource is missing, unreadable or does not
      decode. */
  function LoadJSON(files: map<string, Option<seq<DictionaryEntry>>>, filename: string): (r: seq<DictionaryEntry>)
    ensures filename + ".json" !in files ==> r == []
    ensures filename + ".json" in files && files[filename + ".json"].None? ==> r == []
    ensures filename + ".json" in files && files[filename + ".json"].Some? ==> r == files[filename + ".json"].value
  {
    var resource := filename + ".json";
    if resource !in files then []
    else match files[resource]
      case None => []
      case Some(data) => data
  }

  /** A name that `getJSONFileNames` keeps is read back from the very file
      it was listed from. */
  lemma ListedFileIsLoaded(bundle: Bundle, name: string)
    requires bundle.listing.Some? && name in bundle.listing.value && IsDictionaryFile(name)
    ensures DeletingPathExtension(name) in GetJSONFileNames(bundle)
    ensures name !in bundle.files ==> LoadJSON(bundle.files, DeletingPathExtension(name)) == []
    ensures name in bundle.files && bundle.files[name].Some? ==>
      LoadJSON(bundle.files, DeletingPathExtension(name)) == bundle.files[name].value
  {
    var i :| 0 <= i < |bundle.listing.value| && bundle.listing.value[i] == name;
    JsonFileNamesKeepsEvery(bundle.listing.value, i);
    StemRoundTrip(name);
  }

  /** The batch of each file name, in the order the names are processed. */
  function Batches(bundle: Bundle): (bs: seq<seq<DictionaryEntry>>)
    ensures |bs| == |GetJSONFileNames(bundle)|
    ensures forall i | 0 <= i < |bs| :: bs[i] == LoadJSON(bundle.files, GetJSONFileNames(bundle)[i])
  {
    var names := GetJSONFileNames(bundle);
    seq(|names|, i requires 0 <= i < |names| => LoadJSON(bundle.files, names[i]))
  }

  function Flatten(bs: seq<seq<DictionaryEntry>>): seq<DictionaryEntry>
  {
    if bs == [] then [] else Flatten(bs[..|bs| - 1]) + bs[|bs| - 1]
  }

  function TotalSize(bs: seq<seq<DictionaryEntry>>): nat
  {
    if bs == [] then 0 else TotalSize(bs[..|bs| - 1]) + |bs[|bs| - 1]|
  }

  /** Every batch appears whole in the flattened sequence, right after the
      batches before it: an empty batch adds nothing and does not stop the
      batches after it. */
  lemma {:induction false} FlattenPlacesEachBatch(bs: seq<seq<DictionaryEntry>>, i: nat)
    requires i < |bs|
    ensures |Flatten(bs)| == TotalSize(bs)
    ensures TotalSize(bs[..i]) + |bs[i]| <= |Flatten(bs)|
    ensures Flatten(bs)[TotalSize(bs[..i])..TotalSize(bs[..i]) + |bs[i]|] == bs[i]
  {
    var n := |bs|;
    var init := bs[..n - 1];
    assert Flatten(bs) == Flatten(init) + bs[n - 1];
    if i == n - 1 {
      assert bs[..i] == init;
      FlattenSize(init);
    } else {
      FlattenPlacesEachBatch(init, i);
      assert init[..i] == bs[..i];
    }
  }

  lemma {:induction false} FlattenSize(bs: seq<seq<DictionaryEntry>>)
    ensures |Flatten(bs)| == TotalSize(bs)
  {
    if bs != [] {
      FlattenSize(bs[..|bs| - 1]);
    }
  }

  lemma {:induction false} FlattenAppend(a: seq<seq<DictionaryEntry>>, b: seq<seq<DictionaryEntry>>)
    decreases |b|
    ensures Flatten(a + b) == Flatten(a) + Flatten(b)
  {
    if b == [] {
      assert a + b == a;
    } else {
      var n := |b| - 1;
      FlattenAppend(a, b[..n]);
      assert (a + b)[..|a + b| - 1] == a + b[..n];
    }
  }

  /** A batch that is empty, because its file is missing, unreadable or
      holds no pairs, contributes nothing: the result is that of the other
      batches, all still loaded in order. */
  lemma EmptyBatchContributesNothing(bs: seq<seq<DictionaryEntry>>, i: nat)
    requires i < |bs| && bs[i] == []
    ensures Flatten(bs) == Flatten(bs[..i] + bs[i + 1..])
  {
    var before, after := bs[..i], bs[i + 1..];
    var single: seq<seq<DictionaryEntry>> := [bs[i]];
    assert bs == before + (single + after);
    assert Flatten(single) == [] by {
      assert single[..0] == [];
    }
    calc {
      Flatten(bs);
      Flatten(before + (single + after));
      { FlattenAppend(before, single + after); }
      Flatten(before) + Flatten(single + after);
      { FlattenAppend(single, after); }
      Flatten(before) + (Flatten(single) + Flatten(after));
      Flatten(before) + Flatten(after);
      { FlattenAppend(before, after); }
      Flatten(before + after);
    }
  }

  /** Every pair of every readable file, in file order; nothing is
      deduplicated. */
  function AllEntries(bundle: Bundle): seq<DictionaryEntry>
  {
    Flatten(Batches(bundle))
  }

  /** The records made for `es` under the ids `start`, `start + 1`, ...
      (see `SeedRecordAt`). */
  function SeedRecords(start: Id, es: seq<DictionaryEntry>): map<Id, Entry>
    decreases |es|
  {
    if es == [] then map[]
    else
      var n := |es| - 1;
      SeedRecords(start, es[..n])[start + n := Entry(start + n, es[n].word, es[n].def, false, None)]
  }

  /** There is one record per pair, each under an id from `start` up. */
  lemma {:induction false} SeedRecordsKeys(start: Id, es: seq<DictionaryEntry>)
    ensures |SeedRecords(start, es)| == |es|
    ensures forall k | k in SeedRecords(start, es) :: start <= k < start + |es|
  {
    if es != [] {
      SeedRecordsKeys(start, es[..|es| - 1]);
    }
  }

  /** The `i`th pair becomes a record under id `start + i` with the pair's
      word and definition, not a favourite and never viewed. */
  lemma {:induction false} SeedRecordAt(start: Id, es: seq<DictionaryEntry>, i: nat)
    requires i < |es|
    ensures start + i in SeedRecords(start, es)
    ensures SeedRecords(start, es)[start + i] == Entry(start + i, es[i].word, es[i].def, false, None)
  {
    var n := |es| - 1;
    if i < n {
      SeedRecordAt(start, es[..n], i);
      assert es[..n][i] == es[i];
    }
  }

  lemma UpdateOfUnion(A: map<Id, Entry>, B: map<Id, Entry>, k: Id, x: Entry)
    ensures (A + B)[k := x] == A + B[k := x]
  {
  }

  lemma SeedRecordsLast(start: Id, es: seq<DictionaryEntry>, e: DictionaryEntry)
    ensures SeedRecords(start, es + [e]) ==
      SeedRecords(start, es)[start + |es| := Entry(start + |es|, e.word, e.def, false, None)]
  {
    assert (es + [e])[..|es|] == es;
  }

  lemma {:induction false} SeedRecordsAppend(start: Id, a: seq<DictionaryEntry>, b: seq<DictionaryEntry>)
    decreases |b|
    ensures SeedRecords(start, a + b) == SeedRecords(start, a) + SeedRecords(start + |a|, b)
  {
    if b == [] {
      assert a + b == a;
    } else {
      var n := |b| - 1;
      var init := b[..n];
      SeedRecordsAppend(start, a, init);
      assert a + b == (a + init) + [b[n]];
      assert b == init + [b[n]];
      var k: Id := start + |a| + n;
      var x := Entry(k, b[n].word, b[n].def, false, None);
      var A := SeedRecords(start, a);
      var B := SeedRecords(start + |a|, init);
      calc {
        SeedRecords(start, a + b);
        SeedRecords(start, (a + init) + [b[n]]);
        { SeedRecordsLast(start, a + init, b[n]); }
        SeedRecords(start, a + init)[k := x];
        (A + B)[k := x];
        { UpdateOfUnion(A, B, k, x); }
        A + B[k := x];
        { SeedRecordsLast(start + |a|, init, b[n]); }
        A + SeedRecords(start + |a|, b);
      }
    }
  }

  /** The store after creating one record per pair of `es`. */
  function Seeded(s: Snapshot, es: seq<DictionaryEntry>): Snapshot
  {
    Snapshot(s.entries + SeedRecords(s.nextId, es), s.nextId + |es|)
  }

  /** Seeding keeps the store valid, keeps every existing record, puts
      new records only under ids no existing record has, and grows the
      store by the number of pairs. */
  lemma SeededGrowsByPairs(s: Snapshot, es: seq<DictionaryEntry>)
    requires ValidSnapshot(s)
    ensures ValidSnapshot(Seeded(s, es))
    ensures forall k | k in s.entries :: k in Seeded(s, es).entries && Seeded(s, es).entries[k] == s.entries[k]
    ensures forall k | k in Seeded(s, es).entries && k !in s.entries :: s.nextId <= k
    ensures |Seeded(s, es).entries| == |s.entries| + |es|
  {
    var seeds := SeedRecords(s.nextId, es);
    SeedRecordsKeys(s.nextId, es);
    assert s.entries.Keys !! seeds.Keys;
    forall k | k in seeds ensures seeds[k].id == k {
      SeedRecordAt(s.nextId, es, k - s.nextId);
    }
    assert (s.entries + seeds).Keys == s.entries.Keys + seeds.Keys;
    assert |s.entries.Keys + seeds.Keys| == |s.entries.Keys| + |seeds.Keys|;
  }

  /** Seeding records the `i`th pair under the fresh id `nextId + i`. */
  lemma SeededRecordAt(s: Snapshot, es: seq<DictionaryEntry>, i: nat)
    requires ValidSnapshot(s) && i < |es|
    ensures s.nextId + i !in s.entries
    ensures s.nextId + i in Seeded(s, es).entries
    ensures Seeded(s, es).entries[s.nextId + i] == Entry(s.nextId + i, es[i].word, es[i].def, false, None)
  {
    SeedRecordAt(s.nextId, es, i);
  }

  lemma UnionAssociative(A: map<Id, Entry>, B: map<Id, Entry>, C: map<Id, Entry>)
    ensures (A + B) + C == A + (B + C)
  {
  }

  /** Seeding `a` and then `b` is seeding `a + b`. */
  lemma SeededInSteps(s: Snapshot, a: seq<DictionaryEntry>, b: seq<DictionaryEntry>)
    ensures Seeded(Seeded(s, a), b) == Seeded(s, a + b)
  {
    SeedRecordsAppend(s.nextId, a, b);
    UnionAssociative(s.entries, SeedRecords(s.nextId, a), SeedRecords(s.nextId + |a|, b));
  }

  /** Seeding one more pair adds its record under the next id. */
  lemma SeededOneMore(s: Snapshot, es: seq<DictionaryEntry>, e: DictionaryEntry)
    ensures var t := Seeded(s, es);
      Seeded(s, es + [e]) == Snapshot(t.entries[t.nextId := Entry(t.nextId, e.word, e.def, false, None)], t.nextId + 1)
  {
    var k: Id := s.nextId + |es|;
    var x := Entry(k, e.word, e.def, false, None);
    SeedRecordsLast(s.nextId, es, e);
    UpdateOfUnion(s.entries, SeedRecords(s.nextId, es), k, x);
  }

  /** `saveEntriesToCoreData`: one new record per pair; an empty batch
      leaves the store as it was. */
  method SaveEntriesToCoreData(c: Context, entries: seq<DictionaryEntry>)
    requires c.Valid()
    modifies c
    ensures c.Valid()
    ensures c.State() == Seeded(old(c.State()), entries)
  {
    if entries == [] {
      assert c.entries + SeedRecords(c.nextId, entries) == c.entries;
      return;
    }
    var i := 0;
    assert c.entries + SeedRecords(c.nextId, entries[..0]) == c.entries;
    while i < |entries|
      invariant 0 <= i <= |entries|
      invariant c.Valid()
      invariant c.State() == Seeded(old(c.State()), entries[..i])
    {
      var _ := c.Insert(entries[i].word, entries[i].def, false, None);
      SeededOneMore(old(c.State()), entries[..i], entries[i]);
      assert entries[..i + 1] == entries[..i] + [entries[i]];
      i := i + 1;
    }
    assert entries[..i] == entries;
  }

  /** `loadAllJSONFilesAndSaveToCoreData`: the batches of all dictionary
      files, one after the other. */
  method LoadAllJSONFilesAndSaveToCoreData(c: Context, bundle: Bundle)
    requires c.Valid()
    modifies c
    ensures c.Valid()
    ensures c.State() == Seeded(old(c.State()), AllEntries(bundle))
  {
    var fileNames := GetJSONFileNames(bundle);
    ghost var batches := Batches(bundle);
    assert c.entries + SeedRecords(c.nextId, Flatten(batches[..0])) == c.entries;
    for i := 0 to |fileNames|
      invariant c.Valid()
      invariant c.State() == Seeded(old(c.State()), Flatten(batches[..i]))
    {
      var entries := LoadJSON(bundle.files, fileNames[i]);
      SaveEntriesToCoreData(c, entries);
      SeededInSteps(old(c.State()), Flatten(batches[..i]), entries);
      assert batches[..i + 1][..i] == batches[..i];
    }
    assert batches[..|fileNames|] == batches;
  }

  /** The store after `loadDataIfNeeded`: seeded only when the count
      succeeds and finds no record. */
  function AfterLoadDataIfNeeded(s: Snapshot, bundle: Bundle, countFails: bool): Snapshot
  {
    if countFails || s.entries != map[] then s else Seeded(s, AllEntries(bundle))
  }

  /** `loadDataIfNeeded`: counts with a fetch limit of one; `countFails`
      stands for the count throwing. */
  method LoadDataIfNeeded(c: Context, bundle: Bundle, countFails: bool)
    requires c.Valid()
    modifies c
    ensures c.Valid()
    ensures c.State() == AfterLoadDataIfNeeded(old(c.State()), bundle, countFails)
  {
    if countFails {
      return;
    }
    var count := c.Count(1);
    if count == 0 {
      LoadAllJSONFilesAndSaveToCoreData(c, bundle);
    }
  }

  /** A store holding any record, or a failed count, is left as it is. */
  lemma PopulatedStoreIsNotReseeded(s: Snapshot, bundle: Bundle, countFails: bool)
    requires s.entries != map[] || countFails
    ensures AfterLoadDataIfNeeded(s, bundle, countFails) == s
  {
  }

  /** Seeding an empty store gives exactly one record per pair: every
      record sits under `nextId + i` for a pair position `i` and carries
      that pair's word and definition, not a favourite and never viewed. */
  lemma SeededEmptyStore(s: Snapshot, es: seq<DictionaryEntry>)
    requires ValidSnapshot(s) && s.entries == map[]
    ensures ValidSnapshot(Seeded(s, es))
    ensures |Seeded(s, es).entries| == |es|
    ensures forall k | k in Seeded(s, es).entries ::
      s.nextId <= k < s.nextId + |es| &&
      Seeded(s, es).entries[k] == Entry(k, es[k - s.nextId].word, es[k - s.nextId].def, false, None)
  {
    SeededGrowsByPairs(s, es);
    SeedRecordsKeys(s.nextId, es);
    var seeds := SeedRecords(s.nextId, es);
    assert Seeded(s, es).entries == seeds;
    forall k | k in seeds
      ensures seeds[k] == Entry(k, es[k - s.nextId].word, es[k - s.nextId].def, false, None)
    {
      SeedRecordAt(s.nextId, es, k - s.nextId);
    }
  }

  /** An empty store receives one fresh record per pair of every readable
      file, so its count becomes the sum of the batch sizes. */
  lemma EmptyStoreIsSeeded(s: Snapshot, bundle: Bundle)
    requires ValidSnapshot(s) && s.entries == map[]
    ensures ValidSnapshot(AfterLoadDataIfNeeded(s, bundle, false))
    ensures |AfterLoadDataIfNeeded(s, bundle, false).entries| == TotalSize(Batches(bundle))
    ensures AfterLoadDataIfNeeded(s, bundle, false) == Seeded(s, AllEntries(bundle))
  {
    SeededEmptyStore(s, AllEntries(bundle));
    FlattenSize(Batches(bundle));
  }

  /** After a first load whose count succeeded, loading again from the same
      bundle ends in the same store, and so the same count, as loading once
      (whether or not the second count fails). */
  lemma LoadIsIdempotent(s: Snapshot, bundle: Bundle, secondCountFails: bool)
    requires ValidSnapshot(s)
    ensures var once := AfterLoadDataIfNeeded(s, bundle, false);
      AfterLoadDataIfNeeded(once, bundle, secondCountFails) == once
  {
    if s.entries == map[] {
      var all := AllEntries(bundle);
      SeededGrowsByPairs(s, all);
      if all == [] {
        assert s.entries + SeedRecords(s.nextId, all) == s.entries;
      }
    }
  }
}
