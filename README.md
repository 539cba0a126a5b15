# EnMonDic dictionary store, modelled in Dafny

EnMonDic is an English–Mon dictionary app. Its logic lives in one loader
file and the SwiftUI view files, all working on one CoreData context of
`MonDic` records. Each record has an id, an English headword, a Mon
definition, a favourite flag and an optional last-viewed date. This
project models that context as an in-memory store and proves what the app
does with it:

- seeding the store once from the bundled `dictionary*.json` files;
- the four listings, each a predicate plus an ascending sort:
  - all words by headword;
  - the search tab, a case- and diacritic-insensitive prefix search, by headword;
  - favourites by headword;
  - recently viewed by last-viewed date, oldest first;
- the highlight range inside a search row;
- the mutations:
  - toggle favourite and "Mark Viewed" on the detail screen;
  - "Add Word";
  - the placeholder `addItem`;
  - swipe-to-delete on three listings.

Modules, one file each:

- `entries.dfy`, module `Entries`: the record and `Option`.
- `text.dfy`, module `Text`: ordinal string order, character folding, prefix and substring matching.
- `fetch_requests.dfy`, module `FetchRequests`: a fetch request (predicate plus sort key) evaluated against the store.
- `store.dfy`, module `Store`: the managed object context as a class `Context`. Its fields are `entries: map<Id, Entry>` and a fresh-id counter `nextId` that stands for `UUID()`. Its methods are insert, update, delete and count. The module-level method `DeleteAtOffsets` takes the context and deletes the records shown at given offsets of a listing.
- `listings.dfy`, module `Listings`: facts shared by all listings, namely their size and what deleting rows does.
- `data_loader.dfy`, module `DataLoader`: file-name filter, decode-or-empty loading, the seeding loops and the gate on an empty store.
- One module per view: `ContentView`, `SearchView`, `DetailView`, `AddWordView`, `RecentView` and `FavoriteView`.

Each listing is specified the same way. Its result is sorted on its key. Every row is a record of the store that the predicate admits. Every admitted record appears. No record appears twice. So the listing is a permutation of the matching records. Ties between equal keys come in no promised order.

The model follows the code in these points:

- The detail screen and the delete handlers act on objects they already hold. The code has no "not found" error path.
- Seeded records may have empty headwords. Only the "Add Word" sheet refuses empty fields.
- The search is a prefix match (`BEGINSWITH[cd]`), although a comment beside it speaks of whole-word matching.
- Equal sort keys are not given a stable order.

## Model

| member | source | states |
|---|---|---|
| Text.LexLeqTotal | EnMonDic/Views/SearchView.swift:170 | any two headwords are comparable under the sort descriptor's ordinal order |
| Text.LexLeqTransitive | EnMonDic/Views/SearchView.swift:170 | the headword order is transitive, so a sorted listing is ordered pairwise |
| Text.LexLeqAntisymmetric | EnMonDic/Views/SearchView.swift:170 | two headwords that each sort before the other are equal |
| Text.FoldString | EnMonDic/Views/SearchView.swift:174 | folding keeps length and folds each character in place, so ranges in the folded text are ranges of the original |
| Text.FoldedQueryMatchesAlike | EnMonDic/Views/SearchView.swift:174 | `[cd]` matching ignores the query's own case and diacritics: folding the query first changes no match |
| Text.BeginsWithFoldedAt | EnMonDic/Views/SearchView.swift:174 | a headword matches iff the query fits in it and agrees with it character by character after folding |
| Text.EmptyQueryMatchesAll | EnMonDic/Views/SearchView.swift:172-175 | the empty query matches every headword |
| Text.FindFrom | EnMonDic/Views/SearchView.swift:148 | the result is an occurrence at or after the start with no earlier one, or there is none at all |
| FetchRequests.KeyLeqTotal | EnMonDic/Views/RecentView.swift:16 | the sort key order (headword, or stamp with absent first) is total |
| FetchRequests.KeyLeqTransitive | EnMonDic/Views/RecentView.swift:16 | the sort key order is transitive |
| FetchRequests.Insert | EnMonDic/Views/SearchView.swift:170 | placing a record into a sorted listing keeps it sorted and adds exactly that record |
| FetchRequests.Sort | EnMonDic/Views/SearchView.swift:170 | the sort descriptor yields a sorted permutation of its input |
| FetchRequests.Fetch | EnMonDic/Views/SearchView.swift:180 | a fetch gives a sorted listing of exactly the records the predicate admits, each live, none twice |
| FetchRequests.SmallerKeyComesFirst | EnMonDic/Views/RecentView.swift:16 | in a sorted listing a record with a strictly smaller key is shown earlier |
| Store.Context.Count | EnMonDic/DataModel/DataLoader.swift:98-102 | a count under a fetch limit is the record count capped at the limit, and zero exactly for an empty store |
| Store.Context.Insert | EnMonDic/DataModel/DataLoader.swift:80-81 | a new object gets a fresh id and is added; no other record changes |
| Store.Context.Update | EnMonDic/Views/DetailView.swift:65 | writing a live record replaces only that record |
| Store.Context.Delete | EnMonDic/Views/ContentView.swift:70 | `context.delete` removes just that record |
| Store.Targets | EnMonDic/Views/ContentView.swift:70 | `offsets.map { items[$0] }` is the set of records shown at the offsets |
| Store.DeleteAtOffsets | EnMonDic/Views/ContentView.swift:70 | deleting each mapped row leaves the store minus exactly those records |
| Store.DeletedExactlyAtOffsets | EnMonDic/Views/ContentView.swift:70 | a shown record survives iff its offset was not chosen; unshown records survive unchanged |
| Store.TargetsSize | EnMonDic/Views/ContentView.swift:70 | as many records are deleted as offsets were chosen |
| Listings.ListingSize | EnMonDic/Views/FavoriteView.swift:15-19 | a listing's length equals the number of records its predicate admits |
| Listings.DeleteFromListing | EnMonDic/Views/FavoriteView.swift:45 | deleting rows removes exactly those rows' records, spares every record the predicate rejects, and shrinks the store by the number of offsets |
| DataLoader.JsonExtensionIff | EnMonDic/DataModel/DataLoader.swift:44 | the extension is `json` iff the name ends in `.json` after at least one other character |
| DataLoader.StemRoundTrip | EnMonDic/DataModel/DataLoader.swift:45 | the kept name plus `.json` is the listed file name |
| DataLoader.JsonFileNames | EnMonDic/DataModel/DataLoader.swift:43-45 | every kept name comes from a listed `json` file starting with `dictionary` |
| DataLoader.JsonFileNamesKeepsEvery | EnMonDic/DataModel/DataLoader.swift:43-45 | every listed dictionary file is kept, with its extension stripped |
| DataLoader.JsonFileNamesKeepsOrder | EnMonDic/DataModel/DataLoader.swift:43-45 | the filter keeps directory order: names kept from a listing split in two are those of each part, in order |
| DataLoader.GetJSONFileNames | EnMonDic/DataModel/DataLoader.swift:34-52 | no names when the directory cannot be listed, else only dictionary `json` files |
| DataLoader.LoadJSON | EnMonDic/DataModel/DataLoader.swift:55-70 | a missing or undecodable resource gives no entries; otherwise its `data` array |
| DataLoader.ListedFileIsLoaded | EnMonDic/DataModel/DataLoader.swift:56 | a kept name loads the file it was listed from |
| DataLoader.Batches | EnMonDic/DataModel/DataLoader.swift:25-26 | one batch per kept name, in order, each that name's loaded entries |
| DataLoader.FlattenPlacesEachBatch | EnMonDic/DataModel/DataLoader.swift:25-28 | every batch appears whole, after the batches before it; the total is the sum of batch sizes |
| DataLoader.EmptyBatchContributesNothing | EnMonDic/DataModel/DataLoader.swift:74-77 | an empty, missing or unreadable batch adds nothing and the other batches still load |
| DataLoader.SeedRecordsKeys | EnMonDic/DataModel/DataLoader.swift:79-86 | one new record per pair, under ids from the counter upward |
| DataLoader.SeedRecordAt | EnMonDic/DataModel/DataLoader.swift:80-85 | the i-th pair becomes a record with its word and definition, not favourite, never viewed |
| DataLoader.SeedRecordsAppend | EnMonDic/DataModel/DataLoader.swift:79-86 | the records for two runs of pairs are the records of each run, the second continuing the ids |
| DataLoader.SeededGrowsByPairs | EnMonDic/DataModel/DataLoader.swift:79-86 | seeding keeps old records, uses only fresh ids, stays well keyed, and grows the store by the pair count, duplicates included |
| DataLoader.SeededRecordAt | EnMonDic/DataModel/DataLoader.swift:80-85 | each seeded record has a fresh id, `english` = word, `mon` = def, not favourite, no `lastViewed` |
| DataLoader.SeededInSteps | EnMonDic/DataModel/DataLoader.swift:25-28 | seeding batch after batch equals seeding their concatenation |
| DataLoader.SaveEntriesToCoreData | EnMonDic/DataModel/DataLoader.swift:73-94 | the store becomes the old store seeded with the batch; an empty batch changes nothing |
| DataLoader.LoadAllJSONFilesAndSaveToCoreData | EnMonDic/DataModel/DataLoader.swift:21-31 | the store becomes the old store seeded with all batches concatenated |
| DataLoader.LoadDataIfNeeded | EnMonDic/DataModel/DataLoader.swift:96-112 | the store becomes its specified post-load state: seeded iff the count succeeds and is zero |
| DataLoader.PopulatedStoreIsNotReseeded | EnMonDic/DataModel/DataLoader.swift:103-111 | a non-empty store, or a failed count, is left as it was |
| DataLoader.SeededEmptyStore | EnMonDic/DataModel/DataLoader.swift:79-86 | seeding an empty store gives exactly one record per pair, the i-th under `nextId + i` |
| DataLoader.EmptyStoreIsSeeded | EnMonDic/DataModel/DataLoader.swift:103-105 | an empty store becomes the seeding of all batches, its count the sum of batch sizes |
| DataLoader.LoadIsIdempotent | EnMonDic/DataModel/DataLoader.swift:103-107 | after a first load whose count succeeded, loading again from the same bundle changes nothing, so the count is as after one load (a first load whose count failed leaves an empty store empty, and a later load then seeds it) |
| ContentView.Items | EnMonDic/Views/ContentView.swift:14-17 | the list is every record exactly once, in non-decreasing headword order |
| ContentView.WithItemAdded | EnMonDic/Views/ContentView.swift:54-55 | one more record, with headword "love"; the others unchanged |
| ContentView.AddItem | EnMonDic/Views/ContentView.swift:52-66 | the store becomes the store with the "love" record added under a fresh id |
| ContentView.DeleteItems | EnMonDic/Views/ContentView.swift:68-81 | the store loses exactly the records on the chosen rows of the list |
| ContentView.DeleteItemsRemovesExactly | EnMonDic/Views/ContentView.swift:70 | a row's record survives iff its offset was not chosen; survivors unchanged; count drops by the offsets |
| DetailView.WithFavoriteToggled | EnMonDic/Views/DetailView.swift:65 | `isFavorite` is negated; no other field and no other record changes |
| DetailView.WithLastViewed | EnMonDic/Views/DetailView.swift:70 | `lastViewed` becomes the given time; no other field and no other record changes |
| DetailView.ToggleTwice | EnMonDic/Views/DetailView.swift:65 | toggling twice restores the store |
| DetailView.WritesKeepStoreWellKeyed | EnMonDic/Views/DetailView.swift:64-72 | both writes keep every record under its own id |
| DetailView.LatestStampWins | EnMonDic/Views/DetailView.swift:70 | stamping again overwrites the earlier stamp |
| DetailView.ToggleAndStampCommute | EnMonDic/Views/DetailView.swift:64-72 | toggling and stamping touch different fields, so their order does not matter |
| DetailView.ToggleFavorite | EnMonDic/Views/DetailView.swift:64-67 | the store becomes the store with the record's favourite flag toggled |
| DetailView.UpdateLastViewed | EnMonDic/Views/DetailView.swift:69-72 | the store becomes the store with the record stamped `now` |
| AddWordView.NewWord | EnMonDic/Views/AddWordView.swift:63-68 | the new record carries the typed fields, is a favourite and was never viewed |
| AddWordView.WithWordAdded | EnMonDic/Views/AddWordView.swift:62-68 | one more record under a fresh id; existing records unchanged |
| AddWordView.AddWord | EnMonDic/Views/AddWordView.swift:62-75 | the store becomes the store with the new word added under the counter's id |
| AddWordView.SaveTapped | EnMonDic/Views/AddWordView.swift:51-56 | a word is added iff both fields are non-empty; otherwise the store is unchanged |
| FavoriteView.Words | EnMonDic/Views/FavoriteView.swift:15-19 | the tab is exactly the favourites, each once, in non-decreasing headword order |
| FavoriteView.DeleteWords | EnMonDic/Views/FavoriteView.swift:44-51 | the store loses exactly the records on the chosen rows of the tab |
| FavoriteView.DeleteWordsRemovesExactly | EnMonDic/Views/FavoriteView.swift:45 | chosen rows go, other rows and every non-favourite stay unchanged, and the count drops by the offsets |
| FavoriteView.AddedWordIsListed | EnMonDic/Views/FavoriteView.swift:17 | a word saved from the "Add Word" sheet appears in the favourites |
| FavoriteView.ToggleMovesInOrOut | EnMonDic/Views/FavoriteView.swift:17 | after a toggle a record is in the tab iff it was not before |
| RecentView.Words | EnMonDic/Views/RecentView.swift:15-19 | the tab is exactly the stamped records, each once, oldest stamp first |
| RecentView.DeleteItems | EnMonDic/Views/RecentView.swift:50-61 | the store loses exactly the records on the chosen rows of the tab |
| RecentView.DeleteItemsRemovesExactly | EnMonDic/Views/RecentView.swift:52 | chosen rows go, other rows and every unstamped record stay unchanged, and the count drops by the offsets |
| RecentView.StampedRecordIsListed | EnMonDic/Views/RecentView.swift:17 | a record stamped from the detail screen appears in the tab |
| RecentView.LatestStampComesLast | EnMonDic/Views/RecentView.swift:16 | a record stamped later than all others is the last row (oldest first) |
| SearchView.Request | EnMonDic/Views/SearchView.swift:169-175 | sorted by headword, with a predicate exactly when the query is non-empty |
| SearchView.RequestAdmitsPrefixMatches | EnMonDic/Views/SearchView.swift:172-175 | with or without the predicate, a record is admitted iff its folded headword starts with the folded query |
| SearchView.FetchDataInBackground | EnMonDic/Views/SearchView.swift:166-191 | a failed fetch gives no rows; otherwise exactly the prefix matches, each once, sorted by headword |
| SearchView.EmptyQueryListsEverything | EnMonDic/Views/SearchView.swift:158 | the initial empty-query fetch lists every record |
| SearchView.HighlightedRange | EnMonDic/Views/SearchView.swift:148 | the highlight is the first range that equals the search text after folding; none for no occurrence or empty text |
| SearchView.MatchHighlightsPrefix | EnMonDic/Views/SearchView.swift:148-151 | in a row found by a non-empty search the headword is highlighted from its start, over the query's length |
| SearchView.SearchScreen.constructor | EnMonDic/Views/SearchView.swift:12-15 | empty search text, no rows, loading |
| SearchView.SearchScreen.FetchInitialData | EnMonDic/Views/SearchView.swift:156-163 | the rows become the empty-query results and loading ends; the store is only read |
| SearchView.SearchScreen.SearchTextChanged | EnMonDic/Views/SearchView.swift:31-35 | the rows become the results for the new text; the store is only read |

## Left out

- Layout, fonts, colours, animation, navigation and previews in every view are UI. The highlight's styling is left out too; only its range is modelled.
- The scroll and navigation-bar geometry (`ExpandableNavigationBar`, `CustomScrollTargetBehavious`) is floating-point UI math.
- The background context, `context.perform` and the dispatch back to the main queue are left out. A search is modelled as one synchronous step. The `fetchBatchSize` hint has no effect on results.
- Failures are parameters: `Bundle.listing` is `None` when the directory cannot be listed, `countFails` stands for a failing count, and `failed` for a failing fetch.
- Every `context.save()` is taken to succeed. Failed saves, which are logged or end in `fatalError`, are not modelled.
- Enumerating the bundle and decoding JSON are foreign calls. The bundle is given as a listing of names and a map from file name to decoded pairs. `None` stands for a file that cannot be read or decoded.
- Text.Fold: case and diacritic folding covers ASCII and the Latin-1 letters only, one character at a time. Full Unicode folding and decomposed characters are not modelled.
- Text.LexLeq: headwords are compared by character code (ordinal order). Foundation's own string comparison is not modelled.
- FetchRequests.Fetch: CoreData promises no order among records with equal keys. Fetch's contract promises none either, but its insertion sort over ascending ids fixes one. The delete handlers (`ContentView.DeleteItems`, `FavoriteView.DeleteWords`, `RecentView.DeleteItems`) use that order. So which of two records with equal keys sits at a given offset is the model's choice, not CoreData's. `Store.DeleteAtOffsets` itself accepts any listing.
- `Date()` is the `now` parameter of `DetailView.UpdateLastViewed`. Dates are integer timestamps.
- Pronunciation through `AVSpeechSynthesizer` and the app entry point are left out.
- ContentView.AddItem: `addItem` assigns only `english`. The other attributes keep data-model defaults that are not part of this model, so they are passed in as `ModelDefaults`. The record's identity is the store key, so the model gives the new record a fresh id although the code leaves `id` unset.
- DetailView.ToggleFavorite and DetailView.UpdateLastViewed require the record to be live, because the view holds the object itself. The same holds for the delete handlers, which take offsets of the rows on screen.
- Concurrent changes to the store from other contexts are not modelled.
