# Umrah Ease Helper: a verified model of its core

Umrah Ease Helper is a browser extension for pilgrims. This project models the
parts of it that hold state or make decisions, and proves what each of them promises:

- **Bookmark repository** (`bookmarks.dfy`). One ordered list of hotel, flight and package
  bookmarks is kept under a single storage key. Each operation reads the list, changes it and
  writes it back. The model is a class whose field is the stored list (`None` while the key is
  unset). It states the exact new state and boolean answer of every operation, including when
  a read or a write throws.
- **Key-value storage adapter** (`storage.dfy`). The page-local fallback backend is a class
  over a map from key to stored text. Its `sync` area forwards to `local`. A service class wraps
  the backend with `set/get/getMultiple/remove/clear/has`.
- **Hotel filter and clothing advice** (`mock_data.dfy`). The filter conjoins optional
  criteria, and each numeric criterion is disabled by 0, as JavaScript truthiness dictates. The
  clothing advice is a three-band classification of the temperature.
- **Prayer-time selection** (`prayer_times.dfy`). This covers the next prayer, the current
  prayer, the hours-and-minutes countdown text and the reading of `"HH:MM"`. Instants are
  integers in milliseconds and `now` is a parameter.
- **Phrase search** (`phrases.dfy`). This covers the phrase-by-category lookup and the
  category-by-category search, which is case-insensitive on English and pronunciation and exact
  on Arabic.
- **Document checklist** (`documents.dfy`). This covers the getters that filter by category,
  required or completed, the lookup by id, and the in-place status update on the checklist array.

Shared modules:

- `options.dfy` holds `Option`.
- `subsequences.dfy` holds "is a subsequence of".
- `decimal.dfy` holds how `${n}` renders an integer and how `Number(text)` reads it back.
- `text.dfy` holds `split` on a one-character separator and the joining of words that it undoes.
- `lookup.dfy` holds the first-index-by-id search that `find` and `findIndex` perform over documents and bookmarks.
- `catalog.dfy` holds the hotel, flight and package records.

Time, generated ids and storage faults are parameters of the operations that use them. The
clock reading behind `bookmark-${Date.now()}` is `clockMs`. A storage read or write that throws
is `readFails` or `writeFails`.

## Model

| member | source | states |
|---|---|---|
| Bookmarks.BookmarkService.GetAllBookmarks | src/services/bookmarkService.ts:9-17 | the stored list; [] when the key is unset or the read throws |
| Bookmarks.LoadedEmpty | src/services/bookmarkService.ts:11-16 | a failed read and an unset key both give []; otherwise the stored list |
| Bookmarks.Loaded | src/services/bookmarkService.ts:11-16 | what getAllBookmarks returns: `bookmarks \|\| []`, and [] when the read throws |
| Bookmarks.OfType | src/services/bookmarkService.ts:22 | the type filter |
| Bookmarks.OfTypeCounts | src/services/bookmarkService.ts:22 | each bookmark of the type occurs as often as stored, no other occurs |
| Bookmarks.IsBookmarked | src/services/bookmarkService.ts:31-33 | the `some` test for a bookmark with the same type and referenceId |
| Bookmarks.BookmarkService.GetBookmarksByType | src/services/bookmarkService.ts:20-23 | the result is the type filter applied to what getAllBookmarks returns |
| Bookmarks.OfTypeMembers | src/services/bookmarkService.ts:22 | a bookmark is returned iff it is stored and has the requested type |
| Bookmarks.OfTypeIsSubsequence | src/services/bookmarkService.ts:22 | the by-type result keeps stored order |
| Bookmarks.BookmarkService.AddHotelBookmark | src/services/bookmarkService.ts:26-56 | new state and answer are those of the add outcome for the hotel record |
| Bookmarks.BookmarkService.AddFlightBookmark | src/services/bookmarkService.ts:59-89 | new state and answer are those of the add outcome for the flight record |
| Bookmarks.BookmarkService.AddPackageBookmark | src/services/bookmarkService.ts:92-122 | new state and answer are those of the add outcome for the package record |
| Bookmarks.BookmarkService.AddRecord | src/services/bookmarkService.ts:28-51 | the duplicate check, the append and the write shared by the three adds match the add outcome |
| Bookmarks.BookmarkService.Save | src/services/bookmarkService.ts:50-55 | a write stores the list and answers true; a throwing write changes nothing and answers false |
| Bookmarks.NewHotelBookmark | src/services/bookmarkService.ts:39-47 | type hotel; the description is the hotel template; referenceId, name, id, createdAt and notes come from the hotel, the clock and the arguments |
| Bookmarks.NewFlightBookmark | src/services/bookmarkService.ts:72-80 | type flight; name and description are the flight templates; referenceId, id, createdAt and notes come from the flight, the clock and the arguments |
| Bookmarks.NewPackageBookmark | src/services/bookmarkService.ts:105-113 | type package; the description is the package template; referenceId, name, id, createdAt and notes come from the package, the clock and the arguments |
| Bookmarks.BookmarkId | src/services/bookmarkService.ts:40 | the id template "bookmark-" followed by the clock value |
| Bookmarks.HotelDescription | src/services/bookmarkService.ts:44 | the hotel description template: city, " - ", min, "-", max, " ", currency |
| Bookmarks.FlightName | src/services/bookmarkService.ts:76 | the flight name template: airline, " - ", flight number |
| Bookmarks.FlightDescription | src/services/bookmarkService.ts:77 | the flight description template: departure, " to ", arrival, " - ", price, " ", currency |
| Bookmarks.PackageDescription | src/services/bookmarkService.ts:110 | the package description template: duration, " days - ", price, " ", currency |
| Bookmarks.NumberThenWords | src/services/bookmarkService.ts:77 | a number's text followed by a space splits off as one word |
| Bookmarks.HotelDescriptionExample | src/services/bookmarkService.ts:44 | a Makkah hotel at 250 to 500 USD is described as "makkah - 250-500 USD" |
| Bookmarks.HotelDescriptionReadsBack | src/services/bookmarkService.ts:44 | the hotel description splits at spaces into the city, "-", "min-max" and the currency's words; non-negative prices read back from the range |
| Bookmarks.PriceRangeReadsBack | src/services/bookmarkService.ts:44 | the "min-max" part of two non-negative prices splits at its dash into two pieces that read back as the prices |
| Bookmarks.FlightNameReadsBack | src/services/bookmarkService.ts:76 | the flight name splits at spaces into the airline's words, "-" and the flight number's words, for any airline and flight number |
| Bookmarks.FlightDescriptionWords | src/services/bookmarkService.ts:77 | the flight description splits into the departure words, "to", the arrival words, "-", the price and the currency words |
| Bookmarks.PackageDescriptionWords | src/services/bookmarkService.ts:110 | the package description splits into the duration, "days", "-", the price and the currency words |
| Bookmarks.FlightDescriptionReadsBack | src/services/bookmarkService.ts:77 | the flight description splits into the departure city's words, "to", the arrival city's words, "-", the price and the currency's words, for any city names; the price reads back |
| Bookmarks.PackageDescriptionReadsBack | src/services/bookmarkService.ts:110 | the package description splits into the duration, "days", "-", the price and the currency's words; both numbers read back |
| Bookmarks.IdReadsBackClock | src/services/bookmarkService.ts:40 | the id is "bookmark-" followed by text that reads back as the clock value |
| Bookmarks.DistinctClocksDistinctIds | src/services/bookmarkService.ts:40 | different clock values give different ids |
| Bookmarks.AddRejectsDuplicate | src/services/bookmarkService.ts:31-37 | an item already bookmarked with the same type and referenceId is refused (false) and nothing is written |
| Bookmarks.AddAppendsAtEnd | src/services/bookmarkService.ts:31-51 | success iff the item is new and the write goes through; on success exactly the new record is appended and every earlier record keeps its place; on failure the store is unchanged |
| Bookmarks.AddAfterFailedRead | src/services/bookmarkService.ts:13-16 | after a failed read, a successful add overwrites the store with the one new record |
| Bookmarks.AddKeepsNoDuplicates | src/services/bookmarkService.ts:31-49 | if no two stored bookmarks share type and referenceId before an add, none do after it |
| Bookmarks.AddOutcome | src/services/bookmarkService.ts:28-55 | the add path: refuse a duplicate, else append and write, false when the write throws |
| Bookmarks.BookmarkService.RemoveBookmark | src/services/bookmarkService.ts:125-140 | new state and answer are those of the remove outcome |
| Bookmarks.WithoutIdMembers | src/services/bookmarkService.ts:128 | the id filter keeps a bookmark iff it has another id |
| Bookmarks.WithoutIdIsSubsequence | src/services/bookmarkService.ts:128 | the id filter keeps the remaining bookmarks in order |
| Bookmarks.WithoutId | src/services/bookmarkService.ts:128 | the filter that drops every record with the id |
| Bookmarks.WithoutIdCounts | src/services/bookmarkService.ts:128 | each bookmark with another id is kept as often as stored, none with the id |
| Bookmarks.WithoutIdKeepsNoDuplicates | src/services/bookmarkService.ts:128 | dropping records keeps the list free of two bookmarks for one item |
| Bookmarks.WithoutIdLength | src/services/bookmarkService.ts:128-130 | the filtered list is shorter by the number of records with the id, and has the same length iff no record has the id |
| Bookmarks.RemoveEffects | src/services/bookmarkService.ts:127-135 | false with no write iff no record has the id (or the write throws); on success no record with the id remains, every other is kept in order, and the length drops by their count |
| Bookmarks.RemoveOutcome | src/services/bookmarkService.ts:127-139 | the remove path: filter, false when nothing was dropped, else write |
| Bookmarks.RemoveKeepsNoDuplicates | src/services/bookmarkService.ts:127-135 | remove keeps the list free of two bookmarks for one item |
| Bookmarks.RemoveAfterFailedRead | src/services/bookmarkService.ts:13-16 | after a failed read, remove finds nothing and answers false |
| Bookmarks.RemoveUniqueId | src/services/bookmarkService.ts:128-130 | when exactly one record has the id, the list shrinks by exactly one |
| Bookmarks.CountOne | src/services/bookmarkService.ts:128 | exactly one record with the id counts as one |
| Lookup.FirstIndexOf | src/services/bookmarkService.ts:146 | findIndex/find by id gives the first position with the id, or none when no record has it |
| Bookmarks.BookmarkService.UpdateBookmarkNotes | src/services/bookmarkService.ts:143-163 | new state and answer are those of the notes outcome |
| Bookmarks.NotesEffects | src/services/bookmarkService.ts:146-157 | false with no write when the id is absent; on success only the notes of the first record with the id change: same length, every other record and field kept |
| Bookmarks.NotesOutcome | src/services/bookmarkService.ts:145-162 | the notes path: findIndex, false for -1, else replace that record's notes and write |
| Bookmarks.NotesKeepsNoDuplicates | src/services/bookmarkService.ts:146-157 | updating notes keeps the list free of two bookmarks for one item |
| Bookmarks.BookmarkService.ClearAllBookmarks | src/services/bookmarkService.ts:166-174 | new state and answer are those of the clear outcome |
| Bookmarks.ClearEffects | src/services/bookmarkService.ts:166-170 | clearing leaves [] and answers true; clearing twice equals clearing once; a failed write changes nothing |
| Bookmarks.ClearOutcome | src/services/bookmarkService.ts:166-173 | the clear path: write [], false when the write throws |
| Storage.ReadItem | src/services/storageService.ts:43-45 | a missing key and the empty text read as null; JSON text reads back as its value; other text reads back verbatim |
| Storage.Truthy | src/services/storageService.ts:114 | JavaScript truthiness of a stored value |
| Storage.StoredValue | src/services/storageService.ts:114 | `result[key] \|\| null` |
| Storage.Present | src/services/storageService.ts:155 | `!!result[key]` |
| Storage.RequestedKeys | src/services/storageService.ts:28-56 | the keys a get answers for: every non-empty stored key for null, the one key, or the listed keys |
| Storage.Written | src/services/storageService.ts:60-64 | after set(entries) every entry's key holds its value and every other key is kept |
| Storage.WrittenOneMore | src/services/storageService.ts:61-63 | writing one more entry is one more map update |
| Storage.LocalStorageFallback.LocalGet | src/services/storageService.ts:25-59 | an entry for exactly the requested keys (all non-empty stored keys for null), each read as by ReadItem |
| Storage.LocalStorageFallback.LocalSet | src/services/storageService.ts:60-64 | the store becomes the Written store |
| Storage.LocalStorageFallback.LocalRemove | src/services/storageService.ts:65-73 | the store loses exactly the named keys |
| Storage.LocalStorageFallback.LocalClear | src/services/storageService.ts:74-76 | the store becomes empty |
| Storage.LocalStorageFallback.SyncGet | src/services/storageService.ts:80-83 | the sync area answers exactly as local does |
| Storage.LocalStorageFallback.SyncSet | src/services/storageService.ts:84-87 | the sync area writes exactly as local does |
| Storage.LocalStorageFallback.SyncRemove | src/services/storageService.ts:88-91 | the sync area removes exactly as local does |
| Storage.LocalStorageFallback.SyncClear | src/services/storageService.ts:92-95 | the sync area clears the same one store |
| Storage.LocalStorageFallback.AreaGet | src/services/storageService.ts:113 | either area answers from the one store |
| Storage.StorageService.Set | src/services/storageService.ts:101-108 | the key now holds the JSON text of the value; the rest of the store is kept |
| Storage.StorageService.Get | src/services/storageService.ts:111-119 | the stored value when truthy, null otherwise |
| Storage.StorageService.GetMultiple | src/services/storageService.ts:122-129 | an entry for every requested key, absent ones as null, with no falsy-to-null step |
| Storage.StorageService.Remove | src/services/storageService.ts:132-139 | the store loses exactly that key |
| Storage.StorageService.Clear | src/services/storageService.ts:142-149 | the store becomes empty |
| Storage.StorageService.Has | src/services/storageService.ts:152-160 | true iff the stored value is truthy, which is iff get does not give null |
| Storage.GetAfterSet | src/services/storageService.ts:60-64 | after set(k, v), get(k) is v unless v is falsy, and has(k) iff v is truthy |
| Storage.SetLeavesOthers | src/services/storageService.ts:61-63 | set of one key leaves every other key reading as before |
| Storage.HasAgreesWithGet | src/services/storageService.ts:155 | has(k) iff get(k) is not null |
| Storage.MissingKeyReadsNull | src/services/storageService.ts:43 | a missing key reads as null and has answers false |
| Storage.RemoveEffects | src/services/storageService.ts:65-73 | after remove(k), get(k) is null; removing an absent key changes nothing; other keys read as before |
| Storage.ClearEffects | src/services/storageService.ts:74-76 | after clear every key reads as null and has answers false |
| Storage.GetAllListsStoredKeys | src/services/storageService.ts:28-39 | get(null) lists exactly the stored keys other than the empty key |
| MockData.FilterHotelsIsSubsequence | src/lib/mockData.ts:521-557 | the filter result is a subsequence of the hotels in their original order |
| MockData.FilterHotels | src/lib/mockData.ts:521-557 | the filter over the hotel list |
| MockData.KeepHotel | src/lib/mockData.ts:522-557 | the callback's checks in order: city, price min and max, rating, amenities, distance |
| MockData.IsSet | src/lib/mockData.ts:529-532 | truthiness of an optional number filter: present and nonzero |
| MockData.IsSetReal | src/lib/mockData.ts:537-552 | truthiness of an optional real (rating, distance): present and nonzero |
| MockData.FilterHotelsCounts | src/lib/mockData.ts:521-557 | each kept hotel occurs as often as in the input, no other occurs |
| MockData.FilterHotelsMembers | src/lib/mockData.ts:521-557 | a hotel is returned iff it is in the list and passes every active check |
| MockData.FilterHotelsSound | src/lib/mockData.ts:522-554 | every result has the city, price bounds, rating, amenities and distance bound that were set |
| MockData.FilterHotelsComplete | src/lib/mockData.ts:522-557 | every listed hotel that meets every set criterion is returned |
| MockData.InertFiltersChangeNothing | src/lib/mockData.ts:524-554 | a 0, 'all' or empty-list criterion filters exactly as an absent one |
| MockData.ClothingRecommendationIndex | src/lib/mockData.ts:561-569 | one of the three recommendations |
| MockData.ClothingBands | src/lib/mockData.ts:561-569 | index 0 iff t >= 30, 1 iff 20 <= t < 30, 2 iff t < 20 |
| MockData.ClothingMonotone | src/lib/mockData.ts:561-569 | a warmer temperature never gets a heavier recommendation |
| Text.Split | src/lib/prayerTimes.ts:63 | split always gives at least one part |
| Text.SplitWithoutSeparator | src/lib/prayerTimes.ts:63 | text without the separator splits into itself |
| Text.SplitAtSeparator | src/lib/prayerTimes.ts:63 | splitting a + sep + b gives the parts of a followed by the parts of b |
| Text.SplitJoin | src/lib/prayerTimes.ts:63 | splitting words joined by a separator none of them contains gives the words back |
| Text.SplitAroundWord | src/lib/prayerTimes.ts:63 | splitting around a separator-free word keeps it whole between the parts of both sides |
| Text.WordThenRest | src/lib/prayerTimes.ts:63 | a separator-free word followed by the separator splits off as the first piece |
| PrayerTimes.PrayerInstant | src/lib/prayerTimes.ts:61-70 | a parsed instant is a whole number of minutes after the day start |
| PrayerTimes.ClockFields | src/lib/prayerTimes.ts:63 | split at ':' and `Number` of the first two pieces; none when a piece is missing or not a number |
| PrayerTimes.ClockText | src/lib/prayerTimes.ts:63 | the "HH:MM" text the timings are given in |
| PrayerTimes.ReadClockFields | src/lib/prayerTimes.ts:63 | "HH:MM" reads back as the two numbers written |
| PrayerTimes.ReadClockText | src/lib/prayerTimes.ts:63-67 | "HH:MM" gives day start + HH hours + MM minutes, with zero seconds |
| PrayerTimes.TwoDigits | src/lib/prayerTimes.ts:63 | the two-digit text is digits that read back as the number |
| PrayerTimes.InsertByTime | src/lib/prayerTimes.ts:76 | one insertion step of the stable sort by time |
| PrayerTimes.SortByTime | src/lib/prayerTimes.ts:76 | the stable sort by time |
| PrayerTimes.Upcoming | src/lib/prayerTimes.ts:75 | the filter keeping prayers strictly after now |
| PrayerTimes.NextPrayer | src/lib/prayerTimes.ts:72-79 | the head of the sorted upcoming prayers, or none |
| PrayerTimes.SortByTimePermutes | src/lib/prayerTimes.ts:76 | the sort is a permutation |
| PrayerTimes.SortByTimeSorted | src/lib/prayerTimes.ts:76 | the sort orders by time |
| PrayerTimes.SortByTimeStable | src/lib/prayerTimes.ts:76 | prayers with equal times keep their input order |
| PrayerTimes.UpcomingMembers | src/lib/prayerTimes.ts:75 | the upcoming prayers are exactly those strictly after now |
| PrayerTimes.NextPrayerSpec | src/lib/prayerTimes.ts:72-79 | none iff no prayer is after now; otherwise a prayer after now with minimal time, the earliest such in input order |
| PrayerTimes.CurrentPrayer | src/lib/prayerTimes.ts:98-117 | none iff no prayer is at or before now; otherwise a prayer with the greatest time at or before now, the last such in input order |
| PrayerTimes.ScanOfSortedCopy | src/lib/prayerTimes.ts:100-114 | where the scan of the sorted copy stops determines the current prayer |
| PrayerTimes.ScanOfSorted | src/lib/prayerTimes.ts:104-114 | in a sorted list, the last element before the first one after now is the latest at or before now |
| PrayerTimes.LastAtItsTime | src/lib/prayerTimes.ts:104-114 | in a time-sorted list, the element before a later one is the last at its instant |
| PrayerTimes.CurrentPrayerUnique | src/lib/prayerTimes.ts:98-117 | at most one prayer is current |
| PrayerTimes.CurrentPrecedesNext | src/lib/prayerTimes.ts:72-116 | when both exist, current.time <= now < next.time |
| PrayerTimes.JsRemainder | src/lib/prayerTimes.ts:89 | the remainder of the division truncated toward zero: a = q*b + r with q truncated, r of the dividend's sign and smaller than the divisor |
| PrayerTimes.HoursAndMinutes | src/lib/prayerTimes.ts:88-89 | hours as the floor of diff/hour, minutes as the floor of (diff % hour)/minute |
| PrayerTimes.TimeUntilNextPrayer | src/lib/prayerTimes.ts:81-96 | the countdown text for the next prayer, or the no-prayer message |
| PrayerTimes.HoursAndMinutesAhead | src/lib/prayerTimes.ts:88-89 | for a prayer ahead, minutes are below 60 and hours*60 + minutes is the whole minutes left |
| PrayerTimes.HoursAndMinutesPast | src/lib/prayerTimes.ts:88-89 | for a prayer already past, hours are negative and minutes lie in -60..0 |
| PrayerTimes.TimeUntilText | src/lib/prayerTimes.ts:86-95 | "{h}h {m}m" from a full hour ahead, "{m}m" under an hour, once past, "{m}m" with m the truncated remainder in whole minutes, between -60 and 0 |
| PrayerTimes.TimeUntilNoPrayer | src/lib/prayerTimes.ts:82 | no next prayer gives "No upcoming prayers today" |
| Phrases.PhrasesByCategoryFirstMatch | src/lib/phrases.ts:281-284 | the phrases of the first category with the id, or [] when none has it |
| Phrases.PhrasesByCategory | src/lib/phrases.ts:281-284 | the phrases of the first category with the id, else [] |
| Phrases.LowerChar | src/lib/phrases.ts:295-297 | ASCII lower-casing of one character |
| Phrases.Includes | src/lib/phrases.ts:295-298 | substring test: the part occurs at some position |
| Phrases.Matches | src/lib/phrases.ts:294-299 | lower(english) includes lower(q), or arabic includes q, or lower(pronunciation) includes lower(q) |
| Phrases.MatchingPhrases | src/lib/phrases.ts:294-299 | the per-category filter by the match test |
| Phrases.AllPhrases | src/lib/phrases.ts:293 | all phrases, category after category |
| Phrases.MatchingCounts | src/lib/phrases.ts:294-301 | each matching phrase occurs as often as in the input, no other occurs |
| Phrases.Lower | src/lib/phrases.ts:295-297 | lower-casing keeps the length and lower-cases each character |
| Phrases.SearchPhrases | src/lib/phrases.ts:290-305 | the results are the matching phrases of all categories flattened in order |
| Phrases.MatchingConcat | src/lib/phrases.ts:293-302 | matching category by category and concatenating equals matching the concatenation |
| Phrases.MatchingMembers | src/lib/phrases.ts:294-299 | a phrase is returned iff it matches the query |
| Phrases.MatchingIsSubsequence | src/lib/phrases.ts:294-301 | the results keep phrase order |
| Phrases.IncludesEmpty | src/lib/phrases.ts:295-298 | every text includes the empty query |
| Phrases.EmptyQueryMatchesAll | src/lib/phrases.ts:294-299 | the empty query returns every phrase |
| Phrases.SearchResults | src/lib/phrases.ts:290-305 | a phrase is found iff it is in some category and matches, and results are a subsequence of all phrases |
| Phrases.AllPhrasesMembers | src/lib/phrases.ts:293 | the flattened list holds exactly the phrases of the categories |
| Documents.SelectMembers | src/lib/documents.ts:103-113 | a document is selected iff it is listed and passes the getter's test |
| Documents.SelectIsSubsequence | src/lib/documents.ts:103-113 | the getters keep list order |
| Documents.CategoryName | src/types/index.ts:134 | the category's spelling |
| Documents.Select | src/lib/documents.ts:103-113 | the getters' filter by the selection's test |
| Documents.DocumentsByCategory | src/lib/documents.ts:103-105 | getDocumentsByCategory |
| Documents.RequiredDocuments | src/lib/documents.ts:107-109 | getRequiredDocuments |
| Documents.CompletedDocuments | src/lib/documents.ts:111-113 | getCompletedDocuments |
| Documents.SelectCounts | src/lib/documents.ts:103-113 | each selected document occurs as often as listed, no other occurs |
| Documents.GettersSelectExactly | src/lib/documents.ts:103-113 | by category, required and completed each return exactly the documents with that property, each as often as listed, in list order |
| Documents.DocumentById | src/lib/documents.ts:115-117 | the first document with the id; none exactly when no document has it |
| Documents.StatusUpdated | src/lib/documents.ts:119-124 | the list after setting completed on the first document with the id, unchanged for an unknown id |
| Documents.StatusUpdatedChangesOneField | src/lib/documents.ts:119-124 | only `completed` of the first document with the id changes; length and all else kept; an unknown id changes nothing |
| Documents.StatusShowsInCompleted | src/lib/documents.ts:111-124 | marking a document completed puts it among the completed ones; unmarking its only entry removes it |
| Documents.DocumentChecklist.UpdateDocumentStatus | src/lib/documents.ts:119-124 | the array afterwards is the status-updated list |
| Decimal.IntToStringRoundTrip | src/services/bookmarkService.ts:44 | `Number` reads back what `${n}` wrote |
| Decimal.IntToString | src/services/bookmarkService.ts:44 | `${n}` of an integral number below 1e21 in magnitude: optional minus sign and shortest decimal digits |
| Decimal.NumberValue | src/lib/prayerTimes.ts:63 | `Number(text)` for an optional sign and digits, "" as 0, anything else not a number |

## Left out

- Bookmarks: the JSON encoding of the bookmark list is not modelled. The stored field holds the list itself, and JSON round-trips it exactly because every field is a string.
- BookmarkService: overlapping asynchronous calls are not modelled. They can lose updates, because each call reads and then writes the whole list. Each call is treated as atomic.
- Bookmarks: ids are not proved unique in the store. Equal clock readings give equal ids, and removeBookmark drops every record with the id. A success shortens the list by exactly one only when ids are unique (`RemoveUniqueId`).
- Storage: JSON text is abstracted. `Encoded(v)` stands for the text `JSON.stringify(v)` and `Text(raw)` for text that `JSON.parse` rejects. Values that do not survive the round trip (undefined, functions, non-finite numbers) and non-integral numbers are not modelled.
- Storage: backend selection between `browser.storage`, `chrome.storage` and the fallback (src/services/storageService.ts:9-20) depends on host APIs. Only the fallback is modelled.
- StorageService: thrown storage errors are not modelled in the adapter (the same-page `localStorage` calls are taken not to throw, for example on quota). In the bookmark repository they are the `readFails` and `writeFails` parameters.
- Storage: the order in which `get(null)` enumerates keys is not modelled. The result is a record keyed by name.
- MockData: the distance to the Haram is taken as a given field, and its haversine computation (src/lib/mockData.ts:487-509) is left out. Floating-point arithmetic is replaced by exact reals.
- MockData: the distance NaN that the code produces for Jeddah hotels is the absent value (`None`), which is falsy like NaN.
- PrayerTimes: instants are integers in milliseconds with `now` a parameter. Time zones, daylight-saving shifts, `toISOString` and `toLocaleTimeString` formatting (src/lib/prayerTimes.ts:69, 119-122) are not modelled.
- PrayerTimes: fetching the timings from the aladhan API (src/lib/prayerTimes.ts:4-59) is network I/O and is not modelled.
- PrayerTimes: the sort is modelled as a stable insertion sort, which is the order JavaScript's stable `Array.prototype.sort` produces.
- Decimal.NumberValue: `Number(text)` is modelled only for an optional sign followed by digits and for the empty text. Whitespace, fractions, exponents and hexadecimal forms read as not-a-number. `"HH:MM"` fields never contain them.
- Phrases.Lower: lower-casing is ASCII only. Unicode case mapping is not modelled; the phrase data's English and pronunciation texts are ASCII.
- Phrases: `getAllCategories` (src/lib/phrases.ts:286-288) returns the category list itself, so it is the identity and has no member.
- Documents: the getters take the checklist contents as an argument. `DocumentChecklist.documents[..]` is the module-level array they read.
- Documents: aliasing of document objects handed out by the getters is not modelled. In the source a caller holding a returned object sees a later status change. In the model the array holds values.
- Catalog: prices, price ranges and durations are JavaScript numbers (src/types/hotels.ts:11-12, src/types/flights.ts:12, src/types/packages.ts:7-8), modelled as `int`. The catalogue data holds whole numbers only, and the price slider steps by 50 (src/components/HotelFinder.tsx:347). Fractional values and integers beyond 2^53, which JavaScript does not hold exactly, are not modelled.
- Decimal.IntToString: `${n}` is modelled only for integers below 1e21 in magnitude, where JavaScript writes plain decimal digits. The exponent form (`${1e21}` is "1e+21") and fraction renderings (`${1234.5}`) are not modelled.
- The static data tables (hotels, flights, packages, phrases, documents, weather) are not modelled beyond their types.
