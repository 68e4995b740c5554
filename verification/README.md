# thazh-explore browser shell: stores and tab session in Dafny

This project models the logic at the core of the thazh-explore React Native browser.

- **Bookmark store** (`BookmarkService`): a list of bookmarks kept under one storage key. It is read back newest first. Operations are add (refused for a url that is already bookmarked), delete by id, update by id, search, clear, export, and import with re-identification and de-duplication by url.
- **History store** (`HistoryService`): a list of visits, most recent first. Recording a visit promotes its url to the front, keeps one record per url and caps the list at 1000 records. The store also answers search, the frequent-sites ranking and the by-day query.
- **Tab session** (`BrowserScreen`): an ordered tab list with an active-tab pointer, the address-bar rule that turns typed text into a url, per-tab field updates, and the gating of WebView notifications and back/forward on the active tab.

Modelling choices:

- Each storage key is an `Option<seq<T>>`. `None` stands for a key that is absent or whose text does not parse to an array. Every operation that reads the store reads through `GetBookmarks`/`GetHistory`, as the source does; the two clear operations read nothing.
- The read sort is the source's stable sort with a descending comparator, written as an insertion sort.
- A store operation returns the list it writes, computed from the value read as one atomic step. Operations that throw return a `Result`.
- Each handler of the screen is a function from one `Session` to the next.
- `Date.now()` is a parameter `now`: one instant per call. Ids are its decimal rendering. Where the source reads the clock more than once in one call, the model still uses the one instant (see "Left out").
- `encodeURIComponent` is a parameter `encode`.
- Whether the active tab's WebView is mounted is a parameter `mounted`.
- The call to `HistoryService.addHistory` is returned as a `Visit`. `OnNavigationWithHistory` applies that visit to the history store.

Modules:

| file | module | contents |
|---|---|---|
| wrappers.dfy | `Wrappers` | `Option`, `Result` |
| text.dfy | `Text` | `trim`, ASCII `toLowerCase`, `includes`, `startsWith`, decimal ids, the search key |
| seqs.dfy | `Seqs` | `filter`, `slice`, `findIndex` by key, first-occurrence de-duplication, key uniqueness |
| sorting.dfy | `Sorting` | the stable descending sort and its laws |
| bookmarks.dfy, bookmark_properties.dfy | `BookmarkService`, `BookmarkProperties` | the bookmark store and its properties |
| history.dfy, history_properties.dfy | `HistoryService`, `HistoryProperties` | the history store and its properties |
| browser.dfy, browser_properties.dfy | `BrowserScreen`, `BrowserProperties` | the tab session, its invariant and its properties |

Behaviour of the code worth noting:

- Closing the only tab does not leave one tab. It keeps that tab and opens a new active one, so there are two.
- A navigation-state report from a background tab is dropped. It changes nothing and records no visit.
- Import accepts an entry whose title is an empty string. Only a missing or non-string title is rejected.
- Only text that starts with `http://` or `https://` counts as already having a scheme. `ftp://x.y` gets `https://` prepended.
- Import distinguishes text that does not parse (`MalformedJson`) from a parsed value that is not an array (`InvalidFormat`).

## Model

| member | source | states |
|---|---|---|
| BookmarkService.GetBookmarks | src/services/BookmarkService.ts:14-27 | an unreadable key reads as empty; otherwise the result is a permutation of the stored list, newest `dateAdded` first |
| BookmarkService.IsBookmarked | src/services/BookmarkService.ts:86-94 | true exactly when some stored bookmark has this url |
| BookmarkService.AddBookmark | src/services/BookmarkService.ts:29-52 | throws `AlreadyExists` exactly when the url is bookmarked; otherwise a new record (title falling back to the url, dated `now`, no favicon) goes in front of the list as read |
| BookmarkService.DeleteBookmark | src/services/BookmarkService.ts:54-63 | keeps exactly the records with another id, each as often as read and in read order (newest first), and writes even when nothing matched |
| BookmarkService.UpdateBookmark | src/services/BookmarkService.ts:65-84 | throws `NotFound` exactly when no record has the id; otherwise only the first record with the id changes, to its patched form, and the length is kept |
| BookmarkService.ApplyPatch | src/services/BookmarkService.ts:74-77 | `{...b, ...patch}`: every field the patch supplies wins, every other field is the record's own |
| BookmarkService.SearchBookmarks | src/services/BookmarkService.ts:96-113 | a blank query returns everything; otherwise exactly the records whose lower-cased title or url contains the trimmed lower-cased query, each as often as read and in read order |
| BookmarkService.ClearAllBookmarks | src/services/BookmarkService.ts:115-122 | the store then reads as empty |
| BookmarkService.ExportBookmarks | src/services/BookmarkService.ts:124-132 | the list as read: a newest-first permutation of the stored list |
| BookmarkService.ValidEntries | src/services/BookmarkService.ts:143-148 | keeps exactly the truthy entries with a string url that is not blank and a string title, each as often as given and in the given order |
| BookmarkService.Imported | src/services/BookmarkService.ts:155-159 | a surviving entry keeps its url, title and favicon, gets the id `now + index`, and keeps its date only when that date is truthy |
| BookmarkService.ImportedAll | src/services/BookmarkService.ts:155-159 | one record per surviving entry, the `i`-th being that entry re-identified at index `i` |
| BookmarkService.MergeImported | src/services/BookmarkService.ts:161-167 | the result has unique urls and takes every element from the two inputs; every url of either input is kept; each kept record is the first with its url in `imported + bs` and they keep that order, so the surviving imported records come before every existing one |
| BookmarkService.ImportBookmarks | src/services/BookmarkService.ts:134-174 | unparsable text throws `MalformedJson`, a non-array throws `InvalidFormat`, no valid entry throws `NoValidEntries`; otherwise the merge of the re-identified entries with the stored list |
| BookmarkProperties.AddBookmarkKeepsUrlsDistinct | src/services/BookmarkService.ts:29-52 | a store with unique urls keeps unique urls after an add |
| BookmarkProperties.AddBookmarkTwice | src/services/BookmarkService.ts:33-37 | after an add the url is bookmarked by exactly one record, and adding it again throws `AlreadyExists` |
| BookmarkProperties.DeleteBookmarkIdempotent | src/services/BookmarkService.ts:54-63 | deleting an id twice writes the same as deleting it once |
| BookmarkProperties.DeleteAbsentBookmark | src/services/BookmarkService.ts:56-58 | deleting an id no record has writes back the list as read |
| BookmarkProperties.UpdateBookmarkKeepsUrls | src/services/BookmarkService.ts:74-77 | an update without a url leaves every url's bookmarked status as it was |
| BookmarkProperties.SameUrlsSameBookmarked | src/services/BookmarkService.ts:86-94 | a list with the stored urls position by position bookmarks exactly the same urls |
| BookmarkProperties.UpdateKeepsEveryUrl | src/services/BookmarkService.ts:74-77 | an update without a url keeps every position's url |
| BookmarkProperties.ImportedRecordsWin | src/services/BookmarkService.ts:162-167 | for a url both imported and stored, the record written is the imported one |
| BookmarkProperties.ImportedIdsDistinct | src/services/BookmarkService.ts:155-158 | the ids an import assigns are pairwise distinct |
| BookmarkProperties.ImportedAllKeepsEntries | src/services/BookmarkService.ts:155-159 | the `i`-th imported record carries the url and title of the `i`-th surviving entry |
| BookmarkProperties.DistinctTimesDistinctIds | src/services/BookmarkService.ts:157 | different instants render as different ids |
| BookmarkProperties.ImportIntoEmptyKeepsAll | src/services/BookmarkService.ts:134-169 | valid entries with unique urls imported into an empty store are written, all of them, in order |
| BookmarkProperties.ImportedUrlsDistinct | src/services/BookmarkService.ts:155-159 | entries with unique urls give records with unique urls |
| BookmarkProperties.ImportDistinctIntoEmpty | src/services/BookmarkService.ts:161-167 | de-duplication removes nothing from records with unique urls |
| BookmarkProperties.ExportedEntriesValid | src/services/BookmarkService.ts:143-148 | an export of records with non-blank urls passes the import filter entirely |
| BookmarkProperties.ExportedEntryUrlsDistinct | src/services/BookmarkService.ts:124-132 | an export of a store with unique urls has unique urls |
| BookmarkProperties.ExportImportRoundTrip | src/services/BookmarkService.ts:124-169 | export then import into an empty store returns every bookmark in order with the same url, title and favicon, and the same date where it is non-zero |
| BookmarkProperties.ImportSucceeds | src/services/BookmarkService.ts:143-152 | one valid entry is enough for an import to succeed, with the merge as its result |
| BookmarkProperties.SearchFindsOwnUrl | src/services/BookmarkService.ts:96-113 | searching for a stored bookmark's lower-case, trimmed, non-blank url finds that bookmark |
| BookmarkProperties.ApplyPatchTwice | src/services/BookmarkService.ts:74-77 | applying the same patch twice gives the same record as applying it once |
| BookmarkProperties.EmptyPatch | src/services/BookmarkService.ts:74-77 | a patch that supplies no field leaves the record unchanged |
| HistoryService.GetHistory | src/services/HistoryService.ts:15-28 | an unreadable key reads as empty; otherwise a permutation of the stored list, most recent first |
| HistoryService.Promote | src/services/HistoryService.ts:40-63 | the visited url's record comes first, stamped `now`; the length grows by one only for a new url |
| HistoryService.AddHistory | src/services/HistoryService.ts:30-74 | a url containing the search engine's host name anywhere writes nothing; any other visit writes at most 1000 records with the url's record first, stamped `now` |
| HistoryService.DeleteHistoryItem | src/services/HistoryService.ts:76-85 | keeps exactly the records with another id, each as often as read and in read order (most recent first) |
| HistoryService.ClearHistory | src/services/HistoryService.ts:87-94 | the store then reads as empty |
| HistoryService.SearchHistory | src/services/HistoryService.ts:96-113 | a blank query returns everything; otherwise exactly the records whose lower-cased title or url contains the search key, each as often as read and in read order |
| HistoryService.SliceTo | src/services/HistoryService.ts:128 | `slice(0, end)`: a prefix, `end` long when that fits, counted back from the end when `end` is negative |
| HistoryService.RankedFrequent | src/services/HistoryService.ts:120-127 | exactly the records visited more than once, each as often as read, by visit count then visit time, both descending |
| HistoryService.GetFrequentSites | src/services/HistoryService.ts:115-135 | the first `limit` records of the ranking (all of it when shorter): records visited more than once, in ranking order |
| HistoryService.GetHistoryByDate | src/services/HistoryService.ts:137-154 | exactly the records whose visit time lies between the bounds, both included, each as often as read and in read order (most recent first) |
| HistoryProperties.PromoteFirstVisit | src/services/HistoryService.ts:52-63 | a url absent from the list gets a first-visit record in front of the whole list |
| HistoryProperties.PromoteRevisit | src/services/HistoryService.ts:42-51 | with unique urls, the revisited record moves to the front and the others keep their order |
| HistoryProperties.AddHistoryFirstVisit | src/services/HistoryService.ts:52-68 | a new url writes a record with count 1, title falling back to the url, in front of the first 999 records read |
| HistoryProperties.AddHistoryRevisit | src/services/HistoryService.ts:42-51 | a known url's record is written first with time `now`, count plus one and the title replaced only by a non-empty one, followed by the other records in order |
| HistoryProperties.AddHistoryRevisitLength | src/services/HistoryService.ts:42-68 | a revisit keeps the number of records, up to 1000 |
| HistoryProperties.AddHistoryEvictsOldest | src/services/HistoryService.ts:65-68 | a new url recorded into a full history drops exactly the oldest record |
| HistoryProperties.AddHistoryKeepsUrlsDistinct | src/services/HistoryService.ts:40-68 | unique urls stay unique after a visit is recorded |
| HistoryProperties.RecordTwice | src/services/HistoryService.ts:42-63 | recording a new url twice leaves one record for it, counted twice, with the second time and title |
| HistoryProperties.DeleteHistoryItemIdempotent | src/services/HistoryService.ts:76-85 | deleting an id twice writes the same as deleting it once |
| HistoryProperties.FrequentSitesAreTop | src/services/HistoryService.ts:120-128 | a record visited more than once and left out ranks at or below every record returned |
| HistoryProperties.SearchFindsOwnUrl | src/services/HistoryService.ts:96-113 | searching for a recorded lower-case, trimmed, non-blank url finds its record |
| HistoryProperties.WholeRangeKeepsAll | src/services/HistoryService.ts:137-154 | bounds that cover every visit time select the whole history as read |
| BrowserScreen.Initial | src/screens/BrowserScreen.tsx:31-43 | one tab `"1"` on the default page, active, mobile mode, tab view hidden |
| BrowserScreen.ActiveTab | src/screens/BrowserScreen.tsx:49 | found exactly when some tab has the active id, and then it is such a tab |
| BrowserScreen.FormatUrl | src/screens/BrowserScreen.tsx:60-75 | blank input gives the default url; input with a space or with neither dot nor colon goes to search; input with an http or https scheme is kept; anything else gets `https://` |
| BrowserScreen.MapTab | src/screens/BrowserScreen.tsx:83-87 | the tabs with the id are transformed, the others kept, the length unchanged |
| BrowserScreen.UpdateTabUrl | src/screens/BrowserScreen.tsx:82-88 | only the url of the tabs with the id changes |
| BrowserScreen.UpdateTabTitle | src/screens/BrowserScreen.tsx:90-96 | only the title of the tabs with the id changes |
| BrowserScreen.UpdateTabNavigation | src/screens/BrowserScreen.tsx:98-104 | only the two history flags of the tabs with the id change |
| BrowserScreen.UpdateActiveTabUrl | src/screens/BrowserScreen.tsx:77-88 | setting the active tab's url changes that field of the active tab and nothing else of it |
| BrowserScreen.NavigateToUrl | src/screens/BrowserScreen.tsx:77-80 | the active tab gets the formatted url; no other tab changes |
| BrowserScreen.AddNewTab | src/screens/BrowserScreen.tsx:106-119 | a tab with the clock's id, the default url and title `New Tab` is appended and made active; the tab view closes; the other tabs are unchanged |
| BrowserScreen.CloseTab | src/screens/BrowserScreen.tsx:121-139 | one tab: the same as opening a new tab; otherwise the tabs with the id are removed, and the active id is unchanged unless it was closed; the raise is modelled as `None` |
| BrowserScreen.SwitchTab | src/screens/BrowserScreen.tsx:141-144 | the id becomes active and the tab view closes; the tabs are unchanged |
| BrowserScreen.SetTabViewVisible | src/screens/BrowserScreen.tsx:228 | only the tab-view flag changes |
| BrowserScreen.OnLoadStart | src/screens/BrowserScreen.tsx:245-250 | the loading flag is set only by the active tab; nothing else changes |
| BrowserScreen.OnLoadEnd | src/screens/BrowserScreen.tsx:256-261 | the loading flag is cleared only by the active tab; nothing else changes |
| BrowserScreen.OnNavigationStateChange | src/screens/BrowserScreen.tsx:262-271 | a background tab's report changes nothing and records nothing; the active tab takes url, title and flags, and the visit is recorded |
| BrowserScreen.OnNavigationWithHistory | src/screens/BrowserScreen.tsx:262-271 | the history store changes only for the active tab's report, through `addHistory` |
| BrowserScreen.GoBack | src/screens/BrowserScreen.tsx:146-151 | going back is dispatched exactly when the WebView is mounted and the active tab can go back |
| BrowserScreen.GoForward | src/screens/BrowserScreen.tsx:153-158 | going forward is dispatched exactly when the WebView is mounted and the active tab can go forward |
| BrowserScreen.Reload | src/screens/BrowserScreen.tsx:160-165 | a reload is dispatched exactly when the WebView is mounted |
| BrowserScreen.ToggleDesktopMode | src/screens/BrowserScreen.tsx:167-173 | desktop mode flips and nothing else changes |
| BrowserScreen.GetUserAgent | src/screens/BrowserScreen.tsx:193-198 | the desktop user agent is used exactly in desktop mode |
| BrowserProperties.InitialValid | src/screens/BrowserScreen.tsx:31-40 | the first session satisfies the invariant |
| BrowserProperties.SameIdsKeepValid | src/screens/BrowserScreen.tsx:82-104 | field updates keep tab ids, so they keep the invariant |
| BrowserProperties.AddNewTabKeepsValid | src/screens/BrowserScreen.tsx:106-119 | opening a tab with a fresh id keeps the invariant |
| BrowserProperties.CloseActiveKeepsValid | src/screens/BrowserScreen.tsx:128-137 | closing the active tab of two or more keeps the invariant |
| BrowserProperties.CloseOtherKeepsValid | src/screens/BrowserScreen.tsx:128-137 | closing a tab other than the active one keeps the invariant |
| BrowserProperties.CloseTabKeepsValid | src/screens/BrowserScreen.tsx:121-139 | closing never raises in a valid session and keeps the invariant |
| BrowserProperties.CloseActiveTab | src/screens/BrowserScreen.tsx:128-137 | closing the active tab removes exactly it and activates its right neighbour, or its left one when it was last |
| BrowserProperties.CloseBackgroundTab | src/screens/BrowserScreen.tsx:128-137 | closing a background tab removes exactly it and keeps the active id |
| BrowserProperties.CloseOnlyTab | src/screens/BrowserScreen.tsx:122-125 | closing the only tab leaves two tabs, the old one and a new active one |
| BrowserProperties.SwitchTabKeepsValid | src/screens/BrowserScreen.tsx:141-144 | switching to an existing tab keeps the invariant |
| BrowserProperties.NavigationUpdatesActiveTab | src/screens/BrowserScreen.tsx:262-271 | the active tab's report becomes its url, title and flags, is recorded as a visit, and keeps the invariant |
| BrowserProperties.HistoryButtonsFollowNavigation | src/screens/BrowserScreen.tsx:146-158 | after the active tab reports its state, back and forward are dispatched exactly when the WebView is mounted and the report allows them |
| BrowserProperties.WebSchemeExtends | src/screens/BrowserScreen.tsx:69 | text with a web scheme keeps it when anything is appended |
| BrowserProperties.DefaultUrlIsWebUrl | src/screens/BrowserScreen.tsx:27-28 | the default url and search engine have the http scheme and no space |
| BrowserProperties.SearchUrlIsWebUrl | src/screens/BrowserScreen.tsx:65 | a search url has the http scheme |
| BrowserProperties.HttpsPrefixedIsWebUrl | src/screens/BrowserScreen.tsx:74 | a url with `https://` prepended has a web scheme |
| BrowserProperties.FormatUrlIsWebUrl | src/screens/BrowserScreen.tsx:60-75 | every url the address bar produces has the http or https scheme |
| BrowserProperties.FormatUrlKeepsWebUrl | src/screens/BrowserScreen.tsx:64-70 | an address with a web scheme and no space loads as typed |
| BrowserProperties.FormatUrlSpaceFree | src/screens/BrowserScreen.tsx:60-75 | the address bar's output has no space unless the query encoding put one there |
| BrowserProperties.FormatUrlIdempotent | src/screens/BrowserScreen.tsx:60-75 | formatting a formatted url changes nothing, given an encoding without spaces |
| BrowserProperties.FormatUrlAddsScheme | src/screens/BrowserScreen.tsx:64-74 | any text with a dot, no space and no http or https scheme, such as `openai.com` or `hotmail.com`, gets `https://` |
| BrowserProperties.ToggleDesktopModeTwice | src/screens/BrowserScreen.tsx:167-198 | toggling twice restores the session, and each toggle switches the user agent |
| BrowserProperties.Step | src/screens/BrowserScreen.tsx:106-144 | only closing a tab can raise |
| BrowserProperties.StepKeepsValid | src/screens/BrowserScreen.tsx:77-271 | every handler with an allowed input keeps the invariant |
| BrowserProperties.RunKeepsValid | src/screens/BrowserScreen.tsx:77-271 | a run of allowed handlers from a valid session never raises and ends valid |
| BrowserProperties.ReachableIsValid | src/screens/BrowserScreen.tsx:31-144 | every session reached from the first one has a non-empty tab list with distinct ids whose active id names a tab |
| Text.Trim | src/services/BookmarkService.ts:99 | the text is the result with only whitespace before and after it; the result is empty exactly when the text is all whitespace, and otherwise neither starts nor ends with whitespace |
| Text.LowerChar | src/services/BookmarkService.ts:99-107 | `toLowerCase` on one character: an ASCII capital maps to its small letter, every other character to itself |
| Text.ToLower | src/services/BookmarkService.ts:99-107 | `toLowerCase`: the same length, each character lower-cased |
| Text.ToLowerIdempotent | src/services/BookmarkService.ts:99-107 | lower-casing lower-cased text changes nothing |
| Text.OwnUrlMatches | src/services/BookmarkService.ts:99-107 | lower-case, trimmed, non-blank text is its own search key and matches a record with that url |
| Text.Decimal | src/services/BookmarkService.ts:40 | `Number.prototype.toString` of a non-negative integer below 10^21 (which covers every clock value): a non-empty string of digits, one digit exactly below ten |
| Text.DecimalInjective | src/services/BookmarkService.ts:157 | different numbers render differently |
| Text.BlankSearchKey | src/services/HistoryService.ts:99-103 | the search key is empty exactly when the query is all whitespace |
| Seqs.Filter | src/services/HistoryService.ts:79 | `filter`: exactly the elements that pass, each as often as in the input |
| Seqs.Passing | src/services/HistoryService.ts:79 | the positions whose element passes, strictly increasing, every passing position included |
| Seqs.FilterInOrder | src/services/HistoryService.ts:79 | `filter` keeps exactly the passing positions, in their order |
| Seqs.FilterCounts | src/services/HistoryService.ts:79 | `filter` keeps every passing value as often as the input has it, and no other value |
| Seqs.Take | src/services/HistoryService.ts:65-68 | `splice(n)` on a longer list: the first `n` elements, or the whole list when it is not longer |
| Seqs.IndexOfKey | src/services/HistoryService.ts:40 | `findIndex`: -1 when no element has the key, otherwise the first index that has it |
| Seqs.WithoutKeyIsRemoveAt | src/services/HistoryService.ts:50 | with unique keys, filtering a key out is splicing out its one element |
| Seqs.DedupByKey | src/services/BookmarkService.ts:165-167 | the result has unique keys and holds the first element of every key not already seen, and nothing else; each kept element is the first of its key, and they appear in the order in which their keys first occur |
| Seqs.DedupFirst | src/services/BookmarkService.ts:165-167 | the first element of every key, and nothing else, in the order in which the keys first occur |
| Seqs.DedupFirstFrontBlock | src/services/BookmarkService.ts:161-167 | de-duplicating `a + b` puts every kept element of `a` before every other kept element |
| Seqs.DedupFirstPrefersFront | src/services/BookmarkService.ts:162-167 | de-duplicating `a + b` keeps an element of `a` for every key `a` has |
| Seqs.PermutationKeepsKeysDistinct | src/services/HistoryService.ts:21 | reordering keeps keys unique |
| Seqs.FilterKeepsKeysDistinct | src/services/HistoryService.ts:79 | filtering keeps keys unique |
| Sorting.Insert | src/services/HistoryService.ts:21 | inserting into a sorted list keeps it sorted and adds exactly the one element |
| Sorting.SortDesc | src/services/HistoryService.ts:21 | the result is sorted descending and is a permutation of the input |
| Sorting.SortedIsFixpoint | src/services/HistoryService.ts:21 | sorting a sorted list returns it unchanged, so reading back a written list does not reorder it |
| Sorting.FilterKeepsSorted | src/services/HistoryService.ts:146-149 | filtering a sorted list keeps it sorted |
| Sorting.PrefixKeepsSorted | src/services/HistoryService.ts:128 | a prefix of a sorted list is sorted |
| Sorting.PrefixRanksAboveRest | src/services/HistoryService.ts:128 | a prefix of a sorted list ranks at or above everything left out |

## Left out

- AsyncStorage and JSON: reads and writes are replaced by the stored value and the list written back. Write failures, and the errors they would raise, are not modelled. Pretty-printing of the export is not modelled.
- JSON parsing details: an import payload is a decoded value. It is unparsable text, a non-array, or an array of entries. An entry is falsy, or an object with optional string url, title and favicon and an optional integer date. A date that is a non-numeric truthy value, or `NaN`, is not represented. Fields other than these are dropped.
- BookmarkService.GetBookmarks: sorting a stored array whose elements are not bookmark records is not modelled. The stored list is already a list of records.
- HistoryService.AddHistory: the source reads the clock twice, for the id and for the visit time. The model uses one instant `now` for both.
- BookmarkService.AddBookmark: the source reads the clock twice, for the id and for `dateAdded`. The model uses one instant, so its contract ties the id to the date, which the source does not guarantee when the clock ticks between the reads.
- BookmarkService.ImportBookmarks: the source reads the clock for each surviving entry's id, and again for its date when that date is falsy (src/services/BookmarkService.ts:157-158). The model uses one instant for the whole import, so `Imported` ties a fallback date to the instant of the id, which the source does not guarantee when the clock ticks between the reads. `ImportedIdsDistinct` holds for the source only while the clock does not run backwards during the import.
- HistoryService.RankedFrequent: the order among records with the same visit count and visit time (the stable sort keeps their read order) is not stated by the contract.
- Atomicity: each store operation is modelled as one atomic read-modify-write. The screen calls `HistoryService.addHistory` without awaiting it (src/screens/BrowserScreen.tsx:269), so two quick navigation reports can interleave their reads and writes and lose a visit. `RecordTwice` covers only visits recorded one after the other.
- HistoryService.GetHistoryByDate: the day bounds computed with local-time `setHours` are parameters. Clocks and time zones are outside the model.
- HistoryService.GetFrequentSites: the default `limit` of 10 is not modelled. The caller always passes the limit.
- Text.ToLower: lower-cases ASCII letters only. Full Unicode case mapping is outside the model.
- Text.Decimal: from 10^21 on, JavaScript switches to exponent notation, while the model always writes plain digits. Clock values stay far below that bound.
- Text.LowerChar: maps `A`-`Z` to `a`-`z` and leaves every other character alone. This is the per-character half of `Text.ToLower` and has the same ASCII-only limit.
- BrowserScreen.ToggleDesktopMode: the reload scheduled 100 ms later is not modelled. The user-agent string itself is reduced to desktop or platform default.
- Load progress (`setProgress` with 0, 1 or a fraction) is display-only floating point and is not modelled.
- The screen's bookmark and share buttons (alerts around `BookmarkService.addBookmark`) and orientation locking are not modelled.
- React state batching and stale closures are not modelled. Each handler is a sequential transition.
- Id collisions from the clock are outside the model: opening a tab requires a fresh id.
- SettingsScreen, BookmarksScreen, the address bar, tab bar and navigation bar components, App.tsx and react-native.config.js are rendering and wiring, and are not part of this model.
