# Launches view: pagination, search filter and selection

A Dafny model of the state machine inside the `Launches` React component
(`src/view/Launches.jsx`), a list of spaceflight launch records that is
loaded page by page as the user scrolls, filtered by mission name as the
user types, and whose cards open one at a time to show their details.

The model has four modules:

- `Text` (text.dfy): the two JavaScript string operations the filter uses.
  `LowerStr` is `toLowerCase` on ASCII letters. `Includes` is `includes`,
  proved equal to the index-based definition of a substring.
- `Records` (records.dfy): the launch record and its two display rules.
  `Launch` is a class with constant fields, so that two records with equal
  fields are still distinct objects. The component compares the selected
  record with `===`, which is reference identity.
  `StatusLabel` is the status badge. `DetailsText` is the details text with
  its placeholder.
- `Filtering` (filtering.dfy): the filter effect as the pure function
  `Filter(launches, searchTerm)`, with lemmas. It keeps exactly the matching
  records, in their original order. It distributes over concatenation.
  The empty term shows everything. It is case-insensitive and idempotent.
- `LaunchesView` (view.dfy): the class `Launches`. Its fields are the eight
  state variables of src/view/Launches.jsx:7-14, the observer reference of
  line 15, and `refLoading`. `refLoading` is the `loading` value that the
  last card's ref callback was created with. It has one method per
  transition, and each one ends with React's commit of the new render
  (`Commit`). `Valid()` is the invariant every transition keeps:
  - `page >= 1`;
  - `filteredLaunches == Filter(launches, searchTerm)`;
  - `showDetails` holds exactly when `selectedLaunch` is set;
  - the selected record is one of the loaded ones;
  - the observer is what the last commit left (`Rendered()`). The last card
    is watched only when nothing is loading, and its callback sees the
    current `hasMore`.

  The data source's answer reaches `CompleteFetch` as a `FetchResult`
  parameter (`Fetched(items)` or `Failed`). The observer's report reaches
  `LastCardIntersects` as a boolean parameter.

Every state the methods promise is the state once the filter effect
(src/view/Launches.jsx:21-30) has run. `CompleteFetch` also performs the
direct append to `filteredLaunches` of line 42 and commits that list, and
the effect then replaces it. `TransientAppendSettled` proves when that
short-lived list already equals the settled one: exactly when every fetched
record matches the term.

The ref callback of the last card (src/view/Launches.jsx:65-74, :93-95) is
created anew on every render, and every card gets a fresh `key={nanoid()}`
(line 92). On each commit, React therefore first calls the previous
render's callback with `null`, using that render's `loading`. It then calls
the new render's callback with the new last card. `Commit` performs exactly
these two calls of `ArmObserver`. The commit that shows `loading == true`
thus runs a callback created while `loading` was false. That callback
disconnects the observer. So while a fetch is in flight, no observer
watches the list, and no callback that captured an old `hasMore` survives
the empty page. `LastCardIntersects` proves outright that once `hasMore` is
false, `page` never changes.

Three behaviours of `src/view/Launches.jsx` are easy to misread. The model
follows the code:

- `fetchData` does not check `loading`. `BeginFetch` therefore does not
  require `!loading`. The overlap is excluded only because the loading commit
  disconnects the observer.
- The filter branch tests the term's truthiness. Only the empty term skips
  the filter (the `else` branch at lines 27-29). A blank term such as `" "` is
  filtered like any other.
- `page` is not advanced by a fetch. It advances when the observed last
  card intersects, in a render that was not loading and had `hasMore`.

## Model

| member | source | states |
|---|---|---|
| `Text.LowerChar` | src/view/Launches.jsx:24 | an ASCII upper-case letter becomes the lower-case letter at the same alphabet position; any other character is kept; the result is never upper-case |
| `Text.LowerStr` | src/view/Launches.jsx:24 | `toLowerCase` keeps the length and lower-cases each character in place |
| `Text.LowerStrIdempotent` | src/view/Launches.jsx:24 | lower-casing an already lower-cased string changes nothing |
| `Text.IncludesIffOccurs` | src/view/Launches.jsx:24 | `s.includes(t)` holds exactly when `t` occurs in `s` at some index `i`, i.e. `s[i..i+|t|] == t` |
| `Text.Includes` | src/view/Launches.jsx:24 | `s.includes(t)`: every string includes the empty string, and a string includes only strings no longer than itself |
| `Records.StatusLabel` | src/view/Launches.jsx:104 | the badge is "Upcoming" exactly when `upcoming` is true, and "Failed" exactly when it is false |
| `Records.DetailsText` | src/view/Launches.jsx:137 | the details text is the record's `details` when it is present and not "", and "No details available" when it is null or "" (the two falsy values of a string-or-null field); it is never empty |
| `Filtering.MatchesNeedle` | src/view/Launches.jsx:23-24 | the filter callback accepts every record for the empty needle, and accepts a record only if the needle is no longer than its mission name |
| `Filtering.Matches` | src/view/Launches.jsx:22-24 | every record matches the empty term, and a record matches a term only if the term is no longer than its mission name |
| `Filtering.MatchesNeedleIffOccurs` | src/view/Launches.jsx:23-24 | the filter callback accepts a record exactly when the needle occurs at some index of the lower-cased mission name |
| `Filtering.MatchesIffOccurs` | src/view/Launches.jsx:22-24 | a record matches a raw term exactly when the lower-cased term occurs at some index of the lower-cased mission name |
| `Filtering.Keep` | src/view/Launches.jsx:23-25 | `filter` never grows the list |
| `Filtering.Filter` | src/view/Launches.jsx:21-30 | the visible list is never longer than the loaded list |
| `Filtering.KeepMembers` | src/view/Launches.jsx:23-25 | `filter` keeps every record whose lower-cased name includes the needle, and only those |
| `Filtering.FilterMembers` | src/view/Launches.jsx:21-30 | the visible list holds exactly the loaded records whose lower-cased mission name includes the lower-cased term |
| `Filtering.KeepEmptyNeedle` | src/view/Launches.jsx:23-25 | filtering with the empty needle keeps every record |
| `Filtering.FilterIsKeep` | src/view/Launches.jsx:22-29 | the `if (searchTerm)` shortcut returns the same list as filtering with the lower-cased term, for every term |
| `Filtering.KeepAppend` | src/view/Launches.jsx:23-25 | filtering the concatenation of two lists gives the concatenation of the filtered lists |
| `Filtering.FilterAppend` | src/view/Launches.jsx:21-30 | the visible list of `a + b` is the visible list of `a` followed by that of `b`, so a new page is filtered by the current term and the old visible records stay a prefix |
| `Filtering.FilterSingle` | src/view/Launches.jsx:21-30 | a single record is shown exactly when it matches the term |
| `Filtering.KeepSubsequence` | src/view/Launches.jsx:23-25 | the filtered list is a subsequence of its input |
| `Filtering.FilterSubsequence` | src/view/Launches.jsx:21-30 | the visible list keeps the relative order of the loaded list |
| `Filtering.KeepAllIffAllMatch` | src/view/Launches.jsx:23-25 | filtering leaves a list unchanged exactly when every record in it matches the needle |
| `Filtering.FilterAllIffAllMatch` | src/view/Launches.jsx:21-30 | the visible list equals the loaded list exactly when every loaded record matches the term |
| `Filtering.FilterIdempotent` | src/view/Launches.jsx:21-30 | filtering an already visible list again with the same term leaves it as it is: the visible list is closed under the filter |
| `Filtering.FilterCaseInsensitive` | src/view/Launches.jsx:24 | terms that lower-case to the same string show the same records |
| `Filtering.TransientAppendSettled` | src/view/Launches.jsx:40-42 | appending a page unfiltered to the visible list gives the settled visible list exactly when every record of the page matches the term |
| `Filtering.FalconSearch` | src/view/Launches.jsx:21-30 | searching "falcon" among "Falcon 1", "Falcon 9" and "Starship" shows the two Falcon records, in order |
| `LaunchesView.Launches.DetailsOpen` | src/view/Launches.jsx:113-116 | in every valid state a record's details panel is open exactly when it is the selected record, so at most one panel is open |
| `LaunchesView.Launches.constructor` | src/view/Launches.jsx:7-15 | at mount nothing is loaded or shown, nothing is loading or selected, the term is empty, `page` is 1, `hasMore` is true, and no observer is armed |
| `LaunchesView.Launches.ArmObserver` | src/view/Launches.jsx:65-74 | a callback created while loading leaves the observer as it is; any other callback disconnects it and installs a new observer, seeing the current `hasMore`, that watches the card if one is passed and nothing otherwise |
| `LaunchesView.Launches.Commit` | src/view/Launches.jsx:65-74 | after a commit has called the previous last card's callback with null and the new last card's callback with the card, the last card is watched exactly when one is shown and nothing is loading, and then with the current `hasMore` |
| `LaunchesView.Launches.ApplyFilterEffect` | src/view/Launches.jsx:21-30 | after the effect runs, `filteredLaunches` is the filter of `launches` by `searchTerm` |
| `LaunchesView.Launches.BeginFetch` | src/view/Launches.jsx:32-33 | starting a fetch raises `loading`, and its commit leaves no observer watching; the lists, term, selection, `page` and `hasMore` are unchanged |
| `LaunchesView.Launches.AppendPage` | src/view/Launches.jsx:40-48 | a non-empty page is appended after the old records in the order returned, the visible list gains exactly its matching records, and `loading` ends; `hasMore`, `page`, the term and the selection are untouched |
| `LaunchesView.Launches.FinishWithoutPage` | src/view/Launches.jsx:38-48 | an empty page clears `hasMore`, a rejection leaves it as it was, `loading` ends, and the lists are untouched |
| `LaunchesView.Launches.CompleteFetch` | src/view/Launches.jsx:36-48 | an empty page clears `hasMore` and keeps `launches`; a non-empty page is appended after the old records in the order returned; a rejection keeps `launches` and `hasMore`; the visible list gains exactly the matching new records and is otherwise unchanged; `loading` is false afterwards; `page`, the term and the selection are unchanged |
| `LaunchesView.Launches.SetSearchTerm` | src/view/Launches.jsx:51-53 | the term is replaced and the visible list is recomputed from it, the whole list for the empty term; pagination and selection are untouched |
| `LaunchesView.Launches.ToggleDetails` | src/view/Launches.jsx:55-63 | clicking the open card closes it and clears the selection; clicking any other loaded card selects it and opens it; afterwards no other card is open; loaded and visible lists, `page` and `hasMore` are untouched |
| `LaunchesView.Launches.LastCardIntersects` | src/view/Launches.jsx:68-71 | `page` grows by exactly one when the last card intersects and the observer was armed with `hasMore` true, which in a valid state means a card is shown, nothing is loading and `hasMore` holds; it is unchanged otherwise, in particular whenever `hasMore` is false |
| `LaunchesView.EmptySecondPage` | src/view/Launches.jsx:17-19 | one full page followed by an empty one leaves ten records, `page` 2 and `hasMore` false, and a further intersection does not move `page` |

## Left out

- The HTTP request (`axios.get`, `baseUrl`, src/view/Launches.jsx:35) is network I/O. Its outcome is the `FetchResult` parameter of `CompleteFetch`, and the page number it sends is not modelled.
- The `IntersectionObserver` object and DOM nodes (src/view/Launches.jsx:67-73, :94) are browser APIs. Only the observer's current state and the `hasMore` its callback captured are kept.
- React scheduling is framework behaviour. The model assumes that the state updates after the `await` are batched into one render, and that every state change is committed before the next event is handled. An intersection that an observer queued before the commit that disconnects it, but that is delivered after that commit, is not modelled. Effect timing and async interleaving are not modelled either. The page effect's call to `fetchData(page)` (src/view/Launches.jsx:17-19) is left to the caller (`BeginFetch`).
- The date display (`toLocaleDateString`, `getFullYear`, src/view/Launches.jsx:126-128) depends on the locale and the clock.
- `console.error` (src/view/Launches.jsx:45) is a log with no effect on state.
- The JSX markup, CSS classes, the patch image, and the "Loading..." and "No more launches" banners (src/view/Launches.jsx:76-153) are presentation.
- `LowerChar`, `LowerStr`: Unicode case mapping is not modelled, because only ASCII letters are lower-cased. JavaScript also lower-cases letters such as 'Á', and for some characters (such as 'İ') it changes the length, so `LowerStr`'s `|r| == |s|` holds only for the ASCII mapping modelled here.
- src/App.jsx is router wiring only and is not part of this model.
