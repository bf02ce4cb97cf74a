# anniw track resolution, in Dafny

A model of the part of the anniw web client that turns catalog track
descriptors into playable queue items:

- **Backend selection** (`getAvailableLibraryForTrack`). An album may be hosted by several backend libraries. The user holds credentials `{url, token, priority}`. Libraries are sorted stably by the priority of their first credential, highest first, and the head library's first credential is chosen. A library that hosts the album but has no credential makes the lookup reject.
- **URL construction.** Play and cover urls are built by plain concatenation. The 0-based disc and track indices become 1-based path segments, and the token is appended as `?auth=` without escaping.
- **The track list component.**
  - Its effect resolves the NORMAL tracks one by one and commits the whole result only at the end.
  - `onPlay`, `playAll` and `addAllToPlayQueue` keep the playable items and pick a start index.
  - `parsedTrackMap` keys the items by `albumId-discIndex-trackIndex`.
  - Rows are wired to `parsedTracks` by their raw position.
- **The album page.** Its effect runs a chain of guards, then sorts the request's library array in place with the same priority rule and sets the page credential. The page also lays out each disc as a track list with positions filled in.
- **The player control bar.** The central button dispatches on the player status and picks its icon.

Modules, one per source file plus two helpers:

| file | module | source |
|---|---|---|
| `wrappers.dfy` | `Wrappers` | the `Option` type |
| `types.dfy` | `Types` | `src/components/TrackList/types.ts`, credential and queue item records |
| `decimal.dfy` | `Decimal` | `${n}` for non-negative integers |
| `stable_sort.dfy` | `StableSort` | `Array.prototype.sort`, stable since ECMA-262 10th edition (section 22.1.3.27) |
| `services.dfy` | `Services` | `src/components/TrackList/services.ts` lines 7-35 |
| `track_list.dfy` | `TrackList` | `src/components/TrackList/index.tsx` |
| `album_detail.dfy` | `AlbumDetail` | `src/pages/AlbumDetail/index.tsx` |
| `player_controller.dfy` | `PlayerController` | `src/components/Player/components/PlayerController/index.tsx` |

How the model reads the source:

- **The sort.** A JavaScript comparator `(a, b) => key(b) - key(a)` under a stable sort is a stable descending sort. Every stable sort gives the same output, so the functional insertion sort `StableSort.SortDesc` is its reference definition. `StableSort.SortInPlace` performs it on an array and is proved equal to it.
  - Both places that sort do so in place, on the array they were handed: `Services.SortByPriority`, used by `Services.GetAvailableLibraryForTrack` and `AlbumDetail.Page.SelectCredential`.
  - The comparator dereferences `credentialUrlMap[x][0]` for every library it compares. A sort of two or more elements compares every element, and with one element the final lookup dereferences it. So a library without a credential always throws: the `Failed` outcome. When the comparator throws, the array is left as it was, because the sort writes its result back only once it has finished.
- **lodash.** `groupBy(creds, "url")[u][0]` is the first credential for `u` in credential order (`Services.Representative`). `keyBy` lets a later item overwrite an earlier item with the same key (`TrackList.KeyBy`).
- **Rejected lookups.** A rejection inside the track list's async effect rejects the whole pass before `setParsedTracks`. The component's `parsedTracks` then keeps its previous value (`TrackList.Component.ResolveTracks` returns `committed == false`).
- **Playability.** `!!t.playUrl` is "present and non-empty". Resolved play urls are never empty (`TrackList.ResolvedPlayableIffPlayUrl`).
- **Album page state.** `addMessage` appends to the page's `messages`. `setCredential` writes the page's `credential`. The result of the library request is an `array?` that is null while the request has produced nothing.
- **Conversions.** Indices are `nat`. Below 10^21 JavaScript renders an integer in decimal without leading zeros, which is what `Decimal.NatToString` produces. Indices are array positions, so they never reach the exponent notation JavaScript uses from 10^21 on.

## Model

| member | source | states |
|---|---|---|
| Types.TrackItem.ItemType | src/components/TrackList/types.ts:6-32 | `itemType` fixes the variant: NORMAL exactly for a NormalTrackItem, DUMMY exactly for a DummyTrackItem |
| Types.AdvancedFeaturesAreAddLaterAndPlaylist | src/components/TrackList/types.ts:34-52 | the advanced features are exactly SHOW_ADD_TO_LATER and SHOW_ADD_TO_PLAYLIST, two distinct features |
| Decimal.NatToString | src/components/TrackList/services.ts:28 | a rendered index is a non-empty string of decimal digits without a leading zero |
| Decimal.DigitsValueOfNatToString | src/components/TrackList/services.ts:28 | reading the rendered digits back gives the number |
| Decimal.NatToStringInjective | src/components/TrackList/services.ts:28 | distinct numbers render as distinct strings |
| StableSort.SortDescPermutation | src/components/TrackList/services.ts:18-20 | the sorted libraries are a permutation of the available ones |
| StableSort.SortDescSorted | src/components/TrackList/services.ts:18-20 | the sorted libraries are in descending key order |
| StableSort.FirstMaxIndex | src/components/TrackList/services.ts:18-20 | the earliest position of maximal key: nothing has a higher key, everything before it a strictly lower one |
| StableSort.SortDescHead | src/components/TrackList/services.ts:18-21 | stability at the head: the first sorted library is the earliest one of maximal key |
| StableSort.SortDescCongruent | src/components/TrackList/services.ts:18-20 | the sort depends on the key only at the elements being sorted |
| StableSort.InsertAt | src/components/TrackList/services.ts:18-20 | an element inserted into a sorted run lands after every element with a key at least its own and before the smaller ones |
| StableSort.InsertInPlace | src/components/TrackList/services.ts:18-20 | moving a[i] left into the sorted prefix leaves the prefix equal to the insertion, and the rest of the array unchanged |
| StableSort.SortInPlace | src/components/TrackList/services.ts:18-20 | sorting the array in place leaves exactly the stable descending sort of its old contents |
| Services.FirstIndexOfUrl | src/components/TrackList/services.ts:14-17 | the position of the first credential with the url, or the length when there is none |
| Services.Representative | src/components/TrackList/services.ts:14-17 | `groupBy(...)[url][0]`: a credential for url taken from the list, absent exactly when no credential has that url |
| Services.SelectByPriority | src/components/TrackList/services.ts:13-21 | nothing exactly when there are no libraries; a failure exactly when some library has no credential; otherwise a credential whose url is an available library and which is that library's first credential |
| Services.FilterKeepsRepresentative | src/components/TrackList/services.ts:14-17 | keeping only credentials of available libraries does not change any available library's first credential |
| Services.SelectLibraryIgnoresFilter | src/components/TrackList/services.ts:14-21 | the track lookup's selection, with the filter, equals the selection over all credentials |
| Services.WinnerIsFirstMaximal | src/components/TrackList/services.ts:18-21 | the chosen credential belongs to the earliest library of highest first-credential priority: no library is higher, every earlier one strictly lower |
| Services.FoundIsFirstForItsUrl | src/components/TrackList/services.ts:14-21 | the returned credential is the first one in credential order with its url |
| Services.SortByPriority | src/components/TrackList/services.ts:18-21 | the selection is the priority rule on the array's old contents; the array is left sorted when a credential is found and unchanged otherwise |
| Services.GetAvailableLibraryForTrack | src/components/TrackList/services.ts:7-23 | the lookup settles to the priority rule applied to the album's libraries |
| Services.PlayUrl | src/components/TrackList/services.ts:25-29 | the play url starts with the library url and ends with the token |
| Services.CoverUrl | src/components/TrackList/services.ts:31-35 | the cover url starts with the library url |
| Services.UrlsShareDiscPrefix | src/components/TrackList/services.ts:25-35 | play url = `url/albumId/(disc+1)/(track+1)?auth=token`; cover url = `url/albumId/(disc+1)/cover`: same disc prefix, no track index or token in the cover url |
| Services.PlayUrlIsNotCoverUrl | src/components/TrackList/services.ts:25-35 | a track's play url differs from its cover url |
| Services.PlayUrlDeterminesTrack | src/components/TrackList/services.ts:25-29 | two tracks of one disc with equal play urls from one credential are the same track |
| Services.HigherPriorityWins | src/components/TrackList/services.ts:13-21 | libraries b1 (priority 5) and b2 (priority 9) with a credential each: b2's credential is chosen |
| Services.TieGoesToEarlierLibrary | src/components/TrackList/services.ts:18-21 | two libraries of equal priority: the credential of the one listed first is chosen, whatever the credential order |
| Services.FirstCredentialOfLibraryWins | src/components/TrackList/services.ts:14-21 | two credentials for one library: the first listed is chosen, though the second has the higher priority |
| Services.UrlsOfExampleTrack | src/components/TrackList/services.ts:25-35 | disc 0, track 2 of album X on http://lib1 with token abc: play url "http://lib1/X/1/3?auth=abc", cover url "http://lib1/X/1/cover" |
| Services.UncoveredLibraryFails | src/components/TrackList/services.ts:14-21 | with libraries ["http://lib1"] and the one credential for "http://lib2", the lookup fails |
| Services.CoveredLibraries | src/components/TrackList/services.ts:14-17 | the available libraries that have a credential, exactly |
| Services.SelectCoveredLibraryNeverFails | src/components/TrackList/services.ts:13-21 | skipping libraries without a credential, selection never fails, finds a credential exactly when some library has one, and picks one of highest priority among those |
| TrackList.IsNormalTrack | src/components/TrackList/index.tsx:36-37 | the guard holds exactly for NORMAL items |
| TrackList.NormalTracks | src/components/TrackList/index.tsx:64 | the filter keeps only normal items and is no longer than its input |
| TrackList.ResolveNormalsFailsIff | src/components/TrackList/index.tsx:61-80 | a pass produces nothing exactly when the lookup of some normal track fails |
| TrackList.ResolveNormalsOneToOne | src/components/TrackList/index.tsx:64-78 | a completed pass has one item per normal track, in order; each copies title, artist, type, album id and title, disc and track index and tags; the two urls are present exactly when a credential was found, built from it |
| TrackList.Component.ResolveTracks | src/components/TrackList/index.tsx:61-81 | the loop commits exactly when the pass completes, and then parsedTracks is its result; otherwise parsedTracks keeps its previous value |
| TrackList.Playable | src/components/TrackList/index.tsx:94 | the filter keeps only items with a non-empty play url |
| TrackList.PlayableMembers | src/components/TrackList/index.tsx:94 | an item is kept exactly when it is in the list and playable |
| TrackList.PlayableDistributes | src/components/TrackList/index.tsx:94 | the filter keeps relative order: it distributes over concatenation |
| TrackList.ResolvedPlayableIffPlayUrl | src/components/TrackList/index.tsx:69-70 | a resolved item is playable exactly when it has a play url |
| TrackList.PlayAll | src/components/TrackList/index.tsx:100-105 | replaces the queue with exactly the playable items, in their order, and starts at 0 |
| TrackList.AddAllToPlayQueue | src/components/TrackList/index.tsx:106-108 | appends exactly the playable items, in their order |
| TrackList.QueuedItemsAreAllPlayable | src/components/TrackList/index.tsx:100-108 | playAll and addAllToPlayQueue pass an item exactly when it is in parsedTracks and playable, and splitting parsedTracks in two splits their items the same way, so relative order is kept |
| TrackList.FindIndexByPlayUrl | src/components/TrackList/index.tsx:95 | the first position with an equal play url, or -1 when there is none |
| TrackList.OnPlay | src/components/TrackList/index.tsx:91-99 | the call replaces the queue with the playable items; it throws exactly when the index is past the end and some item is playable; past the end with nothing playable it starts at -1 |
| TrackList.OnPlayStartIndex | src/components/TrackList/index.tsx:91-96 | for an index in range, the start index is non-negative exactly when the clicked item is playable, and then it is the first playable item with the clicked item's play url |
| TrackList.TrackKeySeparatesTracks | src/components/TrackList/index.tsx:86-89 | items of one disc of one album at different track indices get different keys |
| TrackList.KeyByKeys | src/components/TrackList/index.tsx:86-89 | the map's keys are exactly the items' keys |
| TrackList.KeyByLastWins | src/components/TrackList/index.tsx:86-89 | an item that no later item shares a key with is what the map holds under its key |
| TrackList.ParsedTrackMapEmptyIff | src/components/TrackList/index.tsx:82-90 | the map is empty exactly when parsedTracks is empty |
| TrackList.RowsRenderOnceResolved | src/components/TrackList/index.tsx:117-118 | no row renders while parsedTracks is empty; otherwise one per normal track |
| TrackList.NormalRowsMatchTracks | src/components/TrackList/index.tsx:118-145 | rows are the normal tracks, in order, at strictly increasing raw positions |
| TrackList.NormalTracksAppend | src/components/TrackList/index.tsx:64 | the normal-track filter distributes over concatenation |
| TrackList.NormalTracksOfNormals | src/components/TrackList/index.tsx:64 | a list of normal tracks passes the filter unchanged |
| TrackList.RowItemMatchesTrack | src/components/TrackList/index.tsx:127-138 | a row preceded by no DUMMY track hands its callbacks its own resolved track |
| TrackList.ResolveWithoutLibraries | src/components/TrackList/index.tsx:64-78 | when no library hosts any album, every normal track resolves, in order, to an item without urls carrying its own fields |
| TrackList.DummyShiftsRowItem | src/components/TrackList/index.tsx:127-138 | with tracks [dummy, a, b], the row of a hands its callbacks the item resolved from b |
| TrackList.RowQueueItemByNormalPositionMatches | src/components/TrackList/index.tsx:127-138 | indexing by the row's position among normal tracks hands every row its own resolved track |
| AlbumDetail.SelectionEffect | src/pages/AlbumDetail/index.tsx:40-57 | guards in order, each stopping the effect: missing album id, then no credentials, then no libraries; "no backend" is reported only when not loading; selection runs exactly when all pass, never finds "no library", and fails exactly when some library has no credential |
| AlbumDetail.PageSelectionIsTrackListSelection | src/pages/AlbumDetail/index.tsx:53-57 | the page's unfiltered selection equals the track lookup's filtered one |
| AlbumDetail.PagePicksFirstMaximal | src/pages/AlbumDetail/index.tsx:53-57 | the page credential is the first credential of the earliest library of highest first-credential priority |
| AlbumDetail.Libraries | src/pages/AlbumDetail/index.tsx:22-24 | the request's result is absent exactly while it is undefined |
| AlbumDetail.Page.SelectCredential | src/pages/AlbumDetail/index.tsx:40-57 | adds the guard's message, sets the credential when one is found and otherwise keeps it, sorts the library array in place when a credential is found, and throws exactly when some library has no credential |
| AlbumDetail.TrackListOf | src/pages/AlbumDetail/index.tsx:85-91 | track t of disc d keeps its kind and descriptive fields; if NORMAL, it gets discIndex d, trackIndex t and the album's id and title, overriding its own |
| AlbumDetail.DiscSections | src/pages/AlbumDetail/index.tsx:81-104 | no sections without album info or discs; otherwise one per disc in order, keyed by its catalog, headed "Disc (d+1)", with its located track list |
| AlbumDetail.DiscHeadingsDistinct | src/pages/AlbumDetail/index.tsx:95-97 | different discs get different headings |
| AlbumDetail.SectionMapKeepsEveryItem | src/pages/AlbumDetail/index.tsx:85-91 | within one disc no two resolved tracks share a key, so `parsedTrackMap` keeps every item |
| PlayerController.MainButtonClick | src/components/Player/components/PlayerController/index.tsx:24-32 | exactly one call per click: pause exactly when PLAYING, restart exactly when ENDED, resume exactly when PAUSED |
| PlayerController.MainButtonIcon | src/components/Player/components/PlayerController/index.tsx:34-38 | the play icon exactly when PAUSED, the pause icon when PLAYING or ENDED |
| PlayerController.SkipButtonClick | src/components/Player/components/PlayerController/index.tsx:18 | the previous and next buttons make no call |
| PlayerController.IconMatchesClick | src/components/Player/components/PlayerController/index.tsx:24-38 | the play icon goes with resume, the pause icon with pause or restart |

## Left out

- `AlbumDB.getAvailableLibraries` (IndexedDB) is a parameter, a function from album id to library urls. Its `await` is not modelled.
- `getAlbumInfo`, `useRequest` and `getAlbumAvailableLibraries` are network calls, so they are not modelled. The page receives the album info and the library array as inputs.
- `addFavorite`, `removeFavorite`, `createPlaylist` and `addTrackToPlaylist` (services.ts lines 37-82) wrap an HTTP client that is not part of this model.
- React scheduling is not modelled. This covers effect dependencies, memoisation, and overlapping resolution passes committing in any order.
- The play-queue and player hooks are not modelled. Their calls appear as values: `TrackList.QueueCall` and `PlayerController.Action`.
- Rendering is not modelled: layout, icon components, the `Item` and `AlbumCover` components, and the literal message texts. Messages are an enum of kinds.
- `mock/anniv.ts` is development-server fixture data.
- Credential urls that collide with `Object.prototype` keys in lodash's `groupBy` map are not modelled.
- Priorities are unbounded integers. The comparator's subtraction is read as a comparison, so floating-point differences are not modelled.
- `AlbumDetail.TrackListOf`: the album info's track type is declared in a shared types file that is not part of this model. Disc tracks are taken to be track items. A DUMMY one keeps its variant, and the fields the spread adds to it are not modelled.
- `AlbumDetail.Page.SelectCredential`: `allAvailableCredentials` is always a list. The `?.` guard on an undefined credential list is not modelled.
- `AlbumDetail.Page.SelectCredential`: the comparator's throw ends the effect. What React then does with the error is not modelled.
- `Decimal.NatToString`: JavaScript's exponent notation for numbers of 10^21 and more is not modelled, since rendered indices are array positions.
- `StableSort.SortDesc`: the model proves the sort is sorted, is a permutation, and has the earliest maximal element at its head. Stability among equal keys beyond the head is not stated, because only the head is ever read.

## Findings

| source | as written | input that shows it | evidently intended | confidence | as-written member | corrected member |
|---|---|---|---|---|---|---|
| src/components/TrackList/services.ts:14-21 | the credentials are filtered to the available libraries, but each library is still looked up in the grouped map, so a library that hosts the album without a credential makes the comparator (or the final lookup) dereference `undefined` and the lookup rejects, aborting the whole track list pass | libraries ["http://lib1"], credentials [{url "http://lib2", token "abc", priority 1}] | skip libraries the user holds no credential for; answer "no library" when none is left | medium, not executed | Services.UncoveredLibraryFails | Services.SelectCoveredLibraryNeverFails |
| src/components/TrackList/index.tsx:127-138 | row callbacks index `parsedTracks` (one item per NORMAL track) with the row's raw position in `tracks`, so a DUMMY item before a row hands the row a later track's item | tracks [dummy, a, b] with an empty lookup: the row of a gets b's item | index `parsedTracks` by the row's position among the normal tracks | medium, not executed | TrackList.DummyShiftsRowItem | TrackList.RowQueueItemByNormalPositionMatches |
