# Rick and Morty client: view-model bookkeeping in Dafny

This project models the presentation layer of an Android client for a public
character catalogue. Three view models turn user actions and the results of
asynchronous requests into a log of navigation events:

- `CharacterListViewModel` pages through the characters. It keeps a page
  counter (`currentPage`, starting at 1), an end-of-data flag (`isLastPage`)
  and a loading flag (`isLoading`). It requests pages of `PAGE_SIZE = 20` and
  publishes `ShowLoading`, `HideLoading`, `ShowCharacterList` and
  `ShowCharacterError`.
- `CharacterDetailViewModel` validates an optional character. A missing
  character closes the screen. A present one is published, its favourite
  status is looked up by id, and its episodes are requested. The view model
  publishes `ShowEpisodeListLoading`, `HideEpisodeListLoading`,
  `ShowEpisodeList`, `ShowEpisodeError` and `CloseActivity`, and it records
  every favourite answer in `isFavorite`.
- `FavoriteListViewModel` classifies a received favourites list. An empty
  list becomes `ShowEmptyListMessage`; any other list becomes
  `ShowCharacterList` with that list.

Each view model is an immutable record (`ViewModel` in modules
`CharacterList`, `CharacterDetail` and `FavoriteList`). Each public method and
each Rx callback is a pure function from the old record to the new one. The
`events` LiveData of each view model is modelled as the sequence of every
value assigned to it, and its current value is the last entry
(`EventLog.CurrentValue`). The other assigned LiveData, `characterValues` and
`isFavorite`, keep only their current value, which is `Null` while nothing has
been assigned. A subscription to a use case appears as a recorded request
(`requestedPages`, `statusLookups`, `episodeRequests` and `statusUpdates`)
and as one more subscription in flight (`pendingPages`, `pendingLookups`,
`pendingEpisodes` and `pendingUpdates`). The result of the subscription
arrives later as a separate transition that takes the callback's value and
answers one subscription in flight of its kind. The `doOnSubscribe` hooks run
when the subscription is made, so their loading event is published by the
request itself.

Kotlin's `Int` is modelled as `KotlinTypes.Int32`. Its `+` wraps around
(`KotlinTypes.WrapAdd`), both in the footer condition
`visibleItemCount + firstVisibleItemPosition` and in `currentPage += 1`. A
footer sum past the top of the `Int` range always reads as "not in the
footer", and for a non-negative visible count a reported footer is always a
real one (`CharacterList.IsInFooter`). The page-counter lemma
`CharacterList.PageMonotone` holds while the counter stays clear of the top
of the `Int` range; the history of requested pages is stated with the
wrapped successor, so it holds for every run.

`Input` sequences run through `Run` and model any order of calls and
callbacks that the code can produce: `Runnable` admits a callback only while
a subscription of its kind is in flight, and a favourite click only when
there is a character to convert. From construction on, the shared loading
protocol (`EventLog.LoadingProtocol`) then holds of each event log: one
loading event per request, every prefix of the log holding at least as many
loading events as outcomes, every outcome right after the hide event, and
outcomes plus subscriptions in flight equal to the requests made.

One behaviour of the code is easy to misread. `isLoading` is declared and
read, but it is never assigned. It stays `false`, so its guard in
`onLoadMoreItems` never blocks anything (`CharacterList.IsLoadingNeverChanges`).
"No request once the last page is reached" holds only for scrolling
(`CharacterList.ScrollingStopsAtLastPage`). `onRetryGetAllCharacter` with no
items and a direct `onGetAllCharacters` still request the current page after
the last page was reached. The model follows the code in both cases.

## Model

| member | source | states |
|---|---|---|
| `KotlinTypes.WrapAdd` | app/src/main/kotlin/com/platzi/android/rickandmorty/presentation/CharacterListViewModel.kt:69 | Kotlin `Int` addition: equals the mathematical sum when it fits in 32 bits; otherwise it is shifted by 2^32 and lands on the opposite sign |
| `CharacterList.IsInFooter` | app/src/main/kotlin/com/platzi/android/rickandmorty/presentation/CharacterListViewModel.kt:64-72 | when the sum does not overflow, true exactly when `v + f >= t`, `f >= 0` and `t >= 20`; false whenever the sum exceeds `Int.MAX_VALUE`; always implies `f >= 0` and `t >= 20`; for `v >= 0` it never reports a footer that the mathematical sum would deny |
| `CharacterList.LoadMoreItems` | app/src/main/kotlin/com/platzi/android/rickandmorty/presentation/CharacterListViewModel.kt:50-62 | while loading, at the last page or outside the footer, nothing changes: no event and no request; otherwise the page goes up by exactly one (below the `Int` limit) and exactly that page is requested, with one `ShowLoading` |
| `CharacterList.RetryGetAllCharacter` | app/src/main/kotlin/com/platzi/android/rickandmorty/presentation/CharacterListViewModel.kt:74-82 | with `itemCount > 0`: only `HideLoading` and no request; otherwise the current page is requested again without advancing, whatever `isLastPage` says; paging fields never change |
| `CharacterList.GetAllCharacters` | app/src/main/kotlin/com/platzi/android/rickandmorty/presentation/CharacterListViewModel.kt:84-90 | requests exactly the current page and leaves one more subscription in flight; publishes `ShowLoading` at subscription as the only new event; leaves page, last-page and loading flags alone |
| `CharacterList.OnPageLoaded` | app/src/main/kotlin/com/platzi/android/rickandmorty/presentation/CharacterListViewModel.kt:91-99 | answers one subscription in flight; afterwards `isLastPage` holds exactly when it did before or the page has fewer than 20 items; appends `HideLoading` and then `ShowCharacterList` with the received list; page and requests are unchanged |
| `CharacterList.OnPageError` | app/src/main/kotlin/com/platzi/android/rickandmorty/presentation/CharacterListViewModel.kt:100-106 | answers one subscription in flight; sets `isLastPage`; appends `HideLoading` and then `ShowCharacterError` with the failure, so no list is published; page and requests are unchanged |
| `CharacterList.Step` | app/src/main/kotlin/com/platzi/android/rickandmorty/presentation/CharacterListViewModel.kt:50-106 | no call or callback writes `isLoading` or clears `isLastPage`; the page stays or goes up by one; the event log is only extended |
| `CharacterList.IsLoadingNeverChanges` | app/src/main/kotlin/com/platzi/android/rickandmorty/presentation/CharacterListViewModel.kt:24-106 | no sequence of calls and callbacks changes `isLoading`, because no code assigns it |
| `CharacterList.LoadingGuardNeverFires` | app/src/main/kotlin/com/platzi/android/rickandmorty/presentation/CharacterListViewModel.kt:26-51 | from construction, `isLoading` is false after any sequence, so the guard that reads it never blocks |
| `CharacterList.PageMonotone` | app/src/main/kotlin/com/platzi/android/rickandmorty/presentation/CharacterListViewModel.kt:24-61 | over any sequence of n inputs, the page never decreases and grows by at most n, as long as it stays within `Int` range |
| `CharacterList.LastPageReached` | app/src/main/kotlin/com/platzi/android/rickandmorty/presentation/CharacterListViewModel.kt:91-106 | `isLastPage` holds after a sequence exactly when it held before or some callback delivered a failure or a page of fewer than 20 items (both directions) |
| `CharacterList.ScrollingStopsAtLastPage` | app/src/main/kotlin/com/platzi/android/rickandmorty/presentation/CharacterListViewModel.kt:50-58 | once the last page is reached, any number of scroll events leaves the whole view model unchanged |
| `CharacterList.RunPreservesValid` | app/src/main/kotlin/com/platzi/android/rickandmorty/presentation/CharacterListViewModel.kt:84-106 | every runnable sequence keeps the log consistent with the requests: one `ShowLoading` per request; in every prefix of the log at least as many `ShowLoading` as outcomes; every outcome directly after a `HideLoading`; outcomes plus subscriptions in flight equal the requests; the first requested page is 1 or 2, each later one repeats its predecessor or is its wrapped successor, and the latest is the page counter |
| `CharacterList.LoadingPrecedesOutcomes` | app/src/main/kotlin/com/platzi/android/rickandmorty/presentation/CharacterListViewModel.kt:84-106 | from construction, after any runnable sequence, every prefix of the log holds at least as many `ShowLoading` events as outcomes, and the outcomes published plus the subscriptions in flight are exactly the requests made |
| `CharacterList.RunPublishesExactlyResults` | app/src/main/kotlin/com/platzi/android/rickandmorty/presentation/CharacterListViewModel.kt:91-106 | the outcome events added by a sequence are exactly the callbacks' results, in order: each received list verbatim as `ShowCharacterList` and each failure as `ShowCharacterError` |
| `CharacterDetail.ValidateFavoriteCharacterStatus` | app/src/main/kotlin/com/platzi/android/rickandmorty/presentation/CharacterDetailViewModel.kt:77-85 | issues one favourite-status lookup for the given id, leaving one more lookup in flight, and changes nothing else |
| `CharacterDetail.RequestShowEpisodeList` | app/src/main/kotlin/com/platzi/android/rickandmorty/presentation/CharacterDetailViewModel.kt:87-92 | issues one episode request for the given URL list, leaving one more in flight, and publishes `ShowEpisodeListLoading` as the only new event; nothing else changes |
| `CharacterDetail.CharacterValidation` | app/src/main/kotlin/com/platzi/android/rickandmorty/presentation/CharacterDetailViewModel.kt:51-60 | with no character: one `CloseActivity` and nothing else (no character value, no lookup, no episode request); with a character: publishes it, looks up its `id`, requests its `episodeList`, and publishes `ShowEpisodeListLoading` |
| `CharacterDetail.UpdateFavoriteCharacterStatus` | app/src/main/kotlin/com/platzi/android/rickandmorty/presentation/CharacterDetailViewModel.kt:62-71 | needs a character (the code crashes on `!!` otherwise); issues one status update for that character, leaving one more update in flight; `isFavorite` is untouched until the answer arrives |
| `CharacterDetail.OnFavoriteStatusLoaded` | app/src/main/kotlin/com/platzi/android/rickandmorty/presentation/CharacterDetailViewModel.kt:81-83 | answers one lookup in flight; its answer becomes `isFavorite` verbatim; no other field changes |
| `CharacterDetail.OnFavoriteStatusUpdated` | app/src/main/kotlin/com/platzi/android/rickandmorty/presentation/CharacterDetailViewModel.kt:67-69 | answers one status update in flight; its answer becomes `isFavorite` verbatim; no other field changes |
| `CharacterDetail.OnEpisodesLoaded` | app/src/main/kotlin/com/platzi/android/rickandmorty/presentation/CharacterDetailViewModel.kt:94-98 | answers one episode request in flight; appends `HideEpisodeListLoading` and then `ShowEpisodeList` with exactly the received list; no other field changes |
| `CharacterDetail.OnEpisodesError` | app/src/main/kotlin/com/platzi/android/rickandmorty/presentation/CharacterDetailViewModel.kt:99-102 | answers one episode request in flight; appends `HideEpisodeListLoading` and then `ShowEpisodeError` with the failure, so no list is published; no other field changes |
| `CharacterDetail.Step` | app/src/main/kotlin/com/platzi/android/rickandmorty/presentation/CharacterDetailViewModel.kt:51-104 | no call or callback replaces the constructor's character; the event log is only extended |
| `CharacterDetail.MissingCharacterCloses` | app/src/main/kotlin/com/platzi/android/rickandmorty/presentation/CharacterDetailViewModel.kt:51-55 | a screen built without a character has exactly `[CloseActivity]` as its events after validation, with no character value, favourite flag, lookup or episode request |
| `CharacterDetail.MissingCharacterNeverRequests` | app/src/main/kotlin/com/platzi/android/rickandmorty/presentation/CharacterDetailViewModel.kt:51-59 | without a character and with nothing in flight, the only possible input is validation, and each one appends `CloseActivity` and changes nothing else: no character value, no favourite flag, no request of any kind and no episode outcome |
| `CharacterDetail.FavoriteIsLatestAnswer` | app/src/main/kotlin/com/platzi/android/rickandmorty/presentation/CharacterDetailViewModel.kt:62-85 | after any sequence, `isFavorite` is the answer of the most recent favourite callback of either kind, or its earlier value when no answer came |
| `CharacterDetail.RunPreservesValid` | app/src/main/kotlin/com/platzi/android/rickandmorty/presentation/CharacterDetailViewModel.kt:51-104 | every runnable sequence keeps everything about the screen's own character: the published value, each lookup's id, each episode request's URL list and each status update; lookups and episode requests come in pairs; one `ShowEpisodeListLoading` per episode request; in every prefix of the log at least as many `ShowEpisodeListLoading` as outcomes; every outcome directly after a `HideEpisodeListLoading`; outcomes plus episode requests in flight equal the episode requests; no kind has more subscriptions in flight than requests |
| `CharacterDetail.LoadingPrecedesOutcomes` | app/src/main/kotlin/com/platzi/android/rickandmorty/presentation/CharacterDetailViewModel.kt:87-104 | from construction, after any runnable sequence, every prefix of the log holds at least as many `ShowEpisodeListLoading` events as episode outcomes, and the outcomes plus the episode requests in flight are exactly the episode requests made |
| `CharacterDetail.RunPublishesExactlyResults` | app/src/main/kotlin/com/platzi/android/rickandmorty/presentation/CharacterDetailViewModel.kt:87-104 | the episode outcome events added by a sequence are exactly the callbacks' results, in order: each list verbatim and each failure as `ShowEpisodeError` |
| `FavoriteList.Classify` | app/src/main/kotlin/com/platzi/android/rickandmorty/presentation/FavoriteListViewModel.kt:32-39 | `ShowEmptyListMessage` exactly for an empty list; `ShowCharacterList` never carries an empty list; the list the event displays is the received list (round trip) |
| `FavoriteList.ClassifyInjective` | app/src/main/kotlin/com/platzi/android/rickandmorty/presentation/FavoriteListViewModel.kt:27-39 | two lists produce the same event exactly when they are equal |
| `FavoriteList.OnFavoriteCharacterList` | app/src/main/kotlin/com/platzi/android/rickandmorty/presentation/FavoriteListViewModel.kt:32-39 | appends exactly one event, keeps the earlier events, and that event is `ShowEmptyListMessage` for an empty list and `ShowCharacterList` with the same list otherwise |
| `FavoriteList.RunPublishesOnePerList` | app/src/main/kotlin/com/platzi/android/rickandmorty/presentation/FavoriteListViewModel.kt:32-39 | a sequence of n lists adds exactly n events, in order, the i-th displaying exactly the i-th list, and earlier events stay as they were |
| `FavoriteList.LastListShown` | app/src/main/kotlin/com/platzi/android/rickandmorty/presentation/FavoriteListViewModel.kt:17-39 | the `events` LiveData's current value displays the last list received |

## Left out

- The one-shot `Event` wrapper (`getContentIfNotHandled`): its class is not part of this model. Each event is its navigation value.
- Rx scheduling, `CompositeDisposable` and `onCleared`: this is lifecycle and threading. Callbacks are sequential transitions in any order the `Input` sequence chooses.
- The use cases, the HTTP client, the favourite store and `toCharacterEntity`: their results are inputs to the callbacks. A status update records the `CharacterServer` it was made from rather than the converted `CharacterEntity`.
- Whether a toggle flips the stored flag, and the order in which episodes are fetched: these belong to the use cases, which are not part of this model.
- `favoriteCharacterList` in `FavoriteListViewModel`: a pass-through of the favourite store's stream, not state of the view model. It is not modelled, and `onFavoriteCharacterList` cannot touch it.
- The commented-out block in `FavoriteListViewModel.kt`: dead code.
- `CharacterDetailActivity`: Android UI (binding, images, toasts, progress bar, menu, `finish()`).
- Payload fields other than a character's `id` and `episodeList`: the view models pass them through unread. Episodes and favourite rows keep only an id, and a `Throwable` only its object identity, which is what the `data class` equality of the navigation events compares.
- CharacterDetail.OnFavoriteStatusLoaded: the lookup subscribes with a success consumer only, so a failure of the lookup use case reaches the Rx global error handler as `OnErrorNotImplementedException` and crashes the app. That error path is not modelled; no input delivers such a failure.
- CharacterDetail.OnFavoriteStatusUpdated: the same holds for the status update; a failure of the update use case crashes the app, and no input models it.
- Each subscription delivers at most one callback. A subscription that ends without delivering one stays in flight for ever in the model.
- CharacterDetail.UpdateFavoriteCharacterStatus: the crash on a missing character is a precondition, not a modelled failure.
