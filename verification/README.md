# Movie search: a Dafny model of its view logic

The application is a browser movie search over the OMDb movie database. It has
three pieces of logic apart from markup and network glue:

- the **search page** (`Home`): a query, a sort mode, a result list and a
  loading/error status. Submitting a search sends one title search and sorts
  the answer on the client with `sortResults`. Changing the sort mode re-sorts
  the results already on the page.
- the **details page** (`MovieDetails`): looks up one title by its IMDb
  identifier. It then searches for the first word of that title and
  recommends up to five of the hits, never the title itself. It renders a
  loading notice, an error, nothing, or the movie card, in that order of
  precedence.
- the **fallback image** (`ImageWithFallback`): shows its source until that
  source fails to load, then shows a fixed placeholder for the rest of its
  life.

The model is functional. Each piece of page state is an immutable record, and
each user action or request completion is a pure transition. The answer of
each network request is an input of its transition (`Api.SearchOutcome`,
`Api.LookupOutcome`). The requests a transition sends are part of its result,
so "no request" can be stated and proved.

`sortResults` is modelled as a stable insertion sort. ECMAScript requires
`Array.prototype.sort` to be stable (section 23.1.3.30 of ECMA-262, 2023
edition), so a stable sort is faithful. `localeCompare` and `parseInt` are
abstract functions, the fields of `ResultSort.Keys`, and only their signs
matter. `localeCompare` is assumed to be a total preorder (`LocaleOrder`). A
year that `parseInt` reads as NaN makes the comparator return +0, as in
ECMAScript's SortCompare step. The sort stays a permutation on such input, but
the year-ordering lemmas only cover lists whose years all parse.

The source sorts a spread copy (`[...movies]`). In the model, lists are values,
so `SortResults` cannot change its argument.

Modules: `Api` (response shapes and request outcomes), `ResultSort`
(`sortResults`), `SearchView`, `DetailsView` and `FallbackImage`.

## Model

| member | source | states |
|---|---|---|
| `ResultSort.KeyOf` | src/App.jsx:57-67 | exactly "az", "za", "newest" and "oldest" select an ordering; every other mode string, "relevance" included, selects none |
| `ResultSort.Sort` | src/App.jsx:56-65 | the sorted list is a permutation of the input: same elements with the same multiplicities |
| `ResultSort.SortResults` | src/App.jsx:55-69 | `sortResults` returns a permutation of its input of the same length, and the input order unchanged for any mode it does not know |
| `ResultSort.InsertSorted` | src/App.jsx:58-65 | inserting into a list ordered by the mode's comparator keeps it ordered, when the comparator is a consistent preorder on the elements |
| `ResultSort.SortSorted` | src/App.jsx:58-65 | the sort output is ordered pairwise by the mode's comparator whenever that comparator is consistent on the list |
| `ResultSort.SortStable` | src/App.jsx:58-65 | elements that rank level with each other keep their relative input order (a stable sort) |
| `ResultSort.YearDiff` | src/App.jsx:63-65 | `parseInt(a.Year) - parseInt(b.Year)`: the difference of the parsed years when both parse, and 0 (NaN read as +0 by the sort) when either does not |
| `ResultSort.Compare` | src/App.jsx:58-65 | the comparator of each mode: `localeCompare` of the titles as given ("az") or swapped ("za"); for the two year modes, 0 whenever either year does not parse |
| `ResultSort.CompareYears` | src/App.jsx:62-65 | when both years parse, "newest" lets a stay before b exactly when a's year is not older than b's, and "oldest" exactly when it is not newer |
| `ResultSort.CompareReverses` | src/App.jsx:59-65 | the "za" and "newest" comparators are the "az" and "oldest" ones with their arguments swapped |
| `ResultSort.SortIsTheStableSort` | src/App.jsx:56-65 | any ordered permutation of the input that keeps level-ranked elements in input order equals `Sort`'s output, so the model is the one result a stable `Array.prototype.sort` can give with a consistent comparator |
| `ResultSort.SortResultsOrdered` | src/App.jsx:55-69 | "az" output is non-decreasing under `localeCompare`; "za" is non-increasing; "newest" is non-increasing by parsed year; "oldest" is non-decreasing by parsed year; any other mode returns the input order; every mode returns a permutation |
| `SearchView.EditQuery` | src/App.jsx:102 | typing stores the text as the query and changes nothing else |
| `SearchView.BeginSearch` | src/App.jsx:33-35 | once the guard passes: loading on, error cleared, results emptied; query and sort mode kept |
| `Api.OrElse` | src/App.jsx:45 | `data.Error || fallback` (the same rule with "Movie details not found." at src/MovieDetails.jsx:38): the `Error` text when it is truthy (present and non-empty), the fallback otherwise, so never empty when the fallback is not |
| `SearchView.FinishSearch` | src/App.jsx:42-52 | on "True", results are the answer sorted by the mode the search captured and the error stays as it was; on a negative answer or a throw, the error is set and the results stay as they were (emptied at line 35); loading ends in every case |
| `SearchView.PerformSearch` | src/App.jsx:27-53 | an empty query changes no state and sends no request. Any other query, whitespace-only included, sends exactly one search for the untrimmed query and ends with loading off. "True" gives the answer sorted by the current mode, with no error. A negative answer gives empty results and the `Error` text if truthy, else "No movies found.". A throw gives empty results and the connectivity message |
| `SearchView.HandleSortChange` | src/App.jsx:71-77 | the new mode is always stored. Results are re-sorted by it only when non-empty and stay a permutation of the previous results. An empty list stays empty, an unknown mode keeps the current order, and query, loading and error are untouched |
| `SearchView.SortChangeDuringSearch` | src/App.jsx:35-43 | a sort change while the search is pending stores the new mode, but the answer arrives sorted by the mode captured when the search started |
| `SearchView.InitialSettled` | src/App.jsx:17-21 | the initial page is idle, without error, and trivially in sort order |
| `SearchView.ApplyKeepsInvariants` | src/App.jsx:27-77 | each user action, with a search taken as one atomic step, keeps the page idle, never shows an error beside results, keeps error texts non-empty, and keeps results ordered by the selected mode |
| `SearchView.RunKeepsInvariants` | src/App.jsx:27-77 | the same holds after any sequence of typing, searches with any outcomes, and sort changes, when each search completes before the next action |
| `SearchView.RelevanceKeepsCurrentOrder` | src/App.jsx:66-77 | switching to "relevance" after a re-sort keeps the re-sorted order, not the order of the database's answer |
| `SearchView.NewestScenario` | src/App.jsx:62-63 | three results from 1989, 2022 and 2005 under "newest" come out as 2022, 2005, 1989 |
| `SearchView.NotFoundScenario` | src/App.jsx:44-45 | a negative answer carrying "Movie not found!" shows exactly that text |
| `DetailsView.FirstWord` | src/MovieDetails.jsx:30 | the recommendation query is a prefix of the title with no space, ending where the title ends or at a space |
| `DetailsView.FirstWordUnique` | src/MovieDetails.jsx:30 | only one string meets those three conditions, so they fully determine `split(' ')[0]` |
| `DetailsView.FirstWordScenarios` | src/MovieDetails.jsx:30 | "The Shawshank Redemption" gives "The", a title without spaces gives itself, and a title starting with a space gives "" |
| `DetailsView.WithoutSelf` | src/MovieDetails.jsx:35 | the filter keeps exactly the entries whose identifier differs from the page's, each as often as it occurs in the answer, and drops every entry with the page's identifier, in order: an order-preserving subsequence |
| `DetailsView.Recommend` | src/MovieDetails.jsx:35 | at most 5 recommendations, none with the page's identifier. They are an order-preserving subsequence of the search answer: the first min(5, n) of the n filtered entries |
| `DetailsView.BeginLoad` | src/MovieDetails.jsx:19-20 | a load starts with loading on and no error; movie and recommendations are left as they were |
| `DetailsView.LoadRequests` | src/MovieDetails.jsx:23-31 | a load always sends the lookup by `id`; it sends the search for the title's first word as its second request only when the lookup answered "True" |
| `DetailsView.LoadDetailsAsWritten` | src/MovieDetails.jsx:16-49 | the lookup is always sent. The first-word search is sent only after a "True" lookup. A "True" lookup sets the movie; otherwise the movie is untouched and the error is the `Error` text or "Movie details not found.". Recommendations are assigned only on a "True" recommendation answer, else kept from before. A throw in either request gives the generic message. Loading always ends off |
| `DetailsView.LoadDetails` | src/MovieDetails.jsx:16-49 | the corrected load: identical requests and state, except that recommendations are empty unless the recommendation search answered "True" |
| `DetailsView.Render` | src/MovieDetails.jsx:51-61 | loading wins over an error, an error over a missing movie (which renders nothing), and only then is the movie card shown with the recommendations held |
| `DetailsView.MountedShowsLoading` | src/MovieDetails.jsx:8-11 | the page mounts with loading on and no movie, so it shows the loading notice before its first load completes |
| `DetailsView.ErrorHidesMovie` | src/MovieDetails.jsx:37-57 | a failed lookup or a throw shows the error even when a movie is already held |
| `DetailsView.ErrorsAreShown` | src/MovieDetails.jsx:38-56 | every error a load sets is non-empty, so the page renders it |
| `DetailsView.NoSelfRecommendation` | src/MovieDetails.jsx:33-35 | after a corrected load, a shown movie card is the movie just looked up, with at most 5 recommendations and none equal to the page's identifier |
| `DetailsView.StaleSelfRecommendation` | src/MovieDetails.jsx:33-36 | as written, moving to title tt2 when the earlier list recommended tt2, and the new recommendation search answers "False", shows tt2 recommending itself |
| `FallbackImage.Mount` | src/ImageWithFallback.jsx:4 | the displayed source starts as the `src` given at mount |
| `FallbackImage.HandleError` | src/ImageWithFallback.jsx:5-9 | after a load error the displayed source is the fixed placeholder URL, whatever was shown |
| `FallbackImage.HandleErrorIdempotent` | src/ImageWithFallback.jsx:7-9 | further errors leave the state unchanged |
| `FallbackImage.ReplayShows` | src/ImageWithFallback.jsx:4-16 | after any run of load errors and prop changes, the image shows the placeholder if some load failed, else what it showed before; a new `src` prop alone changes nothing |
| `FallbackImage.MountedImageShows` | src/ImageWithFallback.jsx:4-16 | a mounted image only ever shows its mount-time `src` or the placeholder. It shows `src` until the first load error and the placeholder from then on, with no way back |

## Behaviour the code has that a plain description of the app could suggest otherwise

- The search query is not trimmed. Only the exact empty string is rejected, and `" "` is searched as typed.
- A "True" search answer with an empty `Search` list leaves the page with neither results nor an error. So "exactly one of results and error after a search" does not hold. "Never both" does (`SearchView.ApplyKeepsInvariants`).
- Choosing "relevance" after another mode does not bring back the database's order. `sortResults` returns the list it is given, which is the already re-sorted one (`SearchView.RelevanceKeepsCurrentOrder`).
- A sort change while a search is pending is lost for that search. Line 35 has emptied the results, so `handleSortChange` stores the new mode but does not re-sort (lines 73-74). The answer is sorted by the mode the `performSearch` closure captured (line 43), so the page then shows results in the old order under the new mode (`SearchView.SortChangeDuringSearch`).
- A throw in the recommendation request is not contained. It reaches the same `catch` as the lookup (src/MovieDetails.jsx:40-42), sets the generic error, and that error hides the movie that was just loaded (`DetailsView.ErrorHidesMovie`). A negative recommendation answer, by contrast, only leaves the list unassigned.
- On the details page, `movie` and `recommendations` are not cleared when the identifier changes. A failed lookup still holds the previous movie, but the error hides it. Stale recommendations can be shown, as in the finding below.

## Findings

| source | as written | input that shows it | evidently intended | confidence | as-written member | corrected member |
|---|---|---|---|---|---|---|
| src/MovieDetails.jsx:33-36 | `recommendations` is assigned only when the recommendation search answers "True". It is never cleared when the route's `id` changes, so the previous title's list stays on the page | open title A, whose recommendations include B; follow the link to B; B's first-word search answers `{Response: "False"}`. B's page then lists B among its own recommendations, and a list that belongs to A | the recommendation section shows only recommendations for the current title (never the title itself), and is empty when their search fails | medium, not executed | `DetailsView.StaleSelfRecommendation` (about `DetailsView.LoadDetailsAsWritten`) | `DetailsView.LoadDetails`, proved by `DetailsView.NoSelfRecommendation` |

## Left out

- Network I/O is not modelled: `fetch`, `response.json()`, URL building, `encodeURIComponent` and the API key. Each request is represented by its outcome, which is an input of the transition.
- React scheduling is not modelled: `useState` batching, `useEffect` timing and re-renders. Each transition is applied atomically. The intermediate state of a details load is also not modelled: the movie is set, the page still shows loading, and the second request is in flight.
- Overlapping or out-of-order responses are not modelled. This is a concurrency concern, and each search or load is one atomic step.
- Routing, JSX markup and CSS are left out because they are UI framework behaviour. This covers `Routes`, `useParams`, `Link` and `useNavigate`.
- The search page's render (src/App.jsx:111-124) is left out. It is markup: three independent conditional paragraphs and the card grid.
- `alert` and `console.error` are side effects with no state, so they are left out.
- The collation of `localeCompare` is abstract, because it is locale-dependent. It is assumed to be a total preorder.
- The semantics of `parseInt` on year strings are abstract. The outcome NaN is `None`.
- ResultSort.SortResultsOrdered: for "newest" and "oldest", it states an order only when every year parses. With NaN years, the comparator is inconsistent, and ECMAScript leaves the order implementation-defined. The permutation part has no such condition.
- SearchView.RunKeepsInvariants: the sort-order half holds only because each search is one atomic step. With a sort change between sending a search and its answer, the results can disagree with the selected mode (`SearchView.SortChangeDuringSearch`); the invariant does not cover that interleaving.
- SearchView.ApplyKeepsInvariants: the sort-order invariant is stated only for results whose years parse, for the same reason.
- Runtime type errors are not modelled. Examples are a search entry without `Title`, which makes `localeCompare` throw, and a detail record without `Title`, which makes `split` throw. A non-string truthy `Error` field is also out. Titles and error texts are typed strings here.
