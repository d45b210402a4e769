# movie-lab: the local collection stores and the image/label helpers, in Dafny

This project models the logic of movie-lab, a browser movie-discovery app, that is not
presentation or network glue:

- **Watch Later** (`src/store/watch-later.ts`): a bookmark list. `addMovie` does nothing
  when the movie's id is already bookmarked; otherwise it puts the movie, stamped with the
  current time, in front. `removeMovie` filters the id out. `isInWatchLater` asks whether
  some bookmark has the id. `clearAll` empties the list.
- **Recently Viewed** (`src/store/recently-viewed.ts`): a view history. `addMovie` filters
  out any entry with the movie's id, puts the stamped movie in front and keeps the first 20
  entries. `clearAll` empties the list.
- **Image and label helpers** (`src/lib/api/tmdb.ts`): `getPosterUrl`, `getBackdropUrl`
  and `getProfileUrl` give a placeholder for a null or empty path and an image-service URL
  otherwise. `formatRuntime` renders `"<hours>h <minutes>m"`. `getYearFromDate` gives 0
  for an empty or unparseable date.

Layout:

- `movie_types.dfy` (`MovieTypes`): `Option`, standing for `null`, and `MovieInfo`, the
  summary both stores' `addMovie` receive.
- `movie_lists.dfy` (`MovieLists`): the array operations the stores compose. `HasId` is
  `some`, `Without` is `filter` and `Take` is `slice(0, n)`. Each works on a list of any
  entry type and takes the entry's id as a key function. The module also has the list
  properties the stores keep (`DistinctIds`, `Descending` for newest first, `Subsequence`
  for kept relative order) and the lemmas that filtering, prepending and cutting preserve
  them.
- `watch_later.dfy` (`WatchLater`) and `recently_viewed.dfy` (`RecentlyViewed`): each store
  is a class with one `movies: seq<…>` field. The store's state-changing actions are
  methods that replace that field. Each method is specified by a pure function of the old
  list: `Added` for Watch Later and `Viewed` for Recently Viewed, or `MovieLists.Without`
  for removal. The store's properties are proved about those functions. `Date.now()` is the
  method parameter `now`.
- `decimal.dfy` (`Decimal`): how a template string renders an integer, with its inverse.
- `tmdb.dfy` (`Tmdb`): the pure helpers.

What the code does that is easy to miss:

- The runtime label has a space between the parts: `"2h 22m"`.
- An image URL is the base, the size and the path concatenated with no separator added.
  The catalog's paths carry their own leading `/`.
- Neither store enforces newest-first order by itself; it holds only while the clock does
  not run backwards. The lemmas `AddedKeepsNewestFirst` and `ViewedKeepsNewestFirst` state
  it under that condition.
- `formatRuntime` on a negative runtime prints figures that do not add up to it. For
  example, -5 gives `"-1h -5m"`, because `Math.floor` rounds down while `%` keeps the sign
  of the dividend. `Tmdb.RuntimeParts` states this exactly. Catalog runtimes are never
  negative.

## Model

| member | source | states |
|---|---|---|
| `MovieLists.HasId` | src/store/watch-later.ts:28 | `some` on ids: true exactly when some entry of the list has the id |
| `MovieLists.Without` | src/store/watch-later.ts:36-39 | `filter` on ids: the result is no longer than the list, every kept entry comes from the list and has a different id, every entry with a different id is kept, and no entry with the id is left (how many copies: `WithoutKeepsCopies`) |
| `MovieLists.WithoutKeepsCopies` | src/store/watch-later.ts:38 | filtering keeps every copy of each entry whose id differs, duplicates included, and no copy of an entry with the id: the multiset of the result is that of the list with the id's entries taken out |
| `MovieLists.Take` | src/store/recently-viewed.ts:32 | `slice(0, n)`: a prefix of the list, of length n or the whole list when it is shorter |
| `MovieLists.PrependDistinct` | src/store/watch-later.ts:28-34 | putting an entry in front keeps ids distinct exactly when its id is not already in the list |
| `MovieLists.PrependDescending` | src/store/watch-later.ts:33-34 | putting an entry in front keeps the list newest first exactly when its stamp is at least every other stamp |
| `MovieLists.WithoutAbsent` | src/store/watch-later.ts:36-39 | filtering out an id that is not present leaves the list unchanged |
| `MovieLists.WithoutPresentLength` | src/store/recently-viewed.ts:26 | in a list with distinct ids, filtering out a present id removes exactly one entry |
| `MovieLists.WithoutIsSubsequence` | src/store/watch-later.ts:38 | filtering keeps the remaining entries in their original relative order |
| `MovieLists.WithoutKeepsDistinct` | src/store/watch-later.ts:36-39 | filtering keeps ids pairwise distinct |
| `MovieLists.WithoutKeepsDescending` | src/store/recently-viewed.ts:26 | filtering keeps a newest-first list newest first |
| `MovieLists.PrefixKeepsDistinct` | src/store/recently-viewed.ts:32 | cutting the list keeps ids pairwise distinct |
| `MovieLists.PrefixKeepsDescending` | src/store/recently-viewed.ts:32 | cutting the list keeps it newest first |
| `WatchLater.Stamp` | src/store/watch-later.ts:33 | `{ ...movie, addedAt: now }`: the entry carries the time `now`, and dropping the timestamp gives back exactly the movie passed in |
| `WatchLater.Added` | src/store/watch-later.ts:25-35 | bookmarking a present id leaves the list unchanged in content and order; bookmarking an absent id gives the stamped movie followed by the old list; the id is then present; the length grows by at most one; no old entry is lost; distinct ids stay distinct |
| `WatchLater.AddedTwice` | src/store/watch-later.ts:28-30 | bookmarking the same movie a second time, at any time, changes nothing |
| `WatchLater.AddedKeepsNewestFirst` | src/store/watch-later.ts:32-34 | if no bookmark is newer than `now`, bookmarking keeps the list newest first |
| `WatchLater.RemovedKeepsNewestFirst` | src/store/watch-later.ts:36-39 | removing keeps the list newest first |
| `WatchLater.AddedAllDistinct` | src/store/watch-later.ts:25-35 | after any sequence of bookmark actions, each id occurs at most once |
| `WatchLater.WatchLaterStore.constructor` | src/store/watch-later.ts:24 | a new store holds no bookmarks |
| `WatchLater.WatchLaterStore.AddMovie` | src/store/watch-later.ts:25-35 | the list becomes `Added(old list, movie, now)` and distinct ids stay distinct |
| `WatchLater.WatchLaterStore.RemoveMovie` | src/store/watch-later.ts:36-39 | the list becomes the old list without the id: no entry with the id is left, the others keep their relative order, an absent id changes nothing, and distinct ids stay distinct |
| `WatchLater.WatchLaterStore.IsInWatchLater` | src/store/watch-later.ts:40-42 | true exactly when some bookmark has the id, so false right after removing it |
| `WatchLater.WatchLaterStore.ClearAll` | src/store/watch-later.ts:43 | the list becomes empty |
| `RecentlyViewed.Stamp` | src/store/recently-viewed.ts:29 | `{ ...movie, viewedAt: now }`: the entry carries the time `now`, and dropping the timestamp gives back exactly the movie passed in |
| `RecentlyViewed.Viewed` | src/store/recently-viewed.ts:23-35 | at most 20 entries; the first is the movie stamped with `now`; the movie's id occurs nowhere else; the rest is the old list without that id, in order, cut to 19; distinct ids stay distinct |
| `RecentlyViewed.ViewedNewGrows` | src/store/recently-viewed.ts:26-32 | viewing a movie that is not in a history of fewer than 20 entries adds exactly one entry in front of the unchanged old history |
| `RecentlyViewed.ViewedAgainMovesToFront` | src/store/recently-viewed.ts:26-32 | viewing a movie already in a valid history keeps its length and moves the movie to the front; the other entries keep their order |
| `RecentlyViewed.ViewedKeepsNewestFirst` | src/store/recently-viewed.ts:29-32 | if no entry is newer than `now`, viewing keeps the history newest first |
| `RecentlyViewed.ViewedAllValid` | src/store/recently-viewed.ts:23-35 | after any sequence of views, ids are distinct and there are at most 20 entries |
| `RecentlyViewed.RecentlyViewedStore.constructor` | src/store/recently-viewed.ts:22 | a new store holds no history |
| `RecentlyViewed.RecentlyViewedStore.AddMovie` | src/store/recently-viewed.ts:23-35 | the history becomes `Viewed(old history, movie, now)`; distinct ids and the cap of 20 are kept |
| `RecentlyViewed.RecentlyViewedStore.ClearAll` | src/store/recently-viewed.ts:36 | the history becomes empty |
| `Tmdb.IsTruthy` | src/lib/api/tmdb.ts:57 | the negation of `!path` for a nullable string: true exactly when the path is neither null nor the empty string (the same test stands at lines 107 and 118) |
| `Tmdb.ImageUrl` | src/lib/api/tmdb.ts:57-60 | a null or empty path gives the placeholder; otherwise base + size + path, and the image part of that URL is exactly size + path |
| `Tmdb.GetPosterUrl` | src/lib/api/tmdb.ts:53-61 | `/placeholder-movie.svg` for a null or empty path, otherwise `https://image.tmdb.org/t/p/` + size + path with size `w500` by default; only a real path yields an image-service URL |
| `Tmdb.GetBackdropUrl` | src/lib/api/tmdb.ts:103-111 | `/placeholder-backdrop.svg` for a null or empty path, otherwise base + size + path with size `original` by default |
| `Tmdb.GetProfileUrl` | src/lib/api/tmdb.ts:114-122 | `/placeholder-profile.svg` for a null or empty path, otherwise base + size + path with size `w185` by default |
| `Tmdb.PosterUrlExamples` | src/lib/api/tmdb.ts:53-61 | `/abc.jpg` at the default size gives `https://image.tmdb.org/t/p/w500/abc.jpg`; null and empty paths give the placeholder |
| `Tmdb.JsRemainder` | src/lib/api/tmdb.ts:127 | `%` as JavaScript computes it: the dividend minus the divisor times the quotient truncated toward zero, so less than the divisor in magnitude and with the sign of the dividend |
| `Tmdb.RuntimeParts` | src/lib/api/tmdb.ts:126-127 | for a runtime that is not negative, minutes < 60 and hours * 60 + minutes equals the runtime; for a negative one, the exact shortfall |
| `Tmdb.FormatRuntime` | src/lib/api/tmdb.ts:125-129 | for a runtime that is not negative, the label is the decimal hours, `h `, the decimal minutes, `m` |
| `Tmdb.FormatRuntimeExamples` | src/lib/api/tmdb.ts:125-129 | 142 gives `2h 22m` and 45 gives `0h 45m` |
| `Tmdb.FormatRuntimeInjective` | src/lib/api/tmdb.ts:125-129 | two runtimes that are not negative and have the same label are equal, so the label loses nothing |
| `Tmdb.GetYearFromDate` | src/lib/api/tmdb.ts:64-68 | 0 for the empty date and for a date whose year does not parse; the parsed year otherwise |
| `Decimal.NatToString` | src/lib/api/tmdb.ts:128 | the rendering of a number in a template string: nonempty, all decimal digits, and no leading zero (0 renders as `0` alone) |
| `Decimal.IntToString` | src/lib/api/tmdb.ts:128 | `${n}` for an integer: a leading `-` exactly when n is negative, then decimal digits with no leading zero that read back as the magnitude of n |
| `Decimal.NatToStringRoundTrip` | src/lib/api/tmdb.ts:128 | reading the digits back gives the number |
| `Decimal.NatToStringInjective` | src/lib/api/tmdb.ts:128 | different numbers render differently |

## Left out

- The fetchers in `src/lib/api/tmdb.ts` (`getGenres`, `getTopRatedMovies`, `getPopularMovies`, `getMoviesByGenre`, `getMovieDetails`, `getMovieCredits`, `getSimilarMovies`) and `src/lib/api/axios.ts`: network I/O and environment configuration.
- The query hooks `src/hooks/use-movies.ts` and `src/hooks/use-genres.ts`: their caching, de-duplication and staleness behaviour lives inside the query library, which is not part of this model.
- The `persist` middleware with JSON storage in both stores: browser storage and serialisation. The persisted copy is taken to be the in-memory list, so reloading after `clearAll` gives the empty list by construction.
- `Date.now()`: the timestamp is the parameter `now`.
- Tmdb.GetYearFromDate: the date parser `new Date(s).getFullYear()` is the parameter `fullYear`, with `None` for NaN. Its result depends on the local time zone (a date-only string parses as midnight UTC), so the model does not say which year a given date string yields. For example, it does not state that `"1994-09-10"` gives 1994.
- Tmdb.FormatRuntime: the contract covers runtimes that are not negative. For negative runtimes only `RuntimeParts` states the figures. Non-integer runtimes are not modelled: minutes are integers.
- Numbers are unbounded integers (ids, timestamps, minutes) and reals (ratings). JavaScript's double-precision limits are not modelled.
- All React and Next.js UI (`src/components`, `src/app`, `app/not-found.tsx`, `components/ui/theme-toggle.tsx`): rendering, routing and theming. The schema variants the pages use are not modelled. `src/types/index.ts` has declarations only.
