/**
 * The Recently Viewed store: a view history, newest first, with at most one
 * entry per movie id and at most `MaxMovies` entries.
 */
module RecentlyViewed {
  import opened MovieTypes
  import opened MovieLists

  /** How many views the history keeps: the `20` of `slice(0, 20)`. */
  const MaxMovies: nat := 20

  /** A viewed movie: the summary plus the time it was last viewed. */
  datatype RecentlyViewedMovie = RecentlyViewedMovie(
    id: int,
    title: string,
    posterPath: Option<string>,
    rating: real,
    releaseDate: string,
    viewedAt: int)

  /** The key `filter` compares: `m.id`. */
  function Id(m: RecentlyViewedMovie): int { m.id }

  /** The view time, the order the history is kept in. */
  function ViewedAt(m: RecentlyViewedMovie): int { m.viewedAt }

  /** The summary an entry was made from: the entry without its timestamp. */
  function Info(m: RecentlyViewedMovie): MovieInfo {
    MovieInfo(m.id, m.title, m.posterPath, m.rating, m.releaseDate)
  }

  /** `{ ...movie, viewedAt: now }`. */
  function Stamp(movie: MovieInfo, now: int): (m: RecentlyViewedMovie)
    ensures Info(m) == movie && m.viewedAt == now
  {
    RecentlyViewedMovie(movie.id, movie.title, movie.posterPath, movie.rating, movie.releaseDate, now)
  }

  /**
   * The history `addMovie` leaves behind: the stamped movie first, then the
   * old history without that id, cut to `MaxMovies` entries in all.
   */
  function Viewed(movies: seq<RecentlyViewedMovie>, movie: MovieInfo, now: int): (r: seq<RecentlyViewedMovie>)
    ensures 1 <= |r| <= MaxMovies
    ensures r[0] == Stamp(movie, now)
    ensures forall i :: 1 <= i < |r| ==> r[i].id != movie.id
    ensures r[1..] == Take(Without(movies, Id, movie.id), MaxMovies - 1)
    ensures DistinctIds(movies, Id) ==> DistinctIds(r, Id)
  {
    var filtered := Without(movies, Id, movie.id);
    var r := Take([Stamp(movie, now)] + filtered, MaxMovies);
    assert r == [Stamp(movie, now)] + Take(filtered, MaxMovies - 1);
    assert forall i :: 1 <= i < |r| ==> r[i] == filtered[i - 1];
    assert DistinctIds(movies, Id) ==> DistinctIds(r, Id) by {
      if DistinctIds(movies, Id) {
        WithoutKeepsDistinct(movies, Id, movie.id);
        PrependDistinct(Stamp(movie, now), filtered, Id);
        PrefixKeepsDistinct(r, [Stamp(movie, now)] + filtered, Id);
      }
    }
    r
  }

  /** Viewing a movie not in a short history adds exactly one entry. */
  lemma ViewedNewGrows(movies: seq<RecentlyViewedMovie>, movie: MovieInfo, now: int)
    requires !HasId(movies, Id, movie.id) && |movies| < MaxMovies
    ensures |Viewed(movies, movie, now)| == |movies| + 1
    ensures Viewed(movies, movie, now)[1..] == movies
  {
  }

  /**
   * Viewing a movie already in the history moves it to the front: the length
   * stays the same and the other entries keep their order.
   */
  lemma ViewedAgainMovesToFront(movies: seq<RecentlyViewedMovie>, movie: MovieInfo, now: int)
    requires DistinctIds(movies, Id) && |movies| <= MaxMovies && HasId(movies, Id, movie.id)
    ensures |Viewed(movies, movie, now)| == |movies|
    ensures Subsequence(Viewed(movies, movie, now)[1..], movies)
  {
    WithoutPresentLength(movies, Id, movie.id);
    WithoutIsSubsequence(movies, Id, movie.id);
  }

  /** When the clock does not run backwards, viewing keeps the history newest first. */
  lemma ViewedKeepsNewestFirst(movies: seq<RecentlyViewedMovie>, movie: MovieInfo, now: int)
    requires Descending(movies, ViewedAt)
    requires forall i :: 0 <= i < |movies| ==> movies[i].viewedAt <= now
    ensures Descending(Viewed(movies, movie, now), ViewedAt)
  {
    var filtered := Without(movies, Id, movie.id);
    WithoutKeepsDescending(movies, Id, movie.id, ViewedAt);
    PrependDescending(Stamp(movie, now), filtered, ViewedAt);
    PrefixKeepsDescending(Viewed(movies, movie, now), [Stamp(movie, now)] + filtered, ViewedAt);
  }

  /** The history after any number of views, each with its own time. */
  function ViewedAll(movies: seq<RecentlyViewedMovie>, views: seq<(MovieInfo, int)>): seq<RecentlyViewedMovie>
    decreases |views|
  {
    if views == [] then movies
    else ViewedAll(Viewed(movies, views[0].0, views[0].1), views[1..])
  }

  /**
   * Any sequence of views keeps each id at most once and never lets the
   * history exceed `MaxMovies` entries.
   */
  lemma {:induction false} ViewedAllValid(movies: seq<RecentlyViewedMovie>, views: seq<(MovieInfo, int)>)
    requires DistinctIds(movies, Id) && |movies| <= MaxMovies
    ensures DistinctIds(ViewedAll(movies, views), Id) && |ViewedAll(movies, views)| <= MaxMovies
    decreases |views|
  {
    if views != [] {
      ViewedAllValid(Viewed(movies, views[0].0, views[0].1), views[1..]);
    }
  }

  /** The store: one list, replaced as a whole by every action. */
  class RecentlyViewedStore {
    var movies: seq<RecentlyViewedMovie>

    /** Every movie id occurs at most once and the history is within its cap. */
    ghost predicate Valid()
      reads this
    {
      DistinctIds(movies, Id) && |movies| <= MaxMovies
    }

    /** A fresh store holds no history. */
    constructor ()
      ensures movies == [] && Valid()
    {
      movies := [];
    }

    /** Records a view of `movie` at time `now`. */
    method AddMovie(movie: MovieInfo, now: int)
      modifies this
      ensures movies == Viewed(old(movies), movie, now)
      ensures old(Valid()) ==> Valid()
    {
      movies := Viewed(movies, movie, now);
    }

    /** Forgets the whole history. */
    method ClearAll()
      modifies this
      ensures movies == [] && Valid()
    {
      movies := [];
    }
  }
}
