/**
 * The Watch Later store: a bookmark list, newest first, with at most one
 * entry per movie id and no cap on its length.
 */
module WatchLater {
  import opened MovieTypes
  import opened MovieLists

  /** A bookmarked movie: the summary plus the time it was bookmarked. */
  datatype WatchLaterMovie = WatchLaterMovie(
    id: int,
    title: string,
    posterPath: Option<string>,
    rating: real,
    releaseDate: string,
    addedAt: int)

  /** The key both `some` and `filter` compare: `m.id`. */
  function Id(m: WatchLaterMovie): int { m.id }

  /** The bookmark time, the order the list is kept in. */
  function AddedAt(m: WatchLaterMovie): int { m.addedAt }

  /** The summary an entry was made from: the entry without its timestamp. */
  function Info(m: WatchLaterMovie): MovieInfo {
    MovieInfo(m.id, m.title, m.posterPath, m.rating, m.releaseDate)
  }

  /** `{ ...movie, addedAt: now }`. */
  function Stamp(movie: MovieInfo, now: int): (m: WatchLaterMovie)
    ensures Info(m) == movie && m.addedAt == now
  {
    WatchLaterMovie(movie.id, movie.title, movie.posterPath, movie.rating, movie.releaseDate, now)
  }

  /**
   * The list `addMovie` leaves behind: the old list when the id is already
   * bookmarked, otherwise the stamped movie in front of the old list.
   */
  function Added(movies: seq<WatchLaterMovie>, movie: MovieInfo, now: int): (r: seq<WatchLaterMovie>)
    ensures HasId(movies, Id, movie.id) ==> r == movies
    ensures !HasId(movies, Id, movie.id) ==> |r| == |movies| + 1 && r[0] == Stamp(movie, now) && r[1..] == movies
    ensures HasId(r, Id, movie.id)
    ensures |movies| <= |r| <= |movies| + 1
    ensures forall i :: 0 <= i < |movies| ==> movies[i] in r
    ensures DistinctIds(movies, Id) ==> DistinctIds(r, Id)
  {
    if HasId(movies, Id, movie.id) then movies
    else
      var r := [Stamp(movie, now)] + movies;
      PrependDistinct(Stamp(movie, now), movies, Id);
      assert Id(r[0]) == movie.id;
      r
  }

  /** Bookmarking a movie twice is the same as bookmarking it once. */
  lemma AddedTwice(movies: seq<WatchLaterMovie>, movie: MovieInfo, now: int, later: int)
    ensures Added(Added(movies, movie, now), movie, later) == Added(movies, movie, now)
  {
  }

  /** When the clock does not run backwards, bookmarking keeps the list newest first. */
  lemma AddedKeepsNewestFirst(movies: seq<WatchLaterMovie>, movie: MovieInfo, now: int)
    requires Descending(movies, AddedAt)
    requires forall i :: 0 <= i < |movies| ==> movies[i].addedAt <= now
    ensures Descending(Added(movies, movie, now), AddedAt)
  {
  }

  /** Removing keeps the list newest first. */
  lemma RemovedKeepsNewestFirst(movies: seq<WatchLaterMovie>, movieId: int)
    requires Descending(movies, AddedAt)
    ensures Descending(Without(movies, Id, movieId), AddedAt)
  {
    WithoutKeepsDescending(movies, Id, movieId, AddedAt);
  }

  /** The list after any number of bookmark actions, each with its own time. */
  function AddedAll(movies: seq<WatchLaterMovie>, adds: seq<(MovieInfo, int)>): seq<WatchLaterMovie>
    decreases |adds|
  {
    if adds == [] then movies
    else AddedAll(Added(movies, adds[0].0, adds[0].1), adds[1..])
  }

  /** Any sequence of bookmark actions on a list with distinct ids leaves each id at most once. */
  lemma {:induction false} AddedAllDistinct(movies: seq<WatchLaterMovie>, adds: seq<(MovieInfo, int)>)
    requires DistinctIds(movies, Id)
    ensures DistinctIds(AddedAll(movies, adds), Id)
    decreases |adds|
  {
    if adds != [] {
      AddedAllDistinct(Added(movies, adds[0].0, adds[0].1), adds[1..]);
    }
  }

  /** The store: one list, replaced as a whole by every action. */
  class WatchLaterStore {
    var movies: seq<WatchLaterMovie>

    /** Every movie id is bookmarked at most once. */
    ghost predicate Valid()
      reads this
    {
      DistinctIds(movies, Id)
    }

    /** A fresh store holds no bookmarks. */
    constructor ()
      ensures movies == [] && Valid()
    {
      movies := [];
    }

    /** Bookmarks `movie` at time `now` unless its id is already bookmarked. */
    method AddMovie(movie: MovieInfo, now: int)
      modifies this
      ensures movies == Added(old(movies), movie, now)
      ensures old(Valid()) ==> Valid()
    {
      movies := Added(movies, movie, now);
    }

    /** Drops every bookmark with the given id; the others keep their order. */
    method RemoveMovie(movieId: int)
      modifies this
      ensures movies == Without(old(movies), Id, movieId)
      ensures Subsequence(movies, old(movies))
      ensures !HasId(movies, Id, movieId)
      ensures !HasId(old(movies), Id, movieId) ==> movies == old(movies)
      ensures old(Valid()) ==> Valid()
    {
      WithoutIsSubsequence(movies, Id, movieId);
      if !HasId(movies, Id, movieId) {
        WithoutAbsent(movies, Id, movieId);
      }
      if Valid() {
        WithoutKeepsDistinct(movies, Id, movieId);
      }
      movies := Without(movies, Id, movieId);
    }

    /** Whether some bookmark carries the id. */
    method IsInWatchLater(movieId: int) returns (b: bool)
      ensures b <==> exists i :: 0 <= i < |movies| && movies[i].id == movieId
    {
      b := HasId(movies, Id, movieId);
    }

    /** Drops every bookmark. */
    method ClearAll()
      modifies this
      ensures movies == [] && Valid()
    {
      movies := [];
    }
  }
}
