/** Value types shared by the two local collection stores. */
module MovieTypes {

  /** A nullable value: `None` plays the part of `null`. */
  datatype Option<T> = None | Some(value: T)

  /**
   * The movie summary a caller hands to either store's `addMovie`: the stored
   * entry without its timestamp (`Omit<WatchLaterMovie, 'addedAt'>`, which has
   * the same shape as `Omit<RecentlyViewedMovie, 'viewedAt'>`).
   */
  datatype MovieInfo = MovieInfo(
    id: int,
    title: string,
    posterPath: Option<string>,
    rating: real,
    releaseDate: string)
}
