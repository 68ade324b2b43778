/**
 * The movie catalog: one record per row of the movies table, indexed by
 * position 0..N-1 (the table keeps its default range index, so a row's
 * label is its position).
 */
module Catalog {
  import opened Wrappers

  /** One row of the movies table, with the four columns `recommend` reads. */
  datatype Movie = Movie(movieId: int, title: string, overview: string, voteAverage: real)

  /** The title occurs at some position of the catalog. */
  predicate HasTitle(movies: seq<Movie>, title: string) {
    exists k :: 0 <= k < |movies| && movies[k].title == title
  }

  /**
   * Filtering the table to the rows with this title and taking the first
   * label: the lowest position whose title equals `title`, or None when no
   * row matches (where the source raises IndexError).
   */
  function Resolve(movies: seq<Movie>, title: string): (r: Option<nat>)
    ensures r.Some? <==> HasTitle(movies, title)
    ensures r.Some? ==> r.value < |movies| && movies[r.value].title == title
    ensures r.Some? ==> forall k :: 0 <= k < r.value ==> movies[k].title != title
  {
    if movies == [] then None
    else if movies[0].title == title then Some(0)
    else
      match Resolve(movies[1..], title)
      case None =>
        assert forall k :: 1 <= k < |movies| ==> movies[k] == movies[1..][k - 1];
        None
      case Some(p) => Some(p + 1)
  }
}
