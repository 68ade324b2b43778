/**
 * `recommend`: resolve the selected title to a catalog position, rank that
 * position's similarity row, keep sorted places 1 to 5, and build the four
 * parallel lists (titles, poster URLs, overviews, ratings) from the catalog.
 */
module Recommender {
  import opened Wrappers
  import opened Catalog
  import opened Ranking
  import opened Poster

  /** The failures of `recommend`; in Python both are an IndexError. */
  datatype Error =
    | TitleNotFound       // no catalog row carries the selected title
    | PositionOutOfRange  // a matrix row or catalog row read past the end

  /** The four parallel lists `recommend` returns. */
  datatype Recommendations = Recommendations(
    titles: seq<string>,
    posters: seq<string>,
    overviews: seq<string>,
    ratings: seq<real>)

  /** Every entry names a position of the catalog. */
  predicate InCatalog(picks: seq<Scored>, movies: seq<Movie>) {
    forall k :: 0 <= k < |picks| ==> picks[k].index < |movies|
  }

  /**
   * The ranked entries `recommend` reports on for `movie`, or the error it
   * raises before returning.
   */
  function Selection(movie: string, movies: seq<Movie>, similarity: seq<seq<real>>): Result<seq<Scored>, Error>
  {
    match Resolve(movies, movie)
    case None => Failure(TitleNotFound)
    case Some(p) =>
      if p >= |similarity| then Failure(PositionOutOfRange)
      else if InCatalog(TopFive(similarity[p]), movies) then Success(TopFive(similarity[p]))
      else Failure(PositionOutOfRange)
  }

  /**
   * The four lists have one entry per pick, and entry j of each is read from
   * the catalog row of pick j; the poster URL is chosen from the poster path
   * the details service reports for that row's movie id.
   */
  predicate Assembled(rec: Recommendations, picks: seq<Scored>, movies: seq<Movie>, posterPathOf: int -> Option<string>) {
    && |rec.titles| == |picks|
    && |rec.posters| == |picks|
    && |rec.overviews| == |picks|
    && |rec.ratings| == |picks|
    && forall j :: 0 <= j < |picks| ==>
      && picks[j].index < |movies|
      && rec.titles[j] == movies[picks[j].index].title
      && rec.posters[j] == PosterUrl(posterPathOf(movies[picks[j].index].movieId))
      && rec.overviews[j] == movies[picks[j].index].overview
      && rec.ratings[j] == movies[picks[j].index].voteAverage
  }

  /**
   * `recommend(movie, movies, similarity)`. The network lookup inside
   * `fetch_poster` is the parameter `posterPathOf`: the `poster_path` the
   * movie-details service reports for a movie id.
   */
  method Recommend(movie: string, movies: seq<Movie>, similarity: seq<seq<real>>, posterPathOf: int -> Option<string>)
    returns (r: Result<Recommendations, Error>)
    ensures r.Failure? <==> Selection(movie, movies, similarity).Failure?
    ensures r.Failure? ==> r.error == Selection(movie, movies, similarity).error
    ensures r.Success? ==> Assembled(r.value, Selection(movie, movies, similarity).value, movies, posterPathOf)
  {
    var found := Resolve(movies, movie);
    if found.None? {
      return Failure(TitleNotFound);
    }
    var movieIndex := found.value;
    if movieIndex >= |similarity| {
      return Failure(PositionOutOfRange);
    }
    var distances := similarity[movieIndex];
    var moviesList := TopFive(distances);

    var recommendations: seq<string> := [];
    var posters: seq<string> := [];
    var overviews: seq<string> := [];
    var ratings: seq<real> := [];
    for j := 0 to |moviesList|
      invariant Assembled(Recommendations(recommendations, posters, overviews, ratings), moviesList[..j], movies, posterPathOf)
    {
      var i := moviesList[j].index;
      if i >= |movies| {
        return Failure(PositionOutOfRange);
      }
      var m := movies[i];
      recommendations := recommendations + [m.title];
      posters := posters + [PosterUrl(posterPathOf(m.movieId))];
      overviews := overviews + [m.overview];
      ratings := ratings + [m.voteAverage];
    }
    assert moviesList[..|moviesList|] == moviesList;
    return Success(Recommendations(recommendations, posters, overviews, ratings));
  }

  /**
   * When the similarity matrix has one row per catalog entry and every row
   * has one score per catalog entry, an unknown title is the only failure.
   */
  lemma WellShapedDataOnlyFailsOnUnknownTitle(movie: string, movies: seq<Movie>, similarity: seq<seq<real>>)
    requires |similarity| == |movies|
    requires forall p :: 0 <= p < |similarity| ==> |similarity[p]| == |movies|
    ensures Selection(movie, movies, similarity).Failure? <==> !HasTitle(movies, movie)
    ensures Selection(movie, movies, similarity).Failure? ==> Selection(movie, movies, similarity).error == TitleNotFound
  {
    var found := Resolve(movies, movie);
    if found.Some? {
      TopFiveEntries(similarity[found.value]);
    }
  }

  /**
   * A successful selection holds min(5, N-1) distinct positions of the
   * selected title's row, each with its own score, none of them the lowest
   * position attaining the row's maximum (the dropped head), and
   * leaves out the selected position whenever its self-similarity is
   * strictly above every other score of its row.
   */
  lemma SelectionShape(movie: string, movies: seq<Movie>, similarity: seq<seq<real>>)
    requires Selection(movie, movies, similarity).Success?
    ensures var p := Resolve(movies, movie).value;
      var picks := Selection(movie, movies, similarity).value;
      && p < |similarity|
      && movies[p].title == movie
      && |picks| == Min(5, Max(0, |similarity[p]| - 1))
      && (forall k, l :: 0 <= k < l < |picks| ==> picks[k].index != picks[l].index)
      && (forall k :: 0 <= k < |picks| ==>
            picks[k].index < |similarity[p]| && picks[k].score == similarity[p][picks[k].index])
      && (forall k :: 0 <= k < |picks| ==> !IsLowestArgMax(similarity[p], picks[k].index))
      && (p < |similarity[p]| &&
          (forall j :: 0 <= j < |similarity[p]| && j != p ==> similarity[p][j] < similarity[p][p]) ==>
            p !in Positions(picks))
  {
    var p := Resolve(movies, movie).value;
    var row := similarity[p];
    var picks := TopFive(row);
    TopFiveEntries(row);
    forall k | 0 <= k < |picks|
      ensures !IsLowestArgMax(row, picks[k].index)
    {
      HeadIsLowestArgMax(row, picks[k].index);
    }
    if p < |row| && forall j :: 0 <= j < |row| && j != p ==> row[j] < row[p] {
      SelectedExcludedWhenStrictMax(row, p);
    }
  }
}
