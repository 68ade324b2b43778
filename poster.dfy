/**
 * The response-shaping half of `fetch_poster`: given the `poster_path`
 * field of the movie-details response, choose the image URL.
 */
module Poster {
  import opened Wrappers

  /** Base URL of the 500-pixel-wide poster images. */
  const ImagePrefix: string := "https://image.tmdb.org/t/p/w500/"

  /** Host of the placeholder image. */
  const PlaceholderHost: string := "https://via.placeholder.com/"

  /** Image shown when the response carries no usable poster path. */
  const Placeholder: string := PlaceholderHost + "500x750?text=No+Image+Available"

  /**
   * `poster_path` is None when the key is absent or its value is JSON null;
   * Python's truthiness test also rejects the empty string.
   */
  predicate UsablePath(posterPath: Option<string>) {
    posterPath.Some? && posterPath.value != ""
  }

  function PosterUrl(posterPath: Option<string>): (url: string)
  {
    if UsablePath(posterPath) then ImagePrefix + posterPath.value
    else Placeholder
  }

  /** Reads the poster path back out of a URL built by PosterUrl. */
  function PathOfUrl(url: string): (path: Option<string>)
  {
    if |ImagePrefix| <= |url| && url[..|ImagePrefix|] == ImagePrefix then Some(url[|ImagePrefix|..])
    else None
  }

  /**
   * The URL is the placeholder exactly when the path is unusable, and
   * otherwise it carries the path behind the image prefix, so the path can
   * be read back.
   */
  lemma PosterUrlRoundTrip(posterPath: Option<string>)
    ensures PosterUrl(posterPath) == Placeholder <==> !UsablePath(posterPath)
    ensures PathOfUrl(PosterUrl(posterPath)) == if UsablePath(posterPath) then posterPath else None
  {
    assert ImagePrefix[8] == 'i' && Placeholder[8] == 'v';
    if UsablePath(posterPath) {
      var url := ImagePrefix + posterPath.value;
      assert url[..|ImagePrefix|] == ImagePrefix;
      assert url[|ImagePrefix|..] == posterPath.value;
      assert url[8] == ImagePrefix[8];
      assert url != Placeholder;
    } else {
      assert Placeholder[..|ImagePrefix|][8] == Placeholder[8];
    }
  }
}
