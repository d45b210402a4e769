/**
 * The pure helpers of the movie metadata client: image URLs with their
 * placeholders, the runtime label and the release year.
 */
module Tmdb {
  import opened MovieTypes
  import opened Decimal

  /** Every image URL starts with this; the size follows with no separator. */
  const ImageBaseUrl := "https://image.tmdb.org/t/p/"

  const PosterPlaceholder := "/placeholder-movie.svg"
  const BackdropPlaceholder := "/placeholder-backdrop.svg"
  const ProfilePlaceholder := "/placeholder-profile.svg"

  /** JavaScript truthiness of a `string | null`: neither null nor empty. */
  predicate IsTruthy(path: Option<string>)
    ensures IsTruthy(path) <==> path != None && path != Some("")
  {
    path.Some? && path.value != ""
  }

  /**
   * What an image URL asks the image service for (size followed by path), or
   * `None` for a URL that does not point at the image service.
   */
  function ImagePart(url: string): Option<string> {
    if ImageBaseUrl <= url then Some(url[|ImageBaseUrl|..]) else None
  }

  /** The shape shared by the three image helpers. */
  function ImageUrl(path: Option<string>, size: string, placeholder: string): (url: string)
    requires |placeholder| > 0 && placeholder[0] == '/'
    ensures !IsTruthy(path) ==> url == placeholder
    ensures IsTruthy(path) ==> url == ImageBaseUrl + size + path.value
    ensures ImagePart(url) == if IsTruthy(path) then Some(size + path.value) else None
  {
    if !IsTruthy(path) then
      assert ImageBaseUrl[0] != placeholder[0];
      placeholder
    else
      var url := ImageBaseUrl + size + path.value;
      assert url[|ImageBaseUrl|..] == size + path.value;
      url
  }

  /** `getPosterUrl`: size `w500` unless given. */
  function GetPosterUrl(posterPath: Option<string>, size: string := "w500"): (url: string)
    ensures !IsTruthy(posterPath) ==> url == PosterPlaceholder
    ensures IsTruthy(posterPath) ==> url == ImageBaseUrl + size + posterPath.value
    ensures ImagePart(url) == if IsTruthy(posterPath) then Some(size + posterPath.value) else None
  {
    ImageUrl(posterPath, size, PosterPlaceholder)
  }

  /** `getBackdropUrl`: size `original` unless given. */
  function GetBackdropUrl(backdropPath: Option<string>, size: string := "original"): (url: string)
    ensures !IsTruthy(backdropPath) ==> url == BackdropPlaceholder
    ensures IsTruthy(backdropPath) ==> url == ImageBaseUrl + size + backdropPath.value
    ensures ImagePart(url) == if IsTruthy(backdropPath) then Some(size + backdropPath.value) else None
  {
    ImageUrl(backdropPath, size, BackdropPlaceholder)
  }

  /** `getProfileUrl`: size `w185` unless given. */
  function GetProfileUrl(profilePath: Option<string>, size: string := "w185"): (url: string)
    ensures !IsTruthy(profilePath) ==> url == ProfilePlaceholder
    ensures IsTruthy(profilePath) ==> url == ImageBaseUrl + size + profilePath.value
    ensures ImagePart(url) == if IsTruthy(profilePath) then Some(size + profilePath.value) else None
  {
    ImageUrl(profilePath, size, ProfilePlaceholder)
  }

  /** A poster path from the catalog, at the default size, and a missing one. */
  lemma PosterUrlExamples()
    ensures GetPosterUrl(Some("/abc.jpg")) == "https://image.tmdb.org/t/p/w500/abc.jpg"
    ensures GetPosterUrl(None) == "/placeholder-movie.svg"
    ensures GetPosterUrl(Some("")) == "/placeholder-movie.svg"
  {
  }

  /** JavaScript's `%`: the remainder takes the sign of the dividend. */
  function JsRemainder(a: int, b: int): (r: int)
    requires b > 0
    ensures -b < r < b
    ensures a >= 0 ==> r >= 0
    ensures a <= 0 ==> r <= 0
    ensures a == (if a >= 0 then a / b else -((-a) / b)) * b + r
  {
    if a >= 0 then a % b else -((-a) % b)
  }

  /**
   * The two figures `formatRuntime` prints: `Math.floor(minutes / 60)` (Dafny's
   * `/` rounds down for a positive divisor) and `minutes % 60`.
   */
  function RuntimeParts(minutes: int): (parts: (int, int))
    ensures minutes >= 0 ==> 0 <= parts.1 < 60 && parts.0 * 60 + parts.1 == minutes
    ensures minutes < 0 ==> parts.0 < 0 && -60 < parts.1 <= 0
    ensures minutes < 0 ==> parts.0 * 60 + parts.1 == if parts.1 == 0 then minutes else minutes - 60
  {
    (minutes / 60, JsRemainder(minutes, 60))
  }

  /** `formatRuntime`: `"<hours>h <minutes>m"`. */
  function FormatRuntime(minutes: int): (text: string)
    ensures minutes >= 0 ==>
      text == NatToString(RuntimeParts(minutes).0) + "h " + NatToString(RuntimeParts(minutes).1) + "m"
  {
    var parts := RuntimeParts(minutes);
    IntToString(parts.0) + "h " + IntToString(parts.1) + "m"
  }

  /** Two sample runtimes, one over an hour and one under. */
  lemma FormatRuntimeExamples()
    ensures FormatRuntime(142) == "2h 22m"
    ensures FormatRuntime(45) == "0h 45m"
  {
  }

  /** Splitting at a character neither left-hand part contains is unique. */
  lemma SplitAt(a: string, x: string, b: string, y: string, c: char)
    requires forall i :: 0 <= i < |a| ==> a[i] != c
    requires forall i :: 0 <= i < |b| ==> b[i] != c
    requires a + [c] + x == b + [c] + y
    ensures a == b && x == y
  {
    var s := a + [c] + x;
    assert s[|a|] == c && s[|b|] == c;
    assert |a| == |b|;
    assert a == s[..|a|] == b;
    assert x == s[|a| + 1..] == y;
  }

  /** For a runtime that is not negative, the label determines the runtime. */
  lemma FormatRuntimeInjective(a: nat, b: nat)
    requires FormatRuntime(a) == FormatRuntime(b)
    ensures a == b
  {
    var (ha, ma) := RuntimeParts(a);
    var (hb, mb) := RuntimeParts(b);
    var xa := " " + NatToString(ma) + "m";
    var xb := " " + NatToString(mb) + "m";
    assert FormatRuntime(a) == NatToString(ha) + ['h'] + xa;
    assert FormatRuntime(b) == NatToString(hb) + ['h'] + xb;
    SplitAt(NatToString(ha), xa, NatToString(hb), xb, 'h');
    assert NatToString(ma) == xa[1..|xa| - 1];
    assert NatToString(mb) == xb[1..|xb| - 1];
    NatToStringInjective(ha, hb);
    NatToStringInjective(ma, mb);
  }

  /**
   * `getYearFromDate`: 0 for an empty date or one whose year does not parse
   * (`fullYear` stands for `new Date(s).getFullYear()`, `None` for NaN),
   * the parsed year otherwise.
   */
  function GetYearFromDate(dateString: string, fullYear: string -> Option<int>): (year: int)
    ensures dateString == "" ==> year == 0
    ensures fullYear(dateString).None? ==> year == 0
    ensures dateString != "" && fullYear(dateString).Some? ==> year == fullYear(dateString).value
  {
    if dateString == "" then 0
    else
      match fullYear(dateString)
      case None => 0
      case Some(y) => y
  }
}
