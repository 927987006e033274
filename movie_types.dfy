/** Values shared by the movie service and its HTTP controller. */
module MovieTypes {

  datatype Option<+T> = None | Some(value: T)

  datatype Result<+T, +E> = Ok(value: T) | Err(error: E)

  /** The failure kinds the service and the controller raise, one per HTTP status they map to:
      Validation and Conflict are 400, NotFound 404, UpstreamTimeout 504, UpstreamFailure 502,
      Persistence and Internal 500. */
  datatype Failure =
    | Validation
    | Conflict
    | NotFound
    | UpstreamTimeout
    | UpstreamFailure
    | Persistence
    | Internal

  /** A JSON value as `JSON.parse` yields it. Numbers are restricted to integers. */
  datatype Json =
    | JNull
    | JBool(b: bool)
    | JNumber(n: int)
    | JString(s: string)
    | JArray(items: seq<Json>)
    | JObject(fields: map<string, Json>)

  /** A movie as the favorites endpoint receives it (MovieDto): `poster` is optional. */
  datatype Movie = Movie(title: string, imdbID: string, year: int, poster: Option<string>)

  /** The object `JSON.stringify` writes for a movie: a poster that is `undefined` is dropped,
      so the key is absent rather than null. */
  function MovieToJson(m: Movie): (j: Json)
    ensures j.JObject?
    ensures j.fields.Keys == if m.poster.Some? then {"title", "imdbID", "year", "poster"} else {"title", "imdbID", "year"}
    ensures j.fields["title"] == JString(m.title)
    ensures j.fields["imdbID"] == JString(m.imdbID)
    ensures j.fields["year"] == JNumber(m.year)
    ensures m.poster.Some? ==> j.fields["poster"] == JString(m.poster.value)
  {
    var base := map["title" := JString(m.title), "imdbID" := JString(m.imdbID), "year" := JNumber(m.year)];
    match m.poster
    case None => JObject(base)
    case Some(p) => JObject(base["poster" := JString(p)])
  }
}
