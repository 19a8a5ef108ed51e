/** Shapes of the movie-database responses that the views consume, and the
    abstract outcome of each network request. The requests themselves (URL
    building, `fetch`, `response.json()`) are not modelled: a view transition
    receives the outcome of each request as an input. */
module Api {

  datatype Option<+T> = None | Some(value: T)

  /** One entry of the `Search` array of a title search. */
  datatype Summary = Summary(title: string, year: string, imdbID: string, poster: string)

  /** The full record returned by a lookup by identifier; the descriptive
      fields (Rated, Runtime, Genre, Plot, ...) are kept by name in `info`. */
  datatype Detail = Detail(title: string, year: string, imdbID: string, poster: string,
                           info: map<string, string>)

  /** What a search request yielded once its body was parsed. */
  datatype SearchOutcome =
    | Ok(search: seq<Summary>)         // `Response === "True"`
    | ApiFalse(error: Option<string>)  // any other `Response`, with the `Error` field if present
    | Thrown                           // `fetch` or the JSON parse threw

  /** What a lookup by identifier yielded once its body was parsed. */
  datatype LookupOutcome =
    | Found(detail: Detail)               // `Response === "True"`
    | LookupFalse(error: Option<string>)  // any other `Response`
    | LookupThrown                        // `fetch` or the JSON parse threw

  /** A request sent to the movie database: by title (`s=`) or by identifier (`i=`). */
  datatype Request = SearchRequest(query: string) | LookupRequest(id: string)

  /** JavaScript truthiness of an optional string: `null`, `undefined` and `""` are falsy. */
  predicate Truthy(s: Option<string>) {
    s.Some? && s.value != ""
  }

  /** The value of `message || fallback`. */
  function OrElse(message: Option<string>, fallback: string): (r: string)
    ensures Truthy(message) ==> r == message.value
    ensures !Truthy(message) ==> r == fallback
    ensures fallback != "" ==> r != ""
  {
    if Truthy(message) then message.value else fallback
  }
}
