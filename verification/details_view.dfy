/** The details page (src/MovieDetails.jsx): the lookup by identifier, the
    recommendation search keyed on the first word of the title, the state the
    two answers leave, and which of its four faces the page renders. */
module DetailsView {
  import opened Api

  /** The four state variables of the details page. */
  datatype DetailsState = DetailsState(
    movie: Option<Detail>,
    recommendations: seq<Summary>,
    loading: bool,
    error: Option<string>)

  /** A load's new state and the requests it sent, in order. */
  datatype Step = Step(state: DetailsState, requests: seq<Request>)

  const NotFound := "Movie details not found."
  const GenericError := "Something went wrong. Please try again later."
  const MaxRecommendations := 5

  /** The state the page mounts with, before its first load. */
  const Mounted := DetailsState(None, [], true, None)

  /** `title.split(' ')[0]`: the title up to its first space character. */
  function FirstWord(title: string): (r: string)
    ensures r <= title
    ensures ' ' !in r
    ensures |r| == |title| || title[|r|] == ' '
  {
    if title == [] || title[0] == ' ' then []
    else [title[0]] + FirstWord(title[1..])
  }

  /** The three facts about `FirstWord` pin it down: no other prefix of the
      title is free of spaces and ends at a space or at the end. */
  lemma {:induction false} FirstWordUnique(title: string, w: string)
    requires w <= title && ' ' !in w
    requires |w| == |title| || title[|w|] == ' '
    ensures w == FirstWord(title)
  {
    if w != [] {
      assert w[0] == title[0];
      assert w[1..] <= title[1..];
      assert ' ' !in w[1..] by {
        forall c | c in w[1..] ensures c in w {}
      }
      FirstWordUnique(title[1..], w[1..]);
      assert w == [w[0]] + w[1..];
    }
  }

  lemma FirstWordScenarios()
    ensures FirstWord("The Shawshank Redemption") == "The"
    ensures FirstWord("Alien") == "Alien"
    ensures FirstWord(" Alien") == ""
  {
    FirstWordUnique("The Shawshank Redemption", "The");
    FirstWordUnique("Alien", "Alien");
  }

  /** `a` is `b` with some entries removed, the rest in their order. */
  ghost predicate SubsequenceOf(a: seq<Summary>, b: seq<Summary>)
    decreases |b|
  {
    if a == [] then true
    else if b == [] then false
    else (a[0] == b[0] && SubsequenceOf(a[1..], b[1..])) || SubsequenceOf(a, b[1..])
  }

  lemma {:induction false} PrefixSubsequence(a: seq<Summary>, b: seq<Summary>, n: nat)
    requires SubsequenceOf(a, b) && n <= |a|
    ensures SubsequenceOf(a[..n], b)
    decreases |b|
  {
    if n > 0 {
      if a[0] == b[0] && SubsequenceOf(a[1..], b[1..]) {
        PrefixSubsequence(a[1..], b[1..], n - 1);
        assert a[..n][1..] == a[1..][..n - 1];
      } else {
        PrefixSubsequence(a, b[1..], n);
      }
    }
  }

  /** `list.filter(m => m.imdbID !== id)`. */
  function WithoutSelf(list: seq<Summary>, id: string): (r: seq<Summary>)
    ensures forall m | m in r :: m in list && m.imdbID != id
    ensures forall m | m in list && m.imdbID != id :: m in r
    ensures SubsequenceOf(r, list)
    ensures forall m :: multiset(r)[m] == if m.imdbID != id then multiset(list)[m] else 0
  {
    if list == [] then []
    else
      assert list == [list[0]] + list[1..];
      if list[0].imdbID != id then
        [list[0]] + WithoutSelf(list[1..], id)
      else WithoutSelf(list[1..], id)
  }

  /** `list.filter(m => m.imdbID !== id).slice(0, 5)`: at most five entries,
      none of them the page's own title, in the order the search returned. */
  function Recommend(list: seq<Summary>, id: string): (r: seq<Summary>)
    ensures |r| <= MaxRecommendations
    ensures forall m | m in r :: m.imdbID != id
    ensures SubsequenceOf(r, list)
    ensures r <= WithoutSelf(list, id)
    ensures |r| == if |WithoutSelf(list, id)| < MaxRecommendations
                   then |WithoutSelf(list, id)| else MaxRecommendations
  {
    var others := WithoutSelf(list, id);
    var n := if |others| < MaxRecommendations then |others| else MaxRecommendations;
    PrefixSubsequence(others, list, n);
    others[..n]
  }

  /** What the page holds while its requests are in flight. */
  function BeginLoad(s: DetailsState): (r: DetailsState)
    ensures r.loading && r.error == None
    ensures r.movie == s.movie && r.recommendations == s.recommendations
  {
    s.(loading := true, error := None)
  }

  /** The requests one load sends: the lookup, then, only when it succeeded,
      the search for the first word of the title. */
  function LoadRequests(id: string, lookup: LookupOutcome): (r: seq<Request>)
    ensures |r| == (if lookup.Found? then 2 else 1)
    ensures r[0] == LookupRequest(id)
    ensures lookup.Found? ==> r[1] == SearchRequest(FirstWord(lookup.detail.title))
  {
    [LookupRequest(id)] +
    (if lookup.Found? then [SearchRequest(FirstWord(lookup.detail.title))] else [])
  }

  /** The effect that runs on mount and on every change of `id`, as written:
      `recommendations` is assigned only when the recommendation search
      answers "True", and otherwise keeps whatever an earlier load left. */
  function LoadDetailsAsWritten(s: DetailsState, id: string, lookup: LookupOutcome,
                                secondary: SearchOutcome): (r: Step)
    ensures |r.requests| == (if lookup.Found? then 2 else 1)
    ensures r.requests[0] == LookupRequest(id)
    ensures lookup.Found? ==> r.requests[1] == SearchRequest(FirstWord(lookup.detail.title))
    ensures !r.state.loading
    ensures !lookup.Found? ==> r.state.movie == s.movie
    ensures lookup.Found? ==> r.state.movie == Some(lookup.detail)
    ensures lookup.LookupFalse? ==> r.state.error == Some(OrElse(lookup.error, NotFound))
    ensures lookup.LookupThrown? ==> r.state.error == Some(GenericError)
    ensures lookup.Found? && !secondary.Thrown? ==> r.state.error == None
    ensures lookup.Found? && secondary.Thrown? ==> r.state.error == Some(GenericError)
    ensures lookup.Found? && secondary.Ok? ==>
      r.state.recommendations == Recommend(secondary.search, id)
    ensures !(lookup.Found? && secondary.Ok?) ==> r.state.recommendations == s.recommendations
  {
    var b := BeginLoad(s);
    var st := match lookup
      case Found(d) =>
        var withMovie := b.(movie := Some(d));
        (match secondary
         case Ok(search) => withMovie.(recommendations := Recommend(search, id))
         case ApiFalse(_) => withMovie
         case Thrown => withMovie.(error := Some(GenericError)))
      case LookupFalse(message) => b.(error := Some(OrElse(message, NotFound)))
      case LookupThrown => b.(error := Some(GenericError));
    Step(st.(loading := false), LoadRequests(id, lookup))
  }

  /** The load with the recommendations cleared when it starts, so that a
      recommendation search that does not answer "True" leaves the section
      empty instead of showing the previous title's list. */
  function LoadDetails(s: DetailsState, id: string, lookup: LookupOutcome,
                       secondary: SearchOutcome): (r: Step)
    ensures r.requests == LoadRequests(id, lookup)
    ensures r.state.recommendations ==
      if lookup.Found? && secondary.Ok? then Recommend(secondary.search, id) else []
    ensures r.state == LoadDetailsAsWritten(s, id, lookup, secondary).state.(
      recommendations := r.state.recommendations)
  {
    LoadDetailsAsWritten(s.(recommendations := []), id, lookup, secondary)
  }

  /** The four faces of the page, in the order the component tests for them. */
  datatype View =
    | LoadingDetails
    | ErrorMessage(text: string)
    | Blank
    | MovieCard(movie: Detail, recommendations: seq<Summary>)

  /** Loading wins over an error, an error over a missing movie, and only
      then is the movie shown. */
  function Render(s: DetailsState): (v: View)
    ensures v.LoadingDetails? <==> s.loading
    ensures v.ErrorMessage? <==> !s.loading && Truthy(s.error)
    ensures v.ErrorMessage? ==> v.text == s.error.value
    ensures v.Blank? <==> !s.loading && !Truthy(s.error) && s.movie.None?
    ensures v.MovieCard? ==> s.movie == Some(v.movie) && v.recommendations == s.recommendations
  {
    if s.loading then LoadingDetails
    else if Truthy(s.error) then ErrorMessage(s.error.value)
    else if s.movie.None? then Blank
    else MovieCard(s.movie.value, s.recommendations)
  }

  /** A freshly mounted page shows the loading notice until its first load ends. */
  lemma MountedShowsLoading()
    ensures Render(Mounted) == LoadingDetails
    ensures Render(BeginLoad(Mounted)) == LoadingDetails
  {
  }

  /** An error hides a movie an earlier load already put on the page. */
  lemma ErrorHidesMovie(s: DetailsState, id: string, lookup: LookupOutcome, secondary: SearchOutcome)
    requires !lookup.Found? || secondary.Thrown?
    ensures Render(LoadDetails(s, id, lookup, secondary).state).ErrorMessage?
    ensures Render(LoadDetailsAsWritten(s, id, lookup, secondary).state).ErrorMessage?
  {
  }

  /** After any load of the corrected page, the movie shown is the one just
      looked up and it is never recommended to itself, whatever an earlier
      load left behind. */
  lemma NoSelfRecommendation(s: DetailsState, id: string, lookup: LookupOutcome,
                             secondary: SearchOutcome)
    ensures var v := Render(LoadDetails(s, id, lookup, secondary).state);
      v.MovieCard? ==>
        && lookup.Found? && v.movie == lookup.detail
        && |v.recommendations| <= MaxRecommendations
        && forall m | m in v.recommendations :: m.imdbID != id
  {
  }

  /** As written, moving from one title to another whose recommendation
      search answers "False" keeps the old list, which can hold the new title
      itself. */
  lemma StaleSelfRecommendation()
    ensures var other := Summary("B", "2000", "tt2", "N/A");
      var before := DetailsState(None, [other], false, None);
      var d := Detail("B", "2000", "tt2", "N/A", map[]);
      var v := Render(LoadDetailsAsWritten(before, "tt2", Found(d), ApiFalse(None)).state);
      v.MovieCard? && other in v.recommendations && other.imdbID == "tt2"
  {
  }

  /** Error messages the page can hold are never empty, so a set error is always shown. */
  lemma ErrorsAreShown(s: DetailsState, id: string, lookup: LookupOutcome, secondary: SearchOutcome)
    ensures var r := LoadDetails(s, id, lookup, secondary).state;
      r.error.Some? ==> Render(r) == ErrorMessage(r.error.value)
  {
  }
}
