/** The state of the search page (`Home` in src/App.jsx) and its three
    transitions: editing the query, submitting a search, and choosing a sort
    mode. Each transition is atomic; the network response a search waits for
    is an input of the transition. */
module SearchView {
  import opened Api
  import opened ResultSort

  /** The five state variables of the search page. */
  datatype SearchState = SearchState(
    query: string,
    sortValue: string,
    results: seq<Summary>,
    loading: bool,
    error: Option<string>)

  /** A transition's new state and the requests it sent, in order. */
  datatype Step = Step(state: SearchState, requests: seq<Request>)

  const NoMoviesFound := "No movies found."
  const ConnectivityError := "Something went wrong. Please check your API key and internet connection."

  /** The state the page starts in. */
  const Initial := SearchState("", "relevance", [], false, None)

  /** Typing into the search box stores the text as typed. */
  function EditQuery(s: SearchState, text: string): (r: SearchState)
    ensures r.query == text
    ensures r.(query := s.query) == s
  {
    s.(query := text)
  }

  /** What the page shows between sending the request and its answer. */
  function BeginSearch(s: SearchState): (r: SearchState)
    ensures r.loading && r.error == None && r.results == []
    ensures r.query == s.query && r.sortValue == s.sortValue
  {
    s.(loading := true, error := None, results := [])
  }

  /** Applies the answer of the search request to the state `BeginSearch`
      left. `captured` is the sort mode the `performSearch` closure saw when it
      was called, which need not be the mode stored now. Only the field the
      outcome names is set, and loading ends. */
  function FinishSearch(keys: Keys, s: SearchState, captured: string, outcome: SearchOutcome): (r: SearchState)
    ensures !r.loading && r.query == s.query && r.sortValue == s.sortValue
    ensures outcome.Ok? ==>
      r.results == SortResults(keys, outcome.search, captured) && r.error == s.error
    ensures outcome.ApiFalse? ==>
      r.results == s.results && r.error == Some(OrElse(outcome.error, NoMoviesFound))
    ensures outcome.Thrown? ==> r.results == s.results && r.error == Some(ConnectivityError)
  {
    match outcome
    case Ok(search) => s.(results := SortResults(keys, search, captured), loading := false)
    case ApiFalse(message) => s.(error := Some(OrElse(message, NoMoviesFound)), loading := false)
    case Thrown => s.(error := Some(ConnectivityError), loading := false)
  }

  /** `performSearch`: an empty query changes nothing and sends nothing;
      any other query, whitespace included, is sent as typed and the outcome
      decides between a sorted result list and an error message. */
  function PerformSearch(keys: Keys, s: SearchState, outcome: SearchOutcome): (r: Step)
    ensures s.query == "" ==> r == Step(s, [])
    ensures s.query != "" ==>
      && r.requests == [SearchRequest(s.query)]
      && !r.state.loading
      && r.state.query == s.query
      && r.state.sortValue == s.sortValue
    ensures s.query != "" && outcome.Ok? ==>
      && r.state.error == None
      && multiset(r.state.results) == multiset(outcome.search)
      && r.state.results == SortResults(keys, outcome.search, s.sortValue)
    ensures s.query != "" && outcome.ApiFalse? ==>
      && r.state.results == []
      && (Truthy(outcome.error) ==> r.state.error == outcome.error)
      && (!Truthy(outcome.error) ==> r.state.error == Some(NoMoviesFound))
    ensures s.query != "" && outcome.Thrown? ==>
      r.state.results == [] && r.state.error == Some(ConnectivityError)
  {
    if s.query == "" then Step(s, [])
    else Step(FinishSearch(keys, BeginSearch(s), s.sortValue, outcome), [SearchRequest(s.query)])
  }

  /** `handleSortChange`: the new mode is always stored; the results are
      re-sorted by it only when there are any. Nothing else changes. */
  function HandleSortChange(keys: Keys, s: SearchState, newSortValue: string): (r: SearchState)
    ensures r.sortValue == newSortValue
    ensures multiset(r.results) == multiset(s.results)
    ensures s.results == [] ==> r.results == []
    ensures s.results != [] ==> r.results == SortResults(keys, s.results, newSortValue)
    ensures KeyOf(newSortValue) == None ==> r.results == s.results
    ensures r.query == s.query && r.loading == s.loading && r.error == s.error
  {
    var r := s.(sortValue := newSortValue);
    if |s.results| > 0 then r.(results := SortResults(keys, s.results, newSortValue)) else r
  }

  /** A user action on the search page. */
  datatype Event =
    | Type(text: string)
    | Submit(outcome: SearchOutcome)
    | ChooseSort(value: string)

  function Apply(keys: Keys, s: SearchState, e: Event): SearchState {
    match e
    case Type(text) => EditQuery(s, text)
    case Submit(outcome) => PerformSearch(keys, s, outcome).state
    case ChooseSort(value) => HandleSortChange(keys, s, value)
  }

  function Run(keys: Keys, s: SearchState, events: seq<Event>): SearchState
    decreases |events|
  {
    if events == [] then s else Run(keys, Apply(keys, s, events[0]), events[1..])
  }

  /** Settled page: not loading, an error message only with an empty result
      list, and every error message non-empty. */
  ghost predicate Settled(s: SearchState) {
    && !s.loading
    && (s.error.Some? ==> s.error.value != "" && s.results == [])
  }

  /** The shown results are in the order the selected mode asks for, whenever
      that mode reorders and its comparator is consistent on them. */
  ghost predicate AgreesWithSort(keys: Keys, s: SearchState) {
    forall key | KeyOf(s.sortValue) == Some(key) && AllComparable(keys, key, s.results) ::
      SortedBy(keys, key, s.results)
  }

  /** Every action keeps the page settled and its results in the chosen order. */
  lemma ApplyKeepsInvariants(keys: Keys, s: SearchState, e: Event)
    requires LocaleOrder(keys)
    requires Settled(s) && AgreesWithSort(keys, s)
    ensures Settled(Apply(keys, s, e)) && AgreesWithSort(keys, Apply(keys, s, e))
  {
    var r := Apply(keys, s, e);
    match e
    case Type(_) =>
    case Submit(outcome) =>
      if s.query != "" && outcome.Ok? {
        forall key | KeyOf(r.sortValue) == Some(key) && AllComparable(keys, key, r.results)
          ensures SortedBy(keys, key, r.results)
        {
          forall m | m in outcome.search ensures Comparable(keys, key, m) {
            assert m in multiset(r.results);
          }
          SortSorted(keys, key, outcome.search);
        }
      }
    case ChooseSort(value) =>
      if s.results != [] {
        forall key | KeyOf(r.sortValue) == Some(key) && AllComparable(keys, key, r.results)
          ensures SortedBy(keys, key, r.results)
        {
          forall m | m in s.results ensures Comparable(keys, key, m) {
            assert m in multiset(r.results);
          }
          SortSorted(keys, key, s.results);
        }
      }
  }

  /** When every search completes before the next action, the page never
      shows an error beside results, and the results follow the selected sort
      mode. A sort change while a search is pending breaks the second half
      (`SortChangeDuringSearch`). */
  lemma {:induction false} RunKeepsInvariants(keys: Keys, s: SearchState, events: seq<Event>)
    requires LocaleOrder(keys)
    requires Settled(s) && AgreesWithSort(keys, s)
    ensures Settled(Run(keys, s, events)) && AgreesWithSort(keys, Run(keys, s, events))
    decreases |events|
  {
    if events != [] {
      ApplyKeepsInvariants(keys, s, events[0]);
      RunKeepsInvariants(keys, Apply(keys, s, events[0]), events[1..]);
    }
  }

  /** A sort change while the search request is pending stores the new mode
      but finds no results to re-sort; the answer then arrives sorted by the
      mode the search started with. */
  lemma SortChangeDuringSearch(keys: Keys, s: SearchState, mode: string, search: seq<Summary>)
    requires s.query != ""
    ensures var pending := HandleSortChange(keys, BeginSearch(s), mode);
      var done := FinishSearch(keys, pending, s.sortValue, Ok(search));
      && done.sortValue == mode
      && done.results == SortResults(keys, search, s.sortValue)
  {
  }

  lemma InitialSettled(keys: Keys)
    ensures Settled(Initial) && AgreesWithSort(keys, Initial)
  {
  }

  /** Switching back to "relevance" after a re-sort keeps the re-sorted order:
      the order the database answered in is not kept anywhere. */
  lemma RelevanceKeepsCurrentOrder(keys: Keys, s: SearchState, mode: string)
    ensures HandleSortChange(keys, HandleSortChange(keys, s, mode), "relevance").results
         == SortResults(keys, s.results, mode)
  {
  }

  /** Three results from 1989, 2022 and 2005 sorted "newest" show as 2022, 2005, 1989. */
  lemma NewestScenario(keys: Keys, a: Summary, b: Summary, c: Summary)
    requires keys.parseYear(a.year) == Some(1989)
    requires keys.parseYear(b.year) == Some(2022)
    requires keys.parseYear(c.year) == Some(2005)
    ensures SortResults(keys, [a, b, c], "newest") == [b, c, a]
  {
    var k := YearDesc;
    assert Compare(keys, k, b, c) == 2005 - 2022;
    assert Compare(keys, k, a, b) == 2022 - 1989;
    assert Compare(keys, k, a, c) == 2005 - 1989;
    assert Sort(keys, k, [c]) == [c] by {
      assert [c][1..] == [];
    }
    assert Sort(keys, k, [b, c]) == [b, c] by {
      assert [b, c][1..] == [c];
      assert Insert(keys, k, b, [c]) == [b, c];
    }
    assert Insert(keys, k, a, [c]) == [c, a] by {
      assert [c][1..] == [];
    }
    assert Insert(keys, k, a, [b, c]) == [b, c, a] by {
      assert [b, c][1..] == [c];
    }
    assert [a, b, c][1..] == [b, c];
  }

  /** A negative answer carrying "Movie not found!" shows exactly that text. */
  lemma NotFoundScenario(keys: Keys, s: SearchState)
    requires s.query == "zzzznotamovie"
    ensures PerformSearch(keys, s, ApiFalse(Some("Movie not found!"))).state.error
         == Some("Movie not found!")
  {
  }
}
