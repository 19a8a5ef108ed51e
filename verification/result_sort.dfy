/** Client-side ordering of search results (`sortResults` of the search view).

    The source copies the list and hands it to `Array.prototype.sort`, which
    ECMAScript requires to be stable; a stable insertion sort is therefore a
    faithful model. The two host primitives the comparators call,
    `String.prototype.localeCompare` and `parseInt`, are abstract: they are the
    fields of `Keys`. Only the sign of a comparator result matters to `sort`,
    and a NaN result (a year `parseInt` cannot read) counts as +0, as in the
    SortCompare step of ECMAScript. */
module ResultSort {
  import opened Api

  /** The four orderings `sortResults` knows. */
  datatype SortKey = TitleAsc | TitleDesc | YearDesc | YearAsc

  /** `localeCompare` on titles, and `parseInt` on year strings (`None` for NaN). */
  datatype Keys = Keys(localeCompare: (string, string) -> int, parseYear: string -> Option<int>)

  /** The mode strings of the sort menu that reorder the list; every other
      string, `"relevance"` included, falls to the `default` branch. */
  function KeyOf(mode: string): (k: Option<SortKey>)
    ensures k == None <==> mode !in {"az", "za", "newest", "oldest"}
    ensures k == Some(TitleAsc) <==> mode == "az"
    ensures k == Some(TitleDesc) <==> mode == "za"
    ensures k == Some(YearDesc) <==> mode == "newest"
    ensures k == Some(YearAsc) <==> mode == "oldest"
  {
    if mode == "az" then Some(TitleAsc)
    else if mode == "za" then Some(TitleDesc)
    else if mode == "newest" then Some(YearDesc)
    else if mode == "oldest" then Some(YearAsc)
    else None
  }

  /** `parseInt(a.Year) - parseInt(b.Year)`, with a NaN difference read as +0. */
  function YearDiff(keys: Keys, a: Summary, b: Summary): (r: int)
    ensures keys.parseYear(a.year).Some? && keys.parseYear(b.year).Some? ==>
      r == ParsedYear(keys, a) - ParsedYear(keys, b)
    ensures keys.parseYear(a.year).None? || keys.parseYear(b.year).None? ==> r == 0
  {
    match (keys.parseYear(a.year), keys.parseYear(b.year))
    case (Some(x), Some(y)) => x - y
    case _ => 0
  }

  /** The comparator the source passes to `sort` for each key. */
  function Compare(keys: Keys, key: SortKey, a: Summary, b: Summary): (r: int)
    ensures key == TitleAsc ==> r == keys.localeCompare(a.title, b.title)
    ensures key == TitleDesc ==> r == keys.localeCompare(b.title, a.title)
    ensures (key == YearDesc || key == YearAsc) ==>
      (keys.parseYear(a.year).None? || keys.parseYear(b.year).None?) ==> r == 0
  {
    match key
    case TitleAsc => keys.localeCompare(a.title, b.title)
    case TitleDesc => keys.localeCompare(b.title, a.title)
    case YearDesc => YearDiff(keys, b, a)
    case YearAsc => YearDiff(keys, a, b)
  }

  /** When both years parse, "newest" lets `a` stay before `b` exactly when
      `a` is not older, and "oldest" exactly when `a` is not newer. */
  lemma CompareYears(keys: Keys, a: Summary, b: Summary)
    requires keys.parseYear(a.year).Some? && keys.parseYear(b.year).Some?
    ensures Compare(keys, YearDesc, a, b) <= 0 <==> ParsedYear(keys, b) <= ParsedYear(keys, a)
    ensures Compare(keys, YearAsc, a, b) <= 0 <==> ParsedYear(keys, a) <= ParsedYear(keys, b)
  {
  }

  /** The descending comparators are the ascending ones with their arguments
      swapped, which is all that makes "za" and "newest" run backwards. */
  lemma CompareReverses(keys: Keys, a: Summary, b: Summary)
    ensures Compare(keys, TitleDesc, a, b) == Compare(keys, TitleAsc, b, a)
    ensures Compare(keys, YearDesc, a, b) == Compare(keys, YearAsc, b, a)
  {
  }

  /** `a` may stay before `b`: the comparator does not ask to swap them. */
  predicate Precedes(keys: Keys, key: SortKey, a: Summary, b: Summary) {
    Compare(keys, key, a, b) <= 0
  }

  /** `localeCompare`, read through its sign, is a total preorder on strings. */
  ghost predicate LocaleOrder(keys: Keys) {
    && (forall s, t :: keys.localeCompare(s, t) <= 0 || keys.localeCompare(t, s) <= 0)
    && (forall s, t, u :: keys.localeCompare(s, t) <= 0 && keys.localeCompare(t, u) <= 0
                          ==> keys.localeCompare(s, u) <= 0)
  }

  /** The comparator of `key` is consistent on `m`: always for titles, and for
      years only when `parseInt` reads the year as a number. */
  predicate Comparable(keys: Keys, key: SortKey, m: Summary) {
    (key == YearDesc || key == YearAsc) ==> keys.parseYear(m.year).Some?
  }

  ghost predicate AllComparable(keys: Keys, key: SortKey, s: seq<Summary>) {
    forall m | m in s :: Comparable(keys, key, m)
  }

  /** Every earlier element may precede every later one. */
  ghost predicate SortedBy(keys: Keys, key: SortKey, s: seq<Summary>) {
    forall i, j | 0 <= i < j < |s| :: Precedes(keys, key, s[i], s[j])
  }

  /** The year `parseInt` reads, or 0 where it reads NaN. */
  function ParsedYear(keys: Keys, m: Summary): int {
    match keys.parseYear(m.year)
    case Some(y) => y
    case None => 0
  }

  lemma PrecedesTotal(keys: Keys, key: SortKey, a: Summary, b: Summary)
    requires LocaleOrder(keys)
    requires Comparable(keys, key, a) && Comparable(keys, key, b)
    ensures Precedes(keys, key, a, b) || Precedes(keys, key, b, a)
  {
  }

  lemma PrecedesTransitive(keys: Keys, key: SortKey, a: Summary, b: Summary, c: Summary)
    requires LocaleOrder(keys)
    requires Comparable(keys, key, a) && Comparable(keys, key, b) && Comparable(keys, key, c)
    requires Precedes(keys, key, a, b) && Precedes(keys, key, b, c)
    ensures Precedes(keys, key, a, c)
  {
  }

  /** Inserts `x` before the first element it may precede. */
  function Insert(keys: Keys, key: SortKey, x: Summary, s: seq<Summary>): (r: seq<Summary>)
    ensures multiset(r) == multiset(s) + multiset{x}
    ensures |r| == |s| + 1
  {
    if s == [] || Precedes(keys, key, x, s[0]) then [x] + s
    else
      assert s == [s[0]] + s[1..];
      [s[0]] + Insert(keys, key, x, s[1..])
  }

  /** Stable insertion sort: the head goes in front of every later element it
      may precede, so equally ranked elements keep their input order. */
  function Sort(keys: Keys, key: SortKey, s: seq<Summary>): (r: seq<Summary>)
    ensures multiset(r) == multiset(s)
    ensures |r| == |s|
  {
    if s == [] then []
    else
      assert s == [s[0]] + s[1..];
      Insert(keys, key, s[0], Sort(keys, key, s[1..]))
  }

  /** `sortResults(movies, sortType)`: a reordered copy for the four known
      modes, and the list in its given order for any other mode. */
  function SortResults(keys: Keys, movies: seq<Summary>, sortType: string): (r: seq<Summary>)
    ensures multiset(r) == multiset(movies)
    ensures |r| == |movies|
    ensures KeyOf(sortType) == None ==> r == movies
  {
    match KeyOf(sortType)
    case None => movies
    case Some(key) => Sort(keys, key, movies)
  }

  /** An element that may precede the head of a sorted list may precede all of it. */
  lemma PrecedesSorted(keys: Keys, key: SortKey, x: Summary, s: seq<Summary>)
    requires LocaleOrder(keys)
    requires Comparable(keys, key, x) && AllComparable(keys, key, s)
    requires SortedBy(keys, key, s)
    requires s != [] && Precedes(keys, key, x, s[0])
    ensures SortedBy(keys, key, [x] + s)
  {
    var r := [x] + s;
    forall i, j | 0 <= i < j < |r|
      ensures Precedes(keys, key, r[i], r[j])
    {
      if i == 0 && j > 1 {
        assert Precedes(keys, key, s[0], s[j - 1]);
        PrecedesTransitive(keys, key, x, s[0], s[j - 1]);
      }
    }
  }

  /** Inserting keeps every element of the list and adds `x`, nothing else. */
  lemma InsertMembers(keys: Keys, key: SortKey, x: Summary, s: seq<Summary>)
    ensures forall m | m in Insert(keys, key, x, s) :: m == x || m in s
  {
    var t := Insert(keys, key, x, s);
    forall m | m in t ensures m == x || m in s {
      assert m in multiset(t);
    }
  }

  /** When `x` goes past the head of a sorted list, that head may precede
      everything `x` is inserted among. */
  lemma HeadPrecedesInsert(keys: Keys, key: SortKey, x: Summary, s: seq<Summary>)
    requires LocaleOrder(keys)
    requires Comparable(keys, key, x) && AllComparable(keys, key, s)
    requires SortedBy(keys, key, s)
    requires s != [] && !Precedes(keys, key, x, s[0])
    ensures forall m | m in Insert(keys, key, x, s[1..]) :: Precedes(keys, key, s[0], m)
  {
    PrecedesTotal(keys, key, x, s[0]);
    InsertMembers(keys, key, x, s[1..]);
    forall m | m in Insert(keys, key, x, s[1..])
      ensures Precedes(keys, key, s[0], m)
    {
      if m != x {
        var k :| 0 <= k < |s[1..]| && s[1..][k] == m;
        assert s[k + 1] == m;
      }
    }
  }

  lemma {:induction false} InsertSorted(keys: Keys, key: SortKey, x: Summary, s: seq<Summary>)
    requires LocaleOrder(keys)
    requires Comparable(keys, key, x) && AllComparable(keys, key, s)
    requires SortedBy(keys, key, s)
    ensures SortedBy(keys, key, Insert(keys, key, x, s))
  {
    if s == [] {
    } else if Precedes(keys, key, x, s[0]) {
      PrecedesSorted(keys, key, x, s);
    } else {
      var t := Insert(keys, key, x, s[1..]);
      assert SortedBy(keys, key, s[1..]);
      InsertSorted(keys, key, x, s[1..]);
      HeadPrecedesInsert(keys, key, x, s);
      var r := [s[0]] + t;
      forall i, j | 0 <= i < j < |r|
        ensures Precedes(keys, key, r[i], r[j])
      {
        if i == 0 {
          assert r[j] == t[j - 1];
          assert r[j] in t;
        } else {
          assert r[i] == t[i - 1] && r[j] == t[j - 1];
        }
      }
    }
  }

  /** Sorting keeps every element, so it keeps comparability too. */
  lemma SortComparable(keys: Keys, key: SortKey, s: seq<Summary>)
    requires AllComparable(keys, key, s)
    ensures AllComparable(keys, key, Sort(keys, key, s))
  {
    var t := Sort(keys, key, s);
    forall m | m in t ensures Comparable(keys, key, m) {
      assert m in multiset(t);
      assert m in s;
    }
  }

  lemma {:induction false} SortSorted(keys: Keys, key: SortKey, s: seq<Summary>)
    requires LocaleOrder(keys)
    requires AllComparable(keys, key, s)
    ensures SortedBy(keys, key, Sort(keys, key, s))
  {
    if s != [] {
      SortSorted(keys, key, s[1..]);
      var t := Sort(keys, key, s[1..]);
      SortComparable(keys, key, s[1..]);
      InsertSorted(keys, key, s[0], t);
    }
  }

  /** The elements ranked level with `k`, in the order they appear in `s`. */
  function Peers(keys: Keys, key: SortKey, k: Summary, s: seq<Summary>): (r: seq<Summary>)
    ensures forall m | m in r :: m in s && Precedes(keys, key, m, k) && Precedes(keys, key, k, m)
  {
    if s == [] then []
    else if Precedes(keys, key, s[0], k) && Precedes(keys, key, k, s[0]) then
      [s[0]] + Peers(keys, key, k, s[1..])
    else Peers(keys, key, k, s[1..])
  }

  lemma {:induction false} InsertKeepsPeers(keys: Keys, key: SortKey, k: Summary, x: Summary, s: seq<Summary>)
    requires LocaleOrder(keys)
    requires Comparable(keys, key, k) && Comparable(keys, key, x) && AllComparable(keys, key, s)
    ensures Peers(keys, key, k, Insert(keys, key, x, s)) == Peers(keys, key, k, [x] + s)
  {
    if s == [] || Precedes(keys, key, x, s[0]) {
    } else {
      assert [x] + s == [x] + ([s[0]] + s[1..]);
      InsertKeepsPeers(keys, key, k, x, s[1..]);
      assert ([s[0]] + Insert(keys, key, x, s[1..]))[1..] == Insert(keys, key, x, s[1..]);
      assert ([x] + s)[1..] == s;
      assert ([x] + s[1..])[1..] == s[1..];
      if Precedes(keys, key, x, k) && Precedes(keys, key, k, x) {
        // s[0] ranks strictly before x, so it cannot rank level with k
        if Precedes(keys, key, s[0], k) && Precedes(keys, key, k, s[0]) {
          PrecedesTransitive(keys, key, x, k, s[0]);
          assert false;
        }
      }
    }
  }

  /** Stability: sorting never reorders elements that rank level with each other. */
  lemma {:induction false} SortStable(keys: Keys, key: SortKey, k: Summary, s: seq<Summary>)
    requires LocaleOrder(keys)
    requires Comparable(keys, key, k) && AllComparable(keys, key, s)
    ensures Peers(keys, key, k, Sort(keys, key, s)) == Peers(keys, key, k, s)
  {
    if s != [] {
      var t := Sort(keys, key, s[1..]);
      SortStable(keys, key, k, s[1..]);
      SortComparable(keys, key, s[1..]);
      InsertKeepsPeers(keys, key, k, s[0], t);
      assert ([s[0]] + t)[1..] == t;
    }
  }

  /** The heads of two ordered lists holding the same elements rank level. */
  lemma SortedHeadsLevel(keys: Keys, key: SortKey, t: seq<Summary>, u: seq<Summary>)
    requires LocaleOrder(keys)
    requires AllComparable(keys, key, t) && multiset(t) == multiset(u) && t != []
    requires SortedBy(keys, key, t) && SortedBy(keys, key, u)
    ensures u != []
    ensures Precedes(keys, key, t[0], u[0]) && Precedes(keys, key, u[0], t[0])
  {
    assert t[0] in multiset(u);
    var a, b := t[0], u[0];
    assert b in multiset(t);
    var i :| 0 <= i < |u| && u[i] == a;
    var j :| 0 <= j < |t| && t[j] == b;
    PrecedesTotal(keys, key, a, a);
    if i > 0 {
      assert Precedes(keys, key, u[0], u[i]);
    }
    if j > 0 {
      assert Precedes(keys, key, t[0], t[j]);
    }
  }

  /** With the level groups in the same order as well, the heads are equal. */
  lemma SortedPeersHead(keys: Keys, key: SortKey, t: seq<Summary>, u: seq<Summary>)
    requires LocaleOrder(keys)
    requires AllComparable(keys, key, t) && multiset(t) == multiset(u) && t != []
    requires SortedBy(keys, key, t) && SortedBy(keys, key, u)
    requires forall k | Comparable(keys, key, k) :: Peers(keys, key, k, t) == Peers(keys, key, k, u)
    ensures u != [] && t[0] == u[0]
  {
    SortedHeadsLevel(keys, key, t, u);
    var a := t[0];
    PrecedesTotal(keys, key, a, a);
    assert Peers(keys, key, a, t) == Peers(keys, key, a, u);
    assert Peers(keys, key, a, t)[0] == a;
  }

  /** Dropping an equal head keeps the remaining elements equal as multisets. */
  lemma TailMultiset(t: seq<Summary>, u: seq<Summary>)
    requires multiset(t) == multiset(u)
    requires t != [] && u != [] && t[0] == u[0]
    ensures multiset(t[1..]) == multiset(u[1..])
  {
    assert t == [t[0]] + t[1..] && u == [u[0]] + u[1..];
    calc {
      multiset(t[1..]);
      multiset(t) - multiset{t[0]};
      multiset(u) - multiset{u[0]};
      multiset(u[1..]);
    }
  }

  /** Dropping an equal head keeps the level groups in the same order. */
  lemma TailPeers(keys: Keys, key: SortKey, t: seq<Summary>, u: seq<Summary>)
    requires t != [] && u != [] && t[0] == u[0]
    requires forall k | Comparable(keys, key, k) :: Peers(keys, key, k, t) == Peers(keys, key, k, u)
    ensures forall k | Comparable(keys, key, k) :: Peers(keys, key, k, t[1..]) == Peers(keys, key, k, u[1..])
  {
    forall k | Comparable(keys, key, k)
      ensures Peers(keys, key, k, t[1..]) == Peers(keys, key, k, u[1..])
    {
      assert Peers(keys, key, k, t) == Peers(keys, key, k, u);
      var x, y := Peers(keys, key, k, t[1..]), Peers(keys, key, k, u[1..]);
      if Precedes(keys, key, t[0], k) && Precedes(keys, key, k, t[0]) {
        assert ([t[0]] + x)[1..] == x && ([t[0]] + y)[1..] == y;
      }
    }
  }

  /** The tail of an ordered list of comparable elements is one too. */
  lemma SortedTail(keys: Keys, key: SortKey, t: seq<Summary>)
    requires t != [] && SortedBy(keys, key, t)
    ensures SortedBy(keys, key, t[1..])
    ensures AllComparable(keys, key, t) ==> AllComparable(keys, key, t[1..])
  {
    if AllComparable(keys, key, t) {
      forall m | m in t[1..] ensures Comparable(keys, key, m) {
        assert m in t;
      }
    }
  }

  /** Two lists ordered by the same consistent comparator, holding the same
      elements, and agreeing on the order of every group of level-ranked
      elements, are the same list. */
  lemma {:induction false} SortedPeersDetermine(keys: Keys, key: SortKey, t: seq<Summary>, u: seq<Summary>)
    requires LocaleOrder(keys)
    requires AllComparable(keys, key, t) && multiset(t) == multiset(u)
    requires SortedBy(keys, key, t) && SortedBy(keys, key, u)
    requires forall k | Comparable(keys, key, k) :: Peers(keys, key, k, t) == Peers(keys, key, k, u)
    ensures t == u
    decreases |t|
  {
    assert |t| == |multiset(t)| == |u|;
    if t != [] {
      SortedPeersHead(keys, key, t, u);
      TailMultiset(t, u);
      TailPeers(keys, key, t, u);
      SortedTail(keys, key, t);
      SortedTail(keys, key, u);
      SortedPeersDetermine(keys, key, t[1..], u[1..]);
      assert t == [t[0]] + t[1..] && u == [u[0]] + u[1..];
    }
  }

  /** `Sort` is the only stable sort: any ordered permutation of `s` that keeps
      level-ranked elements in their input order is `Sort(s)`, so it is what
      a stable `Array.prototype.sort` returns for a consistent comparator. */
  lemma SortIsTheStableSort(keys: Keys, key: SortKey, s: seq<Summary>, t: seq<Summary>)
    requires LocaleOrder(keys)
    requires AllComparable(keys, key, s)
    requires multiset(t) == multiset(s) && SortedBy(keys, key, t)
    requires forall k | Comparable(keys, key, k) :: Peers(keys, key, k, t) == Peers(keys, key, k, s)
    ensures t == Sort(keys, key, s)
  {
    var u := Sort(keys, key, s);
    SortSorted(keys, key, s);
    forall k | Comparable(keys, key, k)
      ensures Peers(keys, key, k, t) == Peers(keys, key, k, u)
    {
      SortStable(keys, key, k, s);
    }
    forall m | m in t ensures Comparable(keys, key, m) {
      assert m in multiset(s);
    }
    SortedPeersDetermine(keys, key, t, u);
  }

  /** What each mode of `sortResults` promises about its output: a permutation,
      ordered by title or by parsed year as the mode asks, and the input order
      untouched for any mode it does not know. */
  lemma SortResultsOrdered(keys: Keys, movies: seq<Summary>, sortType: string)
    requires LocaleOrder(keys)
    requires sortType in {"newest", "oldest"} ==> AllComparable(keys, YearDesc, movies)
    ensures var r := SortResults(keys, movies, sortType);
      && multiset(r) == multiset(movies)
      && (sortType == "az" ==>
            forall i, j | 0 <= i < j < |r| :: keys.localeCompare(r[i].title, r[j].title) <= 0)
      && (sortType == "za" ==>
            forall i, j | 0 <= i < j < |r| :: keys.localeCompare(r[j].title, r[i].title) <= 0)
      && (sortType == "newest" ==>
            forall i, j | 0 <= i < j < |r| :: ParsedYear(keys, r[j]) <= ParsedYear(keys, r[i]))
      && (sortType == "oldest" ==>
            forall i, j | 0 <= i < j < |r| :: ParsedYear(keys, r[i]) <= ParsedYear(keys, r[j]))
      && (sortType !in {"az", "za", "newest", "oldest"} ==> r == movies)
  {
    var r := SortResults(keys, movies, sortType);
    match KeyOf(sortType)
    case None =>
    case Some(key) =>
      SortSorted(keys, key, movies);
      if key == YearDesc || key == YearAsc {
        forall m | m in r ensures keys.parseYear(m.year).Some? {
          assert m in multiset(r);
          assert m in movies;
          assert Comparable(keys, YearDesc, m);
        }
      }
  }
}
