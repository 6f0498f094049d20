/**
 * The aggregates over the movie corpus: the per-actor counts of MovieV2
 * and of Movies, the per-year collector of MovieV2 with its combiner, the
 * best year per actor, and the distinct years, year range and histograms.
 *
 * A cast is a set; where a pipeline streams it, its iteration order is an
 * explicit `seq` that enumerates it.
 */
module MovieStats {
  import opened Wrappers
  import opened Counting
  import opened Corpus
  import opened MovieLines

  /** One iteration order per movie's cast. */
  predicate CastOrders(movies: seq<Movie>, casts: seq<seq<Actor>>) {
    && |casts| == |movies|
    && forall i | 0 <= i < |movies| :: Enumerates(casts[i], movies[i].actors)
  }

  /** The sum of all cast sizes. */
  function CastTotal(movies: seq<Movie>): nat {
    if |movies| == 0 then 0
    else CastTotal(movies[..|movies| - 1]) + |movies[|movies| - 1].actors|
  }

  // ---------------------------------------------------------------------
  // Movies played per actor

  /**
   * MovieV2: `flatMap(m -> m.actors().stream())` collected with
   * `groupingBy(identity(), counting())`.
   */
  function ActorCounts(casts: seq<seq<Actor>>): (r: map<Actor, int>)
    ensures forall a :: a in r <==> exists i | 0 <= i < |casts| :: a in casts[i]
    ensures forall a | a in r :: r[a] > 0
  {
    Histogram(Flatten(casts))
  }

  /** An actor occurs in the flattened casts once per movie casting the actor. */
  lemma {:induction false} CastStreamOccurrences(movies: seq<Movie>, casts: seq<seq<Actor>>, a: Actor)
    requires CastOrders(movies, casts)
    ensures Occurrences(Flatten(casts), a) == MoviesWith(movies, a)
  {
    if |movies| > 0 {
      var n := |movies| - 1;
      assert CastOrders(movies[..n], casts[..n]);
      CastStreamOccurrences(movies[..n], casts[..n], a);
      OccurrencesAppend(Flatten(casts[..n]), casts[n], a);
      OccurrencesDistinct(casts[n], a);
      EnumeratesElements(casts[n], movies[n].actors);
    }
  }

  /**
   * The MovieV2 count of an actor is the number of movies whose cast holds
   * the actor, and exactly the actors of the corpus are counted.
   */
  lemma ActorCountsSpec(movies: seq<Movie>, casts: seq<seq<Actor>>)
    requires CastOrders(movies, casts)
    ensures forall a :: a in ActorCounts(casts) <==> a in AllActors(movies)
    ensures forall a | a in ActorCounts(casts) :: ActorCounts(casts)[a] == MoviesWith(movies, a)
  {
    forall a
      ensures a in ActorCounts(casts) <==> a in AllActors(movies)
      ensures a in ActorCounts(casts) ==> ActorCounts(casts)[a] == MoviesWith(movies, a)
    {
      CastStreamOccurrences(movies, casts, a);
      MoviesWithPositive(movies, a);
    }
  }

  /** The length of the flattened casts is the sum of the cast sizes. */
  lemma {:induction false} CastStreamLength(movies: seq<Movie>, casts: seq<seq<Actor>>)
    requires CastOrders(movies, casts)
    ensures |Flatten(casts)| == CastTotal(movies)
  {
    if |movies| > 0 {
      var n := |movies| - 1;
      assert CastOrders(movies[..n], casts[..n]);
      CastStreamLength(movies[..n], casts[..n]);
      DistinctCard(casts[n]);
      EnumeratesElements(casts[n], movies[n].actors);
      assert casts[..n] == casts[..|casts| - 1];
      assert Flatten(casts) == Flatten(casts[..n]) + casts[n];
      assert CastTotal(movies) == CastTotal(movies[..n]) + |movies[n].actors|;
    }
  }

  /** The MovieV2 counts add up to the total of all cast sizes. */
  lemma ActorCountsTotal(movies: seq<Movie>, casts: seq<seq<Actor>>)
    requires CastOrders(movies, casts)
    ensures Total(ActorCounts(casts)) == CastTotal(movies)
  {
    HistogramTotal(Flatten(casts));
    CastStreamLength(movies, casts);
  }

  /**
   * Movies: `actors.stream().collect(toMap(identity(), actor ->
   * movies.stream().filter(m -> m.actors().contains(actor)).count()))`:
   * one count per given actor, positive exactly when some movie casts them.
   */
  function FilterCounts(movies: seq<Movie>, actors: set<Actor>): (r: map<Actor, int>)
    ensures r.Keys == actors
    ensures forall a | a in r :: r[a] > 0 <==> Appears(movies, a)
  {
    AllMoviesWithPositive(movies);
    map a | a in actors :: MoviesWith(movies, a)
  }

  /** `MoviesWithPositive` for every actor at once. */
  lemma AllMoviesWithPositive(movies: seq<Movie>)
    ensures forall a :: MoviesWith(movies, a) > 0 <==> Appears(movies, a)
  {
    forall a
      ensures MoviesWith(movies, a) > 0 <==> Appears(movies, a)
    {
      MoviesWithPositive(movies, a);
    }
  }

  /** The faster MovieV2 pipeline computes the same counts as the filter-and-count one. */
  lemma CountsAgree(movies: seq<Movie>, casts: seq<seq<Actor>>)
    requires CastOrders(movies, casts)
    ensures ActorCounts(casts) == FilterCounts(movies, AllActors(movies))
  {
    ActorCountsSpec(movies, casts);
  }

  /**
   * "Actor that played in the greatest number of movies": the `max` over
   * the counts plays in at least as many movies as any actor, and `.get()`
   * fails only when no movie has a cast.
   */
  lemma MostActiveActor(movies: seq<Movie>, casts: seq<seq<Actor>>, order: seq<Actor>)
    requires CastOrders(movies, casts)
    requires Enumerates(order, ActorCounts(casts).Keys)
    ensures
      var r := MaxEntry(ActorCounts(casts), order);
      && (r.None? <==> AllActors(movies) == {})
      && (r.Some? ==> r.value in AllActors(movies) && forall a :: MoviesWith(movies, a) <= MoviesWith(movies, r.value))
  {
    var h := ActorCounts(casts);
    ActorCountsSpec(movies, casts);
    var r := MaxEntry(h, order);
    if AllActors(movies) != {} {
      var a :| a in AllActors(movies);
      assert a in h;
    }
    if r.Some? {
      forall a
        ensures MoviesWith(movies, a) <= MoviesWith(movies, r.value)
      {
        MoviesWithPositive(movies, a);
        if a in AllActors(movies) {
          assert h[a] <= h[r.value];
        }
      }
    }
  }

  // ---------------------------------------------------------------------
  // Movies played per actor and per year

  /** The per-year collector's containers, by release year. */
  type YearMap = map<int, map<Actor, int>>

  /**
   * MovieV2: `groupingBy(releaseYear, Collector.of(HashMap::new, acc, comb))`
   * run sequentially. The accumulator increments, for each cast member in
   * iteration order, a counter created at zero. There is a container for
   * exactly the release years.
   */
  function YearMaps(movies: seq<Movie>, casts: seq<seq<Actor>>): (r: YearMap)
    requires |casts| == |movies|
    ensures forall y :: y in r <==> exists i | 0 <= i < |movies| :: movies[i].releaseYear == y
  {
    if |movies| == 0 then map[]
    else
      var n := |movies| - 1;
      var ym := YearMaps(movies[..n], casts[..n]);
      var y := movies[n].releaseYear;
      assert forall i | 0 <= i < n :: movies[..n][i] == movies[i];
      ym[y := IncrementEach(if y in ym then ym[y] else map[], casts[n])]
  }

  /**
   * The accumulator adds one to the counter of every cast member, creating
   * it at one, and leaves every other counter alone.
   */
  lemma YearAccumulator(row: map<Actor, int>, m: Movie, cast: seq<Actor>)
    requires Enumerates(cast, m.actors)
    ensures IncrementEach(row, cast).Keys == row.Keys + m.actors
    ensures forall a | a in m.actors :: IncrementEach(row, cast)[a] == Get(row, a) + 1
    ensures forall a | a in row && a !in m.actors :: IncrementEach(row, cast)[a] == row[a]
  {
    EnumeratesElements(cast, m.actors);
    IncrementEachIsBump(row, cast);
  }

  /**
   * A year is present exactly when some movie was released in it, and its
   * counter for an actor is the number of that year's movies casting the
   * actor, present exactly when positive.
   */
  lemma {:induction false} YearMapsSpec(movies: seq<Movie>, casts: seq<seq<Actor>>)
    requires CastOrders(movies, casts)
    ensures forall y :: y in YearMaps(movies, casts) <==> exists i | 0 <= i < |movies| :: movies[i].releaseYear == y
    ensures forall y, a | y in YearMaps(movies, casts) :: a in YearMaps(movies, casts)[y] <==> MoviesWithIn(movies, y, a) > 0
    ensures forall y, a | y in YearMaps(movies, casts) && a in YearMaps(movies, casts)[y] :: YearMaps(movies, casts)[y][a] == MoviesWithIn(movies, y, a)
  {
    if |movies| > 0 {
      var n := |movies| - 1;
      var init := movies[..n];
      assert CastOrders(init, casts[..n]);
      YearMapsSpec(init, casts[..n]);
      assert forall i | 0 <= i < n :: init[i] == movies[i];
      var ym := YearMaps(init, casts[..n]);
      var y := movies[n].releaseYear;
      var row := if y in ym then ym[y] else map[];
      YearAccumulator(row, movies[n], casts[n]);
      forall y', a | y' !in ym
        ensures MoviesWithIn(init, y', a) == 0
      {
        MoviesWithInPositive(init, y', a);
      }
      YearMapsStep(movies, casts);
    }
  }

  /** The inductive step of `YearMapsSpec`, on the counters. */
  lemma YearMapsStep(movies: seq<Movie>, casts: seq<seq<Actor>>)
    requires CastOrders(movies, casts) && |movies| > 0
    requires
      var n := |movies| - 1;
      var ym := YearMaps(movies[..n], casts[..n]);
      && (forall y, a | y in ym :: a in ym[y] <==> MoviesWithIn(movies[..n], y, a) > 0)
      && (forall y, a | y in ym && a in ym[y] :: ym[y][a] == MoviesWithIn(movies[..n], y, a))
      && (forall y | y !in ym :: forall a :: MoviesWithIn(movies[..n], y, a) == 0)
    ensures forall y, a | y in YearMaps(movies, casts) :: a in YearMaps(movies, casts)[y] <==> MoviesWithIn(movies, y, a) > 0
    ensures forall y, a | y in YearMaps(movies, casts) && a in YearMaps(movies, casts)[y] :: YearMaps(movies, casts)[y][a] == MoviesWithIn(movies, y, a)
  {
    var n := |movies| - 1;
    var ym := YearMaps(movies[..n], casts[..n]);
    var y := movies[n].releaseYear;
    var row := if y in ym then ym[y] else map[];
    YearAccumulator(row, movies[n], casts[n]);
    var full := YearMaps(movies, casts);
    assert full == ym[y := IncrementEach(row, casts[n])];
    forall y', a | y' in full
      ensures a in full[y'] <==> MoviesWithIn(movies, y', a) > 0
      ensures a in full[y'] ==> full[y'][a] == MoviesWithIn(movies, y', a)
    {
      assert MoviesWithIn(movies, y', a) == MoviesWithIn(movies[..n], y', a) + (if y == y' && a in movies[n].actors then 1 else 0);
      if y' != y {
        assert y' in ym && full[y'] == ym[y'];
      }
    }
  }

  /**
   * MovieV2's "actor that played in the greatest number of movies during a
   * year": the two-level maximum over the per-year counters. Either `get()`
   * fails on an empty corpus or an empty year container; otherwise the
   * result is a stored counter of a release year that no counter exceeds.
   */
  function BestActorYear(movies: seq<Movie>, casts: seq<seq<Actor>>, yearOrder: seq<int>, rowOrders: map<int, seq<Actor>>): (r: Option<(int, Actor, int)>)
    requires |casts| == |movies|
    requires NestedOrders(YearMaps(movies, casts), yearOrder, rowOrders)
    ensures r.None? <==> |movies| == 0 || exists y | y in YearMaps(movies, casts) :: YearMaps(movies, casts)[y] == map[]
    ensures r.Some? ==>
      && (exists i | 0 <= i < |movies| :: movies[i].releaseYear == r.value.0)
      && r.value.1 in YearMaps(movies, casts)[r.value.0]
      && r.value.2 == YearMaps(movies, casts)[r.value.0][r.value.1]
    ensures r.Some? ==> forall y, a | y in YearMaps(movies, casts) && a in YearMaps(movies, casts)[y] :: YearMaps(movies, casts)[y][a] <= r.value.2
  {
    assert |movies| > 0 ==> movies[0].releaseYear in YearMaps(movies, casts);
    assert |movies| == 0 ==> YearMaps(movies, casts) == map[];
    NestedMaxIsMax(YearMaps(movies, casts), yearOrder, rowOrders);
    NestedMax(YearMaps(movies, casts), yearOrder, rowOrders)
  }

  /** No actor played in the release year of movie `i`: all that year's casts are empty. */
  ghost predicate EmptyYear(movies: seq<Movie>, i: int)
    requires 0 <= i < |movies|
  {
    forall a :: MoviesWithIn(movies, movies[i].releaseYear, a) == 0
  }

  /**
   * `get()` fails on an empty corpus, and also as soon as one year's movies
   * have no cast at all: that year's empty container reaches the inner
   * `get()`, whether or not the year would have won.
   */
  lemma BestActorYearFails(movies: seq<Movie>, casts: seq<seq<Actor>>, yearOrder: seq<int>, rowOrders: map<int, seq<Actor>>)
    requires CastOrders(movies, casts)
    requires NestedOrders(YearMaps(movies, casts), yearOrder, rowOrders)
    ensures BestActorYear(movies, casts, yearOrder, rowOrders).None? <==> |movies| == 0 || exists i | 0 <= i < |movies| :: EmptyYear(movies, i)
  {
    var ym := YearMaps(movies, casts);
    YearMapsSpec(movies, casts);
    if |movies| > 0 {
      assert movies[0].releaseYear in ym;
    }
    if exists y | y in ym :: ym[y] == map[] {
      var y :| y in ym && ym[y] == map[];
      var i :| 0 <= i < |movies| && movies[i].releaseYear == y;
      YearEmpty(movies, casts, i);
      assert EmptyYear(movies, i);
    }
    if exists i | 0 <= i < |movies| :: EmptyYear(movies, i) {
      var i :| 0 <= i < |movies| && EmptyYear(movies, i);
      YearEmpty(movies, casts, i);
      assert ym[movies[i].releaseYear] == map[];
    }
  }

  /** The reported (year, actor, n) has `n` equal to the number of that year's movies casting that actor. */
  lemma BestActorYearSpec(movies: seq<Movie>, casts: seq<seq<Actor>>, yearOrder: seq<int>, rowOrders: map<int, seq<Actor>>)
    requires CastOrders(movies, casts)
    requires NestedOrders(YearMaps(movies, casts), yearOrder, rowOrders)
    ensures
      var r := BestActorYear(movies, casts, yearOrder, rowOrders);
      r.Some? ==> r.value.2 == MoviesWithIn(movies, r.value.0, r.value.1)
  {
    YearMapsSpec(movies, casts);
  }

  /** No actor is cast in more movies of one year than the reported count. */
  lemma BestActorYearIsMax(movies: seq<Movie>, casts: seq<seq<Actor>>, yearOrder: seq<int>, rowOrders: map<int, seq<Actor>>)
    requires CastOrders(movies, casts)
    requires NestedOrders(YearMaps(movies, casts), yearOrder, rowOrders)
    ensures
      var r := BestActorYear(movies, casts, yearOrder, rowOrders);
      r.Some? ==> forall y, a :: MoviesWithIn(movies, y, a) <= r.value.2
  {
    var ym := YearMaps(movies, casts);
    var r := BestActorYear(movies, casts, yearOrder, rowOrders);
    if r.Some? {
      BestActorYearSpec(movies, casts, yearOrder, rowOrders);
      assert r.value.2 >= 0;
      forall y, a
        ensures MoviesWithIn(movies, y, a) <= r.value.2
      {
        if MoviesWithIn(movies, y, a) > 0 {
          YearMapsHolds(movies, casts, y, a);
          NestedMaxBound(ym, yearOrder, rowOrders, y, a);
        }
      }
    }
  }

  /** An actor counted in a year has that count stored under the year. */
  lemma YearMapsHolds(movies: seq<Movie>, casts: seq<seq<Actor>>, y: int, a: Actor)
    requires CastOrders(movies, casts)
    requires MoviesWithIn(movies, y, a) > 0
    ensures y in YearMaps(movies, casts) && a in YearMaps(movies, casts)[y]
    ensures YearMaps(movies, casts)[y][a] == MoviesWithIn(movies, y, a)
  {
    YearMapsSpec(movies, casts);
    MoviesWithInPositive(movies, y, a);
    var i :| 0 <= i < |movies| && movies[i].releaseYear == y && a in movies[i].actors;
  }

  /** A year's container is empty exactly when no actor played in that year. */
  lemma YearEmpty(movies: seq<Movie>, casts: seq<seq<Actor>>, i: int)
    requires CastOrders(movies, casts)
    requires 0 <= i < |movies|
    ensures movies[i].releaseYear in YearMaps(movies, casts)
    ensures YearMaps(movies, casts)[movies[i].releaseYear] == map[] ==> forall a :: MoviesWithIn(movies, movies[i].releaseYear, a) == 0
    ensures YearMaps(movies, casts)[movies[i].releaseYear] != map[] ==> exists a :: MoviesWithIn(movies, movies[i].releaseYear, a) > 0
  {
    var ym := YearMaps(movies, casts);
    var y := movies[i].releaseYear;
    YearMapsSpec(movies, casts);
    assert y in ym;
    if ym[y] != map[] {
      var a :| a in ym[y];
      assert MoviesWithIn(movies, y, a) > 0;
    } else {
      forall a
        ensures MoviesWithIn(movies, y, a) == 0
      {
        assert a !in ym[y];
      }
    }
  }

  // ---------------------------------------------------------------------
  // Best year per actor (Movies)

  /** The release years of a stream of movies. */
  function Years(movies: seq<Movie>): (ys: seq<int>)
    ensures |ys| == |movies|
    ensures forall i | 0 <= i < |movies| :: ys[i] == movies[i].releaseYear
  {
    seq(|movies|, i requires 0 <= i < |movies| => movies[i].releaseYear)
  }

  /** `movies.stream().filter(m -> m.actors().contains(a))`. */
  function Casting(movies: seq<Movie>, a: Actor): (r: seq<Movie>)
    ensures forall m | m in r :: m in movies && a in m.actors
    ensures forall i | 0 <= i < |movies| && a in movies[i].actors :: movies[i] in r
  {
    if |movies| == 0 then []
    else
      var init := movies[..|movies| - 1];
      var m := movies[|movies| - 1];
      assert forall i | 0 <= i < |init| :: init[i] == movies[i];
      Casting(init, a) + (if a in m.actors then [m] else [])
  }

  /** The movies casting `a`, counted by release year. */
  function YearsOf(movies: seq<Movie>, a: Actor): map<int, int> {
    Histogram(Years(Casting(movies, a)))
  }

  /** A release year occurs in the filtered stream once per movie of that year casting `a`. */
  lemma {:induction false} YearsOfOccurrences(movies: seq<Movie>, a: Actor, y: int)
    ensures Occurrences(Years(Casting(movies, a)), y) == MoviesWithIn(movies, y, a)
  {
    if |movies| > 0 {
      var n := |movies| - 1;
      var m := movies[n];
      var front := Casting(movies[..n], a);
      var back: seq<Movie> := if a in m.actors then [m] else [];
      YearsOfOccurrences(movies[..n], a, y);
      YearsAppend(front, back);
      OccurrencesAppend(Years(front), Years(back), y);
      LastYearCount(m, a, y);
    }
  }

  /** The years of two streams one after the other. */
  lemma YearsAppend(front: seq<Movie>, back: seq<Movie>)
    ensures Years(front + back) == Years(front) + Years(back)
  {
  }

  /** The last movie adds one occurrence of its year when it casts `a`, and nothing otherwise. */
  lemma LastYearCount(m: Movie, a: Actor, y: int)
    ensures Occurrences(Years(if a in m.actors then [m] else []), y) == if m.releaseYear == y && a in m.actors then 1 else 0
  {
    var back: seq<Movie> := if a in m.actors then [m] else [];
    if a in m.actors {
      assert Years(back) == [m.releaseYear];
      assert Years(back)[..0] == [];
    } else {
      assert Years(back) == [];
    }
  }

  /** The per-actor year counts: every year the actor played in, with the number of movies. */
  lemma YearsOfSpec(movies: seq<Movie>, a: Actor)
    ensures forall y :: y in YearsOf(movies, a) <==> MoviesWithIn(movies, y, a) > 0
    ensures forall y | y in YearsOf(movies, a) :: YearsOf(movies, a)[y] == MoviesWithIn(movies, y, a)
  {
    forall y
      ensures y in YearsOf(movies, a) <==> MoviesWithIn(movies, y, a) > 0
      ensures y in YearsOf(movies, a) ==> YearsOf(movies, a)[y] == MoviesWithIn(movies, y, a)
    {
      YearsOfOccurrences(movies, a, y);
    }
  }

  /** `toMap(identity(), actor -> year counts)` over `actors`. */
  function ActorYears(movies: seq<Movie>, actors: set<Actor>): map<Actor, map<int, int>> {
    map a | a in actors :: YearsOf(movies, a)
  }

  /**
   * Movies' "actor that played in the greatest number of movies during a
   * year": either `get()` fails on no actors or an actor without a year;
   * otherwise the reported n is the reported actor's movies in the
   * reported year.
   */
  function BestYearPerActor(movies: seq<Movie>, actors: set<Actor>, actorOrder: seq<Actor>, yearOrders: map<Actor, seq<int>>): (r: Option<(Actor, int, int)>)
    requires NestedOrders(ActorYears(movies, actors), actorOrder, yearOrders)
    ensures r.None? <==> actors == {} || exists a | a in actors :: YearsOf(movies, a) == map[]
    ensures r.Some? ==> r.value.0 in actors && r.value.2 == MoviesWithIn(movies, r.value.1, r.value.0) > 0
  {
    var t := ActorYears(movies, actors);
    var r := NestedMax(t, actorOrder, yearOrders);
    assert t.Keys == actors;
    if r.Some? then
      YearsOfSpec(movies, r.value.0);
      r
    else r
  }

  /**
   * Over the actors of the corpus no inner `get()` fails, since every such
   * actor played in some year; the reported (actor, year, n) has `n` equal
   * to that actor's movies in that year, and nobody reaches more in any year.
   */
  lemma BestYearPerActorSpec(movies: seq<Movie>, actorOrder: seq<Actor>, yearOrders: map<Actor, seq<int>>)
    requires NestedOrders(ActorYears(movies, AllActors(movies)), actorOrder, yearOrders)
    ensures forall a | a in AllActors(movies) :: YearsOf(movies, a) != map[]
    ensures
      var r := BestYearPerActor(movies, AllActors(movies), actorOrder, yearOrders);
      && (r.None? <==> AllActors(movies) == {})
      && (r.Some? ==> r.value.2 == MoviesWithIn(movies, r.value.1, r.value.0))
      && (r.Some? ==> forall a, y :: MoviesWithIn(movies, y, a) <= r.value.2)
  {
    ActorsHaveYears(movies);
    BestYearPerActorIsMax(movies, actorOrder, yearOrders);
  }

  /** Every actor of the corpus played in some year. */
  lemma ActorsHaveYears(movies: seq<Movie>)
    ensures forall a | a in AllActors(movies) :: YearsOf(movies, a) != map[]
  {
    forall a | a in AllActors(movies)
      ensures YearsOf(movies, a) != map[]
    {
      var i :| 0 <= i < |movies| && a in movies[i].actors;
      MoviesWithInPositive(movies, movies[i].releaseYear, a);
      YearsOfSpec(movies, a);
      assert movies[i].releaseYear in YearsOf(movies, a);
    }
  }

  /** Nobody reaches more movies in any year than the reported count. */
  lemma BestYearPerActorIsMax(movies: seq<Movie>, actorOrder: seq<Actor>, yearOrders: map<Actor, seq<int>>)
    requires NestedOrders(ActorYears(movies, AllActors(movies)), actorOrder, yearOrders)
    ensures
      var r := BestYearPerActor(movies, AllActors(movies), actorOrder, yearOrders);
      r.Some? ==> forall a, y :: MoviesWithIn(movies, y, a) <= r.value.2
  {
    var actors := AllActors(movies);
    var t := ActorYears(movies, actors);
    var r := BestYearPerActor(movies, actors, actorOrder, yearOrders);
    if r.Some? {
      NestedMaxIsMax(t, actorOrder, yearOrders);
      forall a, y
        ensures MoviesWithIn(movies, y, a) <= r.value.2
      {
        MoviesWithInPositive(movies, y, a);
        if MoviesWithIn(movies, y, a) > 0 {
          YearsOfSpec(movies, a);
          var i :| 0 <= i < |movies| && movies[i].releaseYear == y && a in movies[i].actors;
          assert a in t && y in t[a];
        }
      }
    }
  }

  /** When both succeed, MovieV2's per-year pipeline and Movies' per-actor one report the same count. */
  lemma SameBestCount(movies: seq<Movie>, casts: seq<seq<Actor>>, yearOrder: seq<int>, rowOrders: map<int, seq<Actor>>,
                      actorOrder: seq<Actor>, yearOrders: map<Actor, seq<int>>)
    requires CastOrders(movies, casts)
    requires NestedOrders(YearMaps(movies, casts), yearOrder, rowOrders)
    requires NestedOrders(ActorYears(movies, AllActors(movies)), actorOrder, yearOrders)
    ensures
      var r1 := BestActorYear(movies, casts, yearOrder, rowOrders);
      var r2 := BestYearPerActor(movies, AllActors(movies), actorOrder, yearOrders);
      r1.Some? && r2.Some? ==> r1.value.2 == r2.value.2
  {
    var r1 := BestActorYear(movies, casts, yearOrder, rowOrders);
    var r2 := BestYearPerActor(movies, AllActors(movies), actorOrder, yearOrders);
    if r1.Some? && r2.Some? {
      BestActorYearSpec(movies, casts, yearOrder, rowOrders);
      BestActorYearIsMax(movies, casts, yearOrder, rowOrders);
      BestYearPerActorSpec(movies, actorOrder, yearOrders);
      var n1 := MoviesWithIn(movies, r1.value.0, r1.value.1);
      var n2 := MoviesWithIn(movies, r2.value.1, r2.value.0);
      assert r1.value.2 == n1 && r2.value.2 == n2;
      assert n1 <= r2.value.2;
      assert n2 <= r1.value.2;
    }
  }

  // ---------------------------------------------------------------------
  // Years and histograms (Movies)

  /** `map(releaseYear).collect(toSet()).size()`: never more years than movies, and none only without movies. */
  function DistinctYears(movies: seq<Movie>): (n: nat)
    ensures n <= |movies|
    ensures n == 0 <==> |movies| == 0
  {
    var ys := Years(movies);
    if |movies| > 0 then
      assert ys[0] in Elements(ys);
      |Elements(ys)|
    else
      |Elements(ys)|
  }

  function Min(a: int, b: int): int {
    if a <= b then a else b
  }

  function Max(a: int, b: int): int {
    if a >= b then a else b
  }

  /**
   * `mapToInt(releaseYear).summaryStatistics()`: (min, max), starting from
   * `Integer.MAX_VALUE` and `Integer.MIN_VALUE`, so an empty corpus reports
   * a minimum above its maximum.
   */
  function YearRange(movies: seq<Movie>): (r: (int, int))
    ensures |movies| == 0 ==> r == (IntMax, IntMin)
    ensures forall i | 0 <= i < |movies| :: r.0 <= movies[i].releaseYear <= r.1
    ensures r.0 == IntMax || exists i | 0 <= i < |movies| :: movies[i].releaseYear == r.0
    ensures r.1 == IntMin || exists i | 0 <= i < |movies| :: movies[i].releaseYear == r.1
  {
    if |movies| == 0 then (IntMax, IntMin)
    else
      var n := |movies| - 1;
      var init := movies[..n];
      assert forall i | 0 <= i < n :: init[i] == movies[i];
      var r := YearRange(init);
      (Min(r.0, movies[n].releaseYear), Max(r.1, movies[n].releaseYear))
  }

  /** On a non-empty corpus of 32-bit years both ends of the range are actual release years. */
  lemma YearRangeAttained(movies: seq<Movie>)
    requires |movies| > 0
    requires forall i | 0 <= i < |movies| :: IntMin <= movies[i].releaseYear <= IntMax
    ensures exists i | 0 <= i < |movies| :: movies[i].releaseYear == YearRange(movies).0
    ensures exists i | 0 <= i < |movies| :: movies[i].releaseYear == YearRange(movies).1
    ensures YearRange(movies).0 <= YearRange(movies).1
  {
    var r := YearRange(movies);
    assert r.0 <= movies[0].releaseYear <= r.1;
  }

  /** The cast sizes of a stream of movies. */
  function CastSizes(movies: seq<Movie>): (ns: seq<int>)
    ensures |ns| == |movies|
    ensures forall i | 0 <= i < |movies| :: ns[i] == |movies[i].actors|
  {
    seq(|movies|, i requires 0 <= i < |movies| => |movies[i].actors|)
  }

  /**
   * `groupingBy(m -> m.actors().size(), counting())`: every cast size that
   * occurs, counted; the counts add up to the number of movies.
   */
  function CastSizeCounts(movies: seq<Movie>): (h: map<int, int>)
    ensures forall n | n in h :: exists i | 0 <= i < |movies| :: |movies[i].actors| == n
    ensures forall i | 0 <= i < |movies| :: |movies[i].actors| in h
    ensures Total(h) == |movies|
  {
    var sizes := CastSizes(movies);
    HistogramTotal(sizes);
    Histogram(sizes)
  }

  /**
   * `groupingBy(releaseYear, counting())`: every release year, counted;
   * the counts add up to the number of movies.
   */
  function YearCounts(movies: seq<Movie>): (h: map<int, int>)
    ensures forall y | y in h :: exists i | 0 <= i < |movies| :: movies[i].releaseYear == y
    ensures forall i | 0 <= i < |movies| :: movies[i].releaseYear in h
    ensures Total(h) == |movies|
  {
    var ys := Years(movies);
    HistogramTotal(ys);
    Histogram(ys)
  }

  /** How many movies were released in `year`: the reference the year histogram is measured against. */
  function ReleasedIn(movies: seq<Movie>, year: int): nat {
    if |movies| == 0 then 0
    else ReleasedIn(movies[..|movies| - 1], year) + (if movies[|movies| - 1].releaseYear == year then 1 else 0)
  }

  /** How many movies have a cast of exactly `n` actors. */
  function SizedAs(movies: seq<Movie>, n: int): nat {
    if |movies| == 0 then 0
    else SizedAs(movies[..|movies| - 1], n) + (if |movies[|movies| - 1].actors| == n then 1 else 0)
  }

  /** A year occurs in the year stream once per movie released in it. */
  lemma {:induction false} YearsOccurrences(movies: seq<Movie>, y: int)
    ensures Occurrences(Years(movies), y) == ReleasedIn(movies, y)
  {
    if |movies| > 0 {
      var n := |movies| - 1;
      YearsOccurrences(movies[..n], y);
      assert Years(movies)[..n] == Years(movies[..n]);
    }
  }

  /** A size occurs in the cast-size stream once per movie with a cast that large. */
  lemma {:induction false} CastSizesOccurrences(movies: seq<Movie>, n: int)
    ensures Occurrences(CastSizes(movies), n) == SizedAs(movies, n)
  {
    if |movies| > 0 {
      var k := |movies| - 1;
      CastSizesOccurrences(movies[..k], n);
      assert CastSizes(movies)[..k] == CastSizes(movies[..k]);
    }
  }

  /** Each year of the histogram counts the movies released in it, and no year without movies is a key. */
  lemma YearCountsSpec(movies: seq<Movie>)
    ensures forall y :: y in YearCounts(movies) <==> ReleasedIn(movies, y) > 0
    ensures forall y | y in YearCounts(movies) :: YearCounts(movies)[y] == ReleasedIn(movies, y)
  {
    forall y
      ensures y in YearCounts(movies) <==> ReleasedIn(movies, y) > 0
      ensures y in YearCounts(movies) ==> YearCounts(movies)[y] == ReleasedIn(movies, y)
    {
      YearsOccurrences(movies, y);
    }
  }

  /** Each size of the histogram counts the movies with a cast that large, and no other size is a key. */
  lemma CastSizeCountsSpec(movies: seq<Movie>)
    ensures forall n :: n in CastSizeCounts(movies) <==> SizedAs(movies, n) > 0
    ensures forall n | n in CastSizeCounts(movies) :: CastSizeCounts(movies)[n] == SizedAs(movies, n)
  {
    forall n
      ensures n in CastSizeCounts(movies) <==> SizedAs(movies, n) > 0
      ensures n in CastSizeCounts(movies) ==> CastSizeCounts(movies)[n] == SizedAs(movies, n)
    {
      CastSizesOccurrences(movies, n);
    }
  }

  /** The number of distinct release years is the number of keys of the year histogram. */
  lemma DistinctYearsAreKeys(movies: seq<Movie>)
    ensures DistinctYears(movies) == |YearCounts(movies)|
  {
    assert Elements(Years(movies)) == YearCounts(movies).Keys;
  }

  /**
   * "Year with the greatest number of movies released": the `max` over the
   * year histogram in its iteration order `order`. `None` is the `get()`
   * failure on an empty corpus.
   */
  function BusiestYear(movies: seq<Movie>, order: seq<int>): (r: Option<int>)
    requires Enumerates(order, YearCounts(movies).Keys)
    ensures r.None? <==> |movies| == 0
    ensures r.Some? ==> ReleasedIn(movies, r.value) > 0
    ensures r.Some? ==> forall y :: ReleasedIn(movies, y) <= ReleasedIn(movies, r.value)
  {
    BusiestYearNone(movies, order);
    BusiestYearIsMax(movies, order);
    MaxEntry(YearCounts(movies), order)
  }

  /** No year is selected exactly when there are no movies. */
  lemma BusiestYearNone(movies: seq<Movie>, order: seq<int>)
    requires Enumerates(order, YearCounts(movies).Keys)
    ensures MaxEntry(YearCounts(movies), order).None? <==> |movies| == 0
  {
    YearCountsEmpty(movies);
  }

  /** The selected year's count is positive and bounds every year's count. */
  lemma BusiestYearIsMax(movies: seq<Movie>, order: seq<int>)
    requires Enumerates(order, YearCounts(movies).Keys)
    ensures
      var r := MaxEntry(YearCounts(movies), order);
      r.Some? ==> ReleasedIn(movies, r.value) > 0 && forall y :: ReleasedIn(movies, y) <= ReleasedIn(movies, r.value)
  {
    if MaxEntry(YearCounts(movies), order).Some? {
      forall y
        ensures ReleasedIn(movies, y) <= ReleasedIn(movies, MaxEntry(YearCounts(movies), order).value)
      {
        BusiestYearBound(movies, order, y);
      }
      BusiestYearBound(movies, order, MaxEntry(YearCounts(movies), order).value);
    }
  }

  /** There are no year counts exactly when there are no movies. */
  lemma YearCountsEmpty(movies: seq<Movie>)
    ensures YearCounts(movies) == map[] <==> |movies| == 0
  {
    if |movies| > 0 {
      assert movies[0].releaseYear in YearCounts(movies);
    }
  }

  /** One year at a time: its count is no more than the selected year's, which is positive. */
  lemma BusiestYearBound(movies: seq<Movie>, order: seq<int>, y: int)
    requires Enumerates(order, YearCounts(movies).Keys)
    requires MaxEntry(YearCounts(movies), order).Some?
    ensures ReleasedIn(movies, y) <= ReleasedIn(movies, MaxEntry(YearCounts(movies), order).value)
    ensures ReleasedIn(movies, MaxEntry(YearCounts(movies), order).value) > 0
  {
    var ys := Years(movies);
    var best := MaxEntry(YearCounts(movies), order).value;
    HistogramMax(ys, order);
    assert Occurrences(ys, y) <= Occurrences(ys, best);
    assert best in YearCounts(movies);
    YearsOccurrences(movies, y);
    YearsOccurrences(movies, best);
  }

  /**
   * The "movie in which the greatest number of actors have played" as the
   * code computes it: the `max` over the cast-size histogram by count, that
   * is the most COMMON cast size, not the largest one.
   */
  function CommonestCastSize(movies: seq<Movie>, order: seq<int>): (r: Option<int>)
    requires Enumerates(order, CastSizeCounts(movies).Keys)
    ensures r.None? <==> |movies| == 0
    ensures r.Some? ==> SizedAs(movies, r.value) > 0
    ensures r.Some? ==> forall n :: SizedAs(movies, n) <= SizedAs(movies, r.value)
  {
    CommonestCastSizeNone(movies, order);
    CommonestCastSizeIsMax(movies, order);
    MaxEntry(CastSizeCounts(movies), order)
  }

  /** No size is selected exactly when there are no movies. */
  lemma CommonestCastSizeNone(movies: seq<Movie>, order: seq<int>)
    requires Enumerates(order, CastSizeCounts(movies).Keys)
    ensures MaxEntry(CastSizeCounts(movies), order).None? <==> |movies| == 0
  {
    CastSizeCountsEmpty(movies);
  }

  /** The selected size's count is positive and bounds every size's count. */
  lemma CommonestCastSizeIsMax(movies: seq<Movie>, order: seq<int>)
    requires Enumerates(order, CastSizeCounts(movies).Keys)
    ensures
      var r := MaxEntry(CastSizeCounts(movies), order);
      r.Some? ==> SizedAs(movies, r.value) > 0 && forall n :: SizedAs(movies, n) <= SizedAs(movies, r.value)
  {
    if MaxEntry(CastSizeCounts(movies), order).Some? {
      forall n
        ensures SizedAs(movies, n) <= SizedAs(movies, MaxEntry(CastSizeCounts(movies), order).value)
      {
        CommonestCastSizeBound(movies, order, n);
      }
      CommonestCastSizeBound(movies, order, MaxEntry(CastSizeCounts(movies), order).value);
    }
  }

  /** There are no cast-size counts exactly when there are no movies. */
  lemma CastSizeCountsEmpty(movies: seq<Movie>)
    ensures CastSizeCounts(movies) == map[] <==> |movies| == 0
  {
    if |movies| > 0 {
      assert |movies[0].actors| in CastSizeCounts(movies);
    }
  }

  /** One size at a time: its count is no more than the selected size's, which is positive. */
  lemma CommonestCastSizeBound(movies: seq<Movie>, order: seq<int>, n: int)
    requires Enumerates(order, CastSizeCounts(movies).Keys)
    requires MaxEntry(CastSizeCounts(movies), order).Some?
    ensures SizedAs(movies, n) <= SizedAs(movies, MaxEntry(CastSizeCounts(movies), order).value)
    ensures SizedAs(movies, MaxEntry(CastSizeCounts(movies), order).value) > 0
  {
    var ns := CastSizes(movies);
    var best := MaxEntry(CastSizeCounts(movies), order).value;
    HistogramMax(ns, order);
    assert Occurrences(ns, n) <= Occurrences(ns, best);
    assert best in CastSizeCounts(movies);
    CastSizesOccurrences(movies, n);
    CastSizesOccurrences(movies, best);
  }

  /**
   * Two one-actor movies and one two-actor movie: the code reports the cast
   * size 1, although a movie with two actors exists.
   */
  lemma CommonestCastSizeIsNotLargest(movies: seq<Movie>, order: seq<int>)
    requires |movies| == 3
    requires |movies[0].actors| == 1 && |movies[1].actors| == 1 && |movies[2].actors| == 2
    requires Enumerates(order, CastSizeCounts(movies).Keys)
    ensures CommonestCastSize(movies, order) == Some(1)
    ensures LargestCast(movies) == Some(movies[2])
  {
    SampleSizes(movies);
    SampleLargest(movies);
  }

  /** In the sample two movies have one actor and every other size is shared by at most one movie. */
  lemma SampleSizes(movies: seq<Movie>)
    requires |movies| == 3
    requires |movies[0].actors| == 1 && |movies[1].actors| == 1 && |movies[2].actors| == 2
    ensures SizedAs(movies, 1) == 2
    ensures forall n | n != 1 :: SizedAs(movies, n) <= 1
  {
    var m1, m2 := movies[..1], movies[..2];
    assert m2[..1] == m1 && m2[1] == movies[1];
    assert m1[..0] == [] && m1[0] == movies[0];
    forall n
      ensures SizedAs(movies, n) == SizedAs(m1, n) + (if |movies[1].actors| == n then 1 else 0) + (if |movies[2].actors| == n then 1 else 0)
      ensures SizedAs(m1, n) == if |movies[0].actors| == n then 1 else 0
    {
      assert SizedAs(movies, n) == SizedAs(m2, n) + (if |movies[2].actors| == n then 1 else 0);
      assert SizedAs(m2, n) == SizedAs(m1, n) + (if |movies[1].actors| == n then 1 else 0);
    }
  }

  /** In the sample the last movie has the largest cast. */
  lemma SampleLargest(movies: seq<Movie>)
    requires |movies| == 3
    requires |movies[0].actors| == 1 && |movies[1].actors| == 1 && |movies[2].actors| == 2
    ensures LargestCast(movies) == Some(movies[2])
  {
    var ns := CastSizes(movies);
    assert ns[..2][..1] == ns[..1];
    assert MaxIndex(ns[..1]) == Some(0);
    assert MaxIndex(ns[..2]) == Some(0);
  }

  /**
   * The movie with the largest cast, as the message describes it:
   * `movies.stream().max(comparing(m -> m.actors().size()))`, which keeps
   * the first of several equally large casts.
   */
  function LargestCast(movies: seq<Movie>): (r: Option<Movie>)
    ensures r.None? <==> |movies| == 0
    ensures r.Some? ==> r.value in movies
    ensures r.Some? ==> forall i | 0 <= i < |movies| :: |movies[i].actors| <= |r.value.actors|
  {
    match MaxIndex(CastSizes(movies))
    case None => None
    case Some(i) => Some(movies[i])
  }

  /** The largest cast's size is the greatest key of the cast-size histogram. */
  lemma LargestCastIsLargestKey(movies: seq<Movie>)
    ensures LargestCast(movies).Some? ==> |LargestCast(movies).value.actors| in CastSizeCounts(movies)
    ensures LargestCast(movies).Some? ==> forall n | n in CastSizeCounts(movies) :: n <= |LargestCast(movies).value.actors|
  {
    var r := LargestCast(movies);
    if r.Some? {
      CastSizeCountsSpec(movies);
      var i :| 0 <= i < |movies| && movies[i] == r.value;
      assert |movies[i].actors| in CastSizeCounts(movies);
      forall n | n in CastSizeCounts(movies)
        ensures n <= |r.value.actors|
      {
        var j :| 0 <= j < |movies| && |movies[j].actors| == n;
      }
    }
  }
}
