/**
 * The corpus the movie pipelines read: `Actor` and `Movie` values with
 * structural equality, the actor order of the key-actor set, and the counts
 * every aggregation is measured against.
 *
 * A `Set<Movie>` is streamed in some order; here it is a `seq<Movie>` in that
 * order, without repetitions wherever a set is meant.
 */
module Corpus {
  import opened Strings

  datatype Actor = Actor(lastName: string, firstName: string)

  datatype Movie = Movie(title: string, releaseYear: int, actors: set<Actor>)

  /**
   * `Comparator.comparing(Actor::lastName).thenComparing(Actor::firstName)`:
   * the last names decide unless they are equal.
   */
  function CompareActors(a: Actor, b: Actor): (r: int)
    ensures r == 0 <==> a == b
    ensures a.lastName != b.lastName ==> r == CompareTo(a.lastName, b.lastName)
    ensures a.lastName == b.lastName ==> r == CompareTo(a.firstName, b.firstName)
  {
    var c := CompareTo(a.lastName, b.lastName);
    if c != 0 then c else CompareTo(a.firstName, b.firstName)
  }

  /** `a` sorts strictly before `b` in the key-actor set. */
  predicate Before(a: Actor, b: Actor) {
    CompareActors(a, b) < 0
  }

  /** No actor sorts before itself, and of two distinct actors exactly one sorts first. */
  lemma BeforeTotal(a: Actor, b: Actor)
    ensures !Before(a, a)
    ensures Before(a, b) ==> !Before(b, a)
    ensures a != b ==> Before(a, b) || Before(b, a)
  {
    CompareToAntisymmetric(a.lastName, b.lastName);
    CompareToAntisymmetric(a.firstName, b.firstName);
  }

  /** The order is transitive. */
  lemma BeforeTransitive(a: Actor, b: Actor, c: Actor)
    requires Before(a, b) && Before(b, c)
    ensures Before(a, c)
  {
    if CompareTo(a.lastName, b.lastName) < 0 && CompareTo(b.lastName, c.lastName) < 0 {
      CompareToTransitive(a.lastName, b.lastName, c.lastName);
    } else if CompareTo(a.lastName, b.lastName) == 0 && CompareTo(b.lastName, c.lastName) == 0 {
      CompareToTransitive(a.firstName, b.firstName, c.firstName);
    }
  }

  /** `a` is in the cast of some movie of the corpus. */
  predicate Appears(movies: seq<Movie>, a: Actor) {
    exists i | 0 <= i < |movies| :: a in movies[i].actors
  }

  /** `movies.stream().flatMap(m -> m.actors().stream()).collect(toSet())`. */
  function AllActors(movies: seq<Movie>): (r: set<Actor>)
    ensures forall a | a in r :: Appears(movies, a)
    ensures forall i, a | 0 <= i < |movies| && a in movies[i].actors :: a in r
  {
    if |movies| == 0 then {}
    else
      var init := movies[..|movies| - 1];
      assert forall i | 0 <= i < |init| :: init[i] == movies[i];
      AllActors(init) + movies[|movies| - 1].actors
  }

  /** The number of movies whose cast contains `a`. */
  function MoviesWith(movies: seq<Movie>, a: Actor): nat {
    if |movies| == 0 then 0
    else MoviesWith(movies[..|movies| - 1], a) + (if a in movies[|movies| - 1].actors then 1 else 0)
  }

  /** The number of movies whose cast contains both `a` and `b`. */
  function Shared(movies: seq<Movie>, a: Actor, b: Actor): nat {
    if |movies| == 0 then 0
    else
      var m := movies[|movies| - 1];
      Shared(movies[..|movies| - 1], a, b) + (if a in m.actors && b in m.actors then 1 else 0)
  }

  /** The number of movies released in `year` whose cast contains `a`. */
  function MoviesWithIn(movies: seq<Movie>, year: int, a: Actor): nat {
    if |movies| == 0 then 0
    else
      var m := movies[|movies| - 1];
      MoviesWithIn(movies[..|movies| - 1], year, a) + (if m.releaseYear == year && a in m.actors then 1 else 0)
  }

  /** An actor is counted in some movie exactly when the actor appears in the corpus. */
  lemma {:induction false} MoviesWithPositive(movies: seq<Movie>, a: Actor)
    ensures MoviesWith(movies, a) > 0 <==> Appears(movies, a)
  {
    if |movies| > 0 {
      var init := movies[..|movies| - 1];
      MoviesWithPositive(init, a);
      assert forall i | 0 <= i < |init| :: init[i] == movies[i];
    }
  }

  /** Two actors share a movie exactly when some movie casts them both. */
  lemma {:induction false} SharedPositive(movies: seq<Movie>, a: Actor, b: Actor)
    ensures Shared(movies, a, b) > 0 <==> exists i | 0 <= i < |movies| :: a in movies[i].actors && b in movies[i].actors
  {
    if |movies| > 0 {
      var init := movies[..|movies| - 1];
      SharedPositive(init, a, b);
      assert forall i | 0 <= i < |init| :: init[i] == movies[i];
    }
  }

  /** Sharing a movie is symmetric. */
  lemma {:induction false} SharedSymmetric(movies: seq<Movie>, a: Actor, b: Actor)
    ensures Shared(movies, a, b) == Shared(movies, b, a)
  {
    if |movies| > 0 {
      SharedSymmetric(movies[..|movies| - 1], a, b);
    }
  }

  /** An actor is counted in a year exactly when some movie of that year casts the actor. */
  lemma {:induction false} MoviesWithInPositive(movies: seq<Movie>, year: int, a: Actor)
    ensures MoviesWithIn(movies, year, a) > 0 <==> exists i | 0 <= i < |movies| :: movies[i].releaseYear == year && a in movies[i].actors
  {
    if |movies| > 0 {
      var init := movies[..|movies| - 1];
      MoviesWithInPositive(init, year, a);
      assert forall i | 0 <= i < |init| :: init[i] == movies[i];
    }
  }

  /** No year counts more movies of an actor than the whole corpus does. */
  lemma {:induction false} MoviesWithInBound(movies: seq<Movie>, year: int, a: Actor)
    ensures MoviesWithIn(movies, year, a) <= MoviesWith(movies, a)
  {
    if |movies| > 0 {
      MoviesWithInBound(movies[..|movies| - 1], year, a);
    }
  }
}
