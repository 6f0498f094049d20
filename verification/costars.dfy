/**
 * The "most seen actor duo" computation of MovieV3.
 *
 * The key actors are streamed in comparator order. The accumulator of
 * `collect` takes one actor `a`, looks at every movie casting `a`, and for
 * each cast member `b` that sorts strictly after `a` bumps the counter
 * `map[a][b]`. The combiner merges partial maps by adding counters. The
 * result is read by two nested `max` reductions.
 *
 * The counter of a new pair is created as `new AtomicLong(1L)` and then
 * incremented for the hit that created it, so a pair sharing `k` movies is
 * stored as `k + 1`; the model keeps that.
 */
module CoStars {
  import opened Wrappers
  import opened Counting
  import opened Corpus

  /** The partner counters of one actor: `Map<Actor, AtomicLong>`. */
  type Row = map<Actor, int>

  /** `Map<Actor, Map<Actor, AtomicLong>>`: each pair is stored under the actor that sorts first. */
  type Relation = map<Actor, Row>

  /** The row stored under `a`, or the empty row. */
  function RowOf(rel: Relation, a: Actor): Row {
    if a in rel then rel[a] else map[]
  }

  /** `keyActors.tailSet(a, false)`: the key actors that sort strictly after `a`. */
  function TailSet(keys: set<Actor>, a: Actor): set<Actor> {
    set b | b in keys && Before(a, b)
  }

  /** `keys` listed in ascending comparator order, each once. */
  predicate Ascending(ks: seq<Actor>) {
    forall i, j | 0 <= i < j < |ks| :: Before(ks[i], ks[j])
  }

  // ---------------------------------------------------------------------
  // The accumulator

  /**
   * One hit on partner `b` in the owner's row:
   * `computeIfAbsent(b, x -> new AtomicLong(1L)).incrementAndGet()`, so a
   * new counter holds 2 after its first hit.
   */
  function HitRow(row: Row, b: Actor): (r: Row)
    ensures r.Keys == row.Keys + {b}
    ensures r[b] == if b in row then row[b] + 1 else 2
    ensures forall c | c in row && c != b :: r[c] == row[c]
  {
    row[b := (if b in row then row[b] else 1) + 1]
  }

  /** The hits of one movie on the owner's row, in the iteration order of its cast. */
  function HitAll(row: Row, partners: seq<Actor>): Row {
    if |partners| == 0 then row
    else HitRow(HitAll(row, partners[..|partners| - 1]), partners[|partners| - 1])
  }

  /**
   * `after` is `before` after one hit on every partner of `partners`: a
   * present counter goes up by one, a new one holds 2, the rest is kept.
   */
  predicate RaisedBy(before: Row, after: Row, partners: set<Actor>) {
    && after.Keys == before.Keys + partners
    && (forall b | b in partners :: after[b] == if b in before then before[b] + 1 else 2)
    && (forall b | b in before && b !in partners :: after[b] == before[b])
  }

  /** A row after one hit on every partner of `partners`. */
  function RaiseRow(row: Row, partners: set<Actor>): (r: Row)
    ensures RaisedBy(row, r, partners)
  {
    map b | b in row.Keys + partners :: (if b in row then row[b] else 1) + (if b in partners then 1 else 0)
  }

  /** No owner is stored with an empty row. */
  predicate NoEmptyRow(rel: Relation) {
    forall a | a in rel :: rel[a] != map[]
  }

  /**
   * What the accumulator does with one movie for actor `a`: nothing unless
   * the movie casts `a`; otherwise one hit on each cast member of `tail`.
   * The outer key is created only when there is a partner.
   */
  function AddMovie(rel: Relation, a: Actor, m: Movie, tail: set<Actor>): (r: Relation)
    ensures forall k | k in rel && k != a :: k in r && r[k] == rel[k]
    ensures r.Keys == rel.Keys + (if a in m.actors && m.actors * tail != {} then {a} else {})
    ensures RaisedBy(RowOf(rel, a), RowOf(r, a), if a in m.actors then m.actors * tail else {})
    ensures NoEmptyRow(rel) ==> NoEmptyRow(r)
  {
    if a !in m.actors then rel
    else
      var partners := m.actors * tail;
      if partners == {} then rel else rel[a := RaiseRow(RowOf(rel, a), partners)]
  }

  /**
   * The accumulator lambda for actor `a` over the whole movie stream. It
   * writes no outer key but `a`.
   */
  function Accumulate(rel: Relation, a: Actor, movies: seq<Movie>, tail: set<Actor>): (r: Relation)
    ensures forall k | k in rel && k != a :: k in r && r[k] == rel[k]
    ensures forall k | k in r && k != a :: k in rel
    ensures NoEmptyRow(rel) ==> NoEmptyRow(r)
  {
    if |movies| == 0 then rel
    else AddMovie(Accumulate(rel, a, movies[..|movies| - 1], tail), a, movies[|movies| - 1], tail)
  }

  /** The accumulator applied to the actors of a shard, in encounter order. */
  function AccumulateAll(rel: Relation, shard: seq<Actor>, movies: seq<Movie>, keys: set<Actor>): (r: Relation)
    ensures forall k | k in rel && k !in shard :: k in r && r[k] == rel[k]
    ensures forall k | k in r :: k in rel || k in shard
    ensures NoEmptyRow(rel) ==> NoEmptyRow(r)
  {
    if |shard| == 0 then rel
    else
      var a := shard[|shard| - 1];
      Accumulate(AccumulateAll(rel, shard[..|shard| - 1], movies, keys), a, movies, TailSet(keys, a))
  }

  /** A fresh container from the supplier, filled with one shard of key actors. */
  function Reduce(shard: seq<Actor>, movies: seq<Movie>, keys: set<Actor>): (r: Relation)
    ensures forall k | k in r :: k in shard
    ensures NoEmptyRow(r)
  {
    AccumulateAll(map[], shard, movies, keys)
  }

  // ---------------------------------------------------------------------
  // The combiner

  /** The counter of the pair (`a`, `b`), or zero when there is none. */
  function Count(rel: Relation, a: Actor, b: Actor): int {
    Get(RowOf(rel, a), b)
  }

  /**
   * Two relations are equal when they have the same owners, the same
   * partners per owner, and the same counters.
   */
  lemma RelationsEqual(x: Relation, y: Relation)
    requires x.Keys == y.Keys
    requires forall a | a in x :: x[a].Keys == y[a].Keys
    requires forall a, b | a in x && b in x[a] :: x[a][b] == y[a][b]
    ensures x == y
  {
    forall a | a in x
      ensures x[a] == y[a]
    {
      assert forall b | b in x[a] :: x[a][b] == y[a][b];
    }
  }

  /**
   * The combiner of `collect`: every row of `r2` is merged into the row of
   * the same actor in `r1` (created empty if missing) by adding counters.
   */
  function Combine(r1: Relation, r2: Relation): (r: Relation)
    ensures r.Keys == r1.Keys + r2.Keys
    ensures forall a | a in r :: r[a].Keys == RowOf(r1, a).Keys + RowOf(r2, a).Keys
    ensures forall a, b | a in r && b in r[a] :: r[a][b] == Count(r1, a, b) + Count(r2, a, b)
  {
    map a | a in r1.Keys + r2.Keys :: SumMerge(RowOf(r1, a), RowOf(r2, a))
  }

  /** The empty relation, the supplier's result, is an identity of the combiner. */
  lemma CombineIdentity(r: Relation)
    ensures Combine(r, map[]) == r
    ensures Combine(map[], r) == r
  {
    CombineRightIdentity(r);
    CombineLeftIdentity(r);
  }

  /** Combining with the empty relation on the right. */
  lemma CombineRightIdentity(r: Relation)
    ensures Combine(r, map[]) == r
  {
    var c := Combine(r, map[]);
    forall a | a in r
      ensures c[a] == r[a]
    {
      assert RowOf(r, a) == r[a];
      SumMergeIdentity(r[a]);
    }
    assert c.Keys == r.Keys;
  }

  /** Combining with the empty relation on the left. */
  lemma CombineLeftIdentity(r: Relation)
    ensures Combine(map[], r) == r
  {
    var c := Combine(map[], r);
    forall a | a in r
      ensures c[a] == r[a]
    {
      assert RowOf(r, a) == r[a];
      SumMergeIdentity(r[a]);
    }
    assert c.Keys == r.Keys;
  }

  /** The combiner is commutative. */
  lemma CombineCommutes(r1: Relation, r2: Relation)
    ensures Combine(r1, r2) == Combine(r2, r1)
  {
    RelationsEqual(Combine(r1, r2), Combine(r2, r1));
  }

  /** A combined row is the sum of the two rows, present or not. */
  lemma RowOfCombine(r1: Relation, r2: Relation, a: Actor)
    ensures RowOf(Combine(r1, r2), a) == SumMerge(RowOf(r1, a), RowOf(r2, a))
  {
    if a !in r1 && a !in r2 {
      SumMergeIdentity<Actor>(map[]);
    }
  }

  /** The combiner is associative, so partial results may be merged in any tree shape. */
  lemma CombineAssociates(r1: Relation, r2: Relation, r3: Relation)
    ensures Combine(r1, Combine(r2, r3)) == Combine(Combine(r1, r2), r3)
  {
    var left := Combine(r1, Combine(r2, r3));
    var right := Combine(Combine(r1, r2), r3);
    assert left.Keys == r1.Keys + r2.Keys + r3.Keys == right.Keys;
    forall a | a in left
      ensures left[a] == right[a]
    {
      CombineAssociatesAt(r1, r2, r3, a);
      assert RowOf(left, a) == left[a];
      assert RowOf(right, a) == right[a];
    }
  }

  /** Associativity, one owner's row at a time. */
  lemma CombineAssociatesAt(r1: Relation, r2: Relation, r3: Relation, a: Actor)
    ensures RowOf(Combine(r1, Combine(r2, r3)), a) == RowOf(Combine(Combine(r1, r2), r3), a)
  {
    RowOfCombine(r1, Combine(r2, r3), a);
    RowOfCombine(r2, r3, a);
    RowOfCombine(Combine(r1, r2), r3, a);
    RowOfCombine(r1, r2, a);
    SumMergeAssociates(RowOf(r1, a), RowOf(r2, a), RowOf(r3, a));
  }

  /** Partial results with disjoint owners combine into their plain union. */
  lemma CombineDisjoint(r1: Relation, r2: Relation)
    requires r1.Keys !! r2.Keys
    ensures Combine(r1, r2) == r1 + r2
  {
    RelationsEqual(Combine(r1, r2), r1 + r2);
  }

  // ---------------------------------------------------------------------
  // What the reduction computes

  /** The row owner `a` should get: each partner in `tail` sharing a movie, counted from 1. */
  function ExpectedRow(movies: seq<Movie>, a: Actor, tail: set<Actor>): Row {
    map b | b in tail && Shared(movies, a, b) > 0 :: Shared(movies, a, b) + 1
  }

  /** The non-empty expected rows of `owners`. */
  function ExpectedRows(movies: seq<Movie>, owners: set<Actor>, keys: set<Actor>): Relation {
    map a | a in owners && ExpectedRow(movies, a, TailSet(keys, a)) != map[] :: ExpectedRow(movies, a, TailSet(keys, a))
  }

  /** Adding one owner puts that owner's expected row. */
  lemma ExpectedRowsAdd(movies: seq<Movie>, owners: set<Actor>, a: Actor, keys: set<Actor>)
    requires a !in owners
    ensures ExpectedRows(movies, owners + {a}, keys) == Put(ExpectedRows(movies, owners, keys), a, ExpectedRow(movies, a, TailSet(keys, a)))
  {
  }

  /** The relation the owners of `owners` should build: only non-empty rows are present. */
  function Expected(movies: seq<Movie>, owners: set<Actor>, keys: set<Actor>): (r: Relation)
    ensures r.Keys <= owners
    ensures NoEmptyRow(r)
    ensures forall a, b | a in r && b in r[a] :: b in keys && Before(a, b) && Shared(movies, a, b) > 0 && r[a][b] == Shared(movies, a, b) + 1
    ensures forall a, b | a in owners && b in keys && Before(a, b) && Shared(movies, a, b) > 0 :: a in r && b in r[a]
  {
    assert forall a, b | a in owners && b in keys && Before(a, b) && Shared(movies, a, b) > 0 :: b in ExpectedRow(movies, a, TailSet(keys, a));
    ExpectedRows(movies, owners, keys)
  }

  /** Stores `row` under `a` unless it is empty. */
  function Put(rel: Relation, a: Actor, row: Row): Relation {
    if row == map[] then rel else rel[a := row]
  }

  /** A row raised by no partner is unchanged. */
  lemma RaiseRowNothing(row: Row)
    ensures RaiseRow(row, {}) == row
  {
  }

  /** Raising by one more partner is one more hit. */
  lemma RaiseRowOneMore(row: Row, partners: set<Actor>, b: Actor)
    requires b !in partners
    ensures RaiseRow(row, partners + {b}) == HitRow(RaiseRow(row, partners), b)
  {
    var l := RaiseRow(row, partners + {b});
    var r := HitRow(RaiseRow(row, partners), b);
    assert l.Keys == r.Keys;
    forall x | x in l
      ensures l[x] == r[x]
    {
    }
  }

  /**
   * The hits of one movie, taken one by one in any iteration order of the
   * partner set, amount to raising the row by the whole set at once.
   */
  lemma {:induction false} HitAllIsRaise(row: Row, partners: seq<Actor>)
    requires Distinct(partners)
    ensures HitAll(row, partners) == RaiseRow(row, Elements(partners))
  {
    if |partners| == 0 {
      RaiseRowNothing(row);
    } else {
      var init := partners[..|partners| - 1];
      var b := partners[|partners| - 1];
      LastIsNew(partners);
      HitAllIsRaise(row, init);
      RaiseRowOneMore(row, Elements(init), b);
      assert Elements(partners) == Elements(init) + {b};
    }
  }

  /**
   * `AddMovie` is the accumulator's loop over one movie's cast, in
   * whichever order the cast set is iterated: the owner's row is created
   * on the first hit, and every partner is hit once.
   */
  lemma AddMovieIsHits(rel: Relation, a: Actor, m: Movie, tail: set<Actor>, order: seq<Actor>)
    requires a in m.actors
    requires Enumerates(order, m.actors * tail)
    ensures AddMovie(rel, a, m, tail) == if |order| == 0 then rel else rel[a := HitAll(RowOf(rel, a), order)]
  {
    EnumeratesElements(order, m.actors * tail);
    if |order| > 0 {
      HitAllIsRaise(RowOf(rel, a), order);
      AddMovieRaises(rel, a, m, tail);
    }
  }

  /** A movie casting `a` with some partner stores `a`'s row raised by those partners. */
  lemma AddMovieRaises(rel: Relation, a: Actor, m: Movie, tail: set<Actor>)
    requires a in m.actors && m.actors * tail != {}
    ensures AddMovie(rel, a, m, tail) == rel[a := RaiseRow(RowOf(rel, a), m.actors * tail)]
  {
  }

  /** One more movie raises the expected row by the movie's partners, if it casts `a`. */
  lemma ExpectedRowStep(movies: seq<Movie>, a: Actor, tail: set<Actor>)
    requires |movies| > 0
    ensures
      var m := movies[|movies| - 1];
      var before := ExpectedRow(movies[..|movies| - 1], a, tail);
      ExpectedRow(movies, a, tail) == if a in m.actors then RaiseRow(before, m.actors * tail) else before
  {
  }

  /** The accumulator for `a` builds exactly the expected row, stored only when non-empty. */
  lemma {:induction false} AccumulateRow(rel: Relation, a: Actor, movies: seq<Movie>, tail: set<Actor>)
    requires a !in rel
    ensures Accumulate(rel, a, movies, tail) == Put(rel, a, ExpectedRow(movies, a, tail))
  {
    if |movies| > 0 {
      var init := movies[..|movies| - 1];
      AccumulateRow(rel, a, init, tail);
      ExpectedRowStep(movies, a, tail);
      AddMoviePut(rel, a, movies[|movies| - 1], tail, ExpectedRow(init, a, tail));
    }
  }

  /** One movie on a relation holding the row `row` for `a` (absent when empty) raises that row. */
  lemma AddMoviePut(rel: Relation, a: Actor, m: Movie, tail: set<Actor>, row: Row)
    requires a !in rel
    ensures AddMovie(Put(rel, a, row), a, m, tail) == Put(rel, a, if a in m.actors then RaiseRow(row, m.actors * tail) else row)
  {
    assert RowOf(Put(rel, a, row), a) == row;
    if a in m.actors && m.actors * tail != {} {
      var b :| b in m.actors * tail;
      assert b in RaiseRow(row, m.actors * tail);
    } else if a in m.actors {
      RaiseRowNothing(row);
    }
  }

  /** Adding one owner to the expected relation puts that owner's row. */
  lemma ExpectedAdd(movies: seq<Movie>, owners: set<Actor>, a: Actor, keys: set<Actor>)
    requires a !in owners
    ensures Expected(movies, owners + {a}, keys) == Put(Expected(movies, owners, keys), a, ExpectedRow(movies, a, TailSet(keys, a)))
  {
    ExpectedRowsAdd(movies, owners, a, keys);
  }

  /** Putting a row after a union is putting it into the right operand. */
  lemma PutUnion(rel: Relation, e: Relation, a: Actor, row: Row)
    ensures Put(rel + e, a, row) == rel + Put(e, a, row)
  {
  }

  /**
   * Folding the accumulator over a shard of distinct actors adds, for each
   * of them, its expected row when that row is non-empty.
   */
  lemma {:induction false} AccumulateAllSpec(rel: Relation, shard: seq<Actor>, movies: seq<Movie>, keys: set<Actor>)
    requires Distinct(shard)
    requires forall i | 0 <= i < |shard| :: shard[i] !in rel
    ensures AccumulateAll(rel, shard, movies, keys) == rel + Expected(movies, Elements(shard), keys)
  {
    if |shard| == 0 {
      assert Expected(movies, {}, keys) == map[];
    } else {
      var init := shard[..|shard| - 1];
      var a := shard[|shard| - 1];
      var e := Expected(movies, Elements(init), keys);
      var row := ExpectedRow(movies, a, TailSet(keys, a));
      AccumulateAllSpec(rel, init, movies, keys);
      LastIsNew(shard);
      assert a !in e;
      AccumulateRow(rel + e, a, movies, TailSet(keys, a));
      ExpectedAdd(movies, Elements(init), a, keys);
      assert Elements(shard) == Elements(init) + {a};
      PutUnion(rel, e, a, row);
    }
  }

  /** A shard's partial result holds exactly its actors' expected rows. */
  lemma ReduceSpec(shard: seq<Actor>, movies: seq<Movie>, keys: set<Actor>)
    requires Distinct(shard)
    ensures Reduce(shard, movies, keys) == Expected(movies, Elements(shard), keys)
  {
    AccumulateAllSpec(map[], shard, movies, keys);
  }

  /** The expected relation of a union of owners is the union of the expected relations. */
  lemma ExpectedUnion(movies: seq<Movie>, xs: set<Actor>, ys: set<Actor>, keys: set<Actor>)
    ensures Expected(movies, xs + ys, keys) == Expected(movies, xs, keys) + Expected(movies, ys, keys)
    ensures Expected(movies, xs, keys).Keys <= xs
  {
  }

  /**
   * Splitting the key actors into two shards, reducing each and combining
   * the results gives the sequential result: the parallel `collect` is
   * independent of how the stream is split.
   */
  lemma ReduceSplit(xs: seq<Actor>, ys: seq<Actor>, movies: seq<Movie>, keys: set<Actor>)
    requires Distinct(xs + ys)
    ensures Combine(Reduce(xs, movies, keys), Reduce(ys, movies, keys)) == Reduce(xs + ys, movies, keys)
  {
    DistinctSplit(xs, ys);
    ReduceSpec(xs, movies, keys);
    ReduceSpec(ys, movies, keys);
    ReduceSpec(xs + ys, movies, keys);
    ExpectedUnion(movies, Elements(xs), Elements(ys), keys);
    ExpectedUnion(movies, Elements(ys), Elements(xs), keys);
    CombineDisjoint(Expected(movies, Elements(xs), keys), Expected(movies, Elements(ys), keys));
  }

  // ---------------------------------------------------------------------
  // The reduction over the whole cast

  /**
   * Reducing all actors of the corpus stores each co-starring pair exactly
   * under the actor that sorts first, with the quirky count `shared + 1`,
   * and stores no empty row.
   */
  lemma CoStarPairs(ks: seq<Actor>, movies: seq<Movie>)
    requires Distinct(ks) && Elements(ks) == AllActors(movies)
    ensures
      var r := Reduce(ks, movies, Elements(ks));
      && (forall a, b :: (a in r && b in r[a]) <==> Before(a, b) && Shared(movies, a, b) > 0)
      && (forall a, b | a in r && b in r[a] :: r[a][b] == Shared(movies, a, b) + 1)
      && (forall a | a in r :: r[a] != map[])
  {
    var keys := Elements(ks);
    var r := Reduce(ks, movies, keys);
    ReduceSpec(ks, movies, keys);
    forall a, b | Before(a, b) && Shared(movies, a, b) > 0
      ensures a in r && b in r[a]
    {
      SharedPositive(movies, a, b);
      var i :| 0 <= i < |movies| && a in movies[i].actors && b in movies[i].actors;
      assert a in keys && b in keys;
      assert b in ExpectedRow(movies, a, TailSet(keys, a));
    }
  }

  /**
   * Each pair of distinct co-stars is stored once: under one of the two
   * actors and never also in the mirrored position; no actor is paired with
   * itself.
   */
  lemma CoStarOrientation(ks: seq<Actor>, movies: seq<Movie>)
    requires Distinct(ks) && Elements(ks) == AllActors(movies)
    ensures
      var r := Reduce(ks, movies, Elements(ks));
      && (forall a | a in r :: a !in r[a])
      && (forall a, b | a in r && b in r[a] :: !(b in r && a in r[b]))
      && (forall a, b | a != b && Shared(movies, a, b) > 0 :: (a in r && b in r[a]) || (b in r && a in r[b]))
  {
    var r := Reduce(ks, movies, Elements(ks));
    CoStarPairs(ks, movies);
    forall a, b | a != b && Shared(movies, a, b) > 0
      ensures (a in r && b in r[a]) || (b in r && a in r[b])
    {
      BeforeTotal(a, b);
      SharedSymmetric(movies, a, b);
    }
    forall a, b | a in r && b in r[a]
      ensures a != b && !(b in r && a in r[b])
    {
      BeforeTotal(a, b);
    }
  }

  /** An ascending list has no repetitions. */
  lemma AscendingDistinct(ks: seq<Actor>)
    requires Ascending(ks)
    ensures Distinct(ks)
  {
    forall i, j | 0 <= i < j < |ks|
      ensures ks[i] != ks[j]
    {
      BeforeTotal(ks[i], ks[j]);
    }
  }

  /** A non-empty set of actors has a least element. */
  lemma {:induction false} LeastExists(s: set<Actor>) returns (m: Actor)
    requires s != {}
    ensures m in s && forall x | x in s && x != m :: Before(m, x)
    decreases s
  {
    var x :| x in s;
    if s == {x} {
      m := x;
    } else {
      var m' := LeastExists(s - {x});
      BeforeTotal(x, m');
      if Before(x, m') {
        m := x;
        forall y | y in s && y != x
          ensures Before(x, y)
        {
          if y != m' {
            BeforeTransitive(x, m', y);
          }
        }
      } else {
        m := m';
      }
    }
  }

  /**
   * Part of `actors` listed in ascending order, the rest still to come,
   * every listed actor sorting before every remaining one.
   */
  predicate ListedBefore(actors: set<Actor>, ks: seq<Actor>, rest: set<Actor>) {
    && rest <= actors
    && (forall a | a in actors :: a in ks || a in rest)
    && (forall i | 0 <= i < |ks| :: ks[i] in actors && ks[i] !in rest)
    && Ascending(ks)
    && (forall i, b | 0 <= i < |ks| && b in rest :: Before(ks[i], b))
  }

  /** Moving the least remaining actor to the end of the list keeps the order. */
  lemma ListedStep(actors: set<Actor>, ks: seq<Actor>, rest: set<Actor>, m: Actor)
    requires ListedBefore(actors, ks, rest)
    requires m in rest && forall x | x in rest && x != m :: Before(m, x)
    ensures ListedBefore(actors, ks + [m], rest - {m})
  {
    var ks' := ks + [m];
    assert forall i | 0 <= i < |ks| :: ks'[i] == ks[i];
    assert ks'[|ks|] == m;
    forall i, j | 0 <= i < j < |ks'|
      ensures Before(ks'[i], ks'[j])
    {
      if j == |ks| {
        assert m in rest;
      }
    }
    forall i, b | 0 <= i < |ks'| && b in rest - {m}
      ensures Before(ks'[i], b)
    {
    }
  }

  /**
   * The key-actor set `new ConcurrentSkipListSet<>(comparator)` filled with
   * `actors` and streamed: every actor once, in ascending comparator order.
   */
  method KeyActors(actors: set<Actor>) returns (ks: seq<Actor>)
    ensures Ascending(ks)
    ensures Elements(ks) == actors
  {
    ks := [];
    var rest := actors;
    while rest != {}
      invariant ListedBefore(actors, ks, rest)
      decreases rest
    {
      ghost var least := LeastExists(rest);
      var m :| m in rest && forall x | x in rest && x != m :: Before(m, x);
      ListedStep(actors, ks, rest, m);
      ks := ks + [m];
      rest := rest - {m};
    }
  }

  // ---------------------------------------------------------------------
  // Reading the result

  /** The owners kept by the `filter`: those whose row is not empty. */
  function Owners(rel: Relation): set<Actor> {
    set a | a in rel && rel[a] != map[]
  }

  /** The relation restricted to the kept owners. */
  function Kept(rel: Relation): Relation {
    map a | a in Owners(rel) :: rel[a]
  }

  /** Iteration orders of the kept owners and of their rows (hash orders in the original). */
  predicate Orders(rel: Relation, ownerOrder: seq<Actor>, rowOrders: map<Actor, seq<Actor>>) {
    NestedOrders(Kept(rel), ownerOrder, rowOrders)
  }

  /**
   * "Most seen actor duo": the non-empty rows go through the two-level
   * maximum. `None` is the `NoSuchElementException` of the final `get()`,
   * which happens exactly when no row is kept.
   */
  function BestPair(rel: Relation, ownerOrder: seq<Actor>, rowOrders: map<Actor, seq<Actor>>): (r: Option<(Actor, Actor, int)>)
    requires Orders(rel, ownerOrder, rowOrders)
    ensures r.None? <==> Owners(rel) == {}
    ensures r.Some? ==> r.value.0 in rel && r.value.1 in rel[r.value.0] && r.value.2 == rel[r.value.0][r.value.1]
  {
    assert Owners(rel) == {} <==> Kept(rel) == map[] by {
      if Owners(rel) != {} {
        var a :| a in Owners(rel);
        assert a in Kept(rel);
      }
    }
    NestedMax(Kept(rel), ownerOrder, rowOrders)
  }

  /**
   * The reported pair's counter is the greatest of all counters; every
   * owner iterated before the reported one has only smaller counters, and so
   * has every partner iterated before the reported one in its row.
   */
  lemma BestPairIsMax(rel: Relation, ownerOrder: seq<Actor>, rowOrders: map<Actor, seq<Actor>>)
    requires Orders(rel, ownerOrder, rowOrders)
    ensures
      var r := BestPair(rel, ownerOrder, rowOrders);
      && (r.Some? ==> forall a, b | a in rel && b in rel[a] :: rel[a][b] <= r.value.2)
      && (r.Some? ==> forall i, j, b | 0 <= j < i < |ownerOrder| && ownerOrder[i] == r.value.0 && b in rel[ownerOrder[j]] :: rel[ownerOrder[j]][b] < r.value.2)
      && (r.Some? ==> forall i, j | 0 <= j < i < |rowOrders[r.value.0]| && rowOrders[r.value.0][i] == r.value.1 :: rel[r.value.0][rowOrders[r.value.0][j]] < r.value.2)
  {
    var k := Kept(rel);
    NestedMaxIsMax(k, ownerOrder, rowOrders);
    var r := BestPair(rel, ownerOrder, rowOrders);
    if r.Some? {
      forall a, b | a in rel && b in rel[a]
        ensures rel[a][b] <= r.value.2
      {
        assert a in k;
      }
      forall i, j, b | 0 <= j < i < |ownerOrder| && ownerOrder[i] == r.value.0 && b in rel[ownerOrder[j]]
        ensures rel[ownerOrder[j]][b] < r.value.2
      {
        assert ownerOrder[j] in k;
      }
    }
  }

  /** The relation stores exactly the ordered co-starring pairs, counted as `shared + 1`. */
  ghost predicate StoresPairs(rel: Relation, movies: seq<Movie>) {
    && (forall a, b :: (a in rel && b in rel[a]) <==> Before(a, b) && Shared(movies, a, b) > 0)
    && (forall a, b | a in rel && b in rel[a] :: rel[a][b] == Shared(movies, a, b) + 1)
  }

  /** Some row is kept exactly when two distinct actors share a movie. */
  lemma OwnersExist(rel: Relation, movies: seq<Movie>)
    requires StoresPairs(rel, movies)
    ensures Owners(rel) == {} <==> forall a, b | a != b :: Shared(movies, a, b) == 0
  {
    if Owners(rel) != {} {
      var a :| a in Owners(rel);
      var b :| b in rel[a];
      BeforeTotal(a, b);
      assert a != b && Shared(movies, a, b) > 0;
    }
    if !forall a, b | a != b :: Shared(movies, a, b) == 0 {
      var a, b :| a != b && Shared(movies, a, b) > 0;
      BeforeTotal(a, b);
      SharedSymmetric(movies, a, b);
      if Before(a, b) {
        assert b in rel[a];
        assert a in Owners(rel);
      } else {
        assert a in rel[b];
        assert b in Owners(rel);
      }
    }
  }

  /** Every pair of distinct actors shares at most as many movies as the stored maximum says. */
  lemma PairsBounded(rel: Relation, movies: seq<Movie>, n: int)
    requires StoresPairs(rel, movies)
    requires n >= 1
    requires forall a, b | a in rel && b in rel[a] :: rel[a][b] <= n
    ensures forall a, b | a != b :: Shared(movies, a, b) + 1 <= n
  {
    forall a, b | a != b
      ensures Shared(movies, a, b) + 1 <= n
    {
      BeforeTotal(a, b);
      SharedSymmetric(movies, a, b);
      if Shared(movies, a, b) > 0 {
        if Before(a, b) {
          assert a in rel && b in rel[a];
        } else {
          assert b in rel && a in rel[b];
        }
      }
    }
  }

  /**
   * The whole MovieV3 pipeline: the duo it reports shares the most movies
   * of any two distinct actors, is reported with the count `shared + 1`,
   * and the only failure is a corpus where no two actors ever meet.
   */
  lemma MostSeenDuo(ks: seq<Actor>, movies: seq<Movie>, ownerOrder: seq<Actor>, rowOrders: map<Actor, seq<Actor>>)
    requires Distinct(ks) && Elements(ks) == AllActors(movies)
    requires Orders(Reduce(ks, movies, Elements(ks)), ownerOrder, rowOrders)
    ensures
      var r := BestPair(Reduce(ks, movies, Elements(ks)), ownerOrder, rowOrders);
      && (r.None? <==> forall a, b | a != b :: Shared(movies, a, b) == 0)
      && (r.Some? ==> Before(r.value.0, r.value.1) && r.value.2 == Shared(movies, r.value.0, r.value.1) + 1)
      && (r.Some? ==> forall a, b | a != b :: Shared(movies, a, b) + 1 <= r.value.2)
  {
    var rel := Reduce(ks, movies, Elements(ks));
    var r := BestPair(rel, ownerOrder, rowOrders);
    CoStarPairs(ks, movies);
    assert StoresPairs(rel, movies);
    OwnersExist(rel, movies);
    BestPairIsMax(rel, ownerOrder, rowOrders);
    if r.Some? {
      assert Before(r.value.0, r.value.1);
      PairsBounded(rel, movies, r.value.2);
    }
  }
}
