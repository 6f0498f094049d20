/**
 * The collector vocabulary the stream pipelines share: counter maps
 * (`Map<K, Long>` / `Map<K, AtomicLong>`), `groupingBy(f, counting())`,
 * `groupingBy(f)` into lists, `toSet().size()`, the pointwise-sum combiner,
 * and `Stream.max`, whose tie-break keeps the first maximal element.
 *
 * A stream over a hash-based collection has an order the Java code does not
 * control; wherever that order matters it is an explicit `seq` parameter
 * that `Enumerates` the collection.
 */
module Counting {
  import opened Wrappers

  /** The counter stored under `k`, or zero when there is none. */
  function Get<K>(m: map<K, int>, k: K): int {
    if k in m then m[k] else 0
  }

  /** No element of `xs` occurs twice. */
  predicate Distinct<T(==)>(xs: seq<T>) {
    forall i, j | 0 <= i < j < |xs| :: xs[i] != xs[j]
  }

  /** `order` lists every key of `keys` exactly once: an iteration order. */
  predicate Enumerates<K>(order: seq<K>, keys: set<K>) {
    && Distinct(order)
    && (forall i | 0 <= i < |order| :: order[i] in keys)
    && (forall k | k in keys :: k in order)
  }

  /** The set of elements of a stream: `collect(Collectors.toSet())`. */
  function Elements<T>(xs: seq<T>): (s: set<T>)
    ensures forall x | x in s :: x in xs
    ensures forall x | x in xs :: x in s
    ensures |s| <= |xs|
  {
    if |xs| == 0 then {}
    else
      var init := xs[..|xs| - 1];
      assert xs == init + [xs[|xs| - 1]];
      Elements(init) + {xs[|xs| - 1]}
  }

  /** An iteration order of a set has exactly the set's elements. */
  lemma EnumeratesElements<K>(order: seq<K>, keys: set<K>)
    requires Enumerates(order, keys)
    ensures Elements(order) == keys
    ensures |order| == 0 <==> keys == {}
  {
    if |order| > 0 {
      assert order[0] in keys;
    }
  }

  /** The two halves of a stream without repetitions have none and share no element. */
  lemma DistinctSplit<T>(xs: seq<T>, ys: seq<T>)
    requires Distinct(xs + ys)
    ensures Distinct(xs) && Distinct(ys)
    ensures Elements(xs) !! Elements(ys)
    ensures Elements(xs + ys) == Elements(xs) + Elements(ys)
  {
    var zs := xs + ys;
    forall i, j | 0 <= i < j < |xs|
      ensures xs[i] != xs[j]
    {
      assert xs[i] == zs[i] && xs[j] == zs[j];
    }
    forall i, j | 0 <= i < j < |ys|
      ensures ys[i] != ys[j]
    {
      assert ys[i] == zs[|xs| + i] && ys[j] == zs[|xs| + j];
    }
    forall i, j | 0 <= i < |xs| && 0 <= j < |ys|
      ensures xs[i] != ys[j]
    {
      assert xs[i] == zs[i] && ys[j] == zs[|xs| + j];
    }
  }

  /** How many elements of `ks` equal `k`. */
  function Occurrences<K(==)>(ks: seq<K>, k: K): (n: nat)
    ensures n <= |ks|
    ensures n > 0 <==> k in ks
  {
    if |ks| == 0 then 0
    else
      var init := ks[..|ks| - 1];
      assert ks == init + [ks[|ks| - 1]];
      Occurrences(init, k) + (if ks[|ks| - 1] == k then 1 else 0)
  }

  /** Counting in a concatenation is counting in each part. */
  lemma {:induction false} OccurrencesAppend<K>(xs: seq<K>, ys: seq<K>, k: K)
    ensures Occurrences(xs + ys, k) == Occurrences(xs, k) + Occurrences(ys, k)
  {
    if |ys| > 0 {
      var zs := xs + ys;
      assert zs[..|zs| - 1] == xs + ys[..|ys| - 1];
      OccurrencesAppend(xs, ys[..|ys| - 1], k);
    } else {
      assert xs + ys == xs;
    }
  }

  /** In a stream without repetitions every element occurs once. */
  lemma {:induction false} OccurrencesDistinct<K>(xs: seq<K>, k: K)
    requires Distinct(xs)
    ensures Occurrences(xs, k) == if k in xs then 1 else 0
  {
    if |xs| > 0 {
      var init := xs[..|xs| - 1];
      assert Distinct(init);
      OccurrencesDistinct(init, k);
      LastIsNew(xs);
      assert xs == init + [xs[|xs| - 1]];
    }
  }

  /** A stream without repetitions has as many elements as its set. */
  lemma {:induction false} DistinctCard<K>(xs: seq<K>)
    requires Distinct(xs)
    ensures |Elements(xs)| == |xs|
  {
    if |xs| > 0 {
      var init := xs[..|xs| - 1];
      assert Distinct(init);
      DistinctCard(init);
      LastIsNew(xs);
    }
  }

  /** A subset is no larger than its superset. */
  lemma {:induction false} SubsetCard<T>(a: set<T>, b: set<T>)
    requires a <= b
    ensures |a| <= |b|
    decreases a
  {
    if a != {} {
      if forall x :: x !in a {
        assert false;
      }
      var x :| x in a;
      SubsetCard(a - {x}, b - {x});
    }
  }

  /** The concatenation of a stream of streams: `flatMap`. */
  function Flatten<T>(xss: seq<seq<T>>): (r: seq<T>)
    ensures forall i, x | 0 <= i < |xss| && x in xss[i] :: x in r
    ensures forall x | x in r :: exists i | 0 <= i < |xss| :: x in xss[i]
  {
    if |xss| == 0 then []
    else
      var init := xss[..|xss| - 1];
      assert forall i | 0 <= i < |init| :: init[i] == xss[i];
      Flatten(init) + xss[|xss| - 1]
  }

  /**
   * `groupingBy(key, counting())` over a stream whose keys are `ks`, in
   * encounter order: each element bumps the counter of its key.
   */
  function Histogram<K>(ks: seq<K>): (h: map<K, int>)
    ensures forall k | k in h :: k in ks
    ensures forall k | k in ks :: k in h
    ensures forall k | k in h :: h[k] == Occurrences(ks, k)
  {
    if |ks| == 0 then map[]
    else
      var init := ks[..|ks| - 1];
      var k := ks[|ks| - 1];
      assert ks == init + [k];
      var h := Histogram(init);
      h[k := Get(h, k) + 1]
  }

  /** The sum of all counters of a map. */
  ghost function Total<K>(m: map<K, int>): int
    decreases m.Keys
  {
    if m.Keys == {} then 0
    else
      var k :| k in m;
      m[k] + Total(m - {k})
  }

  /** The sum does not depend on which key is taken out first. */
  lemma {:induction false} TotalRemove<K>(m: map<K, int>, k: K)
    requires k in m
    ensures Total(m) == m[k] + Total(m - {k})
    decreases m.Keys
  {
    var k' :| k' in m && Total(m) == m[k'] + Total(m - {k'});
    if k' != k {
      TotalRemove(m - {k'}, k);
      TotalRemove(m - {k}, k');
      assert (m - {k'}) - {k} == (m - {k}) - {k'};
    }
  }

  /** Incrementing one counter (creating it at zero) adds one to the sum. */
  lemma TotalIncrement<K>(m: map<K, int>, k: K)
    ensures Total(m[k := Get(m, k) + 1]) == Total(m) + 1
  {
    var m' := m[k := Get(m, k) + 1];
    TotalRemove(m', k);
    if k in m {
      TotalRemove(m, k);
      assert m' - {k} == m - {k};
    } else {
      assert m' - {k} == m;
    }
  }

  /** The counts of a histogram add up to the number of stream elements. */
  lemma {:induction false} HistogramTotal<K>(ks: seq<K>)
    ensures Total(Histogram(ks)) == |ks|
  {
    if |ks| > 0 {
      HistogramTotal(ks[..|ks| - 1]);
      TotalIncrement(Histogram(ks[..|ks| - 1]), ks[|ks| - 1]);
    }
  }

  /** Adds one to the counter of every key of `s`, creating missing counters at zero. */
  function Bump<K>(m: map<K, int>, s: set<K>): map<K, int> {
    map k | k in m.Keys + s :: Get(m, k) + (if k in s then 1 else 0)
  }

  /**
   * `forEach(k -> map.computeIfAbsent(k, a -> new AtomicLong()).incrementAndGet())`
   * over the keys `ks`, one at a time.
   */
  function IncrementEach<K>(m: map<K, int>, ks: seq<K>): map<K, int> {
    if |ks| == 0 then m
    else
      var m' := IncrementEach(m, ks[..|ks| - 1]);
      m'[ks[|ks| - 1] := Get(m', ks[|ks| - 1]) + 1]
  }

  /** Incrementing the elements of a set one by one, in any order, is `Bump`. */
  lemma {:induction false} IncrementEachIsBump<K>(m: map<K, int>, ks: seq<K>)
    requires forall i, j | 0 <= i < j < |ks| :: ks[i] != ks[j]
    ensures IncrementEach(m, ks) == Bump(m, Elements(ks))
  {
    if |ks| == 0 {
      assert Bump(m, {}) == m;
    } else {
      var init := ks[..|ks| - 1];
      var k := ks[|ks| - 1];
      IncrementEachIsBump(m, init);
      LastIsNew(ks);
      IncrementEachStep(m, ks, Elements(init));
      assert Elements(ks) == Elements(init) + {k};
    }
  }

  /** The inductive step of `IncrementEachIsBump`. */
  lemma IncrementEachStep<K>(m: map<K, int>, ks: seq<K>, s: set<K>)
    requires |ks| > 0 && ks[|ks| - 1] !in s
    requires IncrementEach(m, ks[..|ks| - 1]) == Bump(m, s)
    ensures IncrementEach(m, ks) == Bump(m, s + {ks[|ks| - 1]})
  {
    BumpOneMore(m, s, ks[|ks| - 1]);
  }

  /** In a sequence without repetitions the last element is not among the others. */
  lemma LastIsNew<K>(ks: seq<K>)
    requires |ks| > 0
    requires forall i, j | 0 <= i < j < |ks| :: ks[i] != ks[j]
    ensures ks[|ks| - 1] !in Elements(ks[..|ks| - 1])
  {
  }

  /** Bumping one more key is one more increment. */
  lemma BumpOneMore<K>(m: map<K, int>, s: set<K>, k: K)
    requires k !in s
    ensures Bump(m, s + {k}) == Bump(m, s)[k := Get(Bump(m, s), k) + 1]
  {
    var b := Bump(m, s);
    var l := b[k := Get(b, k) + 1];
    var r := Bump(m, s + {k});
    assert r.Keys == l.Keys;
    forall x | x in r
      ensures r[x] == l[x]
    {
    }
  }

  /** Bumping every key of `s` adds `|s|` to the sum. */
  lemma {:induction false} TotalBump<K>(m: map<K, int>, s: set<K>)
    ensures Total(Bump(m, s)) == Total(m) + |s|
    decreases s
  {
    if s == {} {
      assert Bump(m, s) == m;
    } else {
      var k :| k in s;
      var rest := s - {k};
      assert s == rest + {k};
      TotalBump(m, rest);
      TotalBumpStep(m, rest, k);
    }
  }

  /** The inductive step of `TotalBump`. */
  lemma TotalBumpStep<K>(m: map<K, int>, rest: set<K>, k: K)
    requires k !in rest
    requires Total(Bump(m, rest)) == Total(m) + |rest|
    ensures Total(Bump(m, rest + {k})) == Total(m) + |rest + {k}|
  {
    var b := Bump(m, rest);
    var b' := b[k := Get(b, k) + 1];
    TotalIncrement(b, k);
    BumpOneMore(m, rest, k);
    assert Total(b') == Total(b) + 1;
    assert Bump(m, rest + {k}) == b';
    assert Total(Bump(m, rest + {k})) == Total(b) + 1;
    assert |rest + {k}| == |rest| + 1;
  }

  /**
   * The combiner of the counting collectors: every entry of `m2` is merged
   * into `m1` by addition (`computeIfAbsent(k, new AtomicLong()).addAndGet(v)`
   * or `merge(k, v, sum)`).
   */
  function SumMerge<K>(m1: map<K, int>, m2: map<K, int>): (r: map<K, int>)
    ensures r.Keys == m1.Keys + m2.Keys
    ensures forall k | k in m1 && k in m2 :: r[k] == m1[k] + m2[k]
    ensures forall k | k in m1 && k !in m2 :: r[k] == m1[k]
    ensures forall k | k !in m1 && k in m2 :: r[k] == m2[k]
  {
    map k | k in m1.Keys + m2.Keys :: Get(m1, k) + Get(m2, k)
  }

  /** The empty map (the supplier's result) is an identity of the combiner. */
  lemma SumMergeIdentity<K>(m: map<K, int>)
    ensures SumMerge(m, map[]) == m
    ensures SumMerge(map[], m) == m
  {
  }

  /** The order in which two partial results are combined does not matter. */
  lemma SumMergeCommutes<K>(m1: map<K, int>, m2: map<K, int>)
    ensures SumMerge(m1, m2) == SumMerge(m2, m1)
  {
  }

  /** Combining is associative, so any combination tree gives the same map. */
  lemma SumMergeAssociates<K>(m1: map<K, int>, m2: map<K, int>, m3: map<K, int>)
    ensures SumMerge(m1, SumMerge(m2, m3)) == SumMerge(SumMerge(m1, m2), m3)
  {
  }

  /**
   * Accumulating into a partial result and then combining equals combining
   * and then accumulating: the compatibility a `Collector` must satisfy.
   */
  lemma SumMergeBump<K>(m1: map<K, int>, m2: map<K, int>, s: set<K>)
    ensures SumMerge(Bump(m1, s), m2) == Bump(SumMerge(m1, m2), s)
  {
  }

  /**
   * The element `Stream.max` returns, as an index into the scores of the
   * stream: `reduce(BinaryOperator.maxBy(c))` keeps the accumulated element
   * unless a later one is strictly greater. `None` is the empty `Optional`.
   */
  function MaxIndex(scores: seq<int>): (r: Option<nat>)
    ensures r.None? <==> |scores| == 0
    ensures r.Some? ==> r.value < |scores|
    ensures r.Some? ==> forall j | 0 <= j < |scores| :: scores[j] <= scores[r.value]
    ensures r.Some? ==> forall j | 0 <= j < r.value :: scores[j] < scores[r.value]
  {
    if |scores| == 0 then None
    else
      var last := |scores| - 1;
      match MaxIndex(scores[..last])
      case None => Some(0)
      case Some(i) => if scores[i] >= scores[last] then Some(i) else Some(last)
  }

  /** The counters of `m` in the iteration order `order`. */
  function ScoresOf<K>(m: map<K, int>, order: seq<K>): (s: seq<int>)
    ensures |s| == |order|
    ensures forall i | 0 <= i < |order| :: s[i] == Get(m, order[i])
  {
    seq(|order|, i requires 0 <= i < |order| => Get(m, order[i]))
  }

  /**
   * `entrySet().stream().max(Map.Entry.comparingByValue())` over a counter
   * map iterated in `order`: the key of a greatest counter, the first such
   * key in iteration order; empty exactly when the map is.
   */
  function MaxEntry<K>(m: map<K, int>, order: seq<K>): (r: Option<K>)
    requires Enumerates(order, m.Keys)
    ensures r.None? <==> m == map[]
    ensures r.Some? ==> r.value in m && forall k | k in m :: m[k] <= m[r.value]
    ensures r.Some? ==> forall i, j | 0 <= j < i < |order| && order[i] == r.value :: m[order[j]] < m[r.value]
  {
    var scores := ScoresOf(m, order);
    match MaxIndex(scores)
    case None =>
      None
    case Some(i) =>
      assert forall k | k in m :: exists j :: 0 <= j < |order| && order[j] == k;
      Some(order[i])
  }

  /**
   * `groupingBy(f, counting())` followed by `max(comparingByValue()).get()`:
   * it fails only on an empty stream, and the selected key occurs at least
   * as often as any value whatever.
   */
  lemma HistogramMax<K>(ks: seq<K>, order: seq<K>)
    requires Enumerates(order, Histogram(ks).Keys)
    ensures MaxEntry(Histogram(ks), order).None? <==> |ks| == 0
    ensures MaxEntry(Histogram(ks), order).Some? ==> forall k :: Occurrences(ks, k) <= Occurrences(ks, MaxEntry(Histogram(ks), order).value)
  {
    var h := Histogram(ks);
    if |ks| > 0 {
      assert ks[0] in h;
    }
    var r := MaxEntry(h, order);
    if r.Some? {
      forall k
        ensures Occurrences(ks, k) <= Occurrences(ks, r.value)
      {
        if k in ks {
          assert h[k] <= h[r.value];
        }
      }
    }
  }

  /** The keys of a stream of (key, value) pairs. */
  function Keys<K, V>(kvs: seq<(K, V)>): (ks: seq<K>)
    ensures |ks| == |kvs|
    ensures forall i | 0 <= i < |kvs| :: ks[i] == kvs[i].0
  {
    seq(|kvs|, i requires 0 <= i < |kvs| => kvs[i].0)
  }

  /** The values paired with `k`, in encounter order (the reference for grouping). */
  function ValuesFor<K(==), V>(kvs: seq<(K, V)>, k: K): seq<V> {
    if |kvs| == 0 then []
    else if kvs[0].0 == k then [kvs[0].1] + ValuesFor(kvs[1..], k)
    else ValuesFor(kvs[1..], k)
  }

  /**
   * `groupingBy(key)` with the default `toList()` downstream: each element
   * is appended to the list of its key, in encounter order.
   */
  function GroupPairs<K, V>(kvs: seq<(K, V)>): (g: map<K, seq<V>>)
    ensures forall k | k in g :: k in Keys(kvs)
    ensures forall k | k in Keys(kvs) :: k in g
    ensures forall k | k in g :: g[k] == ValuesFor(kvs, k)
  {
    if |kvs| == 0 then map[]
    else
      var init := kvs[..|kvs| - 1];
      var kv := kvs[|kvs| - 1];
      var g := GroupPairs(init);
      assert kvs == init + [kv];
      ValuesForSnoc(init, kv);
      ValuesForAbsent(init, kv.0);
      assert Keys(kvs) == Keys(init) + [kv.0];
      g[kv.0 := (if kv.0 in g then g[kv.0] else []) + [kv.1]]
  }

  /** Appending a pair extends only the list of its own key. */
  lemma {:induction false} ValuesForSnoc<K, V>(kvs: seq<(K, V)>, kv: (K, V))
    ensures forall k :: ValuesFor(kvs + [kv], k) == ValuesFor(kvs, k) + (if kv.0 == k then [kv.1] else [])
  {
    if |kvs| > 0 {
      ValuesForSnoc(kvs[1..], kv);
      assert (kvs + [kv])[1..] == kvs[1..] + [kv];
    }
  }

  /** A key that never occurs has no values. */
  lemma {:induction false} ValuesForAbsent<K, V>(kvs: seq<(K, V)>, k: K)
    ensures k !in Keys(kvs) ==> ValuesFor(kvs, k) == []
  {
    if |kvs| > 0 {
      ValuesForAbsent(kvs[1..], k);
      assert Keys(kvs[1..]) == Keys(kvs)[1..];
    }
  }

  /** A key's group holds as many elements as the key's count in the histogram. */
  lemma {:induction false} GroupSizeIsCount<K, V>(kvs: seq<(K, V)>, k: K)
    ensures |ValuesFor(kvs, k)| == Occurrences(Keys(kvs), k)
  {
    if |kvs| > 0 {
      var init := kvs[..|kvs| - 1];
      var kv := kvs[|kvs| - 1];
      assert kvs == init + [kv];
      ValuesForSnoc(init, kv);
      GroupSizeIsCount(init, k);
      assert Keys(kvs)[..|kvs| - 1] == Keys(init);
    }
  }

  /** Every value grouped under `k` was paired with `k`. */
  lemma {:induction false} ValuesForSound<K, V>(kvs: seq<(K, V)>, k: K, v: V)
    requires v in ValuesFor(kvs, k)
    ensures (k, v) in kvs
  {
    if kvs[0].0 == k && v == kvs[0].1 {
    } else {
      ValuesForSound(kvs[1..], k, v);
    }
  }

  /** Every value paired with `k` is grouped under `k`. */
  lemma {:induction false} ValuesForComplete<K, V>(kvs: seq<(K, V)>, k: K, v: V)
    requires (k, v) in kvs
    ensures v in ValuesFor(kvs, k)
  {
    if kvs[0] != (k, v) {
      ValuesForComplete(kvs[1..], k, v);
    }
  }

  // ---------------------------------------------------------------------
  // Stream stages: map, filter and groupingBy(f)

  /** `map(f)` on a stream. */
  function Mapped<T, U>(xs: seq<T>, f: T --> U): (ys: seq<U>)
    requires forall x | x in xs :: f.requires(x)
    ensures |ys| == |xs|
    ensures forall i | 0 <= i < |xs| :: ys[i] == f(xs[i])
  {
    seq(|xs|, i requires 0 <= i < |xs| => f(xs[i]))
  }

  /** Collecting a mapped stream succeeds exactly when every element maps to a success, keeping their order. */
  lemma MappedCollectSucceeds<T, U, E>(xs: seq<T>, f: T -> Result<U, E>)
    ensures CollectAll(Mapped(xs, f)).Success? <==> forall i | 0 <= i < |xs| :: f(xs[i]).Success?
    ensures CollectAll(Mapped(xs, f)).Success? ==>
      && |CollectAll(Mapped(xs, f)).value| == |xs|
      && forall i | 0 <= i < |xs| :: CollectAll(Mapped(xs, f)).value[i] == f(xs[i]).value
  {
    var rs := Mapped(xs, f);
    assert forall i | 0 <= i < |xs| :: rs[i] == f(xs[i]);
  }

  /** Collecting a mapped stream fails with the error of the first element that maps to a failure. */
  lemma MappedCollectFails<T, U, E>(xs: seq<T>, f: T -> Result<U, E>)
    ensures CollectAll(Mapped(xs, f)).Failure? ==>
      exists i | 0 <= i < |xs| :: f(xs[i]) == Failure(CollectAll(Mapped(xs, f)).error) && forall j | 0 <= j < i :: f(xs[j]).Success?
  {
    var rs := Mapped(xs, f);
    assert forall i | 0 <= i < |xs| :: rs[i] == f(xs[i]);
  }

  /** `map` distributes over concatenation. */
  lemma MappedAppend<T, U>(xs: seq<T>, ys: seq<T>, f: T --> U)
    requires forall x | x in xs + ys :: f.requires(x)
    ensures Mapped(xs + ys, f) == Mapped(xs, f) + Mapped(ys, f)
  {
  }

  /** `filter(p)` on a stream: the elements that pass, in encounter order. */
  function Filter<T>(xs: seq<T>, p: T --> bool): (ys: seq<T>)
    requires forall x | x in xs :: p.requires(x)
    ensures |ys| <= |xs|
    ensures forall x | x in ys :: x in xs && p(x)
    ensures forall x | x in xs && p(x) :: x in ys
  {
    if |xs| == 0 then []
    else
      var init := xs[..|xs| - 1];
      var x := xs[|xs| - 1];
      assert xs == init + [x];
      Filter(init, p) + (if p(x) then [x] else [])
  }

  /** Filtering a stream without repetitions yields one without repetitions. */
  lemma {:induction false} FilterDistinct<T>(xs: seq<T>, p: T --> bool)
    requires forall x | x in xs :: p.requires(x)
    requires Distinct(xs)
    ensures Distinct(Filter(xs, p))
  {
    if |xs| > 0 {
      var init := xs[..|xs| - 1];
      var x := xs[|xs| - 1];
      assert Distinct(init);
      FilterDistinct(init, p);
      LastIsNew(xs);
      assert x !in Filter(init, p);
    }
  }

  /**
   * Filtering on a condition that every element of key `k` meets does not
   * change how many elements have key `k`.
   */
  lemma {:induction false} FilterKeepsCount<T, K>(xs: seq<T>, p: T --> bool, key: T --> K, k: K)
    requires forall x | x in xs :: p.requires(x) && key.requires(x)
    requires forall x | x in xs && key(x) == k :: p(x)
    ensures Occurrences(Mapped(Filter(xs, p), key), k) == Occurrences(Mapped(xs, key), k)
  {
    if |xs| > 0 {
      var init := xs[..|xs| - 1];
      var x := xs[|xs| - 1];
      assert xs == init + [x];
      FilterKeepsCount(init, p, key, k);
      var kept := if p(x) then [x] else [];
      assert Filter(xs, p) == Filter(init, p) + kept;
      MappedAppend(init, [x], key);
      MappedAppend(Filter(init, p), kept, key);
      OccurrencesAppend(Mapped(init, key), Mapped([x], key), k);
      OccurrencesAppend(Mapped(Filter(init, p), key), Mapped(kept, key), k);
    }
  }

  /** The elements of `xs` whose key is `k`. */
  function WithKey<T, K(==)>(xs: seq<T>, key: T --> K, k: K): set<T>
    requires forall x | x in xs :: key.requires(x)
  {
    set x | x in xs && key(x) == k
  }

  /** In a stream without repetitions, a key counts the distinct elements that have it. */
  lemma {:induction false} MappedCount<T, K>(xs: seq<T>, key: T --> K, k: K)
    requires forall x | x in xs :: key.requires(x)
    requires Distinct(xs)
    ensures Occurrences(Mapped(xs, key), k) == |WithKey(xs, key, k)|
  {
    if |xs| == 0 {
      assert WithKey(xs, key, k) == {};
    } else {
      var init := xs[..|xs| - 1];
      var x := xs[|xs| - 1];
      assert xs == init + [x];
      assert Distinct(init);
      MappedCount(init, key, k);
      LastIsNew(xs);
      MappedSnocCount(init, x, key, k);
      WithKeySnoc(init, x, key, k);
    }
  }

  /** One more element adds one to its own key's count and nothing to the others. */
  lemma MappedSnocCount<T, K>(init: seq<T>, x: T, key: T --> K, k: K)
    requires forall y | y in init + [x] :: key.requires(y)
    ensures Occurrences(Mapped(init + [x], key), k) == Occurrences(Mapped(init, key), k) + if key(x) == k then 1 else 0
  {
    MappedAppend(init, [x], key);
    assert Mapped([x], key) == [key(x)];
    OccurrencesAppend(Mapped(init, key), [key(x)], k);
  }

  /** One more element, new to the stream, joins its own key's set and no other. */
  lemma WithKeySnoc<T, K>(init: seq<T>, x: T, key: T --> K, k: K)
    requires forall y | y in init + [x] :: key.requires(y)
    requires x !in init
    ensures |WithKey(init + [x], key, k)| == |WithKey(init, key, k)| + if key(x) == k then 1 else 0
  {
    var before := WithKey(init, key, k);
    var after := WithKey(init + [x], key, k);
    assert x !in before;
    if key(x) == k {
      assert after == before + {x};
    } else {
      assert after == before;
    }
  }

  /** The stream paired with its keys. */
  function Tagged<T, K>(xs: seq<T>, key: T --> K): (kvs: seq<(K, T)>)
    requires forall x | x in xs :: key.requires(x)
    ensures Keys(kvs) == Mapped(xs, key)
    ensures forall i | 0 <= i < |xs| :: kvs[i] == (key(xs[i]), xs[i])
  {
    seq(|xs|, i requires 0 <= i < |xs| => (key(xs[i]), xs[i]))
  }

  /** Each group of the tagged stream is as long as its key's count. */
  lemma GroupTaggedSizes<T, K>(xs: seq<T>, key: T --> K)
    requires forall x | x in xs :: key.requires(x)
    ensures forall k | k in GroupPairs(Tagged(xs, key)) :: |GroupPairs(Tagged(xs, key))[k]| == Occurrences(Mapped(xs, key), k)
  {
    var kvs := Tagged(xs, key);
    forall k | k in GroupPairs(kvs)
      ensures |GroupPairs(kvs)[k]| == Occurrences(Mapped(xs, key), k)
    {
      GroupSizeIsCount(kvs, k);
    }
  }

  /** Each group of the tagged stream holds only elements with its key. */
  lemma GroupTaggedSound<T, K>(xs: seq<T>, key: T --> K)
    requires forall x | x in xs :: key.requires(x)
    ensures forall k, i | k in GroupPairs(Tagged(xs, key)) && 0 <= i < |GroupPairs(Tagged(xs, key))[k]| :: GroupPairs(Tagged(xs, key))[k][i] in xs && key(GroupPairs(Tagged(xs, key))[k][i]) == k
  {
    var kvs := Tagged(xs, key);
    var g := GroupPairs(kvs);
    forall k, j | k in g && 0 <= j < |g[k]|
      ensures g[k][j] in xs && key(g[k][j]) == k
    {
      var x := g[k][j];
      ValuesForSound(kvs, k, x);
      var i :| 0 <= i < |kvs| && kvs[i] == (k, x);
      assert kvs[i] == (key(xs[i]), xs[i]);
    }
  }

  /** Every element of the stream is in the group of its key. */
  lemma GroupTaggedComplete<T, K>(xs: seq<T>, key: T --> K)
    requires forall x | x in xs :: key.requires(x)
    ensures forall x | x in xs :: key(x) in GroupPairs(Tagged(xs, key)) && x in GroupPairs(Tagged(xs, key))[key(x)]
  {
    var kvs := Tagged(xs, key);
    var g := GroupPairs(kvs);
    forall x | x in xs
      ensures key(x) in g && x in g[key(x)]
    {
      var i :| 0 <= i < |xs| && xs[i] == x;
      assert kvs[i] == (key(x), x);
      assert key(x) in Keys(kvs);
      ValuesForComplete(kvs, key(x), x);
    }
  }

  /**
   * `groupingBy(key)` with the `toList()` downstream: each key's list holds
   * the elements with that key, in encounter order, as many as the key
   * occurs in the stream.
   */
  function GroupBy<T, K>(xs: seq<T>, key: T --> K): (g: map<K, seq<T>>)
    requires forall x | x in xs :: key.requires(x)
    ensures forall k | k in g :: k in Mapped(xs, key)
    ensures forall k | k in Mapped(xs, key) :: k in g
    ensures forall k | k in g :: |g[k]| == Occurrences(Mapped(xs, key), k)
    ensures forall k, i | k in g && 0 <= i < |g[k]| :: g[k][i] in xs && key(g[k][i]) == k
    ensures forall x | x in xs :: key(x) in g && x in g[key(x)]
    ensures forall k | k in g :: g[k] == ValuesFor(Tagged(xs, key), k)
  {
    GroupTaggedSizes(xs, key);
    GroupTaggedSound(xs, key);
    GroupTaggedComplete(xs, key);
    GroupPairs(Tagged(xs, key))
  }

  /** `groupingBy(key, counting())`: the keys are exactly those of the elements, each counted at least once. */
  lemma MappedHistogram<T, K>(xs: seq<T>, key: T --> K)
    requires forall x | x in xs :: key.requires(x)
    ensures forall x | x in xs :: key(x) in Histogram(Mapped(xs, key))
    ensures forall k | k in Histogram(Mapped(xs, key)) :: Histogram(Mapped(xs, key))[k] > 0 && exists x | x in xs :: key(x) == k
  {
    var ks := Mapped(xs, key);
    forall x | x in xs
      ensures key(x) in ks
    {
      var i :| 0 <= i < |xs| && xs[i] == x;
      assert ks[i] == key(x);
    }
    forall k | k in ks
      ensures exists x | x in xs :: key(x) == k
    {
      var i :| 0 <= i < |ks| && ks[i] == k;
      assert xs[i] in xs;
    }
  }

  /**
   * `filter(p).collect(groupingBy(key))`: every list is non-empty and holds
   * elements that pass the filter and have its key; every element that
   * passes is filed under its key.
   */
  lemma FilteredGroups<T, K>(xs: seq<T>, p: T --> bool, key: T --> K)
    requires forall x | x in xs :: p.requires(x) && key.requires(x)
    ensures forall k | k in GroupBy(Filter(xs, p), key) :: GroupBy(Filter(xs, p), key)[k] != []
    ensures forall k, i | k in GroupBy(Filter(xs, p), key) && 0 <= i < |GroupBy(Filter(xs, p), key)[k]| ::
      var x := GroupBy(Filter(xs, p), key)[k][i]; x in xs && p(x) && key(x) == k
    ensures forall x | x in xs && p(x) :: key(x) in GroupBy(Filter(xs, p), key) && x in GroupBy(Filter(xs, p), key)[key(x)]
  {
    var kept := Filter(xs, p);
    var g := GroupBy(kept, key);
    forall k | k in g
      ensures g[k] != []
    {
      assert Occurrences(Mapped(kept, key), k) > 0;
    }
  }

  /** Iteration orders for a two-level counter map: the outer keys, and each row's keys. */
  predicate NestedOrders<K, L>(m: map<K, map<L, int>>, outer: seq<K>, inner: map<K, seq<L>>) {
    && Enumerates(outer, m.Keys)
    && (forall k | k in m :: k in inner && Enumerates(inner[k], m[k].Keys))
  }

  /**
   * The best entry of one row: `row.entrySet().stream().max(comparingByValue()).get()`
   * for a row that is not empty.
   */
  function RowMax<K, L>(m: map<K, map<L, int>>, k: K, inner: map<K, seq<L>>): (p: (L, int))
    requires k in m && m[k] != map[]
    requires k in inner && Enumerates(inner[k], m[k].Keys)
    ensures p.0 in m[k] && p.1 == m[k][p.0]
    ensures forall l | l in m[k] :: m[k][l] <= p.1
    ensures forall i, j | 0 <= j < i < |inner[k]| && inner[k][i] == p.0 :: m[k][inner[k][j]] < p.1
  {
    var l := MaxEntry(m[k], inner[k]).value;
    (l, m[k][l])
  }

  /** The best value of every row, in the outer iteration order. */
  function RowMaxima<K, L>(m: map<K, map<L, int>>, outer: seq<K>, inner: map<K, seq<L>>): (s: seq<int>)
    requires NestedOrders(m, outer, inner)
    requires forall k | k in m :: m[k] != map[]
    ensures |s| == |outer|
    ensures forall i | 0 <= i < |outer| :: s[i] == RowMax(m, outer[i], inner).1
  {
    seq(|outer|, i requires 0 <= i < |outer| => RowMax(m, outer[i], inner).1)
  }

  /**
   * The two-level maximum of the pipelines: `toMap(key, row max .get())`
   * followed by `max` on the rows' best values and `.get()`. `None` is the
   * `NoSuchElementException` of either `get()`: an empty outer map, or an
   * empty row anywhere.
   */
  function NestedMax<K, L>(m: map<K, map<L, int>>, outer: seq<K>, inner: map<K, seq<L>>): (r: Option<(K, L, int)>)
    requires NestedOrders(m, outer, inner)
    ensures r.None? <==> m == map[] || exists k | k in m :: m[k] == map[]
    ensures r.Some? ==> r.value.0 in m && r.value.1 in m[r.value.0] && r.value.2 == m[r.value.0][r.value.1]
  {
    if exists k | k in m :: m[k] == map[] then None
    else
      EnumeratesElements(outer, m.Keys);
      match MaxIndex(RowMaxima(m, outer, inner))
      case None => None
      case Some(i) =>
        var p := RowMax(m, outer[i], inner);
        Some((outer[i], p.0, p.1))
  }

  /** One stored entry is bounded by the reported maximum. */
  lemma NestedMaxBound<K, L>(m: map<K, map<L, int>>, outer: seq<K>, inner: map<K, seq<L>>, k: K, l: L)
    requires NestedOrders(m, outer, inner)
    requires NestedMax(m, outer, inner).Some?
    requires k in m && l in m[k]
    ensures m[k][l] <= NestedMax(m, outer, inner).value.2
  {
    NestedMaxIsMax(m, outer, inner);
  }

  /**
   * The reported value is the greatest value of the whole map; every row
   * iterated before the reported one holds only smaller values, and within
   * the reported row every key iterated before the reported one does too.
   */
  lemma NestedMaxIsMax<K, L>(m: map<K, map<L, int>>, outer: seq<K>, inner: map<K, seq<L>>)
    requires NestedOrders(m, outer, inner)
    ensures
      var r := NestedMax(m, outer, inner);
      && (r.Some? ==> forall k, l | k in m && l in m[k] :: m[k][l] <= r.value.2)
      && (r.Some? ==> forall i, j, l | 0 <= j < i < |outer| && outer[i] == r.value.0 && l in m[outer[j]] :: m[outer[j]][l] < r.value.2)
      && (r.Some? ==> forall i, j | 0 <= j < i < |inner[r.value.0]| && inner[r.value.0][i] == r.value.1 :: m[r.value.0][inner[r.value.0][j]] < r.value.2)
  {
    var r := NestedMax(m, outer, inner);
    if r.Some? {
      var scores := RowMaxima(m, outer, inner);
      var x := MaxIndex(scores).value;
      assert outer[x] == r.value.0 && scores[x] == r.value.2;
      forall k, l | k in m && l in m[k]
        ensures m[k][l] <= r.value.2
      {
        var j :| 0 <= j < |outer| && outer[j] == k;
        assert m[k][l] <= scores[j];
      }
      forall i, j, l | 0 <= j < i < |outer| && outer[i] == r.value.0 && l in m[outer[j]]
        ensures m[outer[j]][l] < r.value.2
      {
        assert i == x;
        assert m[outer[j]][l] <= scores[j];
      }
    }
  }
}
