# Stream-pipeline demos of jdk8-lambda-tour, modelled in Dafny

This project models the pure aggregation logic inside the `main` methods of
the Java 8 stream demos. File reading, printing and timing are left out.
The model covers five programs:

- **MovieV3**, the most-seen actor duo. Key actors are ordered by last name,
  then first name. A parallel `collect` counts, for every actor, each
  co-star that sorts after them. Its accumulator, its combiner and the
  two-level `max` that picks the best pair are all modelled.
- **MovieV2**, two things: per-actor `groupingBy(identity(), counting())`,
  and a per-year `Collector.of` whose counter maps go through a two-level
  `max`.
- **Movies**, several steps:
  - reading a line of the movie file: the title, the year in parentheses,
    the comma rule, and the `last, first` actor fields;
  - the union of all casts;
  - distinct years and the year range;
  - the cast-size and year histograms with their `max`;
  - the filter-and-count per-actor counts;
  - the best year per actor.
- **Scrabble**, several steps:
  - the English and French letter tables;
  - `getScrabbleScore` and the English `score` lambda;
  - the count of the Shakespeare words that Scrabble allows;
  - the four grouping maps `map1` to `map4`.
- **McDonalds**, three steps:
  - the `map` lambda that cuts a CSV line into a record, including how it
    normalises the state code;
  - the number of distinct cities;
  - the city with the most restaurants.

The modules are:

| module | file | what it holds |
|---|---|---|
| `Wrappers` | wrappers.dfy | `Option`, `Result`, and collecting a list of results |
| `Counting` | counting.dfy | the collector vocabulary shared by the demos, listed below |
| `Strings` | strings.dfy | Java's `trim`, `toLowerCase`, `indexOf`, `lastIndexOf`, `split` and `compareTo` |
| `Corpus` | corpus.dfy | `Actor`, `Movie`, the actor comparator, and reference counts over a corpus |
| `CoStars` | costars.dfy | the MovieV3 duo pipeline |
| `MovieLines` | parsing.dfy | reading the movie file |
| `MovieStats` | moviestats.dfy | the MovieV2 and Movies aggregates |
| `Scrabble` | scrabble.dfy | the Scrabble program |
| `McDonalds` | mcdonalds.dfy | the McDonalds program |

The collector vocabulary in `Counting` covers:

- `toSet`, `groupingBy` with `counting()` or into lists, and `filter`/`map`;
- the pointwise-sum combiner;
- `Stream.max`, which keeps the first of several maximal elements;
- the two-level "max of row maxima".

Java stream pipelines become sequential folds over a `seq`. A parallel
`collect` appears as its accumulator over a shard plus its combiner. The
combiner's algebra (identity, commutativity, associativity) and the
split-independence lemma `CoStars.ReduceSplit` say that the shard layout
does not change the result.

A `HashMap` or `HashSet` is iterated in an order the code does not control.
Wherever that order decides a tie, it is an explicit `seq` parameter that
lists every key exactly once (`Counting.Enumerates`). A `TreeMap` or
`ConcurrentSkipListSet` is iterated in ascending order, and the model
proves that such an order exists.

## Model

| member | source | states |
|---|---|---|
| Wrappers.CollectAll | src/org/paumard/jdk8/McDonalds.java:39-60 | collecting mapped results succeeds exactly when every element succeeds, keeps each value in place, and otherwise fails with the error of the first failing element |
| Counting.Elements | src/org/paumard/jdk8/Movies.java:81-84 | `toSet` holds exactly the elements of the stream and is no larger than the stream |
| Counting.EnumeratesElements | src/org/paumard/jdk8/Movies.java:113-115 | an iteration order of a key set visits exactly that set, and is empty only for the empty set |
| Counting.DistinctCard | src/org/paumard/jdk8/Movies.java:90-94 | a stream without repetitions has as many elements as its set |
| Counting.Flatten | src/org/paumard/jdk8/Movies.java:81-84 | `flatMap` yields exactly the elements of the inner streams |
| Counting.Histogram | src/org/paumard/jdk8/Movies.java:105-112 | `groupingBy(f, counting())` has a key for exactly the stream's values, each mapped to its number of occurrences |
| Counting.HistogramTotal | src/org/paumard/jdk8/Movies.java:105-131 | the counts of a histogram add up to the length of the stream |
| Counting.SumMerge | src/org/paumard/jdk8/MovieV2.java:101-106 | the combiner's result has the union of the keys: counters on a shared key are added, and a key on one side keeps its counter |
| Counting.SumMergeIdentity | src/org/paumard/jdk8/MovieV2.java:95-106 | the supplier's empty map is an identity of the combiner on both sides |
| Counting.SumMergeCommutes | src/org/paumard/jdk8/MovieV2.java:101-106 | combining two partial maps in either order gives the same map |
| Counting.SumMergeAssociates | src/org/paumard/jdk8/MovieV2.java:101-106 | the combiner is associative, so the merge tree does not matter |
| Counting.SumMergeBump | src/org/paumard/jdk8/MovieV2.java:96-106 | accumulating a movie and then combining gives the same result as combining and then accumulating |
| Counting.IncrementEachIsBump | src/org/paumard/jdk8/MovieV2.java:96-100 | `IncrementEach`, the `computeIfAbsent(...).incrementAndGet()` loop over a cast, in any iteration order of the set, adds one to each member's counter, creates missing counters and leaves the others alone |
| Counting.TotalBump | src/org/paumard/jdk8/MovieV2.java:96-100 | the accumulator raises the sum of the counters by the size of the cast |
| Counting.MaxIndex | src/org/paumard/jdk8/Movies.java:113-116 | `max` is empty only on an empty stream; otherwise it picks a greatest element, and every earlier element is strictly smaller, so the first of several maximal elements is kept |
| Counting.MaxEntry | src/org/paumard/jdk8/Movies.java:113-116 | `entrySet().stream().max(comparingByValue())` is empty only for an empty map; otherwise its key holds a greatest counter, and no key before it in the iteration order ties it |
| Counting.HistogramMax | src/org/paumard/jdk8/Movies.java:105-131 | the key selected from a histogram occurs in the stream at least as often as any value, and none is selected only for an empty stream |
| Counting.MappedCollectSucceeds | src/org/paumard/jdk8/McDonalds.java:39-60 | `map(f).collect(toList())` succeeds exactly when `f` succeeds on every element, and then lists `f`'s results in stream order |
| Counting.MappedCollectFails | src/org/paumard/jdk8/McDonalds.java:39-60 | a failing `map(f)` stream fails with `f`'s error on the first element on which `f` fails |
| Counting.Filter | src/org/paumard/jdk8/Scrabble.java:80-84 | `filter(p)` keeps exactly the elements that satisfy `p` |
| Counting.FilterDistinct | src/org/paumard/jdk8/Scrabble.java:80-84 | filtering a stream without repetitions leaves it without repetitions |
| Counting.FilterKeepsCount | src/org/paumard/jdk8/Scrabble.java:127-139 | a filter that keeps every element with key `k` leaves `k`'s count unchanged |
| Counting.MappedCount | src/org/paumard/jdk8/Scrabble.java:111-122 | over a stream without repetitions, the count under a key is the number of distinct elements with that key |
| Counting.GroupPairs | src/org/paumard/jdk8/Scrabble.java:99-106 | grouping (key, value) pairs into lists gives exactly the keys that occur, each with its values in encounter order |
| Counting.GroupSizeIsCount | src/org/paumard/jdk8/Scrabble.java:88-106 | a key's group has as many elements as the key's count in the histogram |
| Counting.ValuesForSound | src/org/paumard/jdk8/Scrabble.java:99-106 | every value grouped under a key was paired with that key |
| Counting.ValuesForComplete | src/org/paumard/jdk8/Scrabble.java:99-106 | every value paired with a key is grouped under that key |
| Counting.GroupBy | src/org/paumard/jdk8/Scrabble.java:99-106 | `groupingBy(f)` has exactly the keys of the stream; each group has as many elements as the key's count and holds only elements with that key; every element is in its key's group; each group lists its elements in encounter order |
| Counting.MappedHistogram | src/org/paumard/jdk8/Scrabble.java:88-95 | `groupingBy(f, counting())` has a key for the image of every element, and every key is the image of some element with a positive count |
| Counting.FilteredGroups | src/org/paumard/jdk8/Scrabble.java:99-106 | `filter(p).collect(groupingBy(f))` files every element that passes under its key, and every list is non-empty and holds only passing elements with that key |
| Counting.RowMax | src/org/paumard/jdk8/MovieV3.java:158-164 | the inner `max` of a non-empty row is a stored entry holding the row's greatest counter, and the first such entry in the row's order |
| Counting.NestedMax | src/org/paumard/jdk8/MovieV3.java:152-176 | the two-level `max` fails exactly when the map is empty or some row is empty; otherwise it reports a stored (key, key, counter) triple |
| Counting.NestedMaxIsMax | src/org/paumard/jdk8/MovieV3.java:152-176 | the reported counter is the greatest of the whole map; every row iterated before the reported row, and every entry before it in its row, is strictly smaller |
| Strings.Trim | src/org/paumard/jdk8/McDonalds.java:48-49 | `trim` cuts characters up to U+0020 only, from both ends of the string, and leaves a result that neither starts nor ends with one |
| Strings.TrimUnique | src/org/paumard/jdk8/McDonalds.java:48 | any infix cut out of a string by such characters alone, with no such character at either end, is the trimmed string |
| Strings.TrimIdempotent | src/org/paumard/jdk8/Movies.java:55 | trimming twice gives the same result as trimming once |
| Strings.TrimAppendSpace | src/org/paumard/jdk8/Movies.java:55 | a trailing space does not change the trimmed string |
| Strings.TrimPrependSpace | src/org/paumard/jdk8/McDonalds.java:48 | a leading space does not change the trimmed string |
| Strings.Lower | src/org/paumard/jdk8/Scrabble.java:60 | `toLowerCase` keeps the length and lowers each character in place |
| Strings.LowerIdempotent | src/org/paumard/jdk8/Scrabble.java:67-71 | a lower-cased string lowers to itself |
| Strings.LastIndexOf | src/org/paumard/jdk8/Movies.java:55-56 | `lastIndexOf(c)` is the position of the last `c`, or -1 when there is none |
| Strings.IndexOf | src/org/paumard/jdk8/McDonalds.java:53-55 | `indexOf(c)` is the position of the first `c`, or -1 when there is none |
| Strings.FindSub | src/org/paumard/jdk8/Movies.java:66 | the first occurrence of a separator string, or -1 when it does not occur |
| Strings.Split | src/org/paumard/jdk8/Movies.java:54 | the pieces between the separators join back into the string; none contains the separator; there is one piece exactly when the separator does not occur |
| Strings.SplitJoin | src/org/paumard/jdk8/Movies.java:54 | splitting parts joined by a one-character separator the parts do not contain gives the parts back |
| Strings.DropTrailingEmpty | src/org/paumard/jdk8/McDonalds.java:42 | removes the trailing empty strings, and only those |
| Strings.JavaSplit | src/org/paumard/jdk8/McDonalds.java:42 | `String.split` returns the whole string when the separator is absent; otherwise it returns the pieces less the trailing empty ones, and nothing when every piece is empty |
| Strings.JavaSplitJoin | src/org/paumard/jdk8/McDonalds.java:42 | `split` gives back separator-free parts joined by the separator, provided the last part is not empty |
| Strings.CompareTo | src/org/paumard/jdk8/MovieV3.java:92 | `compareTo` is zero exactly on equal strings; when one string is a prefix of the other it is the difference of the lengths; otherwise it is the difference of the first two characters that differ |
| Strings.CompareToAntisymmetric | src/org/paumard/jdk8/MovieV3.java:92 | swapping the arguments of `compareTo` negates the result |
| Strings.CompareToTransitive | src/org/paumard/jdk8/MovieV3.java:92 | "compares below" is transitive |
| Corpus.CompareActors | src/org/paumard/jdk8/MovieV3.java:92 | the last-name-then-first-name comparator is zero exactly on equal actors, is the `compareTo` of the last names when they differ, and the `compareTo` of the first names when they are equal |
| Corpus.BeforeTotal | src/org/paumard/jdk8/MovieV3.java:89-94 | the actor order is irreflexive and asymmetric, and it orders any two distinct actors one way |
| Corpus.BeforeTransitive | src/org/paumard/jdk8/MovieV3.java:89-94 | the actor order is transitive |
| Corpus.AllActors | src/org/paumard/jdk8/Movies.java:81-84 | the actor set is exactly the union of the casts |
| Corpus.MoviesWithPositive | src/org/paumard/jdk8/MovieV2.java:71-79 | an actor's movie count is positive exactly when the actor is in some cast |
| Corpus.SharedPositive | src/org/paumard/jdk8/MovieV3.java:107-116 | two actors share a positive number of movies exactly when some movie casts both |
| Corpus.SharedSymmetric | src/org/paumard/jdk8/MovieV3.java:106-110 | the shared-movie count does not depend on the order of the two actors |
| Corpus.MoviesWithInPositive | src/org/paumard/jdk8/Movies.java:157-164 | an actor's count in a year is positive exactly when a movie of that year casts the actor |
| Corpus.MoviesWithInBound | src/org/paumard/jdk8/Movies.java:152-174 | no year counts more of an actor's movies than the whole corpus does |
| CoStars.HitRow | src/org/paumard/jdk8/MovieV3.java:117-121 | one hit on a partner adds one to a present counter and creates a missing one holding 2; no other counter changes |
| CoStars.RaiseRow | src/org/paumard/jdk8/MovieV3.java:109-121 | one hit on each partner of a set: the row gains those partners, each hit counter goes up by one or starts at 2, the rest is kept |
| CoStars.AddMovie | src/org/paumard/jdk8/MovieV3.java:106-123 | a movie changes nothing unless it casts `a`; then `a`'s row takes one hit on each cast member of `TailSet`, the `tailSet(a, false)` of the key actors after `a`; `a` becomes an owner only when there is such a partner, no other owner's row changes, and no empty row appears |
| CoStars.Accumulate | src/org/paumard/jdk8/MovieV3.java:105-124 | the accumulator for actor `a` writes no outer key but `a`, and leaves every other row as it was |
| CoStars.AccumulateAll | src/org/paumard/jdk8/MovieV3.java:101-124 | running the accumulator over a shard changes only the rows of the shard's actors, adds no other owner, and stores no empty row |
| CoStars.Reduce | src/org/paumard/jdk8/MovieV3.java:98-124 | a shard's partial result from the supplier's empty map has only the shard's actors as owners and no empty row |
| CoStars.Expected | src/org/paumard/jdk8/MovieV3.java:106-121 | the reference relation: keyed by the given owners only, no empty row; each stored partner is a key actor after its owner sharing a movie with it, stored as shared movies + 1; every such pair of an owner is stored |
| CoStars.HitAllIsRaise | src/org/paumard/jdk8/MovieV3.java:109-121 | one hit per partner, in any iteration order of the cast, raises each partner's counter by one; a new counter starts at 1 and is incremented at once, so it holds 2 |
| CoStars.AddMovieIsHits | src/org/paumard/jdk8/MovieV3.java:107-123 | a movie casting `a` hits each of its cast in `a`'s tail set, and creates `a`'s row only when there is a partner |
| CoStars.AccumulateRow | src/org/paumard/jdk8/MovieV3.java:105-124 | the accumulator for `a` stores the row of tail-set co-stars, each counted as shared movies + 1, and stores nothing when the row would be empty |
| CoStars.AccumulateAllSpec | src/org/paumard/jdk8/MovieV3.java:101-124 | folding the accumulator over distinct actors adds each actor's expected row |
| CoStars.ReduceSpec | src/org/paumard/jdk8/MovieV3.java:101-147 | a shard's partial result holds exactly the non-empty expected rows of its actors |
| CoStars.ExpectedUnion | src/org/paumard/jdk8/MovieV3.java:101-147 | the expected relation of a union of owners is the union of their expected relations, keyed only by those owners |
| CoStars.Combine | src/org/paumard/jdk8/MovieV3.java:125-146 | the combiner keeps every owner of both sides; each row holds the partners of both rows, and each counter is the sum of the two counters |
| CoStars.CombineIdentity | src/org/paumard/jdk8/MovieV3.java:98-146 | the supplier's empty map is an identity of the combiner on both sides |
| CoStars.CombineCommutes | src/org/paumard/jdk8/MovieV3.java:125-146 | the combiner is commutative |
| CoStars.CombineAssociates | src/org/paumard/jdk8/MovieV3.java:125-146 | the combiner is associative |
| CoStars.CombineDisjoint | src/org/paumard/jdk8/MovieV3.java:105-146 | partial results with disjoint owners combine into their plain union |
| CoStars.ReduceSplit | src/org/paumard/jdk8/MovieV3.java:101-147 | reducing any two-way split of the key actors and combining the parts gives the sequential result |
| CoStars.CoStarPairs | src/org/paumard/jdk8/MovieV3.java:106-121 | the finished relation has the entry `map[a][b]` exactly when `a` sorts before `b` and they share a movie; the stored value is shared movies + 1, and no row is empty |
| CoStars.CoStarOrientation | src/org/paumard/jdk8/MovieV3.java:106-110 | the finished relation has no self-pair and never both `(a,b)` and `(b,a)`; every pair of distinct co-stars is stored one way round |
| CoStars.AscendingDistinct | src/org/paumard/jdk8/MovieV3.java:89-94 | a strictly ascending actor list has no repetitions |
| CoStars.LeastExists | src/org/paumard/jdk8/MovieV3.java:89-94 | a non-empty actor set has a least actor under the comparator |
| CoStars.KeyActors | src/org/paumard/jdk8/MovieV3.java:89-94 | the skip-list set streams every actor once, in ascending comparator order |
| CoStars.BestPair | src/org/paumard/jdk8/MovieV3.java:152-176 | the extraction fails exactly when no row is kept, and otherwise reports a stored (owner, partner, counter) |
| CoStars.BestPairIsMax | src/org/paumard/jdk8/MovieV3.java:152-176 | the reported counter is at least every stored counter; on ties the first owner in iteration order wins, and within its row the first partner |
| CoStars.OwnersExist | src/org/paumard/jdk8/MovieV3.java:152-176 | `Kept`, the relation after the `filter` at line 154 that drops empty rows, has an owner exactly when two distinct actors share a movie |
| CoStars.PairsBounded | src/org/paumard/jdk8/MovieV3.java:152-176 | a bound on the stored counters bounds shared movies + 1 for every pair of distinct actors |
| CoStars.MostSeenDuo | src/org/paumard/jdk8/MovieV3.java:89-176 | over the whole corpus, the reported duo is ordered, is reported with shared movies + 1, and no two distinct actors share more movies; the pipeline fails exactly when no two actors ever meet |
| MovieLines.ParseInt | src/org/paumard/jdk8/Movies.java:63 | `Integer.valueOf` accepts only a non-empty, comma-free text and yields a 32-bit value |
| MovieLines.ShowNatValue | src/org/paumard/jdk8/Movies.java:63 | reading back the decimal digits of a natural number gives the number |
| MovieLines.ParseShow | src/org/paumard/jdk8/Movies.java:63 | every 32-bit year printed in decimal is read back by `Integer.valueOf` |
| MovieLines.ReadHeader | src/org/paumard/jdk8/Movies.java:55-63 | the header fails with an index error exactly when it has no `(` or its last `)` is not after its last `(`; otherwise, with `YearText` the text between them and `TitleText` the trimmed text before the `(` (the two `substring` cuts of lines 55-56), the line is skipped exactly when the year text holds a comma, fails with a number-format error exactly when `Integer.valueOf` refuses it, and otherwise yields the title text and the parsed year |
| MovieLines.HeaderRoundTrip | src/org/paumard/jdk8/Movies.java:55-56 | `title (year)` reads back as that title and year for any trimmed title, even one holding parentheses |
| MovieLines.HeaderYearText | src/org/paumard/jdk8/Movies.java:55-56 | for `title (d)` with no parenthesis in `d`, the cuts `YearText` and `TitleText` give `d` and `title` trimmed |
| MovieLines.HeaderCommaYear | src/org/paumard/jdk8/Movies.java:58-61 | a header `title (d)` whose year text holds a comma is skipped, for any title |
| MovieLines.ReadActor | src/org/paumard/jdk8/Movies.java:66-73 | an actor field fails, always with an index error, exactly when it is non-empty and every `", "` piece of it is empty |
| MovieLines.SeparatorsOnly | src/org/paumard/jdk8/Movies.java:66-67 | `split` returns nothing exactly when the string is non-empty and made of separators only |
| MovieLines.ReadActorPieces | src/org/paumard/jdk8/Movies.java:66-71 | the last name is the trimmed first `", "` piece; the first name is the trimmed second piece, or "" when there is none |
| MovieLines.CollectCast | src/org/paumard/jdk8/Movies.java:65-75 | the cast is exactly the actors read; the first actor exception aborts the line |
| MovieLines.ReadCast | src/org/paumard/jdk8/Movies.java:65-75 | the cast is read exactly when every actor field is; it then holds exactly the actors read; a failure is the exception of some field |
| MovieLines.ReadCastFieldsSucceed | src/org/paumard/jdk8/Movies.java:65-75 | the fields after the header are read exactly when each of them reads as an actor |
| MovieLines.ReadCastFieldsMembers | src/org/paumard/jdk8/Movies.java:65-75 | a read cast holds exactly the actors read from the fields after the header |
| MovieLines.ReadElements | src/org/paumard/jdk8/Movies.java:55-77 | given the `/` pieces: a line is discarded exactly when its header's year text holds a comma; it fails with a number-format error exactly when that text is not a number; it is kept exactly when the header has a numeric year and every actor field reads, and then the movie has the header's title and year and exactly the actors read |
| MovieLines.ReadLine | src/org/paumard/jdk8/Movies.java:53-78 | the same four promises for a whole line split at `/`: discarded exactly on a comma in the year text, a number-format error exactly on a non-numeric year, kept exactly with a numeric year and readable actors, and a kept movie has the header's title and year and exactly the actors read |
| MovieLines.CollectMovies | src/org/paumard/jdk8/Movies.java:44-79 | reading fails exactly when some line throws, with the first such line's exception; otherwise the set holds every kept movie once and nothing else |
| MovieLines.ReadMovies | src/org/paumard/jdk8/Movies.java:44-79 | over the lines themselves: fails exactly when some line throws, with the first such exception; otherwise holds each kept line's movie, without repetitions, and nothing else |
| MovieStats.ActorCounts | src/org/paumard/jdk8/MovieV2.java:71-79 | the per-actor counts have exactly the actors of some cast as keys, each with a positive count |
| MovieStats.CastStreamOccurrences | src/org/paumard/jdk8/MovieV2.java:72-73 | an actor occurs in the flattened casts once per movie casting the actor |
| MovieStats.ActorCountsSpec | src/org/paumard/jdk8/MovieV2.java:71-79 | the MovieV2 counts have exactly the corpus's actors as keys, and each count is the number of movies casting that actor |
| MovieStats.CastStreamLength | src/org/paumard/jdk8/MovieV2.java:72-73 | the flattened cast stream is as long as the sum of the cast sizes |
| MovieStats.ActorCountsTotal | src/org/paumard/jdk8/MovieV2.java:72-79 | the per-actor counts add up to the sum of the cast sizes |
| MovieStats.FilterCounts | src/org/paumard/jdk8/Movies.java:137-144 | the filter-and-count map has exactly the given actors as keys, and an actor's count is positive exactly when the actor is in some cast |
| MovieStats.AllMoviesWithPositive | src/org/paumard/jdk8/Movies.java:142 | an actor's filtered movie count is positive exactly when some movie casts the actor |
| MovieStats.CountsAgree | src/org/paumard/jdk8/MovieV2.java:69-84 | the MovieV2 `groupingBy` counts equal the filter-and-count map that Movies builds at lines 137-144 |
| MovieStats.MostActiveActor | src/org/paumard/jdk8/MovieV2.java:71-83 | the selected actor is in the corpus and plays in at least as many movies as any actor; `get()` fails only when no movie has a cast |
| MovieStats.YearMaps | src/org/paumard/jdk8/MovieV2.java:88-112 | the per-year containers exist for exactly the release years |
| MovieStats.YearAccumulator | src/org/paumard/jdk8/MovieV2.java:96-100 | the per-year accumulator adds one to the counter of each cast member, creating missing counters, and leaves every other counter alone |
| MovieStats.YearMapsSpec | src/org/paumard/jdk8/MovieV2.java:88-112 | a year is a key exactly when a movie was released in it; its counter for an actor is the number of that year's movies casting the actor, present exactly when positive |
| MovieStats.BestActorYear | src/org/paumard/jdk8/MovieV2.java:113-128 | `get()` fails exactly on an empty corpus or an empty year container; otherwise it reports a release year, an actor of that year's container and the stored counter, and no stored counter is larger |
| MovieStats.BestActorYearFails | src/org/paumard/jdk8/MovieV2.java:113-128 | `get()` fails exactly on an empty corpus or when some year's movies all have empty casts |
| MovieStats.BestActorYearSpec | src/org/paumard/jdk8/MovieV2.java:113-128 | the reported (year, actor, n) has `n` equal to that year's movies casting that actor |
| MovieStats.BestActorYearIsMax | src/org/paumard/jdk8/MovieV2.java:113-128 | no actor appears in more movies of any one year than the reported count |
| MovieStats.Casting | src/org/paumard/jdk8/Movies.java:157-158 | the filter keeps exactly the movies that cast the actor |
| MovieStats.YearsOfOccurrences | src/org/paumard/jdk8/Movies.java:157-164 | a year occurs in the filtered year stream once per movie of that year casting the actor |
| MovieStats.YearsOfSpec | src/org/paumard/jdk8/Movies.java:155-169 | `YearsOf`, an actor's `groupingBy(releaseYear, counting())` over the movies casting them, has exactly the years the actor played in, with the number of such movies; `ActorYears` is the `toMap` of these per actor |
| MovieStats.BestYearPerActor | src/org/paumard/jdk8/Movies.java:152-174 | `get()` fails exactly when there is no actor or some actor has no year; otherwise it reports one of the actors with a year in which that actor played, and the number of such movies |
| MovieStats.ActorsHaveYears | src/org/paumard/jdk8/Movies.java:157-168 | every actor of the corpus has a year, so no inner `get()` fails |
| MovieStats.BestYearPerActorIsMax | src/org/paumard/jdk8/Movies.java:152-174 | no actor reaches more movies in any year than the reported count |
| MovieStats.BestYearPerActorSpec | src/org/paumard/jdk8/Movies.java:152-174 | no inner `get()` fails for an actor of the corpus; the result counts that actor's movies in that year, and nobody reaches more in any year; it fails only for an empty actor set |
| MovieStats.SameBestCount | src/org/paumard/jdk8/Movies.java:152-174 | when both succeed, Movies' per-actor pipeline and MovieV2's per-year pipeline report the same best count |
| MovieStats.DistinctYears | src/org/paumard/jdk8/Movies.java:90-94 | there are no more distinct years than movies, and none only without movies |
| MovieStats.DistinctYearsAreKeys | src/org/paumard/jdk8/Movies.java:90-94 | the number of distinct years equals the number of keys of the year histogram |
| MovieStats.YearRange | src/org/paumard/jdk8/Movies.java:98-102 | `summaryStatistics` has min <= year <= max for every movie, and each end is an actual year or its starting sentinel; an empty corpus reports (`Integer.MAX_VALUE`, `Integer.MIN_VALUE`) |
| MovieStats.YearRangeAttained | src/org/paumard/jdk8/Movies.java:98-102 | on a non-empty corpus of 32-bit years, both ends are release years and min <= max |
| MovieStats.CastSizeCounts | src/org/paumard/jdk8/Movies.java:105-112 | the cast-size histogram has exactly the sizes that occur, and its counts add up to the number of movies |
| MovieStats.CastSizeCountsSpec | src/org/paumard/jdk8/Movies.java:105-112 | each size's count is the number of movies with a cast that large |
| MovieStats.YearCounts | src/org/paumard/jdk8/Movies.java:120-127 | the year histogram has exactly the release years that occur, and its counts add up to the number of movies |
| MovieStats.YearCountsSpec | src/org/paumard/jdk8/Movies.java:120-127 | each year's count is the number of movies released in it |
| MovieStats.BusiestYear | src/org/paumard/jdk8/Movies.java:120-131 | the selected year has at least as many releases as any year; `get()` fails only on an empty corpus |
| MovieStats.BusiestYearIsMax | src/org/paumard/jdk8/Movies.java:120-131 | the histogram's max entry is a year with releases and bounds every year's count |
| MovieStats.CommonestCastSize | src/org/paumard/jdk8/Movies.java:105-116 | the code selects the cast size shared by the most movies; `get()` fails only on an empty corpus |
| MovieStats.CommonestCastSizeIsMax | src/org/paumard/jdk8/Movies.java:105-116 | the histogram's max entry is a size that occurs and that is shared by at least as many movies as any size |
| MovieStats.CommonestCastSizeIsNotLargest | src/org/paumard/jdk8/Movies.java:105-117 | with casts of sizes 1, 1 and 2, the code reports size 1 while the largest cast is the third movie's |
| MovieStats.LargestCast | src/org/paumard/jdk8/Movies.java:104-117 | the movie with the most actors: empty only for an empty corpus, otherwise a movie whose cast is at least as large as every other |
| MovieStats.LargestCastIsLargestKey | src/org/paumard/jdk8/Movies.java:105-116 | the largest cast's size is the greatest key of the cast-size histogram |
| Scrabble.Table | src/org/paumard/jdk8/Scrabble.java:41-49 | each table has 26 entries, each from 1 to 10 |
| Scrabble.LetterValue | src/org/paumard/jdk8/Scrabble.java:51-55 | a letter `'a'..'z'` is worth 1 to 10 points |
| Scrabble.TablesDiffer | src/org/paumard/jdk8/Scrabble.java:41-49 | the English and French tables differ exactly on k, m, q, w, x and y |
| Scrabble.Score | src/org/paumard/jdk8/Scrabble.java:111 | an n-letter word scores between n and 10n |
| Scrabble.ScoreAppend | src/org/paumard/jdk8/Scrabble.java:111 | the score of a concatenation is the sum of the scores |
| Scrabble.ScoreSnoc | src/org/paumard/jdk8/Scrabble.java:111 | a word scores the rest of the word plus its last letter |
| Scrabble.ScoreLetter | src/org/paumard/jdk8/Scrabble.java:51-55 | a one-letter word scores its letter's table value |
| Scrabble.EnglishScore | src/org/paumard/jdk8/Scrabble.java:111 | the `score` lambda gives an n-letter word between n and 10n points |
| Scrabble.ScrabbleScore | src/org/paumard/jdk8/Scrabble.java:58-61 | `getScrabbleScore` of an n-letter word lies between n and 10n |
| Scrabble.ScrabbleScoreIgnoresCase | src/org/paumard/jdk8/Scrabble.java:58-61 | `getScrabbleScore` gives the same score for a word and its lower-cased form |
| Scrabble.ScrabbleScoreAppend | src/org/paumard/jdk8/Scrabble.java:58-61 | `getScrabbleScore` is additive over concatenation |
| Scrabble.WordSet | src/org/paumard/jdk8/Scrabble.java:65-71 | a word set holds the lower-cased form of every line and nothing else, so it is all lower-case and no larger than the line count |
| Scrabble.Allowed | src/org/paumard/jdk8/Scrabble.java:80-84 | the filtered stream holds only Scrabble words, and no more than the Shakespeare words |
| Scrabble.AllowedWords | src/org/paumard/jdk8/Scrabble.java:80-84 | on lower-case words, the allowed stream is the intersection of the two sets, each word once |
| Scrabble.AllowedCountIsIntersection | src/org/paumard/jdk8/Scrabble.java:80-84 | `AllowedCount`, the printed `count()` of the allowed words, is the size of the intersection of the two word sets, so it is at most either set's size |
| Scrabble.LengthCounts | src/org/paumard/jdk8/Scrabble.java:88-95 | `map1` has a key for every word's length, and every key is the length of some word with a positive count |
| Scrabble.LengthCountsSpec | src/org/paumard/jdk8/Scrabble.java:88-95 | `map1` maps each length that occurs to the number of words of that length, and its counts add up to the number of words |
| Scrabble.LongWords | src/org/paumard/jdk8/Scrabble.java:99-106 | `map2` has only lengths above 15, with non-empty lists; every listed word is a word of the list and has that length; every word longer than 15 is listed under its length |
| Scrabble.LongWordsSpec | src/org/paumard/jdk8/Scrabble.java:99-106 | `map2` has only lengths above 15; every word in `map2[L]` is a Shakespeare word of length `L`; every such word is filed; each list is as long as `map1[L]` |
| Scrabble.LongWordCount | src/org/paumard/jdk8/Scrabble.java:99-106 | a key of `map2` is a key of `map1`, with a list as long as `map1`'s count |
| Scrabble.ScoreCounts | src/org/paumard/jdk8/Scrabble.java:111-122 | `map3` has a key for the score of every allowed word, and every key is the score of some allowed word with a positive count |
| Scrabble.ScoreCountsSpec | src/org/paumard/jdk8/Scrabble.java:111-122 | `map3` counts, per English score, the words of both sets with that score; every such word's score is a key; the counts add up to the intersection's size |
| Scrabble.ScoreCountOf | src/org/paumard/jdk8/Scrabble.java:111-122 | one score's count is the number of words of both sets with that score |
| Scrabble.ScoringWordsAllowed | src/org/paumard/jdk8/Scrabble.java:111-122 | the allowed words with a given score are the words of both sets with that score |
| Scrabble.ScoreCountsComplete | src/org/paumard/jdk8/Scrabble.java:111-122 | every word of both sets has its score as a key of `map3` |
| Scrabble.ScoreCountsTotal | src/org/paumard/jdk8/Scrabble.java:111-122 | the counts of `map3` add up to the size of the intersection |
| Scrabble.HighScorers | src/org/paumard/jdk8/Scrabble.java:125-139 | `map4` has only scores above 28, with non-empty lists; every listed word is allowed and scores its key; every allowed word scoring above 28 is listed under its score |
| Scrabble.HighScorersSpec | src/org/paumard/jdk8/Scrabble.java:125-139 | `map4` has only scores above 28; every word in `map4[s]` is in both sets and scores `s`; every such word scoring above 28 is filed; `map4[s]` is as long as `map3[s]` |
| Scrabble.HighScorersSound | src/org/paumard/jdk8/Scrabble.java:125-139 | every word filed under a score is in both sets and has that score |
| Scrabble.HighScorersComplete | src/org/paumard/jdk8/Scrabble.java:125-139 | every word of both sets scoring above 28 is filed under its score |
| Scrabble.HighScorerCount | src/org/paumard/jdk8/Scrabble.java:125-139 | a key of `map4` is a key of `map3`, with a list as long as `map3`'s count |
| Scrabble.LeastKey | src/org/paumard/jdk8/Scrabble.java:119 | a non-empty set of scores has a least element |
| Scrabble.AscendingKeys | src/org/paumard/jdk8/Scrabble.java:119 | a `TreeMap`'s keys iterate once each, in strictly ascending order |
| McDonalds.StripQuote | src/org/paumard/jdk8/McDonalds.java:50-52 | a trailing `"` is removed; any other state is kept |
| McDonalds.CutAtSpace | src/org/paumard/jdk8/McDonalds.java:53-55 | the state is cut before its first space, and the result holds no space |
| McDonalds.ShortState | src/org/paumard/jdk8/McDonalds.java:49-55 | the state after `trim`, the quote rule and the space rule: a space-free prefix of the trimmed field that stops at its first space, or that drops the closing quote when there is no space, or is the whole trimmed field |
| McDonalds.ShortStateKeeps | src/org/paumard/jdk8/McDonalds.java:49-55 | a trimmed state of at most two characters, with no space or trailing quote, survives the rules unchanged |
| McDonalds.ReadFields | src/org/paumard/jdk8/McDonalds.java:42-58 | a record is read exactly when fields 0 to 6 exist, fields 2 to 4 are not empty, and field 7 exists whenever the cut-down state is still longer than two characters; a missing field is the first index past the end; an empty field is the first of 2 to 4 that is empty; a read record's city is field 5 trimmed |
| McDonalds.ReadFieldsShortState | src/org/paumard/jdk8/McDonalds.java:49-58 | a state that cuts down to at most two characters is kept, and field 7 is never read |
| McDonalds.ReadFieldsLongState | src/org/paumard/jdk8/McDonalds.java:56-58 | a state still longer than two characters is replaced by field 7 trimmed |
| McDonalds.RecordParts | src/org/paumard/jdk8/McDonalds.java:46-55 | `Record` builds the record from the cuts: the name is field 2 less its first character followed by field 3 less its last; the address is field 4 less its first character; the city is field 5 trimmed; the state is the one decided by the state rules |
| McDonalds.ReadFieldsValues | src/org/paumard/jdk8/McDonalds.java:46-58 | a record read from fields has the name, address and city above, and a state that is either the cut-down field 6 (no spaces) or field 7 trimmed |
| McDonalds.ReadFieldsRoundTrip | src/org/paumard/jdk8/McDonalds.java:46-58 | fields laid out as in the file read back into the place plus its state code as the name, and the street, city and state |
| McDonalds.ReadLine | src/org/paumard/jdk8/McDonalds.java:39-59 | a line without a comma fails on field 1; a read line has at least seven comma-separated fields, and its city is the sixth trimmed |
| McDonalds.SplitFields | src/org/paumard/jdk8/McDonalds.java:42 | comma-free fields joined by commas, the last not empty, split back into the fields |
| McDonalds.ReadLineRoundTrip | src/org/paumard/jdk8/McDonalds.java:39-60 | a whole CSV line in the file's layout reads back into its record |
| McDonalds.ReadAll | src/org/paumard/jdk8/McDonalds.java:39-60 | all lines are read exactly when each line is, and the records are then the lines' records in line order; otherwise the exception is that of the first unreadable line |
| McDonalds.CityCount | src/org/paumard/jdk8/McDonalds.java:65-69 | there are no more distinct cities than records, and none only without records |
| McDonalds.CityCountIsKeys | src/org/paumard/jdk8/McDonalds.java:65-80 | the number of distinct cities equals the number of keys of the per-city counts |
| McDonalds.RecordsInOccurrences | src/org/paumard/jdk8/McDonalds.java:73-80 | a city occurs in the city stream once per record in that city |
| McDonalds.CityCounts | src/org/paumard/jdk8/McDonalds.java:73-80 | every record's city is a key, and every key is some record's city with a positive count |
| McDonalds.CityCountsSpec | src/org/paumard/jdk8/McDonalds.java:73-80 | every record's city is a key; each count is that city's number of records, which is positive; the counts add up to the number of records |
| McDonalds.CityCountsEmpty | src/org/paumard/jdk8/McDonalds.java:73-84 | there are no counts exactly when there are no records |
| McDonalds.BusiestCity | src/org/paumard/jdk8/McDonalds.java:73-84 | the selected city has at least as many restaurants as any city; `get()` fails exactly on an empty list |
| McDonalds.BusiestCityIsMax | src/org/paumard/jdk8/McDonalds.java:73-84 | the max entry's count bounds every city's count |

## Left out

- File reading (`Files.lines`, `FileReader`, the windows-1252 charset) is left out. So are console output, `System.currentTimeMillis` timing and the `nMaps` counter of MovieV3. They are I/O or diagnostics. The movie and McDonalds readers take the lines as a `seq<string>`.
- Parallelism and thread safety are left out: `.parallel()`, `ConcurrentHashMap`, `ConcurrentSkipListSet`, `AtomicLong` aliasing and the `CONCURRENT` characteristic. A parallel `collect` is modelled as the accumulator over shards plus the combiner, and `CoStars.ReduceSplit` covers two shards. The MovieV2 `groupingBy` with `Collector.of` is modelled as its sequential run, with its combiner captured by the `SumMerge` lemmas.
- Latitude and longitude (`Double.parseDouble`, with its `NumberFormatException`) are left out because they are floating point. The record has no position. The code stores field 0 as the latitude although the sample line in its comment puts the longitude first; the model does not decide that question.
- `Long` and `AtomicLong` counters are unbounded integers, so 64-bit wrap-around is not modelled; the counts here are bounded by the size of the input files.
- `Integer.valueOf` is modelled for ASCII digits only. The JDK also accepts other Unicode digits.
- Strings.Lower: lower-cases only ASCII `A`–`Z`, because Java's full Unicode case mapping (the Kelvin sign, say) is a table this model does not reproduce.
- Strings.CompareTo, Scrabble.Length, McDonalds.ShortState and the MovieLines header cuts: strings are sequences of whole characters, while Java's `compareTo`, `String::length` and `substring` count UTF-16 code units. The results differ only for characters above the Basic Multilingual Plane, which take two code units in Java.
- Strings.JavaSplit: models `split` with a literal separator (`","`, `"/"`, `", "`), which is how the code uses it. Java treats the argument as a regular expression.
- Hash iteration orders are not computed. Every `max` over a `HashMap` takes the order as a parameter, and its results hold for every order.
- `Movie` and `Actor` have structural equality: two movies are equal when title, year and cast are. `Movie.java` is not part of this model. The `HashSet<Movie>` keeps one of two equal movies, and the model keeps the first; the corpus is a duplicate-free `seq<Movie>` in first-occurrence order instead of hash order.
- McDonalds.ReadLineRoundTrip: covers lines whose fields are comma-free and whose last field is not empty. A line whose last fields are empty loses them in `split`.
- Scrabble.Score: requires every character to be in `'a'..'z'`. Any other character indexes outside the Java table and throws, and the model rules it out instead of modelling the exception.

## Findings

| source | as written | input that shows it | evidently intended | confidence | as-written member | corrected member |
|---|---|---|---|---|---|---|
| src/org/paumard/jdk8/Movies.java:104-117 | groups movies by cast size, counts them, and takes the entry with the greatest COUNT, so it reports the most common cast size | three movies with casts of 1, 1 and 2 actors: it reports size 1 | the movie with the most actors, as the comment and the message say | medium, not executed | MovieStats.CommonestCastSizeIsNotLargest | MovieStats.LargestCast |
