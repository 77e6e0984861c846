# wa-stream-gatherers in Dafny

This project models the text-analysis core of *wa-stream-gatherers*, a Java
project that compares hand-written stream pipelines with the JDK's
`Gatherer` API. The core has four parts.

- **N-gram extraction.** `produceNGramsWithoutGatherer` works by start index and sub-list. `produceNGramsWithGatherer` uses `Gatherers.windowSliding`. Both are pure functions in `NGrams.dfy`, and a lemma proves them equal.
- **Symmetric-window co-occurrence counting.**
  - `CooccurrenceSpec.dfy` defines the table the analysis should produce. Its entry `[t][u]` counts the position pairs `(i, j)` with `tokens[i] = t`, `tokens[j] = u`, `j != i` and `|i - j| <= window`. The count is built position by position and offset by offset, the way the code builds it. It is also proved equal to the size of the set of such pairs.
  - `Cooccurrence.dfy` has the eager version as imperative methods: the `toMap` collection, the per-position `for j` loop with `merge`, and the merge function that adds one map into another.
  - `CooccurrenceGatherer.dfy` models `CooccurrenceAnalysisGatherer` as a class. It has a `done` flag, immutable `tokens` and `window`, an initializer, and an integrator that fills the caller's state map in place and pushes it downstream once.
  - A stream driver runs the gatherer over the tokens. Both analyses are proved to return the specified table, so they agree.
- **Top-k selection.** `TopK.dfy` models `findTopKCooccurrences`: sort by count, descending; `limit(k)`; collect into a `LinkedHashMap`, modelled as a sequence of entries.
- **Examples.** `Examples.dfy` models `findSecondAndThirdSmallestNumber`, `calculateRunningSum` (a loop with an explicit accumulator that wraps to 32 bits like `AtomicInteger`) and `stringJoinCollector` (a left fold over a `StringJoiner`).

Some pipelines are plain functions without contracts of their own: `ProduceNGramsWithoutGatherer`, `ProduceNGramsWithGatherer`, `FindTopKCooccurrences`, `FindSecondAndThirdSmallestNumber` and `StringJoinCollector`. So are `CooccurrenceSpec.Cooccurrences`, the specified table that both co-occurrence pipelines are proved to compute, and `Text.Join`, the model of `String.join`. Their rows in the table below name the lemmas that state their properties.

Modelling choices:
- A `HashMap` fixes no iteration order. The entry stream of a neighbour map is therefore an arbitrary but fixed listing, chosen with `:|` in `TopK.EntryList`. `TopK.TopKOfAnyListing` proves the top-k properties for every listing of the map, and no order among equal counts is claimed.
- Lower-casing of the centre word is the parameter `lower`.
- A negative `k` makes `Stream.limit` throw `IllegalArgumentException`. The model returns `Failure` in that case, and only when the centre word is present, because the code checks the key first.
- The `orElseThrow` of the gatherer variant is the `Failure` branch of a `Result`. The model proves that this branch is never taken.

## Model

| member | source | states |
|---|---|---|
| NGrams.NGramEdgeCases | src/Main.java:18-27 | n < 1 or n > N gives no n-grams; n = 1 gives the tokens themselves |
| NGrams.ProduceNGramsWithoutGatherer | src/Main.java:18-34 | no contract; properties in NGrams.NGramEdgeCases, NGrams.NGramContents and NGrams.NGramShape |
| NGrams.NGramContents | src/Main.java:29-33 | for 1 <= n <= N and any tokens there are N - n + 1 n-grams, n-gram i being tokens[i..i+n] joined with single spaces (for n = 1 the token itself) |
| NGrams.NGramShape | src/Main.java:29-33 | when no token contains a space, n-gram i splits at spaces back into tokens[i..i+n] (the length N - n + 1 holds for any tokens, by NGrams.NGramContents) |
| NGrams.SlidingWindows | src/Main.java:53-54 | no contract; the windows Gatherers.windowSliding(n) emits, properties in NGrams.SlidingWindowsAreWindows and NGrams.SlidingWindowsShortStream |
| NGrams.JoinEach | src/Main.java:55 | no contract; map(w -> String.join(" ", w)) over the windows, used by NGrams.NGramRealisationsAgree |
| NGrams.ProduceNGramsWithGatherer | src/Main.java:39-57 | no contract; properties in NGrams.NGramRealisationsAgree |
| NGrams.SlidingWindowsAreWindows | src/Main.java:53-55 | once n elements have arrived, windowSliding(n) emits exactly the contiguous windows of width n, in order |
| NGrams.SlidingWindowsShortStream | src/Main.java:53-55 | a stream shorter than n yields its single partial window, or nothing when empty or after a full window |
| NGrams.NGramRealisationsAgree | src/Main.java:39-56 | the sliding-window variant equals the index variant for every n and every token sequence |
| NGrams.NGramExample | src/Main.java:31-33 | the 2-grams of "the cat sat on the mat" are "the cat", "cat sat", "sat on", "on the", "the mat" |
| Text.Join | src/Main.java:32 | no contract; String.join, properties in Text.SplitJoin, Text.JoinSplit and Examples.StringJoinCollectorIsJoin |
| Text.SplitJoin | src/Main.java:32 | String.join of a non-empty list with a one-character delimiter is undone by splitting when no element contains the delimiter |
| Text.JoinSplit | src/Main.java:32 | joining the pieces of a split restores the string |
| CooccurrenceSpec.SumMaps | src/Main.java:88-91 | the reference definition of merging with Long::sum (keys of either map, counts added pointwise), which Cooccurrence.MergeBySum is proved to compute |
| CooccurrenceSpec.Bump | src/Main.java:83 | no contract; map.merge(u, 1L, Long::sum), properties in CooccurrenceSpec.GetBump and CooccurrenceSpec.SumMapsBump |
| CooccurrenceSpec.SumMapsCommutative | src/Main.java:88-91 | the order of the two merged maps does not matter |
| CooccurrenceSpec.SumMapsAssociative | src/Main.java:88-91 | merging in stages gives the same counts |
| CooccurrenceSpec.PairCountIsPairSetSize | src/Main.java:69-86 | the position-by-position count equals the number of co-occurring position pairs |
| CooccurrenceSpec.IntegratedStep | src/CooccurrenceAnalysisGatherer.java:35-51 | one centre position adds its neighbour map to the entry of its token, creating it if absent, and changes nothing else |
| CooccurrenceSpec.IntegratedCounts | src/CooccurrenceAnalysisGatherer.java:35-51 | after all positions the keys are the initial keys plus every token, and each count is its initial value plus the pair count |
| CooccurrenceSpec.Cooccurrences | src/Main.java:59-93 | no contract; the specified table with the empty-table guard, properties in CooccurrenceSpec.CooccurrencesOutOfRange, CooccurrenceSpec.CooccurrencesCounts and CooccurrenceSpec.CooccurrenceExample |
| CooccurrenceSpec.CooccurrencesOutOfRange | src/Main.java:62-65 | a window outside 1 .. N gives the empty table |
| CooccurrenceSpec.CooccurrencesCounts | src/Main.java:69-92 | for a valid window the keys are exactly the distinct tokens, [t][u] is the number of pairs (i, j) with tokens[i] = t, tokens[j] = u, j != i, abs(i - j) <= window; every stored count is at least 1 |
| CooccurrenceSpec.CooccurrenceExample | src/Main.java:69-92 | in [a, b, a, c] with window 1, "a" co-occurs twice with "b" and once with "c" |
| Cooccurrence.NeighbourMapOf | src/Main.java:75-86 | the value mapper's loop over j in [i - window, i + window] builds the neighbour map of position i |
| Cooccurrence.MergeBySum | src/Main.java:88-91 | map2.forEach merged into map1 with Long::sum gives the pointwise sum, whatever order the entries come in |
| Cooccurrence.PutMerging | src/Main.java:71-91 | the toMap accumulator puts the neighbour map under a new centre token and merges it by sum into the entry of a repeated one |
| Cooccurrence.CollectPosition | src/Main.java:69-91 | collecting the element of position i turns the table of the first i positions into the table of the first i + 1 |
| Cooccurrence.CollectPositions | src/Main.java:69-92 | collecting every position in order gives the table integrated over all positions |
| Cooccurrence.PerformCooccurrenceAnalysisWithoutGatherer | src/Main.java:59-93 | the returned table is the specified co-occurrence table, including the empty-table guard |
| Cooccurrence.PerformCooccurrenceAnalysisWithGatherer | src/Main.java:96-110 | the gatherer pipeline succeeds with the specified table; the orElseThrow branch never fires |
| Cooccurrence.CooccurrenceRealisationsAgree | src/Main.java:59-110 | the two analyses return equal tables |
| CooccurrenceGatherer.CountState.constructor | src/CooccurrenceAnalysisGatherer.java:20-23 | the gatherer's state, a HashMap<String, Map<String, Long>> held in the field entries, starts empty |
| CooccurrenceGatherer.CooccurrenceAnalysisGatherer.constructor | src/CooccurrenceAnalysisGatherer.java:9-17 | stores tokens and window, which never change afterwards; done starts false |
| CooccurrenceGatherer.CooccurrenceAnalysisGatherer.Initializer | src/CooccurrenceAnalysisGatherer.java:20-23 | a fresh, empty nested map |
| CooccurrenceGatherer.CooccurrenceAnalysisGatherer.Integrate | src/CooccurrenceAnalysisGatherer.java:27-60 | afterwards done is set and the result is false; on the first call the state gains every centre's neighbour counts and is pushed exactly once; on later calls state and downstream are unchanged; the element is ignored |
| CooccurrenceGatherer.CooccurrenceAnalysisGatherer.AddAllCentres | src/CooccurrenceAnalysisGatherer.java:35-52 | the outer loop over all centre positions adds every position's neighbour counts to the state it was given |
| CooccurrenceGatherer.CooccurrenceAnalysisGatherer.AddCentre | src/CooccurrenceAnalysisGatherer.java:36-51 | computeIfAbsent followed by the inner loop adds the neighbour map of position i to the entry of tokens[i] and changes no other entry |
| CooccurrenceGatherer.CooccurrenceAnalysisGatherer.CountNeighbours | src/CooccurrenceAnalysisGatherer.java:42-51 | the inner loop adds one per neighbour position to the centre's map |
| CooccurrenceGatherer.Downstream.Push | src/CooccurrenceAnalysisGatherer.java:55 | the pushed element is appended to what downstream has received |
| TopK.EntryList | src/Main.java:120 | the entry stream lists every entry of the neighbour map exactly once |
| TopK.InsertDesc | src/Main.java:122 | one insertion keeps descending order and adds exactly the new entry |
| TopK.SortByCountDesc | src/Main.java:122 | the sorted stream is a permutation of the entries, in non-increasing order of count |
| TopK.SortKeys | src/Main.java:122 | sorting keeps the set of keys and their distinctness |
| TopK.CollectLinked | src/Main.java:125-129 | the LinkedHashMap collection keeps the keys, has distinct keys, and keeps the stream order when keys are already distinct |
| TopK.PutFirstWins | src/Main.java:125-129 | no contract; one toMap step with merge (e1, e2) -> e1, properties in TopK.PutFirstWinsKeeps and TopK.CollectLinked |
| TopK.PutFirstWinsKeeps | src/Main.java:125-129 | putting an entry keeps the keys distinct, adds its key, and appends it when its key is new |
| TopK.TopKOfListing | src/Main.java:120-129 | no contract; sort, limit and collect over a given entry stream, properties in TopK.TopKOfAnyListing |
| TopK.TopKOfAnyListing | src/Main.java:120-129 | for every listing of the neighbour map m: min(k, size of m) distinct entries of m in non-increasing order of count, none left out with a larger count, every key when k is at least the size of m |
| TopK.FindTopKCooccurrences | src/Main.java:112-130 | no contract; properties in TopK.TopKShape, TopK.TopKSelectsLargest and TopK.TopKExample |
| TopK.TopKShape | src/Main.java:112-129 | an absent centre word gives the empty result; a negative k fails; otherwise there are min(k, size of m) distinct entries (u, m[u]) of the neighbour map m, in non-increasing order of count |
| TopK.TopKSelectsLargest | src/Main.java:120-123 | no count left out exceeds a count returned, and k at least the size of m returns every key |
| TopK.TopKExample | src/Main.java:112-129 | on the example table, the top neighbour of "a" is ("b", 2) |
| Examples.Distinct | src/Examples.java:39 | distinct() keeps every value of the input and no value twice |
| Examples.SortAsc | src/Examples.java:40 | sorted() gives a permutation in ascending order |
| Examples.SortKeepsDistinct | src/Examples.java:39-40 | sorting distinct values keeps them distinct |
| Examples.Ascending | src/Examples.java:39-40 | distinct then sorted gives the D distinct input values, strictly increasing |
| Examples.FindSecondAndThirdSmallestNumber | src/Examples.java:34-44 | no contract; properties in Examples.SecondAndThirdShape, Examples.SecondAndThirdRank and Examples.SecondAndThirdExample |
| Examples.SecondAndThirdShape | src/Examples.java:38-43 | the result is strictly increasing, holds only input values and has min(2, max(0, D - 1)) elements |
| Examples.SecondAndThirdRank | src/Examples.java:40-42 | exactly one distinct input value lies below result[0], and no input value lies strictly between result[0] and result[1] |
| Examples.SecondAndThirdExample | src/Examples.java:45-46 | [1, 19, 63, 27, 27, 3, 1, 89, 89, -10] gives [1, 3] |
| Examples.Wrap | src/Examples.java:98-103 | int arithmetic: the value modulo 2^32 in the int range |
| Examples.WrapAdd | src/Examples.java:103 | adding to a wrapped sum wraps like adding to the exact sum |
| Examples.CalculateRunningSum | src/Examples.java:96-104 | one output per input, output i being the sum of numbers[0..i] wrapped to an int, and exactly that sum whenever it lies in the int range |
| Examples.RunningSumExact | src/Examples.java:96-104 | a prefix sum that lies in the int range is its own 32-bit wrap (used by Examples.CalculateRunningSum for its exact-sum clause) |
| Examples.RunningSumExample | src/Examples.java:106-107 | [1, 2, 3, 4, 5] gives [1, 3, 6, 10, 15] |
| Examples.NewJoiner | src/Examples.java:69 | no contract; the supplier, a StringJoiner with nothing added; properties in Examples.StringJoinCollectorIsJoin |
| Examples.Add | src/Examples.java:70 | no contract; StringJoiner::add, the first element alone and later ones after the delimiter; properties in Examples.AccumulateAfter |
| Examples.ToString | src/Examples.java:72 | no contract; StringJoiner::toString, "" when nothing was added; properties in Examples.StringJoinCollectorIsJoin |
| Examples.Accumulate | src/Examples.java:70 | no contract; the accumulator applied to each element in stream order; properties in Examples.AccumulateAfter |
| Examples.StringJoinCollector | src/Examples.java:61-73 | no contract; properties in Examples.StringJoinCollectorIsJoin and Examples.StringJoinExample |
| Examples.AccumulateAfter | src/Examples.java:68-73 | StringJoiner::add over the remaining elements appends each with the delimiter before it |
| Examples.StringJoinCollectorIsJoin | src/Examples.java:61-73 | the collector gives the elements joined by the delimiter, as String.join does, "" for none |
| Examples.StringJoinExample | src/Examples.java:75-81 | ["Apfel", "Banane", "Kirsche"] with " und " gives "Apfel und Banane und Kirsche" |

## Left out

- File input and JSON output (`readTextFileAndSetToString`, `writeToJsonFile`): plain plumbing over `Files` and Gson.
- The benchmark code (`measureTimeToExecute`, `main`): clock readings, floating-point averages and printing.
- Tokenisation (`produceTokensFromText`): it depends on Java's locale-aware `toLowerCase` and regular expressions. Tokens are an input sequence, and the lower-casing in top-k is the parameter `lower`.
- `runningAverage`: its outputs are `double` values.
- `example1` and `example2`: they discard their results.
- Parallel execution: `StringJoiner::merge`, `toMap` used as a parallel combiner, and the gatherer's default combiner. Every pipeline here runs sequentially, so only the sequential fold is modelled.
- `Long` counters are unbounded `nat`s (type `CooccurrenceSpec.Counts`), so overflow past 2^63 is not modelled.
- Loop indices and list positions are unbounded integers. Java's `int` index `j` in the window loops (src/Main.java:77, src/CooccurrenceAnalysisGatherer.java:42) would overflow at `i + window` beyond `Integer.MAX_VALUE`, which needs more than 2^30 tokens. The model assumes at most 2^30 tokens and does not model that overflow.
- CooccurrenceGatherer.CooccurrenceAnalysisGatherer.AddCentre: the centre's inner `HashMap` is a value. The loop counts into a copy (`CountNeighbours`), and the copy is written back into the state once the loop ends. This gives the same final state as updating the aliased map in place, but the intermediate states inside the inner loop are not modelled.
- Downstream elements are values. In Java the pushed element is the state map itself, so a later change to the state would show through; nothing changes the state after the push.
- Stream machinery: the JDK's `windowSliding` gatherer and the stream driver are modelled after their documented behaviour. The driver is: initializer, then the integrator per element until it returns false, then `findFirst`. The JDK's own code is not part of this model.
- TopK.FindTopKCooccurrences: the order among entries with equal counts is not specified. It depends on the `HashMap` iteration order, which the model leaves arbitrary.
- NGrams.ProduceNGramsWithoutGatherer: for n = 1 the Java code returns the input list object itself. The model returns an equal sequence, so identity and aliasing are not modelled.
