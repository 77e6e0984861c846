/**
 * The two co-occurrence analyses of src/Main.java.
 *
 * Without a gatherer, every position i is mapped to the pair (tokens[i], the
 * neighbour map of i) and the pairs are collected with toMap, whose merge
 * function adds the second neighbour map into the first whenever a centre
 * token repeats. With a gatherer, the token stream is run through
 * CooccurrenceAnalysisGatherer and the first (and only) pushed element is the
 * result. Both are proved to compute the table Cooccurrences of
 * CooccurrenceSpec, so they agree on every input.
 */
module Cooccurrence {
  import opened Wrappers
  import opened CooccurrenceSpec
  import opened CooccurrenceGatherer

  /** The value mapper of toMap: a fresh map counting the neighbours of position i. */
  method NeighbourMapOf(tokens: seq<string>, window: int, i: int) returns (m: Counts)
    requires 0 <= i < |tokens|
    ensures m == NeighbourMap(tokens, window, i)
  {
    m := map[];
    ghost var lo := i - window;
    WindowMapEmpty(tokens, i, lo, lo);
    var j := i - window;
    while j <= i + window
      invariant lo <= j && (j <= i + window + 1 || j == lo)
      invariant m == WindowMap(tokens, i, lo, j)
    {
      WindowMapStep(tokens, i, lo, j);
      if j < 0 || j >= |tokens| || j == i {
        j := j + 1;
        continue;
      }
      // map.merge(tokens.get(j), 1L, Long::sum)
      m := Bump(m, tokens[j]);
      j := j + 1;
    }
    CentreDone(tokens, window, i, j);
  }

  /**
   * The merge function of toMap: every entry (k, v) of m2 is merged into m1
   * with Long::sum, in an order the HashMap does not fix; the result is the
   * pointwise sum whatever the order.
   */
  method MergeBySum(m1: Counts, m2: Counts) returns (r: Counts)
    ensures r == SumMaps(m1, m2)
  {
    r := m1;
    var pending := m2.Keys;
    ghost var merged: set<string> := {};
    while pending != {}
      invariant pending <= m2.Keys && merged == m2.Keys - pending
      invariant r.Keys == m1.Keys + merged
      invariant forall u :: Get(r, u) == Get(m1, u) + (if u in merged then Get(m2, u) else 0)
      decreases pending
    {
      var k :| k in pending;
      MergeOne(m1, m2, r, merged, k);
      // map1.merge(k, v, Long::sum)
      r := r[k := Get(r, k) + m2[k]];
      merged := merged + {k};
      pending := pending - {k};
    }
    MergedAll(m1, m2, r, merged);
  }

  /** Merging the entry of one more key k keeps the partial sum. */
  lemma MergeOne(m1: Counts, m2: Counts, r: Counts, merged: set<string>, k: string)
    requires k in m2 && k !in merged
    requires r.Keys == m1.Keys + merged
    requires forall u :: Get(r, u) == Get(m1, u) + (if u in merged then Get(m2, u) else 0)
    ensures var r' := r[k := Get(r, k) + m2[k]];
            r'.Keys == m1.Keys + (merged + {k})
            && forall u :: Get(r', u) == Get(m1, u) + (if u in merged + {k} then Get(m2, u) else 0)
  {
    var r' := r[k := Get(r, k) + m2[k]];
    forall u ensures Get(r', u) == Get(m1, u) + (if u in merged + {k} then Get(m2, u) else 0) {
      assert Get(r, u) == Get(m1, u) + (if u in merged then Get(m2, u) else 0);
    }
  }

  /** Once every key has been merged, the partial sum is the sum. */
  lemma MergedAll(m1: Counts, m2: Counts, r: Counts, merged: set<string>)
    requires merged == m2.Keys && r.Keys == m1.Keys + merged
    requires forall u :: Get(r, u) == Get(m1, u) + (if u in merged then Get(m2, u) else 0)
    ensures r == SumMaps(m1, m2)
  {
    forall u ensures Get(r, u) == Get(SumMaps(m1, m2), u) {
      assert Get(r, u) == Get(m1, u) + (if u in merged then Get(m2, u) else 0);
    }
    EqualKeysAndCounts(r, SumMaps(m1, m2));
  }

  /**
   * performCooccurrenceAnalysisWithoutGatherer: the empty table for a window
   * outside 1 .. N, otherwise the toMap collection over all positions.
   */
  method PerformCooccurrenceAnalysisWithoutGatherer(window: int, tokens: seq<string>) returns (table: Table)
    ensures table == Cooccurrences(tokens, window)
  {
    if window < 1 || window > |tokens| {
      return map[];
    }
    table := CollectPositions(tokens, window);
  }

  /** range(0, N).boxed().collect(toMap(...)): every position collected in order. */
  method CollectPositions(tokens: seq<string>, window: int) returns (table: Table)
    ensures table == Integrated(map[], tokens, window, |tokens|)
  {
    table := map[];
    IntegratedZero(map[], tokens, window);
    for i := 0 to |tokens|
      invariant table == Integrated(map[], tokens, window, i)
    {
      table := CollectPosition(table, tokens, window, i);
    }
  }

  /** The element (tokens[i], neighbour map of i) of the stream, collected into the table so far. */
  method CollectPosition(table: Table, tokens: seq<string>, window: int, i: nat) returns (r: Table)
    requires i < |tokens| && table == Integrated(map[], tokens, window, i)
    ensures r == Integrated(map[], tokens, window, i + 1)
  {
    var m := NeighbourMapOf(tokens, window, i);
    IntegratedStep(map[], tokens, window, i);
    r := PutMerging(table, tokens[i], m);
  }

  /** One element collected by toMap: a new key is put, a repeated key has its value merged by sum. */
  method PutMerging(table: Table, center: string, m: Counts) returns (r: Table)
    ensures r == table[center := SumMaps(Row(table, center), m)]
  {
    if center in table {
      var merged := MergeBySum(table[center], m);
      r := table[center := merged];
    } else {
      SumMapsIdentity(m);
      r := table[center := m];
    }
  }

  /**
   * performCooccurrenceAnalysisWithGatherer: the empty table for a window
   * outside 1 .. N; otherwise the stream of tokens is driven through a fresh
   * gatherer (initializer, then the integrator once per element until it
   * returns false) and the first pushed element is the result, an
   * IllegalStateException (Failure) when nothing was pushed, which never happens.
   */
  method PerformCooccurrenceAnalysisWithGatherer(window: int, tokens: seq<string>) returns (r: Result<Table>)
    ensures r == Success(Cooccurrences(tokens, window))
  {
    if window < 1 || window > |tokens| {
      return Success(map[]);
    }
    var gatherer := new CooccurrenceAnalysisGatherer(tokens, window);
    var state := gatherer.Initializer();
    var downstream := new Downstream();
    var k := 0;
    var more := true;
    while k < |tokens| && more
      invariant 0 <= k <= 1 && (more <==> k == 0)
      invariant gatherer.tokens == tokens && gatherer.window == window
      invariant k == 0 ==> !gatherer.done && state.entries == map[] && downstream.pushed == []
      invariant k == 1 ==> downstream.pushed == [Integrated(map[], tokens, window, |tokens|)]
    {
      more := gatherer.Integrate(state, tokens[k], downstream);
      k := k + 1;
    }
    // findFirst().orElseThrow(...)
    r := if |downstream.pushed| > 0 then Success(downstream.pushed[0])
         else Failure("Gatherer sollte ein Ergebnis liefern.");
  }

  /** The two analyses return the same table on every input. */
  method CooccurrenceRealisationsAgree(window: int, tokens: seq<string>) returns (same: bool)
    ensures same
  {
    var eager := PerformCooccurrenceAnalysisWithoutGatherer(window, tokens);
    var gathered := PerformCooccurrenceAnalysisWithGatherer(window, tokens);
    same := gathered == Success(eager);
  }
}
