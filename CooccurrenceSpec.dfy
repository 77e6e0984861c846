/**
 * What a co-occurrence table means (src/Main.java, src/CooccurrenceAnalysisGatherer.java).
 *
 * For a token sequence and a window, the table maps every distinct token t to
 * a map from neighbour token u to the number of position pairs (i, j) with
 * tokens[i] = t, tokens[j] = u, j != i and |i - j| <= window. The counts are
 * built up the way both realisations build them: position by position
 * (PairCount over i), and within a position offset by offset (WindowCount
 * over j); PairSet is the same number stated directly as a set of pairs.
 */
module CooccurrenceSpec {

  /** A neighbour map: neighbour token to count (a Long in the source, never negative). */
  type Counts = map<string, nat>

  /** A co-occurrence table: centre token to its neighbour map. */
  type Table = map<string, Counts>

  /** The count of u, 0 when u is not a key. */
  function Get(m: Counts, u: string): nat
  {
    if u in m then m[u] else 0
  }

  /** The neighbour map of t, empty when t is not a key. */
  function Row(table: Table, t: string): Counts
  {
    if t in table then table[t] else map[]
  }

  /** Merging two neighbour maps with Long::sum: keys of either, counts added. */
  function SumMaps(a: Counts, b: Counts): (r: Counts)
    ensures r.Keys == a.Keys + b.Keys
    ensures forall u :: Get(r, u) == Get(a, u) + Get(b, u)
  {
    map u | u in a.Keys + b.Keys :: Get(a, u) + Get(b, u)
  }

  /** map.merge(u, 1L, Long::sum): one more occurrence of u. */
  function Bump(m: Counts, u: string): Counts
  {
    m[u := Get(m, u) + 1]
  }

  /** Offset j is a neighbour position of centre i: inside the sequence and not i itself. */
  predicate Counted(tokens: seq<string>, i: int, j: int)
  {
    0 <= j < |tokens| && j != i
  }

  /** The number of neighbour positions j of i with lo <= j < hi that hold u. */
  function WindowCount(tokens: seq<string>, i: int, lo: int, hi: int, u: string): nat
    decreases hi - lo
  {
    if hi <= lo then 0
    else WindowCount(tokens, i, lo, hi - 1, u) + (if Counted(tokens, i, hi - 1) && tokens[hi - 1] == u then 1 else 0)
  }

  /** The neighbour map of centre i over the offsets lo <= j < hi: only positive counts are keys. */
  function WindowMap(tokens: seq<string>, i: int, lo: int, hi: int): Counts
  {
    map u | u in tokens && WindowCount(tokens, i, lo, hi, u) > 0 :: WindowCount(tokens, i, lo, hi, u)
  }

  /** The neighbour map of centre i for the whole window i - window .. i + window. */
  function NeighbourMap(tokens: seq<string>, window: int, i: int): Counts
  {
    WindowMap(tokens, i, i - window, i + window + 1)
  }

  /** The number of (i, j) pairs with i < n, tokens[i] = t, tokens[j] = u, j a neighbour position of i. */
  function PairCount(tokens: seq<string>, window: int, n: nat, t: string, u: string): nat
    requires n <= |tokens|
  {
    if n == 0 then 0
    else
      PairCount(tokens, window, n - 1, t, u)
      + (if tokens[n - 1] == t then WindowCount(tokens, n - 1, n - 1 - window, n + window, u) else 0)
  }

  /** The neighbour map of t summed over the centre positions before n. */
  function NeighbourCounts(tokens: seq<string>, window: int, n: nat, t: string): Counts
    requires n <= |tokens|
  {
    map u | u in tokens && PairCount(tokens, window, n, t, u) > 0 :: PairCount(tokens, window, n, t, u)
  }

  /** The tokens at the positions before n. */
  function Seen(tokens: seq<string>, n: nat): set<string>
    requires n <= |tokens|
  {
    set k | 0 <= k < n :: tokens[k]
  }

  /**
   * The table after the centre positions before n have been added to `init`:
   * every token seen so far is a key, and each count is its initial value plus
   * the pair count so far.
   */
  function Integrated(init: Table, tokens: seq<string>, window: int, n: nat): Table
    requires n <= |tokens|
  {
    map t | t in init.Keys + Seen(tokens, n) :: SumMaps(Row(init, t), NeighbourCounts(tokens, window, n, t))
  }

  /** The co-occurrence table, with the empty-table policy for a window outside 1 .. N. */
  function Cooccurrences(tokens: seq<string>, window: int): Table
  {
    if window < 1 || window > |tokens| then map[]
    else Integrated(map[], tokens, window, |tokens|)
  }

  /** The co-occurring position pairs of t and u, stated directly. */
  function PairSet(tokens: seq<string>, window: int, t: string, u: string): set<(int, int)>
  {
    set i, j | 0 <= i < |tokens| && 0 <= j < |tokens| && i != j && i - window <= j <= i + window
                 && tokens[i] == t && tokens[j] == u :: (i, j)
  }

  // ---------------------------------------------------------------------------
  // Properties of the merge operations

  lemma SumMapsIdentity(a: Counts)
    ensures SumMaps(a, map[]) == a && SumMaps(map[], a) == a
  {
  }

  /** Maps with the same keys and the same counts are equal. */
  lemma EqualKeysAndCounts(a: Counts, b: Counts)
    requires a.Keys == b.Keys
    requires forall u :: Get(a, u) == Get(b, u)
    ensures a == b
  {
    forall u | u in a ensures a[u] == b[u] {
      assert Get(a, u) == Get(b, u);
    }
  }

  lemma SumMapsAssociative(a: Counts, b: Counts, c: Counts)
    ensures SumMaps(SumMaps(a, b), c) == SumMaps(a, SumMaps(b, c))
  {
    EqualKeysAndCounts(SumMaps(SumMaps(a, b), c), SumMaps(a, SumMaps(b, c)));
  }

  lemma SumMapsCommutative(a: Counts, b: Counts)
    ensures SumMaps(a, b) == SumMaps(b, a)
  {
    EqualKeysAndCounts(SumMaps(a, b), SumMaps(b, a));
  }

  lemma SumMapsBump(a: Counts, b: Counts, u: string)
    ensures SumMaps(a, Bump(b, u)) == Bump(SumMaps(a, b), u)
  {
    var lhs := SumMaps(a, Bump(b, u));
    var rhs := Bump(SumMaps(a, b), u);
    assert lhs.Keys == rhs.Keys;
    forall v ensures Get(lhs, v) == Get(rhs, v) {
      GetBump(b, u, v);
      GetBump(SumMaps(a, b), u, v);
    }
    EqualKeysAndCounts(lhs, rhs);
  }

  lemma GetBump(m: Counts, u: string, v: string)
    ensures Get(Bump(m, u), v) == Get(m, v) + (if v == u then 1 else 0)
  {
  }

  // ---------------------------------------------------------------------------
  // How the counts grow, one offset and one centre position at a time

  lemma {:induction false} WindowCountHolds(tokens: seq<string>, i: int, lo: int, hi: int, u: string)
    requires WindowCount(tokens, i, lo, hi, u) > 0
    ensures u in tokens
    decreases hi - lo
  {
    if !(Counted(tokens, i, hi - 1) && tokens[hi - 1] == u) {
      WindowCountHolds(tokens, i, lo, hi - 1, u);
    }
  }

  lemma {:induction false} PairCountHolds(tokens: seq<string>, window: int, n: nat, t: string, u: string)
    requires n <= |tokens|
    requires PairCount(tokens, window, n, t, u) > 0
    ensures u in tokens
    ensures t in Seen(tokens, n)
  {
    if tokens[n - 1] == t && WindowCount(tokens, n - 1, n - 1 - window, n + window, u) > 0 {
      WindowCountHolds(tokens, n - 1, n - 1 - window, n + window, u);
    } else {
      PairCountHolds(tokens, window, n - 1, t, u);
    }
  }

  /** One more offset j: the neighbour map gains one occurrence of tokens[j] when j is a neighbour position. */
  lemma WindowMapStep(tokens: seq<string>, i: int, lo: int, j: int)
    requires lo <= j
    ensures WindowMap(tokens, i, lo, j + 1)
         == if Counted(tokens, i, j) then Bump(WindowMap(tokens, i, lo, j), tokens[j]) else WindowMap(tokens, i, lo, j)
  {
    if Counted(tokens, i, j) {
      var a := WindowMap(tokens, i, lo, j + 1);
      var b := Bump(WindowMap(tokens, i, lo, j), tokens[j]);
      forall u | u in b ensures u in a {
        if u != tokens[j] {
          WindowCountHolds(tokens, i, lo, j, u);
        }
      }
      assert a.Keys == b.Keys;
    }
  }

  lemma WindowMapEmpty(tokens: seq<string>, i: int, lo: int, hi: int)
    requires hi <= lo
    ensures WindowMap(tokens, i, lo, hi) == map[]
  {
  }

  lemma SeenStep(tokens: seq<string>, n: nat)
    requires n < |tokens|
    ensures Seen(tokens, n + 1) == Seen(tokens, n) + {tokens[n]}
  {
  }

  lemma {:induction false} PairCountUnseen(tokens: seq<string>, window: int, n: nat, t: string, u: string)
    requires n <= |tokens|
    requires t !in Seen(tokens, n)
    ensures PairCount(tokens, window, n, t, u) == 0
  {
    if n > 0 {
      assert tokens[n - 1] in Seen(tokens, n);
      assert Seen(tokens, n - 1) <= Seen(tokens, n);
      PairCountUnseen(tokens, window, n - 1, t, u);
    }
  }

  /** The neighbour map of t so far holds exactly the pair counts. */
  lemma GetNeighbourCounts(tokens: seq<string>, window: int, n: nat, t: string, u: string)
    requires n <= |tokens|
    ensures Get(NeighbourCounts(tokens, window, n, t), u) == PairCount(tokens, window, n, t, u)
  {
    if PairCount(tokens, window, n, t, u) > 0 {
      PairCountHolds(tokens, window, n, t, u);
    }
  }

  /** The neighbour map over lo .. hi holds exactly the window counts. */
  lemma GetWindowMap(tokens: seq<string>, i: int, lo: int, hi: int, u: string)
    ensures Get(WindowMap(tokens, i, lo, hi), u) == WindowCount(tokens, i, lo, hi, u)
  {
    if WindowCount(tokens, i, lo, hi, u) > 0 {
      WindowCountHolds(tokens, i, lo, hi, u);
    }
  }

  /** Centre position n adds its neighbour map to the entry of tokens[n], and nothing else. */
  lemma NeighbourCountsStep(tokens: seq<string>, window: int, n: nat, t: string)
    requires n < |tokens|
    ensures NeighbourCounts(tokens, window, n + 1, t)
         == if t == tokens[n] then SumMaps(NeighbourCounts(tokens, window, n, t), NeighbourMap(tokens, window, n))
            else NeighbourCounts(tokens, window, n, t)
  {
    var a := NeighbourCounts(tokens, window, n + 1, t);
    var b := if t == tokens[n] then SumMaps(NeighbourCounts(tokens, window, n, t), NeighbourMap(tokens, window, n))
             else NeighbourCounts(tokens, window, n, t);
    forall u ensures Get(a, u) == Get(b, u) {
      GetNeighbourCounts(tokens, window, n + 1, t, u);
      GetNeighbourCounts(tokens, window, n, t, u);
      GetWindowMap(tokens, n, n - window, n + window + 1, u);
      PairCountStep(tokens, window, n, t, u);
    }
    EqualByGet(a, b);
  }

  lemma PairCountStep(tokens: seq<string>, window: int, n: nat, t: string, u: string)
    requires n < |tokens|
    ensures PairCount(tokens, window, n + 1, t, u)
         == PairCount(tokens, window, n, t, u)
            + (if tokens[n] == t then WindowCount(tokens, n, n - window, n + window + 1, u) else 0)
  {
    assert n + 1 - 1 - window == n - window;
  }

  /** A map without zero counts, such as every neighbour map. */
  ghost predicate Positive(m: Counts)
  {
    forall u :: u in m ==> m[u] > 0
  }

  /** Two maps without zero counts are equal when every count is. */
  lemma EqualByGet(a: Counts, b: Counts)
    requires Positive(a) && Positive(b)
    requires forall u :: Get(a, u) == Get(b, u)
    ensures a == b
  {
    forall u ensures u in a <==> u in b {
      assert Get(a, u) == Get(b, u);
    }
    assert a.Keys == b.Keys;
    forall u | u in a ensures a[u] == b[u] {
      assert Get(a, u) == Get(b, u);
    }
  }

  lemma IntegratedZero(init: Table, tokens: seq<string>, window: int)
    ensures Integrated(init, tokens, window, 0) == init
  {
    var r := Integrated(init, tokens, window, 0);
    assert Seen(tokens, 0) == {};
    forall t | t in init ensures r[t] == init[t] {
      assert NeighbourCounts(tokens, window, 0, t) == map[];
      SumMapsIdentity(init[t]);
    }
  }

  /** The entry of t so far, whether or not t is a key yet. */
  lemma IntegratedRow(init: Table, tokens: seq<string>, window: int, n: nat, t: string)
    requires n <= |tokens|
    ensures Row(Integrated(init, tokens, window, n), t) == SumMaps(Row(init, t), NeighbourCounts(tokens, window, n, t))
  {
    if t !in Integrated(init, tokens, window, n) {
      assert t !in Seen(tokens, n);
      assert NeighbourCounts(tokens, window, n, t) == map[] by {
        forall u ensures PairCount(tokens, window, n, t, u) == 0 {
          PairCountUnseen(tokens, window, n, t, u);
        }
      }
      SumMapsIdentity(map[]);
    }
  }

  /** Centre position n merges its neighbour map into the entry of tokens[n] (creating it if absent). */
  lemma IntegratedStep(init: Table, tokens: seq<string>, window: int, n: nat)
    requires n < |tokens|
    ensures Integrated(init, tokens, window, n + 1)
         == Integrated(init, tokens, window, n)[tokens[n] :=
              SumMaps(Row(Integrated(init, tokens, window, n), tokens[n]), NeighbourMap(tokens, window, n))]
  {
    var before := Integrated(init, tokens, window, n);
    var after := Integrated(init, tokens, window, n + 1);
    var c := tokens[n];
    var expected := before[c := SumMaps(Row(before, c), NeighbourMap(tokens, window, n))];
    assert after.Keys == expected.Keys by {
      SeenStep(tokens, n);
    }
    assert forall t | t in after :: after[t] == expected[t] by {
      forall t | t in after ensures after[t] == expected[t] {
        if t == c {
          IntegratedStepAtCentre(init, tokens, window, n);
        } else {
          IntegratedStepElsewhere(init, tokens, window, n, t);
        }
      }
    }
  }

  lemma IntegratedStepElsewhere(init: Table, tokens: seq<string>, window: int, n: nat, t: string)
    requires n < |tokens|
    requires t in Integrated(init, tokens, window, n + 1) && t != tokens[n]
    ensures t in Integrated(init, tokens, window, n)
    ensures Integrated(init, tokens, window, n + 1)[t] == Integrated(init, tokens, window, n)[t]
  {
    SeenStep(tokens, n);
    NeighbourCountsStep(tokens, window, n, t);
  }

  lemma IntegratedStepAtCentre(init: Table, tokens: seq<string>, window: int, n: nat)
    requires n < |tokens|
    ensures tokens[n] in Integrated(init, tokens, window, n + 1)
    ensures Integrated(init, tokens, window, n + 1)[tokens[n]]
         == SumMaps(Row(Integrated(init, tokens, window, n), tokens[n]), NeighbourMap(tokens, window, n))
  {
    var c := tokens[n];
    SeenStep(tokens, n);
    var nc := NeighbourCounts(tokens, window, n, c);
    var nm := NeighbourMap(tokens, window, n);
    NeighbourCountsStep(tokens, window, n, c);
    assert NeighbourCounts(tokens, window, n + 1, c) == SumMaps(nc, nm);
    IntegratedRow(init, tokens, window, n, c);
    SumMapsAssociative(Row(init, c), nc, nm);
  }

  // ---------------------------------------------------------------------------
  // The pair count is the number of co-occurring pairs

  /** The pairs (i, j) counted by WindowCount(tokens, i, lo, hi, u), built up offset by offset. */
  function RowSet(tokens: seq<string>, i: int, lo: int, hi: int, u: string): set<(int, int)>
    decreases hi - lo
  {
    if hi <= lo then {}
    else RowSet(tokens, i, lo, hi - 1, u) + (if Counted(tokens, i, hi - 1) && tokens[hi - 1] == u then {(i, hi - 1)} else {})
  }

  /** The pairs counted by PairCount(tokens, window, n, t, u), built up centre by centre. */
  function PairSetBefore(tokens: seq<string>, window: int, n: nat, t: string, u: string): set<(int, int)>
    requires n <= |tokens|
  {
    if n == 0 then {}
    else
      PairSetBefore(tokens, window, n - 1, t, u)
      + (if tokens[n - 1] == t then RowSet(tokens, n - 1, n - 1 - window, n + window, u) else {})
  }

  predicate IsPair(tokens: seq<string>, window: int, t: string, u: string, p: (int, int))
  {
    0 <= p.0 < |tokens| && 0 <= p.1 < |tokens| && p.0 != p.1 && p.0 - window <= p.1 <= p.0 + window
    && tokens[p.0] == t && tokens[p.1] == u
  }

  lemma CardUnion<T>(a: set<T>, b: set<T>, c: set<T>)
    requires a == b + c && b !! c
    ensures |a| == |b| + |c|
  {
  }

  lemma {:induction false} RowSetMembers(tokens: seq<string>, i: int, lo: int, hi: int, u: string, p: (int, int))
    ensures p in RowSet(tokens, i, lo, hi, u) <==> p.0 == i && lo <= p.1 < hi && Counted(tokens, i, p.1) && tokens[p.1] == u
    decreases hi - lo
  {
    if hi > lo {
      RowSetMembers(tokens, i, lo, hi - 1, u, p);
    }
  }

  lemma {:induction false} RowSetSize(tokens: seq<string>, i: int, lo: int, hi: int, u: string)
    ensures |RowSet(tokens, i, lo, hi, u)| == WindowCount(tokens, i, lo, hi, u)
    decreases hi - lo
  {
    if hi > lo {
      RowSetSize(tokens, i, lo, hi - 1, u);
      var prev := RowSet(tokens, i, lo, hi - 1, u);
      if Counted(tokens, i, hi - 1) && tokens[hi - 1] == u {
        RowSetMembers(tokens, i, lo, hi - 1, u, (i, hi - 1));
        CardUnion(RowSet(tokens, i, lo, hi, u), prev, {(i, hi - 1)});
      }
    }
  }

  lemma {:induction false} PairSetBeforeMembers(tokens: seq<string>, window: int, n: nat, t: string, u: string, p: (int, int))
    requires n <= |tokens|
    ensures p in PairSetBefore(tokens, window, n, t, u) <==> p.0 < n && IsPair(tokens, window, t, u, p)
  {
    if n > 0 {
      PairSetBeforeMembers(tokens, window, n - 1, t, u, p);
      RowSetMembers(tokens, n - 1, n - 1 - window, n + window, u, p);
    }
  }

  lemma DisjointRows(tokens: seq<string>, window: int, n: nat, t: string, u: string)
    requires 0 < n <= |tokens|
    ensures PairSetBefore(tokens, window, n - 1, t, u) !! RowSet(tokens, n - 1, n - 1 - window, n + window, u)
  {
    var row := RowSet(tokens, n - 1, n - 1 - window, n + window, u);
    var prev := PairSetBefore(tokens, window, n - 1, t, u);
    forall p | p in row ensures p !in prev {
      RowSetMembers(tokens, n - 1, n - 1 - window, n + window, u, p);
      PairSetBeforeMembers(tokens, window, n - 1, t, u, p);
    }
  }

  lemma {:induction false} PairSetBeforeSize(tokens: seq<string>, window: int, n: nat, t: string, u: string)
    requires n <= |tokens|
    ensures |PairSetBefore(tokens, window, n, t, u)| == PairCount(tokens, window, n, t, u)
  {
    if n > 0 {
      PairSetBeforeSize(tokens, window, n - 1, t, u);
      if tokens[n - 1] == t {
        PairSetBeforeGrows(tokens, window, n, t, u);
      }
    }
  }

  /** A centre position holding t adds its row of pairs, none of them counted before. */
  lemma PairSetBeforeGrows(tokens: seq<string>, window: int, n: nat, t: string, u: string)
    requires 0 < n <= |tokens| && tokens[n - 1] == t
    ensures |PairSetBefore(tokens, window, n, t, u)|
         == |PairSetBefore(tokens, window, n - 1, t, u)| + WindowCount(tokens, n - 1, n - 1 - window, n + window, u)
  {
    var prev := PairSetBefore(tokens, window, n - 1, t, u);
    var row := RowSet(tokens, n - 1, n - 1 - window, n + window, u);
    var all := PairSetBefore(tokens, window, n, t, u);
    DisjointRows(tokens, window, n, t, u);
    CardUnion(all, prev, row);
    RowSetSize(tokens, n - 1, n - 1 - window, n + window, u);
  }

  lemma PairCountIsPairSetSize(tokens: seq<string>, window: int, t: string, u: string)
    ensures PairCount(tokens, window, |tokens|, t, u) == |PairSet(tokens, window, t, u)|
  {
    PairSetBeforeSize(tokens, window, |tokens|, t, u);
    var a := PairSetBefore(tokens, window, |tokens|, t, u);
    var b := PairSet(tokens, window, t, u);
    forall p ensures p in a <==> p in b {
      PairSetBeforeMembers(tokens, window, |tokens|, t, u, p);
    }
    assert a == b;
  }

  // ---------------------------------------------------------------------------
  // What the table holds

  lemma SeenAll(tokens: seq<string>)
    ensures Seen(tokens, |tokens|) == set t | t in tokens
  {
    forall t | t in tokens ensures t in Seen(tokens, |tokens|) {
      var k :| 0 <= k < |tokens| && tokens[k] == t;
    }
  }

  /**
   * After all centre positions have been added to `init`: the keys are those of
   * `init` and every token, and every count is its initial value plus the
   * number of co-occurring position pairs.
   */
  lemma IntegratedCounts(init: Table, tokens: seq<string>, window: int, t: string, u: string)
    ensures Integrated(init, tokens, window, |tokens|).Keys == init.Keys + set x | x in tokens
    ensures Get(Row(Integrated(init, tokens, window, |tokens|), t), u)
         == Get(Row(init, t), u) + |PairSet(tokens, window, t, u)|
  {
    SeenAll(tokens);
    PairCountIsPairSetSize(tokens, window, t, u);
    var r := Integrated(init, tokens, window, |tokens|);
    if t !in r {
      assert t !in Seen(tokens, |tokens|);
      PairCountUnseen(tokens, window, |tokens|, t, u);
    } else if PairCount(tokens, window, |tokens|, t, u) > 0 {
      PairCountHolds(tokens, window, |tokens|, t, u);
    }
  }

  /** An invalid window gives the empty table. */
  lemma CooccurrencesOutOfRange(tokens: seq<string>, window: int)
    requires window < 1 || window > |tokens|
    ensures Cooccurrences(tokens, window) == map[]
  {
  }

  /**
   * For a valid window the keys are exactly the distinct tokens, the count of
   * u in the entry of t (0 when absent) is the number of co-occurring pairs,
   * and only positive counts are stored.
   */
  lemma CooccurrencesCounts(tokens: seq<string>, window: int, t: string, u: string)
    requires 1 <= window <= |tokens|
    ensures Cooccurrences(tokens, window).Keys == set x | x in tokens
    ensures Get(Row(Cooccurrences(tokens, window), t), u) == |PairSet(tokens, window, t, u)|
    ensures t in Cooccurrences(tokens, window) && u in Cooccurrences(tokens, window)[t]
            ==> Cooccurrences(tokens, window)[t][u] >= 1
  {
    IntegratedCounts(map[], tokens, window, t, u);
  }

  lemma CooccurrenceExample()
    ensures Row(Cooccurrences(["a", "b", "a", "c"], 1), "a") == map["b" := 2, "c" := 1]
  {
    var tokens := ["a", "b", "a", "c"];
    // position 0 sees "b"; position 2 sees "b" and "c"
    assert WindowCount(tokens, 0, -1, 2, "a") == 0;
    assert WindowCount(tokens, 0, -1, 2, "b") == 1;
    assert WindowCount(tokens, 0, -1, 2, "c") == 0;
    assert WindowCount(tokens, 2, 1, 4, "a") == 0;
    assert WindowCount(tokens, 2, 1, 4, "b") == 1;
    assert WindowCount(tokens, 2, 1, 4, "c") == 1;
    forall u | u in {"a", "b", "c"}
      ensures PairCount(tokens, 1, 4, "a", u) == WindowCount(tokens, 0, -1, 2, u) + WindowCount(tokens, 2, 1, 4, u)
    {
      assert PairCount(tokens, 1, 1, "a", u) == WindowCount(tokens, 0, -1, 2, u);
      assert PairCount(tokens, 1, 2, "a", u) == PairCount(tokens, 1, 1, "a", u);
      assert PairCount(tokens, 1, 3, "a", u) == PairCount(tokens, 1, 2, "a", u) + WindowCount(tokens, 2, 1, 4, u);
    }
    var row := NeighbourCounts(tokens, 1, 4, "a");
    assert forall u :: u in tokens ==> u in {"a", "b", "c"};
    assert row == map["b" := 2, "c" := 1];
    IntegratedRow(map[], tokens, 1, 4, "a");
    SumMapsIdentity(row);
  }
}
