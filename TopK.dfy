/**
 * findTopKCooccurrences of src/Main.java.
 *
 * The neighbour map of the lower-cased centre word is turned into its entry
 * stream, sorted by count in descending order, cut to the first k entries
 * and collected into a LinkedHashMap, which keeps the order of insertion. The
 * LinkedHashMap is modelled as the sequence of its entries. A HashMap fixes
 * no iteration order, so the entry stream is an arbitrary but fixed listing
 * of the map (EntryList); the properties below hold for every listing.
 */
module TopK {
  import opened Wrappers
  import opened Ints
  import opened CooccurrenceSpec

  /** A Map.Entry<String, Long> of a neighbour map. */
  datatype Entry = Entry(key: string, count: nat)

  function Keys(es: seq<Entry>): set<string>
  {
    set e | e in es :: e.key
  }

  predicate DistinctKeys(es: seq<Entry>)
  {
    forall i, j | 0 <= i < j < |es| :: es[i].key != es[j].key
  }

  predicate NonIncreasing(es: seq<Entry>)
  {
    forall i, j | 0 <= i < j < |es| :: es[i].count >= es[j].count
  }

  /** Every entry is an entry of m. */
  predicate EntriesOf(es: seq<Entry>, m: Counts)
  {
    forall e | e in es :: e.key in m && m[e.key] == e.count
  }

  lemma KeysAppend(es: seq<Entry>, e: Entry)
    ensures Keys(es + [e]) == Keys(es) + {e.key}
  {
    assert forall x | x in es + [e] :: x in es || x == e;
  }

  lemma KeysPrepend(e: Entry, es: seq<Entry>)
    ensures Keys([e] + es) == {e.key} + Keys(es)
  {
    assert forall x | x in [e] + es :: x == e || x in es;
  }

  /** entrySet().stream(): the entries of m, each key once, in some order. */
  ghost function EntryList(m: Counts): (es: seq<Entry>)
    ensures |es| == |m|
    ensures DistinctKeys(es) && Keys(es) == m.Keys && EntriesOf(es, m)
    decreases |m|
  {
    if |m| == 0 then []
    else
      var u :| u in m;
      RemoveOne(m, u);
      var tail := EntryList(m - {u});
      ListingCons(m, u, tail);
      [Entry(u, m[u])] + tail
  }

  /** Listing one entry of m in front of a listing of the rest lists m. */
  lemma ListingCons(m: Counts, u: string, tail: seq<Entry>)
    requires u in m
    requires |tail| == |m - {u}| && DistinctKeys(tail) && Keys(tail) == (m - {u}).Keys && EntriesOf(tail, m - {u})
    ensures var es := [Entry(u, m[u])] + tail;
            |es| == |m| && DistinctKeys(es) && Keys(es) == m.Keys && EntriesOf(es, m)
  {
    RemoveOne(m, u);
    var e := Entry(u, m[u]);
    KeysPrepend(e, tail);
    ConsDistinct(e, tail);
    forall x | x in [e] + tail ensures x.key in m && m[x.key] == x.count {
      if x != e {
        assert x in tail;
      }
    }
  }

  lemma RemoveOne(m: Counts, u: string)
    requires u in m
    ensures (m - {u}).Keys == m.Keys - {u}
    ensures |m - {u}| == |m| - 1
  {
    assert (m - {u}).Keys == m.Keys - {u};
    assert |m.Keys - {u}| == |m.Keys| - 1;
  }

  lemma ConsDistinct(e: Entry, es: seq<Entry>)
    requires DistinctKeys(es) && e.key !in Keys(es)
    ensures DistinctKeys([e] + es)
  {
    var r := [e] + es;
    forall i, j | 0 <= i < j < |r| ensures r[i].key != r[j].key {
      assert r[j] == es[j - 1];
      if i > 0 {
        assert r[i] == es[i - 1];
      } else {
        assert es[j - 1] in es;
      }
    }
  }

  lemma ConsNonIncreasing(x: Entry, t: seq<Entry>)
    requires NonIncreasing(t)
    requires forall y | y in t :: y.count <= x.count
    ensures NonIncreasing([x] + t)
  {
    var r := [x] + t;
    forall i, j | 0 <= i < j < |r| ensures r[i].count >= r[j].count {
      assert r[j] == t[j - 1];
      if i > 0 {
        assert r[i] == t[i - 1];
      } else {
        assert t[j - 1] in t;
      }
    }
  }

  lemma TailNonIncreasing(s: seq<Entry>)
    requires |s| > 0 && NonIncreasing(s)
    ensures NonIncreasing(s[1..])
    ensures forall y | y in s[1..] :: y.count <= s[0].count
  {
    forall y | y in s[1..] ensures y.count <= s[0].count {
      var j :| 0 <= j < |s[1..]| && s[1..][j] == y;
      assert s[j + 1] == y;
    }
  }

  /**
   * One step of the stable sort by descending count: e goes in front of the
   * first entry whose count is not larger.
   */
  function InsertDesc(e: Entry, s: seq<Entry>): (r: seq<Entry>)
    ensures multiset(r) == multiset(s) + multiset{e}
    ensures |r| == |s| + 1
    ensures NonIncreasing(s) ==> NonIncreasing(r)
  {
    if s == [] || s[0].count <= e.count then
      assert NonIncreasing(s) ==> NonIncreasing([e] + s) by {
        if NonIncreasing(s) {
          TailBelowHead(e, s);
          ConsNonIncreasing(e, s);
        }
      }
      [e] + s
    else
      var rest := InsertDesc(e, s[1..]);
      assert s == [s[0]] + s[1..];
      assert NonIncreasing(s) ==> NonIncreasing([s[0]] + rest) by {
        if NonIncreasing(s) {
          TailNonIncreasing(s);
          InsertedBelowHead(e, s, rest);
          ConsNonIncreasing(s[0], rest);
        }
      }
      [s[0]] + rest
  }

  lemma TailBelowHead(e: Entry, s: seq<Entry>)
    requires NonIncreasing(s) && (s == [] || s[0].count <= e.count)
    ensures forall y | y in s :: y.count <= e.count
  {
    if s != [] {
      TailNonIncreasing(s);
      assert s == [s[0]] + s[1..];
    }
  }

  lemma InsertedBelowHead(e: Entry, s: seq<Entry>, rest: seq<Entry>)
    requires |s| > 0 && e.count < s[0].count
    requires multiset(rest) == multiset(s[1..]) + multiset{e}
    requires forall y | y in s[1..] :: y.count <= s[0].count
    ensures forall y | y in rest :: y.count <= s[0].count
  {
    forall y | y in rest ensures y.count <= s[0].count {
      assert y in multiset(rest);
      if y != e {
        assert y in multiset(s[1..]);
      }
    }
  }

  /** sorted(Collections.reverseOrder(comparingByValue())): a permutation in descending order of count. */
  function SortByCountDesc(es: seq<Entry>): (r: seq<Entry>)
    ensures multiset(r) == multiset(es)
    ensures |r| == |es|
    ensures NonIncreasing(r)
  {
    if es == [] then []
    else
      assert es == [es[0]] + es[1..];
      InsertDesc(es[0], SortByCountDesc(es[1..]))
  }

  /** A permutation has the same elements. */
  lemma PermutationKeys(a: seq<Entry>, b: seq<Entry>)
    requires multiset(a) == multiset(b)
    ensures forall e :: e in a <==> e in b
  {
    forall e ensures e in a <==> e in b {
      assert e in a <==> e in multiset(a);
      assert e in b <==> e in multiset(b);
    }
  }

  lemma {:induction false} InsertDescKeys(e: Entry, s: seq<Entry>)
    ensures Keys(InsertDesc(e, s)) == {e.key} + Keys(s)
    ensures DistinctKeys(s) && e.key !in Keys(s) ==> DistinctKeys(InsertDesc(e, s))
    decreases |s|
  {
    if s == [] || s[0].count <= e.count {
      KeysPrepend(e, s);
      if DistinctKeys(s) && e.key !in Keys(s) {
        ConsDistinct(e, s);
      }
    } else {
      var rest := InsertDesc(e, s[1..]);
      assert s == [s[0]] + s[1..];
      KeysPrepend(s[0], s[1..]);
      KeysPrepend(s[0], rest);
      InsertDescKeys(e, s[1..]);
      if DistinctKeys(s) && e.key !in Keys(s) {
        assert DistinctKeys(s[1..]);
        assert s[0].key !in Keys(s[1..]);
        ConsDistinct(s[0], rest);
      }
    }
  }

  /** Sorting keeps the keys, and distinct keys stay distinct. */
  lemma {:induction false} SortKeys(es: seq<Entry>)
    ensures Keys(SortByCountDesc(es)) == Keys(es)
    ensures DistinctKeys(es) ==> DistinctKeys(SortByCountDesc(es))
    decreases |es|
  {
    if es != [] {
      assert es == [es[0]] + es[1..];
      KeysPrepend(es[0], es[1..]);
      SortKeys(es[1..]);
      InsertDescKeys(es[0], SortByCountDesc(es[1..]));
      if DistinctKeys(es) {
        assert DistinctKeys(es[1..]);
        assert es[0].key !in Keys(es[1..]);
      }
    }
  }

  /** The LinkedHashMap step of toMap with merge (e1, e2) -> e1: a key already present keeps its first entry. */
  function PutFirstWins(acc: seq<Entry>, e: Entry): seq<Entry>
  {
    if e.key in Keys(acc) then acc else acc + [e]
  }

  /** collect(toMap(getKey, getValue, (e1, e2) -> e1, LinkedHashMap::new)), entry by entry in stream order. */
  function CollectLinked(es: seq<Entry>): (r: seq<Entry>)
    ensures Keys(r) == Keys(es)
    ensures DistinctKeys(r)
    ensures DistinctKeys(es) ==> r == es
    decreases |es|
  {
    if es == [] then []
    else
      var init := es[..|es| - 1];
      var last := es[|es| - 1];
      assert es == init + [last];
      var acc := CollectLinked(init);
      KeysAppend(init, last);
      PutFirstWinsKeeps(acc, last);
      assert DistinctKeys(es) ==> last.key !in Keys(init) by {
        if DistinctKeys(es) {
          DistinctLast(init, last);
        }
      }
      PutFirstWins(acc, last)
  }

  /** Putting one entry keeps the keys distinct and adds its key. */
  lemma PutFirstWinsKeeps(acc: seq<Entry>, e: Entry)
    requires DistinctKeys(acc)
    ensures DistinctKeys(PutFirstWins(acc, e))
    ensures Keys(PutFirstWins(acc, e)) == Keys(acc) + {e.key}
    ensures e.key !in Keys(acc) ==> PutFirstWins(acc, e) == acc + [e]
  {
    KeysAppend(acc, e);
    if e.key !in Keys(acc) {
      forall i | 0 <= i < |acc| ensures acc[i].key != e.key {
        assert acc[i] in acc;
      }
    }
  }

  /** The last entry of a list with distinct keys has a key the rest does not. */
  lemma DistinctLast(init: seq<Entry>, last: Entry)
    requires DistinctKeys(init + [last])
    ensures last.key !in Keys(init)
  {
    forall x | x in init ensures x.key != last.key {
      var i :| 0 <= i < |init| && init[i] == x;
      assert (init + [last])[i] == x && (init + [last])[|init|] == last;
    }
  }

  /** es lists the entries of m, each key once, in some order. */
  predicate Listing(es: seq<Entry>, m: Counts)
  {
    |es| == |m| && DistinctKeys(es) && Keys(es) == m.Keys && EntriesOf(es, m)
  }

  /** sorted(descending count).limit(k).collect(LinkedHashMap) over an entry stream es. */
  function TopKOfListing(es: seq<Entry>, k: nat): seq<Entry>
  {
    var sorted := SortByCountDesc(es);
    CollectLinked(sorted[..Min(k, |sorted|)])
  }

  /**
   * findTopKCooccurrences: the empty map when the lower-cased centre word is
   * not a key; otherwise the sorted entries of its neighbour map, limited to
   * k (Stream.limit throws IllegalArgumentException for a negative k) and
   * collected in order.
   */
  ghost function FindTopKCooccurrences(centerWord: string, k: int, table: Table, lower: string -> string): Result<seq<Entry>>
  {
    var key := lower(centerWord);
    if key !in table then Success([])
    else if k < 0 then Failure("IllegalArgumentException: negative limit")
    else Success(TopKOfListing(EntryList(table[key]), k))
  }

  /**
   * Whatever order the entry stream of m comes in: the result is min(k, |m|)
   * distinct entries of m in non-increasing order of count, no count left out
   * exceeds a count returned, and k >= |m| returns every key.
   */
  lemma TopKOfAnyListing(es: seq<Entry>, m: Counts, k: nat)
    requires Listing(es, m)
    ensures var r := TopKOfListing(es, k);
            |r| == Min(k, |m|) && DistinctKeys(r) && EntriesOf(r, m) && NonIncreasing(r)
            && (forall u, e | u in m && u !in Keys(r) && e in r :: m[u] <= e.count)
            && (k >= |m| ==> Keys(r) == m.Keys)
  {
    var s := SortByCountDesc(es);
    assert |s| == |m| && DistinctKeys(s) && Keys(s) == m.Keys && EntriesOf(s, m) && NonIncreasing(s) by {
      SortedListing(es, m);
    }
    assert TopKOfListing(es, k) == s[..Min(k, |s|)] by {
      PrefixProperties(s, Min(k, |s|), m);
    }
    PrefixProperties(s, Min(k, |s|), m);
    ListingPrefix(s, k, m);
  }

  /** Sorting a listing of m: every entry of m exactly once, in descending order of count. */
  lemma SortedListing(es: seq<Entry>, m: Counts)
    requires Listing(es, m)
    ensures var s := SortByCountDesc(es);
            |s| == |m| && DistinctKeys(s) && Keys(s) == m.Keys && EntriesOf(s, m) && NonIncreasing(s)
  {
    var s := SortByCountDesc(es);
    PermutationKeys(es, s);
    SortKeys(es);
  }

  lemma PrefixProperties(s: seq<Entry>, n: nat, m: Counts)
    requires n <= |s|
    requires DistinctKeys(s) && EntriesOf(s, m) && NonIncreasing(s)
    ensures DistinctKeys(s[..n]) && EntriesOf(s[..n], m) && NonIncreasing(s[..n])
  {
    assert forall e | e in s[..n] :: e in s;
  }

  /**
   * The result of findTopKCooccurrences: empty for an absent centre word, an
   * exception for a negative k, and otherwise min(k, |m|) distinct entries of
   * the neighbour map m, in descending order of count.
   */
  lemma TopKShape(centerWord: string, k: int, table: Table, lower: string -> string)
    ensures lower(centerWord) !in table ==> FindTopKCooccurrences(centerWord, k, table, lower) == Success([])
    ensures lower(centerWord) in table && k < 0 ==> FindTopKCooccurrences(centerWord, k, table, lower).Failure?
    ensures lower(centerWord) in table && k >= 0 ==>
              var m := table[lower(centerWord)];
              var r := FindTopKCooccurrences(centerWord, k, table, lower);
              r.Success? && |r.value| == Min(k, |m|) && DistinctKeys(r.value)
              && EntriesOf(r.value, m) && NonIncreasing(r.value)
  {
    var key := lower(centerWord);
    if key in table && k >= 0 {
      TopKOfAnyListing(EntryList(table[key]), table[key], k);
    }
  }

  /** No entry left out has a larger count than an entry returned, and k >= |m| returns every key. */
  lemma TopKSelectsLargest(centerWord: string, k: int, table: Table, lower: string -> string)
    requires lower(centerWord) in table && k >= 0
    ensures var m := table[lower(centerWord)];
            var es := FindTopKCooccurrences(centerWord, k, table, lower).value;
            (forall u, e | u in m && u !in Keys(es) && e in es :: m[u] <= e.count)
            && (k >= |m| ==> Keys(es) == m.Keys)
  {
    var m := table[lower(centerWord)];
    TopKOfAnyListing(EntryList(m), m, k);
  }

  /** The first min(k, |m|) entries of a descending listing of m. */
  lemma ListingPrefix(s: seq<Entry>, k: int, m: Counts)
    requires k >= 0 && |s| == |m| && Keys(s) == m.Keys && EntriesOf(s, m) && NonIncreasing(s)
    ensures var p := s[..Min(k, |s|)];
            (forall u, e | u in m && u !in Keys(p) && e in p :: m[u] <= e.count)
            && (k >= |m| ==> Keys(p) == m.Keys)
  {
    PrefixSelectsLargest(s, Min(k, |s|), m);
    if k >= |m| {
      assert s[..Min(k, |s|)] == s;
    }
  }

  /** A prefix of a descending listing of m holds the largest counts of m. */
  lemma PrefixSelectsLargest(s: seq<Entry>, n: nat, m: Counts)
    requires n <= |s| && Keys(s) == m.Keys && EntriesOf(s, m) && NonIncreasing(s)
    ensures forall u, e | u in m && u !in Keys(s[..n]) && e in s[..n] :: m[u] <= e.count
  {
    forall u, e | u in m && u !in Keys(s[..n]) && e in s[..n] ensures m[u] <= e.count {
      PrefixBelow(s, n, m, u, e);
    }
  }

  lemma PrefixBelow(s: seq<Entry>, n: nat, m: Counts, u: string, e: Entry)
    requires n <= |s| && Keys(s) == m.Keys && EntriesOf(s, m) && NonIncreasing(s)
    requires u in m && u !in Keys(s[..n]) && e in s[..n]
    ensures m[u] <= e.count
  {
    var x :| x in s && x.key == u;
    var j :| 0 <= j < |s| && s[j] == x;
    var i :| 0 <= i < n && s[i] == e;
    assert j >= n;
  }

  /** A neighbour map {b=2, c=1} limited to one entry keeps ("b", 2). */
  lemma TopKOfRow(table: Table, lower: string -> string)
    requires lower("a") == "a"
    requires "a" in table && table["a"] == map["b" := 2, "c" := 1]
    ensures FindTopKCooccurrences("a", 1, table, lower) == Success([Entry("b", 2)])
  {
    TopKShape("a", 1, table, lower);
    TopKSelectsLargest("a", 1, table, lower);
    OneLargest(FindTopKCooccurrences("a", 1, table, lower).value, table["a"]);
  }

  /** The one entry of {b=2, c=1} that no left-out entry exceeds is ("b", 2). */
  lemma OneLargest(es: seq<Entry>, m: Counts)
    requires m == map["b" := 2, "c" := 1]
    requires |es| == 1 && EntriesOf(es, m)
    requires forall u, e | u in m && u !in Keys(es) && e in es :: m[u] <= e.count
    ensures es == [Entry("b", 2)]
  {
    var e := es[0];
    assert es == [e];
    assert e in es;
    assert Keys(es) == {e.key};
    assert "b" in Keys(es) || Get(m, "b") <= e.count;
  }

  /**
   * The example table of CooccurrenceSpec: the top neighbour of "a" is
   * ("b", 2), for any lower-casing that leaves "a" alone.
   */
  lemma TopKExample(lower: string -> string)
    requires lower("a") == "a"
    ensures FindTopKCooccurrences("a", 1, Cooccurrences(["a", "b", "a", "c"], 1), lower) == Success([Entry("b", 2)])
  {
    var table := Cooccurrences(["a", "b", "a", "c"], 1);
    CooccurrenceExample();
    assert "b" in Row(table, "a");
    TopKOfRow(table, lower);
  }
}
