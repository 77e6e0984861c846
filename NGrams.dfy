/**
 * N-gram extraction (src/Main.java): the n-grams of a token sequence are its
 * contiguous runs of n tokens, each joined with a single space, in the order
 * of their first token. Two realisations: one by start index and sub-list,
 * one with the standard sliding-window gatherer.
 */
module NGrams {
  import opened Text

  /** The n-gram starting at token i. */
  function NGramAt(tokens: seq<string>, n: nat, i: nat): string
    requires i + n <= |tokens|
  {
    Join(" ", tokens[i..i + n])
  }

  /** produceNGramsWithoutGatherer: one n-gram per start index 0 .. N - n. */
  function ProduceNGramsWithoutGatherer(n: int, tokens: seq<string>): seq<string>
  {
    if n < 1 || n > |tokens| then []
    else if n == 1 then tokens
    else seq(|tokens| - n + 1, i requires 0 <= i < |tokens| - n + 1 => NGramAt(tokens, n, i))
  }

  /**
   * The windows Gatherers.windowSliding(n) emits for the rest of the stream,
   * given the elements already buffered (`window`, fewer than n) and whether
   * no full window has been emitted yet (`first`): every time the buffer
   * reaches n elements it is emitted and its first element dropped; at the end
   * of the stream a partial buffer is emitted only if no window was.
   */
  function SlidingWindows(n: nat, rest: seq<string>, window: seq<string>, first: bool): seq<seq<string>>
    requires 1 <= n && |window| < n
    decreases |rest|
  {
    if |rest| == 0 then
      (if first && |window| > 0 then [window] else [])
    else
      var w := window + [rest[0]];
      if |w| < n then SlidingWindows(n, rest[1..], w, first)
      else [w] + SlidingWindows(n, rest[1..], w[1..], false)
  }

  /** map(w -> String.join(" ", w)) over the windows. */
  function JoinEach(windows: seq<seq<string>>): seq<string>
  {
    seq(|windows|, i requires 0 <= i < |windows| => Join(" ", windows[i]))
  }

  /** produceNGramsWithGatherer: the sliding windows of width n, each joined. */
  function ProduceNGramsWithGatherer(n: int, tokens: seq<string>): seq<string>
  {
    if n < 1 || n > |tokens| then []
    else if n == 1 then tokens
    else JoinEach(SlidingWindows(n, tokens, [], true))
  }

  /** Reference: the contiguous sub-sequences of length n of t, by start index. */
  function Windows(n: nat, t: seq<string>): (ws: seq<seq<string>>)
    requires 1 <= n <= |t|
  {
    seq(|t| - n + 1, i requires 0 <= i < |t| - n + 1 => t[i..i + n])
  }

  /** Once the stream holds at least n elements, the gatherer emits exactly the contiguous windows. */
  lemma {:induction false} SlidingWindowsAreWindows(n: nat, rest: seq<string>, window: seq<string>, first: bool)
    requires 1 <= n && |window| < n <= |window| + |rest|
    ensures SlidingWindows(n, rest, window, first) == Windows(n, window + rest)
    decreases |rest|
  {
    var t := window + rest;
    var w := window + [rest[0]];
    assert t == w + rest[1..];
    if |w| < n {
      SlidingWindowsAreWindows(n, rest[1..], w, first);
    } else if |rest| == 1 {
      assert w == t;
      assert SlidingWindows(n, rest[1..], w[1..], false) == [];
      WindowsWhole(n, t);
    } else {
      SlidingWindowsAreWindows(n, rest[1..], w[1..], false);
      assert w == t[0..n] && w[1..] + rest[1..] == t[1..];
      WindowsCons(n, t);
    }
  }

  /** A sequence of exactly n elements is its only window. */
  lemma WindowsWhole(n: nat, t: seq<string>)
    requires 1 <= n == |t|
    ensures Windows(n, t) == [t]
  {
    assert t[0..n] == t;
  }

  /** The windows of t are its first window followed by the windows of its tail. */
  lemma WindowsCons(n: nat, t: seq<string>)
    requires 1 <= n < |t|
    ensures Windows(n, t) == [t[0..n]] + Windows(n, t[1..])
  {
    var tail := t[1..];
    forall i | 0 <= i < |t| - n + 1
      ensures Windows(n, t)[i] == ([t[0..n]] + Windows(n, tail))[i]
    {
      if i > 0 {
        var here, there := t[i..i + n], tail[i - 1..i - 1 + n];
        forall j | 0 <= j < n ensures here[j] == there[j] {
          assert tail[i - 1 + j] == t[i + j];
        }
        assert here == there;
      }
    }
  }

  /** With fewer than n elements in all, the gatherer emits the partial buffer once, if it is not empty. */
  lemma {:induction false} SlidingWindowsShortStream(n: nat, rest: seq<string>, window: seq<string>, first: bool)
    requires 1 <= n && |window| + |rest| < n
    ensures SlidingWindows(n, rest, window, first)
         == if first && |window + rest| > 0 then [window + rest] else []
    decreases |rest|
  {
    if |rest| == 0 {
      assert window + rest == window;
    } else {
      var w := window + [rest[0]];
      assert window + rest == w + rest[1..];
      SlidingWindowsShortStream(n, rest[1..], w, first);
    }
  }

  /** Both realisations agree, for every n and every token sequence. */
  lemma NGramRealisationsAgree(n: int, tokens: seq<string>)
    ensures ProduceNGramsWithGatherer(n, tokens) == ProduceNGramsWithoutGatherer(n, tokens)
  {
    if 2 <= n <= |tokens| {
      SlidingWindowsAreWindows(n, tokens, [], true);
      assert [] + tokens == tokens;
    }
  }

  /** Invalid widths give no n-grams; width one gives the tokens themselves. */
  lemma NGramEdgeCases(n: int, tokens: seq<string>)
    ensures n < 1 || n > |tokens| ==> ProduceNGramsWithoutGatherer(n, tokens) == []
    ensures n == 1 <= |tokens| ==> ProduceNGramsWithoutGatherer(n, tokens) == tokens
  {
  }

  /**
   * For a valid width, whatever the tokens: N - n + 1 n-grams, the i-th being
   * the n tokens from i joined with single spaces.
   */
  lemma NGramContents(n: int, tokens: seq<string>)
    requires 1 <= n <= |tokens|
    ensures var grams := ProduceNGramsWithoutGatherer(n, tokens);
            |grams| == |tokens| - n + 1
            && forall i | 0 <= i < |grams| :: grams[i] == Join(" ", tokens[i..i + n])
  {
    if n == 1 {
      forall i | 0 <= i < |tokens| ensures tokens[i] == Join(" ", tokens[i..i + 1]) {
        assert tokens[i..i + 1] == [tokens[i]];
      }
    }
  }

  /**
   * For a valid width there are N - n + 1 n-grams, and when no token contains
   * a space, the i-th one splits back into exactly the n tokens starting at i.
   */
  lemma NGramShape(n: int, tokens: seq<string>, i: int)
    requires 1 <= n <= |tokens|
    requires 0 <= i <= |tokens| - n
    requires forall t :: t in tokens ==> ' ' !in t
    ensures |ProduceNGramsWithoutGatherer(n, tokens)| == |tokens| - n + 1
    ensures Split(ProduceNGramsWithoutGatherer(n, tokens)[i], ' ') == tokens[i..i + n]
  {
    var gram := tokens[i..i + n];
    assert forall t :: t in gram ==> t in tokens;
    SplitJoin(gram, ' ');
    if n == 1 {
      assert gram == [tokens[i]];
    }
  }

  lemma NGramExample()
    ensures ProduceNGramsWithoutGatherer(2, ["the", "cat", "sat", "on", "the", "mat"])
         == ["the cat", "cat sat", "sat on", "on the", "the mat"]
  {
    var tokens := ["the", "cat", "sat", "on", "the", "mat"];
    assert tokens[0..2] == ["the", "cat"];
    assert tokens[1..3] == ["cat", "sat"];
    assert tokens[2..4] == ["sat", "on"];
    assert tokens[3..5] == ["on", "the"];
    assert tokens[4..6] == ["the", "mat"];
    var grams := ProduceNGramsWithoutGatherer(2, tokens);
    assert grams[0] == "the" + " " + "cat";
    assert grams[1] == "cat" + " " + "sat";
    assert grams[2] == "sat" + " " + "on";
    assert grams[3] == "on" + " " + "the";
    assert grams[4] == "the" + " " + "mat";
    assert |grams| == 5;
    assert "the" + " " + "cat" == "the cat";
    assert "cat" + " " + "sat" == "cat sat";
    assert "sat" + " " + "on" == "sat on";
    assert "on" + " " + "the" == "on the";
    assert "the" + " " + "mat" == "the mat";
  }
}
