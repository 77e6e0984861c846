/**
 * The stream-pipeline examples of src/Examples.java that compute a result:
 * the second and third smallest distinct numbers (distinct, sorted, skip,
 * limit), the running sum kept in an external AtomicInteger, and a collector
 * that joins strings through a StringJoiner.
 */
module Examples {
  import opened Wrappers
  import opened Ints
  import opened Text

  // ---------------------------------------------------------------------------
  // findSecondAndThirdSmallestNumber

  predicate NoDups(s: seq<int>)
  {
    forall i, j | 0 <= i < j < |s| :: s[i] != s[j]
  }

  predicate Sorted(s: seq<int>)
  {
    forall i, j | 0 <= i < j < |s| :: s[i] <= s[j]
  }

  predicate StrictlyIncreasing(s: seq<int>)
  {
    forall i, j | 0 <= i < j < |s| :: s[i] < s[j]
  }

  /** The distinct values of s. */
  function Elements(s: seq<int>): set<int>
  {
    set x | x in s
  }

  lemma ElementsAppend(s: seq<int>, x: int)
    ensures Elements(s + [x]) == Elements(s) + {x}
  {
    assert forall y | y in s + [x] :: y in s || y == x;
  }

  /** distinct(): the first occurrence of every value, in encounter order. */
  function Distinct(s: seq<int>): (r: seq<int>)
    ensures Elements(r) == Elements(s)
    ensures NoDups(r)
    decreases |s|
  {
    if s == [] then []
    else
      var init := s[..|s| - 1];
      var x := s[|s| - 1];
      assert s == init + [x];
      ElementsAppend(init, x);
      var d := Distinct(init);
      ElementsAppend(d, x);
      assert x !in d ==> NoDups(d + [x]) by {
        if x !in d {
          forall i | 0 <= i < |d| ensures d[i] != x {
            assert d[i] in d;
          }
        }
      }
      if x in d then d else d + [x]
  }

  lemma {:induction false} NoDupsCard(s: seq<int>)
    requires NoDups(s)
    ensures |Elements(s)| == |s|
    decreases |s|
  {
    if s != [] {
      var init := s[..|s| - 1];
      var x := s[|s| - 1];
      assert s == init + [x];
      ElementsAppend(init, x);
      assert NoDups(init);
      NoDupsCard(init);
      assert x !in init by {
        forall i | 0 <= i < |init| ensures init[i] != x {
          assert init[i] == s[i];
        }
      }
    }
  }

  /** One step of the insertion sort in natural order (stable; no tie order matters for ints). */
  function Insert(x: int, s: seq<int>): (r: seq<int>)
    ensures multiset(r) == multiset(s) + multiset{x}
    ensures |r| == |s| + 1
    ensures Sorted(s) ==> Sorted(r)
  {
    if s == [] || x <= s[0] then
      assert Sorted(s) ==> Sorted([x] + s) by {
        if Sorted(s) {
          AllAtLeast(x, s);
          ConsSorted(x, s);
        }
      }
      [x] + s
    else
      var rest := Insert(x, s[1..]);
      assert s == [s[0]] + s[1..];
      assert Sorted(s) ==> Sorted([s[0]] + rest) by {
        if Sorted(s) {
          TailSorted(s);
          InsertedAbove(x, s, rest);
          ConsSorted(s[0], rest);
        }
      }
      [s[0]] + rest
  }

  lemma ConsSorted(x: int, t: seq<int>)
    requires Sorted(t)
    requires forall y | y in t :: x <= y
    ensures Sorted([x] + t)
  {
    var r := [x] + t;
    forall i, j | 0 <= i < j < |r| ensures r[i] <= r[j] {
      assert r[j] == t[j - 1];
      if i > 0 {
        assert r[i] == t[i - 1];
      } else {
        assert t[j - 1] in t;
      }
    }
  }

  lemma TailSorted(s: seq<int>)
    requires |s| > 0 && Sorted(s)
    ensures Sorted(s[1..])
    ensures forall y | y in s[1..] :: s[0] <= y
  {
    forall y | y in s[1..] ensures s[0] <= y {
      var j :| 0 <= j < |s[1..]| && s[1..][j] == y;
      assert s[j + 1] == y;
    }
  }

  lemma AllAtLeast(x: int, s: seq<int>)
    requires Sorted(s) && (s == [] || x <= s[0])
    ensures forall y | y in s :: x <= y
  {
    if s != [] {
      TailSorted(s);
      assert s == [s[0]] + s[1..];
    }
  }

  lemma InsertedAbove(x: int, s: seq<int>, rest: seq<int>)
    requires |s| > 0 && s[0] < x
    requires multiset(rest) == multiset(s[1..]) + multiset{x}
    requires forall y | y in s[1..] :: s[0] <= y
    ensures forall y | y in rest :: s[0] <= y
  {
    forall y | y in rest ensures s[0] <= y {
      assert y in multiset(rest);
      if y != x {
        assert y in multiset(s[1..]);
        assert y in s[1..];
      }
    }
  }

  /** sorted(): a permutation in ascending order. */
  function SortAsc(s: seq<int>): (r: seq<int>)
    ensures multiset(r) == multiset(s)
    ensures |r| == |s|
    ensures Sorted(r)
  {
    if s == [] then []
    else
      assert s == [s[0]] + s[1..];
      Insert(s[0], SortAsc(s[1..]))
  }

  lemma {:induction false} InsertKeepsDistinct(x: int, s: seq<int>)
    requires NoDups(s) && x !in s
    ensures NoDups(Insert(x, s))
    decreases |s|
  {
    if s == [] || x <= s[0] {
      ConsKeepsDistinct(x, s);
    } else {
      var rest := Insert(x, s[1..]);
      assert s == [s[0]] + s[1..];
      assert NoDups(s[1..]);
      InsertKeepsDistinct(x, s[1..]);
      assert s[0] !in s[1..] by {
        forall j | 0 <= j < |s[1..]| ensures s[1..][j] != s[0] {
          assert s[1..][j] == s[j + 1];
        }
      }
      assert s[0] !in rest by {
        assert s[0] !in multiset(s[1..]) + multiset{x};
      }
      ConsKeepsDistinct(s[0], rest);
    }
  }

  lemma ConsKeepsDistinct(y: int, t: seq<int>)
    requires NoDups(t) && y !in t
    ensures NoDups([y] + t)
  {
    var r := [y] + t;
    forall i, j | 0 <= i < j < |r| ensures r[i] != r[j] {
      assert r[j] == t[j - 1];
      if i > 0 {
        assert r[i] == t[i - 1];
      }
    }
  }

  lemma {:induction false} SortKeepsDistinct(s: seq<int>)
    requires NoDups(s)
    ensures NoDups(SortAsc(s))
    decreases |s|
  {
    if s != [] {
      assert s == [s[0]] + s[1..];
      assert NoDups(s[1..]);
      SortKeepsDistinct(s[1..]);
      assert s[0] !in SortAsc(s[1..]) by {
        assert s[0] !in multiset(s[1..]);
      }
      InsertKeepsDistinct(s[0], SortAsc(s[1..]));
    }
  }

  /** findSecondAndThirdSmallestNumber: distinct, sorted, skip(1), limit(2). */
  function FindSecondAndThirdSmallestNumber(numbers: seq<int>): seq<int>
  {
    var sorted := SortAsc(Distinct(numbers));
    var skipped := if |sorted| <= 1 then [] else sorted[1..];
    skipped[..Min(2, |skipped|)]
  }

  /** The distinct values in ascending order, without repetition. */
  lemma Ascending(numbers: seq<int>)
    ensures var u := SortAsc(Distinct(numbers));
            StrictlyIncreasing(u) && Elements(u) == Elements(numbers) && |u| == |Elements(numbers)|
  {
    var d := Distinct(numbers);
    var u := SortAsc(d);
    SortKeepsDistinct(d);
    NoDupsCard(d);
    SameElements(u, d);
  }

  lemma SameElements(a: seq<int>, b: seq<int>)
    requires multiset(a) == multiset(b)
    ensures Elements(a) == Elements(b)
  {
    forall x ensures x in a <==> x in b {
      assert x in a <==> x in multiset(a);
      assert x in b <==> x in multiset(b);
    }
  }

  /**
   * The result is strictly increasing, holds only input values, and has
   * min(2, max(0, D - 1)) elements for D distinct input values.
   */
  lemma SecondAndThirdShape(numbers: seq<int>)
    ensures var r := FindSecondAndThirdSmallestNumber(numbers);
            StrictlyIncreasing(r) && (forall x | x in r :: x in numbers)
            && |r| == Min(2, Max(0, |Elements(numbers)| - 1))
  {
    var u := SortAsc(Distinct(numbers));
    var r := FindSecondAndThirdSmallestNumber(numbers);
    assert StrictlyIncreasing(u) && Elements(u) == Elements(numbers) && |u| == |Elements(numbers)| by {
      Ascending(numbers);
    }
    SkipOneLimitTwo(u);
    forall x | x in r ensures x in numbers {
      assert x in Elements(u);
    }
  }

  /** skip(1).limit(2) of an increasing sequence: increasing, drawn from it, min(2, max(0, |u| - 1)) long. */
  lemma SkipOneLimitTwo(u: seq<int>)
    requires StrictlyIncreasing(u)
    ensures var skipped := if |u| <= 1 then [] else u[1..];
            var r := skipped[..Min(2, |skipped|)];
            StrictlyIncreasing(r) && (forall x | x in r :: x in u) && |r| == Min(2, Max(0, |u| - 1))
            && (forall i | 0 <= i < |r| :: r[i] == u[i + 1])
  {
    var skipped := if |u| <= 1 then [] else u[1..];
    var r := skipped[..Min(2, |skipped|)];
    forall x | x in r ensures x in u {
      var i :| 0 <= i < |r| && r[i] == x;
      assert x == u[i + 1];
    }
  }

  /**
   * Exactly one distinct input value lies below the first element of the
   * result, and no input value lies strictly between its two elements.
   */
  lemma SecondAndThirdRank(numbers: seq<int>)
    ensures var r := FindSecondAndThirdSmallestNumber(numbers);
            (|r| >= 1 ==> |set x | x in numbers && x < r[0]| == 1)
            && (|r| == 2 ==> forall x | x in numbers :: !(r[0] < x < r[1]))
  {
    var u := SortAsc(Distinct(numbers));
    var r := FindSecondAndThirdSmallestNumber(numbers);
    assert StrictlyIncreasing(u) && Elements(u) == Elements(numbers) by {
      Ascending(numbers);
    }
    SkipOneLimitTwo(u);
    if |u| >= 2 {
      assert r[0] == u[1];
      OneBelowSecond(u, numbers);
    }
    if |u| >= 3 {
      assert r[1] == u[2];
      NoneBetween(u, numbers);
    }
  }

  lemma OneBelowSecond(u: seq<int>, numbers: seq<int>)
    requires StrictlyIncreasing(u) && Elements(u) == Elements(numbers) && |u| >= 2
    ensures (set x | x in numbers && x < u[1]) == {u[0]}
  {
    forall x | x in numbers && x < u[1] ensures x == u[0] {
      assert x in Elements(u);
      var j :| 0 <= j < |u| && u[j] == x;
    }
    assert u[0] in Elements(u);
  }

  lemma NoneBetween(u: seq<int>, numbers: seq<int>)
    requires StrictlyIncreasing(u) && Elements(u) == Elements(numbers) && |u| >= 3
    ensures forall x | x in numbers :: !(u[1] < x < u[2])
  {
    forall x | x in numbers ensures !(u[1] < x < u[2]) {
      assert x in Elements(u);
      var j :| 0 <= j < |u| && u[j] == x;
    }
  }

  /** The example input gives [1, 3]. */
  lemma SecondAndThirdExample()
    ensures FindSecondAndThirdSmallestNumber([1, 19, 63, 27, 27, 3, 1, 89, 89, -10]) == [1, 3]
  {
    var numbers := [1, 19, 63, 27, 27, 3, 1, 89, 89, -10];
    var r := FindSecondAndThirdSmallestNumber(numbers);
    ExampleElements(numbers);
    SecondAndThirdShape(numbers);
    SecondAndThirdRank(numbers);
    RankedPair(numbers, r);
  }

  lemma ExampleElements(numbers: seq<int>)
    requires numbers == [1, 19, 63, 27, 27, 3, 1, 89, 89, -10]
    ensures Elements(numbers) == {1, 19, 63, 27, 3, 89, -10}
  {
    forall x | x in numbers ensures x in {1, 19, 63, 27, 3, 89, -10} {
      var i :| 0 <= i < |numbers| && numbers[i] == x;
    }
    assert numbers[0] == 1 && numbers[1] == 19 && numbers[2] == 63 && numbers[3] == 27;
    assert numbers[5] == 3 && numbers[7] == 89 && numbers[9] == -10;
  }

  lemma SubsetCard(a: set<int>, b: set<int>)
    requires a <= b
    ensures |a| <= |b|
  {
    assert b == a + (b - a);
  }

  /** The only ranked pair of {-10, 1, 3, 19, 27, 63, 89} is [1, 3]. */
  lemma RankedPair(numbers: seq<int>, r: seq<int>)
    requires Elements(numbers) == {1, 19, 63, 27, 3, 89, -10}
    requires |r| == Min(2, Max(0, |Elements(numbers)| - 1)) && StrictlyIncreasing(r)
    requires forall x | x in r :: x in numbers
    requires |r| >= 1 ==> |set x | x in numbers && x < r[0]| == 1
    requires |r| == 2 ==> forall x | x in numbers :: !(r[0] < x < r[1])
    ensures r == [1, 3]
  {
    assert |Elements(numbers)| == 7;
    assert r[0] in numbers && r[1] in numbers;
    assert r[0] in Elements(numbers) && r[1] in Elements(numbers);
    var below := set x | x in numbers && x < r[0];
    assert forall x | x in numbers :: x >= -10 by {
      forall x | x in numbers ensures x >= -10 {
        assert x in Elements(numbers);
      }
    }
    assert r[0] != -10;
    assert r[0] <= 1 by {
      if r[0] > 1 {
        assert -10 in numbers && 1 in numbers;
        SubsetCard({-10, 1}, below);
      }
    }
    assert 3 in numbers;
  }

  // ---------------------------------------------------------------------------
  // calculateRunningSum

  /** A Java int. */
  type Int32 = x: int | -0x8000_0000 <= x < 0x8000_0000

  /** An int result of Java arithmetic: the value modulo 2^32, in two's complement. */
  function Wrap(x: int): (r: Int32)
    ensures (r - x) % 0x1_0000_0000 == 0
  {
    (x + 0x8000_0000) % 0x1_0000_0000 - 0x8000_0000
  }

  /** numbers[0] + ... + numbers[|numbers| - 1], unbounded. */
  function Sum(numbers: seq<int>): int
  {
    if numbers == [] then 0 else Sum(numbers[..|numbers| - 1]) + numbers[|numbers| - 1]
  }

  /** Adding to a wrapped value wraps like adding to the value itself. */
  lemma WrapAdd(a: int, b: int)
    ensures Wrap(Wrap(a) + b) == Wrap(a + b)
  {
    var m := 0x1_0000_0000;
    var q := (a + 0x8000_0000) / m;
    assert a + 0x8000_0000 == q * m + (a + 0x8000_0000) % m;
    assert Wrap(a) + b == a + b - q * m;
    ModShift(a + b + 0x8000_0000, q);
  }

  lemma ModShift(x: int, q: int)
    ensures (x - q * 0x1_0000_0000) % 0x1_0000_0000 == x % 0x1_0000_0000
  {
    var m := 0x1_0000_0000;
    var r := x % m;
    assert x == (x / m) * m + r;
    assert x - q * m == (x / m - q) * m + r;
  }

  /** A value already in range is its own wrap. */
  lemma WrapInRange(x: int)
    requires -0x8000_0000 <= x < 0x8000_0000
    ensures Wrap(x) == x
  {
  }

  /**
   * calculateRunningSum: runningSum.addAndGet(n) for every element in order;
   * element i is the sum of the first i + 1 numbers, wrapped to an int.
   */
  method CalculateRunningSum(numbers: seq<Int32>) returns (sums: seq<Int32>)
    ensures |sums| == |numbers|
    ensures forall i | 0 <= i < |sums| :: sums[i] == Wrap(Sum(numbers[..i + 1]))
    ensures forall i | 0 <= i < |sums| && -0x8000_0000 <= Sum(numbers[..i + 1]) < 0x8000_0000 ::
              sums[i] == Sum(numbers[..i + 1])
  {
    var runningSum: Int32 := 0;
    sums := [];
    for i := 0 to |numbers|
      invariant |sums| == i
      invariant runningSum == Wrap(Sum(numbers[..i]))
      invariant forall k | 0 <= k < i :: sums[k] == Wrap(Sum(numbers[..k + 1]))
    {
      assert numbers[..i + 1][..i] == numbers[..i];
      WrapAdd(Sum(numbers[..i]), numbers[i]);
      runningSum := Wrap(runningSum + numbers[i]);
      sums := sums + [runningSum];
    }
    forall i | 0 <= i < |sums| && -0x8000_0000 <= Sum(numbers[..i + 1]) < 0x8000_0000
      ensures sums[i] == Sum(numbers[..i + 1])
    {
      RunningSumExact(numbers, i);
    }
  }

  /** While no partial sum leaves the int range, the running sums are the exact prefix sums. */
  lemma RunningSumExact(numbers: seq<Int32>, i: int)
    requires 0 <= i < |numbers|
    requires -0x8000_0000 <= Sum(numbers[..i + 1]) < 0x8000_0000
    ensures Wrap(Sum(numbers[..i + 1])) == Sum(numbers[..i + 1])
  {
    WrapInRange(Sum(numbers[..i + 1]));
  }

  /** The example input [1, 2, 3, 4, 5] gives [1, 3, 6, 10, 15]. */
  method RunningSumExample() returns (sums: seq<Int32>)
    ensures sums == [1, 3, 6, 10, 15]
  {
    var numbers: seq<Int32> := [1, 2, 3, 4, 5];
    sums := CalculateRunningSum(numbers);
    assert numbers[..1] == [1];
    assert numbers[..2] == [1, 2];
    assert numbers[..3] == [1, 2, 3];
    assert numbers[..4] == [1, 2, 3, 4];
    assert numbers[..5] == [1, 2, 3, 4, 5];
    assert [1, 2][..1] == [1];
    assert [1, 2, 3][..2] == [1, 2];
    assert [1, 2, 3, 4][..3] == [1, 2, 3];
    assert [1, 2, 3, 4, 5][..4] == [1, 2, 3, 4];
    assert Sum([1]) == 1;
    assert Sum([1, 2]) == 3;
    assert Sum([1, 2, 3]) == 6;
    assert Sum([1, 2, 3, 4]) == 10;
    assert Sum([1, 2, 3, 4, 5]) == 15;
  }

  // ---------------------------------------------------------------------------
  // stringJoinCollector

  /**
   * A StringJoiner with empty prefix and suffix: the delimiter and the text
   * built so far, None before the first add.
   */
  datatype StringJoiner = StringJoiner(delimiter: string, built: Option<string>)

  /** Supplier: new StringJoiner(delimiter). */
  function NewJoiner(delimiter: string): StringJoiner
  {
    StringJoiner(delimiter, None)
  }

  /** StringJoiner::add: the element, preceded by the delimiter unless it is the first. */
  function Add(joiner: StringJoiner, element: string): StringJoiner
  {
    match joiner.built
    case None => joiner.(built := Some(element))
    case Some(text) => joiner.(built := Some(text + joiner.delimiter + element))
  }

  /** StringJoiner::toString: the empty string when nothing was added. */
  function ToString(joiner: StringJoiner): string
  {
    match joiner.built
    case None => ""
    case Some(text) => text
  }

  /** The accumulator applied to the elements in stream order. */
  function Accumulate(joiner: StringJoiner, elements: seq<string>): StringJoiner
    decreases |elements|
  {
    if elements == [] then joiner else Accumulate(Add(joiner, elements[0]), elements[1..])
  }

  /** stream().collect(stringJoinCollector(delimiter)), run sequentially. */
  function StringJoinCollector(delimiter: string, elements: seq<string>): string
  {
    ToString(Accumulate(NewJoiner(delimiter), elements))
  }

  /** Accumulating after some text appends the delimiter-joined elements to it. */
  lemma {:induction false} AccumulateAfter(delimiter: string, text: string, elements: seq<string>)
    ensures Accumulate(StringJoiner(delimiter, Some(text)), elements)
         == StringJoiner(delimiter, Some(if elements == [] then text else text + delimiter + Join(delimiter, elements)))
    decreases |elements|
  {
    if elements != [] {
      var next := text + delimiter + elements[0];
      AccumulateAfter(delimiter, next, elements[1..]);
      if |elements| > 1 {
        assert next + delimiter + Join(delimiter, elements[1..])
            == text + delimiter + (elements[0] + delimiter + Join(delimiter, elements[1..]));
      }
    }
  }

  /** The collector joins the elements with the delimiter, like String.join. */
  lemma StringJoinCollectorIsJoin(delimiter: string, elements: seq<string>)
    ensures StringJoinCollector(delimiter, elements) == Join(delimiter, elements)
  {
    if elements != [] {
      AccumulateAfter(delimiter, elements[0], elements[1..]);
      if |elements| > 1 {
        assert elements[0] + delimiter + Join(delimiter, elements[1..]) == Join(delimiter, elements);
      }
    }
  }

  /** ["Apfel", "Banane", "Kirsche"] joined with " und ". */
  lemma StringJoinExample()
    ensures StringJoinCollector(" und ", ["Apfel", "Banane", "Kirsche"]) == "Apfel und Banane und Kirsche"
  {
    var elements := ["Apfel", "Banane", "Kirsche"];
    StringJoinCollectorIsJoin(" und ", elements);
    assert elements[1..] == ["Banane", "Kirsche"];
    assert elements[1..][1..] == ["Kirsche"];
    assert Join(" und ", ["Kirsche"]) == "Kirsche";
    assert Join(" und ", ["Banane", "Kirsche"]) == "Banane" + " und " + "Kirsche";
    assert "Apfel" + " und " + ("Banane" + " und " + "Kirsche") == "Apfel und Banane und Kirsche";
  }
}
