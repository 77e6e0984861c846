/**
 * The two string operations the pipeline relies on: joining a list of strings
 * with a delimiter (String.join, StringJoiner) and, as its inverse for a
 * one-character delimiter, splitting a string at every occurrence of it.
 */
module Text {

  /** The elements in order, with the delimiter between each two consecutive ones. */
  function Join(delimiter: string, elements: seq<string>): string
  {
    if |elements| == 0 then ""
    else if |elements| == 1 then elements[0]
    else elements[0] + delimiter + Join(delimiter, elements[1..])
  }

  /** The pieces of `s` between occurrences of `c`, empty pieces included. */
  function Split(s: string, c: char): (pieces: seq<string>)
    ensures |pieces| >= 1
  {
    if |s| == 0 then [""]
    else
      var rest := Split(s[1..], c);
      if s[0] == c then [""] + rest else [[s[0]] + rest[0]] + rest[1..]
  }

  lemma {:induction false} SplitWithoutSeparator(s: string, c: char)
    requires c !in s
    ensures Split(s, c) == [s]
  {
    if |s| > 0 {
      assert c !in s[1..];
      SplitWithoutSeparator(s[1..], c);
      assert [s[0]] + s[1..] == s;
    }
  }

  /** Splitting `a c b`, where `a` has no `c`, gives `a` followed by the pieces of `b`. */
  lemma {:induction false} SplitAfterPiece(a: string, b: string, c: char)
    requires c !in a
    ensures Split(a + [c] + b, c) == [a] + Split(b, c)
  {
    if |a| == 0 {
      assert a + [c] + b == [c] + b;
      assert ([c] + b)[1..] == b;
    } else {
      var s := a + [c] + b;
      assert s[0] == a[0];
      assert s[1..] == a[1..] + [c] + b;
      assert c !in a[1..];
      SplitAfterPiece(a[1..], b, c);
      assert [a[0]] + a[1..] == a;
    }
  }

  /** Splitting a join undoes it when no element contains the delimiter. */
  lemma {:induction false} SplitJoin(elements: seq<string>, c: char)
    requires |elements| >= 1
    requires forall w :: w in elements ==> c !in w
    ensures Split(Join([c], elements), c) == elements
  {
    if |elements| == 1 {
      SplitWithoutSeparator(elements[0], c);
    } else {
      var rest := elements[1..];
      assert forall w :: w in rest ==> w in elements;
      SplitJoin(rest, c);
      assert elements[0] in elements;
      SplitAfterPiece(elements[0], Join([c], rest), c);
      assert [elements[0]] + rest == elements;
    }
  }

  /** Joining the pieces of a split gives the string back. */
  lemma {:induction false} JoinSplit(s: string, c: char)
    ensures Join([c], Split(s, c)) == s
  {
    if |s| > 0 {
      var rest := Split(s[1..], c);
      JoinSplit(s[1..], c);
      if s[0] == c {
        assert Join([c], [""] + rest) == "" + [c] + Join([c], rest);
        assert [s[0]] + s[1..] == s;
      } else {
        var pieces := [[s[0]] + rest[0]] + rest[1..];
        if |rest| == 1 {
          assert Join([c], pieces) == [s[0]] + rest[0];
          assert [s[0]] + s[1..] == s;
        } else {
          assert pieces[1..] == rest[1..];
          assert Join([c], pieces) == [s[0]] + rest[0] + [c] + Join([c], rest[1..]);
          assert Join([c], rest) == rest[0] + [c] + Join([c], rest[1..]);
          assert [s[0]] + s[1..] == s;
        }
      }
    }
  }
}
