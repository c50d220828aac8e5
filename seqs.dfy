/** Facts about sequences of integers used by both the search engine and the boards. */
module Seqs {

  /** No element occurs twice. */
  ghost predicate Distinct(s: seq<int>) {
    forall i, j :: 0 <= i < j < |s| ==> s[i] != s[j]
  }

  /** Strictly increasing, hence distinct. */
  ghost predicate Increasing(s: seq<int>) {
    forall i, j :: 0 <= i < j < |s| ==> s[i] < s[j]
  }

  ghost function Elements(s: seq<int>): set<int> {
    set x | x in s
  }

  /** A sequence without repetitions has as many elements as its set. */
  lemma {:induction false} DistinctCard(s: seq<int>)
    requires Distinct(s)
    ensures |Elements(s)| == |s|
  {
    if s != [] {
      assert Distinct(s[1..]) by {
        forall i, j | 0 <= i < j < |s[1..]| ensures s[1..][i] != s[1..][j] {
          assert s[1..][i] == s[i + 1] && s[1..][j] == s[j + 1];
        }
      }
      DistinctCard(s[1..]);
      assert Elements(s) == {s[0]} + Elements(s[1..]);
      assert s[0] !in Elements(s[1..]);
    }
  }

  /**
   * Pigeonhole: when every element of the distinct sequence `taken` lies in the distinct
   * sequence `all` and `taken` is shorter, some element of `all` has not been taken.
   */
  lemma Unused(taken: seq<int>, all: seq<int>) returns (a: int)
    requires Distinct(taken) && Distinct(all)
    requires forall x :: x in taken ==> x in all
    requires |taken| < |all|
    ensures a in all && a !in taken
  {
    DistinctCard(taken);
    DistinctCard(all);
    assert Elements(taken) <= Elements(all);
    assert Elements(all) != Elements(taken);
    assert Elements(all) - Elements(taken) != {} by {
      if Elements(all) - Elements(taken) == {} {
        forall x | x in Elements(all) ensures x in Elements(taken) {
          assert x !in Elements(all) - Elements(taken);
        }
      }
    }
    var y :| y in Elements(all) - Elements(taken);
    a := y;
  }

  lemma IncreasingTail(s: seq<int>)
    requires Increasing(s) && s != []
    ensures Increasing(s[1..])
    ensures forall y :: y in s[1..] ==> s[0] < y
  {
  }

  lemma IncreasingCons(x: int, s: seq<int>)
    requires Increasing(s)
    requires forall y :: y in s ==> x < y
    ensures Increasing([x] + s)
  {
    forall i, j | 0 <= i < j < |[x] + s| ensures ([x] + s)[i] < ([x] + s)[j] {
      assert ([x] + s)[j] == s[j - 1] && s[j - 1] in s;
      if i > 0 {
        assert ([x] + s)[i] == s[i - 1];
      }
    }
  }

  /** Putting the head of an increasing sequence before an increasing selection of its tail. */
  lemma PrependIncreasing(s: seq<int>, rest: seq<int>)
    requires s != []
    requires forall y :: y in rest ==> y in s[1..]
    ensures Increasing(s) ==> Increasing(s[1..])
    ensures Increasing(s) && Increasing(rest) ==> Increasing([s[0]] + rest)
  {
    if Increasing(s) {
      IncreasingTail(s);
      if Increasing(rest) {
        IncreasingCons(s[0], rest);
      }
    }
  }
}
