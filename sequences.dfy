/** Facts about sequences without repeated elements: how they behave under
    permutation, how many distinct values they hold, and the pigeonhole
    principle that turns "nine distinct digits" into "every digit once". */
module Sequences {

  /** No value occurs twice in `s`. */
  ghost predicate Distinct<T>(s: seq<T>) {
    forall i, j :: 0 <= i < j < |s| ==> s[i] != s[j]
  }

  /** Two different positions of a repeat-free sequence hold different values. */
  lemma DistinctAt<T>(s: seq<T>, i: int, j: int)
    requires Distinct(s) && 0 <= i < |s| && 0 <= j < |s| && i != j
    ensures s[i] != s[j]
  {
    if j < i {
      assert s[j] != s[i];
    }
  }

  /** The set of values held at positions `lo` up to (but excluding) `hi`. */
  ghost function ValuesBetween<T>(s: seq<T>, lo: int, hi: int): set<T>
    requires 0 <= lo <= hi <= |s|
  {
    set i | lo <= i < hi :: s[i]
  }

  /** Extending a range by one position adds that position's value. */
  lemma ValuesBetweenExtend<T>(s: seq<T>, lo: int, hi: int)
    requires 0 <= lo <= hi < |s|
    ensures ValuesBetween(s, lo, hi + 1) == ValuesBetween(s, lo, hi) + {s[hi]}
  {
    assert s[hi] in ValuesBetween(s, lo, hi + 1);
  }

  /** In a sequence without repeats, every value is counted at most once. */
  lemma {:induction false} DistinctCountsAtMostOne<T>(s: seq<T>)
    requires Distinct(s)
    ensures forall x :: multiset(s)[x] <= 1
  {
    if |s| > 0 {
      var init, last := s[..|s| - 1], s[|s| - 1];
      assert s == init + [last];
      assert Distinct(init);
      DistinctCountsAtMostOne(init);
      assert last !in init;
      assert multiset(s) == multiset(init) + multiset{last};
    }
  }

  /** Two sequences without repeats that hold the same values are reorderings of each other. */
  lemma SameElementsSameMultiset<T>(s: seq<T>, t: seq<T>)
    requires Distinct(s) && Distinct(t)
    requires forall x :: x in s <==> x in t
    ensures multiset(s) == multiset(t)
  {
    DistinctCountsAtMostOne(s);
    DistinctCountsAtMostOne(t);
    forall x
      ensures multiset(s)[x] == multiset(t)[x]
    {
      if x in s {
        assert x in multiset(s) && x in multiset(t);
      } else {
        assert x !in multiset(s) && x !in multiset(t);
      }
    }
  }

  /** A value found at two positions is counted at least twice. */
  lemma RepeatCountsTwice<T>(s: seq<T>, i: int, j: int)
    requires 0 <= i < j < |s| && s[i] == s[j]
    ensures multiset(s)[s[i]] >= 2
  {
    assert s == s[..i] + [s[i]] + s[i + 1..j] + [s[j]] + s[j + 1..];
  }

  /** A permutation of a sequence without repeats has no repeats either. */
  lemma PermutationOfDistinct<T>(s: seq<T>, t: seq<T>)
    requires multiset(s) == multiset(t) && Distinct(t)
    ensures Distinct(s)
  {
    DistinctCountsAtMostOne(t);
    forall i, j | 0 <= i < j < |s|
      ensures s[i] != s[j]
    {
      if s[i] == s[j] {
        RepeatCountsTwice(s, i, j);
        assert false;
      }
    }
  }

  /** The values at `hi - lo` positions of a repeat-free sequence are `hi - lo` distinct values. */
  lemma {:induction false} DistinctValuesBetweenCard<T>(s: seq<T>, lo: int, hi: int)
    requires 0 <= lo <= hi <= |s| && Distinct(s)
    ensures |ValuesBetween(s, lo, hi)| == hi - lo
  {
    if lo == hi {
      assert ValuesBetween(s, lo, hi) == {};
    } else {
      DistinctValuesBetweenCard(s, lo, hi - 1);
      ValuesBetweenExtend(s, lo, hi - 1);
      assert s[hi - 1] !in ValuesBetween(s, lo, hi - 1);
    }
  }

  /** A subset as large as its superset is the superset. */
  lemma SubsetOfEqualSize<T>(a: set<T>, b: set<T>)
    requires a <= b && |a| == |b|
    ensures a == b
  {
    var rest := b - a;
    assert b == a + rest && a * rest == {};
    assert |b| == |a| + |rest|;
  }

  /** The integers 1 to `n`. */
  ghost function UpTo(n: nat): set<int> {
    if n == 0 then {} else UpTo(n - 1) + {n}
  }

  /** `UpTo(n)` holds exactly the integers from 1 to `n`, and there are `n` of them. */
  lemma {:induction false} UpToProperties(n: nat)
    ensures forall d :: d in UpTo(n) <==> 1 <= d <= n
    ensures |UpTo(n)| == n
  {
    if n > 0 {
      UpToProperties(n - 1);
    }
  }

  /** Pigeonhole: `|s|` distinct values drawn from 1..|s| include every one of 1..|s|. */
  lemma Pigeonhole(s: seq<int>)
    requires Distinct(s)
    requires forall i :: 0 <= i < |s| ==> 1 <= s[i] <= |s|
    ensures forall d :: 1 <= d <= |s| ==> d in s
  {
    var values, range := ValuesBetween(s, 0, |s|), UpTo(|s|);
    DistinctValuesBetweenCard(s, 0, |s|);
    UpToProperties(|s|);
    SubsetOfEqualSize(values, range);
    forall d | 1 <= d <= |s|
      ensures d in s
    {
      assert d in range;
      var i :| 0 <= i < |s| && s[i] == d;
    }
  }
}
