/** Orderings the classifiers rely on: the predicate "first position of a
    maximum", which `Classifier.ArgMax` (`torch.max`) satisfies and which
    the zero-shot scan picks when that maximum is positive, and Python's
    `sorted(items, key=..., reverse=True)`, a stable sort into non-increasing
    key order. */
module Ordering {

  /** `k` is the first position holding the largest of `scores`. */
  ghost predicate IsFirstMaximum(scores: seq<real>, k: nat) {
    && k < |scores|
    && (forall j :: 0 <= j < |scores| ==> scores[j] <= scores[k])
    && (forall j :: 0 <= j < k ==> scores[j] < scores[k])
  }

  /** Keys never increase along `s`. */
  ghost predicate NonIncreasing<T>(s: seq<T>, key: T -> real) {
    forall i, j :: 0 <= i < j < |s| ==> key(s[i]) >= key(s[j])
  }

  /** Along `s`, elements with equal keys come in increasing rank. */
  ghost predicate TiesByRank<T>(s: seq<T>, key: T -> real, rank: T -> int) {
    forall i, j :: 0 <= i < j < |s| && key(s[i]) == key(s[j]) ==> rank(s[i]) < rank(s[j])
  }

  /** Rank strictly increases along `s`: the rank is the input position. */
  ghost predicate RankIncreasing<T>(s: seq<T>, rank: T -> int) {
    forall i, j :: 0 <= i < j < |s| ==> rank(s[i]) < rank(s[j])
  }

  /** Inserts `x` before the first element whose key is smaller than its
      own, so that it follows every element with an equal key. */
  function InsertDesc<T>(s: seq<T>, x: T, key: T -> real): seq<T> {
    if s == [] then [x]
    else if key(s[0]) < key(x) then [x] + s
    else [s[0]] + InsertDesc(s[1..], x, key)
  }

  /** `sorted(s, key=key, reverse=True)`. */
  function SortDesc<T>(s: seq<T>, key: T -> real): seq<T> {
    if s == [] then []
    else InsertDesc(SortDesc(s[..|s| - 1], key), s[|s| - 1], key)
  }

  /** Where `InsertDesc` puts `x`: after the leading elements whose keys are
      at least its own, right before the first smaller one. */
  lemma {:induction false} InsertDescSplit<T>(s: seq<T>, x: T, key: T -> real) returns (p: nat)
    ensures p <= |s| && InsertDesc(s, x, key) == s[..p] + [x] + s[p..]
    ensures forall i :: 0 <= i < p ==> key(s[i]) >= key(x)
    ensures p < |s| ==> key(s[p]) < key(x)
  {
    if s == [] {
      p := 0;
    } else if key(s[0]) < key(x) {
      p := 0;
    } else {
      var q := InsertDescSplit(s[1..], x, key);
      p := q + 1;
      assert s == [s[0]] + s[1..];
      assert s[..p] == [s[0]] + s[1..][..q];
    }
  }

  /** The positions of `s` with `x` put at position `p`. */
  lemma InsertedAt<T>(s: seq<T>, x: T, p: nat)
    requires p <= |s|
    ensures |s[..p] + [x] + s[p..]| == |s| + 1 && (s[..p] + [x] + s[p..])[p] == x
    ensures forall i :: 0 <= i < p ==> (s[..p] + [x] + s[p..])[i] == s[i]
    ensures forall j :: p < j <= |s| ==> (s[..p] + [x] + s[p..])[j] == s[j - 1]
  {
  }

  /** Inserting adds `x` and nothing else. */
  lemma {:induction false} InsertDescPermutation<T>(s: seq<T>, x: T, key: T -> real)
    ensures multiset(InsertDesc(s, x, key)) == multiset(s) + multiset{x}
  {
    if s != [] && key(s[0]) >= key(x) {
      InsertDescPermutation(s[1..], x, key);
      assert s == [s[0]] + s[1..];
    }
  }

  /** The sort is a permutation of its input. */
  lemma {:induction false} SortDescPermutation<T>(s: seq<T>, key: T -> real)
    ensures multiset(SortDesc(s, key)) == multiset(s)
  {
    if s != [] {
      var init := s[..|s| - 1];
      SortDescPermutation(init, key);
      InsertDescPermutation(SortDesc(init, key), s[|s| - 1], key);
      assert s == init + [s[|s| - 1]];
    }
  }

  /** The sort keeps the length and the elements of its input. */
  lemma SortDescMembers<T>(s: seq<T>, key: T -> real)
    ensures |SortDesc(s, key)| == |s|
    ensures forall i :: 0 <= i < |s| ==> SortDesc(s, key)[i] in s
    ensures forall i :: 0 <= i < |s| ==> s[i] in SortDesc(s, key)
  {
    SortDescPermutation(s, key);
    assert |multiset(SortDesc(s, key))| == |multiset(s)|;
    forall i | 0 <= i < |s|
      ensures SortDesc(s, key)[i] in s && s[i] in SortDesc(s, key)
    {
      assert SortDesc(s, key)[i] in multiset(SortDesc(s, key));
      assert s[i] in multiset(s);
    }
  }

  /** The sort leaves the keys in non-increasing order. */
  lemma {:induction false} SortDescNonIncreasing<T>(s: seq<T>, key: T -> real)
    ensures NonIncreasing(SortDesc(s, key), key)
  {
    if s != [] {
      var init, x := s[..|s| - 1], s[|s| - 1];
      SortDescNonIncreasing(init, key);
      var sorted := SortDesc(init, key);
      var p := InsertDescSplit(sorted, x, key);
      InsertedAt(sorted, x, p);
      var r := SortDesc(s, key);
      forall i, j | 0 <= i < j < |r|
        ensures key(r[i]) >= key(r[j])
      {
        if j < p {
          assert r[i] == sorted[i] && r[j] == sorted[j];
        } else if j == p {
          assert r[i] == sorted[i];
        } else if i == p {
          assert r[j] == sorted[j - 1];
          assert key(sorted[p]) >= key(sorted[j - 1]);
        } else if i < p {
          assert r[i] == sorted[i] && r[j] == sorted[j - 1];
        } else {
          assert r[i] == sorted[i - 1] && r[j] == sorted[j - 1];
        }
      }
    }
  }

  /** The sort is stable: when the input is in increasing rank, elements
      with equal keys keep that order. */
  lemma {:induction false} SortDescStable<T>(s: seq<T>, key: T -> real, rank: T -> int)
    requires RankIncreasing(s, rank)
    ensures TiesByRank(SortDesc(s, key), key, rank)
  {
    if s != [] {
      var init, x := s[..|s| - 1], s[|s| - 1];
      SortDescStable(init, key, rank);
      var sorted := SortDesc(init, key);
      assert forall y :: y in sorted ==> rank(y) < rank(x) by {
        SortDescPermutation(init, key);
        forall y | y in sorted
          ensures rank(y) < rank(x)
        {
          assert y in multiset(init);
          var k :| 0 <= k < |init| && init[k] == y;
          assert s[k] == y;
        }
      }
      SortDescNonIncreasing(init, key);
      var p := InsertDescSplit(sorted, x, key);
      InsertedAt(sorted, x, p);
      InsertStable(sorted, x, key, rank, p);
    }
  }

  /** Inserting an element of higher rank than all others keeps ties in
      rank order, as it goes after every element with an equal key. */
  lemma InsertStable<T>(sorted: seq<T>, x: T, key: T -> real, rank: T -> int, p: nat)
    requires NonIncreasing(sorted, key) && TiesByRank(sorted, key, rank)
    requires forall y :: y in sorted ==> rank(y) < rank(x)
    requires p <= |sorted| && |InsertDesc(sorted, x, key)| == |sorted| + 1 && InsertDesc(sorted, x, key)[p] == x
    requires forall i :: 0 <= i < p ==> InsertDesc(sorted, x, key)[i] == sorted[i]
    requires forall j :: p < j <= |sorted| ==> InsertDesc(sorted, x, key)[j] == sorted[j - 1]
    requires forall i :: 0 <= i < p ==> key(sorted[i]) >= key(x)
    requires p < |sorted| ==> key(sorted[p]) < key(x)
    ensures TiesByRank(InsertDesc(sorted, x, key), key, rank)
  {
    var r := InsertDesc(sorted, x, key);
    assert forall j :: p < j < |r| ==> key(r[j]) < key(x) by {
      forall j | p < j < |r|
        ensures key(r[j]) < key(x)
      {
        assert key(sorted[p]) >= key(sorted[j - 1]);
      }
    }
    forall i, j | 0 <= i < j < |r| && key(r[i]) == key(r[j])
      ensures rank(r[i]) < rank(r[j])
    {
      if j == p {
        assert sorted[i] in sorted;
      } else if i <= p && p < j {
        assert false;
      }
    }
  }
}
