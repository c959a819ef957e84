/** Python's insertion-ordered `dict`: a map from keys to values together with
    the order in which the keys were first inserted. Assigning to a key that
    is already present replaces its value and keeps its position. */
module Dicts {

  /** The elements of `s` are pairwise distinct. */
  predicate Distinct<T(==)>(s: seq<T>) {
    forall i, j :: 0 <= i < j < |s| ==> s[i] != s[j]
  }

  /** The elements of `s`, each one kept at its first occurrence. */
  function Dedup<T(==,!new)>(s: seq<T>): (r: seq<T>)
    ensures Distinct(r)
    ensures forall x :: x in r <==> x in s
  {
    if s == [] then []
    else
      var d := Dedup(s[..|s| - 1]);
      assert s == s[..|s| - 1] + [s[|s| - 1]];
      if s[|s| - 1] in d then d else d + [s[|s| - 1]]
  }

  /** A distinct sequence has as many elements as the set of its elements. */
  lemma {:induction false} DistinctCardinality<T>(s: seq<T>)
    requires Distinct(s)
    ensures |set x | x in s| == |s|
  {
    if s != [] {
      var init := s[..|s| - 1];
      DistinctCardinality(init);
      assert s == init + [s[|s| - 1]];
      assert (set x | x in s) == (set x | x in init) + {s[|s| - 1]};
    }
  }

  /** Removing duplicates leaves one element per distinct value. */
  lemma DedupCardinality<T(!new)>(s: seq<T>)
    ensures |Dedup(s)| == |set x | x in s|
  {
    DistinctCardinality(Dedup(s));
    assert (set x | x in Dedup(s)) == (set x | x in s);
  }

  /** A sequence without duplicates is left as it is. */
  lemma {:induction false} DedupOfDistinct<T(!new)>(s: seq<T>)
    requires Distinct(s)
    ensures Dedup(s) == s
  {
    if s != [] {
      DedupOfDistinct(s[..|s| - 1]);
    }
  }

  datatype Dict<K(==,!new), V> = Dict(order: seq<K>, entries: map<K, V>)

  /** The key order lists every key of the entries exactly once. */
  ghost predicate WellFormed<K(!new), V>(d: Dict<K, V>) {
    Distinct(d.order) && forall k :: k in d.entries <==> k in d.order
  }

  /** No two keys share a value. */
  ghost predicate Injective<K(!new), V(!new)>(d: Dict<K, V>) {
    forall k, k' :: k in d.entries && k' in d.entries && k != k' ==> d.entries[k] != d.entries[k']
  }

  /** `{}` */
  function Empty<K(==,!new), V>(): Dict<K, V> {
    Dict([], map[])
  }

  /** `len(d)` */
  function Len<K(==,!new), V>(d: Dict<K, V>): nat {
    |d.order|
  }

  /** `len(d)` is the number of keys. */
  lemma LenIsKeyCount<K(!new), V>(d: Dict<K, V>)
    requires WellFormed(d)
    ensures Len(d) == |d.entries|
  {
    DistinctCardinality(d.order);
    assert d.entries.Keys == set x | x in d.order;
  }

  /** `d[k] = v` */
  function Put<K(==,!new), V>(d: Dict<K, V>, k: K, v: V): (r: Dict<K, V>)
    ensures WellFormed(d) ==> WellFormed(r)
    ensures k in r.entries && r.entries[k] == v
    ensures forall k' :: k' != k ==> (k' in r.entries <==> k' in d.entries)
    ensures forall k' :: k' != k && k' in d.entries ==> r.entries[k'] == d.entries[k']
    ensures |d.order| <= |r.order| && r.order[..|d.order|] == d.order
  {
    if k in d.entries then Dict(d.order, d.entries[k := v])
    else Dict(d.order + [k], d.entries[k := v])
  }

  /** `list(d.items())` */
  function Items<K(==,!new), V>(d: Dict<K, V>): seq<(K, V)>
    requires WellFormed(d)
  {
    seq(|d.order|, i requires 0 <= i < |d.order| => (d.order[i], d.entries[d.order[i]]))
  }

  /** The keys of a list of pairs, in list order. */
  function Keys<K(==,!new), V>(ps: seq<(K, V)>): (ks: seq<K>)
    ensures |ks| == |ps|
    ensures forall i :: 0 <= i < |ps| ==> ks[i] == ps[i].0
  {
    seq(|ps|, i requires 0 <= i < |ps| => ps[i].0)
  }

  /** `dict(ps)`, and equally a dict comprehension over `ps`, or a loop that
      assigns `d[k] = v` for each pair in turn: a key's position is where it
      first appears, its value is the one from the last pair with that key. */
  function FromPairs<K(==,!new), V>(ps: seq<(K, V)>): (d: Dict<K, V>)
    ensures WellFormed(d)
    ensures d.order == Dedup(Keys(ps))
  {
    if ps == [] then Empty()
    else
      var p := FromPairs(ps[..|ps| - 1]);
      var r := Put(p, ps[|ps| - 1].0, ps[|ps| - 1].1);
      assert r.order == Dedup(Keys(ps)) by {
        assert Keys(ps)[..|ps| - 1] == Keys(ps[..|ps| - 1]);
      }
      r
  }

  /** A key is present exactly when some pair carries it. */
  lemma FromPairsHasKey<K(!new), V>(ps: seq<(K, V)>, k: K)
    ensures k in FromPairs(ps).entries <==> exists i :: 0 <= i < |ps| && ps[i].0 == k
  {
    var ks := Keys(ps);
    if k in FromPairs(ps).entries {
      assert k in Dedup(ks);
      var i :| 0 <= i < |ks| && ks[i] == k;
      assert ps[i].0 == k;
    } else {
      forall i | 0 <= i < |ps|
        ensures ps[i].0 != k
      {
        assert ks[i] in Dedup(ks);
      }
    }
  }

  /** The value of a key is that of the last pair carrying it. */
  lemma {:induction false} FromPairsLastWins<K(!new), V>(ps: seq<(K, V)>, i: nat)
    requires i < |ps|
    requires forall j :: i < j < |ps| ==> ps[j].0 != ps[i].0
    ensures ps[i].0 in FromPairs(ps).entries
    ensures FromPairs(ps).entries[ps[i].0] == ps[i].1
  {
    if i < |ps| - 1 {
      FromPairsLastWins(ps[..|ps| - 1], i);
    }
  }

  /** Every value comes from a pair carrying its key. */
  lemma {:induction false} FromPairsValueOrigin<K(!new), V>(ps: seq<(K, V)>, k: K) returns (i: nat)
    requires k in FromPairs(ps).entries
    ensures i < |ps| && ps[i] == (k, FromPairs(ps).entries[k])
  {
    if ps[|ps| - 1].0 == k {
      i := |ps| - 1;
    } else {
      var init := ps[..|ps| - 1];
      assert FromPairs(ps) == Put(FromPairs(init), ps[|ps| - 1].0, ps[|ps| - 1].1);
      assert k in FromPairs(init).entries && FromPairs(ps).entries[k] == FromPairs(init).entries[k];
      i := FromPairsValueOrigin(init, k);
      assert ps[i] == init[i];
    }
  }

  /** With distinct keys, the pairs come back in their own order. */
  lemma FromPairsOfDistinct<K(!new), V>(ps: seq<(K, V)>)
    requires Distinct(Keys(ps))
    ensures FromPairs(ps).order == Keys(ps) && |FromPairs(ps).order| == |ps|
    ensures forall i :: 0 <= i < |ps| ==> FromPairs(ps).order[i] == ps[i].0
    ensures forall i :: 0 <= i < |ps| ==> FromPairs(ps).entries[ps[i].0] == ps[i].1
  {
    DedupOfDistinct(Keys(ps));
    forall i | 0 <= i < |ps|
      ensures FromPairs(ps).entries[ps[i].0] == ps[i].1
    {
      assert Keys(ps)[i] == ps[i].0;
      FromPairsLastWins(ps, i);
    }
  }
}
