/** Class-id decoding of the trained classifier (`intent_classifier.py`,
    `UCUIntentClassifier`). The network is opaque: a prediction starts from
    the row of softmax probabilities it produced, one per class index. What
    is modelled is the `tag_to_id` / `id_to_tag` bookkeeping, the arg-max
    decode and the sorted table of all probabilities. */
module Classifier {
  import opened Dicts
  import opened Results
  import opened Ordering

  /** What `predict` returns: the tag alone, or the pair (tag, confidence)
      when `return_confidence` is set. */
  datatype Prediction = Tag(tag: string) | TagAndConfidence(tag: string, confidence: real)

  /** The pairs `(v, k)` for the items `(k, v)` of `tag_to_id`, in order. */
  function Swapped(tagToId: Dict<string, int>): seq<(int, string)>
    requires WellFormed(tagToId)
  {
    seq(|tagToId.order|, i requires 0 <= i < |tagToId.order| => (tagToId.entries[tagToId.order[i]], tagToId.order[i]))
  }

  /** `{v: k for k, v in tag_to_id.items()}` */
  function IdToTag(tagToId: Dict<string, int>): Dict<int, string>
    requires WellFormed(tagToId)
  {
    FromPairs(Swapped(tagToId))
  }

  /** Whatever `tag_to_id` holds, `id_to_tag` only maps an id to a tag that
      has that id, and every id of `tag_to_id` is decodable. */
  lemma IdToTagRoundTrip(tagToId: Dict<string, int>)
    requires WellFormed(tagToId)
    ensures forall id :: id in IdToTag(tagToId).entries ==>
      IdToTag(tagToId).entries[id] in tagToId.entries && tagToId.entries[IdToTag(tagToId).entries[id]] == id
    ensures forall t :: t in tagToId.entries ==> tagToId.entries[t] in IdToTag(tagToId).entries
  {
    IdToTagNamesTags(tagToId);
    IdToTagCoversIds(tagToId);
  }

  /** Every entry of `id_to_tag` names a tag with that id. */
  lemma IdToTagNamesTags(tagToId: Dict<string, int>)
    requires WellFormed(tagToId)
    ensures forall id :: id in IdToTag(tagToId).entries ==>
      IdToTag(tagToId).entries[id] in tagToId.entries && tagToId.entries[IdToTag(tagToId).entries[id]] == id
  {
    var ps, d := Swapped(tagToId), IdToTag(tagToId);
    forall id | id in d.entries
      ensures d.entries[id] in tagToId.entries && tagToId.entries[d.entries[id]] == id
    {
      var i := FromPairsValueOrigin(ps, id);
      assert ps[i] == (tagToId.entries[tagToId.order[i]], tagToId.order[i]);
      assert tagToId.order[i] in tagToId.entries;
    }
  }

  /** Every id of `tag_to_id` is a key of `id_to_tag`. */
  lemma IdToTagCoversIds(tagToId: Dict<string, int>)
    requires WellFormed(tagToId)
    ensures forall t :: t in tagToId.entries ==> tagToId.entries[t] in IdToTag(tagToId).entries
  {
    var ps := Swapped(tagToId);
    forall t | t in tagToId.entries
      ensures tagToId.entries[t] in FromPairs(ps).entries
    {
      var i :| 0 <= i < |tagToId.order| && tagToId.order[i] == t;
      FromPairsHasKey(ps, tagToId.entries[t]);
      assert ps[i].0 == tagToId.entries[t];
    }
  }

  /** When no two tags share an id, `id_to_tag` inverts `tag_to_id`
      exactly and has as many entries. */
  lemma IdToTagInverts(tagToId: Dict<string, int>)
    requires WellFormed(tagToId) && Injective(tagToId)
    ensures forall t :: t in tagToId.entries ==>
      tagToId.entries[t] in IdToTag(tagToId).entries && IdToTag(tagToId).entries[tagToId.entries[t]] == t
    ensures Len(IdToTag(tagToId)) == Len(tagToId)
  {
    var ps := Swapped(tagToId);
    SwappedKeysDistinct(tagToId);
    FromPairsOfDistinct(ps);
    var d := FromPairs(ps);
    assert Len(d) == |ps| == Len(tagToId);
    forall i | 0 <= i < |ps|
      ensures tagToId.entries[tagToId.order[i]] in d.entries
      ensures d.entries[tagToId.entries[tagToId.order[i]]] == tagToId.order[i]
    {
      FromPairsHasKey(ps, ps[i].0);
    }
    InvertsEachTag(tagToId, d);
  }

  /** With no id shared, the swapped pairs have distinct keys. */
  lemma SwappedKeysDistinct(tagToId: Dict<string, int>)
    requires WellFormed(tagToId) && Injective(tagToId)
    ensures Distinct(Keys(Swapped(tagToId)))
  {
    var ps := Swapped(tagToId);
    forall i, j | 0 <= i < j < |ps|
      ensures Keys(ps)[i] != Keys(ps)[j]
    {
      var t, t' := tagToId.order[i], tagToId.order[j];
      assert t != t' && t in tagToId.entries && t' in tagToId.entries;
      assert Keys(ps)[i] == tagToId.entries[t] && Keys(ps)[j] == tagToId.entries[t'];
    }
  }

  /** A dictionary that maps the id of each tag of `tag_to_id`, visited in
      order, back to that tag inverts `tag_to_id`. */
  lemma InvertsEachTag(tagToId: Dict<string, int>, d: Dict<int, string>)
    requires WellFormed(tagToId)
    requires forall i :: 0 <= i < |tagToId.order| ==>
      tagToId.entries[tagToId.order[i]] in d.entries && d.entries[tagToId.entries[tagToId.order[i]]] == tagToId.order[i]
    ensures forall t :: t in tagToId.entries ==> tagToId.entries[t] in d.entries && d.entries[tagToId.entries[t]] == t
  {
    forall t | t in tagToId.entries
      ensures tagToId.entries[t] in d.entries && d.entries[tagToId.entries[t]] == t
    {
      var i :| 0 <= i < |tagToId.order| && tagToId.order[i] == t;
    }
  }

  /** When several tags share an id, the one latest in `tag_to_id`'s
      iteration order is what the id decodes to. */
  lemma IdToTagLaterWins(tagToId: Dict<string, int>, k: nat)
    requires WellFormed(tagToId) && k < |tagToId.order|
    requires forall j :: k < j < |tagToId.order| ==>
      tagToId.entries[tagToId.order[j]] != tagToId.entries[tagToId.order[k]]
    ensures tagToId.entries[tagToId.order[k]] in IdToTag(tagToId).entries
    ensures IdToTag(tagToId).entries[tagToId.entries[tagToId.order[k]]] == tagToId.order[k]
  {
    FromPairsLastWins(Swapped(tagToId), k);
  }

  /** `torch.max(probabilities, dim=1)` on one row: the index of the first
      largest probability. */
  function ArgMax(probabilities: seq<real>): (k: nat)
    requires probabilities != []
    ensures IsFirstMaximum(probabilities, k)
  {
    if |probabilities| == 1 then 0
    else
      var k := ArgMax(probabilities[..|probabilities| - 1]);
      if probabilities[|probabilities| - 1] > probabilities[k] then |probabilities| - 1 else k
  }

  /** The probability of one `(tag, probability)` item: the sort key. */
  function Probability(item: (string, real)): real {
    item.1
  }

  /** `table` maps the tag of every class index to that class's
      probability, and holds nothing else. */
  ghost predicate HasClassEntries(table: Dict<string, real>, probabilities: seq<real>, idToTag: Dict<int, string>) {
    && WellFormed(table)
    && Len(table) == |probabilities|
    && (forall i :: 0 <= i < |probabilities| ==>
          i in idToTag.entries && idToTag.entries[i] in table.entries && table.entries[idToTag.entries[i]] == probabilities[i])
  }

  /** `table` iterates in non-increasing order of probability. */
  ghost predicate IsByDescendingProbability(table: Dict<string, real>)
    requires WellFormed(table)
  {
    forall a, b :: 0 <= a < b < |table.order| ==> table.entries[table.order[a]] >= table.entries[table.order[b]]
  }

  /** In `table`, tags with equal probabilities come in increasing class
      index. */
  ghost predicate TiesInClassOrder(table: Dict<string, real>, tagToId: Dict<string, int>)
    requires WellFormed(table)
  {
    forall a, b :: 0 <= a < b < |table.order| && table.entries[table.order[a]] == table.entries[table.order[b]] ==>
      table.order[a] in tagToId.entries && table.order[b] in tagToId.entries
      && tagToId.entries[table.order[a]] < tagToId.entries[table.order[b]]
  }

  /** The loaded classifier; only the two id maps are modelled. */
  class IntentClassifier {
    /** `self.tag_to_id`, as read from the tag mapping file. */
    const tagToId: Dict<string, int>
    /** `self.id_to_tag` */
    const idToTag: Dict<int, string>

    ghost predicate Valid() {
      WellFormed(tagToId) && idToTag == IdToTag(tagToId)
    }

    /** `__init__`, from the parsed tag mapping. */
    constructor (tagMapping: Dict<string, int>)
      requires WellFormed(tagMapping)
      ensures Valid() && tagToId == tagMapping
    {
      tagToId := tagMapping;
      idToTag := IdToTag(tagMapping);
    }

    /** `predict(text, return_confidence)` once the network has produced
        `probabilities`: the tag of the first most probable class, whatever
        its probability, with that probability when asked for. An empty
        row cannot be reduced; a class index without a tag is a KeyError. */
    function Predict(probabilities: seq<real>, returnConfidence: bool): (r: Result<Prediction>)
      requires Valid()
      ensures probabilities == [] ==> r == Err(RuntimeError)
      ensures probabilities != [] ==> (r.Ok? <==> ArgMax(probabilities) in idToTag.entries)
      ensures probabilities != [] && r.Err? ==> r.error == KeyError
      ensures r.Ok? ==> probabilities != [] && var k := ArgMax(probabilities);
        && k in idToTag.entries && r.value.tag == idToTag.entries[k]
        && r.value.tag in tagToId.entries && tagToId.entries[r.value.tag] == k
        && (r.value.TagAndConfidence? <==> returnConfidence)
        && (returnConfidence ==>
              && r.value.confidence == probabilities[k]
              && forall j :: 0 <= j < |probabilities| ==> probabilities[j] <= r.value.confidence)
    {
      if probabilities == [] then Err(RuntimeError)
      else
        var predictedClass := ArgMax(probabilities);
        if predictedClass !in idToTag.entries then Err(KeyError)
        else
          IdToTagRoundTrip(tagToId);
          var intent := idToTag.entries[predictedClass];
          if returnConfidence then Ok(TagAndConfidence(intent, probabilities[predictedClass]))
          else Ok(Tag(intent))
    }

    /** `predict_with_all_probabilities(text)` once the network has produced
        `probabilities`: every class's tag with its probability, most
        probable first. A class index without a tag is a KeyError. */
    method PredictWithAllProbabilities(probabilities: seq<real>) returns (r: Result<Dict<string, real>>)
      requires Valid()
      ensures r.Err? <==> exists i :: 0 <= i < |probabilities| && i !in idToTag.entries
      ensures r.Err? ==> r.error == KeyError
      ensures r.Ok? ==> HasClassEntries(r.value, probabilities, idToTag)
      ensures r.Ok? ==> IsByDescendingProbability(r.value) && TiesInClassOrder(r.value, tagToId)
    {
      IdToTagIsInjective(tagToId);
      var results: Dict<string, real> := Empty();
      for i := 0 to |probabilities|
        invariant HoldsClasses(results, probabilities, idToTag, i)
      {
        if i !in idToTag.entries {
          return Err(KeyError);
        }
        var intentName := idToTag.entries[i];
        ClassStep(results, probabilities, idToTag, i);
        results := Put(results, intentName, probabilities[i]);
      }
      SortedTable(results, probabilities, tagToId, idToTag);
      r := Ok(FromPairs(SortDesc(Items(results), Probability)));
    }
  }

  /** No two ids decode to the same tag. */
  lemma IdToTagIsInjective(tagToId: Dict<string, int>)
    requires WellFormed(tagToId)
    ensures Injective(IdToTag(tagToId))
  {
    IdToTagNamesTags(tagToId);
  }

  /** What the end of `predict_with_all_probabilities` returns once every
      class has been entered in `results`. */
  lemma SortedTable(results: Dict<string, real>, probabilities: seq<real>, tagToId: Dict<string, int>, idToTag: Dict<int, string>)
    requires WellFormed(tagToId) && idToTag == IdToTag(tagToId)
    requires HoldsClasses(results, probabilities, idToTag, |probabilities|)
    ensures var table := FromPairs(SortDesc(Items(results), Probability));
      && HasClassEntries(table, probabilities, idToTag)
      && IsByDescendingProbability(table) && TiesInClassOrder(table, tagToId)
  {
    TableOfClasses(results, probabilities, tagToId, idToTag);
    IdToTagNamesTags(tagToId);
    TableOrder(results, tagToId);
  }

  /** After `i` rounds of the loop of `predict_with_all_probabilities`,
      `results` maps the tags of classes 0 .. i-1, in that order, to their
      probabilities. */
  ghost predicate HoldsClasses(results: Dict<string, real>, probabilities: seq<real>, idToTag: Dict<int, string>, i: nat) {
    && i <= |probabilities|
    && WellFormed(results) && |results.order| == i
    && (forall j :: 0 <= j < i ==> j in idToTag.entries && results.order[j] == idToTag.entries[j])
    && (forall j :: 0 <= j < i ==> results.entries[idToTag.entries[j]] == probabilities[j])
  }

  /** One round of that loop: as ids decode to distinct tags, the tag of
      class `i` is new and goes at the end. */
  lemma ClassStep(results: Dict<string, real>, probabilities: seq<real>, idToTag: Dict<int, string>, i: nat)
    requires HoldsClasses(results, probabilities, idToTag, i) && i < |probabilities|
    requires Injective(idToTag) && i in idToTag.entries
    ensures HoldsClasses(Put(results, idToTag.entries[i], probabilities[i]), probabilities, idToTag, i + 1)
  {
    var intentName := idToTag.entries[i];
    assert intentName !in results.order by {
      forall j | 0 <= j < i
        ensures results.order[j] != intentName
      {
        assert j in idToTag.entries;
      }
    }
    assert Put(results, intentName, probabilities[i]).order == results.order + [intentName];
  }

  /** Once every class is entered, the sorted table holds every class's
      probability under its tag. */
  lemma TableOfClasses(results: Dict<string, real>, probabilities: seq<real>, tagToId: Dict<string, int>, idToTag: Dict<int, string>)
    requires WellFormed(tagToId) && idToTag == IdToTag(tagToId)
    requires HoldsClasses(results, probabilities, idToTag, |probabilities|)
    ensures HasClassEntries(FromPairs(SortDesc(Items(results), Probability)), probabilities, idToTag)
  {
    IdToTagRoundTrip(tagToId);
    var items := Items(results);
    var sorted := SortDesc(items, Probability);
    SortedItems(results, tagToId);
    SortDescMembers(items, Probability);
    assert forall x :: 0 <= x < |results.order| ==> items[x] == (results.order[x], results.entries[results.order[x]]);
    ListsOfDistinct(sorted);
    TableEntries(results, sorted, FromPairs(sorted));
  }

  /** The sorted table, when the k-th key of `results` has id k, is in
      descending probability, ties in increasing id. */
  lemma TableOrder(results: Dict<string, real>, tagToId: Dict<string, int>)
    requires WellFormed(results)
    requires forall a :: 0 <= a < |results.order| ==>
      results.order[a] in tagToId.entries && tagToId.entries[results.order[a]] == a
    ensures IsByDescendingProbability(FromPairs(SortDesc(Items(results), Probability)))
    ensures TiesInClassOrder(FromPairs(SortDesc(Items(results), Probability)), tagToId)
  {
    var sorted := SortDesc(Items(results), Probability);
    SortedItems(results, tagToId);
    ListsOfDistinct(sorted);
    TableOrderOfSorted(sorted, FromPairs(sorted));
    TableTiesOfSorted(sorted, FromPairs(sorted), tagToId);
  }

  /** The rank of an item in `results`: the id of its tag. */
  function ClassIndex(tagToId: Dict<string, int>, item: (string, real)): int {
    if item.0 in tagToId.entries then tagToId.entries[item.0] else 0
  }

  /** `sorted(results.items(), key=lambda x: x[1], reverse=True)` when the
      k-th key of `results` has id k: the same items, keys still distinct,
      in non-increasing probability, equal probabilities in increasing id. */
  lemma SortedItems(results: Dict<string, real>, tagToId: Dict<string, int>)
    requires WellFormed(results)
    requires forall a :: 0 <= a < |results.order| ==>
      results.order[a] in tagToId.entries && tagToId.entries[results.order[a]] == a
    ensures var sorted := SortDesc(Items(results), Probability);
      && |sorted| == |results.order|
      && Distinct(Keys(sorted))
      && NonIncreasing(sorted, Probability)
      && (forall a, b :: 0 <= a < b < |sorted| && sorted[a].1 == sorted[b].1 ==>
            sorted[a].0 in tagToId.entries && sorted[b].0 in tagToId.entries
            && tagToId.entries[sorted[a].0] < tagToId.entries[sorted[b].0])
  {
    var items := Items(results);
    var rank := item => ClassIndex(tagToId, item);
    var sorted := SortDesc(items, Probability);
    SortDescMembers(items, Probability);
    SortDescNonIncreasing(items, Probability);
    SortDescStable(items, Probability, rank);
    assert forall a, b :: 0 <= a < b < |sorted| && sorted[a].1 == sorted[b].1 ==>
      ClassIndex(tagToId, sorted[a]) < ClassIndex(tagToId, sorted[b]);
    SortedKeys(results, tagToId, sorted);
  }

  /** Items of `results`, listed with ties in increasing rank, have
      distinct keys, and their ties come in increasing id. */
  lemma SortedKeys(results: Dict<string, real>, tagToId: Dict<string, int>, sorted: seq<(string, real)>)
    requires WellFormed(results)
    requires forall a :: 0 <= a < |results.order| ==>
      results.order[a] in tagToId.entries && tagToId.entries[results.order[a]] == a
    requires forall i :: 0 <= i < |sorted| ==> sorted[i] in Items(results)
    requires forall a, b :: 0 <= a < b < |sorted| && sorted[a].1 == sorted[b].1 ==>
      ClassIndex(tagToId, sorted[a]) < ClassIndex(tagToId, sorted[b])
    ensures Distinct(Keys(sorted))
    ensures forall a, b :: 0 <= a < b < |sorted| && sorted[a].1 == sorted[b].1 ==>
      sorted[a].0 in tagToId.entries && sorted[b].0 in tagToId.entries
      && tagToId.entries[sorted[a].0] < tagToId.entries[sorted[b].0]
  {
    var items := Items(results);
    forall a, b | 0 <= a < b < |sorted|
      ensures sorted[a].0 != sorted[b].0
      ensures sorted[a].0 in tagToId.entries && sorted[b].0 in tagToId.entries
      ensures sorted[a].1 == sorted[b].1 ==> tagToId.entries[sorted[a].0] < tagToId.entries[sorted[b].0]
    {
      var x :| 0 <= x < |items| && items[x] == sorted[a];
      var y :| 0 <= y < |items| && items[y] == sorted[b];
      if sorted[a].0 == sorted[b].0 {
        assert false;
      }
    }
  }

  /** `table` iterates over the pairs of `ps`, in order: what `dict(ps)`
      is when the keys of `ps` are distinct. */
  ghost predicate Lists(table: Dict<string, real>, ps: seq<(string, real)>) {
    && WellFormed(table) && |table.order| == |ps|
    && (forall i :: 0 <= i < |ps| ==> table.order[i] == ps[i].0 && table.entries[ps[i].0] == ps[i].1)
  }

  /** `dict(ps)` lists `ps` when its keys are distinct. */
  lemma ListsOfDistinct(ps: seq<(string, real)>)
    requires Distinct(Keys(ps))
    ensures Lists(FromPairs(ps), ps)
  {
    FromPairsOfDistinct(ps);
  }

  /** A table listing a list that holds every item of `results` has the
      entries of `results`. */
  lemma TableEntries(results: Dict<string, real>, sorted: seq<(string, real)>, table: Dict<string, real>)
    requires WellFormed(results) && |sorted| == |results.order|
    requires forall x :: 0 <= x < |results.order| ==> (results.order[x], results.entries[results.order[x]]) in sorted
    requires Lists(table, sorted)
    ensures Len(table) == Len(results)
    ensures forall x :: 0 <= x < |results.order| ==>
      results.order[x] in table.entries && table.entries[results.order[x]] == results.entries[results.order[x]]
  {
    forall x | 0 <= x < |results.order|
      ensures results.order[x] in table.entries && table.entries[results.order[x]] == results.entries[results.order[x]]
    {
      var b :| 0 <= b < |sorted| && sorted[b] == (results.order[x], results.entries[results.order[x]]);
      assert table.order[b] == results.order[x];
    }
  }

  /** A table listing a list in non-increasing value iterates in
      non-increasing value. */
  lemma TableOrderOfSorted(sorted: seq<(string, real)>, table: Dict<string, real>)
    requires NonIncreasing(sorted, Probability) && Lists(table, sorted)
    ensures IsByDescendingProbability(table)
  {
    forall a, b | 0 <= a < b < |table.order|
      ensures table.entries[table.order[a]] >= table.entries[table.order[b]]
    {
      assert Probability(sorted[a]) >= Probability(sorted[b]);
    }
  }

  /** ... and keeps equal values in the order of the list. */
  lemma TableTiesOfSorted(sorted: seq<(string, real)>, table: Dict<string, real>, tagToId: Dict<string, int>)
    requires Lists(table, sorted)
    requires forall a, b :: 0 <= a < b < |sorted| && sorted[a].1 == sorted[b].1 ==>
      sorted[a].0 in tagToId.entries && sorted[b].0 in tagToId.entries
      && tagToId.entries[sorted[a].0] < tagToId.entries[sorted[b].0]
    ensures TiesInClassOrder(table, tagToId)
  {
    forall a, b | 0 <= a < b < |table.order| && table.entries[table.order[a]] == table.entries[table.order[b]]
      ensures table.order[a] in tagToId.entries && table.order[b] in tagToId.entries
        && tagToId.entries[table.order[a]] < tagToId.entries[table.order[b]]
    {
      assert table.order[a] == sorted[a].0 && table.order[b] == sorted[b].0;
    }
  }
}
