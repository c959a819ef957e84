/** Label encoding for the trained classifier (`train_intent_classifier.py`,
    `load_and_prepare_data` after the JSON file is parsed): every pattern
    becomes one training text, labelled with the integer id of its intent's
    tag; ids are handed out densely in order of first appearance. */
module Training {
  import opened Dicts
  import opened Intents

  /** The shared configuration object; only `NUM_LABELS` is modelled. */
  class Config {
    var numLabels: nat

    /** `NUM_LABELS = 14` until training overwrites it. */
    constructor ()
      ensures numLabels == 14
    {
      numLabels := 14;
    }
  }

  /** `tag_to_id` once the loop has seen `intents`: a tag not seen before
      gets the id `len(tag_to_id)`, a tag seen before keeps its id. The
      contract says that the keys are the distinct tags in order of first
      appearance and that the k-th of them has id k. */
  function TagToId(intents: seq<Intent>): (d: Dict<string, nat>)
    ensures WellFormed(d)
    ensures d.order == TagOrder(intents)
    ensures forall k :: 0 <= k < |d.order| ==> d.entries[d.order[k]] == k
  {
    if intents == [] then Empty()
    else
      var p := TagToId(intents[..|intents| - 1]);
      var tag := intents[|intents| - 1].tag;
      TagOrderStep(intents);
      if tag in p.entries then p else Put(p, tag, Len(p))
  }

  /** `texts`: every intent's patterns, concatenated in catalog order. */
  function Patterns(intents: seq<Intent>): seq<string> {
    if intents == [] then []
    else Patterns(intents[..|intents| - 1]) + intents[|intents| - 1].patterns
  }

  /** Every pattern paired with the tag of the intent it belongs to. */
  function Examples(intents: seq<Intent>): seq<(string, string)> {
    if intents == [] then []
    else
      var last := intents[|intents| - 1];
      Examples(intents[..|intents| - 1])
        + seq(|last.patterns|, k requires 0 <= k < |last.patterns| => (last.patterns[k], last.tag))
  }

  /** The total number of patterns in the catalog. */
  function PatternCount(intents: seq<Intent>): nat {
    if intents == [] then 0
    else PatternCount(intents[..|intents| - 1]) + |intents[|intents| - 1].patterns|
  }

  /** `n` copies of `x`. */
  function Repeat(x: nat, n: nat): (r: seq<nat>)
    ensures |r| == n && forall k :: 0 <= k < n ==> r[k] == x
  {
    if n == 0 then [] else Repeat(x, n - 1) + [x]
  }

  /** `labels`: for each pattern, in order, the id its intent's tag had when
      the pattern was appended. */
  function Labels(intents: seq<Intent>): seq<nat> {
    if intents == [] then []
    else
      var last := intents[|intents| - 1];
      assert last.tag in Tags(intents);
      Labels(intents[..|intents| - 1]) + Repeat(TagToId(intents).entries[last.tag], |last.patterns|)
  }

  /** Ids never change once given: the mapping after a prefix of the catalog
      is contained in the final mapping. */
  lemma {:induction false} TagToIdStable(intents: seq<Intent>, n: nat)
    requires n <= |intents|
    ensures forall t :: t in TagToId(intents[..n]).entries ==>
      t in TagToId(intents).entries && TagToId(intents).entries[t] == TagToId(intents[..n]).entries[t]
  {
    if n < |intents| {
      var init := intents[..|intents| - 1];
      assert init[..n] == intents[..n];
      TagToIdStable(init, n);
    } else {
      assert intents[..n] == intents;
    }
  }

  /** Distinct tags get distinct ids, and the ids are exactly 0 .. n-1 for
      n distinct tags. */
  lemma TagIdsDense(intents: seq<Intent>)
    ensures Injective(TagToId(intents))
    ensures forall t :: t in TagToId(intents).entries ==> TagToId(intents).entries[t] < Len(TagToId(intents))
    ensures forall id :: 0 <= id < Len(TagToId(intents)) ==> id in TagToId(intents).entries.Values
  {
    var d := TagToId(intents);
    forall t | t in d.entries
      ensures exists k :: 0 <= k < |d.order| && d.order[k] == t && d.entries[t] == k
    {
      var k :| 0 <= k < |d.order| && d.order[k] == t;
    }
    forall id | 0 <= id < Len(d)
      ensures id in d.entries.Values
    {
      assert d.order[id] in d.entries;
    }
  }

  /** `NUM_LABELS` is the number of distinct tags, not the number of intents. */
  lemma NumLabelsIsDistinctTags(intents: seq<Intent>)
    ensures Len(TagToId(intents)) == DistinctTagCount(intents)
    ensures forall t :: t in TagToId(intents).entries <==> t in Tags(intents)
  {
    DistinctTagsCounted(intents);
  }

  /** The first intent with a given tag fixes its id: the number of distinct
      tags seen before it. */
  lemma FirstAppearanceGetsNextId(intents: seq<Intent>, j: nat)
    requires j < |intents| && intents[j].tag !in Tags(intents[..j])
    ensures TagToId(intents).entries[intents[j].tag] == Len(TagToId(intents[..j]))
  {
    var upto := intents[..j + 1];
    assert upto[..j] == intents[..j];
    assert intents[j].tag !in TagToId(intents[..j]).entries;
    TagToIdStable(intents, j + 1);
  }

  /** `texts` and `labels` have one entry per pattern of the catalog, and
      the k-th label is the id of the tag of the intent the k-th text came
      from. */
  lemma {:induction false} TextsAndLabelsAligned(intents: seq<Intent>)
    ensures |Patterns(intents)| == |Labels(intents)| == |Examples(intents)| == PatternCount(intents)
    ensures forall k :: 0 <= k < |Examples(intents)| ==>
      && Patterns(intents)[k] == Examples(intents)[k].0
      && Examples(intents)[k].1 in TagToId(intents).entries
      && Labels(intents)[k] == TagToId(intents).entries[Examples(intents)[k].1]
  {
    if intents != [] {
      var init := intents[..|intents| - 1];
      var last := intents[|intents| - 1];
      TextsAndLabelsAligned(init);
      TagToIdStable(intents, |intents| - 1);
      assert intents[..|intents| - 1] == init;
      var n := |Examples(init)|;
      forall k | 0 <= k < |Examples(intents)|
        ensures && Patterns(intents)[k] == Examples(intents)[k].0
                && Examples(intents)[k].1 in TagToId(intents).entries
                && Labels(intents)[k] == TagToId(intents).entries[Examples(intents)[k].1]
      {
        if k < n {
          assert Examples(intents)[k] == Examples(init)[k];
          assert Patterns(intents)[k] == Patterns(init)[k];
          assert Labels(intents)[k] == Labels(init)[k];
        } else {
          assert Examples(intents)[k] == (last.patterns[k - n], last.tag);
          assert last.tag in Tags(intents);
        }
      }
    }
  }

  /** Every label is a valid class id: below `NUM_LABELS`. */
  lemma LabelsAreClassIds(intents: seq<Intent>)
    ensures forall k :: 0 <= k < |Labels(intents)| ==> Labels(intents)[k] < Len(TagToId(intents))
  {
    TextsAndLabelsAligned(intents);
    TagIdsDense(intents);
  }

  /** One more intent extends `texts`, `labels` and `tag_to_id` as the
      loop body of `load_and_prepare_data` does. */
  lemma PrepareStep(intents: seq<Intent>, i: nat)
    requires i < |intents|
    ensures var prior, tag := TagToId(intents[..i]), intents[i].tag;
      TagToId(intents[..i + 1]) == if tag in prior.entries then prior else Put(prior, tag, Len(prior))
    ensures intents[i].tag in TagToId(intents[..i + 1]).entries
    ensures Patterns(intents[..i + 1]) == Patterns(intents[..i]) + intents[i].patterns
    ensures Labels(intents[..i + 1]) == Labels(intents[..i])
      + Repeat(TagToId(intents[..i + 1]).entries[intents[i].tag], |intents[i].patterns|)
  {
    assert intents[..i + 1][..i] == intents[..i];
    assert intents[i].tag in Tags(intents[..i + 1]);
  }

  /** The inner loop of `load_and_prepare_data`: appends each pattern of
      one intent to `texts` and, beside it, the intent's label `id`. */
  method AppendPatterns(texts: seq<string>, labels: seq<nat>, patterns: seq<string>, id: nat)
    returns (texts': seq<string>, labels': seq<nat>)
    ensures texts' == texts + patterns
    ensures labels' == labels + Repeat(id, |patterns|)
  {
    texts', labels' := texts, labels;
    for k := 0 to |patterns|
      invariant texts' == texts + patterns[..k]
      invariant labels' == labels + Repeat(id, k)
    {
      assert patterns[..k + 1] == patterns[..k] + [patterns[k]];
      texts' := texts' + [patterns[k]];
      labels' := labels' + [id];
    }
    assert patterns[..|patterns|] == patterns;
  }

  /** `load_and_prepare_data` once the catalog is parsed: fills `texts`,
      `labels` and `tag_to_id` in one pass and stores the class count in
      `config.NUM_LABELS`. */
  method LoadAndPrepareData(intents: seq<Intent>, config: Config)
    returns (texts: seq<string>, labels: seq<nat>, tagToId: Dict<string, nat>)
    modifies config
    ensures texts == Patterns(intents)
    ensures labels == Labels(intents)
    ensures tagToId == TagToId(intents)
    ensures config.numLabels == Len(tagToId)
  {
    texts, labels, tagToId := [], [], Empty();
    for i := 0 to |intents|
      invariant texts == Patterns(intents[..i])
      invariant labels == Labels(intents[..i])
      invariant tagToId == TagToId(intents[..i])
    {
      PrepareStep(intents, i);
      var intent := intents[i];
      var tag := intent.tag;
      if tag !in tagToId.entries {
        tagToId := Put(tagToId, tag, Len(tagToId));
      }
      texts, labels := AppendPatterns(texts, labels, intent.patterns, tagToId.entries[tag]);
    }
    assert intents[..|intents|] == intents;
    config.numLabels := Len(tagToId);
  }
}
