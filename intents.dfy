/** The intent catalog (`intents.json` once parsed) and the two things every
    chatbot derives from it: the tag -> responses index and the random pick
    of one canned response. */
module Intents {
  import opened Dicts
  import opened Results

  /** One record of the `intents` list. */
  datatype Intent = Intent(tag: string, patterns: seq<string>, responses: seq<string>)

  /** The tag of every intent, in catalog order (repeats included). */
  function Tags(intents: seq<Intent>): (ts: seq<string>)
    ensures |ts| == |intents|
    ensures forall i :: 0 <= i < |intents| ==> ts[i] == intents[i].tag
  {
    seq(|intents|, i requires 0 <= i < |intents| => intents[i].tag)
  }

  /** The number of distinct tags in the catalog. */
  function DistinctTagCount(intents: seq<Intent>): nat {
    |set i | 0 <= i < |intents| :: intents[i].tag|
  }

  /** `intents[k].tag` is not the tag of any later intent. */
  predicate IsLastWithTag(intents: seq<Intent>, k: nat)
    requires k < |intents|
  {
    forall j :: k < j < |intents| ==> intents[j].tag != intents[k].tag
  }

  /** The pairs `(tag, responses)` a loop `d[intent["tag"]] = intent["responses"]` assigns. */
  function ResponsePairs(intents: seq<Intent>): seq<(string, seq<string>)> {
    seq(|intents|, i requires 0 <= i < |intents| => (intents[i].tag, intents[i].responses))
  }

  /** The tag -> responses dictionary built by assigning each intent's
      responses under its tag, in catalog order. */
  function ResponseIndex(intents: seq<Intent>): Dict<string, seq<string>> {
    FromPairs(ResponsePairs(intents))
  }

  /** Distinct tags in order of first appearance: the key order of every
      dictionary filled by a loop over the catalog keyed by tag. */
  function TagOrder(intents: seq<Intent>): seq<string> {
    Dedup(Tags(intents))
  }

  /** The order of first appearance grows by the last intent's tag exactly
      when that tag is new. */
  lemma TagOrderStep(intents: seq<Intent>)
    requires intents != []
    ensures var init, tag := intents[..|intents| - 1], intents[|intents| - 1].tag;
      TagOrder(intents) == if tag in TagOrder(init) then TagOrder(init) else TagOrder(init) + [tag]
  {
    var ts := Tags(intents);
    assert ts[..|ts| - 1] == Tags(intents[..|intents| - 1]);
  }

  /** The keys of the responses index are exactly the catalog's tags, each
      once, in order of first appearance, and there are as many as there are
      distinct tags. */
  lemma ResponseIndexKeys(intents: seq<Intent>)
    ensures WellFormed(ResponseIndex(intents))
    ensures ResponseIndex(intents).order == TagOrder(intents)
    ensures forall t :: t in ResponseIndex(intents).entries <==> t in Tags(intents)
    ensures Len(ResponseIndex(intents)) == DistinctTagCount(intents)
  {
    assert Keys(ResponsePairs(intents)) == Tags(intents);
    DistinctTagsCounted(intents);
  }

  /** The number of distinct tags is the length of the first-appearance order. */
  lemma DistinctTagsCounted(intents: seq<Intent>)
    ensures |TagOrder(intents)| == DistinctTagCount(intents)
  {
    DedupCardinality(Tags(intents));
    assert (set x | x in Tags(intents)) == (set i | 0 <= i < |intents| :: intents[i].tag) by {
      forall x | x in Tags(intents)
        ensures x in (set i | 0 <= i < |intents| :: intents[i].tag)
      {
        var i :| 0 <= i < |intents| && Tags(intents)[i] == x;
      }
    }
  }

  /** A tag's responses are those of the last intent with that tag: a later
      duplicate overwrites an earlier one. */
  lemma ResponseIndexLastWins(intents: seq<Intent>, k: nat)
    requires k < |intents| && IsLastWithTag(intents, k)
    ensures intents[k].tag in ResponseIndex(intents).entries
    ensures ResponseIndex(intents).entries[intents[k].tag] == intents[k].responses
  {
    FromPairsLastWins(ResponsePairs(intents), k);
  }

  /** One more intent extends the responses index as one assignment
      `d[intent["tag"]] = intent["responses"]` does. */
  lemma ResponseIndexStep(intents: seq<Intent>, i: nat)
    requires i < |intents|
    ensures ResponseIndex(intents[..i + 1]) == Put(ResponseIndex(intents[..i]), intents[i].tag, intents[i].responses)
  {
    assert ResponsePairs(intents[..i + 1])[..i] == ResponsePairs(intents[..i]);
  }

  /** What a caller of `random.choice(options)` may observe: an element of
      the list, or the IndexError of an empty list. */
  predicate ChosenFrom(r: Result<string>, options: seq<string>) {
    if options == [] then r == Err(IndexError) else r.Ok? && r.value in options
  }

  /** `random.choice(options)`: some element of `options`, or IndexError
      when `options` is empty. Which element is left open. */
  method Choice(options: seq<string>) returns (r: Result<string>)
    ensures ChosenFrom(r, options)
  {
    if options == [] {
      r := Err(IndexError);
    } else {
      var k :| 0 <= k < |options|;
      r := Ok(options[k]);
    }
  }
}
