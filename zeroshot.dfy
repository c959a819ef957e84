/** The zero-shot matcher (`Notebooks/chatbot_zeroshot.py`): module-level
    state holding one embedding and one response list per tag, filled lazily
    on first use and rebuilt on reload; a query picks the tag whose
    embedding is most similar to the query's, if that similarity reaches a
    fixed threshold. Sentence embeddings and cosine similarity are opaque:
    an embedding is known only by the text it encodes, and the similarity
    of two embeddings is a parameter. */
module ZeroShot {
  import opened Dicts
  import opened Results
  import opened Text
  import opened Intents
  import opened Ordering

  /** What `SentenceTransformer.encode(text)` returns. */
  datatype Embedding = Encoding(text: string)

  /** The minimum similarity for a match. */
  const Threshold: real := 0.3

  const DidNotUnderstand: string := "I didn't understand that. Please try again."
  const NotSure: string := "I'm not very sure about that. Can you rephrase your question?"
  const NoResponseYet: string := "I don't have a response for that yet. Please try asking something else."

  /** The text an intent is represented by: its patterns joined by spaces. */
  function PatternsText(intent: Intent): string {
    Join(" ", intent.patterns)
  }

  /** The pairs `(tag, embedding)` the initialisation loop assigns. */
  function EmbeddingPairs(intents: seq<Intent>): seq<(string, Embedding)> {
    seq(|intents|, i requires 0 <= i < |intents| => (intents[i].tag, Encoding(PatternsText(intents[i]))))
  }

  /** `_intent_embeddings` as the initialisation loop leaves it. */
  function EmbeddingIndex(intents: seq<Intent>): Dict<string, Embedding> {
    FromPairs(EmbeddingPairs(intents))
  }

  /** Both indexes hold exactly the catalog's tags, in the same order (that
      of first appearance), one entry per distinct tag. */
  lemma IndexesAgree(intents: seq<Intent>)
    ensures WellFormed(EmbeddingIndex(intents)) && WellFormed(ResponseIndex(intents))
    ensures EmbeddingIndex(intents).order == ResponseIndex(intents).order == TagOrder(intents)
    ensures forall t :: t in EmbeddingIndex(intents).entries <==> t in ResponseIndex(intents).entries
    ensures forall t :: t in EmbeddingIndex(intents).entries <==> t in Tags(intents)
    ensures Len(EmbeddingIndex(intents)) == Len(ResponseIndex(intents)) == DistinctTagCount(intents)
  {
    assert Keys(EmbeddingPairs(intents)) == Tags(intents);
    ResponseIndexKeys(intents);
  }

  /** A duplicate tag is overwritten: the embedding kept for a tag is that of
      the last intent with the tag. */
  lemma EmbeddingIndexLastWins(intents: seq<Intent>, k: nat)
    requires k < |intents| && IsLastWithTag(intents, k)
    ensures intents[k].tag in EmbeddingIndex(intents).entries
    ensures EmbeddingIndex(intents).entries[intents[k].tag] == Encoding(PatternsText(intents[k]))
  {
    FromPairsLastWins(EmbeddingPairs(intents), k);
  }

  /** Where the scan of `get_response` stops: the position of the chosen
      entry (None while `best_tag` is None) and `best_similarity`. */
  datatype Selection = Selection(index: Option<nat>, similarity: real)

  /** The scan over `scores`, in order, starting from None and 0.0 and
      taking an entry only when its score is strictly greater. */
  function Scan(scores: seq<real>): (best: Selection)
    ensures best.index.None? ==> best.similarity == 0.0 && forall j :: 0 <= j < |scores| ==> scores[j] <= 0.0
    ensures best.index.Some? ==>
      IsFirstMaximum(scores, best.index.value) && best.similarity == scores[best.index.value] > 0.0
  {
    if scores == [] then Selection(None, 0.0)
    else
      var prior := Scan(scores[..|scores| - 1]);
      var last := scores[|scores| - 1];
      if last > prior.similarity then Selection(Some(|scores| - 1), last) else prior
  }

  /** The scan picks an entry exactly when some score is positive, and then
      the first entry with the largest score; otherwise it stays at None. */
  lemma ScanIsFirstMaximum(scores: seq<real>, k: nat)
    ensures Scan(scores).index == Some(k) <==> IsFirstMaximum(scores, k) && scores[k] > 0.0
    ensures Scan(scores).index == None <==> forall j :: 0 <= j < |scores| ==> scores[j] <= 0.0
  {
    var best := Scan(scores);
    if IsFirstMaximum(scores, k) && scores[k] > 0.0 {
      assert best.index.Some?;
    }
  }

  /** The similarity of the query to every entry of the index, in the
      index's iteration order. */
  function Scores(query: Embedding, index: Dict<string, Embedding>, cosSim: (Embedding, Embedding) -> real): (s: seq<real>)
    requires WellFormed(index)
    ensures |s| == Len(index)
  {
    seq(|index.order|, k requires 0 <= k < |index.order| => cosSim(query, index.entries[index.order[k]]))
  }

  /** The `for tag, intent_embedding in _intent_embeddings.items()` loop:
      `best_tag` and `best_similarity` once every entry has been compared. */
  method FindBestMatch(query: Embedding, index: Dict<string, Embedding>, cosSim: (Embedding, Embedding) -> real)
    returns (bestTag: Option<string>, bestSimilarity: real)
    requires WellFormed(index)
    ensures var best := Scan(Scores(query, index, cosSim));
      && bestSimilarity == best.similarity
      && (bestTag.Some? <==> best.index.Some?)
      && (best.index.Some? ==> best.index.value < Len(index) && bestTag.value == index.order[best.index.value])
  {
    bestTag, bestSimilarity := None, 0.0;
    ghost var bestIndex: Option<nat> := None;
    ghost var scores := Scores(query, index, cosSim);
    for k := 0 to |index.order|
      invariant Scan(scores[..k]) == Selection(bestIndex, bestSimilarity)
      invariant bestTag.Some? <==> bestIndex.Some?
      invariant bestIndex.Some? ==> bestIndex.value < k && bestTag.value == index.order[bestIndex.value]
    {
      var tag := index.order[k];
      var similarity := cosSim(query, index.entries[tag]);
      assert scores[..k + 1][..k] == scores[..k];
      if similarity > bestSimilarity {
        bestSimilarity := similarity;
        bestTag := Some(tag);
        bestIndex := Some(k);
      }
    }
    assert scores[..|index.order|] == scores;
  }

  /** What `get_response` answers to a non-blank query once the catalog
      `intents` is loaded: the "not very sure" fallback below the threshold,
      otherwise a response of the best-matching tag. Because the empty tag is
      false in Python, a best match on the tag "" gives the "no response yet"
      string; no other tag can. */
  ghost predicate IsReply(r: Result<string>, userInput: string, intents: seq<Intent>, cosSim: (Embedding, Embedding) -> real) {
    var index := EmbeddingIndex(intents);
    var best := Scan(Scores(Encoding(userInput), index, cosSim));
    if best.similarity < Threshold then r == Ok(NotSure)
    else
      && best.index.Some?
      && var tag := index.order[best.index.value];
         if tag == "" then r == Ok(NoResponseYet)
         else tag in ResponseIndex(intents).entries && ChosenFrom(r, ResponseIndex(intents).entries[tag])
  }

  /** When no intent has the empty tag, every answer to a non-blank query
      is the "not very sure" fallback or a response of some intent. */
  lemma ReplyComesFromCatalog(r: Result<string>, userInput: string, intents: seq<Intent>, cosSim: (Embedding, Embedding) -> real)
    requires IsReply(r, userInput, intents, cosSim) && r.Ok?
    requires forall i :: 0 <= i < |intents| ==> intents[i].tag != ""
    ensures r.value == NotSure || exists i :: 0 <= i < |intents| && r.value in intents[i].responses
  {
    var index := EmbeddingIndex(intents);
    var best := Scan(Scores(Encoding(userInput), index, cosSim));
    if best.similarity >= Threshold {
      IndexesAgree(intents);
      var tag := index.order[best.index.value];
      assert tag in Tags(intents);
      var i := FromPairsValueOrigin(ResponsePairs(intents), tag);
      assert r.value in intents[i].responses;
    }
  }

  /** When no intent has the empty tag and no intent lists the "no response
      yet" string among its responses, that string is never the answer. */
  lemma NoResponseYetUnreachable(r: Result<string>, userInput: string, intents: seq<Intent>, cosSim: (Embedding, Embedding) -> real)
    requires IsReply(r, userInput, intents, cosSim) && r.Ok?
    requires forall i :: 0 <= i < |intents| ==> intents[i].tag != ""
    requires forall i :: 0 <= i < |intents| ==> NoResponseYet !in intents[i].responses
    ensures r != Ok(NoResponseYet)
  {
    ReplyComesFromCatalog(r, userInput, intents, cosSim);
  }

  /** With an intent whose tag is the empty string, the "no response yet"
      string is answered although that intent has a response: the empty
      tag counts as false in `if best_tag and ...`. */
  lemma EmptyTagAnswersNoResponseYet()
    ensures IsReply(Ok(NoResponseYet), "hello", [Intent("", ["hello"], ["Hi!"])], (a, b) => 1.0)
  {
    var intents := [Intent("", ["hello"], ["Hi!"])];
    var cosSim := (a: Embedding, b: Embedding) => 1.0;
    var index := EmbeddingIndex(intents);
    assert EmbeddingPairs(intents) == [("", Encoding(PatternsText(intents[0])))];
    assert EmbeddingPairs(intents)[..0] == [];
    assert index.order == [""];
    var scores := Scores(Encoding("hello"), index, cosSim);
    assert scores == [1.0];
    assert scores[..0] == [];
    assert Scan(scores) == Selection(Some(0), 1.0);
  }

  /** The module-level state of `chatbot_zeroshot.py`. */
  class ZeroShotBot {
    /** `_model is not None` */
    var modelLoaded: bool
    /** `_intent_embeddings` */
    var intentEmbeddings: Option<Dict<string, Embedding>>
    /** `_intent_responses` */
    var intentResponses: Option<Dict<string, seq<string>>>
    /** `_intents_loaded` */
    var intentsLoaded: bool
    /** The catalog read by the last initialisation that ran to the end. */
    ghost var catalog: seq<Intent>

    /** Once loaded, both indexes are those built from `catalog`; before,
        both are None. */
    ghost predicate Valid()
      reads this
    {
      if intentsLoaded then
        && modelLoaded
        && intentEmbeddings == Some(EmbeddingIndex(catalog))
        && intentResponses == Some(ResponseIndex(catalog))
      else intentEmbeddings == None && intentResponses == None
    }

    /** The state at import: nothing loaded. */
    constructor ()
      ensures Valid() && !modelLoaded && !intentsLoaded
    {
      modelLoaded, intentEmbeddings, intentResponses, intentsLoaded := false, None, None, false;
      catalog := [];
    }

    /** `_initialize_model()`, with `intents` standing for the catalog file
        as it would be read now: does nothing when already initialised,
        otherwise loads the model and builds both indexes from `intents`. */
    method Initialize(intents: seq<Intent>)
      requires Valid()
      modifies this
      ensures Valid() && intentsLoaded && modelLoaded
      ensures old(intentsLoaded) ==> unchanged(this)
      ensures !old(intentsLoaded) ==> catalog == intents
    {
      if modelLoaded && intentsLoaded {
        return;
      }
      modelLoaded := true;
      var embeddings, responses := BuildIndexes(intents);
      intentEmbeddings, intentResponses := Some(embeddings), Some(responses);
      intentsLoaded := true;
      catalog := intents;
    }

    /** `reload_intents()`: forgets both indexes and the loaded flag, then
        initialises again from the catalog as it is now. */
    method Reload(intents: seq<Intent>)
      requires Valid()
      modifies this
      ensures Valid() && intentsLoaded && modelLoaded && catalog == intents
      ensures intentEmbeddings.Some? && intentResponses.Some?
      ensures Len(intentEmbeddings.value) == Len(intentResponses.value) == DistinctTagCount(intents)
    {
      intentEmbeddings, intentResponses, intentsLoaded := None, None, false;
      Initialize(intents);
      IndexesAgree(intents);
    }

    /** `get_response(user_input)`: initialises if needed, answers a blank
        input without looking anything up, and otherwise replies as
        `IsReply` says. */
    method GetResponse(userInput: string, intents: seq<Intent>, cosSim: (Embedding, Embedding) -> real)
      returns (r: Result<string>)
      requires Valid()
      modifies this
      ensures Valid() && intentsLoaded
      ensures old(intentsLoaded) ==> unchanged(this)
      ensures !old(intentsLoaded) ==> catalog == intents
      ensures IsBlank(userInput) ==> r == Ok(DidNotUnderstand)
      ensures !IsBlank(userInput) ==> IsReply(r, userInput, catalog, cosSim)
    {
      Initialize(intents);
      if Strip(userInput) == "" {
        return Ok(DidNotUnderstand);
      }
      var userEmbedding := Encoding(userInput);
      var bestTag, bestSimilarity := FindBestMatch(userEmbedding, intentEmbeddings.value, cosSim);
      if bestSimilarity < Threshold {
        return Ok(NotSure);
      }
      IndexesAgree(catalog);
      var responses := intentResponses.value;
      if bestTag.Some? && bestTag.value != "" && bestTag.value in responses.entries {
        r := Choice(responses.entries[bestTag.value]);
        return;
      }
      r := Ok(NoResponseYet);
    }
  }

  /** The loop of `_initialize_model`: for each intent in catalog order,
      `_intent_embeddings[tag]` gets the encoding of its joined patterns and
      `_intent_responses[tag]` its responses. */
  method BuildIndexes(intents: seq<Intent>)
    returns (embeddings: Dict<string, Embedding>, responses: Dict<string, seq<string>>)
    ensures embeddings == EmbeddingIndex(intents)
    ensures responses == ResponseIndex(intents)
  {
    embeddings, responses := Empty(), Empty();
    for i := 0 to |intents|
      invariant embeddings == EmbeddingIndex(intents[..i])
      invariant responses == ResponseIndex(intents[..i])
    {
      IndexStep(intents, i);
      var tag := intents[i].tag;
      var patternsText := Join(" ", intents[i].patterns);
      embeddings := Put(embeddings, tag, Encoding(patternsText));
      responses := Put(responses, tag, intents[i].responses);
    }
    assert intents[..|intents|] == intents;
  }

  /** One more intent extends both indexes as the initialisation loop body
      does. */
  lemma IndexStep(intents: seq<Intent>, i: nat)
    requires i < |intents|
    ensures EmbeddingIndex(intents[..i + 1])
      == Put(EmbeddingIndex(intents[..i]), intents[i].tag, Encoding(PatternsText(intents[i])))
    ensures ResponseIndex(intents[..i + 1])
      == Put(ResponseIndex(intents[..i]), intents[i].tag, intents[i].responses)
  {
    assert EmbeddingPairs(intents[..i + 1])[..i] == EmbeddingPairs(intents[..i]);
    ResponseIndexStep(intents, i);
  }
}
