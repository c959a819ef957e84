/** The console chatbot (`chatbot.py`, `UCUChatbot`): a trained classifier
    names the intent of a line of input, and a canned response of that
    intent is picked at random. The network and the console are opaque: a
    turn starts from the line as typed and the probabilities the network
    gives for it. */
module Chatbot {
  import opened Dicts
  import opened Results
  import opened Text
  import opened Intents
  import opened Classifier

  const Apology: string := "I'm not sure how to respond to that. Can you try asking differently?"

  /** The commands that end a session, once lower-cased. */
  const ExitWords: seq<string> := ["quit", "exit", "bye", "goodbye"]

  /** `user_input.lower() in ['quit', 'exit', 'bye', 'goodbye']` */
  predicate IsExitCommand(userInput: string) {
    Lower(userInput) in ExitWords
  }

  /** What one round of the `chat` loop does with a line. */
  datatype Action = Skip | End | Answer(userInput: string)

  /** The decision at the head of the `chat` loop: the line is stripped
      first; an empty line is skipped, an exit command ends the session,
      anything else is classified as stripped. */
  function NextAction(line: string): (a: Action)
    ensures a == Skip <==> IsBlank(line)
    ensures a == End <==> !IsBlank(line) && IsExitCommand(Strip(line))
    ensures a.Answer? ==> a.userInput == Strip(line)
    ensures a.Answer? ==> a.userInput != ""
  {
    var userInput := Strip(line);
    if userInput == "" then Skip
    else if IsExitCommand(userInput) then End
    else Answer(userInput)
  }

  /** The text that is answered is already stripped: stripping it again
      changes nothing. */
  lemma AnsweredTextIsStripped(line: string)
    requires NextAction(line).Answer?
    ensures NextAction(line).userInput == Strip(NextAction(line).userInput)
  {
    StripIdempotent(line);
  }

  /** Surrounding whitespace never changes what a line does. */
  lemma NextActionIgnoresPadding(pre: string, line: string, post: string)
    requires IsBlank(pre) && IsBlank(post)
    ensures NextAction(pre + line + post) == NextAction(line)
  {
    StripIgnoresPadding(pre, line, post);
  }

  /** Exit commands are recognised in any mix of upper and lower case: a
      line and its lower-cased form are the same command. */
  lemma ExitCommandIgnoresCase(userInput: string)
    ensures IsExitCommand(Lower(userInput)) == IsExitCommand(userInput)
  {
    assert Lower(Lower(userInput)) == Lower(userInput);
  }

  /** How one round of `chat` ends: skipped, the session ended, a reply
      with the predicted tag and confidence, or an error that was caught
      and reported. */
  datatype Outcome = Skipped | Ended | Replied(response: string, tag: string, confidence: real) | Failed(error: Error)

  /** A `UCUChatbot`: its classifier and the tag -> responses index. */
  class UCUChatbot {
    /** `self.classifier` */
    const classifier: IntentClassifier
    /** `self.responses` */
    var responses: Dict<string, seq<string>>

    /** `__init__`, with the parsed tag mapping and catalog. */
    constructor (tagMapping: Dict<string, int>, intents: seq<Intent>)
      requires WellFormed(tagMapping)
      ensures classifier.Valid() && classifier.tagToId == tagMapping
      ensures responses == ResponseIndex(intents)
    {
      classifier := new IntentClassifier(tagMapping);
      new;
      LoadResponses(intents);
    }

    /** `load_responses()`, with `intents` for the parsed catalog: starts
        from an empty index and assigns each intent's responses under its
        tag, in catalog order. */
    method LoadResponses(intents: seq<Intent>)
      modifies this
      ensures responses == ResponseIndex(intents)
    {
      responses := Empty();
      for i := 0 to |intents|
        invariant responses == ResponseIndex(intents[..i])
      {
        ResponseIndexStep(intents, i);
        responses := Put(responses, intents[i].tag, intents[i].responses);
      }
      assert intents[..|intents|] == intents;
    }

    /** `get_response(intent)`: a random response of a known tag (an
        IndexError when its list is empty), the apology for an unknown one.
        Nothing is modified. */
    method GetResponse(intent: string) returns (r: Result<string>)
      ensures intent in responses.entries ==> ChosenFrom(r, responses.entries[intent])
      ensures intent !in responses.entries ==> r == Ok(Apology)
    {
      if intent in responses.entries {
        r := Choice(responses.entries[intent]);
      } else {
        r := Ok(Apology);
      }
    }

    /** One round of `chat` for the line `line`, with `probabilities` what
        the network gives for the stripped line: the prediction and the
        response are computed only for a line that is neither blank nor an
        exit command, and an error raised by either ends the round with
        that error instead of a reply. */
    method Turn(line: string, probabilities: seq<real>) returns (outcome: Outcome)
      requires classifier.Valid()
      ensures NextAction(line) == Skip ==> outcome == Skipped
      ensures NextAction(line) == End ==> outcome == Ended
      ensures NextAction(line).Answer? ==>
        var p := classifier.Predict(probabilities, true);
        && (p.Err? ==> outcome == Failed(p.error))
        && (p.Ok? ==> IsReplyTo(outcome, p.value, responses))
    {
      var action := NextAction(line);
      if action == Skip {
        return Skipped;
      }
      if action == End {
        return Ended;
      }
      var prediction := classifier.Predict(probabilities, true);
      if prediction.Err? {
        return Failed(prediction.error);
      }
      var intent := prediction.value.tag;
      var response := GetResponse(intent);
      if response.Err? {
        return Failed(response.error);
      }
      outcome := Replied(response.value, intent, prediction.value.confidence);
    }
  }

  /** What a round may report once the classifier predicted `prediction`:
      a response of the predicted tag, the apology for a tag without
      responses, or the IndexError of an empty response list; always with
      the predicted tag and confidence. */
  ghost predicate IsReplyTo(outcome: Outcome, prediction: Prediction, responses: Dict<string, seq<string>>) {
    if prediction.tag in responses.entries && responses.entries[prediction.tag] == [] then
      outcome == Failed(IndexError)
    else
      && outcome.Replied?
      && outcome.tag == prediction.tag
      && (prediction.TagAndConfidence? ==> outcome.confidence == prediction.confidence)
      && if prediction.tag in responses.entries then outcome.response in responses.entries[prediction.tag]
         else outcome.response == Apology
  }

  /** A reply of a tag of the catalog is one of the responses of the last
      intent with that tag. */
  lemma ReplyFromLastIntent(outcome: Outcome, prediction: Prediction, intents: seq<Intent>, k: nat)
    requires k < |intents| && IsLastWithTag(intents, k) && prediction.tag == intents[k].tag
    requires IsReplyTo(outcome, prediction, ResponseIndex(intents)) && outcome.Replied?
    ensures outcome.response in intents[k].responses
  {
    ResponseIndexLastWins(intents, k);
  }

  /** A predicted tag that no intent carries gets the apology. */
  lemma UnknownTagGetsApology(outcome: Outcome, prediction: Prediction, intents: seq<Intent>)
    requires prediction.tag !in Tags(intents)
    requires IsReplyTo(outcome, prediction, ResponseIndex(intents))
    ensures outcome.Replied? && outcome.response == Apology
  {
    ResponseIndexKeys(intents);
  }
}
