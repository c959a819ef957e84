# UCU chatbot — a Dafny model of its intent handling

The UCU chatbot answers questions about a university from an intent catalog
(`intents.json`). Each intent has a tag, example patterns and canned
responses. The repository has two ways of answering:

* a **trained classifier**. `load_and_prepare_data` turns the catalog into
  labelled training texts and a dense `tag_to_id` mapping.
  `UCUIntentClassifier` inverts that mapping and decodes the network's
  probability row, either to the most probable tag or to a table of every
  tag sorted by probability. `UCUChatbot` reads a console line, strips it,
  ends the session on an exit word, and otherwise answers with a random
  response of the predicted tag.
* a **zero-shot matcher** (`Notebooks/chatbot_zeroshot.py`). Module-level
  state holds one sentence embedding and one response list per tag. This
  state is built lazily and rebuilt on reload. A query gets a random
  response of the tag whose embedding is most similar, if that similarity
  reaches 0.3.

This project models those operations in Dafny and proves what they
guarantee. Python dictionaries keep their insertion order, and the source
depends on that order in three places: the zero-shot scan, the
`id_to_tag` comprehension and the sorted result table. So a dict is
modelled as a key order plus a map (`Dicts.Dict`).

Modules, one file each:

* `Results` — `Result`/`Option` and the exceptions the source raises
  (`KeyError`, `IndexError`, `RuntimeError`).
* `Dicts` — the insertion-ordered dict: `d[k] = v`, `dict(pairs)` and
  `items()`.
* `Text` — `str.strip`, `str.lower`, `str.join`.
* `Intents` — the catalog, the tag -> responses index every bot builds,
  and `random.choice`.
* `Training` — `load_and_prepare_data`.
* `Ordering` — the predicate `IsFirstMaximum` (the first position of a
  largest score) and Python's stable `sorted(..., reverse=True)`.
  `torch.max` itself is `Classifier.ArgMax`, which always satisfies
  `IsFirstMaximum`; the zero-shot scan satisfies it only when the maximum
  is positive (`ZeroShot.ScanIsFirstMaximum`).
* `ZeroShot` — `chatbot_zeroshot.py`.
* `Classifier` — `intent_classifier.py`.
* `Chatbot` — `chatbot.py`.

Opaque parts of the system become inputs:

* The catalog and the tag mapping are passed in already parsed.
* The network's softmax row is a `seq<real>` argument.
* A sentence embedding is `Encoding(text)`, and cosine similarity is a
  function parameter.
* `random.choice` may return any element of a non-empty list.

## Model

| member | source | states |
|---|---|---|
| Dicts.Empty | train_intent_classifier.py:53 | definition of `{}`: no keys, empty key order; every dict the loops build starts from it (`TagToId`, `ResponseIndex`, `EmbeddingIndex`, `PredictWithAllProbabilities`) |
| Dicts.Put | train_intent_classifier.py:58-59 | `d[k] = v`: `k` now maps to `v`, every other key keeps its presence and value, an existing key keeps its position and a new key goes last |
| Dicts.FromPairs | intent_classifier.py:21 | a dict built pair by pair is well formed and its keys are the distinct keys in order of first appearance |
| Dicts.FromPairsHasKey | intent_classifier.py:21 | a key is present exactly when some pair carries it |
| Dicts.FromPairsLastWins | intent_classifier.py:21 | a key's value is the value of the last pair carrying that key |
| Dicts.FromPairsValueOrigin | intent_classifier.py:21 | every stored value comes from a pair with that key |
| Dicts.FromPairsOfDistinct | intent_classifier.py:71 | `dict(pairs)` with distinct keys keeps every pair, in list order |
| Dicts.Dedup | train_intent_classifier.py:56-59 | first-appearance order has no repeats and exactly the input's elements |
| Dicts.DedupOfDistinct | intent_classifier.py:71 | a list without repeats is its own first-appearance order |
| Dicts.DedupCardinality | train_intent_classifier.py:66 | the first-appearance order has one entry per distinct element |
| Dicts.LenIsKeyCount | train_intent_classifier.py:66 | `len(d)` is the number of keys |
| Dicts.Len | train_intent_classifier.py:59 | definition of `len(d)`: the length of the key order; `LenIsKeyCount` shows it is the number of keys, and `FirstAppearanceGetsNextId` uses it for the next id |
| Dicts.Items | intent_classifier.py:71 | definition of `results.items()`: the (key, value) pairs in iteration order; stated by `SortedItems`, `TableEntries` and `SortedTable` |
| Text.Join | Notebooks/chatbot_zeroshot.py:71 | definition of `sep.join(parts)`; an embedding depends on an intent only through this joined string (`ZeroShot.EmbeddingIndexLastWins`) |
| Text.IsSpace | chatbot.py:34 | definition of `c.isspace()`: the characters `strip()` removes (ASCII 9-13 and 28-32, and the Unicode white-space code points); used by the contracts of `StripStart`, `StripEnd`, `Strip` and `StripIsInfix` |
| Text.StripStart | chatbot.py:34 | `lstrip` removes a blank prefix and leaves a string that starts with a non-space |
| Text.StripEnd | chatbot.py:34 | `rstrip` removes a blank suffix and leaves a string that ends with a non-space |
| Text.Strip | chatbot.py:34-37 | `strip()` is empty exactly when the input is all white space; otherwise both ends are non-space; what it keeps is given by `Text.StripIsInfix` |
| Text.StripIsInfix | chatbot.py:34 | `strip()` returns a contiguous part of the input, and what lies before and after that part is all white space |
| Text.StripStartSkipsBlank | chatbot.py:34 | leading white space never changes `lstrip` |
| Text.StripEndSkipsBlank | chatbot.py:34 | trailing white space never changes `rstrip` |
| Text.StripStartOfAppend | chatbot.py:34 | `lstrip` of a non-blank string stops inside it, so a suffix is kept whole |
| Text.StripIgnoresPadding | chatbot.py:34 | surrounding a string with white space does not change its `strip()` |
| Text.StripIdempotent | Notebooks/chatbot_zeroshot.py:83 | stripping twice is stripping once |
| Text.Lower | chatbot.py:40 | `lower()` keeps the length and lower-cases each ASCII letter in place |
| Text.LowerChar | chatbot.py:40 | definition of `c.lower()` on one character: ASCII upper-case letters map to lower case, all others are kept; `Lower` states it position by position |
| Intents.ResponseIndex | chatbot.py:16-18 | definition of the tag -> responses dict that the loop builds; its keys, values and loop steps are stated by `ResponseIndexKeys`, `ResponseIndexLastWins` and `ResponseIndexStep` |
| Intents.TagOrderStep | train_intent_classifier.py:58-59 | one more intent extends the first-appearance order exactly when its tag is new |
| Intents.ResponseIndexKeys | chatbot.py:16-18 | the responses dict holds exactly the catalog's tags, in first-appearance order, one entry per distinct tag |
| Intents.DistinctTagsCounted | chatbot.py:16-18 | the first-appearance order of tags is as long as the number of distinct tags |
| Intents.ResponseIndexLastWins | chatbot.py:17-18 | with duplicate tags, the last intent's responses are stored |
| Intents.ResponseIndexStep | chatbot.py:18 | each loop round is one `d[tag] = responses` assignment |
| Intents.Choice | chatbot.py:23 | `random.choice` returns an element of a non-empty list and raises IndexError on an empty one |
| Intents.ChosenFrom | chatbot.py:23 | definition of what a caller of `random.choice` may observe: an element of a non-empty list, or IndexError for an empty one; the contract of `Choice`, and used by `UCUChatbot.GetResponse` and `IsReply` |
| Training.Config.constructor | config.py:7 | `NUM_LABELS` starts at 14 |
| Training.TagToId | train_intent_classifier.py:56-59 | `tag_to_id` keys are the distinct tags in first-appearance order, and the k-th of them has id k |
| Training.TagToIdStable | train_intent_classifier.py:58-59 | an id, once given, never changes |
| Training.TagIdsDense | train_intent_classifier.py:58-59 | distinct tags get distinct ids, and the ids are exactly 0 .. n-1 |
| Training.Patterns | train_intent_classifier.py:61-62 | definition of `texts`: every intent's patterns, in catalog order; its length and alignment with the labels are stated by `TextsAndLabelsAligned` and `AppendPatterns` |
| Training.Labels | train_intent_classifier.py:61-63 | definition of `labels`: one id per pattern; stated by `TextsAndLabelsAligned` and `LabelsAreClassIds` |
| Training.NumLabelsIsDistinctTags | train_intent_classifier.py:66 | `NUM_LABELS` is the number of distinct tags, not the number of intents |
| Training.FirstAppearanceGetsNextId | train_intent_classifier.py:58-59 | a tag's id is the number of distinct tags seen before its first intent |
| Training.TextsAndLabelsAligned | train_intent_classifier.py:61-63 | texts and labels have one entry per pattern, and the k-th label is the id of the k-th text's tag |
| Training.LabelsAreClassIds | train_intent_classifier.py:63-66 | every label is below `NUM_LABELS` |
| Training.PrepareStep | train_intent_classifier.py:56-63 | one more intent extends `tag_to_id`, `texts` and `labels` as the loop body does |
| Training.AppendPatterns | train_intent_classifier.py:61-63 | the inner loop appends the intent's patterns in order, each with the intent's id |
| Training.LoadAndPrepareData | train_intent_classifier.py:51-68 | returns exactly `Patterns`, `Labels` and `TagToId` of the catalog, and sets `NUM_LABELS` to the number of keys |
| Ordering.InsertDescSplit | intent_classifier.py:71 | an insertion goes after every element with a key at least as large, and before the first smaller one |
| Ordering.InsertDesc | intent_classifier.py:71 | definition of one insertion step of the stable descending sort; stated by `InsertDescSplit`, `InsertDescPermutation` and `InsertStable` |
| Ordering.SortDesc | intent_classifier.py:71 | definition of `sorted(..., key=..., reverse=True)` as insertion; stated by `SortDescPermutation`, `SortDescMembers`, `SortDescNonIncreasing` and `SortDescStable` |
| Ordering.InsertDescPermutation | intent_classifier.py:71 | inserting adds the element and nothing else |
| Ordering.SortDescPermutation | intent_classifier.py:71 | the sort is a permutation of its input |
| Ordering.SortDescMembers | intent_classifier.py:71 | the sort keeps the length, and every element of the input is in the output and vice versa |
| Ordering.SortDescNonIncreasing | intent_classifier.py:71 | `reverse=True` sorting leaves keys non-increasing |
| Ordering.SortDescStable | intent_classifier.py:71 | the sort is stable: elements with equal keys keep their input order |
| Ordering.InsertStable | intent_classifier.py:71 | inserting a later element keeps ties in input order |
| ZeroShot.PatternsText | Notebooks/chatbot_zeroshot.py:71 | definition of `" ".join(intent["patterns"])`, the text an intent is encoded from; stated by `EmbeddingIndexLastWins` |
| ZeroShot.EmbeddingIndex | Notebooks/chatbot_zeroshot.py:65-74 | definition of `_intent_embeddings`: each tag maps to the embedding of its joined patterns; stated by `IndexesAgree`, `EmbeddingIndexLastWins` and `BuildIndexes` |
| ZeroShot.IsReply | Notebooks/chatbot_zeroshot.py:99-107 | definition of the replies `get_response` may give to a non-blank query: the fallback below 0.3, a random response of the best tag when that tag is non-empty, "no response yet" otherwise; `GetResponse` promises it and `ReplyComesFromCatalog`, `NoResponseYetUnreachable` and `EmptyTagAnswersNoResponseYet` state its consequences |
| ZeroShot.IndexesAgree | Notebooks/chatbot_zeroshot.py:65-74 | both module dicts hold exactly the catalog's tags, in the same first-appearance order, one per distinct tag |
| ZeroShot.EmbeddingIndexLastWins | Notebooks/chatbot_zeroshot.py:68-73 | a duplicate tag keeps the embedding of the joined patterns of its last intent |
| ZeroShot.Scan | Notebooks/chatbot_zeroshot.py:90-97 | the strict-`>` scan from (None, 0.0) picks the first maximum when that maximum is positive; otherwise it stays None with 0.0 |
| ZeroShot.ScanIsFirstMaximum | Notebooks/chatbot_zeroshot.py:90-97 | the scan picks index k exactly when k is the first maximum and positive, and stays None exactly when no score is positive |
| ZeroShot.Scores | Notebooks/chatbot_zeroshot.py:93-94 | one similarity per dict entry, in iteration order |
| ZeroShot.FindBestMatch | Notebooks/chatbot_zeroshot.py:90-97 | the loop's `best_tag`/`best_similarity` are the scan's result over the dict's iteration order |
| ZeroShot.ReplyComesFromCatalog | Notebooks/chatbot_zeroshot.py:100-105 | with no empty tag, a reply is the "not very sure" fallback or a response of some intent |
| ZeroShot.NoResponseYetUnreachable | Notebooks/chatbot_zeroshot.py:104-107 | with no empty tag, the "no response yet" string is never the answer (unless some intent lists it) |
| ZeroShot.EmptyTagAnswersNoResponseYet | Notebooks/chatbot_zeroshot.py:104-107 | a best match on the tag "" answers "no response yet" even though that tag has responses |
| ZeroShot.ZeroShotBot.constructor | Notebooks/chatbot_zeroshot.py:28-32 | at import nothing is loaded |
| ZeroShot.ZeroShotBot.Initialize | Notebooks/chatbot_zeroshot.py:42-76 | returns early when already loaded; otherwise builds both dicts from the catalog (`BuildIndexes`, whose result `IndexesAgree` describes) and sets the loaded flag |
| ZeroShot.ZeroShotBot.Reload | Notebooks/chatbot_zeroshot.py:34-40 | after a reload both dicts are rebuilt from the current catalog, one entry per distinct tag (`IndexesAgree`) |
| ZeroShot.ZeroShotBot.GetResponse | Notebooks/chatbot_zeroshot.py:78-107 | blank input gets "didn't understand"; below 0.3 the "not very sure" fallback; otherwise a random response of the best tag, or "no response yet" for the empty tag: the reply satisfies `IsReply` |
| ZeroShot.BuildIndexes | Notebooks/chatbot_zeroshot.py:65-74 | the initialisation loop builds exactly the embedding and response dicts of the catalog |
| ZeroShot.IndexStep | Notebooks/chatbot_zeroshot.py:68-74 | each loop round is one assignment into each dict |
| Classifier.IdToTagRoundTrip | intent_classifier.py:21 | every id in `id_to_tag` names a tag with that id, and every id of `tag_to_id` is present |
| Classifier.IdToTag | intent_classifier.py:21 | definition of `{v: k for k, v in tag_to_id.items()}`; stated by `IdToTagRoundTrip`, `IdToTagInverts` and `IdToTagLaterWins` |
| Classifier.IdToTagNamesTags | intent_classifier.py:21 | every entry of `id_to_tag` maps an id to a tag that has that id |
| Classifier.IdToTagCoversIds | intent_classifier.py:21 | every id in `tag_to_id` is a key of `id_to_tag` |
| Classifier.IdToTagIsInjective | intent_classifier.py:21 | no two ids decode to the same tag |
| Classifier.IdToTagInverts | intent_classifier.py:21 | with distinct ids, `id_to_tag` is the exact inverse and has the same length |
| Classifier.SwappedKeysDistinct | intent_classifier.py:21 | with distinct ids, the swapped pairs have distinct keys |
| Classifier.InvertsEachTag | intent_classifier.py:21 | a dict that maps each tag's id back to that tag inverts `tag_to_id` |
| Classifier.IdToTagLaterWins | intent_classifier.py:21 | when tags share an id, the tag latest in iteration order wins |
| Classifier.ArgMax | intent_classifier.py:39 | `torch.max` on one row gives the first index holding the largest probability |
| Classifier.Probability | intent_classifier.py:71 | definition of the sort key `lambda x: x[1]`; `SortedItems`, `TableOrder` and `SortedTable` state the order it induces |
| Classifier.IntentClassifier.constructor | intent_classifier.py:17-21 | stores the mapping and its inversion |
| Classifier.IntentClassifier.Predict | intent_classifier.py:36-46 | an empty row is an error; otherwise `id_to_tag[k]` for the first maximum `k` (a tag whose id is `k`), or KeyError when `k` has no tag; the confidence is the maximum probability, returned only when asked |
| Classifier.IntentClassifier.PredictWithAllProbabilities | intent_classifier.py:65-72 | KeyError exactly when some class index has no tag; otherwise a table of every class's tag and probability, by descending probability, ties in class order |
| Classifier.SortedTable | intent_classifier.py:65-71 | once every class is entered, the sorted table has every entry, in descending probability, ties in class order |
| Classifier.ClassStep | intent_classifier.py:66-68 | each class's tag is new to `results` and is added at the end |
| Classifier.TableOfClasses | intent_classifier.py:71 | sorting and rebuilding the dict keeps every class's probability under its tag |
| Classifier.TableOrder | intent_classifier.py:71 | the rebuilt dict iterates by descending probability, ties in class order |
| Classifier.SortedItems | intent_classifier.py:71 | the sorted items have the same count and distinct keys, are non-increasing, and have ties in increasing id |
| Classifier.SortedKeys | intent_classifier.py:71 | items of `results` listed with ties in increasing rank have distinct keys and ties in increasing id |
| Classifier.ListsOfDistinct | intent_classifier.py:71 | `dict(items)` with distinct keys iterates over exactly those items, in order |
| Classifier.TableEntries | intent_classifier.py:71 | a dict listing a permutation of the items has the same entries |
| Classifier.TableOrderOfSorted | intent_classifier.py:71 | a dict built from non-increasing items iterates in non-increasing order |
| Classifier.TableTiesOfSorted | intent_classifier.py:71 | a dict built from sorted items keeps their tie order |
| Chatbot.NextAction | chatbot.py:34-42 | a blank line is skipped; a stripped line that lower-cases to an exit word ends the session; anything else is answered, and the text passed to `predict` is exactly the stripped line, which is non-empty |
| Chatbot.AnsweredTextIsStripped | chatbot.py:34-45 | the text that is answered is already stripped: stripping it again changes nothing |
| Chatbot.IsExitCommand | chatbot.py:40 | definition of the exit test: the lower-cased input is one of the four exit words; stated by `NextAction` and `ExitCommandIgnoresCase` |
| Chatbot.NextActionIgnoresPadding | chatbot.py:34 | white space around a line never changes what the loop does with it |
| Chatbot.ExitCommandIgnoresCase | chatbot.py:40 | exit words are recognised in any letter case |
| Chatbot.UCUChatbot.constructor | chatbot.py:6-9 | builds the classifier and loads the responses dict from the catalog |
| Chatbot.UCUChatbot.LoadResponses | chatbot.py:11-18 | `self.responses` becomes `ResponseIndex` of the catalog, whose keys `ResponseIndexKeys` describes |
| Chatbot.UCUChatbot.GetResponse | chatbot.py:20-25 | a random response of a known tag (IndexError if its list is empty); the apology for an unknown tag |
| Chatbot.UCUChatbot.Turn | chatbot.py:33-56 | one loop round: skip, end, or predict and reply; an error raised while predicting or choosing becomes the reported error |
| Chatbot.IsReplyTo | chatbot.py:20-25 | definition of what a round reports once a tag is predicted (chatbot.py:45-49): a response of that tag, the apology for an unknown tag, or the IndexError of an empty list, with the predicted tag and confidence; `Turn` promises it and `ReplyFromLastIntent` and `UnknownTagGetsApology` state its consequences |
| Chatbot.ReplyFromLastIntent | chatbot.py:16-23 | a reply for a catalog tag is a response of the last intent with that tag |
| Chatbot.UnknownTagGetsApology | chatbot.py:22-25 | a predicted tag that is not in the catalog gets the apology |

## Left out

- Reading `intents.json` and `tag_mapping.json`, and the `FileNotFoundError` of `_initialize_model`: the catalog and the mapping are parameters, already parsed.
- The tokenizer, the DistilBERT network, softmax and the sentence transformer: these are opaque. A prediction starts from the probability row, and an embedding is known only by the text it encodes.
- `util.cos_sim`: a function parameter with no properties assumed.
- Floating point: probabilities and similarities are `real`, so rounding is not modelled.
- `Classifier.ArgMax`: assumes that `torch.max` reports the first of several equal maxima.
- `Classifier.IntentClassifier.Predict`: an empty probability row is reported as `RuntimeError`; the exact exception class torch raises for it is not modelled.
- `Intents.Choice`: says which list the element comes from, not that every element is equally likely.
- `Text.Lower`: lower-cases ASCII letters only. Other letters are kept as they are. The exit-word test is unaffected, because no non-ASCII character lower-cases into one of the four words.
- The console: `print`, `input`, the greeting and farewell lines, the `KeyboardInterrupt` exit and the `while True` loop are not modelled. `Chatbot.UCUChatbot.Turn` is one round of that loop, from the line as typed.
- `Chatbot.UCUChatbot.Turn`: the caught exception is reported as its value instead of being printed.
- The training loop, `IntentDataset`, `train_test_split`, model saving, `run_training.py`, `Notebooks/app.py` and the `__main__` blocks (`test_classifier`, the zero-shot console): none of these decide the behaviour modelled here.
- `config.py`: only `NUM_LABELS` is modelled. The other settings configure training and tokenization.
- `ZeroShot.ZeroShotBot.GetResponse`: the model-loading step is a flag. The catalog that a first call reads is an argument.
- Empty tags in `Notebooks/chatbot_zeroshot.py`: the "no response yet" answer at line 107 looks like a fallback for a tag without responses. In the code it is reached only when the best-matching tag is the empty string. The condition at line 104 treats "" as false, and every tag that matches has responses. This is modelled as written (`ZeroShot.IsReply`). `ZeroShot.EmptyTagAnswersNoResponseYet` exhibits the case, and `ZeroShot.NoResponseYetUnreachable` shows that no other path leads there.
