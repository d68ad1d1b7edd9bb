# Maati Bhasha AI — a verified model of the dialect translator's core

Maati Bhasha AI translates standard Marathi into regional dialects. A request
carries a text and a dialect identifier from a catalogue of seventeen
varieties. The server action validates the request, and then a deterministic
substitution engine rewrites dialect phrases. The rewritten text goes to an
external language model, and the action packs the model's answer, or its
failure, into a success or an error record. A chatbot action follows the same
validate-then-call pattern. Two Python demo tools complete the repository:

- a subword tokenizer with a ten-word vocabulary;
- a synthetic "Marathi Gemini" model: a tokenizer, a translation model that
  shifts token ids, a keyword dialect classifier, and a pipeline that links
  them.

The Dafny modules follow the source files:

| module | file | models |
|---|---|---|
| `Strings` | strings.dfy | whitespace as JavaScript (`\s`, `trim`) and Python (`str.isspace`) define it, strip and collapse, `split()`, `join`, character removal, substring search, ASCII lower-casing |
| `Languages` | languages.dfy | src/lib/languages.ts: the catalogue and the `Dialect` type |
| `Rules` | rules.dfy | src/lib/rules.ts: the rule table and `applyRules` |
| `RuleExamples` | rule_examples.dfy | worked runs of `applyRules` on concrete texts |
| `Actions` | actions.dfy | src/app/actions.ts: `translateAction` and `chatbotAction` |
| `MarathiTokenizer` | marathi_tokenizer.dfy | tools/marathi_tokenizer.py |
| `MarathiGeminiModel` | marathi_gemini_model.dfy | tools/marathi_gemini_model.py: `Tokenizer`, `TranslationModel`, `DialectClassifier`, and the dialect choice in `TranslationPipeline.translate` |

Modelling choices:

- **Regexes.** `applyRules` builds the regex `(?<![ऀ-ॿ])k(?![ऀ-ॿ])`. The model
  calls the predicate `MatchAt` the occurrence of the phrase at an index with
  no Devanagari character (U+0900–U+097F) on either side. `regex.test` is
  "some such index exists". The global `replace` is a left-to-right scan that
  replaces each occurrence and resumes after it. The lookarounds read the text
  as it was before the replacement. A fresh `RegExp` is built for every
  phrase, so `lastIndex` never carries over from one phrase to the next.
- **The rule loop.** `ApplyRules` is the imperative loop. It is proved equal
  to `Transform`, a fold over the sorted rules, and the properties are proved
  about `Transform`.
- **Whitespace.** `Strings.Fields` is the list of maximal runs of
  non-whitespace characters, and Python's `split()` is `Fields` for Python
  whitespace. Both normalisations, JavaScript's and Python's, are proved
  equal to the fields joined by single spaces.
- **External calls.** The two external models are function parameters that
  return an `Outcome`. `Fail` stands for any exception the call raises.
- **Mutable state.** `TranslationModel` is a class, and its one piece of
  state is the weights-loaded flag.

## Model

| member | source | states |
|---|---|---|
| Languages.CatalogueShape | src/lib/languages.ts:1-19 | the catalogue has 17 entries; 'standard' is first; identifiers are pairwise distinct; every label is non-empty |
| Languages.DialectIsCatalogue | src/lib/languages.ts:21 | a string is a `Dialect` exactly when it is the identifier of some catalogue entry |
| Rules.RuleSetWellFormed | src/lib/rules.ts:3-47 | every rule set has non-empty phrases, none of them repeated |
| Rules.TableKeysAreDialects | src/lib/rules.ts:3 | the table is keyed by exactly the catalogue dialects other than 'standard' |
| Rules.EmptyRuleSetIsNoOp | src/lib/rules.ts:31-46 | each of the twelve dialects with an empty rule set returns the text unchanged with an empty trace |
| Rules.ApplyRules | src/lib/rules.ts:49-77 | the loop (early return, sort, test, replace, normalise, push) computes exactly `Transform`, the fold over the sorted rules |
| Rules.Step | src/lib/rules.ts:69-73 | definition only: one rule tried on the current text; its cases are `StepCases` |
| Rules.StepCases | src/lib/rules.ts:70-73 | a rule that fires is recorded and leaves single-spaced text with no leading or trailing whitespace; a rule that does not fire changes nothing |
| Rules.Render | src/lib/rules.ts:72 | definition only: the trace entry `${from} → ${to}` |
| Rules.RenderAll | src/lib/rules.ts:72 | one trace entry per fired rule |
| Rules.MatchesIffMatchAt | src/lib/rules.ts:58-70 | `regex.test` holds exactly when an occurrence of the phrase with no Devanagari neighbour exists |
| Rules.ReplaceWithoutMatch | src/lib/rules.ts:68-71 | when the phrase has no such occurrence, the global replace leaves the text unchanged |
| Rules.IdentityRuleOnlyNormalizes | src/lib/rules.ts:71 | a rule that maps a phrase to itself leaves the text unchanged before normalisation |
| Rules.SortPermutes | src/lib/rules.ts:64 | the sorted rules are a permutation of the rule set |
| Rules.SortIsLongestFirst | src/lib/rules.ts:64 | the sorted rules are ordered by non-increasing phrase length |
| Rules.SortIsStable | src/lib/rules.ts:64 | rules of equal phrase length keep their table order (`Array.prototype.sort` is stable) |
| Rules.SortedRuleSetWellFormed | src/lib/rules.ts:64 | after sorting, phrases are still non-empty and distinct |
| Rules.FiredIsSubsequence | src/lib/rules.ts:66-74 | the rules that fired are the tried rules with some left out, in the same order |
| Rules.NothingFiredMeansUnchanged | src/lib/rules.ts:54-76 | when no rule fires, the text comes back exactly as given, whitespace included |
| Rules.FiredMeansNormal | src/lib/rules.ts:70-71 | after any rule fires, the text is single-spaced with no leading or trailing whitespace |
| Rules.TransformTextProperties | src/lib/rules.ts:49-76 | 'standard' is a no-op; an empty trace means the text is unchanged; a non-empty trace means the text is normalised |
| Rules.TransformTraceOrder | src/lib/rules.ts:64-74 | the trace is "from → to" of a subsequence of the rules sorted longest first with ties in table order; it has no repeated rule and no more entries than the rule set |
| RuleExamples.NoneMatches | src/lib/rules.ts:66-74 | when no phrase matches, the pass returns the text unchanged with nothing fired |
| RuleExamples.GluedPhrasesDoNotMatch | src/lib/rules.ts:60-61 | in "कुठेआहे" neither "कुठे" nor "आहे" stands free, so the Nagpur pass returns the text unchanged with an empty trace |
| RuleExamples.DandaBlocksMatch | src/lib/rules.ts:60-61 | the danda and the Devanagari digits are inside the Devanagari block and block a match; a space and '!' do not |
| RuleExamples.NagpurOrder | src/lib/rules.ts:64 | the Nagpur rules sorted are the four-letter phrases in table order, then the three-letter ones in table order |
| RuleExamples.NagpurRewrite | src/lib/rules.ts:4-11 | Nagpur on "मला आहे" gives "माले हाय" with trace ["आहे → हाय", "मला → माले"] |
| RuleExamples.MalvaniIdentityRuleIsRecorded | src/lib/rules.ts:16 | the identity rule "काय → काय" still fires and is recorded |
| RuleExamples.KolhapurPhraseBeforeDeletion | src/lib/rules.ts:27-30 | the long Kolhapur phrase is replaced first, and its result no longer holds a free "तू", so the deletion rule does not fire |
| Actions.TextIssues | src/app/actions.ts:13 | the text field passes exactly when it is a non-empty string; the empty string gives the 'Text cannot be empty.' issue |
| Actions.DialectIssues | src/app/actions.ts:14 | the dialect field passes exactly when it is a catalogue identifier; at most one issue is raised |
| Actions.Validate | src/app/actions.ts:12-22 | the request is valid exactly when both fields pass, and the parsed request carries the two strings |
| Actions.ValidIff | src/app/actions.ts:12-15 | accepted iff a non-empty text and a catalogue dialect; text made only of whitespace is accepted |
| Actions.InvalidInputSkipsModel | src/app/actions.ts:24-33 | invalid input gives the 'Invalid input.' record with the field errors and never depends on the model |
| Actions.ModelSeesRuleOutput | src/app/actions.ts:41-47 | the record depends on the model only through the model's answer to (rule output, dialect) |
| Actions.SuccessRecord | src/app/actions.ts:49-55 | on success the record holds the model's translation and confidence and the rule engine's trace |
| Actions.FailureRecord | src/app/actions.ts:56-65 | a failing model call gives the fixed error record: empty text, empty trace, confidence 0, no fallback |
| Actions.SuccessIff | src/app/actions.ts:17-66 | success iff the input is valid and the model call succeeds; every error message is one of the two fixed messages |
| Actions.TranslateAction | src/app/actions.ts:17-66 | every error record has empty text, empty trace and confidence 0; every success record carries the success message and no field errors |
| Actions.StandardStillSent | src/app/actions.ts:36-47 | 'standard' is accepted and sent to the model with the text as typed and an empty trace |
| Actions.ChatbotAction | src/app/actions.ts:72-98 | a success record only follows a non-empty message and is the chatbot's own response |
| Actions.ChatbotCases | src/app/actions.ts:72-98 | an empty message gives 'Invalid input.'; otherwise the response, or 'An unexpected error occurred.' when the call fails |
| Strings.JsNormalizeIsNormal | src/lib/rules.ts:71 | `.replace(/\s+/g, ' ').trim()` yields single-spaced text with no leading or trailing whitespace |
| Strings.JsNormalizeIdempotent | src/lib/rules.ts:71 | normalising twice is normalising once |
| Strings.PyNormalizeIsNormal | tools/marathi_tokenizer.py:31-35 | `normalize` yields single-spaced text with no leading or trailing whitespace |
| Strings.PyNormalizeIdempotent | tools/marathi_tokenizer.py:31-35 | `normalize` is idempotent |
| Strings.NormalizeKeepsVisible | tools/marathi_tokenizer.py:31-35 | normalisation keeps every non-whitespace character, in order |
| Strings.Split | tools/marathi_tokenizer.py:40 | `split()` yields non-empty words without whitespace; where the words break is fixed by `FieldsJoin` and `NormalizeIsJoinedFields` |
| Strings.FieldsKeepVisible | tools/marathi_tokenizer.py:40 | the words of `split()` run together are the text with its whitespace removed |
| Strings.FieldsAreWords | tools/marathi_tokenizer.py:40 | every whitespace-separated field is non-empty and holds no whitespace |
| Strings.FieldsJoin | tools/marathi_tokenizer.py:61 | splitting non-empty words without whitespace, joined by single spaces, gives the words back |
| Strings.SplitJoin | tools/marathi_tokenizer.py:61 | `" ".join(ws).split() == ws` for any list of words |
| Strings.NormalizeIsJoinedFields | tools/marathi_tokenizer.py:31-35 | both normalisations are the text's whitespace-separated fields joined by single spaces: each inner whitespace run becomes one space, the runs at the ends vanish, nothing else moves |
| Strings.FieldsOfNormalized | tools/marathi_tokenizer.py:38-40 | normalising keeps the words: `split()` of the normalised text is `split()` of the text |
| Strings.FieldsStrip | tools/marathi_gemini_model.py:57 | `strip()` changes no whitespace-separated field |
| Strings.Remove | tools/marathi_tokenizer.py:40 | `replace(c, '')` leaves no `c`, keeps every other character exactly as often as the input has it, and changes nothing when `c` is absent |
| Strings.RemoveAppend | tools/marathi_tokenizer.py:40 | `replace(c, '')` works piece by piece on a concatenation, so the kept characters stay in their order |
| Strings.VisibleRemove | tools/marathi_tokenizer.py:40 | removing whitespace and removing a character commute |
| Strings.NonZero | tools/marathi_tokenizer.py:60 | the ids that `if i != 0` keeps: no 0, every other id exactly as often as the input has it, and all of them when none is 0 |
| Strings.NonZeroAppend | tools/marathi_tokenizer.py:60 | the filter works piece by piece on a concatenation, so the kept ids stay in their order |
| MarathiTokenizer.VocabInverse | tools/marathi_tokenizer.py:6-20 | `VOCAB` and `INV_VOCAB` are inverse to each other, and 0 is the id of "[UNK]" alone |
| MarathiTokenizer.Normalize | tools/marathi_tokenizer.py:31-35 | the result is the `split()` words of the text joined by single spaces, so it has the same words; it is normalised and keeps the text's non-whitespace characters |
| MarathiTokenizer.WordsProperties | tools/marathi_tokenizer.py:40 | the words are non-empty, hold no whitespace, and hold no '?' or '.' |
| MarathiTokenizer.Piece | tools/marathi_tokenizer.py:44-48 | a word longer than six characters gives two pieces, any other word one, and the pieces run together are the word |
| MarathiTokenizer.Tokenize | tools/marathi_tokenizer.py:37-49 | returns exactly the pieces of the normalised words, `Tokens` |
| MarathiTokenizer.SplitLongWords | tools/marathi_tokenizer.py:42-49 | the loop appends, in order, each word of at most six characters, or its first three characters and then the rest |
| MarathiTokenizer.PiecesProperties | tools/marathi_tokenizer.py:42-49 | between one and two pieces per word, and the pieces run together are the words run together |
| MarathiTokenizer.TokensProperties | tools/marathi_tokenizer.py:37-49 | tokens are non-empty words without '?' or '.', one or two per word, and run together they are the text with whitespace, '?' and '.' removed |
| MarathiTokenizer.Encoded | tools/marathi_tokenizer.py:51-57 | exactly eight ids: the token ids, padded with 0 or cut after the eighth |
| MarathiTokenizer.Encode | tools/marathi_tokenizer.py:51-57 | the in-place padding and the truncation compute exactly `Encoded` of the tokens |
| MarathiTokenizer.DecodedWords | tools/marathi_tokenizer.py:60 | one word per non-zero id, "[UNK]" for unknown ids |
| MarathiTokenizer.ZerosDecodeToNothing | tools/marathi_tokenizer.py:59-61 | padding ids decode to the empty string |
| MarathiTokenizer.Decode | tools/marathi_tokenizer.py:59-61 | `split()` of the decoded text gives back the decoded words: one per non-zero id, "[UNK]" for unknown ids |
| MarathiTokenizer.RoundTrip | tools/marathi_tokenizer.py:51-61 | for at most eight known tokens other than "[UNK]", decoding the encoding gives the tokens joined by single spaces |
| MarathiGeminiModel.TokenMapInverse | tools/marathi_gemini_model.py:13-27 | `TOKEN_MAP` and `INV_TOKEN_MAP` are inverse; the ids are exactly 101 to 111 |
| MarathiGeminiModel.StripAllOfWords | tools/marathi_gemini_model.py:57 | the strip-and-filter step is the identity on the words of `split()` |
| MarathiGeminiModel.TokenizeProperties | tools/marathi_gemini_model.py:55-58 | tokens are the `split()` words after removing '?' and ','; none is empty or holds whitespace, '?' or ',' |
| MarathiGeminiModel.EncodeTokens | tools/marathi_gemini_model.py:60-66 | one id per token, cut after 32, no padding; an id is 0 exactly when its token is outside the map, and otherwise an id of the map |
| MarathiGeminiModel.Encode | tools/marathi_gemini_model.py:60-66 | at most 32 ids, each 0 or an id of the map |
| MarathiGeminiModel.Decode | tools/marathi_gemini_model.py:68-70 | `split()` of the decoded text gives back one word per id, "[UNK]" for ids outside the map |
| MarathiGeminiModel.RoundTrip | tools/marathi_gemini_model.py:55-70 | for at most 32 tokens, all in the map, decoding the encoding gives the tokens joined by single spaces |
| MarathiGeminiModel.Shift | tools/marathi_gemini_model.py:106 | the shifted id lies in 0..999 |
| MarathiGeminiModel.MappedIdsPrefix | tools/marathi_gemini_model.py:101-107 | one more input id appends its mapped id, and nothing when it is 0 |
| MarathiGeminiModel.Predicted | tools/marathi_gemini_model.py:109-111 | the prediction is never empty |
| MarathiGeminiModel.TranslationModel.constructor | tools/marathi_gemini_model.py:83-86 | a new model has not loaded its weights |
| MarathiGeminiModel.TranslationModel.Load | tools/marathi_gemini_model.py:88-91 | afterwards the weights are loaded |
| MarathiGeminiModel.TranslationModel.PredictTokens | tools/marathi_gemini_model.py:93-111 | loads the weights if needed, and the skip-zero loop with the fallback returns exactly `Predicted` |
| MarathiGeminiModel.MapId | tools/marathi_gemini_model.py:106-107 | the result is the input id or an id of the map; a non-zero id never maps to 0; a known id maps to a known id |
| MarathiGeminiModel.PredictedCases | tools/marathi_gemini_model.py:101-111 | zero ids are skipped and the rest mapped; with no non-zero id the fallback [104, 105] comes back |
| MarathiGeminiModel.PredictedIdsAreKnown | tools/marathi_gemini_model.py:101-111 | no predicted id is 0; known inputs give known outputs, which decode without "[UNK]" |
| MarathiGeminiModel.ShiftDependsOnLengthOnly | tools/marathi_gemini_model.py:106 | two dialect names whose lengths agree modulo 7 give the same prediction |
| MarathiGeminiModel.FirstLabelIsFirstMatch | tools/marathi_gemini_model.py:139-146 | the label is that of the first rule with a keyword in the text, and 'standard' when there is none |
| MarathiGeminiModel.Classify | tools/marathi_gemini_model.py:130-146 | the label is one of 'mumbai', 'pune', 'nagpur', 'standard' |
| MarathiGeminiModel.Predict | tools/marathi_gemini_model.py:137-146 | the nested search with its early return computes exactly `Classify` |
| MarathiGeminiModel.ChooseDialect | tools/marathi_gemini_model.py:174 | a target other than 'auto' is used as given; the chosen dialect is the detected one exactly when the target is 'auto' or already equals it |
| MarathiGeminiModel.Preprocess | tools/marathi_gemini_model.py:159-163 | at most 32 ids, each 0 or an id of the map |
| MarathiGeminiModel.TranslationPipeline.constructor | tools/marathi_gemini_model.py:154-157 | the pipeline holds the given model |
| MarathiGeminiModel.TranslationPipeline.Translate | tools/marathi_gemini_model.py:169-202 | loads the model's weights; reports the input, the detected label, the chosen dialect, and the decoding of the prediction for the preprocessed ids |

## Left out

- Confidence values are not modelled. This covers `predict_tokens`'s coverage, random noise and rounding; the classifier's keyword-length confidence; and the pipeline's combined confidence. They are floating-point arithmetic over a seeded random generator. `translateAction` passes the model's confidence through as an opaque `real`.
- `TranslationModel`'s configuration, its random generator, and the `time.sleep` in `load` are not modelled, and neither is its `path` argument. `ModelConfig` is not modelled, and neither is the pipeline's `meta` block with its timestamp (wall-clock time).
- The tokenizers are modelled with their default tables only: `VOCAB` for `MarathiTokenizer` and `TOKEN_MAP` for `Tokenizer`. `MarathiTokenizer.merges` is never read by the code and is not modelled.
- `TranslationPipeline.postprocess` is `Decode` and has no member of its own. `preprocess` is `Preprocess`. The model does not prove that its newline replacement and strip leave the token list unchanged.
- MarathiGeminiModel.Classify: lower-cases ASCII letters only, whereas Python's `str.lower()` lower-cases every cased character. All keywords are Devanagari or a space, and no lower-case mapping produces or removes such characters, so the label is the same. The model does not state that.
- The external translation flow (src/ai/flows/real-time-translation-flow.ts) and the chatbot flow are parameters of type `Outcome`. The prompt, Genkit and the network are not part of this model.
- Zod's issue messages for wrong types and enum values are not modelled; only the issue kinds are. The empty-text issue carries its fixed message.
- `console.error` logging is not modelled. `async`/`await` is modelled as a plain call.
- `translateAction` has no fallback to the rule output: a failed model call returns the fixed error record (src/app/actions.ts:56-65; see `Actions.FailureRecord`).
- Strings are sequences of code points, whereas JavaScript indexes UTF-16 units. The two agree on all rule phrases. A character outside the Basic Multilingual Plane is never Devanagari, so boundary matching is unaffected.
- The phrases are used verbatim as regex source. None contains a metacharacter, so matching is modelled as literal search.
- Replacements are inserted literally. JavaScript's `replace` would expand `$&`, `$1` and similar patterns in the replacement string, but no replacement in the table contains `$`, so these patterns do not arise.
- The UI components, hooks, authentication, the database layer, the admin page, the fine-tuning flows, tools/training_simulator.py and tools/gemini_adapter_stub.py are outside this model.
