/**
 * The deterministic parts of the synthetic "Marathi Gemini" demo model: its
 * tokenizer over an eleven-word token map, the id shift of the translation
 * model (which loads its weights on first use), the keyword classifier that
 * guesses a dialect, and the pipeline's choice of target dialect.
 */
module MarathiGeminiModel {
  import opened Strings

  const Unk: string := "[UNK]"

  /** Encodings are cut off after this many ids. */
  const MaxIds: nat := 32

  const TokenMap: map<string, int> := map[
    "तुम्ही" := 101, "कसे" := 102, "आहात" := 103, "काय" := 104, "आहे" := 105,
    "चल" := 106, "यार" := 107, "रे" := 108, "माझे" := 109, "खाणं" := 110,
    "जेवण" := 111]

  /** `{v: k for k, v in TOKEN_MAP.items()}`. */
  const InvTokenMap: map<int, string> := map[
    101 := "तुम्ही", 102 := "कसे", 103 := "आहात", 104 := "काय", 105 := "आहे",
    106 := "चल", 107 := "यार", 108 := "रे", 109 := "माझे", 110 := "खाणं",
    111 := "जेवण"]

  /** The two maps are inverse to each other; the ids are 101 to 111. */
  lemma TokenMapInverse()
    ensures forall w :: w in TokenMap ==> TokenMap[w] in InvTokenMap && InvTokenMap[TokenMap[w]] == w
    ensures forall i :: i in InvTokenMap ==> InvTokenMap[i] in TokenMap && TokenMap[InvTokenMap[i]] == i
    ensures forall i :: i in InvTokenMap <==> 101 <= i <= 111
  {
    WordsToIds();
    IdsToWords();
  }

  lemma WordsToIds()
    ensures forall w :: w in TokenMap ==> TokenMap[w] in InvTokenMap && InvTokenMap[TokenMap[w]] == w
  {
    assert TokenMap.Keys == {"तुम्ही", "कसे", "आहात", "काय", "आहे", "चल", "यार", "रे", "माझे", "खाणं", "जेवण"};
  }

  lemma IdsToWords()
    ensures forall i :: i in InvTokenMap ==> InvTokenMap[i] in TokenMap && TokenMap[InvTokenMap[i]] == i
    ensures forall i :: i in InvTokenMap <==> 101 <= i <= 111
  {
    assert InvTokenMap.Keys == {101, 102, 103, 104, 105, 106, 107, 108, 109, 110, 111};
  }

  // ---------------------------------------------------------------------
  // Tokenizer

  /** `[t.strip() for t in ws if t.strip()]`. */
  function StripAll(ws: seq<string>): seq<string>
    decreases |ws|
  {
    if ws == [] then []
    else
      var t := Strip(Py, ws[0]);
      (if t != [] then [t] else []) + StripAll(ws[1..])
  }

  /** On the words of `split()` the strip-and-filter step changes nothing. */
  lemma {:induction false} StripAllOfWords(ws: seq<string>)
    requires forall k :: 0 <= k < |ws| ==> IsWord(ws[k])
    ensures StripAll(ws) == ws
    decreases |ws|
  {
    if ws != [] {
      StripAllOfWords(ws[1..]);
      var w := ws[0];
      assert DropSpaces(Py, w) == w;
      assert DropTrailingSpaces(Py, w) == w;
    }
  }

  /** `Tokenizer.tokenize`. */
  function Tokenize(text: string): seq<string> {
    StripAll(Split(Remove(Remove(text, '?'), ',')))
  }

  /** The tokens are the whitespace-separated words of the text once `?`
      and `,` are removed: none is empty, none holds whitespace, `?` or `,`. */
  lemma TokenizeProperties(text: string)
    ensures Tokenize(text) == Split(Remove(Remove(text, '?'), ','))
    ensures forall k :: 0 <= k < |Tokenize(text)| ==>
              IsWord(Tokenize(text)[k]) && '?' !in Tokenize(text)[k] && ',' !in Tokenize(text)[k]
  {
    var cleaned := Remove(Remove(text, '?'), ',');
    StripAllOfWords(Split(cleaned));
    forall k, i | 0 <= k < |Split(cleaned)| && 0 <= i < |Split(cleaned)[k]|
      ensures Split(cleaned)[k][i] != '?' && Split(cleaned)[k][i] != ','
    {
      SplitWordChars(cleaned, k, i);
    }
  }

  /** `self.token_map.get(t, 0)`. */
  function Id(t: string): int {
    if t in TokenMap then TokenMap[t] else 0
  }

  /** `Tokenizer.encode` on a token list: one id per token, unknown tokens
      as 0, no padding, at most 32 ids. */
  function EncodeTokens(tokens: seq<string>): (ids: seq<int>)
    ensures |ids| == if |tokens| > MaxIds then MaxIds else |tokens|
    ensures forall i :: 0 <= i < |ids| ==> ids[i] == Id(tokens[i])
    ensures forall i :: 0 <= i < |ids| ==> (ids[i] == 0 <==> tokens[i] !in TokenMap)
    ensures forall i :: 0 <= i < |ids| ==> ids[i] == 0 || ids[i] in InvTokenMap
  {
    TokenMapInverse();
    var ids := seq(|tokens|, i requires 0 <= i < |tokens| => Id(tokens[i]));
    if |ids| > MaxIds then ids[..MaxIds] else ids
  }

  /** `Tokenizer.encode`: at most 32 ids, each 0 or an id of the map. */
  function Encode(text: string): (ids: seq<int>)
    ensures |ids| <= MaxIds
    ensures forall i :: 0 <= i < |ids| ==> ids[i] == 0 || ids[i] in InvTokenMap
  {
    EncodeTokens(Tokenize(text))
  }

  /** `self.inv_map.get(i, "[UNK]")`. */
  function Word(i: int): string {
    if i in InvTokenMap then InvTokenMap[i] else Unk
  }

  /** The words of `Tokenizer.decode`: one per id, 0 included. */
  function DecodeWords(ids: seq<int>): (ws: seq<string>)
    ensures |ws| == |ids|
    ensures forall k :: 0 <= k < |ids| ==> ws[k] == Word(ids[k])
  {
    seq(|ids|, k requires 0 <= k < |ids| => Word(ids[k]))
  }

  /** Every word an id decodes to is a word of `split()`. */
  lemma DecodedWordsAreWords(i: int)
    ensures IsWord(Word(i))
  {
    var w := Word(i);
    assert w in {"तुम्ही", "कसे", "आहात", "काय", "आहे", "चल", "यार", "रे", "माझे", "खाणं", "जेवण", "[UNK]"};
    assert forall k :: 0 <= k < |w| ==> !IsPySpace(w[k]);
  }

  /** `Tokenizer.decode`: the words joined with single spaces, so that
      `split()` gives them back. */
  function Decode(ids: seq<int>): (r: string)
    ensures Split(r) == DecodeWords(ids)
  {
    var ws := DecodeWords(ids);
    forall k | 0 <= k < |ws|
      ensures IsWord(ws[k])
    {
      DecodedWordsAreWords(ids[k]);
    }
    SplitJoin(ws);
    Join(" ", ws)
  }

  /** For at most 32 tokens, all in the token map, decoding the encoding
      gives the tokens joined with single spaces. */
  lemma RoundTrip(text: string)
    requires |Tokenize(text)| <= MaxIds
    requires forall k :: 0 <= k < |Tokenize(text)| ==> Tokenize(text)[k] in TokenMap
    ensures Decode(Encode(text)) == Join(" ", Tokenize(text))
  {
    TokenMapInverse();
    assert DecodeWords(Encode(text)) == Tokenize(text);
  }

  // ---------------------------------------------------------------------
  // Translation model

  /** `(i + len(d) % 7) % 1000`: Python's `%` with a positive divisor is
      never negative, as is Dafny's. */
  function Shift(i: int, dialect: string): (r: int)
    ensures 0 <= r < 1000
  {
    (i + |dialect| % 7) % 1000
  }

  /** The id a non-zero input id becomes: the shifted id when the token
      map knows it, the input id otherwise. */
  function MapId(i: int, dialect: string): (r: int)
    ensures r == i || r in InvTokenMap
    ensures i != 0 ==> r != 0
    ensures i in InvTokenMap ==> r in InvTokenMap
  {
    TokenMapInverse();
    var s := Shift(i, dialect);
    if s in InvTokenMap then s else i
  }

  /** The ids the loop of `predict_tokens` collects: the non-zero input
      ids, each mapped. */
  function MappedIds(ids: seq<int>, dialect: string): (r: seq<int>)
    ensures |r| == |NonZero(ids)|
    ensures forall k :: 0 <= k < |r| ==> r[k] == MapId(NonZero(ids)[k], dialect)
    ensures forall k :: 0 <= k < |r| ==> r[k] != 0
  {
    var nz := NonZero(ids);
    seq(|nz|, k requires 0 <= k < |nz| => MapId(nz[k], dialect))
  }

  /** One more input id adds its mapped id, unless it is 0. */
  lemma MappedIdsPrefix(ids: seq<int>, n: nat, dialect: string)
    requires n < |ids|
    ensures MappedIds(ids[..n + 1], dialect)
         == MappedIds(ids[..n], dialect) + (if ids[n] == 0 then [] else [MapId(ids[n], dialect)])
  {
    assert ids[..n + 1] == ids[..n] + [ids[n]];
    NonZeroAppend(ids[..n], [ids[n]]);
  }

  /** The fallback when no id survives: the ids of "काय" and "आहे". */
  const FallbackIds: seq<int> := [104, 105]

  /** The tokens `predict_tokens` returns. */
  function Predicted(ids: seq<int>, dialect: string): (r: seq<int>)
    ensures r != []
  {
    var m := MappedIds(ids, dialect);
    if m == [] then FallbackIds else m
  }

  /** `TranslationModel`: only the weights flag; the configuration and the
      random generator feed the confidence, which is not modelled. */
  class TranslationModel {
    var weightsLoaded: bool

    constructor ()
      ensures !weightsLoaded
    {
      weightsLoaded := false;
    }

    /** `load`: marks the weights as loaded (the sleep is not modelled). */
    method Load()
      modifies this
      ensures weightsLoaded
    {
      weightsLoaded := true;
    }

    /** `predict_tokens`: loads the weights when needed, then collects the
        mapped non-zero ids, falling back to `[104, 105]`. */
    method PredictTokens(inputIds: seq<int>, targetDialect: string) returns (predicted: seq<int>)
      modifies this
      ensures weightsLoaded
      ensures predicted == Predicted(inputIds, targetDialect)
    {
      if !weightsLoaded {
        Load();
      }
      predicted := [];
      for n := 0 to |inputIds|
        invariant weightsLoaded
        invariant predicted == MappedIds(inputIds[..n], targetDialect)
      {
        var i := inputIds[n];
        MappedIdsPrefix(inputIds, n, targetDialect);
        if i == 0 {
          continue;
        }
        predicted := predicted + [MapId(i, targetDialect)];
      }
      assert inputIds[..|inputIds|] == inputIds;
      if predicted == [] {
        predicted := FallbackIds;
      }
    }
  }

  /** Zero ids are skipped and every other id is mapped; when none is left
      the fallback ids come back. */
  lemma PredictedCases(ids: seq<int>, dialect: string)
    ensures NonZero(ids) != [] ==> Predicted(ids, dialect) == MappedIds(ids, dialect)
    ensures NonZero(ids) == [] ==> Predicted(ids, dialect) == FallbackIds
  {
  }

  /** No predicted id is 0, and ids the token map knows map to ids it
      knows, so they decode without "[UNK]". */
  lemma PredictedIdsAreKnown(ids: seq<int>, dialect: string)
    ensures forall k :: 0 <= k < |Predicted(ids, dialect)| ==> Predicted(ids, dialect)[k] != 0
    ensures (forall k :: 0 <= k < |ids| ==> ids[k] == 0 || ids[k] in InvTokenMap) ==>
              forall k :: 0 <= k < |Predicted(ids, dialect)| ==> Predicted(ids, dialect)[k] in InvTokenMap
  {
    var m := MappedIds(ids, dialect);
    var known := forall k :: 0 <= k < |ids| ==> ids[k] == 0 || ids[k] in InvTokenMap;
    forall k | 0 <= k < |m|
      ensures m[k] != 0 && (known ==> m[k] in InvTokenMap)
    {
      var x := NonZero(ids)[k];
      assert x != 0 && x in ids;
    }
    assert 104 in InvTokenMap && 105 in InvTokenMap;
  }

  /** Only the length of the dialect name modulo 7 matters. */
  lemma ShiftDependsOnLengthOnly(ids: seq<int>, d1: string, d2: string)
    requires |d1| % 7 == |d2| % 7
    ensures Predicted(ids, d1) == Predicted(ids, d2)
  {
    var m1, m2 := MappedIds(ids, d1), MappedIds(ids, d2);
    forall k | 0 <= k < |m1|
      ensures m1[k] == m2[k]
    {
      assert Shift(NonZero(ids)[k], d1) == Shift(NonZero(ids)[k], d2);
    }
    assert m1 == m2;
  }

  // ---------------------------------------------------------------------
  // Dialect classifier

  /** `DialectClassifier._rules`, in order. */
  const ClassifierRules: seq<(string, seq<string>)> := [
    ("mumbai", ["यार", "है", "देख"]),
    ("pune", ["ना", "बघ", "कसा"]),
    ("nagpur", ["भाऊ", "चल रे"]),
    ("standard", ["तुम्ही", "कसे", "आहात"])
  ]

  const Fallback: string := "standard"

  /** Some keyword of the list occurs in the text. */
  predicate HasKeyword(t: string, keywords: seq<string>) {
    exists j :: 0 <= j < |keywords| && Contains(t, keywords[j])
  }

  /** The label of the first rule with a keyword in `t`, or 'standard'. */
  function FirstLabel(rules: seq<(string, seq<string>)>, t: string): string
    decreases |rules|
  {
    if rules == [] then Fallback
    else if HasKeyword(t, rules[0].1) then rules[0].0
    else FirstLabel(rules[1..], t)
  }

  /** The label `DialectClassifier.predict` returns: one of the four. */
  function Classify(text: string): (dialect: string)
    ensures dialect in {"mumbai", "pune", "nagpur", "standard"}
  {
    assert ClassifierRules[1..][1..][1..][1..] == [];
    FirstLabel(ClassifierRules, AsciiLower(text))
  }

  /** The label is the first rule's whose keyword occurs, and the fallback
      when none does. */
  lemma {:induction false} FirstLabelIsFirstMatch(rules: seq<(string, seq<string>)>, t: string)
    ensures (forall r :: 0 <= r < |rules| ==> !HasKeyword(t, rules[r].1)) ==> FirstLabel(rules, t) == Fallback
    ensures forall r :: 0 <= r < |rules| && HasKeyword(t, rules[r].1)
                        && (forall q :: 0 <= q < r ==> !HasKeyword(t, rules[q].1))
                   ==> FirstLabel(rules, t) == rules[r].0
    decreases |rules|
  {
    if rules != [] {
      FirstLabelIsFirstMatch(rules[1..], t);
      forall r | 0 <= r < |rules| && HasKeyword(t, rules[r].1)
                 && (forall q :: 0 <= q < r ==> !HasKeyword(t, rules[q].1))
        ensures FirstLabel(rules, t) == rules[r].0
      {
        if r > 0 {
          assert !HasKeyword(t, rules[0].1);
          assert rules[r] == rules[1..][r - 1];
          forall q | 0 <= q < r - 1
            ensures !HasKeyword(t, rules[1..][q].1)
          {
            assert rules[1..][q] == rules[q + 1];
          }
        }
      }
      if forall r :: 0 <= r < |rules| ==> !HasKeyword(t, rules[r].1) {
        assert !HasKeyword(t, rules[0].1);
        forall r | 0 <= r < |rules[1..]|
          ensures !HasKeyword(t, rules[1..][r].1)
        {
          assert rules[1..][r] == rules[r + 1];
        }
      }
    }
  }

  /** `DialectClassifier.predict`: the nested search with an early return. */
  method Predict(text: string) returns (dialect: string)
    ensures dialect == Classify(text)
  {
    var lowered := AsciiLower(text);
    for r := 0 to |ClassifierRules|
      invariant FirstLabel(ClassifierRules, lowered) == FirstLabel(ClassifierRules[r..], lowered)
    {
      var (name, keywords) := ClassifierRules[r];
      for k := 0 to |keywords|
        invariant forall j :: 0 <= j < k ==> !Contains(lowered, keywords[j])
      {
        if Contains(lowered, keywords[k]) {
          assert HasKeyword(lowered, ClassifierRules[r..][0].1);
          return name;
        }
      }
      assert ClassifierRules[r..][1..] == ClassifierRules[r + 1..];
    }
    return Fallback;
  }

  // ---------------------------------------------------------------------
  // Pipeline

  /** The dialect `translate` hands to the model. */
  function ChooseDialect(target: string, detected: string): (chosen: string)
    ensures chosen == detected <==> target == "auto" || target == detected
    ensures target != "auto" ==> chosen == target
  {
    if target == "auto" then detected else target
  }

  /** `preprocess`: newlines become spaces, the text is stripped and encoded. */
  function Preprocess(text: string): (ids: seq<int>)
    ensures |ids| <= MaxIds
    ensures forall i :: 0 <= i < |ids| ==> ids[i] == 0 || ids[i] in InvTokenMap
  {
    Encode(Strip(Py, ReplaceChar(text, '\n', ' ')))
  }

  /** The deterministic fields of the record `translate` returns. */
  datatype PipelineResult = PipelineResult(input: string, detectedDialect: string, targetDialect: string, translation: string)

  class TranslationPipeline {
    const model: TranslationModel

    constructor (model: TranslationModel)
      ensures this.model == model
    {
      this.model := model;
    }

    /** `translate`: classify, choose the dialect, encode, predict, decode. */
    method Translate(text: string, targetDialect: string) returns (res: PipelineResult)
      modifies model
      ensures model.weightsLoaded
      ensures res.input == text && res.detectedDialect == Classify(text)
      ensures res.targetDialect == (if targetDialect == "auto" then Classify(text) else targetDialect)
      ensures res.translation == Decode(Predicted(Preprocess(text), res.targetDialect))
    {
      var detected := Predict(text);
      var chosen := ChooseDialect(targetDialect, detected);
      var inputIds := Encode(Strip(Py, ReplaceChar(text, '\n', ' ')));
      var predicted := model.PredictTokens(inputIds, chosen);
      res := PipelineResult(text, detected, chosen, Decode(predicted));
    }
  }
}
