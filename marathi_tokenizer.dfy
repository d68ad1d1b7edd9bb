/**
 * The demo subword tokenizer for Marathi: normalisation, a whitespace
 * tokenizer that splits words longer than six characters into two pieces,
 * an encoder to a fixed length of eight ids over a ten-word vocabulary, and
 * the decoder back to text.
 */
module MarathiTokenizer {
  import opened Strings

  /** The unknown-word token; it is also in the vocabulary, with id 0. */
  const Unk: string := "[UNK]"

  /** The fixed demo length of an encoding. */
  const EncodedLength: nat := 8

  const Vocab: map<string, int> := map[
    "तुम्ही" := 1, "कसे" := 2, "आहात" := 3, "काय" := 4, "आहे" := 5,
    "चल" := 6, "यार" := 7, "पहा" := 8, "बघ" := 9, "माझे" := 10,
    "[UNK]" := 0]

  /** `{v: k for k, v in vocab.items()}`. */
  const InvVocab: map<int, string> := map[
    1 := "तुम्ही", 2 := "कसे", 3 := "आहात", 4 := "काय", 5 := "आहे",
    6 := "चल", 7 := "यार", 8 := "पहा", 9 := "बघ", 10 := "माझे",
    0 := "[UNK]"]

  /** The two tables are inverse to each other, and 0 is the id of "[UNK]" alone. */
  lemma VocabInverse()
    ensures forall w :: w in Vocab ==> Vocab[w] in InvVocab && InvVocab[Vocab[w]] == w
    ensures forall i :: i in InvVocab ==> InvVocab[i] in Vocab && Vocab[InvVocab[i]] == i
    ensures forall w :: w in Vocab ==> (Vocab[w] == 0 <==> w == Unk)
  {
    WordsToIds();
    IdsToWords();
  }

  lemma WordsToIds()
    ensures forall w :: w in Vocab ==> Vocab[w] in InvVocab && InvVocab[Vocab[w]] == w
    ensures forall w :: w in Vocab ==> (Vocab[w] == 0 <==> w == Unk)
  {
    assert Vocab.Keys == {"तुम्ही", "कसे", "आहात", "काय", "आहे", "चल", "यार", "पहा", "बघ", "माझे", "[UNK]"};
  }

  lemma IdsToWords()
    ensures forall i :: i in InvVocab ==> InvVocab[i] in Vocab && Vocab[InvVocab[i]] == i
  {
    assert InvVocab.Keys == {1, 2, 3, 4, 5, 6, 7, 8, 9, 10, 0};
  }

  // ---------------------------------------------------------------------
  // normalize and tokenize

  /** `normalize`: strip, then every whitespace run becomes one space. The
      result is the words of the text joined by single spaces, so it has
      the same words as the text. */
  function Normalize(text: string): (r: string)
    ensures r == Join(" ", Split(text))
    ensures Split(r) == Split(text)
    ensures IsNormal(Py, r)
    ensures Visible(Py, r) == Visible(Py, text)
  {
    NormalizeIsJoinedFields(text);
    FieldsOfNormalized(text);
    PyNormalizeIsNormal(text);
    NormalizeKeepsVisible(text);
    PyNormalize(text)
  }

  /** The words `tokenize` splits: `?` and `.` removed, then `split()`. */
  function Words(text: string): seq<string> {
    Split(Remove(Remove(Normalize(text), '?'), '.'))
  }

  /** The words are non-empty and hold no whitespace, `?` or `.`. */
  lemma WordsProperties(text: string)
    ensures forall k :: 0 <= k < |Words(text)| ==>
              IsWord(Words(text)[k]) && '?' !in Words(text)[k] && '.' !in Words(text)[k]
  {
    var cleaned := Remove(Remove(Normalize(text), '?'), '.');
    SplitLeavesOut(cleaned, '?');
    SplitLeavesOut(cleaned, '.');
  }

  lemma SplitLeavesOut(s: string, c: char)
    requires c !in s
    ensures forall k :: 0 <= k < |Split(s)| ==> c !in Split(s)[k]
  {
    forall k, i | 0 <= k < |Split(s)| && 0 <= i < |Split(s)[k]|
      ensures Split(s)[k][i] != c
    {
      SplitWordChars(s, k, i);
    }
  }

  /** The pieces of one word: a word longer than six characters becomes its
      first three characters and the rest. */
  function Piece(t: string): (ps: seq<string>)
    ensures |ps| == if |t| > 6 then 2 else 1
    ensures Concat(ps) == t
  {
    var ps := if |t| > 6 then [t[..3], t[3..]] else [t];
    assert Concat(ps) == t by {
      if |t| > 6 {
        var rest := [t[3..]];
        assert ps[1..] == rest && rest[1..] == [];
        assert Concat(rest) == t[3..] + Concat([]);
        assert Concat(ps) == t[..3] + Concat(rest);
        assert t == t[..3] + t[3..];
      } else {
        assert ps[1..] == [];
      }
    }
    ps
  }

  function Pieces(ws: seq<string>): seq<string>
    decreases |ws|
  {
    if ws == [] then [] else Piece(ws[0]) + Pieces(ws[1..])
  }

  /** What `tokenize(text)` returns. */
  function Tokens(text: string): seq<string> {
    Pieces(Words(text))
  }

  /** `tokenize`: the normalised words, each long one split in two. */
  method Tokenize(text: string) returns (out: seq<string>)
    ensures out == Tokens(text)
  {
    var tokens := Words(text);
    out := SplitLongWords(tokens);
  }

  /** The loop of `tokenize`: appends each word, or its two pieces. */
  method SplitLongWords(tokens: seq<string>) returns (out: seq<string>)
    ensures out == Pieces(tokens)
  {
    out := [];
    for k := 0 to |tokens|
      invariant out == Pieces(tokens[..k])
    {
      var t := tokens[k];
      PiecesStep(tokens, k);
      if |t| > 6 {
        out := out + [t[..3]];
        out := out + [t[3..]];
        assert Piece(t) == [t[..3], t[3..]];
      } else {
        out := out + [t];
        assert Piece(t) == [t];
      }
    }
    assert tokens[..|tokens|] == tokens;
  }

  lemma {:induction false} PiecesAppend(a: seq<string>, b: seq<string>)
    ensures Pieces(a + b) == Pieces(a) + Pieces(b)
    decreases |a|
  {
    if a == [] {
      assert a + b == b;
    } else {
      assert (a + b)[0] == a[0] && (a + b)[1..] == a[1..] + b;
      PiecesAppend(a[1..], b);
    }
  }

  lemma PiecesStep(ws: seq<string>, k: nat)
    requires k < |ws|
    ensures Pieces(ws[..k + 1]) == Pieces(ws[..k]) + Piece(ws[k])
  {
    assert ws[..k + 1] == ws[..k] + [ws[k]];
    PiecesSnoc(ws[..k], ws[k]);
  }

  lemma PiecesSnoc(ws: seq<string>, t: string)
    ensures Pieces(ws + [t]) == Pieces(ws) + Piece(t)
  {
    PiecesAppend(ws, [t]);
    var single := [t];
    assert single[1..] == [];
  }

  /** Each word gives one or two pieces, and the pieces run together are
      the words run together. */
  lemma {:induction false} PiecesProperties(ws: seq<string>)
    ensures |ws| <= |Pieces(ws)| <= 2 * |ws|
    ensures Concat(Pieces(ws)) == Concat(ws)
    decreases |ws|
  {
    if ws != [] {
      PiecesProperties(ws[1..]);
      ConcatAppend(Piece(ws[0]), Pieces(ws[1..]));
    }
  }

  /** The pieces of words are words, and they keep out `?` and `.`. */
  lemma {:induction false} PiecesAreWords(ws: seq<string>)
    requires forall k :: 0 <= k < |ws| ==> IsWord(ws[k]) && '?' !in ws[k] && '.' !in ws[k]
    ensures forall k :: 0 <= k < |Pieces(ws)| ==> IsWord(Pieces(ws)[k]) && '?' !in Pieces(ws)[k] && '.' !in Pieces(ws)[k]
    decreases |ws|
  {
    if ws != [] {
      PiecesAreWords(ws[1..]);
      var t := ws[0];
      var ps := Piece(t);
      forall k | 0 <= k < |ps|
        ensures IsWord(ps[k]) && '?' !in ps[k] && '.' !in ps[k]
      {
        if |t| > 6 {
          assert ps[k] == t[..3] || ps[k] == t[3..];
          forall c | c in ps[k] ensures c in t { }
        }
      }
    }
  }

  /** `tokenize` yields non-empty tokens without whitespace, `?` or `.`;
      there are between one and two tokens per word; and the tokens run
      together are the words run together, which are the text with its
      whitespace, `?` and `.` removed. */
  lemma TokensProperties(text: string)
    ensures forall k :: 0 <= k < |Tokens(text)| ==>
              IsWord(Tokens(text)[k]) && '?' !in Tokens(text)[k] && '.' !in Tokens(text)[k]
    ensures |Words(text)| <= |Tokens(text)| <= 2 * |Words(text)|
    ensures Concat(Tokens(text)) == Visible(Py, Remove(Remove(text, '?'), '.'))
  {
    var n := Normalize(text);
    WordsProperties(text);
    PiecesAreWords(Words(text));
    PiecesProperties(Words(text));
    FieldsKeepVisible(Py, Remove(Remove(n, '?'), '.'));
    VisibleRemove(Py, Remove(n, '?'), '.');
    VisibleRemove(Py, n, '?');
    VisibleRemove(Py, Remove(text, '?'), '.');
    VisibleRemove(Py, text, '?');
  }

  // ---------------------------------------------------------------------
  // encode and decode

  /** `self.vocab.get(t, 0)`. */
  function Id(t: string): int {
    if t in Vocab then Vocab[t] else 0
  }

  /** `[self.vocab.get(t, 0) for t in tokens]`. */
  function Ids(tokens: seq<string>): (ids: seq<int>)
    ensures |ids| == |tokens|
    ensures forall i :: 0 <= i < |ids| ==> ids[i] == Id(tokens[i])
  {
    seq(|tokens|, i requires 0 <= i < |tokens| => Id(tokens[i]))
  }

  /** The eight ids `encode` returns for a token list: the tokens' ids,
      padded with 0 or cut off after the eighth. */
  function Encoded(tokens: seq<string>): (ids: seq<int>)
    ensures |ids| == EncodedLength
    ensures forall i :: 0 <= i < EncodedLength ==>
              ids[i] == (if i < |tokens| then Id(tokens[i]) else 0)
  {
    var ids := Ids(tokens);
    var padded := if |ids| < EncodedLength then ids + seq(EncodedLength - |ids|, _ => 0) else ids;
    padded[..EncodedLength]
  }

  /** `encode`: the token ids, extended in place with zeros when there are
      fewer than eight, then cut to eight. */
  method Encode(text: string) returns (ids: seq<int>)
    ensures ids == Encoded(Tokens(text))
  {
    var tokens := Tokenize(text);
    ids := Ids(tokens);
    if |ids| < EncodedLength {
      ids := ids + seq(EncodedLength - |ids|, _ => 0);
    }
    ids := ids[..EncodedLength];
  }

  /** `self.inv_vocab.get(i, "[UNK]")`. */
  function Word(i: int): string {
    if i in InvVocab then InvVocab[i] else Unk
  }

  /** `[self.inv_vocab.get(i, "[UNK]") for i in ids if i != 0]`. */
  function DecodedWords(ids: seq<int>): (ws: seq<string>)
    ensures |ws| == |NonZero(ids)|
    ensures forall k :: 0 <= k < |ws| ==> ws[k] == Word(NonZero(ids)[k])
    decreases |ids|
  {
    if ids == [] then []
    else (if ids[0] != 0 then [Word(ids[0])] else []) + DecodedWords(ids[1..])
  }

  /** Every word an id decodes to is a word of `split()`. */
  lemma DecodedWordsAreWords(i: int)
    ensures IsWord(Word(i))
  {
    var w := Word(i);
    assert w in {"तुम्ही", "कसे", "आहात", "काय", "आहे", "चल", "यार", "पहा", "बघ", "माझे", "[UNK]"};
    assert forall k :: 0 <= k < |w| ==> !IsPySpace(w[k]);
  }

  /** `decode`: the words joined with single spaces, so that `split()`
      gives them back. */
  function Decode(ids: seq<int>): (r: string)
    ensures Split(r) == DecodedWords(ids)
  {
    var ws := DecodedWords(ids);
    forall k | 0 <= k < |ws|
      ensures IsWord(ws[k])
    {
      DecodedWordsAreWords(NonZero(ids)[k]);
    }
    SplitJoin(ws);
    Join(" ", ws)
  }

  /** Zeros decode to nothing: padding never shows in the text. */
  lemma {:induction false} ZerosDecodeToNothing(ids: seq<int>)
    requires forall k :: 0 <= k < |ids| ==> ids[k] == 0
    ensures NonZero(ids) == [] && Decode(ids) == ""
    decreases |ids|
  {
    if ids != [] {
      ZerosDecodeToNothing(ids[1..]);
    }
  }

  /** The round trip: when the text has at most eight tokens, all in the
      vocabulary and none of them "[UNK]", decoding its encoding gives the
      tokens joined with single spaces. */
  lemma RoundTrip(text: string)
    requires |Tokens(text)| <= EncodedLength
    requires forall k :: 0 <= k < |Tokens(text)| ==> Tokens(text)[k] in Vocab && Tokens(text)[k] != Unk
    ensures Decode(Encoded(Tokens(text))) == Join(" ", Tokens(text))
  {
    RoundTripTokens(Tokens(text));
  }

  lemma RoundTripTokens(tokens: seq<string>)
    requires |tokens| <= EncodedLength
    requires forall k :: 0 <= k < |tokens| ==> tokens[k] in Vocab && tokens[k] != Unk
    ensures DecodedWords(Encoded(tokens)) == tokens
  {
    var ids := Ids(tokens);
    var pad := seq(EncodedLength - |ids|, _ => 0);
    assert Encoded(tokens) == ids + pad;
    KnownIdsDecode(tokens);
    NonZeroAppend(ids, pad);
    ZerosDecodeToNothing(pad);
    assert NonZero(ids + pad) == NonZero(ids);
    var ws, vs := DecodedWords(ids + pad), DecodedWords(ids);
    assert |ws| == |vs|;
    assert forall k :: 0 <= k < |ws| ==> ws[k] == vs[k];
  }

  /** Ids of known tokens other than "[UNK]" are non-zero and decode back. */
  lemma KnownIdsDecode(tokens: seq<string>)
    requires forall k :: 0 <= k < |tokens| ==> tokens[k] in Vocab && tokens[k] != Unk
    ensures NonZero(Ids(tokens)) == Ids(tokens)
    ensures DecodedWords(Ids(tokens)) == tokens
  {
    VocabInverse();
    var ids := Ids(tokens);
    assert forall k :: 0 <= k < |ids| ==> ids[k] != 0;
  }
}
