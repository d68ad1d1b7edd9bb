/**
 * Text helpers shared by the TypeScript rule engine and the Python demo
 * tools: the two languages' notions of whitespace, collapsing whitespace
 * runs, trimming, splitting on whitespace, joining, removing or replacing
 * a character, substring search, and dropping the zero ids of an id list.
 */
module Strings {

  /** Whose definition of "whitespace" applies. */
  datatype Flavour = Js | Py

  /** ECMAScript WhiteSpace and LineTerminator: what the regex class `\s`
      matches and what `String.prototype.trim` removes. */
  predicate IsJsSpace(c: char) {
    c == '\t' || c == '\n' || c == '\U{000B}' || c == '\U{000C}' || c == '\r' || c == ' '
    || c == '\U{00A0}' || c == '\U{1680}' || ('\U{2000}' <= c <= '\U{200A}')
    || c == '\U{2028}' || c == '\U{2029}' || c == '\U{202F}' || c == '\U{205F}'
    || c == '\U{3000}' || c == '\U{FEFF}'
  }

  /** Python's `str.isspace`: what `str.strip()`, `str.split()` and the
      `re` class `\s` (on `str` patterns) use. */
  predicate IsPySpace(c: char) {
    ('\t' <= c <= '\r') || ('\U{001C}' <= c <= '\U{001F}') || c == ' '
    || c == '\U{0085}' || c == '\U{00A0}' || c == '\U{1680}' || ('\U{2000}' <= c <= '\U{200A}')
    || c == '\U{2028}' || c == '\U{2029}' || c == '\U{202F}' || c == '\U{205F}' || c == '\U{3000}'
  }

  predicate IsSpace(f: Flavour, c: char) {
    match f
    case Js => IsJsSpace(c)
    case Py => IsPySpace(c)
  }

  /** Leading whitespace removed (`trimStart`, `lstrip`). */
  function DropSpaces(f: Flavour, s: string): (r: string)
    ensures |r| <= |s| && r == s[|s| - |r|..]
    ensures r == [] || !IsSpace(f, r[0])
    ensures forall i :: 0 <= i < |s| - |r| ==> IsSpace(f, s[i])
  {
    if s != [] && IsSpace(f, s[0]) then DropSpaces(f, s[1..]) else s
  }

  /** Trailing whitespace removed (`trimEnd`, `rstrip`). */
  function DropTrailingSpaces(f: Flavour, s: string): (r: string)
    ensures |r| <= |s| && r == s[..|r|]
    ensures r == [] || !IsSpace(f, r[|r| - 1])
    ensures forall i :: |r| <= i < |s| ==> IsSpace(f, s[i])
  {
    if s != [] && IsSpace(f, s[|s| - 1]) then DropTrailingSpaces(f, s[..|s| - 1]) else s
  }

  /** `trim()` / `strip()`. */
  function Strip(f: Flavour, s: string): string {
    DropTrailingSpaces(f, DropSpaces(f, s))
  }

  /** Every maximal run of whitespace replaced by a single ' ': JavaScript
      `s.replace(/\s+/g, ' ')`, Python `re.sub(r"\s+", " ", s)`. */
  function Collapse(f: Flavour, s: string): string
    decreases |s|
  {
    if s == [] then []
    else if IsSpace(f, s[0]) then [' '] + Collapse(f, DropSpaces(f, s))
    else [s[0]] + Collapse(f, s[1..])
  }

  /** JavaScript `s.replace(/\s+/g, ' ').trim()`. */
  function JsNormalize(s: string): string {
    Strip(Js, Collapse(Js, s))
  }

  /** Python `re.sub(r"\s+", " ", s.strip())`. */
  function PyNormalize(s: string): string {
    Collapse(Py, Strip(Py, s))
  }

  /** The only whitespace is ' ', and never two whitespace characters in a row. */
  ghost predicate SingleSpaced(f: Flavour, s: string) {
    forall i :: 0 <= i < |s| && IsSpace(f, s[i]) ==>
      s[i] == ' ' && (i + 1 < |s| ==> !IsSpace(f, s[i + 1]))
  }

  /** Single-spaced with no leading or trailing whitespace. */
  ghost predicate IsNormal(f: Flavour, s: string) {
    SingleSpaced(f, s) && (s != [] ==> !IsSpace(f, s[0]) && !IsSpace(f, s[|s| - 1]))
  }

  /** The characters of `s` that are not whitespace, in order. */
  function Visible(f: Flavour, s: string): string
    decreases |s|
  {
    if s == [] then []
    else (if IsSpace(f, s[0]) then [] else [s[0]]) + Visible(f, s[1..])
  }

  /** A collapsed text is single-spaced and keeps the first character when
      that is not whitespace. */
  lemma {:induction false} CollapseIsSingleSpaced(f: Flavour, s: string)
    ensures SingleSpaced(f, Collapse(f, s))
    ensures s != [] ==>
              Collapse(f, s) != [] && Collapse(f, s)[0] == (if IsSpace(f, s[0]) then ' ' else s[0])
    decreases |s|
  {
    if s == [] {
    } else if IsSpace(f, s[0]) {
      var d := DropSpaces(f, s);
      CollapseIsSingleSpaced(f, d);
      var r := Collapse(f, s);
      assert r == [' '] + Collapse(f, d);
      forall i | 0 <= i < |r| && IsSpace(f, r[i])
        ensures r[i] == ' ' && (i + 1 < |r| ==> !IsSpace(f, r[i + 1]))
      {
        if i > 0 {
          assert r[i] == Collapse(f, d)[i - 1];
        } else if 1 < |r| {
          assert d != [] && r[1] == d[0];
        }
      }
    } else {
      CollapseIsSingleSpaced(f, s[1..]);
      var r := Collapse(f, s);
      assert r == [s[0]] + Collapse(f, s[1..]);
      forall i | 0 <= i < |r| && IsSpace(f, r[i])
        ensures r[i] == ' ' && (i + 1 < |r| ==> !IsSpace(f, r[i + 1]))
      {
        assert i > 0;
        assert r[i] == Collapse(f, s[1..])[i - 1];
      }
    }
  }

  /** Collapsing keeps a last character that is not whitespace. */
  lemma {:induction false} CollapseKeepsLast(f: Flavour, s: string)
    requires s != [] && !IsSpace(f, s[|s| - 1])
    ensures Collapse(f, s) != [] && Collapse(f, s)[|Collapse(f, s)| - 1] == s[|s| - 1]
    decreases |s|
  {
    var last := s[|s| - 1];
    if IsSpace(f, s[0]) {
      var d := DropSpaces(f, s);
      assert d != [] && d[|d| - 1] == last;
      CollapseKeepsLast(f, d);
      assert Collapse(f, s) == [' '] + Collapse(f, d);
    } else if |s| > 1 {
      var t := s[1..];
      assert t[|t| - 1] == last;
      CollapseKeepsLast(f, t);
      assert Collapse(f, s) == [s[0]] + Collapse(f, t);
    } else {
      assert Collapse(f, s) == [s[0]] + Collapse(f, []);
    }
  }

  lemma SliceIsSingleSpaced(f: Flavour, s: string, a: nat, b: nat)
    requires a <= b <= |s| && SingleSpaced(f, s)
    ensures SingleSpaced(f, s[a..b])
  {
    var t := s[a..b];
    forall i | 0 <= i < |t| && IsSpace(f, t[i])
      ensures t[i] == ' ' && (i + 1 < |t| ==> !IsSpace(f, t[i + 1]))
    {
      assert t[i] == s[a + i];
      if i + 1 < |t| { assert t[i + 1] == s[a + i + 1]; }
    }
  }

  /** Stripping yields no leading or trailing whitespace and keeps single spacing. */
  lemma StripIsNormal(f: Flavour, s: string)
    requires SingleSpaced(f, s)
    ensures IsNormal(f, Strip(f, s))
  {
    var d := DropSpaces(f, s);
    SliceIsSingleSpaced(f, s, |s| - |d|, |s|);
    var r := DropTrailingSpaces(f, d);
    SliceIsSingleSpaced(f, d, 0, |r|);
    if r != [] {
      assert r[0] == d[0];
    }
  }

  /** The JavaScript normalisation `replace(/\s+/g, ' ').trim()` leaves
      single-spaced text with no leading or trailing whitespace. */
  lemma JsNormalizeIsNormal(s: string)
    ensures IsNormal(Js, JsNormalize(s))
  {
    CollapseIsSingleSpaced(Js, s);
    StripIsNormal(Js, Collapse(Js, s));
  }

  /** The Python normalisation `re.sub(r"\s+", " ", s.strip())` leaves
      single-spaced text with no leading or trailing whitespace. */
  lemma PyNormalizeIsNormal(s: string)
    ensures IsNormal(Py, PyNormalize(s))
  {
    var t := Strip(Py, s);
    CollapseIsSingleSpaced(Py, t);
    if t != [] {
      var d := DropSpaces(Py, s);
      assert t[0] == d[0];
      CollapseKeepsLast(Py, t);
    }
  }

  /** Text that is already single-spaced is left alone by collapsing. */
  lemma {:induction false} CollapseFixesSingleSpaced(f: Flavour, s: string)
    requires SingleSpaced(f, s)
    ensures Collapse(f, s) == s
    decreases |s|
  {
    if s != [] {
      SingleSpacedHead(f, s);
      CollapseFixesSingleSpaced(f, s[1..]);
      CollapseCons(f, s);
      assert s == [s[0]] + s[1..];
    }
  }

  /** A single-spaced text starts with a character that collapsing keeps,
      and its tail is single-spaced. */
  lemma SingleSpacedHead(f: Flavour, s: string)
    requires s != [] && SingleSpaced(f, s)
    ensures SingleSpaced(f, s[1..])
    ensures !IsSpace(f, s[0]) || (s[0] == ' ' && (|s| == 1 || !IsSpace(f, s[1])))
  {
    SliceIsSingleSpaced(f, s, 1, |s|);
  }

  /** Collapsing passes over a first character that is not whitespace, or
      is a lone ' '. */
  lemma CollapseCons(f: Flavour, s: string)
    requires s != []
    requires !IsSpace(f, s[0]) || (s[0] == ' ' && (|s| == 1 || !IsSpace(f, s[1])))
    ensures Collapse(f, s) == [s[0]] + Collapse(f, s[1..])
  {
    if IsSpace(f, s[0]) {
      assert DropSpaces(f, s) == DropSpaces(f, s[1..]);
    }
  }

  /** Normal text is a fixed point of both normalisations. */
  lemma NormalIsFixed(f: Flavour, s: string)
    requires IsNormal(f, s)
    ensures Collapse(f, s) == s && Strip(f, s) == s
  {
    CollapseFixesSingleSpaced(f, s);
  }

  /** Normalising twice is normalising once (JavaScript). */
  lemma JsNormalizeIdempotent(s: string)
    ensures JsNormalize(JsNormalize(s)) == JsNormalize(s)
  {
    JsNormalizeIsNormal(s);
    NormalIsFixed(Js, JsNormalize(s));
  }

  /** Normalising twice is normalising once (Python). */
  lemma PyNormalizeIdempotent(s: string)
    ensures PyNormalize(PyNormalize(s)) == PyNormalize(s)
  {
    PyNormalizeIsNormal(s);
    NormalIsFixed(Py, PyNormalize(s));
  }

  lemma {:induction false} VisibleAppend(f: Flavour, a: string, b: string)
    ensures Visible(f, a + b) == Visible(f, a) + Visible(f, b)
    decreases |a|
  {
    if a == [] {
      assert a + b == b;
    } else {
      assert (a + b)[0] == a[0] && (a + b)[1..] == a[1..] + b;
      VisibleAppend(f, a[1..], b);
    }
  }

  lemma {:induction false} VisibleOfSpaces(f: Flavour, s: string)
    requires forall i :: 0 <= i < |s| ==> IsSpace(f, s[i])
    ensures Visible(f, s) == []
    decreases |s|
  {
    if s != [] { VisibleOfSpaces(f, s[1..]); }
  }

  /** Collapsing changes whitespace only. */
  lemma {:induction false} CollapseKeepsVisible(f: Flavour, s: string)
    ensures Visible(f, Collapse(f, s)) == Visible(f, s)
    decreases |s|
  {
    if s != [] {
      if IsSpace(f, s[0]) {
        var d := DropSpaces(f, s);
        CollapseKeepsVisible(f, d);
        VisibleAppend(f, [' '], Collapse(f, d));
        assert s == s[..|s| - |d|] + d;
        VisibleAppend(f, s[..|s| - |d|], d);
        VisibleOfSpaces(f, s[..|s| - |d|]);
      } else {
        CollapseKeepsVisible(f, s[1..]);
        VisibleAppend(f, [s[0]], Collapse(f, s[1..]));
      }
    }
  }

  lemma DropSpacesKeepsVisible(f: Flavour, s: string)
    ensures Visible(f, DropSpaces(f, s)) == Visible(f, s)
  {
    var d := DropSpaces(f, s);
    var p := s[..|s| - |d|];
    assert s == p + d;
    VisibleAppend(f, p, d);
    VisibleOfSpaces(f, p);
  }

  lemma DropTrailingSpacesKeepsVisible(f: Flavour, s: string)
    ensures Visible(f, DropTrailingSpaces(f, s)) == Visible(f, s)
  {
    var r := DropTrailingSpaces(f, s);
    var q := s[|r|..];
    assert s == r + q;
    VisibleAppend(f, r, q);
    VisibleOfSpaces(f, q);
  }

  /** Stripping changes whitespace only. */
  lemma StripKeepsVisible(f: Flavour, s: string)
    ensures Visible(f, Strip(f, s)) == Visible(f, s)
  {
    DropSpacesKeepsVisible(f, s);
    DropTrailingSpacesKeepsVisible(f, DropSpaces(f, s));
  }

  /** Both normalisations change whitespace only: the non-whitespace
      characters are kept, in order. */
  lemma NormalizeKeepsVisible(s: string)
    ensures Visible(Js, JsNormalize(s)) == Visible(Js, s)
    ensures Visible(Py, PyNormalize(s)) == Visible(Py, s)
  {
    CollapseKeepsVisible(Js, s);
    StripKeepsVisible(Js, Collapse(Js, s));
    StripKeepsVisible(Py, s);
    CollapseKeepsVisible(Py, Strip(Py, s));
  }

  /** A non-empty run of characters none of which is Python whitespace. */
  ghost predicate IsWord(w: string) {
    w != [] && forall i :: 0 <= i < |w| ==> !IsPySpace(w[i])
  }

  /** No character of `w` is whitespace. */
  ghost predicate NoSpace(f: Flavour, w: string) {
    forall i :: 0 <= i < |w| ==> !IsSpace(f, w[i])
  }

  /** Every character of `s` is whitespace. */
  ghost predicate AllSpace(f: Flavour, s: string) {
    forall i :: 0 <= i < |s| ==> IsSpace(f, s[i])
  }

  /** The longest prefix of `s` without whitespace. */
  function TakeWord(f: Flavour, s: string): (r: string)
    ensures |r| <= |s| && r == s[..|r|]
    ensures NoSpace(f, r)
    ensures |r| < |s| ==> IsSpace(f, s[|r|])
  {
    if s == [] || IsSpace(f, s[0]) then [] else [s[0]] + TakeWord(f, s[1..])
  }

  /** The maximal runs of non-whitespace characters, in order. */
  function Fields(f: Flavour, s: string): seq<string>
    decreases |s|
  {
    var u := DropSpaces(f, s);
    if u == [] then []
    else
      var w := TakeWord(f, u);
      [w] + Fields(f, u[|w|..])
  }

  /** Every field is non-empty and holds no whitespace. */
  lemma {:induction false} FieldsAreWords(f: Flavour, s: string)
    ensures forall k :: 0 <= k < |Fields(f, s)| ==> Fields(f, s)[k] != [] && NoSpace(f, Fields(f, s)[k])
    decreases |s|
  {
    var u := DropSpaces(f, s);
    if u != [] {
      var w := TakeWord(f, u);
      FieldsAreWords(f, u[|w|..]);
      var ws := Fields(f, s);
      assert ws == [w] + Fields(f, u[|w|..]);
      forall k | 0 <= k < |ws|
        ensures ws[k] != [] && NoSpace(f, ws[k])
      {
        if k > 0 { assert ws[k] == Fields(f, u[|w|..])[k - 1]; }
      }
    }
  }

  /** Python `s.split()`: the fields of Python whitespace. Where the words
      break is fixed by `FieldsJoin` and `NormalizeIsJoinedFields`. */
  function Split(s: string): (ws: seq<string>)
    ensures forall k :: 0 <= k < |ws| ==> IsWord(ws[k])
  {
    FieldsAreWords(Py, s);
    Fields(Py, s)
  }

  /** The words run together: `"".join(ws)`. */
  function Concat(ws: seq<string>): string
    decreases |ws|
  {
    if ws == [] then [] else ws[0] + Concat(ws[1..])
  }

  lemma {:induction false} ConcatAppend(a: seq<string>, b: seq<string>)
    ensures Concat(a + b) == Concat(a) + Concat(b)
    decreases |a|
  {
    if a == [] {
      assert a + b == b;
    } else {
      assert (a + b)[0] == a[0] && (a + b)[1..] == a[1..] + b;
      ConcatAppend(a[1..], b);
    }
  }

  /** Every character of every word is a character of the concatenation. */
  lemma {:induction false} ConcatHasWordChars(ws: seq<string>, k: nat, i: nat)
    requires k < |ws| && i < |ws[k]|
    ensures ws[k][i] in Concat(ws)
    decreases k
  {
    if k == 0 {
      assert Concat(ws)[i] == ws[0][i];
    } else {
      ConcatHasWordChars(ws[1..], k - 1, i);
      assert Concat(ws) == ws[0] + Concat(ws[1..]);
    }
  }

  lemma {:induction false} VisibleChars(f: Flavour, s: string, c: char)
    requires c in Visible(f, s)
    ensures c in s && !IsSpace(f, c)
    decreases |s|
  {
    if s != [] && c !in (if IsSpace(f, s[0]) then [] else [s[0]]) {
      VisibleChars(f, s[1..], c);
    }
  }

  lemma {:induction false} VisibleOfNoSpace(f: Flavour, w: string)
    requires NoSpace(f, w)
    ensures Visible(f, w) == w
    decreases |w|
  {
    if w != [] {
      VisibleOfNoSpace(f, w[1..]);
    }
  }

  /** Splitting keeps exactly the non-whitespace characters, in order: the
      fields run together are the text with its whitespace removed. */
  lemma {:induction false} FieldsKeepVisible(f: Flavour, s: string)
    ensures Concat(Fields(f, s)) == Visible(f, s)
    decreases |s|
  {
    var u := DropSpaces(f, s);
    DropSpacesKeepsVisible(f, s);
    if u != [] {
      var w := TakeWord(f, u);
      var rest := u[|w|..];
      assert u == w + rest;
      VisibleAppend(f, w, rest);
      VisibleOfNoSpace(f, w);
      FieldsKeepVisible(f, rest);
      assert Fields(f, s) == [w] + Fields(f, rest);
    } else {
      assert Visible(f, u) == [];
    }
  }

  /** Every character of every word of `Split(s)` occurs in `s`. */
  lemma SplitWordChars(s: string, k: nat, i: nat)
    requires k < |Split(s)| && i < |Split(s)[k]|
    ensures Split(s)[k][i] in s
  {
    ConcatHasWordChars(Split(s), k, i);
    FieldsKeepVisible(Py, s);
    VisibleChars(Py, s, Split(s)[k][i]);
  }

  /** Python `sep.join(ws)`. */
  function Join(sep: string, ws: seq<string>): string
    decreases |ws|
  {
    if ws == [] then [] else if |ws| == 1 then ws[0] else ws[0] + sep + Join(sep, ws[1..])
  }

  // ---------------------------------------------------------------------
  // Where whitespace goes: normalising is joining the fields

  lemma {:induction false} DropSpacesOfAllSpace(f: Flavour, s: string)
    requires AllSpace(f, s)
    ensures DropSpaces(f, s) == []
    decreases |s|
  {
    if s != [] {
      DropSpacesOfAllSpace(f, s[1..]);
    }
  }

  /** Leading whitespace removed from `p + t` leaves `t`, when `p` is all
      whitespace and `t` starts with a character that is not. */
  lemma {:induction false} DropSpacesAfter(f: Flavour, p: string, t: string)
    requires AllSpace(f, p) && t != [] && !IsSpace(f, t[0])
    ensures DropSpaces(f, p + t) == t
    decreases |p|
  {
    if p == [] {
      assert p + t == t;
    } else {
      assert (p + t)[0] == p[0] && (p + t)[1..] == p[1..] + t;
      DropSpacesAfter(f, p[1..], t);
    }
  }

  /** Trailing whitespace removed from `t + q` leaves `t`, when `q` is all
      whitespace and `t` ends with a character that is not. */
  lemma {:induction false} DropTrailingBefore(f: Flavour, t: string, q: string)
    requires AllSpace(f, q) && t != [] && !IsSpace(f, t[|t| - 1])
    ensures DropTrailingSpaces(f, t + q) == t
    decreases |q|
  {
    if q == [] {
      assert t + q == t;
    } else {
      var s := t + q;
      var q' := q[..|q| - 1];
      assert s[|s| - 1] == q[|q| - 1] && s[..|s| - 1] == t + q';
      DropTrailingBefore(f, t, q');
    }
  }

  /** Stripping `p + j + q` gives `j` when `p` and `q` are whitespace and
      `j` neither starts nor ends with whitespace. */
  lemma StripPadded(f: Flavour, p: string, j: string, q: string)
    requires AllSpace(f, p) && AllSpace(f, q)
    requires j == [] || (!IsSpace(f, j[0]) && !IsSpace(f, j[|j| - 1]))
    ensures Strip(f, p + j + q) == j
  {
    if j == [] {
      assert p + j + q == p + q;
      DropSpacesOfAllSpace(f, p + q);
    } else {
      assert p + j + q == p + (j + q);
      DropSpacesAfter(f, p, j + q);
      DropTrailingBefore(f, j, q);
    }
  }

  /** Text with no leading whitespace has the fields of the text. */
  lemma FieldsDropSpaces(f: Flavour, s: string)
    ensures Fields(f, DropSpaces(f, s)) == Fields(f, s)
  {
    var d := DropSpaces(f, s);
    assert DropSpaces(f, d) == d;
  }

  /** The word at the start of `w + t`, when `t` is empty or starts with
      whitespace, is `w`. */
  lemma {:induction false} TakeWordOf(f: Flavour, w: string, t: string)
    requires NoSpace(f, w) && (t == [] || IsSpace(f, t[0]))
    ensures TakeWord(f, w + t) == w
    decreases |w|
  {
    if w == [] {
      assert w + t == t;
    } else {
      var s := w + t;
      assert s[0] == w[0] && s[1..] == w[1..] + t;
      TakeWordOf(f, w[1..], t);
      assert w == [w[0]] + w[1..];
    }
  }

  /** A word followed by whitespace or by nothing is the first field. */
  lemma FieldsCons(f: Flavour, w: string, t: string)
    requires w != [] && NoSpace(f, w) && (t == [] || IsSpace(f, t[0]))
    ensures Fields(f, w + t) == [w] + Fields(f, t)
  {
    var s := w + t;
    assert s[0] == w[0];
    assert DropSpaces(f, s) == s;
    TakeWordOf(f, w, t);
    assert s[|w|..] == t;
  }

  /** A space in front adds no field. */
  lemma FieldsAfterSpace(f: Flavour, t: string)
    ensures Fields(f, " " + t) == Fields(f, t)
  {
    assert (" " + t)[0] == ' ' && (" " + t)[1..] == t;
    assert DropSpaces(f, " " + t) == DropSpaces(f, t);
    FieldsDropSpaces(f, " " + t);
    FieldsDropSpaces(f, t);
  }

  lemma JoinCons(ws: seq<string>)
    requires |ws| > 1
    ensures Join(" ", ws) == ws[0] + (" " + Join(" ", ws[1..]))
  {
  }

  /** Splitting words joined with single spaces gives the words back. */
  lemma {:induction false} FieldsJoin(f: Flavour, ws: seq<string>)
    requires forall k :: 0 <= k < |ws| ==> ws[k] != [] && NoSpace(f, ws[k])
    ensures Fields(f, Join(" ", ws)) == ws
    decreases |ws|
  {
    if |ws| == 1 {
      FieldsCons(f, ws[0], []);
      assert ws[0] + [] == ws[0];
    } else if |ws| > 1 {
      var rest := Join(" ", ws[1..]);
      FieldsJoin(f, ws[1..]);
      JoinCons(ws);
      FieldsCons(f, ws[0], " " + rest);
      FieldsAfterSpace(f, rest);
      assert ws == [ws[0]] + ws[1..];
    }
  }

  /** Words joined with single spaces neither start nor end with whitespace. */
  lemma {:induction false} JoinEnds(f: Flavour, ws: seq<string>)
    requires ws != [] && forall k :: 0 <= k < |ws| ==> ws[k] != [] && NoSpace(f, ws[k])
    ensures Join(" ", ws) != []
    ensures !IsSpace(f, Join(" ", ws)[0]) && !IsSpace(f, Join(" ", ws)[|Join(" ", ws)| - 1])
    decreases |ws|
  {
    if |ws| > 1 {
      JoinEnds(f, ws[1..]);
      var rest := Join(" ", ws[1..]);
      var j := ws[0] + " " + rest;
      assert j[0] == ws[0][0];
      assert j[|j| - 1] == rest[|rest| - 1];
    }
  }

  /** Collapsing a word and what follows keeps the word. */
  lemma {:induction false} CollapseWord(f: Flavour, w: string, t: string)
    requires NoSpace(f, w)
    ensures Collapse(f, w + t) == w + Collapse(f, t)
    decreases |w|
  {
    if w == [] {
      assert w + t == t;
    } else {
      HeadOfAppend(w, t, Collapse(f, t));
      CollapseWord(f, w[1..], t);
    }
  }

  /** How `w + t` comes apart at its first character. */
  lemma HeadOfAppend(w: string, t: string, c: string)
    requires w != []
    ensures (w + t)[0] == w[0] && (w + t)[1..] == w[1..] + t
    ensures [w[0]] + (w[1..] + c) == w + c
  {
    assert w == [w[0]] + w[1..];
  }

  /** The single ' ' that `Collapse` leaves at the end of text ending in
      whitespace. */
  function EndGap(f: Flavour, s: string): string {
    if s != [] && IsSpace(f, s[|s| - 1]) then " " else []
  }

  /** The single ' ' that `Collapse` leaves at the start of text starting
      with whitespace. */
  function StartGap(f: Flavour, s: string): string {
    if s != [] && IsSpace(f, s[0]) then " " else []
  }

  /** A leading whitespace run collapses to one ' '. */
  lemma CollapseLeading(f: Flavour, s: string)
    ensures Collapse(f, s) == StartGap(f, s) + Collapse(f, DropSpaces(f, s))
  {
    if !(s != [] && IsSpace(f, s[0])) {
      assert DropSpaces(f, s) == s;
    }
  }

  /** Text starting with a non-space character is its first word followed
      by text that is empty or starts with whitespace. */
  lemma WordSplit(f: Flavour, d: string)
    requires d != [] && !IsSpace(f, d[0])
    ensures TakeWord(f, d) != []
    ensures d == TakeWord(f, d) + d[|TakeWord(f, d)|..]
    ensures d[|TakeWord(f, d)|..] == [] ==> TakeWord(f, d) == d
    ensures d[|TakeWord(f, d)|..] == [] || IsSpace(f, d[|TakeWord(f, d)|..][0])
  {
    var w := TakeWord(f, d);
    var e := d[|w|..];
    assert d == d[..|w|] + e;
    if e != [] {
      assert e[0] == d[|w|];
    }
  }

  /** Text starting with a non-space character has that word as its first
      field. */
  lemma FieldsStart(f: Flavour, d: string)
    requires d != [] && !IsSpace(f, d[0])
    ensures Fields(f, d) == [TakeWord(f, d)] + Fields(f, d[|TakeWord(f, d)|..])
  {
    assert DropSpaces(f, d) == d;
  }

  lemma AppendAssoc(a: string, b: string, c: string)
    ensures a + b + c == a + (b + c)
  {
  }

  /** A single word collapses to itself and is its own join. */
  lemma CollapseOneWord(f: Flavour, w: string)
    requires w != [] && NoSpace(f, w)
    ensures Collapse(f, w) == Join(" ", [w]) + EndGap(f, w)
  {
    CollapseWord(f, w, []);
    assert w + [] == w;
  }

  /** A non-empty whitespace run collapses to one ' '. */
  lemma CollapseBlank(f: Flavour, t: string)
    requires t != [] && AllSpace(f, t)
    ensures Collapse(f, t) == " " && EndGap(f, t) == " "
  {
    DropSpacesOfAllSpace(f, t);
  }

  /** A word followed by a whitespace run and nothing else. */
  lemma CollapseWordGap(f: Flavour, w: string, rest: string)
    requires w != [] && NoSpace(f, w) && rest != [] && AllSpace(f, rest)
    ensures Collapse(f, w + rest) == Join(" ", [w]) + EndGap(f, w + rest)
  {
    CollapseWord(f, w, rest);
    CollapseBlank(f, rest);
    EndGapSuffix(f, w, rest);
  }

  /** Joining a word in front of non-empty words. */
  lemma JoinFront(w: string, fs: seq<string>)
    requires fs != []
    ensures Join(" ", [w] + fs) == w + (" " + Join(" ", fs))
  {
    JoinCons([w] + fs);
    assert ([w] + fs)[1..] == fs;
  }

  lemma Regroup(w: string, j: string, g: string)
    ensures w + (" " + (j + g)) == w + (" " + j) + g
  {
  }

  /** When `d` ends `u` and is not empty, both end alike. */
  lemma EndGapSuffix(f: Flavour, p: string, d: string)
    requires d != []
    ensures EndGap(f, p + d) == EndGap(f, d)
  {
    assert (p + d)[|p + d| - 1] == d[|d| - 1];
  }

  /** What `DropSpaces` leaves is a suffix. */
  lemma DropSpacesSuffix(f: Flavour, s: string)
    ensures s == s[..|s| - |DropSpaces(f, s)|] + DropSpaces(f, s)
  {
  }

  /** Text that `DropSpaces` empties is all whitespace. */
  lemma BlankIsAllSpace(f: Flavour, s: string)
    requires DropSpaces(f, s) == []
    ensures AllSpace(f, s)
  {
  }

  /** A word, a whitespace run, then more words. */
  lemma CollapseWordGapWords(f: Flavour, w: string, rest: string)
    requires w != [] && NoSpace(f, w) && rest != [] && IsSpace(f, rest[0])
    requires DropSpaces(f, rest) != [] && Fields(f, DropSpaces(f, rest)) != []
    requires Collapse(f, DropSpaces(f, rest)) == Join(" ", Fields(f, DropSpaces(f, rest))) + EndGap(f, DropSpaces(f, rest))
    ensures Collapse(f, w + rest) == Join(" ", [w] + Fields(f, DropSpaces(f, rest))) + EndGap(f, w + rest)
  {
    var d := DropSpaces(f, rest);
    var fs := Fields(f, d);
    CollapseWord(f, w, rest);
    CollapseLeading(f, rest);
    JoinFront(w, fs);
    Regroup(w, Join(" ", fs), EndGap(f, d));
    DropSpacesSuffix(f, rest);
    EndGapSuffix(f, rest[..|rest| - |d|], d);
    EndGapSuffix(f, w, rest);
  }

  /** The step of `CollapseByFields` past the first word. */
  lemma CollapseAfterWord(f: Flavour, w: string, rest: string)
    requires w != [] && NoSpace(f, w) && rest != [] && IsSpace(f, rest[0])
    requires Collapse(f, DropSpaces(f, rest)) == Join(" ", Fields(f, DropSpaces(f, rest))) + EndGap(f, DropSpaces(f, rest))
    ensures Collapse(f, w + rest) == Join(" ", [w] + Fields(f, rest)) + EndGap(f, w + rest)
  {
    var d := DropSpaces(f, rest);
    FieldsDropSpaces(f, rest);
    if d == [] {
      BlankIsAllSpace(f, rest);
      CollapseWordGap(f, w, rest);
      assert [w] + Fields(f, rest) == [w];
    } else {
      FieldsStart(f, d);
      CollapseWordGapWords(f, w, rest);
    }
  }

  /** On text without leading whitespace, collapsing gives the fields
      joined with single spaces, plus one space when the text ends with
      whitespace. */
  lemma {:induction false} CollapseByFields(f: Flavour, u: string)
    requires u == [] || !IsSpace(f, u[0])
    ensures Collapse(f, u) == Join(" ", Fields(f, u)) + EndGap(f, u)
    decreases |u|
  {
    if u != [] {
      WordSplit(f, u);
      FieldsStart(f, u);
      var w := TakeWord(f, u);
      var rest := u[|w|..];
      if rest == [] {
        CollapseOneWord(f, w);
      } else {
        CollapseByFields(f, DropSpaces(f, rest));
        CollapseAfterWord(f, w, rest);
      }
    }
  }

  /** Whitespace left where `DropSpaces` stops keeps going after it. */
  lemma {:induction false} DropSpacesAppend(f: Flavour, r: string, q: string)
    requires DropSpaces(f, r) != []
    ensures DropSpaces(f, r + q) == DropSpaces(f, r) + q
    decreases |r|
  {
    HeadOfAppend(r, q, []);
    if IsSpace(f, r[0]) {
      assert DropSpaces(f, r) == DropSpaces(f, r[1..]);
      DropSpacesAppend(f, r[1..], q);
      assert DropSpaces(f, r + q) == DropSpaces(f, r[1..] + q);
    } else {
      assert DropSpaces(f, r + q) == r + q;
    }
  }

  /** Whitespace after blank text is blank too. */
  lemma DropSpacesBlank(f: Flavour, r: string, q: string)
    requires DropSpaces(f, r) == [] && AllSpace(f, q)
    ensures DropSpaces(f, r + q) == []
  {
    BlankIsAllSpace(f, r);
    assert AllSpace(f, r + q);
    DropSpacesOfAllSpace(f, r + q);
  }

  /** A word in front of two texts with the same fields. */
  lemma FieldsConsBoth(f: Flavour, w: string, e: string, q: string)
    requires w != [] && NoSpace(f, w) && AllSpace(f, q) && (e == [] || IsSpace(f, e[0]))
    requires Fields(f, e + q) == Fields(f, e)
    ensures Fields(f, w + (e + q)) == Fields(f, w + e)
  {
    if e == [] {
      assert e + q == q;
    } else {
      assert (e + q)[0] == e[0];
    }
    FieldsCons(f, w, e);
    FieldsCons(f, w, e + q);
  }

  /** Extra whitespace at the end adds no field. */
  lemma {:induction false} FieldsTrailing(f: Flavour, r: string, q: string)
    requires AllSpace(f, q)
    ensures Fields(f, r + q) == Fields(f, r)
    decreases |r|
  {
    var d := DropSpaces(f, r);
    FieldsDropSpaces(f, r);
    FieldsDropSpaces(f, r + q);
    if d == [] {
      DropSpacesBlank(f, r, q);
    } else {
      DropSpacesAppend(f, r, q);
      WordSplit(f, d);
      var w := TakeWord(f, d);
      var e := d[|w|..];
      FieldsTrailing(f, e, q);
      AppendAssoc(w, e, q);
      FieldsConsBoth(f, w, e, q);
    }
  }

  /** `DropTrailingSpaces` cuts off a whitespace suffix. */
  lemma TrailingCut(f: Flavour, d: string)
    ensures d == DropTrailingSpaces(f, d) + d[|DropTrailingSpaces(f, d)|..]
    ensures AllSpace(f, d[|DropTrailingSpaces(f, d)|..])
  {
  }

  /** Stripping changes no field. */
  lemma FieldsStrip(f: Flavour, s: string)
    ensures Fields(f, Strip(f, s)) == Fields(f, s)
  {
    var d := DropSpaces(f, s);
    var r := DropTrailingSpaces(f, d);
    FieldsDropSpaces(f, s);
    TrailingCut(f, d);
    FieldsTrailing(f, r, d[|r|..]);
  }

  /** Both normalisations are the whitespace-separated fields joined with
      single spaces: every whitespace run inside the text becomes one ' ',
      the runs at either end disappear, and nothing else moves. This is
      Python's `" ".join(s.split())`. */
  lemma NormalizeIsJoinedFields(s: string)
    ensures JsNormalize(s) == Join(" ", Fields(Js, s))
    ensures PyNormalize(s) == Join(" ", Fields(Py, s))
  {
    CollapseThenStrip(Js, s);
    StripThenCollapse(Py, s);
  }

  /** The fields joined with single spaces neither start nor end with
      whitespace. */
  lemma JoinedFieldsEnds(f: Flavour, s: string)
    ensures var j := Join(" ", Fields(f, s));
      j == [] || (!IsSpace(f, j[0]) && !IsSpace(f, j[|j| - 1]))
  {
    FieldsAreWords(f, s);
    if Fields(f, s) != [] {
      JoinEnds(f, Fields(f, s));
    }
  }

  /** The gaps are whitespace. */
  lemma GapsAreSpace(f: Flavour, s: string)
    ensures AllSpace(f, StartGap(f, s)) && AllSpace(f, EndGap(f, s))
  {
  }

  /** Collapsing, then stripping, gives the joined fields. */
  lemma CollapseThenStrip(f: Flavour, s: string)
    ensures Strip(f, Collapse(f, s)) == Join(" ", Fields(f, s))
  {
    var d := DropSpaces(f, s);
    var j := Join(" ", Fields(f, d));
    FieldsDropSpaces(f, s);
    CollapseLeading(f, s);
    CollapseByFields(f, d);
    JoinedFieldsEnds(f, d);
    AppendAssoc(StartGap(f, s), j, EndGap(f, d));
    GapsAreSpace(f, s);
    GapsAreSpace(f, d);
    StripPadded(f, StartGap(f, s), j, EndGap(f, d));
  }

  lemma StripThenCollapse(f: Flavour, s: string)
    ensures Collapse(f, Strip(f, s)) == Join(" ", Fields(f, s))
  {
    var t := Strip(f, s);
    var d := DropSpaces(f, s);
    if t != [] {
      assert t[0] == d[0];
    }
    CollapseByFields(f, t);
    assert Collapse(f, t) == Join(" ", Fields(f, t)) + EndGap(f, t);
    assert EndGap(f, t) == [];
    FieldsStrip(f, s);
  }

  /** Normalising keeps the fields: `split()` of the normalised text is
      `split()` of the text. */
  lemma FieldsOfNormalized(s: string)
    ensures Fields(Js, JsNormalize(s)) == Fields(Js, s)
    ensures Split(PyNormalize(s)) == Split(s)
  {
    NormalizeIsJoinedFields(s);
    FieldsAreWords(Js, s);
    FieldsAreWords(Py, s);
    FieldsJoin(Js, Fields(Js, s));
    FieldsJoin(Py, Fields(Py, s));
  }

  /** `split()` undoes `" ".join` on words. */
  lemma SplitJoin(ws: seq<string>)
    requires forall k :: 0 <= k < |ws| ==> IsWord(ws[k])
    ensures Split(Join(" ", ws)) == ws
  {
    FieldsJoin(Py, ws);
  }

  /** Python `s.replace(c, '')`. */
  function Remove(s: string, c: char): (r: string)
    ensures |r| <= |s|
    ensures forall i :: 0 <= i < |r| ==> r[i] != c && r[i] in s
    ensures forall x :: x != c ==> multiset(r)[x] == multiset(s)[x]
    ensures c !in s ==> r == s
    decreases |s|
  {
    if s == [] then []
    else
      assert s == [s[0]] + s[1..];
      (if s[0] == c then [] else [s[0]]) + Remove(s[1..], c)
  }

  /** Removing from a concatenation removes from each part, so the kept
      characters stay in their order. */
  lemma {:induction false} RemoveAppend(a: string, b: string, c: char)
    ensures Remove(a + b, c) == Remove(a, c) + Remove(b, c)
    decreases |a|
  {
    if a == [] {
      assert a + b == b;
    } else {
      assert (a + b)[0] == a[0] && (a + b)[1..] == a[1..] + b;
      RemoveAppend(a[1..], b, c);
    }
  }

  /** Dropping whitespace and removing a character commute. */
  lemma {:induction false} VisibleRemove(f: Flavour, s: string, c: char)
    ensures Visible(f, Remove(s, c)) == Remove(Visible(f, s), c)
    decreases |s|
  {
    if s != [] {
      var kept: string := if s[0] == c then [] else [s[0]];
      var shown: string := if IsSpace(f, s[0]) then [] else [s[0]];
      VisibleRemove(f, s[1..], c);
      VisibleAppend(f, kept, Remove(s[1..], c));
      RemoveAppend(shown, Visible(f, s[1..]), c);
      assert Visible(f, kept) == Remove(shown, c);
    }
  }

  /** Python `s.replace(a, b)` for single characters. */
  function ReplaceChar(s: string, a: char, b: char): (r: string)
    ensures |r| == |s|
    ensures forall i :: 0 <= i < |s| ==> r[i] == if s[i] == a then b else s[i]
  {
    seq(|s|, i requires 0 <= i < |s| => if s[i] == a then b else s[i])
  }

  /** `sub` occurs in `s` starting at index `i`. */
  predicate OccursAt(s: string, sub: string, i: nat) {
    i + |sub| <= |s| && s[i..i + |sub|] == sub
  }

  /** Python `sub in s`. */
  predicate Contains(s: string, sub: string) {
    exists i :: 0 <= i <= |s| && OccursAt(s, sub, i)
  }

  function LowerChar(c: char): char {
    if 'A' <= c <= 'Z' then (c as int + 32) as char else c
  }

  /** Python `s.lower()`, for the ASCII letters only. */
  function AsciiLower(s: string): (r: string)
    ensures |r| == |s|
    ensures forall i :: 0 <= i < |s| && !('A' <= s[i] <= 'Z') ==> r[i] == s[i]
  {
    seq(|s|, i requires 0 <= i < |s| => LowerChar(s[i]))
  }

  // ---------------------------------------------------------------------
  // Id lists

  /** The ids other than 0, in order. */
  function NonZero(ids: seq<int>): (r: seq<int>)
    ensures |r| <= |ids|
    ensures forall k :: 0 <= k < |r| ==> r[k] != 0 && r[k] in ids
    ensures forall x :: x != 0 ==> multiset(r)[x] == multiset(ids)[x]
    ensures (forall k :: 0 <= k < |ids| ==> ids[k] != 0) ==> r == ids
    decreases |ids|
  {
    if ids == [] then []
    else
      assert ids == [ids[0]] + ids[1..];
      (if ids[0] != 0 then [ids[0]] else []) + NonZero(ids[1..])
  }

  lemma {:induction false} NonZeroAppend(a: seq<int>, b: seq<int>)
    ensures NonZero(a + b) == NonZero(a) + NonZero(b)
    decreases |a|
  {
    if a == [] {
      assert a + b == b;
    } else {
      assert (a + b)[0] == a[0] && (a + b)[1..] == a[1..] + b;
      NonZeroAppend(a[1..], b);
    }
  }
}
