/**
 * The dialect substitution engine: a static table of phrase replacements
 * per dialect, and `applyRules`, which rewrites a text rule by rule,
 * longest phrase first, matches a phrase only where it is not glued to
 * another Devanagari character, normalises whitespace after every rule that
 * fired and records each of those rules as "from → to".
 */
module Rules {
  import opened Strings
  import Languages

  /** One entry of a rule set: a phrase and its replacement ('' deletes). */
  datatype Rule = Rule(from: string, to: string)

  /** What `applyRules` returns. */
  datatype RuleResult = RuleResult(transformedText: string, appliedRules: seq<string>)

  const NagpurRules: seq<Rule> := [
    Rule("आहे", "हाय"), Rule("मला", "माले"), Rule("तुला", "तुले"),
    Rule("काय", "का"), Rule("कुठे", "कोठा"), Rule("नाही", "न्हाई")]

  const MalvaniRules: seq<Rule> := [
    Rule("आहे", "आसा"), Rule("मला", "माका"), Rule("तुला", "तुका"),
    Rule("काय", "काय"), Rule("कुठे", "खुय"), Rule("नाही", "नाय")]

  const AhiraniRules: seq<Rule> := [
    Rule("आहे", "शे"), Rule("मला", "माले"), Rule("काय", "काय"),
    Rule("कुठे", "कुथा"), Rule("नाही", "नाही")]

  const KolhapurRules: seq<Rule> := [
    Rule("तू काय करते आहेस", "काय कराय लागलीस"), Rule("तू", "")]

  /** The rule sets, keyed by every dialect except 'standard'; each rule set
      lists its entries in the table's own key order. */
  const Table: map<string, seq<Rule>> := map[
    "nagpur" := NagpurRules,
    "malvani" := MalvaniRules,
    "ahirani" := AhiraniRules,
    "kolhapur" := KolhapurRules,
    "pune" := [],
    "mumbai" := [],
    "agri" := [],
    "warli" := [],
    "thanjavur" := [],
    "koli" := [],
    "solapuri" := [],
    "marathwada" := [],
    "belgaum" := [],
    "dangii" := [],
    "pawra" := [],
    "gondi" := []
  ]

  /** The dialects whose rule set has no entries yet. */
  const EmptyRuleSetDialects: set<string> := {
    "pune", "mumbai", "agri", "warli", "thanjavur", "koli", "solapuri",
    "marathwada", "belgaum", "dangii", "pawra", "gondi"
  }

  /** Every phrase is non-empty and no phrase occurs twice in a rule set. */
  ghost predicate WellFormed(rs: seq<Rule>) {
    NonEmptyKeys(rs) && DistinctKeys(rs)
  }

  ghost predicate NonEmptyKeys(rs: seq<Rule>) {
    forall i :: 0 <= i < |rs| ==> rs[i].from != []
  }

  ghost predicate DistinctKeys(rs: seq<Rule>) {
    forall i, j :: 0 <= i < j < |rs| ==> rs[i].from != rs[j].from
  }

  /** The class `[ऀ-ॿ]`: the Devanagari block, which includes the
      danda and the Devanagari digits. */
  predicate IsDevanagari(c: char) {
    '\U{0900}' <= c <= '\U{097F}'
  }

  /** `k` occurs in `t` at index `i` and is not glued to a Devanagari
      character on either side: `(?<![ऀ-ॿ])k(?![ऀ-ॿ])`. */
  predicate MatchAt(t: string, k: string, i: nat) {
    && OccursAt(t, k, i)
    && (i == 0 || !IsDevanagari(t[i - 1]))
    && (i + |k| == |t| || !IsDevanagari(t[i + |k|]))
  }

  /** Some boundary-respecting occurrence of `k` starts at index `i` or later. */
  predicate MatchesFrom(t: string, k: string, i: nat)
    decreases |t| - i
  {
    i <= |t| && (MatchAt(t, k, i) || MatchesFrom(t, k, i + 1))
  }

  /** `regex.test(t)` for the boundary-respecting pattern of `k`. */
  predicate Matches(t: string, k: string) {
    MatchesFrom(t, k, 0)
  }

  /** `t.replace(regex, r)` with the global flag, from index `i` on: a
      left-to-right scan that replaces each boundary-respecting occurrence
      and resumes after it, so occurrences never overlap; the lookbehind and
      lookahead read `t`, the text before replacement. */
  function ReplaceFrom(t: string, k: string, r: string, i: nat): string
    requires k != [] && i <= |t|
    decreases |t| - i
  {
    if i == |t| then []
    else if MatchAt(t, k, i) then r + ReplaceFrom(t, k, r, i + |k|)
    else [t[i]] + ReplaceFrom(t, k, r, i + 1)
  }

  function ReplaceAll(t: string, k: string, r: string): string
    requires k != []
  {
    ReplaceFrom(t, k, r, 0)
  }

  /** Inserts `x` before the first element whose phrase is not longer than
      its own, so that it precedes every element of equal length. */
  function InsertByLength(x: Rule, s: seq<Rule>): seq<Rule>
  {
    if s == [] || |s[0].from| <= |x.from| then [x] + s
    else [s[0]] + InsertByLength(x, s[1..])
  }

  /** `keys.sort((a, b) => b.length - a.length)`: the stable sort by
      decreasing phrase length. */
  function SortByLength(rs: seq<Rule>): seq<Rule>
  {
    if rs == [] then [] else InsertByLength(rs[0], SortByLength(rs[1..]))
  }

  ghost predicate LongestFirst(rs: seq<Rule>) {
    forall i, j :: 0 <= i < j < |rs| ==> |rs[j].from| <= |rs[i].from|
  }

  /** The rules whose phrase has length `n`, in order. */
  function OfLength(rs: seq<Rule>, n: nat): seq<Rule>
    decreases |rs|
  {
    if rs == [] then []
    else (if |rs[0].from| == n then [rs[0]] else []) + OfLength(rs[1..], n)
  }

  /** The trace entry of a rule: `${from} → ${to}`. */
  function Render(r: Rule): string {
    r.from + " → " + r.to
  }

  function RenderAll(fired: seq<Rule>): (trace: seq<string>)
    ensures |trace| == |fired|
  {
    seq(|fired|, i requires 0 <= i < |fired| => Render(fired[i]))
  }

  /** The state of the pass: the current text and the rules fired so far. */
  datatype Pass = Pass(text: string, fired: seq<Rule>)

  /** The pass over `rs` in order, each rule tried on the text the earlier
      rules left: when its phrase matches, every match is replaced, the text
      is normalised and the rule is recorded; otherwise nothing happens. */
  function RunRules(t: string, rs: seq<Rule>): Pass
    requires NonEmptyKeys(rs)
    decreases |rs|
  {
    if rs == [] then Pass(t, []) else Step(RunRules(t, rs[..|rs| - 1]), rs[|rs| - 1])
  }

  /** One rule tried on the current text. */
  function Step(p: Pass, r: Rule): Pass
    requires r.from != []
  {
    if Matches(p.text, r.from) then Pass(JsNormalize(ReplaceAll(p.text, r.from, r.to)), p.fired + [r])
    else p
  }

  /** A rule that fires is recorded and leaves normalised text; one that
      does not fire changes nothing. */
  lemma StepCases(p: Pass, r: Rule)
    requires r.from != []
    ensures Matches(p.text, r.from) ==> Step(p, r).fired == p.fired + [r] && IsNormal(Js, Step(p, r).text)
    ensures !Matches(p.text, r.from) ==> Step(p, r) == p
  {
    JsNormalizeIsNormal(ReplaceAll(p.text, r.from, r.to));
  }

  lemma RunRulesSnoc(t: string, rs: seq<Rule>, r: Rule)
    requires NonEmptyKeys(rs + [r])
    ensures NonEmptyKeys(rs)
    ensures RunRules(t, rs + [r]) == Step(RunRules(t, rs), r)
  {
    assert (rs + [r])[..|rs|] == rs;
    assert forall i :: 0 <= i < |rs| ==> rs[i] == (rs + [r])[i];
  }

  /** The pass over the first `n + 1` rules is one more step after the
      pass over the first `n`. */
  lemma RunRulesPrefix(t: string, rs: seq<Rule>, n: nat)
    requires n < |rs| && NonEmptyKeys(rs)
    ensures NonEmptyKeys(rs[..n]) && NonEmptyKeys(rs[..n + 1])
    ensures RunRules(t, rs[..n + 1]) == Step(RunRules(t, rs[..n]), rs[n])
  {
    assert rs[..n + 1][..n] == rs[..n];
  }

  lemma RenderAllSnoc(fired: seq<Rule>, r: Rule)
    ensures RenderAll(fired + [r]) == RenderAll(fired) + [Render(r)]
  {
  }

  /** What `applyRules(text, dialect)` returns. */
  function Transform(text: string, dialect: string): RuleResult
    requires Languages.IsDialect(dialect)
  {
    if dialect == Languages.Standard || dialect !in Table then RuleResult(text, [])
    else
      SortedRuleSetWellFormed(dialect);
      var p := RunRules(text, SortByLength(Table[dialect]));
      RuleResult(p.text, RenderAll(p.fired))
  }

  /** `applyRules`: 'standard' (and a dialect without a rule set) returns
      at once; otherwise the dialect's rules, sorted longest first, are
      tried in turn on the current text, and each one that matches rewrites
      and normalises the text and appends "from → to" to the trace. */
  method ApplyRules(text: string, dialect: string) returns (res: RuleResult)
    requires Languages.IsDialect(dialect)
    ensures res == Transform(text, dialect)
  {
    if dialect == Languages.Standard || dialect !in Table {
      return RuleResult(text, []);
    }
    SortedRuleSetWellFormed(dialect);
    var transformedText := text;
    var appliedRules: seq<string> := [];
    ghost var fired: seq<Rule> := [];
    var sortedRules := SortByLength(Table[dialect]);
    for n := 0 to |sortedRules|
      invariant NonEmptyKeys(sortedRules[..n])
      invariant RunRules(text, sortedRules[..n]) == Pass(transformedText, fired)
      invariant appliedRules == RenderAll(fired)
    {
      var rule := sortedRules[n];
      RunRulesPrefix(text, sortedRules, n);
      if Matches(transformedText, rule.from) {
        transformedText := JsNormalize(ReplaceAll(transformedText, rule.from, rule.to));
        RenderAllSnoc(fired, rule);
        appliedRules := appliedRules + [Render(rule)];
        fired := fired + [rule];
      }
    }
    assert sortedRules[..|sortedRules|] == sortedRules;
    res := RuleResult(transformedText, appliedRules);
  }

  // ---------------------------------------------------------------------
  // The table and the catalogue

  /** Every rule set has non-empty, pairwise distinct phrases. */
  lemma RuleSetWellFormed(dialect: string)
    requires dialect in Table
    ensures WellFormed(Table[dialect])
  {
    TableEntry(dialect);
    NamedRuleSetsWellFormed();
  }

  lemma NamedRuleSetsWellFormed()
    ensures WellFormed(NagpurRules) && WellFormed(MalvaniRules)
    ensures WellFormed(AhiraniRules) && WellFormed(KolhapurRules)
  {
    NagpurMalvaniWellFormed();
    AhiraniKolhapurWellFormed();
  }

  lemma NagpurMalvaniWellFormed()
    ensures WellFormed(NagpurRules) && WellFormed(MalvaniRules)
  {
  }

  lemma AhiraniKolhapurWellFormed()
    ensures WellFormed(AhiraniRules) && WellFormed(KolhapurRules)
  {
  }

  /** Each dialect's entry is one of the four named rule sets or empty. */
  lemma TableEntry(dialect: string)
    requires dialect in Table
    ensures Table[dialect] in {NagpurRules, MalvaniRules, AhiraniRules, KolhapurRules, []}
  {
  }

  /** Sorting keeps the phrases non-empty and distinct. */
  lemma SortedRuleSetWellFormed(dialect: string)
    requires dialect in Table
    ensures WellFormed(SortByLength(Table[dialect]))
  {
    RuleSetWellFormed(dialect);
    SortKeepsWellFormed(Table[dialect]);
  }

  /** The table is keyed by exactly the sixteen catalogue dialects other
      than 'standard'. */
  lemma TableKeysAreDialects()
    ensures forall d :: Languages.IsDialect(d) ==> (d in Table <==> d != Languages.Standard)
    ensures forall d :: d in Table ==> Languages.IsDialect(d)
  {
    var vs := Languages.Values();
    assert vs == ["standard", "pune", "mumbai", "nagpur", "kolhapur", "ahirani", "malvani", "agri",
      "warli", "thanjavur", "koli", "solapuri", "marathwada", "belgaum", "dangii", "pawra", "gondi"];
    DialectsInTable(vs);
    TableInDialects(vs);
  }

  lemma DialectsInTable(vs: seq<string>)
    requires vs == ["standard", "pune", "mumbai", "nagpur", "kolhapur", "ahirani", "malvani", "agri",
      "warli", "thanjavur", "koli", "solapuri", "marathwada", "belgaum", "dangii", "pawra", "gondi"]
    ensures forall d :: d in vs ==> (d in Table <==> d != Languages.Standard)
  {
  }

  lemma TableInDialects(vs: seq<string>)
    requires vs == ["standard", "pune", "mumbai", "nagpur", "kolhapur", "ahirani", "malvani", "agri",
      "warli", "thanjavur", "koli", "solapuri", "marathwada", "belgaum", "dangii", "pawra", "gondi"]
    ensures forall d :: d in Table ==> d in vs
  {
  }

  // ---------------------------------------------------------------------
  // Matching and replacement

  lemma {:induction false} MatchesFromIffMatchAt(t: string, k: string, i: nat)
    requires i <= |t|
    ensures MatchesFrom(t, k, i) <==> exists j :: i <= j <= |t| && MatchAt(t, k, j)
    decreases |t| - i
  {
    if i < |t| {
      MatchesFromIffMatchAt(t, k, i + 1);
      if MatchesFrom(t, k, i) && !MatchAt(t, k, i) {
        var j :| i + 1 <= j <= |t| && MatchAt(t, k, j);
      }
    } else {
      assert MatchesFrom(t, k, i + 1) == false;
    }
  }

  /** A phrase matches exactly when some boundary-respecting occurrence exists. */
  lemma MatchesIffMatchAt(t: string, k: string)
    ensures Matches(t, k) <==> exists i :: 0 <= i <= |t| && MatchAt(t, k, i)
  {
    MatchesFromIffMatchAt(t, k, 0);
  }

  lemma {:induction false} ReplaceFromWithoutMatch(t: string, k: string, r: string, i: nat)
    requires k != [] && i <= |t| && !MatchesFrom(t, k, i)
    ensures ReplaceFrom(t, k, r, i) == t[i..]
    decreases |t| - i
  {
    if i < |t| {
      ReplaceFromWithoutMatch(t, k, r, i + 1);
    }
  }

  /** With no boundary-respecting occurrence the replacement changes nothing. */
  lemma ReplaceWithoutMatch(t: string, k: string, r: string)
    requires k != [] && !Matches(t, k)
    ensures ReplaceAll(t, k, r) == t
  {
    ReplaceFromWithoutMatch(t, k, r, 0);
  }

  lemma {:induction false} ReplaceFromIdentity(t: string, k: string, i: nat)
    requires k != [] && i <= |t|
    ensures ReplaceFrom(t, k, k, i) == t[i..]
    decreases |t| - i
  {
    if i < |t| {
      if MatchAt(t, k, i) {
        ReplaceFromIdentity(t, k, i + |k|);
        IdentityMatchStep(t, k, i);
      } else {
        ReplaceFromIdentity(t, k, i + 1);
        assert t[i..] == [t[i]] + t[i + 1..];
      }
    }
  }

  lemma IdentityMatchStep(t: string, k: string, i: nat)
    requires k != [] && i < |t| && MatchAt(t, k, i)
    requires ReplaceFrom(t, k, k, i + |k|) == t[i + |k|..]
    ensures ReplaceFrom(t, k, k, i) == t[i..]
  {
    var j := i + |k|;
    assert t[i..j] == k;
    assert t[i..] == t[i..j] + t[j..];
  }

  /** A rule that maps a phrase to itself leaves the text as it was, apart
      from the whitespace normalisation that follows a firing rule. */
  lemma IdentityRuleOnlyNormalizes(t: string, k: string)
    requires k != []
    ensures ReplaceAll(t, k, k) == t
  {
    ReplaceFromIdentity(t, k, 0);
  }

  // ---------------------------------------------------------------------
  // Longest-first ordering

  lemma {:induction false} InsertPermutes(x: Rule, s: seq<Rule>)
    ensures multiset(InsertByLength(x, s)) == multiset{x} + multiset(s)
    decreases |s|
  {
    if s != [] && |s[0].from| > |x.from| {
      InsertPermutes(x, s[1..]);
      assert s == [s[0]] + s[1..];
    }
  }

  /** The sort only reorders: the result is a permutation of the rule set. */
  lemma {:induction false} SortPermutes(rs: seq<Rule>)
    ensures multiset(SortByLength(rs)) == multiset(rs)
    decreases |rs|
  {
    if rs != [] {
      SortPermutes(rs[1..]);
      InsertPermutes(rs[0], SortByLength(rs[1..]));
      assert rs == [rs[0]] + rs[1..];
    }
  }

  lemma {:induction false} InsertKeepsLongestFirst(x: Rule, s: seq<Rule>)
    requires LongestFirst(s)
    ensures LongestFirst(InsertByLength(x, s))
    decreases |s|
  {
    if s != [] && |s[0].from| > |x.from| {
      InsertKeepsLongestFirst(x, s[1..]);
      assert forall k :: 0 <= k < |s[1..]| ==> s[1..][k] == s[k + 1];
      InsertBounded(x, s[1..], |s[0].from|);
      var tail := InsertByLength(x, s[1..]);
      var r := [s[0]] + tail;
      forall i, j | 0 <= i < j < |r|
        ensures |r[j].from| <= |r[i].from|
      {
        assert r[j] == tail[j - 1];
        if i > 0 { assert r[i] == tail[i - 1]; }
      }
    }
  }

  /** Inserting a rule no longer than `m` into rules no longer than `m`
      gives rules no longer than `m`. */
  lemma {:induction false} InsertBounded(x: Rule, s: seq<Rule>, m: nat)
    requires |x.from| <= m && forall k :: 0 <= k < |s| ==> |s[k].from| <= m
    ensures forall k :: 0 <= k < |InsertByLength(x, s)| ==> |InsertByLength(x, s)[k].from| <= m
    decreases |s|
  {
    if s != [] && |s[0].from| > |x.from| {
      assert forall k :: 0 <= k < |s[1..]| ==> s[1..][k] == s[k + 1];
      InsertBounded(x, s[1..], m);
      var tail := InsertByLength(x, s[1..]);
      assert forall k :: 1 <= k < |tail| + 1 ==> ([s[0]] + tail)[k] == tail[k - 1];
    }
  }

  /** The sort puts longer phrases first. */
  lemma {:induction false} SortIsLongestFirst(rs: seq<Rule>)
    ensures LongestFirst(SortByLength(rs))
    decreases |rs|
  {
    if rs != [] {
      SortIsLongestFirst(rs[1..]);
      InsertKeepsLongestFirst(rs[0], SortByLength(rs[1..]));
    }
  }

  lemma {:induction false} OfLengthAppend(a: seq<Rule>, b: seq<Rule>, n: nat)
    ensures OfLength(a + b, n) == OfLength(a, n) + OfLength(b, n)
    decreases |a|
  {
    if a == [] {
      assert a + b == b;
    } else {
      var c := a + b;
      assert c[0] == a[0] && c[1..] == a[1..] + b;
      OfLengthAppend(a[1..], b, n);
      var head := if |a[0].from| == n then [a[0]] else [];
      assert OfLength(c, n) == head + OfLength(c[1..], n);
      assert OfLength(a, n) == head + OfLength(a[1..], n);
    }
  }

  lemma {:induction false} OfLengthInsert(x: Rule, s: seq<Rule>, n: nat)
    ensures OfLength(InsertByLength(x, s), n) == (if |x.from| == n then [x] else []) + OfLength(s, n)
    decreases |s|
  {
    if s == [] || |s[0].from| <= |x.from| {
      OfLengthAppend([x], s, n);
    } else {
      OfLengthInsert(x, s[1..], n);
      OfLengthAppend([s[0]], InsertByLength(x, s[1..]), n);
      OfLengthAppend([s[0]], s[1..], n);
      assert s == [s[0]] + s[1..];
    }
  }

  /** The sort is stable: rules of equal phrase length keep their table order. */
  lemma {:induction false} SortIsStable(rs: seq<Rule>, n: nat)
    ensures OfLength(SortByLength(rs), n) == OfLength(rs, n)
    decreases |rs|
  {
    if rs != [] {
      SortIsStable(rs[1..], n);
      OfLengthInsert(rs[0], SortByLength(rs[1..]), n);
    }
  }

  // ---------------------------------------------------------------------
  // The rule pass

  /** `a` is `b` with some elements left out, order kept. */
  ghost predicate IsSubsequence(a: seq<Rule>, b: seq<Rule>)
    decreases |b|
  {
    if b == [] then a == []
    else
      || (a != [] && a[|a| - 1] == b[|b| - 1] && IsSubsequence(a[..|a| - 1], b[..|b| - 1]))
      || IsSubsequence(a, b[..|b| - 1])
  }

  lemma {:induction false} SubsequenceProperties(a: seq<Rule>, b: seq<Rule>)
    requires IsSubsequence(a, b)
    ensures |a| <= |b|
    ensures forall x :: x in a ==> x in b
    ensures DistinctKeys(b) ==> DistinctKeys(a)
    decreases |b|
  {
    if b != [] {
      var b' := b[..|b| - 1];
      if a != [] && a[|a| - 1] == b[|b| - 1] && IsSubsequence(a[..|a| - 1], b') {
        var a' := a[..|a| - 1];
        SubsequenceProperties(a', b');
        assert a == a' + [b[|b| - 1]];
        if DistinctKeys(b) {
          assert DistinctKeys(b');
          forall i, j | 0 <= i < j < |a|
            ensures a[i].from != a[j].from
          {
            if j < |a| - 1 {
              assert a[i] == a'[i] && a[j] == a'[j];
            } else {
              assert a[i] == a'[i] && a'[i] in b';
              var m :| 0 <= m < |b'| && b'[m] == a'[i];
              assert b[m] == a[i];
            }
          }
        }
      } else {
        SubsequenceProperties(a, b');
      }
    }
  }

  /** The rules that fired are the pass's rules with some left out, order kept. */
  lemma {:induction false} FiredIsSubsequence(t: string, rs: seq<Rule>)
    requires NonEmptyKeys(rs)
    ensures IsSubsequence(RunRules(t, rs).fired, rs)
    decreases |rs|
  {
    if rs != [] {
      FiredIsSubsequence(t, rs[..|rs| - 1]);
    }
  }

  /** When no rule fires the text comes back exactly as it was given:
      whitespace is normalised only after a rule has fired. */
  lemma {:induction false} NothingFiredMeansUnchanged(t: string, rs: seq<Rule>)
    requires NonEmptyKeys(rs)
    ensures RunRules(t, rs).fired == [] ==> RunRules(t, rs).text == t
    decreases |rs|
  {
    if rs != [] {
      NothingFiredMeansUnchanged(t, rs[..|rs| - 1]);
    }
  }

  /** Once a rule has fired the text is single-spaced with no leading or
      trailing whitespace. */
  lemma {:induction false} FiredMeansNormal(t: string, rs: seq<Rule>)
    requires NonEmptyKeys(rs)
    ensures RunRules(t, rs).fired != [] ==> IsNormal(Js, RunRules(t, rs).text)
    decreases |rs|
  {
    if rs != [] {
      var p := RunRules(t, rs[..|rs| - 1]);
      var r := rs[|rs| - 1];
      if Matches(p.text, r.from) {
        JsNormalizeIsNormal(ReplaceAll(p.text, r.from, r.to));
      } else {
        FiredMeansNormal(t, rs[..|rs| - 1]);
      }
    }
  }

  /** 'standard' is a no-op; an empty trace means the text comes back
      exactly as given; a non-empty trace means the text is single-spaced
      with no leading or trailing whitespace. */
  lemma TransformTextProperties(text: string, dialect: string)
    requires Languages.IsDialect(dialect)
    ensures dialect == Languages.Standard ==> Transform(text, dialect) == RuleResult(text, [])
    ensures Transform(text, dialect).appliedRules == [] ==> Transform(text, dialect).transformedText == text
    ensures Transform(text, dialect).appliedRules != [] ==> IsNormal(Js, Transform(text, dialect).transformedText)
  {
    if dialect != Languages.Standard && dialect in Table {
      SortedRuleSetWellFormed(dialect);
      var sorted := SortByLength(Table[dialect]);
      NothingFiredMeansUnchanged(text, sorted);
      FiredMeansNormal(text, sorted);
    }
  }

  /** The trace renders, one entry per rule and in order, a subsequence of
      the dialect's rules sorted longest first (ties in table order), so no
      rule is recorded twice and there are at most as many entries as rules. */
  lemma TransformTraceOrder(text: string, dialect: string)
    requires dialect in Table
    ensures Languages.IsDialect(dialect) && dialect != Languages.Standard
    ensures var sorted := SortByLength(Table[dialect]);
            WellFormed(sorted) &&
            var p := RunRules(text, sorted);
            && LongestFirst(sorted)
            && (forall n: nat :: OfLength(sorted, n) == OfLength(Table[dialect], n))
            && Transform(text, dialect).appliedRules == RenderAll(p.fired)
            && IsSubsequence(p.fired, sorted)
            && DistinctKeys(p.fired)
            && |Transform(text, dialect).appliedRules| <= |Table[dialect]|
  {
    TableKeysAreDialects();
    SortedRuleSetWellFormed(dialect);
    var rs := Table[dialect];
    var sorted := SortByLength(rs);
    SortIsLongestFirst(rs);
    forall n: nat
      ensures OfLength(sorted, n) == OfLength(rs, n)
    {
      SortIsStable(rs, n);
    }
    FiredIsSubsequence(text, sorted);
    SubsequenceProperties(RunRules(text, sorted).fired, sorted);
    assert |sorted| == |rs| by {
      SortPermutes(rs);
      assert |multiset(sorted)| == |multiset(rs)|;
    }
  }

  lemma SortKeepsWellFormed(rs: seq<Rule>)
    requires WellFormed(rs)
    ensures WellFormed(SortByLength(rs))
  {
    var s := SortByLength(rs);
    SortPermutes(rs);
    forall i | 0 <= i < |s|
      ensures s[i].from != []
    {
      assert s[i] in multiset(rs);
    }
    forall i, j | 0 <= i < j < |s|
      ensures s[i].from != s[j].from
    {
      assert s[i] in multiset(rs) && s[j] in multiset(rs);
      var a :| 0 <= a < |rs| && rs[a] == s[i];
      var b :| 0 <= b < |rs| && rs[b] == s[j];
      if a == b {
        MultisetCountTwo(s, i, j);
        assert multiset(rs)[s[i]] >= 2;
        MultisetCountOne(rs, a);
      }
    }
  }

  lemma MultisetCountTwo(s: seq<Rule>, i: nat, j: nat)
    requires i < j < |s| && s[i] == s[j]
    ensures multiset(s)[s[i]] >= 2
  {
    assert s == s[..i] + [s[i]] + s[i + 1..j] + [s[j]] + s[j + 1..];
  }

  lemma MultisetCountOne(rs: seq<Rule>, a: nat)
    requires a < |rs| && DistinctKeys(rs)
    ensures multiset(rs)[rs[a]] == 1
  {
    assert rs == rs[..a] + [rs[a]] + rs[a + 1..];
    assert rs[a] !in rs[..a] by {
      forall m | 0 <= m < a ensures rs[m] != rs[a] { assert rs[m].from != rs[a].from; }
    }
    assert rs[a] !in rs[a + 1..] by {
      forall m | a + 1 <= m < |rs| ensures rs[m] != rs[a] { assert rs[a].from != rs[m].from; }
    }
  }

  /** Every dialect whose rule set is empty behaves like 'standard'. */
  lemma EmptyRuleSetIsNoOp(text: string, dialect: string)
    requires dialect in EmptyRuleSetDialects
    ensures Languages.IsDialect(dialect)
    ensures Transform(text, dialect) == RuleResult(text, [])
  {
    TableKeysAreDialects();
    assert Table[dialect] == [];
  }
}
