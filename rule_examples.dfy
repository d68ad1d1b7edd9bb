/**
 * Worked inputs for the substitution engine, taken from the rule table's
 * own entries: boundary handling, longest-first order, identity rules and
 * deletions.
 */
module RuleExamples {
  import opened Strings
  import opened Rules
  import Languages

  lemma SortCons(x: Rule, rs: seq<Rule>)
    ensures SortByLength([x] + rs) == InsertByLength(x, SortByLength(rs))
  {
    assert ([x] + rs)[1..] == rs;
  }

  lemma InsertHere(x: Rule, s: seq<Rule>)
    requires s == [] || |s[0].from| <= |x.from|
    ensures InsertByLength(x, s) == [x] + s
  {
  }

  lemma InsertLater(x: Rule, s: seq<Rule>)
    requires s != [] && |s[0].from| > |x.from|
    ensures InsertByLength(x, s) == [s[0]] + InsertByLength(x, s[1..])
  {
  }

  lemma SortLastThree(d: Rule, e: Rule, f: Rule)
    requires |d.from| == 3 && |e.from| == 4 && |f.from| == 4
    ensures SortByLength([d, e, f]) == [e, f, d]
  {
    assert SortByLength([f]) == [f] by { SortCons(f, []); assert [f] == [f] + []; }
    assert SortByLength([e, f]) == [e, f] by { SortCons(e, [f]); InsertHere(e, [f]); assert [e, f] == [e] + [f]; }
    SortCons(d, [e, f]); InsertLater(d, [e, f]); InsertLater(d, [f]); InsertHere(d, []);
    assert [d, e, f] == [d] + [e, f];
    assert [e, f][1..] == [f] && [f][1..] == [];
  }

  lemma SortLastFive(b: Rule, c: Rule, d: Rule, e: Rule, f: Rule)
    requires |b.from| == 3 && |d.from| == 3
    requires |c.from| == 4 && |e.from| == 4 && |f.from| == 4
    ensures SortByLength([b, c, d, e, f]) == [c, e, f, b, d]
  {
    SortLastThree(d, e, f);
    assert SortByLength([c, d, e, f]) == [c, e, f, d] by {
      SortCons(c, [d, e, f]); InsertHere(c, [e, f, d]);
      assert [c, d, e, f] == [c] + [d, e, f];
    }
    SortCons(b, [c, d, e, f]);
    InsertLater(b, [c, e, f, d]); InsertLater(b, [e, f, d]); InsertLater(b, [f, d]); InsertHere(b, [d]);
    assert [b, c, d, e, f] == [b] + [c, d, e, f];
    assert [c, e, f, d][1..] == [e, f, d] && [e, f, d][1..] == [f, d] && [f, d][1..] == [d];
  }

  /** The order of a rule set shaped like Nagpur's and Malvani's: lengths
      3, 3, 4, 3, 4, 4 sort to the three 4-letter phrases, then the three
      3-letter ones, each group in table order. */
  lemma SortSix(a: Rule, b: Rule, c: Rule, d: Rule, e: Rule, f: Rule)
    requires |a.from| == 3 && |b.from| == 3 && |d.from| == 3
    requires |c.from| == 4 && |e.from| == 4 && |f.from| == 4
    ensures SortByLength([a, b, c, d, e, f]) == [c, e, f, a, b, d]
  {
    SortLastFive(b, c, d, e, f);
    SortCons(a, [b, c, d, e, f]);
    InsertLater(a, [c, e, f, b, d]); InsertLater(a, [e, f, b, d]); InsertLater(a, [f, b, d]); InsertHere(a, [b, d]);
    assert [a, b, c, d, e, f] == [a] + [b, c, d, e, f];
    assert [c, e, f, b, d][1..] == [e, f, b, d] && [e, f, b, d][1..] == [f, b, d] && [f, b, d][1..] == [b, d];
  }

  lemma NagpurIsDialect()
    ensures Languages.IsDialect("nagpur")
  {
    assert Languages.Values()[3] == "nagpur";
  }

  /** Nagpur's rules run in the order तुला, कुठे, नाही, आहे, मला, काय. */
  lemma NagpurOrder()
    ensures SortByLength(Table["nagpur"]) == [
      Rule("तुला", "तुले"), Rule("कुठे", "कोठा"), Rule("नाही", "न्हाई"),
      Rule("आहे", "हाय"), Rule("मला", "माले"), Rule("काय", "का")]
  {
    NagpurTable();
    var ahe, mala, tula := NagpurRules[0], NagpurRules[1], NagpurRules[2];
    var kay, kuthe, nahi := NagpurRules[3], NagpurRules[4], NagpurRules[5];
    assert NagpurRules == [ahe, mala, tula, kay, kuthe, nahi];
    SortSix(ahe, mala, tula, kay, kuthe, nahi);
  }

  /** A rule set none of whose phrases matches leaves the text untouched
      and the trace empty. */
  lemma {:induction false} NoneMatches(t: string, rs: seq<Rule>)
    requires NonEmptyKeys(rs)
    requires forall i :: 0 <= i < |rs| ==> !Matches(t, rs[i].from)
    ensures RunRules(t, rs) == Pass(t, [])
    decreases |rs|
  {
    if rs != [] {
      var front := rs[..|rs| - 1];
      assert forall i :: 0 <= i < |front| ==> front[i] == rs[i];
      NoneMatches(t, front);
    }
  }

  /** "कुठेआहे": both phrases are glued to Devanagari letters, so no
      Nagpur rule fires and the text comes back as given. */
  lemma GluedPhrasesDoNotMatch()
    ensures Languages.IsDialect("nagpur")
    ensures Transform("कुठेआहे", "nagpur") == RuleResult("कुठेआहे", [])
  {
    NagpurIsDialect();
    NagpurOrder();
    NagpurTable();
    var tula, kuthe, nahi := Rule("तुला", "तुले"), Rule("कुठे", "कोठा"), Rule("नाही", "न्हाई");
    var ahe, mala, kay := Rule("आहे", "हाय"), Rule("मला", "माले"), Rule("काय", "का");
    GluedTextMatchesNothing();
    var p := Pass("कुठेआहे", []);
    RunSix("कुठेआहे", tula, kuthe, nahi, ahe, mala, kay, p, p, p, p, p, p);
    TransformRuns("कुठेआहे", "nagpur", [tula, kuthe, nahi, ahe, mala, kay], p);
  }

  lemma GluedTextMatchesNothing()
    ensures !Matches("कुठेआहे", "तुला") && !Matches("कुठेआहे", "कुठे") && !Matches("कुठेआहे", "नाही")
    ensures !Matches("कुठेआहे", "आहे") && !Matches("कुठेआहे", "मला") && !Matches("कुठेआहे", "काय")
  {
    var t := "कुठेआहे";
    AbsentFirstLetter(t, "तुला", 0);
    GluedKuthe();
    AbsentFirstLetter(t, "नाही", 0);
    GluedAhe();
    AbsentFirstLetter(t, "मला", 0);
    GluedKay();
  }

  /** "कुठे" occurs at the start but "आ" follows it. */
  lemma GluedKuthe()
    ensures !Matches("कुठेआहे", "कुठे")
  {
    var t, k := "कुठेआहे", "कुठे";
    assert t[1..] == "ुठेआहे";
    AbsentBetween(t, k, 1, |t|);
    assert !MatchAt(t, k, 0) by { assert t[4] == 'आ'; }
  }

  /** "क" begins the text, but "ु" follows it, not "ा". */
  lemma GluedKay()
    ensures !Matches("कुठेआहे", "काय")
  {
    var t, k := "कुठेआहे", "काय";
    assert t[1..] == "ुठेआहे";
    AbsentBetween(t, k, 1, |t|);
    assert !MatchAt(t, k, 0) by { assert t[1] == 'ु'; }
  }

  /** "आहे" occurs at the end but "े" precedes it. */
  lemma GluedAhe()
    ensures !Matches("कुठेआहे", "आहे")
  {
    var t, k := "कुठेआहे", "आहे";
    assert t[5..] == "हे";
    AbsentBetween(t, k, 5, |t|);
    assert !MatchAt(t, k, 4) by { assert t[3] == 'े'; }
    assert t[..4] == "कुठे";
    AbsentBetween(t, k, 0, 4);
  }

  /** The danda and the Devanagari digits are Devanagari characters:
      "आहे।" and "आहे१" do not match "आहे", while "आहे !" does. */
  lemma DandaBlocksMatch()
    ensures !Matches("आहे।", "आहे")
    ensures !Matches("आहे१", "आहे")
    ensures Matches("आहे !", "आहे")
  {
    assert MatchAt("आहे !", "आहे", 0);
  }

  lemma ReplaceAhe()
    ensures Matches("मला आहे", "आहे")
    ensures ReplaceAll("मला आहे", "आहे", "हाय") == "मला हाय"
    ensures IsNormal(Js, "मला हाय")
  {
    var t, k, r := "मला आहे", "आहे", "हाय";
    assert t[..4] == "मला ";
    SkipAbsent(t, k, r, 0, 4);
    assert MatchAt(t, k, 4);
    assert ReplaceFrom(t, k, r, 4) == r + ReplaceFrom(t, k, r, 7);
    NormalMalaHay();
  }

  lemma NormalMalaHay()
    ensures IsNormal(Js, "मला हाय")
  {
    var s := "मला हाय";
    assert forall i :: 0 <= i < |s| && IsSpace(Js, s[i]) ==> i == 3;
  }

  lemma ReplaceMala()
    ensures Matches("मला हाय", "मला")
    ensures ReplaceAll("मला हाय", "मला", "माले") == "माले हाय"
    ensures IsNormal(Js, "माले हाय")
  {
    var t, k, r := "मला हाय", "मला", "माले";
    assert MatchAt(t, k, 0);
    assert t[3..] == " हाय";
    SkipAbsent(t, k, r, 3, 7);
    assert ReplaceAll(t, k, r) == r + t[3..];
    NormalMaleHay();
  }

  lemma NormalMaleHay()
    ensures IsNormal(Js, "माले हाय")
  {
    var s := "माले हाय";
    assert forall i :: 0 <= i < |s| && IsSpace(Js, s[i]) ==> i == 4;
  }

  /** A stretch of the text that holds no copy of the phrase's first letter
      is copied unchanged by the replacement scan. */
  lemma {:induction false} SkipAbsent(t: string, k: string, r: string, i: nat, j: nat)
    requires k != [] && i <= j <= |t| && k[0] !in t[i..j]
    ensures ReplaceFrom(t, k, r, i) == t[i..j] + ReplaceFrom(t, k, r, j)
    decreases j - i
  {
    if i < j {
      assert t[i] == t[i..j][0] && t[i + 1..j] == t[i..j][1..];
      SkipAbsent(t, k, r, i + 1, j);
      assert t[i..j] == [t[i]] + t[i + 1..j];
    }
  }

  lemma AlreadyNormal(s: string)
    requires IsNormal(Js, s)
    ensures JsNormalize(s) == s
  {
    NormalIsFixed(Js, s);
  }

  /** A phrase whose first letter does not occur in the text never matches. */
  lemma {:induction false} AbsentFirstLetter(t: string, k: string, i: nat)
    requires k != [] && k[0] !in t && i <= |t|
    ensures !MatchesFrom(t, k, i)
    decreases |t| - i
  {
    if i < |t| {
      AbsentFirstLetter(t, k, i + 1);
      assert t[i] != k[0];
    }
  }

  /** No match starts in a stretch `t[i..j]` that holds no copy of the
      phrase's first letter, so the search from `i` fails when the search
      from `j` does. */
  lemma {:induction false} AbsentBetween(t: string, k: string, i: nat, j: nat)
    requires k != [] && i <= j <= |t| && k[0] !in t[i..j]
    requires j == |t| || !MatchesFrom(t, k, j)
    ensures !MatchesFrom(t, k, i)
    decreases j - i
  {
    if i < j {
      assert t[i] == t[i..j][0] && t[i + 1..j] == t[i..j][1..];
      AbsentBetween(t, k, i + 1, j);
    } else if i == |t| {
      assert !MatchesFrom(t, k, i + 1);
    }
  }

  lemma NagpurTable()
    ensures Table["nagpur"] == NagpurRules
  {
  }

  /** A rule that matches the current text rewrites it and is recorded. */
  lemma Fire(t: string, rs: seq<Rule>, r: Rule, p: Pass, u: string)
    requires NonEmptyKeys(rs) && r.from != []
    requires RunRules(t, rs) == p
    requires Matches(p.text, r.from) && ReplaceAll(p.text, r.from, r.to) == u && IsNormal(Js, u)
    ensures NonEmptyKeys(rs + [r])
    ensures RunRules(t, rs + [r]) == Pass(u, p.fired + [r])
  {
    AlreadyNormal(u);
    Extend(rs, r);
    RunRulesSnoc(t, rs, r);
  }

  /** A rule that does not match the current text changes nothing. */
  lemma Skip(t: string, rs: seq<Rule>, r: Rule, p: Pass)
    requires NonEmptyKeys(rs) && r.from != []
    requires RunRules(t, rs) == p && !Matches(p.text, r.from)
    ensures NonEmptyKeys(rs + [r])
    ensures RunRules(t, rs + [r]) == p
  {
    Extend(rs, r);
    RunRulesSnoc(t, rs, r);
  }

  lemma Extend(rs: seq<Rule>, r: Rule)
    requires NonEmptyKeys(rs) && r.from != []
    ensures NonEmptyKeys(rs + [r])
  {
    var rs' := rs + [r];
    forall i | 0 <= i < |rs'|
      ensures rs'[i].from != []
    {
      if i < |rs| {
        assert rs'[i] == rs[i];
      }
    }
  }

  /** The unfolding of `Transform` for a dialect with a rule set. */
  lemma TransformRuns(text: string, dialect: string, sorted: seq<Rule>, p: Pass)
    requires Languages.IsDialect(dialect) && dialect != Languages.Standard && dialect in Table
    requires sorted == SortByLength(Table[dialect]) && NonEmptyKeys(sorted)
    requires RunRules(text, sorted) == p
    ensures Transform(text, dialect) == RuleResult(p.text, RenderAll(p.fired))
  {
  }

  /** One more rule is one more step. */
  lemma StepOn(t: string, rs: seq<Rule>, r: Rule, p: Pass, q: Pass)
    requires NonEmptyKeys(rs) && r.from != []
    requires RunRules(t, rs) == p && Step(p, r) == q
    ensures NonEmptyKeys(rs + [r])
    ensures RunRules(t, rs + [r]) == q
  {
    Extend(rs, r);
    RunRulesSnoc(t, rs, r);
  }

  /** The pass over six rules is six steps from the empty pass. */
  lemma RunSix(t: string, a: Rule, b: Rule, c: Rule, d: Rule, e: Rule, f: Rule,
               p1: Pass, p2: Pass, p3: Pass, p4: Pass, p5: Pass, p6: Pass)
    requires a.from != [] && b.from != [] && c.from != [] && d.from != [] && e.from != [] && f.from != []
    requires Step(Pass(t, []), a) == p1 && Step(p1, b) == p2 && Step(p2, c) == p3
    requires Step(p3, d) == p4 && Step(p4, e) == p5 && Step(p5, f) == p6
    ensures NonEmptyKeys([a, b, c, d, e, f])
    ensures RunRules(t, [a, b, c, d, e, f]) == p6
  {
    var r0: seq<Rule> := [];
    var r1 := r0 + [a];
    StepOn(t, r0, a, Pass(t, []), p1);
    var r2 := r1 + [b];
    StepOn(t, r1, b, p1, p2);
    var r3 := r2 + [c];
    StepOn(t, r2, c, p2, p3);
    var r4 := r3 + [d];
    StepOn(t, r3, d, p3, p4);
    var r5 := r4 + [e];
    StepOn(t, r4, e, p4, p5);
    StepOn(t, r5, f, p5, p6);
    assert r5 + [f] == [a, b, c, d, e, f];
  }

  lemma NagpurSkipsFirstThree(tula: Rule, kuthe: Rule, nahi: Rule)
    requires tula == Rule("तुला", "तुले") && kuthe == Rule("कुठे", "कोठा") && nahi == Rule("नाही", "न्हाई")
    ensures tula.from != [] && kuthe.from != [] && nahi.from != []
    ensures Step(Pass("मला आहे", []), tula) == Pass("मला आहे", [])
    ensures Step(Pass("मला आहे", []), kuthe) == Pass("मला आहे", [])
    ensures Step(Pass("मला आहे", []), nahi) == Pass("मला आहे", [])
  {
    var t := "मला आहे";
    AbsentFirstLetter(t, tula.from, 0);
    AbsentFirstLetter(t, kuthe.from, 0);
    AbsentFirstLetter(t, nahi.from, 0);
  }

  lemma NagpurFiresAhe(ahe: Rule)
    requires ahe == Rule("आहे", "हाय")
    ensures ahe.from != []
    ensures Step(Pass("मला आहे", []), ahe) == Pass("मला हाय", [ahe])
  {
    ReplaceAhe();
    AlreadyNormal("मला हाय");
  }

  lemma NagpurFiresMala(ahe: Rule, mala: Rule)
    requires mala == Rule("मला", "माले")
    ensures mala.from != []
    ensures Step(Pass("मला हाय", [ahe]), mala) == Pass("माले हाय", [ahe, mala])
  {
    ReplaceMala();
    AlreadyNormal("माले हाय");
  }

  lemma NagpurSkipsKay(ahe: Rule, mala: Rule, kay: Rule)
    requires kay == Rule("काय", "का")
    ensures kay.from != []
    ensures Step(Pass("माले हाय", [ahe, mala]), kay) == Pass("माले हाय", [ahe, mala])
  {
    AbsentFirstLetter("माले हाय", kay.from, 0);
  }

  lemma NagpurRun(tula: Rule, kuthe: Rule, nahi: Rule, ahe: Rule, mala: Rule, kay: Rule)
    requires tula == Rule("तुला", "तुले") && kuthe == Rule("कुठे", "कोठा") && nahi == Rule("नाही", "न्हाई")
    requires ahe == Rule("आहे", "हाय") && mala == Rule("मला", "माले") && kay == Rule("काय", "का")
    ensures NonEmptyKeys([tula, kuthe, nahi, ahe, mala, kay])
    ensures RunRules("मला आहे", [tula, kuthe, nahi, ahe, mala, kay]) == Pass("माले हाय", [ahe, mala])
  {
    var p0, p1, p2 := Pass("मला आहे", []), Pass("मला हाय", [ahe]), Pass("माले हाय", [ahe, mala]);
    NagpurSkipsFirstThree(tula, kuthe, nahi);
    NagpurFiresAhe(ahe);
    NagpurFiresMala(ahe, mala);
    NagpurSkipsKay(ahe, mala, kay);
    RunSix("मला आहे", tula, kuthe, nahi, ahe, mala, kay, p0, p0, p0, p1, p2, p2);
  }

  lemma NagpurRunSorted()
    ensures NonEmptyKeys(SortByLength(Table["nagpur"]))
    ensures RunRules("मला आहे", SortByLength(Table["nagpur"])) == Pass("माले हाय", [Rule("आहे", "हाय"), Rule("मला", "माले")])
  {
    NagpurTable();
    var tula, kuthe, nahi := Rule("तुला", "तुले"), Rule("कुठे", "कोठा"), Rule("नाही", "न्हाई");
    var ahe, mala, kay := Rule("आहे", "हाय"), Rule("मला", "माले"), Rule("काय", "का");
    SortSix(ahe, mala, tula, kay, kuthe, nahi);
    NagpurRun(tula, kuthe, nahi, ahe, mala, kay);
  }

  lemma NagpurTrace()
    ensures RenderAll([Rule("आहे", "हाय"), Rule("मला", "माले")]) == ["आहे → हाय", "मला → माले"]
  {
    assert Render(Rule("आहे", "हाय")) == "आहे → हाय";
    assert Render(Rule("मला", "माले")) == "मला → माले";
  }

  /** Two rules fire in longest-first order: "मला आहे" becomes "माले हाय",
      with "आहे → हाय" recorded before "मला → माले" because the sort keeps
      the table order among phrases of equal length. */
  lemma NagpurRewrite()
    ensures Languages.IsDialect("nagpur")
    ensures Transform("मला आहे", "nagpur") == RuleResult("माले हाय", ["आहे → हाय", "मला → माले"])
  {
    NagpurIsDialect();
    NagpurRunSorted();
    var fired := [Rule("आहे", "हाय"), Rule("मला", "माले")];
    NagpurTrace();
    TransformRuns("मला आहे", "nagpur", SortByLength(Table["nagpur"]), Pass("माले हाय", fired));
  }

  lemma MalvaniTable()
    ensures Table["malvani"] == MalvaniRules
  {
  }

  lemma MalvaniIsDialect()
    ensures Languages.IsDialect("malvani")
  {
    assert Languages.Values()[6] == "malvani";
  }

  lemma MalvaniSkipsFive(tula: Rule, kuthe: Rule, nahi: Rule, ahe: Rule, mala: Rule)
    requires tula == Rule("तुला", "तुका") && kuthe == Rule("कुठे", "खुय") && nahi == Rule("नाही", "नाय")
    requires ahe == Rule("आहे", "आसा") && mala == Rule("मला", "माका")
    ensures tula.from != [] && kuthe.from != [] && nahi.from != [] && ahe.from != [] && mala.from != []
    ensures Step(Pass("काय", []), tula) == Pass("काय", []) && Step(Pass("काय", []), kuthe) == Pass("काय", [])
    ensures Step(Pass("काय", []), nahi) == Pass("काय", []) && Step(Pass("काय", []), ahe) == Pass("काय", [])
    ensures Step(Pass("काय", []), mala) == Pass("काय", [])
  {
    var t := "काय";
    AbsentFirstLetter(t, tula.from, 0);
    assert !Matches(t, kuthe.from);
    AbsentFirstLetter(t, nahi.from, 0);
    AbsentFirstLetter(t, ahe.from, 0);
    AbsentFirstLetter(t, mala.from, 0);
  }

  lemma MalvaniFiresKay(kay: Rule)
    requires kay == Rule("काय", "काय")
    ensures kay.from != []
    ensures Step(Pass("काय", []), kay) == Pass("काय", [kay])
  {
    assert MatchAt("काय", "काय", 0);
    IdentityRuleOnlyNormalizes("काय", "काय");
    assert IsNormal(Js, "काय");
    AlreadyNormal("काय");
  }

  lemma MalvaniRunSorted()
    ensures NonEmptyKeys(SortByLength(Table["malvani"]))
    ensures RunRules("काय", SortByLength(Table["malvani"])) == Pass("काय", [Rule("काय", "काय")])
  {
    MalvaniTable();
    var ahe, mala, tula := MalvaniRules[0], MalvaniRules[1], MalvaniRules[2];
    var kay, kuthe, nahi := MalvaniRules[3], MalvaniRules[4], MalvaniRules[5];
    assert MalvaniRules == [ahe, mala, tula, kay, kuthe, nahi];
    SortSix(ahe, mala, tula, kay, kuthe, nahi);
    MalvaniSkipsFive(tula, kuthe, nahi, ahe, mala);
    MalvaniFiresKay(kay);
    var p0, p1 := Pass("काय", []), Pass("काय", [kay]);
    RunSix("काय", tula, kuthe, nahi, ahe, mala, kay, p0, p0, p0, p0, p0, p1);
  }

  lemma MalvaniTrace()
    ensures RenderAll([Rule("काय", "काय")]) == ["काय → काय"]
  {
    assert Render(Rule("काय", "काय")) == "काय → काय";
  }

  /** An identity rule still fires and is recorded: Malvani's "काय → काय"
      leaves "काय" as it is but appears in the trace. */
  lemma MalvaniIdentityRuleIsRecorded()
    ensures Languages.IsDialect("malvani")
    ensures Transform("काय", "malvani") == RuleResult("काय", ["काय → काय"])
  {
    MalvaniIsDialect();
    MalvaniRunSorted();
    MalvaniTrace();
    TransformRuns("काय", "malvani", SortByLength(Table["malvani"]), Pass("काय", [Rule("काय", "काय")]));
  }

  lemma KolhapurIsDialect()
    ensures Languages.IsDialect("kolhapur")
  {
    assert Languages.Values()[4] == "kolhapur";
  }

  /** Kolhapur's two rules are already longest first. */
  lemma KolhapurOrder()
    ensures SortByLength(Table["kolhapur"]) == KolhapurRules
  {
    var phrase, tu := KolhapurRules[0], KolhapurRules[1];
    assert Table["kolhapur"] == [phrase, tu];
    SortCons(tu, []);
    assert [tu] == [tu] + [];
    SortCons(phrase, [tu]);
    InsertHere(phrase, [tu]);
    assert [phrase, tu] == [phrase] + [tu];
  }

  lemma ReplacePhrase()
    ensures Matches("तू काय करते आहेस", "तू काय करते आहेस")
    ensures ReplaceAll("तू काय करते आहेस", "तू काय करते आहेस", "काय कराय लागलीस") == "काय कराय लागलीस"
    ensures IsNormal(Js, "काय कराय लागलीस")
  {
    var t, r := "तू काय करते आहेस", "काय कराय लागलीस";
    assert MatchAt(t, t, 0);
    assert ReplaceAll(t, t, r) == r + ReplaceFrom(t, t, r, |t|);
    NormalPhraseOutput();
  }

  lemma NormalPhraseOutput()
    ensures IsNormal(Js, "काय कराय लागलीस")
  {
    var s := "काय कराय लागलीस";
    assert forall i :: 0 <= i < |s| && IsSpace(Js, s[i]) ==> i == 3 || i == 8;
  }

  lemma KolhapurFiresPhrase(phrase: Rule)
    requires phrase == Rule("तू काय करते आहेस", "काय कराय लागलीस")
    ensures NonEmptyKeys([phrase])
    ensures RunRules("तू काय करते आहेस", [phrase]) == Pass("काय कराय लागलीस", [phrase])
  {
    var t := "तू काय करते आहेस";
    ReplacePhrase();
    Fire(t, [], phrase, Pass(t, []), "काय कराय लागलीस");
    assert [] + [phrase] == [phrase];
  }

  lemma KolhapurSkipsDeletion(rs: seq<Rule>, phrase: Rule, tu: Rule)
    requires tu == Rule("तू", "") && NonEmptyKeys(rs)
    requires RunRules("तू काय करते आहेस", rs) == Pass("काय कराय लागलीस", [phrase])
    ensures NonEmptyKeys(rs + [tu])
    ensures RunRules("तू काय करते आहेस", rs + [tu]) == Pass("काय कराय लागलीस", [phrase])
  {
    AbsentFirstLetter("काय कराय लागलीस", tu.from, 0);
    Skip("तू काय करते आहेस", rs, tu, Pass("काय कराय लागलीस", [phrase]));
  }

  lemma KolhapurRun(phrase: Rule, tu: Rule)
    requires phrase == Rule("तू काय करते आहेस", "काय कराय लागलीस") && tu == Rule("तू", "")
    ensures NonEmptyKeys([phrase, tu])
    ensures RunRules("तू काय करते आहेस", [phrase, tu]) == Pass("काय कराय लागलीस", [phrase])
  {
    KolhapurFiresPhrase(phrase);
    KolhapurSkipsDeletion([phrase], phrase, tu);
    assert [phrase] + [tu] == [phrase, tu];
  }

  lemma KolhapurTrace()
    ensures RenderAll([Rule("तू काय करते आहेस", "काय कराय लागलीस")]) == ["तू काय करते आहेस → काय कराय लागलीस"]
  {
    assert Render(Rule("तू काय करते आहेस", "काय कराय लागलीस")) == "तू काय करते आहेस → काय कराय लागलीस";
  }

  /** Kolhapur's phrase is longer than "तू", so it is replaced first and the
      deletion of "तू" that follows finds nothing left to delete. */
  lemma KolhapurPhraseBeforeDeletion()
    ensures Languages.IsDialect("kolhapur")
    ensures Transform("तू काय करते आहेस", "kolhapur")
         == RuleResult("काय कराय लागलीस", ["तू काय करते आहेस → काय कराय लागलीस"])
  {
    KolhapurIsDialect();
    KolhapurOrder();
    var phrase, tu := Rule("तू काय करते आहेस", "काय कराय लागलीस"), Rule("तू", "");
    KolhapurRun(phrase, tu);
    KolhapurTrace();
    TransformRuns("तू काय करते आहेस", "kolhapur", [phrase, tu], Pass("काय कराय लागलीस", [phrase]));
  }
}
