/**
 * The dialect catalogue: the seventeen Marathi varieties the translator
 * offers, each with an identifier (`value`) and a display name (`label`, here `labelText` because `label` is a Dafny keyword).
 * The identifiers drive request validation and key the substitution table.
 */
module Languages {

  datatype DialectEntry = DialectEntry(value: string, labelText: string)

  /** The catalogue, in display order. */
  const Dialects: seq<DialectEntry> := [
    DialectEntry("standard", "Standard Marathi"),
    DialectEntry("pune", "Pune Marathi"),
    DialectEntry("mumbai", "Mumbai Marathi"),
    DialectEntry("nagpur", "Nagpur Marathi (Varhadi)"),
    DialectEntry("kolhapur", "Kolhapur Marathi"),
    DialectEntry("ahirani", "Ahirani (Khandesh)"),
    DialectEntry("malvani", "Malvani (Konkan)"),
    DialectEntry("agri", "Agri (Raigad/Thane)"),
    DialectEntry("warli", "Warli (Tribal)"),
    DialectEntry("thanjavur", "Thanjavur Marathi"),
    DialectEntry("koli", "Koli (Fisherfolk Dialect)"),
    DialectEntry("solapuri", "Solapuri"),
    DialectEntry("marathwada", "Marathwada Marathi"),
    DialectEntry("belgaum", "Belgaum Marathi"),
    DialectEntry("dangii", "Dangii"),
    DialectEntry("pawra", "Pawra"),
    DialectEntry("gondi", "Gondi")
  ]

  /** The identifier that has no substitution rules. */
  const Standard: string := "standard"

  /** `dialects.map(d => d.value)`. */
  function Values(): (vs: seq<string>)
    ensures |vs| == |Dialects|
    ensures forall i :: 0 <= i < |vs| ==> vs[i] == Dialects[i].value
  {
    seq(|Dialects|, i requires 0 <= i < |Dialects| => Dialects[i].value)
  }

  /** Membership in the TypeScript type `Dialect`, the union of the
      catalogue's values. */
  predicate IsDialect(s: string) {
    s in Values()
  }

  /** The catalogue has seventeen entries, 'standard' first, pairwise
      distinct identifiers and a non-empty label on every entry. */
  lemma CatalogueShape()
    ensures |Dialects| == 17
    ensures Dialects[0].value == Standard
    ensures forall i, j :: 0 <= i < j < |Dialects| ==> Dialects[i].value != Dialects[j].value
    ensures forall i :: 0 <= i < |Dialects| ==> Dialects[i].labelText != ""
  {
    DistinctValues();
    LabelsPresent();
  }

  /** No two identifiers agree in length, first two letters and last letter. */
  lemma DistinctValues()
    ensures forall i, j :: 0 <= i < j < |Dialects| ==> Dialects[i].value != Dialects[j].value
  {
    forall i, j | 0 <= i < j < |Dialects|
      ensures Dialects[i].value != Dialects[j].value
    {
      var a, b := Dialects[i].value, Dialects[j].value;
      assert |a| != |b| || a[0] != b[0] || a[1] != b[1] || a[|a| - 1] != b[|b| - 1];
    }
  }

  lemma LabelsPresent()
    ensures forall i :: 0 <= i < |Dialects| ==> Dialects[i].labelText != ""
  {
  }

  /** The type `Dialect` is exactly the set of catalogue identifiers. */
  lemma DialectIsCatalogue(s: string)
    ensures IsDialect(s) <==> exists i :: 0 <= i < |Dialects| && Dialects[i].value == s
  {
    if IsDialect(s) {
      var i :| 0 <= i < |Values()| && Values()[i] == s;
      assert Dialects[i].value == s;
    }
  }
}
