/** The static language catalog of the form and the code-to-name lookup
    used to label selected-language chips and generated descriptions. */
module Languages {
  import opened Wrappers

  datatype Language = Language(code: string, name: string)

  /** The catalog, in the order the language picker lists it. */
  const Catalog: seq<Language> := [
    Language("en", "English"),
    Language("es", "Spanish"),
    Language("fr", "French"),
    Language("de", "German"),
    Language("it", "Italian"),
    Language("ja", "Japanese"),
    Language("ko", "Korean"),
    Language("zh", "Chinese")
  ]

  /** The codes of a list of languages, in order. */
  function Codes(langs: seq<Language>): (r: seq<string>)
    ensures |r| == |langs|
    ensures forall i :: 0 <= i < |langs| ==> r[i] == langs[i].code
  {
    if langs == [] then [] else [langs[0].code] + Codes(langs[1..])
  }

  /** The index `langs.find(l => l.code === code)` stops at: the FIRST entry with that code, if any. */
  function FindIndex(langs: seq<Language>, code: string): (r: Option<nat>)
    ensures r.Some? ==> r.value < |langs| && langs[r.value].code == code
    ensures r.Some? ==> forall j :: 0 <= j < r.value ==> langs[j].code != code
    ensures r.None? ==> forall j :: 0 <= j < |langs| ==> langs[j].code != code
  {
    if langs == [] then None
    else if langs[0].code == code then Some(0)
    else
      match FindIndex(langs[1..], code)
      case Some(k) => Some(k + 1)
      case None => None
  }

  /** `langs.find(l => l.code === code)`: the first entry carrying the code, or nothing. */
  function Find(langs: seq<Language>, code: string): (r: Option<Language>)
    ensures r.None? <==> code !in Codes(langs)
    ensures r.Some? ==> r.value.code == code
    ensures r.Some? ==>
      exists i :: 0 <= i < |langs| && langs[i] == r.value && code !in Codes(langs[..i])
  {
    match FindIndex(langs, code)
    case Some(k) => Some(langs[k])
    case None => None
  }

  /** `languages.find(l => l.code === code)?.name`: the display name of a code,
      defined exactly for the codes the catalog lists, and then the name listed beside it. */
  function NameOf(code: string): (r: Option<string>)
    ensures r.Some? <==> code in Codes(Catalog)
    ensures r.Some? ==> exists i :: 0 <= i < |Catalog| && Catalog[i].code == code && Catalog[i].name == r.value
  {
    match Find(Catalog, code)
    case Some(lang) => Some(lang.name)
    case None => None
  }

  /** Every code in a list resolved to its display name, in order. */
  function Names(codes: seq<string>): (r: seq<Option<string>>)
    ensures |r| == |codes|
    ensures forall i :: 0 <= i < |codes| ==> r[i] == NameOf(codes[i])
  {
    if codes == [] then [] else [NameOf(codes[0])] + Names(codes[1..])
  }

  /** No code appears twice in a list. */
  predicate DistinctCodes(langs: seq<Language>)
  {
    forall i, j :: 0 <= i < j < |langs| ==> langs[i].code != langs[j].code
  }

  /** With distinct codes, the entry `Find` returns is the one holding the code. */
  lemma FindDistinct(langs: seq<Language>, i: nat)
    requires DistinctCodes(langs)
    requires i < |langs|
    ensures Find(langs, langs[i].code) == Some(langs[i])
  {
  }

  /** The catalog lists each code once. */
  lemma CatalogDistinct()
    ensures DistinctCodes(Catalog)
  {
  }

  /** Every catalog code is labelled with the name its own entry gives. */
  lemma CatalogNames()
    ensures forall i :: 0 <= i < |Catalog| ==> NameOf(Catalog[i].code) == Some(Catalog[i].name)
  {
    CatalogDistinct();
    forall i | 0 <= i < |Catalog|
      ensures NameOf(Catalog[i].code) == Some(Catalog[i].name)
    {
      FindDistinct(Catalog, i);
    }
  }

  /** Codes resolved to names: every catalog code gets a label, in order. */
  lemma {:induction false} NamesOfCatalogCodes(codes: seq<string>)
    requires forall c :: c in codes ==> c in Codes(Catalog)
    ensures forall i :: 0 <= i < |codes| ==> Names(codes)[i].Some?
  {
    forall i | 0 <= i < |codes|
      ensures Names(codes)[i].Some?
    {
      assert codes[i] in codes;
    }
  }
}
