/**
 The locale catalog: at start-up the bot asks the translation provider for
 its supported languages and records each one's code and English display
 name, a later entry for the same code overwriting an earlier one.
 */
module Catalog {

  /** One entry of the provider's supported-languages response. */
  datatype Language = Language(languageCode: string, displayName: string)

  /** The response lists a language with this code and display name. */
  predicate Listed(langs: seq<Language>, code: string, name: string)
  {
    exists i :: 0 <= i < |langs| && langs[i] == Language(code, name)
  }

  /** The catalog after recording `langs` in order: every entry it holds is
      one the response lists. */
  function CatalogOf(langs: seq<Language>): (r: map<string, string>)
    ensures forall c :: c in r ==> Listed(langs, c, r[c])
  {
    if langs == [] then map[]
    else
      var last := langs[|langs| - 1];
      CatalogOf(langs[..|langs| - 1])[last.languageCode := last.displayName]
  }

  /** Recording one more entry over an existing catalog overwrites that
      entry's code. */
  lemma CatalogSnoc(base: map<string, string>, langs: seq<Language>, i: nat)
    requires i < |langs|
    ensures base + CatalogOf(langs[..i + 1])
      == (base + CatalogOf(langs[..i]))[langs[i].languageCode := langs[i].displayName]
  {
    assert langs[..i + 1][..i] == langs[..i];
  }

  /** A code is in the catalog iff the response lists it. */
  lemma {:induction false} CatalogKeys(langs: seq<Language>)
    ensures forall c :: c in CatalogOf(langs) <==> exists i :: 0 <= i < |langs| && langs[i].languageCode == c
  {
    if langs != [] {
      var init := langs[..|langs| - 1];
      CatalogKeys(init);
      forall c | c in CatalogOf(init) ensures exists i :: 0 <= i < |langs| && langs[i].languageCode == c {
        var i :| 0 <= i < |init| && init[i].languageCode == c;
        assert langs[i] == init[i];
      }
      forall c | exists i :: 0 <= i < |langs| && langs[i].languageCode == c
        ensures c in CatalogOf(langs)
      {
        var i :| 0 <= i < |langs| && langs[i].languageCode == c;
        if i < |init| {
          assert init[i] == langs[i];
        }
      }
    }
  }

  /** The display name recorded for a code is that of the last entry with
      that code. */
  lemma {:induction false} CatalogLastWins(langs: seq<Language>, i: nat)
    requires i < |langs|
    requires forall j :: i < j < |langs| ==> langs[j].languageCode != langs[i].languageCode
    ensures langs[i].languageCode in CatalogOf(langs)
    ensures CatalogOf(langs)[langs[i].languageCode] == langs[i].displayName
  {
    var init := langs[..|langs| - 1];
    if i < |init| {
      assert init[i] == langs[i];
      forall j | i < j < |init| ensures init[j].languageCode != init[i].languageCode {
        assert init[j] == langs[j];
      }
      CatalogLastWins(init, i);
    }
  }
}
