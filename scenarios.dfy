/**
  Worked cases of the model on concrete inputs: the article prefixing of an
  apple with and without a knowledge-base record, the tag priority, when the
  es_ar fallback is and is not taken, and a lookup address.
*/
module Scenarios {
  import opened Wrappers
  import opened Text
  import opened Lexicon
  import opened Phonetics
  import opened Annotation
  import opened Merge
  import opened Knowledge

  /** "Pomme" is one word: its only field is itself. */
  lemma PommeIsOneWord()
    ensures Split("Pomme", ' ') == ["Pomme"]
  {
    var parts := Split("Pomme", ' ');
    SplitFirst("Pomme", ' ');
    assert ' ' !in "Pomme";
  }

  /**
    With "pomme" recorded feminine, the lower-cased headword of an item name is
    prefixed with "Une"; with no record the name is left as it is.
  */
  lemma ApplePrefixed()
    ensures Prefixed(French, Base, Some(map["pomme" := Some(Feminine)]), "item.minecraft.apple", "Pomme") == "Une pomme"
    ensures Prefixed(French, Base, Some(map[]), "item.minecraft.apple", "Pomme") == "Pomme"
  {
    PommeIsOneWord();
    assert "item.minecraft.apple"[..14] == "item.minecraft";
    assert Lower("Pomme") == "pomme" by {
      assert LowerChar('P') == 'p';
    }
    assert Join(["Pomme"][1..], ' ') == [];
  }

  /** A masculine German noun of the base game takes `Der`, and the entry shows it beside the English name. */
  lemma GermanAppleEntry()
    ensures Entry(Config("de_de", Some(map["Apfel" := Some(Masculine)])), Base, "item.minecraft.apple", "Apfel", "Apple")
         == "Der Apfel / Apple"
  {
    var cfg := Config("de_de", Some(map["Apfel" := Some(Masculine)]));
    GermanIsGerman();
    GermanAppleAnnotated();
    AppleComposed();
    PrefixingFamilyEntry(cfg, Base, "item.minecraft.apple", "Apfel", "Apple");
  }

  /** Outside Spanish, the fallback and French modules without a knowledge base, an entry is composed. */
  lemma PrefixingFamilyEntry(cfg: Config, stage: Stage, key: string, text: string, ref: string)
    requires stage != Fallback && FamilyOf(cfg.lang) in {German, Other}
    ensures Entry(cfg, stage, key, text, ref) == Compose(Annotate(cfg, stage, key, text), ref)
  {
  }

  /** `Der Apfel` differs from `Apple`, so both are shown. */
  lemma AppleComposed()
    ensures Compose("Der Apfel", "Apple") == "Der Apfel / Apple"
  {
    AppleUnbulleted();
  }

  /** German annotation of a base-game name is its article prefixing. */
  lemma GermanAppleAnnotated()
    ensures Annotate(Config("de_de", Some(map["Apfel" := Some(Masculine)])), Base, "item.minecraft.apple", "Apfel") == "Der Apfel"
  {
    GermanIsGerman();
    GermanApplePrefixed();
  }

  lemma GermanIsGerman()
    ensures FamilyOf("de_de") == German
  {
    assert "de_de"[..3] == "de_";
  }

  /** `Apfel` is one word, recorded masculine: the base-game item name becomes `Der Apfel`. */
  lemma GermanApplePrefixed()
    ensures Prefixed(German, Base, Some(map["Apfel" := Some(Masculine)]), "item.minecraft.apple", "Apfel") == "Der Apfel"
  {
    assert "item.minecraft.apple"[..14] == "item.minecraft";
    SplitFirst("Apfel", ' ');
    assert ' ' !in "Apfel";
    assert Split("Apfel", ' ') == ["Apfel"];
    assert Join(["Apfel"][1..], ' ') == [];
  }

  /** `Apple` has no placeholder, so it is shown as it is. */
  lemma AppleUnbulleted()
    ensures Bullet("Apple") == "Apple"
  {
    forall i
      ensures !OccursAt("Apple", "%s", i)
    {
      if 0 <= i && i + 2 <= 5 {
        assert "Apple"[i] != '%';
      }
    }
    BulletWithoutPlaceholder("Apple");
  }

  /** A single category tag is recorded as is; plural outranks masculine. */
  lemma TagPriority()
    ensures ResolveTag(["feminine"]) == Some(Feminine)
    ensures ResolveTag(["masculine", "plural"]) == Some(Plural)
  {
  }

  /** Under es_ar a module whose own file fails is read from its es_mx file, bilingually. */
  lemma MexicanFallback(b: Bundle)
    ensures var m := ModuleInput("x", OtherError, Loaded(b), ModMissing);
      && OutcomeOf(Config("es_ar", None), m) == Done("es_mx")
      && UsedBundle(Config("es_ar", None), m) == Some(Used(b, Fallback))
  {
  }

  /**
    Under es_ar a module without an es_ar file is skipped even when its es_mx
    file would read: the missing file is a KeyError, caught before the handler
    that retries.
  */
  lemma MissingFileSkipsFallback(b: Bundle)
    ensures var m := ModuleInput("x", LangFileMissing, Loaded(b), Loaded(b));
      && OutcomeOf(Config("es_ar", None), m) == TranslationFileNotFound
      && UsedBundle(Config("es_ar", None), m).None?
  {
  }

  /** `oculus` is in the list and ships its files under `iris`. */
  lemma OculusFolder()
    ensures "oculus" in SupportedMods && AssetFolder("oculus") == "iris"
  {
    assert SupportedMods[33] == "oculus";
    assert Replace("oculus", "-", "") == "oculus";
    assert Replace("oculus", "trap", "trp") == "oculus";
    assert Replace("oculus", "wthit", "waila") == "oculus";
    assert Replace("oculus", "xaeros_", "xaero") == "oculus";
    assert Replace("oculus", "betterpvp", "xaerobetterpvp") == "oculus";
    assert Replace("oculus", "oculus", "iris") == "iris";
  }

  /** `wthit` is in the list and ships its files under `waila`. */
  lemma WthitFolder()
    ensures "wthit" in SupportedMods && AssetFolder("wthit") == "waila"
  {
    assert SupportedMods[43] == "wthit";
    assert Replace("wthit", "-", "") == "wthit";
    assert Replace("wthit", "trap", "trp") == "wthit";
    assert Replace("wthit", "wthit", "waila") == "waila";
    assert Replace("waila", "xaeros_", "xaero") == "waila";
    assert Replace("waila", "betterpvp", "xaerobetterpvp") == "waila";
    assert Replace("waila", "oculus", "iris") == "waila";
  }

  /** The lookup address of "pomme". */
  lemma PommeAddress()
    ensures Url("French", "pomme") == Some("https://kaikki.org/dictionary/French/meaning/p/po/pomme.json")
  {
    assert Prefix2("pomme") == "po";
    assert ["pomme"[0]] == "p";
    assert DictionaryRoot + "French" + "/meaning/" + "p" + "/" + "po" + "/" + "pomme" + ".json"
        == "https://kaikki.org/dictionary/French/meaning/p/po/pomme.json";
  }
}
