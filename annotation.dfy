/**
  The per-entry annotation of main.py: which rule family a language variant
  selects, article prefixing from the knowledge base, the pronunciation chain,
  and the "annotated / reference" composition.
*/
module Annotation {
  import opened Wrappers
  import opened Text
  import opened Lexicon
  import opened Phonetics

  /** The rule family chosen by the prefix of the language variant. */
  datatype Family = Spanish | French | German | Other

  /** `LANG.startswith('es_')`, then `'fr_'`, then `'de_'`; anything else gets no rules. */
  function FamilyOf(lang: string): Family {
    if StartsWith(lang, "es_") then Spanish
    else if StartsWith(lang, "fr_") then French
    else if StartsWith(lang, "de_") then German
    else Other
  }

  /**
    One run's configuration: the language variant (`LANG`) and the knowledge
    base, present only when its file exists.
  */
  datatype Config = Config(lang: string, kb: Option<KnowledgeBase>)

  /**
    Which loop an entry is annotated in: the base game, a module in the requested
    variant, or a module in an es_ar fallback variant (es_mx, es_es).
  */
  datatype Stage = Base | Module | Fallback

  /**
    The keys whose first word may take an article: base-game item, block and
    entity names, biomes and containers; in modules item, block, entity and
    biome keys of any namespace, but not containers.
  */
  predicate NounKey(stage: Stage, key: string) {
    if stage == Base then
      StartsWith(key, "item.minecraft") || StartsWith(key, "block.minecraft") ||
      StartsWith(key, "entity.minecraft") || StartsWith(key, "biome.") || StartsWith(key, "container.")
    else
      StartsWith(key, "item.") || StartsWith(key, "block.") || StartsWith(key, "entity.") || StartsWith(key, "biome.")
  }

  /**
    The article tables: French indefinite articles for 'm', 'f' and 'p', German
    definite articles for all four categories.  Every other combination, and a
    stored `None`, has no article.
  */
  function Article(fam: Family, tag: Option<Gender>): Option<string> {
    match (fam, tag)
    case (French, Some(Masculine)) => Some("Un ")
    case (French, Some(Feminine)) => Some("Une ")
    case (French, Some(Plural)) => Some("Des ")
    case (German, Some(Masculine)) => Some("Der ")
    case (German, Some(Feminine)) => Some("Die ")
    case (German, Some(Neuter)) => Some("Das ")
    case (German, Some(Plural)) => Some("(pl.) ")
    case _ => None
  }

  /**
    The form of the first word that is looked up and written after the article:
    lower-cased in French, corrected from Kokusnuss to Kokosnuss in German module
    entries, unchanged otherwise.
  */
  function LookupForm(fam: Family, stage: Stage, token: string): string {
    if fam == French then Lower(token)
    else if stage == Module then Replace(token, "Kokusnuss", "Kokosnuss")
    else token
  }

  /**
    Article prefixing: with a knowledge base and a noun key, the first
    space-separated word is looked up in its lookup form; when its category has an
    article, the text becomes article + lookup form + the other words re-joined,
    preceded by a space only when they are non-empty.
  */
  function Prefixed(fam: Family, stage: Stage, kb: Option<KnowledgeBase>, key: string, text: string): string {
    if kb.None? || !NounKey(stage, key) then text
    else
      var parts := Split(text, ' ');
      var first := LookupForm(fam, stage, parts[0]);
      var rest := Join(parts[1..], ' ');
      var tail := if rest == [] then [] else " " + rest;
      if first in kb.value && Article(fam, kb.value[first]).Some? then
        Article(fam, kb.value[first]).value + first + tail
      else text
  }

  /** The lookup form has as many characters as the word it comes from. */
  lemma LookupFormLength(fam: Family, stage: Stage, token: string)
    ensures |LookupForm(fam, stage, token)| == |token|
  {
    if fam != French && stage == Module {
      ReplaceKeepsLength(token, "Kokusnuss", "Kokosnuss");
    }
  }

  /** The German lookup form keeps a dash of its word. */
  lemma GermanLookupKeepsDash(stage: Stage, token: string)
    requires '-' in token
    ensures '-' in LookupForm(German, stage, token)
  {
    if stage == Module {
      var vowels := {'o', 'u'};
      assert Erase("Kokusnuss", vowels) == Erase("Kokosnuss", vowels);
      ReplaceErase(token, "Kokusnuss", "Kokosnuss", vowels);
      EraseKeeps(token, vowels, '-');
      EraseKeeps(LookupForm(German, stage, token), vowels, '-');
    }
  }

  /** With a knowledge base whose words have no dash, a German first word with a dash is never prefixed. */
  lemma DashedWordNotLookedUp(stage: Stage, kb: KnowledgeBase, key: string, text: string)
    requires forall w :: w in kb ==> '-' !in w
    requires '-' in Split(text, ' ')[0]
    ensures Prefixed(German, stage, Some(kb), key, text) == text
  {
    GermanLookupKeepsDash(stage, Split(text, ' ')[0]);
  }

  /** Whether the article rule fires for this entry. */
  predicate ArticleApplies(fam: Family, stage: Stage, kb: Option<KnowledgeBase>, key: string, text: string) {
    var first := LookupForm(fam, stage, Split(text, ' ')[0]);
    kb.Some? && NounKey(stage, key) && first in kb.value && Article(fam, kb.value[first]).Some?
  }

  /**
    Prefixing in terms of the text itself: it changes the text exactly when the
    rule fires, and then the result is the article, the lookup form of the first
    word, and everything after that word -- except that an only space that ends
    the text is dropped.
  */
  lemma PrefixedShape(fam: Family, stage: Stage, kb: Option<KnowledgeBase>, key: string, text: string)
    ensures var token := Split(text, ' ')[0];
      var first := LookupForm(fam, stage, token);
      var after := text[|token|..];
      && (ArticleApplies(fam, stage, kb, key, text) ==>
            Prefixed(fam, stage, kb, key, text)
            == Article(fam, kb.value[first]).value + first + (if after == " " then [] else after))
      && (ArticleApplies(fam, stage, kb, key, text) <==> Prefixed(fam, stage, kb, key, text) != text)
  {
    var parts := Split(text, ' ');
    var token := parts[0];
    var first := LookupForm(fam, stage, token);
    var rest := Join(parts[1..], ' ');
    var tail := if rest == [] then [] else " " + rest;
    RestAfterFirstWord(text);
    LookupFormLength(fam, stage, token);
    if ArticleApplies(fam, stage, kb, key, text) {
      var art := Article(fam, kb.value[first]).value;
      assert |art| >= 3;
      assert |art + first + tail| > |text|;
    }
  }

  /**
    The re-joined words after the first are the text after the first word,
    with a sole trailing space dropped.
  */
  lemma RestAfterFirstWord(text: string)
    ensures var parts := Split(text, ' ');
      var rest := Join(parts[1..], ' ');
      var after := text[|parts[0]|..];
      (if rest == [] then [] else " " + rest) == (if after == " " then [] else after)
  {
    var parts := Split(text, ' ');
    var rest := Join(parts[1..], ' ');
    var after := text[|parts[0]|..];
    SplitFirst(text, ' ');
    if |parts| > 1 {
      assert text == parts[0] + " " + rest;
      assert after == " " + rest;
      assert after == " " <==> rest == [];
    } else {
      assert parts[0] == text && after == [];
      assert parts[1..] == [] && rest == [];
    }
  }

  /** A key outside the noun categories is never prefixed, whatever its first word. */
  lemma NonNounNeverPrefixed(fam: Family, stage: Stage, kb: Option<KnowledgeBase>, key: string, text: string)
    requires !NounKey(stage, key)
    ensures Prefixed(fam, stage, kb, key, text) == text
  {
  }

  // ---------------------------------------------------------------------------
  // Composition
  // ---------------------------------------------------------------------------

  /** `ref.replace('%s', '●')`: every format placeholder shown as a bullet. */
  function Bullet(ref: string): string {
    Replace(ref, "%s", "●")
  }

  /** The first character of a bulleted text is the text's own or a bullet. */
  lemma BulletHead(s: string)
    requires Bullet(s) != []
    ensures Bullet(s)[0] == s[0] || Bullet(s)[0] == '●'
  {
  }

  /** No placeholder survives the bullet substitution. */
  lemma {:induction false} BulletLeavesNoPlaceholder(s: string)
    ensures forall i :: !OccursAt(Bullet(s), "%s", i)
    decreases |s|
  {
    if |s| >= 2 {
      var b := Bullet(s);
      if s[..2] == "%s" {
        BulletLeavesNoPlaceholder(s[2..]);
        assert b == "●" + Bullet(s[2..]);
        forall i
          ensures !OccursAt(b, "%s", i)
        {
          if i < 0 || i + 2 > |b| {
          } else if i > 0 {
            assert b[1..] == Bullet(s[2..]);
            OccursShift(b, "%s", i - 1);
            assert !OccursAt(Bullet(s[2..]), "%s", i - 1);
          } else {
            assert b[0] == '●';
            assert b[i..i + 2][0] == b[0];
          }
        }
      } else {
        BulletLeavesNoPlaceholder(s[1..]);
        assert b == [s[0]] + Bullet(s[1..]);
        forall i
          ensures !OccursAt(b, "%s", i)
        {
          if i < 0 || i + 2 > |b| {
          } else if i > 0 {
            assert b[1..] == Bullet(s[1..]);
            OccursShift(b, "%s", i - 1);
            assert !OccursAt(Bullet(s[1..]), "%s", i - 1);
          } else {
            var t := Bullet(s[1..]);
            assert |t| >= 1;
            BulletHead(s[1..]);
            assert b[0] == s[0] && b[1] == t[0];
            assert s[..2] == [s[0], s[1]];
            assert t[0] != 's' || s[0] != '%';
            assert b[i..i + 2][0] == b[0] && b[i..i + 2][1] == b[1];
          }
        }
      }
    }
  }

  /** Up to the first placeholder, the bulleted text is the text itself. */
  lemma {:induction false} BulletKeepsPrefix(s: string, i: nat)
    requires i <= |s|
    requires forall j :: 0 <= j < i ==> !OccursAt(s, "%s", j)
    ensures |Bullet(s)| >= i && Bullet(s)[..i] == s[..i]
    decreases i
  {
    if i > 0 && |s| >= 2 {
      assert !OccursAt(s, "%s", 0);
      assert s[..2] != "%s";
      var t := Bullet(s[1..]);
      assert Bullet(s) == [s[0]] + t;
      forall j | 0 <= j < i - 1
        ensures !OccursAt(s[1..], "%s", j)
      {
        OccursShift(s, "%s", j);
      }
      BulletKeepsPrefix(s[1..], i - 1);
      assert s[..i] == [s[0]] + s[1..][..i - 1];
      assert Bullet(s)[..i] == [s[0]] + t[..i - 1];
    }
  }

  /** A reference without placeholders is shown as it is. */
  lemma BulletWithoutPlaceholder(s: string)
    requires forall i :: !OccursAt(s, "%s", i)
    ensures Bullet(s) == s
  {
    ReplaceAbsent(s, "%s", "●");
  }

  /** Annotated text, the separator, and the reference with bullets. */
  function Bilingual(annotated: string, ref: string): string {
    annotated + " / " + Bullet(ref)
  }

  /**
    The composition rule of the French, German and other families: the bilingual
    form when annotation changed the text, otherwise the reference exactly as it
    is, without the bullet substitution.
  */
  function Compose(annotated: string, ref: string): string {
    if ref != annotated then Bilingual(annotated, ref) else ref
  }

  // ---------------------------------------------------------------------------
  // One entry
  // ---------------------------------------------------------------------------

  /** The annotated (left-hand) side of an entry. */
  function Annotate(cfg: Config, stage: Stage, key: string, text: string): string {
    var fam := FamilyOf(cfg.lang);
    if stage == Fallback then
      (if fam == Spanish then SpanishMarkers(text, FallbackDigraphLetters) else text)
    else
      match fam
      case Spanish => SpanishMarkers(text, DigraphLetters)
      case French =>
        var prefixed := Prefixed(French, stage, cfg.kb, key, text);
        if stage == Base then FrenchMarkers(prefixed) else FrenchModuleMarkers(prefixed)
      case German => Prefixed(German, stage, cfg.kb, key, text)
      case Other => text
  }

  /**
    The value written for a key present in both the source-language and the
    reference (en_us) bundle.  Spanish entries and the es_ar fallback entries are
    always bilingual; French module entries are annotated only when a knowledge
    base is loaded; every other entry follows the composition rule.
  */
  function Entry(cfg: Config, stage: Stage, key: string, text: string, ref: string): string {
    var fam := FamilyOf(cfg.lang);
    var annotated := Annotate(cfg, stage, key, text);
    if stage == Fallback || fam == Spanish then Bilingual(annotated, ref)
    else if fam == French && stage == Module && cfg.kb.None? then ref
    else Compose(annotated, ref)
  }

  /**
    The reference is never dropped: an entry is the reference itself or ends
    with the separator and the bulleted reference, which holds no placeholder;
    Spanish and fallback entries always take the second form.  A French module
    entry without a knowledge base is the bare reference; any other entry shows
    its annotation exactly when the annotation differs from the reference.
  */
  lemma ReferenceKept(cfg: Config, stage: Stage, key: string, text: string, ref: string)
    ensures var e := Entry(cfg, stage, key, text, ref);
      && (e == ref || EndsWith(e, " / " + Bullet(ref)))
      && (stage == Fallback || FamilyOf(cfg.lang) == Spanish ==> EndsWith(e, " / " + Bullet(ref)))
      && (forall i :: !OccursAt(Bullet(ref), "%s", i))
      && (FamilyOf(cfg.lang) == French && stage == Module && cfg.kb.None? ==> e == ref)
      && (stage != Fallback && FamilyOf(cfg.lang) != Spanish && !(FamilyOf(cfg.lang) == French && stage == Module && cfg.kb.None?) ==>
            var a := Annotate(cfg, stage, key, text);
            (a != ref ==> e == a + " / " + Bullet(ref)) && (a == ref ==> e == ref))
  {
    BulletLeavesNoPlaceholder(ref);
    var b := Bilingual(Annotate(cfg, stage, key, text), ref);
    var tail := " / " + Bullet(ref);
    assert b[|b| - |tail|..] == tail;
  }

  /**
    Spanish entries are always bilingual, whatever the annotation did, and the
    annotation reads back as the source text (up to stress marks and brackets);
    the es_ar fallback keeps a bare h only after C and c.
  */
  lemma SpanishEntry(cfg: Config, stage: Stage, key: string, text: string, ref: string)
    requires FamilyOf(cfg.lang) == Spanish
    ensures var excluded := if stage == Fallback then FallbackDigraphLetters else DigraphLetters;
      var annotated := SpanishMarkers(text, excluded);
      && Entry(cfg, stage, key, text, ref) == annotated + " / " + Bullet(ref)
      && SpanishPlain(annotated) == Erase(Erase(text, Backtick), Brackets)
  {
    SpanishPlainInverts(text, if stage == Fallback then FallbackDigraphLetters else DigraphLetters);
  }

  /**
    The French annotation only adds brackets to the prefixed text: erasing them
    gives the article-prefixed source text back.
  */
  lemma FrenchAnnotationErase(cfg: Config, key: string, text: string)
    requires FamilyOf(cfg.lang) == French
    ensures Erase(Annotate(cfg, Base, key, text), Brackets)
         == Erase(Prefixed(French, Base, cfg.kb, key, text), Brackets)
  {
    FrenchMarkersErase(Prefixed(French, Base, cfg.kb, key, text));
  }

  /**
    The loop body of main.py for one key, with the `finditer` loop of the French
    chain run as a loop.
  */
  method AnnotateEntry(cfg: Config, stage: Stage, key: string, text: string, ref: string) returns (v: string)
    ensures v == Entry(cfg, stage, key, text, ref)
  {
    var fam := FamilyOf(cfg.lang);
    if stage == Fallback {
      var annotated := if fam == Spanish then SpanishMarkers(text, FallbackDigraphLetters) else text;
      v := Bilingual(annotated, ref);
    } else if fam == Spanish {
      v := Bilingual(SpanishMarkers(text, DigraphLetters), ref);
    } else if fam == French {
      if stage == Module && cfg.kb.None? {
        v := ref;
      } else {
        var prefixed := Prefixed(French, stage, cfg.kb, key, text);
        var pre := if stage == Base then FrenchPreMarkers(prefixed) else FrenchModulePreMarkers(prefixed);
        var tmp := MarkQuiAgreement(pre);
        v := Compose(tmp, ref);
      }
    } else if fam == German {
      v := Compose(Prefixed(German, stage, cfg.kb, key, text), ref);
    } else {
      v := Compose(text, ref);
    }
  }
}
