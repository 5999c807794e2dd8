/**
  The knowledge-base builder of optional_grammatical_gender.py: it collects the
  headwords of the base game and of every readable module language file, sorts
  them without duplicates, looks each one up in the Wiktionary extract served by
  kaikki.org, and records the grammatical category of its first noun sense.
  The HTTP request and the JSON decoding of a dictionary line are parameters.
*/
module Knowledge {
  import opened Wrappers
  import opened Text
  import opened Lexicon
  import opened Ordering
  import Annotation

  // ---------------------------------------------------------------------------
  // Language
  // ---------------------------------------------------------------------------

  /** The first two characters of the language variant (`LANG[:2]`). */
  function Prefix2(s: string): string {
    if |s| < 2 then s else s[..2]
  }

  /**
    The dictionary directory of a language variant; `None` is the
    "language not supported" exception.
  */
  function LangDirectory(lang: string): (d: Option<string>)
    ensures d == Some("French") <==> StartsWith(lang, "fr")
    ensures d == Some("Spanish") <==> StartsWith(lang, "es")
    ensures d == Some("German") <==> StartsWith(lang, "de")
    ensures d.None? <==> !StartsWith(lang, "fr") && !StartsWith(lang, "es") && !StartsWith(lang, "de")
  {
    var p := Prefix2(lang);
    if p == "fr" then Some("French")
    else if p == "es" then Some("Spanish")
    else if p == "de" then Some("German")
    else None
  }

  /** Every variant the annotation rules treat as French, Spanish or German has its dictionary. */
  lemma FamilyHasDirectory(lang: string)
    ensures Annotation.FamilyOf(lang) == Annotation.French ==> LangDirectory(lang) == Some("French")
    ensures Annotation.FamilyOf(lang) == Annotation.Spanish ==> LangDirectory(lang) == Some("Spanish")
    ensures Annotation.FamilyOf(lang) == Annotation.German ==> LangDirectory(lang) == Some("German")
  {
    if StartsWith(lang, "fr_") {
      assert lang[..2] == lang[..3][..2];
    }
    if StartsWith(lang, "es_") {
      assert lang[..2] == lang[..3][..2];
    }
    if StartsWith(lang, "de_") {
      assert lang[..2] == lang[..3][..2];
    }
  }

  // ---------------------------------------------------------------------------
  // Headwords
  // ---------------------------------------------------------------------------

  /** The first space-separated token of a display name. */
  function FirstToken(text: string): (t: string)
    ensures StartsWith(text, t) && ' ' !in t
  {
    Split(text, ' ')[0]
  }

  /** `parts[-1]`. */
  function Last(parts: seq<string>): string
    requires parts != []
  {
    parts[|parts| - 1]
  }

  /**
    The headword of a display name: in German the part of the first token after
    its last dash (the head of a compound written with dashes), elsewhere the
    lower-cased first token.
  */
  function Headword(german: bool, text: string): string {
    if german then Last(Split(FirstToken(text), '-')) else Lower(FirstToken(text))
  }

  /** A German headword is a dash-free tail of the first token. */
  lemma GermanHeadword(text: string)
    ensures '-' !in Headword(true, text)
    ensures EndsWith(FirstToken(text), Headword(true, text))
    ensures '-' !in FirstToken(text) ==> Headword(true, text) == FirstToken(text)
  {
    LastFieldIsSuffix(FirstToken(text), '-');
  }

  /** The last field of a split ends the text, and is the whole text without separators. */
  lemma {:induction false} LastFieldIsSuffix(s: string, sep: char)
    ensures EndsWith(s, Last(Split(s, sep)))
    ensures sep !in s ==> Last(Split(s, sep)) == s
    decreases |s|
  {
    if sep !in s {
      SplitFirst(s, sep);
    } else {
      LastFieldIsSuffix(s[1..], sep);
      var last := Last(Split(s[1..], sep));
      LastFieldOfTail(s, sep);
      assert s[1..][|s[1..]| - |last|..] == s[|s| - |last|..];
    }
  }

  /** When the text holds a separator, its last field is that of the text without its first character. */
  lemma LastFieldOfTail(s: string, sep: char)
    requires sep in s
    ensures Last(Split(s, sep)) == Last(Split(s[1..], sep))
  {
    var rest := Split(s[1..], sep);
    if s[0] == sep {
      assert Split(s, sep) == [[]] + rest;
    } else {
      assert sep in s[1..];
      SplitFirst(s[1..], sep);
      assert |rest| > 1;
      assert Split(s, sep) == [[s[0]] + rest[0]] + rest[1..];
    }
  }

  /** A non-German headword is already in lower case and has the length of the first token. */
  lemma LowerHeadword(text: string)
    ensures Lower(Headword(false, text)) == Headword(false, text)
    ensures |Headword(false, text)| == |FirstToken(text)|
  {
    LowerIdempotent(FirstToken(text));
  }

  /** The shape of a headword in either case. */
  lemma HeadwordShape(german: bool, text: string)
    ensures german ==> '-' !in Headword(german, text)
    ensures !german ==> Lower(Headword(german, text)) == Headword(german, text)
  {
    if german {
      GermanHeadword(text);
    } else {
      LowerHeadword(text);
    }
  }

  /**
    Whether an entry yields a headword: its raw first token is longer than two
    characters and its key names an item, block or entity (of the base game
    itself for the base bundle, of any namespace for a module).
  */
  predicate Candidate(base: bool, key: string, text: string) {
    |FirstToken(text)| > 2 &&
    if base then
      StartsWith(key, "item.minecraft") || StartsWith(key, "block.minecraft") || StartsWith(key, "entity.minecraft")
    else
      StartsWith(key, "item.") || StartsWith(key, "block.") || StartsWith(key, "entity.")
  }

  /** The headwords of one decoded language file. */
  function Headwords(german: bool, base: bool, trans: map<string, string>): set<string> {
    set k | k in trans && Candidate(base, k, trans[k]) :: Headword(german, trans[k])
  }

  /** A headword of a file is the headword of one of its candidate entries. */
  lemma HeadwordSource(german: bool, base: bool, trans: map<string, string>, w: string)
    requires w in Headwords(german, base, trans)
    ensures exists k :: k in trans && Candidate(base, k, trans[k]) && w == Headword(german, trans[k])
  {
  }

  /** A module language file as the loop finds it: decoded, or failing in any way. */
  datatype ModuleText = Read(trans: map<string, string>) | Unreadable

  /** The headwords of the modules that read, in list order. */
  function ModuleHeadwords(german: bool, mods: seq<ModuleText>): set<string>
    decreases |mods|
  {
    if mods == [] then {}
    else
      var last := mods[|mods| - 1];
      ModuleHeadwords(german, mods[..|mods| - 1]) + if last.Read? then Headwords(german, false, last.trans) else {}
  }

  /** Every word to be looked up: base-game and module headwords. */
  function AllHeadwords(german: bool, base: map<string, string>, mods: seq<ModuleText>): set<string> {
    Headwords(german, true, base) + ModuleHeadwords(german, mods)
  }

  /** A module headword comes from some readable module, and each readable module contributes all of its own. */
  lemma {:induction false} ModuleHeadwordsUnion(german: bool, mods: seq<ModuleText>, w: string)
    ensures w in ModuleHeadwords(german, mods)
        <==> exists j :: 0 <= j < |mods| && mods[j].Read? && w in Headwords(german, false, mods[j].trans)
    decreases |mods|
  {
    if mods != [] {
      var init := mods[..|mods| - 1];
      ModuleHeadwordsUnion(german, init, w);
      if exists j :: 0 <= j < |mods| && mods[j].Read? && w in Headwords(german, false, mods[j].trans) {
        var j :| 0 <= j < |mods| && mods[j].Read? && w in Headwords(german, false, mods[j].trans);
        if j < |mods| - 1 {
          assert init[j] == mods[j];
        }
      }
      forall j | 0 <= j < |init| && init[j].Read? && w in Headwords(german, false, init[j].trans)
        ensures exists j' :: 0 <= j' < |mods| && mods[j'].Read? && w in Headwords(german, false, mods[j'].trans)
      {
        assert mods[j] == init[j];
      }
    }
  }

  /** Failure isolation: an unreadable module can be dropped from the list without effect. */
  lemma {:induction false} UnreadableContributesNothing(german: bool, before: seq<ModuleText>, after: seq<ModuleText>)
    ensures ModuleHeadwords(german, before + [Unreadable] + after) == ModuleHeadwords(german, before + after)
    decreases |after|
  {
    var all := before + [Unreadable] + after;
    if after == [] {
      assert all[..|all| - 1] == before;
      assert before + after == before;
    } else {
      var init := after[..|after| - 1];
      assert all[..|all| - 1] == before + [Unreadable] + init;
      assert (before + after)[..|before + after| - 1] == before + init;
      assert all[|all| - 1] == (before + after)[|before + after| - 1];
      UnreadableContributesNothing(german, before, init);
    }
  }

  /**
    The word list: the base headwords, then `words += sorted(set(new))` for each
    module that reads (a failing one is skipped), then `sorted(set(words))`.
  */
  method CollectWords(german: bool, base: map<string, string>, mods: seq<ModuleText>) returns (words: seq<string>)
    ensures StrictlySorted(words)
    ensures Elements(words) == AllHeadwords(german, base, mods)
  {
    var baseWords := SortedOf(Headwords(german, true, base));
    var all := AppendModuleWords(german, mods, baseWords);
    words := SortedOf(Elements(all));
  }

  /** The loop `for mod in mods: ... words += sorted(set(new))` over the modules that read. */
  method AppendModuleWords(german: bool, mods: seq<ModuleText>, start: seq<string>) returns (words: seq<string>)
    ensures Elements(words) == Elements(start) + ModuleHeadwords(german, mods)
  {
    words := start;
    var i := 0;
    while i < |mods|
      invariant 0 <= i <= |mods|
      invariant Elements(words) == Elements(start) + ModuleHeadwords(german, mods[..i])
    {
      var next := words;
      if mods[i].Read? {
        var moduleWords := SortedOf(Headwords(german, false, mods[i].trans));
        ElementsConcat(words, moduleWords);
        next := words + moduleWords;
      }
      CollectStep(german, mods, i, Elements(start), Elements(words), Elements(next));
      words := next;
      i := i + 1;
    }
    assert mods[..|mods|] == mods;
  }

  /** The word list after one more module: its headwords join in when it reads. */
  lemma CollectStep(german: bool, mods: seq<ModuleText>, i: nat, start: set<string>, before: set<string>, after: set<string>)
    requires i < |mods|
    requires before == start + ModuleHeadwords(german, mods[..i])
    requires after == before + if mods[i].Read? then Headwords(german, false, mods[i].trans) else {}
    ensures after == start + ModuleHeadwords(german, mods[..i + 1])
  {
    assert mods[..i + 1][..i] == mods[..i];
  }

  /** One more module of the list adds its headwords if it reads. */
  lemma AllHeadwordsSnoc(german: bool, base: map<string, string>, mods: seq<ModuleText>, i: nat)
    requires i < |mods|
    ensures ModuleHeadwords(german, mods[..i + 1])
         == ModuleHeadwords(german, mods[..i]) + if mods[i].Read? then Headwords(german, false, mods[i].trans) else {}
    ensures AllHeadwords(german, base, mods[..i + 1])
         == AllHeadwords(german, base, mods[..i]) + if mods[i].Read? then Headwords(german, false, mods[i].trans) else {}
  {
    assert mods[..i + 1][..i] == mods[..i];
  }

  // ---------------------------------------------------------------------------
  // Dictionary lookup
  // ---------------------------------------------------------------------------

  const DictionaryRoot: string := "https://kaikki.org/dictionary/"

  /**
    The address of a word's entries; `None` for the empty word, whose `word[0]`
    raises inside the lookup's `try`.
  */
  function Url(dir: string, word: string): (u: Option<string>)
    ensures u.None? <==> word == []
    ensures u.Some? ==> StartsWith(u.value, DictionaryRoot + dir + "/meaning/" + [word[0]] + "/")
    ensures u.Some? ==> EndsWith(u.value, "/" + word + ".json")
  {
    if word == [] then None
    else
      var u := DictionaryRoot + dir + "/meaning/" + [word[0]] + "/" + Prefix2(word) + "/" + word + ".json";
      assert u == (DictionaryRoot + dir + "/meaning/" + [word[0]] + "/") + (Prefix2(word) + "/" + word + ".json");
      assert u == (DictionaryRoot + dir + "/meaning/" + [word[0]] + "/" + Prefix2(word)) + ("/" + word + ".json");
      Some(u)
  }

  /** Distinct words are looked up at distinct addresses. */
  lemma UrlInjective(dir: string, w1: string, w2: string)
    requires Url(dir, w1).Some? && Url(dir, w1) == Url(dir, w2)
    ensures w1 == w2
  {
    var u := Url(dir, w1).value;
    var n := |DictionaryRoot + dir + "/meaning/"|;
    assert |u| == n + 1 + 1 + |Prefix2(w1)| + 1 + |w1| + 5;
    assert |u| == n + 1 + 1 + |Prefix2(w2)| + 1 + |w2| + 5;
    assert |w1| == |w2|;
    assert u[|u| - 5 - |w1|..|u| - 5] == w1 by {
      assert EndsWith(u, "/" + w1 + ".json");
      assert u[|u| - 5 - |w1|..|u| - 5] == ("/" + w1 + ".json")[1..1 + |w1|];
    }
    assert u[|u| - 5 - |w2|..|u| - 5] == w2 by {
      assert EndsWith(u, "/" + w2 + ".json");
      assert u[|u| - 5 - |w2|..|u| - 5] == ("/" + w2 + ".json")[1..1 + |w2|];
    }
  }

  /** The prefix of the line that holds a noun entry. */
  const NounLinePrefix: string := "{\"pos\": \"noun"

  /** The first of `lines` that starts with `p`; `None` is the IndexError of `[...][0]`. */
  function FirstStartingWith(lines: seq<string>, p: string): (r: Option<string>)
    ensures r.None? <==> forall i :: 0 <= i < |lines| ==> !StartsWith(lines[i], p)
    ensures r.Some? ==> exists i :: 0 <= i < |lines| && lines[i] == r.value && StartsWith(r.value, p)
                          && forall j :: 0 <= j < i ==> !StartsWith(lines[j], p)
    decreases |lines|
  {
    if lines == [] then None
    else if StartsWith(lines[0], p) then Some(lines[0])
    else
      var r := FirstStartingWith(lines[1..], p);
      assert forall i :: 1 <= i < |lines| ==> lines[i] == lines[1..][i - 1];
      r
  }

  /**
    The priority of the four category tags of a sense: plural, then masculine,
    then neuter, then feminine.
  */
  function Rank(g: Gender): nat {
    match g
    case Plural => 0
    case Masculine => 1
    case Neuter => 2
    case Feminine => 3
  }

  /** The Wiktionary tag of each category. */
  function TagName(g: Gender): string {
    match g
    case Plural => "plural"
    case Masculine => "masculine"
    case Neuter => "neuter"
    case Feminine => "feminine"
  }

  /** `'p' if 'plural' in tags else ('m' if 'masculine' in tags else ...)`. */
  function ResolveTag(tags: seq<string>): Option<Gender> {
    if "plural" in tags then Some(Plural)
    else if "masculine" in tags then Some(Masculine)
    else if "neuter" in tags then Some(Neuter)
    else if "feminine" in tags then Some(Feminine)
    else None
  }

  /**
    The category recorded is the tag of highest priority present in the sense,
    and nothing is recorded exactly when none of the four tags is present.
  */
  lemma ResolveTagHighestPriority(tags: seq<string>, g: Gender)
    ensures ResolveTag(tags) == Some(g)
        <==> TagName(g) in tags && forall h: Gender :: Rank(h) < Rank(g) ==> TagName(h) !in tags
    ensures ResolveTag(tags).None? <==> forall h: Gender :: TagName(h) !in tags
  {
    assert TagName(Plural) == "plural" && TagName(Masculine) == "masculine";
    assert TagName(Neuter) == "neuter" && TagName(Feminine) == "feminine";
  }

  /**
    The lookup of one word, or `None` when its `try` block raises: no URL, a
    failed request, no noun line, or a noun line whose first sense has no tag list.
    `fetch` is the HTTP GET (the response body, or `None`); `senseTags` decodes
    a noun line as JSON and reads `['senses'][0]['tags']`.
  */
  function Classify(dir: string, word: string, fetch: string -> Option<string>,
                    senseTags: string -> Option<seq<string>>): Option<Option<Gender>>
  {
    match Url(dir, word)
    case None => None
    case Some(u) =>
      match fetch(u)
      case None => None
      case Some(body) =>
        match FirstStartingWith(Split(body, '\n'), NounLinePrefix)
        case None => None
        case Some(line) =>
          match senseTags(line)
          case None => None
          case Some(tags) => Some(ResolveTag(tags))
  }

  /** `worddict` once every word has been tried. */
  function Dictionary(dir: string, words: set<string>, fetch: string -> Option<string>,
                      senseTags: string -> Option<seq<string>>): KnowledgeBase
  {
    map w | w in words && Classify(dir, w, fetch, senseTags).Some? :: Classify(dir, w, fetch, senseTags).value
  }

  /**
    The dictionary holds exactly the words whose lookup succeeded, each with its
    own lookup's category (possibly `None`): a failed word is absent and leaves
    the others as they are.
  */
  lemma DictionaryEntries(dir: string, words: set<string>, fetch: string -> Option<string>,
                          senseTags: string -> Option<seq<string>>, w: string)
    ensures var d := Dictionary(dir, words, fetch, senseTags);
      && d.Keys <= words
      && (w in d <==> w in words && Classify(dir, w, fetch, senseTags).Some?)
      && (w in d ==> d[w] == Classify(dir, w, fetch, senseTags).value)
  {
  }

  /** One more word adds its lookup's category when the lookup succeeds, and nothing otherwise. */
  lemma DictionaryAdd(dir: string, words: set<string>, w: string, fetch: string -> Option<string>,
                      senseTags: string -> Option<seq<string>>)
    ensures var c := Classify(dir, w, fetch, senseTags);
      Dictionary(dir, words + {w}, fetch, senseTags)
        == if c.Some? then Dictionary(dir, words, fetch, senseTags)[w := c.value] else Dictionary(dir, words, fetch, senseTags)
  {
  }

  /** The loop `for word in words: try: ... worddict[word] = out_display except: ...`. */
  method BuildDictionary(dir: string, words: seq<string>, fetch: string -> Option<string>,
                         senseTags: string -> Option<seq<string>>) returns (d: KnowledgeBase)
    ensures d == Dictionary(dir, Elements(words), fetch, senseTags)
  {
    d := map[];
    var i := 0;
    while i < |words|
      invariant 0 <= i <= |words|
      invariant d == Dictionary(dir, Elements(words[..i]), fetch, senseTags)
    {
      var c := Classify(dir, words[i], fetch, senseTags);
      if c.Some? {
        d := d[words[i] := c.value];
      }
      assert Elements(words[..i + 1]) == Elements(words[..i]) + {words[i]};
      DictionaryAdd(dir, Elements(words[..i]), words[i], fetch, senseTags);
      i := i + 1;
    }
    assert words[..|words|] == words;
  }

  /**
    `build_knowledge_base`: `None` when the language is not supported, and
    otherwise the dictionary of every collected headword.
  */
  method BuildKnowledgeBase(lang: string, base: map<string, string>, mods: seq<ModuleText>,
                            fetch: string -> Option<string>, senseTags: string -> Option<seq<string>>)
    returns (kb: Option<KnowledgeBase>)
    ensures kb.None? <==> LangDirectory(lang).None?
    ensures kb.Some? ==>
      var dir := LangDirectory(lang).value;
      kb.value == Dictionary(dir, AllHeadwords(dir == "German", base, mods), fetch, senseTags)
  {
    var dir := LangDirectory(lang);
    if dir.None? {
      return None;
    }
    var german := dir.value == "German";
    var words := CollectWords(german, base, mods);
    var d := BuildDictionary(dir.value, words, fetch, senseTags);
    kb := Some(d);
  }

  /**
    The keys of a French or Spanish knowledge base are lower-case, so the
    lower-cased first word of a name is the form to look up; those of a German
    one contain no dash.
  */
  lemma KnowledgeBaseKeys(dir: string, base: map<string, string>, mods: seq<ModuleText>,
                          fetch: string -> Option<string>, senseTags: string -> Option<seq<string>>, w: string)
    requires w in Dictionary(dir, AllHeadwords(dir == "German", base, mods), fetch, senseTags)
    ensures dir != "German" ==> Lower(w) == w
    ensures dir == "German" ==> '-' !in w
  {
    var german := dir == "German";
    if w in Headwords(german, true, base) {
      HeadwordSource(german, true, base, w);
      var k :| k in base && Candidate(true, k, base[k]) && w == Headword(german, base[k]);
      HeadwordShape(german, base[k]);
    } else {
      ModuleHeadwordsUnion(german, mods, w);
      var j :| 0 <= j < |mods| && mods[j].Read? && w in Headwords(german, false, mods[j].trans);
      var t := mods[j].trans;
      HeadwordSource(german, false, t, w);
      var k :| k in t && Candidate(false, k, t[k]) && w == Headword(german, t[k]);
      HeadwordShape(german, t[k]);
    }
  }

  /**
    A German name whose first word has a dash is never given an article by a
    knowledge base this builder made: main.py looks up the whole first word
    (with the Kokusnuss correction in modules), but only the part after the last
    dash is ever stored.
  */
  lemma DashedGermanNeverPrefixed(base: map<string, string>, mods: seq<ModuleText>,
                                  fetch: string -> Option<string>, senseTags: string -> Option<seq<string>>,
                                  stage: Annotation.Stage, key: string, text: string)
    requires '-' in FirstToken(text)
    ensures var kb := Dictionary("German", AllHeadwords(true, base, mods), fetch, senseTags);
      Annotation.Prefixed(Annotation.German, stage, Some(kb), key, text) == text
  {
    var kb := Dictionary("German", AllHeadwords(true, base, mods), fetch, senseTags);
    forall w | w in kb
      ensures '-' !in w
    {
      KnowledgeBaseKeys("German", base, mods, fetch, senseTags, w);
    }
    Annotation.DashedWordNotLookedUp(stage, kb, key, text);
  }
}
