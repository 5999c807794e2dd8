# Language-learning resource pack builder, modelled in Dafny

The repository builds a Minecraft resource pack for language learners. Each
translated in-game string is replaced by an annotated form followed by the
English reference, e.g. `Une pomme / Apple`. Two scripts do the work:

- `main.py` merges the base game's language bundle and those of a fixed list of
  modules. Entry by entry, it applies the annotation rules of the configured
  language:
  - Spanish stress and pronunciation markers;
  - French pronunciation markers and the indefinite article;
  - the German definite article;
  - the `annotated / reference` composition.
- `optional_grammatical_gender.py` builds the knowledge base the article rules
  read. It maps each headword to the grammatical category of its first noun
  sense in a Wiktionary extract.

This project models the rule core of both scripts.

| file | module | what it models |
|---|---|---|
| `wrappers.dfy` | `Wrappers` | `Option` |
| `text.dfy` | `Text` | Python's `str.replace` (leftmost, non-overlapping, never rescanning), `split(' ')`, `join`, `lower`, `startswith`; marker erasure |
| `ordering.dfy` | `Ordering` | Python's string order; `sorted(set(...))` as a method |
| `lexicon.dfy` | `Lexicon` | the four categories `m`/`f`/`n`/`p` and the knowledge-base map type |
| `phonetics.dfy` | `Phonetics` | each regular expression of the annotation chains as a character scan; the French and Spanish chains |
| `annotation.dfy` | `Annotation` | article prefixing, the bullet substitution, the composition rule, the value of one entry |
| `merge.dfy` | `Merge` | the asset-folder rewrite, the `//` comment strip, module load results, annotation of a bundle, the module fold, the merge loop |
| `knowledge.dfy` | `Knowledge` | `build_knowledge_base`: language directory, headwords, word list, URL, tag priority, the lookup loop |
| `scenarios.dfy` | `Scenarios` | worked examples on concrete inputs |

State that the scripts change in place is modelled as follows:
- `trans[k]` and `mod_en[k]`: loops over a map (`AnnotateAll`).
- `tmp` in the `finditer` loop: `MarkQuiAgreement`.
- `out` per module: `WriteAll`, `Merge`.
- `words +=`: `CollectWords`.
- `worddict[word] =`: `BuildDictionary`.

Each of these methods is proved equal to a specification function. The
properties are proved about those functions.

The language variant and the knowledge base are parameters (`Config`). The
other inputs are also parameters:
- the decoded bundles (`map<string, string>`);
- each module's load result (`Load`, `ModuleText`);
- the HTTP GET (`fetch`);
- the JSON reading of a dictionary line (`senseTags`).

### Behaviour of the code worth knowing

- **French prefixing writes the lower-cased first word.** `Un`, `Une` or `Des`
  is followed by the lower-cased word, not the original token
  (main.py:97-104). So `Pomme` under a feminine record gives `Une pomme`
  (`Scenarios.ApplePrefixed`).
- **An unchanged entry keeps `%s`.** A French, German or other entry that
  annotation leaves equal to its reference is written as the bare reference,
  `%s` included (main.py:115-116, 134-138). `●` appears only in the bilingual
  form. Spanish and es_ar fallback entries are always bilingual
  (main.py:92-93, 219-220, 237-238). In every case the reference is kept
  (`Annotation.ReferenceKept`).
- **A missing file does not trigger the es_ar fallback.** A module with no file
  for the requested variant raises `KeyError`, which is caught first
  (main.py:203-204). It is skipped as "translation file not found". es_mx and
  then es_es are tried only after any other error (main.py:207-246), such as a
  malformed file (`Scenarios.MissingFileSkipsFallback`,
  `Scenarios.MexicanFallback`).
- **The length test reads the raw first token.** A German headword is the part
  after the last dash of that token, so it can be two characters or shorter
  (optional_grammatical_gender.py:105-106, 113-114).
- **Dashed German names are never prefixed.** main.py looks up the whole first
  word (main.py:121, 125, 182), but the builder stores only the part after its
  last dash (optional_grammatical_gender.py:105). So a German name whose first
  word has a dash never finds an entry (`Knowledge.DashedGermanNeverPrefixed`).
- **Noun keys.** Base-game `container.` keys are noun keys; module `container.`
  keys are not (main.py:96, 155, 180).

## Model

| member | source | states |
|---|---|---|
| Text.ReplaceAbsent | main.py:142-143 | a `str.replace` whose pattern does not occur returns the text unchanged |
| Text.ReplaceUndo | main.py:92-93 | replacing a letter `c` by `c`+tail is undone by replacing `c`+tail by `c`, because replaced text is never rescanned |
| Text.ReplaceErase | main.py:109-110 | a replacement that differs from its pattern only by marker characters leaves the text unchanged up to markers |
| Text.ReplaceCharErase | main.py:92-93 | replacing a non-marker letter by marker-free text commutes with erasing markers |
| Text.JoinSplit | main.py:97-99 | `' '.join(s.split(' '))` is `s` |
| Text.SplitFirst | main.py:97-99 | the first field is the text up to its first space; the other fields rejoined are the text after it; with no space the only field is the whole text |
| Text.LowerIdempotent | main.py:98 | lower-casing a lower-cased word changes nothing |
| Ordering.SortedOf | optional_grammatical_gender.py:119 | `sorted(set)` lists exactly the set's elements, each once, strictly increasing |
| Ordering.MinimumExists | optional_grammatical_gender.py:119 | every non-empty set of strings has a least element in Python's string order |
| Phonetics.WrapIsPieces | main.py:109-110 | the `(?<!C\|S\|P\|c\|s\|p)h` scan brackets exactly the `h` whose preceding input character is not one of the excluded letters |
| Phonetics.WrapErase | main.py:109-110 | the lookbehind rule only inserts brackets |
| Phonetics.ReplaceBeforeBoundaryAbsent | main.py:109-110 | `mp(?=$\| )` and `iz(?=$\| )` change nothing when no occurrence ends a word (end of text, a space, or a final newline) |
| Phonetics.ReplaceBeforeBoundaryFires | main.py:109-110 | an occurrence of the pattern that ends a word is replaced: with a longer replacement such as `<mp>` or `i<z>`, the text grows |
| Phonetics.ReplaceBeforeBoundaryLeavesNone | main.py:109-110 | after a word-final rule for a two-letter pattern, no occurrence of the pattern ends a word, when the replacement cannot form a new one (it does not start with the pattern's second letter, does not end with a pattern letter, and holds no space or newline) |
| Phonetics.WordFinalRulesLeaveNone | main.py:109-110 | after `mp(?=$\| )`→`<mp>` no word ends in `mp`, and after `iz(?=$\| )`→`i<z>` none ends in `iz` |
| Phonetics.ReplaceBeforeBoundaryChanges | main.py:109-110 | with a replacement longer than its pattern, the rule changes the text exactly when some occurrence ends a word |
| Phonetics.ReplaceBeforeBoundaryErase | main.py:109-110 | the word-final rules only insert brackets |
| Phonetics.RunEnd | main.py:111 | the end of the maximal run of `[a-zéèç"]` letters |
| Phonetics.BodyEndExact | main.py:111 | the body scan returns `e` exactly when `[a-zéèç"]+nt(?= \|$\|\.)` matches from `q` to `e`: at least three class letters ending in `nt`, followed by a space, a full stop, the end or a final newline; there is no result when no such match exists |
| Phonetics.MatchAtExact | main.py:111 | the match scan returns `e` exactly when ` qui (se )?…` matches from `p` to `e`, with or without `se `; there is no result when neither alternative matches |
| Phonetics.QuiMatchesLeftmost | main.py:111 | `finditer` yields the leftmost match first, then continues from its end |
| Phonetics.QuiMatchesNone | main.py:111 | with no match from `p` on, `finditer` yields nothing |
| Phonetics.MarkQuiAgreement | main.py:111-114 | the `finditer` loop, scanning the text as it was before the loop and rewriting every occurrence of each match, computes `QuiMarked` |
| Phonetics.MarkNtErase | main.py:112-114 | `sub('nt$', '<nt>', g)` only inserts brackets |
| Phonetics.MarkAllErase | main.py:111-114 | the agreement rewrites only insert brackets |
| Phonetics.FrenchMarkersErase | main.py:109-114 | the whole French base chain only inserts brackets: erasing them gives the input back |
| Phonetics.WrapHugged | main.py:169-170 | the lookbehind rule for a letter no marker touches yet keeps every `<` followed by, and every `>` preceded by, a letter the rules mark |
| Phonetics.ReplaceBeforeBoundaryHugged | main.py:169-170 | the word-final rules keep the markers against the letters they mark |
| Phonetics.ReplaceHugged | main.py:169-170 | a plain replacement that neither starts on a letter after `<` nor ends on one before `>` keeps the markers against their letters |
| Phonetics.ErasedOccurrenceLifts | main.py:169-170 | when the markers sit against their letters, an occurrence of an untouched pattern in the erased text starting at a letter is an occurrence in the text |
| Phonetics.ReplaceEraseCommute | main.py:169-170 | when the markers sit against their letters, a marker-free replacement whose inner letters no marker touches commutes with erasing the markers |
| Phonetics.FrenchMarkedHugged | main.py:169-170 | after the `H`, `h`, `mp` and `iz` rules on marker-free text every `<` precedes `H`, `h`, `m` or `z` and every `>` follows `H`, `h`, `p` or `z` |
| Phonetics.FrenchMarkedErase | main.py:169-170 | the `H`, `h`, `mp` and `iz` rules only insert brackets |
| Phonetics.CheckeredErase | main.py:169-170 | ` de vérification`→` à damiers` keeps the markers against their letters and commutes with erasing them |
| Phonetics.BlocErase | main.py:169-170 | `Block `→`Bloc ` keeps the markers against their letters and commutes with erasing them |
| Phonetics.UfsErase | main.py:169-170 | `ufs`→`<ufs>` only inserts brackets, which sit against its `u` and `s` |
| Phonetics.PatesErase | main.py:169-170 | `Pattes`→`Pâtes` commutes with erasing the markers |
| Phonetics.FrenchModuleMarkersErase | main.py:169-175 | for marker-free text, erasing the brackets of the French module chain leaves exactly its four plain rewrites, in order: `éé`→`é`, ` de vérification`→` à damiers`, `Block `→`Bloc `, `Pattes`→`Pâtes` |
| Phonetics.MarkStressErase | main.py:92-93 | the sixteen stress replacements only insert backticks |
| Phonetics.SpanishPlainInverts | main.py:92-93 | reading a Spanish annotation (drop brackets, `V(B)`→`V`, `v(b)`→`v`, drop backticks) gives the source text back, up to brackets and backticks it already had |
| Phonetics.SpanishHintsUndone | main.py:92-93 | the reading undoes the `v`, `H`, `V` and `h` steps |
| Phonetics.SpanishHintsUnbracketed | main.py:92-93 | without brackets, the hinted text is the unbracketed input with the `v(b)` and `V(B)` replacements |
| Annotation.LookupFormLength | main.py:182 | the lookup form (lower-cased, or the `Kokusnuss`→`Kokosnuss` correction) is as long as the token |
| Annotation.PrefixedShape | main.py:95-108 | the rule fires exactly when the text changes. The result is the article for the first word's category, its lookup form, and the rest of the text after that word, except that a sole trailing space is dropped |
| Annotation.NonNounNeverPrefixed | main.py:96 | a key outside the noun prefixes is never prefixed |
| Annotation.BulletHead | main.py:116 | the first character of a bulleted text is the text's own first character or a bullet |
| Annotation.BulletKeepsPrefix | main.py:116 | the bullet substitution keeps the text before the first `%s` |
| Annotation.BulletLeavesNoPlaceholder | main.py:116 | after `replace('%s', '●')` no `%s` remains |
| Annotation.BulletWithoutPlaceholder | main.py:116 | a reference without `%s` is shown as it is |
| Annotation.ReferenceKept | main.py:91-138 | for every family and stage the reference is never dropped: an entry is the bare reference or ends with ` / ` and the bulleted reference, which holds no `%s`. Spanish and fallback entries always take the second form. A French module entry without a knowledge base is the bare reference. Every other entry shows the annotation beside the bulleted reference exactly when the annotation differs from the reference, and is the bare reference otherwise |
| Annotation.SpanishEntry | main.py:92-93 | a Spanish entry is always annotation + ` / ` + bulleted reference; the fallback keeps a bare `h` only after C/c; read back, the annotation is the source text without the brackets and backticks it already had |
| Annotation.GermanLookupKeepsDash | main.py:182 | the German lookup form keeps any dash of the word |
| Annotation.DashedWordNotLookedUp | main.py:117-133 | with a knowledge base of dash-free words, a German entry whose first word has a dash is left as it is |
| Annotation.FrenchAnnotationErase | main.py:95-114 | the French annotation is the article-prefixed text plus brackets |
| Annotation.AnnotateEntry | main.py:89-138 | the loop body for one key computes `Entry` |
| Merge.AssetFolderUndashed | main.py:142-143 | no asset folder contains a dash |
| Merge.DropToNewline | main.py:142 | `.*` drops a run of non-newline characters and stops at (and keeps) the next newline, or at the end |
| Merge.CommentStart | main.py:142 | the index of the first `//` of a line, or its length |
| Merge.StripCommentsLine | main.py:142 | the comment strip keeps each line up to its first `//`, and the newline after it |
| Merge.StripCommentsChar | main.py:142 | one character before a newline or the end is kept |
| Merge.StripCommentsStep | main.py:142 | a line not starting with `//` keeps its first character |
| Merge.StripCommentsComment | main.py:142 | a line starting with `//` is dropped up to the newline after it |
| Merge.CommentStartStep | main.py:142 | the part of a line before its first `//` starts with the line's first character when the line does not start with `//` |
| Merge.DropLineOf | main.py:142 | a comment runs to the end of its line |
| Merge.StripCommentsNone | main.py:142 | text without `//` is unchanged |
| Merge.OutcomeReportsUse | main.py:202-248 | the diagnostic says "done" exactly for the modules whose entries are written |
| Merge.AnnotateAll | main.py:148-199 | the in-place loop over the source keys gives every reference key, annotated when the source has it |
| Merge.AnnotatedSoFarStep | main.py:148-149 | annotating one more source key changes that reference key alone, and nothing when the reference bundle lacks it |
| Merge.AnnotatedSoFarEnds | main.py:148-149 | before the loop the reference bundle is unchanged; after every source key it is the annotated bundle |
| Merge.AnnotateKey | main.py:148-199 | one loop turn annotates `mod_en[k]` in place when the reference bundle has `k` and changes nothing else |
| Merge.ContributionKeys | main.py:200-201 | a loaded module writes exactly the keys of its English bundle; English-only keys carry the English text |
| Merge.FoldSkipsFailed | main.py:203-248 | a module that fails can be removed from the list without changing the output |
| Merge.FoldKeys | main.py:140-248 | the output keys are the keys it started with plus the English keys of every module that loaded |
| Merge.FoldLastWriter | main.py:200-201 | a key's value comes from the last module that writes it |
| Merge.FoldUntouched | main.py:140-248 | a key no module writes keeps its value |
| Merge.LaterModuleWins | main.py:200-201 | of two modules writing a key, the later one in the list decides its value |
| Merge.MergedKeysAndBase | main.py:89-90 | the merged keys are the en_us keys and the module keys; a key no module writes keeps its base-game value, annotated when the base game translates it |
| Merge.WriteAll | main.py:200-201 | `for k in mod_en: out[k] = mod_en[k]` is map override |
| Merge.LoadModule | main.py:141-248 | one iteration — try, the three handlers, and the es_mx/es_es retries — gives the module's contribution and diagnostic |
| Merge.Merge | main.py:89-248 | the two loops compute `Merged`, with one diagnostic per module, in order |
| Knowledge.LangDirectory | optional_grammatical_gender.py:87-94 | `fr`→French, `es`→Spanish, `de`→German; any other start raises |
| Knowledge.FamilyHasDirectory | optional_grammatical_gender.py:87-94 | every variant the annotation rules treat as French, Spanish or German has its dictionary directory |
| Knowledge.FirstToken | optional_grammatical_gender.py:105 | the first field is a prefix of the name and has no space |
| Knowledge.GermanHeadword | optional_grammatical_gender.py:105 | a German headword is a dash-free tail of the first token, the whole token when it has no dash |
| Knowledge.LastFieldIsSuffix | optional_grammatical_gender.py:105 | `split('-')[-1]` ends the text |
| Knowledge.LowerHeadword | optional_grammatical_gender.py:105 | a non-German headword is lower-case and as long as the first token |
| Knowledge.HeadwordShape | optional_grammatical_gender.py:105 | headwords are dash-free in German and lower-case elsewhere |
| Knowledge.HeadwordSource | optional_grammatical_gender.py:105-106 | every headword comes from a candidate entry of its file |
| Knowledge.ModuleHeadwordsUnion | optional_grammatical_gender.py:108-118 | the module headwords are the union of those of the modules that read |
| Knowledge.UnreadableContributesNothing | optional_grammatical_gender.py:117-118 | a module whose file fails contributes nothing and does not affect the others |
| Knowledge.AllHeadwordsSnoc | optional_grammatical_gender.py:116 | one more module adds its headwords if it reads |
| Knowledge.CollectStep | optional_grammatical_gender.py:108-118 | the word set after one more module gains that module's headwords exactly when it reads |
| Knowledge.AppendModuleWords | optional_grammatical_gender.py:108-118 | the module loop appends exactly the headwords of the modules that read |
| Knowledge.CollectWords | optional_grammatical_gender.py:105-119 | the word list is strictly sorted and holds exactly the base and module headwords |
| Knowledge.Url | optional_grammatical_gender.py:126 | the address starts with the dictionary root, directory, `meaning` and first letter, and ends with `/word.json`; there is none for the empty word |
| Knowledge.UrlInjective | optional_grammatical_gender.py:126 | distinct words get distinct addresses |
| Knowledge.FirstStartingWith | optional_grammatical_gender.py:129-130 | the first line starting with `{"pos": "noun` or none |
| Knowledge.ResolveTagHighestPriority | optional_grammatical_gender.py:131-132 | the stored category is the highest-priority tag present (plural, masculine, neuter, feminine); `None` exactly when none is present |
| Knowledge.DictionaryEntries | optional_grammatical_gender.py:122-135 | the dictionary's keys are the words whose lookup succeeded, each with its own result; a failed word is absent, and a `None` category is still stored |
| Knowledge.DictionaryAdd | optional_grammatical_gender.py:123-135 | one more word adds its lookup's category when the lookup succeeds, and nothing otherwise |
| Knowledge.BuildDictionary | optional_grammatical_gender.py:122-135 | the lookup loop computes `Dictionary` over the word list |
| Knowledge.BuildKnowledgeBase | optional_grammatical_gender.py:84-135 | there is no result for an unsupported language, and otherwise the dictionary of all collected headwords |
| Knowledge.KnowledgeBaseKeys | optional_grammatical_gender.py:105-106 | French and Spanish keys are lower-case (for French, the form main.py looks up); German keys have no dash |
| Knowledge.DashedGermanNeverPrefixed | optional_grammatical_gender.py:105 | a German name whose first word has a dash is never prefixed with a knowledge base made by the builder |
| Scenarios.ApplePrefixed | main.py:95-108 | `Pomme` under `item.minecraft.apple` becomes `Une pomme` with a feminine record, and stays `Pomme` without one |
| Scenarios.GermanAppleEntry | main.py:117-135 | with `Apfel` recorded masculine, the de_de entry for `item.minecraft.apple` is `Der Apfel / Apple` |
| Scenarios.TagPriority | optional_grammatical_gender.py:131-132 | `["feminine"]` gives `f`; `["masculine", "plural"]` gives `p` |
| Scenarios.MexicanFallback | main.py:207-226 | under es_ar a module whose own file fails otherwise is read from es_mx |
| Scenarios.MissingFileSkipsFallback | main.py:203-204 | under es_ar a module with no es_ar file is skipped, es_mx unused |
| Scenarios.PommeAddress | optional_grammatical_gender.py:126 | the address of `pomme` in the French dictionary |
| Scenarios.OculusFolder | main.py:142-143 | `oculus` is a listed module whose files are under `assets/iris` |
| Scenarios.WthitFolder | main.py:142-143 | `wthit` is a listed module whose files are under `assets/waila` |

## Left out

- Installation and asset discovery: file reads, globbing, the asset-index hash
  lookup and the CurseForge switch. This is filesystem state. The bundles
  arrive decoded, as parameters.
- Jar access and JSON decoding. A module's load result is a datatype:
  - in `main.py`, loaded, no jar (`IndexError`), no file (`KeyError`), or any
    other error;
  - in the knowledge-base builder, read or unreadable.
- The comment strip is modelled as a function (`Merge.StripComments`) but is
  not linked to a load result, because JSON decoding is not modelled. `main.py`
  applies it to the requested-language file of each module (main.py:142). The
  builder applies it to every module file before decoding
  (optional_grammatical_gender.py:110). There the stripped and decoded file is
  abstracted into `ModuleText` (`Read` or `Unreadable`).
- The pickle load and dump of the knowledge base. The map is passed in and
  returned.
- The HTTP request to kaikki.org is a function parameter returning the
  response body or failure. Reading `['senses'][0]['tags']` from a noun line
  is a function parameter returning the tag list or failure.
- Writing the output file and all printed diagnostics. `Merge.Merge` returns
  one `Outcome` per module instead.
- Module lists. Each script's module list is represented by the sequence of
  per-module inputs in list order. `Merge.SupportedMods` records `main.py`'s
  list. The builder's list lacks `areas`; it is not a separate constant.
- Order of iteration over dictionary keys. Annotation of one key never reads
  another key, and the word list is sorted at the end, so the order does not
  change any result.
- The initial `words` list (with duplicates, in key order) is modelled as the
  sorted listing of its elements. Only its elements reach the final
  `sorted(set(...))`.
- `Lower` maps ASCII capitals, the Latin-1 capitals, `Œ` and `Ÿ` only. Other
  Unicode case mappings of `str.lower` are not modelled.
- `Text.Split` covers only an explicit one-character separator, which is every
  use in both scripts.
