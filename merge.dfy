/**
  The merge of main.py: the output map starts as the en_us reference bundle,
  base-game entries are annotated in place, then every module in list order
  either writes all keys of its (annotated) English bundle over the output or
  fails with one of three kinds and leaves the output as it was.  Includes the
  two pure helpers used while loading a module: its asset folder name and the
  `//` comment strip applied to its language file.
*/
module Merge {
  import opened Wrappers
  import opened Text
  import opened Annotation

  // ---------------------------------------------------------------------------
  // Loading helpers
  // ---------------------------------------------------------------------------

  /** The modules main.py tries, in priority order (later ones win). */
  const SupportedMods: seq<string> :=
    ["advancementframes", "areas", "betterlily", "betterpvp", "biomesoplenty", "cfm",
     "comforts", "croptopia", "curios", "dummmmmmy", "explorerscompass", "farmersdelight",
     "goated", "hauntedharvest", "heartstone", "jade", "jeed", "jei", "labels", "map_atlases",
     "mcw-bridges", "mcw-doors", "mcw-fences", "mcw-lights", "mcw-paintings", "mcw-paths",
     "mcw-roofs", "mcw-trapdoors", "mcw-windows", "modmenu", "moonlight", "moyai",
     "naturescompass", "oculus", "polytone", "sereneseasons", "sleep_tight", "smarterfarmers",
     "snowyspirit", "supplementaries", "suppsquared", "terralith", "toughasnails", "wthit",
     "xaeros_minimap"]

  /**
    The folder under `assets/` that holds a module's language files: the module
    id with dashes removed, then five known renames, in this order.
  */
  function AssetFolder(modId: string): string {
    var undashed := Replace(modId, "-", "");
    var trap := Replace(undashed, "trap", "trp");
    var waila := Replace(trap, "wthit", "waila");
    var xaero := Replace(waila, "xaeros_", "xaero");
    var pvp := Replace(xaero, "betterpvp", "xaerobetterpvp");
    Replace(pvp, "oculus", "iris")
  }

  /** No asset folder name contains a dash. */
  lemma AssetFolderUndashed(modId: string)
    ensures '-' !in AssetFolder(modId)
  {
    var undashed := Replace(modId, "-", "");
    var trap := Replace(undashed, "trap", "trp");
    var waila := Replace(trap, "wthit", "waila");
    var xaero := Replace(waila, "xaeros_", "xaero");
    var pvp := Replace(xaero, "betterpvp", "xaerobetterpvp");
    ReplaceRemoves(modId, '-', "");
    ReplaceKeepsOut(undashed, "trap", "trp", '-');
    ReplaceKeepsOut(trap, "wthit", "waila", '-');
    ReplaceKeepsOut(waila, "xaeros_", "xaero", '-');
    ReplaceKeepsOut(xaero, "betterpvp", "xaerobetterpvp", '-');
    ReplaceKeepsOut(pvp, "oculus", "iris", '-');
  }

  /** The text from `s` on, up to but not including the next newline, removed. */
  function DropToNewline(s: string): (r: string)
    ensures |r| <= |s| && r == s[|s| - |r|..]
    ensures r == [] || r[0] == '\n'
    ensures forall i :: 0 <= i < |s| - |r| ==> s[i] != '\n'
    ensures s != [] && s[0] != '\n' ==> |r| < |s|
    ensures (forall i :: 0 <= i < |s| ==> s[i] != '\n') ==> r == []
    decreases |s|
  {
    if s == [] || s[0] == '\n' then s
    else
      var r := DropToNewline(s[1..]);
      assert forall i :: 1 <= i < |s| - |r| ==> s[i] == s[1..][i - 1];
      r
  }

  /**
    `re.sub('//.*', '', text)`: `.` does not match a newline, so each match runs
    from a `//` to the end of its line, and scanning resumes at the newline.
  */
  function StripComments(s: string): string
    decreases |s|
  {
    if |s| < 2 then s
    else if s[..2] == "//" then StripComments(DropToNewline(s))
    else [s[0]] + StripComments(s[1..])
  }

  /** Where the first `//` of a line starts, or the line's length when it has none. */
  function CommentStart(line: string): (i: nat)
    ensures i <= |line|
    ensures i < |line| ==> OccursAt(line, "//", i)
    ensures forall j :: 0 <= j < i ==> !OccursAt(line, "//", j)
    decreases |line|
  {
    if |line| < 2 then |line|
    else if line[..2] == "//" then 0
    else
      var i := 1 + CommentStart(line[1..]);
      assert forall j :: 1 <= j < i ==> !OccursAt(line, "//", j) by {
        forall j | 1 <= j < i {
          OccursShift(line, "//", j - 1);
        }
      }
      assert i < |line| ==> OccursAt(line, "//", i) by {
        OccursShift(line, "//", i - 1);
      }
      assert !OccursAt(line, "//", 0);
      i
  }

  /**
    The comment strip works line by line: a line (no newline in it) followed by
    the rest of the text (empty or starting at a newline) keeps exactly its part
    before its first `//`.
  */
  lemma {:induction false} StripCommentsLine(line: string, rest: string)
    requires '\n' !in line
    requires rest == [] || rest[0] == '\n'
    ensures StripComments(line + rest) == line[..CommentStart(line)] + StripComments(rest)
    decreases |line|
  {
    if line == [] {
      assert line + rest == rest;
    } else if |line| == 1 {
      StripCommentsChar(line[0], rest);
      assert line == [line[0]] && line[..CommentStart(line)] == line;
    } else if line[..2] == "//" {
      StripCommentsComment(line, rest);
    } else {
      var kept := line[1..][..CommentStart(line[1..])];
      StripCommentsLine(line[1..], rest);
      StripCommentsStep(line, rest);
      CommentStartStep(line);
      ConsConcat(line[0], kept, StripComments(rest));
    }
  }

  lemma ConsConcat(c: char, a: string, b: string)
    ensures [c] + (a + b) == ([c] + a) + b
  {
  }

  /** A line starting with `//` is dropped up to the newline after it. */
  lemma StripCommentsComment(line: string, rest: string)
    requires '\n' !in line
    requires rest == [] || rest[0] == '\n'
    requires |line| >= 2 && line[..2] == "//"
    ensures StripComments(line + rest) == line[..CommentStart(line)] + StripComments(rest)
  {
    assert (line + rest)[..2] == "//";
    DropLineOf(line, rest);
    assert line[..CommentStart(line)] == [];
  }

  /** A single character before the rest of the text is kept. */
  lemma StripCommentsChar(c: char, rest: string)
    requires c != '\n'
    requires rest == [] || rest[0] == '\n'
    ensures StripComments([c] + rest) == [c] + StripComments(rest)
  {
    var s := [c] + rest;
    if rest != [] {
      assert s[1] == rest[0];
      assert s[..2] != "//";
      assert s[1..] == rest;
    }
  }

  /** A line not starting with `//` keeps its first character. */
  lemma StripCommentsStep(line: string, rest: string)
    requires |line| >= 2 && line[..2] != "//"
    ensures StripComments(line + rest) == [line[0]] + StripComments(line[1..] + rest)
  {
    var s := line + rest;
    assert s[..2] == line[..2];
    assert s[1..] == line[1..] + rest;
  }

  /** The part of a line before its first `//` starts with its first character when the line does not start with `//`. */
  lemma CommentStartStep(line: string)
    requires |line| >= 2 && line[..2] != "//"
    ensures line[..CommentStart(line)] == [line[0]] + line[1..][..CommentStart(line[1..])]
  {
  }

  /** Dropping to the next newline from inside a line skips exactly that line. */
  lemma {:induction false} DropLineOf(line: string, rest: string)
    requires '\n' !in line
    requires rest == [] || rest[0] == '\n'
    ensures DropToNewline(line + rest) == rest
    decreases |line|
  {
    if line == [] {
      assert line + rest == rest;
    } else {
      assert (line + rest)[1..] == line[1..] + rest;
      DropLineOf(line[1..], rest);
    }
  }

  /** Text without `//` is read as it is. */
  lemma {:induction false} StripCommentsNone(s: string)
    requires forall i :: !OccursAt(s, "//", i)
    ensures StripComments(s) == s
    decreases |s|
  {
    if |s| >= 2 {
      assert !OccursAt(s, "//", 0);
      forall i
        ensures !OccursAt(s[1..], "//", i)
      {
        if 0 <= i {
          OccursShift(s, "//", i);
        }
      }
      StripCommentsNone(s[1..]);
    }
  }

  // ---------------------------------------------------------------------------
  // Bundles, loads and outcomes
  // ---------------------------------------------------------------------------

  /** A module's decoded language files: the requested variant and en_us. */
  datatype Bundle = Bundle(source: map<string, string>, english: map<string, string>)

  /** What loading one language variant of a module gave. */
  datatype Load =
    | Loaded(bundle: Bundle)
    | ModMissing          // no jar matched the module id (IndexError)
    | LangFileMissing     // the jar has no such language file (KeyError)
    | OtherError          // any other exception, e.g. malformed JSON

  /**
    One module: its id and what loading its requested variant, and the two
    es_ar fallback variants es_mx and es_es, would give.
  */
  datatype ModuleInput = ModuleInput(id: string, requested: Load, mexican: Load, peninsular: Load)

  /** The per-module diagnostic main.py prints. */
  datatype Outcome =
    | Done(variant: string)
    | TranslationFileNotFound
    | ModNotFound
    | Failed

  /** The bundle a module's entries come from and the loop that annotates them. */
  datatype Used = Used(bundle: Bundle, stage: Stage)

  /**
    Missing jar and missing file skip the module; any other error skips it too,
    except under es_ar, where es_mx and then es_es are tried.
  */
  function UsedBundle(cfg: Config, m: ModuleInput): Option<Used> {
    match m.requested
    case Loaded(b) => Some(Used(b, Module))
    case ModMissing => None
    case LangFileMissing => None
    case OtherError =>
      if cfg.lang != "es_ar" then None
      else if m.mexican.Loaded? then Some(Used(m.mexican.bundle, Fallback))
      else if m.peninsular.Loaded? then Some(Used(m.peninsular.bundle, Fallback))
      else None
  }

  function OutcomeOf(cfg: Config, m: ModuleInput): Outcome {
    match m.requested
    case Loaded(_) => Done(cfg.lang)
    case ModMissing => ModNotFound
    case LangFileMissing => TranslationFileNotFound
    case OtherError =>
      if cfg.lang != "es_ar" then Failed
      else if m.mexican.Loaded? then Done("es_mx")
      else if m.peninsular.Loaded? then Done("es_es")
      else Failed
  }

  /** The diagnostic reports success exactly for the modules that contribute entries. */
  lemma OutcomeReportsUse(cfg: Config, m: ModuleInput)
    ensures OutcomeOf(cfg, m).Done? <==> UsedBundle(cfg, m).Some?
  {
  }

  // ---------------------------------------------------------------------------
  // Annotating a bundle
  // ---------------------------------------------------------------------------

  /**
    The in-place loop `for k in source: if k in english: english[k] = ...`:
    every key of the reference bundle, annotated when the source bundle has it.
  */
  function Annotated(cfg: Config, stage: Stage, source: map<string, string>, english: map<string, string>)
    : map<string, string>
  {
    map k | k in english :: if k in source then Entry(cfg, stage, k, source[k], english[k]) else english[k]
  }

  /** The reference bundle with the keys of `done` that the source bundle has annotated. */
  function AnnotatedSoFar(cfg: Config, stage: Stage, source: map<string, string>, english: map<string, string>, done: set<string>)
    : map<string, string>
  {
    map k | k in english :: if k in source && k in done then Entry(cfg, stage, k, source[k], english[k]) else english[k]
  }

  /** Before the loop nothing is annotated; after it, every key of the source bundle is. */
  lemma AnnotatedSoFarEnds(cfg: Config, stage: Stage, source: map<string, string>, english: map<string, string>)
    ensures AnnotatedSoFar(cfg, stage, source, english, {}) == english
    ensures AnnotatedSoFar(cfg, stage, source, english, source.Keys) == Annotated(cfg, stage, source, english)
  {
  }

  /** Annotating one more source key updates that key alone. */
  lemma AnnotatedSoFarStep(cfg: Config, stage: Stage, source: map<string, string>, english: map<string, string>,
                           done: set<string>, k: string)
    requires k in source
    ensures var r := AnnotatedSoFar(cfg, stage, source, english, done);
      AnnotatedSoFar(cfg, stage, source, english, done + {k})
        == if k in english then r[k := Entry(cfg, stage, k, source[k], english[k])] else r
  {
  }

  method AnnotateAll(cfg: Config, stage: Stage, source: map<string, string>, english: map<string, string>)
    returns (r: map<string, string>)
    ensures r == Annotated(cfg, stage, source, english)
  {
    r := english;
    var todo := source.Keys;
    AnnotatedSoFarEnds(cfg, stage, source, english);
    while todo != {}
      invariant todo <= source.Keys
      invariant r == AnnotatedSoFar(cfg, stage, source, english, source.Keys - todo)
      decreases |todo|
    {
      var k :| k in todo;
      r := AnnotateKey(cfg, stage, source, english, source.Keys - todo, r, k);
      assert source.Keys - (todo - {k}) == (source.Keys - todo) + {k};
      todo := todo - {k};
    }
    assert source.Keys - todo == source.Keys;
  }

  /** One turn of the loop: `english[k]` annotated in place when the reference bundle has `k`. */
  method AnnotateKey(cfg: Config, stage: Stage, source: map<string, string>, english: map<string, string>,
                     done: set<string>, r: map<string, string>, k: string) returns (r': map<string, string>)
    requires k in source && k !in done
    requires r == AnnotatedSoFar(cfg, stage, source, english, done)
    ensures r' == AnnotatedSoFar(cfg, stage, source, english, done + {k})
  {
    AnnotatedSoFarStep(cfg, stage, source, english, done, k);
    if k in r {
      var v := AnnotateEntry(cfg, stage, k, source[k], r[k]);
      r' := r[k := v];
    } else {
      r' := r;
    }
  }

  /** What a module writes into the output, if it loads. */
  function Contribution(cfg: Config, m: ModuleInput): Option<map<string, string>> {
    match UsedBundle(cfg, m)
    case Some(u) => Some(Annotated(cfg, u.stage, u.bundle.source, u.bundle.english))
    case None => None
  }

  /**
    A module's contribution has exactly the keys of the English bundle it used;
    English-only keys carry the plain English text.
  */
  lemma ContributionKeys(cfg: Config, m: ModuleInput)
    requires UsedBundle(cfg, m).Some?
    ensures var b := UsedBundle(cfg, m).value.bundle;
      && Contribution(cfg, m).Some?
      && Contribution(cfg, m).value.Keys == b.english.Keys
      && forall k :: k in b.english && k !in b.source ==> Contribution(cfg, m).value[k] == b.english[k]
  {
  }

  /** Key `k` is written by module `m`. */
  predicate Provides(cfg: Config, m: ModuleInput, k: string) {
    UsedBundle(cfg, m).Some? && k in UsedBundle(cfg, m).value.bundle.english
  }

  // ---------------------------------------------------------------------------
  // The module fold
  // ---------------------------------------------------------------------------

  /** `for k in contribution: out[k] = contribution[k]`, or nothing on failure. */
  function Write(out: map<string, string>, c: Option<map<string, string>>): map<string, string> {
    if c.Some? then out + c.value else out
  }

  /** The output after the modules of `mods`, processed in order. */
  function Fold(cfg: Config, out: map<string, string>, mods: seq<ModuleInput>): map<string, string>
    decreases |mods|
  {
    if mods == [] then out
    else Write(Fold(cfg, out, mods[..|mods| - 1]), Contribution(cfg, mods[|mods| - 1]))
  }

  /** The whole merge: base-game entries annotated over en_us, then the modules. */
  function Merged(cfg: Config, baseSource: map<string, string>, baseEnglish: map<string, string>,
                  mods: seq<ModuleInput>): map<string, string>
  {
    Fold(cfg, Annotated(cfg, Base, baseSource, baseEnglish), mods)
  }

  /** Failure isolation: a module that fails can be removed from the list without effect. */
  lemma {:induction false} FoldSkipsFailed(cfg: Config, out: map<string, string>,
                                           before: seq<ModuleInput>, failed: ModuleInput, after: seq<ModuleInput>)
    requires UsedBundle(cfg, failed).None?
    ensures Fold(cfg, out, before + [failed] + after) == Fold(cfg, out, before + after)
    decreases |after|
  {
    var all := before + [failed] + after;
    if after == [] {
      assert all[..|all| - 1] == before;
      assert before + after == before;
    } else {
      var init := after[..|after| - 1];
      assert all[..|all| - 1] == before + [failed] + init;
      assert (before + after)[..|before + after| - 1] == before + init;
      assert all[|all| - 1] == (before + after)[|before + after| - 1];
      FoldSkipsFailed(cfg, out, before, failed, init);
    }
  }

  /** The output's keys: those it started with and those of every module that loaded. */
  lemma {:induction false} FoldKeys(cfg: Config, out: map<string, string>, mods: seq<ModuleInput>, k: string)
    ensures k in Fold(cfg, out, mods) <==> k in out || exists j :: 0 <= j < |mods| && Provides(cfg, mods[j], k)
    decreases |mods|
  {
    if mods != [] {
      var init := mods[..|mods| - 1];
      FoldKeys(cfg, out, init, k);
      if exists j :: 0 <= j < |mods| && Provides(cfg, mods[j], k) {
        var j :| 0 <= j < |mods| && Provides(cfg, mods[j], k);
        if j < |mods| - 1 {
          assert init[j] == mods[j];
        }
      }
      forall j | 0 <= j < |init| && Provides(cfg, init[j], k)
        ensures exists j' :: 0 <= j' < |mods| && Provides(cfg, mods[j'], k)
      {
        assert mods[j] == init[j];
      }
    }
  }

  /** Last writer wins: the value of a key comes from the last module that writes it. */
  lemma {:induction false} FoldLastWriter(cfg: Config, out: map<string, string>, mods: seq<ModuleInput>,
                                          i: nat, k: string)
    requires i < |mods| && Provides(cfg, mods[i], k)
    requires forall j :: i < j < |mods| ==> !Provides(cfg, mods[j], k)
    ensures k in Fold(cfg, out, mods)
    ensures Fold(cfg, out, mods)[k] == Contribution(cfg, mods[i]).value[k]
    decreases |mods|
  {
    var init := mods[..|mods| - 1];
    if i < |mods| - 1 {
      assert init[i] == mods[i];
      forall j | i < j < |init|
        ensures !Provides(cfg, init[j], k)
      {
        assert init[j] == mods[j];
      }
      FoldLastWriter(cfg, out, init, i, k);
      assert !Provides(cfg, mods[|mods| - 1], k);
    }
  }

  /** A key no module writes keeps the value it started with. */
  lemma {:induction false} FoldUntouched(cfg: Config, out: map<string, string>, mods: seq<ModuleInput>, k: string)
    requires k in out
    requires forall j :: 0 <= j < |mods| ==> !Provides(cfg, mods[j], k)
    ensures k in Fold(cfg, out, mods) && Fold(cfg, out, mods)[k] == out[k]
    decreases |mods|
  {
    if mods != [] {
      var init := mods[..|mods| - 1];
      forall j | 0 <= j < |init|
        ensures !Provides(cfg, init[j], k)
      {
        assert init[j] == mods[j];
      }
      FoldUntouched(cfg, out, init, k);
      assert !Provides(cfg, mods[|mods| - 1], k);
    }
  }

  /** Of two modules that both write a key, the later in the list decides its value. */
  lemma LaterModuleWins(cfg: Config, out: map<string, string>, a: ModuleInput, b: ModuleInput, k: string)
    requires Provides(cfg, a, k) && Provides(cfg, b, k)
    ensures Fold(cfg, out, [a, b])[k] == Contribution(cfg, b).value[k]
    ensures Fold(cfg, out, [b, a])[k] == Contribution(cfg, a).value[k]
  {
    FoldLastWriter(cfg, out, [a, b], 1, k);
    FoldLastWriter(cfg, out, [b, a], 1, k);
  }

  /**
    The merged map's keys are the en_us keys and the English keys of every module
    that loaded; a key no module writes keeps its base-game value, annotated when
    the base game translates it.
  */
  lemma MergedKeysAndBase(cfg: Config, baseSource: map<string, string>, baseEnglish: map<string, string>,
                          mods: seq<ModuleInput>, k: string)
    ensures k in Merged(cfg, baseSource, baseEnglish, mods)
        <==> k in baseEnglish || exists j :: 0 <= j < |mods| && Provides(cfg, mods[j], k)
    ensures k in baseEnglish && (forall j :: 0 <= j < |mods| ==> !Provides(cfg, mods[j], k)) ==>
      Merged(cfg, baseSource, baseEnglish, mods)[k]
      == if k in baseSource then Entry(cfg, Base, k, baseSource[k], baseEnglish[k]) else baseEnglish[k]
  {
    var base := Annotated(cfg, Base, baseSource, baseEnglish);
    FoldKeys(cfg, base, mods, k);
    if k in baseEnglish && (forall j :: 0 <= j < |mods| ==> !Provides(cfg, mods[j], k)) {
      FoldUntouched(cfg, base, mods, k);
    }
  }

  // ---------------------------------------------------------------------------
  // The loops
  // ---------------------------------------------------------------------------

  /** `for k in contribution: out[k] = contribution[k]`. */
  method WriteAll(out: map<string, string>, c: map<string, string>) returns (r: map<string, string>)
    ensures r == out + c
  {
    r := out;
    var todo := c.Keys;
    while todo != {}
      invariant todo <= c.Keys
      invariant r.Keys == out.Keys + (c.Keys - todo)
      invariant forall k :: k in r ==> r[k] == if k in c && k !in todo then c[k] else out[k]
      decreases |todo|
    {
      var k :| k in todo;
      r := r[k := c[k]];
      todo := todo - {k};
    }
  }

  /** One iteration of the module loop: the try block and its three handlers. */
  method LoadModule(cfg: Config, m: ModuleInput) returns (c: Option<map<string, string>>, outcome: Outcome)
    ensures c == Contribution(cfg, m)
    ensures outcome == OutcomeOf(cfg, m)
  {
    match m.requested
    case Loaded(b) =>
      var english := AnnotateAll(cfg, Module, b.source, b.english);
      c, outcome := Some(english), Done(cfg.lang);
    case LangFileMissing =>
      c, outcome := None, TranslationFileNotFound;
    case ModMissing =>
      c, outcome := None, ModNotFound;
    case OtherError =>
      if cfg.lang == "es_ar" && m.mexican.Loaded? {
        var english := AnnotateAll(cfg, Fallback, m.mexican.bundle.source, m.mexican.bundle.english);
        c, outcome := Some(english), Done("es_mx");
      } else if cfg.lang == "es_ar" && m.peninsular.Loaded? {
        var english := AnnotateAll(cfg, Fallback, m.peninsular.bundle.source, m.peninsular.bundle.english);
        c, outcome := Some(english), Done("es_es");
      } else {
        c, outcome := None, Failed;
      }
  }

  /**
    The base-game loop followed by the module loop; the log holds one
    diagnostic per module, in order.
  */
  method Merge(cfg: Config, baseSource: map<string, string>, baseEnglish: map<string, string>,
               mods: seq<ModuleInput>)
    returns (out: map<string, string>, log: seq<Outcome>)
    ensures out == Merged(cfg, baseSource, baseEnglish, mods)
    ensures |log| == |mods|
    ensures forall j :: 0 <= j < |mods| ==> log[j] == OutcomeOf(cfg, mods[j])
  {
    out := AnnotateAll(cfg, Base, baseSource, baseEnglish);
    ghost var base := out;
    log := [];
    var i := 0;
    while i < |mods|
      invariant 0 <= i <= |mods|
      invariant out == Fold(cfg, base, mods[..i])
      invariant |log| == i
      invariant forall j :: 0 <= j < i ==> log[j] == OutcomeOf(cfg, mods[j])
    {
      var c, outcome := LoadModule(cfg, mods[i]);
      if c.Some? {
        out := WriteAll(out, c.value);
      }
      assert mods[..i + 1][..i] == mods[..i];
      log := log + [outcome];
      i := i + 1;
    }
    assert mods[..|mods|] == mods;
  }
}
