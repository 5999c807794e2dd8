/**
  The pronunciation markers of the annotation rules in main.py.  Each regular
  expression the script applies is one specific pattern, modelled here as a
  character scan with the same matching discipline as Python's `re.sub` and
  `re.finditer` (leftmost match, scanning resumes after it, lookbehind and
  lookahead read the text being scanned, `$` matches at the end or before a
  final newline).
*/
module Phonetics {
  import opened Wrappers
  import opened Text

  /** The marker brackets of the French and Spanish rules. */
  const Brackets: set<char> := {'<', '>'}

  /** The stress marker of the Spanish rules. */
  const Backtick: set<char> := {'`'}

  /** The lookbehind `(?<!C|S|P|c|s|p)`: ch, sh and ph digraphs keep a bare h. */
  const DigraphLetters: set<char> := {'C', 'S', 'P', 'c', 's', 'p'}

  /** The lookbehind `(?<!C|c)` of the es_ar fallback variants. */
  const FallbackDigraphLetters: set<char> := {'C', 'c'}

  // ---------------------------------------------------------------------------
  // (?<!X|Y|...)t  ->  <t>
  // ---------------------------------------------------------------------------

  /**
    `re.sub('(?<!...)t', '<t>', s)`: every `target` whose preceding character in
    the input is not one of `excluded` becomes `<target>`.  `prev` is the
    character before `s` in the whole text (`None` at its start, where the
    negative lookbehind succeeds).
  */
  function WrapUnlessAfter(s: string, prev: Option<char>, target: char, excluded: set<char>): string
    decreases |s|
  {
    if s == [] then []
    else
      (if s[0] == target && !(prev.Some? && prev.value in excluded) then ['<', target, '>'] else [s[0]])
      + WrapUnlessAfter(s[1..], Some(s[0]), target, excluded)
  }

  /** The rule applied to a whole text. */
  function Wrap(s: string, target: char, excluded: set<char>): string {
    WrapUnlessAfter(s, None, target, excluded)
  }

  /** Index `i` of the input holds a wrapped target: the lookbehind reads the input, not the output. */
  predicate WrappedAt(s: string, i: nat, target: char, excluded: set<char>)
    requires i < |s|
  {
    s[i] == target && (i == 0 || s[i - 1] !in excluded)
  }

  /** Reference definition: the output piece of every input index, concatenated from index `i` on. */
  function PiecesFrom(s: string, i: nat, target: char, excluded: set<char>): string
    requires i <= |s|
    decreases |s| - i
  {
    if i == |s| then []
    else
      (if WrappedAt(s, i, target, excluded) then ['<', target, '>'] else [s[i]])
      + PiecesFrom(s, i + 1, target, excluded)
  }

  /** The scan agrees with the per-index reference definition. */
  lemma {:induction false} WrapIsPieces(s: string, i: nat, target: char, excluded: set<char>)
    requires i <= |s|
    ensures WrapUnlessAfter(s[i..], if i == 0 then None else Some(s[i - 1]), target, excluded)
         == PiecesFrom(s, i, target, excluded)
    decreases |s| - i
  {
    if i < |s| {
      WrapIsPieces(s, i + 1, target, excluded);
      assert s[i..][1..] == s[i + 1..];
      assert s[i..][0] == s[i];
    }
  }

  /** Wrapping only adds brackets. */
  lemma {:induction false} WrapErase(s: string, prev: Option<char>, target: char, excluded: set<char>)
    ensures Erase(WrapUnlessAfter(s, prev, target, excluded), Brackets) == Erase(s, Brackets)
    decreases |s|
  {
    if s != [] {
      var piece := if s[0] == target && !(prev.Some? && prev.value in excluded) then ['<', target, '>'] else [s[0]];
      WrapErase(s[1..], Some(s[0]), target, excluded);
      EraseConcat(piece, WrapUnlessAfter(s[1..], Some(s[0]), target, excluded), Brackets);
      assert s == [s[0]] + s[1..];
      EraseConcat([s[0]], s[1..], Brackets);
      assert Erase(['<', target, '>'], Brackets) == Erase([target], Brackets) by {
        assert ['<', target, '>'] == ['<'] + ([target] + ['>']);
        EraseConcat(['<'], [target] + ['>'], Brackets);
        EraseConcat([target], ['>'], Brackets);
      }
    }
  }

  // ---------------------------------------------------------------------------
  // pat(?=$| )  ->  rep
  // ---------------------------------------------------------------------------

  /** The lookahead `(?=$| )` at index `n`: end of text, a space, or a final newline. */
  predicate BoundaryAt(s: string, n: int)
    requires 0 <= n <= |s|
  {
    n == |s| || s[n] == ' ' || (n == |s| - 1 && s[n] == '\n')
  }

  /**
    `re.sub(pat + '(?=$| )', rep, s)` for a literal `pat`: each occurrence of
    `pat` that ends a word is replaced.  `s` is always a suffix of the whole text,
    so its end is the text's end.
  */
  function ReplaceBeforeBoundary(s: string, pat: string, rep: string): string
    requires pat != []
    decreases |s|
  {
    if |s| < |pat| then s
    else if s[..|pat|] == pat && BoundaryAt(s, |pat|) then rep + ReplaceBeforeBoundary(s[|pat|..], pat, rep)
    else [s[0]] + ReplaceBeforeBoundary(s[1..], pat, rep)
  }

  /** An occurrence of `pat` that ends a word at index `i`. */
  predicate WordEndAt(s: string, pat: string, i: int) {
    OccursAt(s, pat, i) && BoundaryAt(s, i + |pat|)
  }

  /** Without an occurrence that ends a word, nothing changes. */
  lemma {:induction false} ReplaceBeforeBoundaryAbsent(s: string, pat: string, rep: string)
    requires pat != []
    requires forall i :: !WordEndAt(s, pat, i)
    ensures ReplaceBeforeBoundary(s, pat, rep) == s
    decreases |s|
  {
    if |s| >= |pat| {
      assert !WordEndAt(s, pat, 0);
      forall i
        ensures !WordEndAt(s[1..], pat, i)
      {
        if 0 <= i && i + |pat| <= |s[1..]| {
          OccursShift(s, pat, i);
          var n := i + |pat|;
          if n < |s[1..]| {
            assert s[1..][n] == s[n + 1];
          }
          assert !WordEndAt(s, pat, i + 1);
        }
      }
      ReplaceBeforeBoundaryAbsent(s[1..], pat, rep);
    }
  }

  /** A replacement at least as long as its pattern never shortens the text. */
  lemma {:induction false} ReplaceBeforeBoundaryNoShrink(s: string, pat: string, rep: string)
    requires pat != [] && |rep| >= |pat|
    ensures |ReplaceBeforeBoundary(s, pat, rep)| >= |s|
    decreases |s|
  {
    if |s| < |pat| {
    } else if s[..|pat|] == pat && BoundaryAt(s, |pat|) {
      ReplaceBeforeBoundaryNoShrink(s[|pat|..], pat, rep);
    } else {
      ReplaceBeforeBoundaryNoShrink(s[1..], pat, rep);
    }
  }

  /** An occurrence that ends a word is replaced: a longer replacement lengthens the text. */
  lemma {:induction false} ReplaceBeforeBoundaryFires(s: string, pat: string, rep: string, i: int)
    requires pat != [] && |rep| > |pat|
    requires WordEndAt(s, pat, i)
    ensures |ReplaceBeforeBoundary(s, pat, rep)| > |s|
    decreases |s|
  {
    if s[..|pat|] == pat && BoundaryAt(s, |pat|) {
      ReplaceBeforeBoundaryNoShrink(s[|pat|..], pat, rep);
    } else {
      assert i != 0;
      OccursShift(s, pat, i - 1);
      var n := i + |pat|;
      if n < |s| {
        assert s[1..][n - 1] == s[n];
      }
      assert WordEndAt(s[1..], pat, i - 1);
      ReplaceBeforeBoundaryFires(s[1..], pat, rep, i - 1);
    }
  }

  /**
    With a replacement longer than its pattern, the word-final rule changes the
    text exactly when an occurrence of the pattern ends a word.
  */
  lemma ReplaceBeforeBoundaryChanges(s: string, pat: string, rep: string)
    requires pat != [] && |rep| > |pat|
    ensures ReplaceBeforeBoundary(s, pat, rep) != s <==> exists i :: WordEndAt(s, pat, i)
  {
    if i :| WordEndAt(s, pat, i) {
      ReplaceBeforeBoundaryFires(s, pat, rep, i);
    } else {
      ReplaceBeforeBoundaryAbsent(s, pat, rep);
    }
  }

  /** A word-final occurrence after a prefix is one in the rest. */
  lemma WordEndShift(a: string, b: string, pat: string, i: int)
    ensures |a| <= i && WordEndAt(a + b, pat, i) ==> WordEndAt(b, pat, i - |a|)
  {
    if |a| <= i && WordEndAt(a + b, pat, i) {
      var j := i - |a|;
      assert (a + b)[i..i + |pat|] == b[j..j + |pat|];
      var n := i + |pat|;
      if n < |a + b| {
        assert (a + b)[n] == b[n - |a|];
      }
    }
  }

  /** The rule rewrites the first letter, or the first occurrence when it ends a word. */
  lemma ReplaceBeforeBoundaryStep(x: string, pat: string, rep: string)
    requires pat != [] && x != []
    ensures var fires := |x| >= |pat| && x[..|pat|] == pat && BoundaryAt(x, |pat|);
      ReplaceBeforeBoundary(x, pat, rep)
        == if fires then rep + ReplaceBeforeBoundary(x[|pat|..], pat, rep) else [x[0]] + ReplaceBeforeBoundary(x[1..], pat, rep)
  {
    if |x| < |pat| {
      assert x == [x[0]] + x[1..];
    }
  }

  /** A word boundary at the start of the output is one at the start of the input. */
  lemma ReplaceBeforeBoundaryStartBoundary(y: string, pat: string, rep: string)
    requires |pat| == 2 && |rep| >= 2 && ' ' !in rep && '\n' !in rep
    ensures BoundaryAt(ReplaceBeforeBoundary(y, pat, rep), 0) ==> BoundaryAt(y, 0)
  {
    if y != [] {
      ReplaceBeforeBoundaryStep(y, pat, rep);
      ReplaceBeforeBoundaryNoShrink(y[1..], pat, rep);
      if |y| >= 2 && y[..2] == pat && BoundaryAt(y, 2) {
        assert ReplaceBeforeBoundary(y, pat, rep)[0] == rep[0];
      }
    }
  }

  /**
    What follows a two-letter pattern that was not replaced: when the text starts
    with an occurrence that does not end a word, the output does not either.
  */
  lemma UnfiredStart(s: string, pat: string, rep: string)
    requires |pat| == 2 && |rep| >= 2 && rep[0] != pat[1] && ' ' !in rep && '\n' !in rep
    requires |s| >= 2 && !(s[..2] == pat && BoundaryAt(s, 2))
    ensures !WordEndAt([s[0]] + ReplaceBeforeBoundary(s[1..], pat, rep), pat, 0)
  {
    var x := s[1..];
    var r := [s[0]] + ReplaceBeforeBoundary(x, pat, rep);
    ReplaceBeforeBoundaryStep(x, pat, rep);
    if |x| >= 2 && x[..2] == pat && BoundaryAt(x, 2) {
      assert r[1] == rep[0];
    } else {
      var u := ReplaceBeforeBoundary(s[2..], pat, rep);
      assert x[1..] == s[2..];
      assert r == [s[0], s[1]] + u;
      ReplaceBeforeBoundaryStartBoundary(s[2..], pat, rep);
      assert BoundaryAt(r, 2) == BoundaryAt(u, 0);
      assert BoundaryAt(s, 2) == BoundaryAt(s[2..], 0);
    }
  }

  /** No occurrence of the pattern that ends a word is left: every one is replaced. */
  lemma {:induction false} ReplaceBeforeBoundaryLeavesNone(s: string, pat: string, rep: string)
    requires |pat| == 2 && |rep| >= 2 && rep[0] != pat[1] && rep[|rep| - 1] !in pat
    requires ' ' !in rep && '\n' !in rep
    ensures forall i :: !WordEndAt(ReplaceBeforeBoundary(s, pat, rep), pat, i)
    decreases |s|
  {
    var r := ReplaceBeforeBoundary(s, pat, rep);
    if |s| < |pat| {
    } else if s[..2] == pat && BoundaryAt(s, 2) {
      var t := ReplaceBeforeBoundary(s[2..], pat, rep);
      ReplaceBeforeBoundaryLeavesNone(s[2..], pat, rep);
      assert r == rep + t;
      forall i
        ensures !WordEndAt(r, pat, i)
      {
        WordEndShift(rep, t, pat, i);
        if 0 <= i < |rep| && i + 2 <= |r| {
          if i + 1 == |rep| {
            assert r[i] == rep[|rep| - 1];
          } else if i + 2 == |rep| {
            assert r[i + 1] == rep[|rep| - 1];
          } else {
            assert r[i + 2] == rep[i + 2];
          }
        }
      }
    } else {
      var t := ReplaceBeforeBoundary(s[1..], pat, rep);
      ReplaceBeforeBoundaryLeavesNone(s[1..], pat, rep);
      assert r == [s[0]] + t;
      UnfiredStart(s, pat, rep);
      forall i
        ensures !WordEndAt(r, pat, i)
      {
        WordEndShift([s[0]], t, pat, i);
      }
    }
  }

  /** Both word-final rules of the French chain leave no word-final `mp` or `iz`. */
  lemma WordFinalRulesLeaveNone(s: string)
    ensures forall i :: !WordEndAt(ReplaceBeforeBoundary(s, "mp", "<mp>"), "mp", i)
    ensures forall i :: !WordEndAt(ReplaceBeforeBoundary(s, "iz", "i<z>"), "iz", i)
  {
    ReplaceBeforeBoundaryLeavesNone(s, "mp", "<mp>");
    ReplaceBeforeBoundaryLeavesNone(s, "iz", "i<z>");
  }

  /** A replacement that differs from its pattern only by brackets only adds brackets. */
  lemma {:induction false} ReplaceBeforeBoundaryErase(s: string, pat: string, rep: string)
    requires pat != []
    requires Erase(rep, Brackets) == Erase(pat, Brackets)
    ensures Erase(ReplaceBeforeBoundary(s, pat, rep), Brackets) == Erase(s, Brackets)
    decreases |s|
  {
    if |s| < |pat| {
    } else if s[..|pat|] == pat && BoundaryAt(s, |pat|) {
      ReplaceBeforeBoundaryErase(s[|pat|..], pat, rep);
      EraseConcat(rep, ReplaceBeforeBoundary(s[|pat|..], pat, rep), Brackets);
      assert s == s[..|pat|] + s[|pat|..];
      EraseConcat(s[..|pat|], s[|pat|..], Brackets);
    } else {
      ReplaceBeforeBoundaryErase(s[1..], pat, rep);
      EraseConcat([s[0]], ReplaceBeforeBoundary(s[1..], pat, rep), Brackets);
      assert s == [s[0]] + s[1..];
      EraseConcat([s[0]], s[1..], Brackets);
    }
  }

  // ---------------------------------------------------------------------------
  // ' qui (se )?[a-zéèç"]+nt(?= |$|\.)'  and the `<nt>` rewrite of each match
  // ---------------------------------------------------------------------------

  /** The character class `[a-zéèç"]`. */
  predicate QuiLetter(c: char) {
    'a' <= c <= 'z' || c == 'é' || c == 'è' || c == 'ç' || c == '"'
  }

  /** End of the maximal run of class letters starting at `i`. */
  function RunEnd(s: string, i: nat): (e: nat)
    requires i <= |s|
    ensures i <= e <= |s|
    ensures forall j :: i <= j < e ==> QuiLetter(s[j])
    ensures e == |s| || !QuiLetter(s[e])
    decreases |s| - i
  {
    if i < |s| && QuiLetter(s[i]) then RunEnd(s, i + 1) else i
  }

  /**
    `[a-zéèç"]+nt(?= |$|\.)` matched from `q`.  Space, full stop and end of text
    are outside the class, so the greedy run backtracks to no shorter match: the
    match, if any, is the maximal run, which must be at least three letters long
    and end in `nt`.
  */
  function BodyEnd(s: string, q: nat): (r: Option<nat>)
    requires q <= |s|
    ensures r.Some? ==> q + 3 <= r.value <= |s| && EndsWith(s[..r.value], "nt")
    ensures r.Some? ==> forall j :: q <= j < r.value ==> QuiLetter(s[j])
    ensures r.Some? ==> BoundaryAt(s, r.value) || s[r.value] == '.'
  {
    var e := RunEnd(s, q);
    if e >= q + 3 && s[e - 2..e] == "nt" && (BoundaryAt(s, e) || s[e] == '.') then Some(e) else None
  }

  /**
    The whole pattern matched at `p`: ` qui `, then the optional `se ` (tried
    first, as the `?` is greedy), then the body.  The result is the match's end.
  */
  function MatchAt(s: string, p: nat): (r: Option<nat>)
    requires p <= |s|
    ensures r.Some? ==> p + 8 <= r.value <= |s|
    ensures r.Some? ==> StartsWith(s[p..r.value], " qui ") && EndsWith(s[p..r.value], "nt")
  {
    if !StartsWith(s[p..], " qui ") then None
    else
      var q := p + 5;
      var reflexive := if StartsWith(s[q..], "se ") then BodyEnd(s, q + 3) else None;
      var r := if reflexive.Some? then reflexive else BodyEnd(s, q);
      assert r.Some? ==> s[p..r.value][..5] == s[p..][..5];
      assert r.Some? ==> s[p..r.value][r.value - p - 2..] == s[..r.value][r.value - 2..];
      r
  }

  /**
    A match of `[a-zéèç"]+nt(?= |$|\.)` from `q` to `e`, stated directly: at least
    three class letters, the last two `nt`, followed by a space, a full stop, the
    end of the text or a final newline.
  */
  predicate BodyMatch(s: string, q: nat, e: nat) {
    q + 3 <= e <= |s| && (forall j :: q <= j < e ==> QuiLetter(s[j])) && s[e - 2..e] == "nt"
    && (BoundaryAt(s, e) || (e < |s| && s[e] == '.'))
  }

  /** A run of class letters from `q` to `e` that stops at `e` is the maximal run. */
  lemma {:induction false} RunEndIs(s: string, q: nat, e: nat)
    requires q <= e <= |s|
    requires forall j :: q <= j < e ==> QuiLetter(s[j])
    requires e == |s| || !QuiLetter(s[e])
    ensures RunEnd(s, q) == e
    decreases e - q
  {
    if q < e {
      RunEndIs(s, q + 1, e);
    }
  }

  /** BodyEnd finds a body match exactly when there is one, and then that one. */
  lemma BodyEndExact(s: string, q: nat, e: nat)
    requires q <= |s|
    ensures BodyMatch(s, q, e) <==> BodyEnd(s, q) == Some(e)
  {
    if BodyMatch(s, q, e) {
      RunEndIs(s, q, e);
    }
    if BodyEnd(s, q) == Some(e) {
      assert s[..e][e - 2..] == s[e - 2..e];
    }
  }

  /**
    The whole pattern ` qui (se )?[a-zéèç"]+nt(?= |$|\.)` matched from `p` to `e`,
    with or without `se `.
  */
  predicate PatternMatch(s: string, p: nat, e: nat) {
    p <= |s| && StartsWith(s[p..], " qui ")
    && (BodyMatch(s, p + 5, e) || (StartsWith(s[p + 5..], "se ") && BodyMatch(s, p + 8, e)))
  }

  /**
    MatchAt returns the end of the match at `p` when there is one, and fails
    only when there is none.  The two alternatives never both match, as a body
    cannot start with `se `.
  */
  lemma MatchAtExact(s: string, p: nat, e: nat)
    requires p <= |s|
    ensures PatternMatch(s, p, e) <==> MatchAt(s, p) == Some(e)
  {
    if StartsWith(s[p..], " qui ") {
      var q := p + 5;
      BodyEndExact(s, q, e);
      if StartsWith(s[q..], "se ") {
        assert s[q + 2] == ' ' && s[q] == 's' && s[q + 1] == 'e';
        RunEndIs(s, q, q + 2);
        BodyEndExact(s, q + 3, e);
      }
    }
  }

  /** `re.finditer` from index `p`: the matched texts, left to right, non-overlapping. */
  function QuiMatches(s: string, p: nat): (gs: seq<string>)
    requires p <= |s|
    ensures forall i :: 0 <= i < |gs| ==> StartsWith(gs[i], " qui ") && EndsWith(gs[i], "nt")
    decreases |s| - p
  {
    if p == |s| then []
    else
      match MatchAt(s, p)
      case Some(e) => [s[p..e]] + QuiMatches(s, e)
      case None => QuiMatches(s, p + 1)
  }

  /**
    `finditer` returns the leftmost match first: with no match starting in
    `[p, i)` and one from `i` to `e`, the matches from `p` are that one and
    those after its end.
  */
  lemma {:induction false} QuiMatchesLeftmost(s: string, p: nat, i: nat, e: nat)
    requires p <= i <= |s|
    requires forall j, f :: p <= j < i ==> !PatternMatch(s, j, f)
    requires PatternMatch(s, i, e)
    ensures QuiMatches(s, p) == [s[i..e]] + QuiMatches(s, e)
    decreases i - p
  {
    MatchAtExact(s, i, e);
    if p < i {
      if MatchAt(s, p).Some? {
        MatchAtExact(s, p, MatchAt(s, p).value);
      }
      QuiMatchesLeftmost(s, p + 1, i, e);
    }
  }

  /** With no match starting from `p` on, `finditer` yields nothing. */
  lemma {:induction false} QuiMatchesNone(s: string, p: nat)
    requires p <= |s|
    requires forall j, f :: p <= j <= |s| ==> !PatternMatch(s, j, f)
    ensures QuiMatches(s, p) == []
    decreases |s| - p
  {
    if p < |s| {
      if MatchAt(s, p).Some? {
        MatchAtExact(s, p, MatchAt(s, p).value);
      }
      QuiMatchesNone(s, p + 1);
    }
  }

  /** `re.sub('nt$', '<nt>', g)`: the trailing `nt` of a match is bracketed. */
  function MarkNt(g: string): string {
    if EndsWith(g, "nt") then g[..|g| - 2] + "<nt>" else g
  }

  /** The loop body `tmp = tmp.replace(g, MarkNt(g))` applied for each match in turn. */
  function MarkAll(t: string, gs: seq<string>): string
    requires forall i :: 0 <= i < |gs| ==> gs[i] != []
    decreases |gs|
  {
    if gs == [] then t else MarkAll(Replace(t, gs[0], MarkNt(gs[0])), gs[1..])
  }

  /** The agreement rule: every match of the text, found before any rewrite, marked throughout. */
  function QuiMarked(s: string): string {
    MarkAll(s, QuiMatches(s, 0))
  }

  /**
    The `finditer` loop of main.py: the iterator scans the text as it was before
    the loop, while `t` is rewritten by replacing every occurrence of each match.
  */
  method MarkQuiAgreement(s: string) returns (t: string)
    ensures t == QuiMarked(s)
  {
    t := s;
    var p := 0;
    while p < |s|
      invariant 0 <= p <= |s|
      invariant MarkAll(t, QuiMatches(s, p)) == QuiMarked(s)
      decreases |s| - p
    {
      var m := MatchAt(s, p);
      if m.Some? {
        var g := s[p..m.value];
        t := Replace(t, g, MarkNt(g));
        p := m.value;
      } else {
        p := p + 1;
      }
    }
  }

  lemma MarkNtErase(g: string)
    ensures Erase(MarkNt(g), Brackets) == Erase(g, Brackets)
  {
    if EndsWith(g, "nt") {
      var stem := g[..|g| - 2];
      assert g == stem + "nt";
      EraseConcat(stem, "nt", Brackets);
      EraseConcat(stem, "<nt>", Brackets);
      assert Erase("<nt>", Brackets) == "nt";
    }
  }

  /** Marking the agreement suffixes only adds brackets. */
  lemma {:induction false} MarkAllErase(t: string, gs: seq<string>)
    requires forall i :: 0 <= i < |gs| ==> gs[i] != []
    ensures Erase(MarkAll(t, gs), Brackets) == Erase(t, Brackets)
    decreases |gs|
  {
    if gs != [] {
      MarkNtErase(gs[0]);
      ReplaceErase(t, gs[0], MarkNt(gs[0]), Brackets);
      MarkAllErase(Replace(t, gs[0], MarkNt(gs[0])), gs[1..]);
    }
  }

  // ---------------------------------------------------------------------------
  // Where the brackets sit
  // ---------------------------------------------------------------------------

  /**
    Every `<` is followed by a letter of `opens` and every `>` is preceded by a
    letter of `closes`: the markers only ever hug the letters their rules mark.
  */
  predicate Hugged(t: string, opens: set<char>, closes: set<char>) {
    forall i :: 0 <= i < |t| - 1 ==> (t[i] == '<' ==> t[i + 1] in opens) && (t[i + 1] == '>' ==> t[i] in closes)
  }

  lemma HuggedDrop(t: string, n: nat, opens: set<char>, closes: set<char>)
    requires Hugged(t, opens, closes) && n <= |t|
    ensures Hugged(t[n..], opens, closes)
  {
    forall i | 0 <= i < |t[n..]| - 1
      ensures (t[n..][i] == '<' ==> t[n..][i + 1] in opens) && (t[n..][i + 1] == '>' ==> t[n..][i] in closes)
    {
      assert t[n..][i] == t[n + i] && t[n..][i + 1] == t[n + i + 1];
    }
  }

  lemma HuggedWiden(t: string, opens: set<char>, closes: set<char>, opens': set<char>, closes': set<char>)
    requires Hugged(t, opens, closes) && opens <= opens' && closes <= closes'
    ensures Hugged(t, opens', closes')
  {
  }

  /** Two hugged texts stay hugged side by side when their meeting point is. */
  lemma HuggedConcat(a: string, b: string, opens: set<char>, closes: set<char>)
    requires Hugged(a, opens, closes) && Hugged(b, opens, closes)
    requires a != [] && b != [] ==> (a[|a| - 1] == '<' ==> b[0] in opens) && (b[0] == '>' ==> a[|a| - 1] in closes)
    ensures Hugged(a + b, opens, closes)
  {
    var t := a + b;
    forall i | 0 <= i < |t| - 1
      ensures (t[i] == '<' ==> t[i + 1] in opens) && (t[i + 1] == '>' ==> t[i] in closes)
    {
      if i < |a| - 1 {
        assert t[i] == a[i] && t[i + 1] == a[i + 1];
      } else if i == |a| - 1 {
        assert t[i] == a[|a| - 1] && t[i + 1] == b[0];
      } else {
        assert t[i] == b[i - |a|] && t[i + 1] == b[i - |a| + 1];
      }
    }
  }

  /** Wrapping a letter no marker touches yet keeps the markers hugging their letters. */
  lemma {:induction false} WrapHugged(t: string, prev: Option<char>, target: char, excluded: set<char>, opens: set<char>, closes: set<char>)
    requires Hugged(t, opens, closes) && target !in opens && target !in closes && target !in Brackets
    ensures Hugged(WrapUnlessAfter(t, prev, target, excluded), opens + {target}, closes + {target})
    decreases |t|
  {
    if t != [] {
      var piece := if t[0] == target && !(prev.Some? && prev.value in excluded) then ['<', target, '>'] else [t[0]];
      var w := WrapUnlessAfter(t[1..], Some(t[0]), target, excluded);
      assert WrapUnlessAfter(t, prev, target, excluded) == piece + w;
      HuggedDrop(t, 1, opens, closes);
      WrapHugged(t[1..], Some(t[0]), target, excluded, opens, closes);
      if |t| >= 2 {
        assert w[0] == (if t[1] == target && t[0] !in excluded then '<' else t[1]);
        assert t[0] == '<' ==> t[1] in opens;
        assert t[1] == '>' ==> t[0] in closes;
      }
      assert Hugged(piece, opens + {target}, closes + {target}) by {
        if |piece| == 3 {
          assert piece[0] == '<' && piece[1] == target && piece[2] == '>';
        }
      }
      HuggedConcat(piece, w, opens + {target}, closes + {target});
    }
  }

  /** The word-final rule keeps the markers hugging their letters. */
  lemma {:induction false} ReplaceBeforeBoundaryHugged(t: string, pat: string, rep: string, opens: set<char>, closes: set<char>, opens': set<char>, closes': set<char>)
    requires Hugged(t, opens, closes) && opens <= opens' && closes <= closes'
    requires pat != [] && pat[0] !in opens && pat[|pat| - 1] !in closes
    requires rep != [] && rep[0] != '>' && rep[|rep| - 1] != '<' && Hugged(rep, opens', closes')
    ensures Hugged(ReplaceBeforeBoundary(t, pat, rep), opens', closes')
    decreases |t|
  {
    HuggedWiden(t, opens, closes, opens', closes');
    if |t| < |pat| {
    } else if t[..|pat|] == pat && BoundaryAt(t, |pat|) {
      var w := ReplaceBeforeBoundary(t[|pat|..], pat, rep);
      HuggedDrop(t, |pat|, opens, closes);
      ReplaceBeforeBoundaryHugged(t[|pat|..], pat, rep, opens, closes, opens', closes');
      if |t| > |pat| {
        var x := t[|pat|..];
        assert w[0] == (if |x| >= |pat| && x[..|pat|] == pat && BoundaryAt(x, |pat|) then rep[0] else x[0]);
        var j := |pat| - 1;
        assert t[j] == pat[j] && t[j] !in closes;
        assert x[0] == t[j + 1] && t[j + 1] != '>';
      }
      HuggedConcat(rep, w, opens', closes');
    } else {
      var w := ReplaceBeforeBoundary(t[1..], pat, rep);
      HuggedDrop(t, 1, opens, closes);
      ReplaceBeforeBoundaryHugged(t[1..], pat, rep, opens, closes, opens', closes');
      if |t| >= 2 {
        var x := t[1..];
        var fires := |x| >= |pat| && x[..|pat|] == pat && BoundaryAt(x, |pat|);
        assert w[0] == (if fires then rep[0] else x[0]);
        assert fires ==> x[0] == pat[0];
        assert t[0] == '<' ==> t[1] in opens;
        assert t[1] == '>' ==> t[0] in closes;
      }
      HuggedConcat([t[0]], w, opens', closes');
    }
  }

  /** A plain replacement keeps the markers hugging their letters when it does not start or end on one. */
  lemma {:induction false} ReplaceHugged(t: string, pat: string, rep: string, opens: set<char>, closes: set<char>, opens': set<char>, closes': set<char>)
    requires Hugged(t, opens, closes) && opens <= opens' && closes <= closes'
    requires pat != [] && pat[0] !in opens && pat[|pat| - 1] !in closes
    requires rep != [] && rep[0] != '>' && rep[|rep| - 1] != '<' && Hugged(rep, opens', closes')
    ensures Hugged(Replace(t, pat, rep), opens', closes')
    decreases |t|
  {
    HuggedWiden(t, opens, closes, opens', closes');
    if |t| < |pat| {
    } else if t[..|pat|] == pat {
      var w := Replace(t[|pat|..], pat, rep);
      HuggedDrop(t, |pat|, opens, closes);
      ReplaceHugged(t[|pat|..], pat, rep, opens, closes, opens', closes');
      if |t| > |pat| {
        var x := t[|pat|..];
        assert w[0] == (if |x| >= |pat| && x[..|pat|] == pat then rep[0] else x[0]);
        var j := |pat| - 1;
        assert t[j] == pat[j] && t[j] !in closes;
        assert x[0] == t[j + 1] && t[j + 1] != '>';
      }
      HuggedConcat(rep, w, opens', closes');
    } else {
      var w := Replace(t[1..], pat, rep);
      HuggedDrop(t, 1, opens, closes);
      ReplaceHugged(t[1..], pat, rep, opens, closes, opens', closes');
      if |t| >= 2 {
        var x := t[1..];
        var fires := |x| >= |pat| && x[..|pat|] == pat;
        assert w[0] == (if fires then rep[0] else x[0]);
        assert fires ==> x[0] == pat[0];
        assert t[0] == '<' ==> t[1] in opens;
        assert t[1] == '>' ==> t[0] in closes;
      }
      HuggedConcat([t[0]], w, opens', closes');
    }
  }

  /**
    A pattern none of whose inner letters a marker can touch: after its first letter
    nothing follows a `<`, before its last nothing precedes a `>`.
  */
  predicate Untouched(pat: string, opens: set<char>, closes: set<char>) {
    && (forall k :: 1 <= k < |pat| ==> pat[k] !in opens)
    && (forall k :: 0 <= k < |pat| - 1 ==> pat[k] !in closes)
  }

  /** An occurrence in the erased text starting at a letter is an occurrence in the text. */
  lemma {:induction false} ErasedOccurrenceLifts(t: string, pat: string, opens: set<char>, closes: set<char>)
    requires Hugged(t, opens, closes) && '<' !in opens && '>' !in opens
    requires pat != [] && Untouched(pat, opens, closes)
    requires t != [] && t[0] !in Brackets
    ensures StartsWith(Erase(t, Brackets), pat) ==> StartsWith(t, pat)
    decreases |pat|
  {
    var e := Erase(t, Brackets);
    assert e == [t[0]] + Erase(t[1..], Brackets);
    assert t == [t[0]] + t[1..];
    StartsWithCons(t[0], Erase(t[1..], Brackets), pat);
    StartsWithCons(t[0], t[1..], pat);
    if |pat| >= 2 && |t| >= 2 {
      var rest := pat[1..];
      if t[1] == '>' {
        assert t[0] in closes && pat[0] !in closes;
      } else if t[1] == '<' {
        assert Erase(t[1..], Brackets) == Erase(t[2..], Brackets);
        if |t| >= 3 {
          assert t[2] in opens && rest[0] !in opens;
          assert Erase(t[2..], Brackets) == [t[2]] + Erase(t[3..], Brackets);
          StartsWithCons(t[2], Erase(t[3..], Brackets), rest);
        } else {
          assert t[2..] == [];
        }
      } else {
        HuggedDrop(t, 1, opens, closes);
        assert Untouched(rest, opens, closes);
        ErasedOccurrenceLifts(t[1..], rest, opens, closes);
      }
    } else if |pat| >= 2 {
      assert Erase(t[1..], Brackets) == [];
    }
  }

  /** While the markers hug their letters, a replacement they never touch commutes with erasing them. */
  lemma {:induction false} ReplaceEraseCommute(t: string, pat: string, rep: string, opens: set<char>, closes: set<char>)
    requires Hugged(t, opens, closes) && '<' !in opens && '>' !in opens
    requires pat != [] && Untouched(pat, opens, closes) && '<' !in pat && '>' !in pat
    requires '<' !in rep && '>' !in rep
    ensures Erase(Replace(t, pat, rep), Brackets) == Replace(Erase(t, Brackets), pat, rep)
    decreases |t|
  {
    var e := Erase(t, Brackets);
    if t == [] {
    } else if t[0] in Brackets {
      assert e == Erase(t[1..], Brackets);
      HuggedDrop(t, 1, opens, closes);
      ReplaceEraseCommute(t[1..], pat, rep, opens, closes);
      if |t| >= |pat| {
        assert t[..|pat|] != pat by { assert t[0] != pat[0]; }
      } else {
        EraseLength(t[1..], Brackets);
      }
    } else if |t| >= |pat| && t[..|pat|] == pat {
      HuggedDrop(t, |pat|, opens, closes);
      ReplaceEraseCommute(t[|pat|..], pat, rep, opens, closes);
      assert t == pat + t[|pat|..];
      EraseConcat(pat, t[|pat|..], Brackets);
      EraseNone(pat, Brackets);
      EraseConcat(rep, Replace(t[|pat|..], pat, rep), Brackets);
      EraseNone(rep, Brackets);
      assert e[..|pat|] == pat && e[|pat|..] == Erase(t[|pat|..], Brackets);
    } else {
      assert e == [t[0]] + Erase(t[1..], Brackets);
      HuggedDrop(t, 1, opens, closes);
      ReplaceEraseCommute(t[1..], pat, rep, opens, closes);
      ErasedOccurrenceLifts(t, pat, opens, closes);
      EraseLength(t, Brackets);
      if |t| >= |pat| {
        EraseConcat([t[0]], Replace(t[1..], pat, rep), Brackets);
      } else {
        EraseLength(t[1..], Brackets);
      }
      assert |e| >= |pat| ==> e[..|pat|] != pat;
      assert e[1..] == Erase(t[1..], Brackets);
    }
  }

  // ---------------------------------------------------------------------------
  // The per-language chains
  // ---------------------------------------------------------------------------

  /** main.py line 109-110: h and H outside digraphs, word-final mp and iz, and ufs. */
  function FrenchPreMarkers(s: string): string {
    var upper := Wrap(s, 'H', DigraphLetters);
    var lower := Wrap(upper, 'h', DigraphLetters);
    var mp := ReplaceBeforeBoundary(lower, "mp", "<mp>");
    var iz := ReplaceBeforeBoundary(mp, "iz", "i<z>");
    Replace(iz, "ufs", "<ufs>")
  }

  /** The French rule chain of the base game. */
  function FrenchMarkers(s: string): string {
    QuiMarked(FrenchPreMarkers(s))
  }

  /**
    main.py line 169-170: the module variant, which first merges a doubled é and
    after the word-final rules repairs three known mistranslations.
  */
  function FrenchModulePreMarkers(s: string): string {
    var merged := Replace(s, "éé", "é");
    var upper := Wrap(merged, 'H', DigraphLetters);
    var lower := Wrap(upper, 'h', DigraphLetters);
    var mp := ReplaceBeforeBoundary(lower, "mp", "<mp>");
    var iz := ReplaceBeforeBoundary(mp, "iz", "i<z>");
    var checkered := Replace(iz, " de vérification", " à damiers");
    var bloc := Replace(checkered, "Block ", "Bloc ");
    var ufs := Replace(bloc, "ufs", "<ufs>");
    Replace(ufs, "Pattes", "Pâtes")
  }

  /** The French rule chain of the modules. */
  function FrenchModuleMarkers(s: string): string {
    QuiMarked(FrenchModulePreMarkers(s))
  }

  /** The French base chain only inserts brackets: erasing them gives the input back. */
  lemma FrenchMarkersErase(s: string)
    ensures Erase(FrenchMarkers(s), Brackets) == Erase(s, Brackets)
  {
    var upper := Wrap(s, 'H', DigraphLetters);
    var lower := Wrap(upper, 'h', DigraphLetters);
    var mp := ReplaceBeforeBoundary(lower, "mp", "<mp>");
    var iz := ReplaceBeforeBoundary(mp, "iz", "i<z>");
    var pre := Replace(iz, "ufs", "<ufs>");
    WrapErase(s, None, 'H', DigraphLetters);
    WrapErase(upper, None, 'h', DigraphLetters);
    assert Erase("<mp>", Brackets) == Erase("mp", Brackets);
    ReplaceBeforeBoundaryErase(lower, "mp", "<mp>");
    assert Erase("i<z>", Brackets) == Erase("iz", Brackets);
    ReplaceBeforeBoundaryErase(mp, "iz", "i<z>");
    assert Erase("<ufs>", Brackets) == Erase("ufs", Brackets);
    ReplaceErase(iz, "ufs", "<ufs>", Brackets);
    MarkAllErase(pre, QuiMatches(pre, 0));
  }

  /** The letters the French marking rules bracket. */
  function FrenchMarked(merged: string): string {
    var upper := Wrap(merged, 'H', DigraphLetters);
    var lower := Wrap(upper, 'h', DigraphLetters);
    var mp := ReplaceBeforeBoundary(lower, "mp", "<mp>");
    ReplaceBeforeBoundary(mp, "iz", "i<z>")
  }

  /** After the marking rules every marker hugs an `H`, `h`, `mp` or `z`. */
  lemma FrenchMarkedHugged(merged: string)
    requires '<' !in merged && '>' !in merged
    ensures Hugged(FrenchMarked(merged), {'H', 'h', 'm', 'z'}, {'H', 'h', 'p', 'z'})
  {
    var upper := Wrap(merged, 'H', DigraphLetters);
    var lower := Wrap(upper, 'h', DigraphLetters);
    var mp := ReplaceBeforeBoundary(lower, "mp", "<mp>");
    var none: set<char> := {};
    assert Hugged(merged, none, none);
    WrapHugged(merged, None, 'H', DigraphLetters, none, none);
    WrapHugged(upper, None, 'h', DigraphLetters, {'H'}, {'H'});
    var o1, c1 := {'H', 'h', 'm'}, {'H', 'h', 'p'};
    assert Hugged("<mp>", o1, c1);
    ReplaceBeforeBoundaryHugged(lower, "mp", "<mp>", {'H', 'h'}, {'H', 'h'}, o1, c1);
    var o2, c2 := {'H', 'h', 'm', 'z'}, {'H', 'h', 'p', 'z'};
    assert Hugged("i<z>", o2, c2);
    ReplaceBeforeBoundaryHugged(mp, "iz", "i<z>", o1, c1, o2, c2);
  }

  /** Erasing the markers of the marking rules gives back text without markers. */
  lemma FrenchMarkedErase(merged: string)
    requires '<' !in merged && '>' !in merged
    ensures Erase(FrenchMarked(merged), Brackets) == merged
  {
    var upper := Wrap(merged, 'H', DigraphLetters);
    var lower := Wrap(upper, 'h', DigraphLetters);
    var mp := ReplaceBeforeBoundary(lower, "mp", "<mp>");
    WrapErase(merged, None, 'H', DigraphLetters);
    WrapErase(upper, None, 'h', DigraphLetters);
    assert Erase("<mp>", Brackets) == Erase("mp", Brackets);
    ReplaceBeforeBoundaryErase(lower, "mp", "<mp>");
    assert Erase("i<z>", Brackets) == Erase("iz", Brackets);
    ReplaceBeforeBoundaryErase(mp, "iz", "i<z>");
    EraseNone(merged, Brackets);
  }

  /** Erasing the markers commutes with replacing the checkered pattern, which keeps them hugging. */
  lemma CheckeredErase(marked: string)
    requires Hugged(marked, {'H', 'h', 'm', 'z'}, {'H', 'h', 'p', 'z'})
    ensures Hugged(Replace(marked, " de vérification", " à damiers"), {'H', 'h', 'm', 'z'}, {'H', 'h', 'p', 'z'})
    ensures Erase(Replace(marked, " de vérification", " à damiers"), Brackets)
         == Replace(Erase(marked, Brackets), " de vérification", " à damiers")
  {
    var o2, c2 := {'H', 'h', 'm', 'z'}, {'H', 'h', 'p', 'z'};
    assert Hugged(" à damiers", o2, c2);
    ReplaceHugged(marked, " de vérification", " à damiers", o2, c2, o2, c2);
    assert Untouched(" de vérification", o2, c2);
    ReplaceEraseCommute(marked, " de vérification", " à damiers", o2, c2);
  }

  /** Erasing the markers commutes with `Block ` becoming `Bloc `, which keeps them hugging. */
  lemma BlocErase(checkered: string)
    requires Hugged(checkered, {'H', 'h', 'm', 'z'}, {'H', 'h', 'p', 'z'})
    ensures Hugged(Replace(checkered, "Block ", "Bloc "), {'H', 'h', 'm', 'z'}, {'H', 'h', 'p', 'z'})
    ensures Erase(Replace(checkered, "Block ", "Bloc "), Brackets) == Replace(Erase(checkered, Brackets), "Block ", "Bloc ")
  {
    var o2, c2 := {'H', 'h', 'm', 'z'}, {'H', 'h', 'p', 'z'};
    assert Hugged("Bloc ", o2, c2);
    ReplaceHugged(checkered, "Block ", "Bloc ", o2, c2, o2, c2);
    assert Untouched("Block ", o2, c2);
    ReplaceEraseCommute(checkered, "Block ", "Bloc ", o2, c2);
  }

  /** Marking `ufs` only adds markers, and they hug its `u` and `s`. */
  lemma UfsErase(bloc: string)
    requires Hugged(bloc, {'H', 'h', 'm', 'z'}, {'H', 'h', 'p', 'z'})
    ensures Hugged(Replace(bloc, "ufs", "<ufs>"), {'H', 'h', 'm', 'z', 'u'}, {'H', 'h', 'p', 'z', 's'})
    ensures Erase(Replace(bloc, "ufs", "<ufs>"), Brackets) == Erase(bloc, Brackets)
  {
    var o3, c3 := {'H', 'h', 'm', 'z', 'u'}, {'H', 'h', 'p', 'z', 's'};
    assert Hugged("<ufs>", o3, c3);
    ReplaceHugged(bloc, "ufs", "<ufs>", {'H', 'h', 'm', 'z'}, {'H', 'h', 'p', 'z'}, o3, c3);
    assert Erase("<ufs>", Brackets) == Erase("ufs", Brackets);
    ReplaceErase(bloc, "ufs", "<ufs>", Brackets);
  }

  /** Erasing the markers commutes with `Pattes` becoming `Pâtes`. */
  lemma PatesErase(ufs: string)
    requires Hugged(ufs, {'H', 'h', 'm', 'z', 'u'}, {'H', 'h', 'p', 'z', 's'})
    ensures Erase(Replace(ufs, "Pattes", "Pâtes"), Brackets) == Replace(Erase(ufs, Brackets), "Pattes", "Pâtes")
  {
    var o3, c3 := {'H', 'h', 'm', 'z', 'u'}, {'H', 'h', 'p', 'z', 's'};
    assert Untouched("Pattes", o3, c3);
    ReplaceEraseCommute(ufs, "Pattes", "Pâtes", o3, c3);
  }

  /**
    For text without markers, the module chain of French only adds markers, apart
    from its four plain rewrites: merging `éé`, the checkered pattern, `Bloc` and `Pâtes`.
  */
  lemma FrenchModuleMarkersErase(s: string)
    requires '<' !in s && '>' !in s
    ensures Erase(FrenchModuleMarkers(s), Brackets)
         == Replace(Replace(Replace(Replace(s, "éé", "é"), " de vérification", " à damiers"), "Block ", "Bloc "), "Pattes", "Pâtes")
  {
    var merged := Replace(s, "éé", "é");
    ReplaceKeepsOut(s, "éé", "é", '<');
    ReplaceKeepsOut(s, "éé", "é", '>');
    var marked := FrenchMarked(merged);
    FrenchMarkedHugged(merged);
    FrenchMarkedErase(merged);
    var checkered := Replace(marked, " de vérification", " à damiers");
    CheckeredErase(marked);
    var bloc := Replace(checkered, "Block ", "Bloc ");
    BlocErase(checkered);
    UfsErase(bloc);
    PatesErase(Replace(bloc, "ufs", "<ufs>"));
    var pre := FrenchModulePreMarkers(s);
    MarkAllErase(pre, QuiMatches(pre, 0));
  }

  /** The Spanish diphthongs that receive a stress backtick, in the order they are replaced. */
  const StressPatterns: seq<string> :=
    ["iencio", "iencia", "ienso", "iensa", "iense", "iento", "ienta", "iente",
     "iende", "iando", "ianda", "uevo", "ueva", "ueve", "ier", "uer"]

  /** `.replace(p, '`' + p)` for each pattern in turn. */
  function MarkStress(s: string, pats: seq<string>): string
    requires forall i :: 0 <= i < |pats| ==> pats[i] != []
    decreases |pats|
  {
    if pats == [] then s else MarkStress(Replace(s, pats[0], "`" + pats[0]), pats[1..])
  }

  /** Stress marking only inserts backticks. */
  lemma {:induction false} MarkStressErase(s: string, pats: seq<string>)
    requires forall i :: 0 <= i < |pats| ==> pats[i] != []
    ensures Erase(MarkStress(s, pats), Backtick) == Erase(s, Backtick)
    decreases |pats|
  {
    if pats != [] {
      EraseConcat("`", pats[0], Backtick);
      ReplaceErase(s, pats[0], "`" + pats[0], Backtick);
      MarkStressErase(Replace(s, pats[0], "`" + pats[0]), pats[1..]);
    }
  }

  /**
    main.py line 92-93: the stress chain, then v, H and V, then every h outside
    the digraphs `excluded` allows.
  */
  function SpanishMarkers(s: string, excluded: set<char>): string {
    SpanishHints(MarkStress(s, StressPatterns), excluded)
  }

  /** The steps after the stress chain: v, H and V, then h. */
  function SpanishHints(stressed: string, excluded: set<char>): string {
    var v := Replace(stressed, "v", "v(b)");
    var upper := Replace(v, "H", "<H>");
    var bigV := Replace(upper, "V", "V(B)");
    Wrap(bigV, 'h', excluded)
  }

  /**
    The reading of a Spanish annotation: brackets dropped, `V(B)` and `v(b)`
    back to `V` and `v`, stress marks dropped.
  */
  function SpanishPlain(t: string): string {
    var unbracketed := Erase(t, Brackets);
    var bigV := Replace(unbracketed, "V(B)", "V");
    Erase(Replace(bigV, "v(b)", "v"), Backtick)
  }

  /**
    Reading a Spanish annotation gives the source text back, up to brackets and
    backticks it already contained: the rules only insert markers and the
    `(b)`/`(B)` hints.
  */
  lemma SpanishPlainInverts(s: string, excluded: set<char>)
    ensures SpanishPlain(SpanishMarkers(s, excluded)) == Erase(Erase(s, Backtick), Brackets)
  {
    var stressed := MarkStress(s, StressPatterns);
    calc {
      SpanishPlain(SpanishMarkers(s, excluded));
      SpanishPlain(SpanishHints(stressed, excluded));
      { SpanishHintsUndone(stressed, excluded); }
      Erase(Erase(stressed, Backtick), Brackets);
      { MarkStressErase(s, StressPatterns); }
      Erase(Erase(s, Backtick), Brackets);
    }
  }

  /** Reading undoes the hint steps, leaving the stressed text without brackets and backticks. */
  lemma SpanishHintsUndone(stressed: string, excluded: set<char>)
    ensures SpanishPlain(SpanishHints(stressed, excluded)) == Erase(Erase(stressed, Backtick), Brackets)
  {
    var y0 := Erase(stressed, Brackets);
    var y1 := Replace(y0, "v", "v(b)");
    assert "V(B)" == ['V'] + "(B)" && "v(b)" == ['v'] + "(b)";
    SpanishHintsUnbracketed(stressed, excluded);
    ReplaceUndo(y1, 'V', "(B)");
    ReplaceUndo(y0, 'v', "(b)");
    EraseCommute(stressed, Brackets, Backtick);
  }

  /** Without its brackets a hinted text is the text without brackets with the two hint replacements. */
  lemma SpanishHintsUnbracketed(stressed: string, excluded: set<char>)
    ensures var y0 := Erase(stressed, Brackets);
      Erase(SpanishHints(stressed, excluded), Brackets) == Replace(Replace(y0, "v", "v(b)"), "V", "V(B)")
  {
    var v := Replace(stressed, "v", "v(b)");
    var upper := Replace(v, "H", "<H>");
    var bigV := Replace(upper, "V", "V(B)");
    WrapErase(bigV, None, 'h', excluded);
    HintUnbracketed(upper, 'V', "V(B)");
    UpperHUnbracketed(v);
    HintUnbracketed(stressed, 'v', "v(b)");
  }

  /** The hints contain no bracket, so they commute with erasing brackets. */
  lemma HintUnbracketed(s: string, c: char, hint: string)
    requires hint == "V(B)" || hint == "v(b)"
    requires c == 'V' || c == 'v'
    ensures Erase(Replace(s, [c], hint), Brackets) == Replace(Erase(s, Brackets), [c], hint)
  {
    ReplaceCharErase(s, c, hint, Brackets);
  }

  /** `<H>` is `H` up to brackets. */
  lemma UpperHUnbracketed(s: string)
    ensures Erase(Replace(s, "H", "<H>"), Brackets) == Erase(s, Brackets)
  {
    assert Erase("<H>", Brackets) == Erase("H", Brackets) by {
      EraseConcat("<", "H>", Brackets);
      EraseConcat("H", ">", Brackets);
      assert "<H>" == "<" + "H>" && "H>" == "H" + ">";
    }
    ReplaceErase(s, "H", "<H>", Brackets);
  }
}
