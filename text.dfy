/**
  The string operations of both scripts, with Python's `str` semantics, written as
  character scans: `startswith`, `replace`, `split` on one separator character,
  `join`, and `lower`.  `Erase` drops a set of marker characters; under it the
  pronunciation markers that the annotation rules insert become invisible.
*/
module Text {

  /** `s.startswith(p)`. */
  predicate StartsWith(s: string, p: string) {
    |p| <= |s| && s[..|p|] == p
  }

  /** `s.endswith(p)`. */
  predicate EndsWith(s: string, p: string) {
    |p| <= |s| && s[|s| - |p|..] == p
  }

  /** `pat` occurs in `s` starting at index `i`. */
  predicate OccursAt(s: string, pat: string, i: int) {
    0 <= i && i + |pat| <= |s| && s[i..i + |pat|] == pat
  }

  /** An occurrence in the tail is an occurrence one index further in the text. */
  /** A text starts with a pattern exactly when its first letter and the rest do. */
  lemma StartsWithCons(c: char, x: string, p: string)
    requires p != []
    ensures StartsWith([c] + x, p) <==> c == p[0] && StartsWith(x, p[1..])
  {
    var s := [c] + x;
    if |p| <= |s| {
      assert s[..|p|] == [c] + x[..|p| - 1];
      assert p == [p[0]] + p[1..];
    }
  }

  lemma OccursShift(s: string, pat: string, i: int)
    requires s != [] && 0 <= i
    ensures OccursAt(s[1..], pat, i) <==> OccursAt(s, pat, i + 1)
  {
    if 0 <= i && i + |pat| <= |s[1..]| {
      assert s[1..][i..i + |pat|] == s[i + 1..i + 1 + |pat|];
    }
  }

  // ---------------------------------------------------------------------------
  // str.replace
  // ---------------------------------------------------------------------------

  /**
    `s.replace(pat, rep)` for a non-empty `pat`: scanning left to right, every
    occurrence that starts where the previous one ended or later is replaced
    (leftmost, non-overlapping), and replaced text is never rescanned.
  */
  function Replace(s: string, pat: string, rep: string): string
    requires pat != []
    decreases |s|
  {
    if |s| < |pat| then s
    else if s[..|pat|] == pat then rep + Replace(s[|pat|..], pat, rep)
    else [s[0]] + Replace(s[1..], pat, rep)
  }

  /** A pattern that does not occur leaves the text unchanged. */
  lemma {:induction false} ReplaceAbsent(s: string, pat: string, rep: string)
    requires pat != []
    requires forall i :: !OccursAt(s, pat, i)
    ensures Replace(s, pat, rep) == s
  {
    if |s| >= |pat| {
      assert !OccursAt(s, pat, 0);
      forall i
        ensures !OccursAt(s[1..], pat, i)
      {
        if 0 <= i {
          OccursShift(s, pat, i);
        }
      }
      ReplaceAbsent(s[1..], pat, rep);
    }
  }

  /**
    Replacing a single character `c` by `c` followed by a tail is undone by
    replacing `c` + tail by `c` again: the scan of the second replace meets every
    inserted tail right after its `c`.
  */
  lemma {:induction false} ReplaceUndo(s: string, c: char, t: string)
    ensures Replace(Replace(s, [c], [c] + t), [c] + t, [c]) == s
  {
    if s != [] {
      var r := Replace(s[1..], [c], [c] + t);
      ReplaceUndo(s[1..], c, t);
      if s[0] == c {
        var o := [c] + t + r;
        assert o[..|[c] + t|] == [c] + t;
        assert o[|[c] + t|..] == r;
      } else {
        var o := [s[0]] + r;
        assert o[1..] == r;
        if |o| >= |[c] + t| {
          assert o[..|[c] + t|][0] == s[0];
        }
      }
    }
  }

  /** A replacement as long as its pattern keeps the length of the text. */
  lemma {:induction false} ReplaceKeepsLength(s: string, pat: string, rep: string)
    requires pat != [] && |rep| == |pat|
    ensures |Replace(s, pat, rep)| == |s|
    decreases |s|
  {
    if |s| >= |pat| {
      if s[..|pat|] == pat {
        ReplaceKeepsLength(s[|pat|..], pat, rep);
      } else {
        ReplaceKeepsLength(s[1..], pat, rep);
      }
    }
  }

  /** A character absent from both the text and the replacement is absent from the result. */
  lemma {:induction false} ReplaceKeepsOut(s: string, pat: string, rep: string, c: char)
    requires pat != [] && c !in s && c !in rep
    ensures c !in Replace(s, pat, rep)
    decreases |s|
  {
    if |s| >= |pat| {
      if s[..|pat|] == pat {
        ReplaceKeepsOut(s[|pat|..], pat, rep, c);
      } else {
        ReplaceKeepsOut(s[1..], pat, rep, c);
      }
    }
  }

  /** Replacing a character by text without it removes every occurrence. */
  lemma {:induction false} ReplaceRemoves(s: string, c: char, rep: string)
    requires c !in rep
    ensures c !in Replace(s, [c], rep)
    decreases |s|
  {
    if s != [] {
      ReplaceRemoves(s[1..], c, rep);
    }
  }

  // ---------------------------------------------------------------------------
  // Marker erasure
  // ---------------------------------------------------------------------------

  /** `s` with every character of `marks` removed. */
  function Erase(s: string, marks: set<char>): string
    decreases |s|
  {
    if s == [] then [] else (if s[0] in marks then [] else [s[0]]) + Erase(s[1..], marks)
  }

  /** Erasing keeps exactly the characters that are not marks. */
  lemma {:induction false} EraseKeeps(s: string, marks: set<char>, c: char)
    ensures c in Erase(s, marks) <==> c in s && c !in marks
    decreases |s|
  {
    if s != [] {
      EraseKeeps(s[1..], marks, c);
      assert s == [s[0]] + s[1..];
    }
  }

  /** Erasing never lengthens a text. */
  lemma {:induction false} EraseLength(s: string, marks: set<char>)
    ensures |Erase(s, marks)| <= |s|
    decreases |s|
  {
    if s != [] {
      EraseLength(s[1..], marks);
    }
  }

  lemma {:induction false} EraseConcat(a: string, b: string, marks: set<char>)
    ensures Erase(a + b, marks) == Erase(a, marks) + Erase(b, marks)
    decreases |a|
  {
    if a == [] {
      assert a + b == b;
    } else {
      assert (a + b)[1..] == a[1..] + b;
      EraseConcat(a[1..], b, marks);
    }
  }

  /** Text without markers is its own erasure. */
  lemma {:induction false} EraseNone(s: string, marks: set<char>)
    requires forall i :: 0 <= i < |s| ==> s[i] !in marks
    ensures Erase(s, marks) == s
    decreases |s|
  {
    if s != [] {
      EraseNone(s[1..], marks);
    }
  }

  /** Erasing two sets of markers in either order gives the same text. */
  lemma {:induction false} EraseCommute(s: string, m1: set<char>, m2: set<char>)
    ensures Erase(Erase(s, m1), m2) == Erase(Erase(s, m2), m1)
    decreases |s|
  {
    if s != [] {
      EraseCommute(s[1..], m1, m2);
      var h1 := if s[0] in m1 then [] else [s[0]];
      var h2 := if s[0] in m2 then [] else [s[0]];
      EraseConcat(h1, Erase(s[1..], m1), m2);
      EraseConcat(h2, Erase(s[1..], m2), m1);
    }
  }

  /** Replacing a single character works character by character. */
  lemma ReplaceCharCons(a: char, s: string, c: char, rep: string)
    ensures Replace([a] + s, [c], rep) == (if a == c then rep else [a]) + Replace(s, [c], rep)
  {
    assert ([a] + s)[..1] == [a];
    assert ([a] + s)[1..] == s;
  }

  /**
    Replacing a single non-marker character by marker-free text commutes with
    erasing the markers.
  */
  lemma {:induction false} ReplaceCharErase(s: string, c: char, rep: string, marks: set<char>)
    requires c !in marks
    requires forall i :: 0 <= i < |rep| ==> rep[i] !in marks
    ensures Erase(Replace(s, [c], rep), marks) == Replace(Erase(s, marks), [c], rep)
    decreases |s|
  {
    if s != [] {
      ReplaceCharErase(s[1..], c, rep, marks);
      var tail := Replace(s[1..], [c], rep);
      ReplaceCharCons(s[0], s[1..], c, rep);
      assert s == [s[0]] + s[1..];
      var head := if s[0] == c then rep else [s[0]];
      EraseConcat(head, tail, marks);
      assert Erase(s, marks) == (if s[0] in marks then [] else [s[0]]) + Erase(s[1..], marks);
      if s[0] in marks {
        assert Erase([s[0]], marks) == [] by {
          assert [s[0]][1..] == [];
        }
        assert Erase(s, marks) == Erase(s[1..], marks);
        assert Erase(Replace(s, [c], rep), marks) == Erase(tail, marks);
      } else {
        EraseNone(rep, marks);
        EraseNone([s[0]], marks);
        ReplaceCharCons(s[0], Erase(s[1..], marks), c, rep);
      }
    }
  }

  /**
    A replacement that differs from its pattern only by marker characters leaves
    the text unchanged up to markers.
  */
  lemma {:induction false} ReplaceErase(s: string, pat: string, rep: string, marks: set<char>)
    requires pat != []
    requires Erase(rep, marks) == Erase(pat, marks)
    ensures Erase(Replace(s, pat, rep), marks) == Erase(s, marks)
    decreases |s|
  {
    if |s| < |pat| {
    } else if s[..|pat|] == pat {
      ReplaceErase(s[|pat|..], pat, rep, marks);
      EraseConcat(rep, Replace(s[|pat|..], pat, rep), marks);
      assert s == s[..|pat|] + s[|pat|..];
      EraseConcat(s[..|pat|], s[|pat|..], marks);
    } else {
      ReplaceErase(s[1..], pat, rep, marks);
      EraseConcat([s[0]], Replace(s[1..], pat, rep), marks);
      assert s == [s[0]] + s[1..];
      EraseConcat([s[0]], s[1..], marks);
    }
  }

  // ---------------------------------------------------------------------------
  // str.split(sep) and sep.join(parts)
  // ---------------------------------------------------------------------------

  /**
    `s.split(sep)` with an explicit one-character separator: consecutive
    separators give empty fields and the result is never empty (`''.split(' ')`
    is `['']`).
  */
  function Split(s: string, sep: char): (parts: seq<string>)
    ensures |parts| >= 1
    ensures StartsWith(s, parts[0])
    ensures forall i :: 0 <= i < |parts| ==> sep !in parts[i]
    decreases |s|
  {
    if s == [] then [[]]
    else if s[0] == sep then [[]] + Split(s[1..], sep)
    else
      var rest := Split(s[1..], sep);
      [[s[0]] + rest[0]] + rest[1..]
  }

  /** `sep.join(parts)`. */
  function Join(parts: seq<string>, sep: char): string
    decreases |parts|
  {
    if |parts| == 0 then []
    else if |parts| == 1 then parts[0]
    else parts[0] + [sep] + Join(parts[1..], sep)
  }

  /** Joining the fields of a split with the same separator gives the text back. */
  lemma {:induction false} JoinSplit(s: string, sep: char)
    ensures Join(Split(s, sep), sep) == s
    decreases |s|
  {
    if s != [] {
      JoinSplit(s[1..], sep);
      var rest := Split(s[1..], sep);
      if s[0] != sep && |rest| > 1 {
        assert Join(rest, sep) == rest[0] + [sep] + Join(rest[1..], sep);
        assert ([[s[0]] + rest[0]] + rest[1..])[1..] == rest[1..];
      }
      if s[0] == sep {
        assert ([[]] + rest)[1..] == rest;
      }
    }
  }

  /**
    The first field is the text up to the first separator, and the remaining
    fields re-joined are the text after it; with no separator the first field is
    the whole text.
  */
  lemma SplitFirst(s: string, sep: char)
    ensures var parts := Split(s, sep);
      if |parts| == 1 then parts[0] == s && sep !in s
      else s == parts[0] + [sep] + Join(parts[1..], sep)
  {
    JoinSplit(s, sep);
  }

  // ---------------------------------------------------------------------------
  // str.lower
  // ---------------------------------------------------------------------------

  /**
    Lower-case mapping of one character: ASCII letters, the Latin-1 capitals
    (U+00C0 to U+00DE except the multiplication sign), and the French capitals
    OE ligature and Y with diaeresis.
  */
  function LowerChar(c: char): char {
    if 'A' <= c <= 'Z' then (c as int + 32) as char
    else if 'À' <= c <= 'Þ' && c != '×' then (c as int + 32) as char
    else if c == 'Œ' then 'œ'
    else if c == 'Ÿ' then 'ÿ'
    else c
  }

  /** `s.lower()`, character by character. */
  function Lower(s: string): string {
    seq(|s|, i requires 0 <= i < |s| => LowerChar(s[i]))
  }

  /** Lower-casing is idempotent: a lower-cased headword is its own normal form. */
  lemma LowerIdempotent(s: string)
    ensures Lower(Lower(s)) == Lower(s)
  {
  }
}
