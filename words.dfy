/**
 * Whole-word substitution as app.py performs it on one cell:
 * `re.sub(r"\bW\b", R, s)` for a key W and a replacement R that the regex engine
 * reads literally. The scan is leftmost-first, resumes after each match, and never
 * looks at the text it has just inserted.
 */
module Words {
  import opened Seqs
  import Tokens

  /**
   * Python's `\w` on str patterns, for code points up to U+00FF: ASCII letters,
   * digits and `_`, and the Latin-1 letters and numerals that `str.isalnum` accepts.
   */
  predicate IsWordChar(c: char)
  {
    ('a' <= c <= 'z') || ('A' <= c <= 'Z') || ('0' <= c <= '9') || c == '_'
    || c == '\U{AA}' || c == '\U{B2}' || c == '\U{B3}' || c == '\U{B5}' || c == '\U{B9}'
    || c == '\U{BA}' || ('\U{BC}' <= c <= '\U{BE}') || ('\U{C0}' <= c <= '\U{D6}')
    || ('\U{D8}' <= c <= '\U{F6}') || ('\U{F8}' <= c <= '\U{FF}')
  }

  /** A non-empty string of word characters only. */
  predicate IsWord(w: string)
  {
    |w| > 0 && forall c :: c in w ==> IsWordChar(c)
  }

  /** The characters that make a regular expression more than a literal. */
  const Metacharacters: set<char> := {'.', '^', '$', '*', '+', '?', '{', '}', '[', ']', '\\', '|', '(', ')'}

  /** A key that `\b{key}\b` matches literally (the key is interpolated unescaped). */
  predicate IsLiteralKey(w: string)
  {
    |w| > 0 && forall c :: c in w ==> c !in Metacharacters
  }

  /** `\b` holds at position p of s: exactly one of the two neighbours is a word character. */
  predicate Boundary(s: string, p: int)
    requires 0 <= p <= |s|
  {
    (p > 0 && IsWordChar(s[p - 1])) != (p < |s| && IsWordChar(s[p]))
  }

  /** The pattern `\bW\b` matches s at position i. */
  predicate MatchAt(s: string, w: string, i: int)
  {
    0 <= i && i + |w| <= |s| && s[i..i + |w|] == w && Boundary(s, i) && Boundary(s, i + |w|)
  }

  /** The regex scan from position i of s: a match is replaced and skipped, any other character kept. */
  function ReplaceFrom(s: string, w: string, r: string, i: nat): string
    requires |w| > 0 && i <= |s|
    decreases |s| - i
  {
    if i == |s| then []
    else if MatchAt(s, w, i) then r + ReplaceFrom(s, w, r, i + |w|)
    else [s[i]] + ReplaceFrom(s, w, r, i + 1)
  }

  /** Every `\b`-bounded occurrence of w in s replaced by r, scanning left to right from the start. */
  function ReplaceWord(s: string, w: string, r: string): string
    requires |w| > 0
  {
    ReplaceFrom(s, w, r, 0)
  }

  /** What one step of the scan at position i emits. */
  function Emitted(s: string, w: string, r: string, i: nat): string
    requires i < |s|
  {
    if MatchAt(s, w, i) then r else [s[i]]
  }

  /** Where the scan resumes after position i: past the match, or at the next character. */
  function Resume(s: string, w: string, i: nat): (k: nat)
    requires |w| > 0 && i < |s|
    ensures i < k <= |s|
  {
    if MatchAt(s, w, i) then i + |w| else i + 1
  }

  /** One step of the scan. */
  lemma ReplaceFromStep(s: string, w: string, r: string, i: nat)
    requires |w| > 0 && i < |s|
    ensures ReplaceFrom(s, w, r, i) == Emitted(s, w, r, i) + ReplaceFrom(s, w, r, Resume(s, w, i))
  {
  }

  /** One step of the scan at a match. */
  lemma ReplaceFromMatch(s: string, w: string, r: string, i: nat, j: nat)
    requires |w| > 0 && i <= |s| && MatchAt(s, w, i) && j == i + |w|
    ensures ReplaceFrom(s, w, r, i) == r + ReplaceFrom(s, w, r, j)
  {
  }

  /** One step of the scan where the pattern does not match: the character is copied. */
  lemma ReplaceFromSkip(s: string, w: string, r: string, i: nat)
    requires |w| > 0 && i < |s| && !MatchAt(s, w, i)
    ensures ReplaceFrom(s, w, r, i) == [s[i]] + ReplaceFrom(s, w, r, i + 1)
  {
  }

  /** A stretch of s where the pattern never matches is copied unchanged. */
  lemma {:induction false} SkipNoMatch(s: string, w: string, r: string, i: nat, j: nat)
    requires |w| > 0 && i <= j <= |s|
    requires forall k :: i <= k < j ==> !MatchAt(s, w, k)
    ensures ReplaceFrom(s, w, r, i) == s[i..j] + ReplaceFrom(s, w, r, j)
    decreases j - i
  {
    if i < j {
      var rest := ReplaceFrom(s, w, r, j);
      calc {
        ReplaceFrom(s, w, r, i);
        { ReplaceFromSkip(s, w, r, i); }
        [s[i]] + ReplaceFrom(s, w, r, i + 1);
        { SkipNoMatch(s, w, r, i + 1, j); }
        [s[i]] + (s[i + 1..j] + rest);
        { assert s[i..j] == [s[i]] + s[i + 1..j]; }
        s[i..j] + rest;
      }
    } else {
      assert s[i..j] == [];
    }
  }

  /** Where the key has no word-bounded occurrence, the cell is left exactly as it was. */
  lemma ReplaceWordNoMatch(s: string, w: string, r: string)
    requires |w| > 0
    requires forall i :: !MatchAt(s, w, i)
    ensures ReplaceWord(s, w, r) == s
  {
    SkipNoMatch(s, w, r, 0, |s|);
  }

  /** Length of the run of s that starts at position i: all word or all non-word characters. */
  function RunLen(s: string, i: nat): (n: nat)
    requires i < |s|
    ensures 1 <= n <= |s| - i
    decreases |s| - i
  {
    if i + 1 == |s| || IsWordChar(s[i + 1]) != IsWordChar(s[i]) then 1 else 1 + RunLen(s, i + 1)
  }

  /** The run starting at i is uniform and maximal: the character after it is of the other kind. */
  lemma {:induction false} RunLenIsRun(s: string, i: nat)
    requires i < |s|
    ensures forall k :: i <= k < i + RunLen(s, i) ==> IsWordChar(s[k]) == IsWordChar(s[i])
    ensures i + RunLen(s, i) < |s| ==> IsWordChar(s[i + RunLen(s, i)]) != IsWordChar(s[i])
    decreases |s| - i
  {
    if i + 1 < |s| && IsWordChar(s[i + 1]) == IsWordChar(s[i]) {
      RunLenIsRun(s, i + 1);
    }
  }

  /** A run ends at the end of s or where the kind of character changes. */
  lemma RunEndsAtBoundary(s: string, i: nat)
    requires i < |s|
    ensures var e := i + RunLen(s, i); e == |s| || IsWordChar(s[e - 1]) != IsWordChar(s[e])
  {
    RunLenIsRun(s, i);
  }

  /** The maximal runs of s from position i on. */
  function RunsFrom(s: string, i: nat): seq<string>
    requires i <= |s|
    decreases |s| - i
  {
    if i == |s| then [] else var n := RunLen(s, i); [s[i..i + n]] + RunsFrom(s, i + n)
  }

  /** The first run of s from i on, and the runs after it. */
  lemma RunsFromHead(s: string, i: nat, n: nat)
    requires i < |s| && n == RunLen(s, i)
    ensures RunsFrom(s, i) == [s[i..i + n]] + RunsFrom(s, i + n)
  {
  }

  /** s cut into its maximal runs of word characters and of non-word characters. */
  function Runs(s: string): seq<string>
  {
    RunsFrom(s, 0)
  }

  /** All characters of a non-empty piece are word characters, or none is. */
  predicate Uniform(piece: string)
  {
    |piece| > 0 && forall k :: 0 <= k < |piece| ==> IsWordChar(piece[k]) == IsWordChar(piece[0])
  }

  /** Pieces that are uniform and alternate between word and non-word characters. */
  predicate IsRunDecomposition(pieces: seq<string>)
  {
    (forall j :: 0 <= j < |pieces| ==> Uniform(pieces[j]))
    && forall j :: 0 < j < |pieces| ==> IsWordChar(pieces[j - 1][0]) != IsWordChar(pieces[j][0])
  }

  /** The runs of s from i on form a run decomposition that spells s[i..]. */
  lemma {:induction false} RunsFromSpell(s: string, i: nat)
    requires i <= |s|
    ensures Concat(RunsFrom(s, i)) == s[i..]
    ensures IsRunDecomposition(RunsFrom(s, i))
    ensures i < |s| ==> RunsFrom(s, i)[0][0] == s[i]
    decreases |s| - i
  {
    if i < |s| {
      var n := RunLen(s, i);
      var run := s[i..i + n];
      var rest := RunsFrom(s, i + n);
      RunLenIsRun(s, i);
      RunsFromSpell(s, i + n);
      assert Uniform(run) by {
        assert forall k :: 0 <= k < n ==> run[k] == s[i + k];
      }
      assert RunsFrom(s, i) == [run] + rest;
      assert ([run] + rest)[1..] == rest;
      assert s[i..] == run + s[i + n..];
      assert i + n < |s| ==> rest[0][0] == s[i + n] && IsWordChar(s[i + n]) != IsWordChar(run[0]);
    }
  }

  /** The runs of s form a run decomposition and together they spell s. */
  lemma RunsSpellS(s: string)
    ensures Concat(Runs(s)) == s
    ensures IsRunDecomposition(Runs(s))
  {
    RunsFromSpell(s, 0);
    assert s[0..] == s;
  }

  /** A uniform stretch of s that ends where the kind of character changes is a whole run. */
  lemma {:induction false} RunLenOfStretch(s: string, i: nat, m: nat)
    requires 1 <= m && i + m <= |s|
    requires forall k :: i <= k < i + m ==> IsWordChar(s[k]) == IsWordChar(s[i])
    requires i + m == |s| || IsWordChar(s[i + m]) != IsWordChar(s[i])
    ensures RunLen(s, i) == m
    decreases m
  {
    if m > 1 {
      RunLenOfStretch(s, i + 1, m - 1);
    }
  }

  /** Where s from i on spells a run decomposition, its first piece is a uniform stretch of s that ends where the kind changes. */
  lemma FirstPiece(s: string, i: nat, pieces: seq<string>)
    requires i <= |s| && s[i..] == Concat(pieces) && IsRunDecomposition(pieces) && pieces != []
    ensures i + |pieces[0]| <= |s|
    ensures s[i..i + |pieces[0]|] == pieces[0] && s[i + |pieces[0]|..] == Concat(pieces[1..])
    ensures forall k :: i <= k < i + |pieces[0]| ==> IsWordChar(s[k]) == IsWordChar(s[i])
    ensures i + |pieces[0]| == |s| || IsWordChar(s[i + |pieces[0]|]) != IsWordChar(s[i])
    ensures IsRunDecomposition(pieces[1..])
  {
    var p := pieces[0];
    var m := |p|;
    var rest := Concat(pieces[1..]);
    assert s[i..] == p + rest;
    assert s[i..i + m] == s[i..][..m] && s[i + m..] == s[i..][m..];
    assert forall k :: i <= k < i + m ==> s[k] == p[k - i];
    if |pieces| > 1 {
      assert rest == pieces[1] + Concat(pieces[2..]);
      assert s[i + m] == rest[0] == pieces[1][0];
    }
  }

  /** Where s from i on spells a run decomposition, its first piece is the first run of s from i on. */
  lemma FirstPieceIsRun(s: string, i: nat, pieces: seq<string>, m: nat)
    requires i <= |s| && s[i..] == Concat(pieces) && IsRunDecomposition(pieces) && pieces != [] && m == |pieces[0]|
    ensures i + m <= |s| && s[i + m..] == Concat(pieces[1..]) && IsRunDecomposition(pieces[1..])
    ensures RunsFrom(s, i) == [pieces[0]] + RunsFrom(s, i + m)
  {
    FirstPiece(s, i, pieces);
    RunLenOfStretch(s, i, m);
    RunsFromHead(s, i, m);
  }

  /** A head piece followed by the rest of the pieces is the whole sequence of pieces. */
  lemma HeadAndRest(runs: seq<string>, pieces: seq<string>, rest: seq<string>)
    requires pieces != [] && rest == pieces[1..] && runs == [pieces[0]] + rest
    ensures runs == pieces
  {
  }

  /** Where s from i on spells a run decomposition, the runs of s from i on are its pieces. */
  lemma {:induction false} RunsFromDecomposition(s: string, i: nat, pieces: seq<string>)
    requires i <= |s| && s[i..] == Concat(pieces) && IsRunDecomposition(pieces)
    ensures RunsFrom(s, i) == pieces
    decreases |pieces|
  {
    if pieces == [] {
      assert Concat(pieces) == [];
      assert i == |s| by { assert |s[i..]| == 0; }
      assert RunsFrom(s, i) == [];
    } else {
      var m := |pieces[0]|;
      FirstPieceIsRun(s, i, pieces, m);
      RunsFromDecomposition(s, i + m, pieces[1..]);
      HeadAndRest(RunsFrom(s, i), pieces, RunsFrom(s, i + m));
    }
  }

  /** Cutting the concatenation of a run decomposition into runs gives the pieces back. */
  lemma RunsOfConcat(pieces: seq<string>)
    requires IsRunDecomposition(pieces)
    ensures Runs(Concat(pieces)) == pieces
  {
    var s := Concat(pieces);
    assert s[0..] == s;
    RunsFromDecomposition(s, 0, pieces);
  }

  /** What the substitution makes of one run: r if the run is w, the run itself otherwise. */
  function Substitute(run: string, w: string, r: string): string
  {
    if run == w then r else run
  }

  /** Reference semantics: every run equal to w becomes r; all other runs are kept. */
  function SubstituteRuns(runs: seq<string>, w: string, r: string): seq<string>
  {
    if runs == [] then [] else [Substitute(runs[0], w, r)] + SubstituteRuns(runs[1..], w, r)
  }

  /** Each run is substituted on its own, in place. */
  lemma {:induction false} SubstituteRunsAt(runs: seq<string>, w: string, r: string)
    ensures |SubstituteRuns(runs, w, r)| == |runs|
    ensures forall k :: 0 <= k < |runs| ==> SubstituteRuns(runs, w, r)[k] == Substitute(runs[k], w, r)
  {
    if runs != [] {
      SubstituteRunsAt(runs[1..], w, r);
    }
  }

  /** At the start of a run, a word key either spans that whole run or does not match anywhere in it. */
  lemma RunMatches(s: string, w: string, i: nat, n: nat)
    requires IsWord(w)
    requires i < |s| && n == RunLen(s, i)
    requires i == 0 || IsWordChar(s[i - 1]) != IsWordChar(s[i])
    ensures MatchAt(s, w, i) <==> s[i..i + n] == w
    ensures forall k :: i < k < i + n ==> !MatchAt(s, w, k)
  {
    RunLenIsRun(s, i);
    assert IsWordChar(w[0]) by { assert w[0] in w; }
    if IsWordChar(s[i]) {
      if s[i..i + n] == w {
        assert MatchAt(s, w, i);
      }
      if |w| < n && i + |w| <= |s| {
        assert !Boundary(s, i + |w|);
      } else if |w| > n && i + |w| <= |s| {
        assert w[n] in w;
        assert s[i..i + |w|][n] != w[n];
      }
    } else {
      assert i + |w| <= |s| ==> s[i..i + |w|][0] != w[0];
      assert s[i..i + n][0] != w[0];
    }
    forall k | i < k < i + n ensures !MatchAt(s, w, k) {
      if IsWordChar(s[k]) {
        assert !Boundary(s, k);
      } else {
        assert k + |w| <= |s| ==> s[k..k + |w|][0] != w[0];
      }
    }
  }

  /** A run that is the key is replaced by the scan. */
  lemma ReplaceKeyRun(s: string, w: string, r: string, i: nat, n: nat)
    requires IsWord(w)
    requires i < |s| && n == RunLen(s, i)
    requires i == 0 || IsWordChar(s[i - 1]) != IsWordChar(s[i])
    requires s[i..i + n] == w
    ensures ReplaceFrom(s, w, r, i) == r + ReplaceFrom(s, w, r, i + n)
  {
    assert |w| == n;
    assert MatchAt(s, w, i) by { RunMatches(s, w, i, n); }
    ReplaceFromMatch(s, w, r, i, i + n);
  }

  /** A run that is not the key is copied by the scan. */
  lemma CopyRun(s: string, w: string, r: string, i: nat, n: nat)
    requires IsWord(w)
    requires i < |s| && n == RunLen(s, i)
    requires i == 0 || IsWordChar(s[i - 1]) != IsWordChar(s[i])
    requires s[i..i + n] != w
    ensures ReplaceFrom(s, w, r, i) == s[i..i + n] + ReplaceFrom(s, w, r, i + n)
  {
    assert forall k :: i <= k < i + n ==> !MatchAt(s, w, k) by { RunMatches(s, w, i, n); }
    SkipNoMatch(s, w, r, i, i + n);
  }

  /** The scan handles a whole run in one step: a run equal to w becomes r, any other run is copied. */
  lemma ReplaceRun(s: string, w: string, r: string, i: nat, n: nat)
    requires IsWord(w)
    requires i < |s| && n == RunLen(s, i)
    requires i == 0 || IsWordChar(s[i - 1]) != IsWordChar(s[i])
    ensures ReplaceFrom(s, w, r, i) == Substitute(s[i..i + n], w, r) + ReplaceFrom(s, w, r, i + n)
  {
    if s[i..i + n] == w {
      ReplaceKeyRun(s, w, r, i, n);
    } else {
      CopyRun(s, w, r, i, n);
    }
  }

  /** Substituting runs piece by piece. */
  lemma SubstituteFirstRun(run: string, rest: seq<string>, w: string, r: string)
    ensures Concat(SubstituteRuns([run] + rest, w, r))
         == Substitute(run, w, r) + Concat(SubstituteRuns(rest, w, r))
  {
    assert ([run] + rest)[1..] == rest;
  }

  /** The run-by-run substitution from i on emits the first run, substituted, and then the rest. */
  lemma SubstituteRunStep(s: string, w: string, r: string, i: nat, n: nat)
    requires i < |s| && n == RunLen(s, i)
    ensures Concat(SubstituteRuns(RunsFrom(s, i), w, r))
         == Substitute(s[i..i + n], w, r) + Concat(SubstituteRuns(RunsFrom(s, i + n), w, r))
  {
    RunsFromHead(s, i, n);
    SubstituteFirstRun(s[i..i + n], RunsFrom(s, i + n), w, r);
  }

  /** At the start of a run, the scan and the run-by-run substitution emit the same text for that run. */
  lemma RunStep(s: string, w: string, r: string, i: nat, n: nat)
    requires IsWord(w) && i < |s| && n == RunLen(s, i)
    requires i == 0 || IsWordChar(s[i - 1]) != IsWordChar(s[i])
    ensures i + n == |s| || IsWordChar(s[i + n - 1]) != IsWordChar(s[i + n])
    ensures ReplaceFrom(s, w, r, i) == Substitute(s[i..i + n], w, r) + ReplaceFrom(s, w, r, i + n)
    ensures Concat(SubstituteRuns(RunsFrom(s, i), w, r))
         == Substitute(s[i..i + n], w, r) + Concat(SubstituteRuns(RunsFrom(s, i + n), w, r))
  {
    RunEndsAtBoundary(s, i);
    ReplaceRun(s, w, r, i, n);
    SubstituteRunStep(s, w, r, i, n);
  }

  /** From the start of any run, the scan performs the run-by-run substitution. */
  lemma {:induction false} ReplaceFromRunStart(s: string, w: string, r: string, i: nat)
    requires IsWord(w) && i <= |s|
    requires i == 0 || i == |s| || IsWordChar(s[i - 1]) != IsWordChar(s[i])
    ensures ReplaceFrom(s, w, r, i) == Concat(SubstituteRuns(RunsFrom(s, i), w, r))
    decreases |s| - i
  {
    if i < |s| {
      var n := RunLen(s, i);
      RunStep(s, w, r, i, n);
      ReplaceFromRunStart(s, w, r, i + n);
    }
  }

  /**
   * For a word key, the substitution replaces exactly the maximal word runs of s that
   * equal the key and copies everything else: whole words only, every one of them,
   * and nothing inside a longer word.
   */
  lemma ReplaceWordByRuns(s: string, w: string, r: string)
    requires IsWord(w)
    ensures ReplaceWord(s, w, r) == Concat(SubstituteRuns(Runs(s), w, r))
  {
    ReplaceFromRunStart(s, w, r, 0);
  }

  /** Before a non-word character, matching does not depend on the text after it. */
  lemma MatchBeforeSeparator(s: string, w: string, i: nat, j: nat)
    requires IsWord(w) && i < j < |s| && !IsWordChar(s[j])
    ensures MatchAt(s, w, i) == MatchAt(s[..j], w, i)
  {
    var t := s[..j];
    if i + |w| <= j {
      assert t[i..i + |w|] == s[i..i + |w|];
      assert i + |w| < j ==> t[i + |w|] == s[i + |w|];
      assert i > 0 ==> t[i - 1] == s[i - 1];
      assert t[i] == s[i] && t[i + |w| - 1] == s[i + |w| - 1];
    } else if i + |w| <= |s| {
      assert s[i..i + |w|][j - i] == s[j];
      assert w[j - i] in w;
    }
  }

  /** Before a non-word character, one step of the scan is the same on the text up to there. */
  lemma ScanStepBeforeSeparator(s: string, w: string, r: string, i: nat, j: nat)
    requires IsWord(w) && i < j < |s| && !IsWordChar(s[j])
    ensures Emitted(s, w, r, i) == Emitted(s[..j], w, r, i)
    ensures Resume(s, w, i) == Resume(s[..j], w, i) <= j
  {
    MatchBeforeSeparator(s, w, i, j);
    assert s[..j][i] == s[i];
  }

  /** One step of the scan on s and on s cut before position j emits the same text. */
  lemma ScanPrefixStep(s: string, w: string, r: string, i: nat, j: nat, k: nat)
    requires IsWord(w) && i < j < |s| && !IsWordChar(s[j]) && k == Resume(s, w, i)
    ensures k <= j
    ensures ReplaceFrom(s, w, r, i) == Emitted(s, w, r, i) + ReplaceFrom(s, w, r, k)
    ensures ReplaceFrom(s[..j], w, r, i) == Emitted(s, w, r, i) + ReplaceFrom(s[..j], w, r, k)
  {
    ScanStepBeforeSeparator(s, w, r, i, j);
    ReplaceFromStep(s, w, r, i);
    ReplaceFromStep(s[..j], w, r, i);
  }

  /** Cutting s just before position j changes no match that ends by j, when s[j] is not a word character. */
  lemma {:induction false} ScanPrefix(s: string, w: string, r: string, i: nat, j: nat)
    requires IsWord(w) && i <= j < |s| && !IsWordChar(s[j])
    ensures ReplaceFrom(s, w, r, i) == ReplaceFrom(s[..j], w, r, i) + ReplaceFrom(s, w, r, j)
    decreases j - i
  {
    if i == j {
      assert ReplaceFrom(s[..j], w, r, i) == [];
    } else {
      var k := Resume(s, w, i);
      ScanPrefixStep(s, w, r, i, j, k);
      ScanPrefix(s, w, r, k, j);
      AppendAssoc(Emitted(s, w, r, i), ReplaceFrom(s[..j], w, r, k), ReplaceFrom(s, w, r, j));
    }
  }

  /** After a non-word character, matching does not depend on the text before it. */
  lemma MatchAfterSeparator(s: string, w: string, i: nat, j: nat)
    requires 0 < j <= i <= |s| && !IsWordChar(s[j - 1])
    ensures MatchAt(s, w, i) == MatchAt(s[j..], w, i - j)
  {
    var t := s[j..];
    var m := i - j;
    assert Boundary(s, i) == Boundary(t, m) by {
      assert i < |s| ==> t[m] == s[i];
      assert i > j ==> t[m - 1] == s[i - 1];
    }
    if i + |w| <= |s| {
      assert t[m..m + |w|] == s[i..i + |w|];
      assert Boundary(s, i + |w|) == Boundary(t, m + |w|) by {
        assert i + |w| < |s| ==> t[m + |w|] == s[i + |w|];
        assert i + |w| > j ==> t[m + |w| - 1] == s[i + |w| - 1];
      }
    }
  }

  /** After a non-word character, one step of the scan is the same on the text from there on. */
  lemma ScanStepAfterSeparator(s: string, w: string, r: string, i: nat, j: nat)
    requires |w| > 0 && 0 < j <= i < |s| && !IsWordChar(s[j - 1])
    ensures Emitted(s, w, r, i) == Emitted(s[j..], w, r, i - j)
    ensures Resume(s, w, i) - j == Resume(s[j..], w, i - j)
  {
    MatchAfterSeparator(s, w, i, j);
    assert s[j..][i - j] == s[i];
  }

  /** One step of the scan on s and on s from position j on emits the same text. */
  lemma ScanSuffixStep(s: string, w: string, r: string, i: nat, j: nat, k: nat)
    requires |w| > 0 && 0 < j <= i < |s| && !IsWordChar(s[j - 1]) && k == Resume(s, w, i)
    ensures i < k <= |s|
    ensures ReplaceFrom(s, w, r, i) == Emitted(s, w, r, i) + ReplaceFrom(s, w, r, k)
    ensures ReplaceFrom(s[j..], w, r, i - j) == Emitted(s, w, r, i) + ReplaceFrom(s[j..], w, r, k - j)
  {
    ScanStepAfterSeparator(s, w, r, i, j);
    ReplaceFromStep(s, w, r, i);
    ReplaceFromStep(s[j..], w, r, i - j);
  }

  /** After a non-word character the scan goes on as if the text started there. */
  lemma {:induction false} ScanSuffix(s: string, w: string, r: string, i: nat, j: nat)
    requires |w| > 0 && 0 < j <= i <= |s| && !IsWordChar(s[j - 1])
    ensures ReplaceFrom(s, w, r, i) == ReplaceFrom(s[j..], w, r, i - j)
    decreases |s| - i
  {
    if i < |s| {
      var k := Resume(s, w, i);
      ScanSuffixStep(s, w, r, i, j, k);
      ScanSuffix(s, w, r, k, j);
    } else {
      assert ReplaceFrom(s[j..], w, r, i - j) == [];
    }
  }

  /**
   * A non-word character separates the substitution into independent halves:
   * no match spans it, and the text after it is treated like the start of a string.
   */
  lemma ReplaceWordAtSeparator(a: string, c: char, b: string, w: string, r: string)
    requires IsWord(w) && !IsWordChar(c)
    ensures ReplaceWord(a + [c] + b, w, r) == ReplaceWord(a, w, r) + [c] + ReplaceWord(b, w, r)
  {
    var s := a + [c] + b;
    var j := |a|;
    assert s[..j] == a && s[j] == c && s[j + 1..] == b;
    ScanPrefix(s, w, r, 0, j);
    assert !MatchAt(s, w, j) by {
      assert w[0] in w;
      if j + |w| <= |s| {
        assert s[j..j + |w|][0] == c;
      }
    }
    ScanSuffix(s, w, r, j + 1, j + 1);
  }

  /** A cell that is a single word changes only if it is the key. */
  lemma ReplaceSingleWord(u: string, w: string, r: string)
    requires IsWord(u) && IsWord(w)
    ensures ReplaceWord(u, w, r) == if u == w then r else u
  {
    assert Uniform(u) by {
      forall k | 0 <= k < |u| ensures IsWordChar(u[k]) == IsWordChar(u[0]) {
        assert u[k] in u && u[0] in u;
      }
    }
    RunsOfConcat([u]);
    assert Concat([u]) == u;
    ReplaceWordByRuns(u, w, r);
    assert SubstituteRuns([u], w, r) == [if u == w then r else u];
  }

  /** The words of a list, each one equal to w replaced by r. */
  function SubstituteWords(words: seq<string>, w: string, r: string): seq<string>
  {
    seq(|words|, k requires 0 <= k < |words| => if words[k] == w then r else words[k])
  }

  /** On words separated by single spaces, exactly the words equal to the key are replaced. */
  lemma {:induction false} ReplaceInSentence(words: seq<string>, w: string, r: string)
    requires IsWord(w)
    requires forall k :: 0 <= k < |words| ==> IsWord(words[k])
    ensures ReplaceWord(Tokens.Join(words), w, r) == Tokens.Join(SubstituteWords(words, w, r))
  {
    var out := SubstituteWords(words, w, r);
    if words == [] {
    } else if |words| == 1 {
      ReplaceSingleWord(words[0], w, r);
    } else {
      ReplaceWordAtSeparator(words[0], ' ', Tokens.Join(words[1..]), w, r);
      ReplaceSingleWord(words[0], w, r);
      ReplaceInSentence(words[1..], w, r);
      assert out[1..] == SubstituteWords(words[1..], w, r);
    }
  }

  /** A word is a single uniform piece. */
  lemma WordIsUniform(u: string)
    requires IsWord(u)
    ensures Uniform(u)
  {
    forall k | 0 <= k < |u| ensures IsWordChar(u[k]) == IsWordChar(u[0]) {
      assert u[k] in u && u[0] in u;
    }
  }

  /** Swapping a word run for another word keeps the pieces a run decomposition. */
  lemma SubstituteKeepsDecomposition(runs: seq<string>, w: string, r: string)
    requires IsRunDecomposition(runs) && IsWord(w) && IsWord(r)
    ensures IsRunDecomposition(SubstituteRuns(runs, w, r))
  {
    var out := SubstituteRuns(runs, w, r);
    SubstituteRunsAt(runs, w, r);
    WordIsUniform(r);
    assert IsWordChar(w[0]) && IsWordChar(r[0]) by { assert w[0] in w && r[0] in r; }
    assert forall j :: 0 <= j < |runs| ==> IsWordChar(out[j][0]) == IsWordChar(runs[j][0]);
  }

  /**
   * Replacing a word by another word that does not already stand alone in s can be undone:
   * substituting back restores s.
   */
  lemma ReplaceWordUndo(s: string, w: string, r: string)
    requires IsWord(w) && IsWord(r)
    requires r !in Runs(s)
    ensures ReplaceWord(ReplaceWord(s, w, r), r, w) == s
  {
    var runs := Runs(s);
    var once := SubstituteRuns(runs, w, r);
    RunsSpellS(s);
    ReplaceWordByRuns(s, w, r);
    SubstituteKeepsDecomposition(runs, w, r);
    RunsOfConcat(once);
    ReplaceWordByRuns(Concat(once), r, w);
    SubstituteRunsAt(runs, w, r);
    SubstituteRunsAt(once, r, w);
    assert SubstituteRuns(once, r, w) == runs;
  }

  /** With the key `nov`, the cell `novel` is left alone: the key is only part of a word there. */
  lemma NovelIsNotAbbreviation()
    ensures ReplaceWord("novel", "nov", "November") == "novel"
  {
    assert IsWord("novel") && IsWord("nov");
    ReplaceSingleWord("novel", "nov", "November");
  }

  /** Six words joined by single spaces. */
  lemma JoinSix(a: string, b: string, c: string, d: string, e: string, f: string)
    ensures Tokens.Join([a, b, c, d, e, f]) == a + (" " + (b + (" " + (c + (" " + (d + (" " + (e + (" " + f)))))))))
  {
    var xs := [a, b, c, d, e, f];
    assert xs[5..] == [f];
    assert Tokens.Join(xs[4..]) == e + (" " + f) by { assert xs[4..][1..] == xs[5..]; }
    assert Tokens.Join(xs[3..]) == d + (" " + Tokens.Join(xs[4..])) by { assert xs[3..][1..] == xs[4..]; }
    assert Tokens.Join(xs[2..]) == c + (" " + Tokens.Join(xs[3..])) by { assert xs[2..][1..] == xs[3..]; }
    assert Tokens.Join(xs[1..]) == b + (" " + Tokens.Join(xs[2..])) by { assert xs[1..][1..] == xs[2..]; }
  }

  /** The example sentence as a single string. */
  lemma SentenceJoin()
    ensures Tokens.Join(["teh", "cat", "sat", "on", "teh", "mat"]) == "teh cat sat on teh mat"
  {
    JoinSix("teh", "cat", "sat", "on", "teh", "mat");
  }

  /** The corrected sentence as a single string. */
  lemma CorrectedSentenceJoin()
    ensures Tokens.Join(["the", "cat", "sat", "on", "the", "mat"]) == "the cat sat on the mat"
  {
    JoinSix("the", "cat", "sat", "on", "the", "mat");
  }

  /** Both occurrences of `teh` in the cell are corrected, and nothing else changes. */
  lemma TehIsCorrectedEverywhere()
    ensures ReplaceWord("teh cat sat on teh mat", "teh", "the") == "the cat sat on the mat"
  {
    var words := ["teh", "cat", "sat", "on", "teh", "mat"];
    assert IsWord("teh") && IsWord("cat") && IsWord("sat") && IsWord("on") && IsWord("mat");
    ReplaceInSentence(words, "teh", "the");
    assert SubstituteWords(words, "teh", "the") == ["the", "cat", "sat", "on", "the", "mat"];
    SentenceJoin();
    CorrectedSentenceJoin();
  }

  /**
   * A key that ends in punctuation, as whitespace tokens often do, needs a word character
   * right after it: in `teh, cat` the key `teh,` is not replaced.
   */
  lemma PunctuatedKeyNeedsWordAfter()
    ensures ReplaceWord("teh, cat", "teh,", "the") == "teh, cat"
  {
    var cell := "teh, cat";
    forall i ensures !MatchAt(cell, "teh,", i) {
      if 0 < i && i + 4 <= |cell| {
        assert cell[i..i + 4][0] == cell[i];
      }
      if i == 0 {
        assert !Boundary(cell, 4);
      }
    }
    ReplaceWordNoMatch(cell, "teh,", "the");
  }
}
