/**
 * Tokenisation used by the spelling scan of app.py: `" ".join(cells)` followed by
 * Python's argument-less `str.split()`, which cuts on runs of whitespace and never
 * yields an empty token.
 */
module Tokens {
  import opened Seqs

  /** Python's `str.isspace`: the ASCII separators plus the Unicode space characters. */
  predicate IsSpace(c: char)
  {
    ('\t' <= c <= '\r') || ('\U{1C}' <= c <= ' ') || c == '\U{85}' || c == '\U{A0}'
    || c == '\U{1680}' || ('\U{2000}' <= c <= '\U{200A}') || c == '\U{2028}' || c == '\U{2029}'
    || c == '\U{202F}' || c == '\U{205F}' || c == '\U{3000}'
  }

  /** Length of the run of non-whitespace characters that starts s. */
  function TokenLen(s: string): (n: nat)
    ensures n <= |s|
    ensures forall k :: 0 <= k < n ==> !IsSpace(s[k])
    ensures n < |s| ==> IsSpace(s[n])
  {
    if s == [] || IsSpace(s[0]) then 0 else 1 + TokenLen(s[1..])
  }

  /** Python's argument-less split: the maximal runs of non-whitespace characters of s, left to right. */
  function Split(s: string): (tokens: seq<string>)
    ensures forall t :: t in tokens ==> |t| > 0 && forall c :: c in t ==> !IsSpace(c)
    decreases |s|
  {
    if s == [] then []
    else if IsSpace(s[0]) then Split(s[1..])
    else
      var n := TokenLen(s);
      [s[..n]] + Split(s[n..])
  }

  /** The cells glued into one string with a single space between neighbours. */
  function Join(cells: seq<string>): string
  {
    if cells == [] then []
    else if |cells| == 1 then cells[0]
    else cells[0] + " " + Join(cells[1..])
  }

  /** s with every whitespace character removed: what the tokens carry between them. */
  function NonSpace(s: string): string
  {
    if s == [] then [] else (if IsSpace(s[0]) then [] else [s[0]]) + NonSpace(s[1..])
  }

  /** A leading stretch without whitespace survives NonSpace whole. */
  lemma {:induction false} NonSpacePrefix(s: string, n: nat)
    requires n <= |s|
    requires forall k :: 0 <= k < n ==> !IsSpace(s[k])
    ensures NonSpace(s) == s[..n] + NonSpace(s[n..])
  {
    if n > 0 {
      NonSpacePrefix(s[1..], n - 1);
      assert s[1..][..n - 1] == s[1..n];
      assert s[1..][n - 1..] == s[n..];
      assert s[..n] == [s[0]] + s[1..n];
    }
  }

  /** Splitting loses exactly the whitespace: the tokens, glued together, are s without it. */
  lemma {:induction false} SplitKeepsNonSpace(s: string)
    ensures Concat(Split(s)) == NonSpace(s)
    decreases |s|
  {
    if s == [] {
    } else if IsSpace(s[0]) {
      SplitKeepsNonSpace(s[1..]);
    } else {
      var n := TokenLen(s);
      SplitKeepsNonSpace(s[n..]);
      NonSpacePrefix(s, n);
      var tokens := [s[..n]] + Split(s[n..]);
      assert tokens[0] == s[..n] && tokens[1..] == Split(s[n..]);
    }
  }

  /** A whitespace character ends the token that the text before it leaves open. */
  lemma {:induction false} TokenLenBeforeSpace(a: string, c: char, b: string)
    requires IsSpace(c)
    ensures TokenLen(a + [c] + b) == TokenLen(a)
    decreases |a|
  {
    if a != [] && !IsSpace(a[0]) {
      assert (a + [c] + b)[1..] == a[1..] + [c] + b;
      TokenLenBeforeSpace(a[1..], c, b);
    }
  }

  /** Splitting two texts joined by one whitespace character gives the tokens of each, in order. */
  lemma {:induction false} SplitAroundSpace(a: string, c: char, b: string)
    requires IsSpace(c)
    ensures Split(a + [c] + b) == Split(a) + Split(b)
    decreases |a|
  {
    var s := a + [c] + b;
    if a == [] {
      assert s[1..] == b;
    } else if IsSpace(a[0]) {
      assert s[1..] == a[1..] + [c] + b;
      SplitAroundSpace(a[1..], c, b);
    } else {
      var n := TokenLen(a);
      TokenLenBeforeSpace(a, c, b);
      assert s[..n] == a[..n];
      assert s[n..] == a[n..] + [c] + b;
      SplitAroundSpace(a[n..], c, b);
      SplitFirstToken(s, n);
      SplitFirstToken(a, n);
      AppendAssoc([a[..n]], Split(a[n..]), Split(b));
    }
  }

  /** A text that starts with a token splits into that token and the tokens after it. */
  lemma SplitFirstToken(s: string, n: nat)
    requires s != [] && !IsSpace(s[0]) && n == TokenLen(s)
    ensures Split(s) == [s[..n]] + Split(s[n..])
  {
  }

  /** A whitespace-free stretch is all of its own run of non-whitespace characters. */
  lemma {:induction false} TokenLenOfWord(s: string)
    requires forall k :: 0 <= k < |s| ==> !IsSpace(s[k])
    ensures TokenLen(s) == |s|
    decreases |s|
  {
    if s != [] {
      assert forall k :: 0 <= k < |s| - 1 ==> s[1..][k] == s[k + 1];
      TokenLenOfWord(s[1..]);
    }
  }

  /** A non-empty text without whitespace is one token: split keeps each run of non-whitespace whole. */
  lemma SplitWord(s: string)
    requires |s| > 0 && forall k :: 0 <= k < |s| ==> !IsSpace(s[k])
    ensures Split(s) == [s]
  {
    TokenLenOfWord(s);
    assert s[..|s|] == s && s[|s|..] == [];
  }

  /** The tokens of the space-joined cells of a column. */
  function CellTokens(cells: seq<string>): seq<seq<string>>
  {
    if cells == [] then [] else [Split(cells[0])] + CellTokens(cells[1..])
  }

  /**
   * Joining cells with one space and splitting on whitespace yields the cells' own tokens,
   * cell after cell: no token spans two cells and none is empty.
   */
  lemma {:induction false} SplitJoin(cells: seq<string>)
    ensures Split(Join(cells)) == Concat(CellTokens(cells))
  {
    if |cells| == 1 {
      assert CellTokens(cells) == [Split(cells[0])] + [];
      assert ([Split(cells[0])] + [])[1..] == [];
    } else if |cells| > 1 {
      var per := CellTokens(cells);
      assert per == [Split(cells[0])] + CellTokens(cells[1..]);
      assert per[1..] == CellTokens(cells[1..]);
      SplitAroundSpace(cells[0], ' ', Join(cells[1..]));
      SplitJoin(cells[1..]);
    }
  }
}
