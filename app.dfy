/**
 * The two functions of app.py that hold its logic.
 *
 * `correct_spelling` converts every text column to strings in place, tokenises each one
 * (its cells joined by a space, then split on whitespace), asks the spell checker which
 * tokens it does not know, and records the checker's candidates for each of them.
 *
 * `apply_corrections` rewrites, for every text column and every (wrong, right) entry of the
 * chosen corrections in order, each cell with `re.sub(r"\bwrong\b", right)`.
 *
 * The spell checker is not part of this model: its `unknown` and `candidates` queries are
 * parameters, and so is the way `astype(str)` renders a non-text value.
 */
module App {
  import opened Seqs
  import opened Tokens
  import opened Words
  import opened DataFrame

  // ------------------------------------------------------------------
  // correct_spelling
  // ------------------------------------------------------------------

  /** `astype(str)` on one cell: a string is kept, NaN reads "nan", any other value is rendered. */
  function CellText(c: Cell, render: int -> string): string
  {
    match c
    case Text(s) => s
    case Scalar(v) => render(v)
    case Missing => "nan"
  }

  /** The strings of a column after `astype(str)`. */
  function ColumnTexts(col: Column, render: int -> string): seq<string>
  {
    seq(|col.cells|, j requires 0 <= j < |col.cells| => CellText(col.cells[j], render))
  }

  /** A text column converted to strings in place, each cell holding its `astype(str)` text; other columns stay as they are. */
  function Stringify(col: Column, render: int -> string): Column
  {
    if col.isText then
      var texts := ColumnTexts(col, render);
      col.(cells := seq(|texts|, j requires 0 <= j < |texts| => Text(texts[j])))
    else col
  }

  /** The tokens of a column handed to the spell checker: `" ".join(texts).split()`. */
  function ColumnTokens(col: Column, render: int -> string): seq<string>
  {
    Split(Join(ColumnTexts(col, render)))
  }

  /** The words the checker flags in one column: nothing for a column that is not text. */
  function ColumnFlagged(col: Column, render: int -> string, unknown: seq<string> -> set<string>): set<string>
  {
    if col.isText then unknown(ColumnTokens(col, render)) else {}
  }

  /** The words flagged anywhere in the given columns. */
  function Flagged(columns: seq<Column>, render: int -> string, unknown: seq<string> -> set<string>): set<string>
  {
    if columns == [] then {}
    else Flagged(columns[..|columns| - 1], render, unknown) + ColumnFlagged(columns[|columns| - 1], render, unknown)
  }

  /** A flagged word is one that the checker flags in at least one text column, and conversely. */
  lemma {:induction false} FlaggedIsUnion(columns: seq<Column>, render: int -> string, unknown: seq<string> -> set<string>, w: string)
    ensures w in Flagged(columns, render, unknown)
        <==> exists i :: 0 <= i < |columns| && w in ColumnFlagged(columns[i], render, unknown)
  {
    if columns != [] {
      var n := |columns| - 1;
      var prefix := columns[..n];
      assert forall i :: 0 <= i < n ==> prefix[i] == columns[i];
      FlaggedIsUnion(prefix, render, unknown, w);
      if w in Flagged(prefix, render, unknown) {
        var i :| 0 <= i < n && w in ColumnFlagged(prefix[i], render, unknown);
        assert w in ColumnFlagged(columns[i], render, unknown);
      } else if w in ColumnFlagged(columns[n], render, unknown) {
      } else {
        forall i | 0 <= i < |columns| ensures w !in ColumnFlagged(columns[i], render, unknown) {
          if i < n {
            assert columns[i] == prefix[i];
          }
        }
      }
    }
  }

  /**
   * Nothing is flagged exactly when the checker knows every token of every text column:
   * the case app.py reports as "No spelling errors found!".
   */
  lemma NothingFlaggedIff(columns: seq<Column>, render: int -> string, unknown: seq<string> -> set<string>)
    ensures Flagged(columns, render, unknown) == {}
        <==> forall i :: 0 <= i < |columns| ==> ColumnFlagged(columns[i], render, unknown) == {}
  {
    if Flagged(columns, render, unknown) == {} {
      forall i | 0 <= i < |columns| ensures ColumnFlagged(columns[i], render, unknown) == {} {
        forall w | w in ColumnFlagged(columns[i], render, unknown) ensures false {
          FlaggedIsUnion(columns, render, unknown, w);
        }
      }
    } else {
      var w :| w in Flagged(columns, render, unknown);
      FlaggedIsUnion(columns, render, unknown, w);
    }
  }

  /** Converting a column to strings changes neither its tokens nor anything but its cells. */
  lemma StringifyKeepsTokens(col: Column, render: int -> string)
    ensures ColumnTokens(Stringify(col, render), render) == ColumnTokens(col, render)
    ensures Stringify(col, render).name == col.name && Stringify(col, render).isText == col.isText
    ensures |Stringify(col, render).cells| == |col.cells|
  {
    assert ColumnTexts(Stringify(col, render), render) == ColumnTexts(col, render);
  }

  /** After the conversion every cell of a text column is a string; other columns are untouched. */
  lemma StringifyYieldsStrings(col: Column, render: int -> string)
    ensures col.isText ==> forall j :: 0 <= j < |col.cells| ==> Stringify(col, render).cells[j] == Text(ColumnTexts(col, render)[j])
    ensures !col.isText ==> Stringify(col, render) == col
  {
  }

  /** Records the checker's candidates for every misspelled word, overwriting an earlier entry for the same word. */
  method RecordCandidates<C>(corrections: map<string, C>, misspelled: set<string>, candidates: string -> C)
    returns (updated: map<string, C>)
    ensures updated.Keys == corrections.Keys + misspelled
    ensures forall w :: w in updated ==> updated[w] == if w in misspelled then candidates(w) else corrections[w]
  {
    updated := corrections;
    var pending := misspelled;
    while pending != {}
      invariant pending <= misspelled
      invariant updated.Keys == corrections.Keys + (misspelled - pending)
      invariant forall w :: w in updated ==> updated[w] == if w in misspelled - pending then candidates(w) else corrections[w]
      decreases pending
    {
      var word :| word in pending;
      updated := updated[word := candidates(word)];
      pending := pending - {word};
    }
  }

  /**
   * `correct_spelling(data)`: converts every text column to strings in place and returns the
   * map from every flagged word to the checker's candidates for it.
   */
  method CorrectSpelling<C>(data: Table, render: int -> string, unknown: seq<string> -> set<string>, candidates: string -> C)
    returns (corrections: map<string, C>)
    requires data.Valid()
    modifies data
    ensures data.Valid()
    ensures |data.columns| == |old(data.columns)|
    ensures forall i :: 0 <= i < |data.columns| ==> data.columns[i] == Stringify(old(data.columns)[i], render)
    ensures corrections.Keys == Flagged(old(data.columns), render, unknown)
    ensures forall w :: w in corrections ==> corrections[w] == candidates(w)
  {
    ghost var original := data.columns;
    corrections := map[];
    var i := 0;
    while i < |data.columns|
      invariant 0 <= i <= |data.columns| == |original|
      invariant data.Valid()
      invariant forall j :: 0 <= j < i ==> data.columns[j] == Stringify(original[j], render)
      invariant forall j :: i <= j < |original| ==> data.columns[j] == original[j]
      invariant corrections.Keys == Flagged(original[..i], render, unknown)
      invariant forall w :: w in corrections ==> corrections[w] == candidates(w)
    {
      FlaggedStep(original, i, render, unknown);
      corrections := CheckColumn(data, i, render, unknown, candidates, corrections);
      i := i + 1;
    }
    assert original[..i] == original;
  }

  /** The body of `correct_spelling`'s loop for one column: convert it, then record what the checker flags in it. */
  method CheckColumn<C>(data: Table, i: nat, render: int -> string, unknown: seq<string> -> set<string>, candidates: string -> C,
                        corrections: map<string, C>)
    returns (updated: map<string, C>)
    requires data.Valid() && i < |data.columns|
    modifies data
    ensures data.Valid()
    ensures data.columns == old(data.columns)[i := Stringify(old(data.columns)[i], render)]
    ensures updated.Keys == corrections.Keys + ColumnFlagged(old(data.columns)[i], render, unknown)
    ensures forall w :: w in updated ==>
      updated[w] == if w in ColumnFlagged(old(data.columns)[i], render, unknown) then candidates(w) else corrections[w]
  {
    var col := data.columns[i];
    updated := corrections;
    if col.isText {
      StringifyKeepsTokens(col, render);
      data.SetColumn(i, Stringify(col, render));
      var tokens := Split(Join(ColumnTexts(data.columns[i], render)));
      var misspelled := unknown(tokens);
      updated := RecordCandidates(corrections, misspelled, candidates);
    } else {
      assert data.columns == data.columns[i := col];
    }
  }

  /** The flagged words of one more column join those of the columns before it. */
  lemma FlaggedStep(columns: seq<Column>, i: nat, render: int -> string, unknown: seq<string> -> set<string>)
    requires i < |columns|
    ensures Flagged(columns[..i + 1], render, unknown) == Flagged(columns[..i], render, unknown) + ColumnFlagged(columns[i], render, unknown)
  {
    assert columns[..i + 1][..i] == columns[..i];
  }

  // ------------------------------------------------------------------
  // apply_corrections
  // ------------------------------------------------------------------

  /** One (wrong_word, correct_word) item of the corrections dictionary. */
  datatype Entry = Entry(wrong: string, right: string)

  /**
   * An entry that `re.sub` reads literally: a non-empty key without regex metacharacters,
   * and a replacement without the backslash that would start a template escape.
   */
  predicate ValidEntry(e: Entry)
  {
    IsLiteralKey(e.wrong) && '\\' !in e.right
  }

  /** Every entry of the corrections, in dictionary order, is read literally. */
  predicate ValidMapping(entries: seq<Entry>)
  {
    forall k :: 0 <= k < |entries| ==> ValidEntry(entries[k])
  }

  /** The whole-word regex replacement of one entry on one cell of a text column: a string is rewritten, any other value becomes NaN. */
  function ReplaceInCell(c: Cell, e: Entry): Cell
    requires ValidEntry(e)
  {
    match c
    case Text(s) => Text(ReplaceWord(s, e.wrong, e.right))
    case _ => Missing
  }

  /** A cell after the entries have been applied one after the other, each to the previous result. */
  function ApplyEntries(c: Cell, entries: seq<Entry>): Cell
    requires ValidMapping(entries)
  {
    if entries == [] then c
    else ReplaceInCell(ApplyEntries(c, entries[..|entries| - 1]), entries[|entries| - 1])
  }

  /** A column after the corrections: text columns are rewritten cell by cell, others kept. */
  function CorrectColumn(col: Column, entries: seq<Entry>): Column
    requires ValidMapping(entries)
  {
    if col.isText then col.(cells := seq(|col.cells|, j requires 0 <= j < |col.cells| => ApplyEntries(col.cells[j], entries)))
    else col
  }

  /** The whole table after the corrections. */
  function CorrectTable(columns: seq<Column>, entries: seq<Entry>): seq<Column>
    requires ValidMapping(entries)
  {
    seq(|columns|, i requires 0 <= i < |columns| => CorrectColumn(columns[i], entries))
  }

  /**
   * `apply_corrections(data, corrections)`: for each text column and each entry in order,
   * reassigns the column with the entry's substitution; returns the same, mutated table.
   */
  method ApplyCorrections(data: Table, entries: seq<Entry>) returns (result: Table)
    requires data.Valid() && ValidMapping(entries)
    modifies data
    ensures result == data && data.Valid()
    ensures data.columns == CorrectTable(old(data.columns), entries)
  {
    ghost var original := data.columns;
    var i := 0;
    while i < |data.columns|
      invariant 0 <= i <= |data.columns| == |original|
      invariant forall j :: 0 <= j < i ==> data.columns[j] == CorrectColumn(original[j], entries)
      invariant forall j :: i <= j < |original| ==> data.columns[j] == original[j]
    {
      if data.columns[i].isText {
        CorrectTextColumn(data, i, entries);
      }
      i := i + 1;
    }
    result := data;
  }

  /** The inner loop of `apply_corrections` for one text column: each entry in order rewrites the column. */
  method CorrectTextColumn(data: Table, i: nat, entries: seq<Entry>)
    requires data.Valid() && i < |data.columns| && data.columns[i].isText && ValidMapping(entries)
    modifies data
    ensures data.Valid()
    ensures data.columns == old(data.columns)[i := CorrectColumn(old(data.columns)[i], entries)]
  {
    ghost var original := data.columns;
    var k := 0;
    assert entries[..0] == [];
    assert CorrectColumn(original[i], []).cells == original[i].cells;
    while k < |entries|
      invariant 0 <= k <= |entries|
      invariant data.Valid() && |data.columns| == |original|
      invariant data.columns == original[i := CorrectColumn(original[i], entries[..k])]
    {
      var e := entries[k];
      var col := data.columns[i];
      var cells := seq(|col.cells|, j requires 0 <= j < |col.cells| => ReplaceInCell(col.cells[j], e));
      CorrectColumnStep(original[i], entries, k);
      data.SetColumn(i, col.(cells := cells));
      k := k + 1;
    }
    assert entries[..k] == entries;
  }

  /** One more entry rewrites every cell of the column once more. */
  lemma CorrectColumnStep(col: Column, entries: seq<Entry>, k: nat)
    requires col.isText && ValidMapping(entries) && k < |entries|
    ensures var before := CorrectColumn(col, entries[..k]);
      CorrectColumn(col, entries[..k + 1]) ==
        before.(cells := seq(|before.cells|, j requires 0 <= j < |before.cells| => ReplaceInCell(before.cells[j], entries[k])))
  {
    assert entries[..k + 1][..k] == entries[..k];
  }

  /** Applying entries one after another: the first group's output is what the second group sees. */
  lemma {:induction false} ApplyEntriesAppend(c: Cell, first: seq<Entry>, second: seq<Entry>)
    requires ValidMapping(first) && ValidMapping(second)
    ensures ValidMapping(first + second)
    ensures ApplyEntries(c, first + second) == ApplyEntries(ApplyEntries(c, first), second)
    decreases |second|
  {
    var all := first + second;
    assert ValidMapping(all) by {
      forall k | 0 <= k < |all| ensures ValidEntry(all[k]) {
        if k >= |first| {
          assert all[k] == second[k - |first|];
        }
      }
    }
    if second == [] {
      assert all == first;
    } else {
      var n := |second| - 1;
      assert all[..|all| - 1] == first + second[..n];
      assert all[|all| - 1] == second[n];
      ApplyEntriesAppend(c, first, second[..n]);
    }
  }

  /** The first entry rewrites the cell, and the remaining entries work on its output. */
  lemma ApplyEntriesFirst(c: Cell, e: Entry, rest: seq<Entry>)
    requires ValidEntry(e) && ValidMapping(rest)
    ensures ValidMapping([e] + rest)
    ensures ApplyEntries(c, [e] + rest) == ApplyEntries(ReplaceInCell(c, e), rest)
  {
    assert [e][..0] == [];
    ApplyEntriesAppend(c, [e], rest);
  }

  /** A later entry does match text that an earlier entry introduced. */
  lemma LaterEntrySeesEarlierOutput()
    ensures ValidMapping([Entry("teh", "the"), Entry("the", "thee")])
    ensures ApplyEntries(Text("teh"), [Entry("teh", "the"), Entry("the", "thee")]) == Text("thee")
  {
    var e0, e1 := Entry("teh", "the"), Entry("the", "thee");
    assert IsWord("teh") && IsWord("the");
    ApplyTwoEntries(Text("teh"), e0, e1);
    ReplaceSingleWord("teh", "teh", "the");
    ReplaceSingleWord("the", "the", "thee");
  }

  /** Two entries: the second is applied to the output of the first. */
  lemma ApplyTwoEntries(c: Cell, e0: Entry, e1: Entry)
    requires ValidEntry(e0) && ValidEntry(e1)
    ensures ValidMapping([e0, e1])
    ensures ApplyEntries(c, [e0, e1]) == ReplaceInCell(ReplaceInCell(c, e0), e1)
  {
    assert [e0, e1][..1] == [e0] && [e0][..0] == [];
    assert ApplyEntries(c, [e0]) == ReplaceInCell(c, e0);
  }

  /** With an empty mapping the table comes back unchanged. */
  lemma EmptyMappingKeepsTable(columns: seq<Column>)
    ensures CorrectTable(columns, []) == columns
  {
    forall i | 0 <= i < |columns| ensures CorrectColumn(columns[i], []) == columns[i] {
      var col := columns[i];
      if col.isText {
        assert CorrectColumn(col, []).cells == col.cells;
      }
    }
  }

  /**
   * The corrections keep the table's shape: column names, kinds, order and row count.
   * Columns that are not text are returned as they were.
   */
  lemma CorrectTableKeepsShape(columns: seq<Column>, entries: seq<Entry>)
    requires ValidMapping(entries)
    ensures SameShape(CorrectTable(columns, entries), columns)
    ensures forall i :: 0 <= i < |columns| && !columns[i].isText ==> CorrectTable(columns, entries)[i] == columns[i]
  {
  }

  /** In a text column, a value that is not a string becomes NaN as soon as one entry is applied. */
  lemma {:induction false} NonTextCellBecomesMissing(c: Cell, entries: seq<Entry>)
    requires ValidMapping(entries) && entries != [] && !c.Text?
    ensures ApplyEntries(c, entries) == Missing
  {
    var n := |entries| - 1;
    if n > 0 {
      NonTextCellBecomesMissing(c, entries[..n]);
    }
  }

  /** A string stays a string whatever entries are applied to it. */
  lemma {:induction false} TextCellStaysText(c: Cell, entries: seq<Entry>)
    requires ValidMapping(entries) && c.Text?
    ensures ApplyEntries(c, entries).Text?
  {
    if entries != [] {
      TextCellStaysText(c, entries[..|entries| - 1]);
    }
  }

  /**
   * In app.py the corrections are applied to the table that `correct_spelling` has already
   * converted: no cell of a text column then becomes NaN.
   */
  lemma ConvertedTableKeepsStrings(columns: seq<Column>, render: int -> string, entries: seq<Entry>, i: nat, j: nat)
    requires ValidMapping(entries)
    requires i < |columns| && columns[i].isText && j < |columns[i].cells|
    ensures CorrectColumn(Stringify(columns[i], render), entries).cells[j].Text?
  {
    TextCellStaysText(Stringify(columns[i], render).cells[j], entries);
  }
}
