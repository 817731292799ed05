# Excel spelling correction: a Dafny model of its correction pipeline

The tool loads a spreadsheet into a pandas DataFrame. It then runs two functions of `app.py`:

- `correct_spelling` converts every text (`object`) column to strings in place. It tokenises each such column by joining its cells with a space and splitting on whitespace. It asks the spell checker which tokens it does not know, and maps each of those words to the checker's candidate corrections.
- `apply_corrections` takes the user's chosen correction for each word. For every text column and every (wrong, right) entry in dictionary order, it rewrites each cell with `re.sub(r"\bwrong\b", right)`, and returns the same table.

This project models both functions and proves what they promise.

Layout:

- `seqs.dfy` (module `Seqs`): `Concat` of a list of sequences.
- `tokens.dfy` (module `Tokens`): Python's `str.isspace`, argument-less `str.split()` and `" ".join`.
- `words.dfy` (module `Words`): the regex word boundary `\b` and the substitution `ReplaceWord`.
  - The scan is leftmost-first and resumes after each match.
  - The module also has an independent reference definition of the substitution. It cuts the text into maximal runs of word and non-word characters and swaps the runs equal to the key.
- `dataframe.dfy` (module `DataFrame`): cells, columns, and the `Table` class whose columns are reassigned in place.
- `app.dfy` (module `App`): the two methods `CorrectSpelling` and `ApplyCorrections`, their specification functions and the lemmas about them.

The spell checker is a black box. Its `unknown` and `candidates` queries are parameters of `CorrectSpelling`. The candidates' type is generic, because the library may also return `None`. How `astype(str)` renders a number or date is the parameter `render`; NaN renders as `"nan"`.

Two facts about `app.py` shape the model:

- The corrections are applied one entry after another, each to the output of the previous one (app.py:23-24). An entry can therefore match text that an earlier entry inserted.
- The word boundary `\b` is Python's: it is a change between a word character (letters, digits and `_`) and a non-word character.

`app.py` has no per-word decision beyond the chosen replacement itself: every entry it is given is applied.

## Model

| member | source | states |
|---|---|---|
| `Tokens.IsSpace` | app.py:14 | defines Python's `str.isspace`, the characters argument-less `split()` cuts on |
| `Tokens.Join` | app.py:14 | defines `" ".join`: the cells with one space between neighbours |
| `Tokens.Split` | app.py:14 | every token that `split()` returns is non-empty and contains no whitespace character |
| `Tokens.SplitWord` | app.py:14 | a non-empty text without whitespace is exactly one token, itself: tokens are maximal runs and a word is never cut |
| `Tokens.SplitKeepsNonSpace` | app.py:14 | the tokens, concatenated, are exactly the text with its whitespace removed, so splitting drops nothing but whitespace |
| `Tokens.SplitAroundSpace` | app.py:14 | splitting two texts joined by any one whitespace character gives the first text's tokens followed by the second's; with `SplitWord` this fixes the tokens of every text |
| `Tokens.SplitJoin` | app.py:14 | `" ".join(cells).split()` equals the concatenation of each cell's own tokens, cell after cell: no token spans two cells and none is empty |
| `App.CellText` | app.py:13 | defines `astype(str)` on one cell: a string is kept, NaN becomes `"nan"`, any other value is rendered |
| `App.Stringify` | app.py:12-13 | defines the conversion of a column: a text column's cells become the strings `CellText` gives, any other column is kept |
| `App.ColumnTokens` | app.py:14 | defines the tokens the checker sees for a column: its converted cells joined by a space, then split |
| `App.ColumnFlagged` | app.py:12-14 | defines the words the checker flags in one column: its unknown tokens for a text column, none otherwise |
| `App.Flagged` | app.py:12-16 | defines the flagged words of a list of columns: the union of the columns' flagged words |
| `App.StringifyKeepsTokens` | app.py:13-14 | converting a column with `astype(str)` leaves its tokens, name, kind and length unchanged, so scanning the converted column sees the original text |
| `App.StringifyYieldsStrings` | app.py:12-13 | after the conversion every cell of a text column is the string `astype(str)` gives for it, and a non-text column is untouched |
| `App.FlaggedIsUnion` | app.py:12-16 | a word is a key of the result iff the checker flags it among the tokens of at least one text column (both directions) |
| `App.NothingFlaggedIff` | app.py:12-18 | the result is empty iff the checker flags nothing in any text column, the case shown as "No spelling errors found!" (line 63) |
| `App.RecordCandidates` | app.py:15-16 | every flagged word becomes a key mapped to `candidates(word)`; earlier keys stay, with their old values unless flagged again |
| `App.CheckColumn` | app.py:12-16 | one pass of the column loop: a text column is converted in place and its flagged words are recorded; a non-text column changes nothing |
| `DataFrame.Table.SetColumn` | app.py:13 | `data[col] = values` for an existing label replaces that column only and keeps the table valid |
| `App.CorrectSpelling` | app.py:7-18 | converts every text column in place and leaves the rest untouched; the returned keys are exactly the flagged words of all text columns, each mapped to `candidates(word)` |
| `Words.IsWordChar` | app.py:24 | defines Python's `\w` up to U+00FF: ASCII letters, digits, `_` and the Latin-1 letters and numerals |
| `Words.Boundary` | app.py:24 | defines `\b` at a position: exactly one of its two neighbours is a word character |
| `Words.MatchAt` | app.py:24 | defines a match of `\bW\b` at a position: W is there and both of its ends are boundaries |
| `Words.ReplaceWord` | app.py:24 | defines `re.sub(r"\bW\b", R, s)` for a literal key: a left-to-right scan that replaces each match, resumes after it and copies every other character |
| `Words.ReplaceWordNoMatch` | app.py:24 | a cell where the key has no `\b`-bounded occurrence is returned unchanged |
| `Words.ReplaceWordByRuns` | app.py:24 | for a key made of word characters, `re.sub` replaces exactly the maximal word runs equal to the key and copies every other character. Every whole-word occurrence is replaced, none inside a longer word, and inserted text is not rescanned |
| `Words.RunsSpellS` | app.py:24 | the reference cut of a text into runs is a run decomposition whose concatenation is the text |
| `Words.RunsOfConcat` | app.py:24 | cutting the concatenation of a run decomposition gives the same runs back (the inverse of `RunsSpellS`) |
| `Words.ReplaceWordAtSeparator` | app.py:24 | a non-word character splits the substitution into two independent halves: no match spans it |
| `Words.ReplaceSingleWord` | app.py:24 | a cell that is one word becomes the replacement iff it equals the key |
| `Words.ReplaceInSentence` | app.py:24 | on words separated by single spaces, exactly the words equal to the key are replaced |
| `Words.ReplaceWordUndo` | app.py:24 | replacing a word by another word that does not already stand alone in the cell is undone by the reverse substitution |
| `Words.NovelIsNotAbbreviation` | app.py:24 | with `nov` mapped to `November`, the cell `novel` stays `novel` |
| `Words.TehIsCorrectedEverywhere` | app.py:24 | with `teh` mapped to `the`, `teh cat sat on teh mat` becomes `the cat sat on the mat` |
| `Words.PunctuatedKeyNeedsWordAfter` | app.py:24 | a key ending in punctuation, as a whitespace token can, is not replaced in `teh, cat`, because `\b` after the comma needs a word character |
| `App.ReplaceInCell` | app.py:24 | defines `Series.str.replace` with one entry on one cell: a string becomes `ReplaceWord` of it, any other value becomes NaN |
| `App.ApplyEntries` | app.py:23-24 | defines the inner loop's effect on one cell: the entries applied in order, each to the previous result |
| `App.CorrectColumn` | app.py:22-24 | defines a corrected column: every cell of a text column goes through `ApplyEntries`, any other column is kept |
| `App.CorrectTable` | app.py:22-24 | defines the corrected table: `CorrectColumn` on every column, in order |
| `App.ApplyEntriesAppend` | app.py:23-24 | applying two groups of entries in turn equals applying the second group to the output of the first |
| `App.ApplyEntriesFirst` | app.py:23-24 | the first entry rewrites the cell and the remaining entries work on its output |
| `App.LaterEntrySeesEarlierOutput` | app.py:23-24 | entries `teh`→`the` then `the`→`thee` turn `teh` into `thee`: a later entry matches text that an earlier one inserted |
| `App.EmptyMappingKeepsTable` | app.py:21-25 | with no entries every column, and so every cell, is returned unchanged |
| `App.CorrectTableKeepsShape` | app.py:22-25 | the corrections keep column names, kinds, order and row counts, and return non-text columns as they were |
| `App.NonTextCellBecomesMissing` | app.py:24 | in a text column, a value that is not a string becomes NaN once any entry is applied (`Series.str.replace`) |
| `App.TextCellStaysText` | app.py:24 | a string cell stays a string under any entries |
| `App.ConvertedTableKeepsStrings` | app.py:13-24 | once `correct_spelling` has converted a text column, applying the corrections leaves every cell of it a string |
| `App.CorrectTextColumn` | app.py:23-24 | the inner loop over the entries rewrites one text column with every entry in order and leaves the other columns alone |
| `App.ApplyCorrections` | app.py:21-25 | reassigns, in place, every text column to its cells with every entry applied in order, keeps the table valid, and returns the same table |

## Left out

- The Streamlit interface (app.py:28-63) is left out: upload, display, the per-word `selectbox` (line 42), the button, and the download. Each word's choice from the select box reaches the model as the `entries` argument of `ApplyCorrections`.
- Reading and writing the Excel workbook (app.py:32, app.py:51-54) is foreign I/O.
- The spell checker's internals (app.py:8, 14, 16) are parameters:
  - its lower-casing of tokens;
  - its word-frequency dictionary;
  - how it generates candidates.
- How `astype(str)` renders numbers and dates is the parameter `render`. The model has no floating point.
- Python's `\w` counts letters and digits above U+00FF as word characters. The model's `IsWordChar` covers code points up to U+00FF exactly and treats everything above as non-word.
- `ApplyCorrections` requires every entry to be read literally by `re.sub` (`ValidEntry`). The key must be non-empty and free of regex metacharacters, and the replacement must be free of backslashes. app.py interpolates the key unescaped, so other keys would change the pattern itself, and such keys are not modelled.
- On a text column that pandas infers as purely numeric, boolean or date, the `.str` accessor raises an error. The model returns NaN cells for such a column instead.
- Duplicate column labels are excluded by `Table.Valid`. With them, `data[col]` would select several columns at once.
- The dictionary's insertion order of the returned corrections is not modelled: the result is a Dafny `map`. The order in which the user's corrections are applied is modelled, as the sequence `entries`.
