# CNIS text parser — a Dafny model

This project models `parse_cnis` from `parsers/parser_cnis.py`. It reads the plain text of a
Brazilian social-security statement (CNIS, *Cadastro Nacional de Informações Sociais*) for the
employed-insured case and turns it into an identification and a list of employment records
(*vínculos*):

- The CPF and NIT identifiers come from the first labelled match in the whole text.
- The text is cut into lines, and blank lines are skipped. Each line is split into columns on
  runs of two or more whitespace characters, tabs or pipes.
- A *trigger* line is one with a column holding the whole word "Empregado" in any case. It
  closes the open record and opens a new one. The new record's start and end dates are the
  first and second `dd/mm/aaaa` dates among its columns. Its indicators are the short
  upper-case columns.
- Every other non-blank line read while a record is open joins that record's *block*. It is
  also probed for one `MM/AAAA amount` remuneration entry, with the amount read in Brazilian
  format (`1.234,56`).
- When a record is closed, at the next trigger or at the end of the text, its last month/year
  (`ultima_remuneracao`) is the last `MM/AAAA` found in its block.

The Dafny modules follow the structure of the Python file:

| module | file | what it holds |
|---|---|---|
| `Common` | common.dfy | Option, `Nth`, `Last`, `Concat`, and `Positions` (the increasing list of indices where a flag holds) |
| `Chars` | chars.dfy | Python's `str.isspace`, `\d`, `\w` and `\b`, `isupper`, `IGNORECASE` letter matching, `rstrip`/`strip` and `split("\n")` |
| `Amount` | amount.dfy | `_to_float_ptbr`: the `.`/`,` rewrite and Python's `float` on the result, as an exact decimal |
| `Columns` | columns.dfy | `SEP_COLS.split` and `_split_cols` |
| `Patterns` | patterns.dfy | the six regular expressions, each as the position where a match ends and what it captures, following Python's backtracking, plus `search` (leftmost match) and `findall` |
| `Extract` | extract.dfy | the four column and block helpers, as methods with loops, each proved against a specification function |
| `ParserCnis` | parser.dfy | the records as a function of the lines (`Parse`), the line loop as a method (`ParseCnis`) proved equal to it, and the properties of the result |

`Parse` is the declarative reading. It finds the trigger lines. Record `m` belongs to the
`m`-th trigger line, and its block is the non-blank lines strictly between that line and the
next trigger line, or the end of the text. `ParseCnis` follows the source step by step: the
open record, the block buffer and the closed records are loop variables of its line loop
`ScanLines`. The loop invariant is `LoopState`, and `ensures resultado == Parse(texto)` ties
`ParseCnis` to `Parse`.

## Model

| member | source | states |
|---|---|---|
| `Chars.RStrip` | parsers/parser_cnis.py:112 | `linha.rstrip()`: a prefix of the line; what it drops is all whitespace; it does not end in whitespace |
| `Chars.StripEmptyIff` | parsers/parser_cnis.py:113-114 | `s.strip()` is empty exactly when every character of `s` is whitespace |
| `Chars.SplitOn` | parsers/parser_cnis.py:106 | `texto.split("\n")`: at least one piece, no piece holds a newline, and joining the pieces with newlines gives back the text |
| `Columns.SepEnd` | parsers/parser_cnis.py:30 | where the separator match at a position ends: a run of two or more whitespace characters is taken whole, up to the first other character or the end of the line; otherwise the match is the single tab or pipe; either way it covers nothing visible |
| `Columns.Pieces` | parsers/parser_cnis.py:30 | `SEP_COLS.split`: at least one piece, and no piece holds a separator (tab, pipe, two whitespace characters in a row) |
| `Columns.PiecesAt` | parsers/parser_cnis.py:30 | where `SEP_COLS.split` cuts: the first piece starts the line and the last ends it, no separator match starts inside a piece, and each piece ends exactly where a match starts, the next one starting where that match ends |
| `Columns.PiecesVisible` | parsers/parser_cnis.py:30 | the split pieces, joined, keep every non-whitespace, non-pipe character of the line, in order |
| `Columns.StripAllColumns` | parsers/parser_cnis.py:44 | stripping the pieces and dropping the empty ones leaves only columns: non-empty, separator-free, no whitespace at either end |
| `Columns.StripAllVisible` | parsers/parser_cnis.py:44 | stripping and dropping empty pieces loses no visible character |
| `Columns.SplitCols` | parsers/parser_cnis.py:42-45 | `_split_cols`: every column is non-empty, stripped and separator-free, and the columns keep every visible character of the line in left-to-right order |
| `Columns.StripAllAt` | parsers/parser_cnis.py:44 | stripping pieces chained by separator matches keeps each column where it lies in the line: non-empty spans, in order, a separator match between any two, every visible character inside one |
| `Columns.SplitColsAt` | parsers/parser_cnis.py:42-45 | the columns of `_split_cols` are the line's text at non-empty spans, in order and apart, with a separator match starting between any two in a row and every visible character of the line inside one of them |
| `Amount.RemoveCount` | parsers/parser_cnis.py:38 | `replace(".", "")` removes every point and keeps every other character as often as before |
| `Amount.SwapCount` | parsers/parser_cnis.py:38 | `replace(",", ".")` turns every comma into a point and keeps every other character |
| `Amount.NormalizeCount` | parsers/parser_cnis.py:38 | after the rewrite, a character occurs as often as in the amount, except that points count the amount's commas and no comma is left |
| `Amount.NormalizeChars` | parsers/parser_cnis.py:38 | the rewritten text holds no `,`, as many points as the original had commas, and every other character as often as the original |
| `Amount.DotIgnored` | parsers/parser_cnis.py:38 | a thousands point anywhere has no effect on the rewritten text |
| `Amount.DigitsKept` | parsers/parser_cnis.py:38 | the rewritten text holds a digit exactly when the amount does |
| `Amount.UnsignedIff` | parsers/parser_cnis.py:37-40 | on digits and points, `float` succeeds exactly when there is at most one point and at least one digit |
| `Amount.ValueIffWellFormed` | parsers/parser_cnis.py:36-40 | an unsigned amount gets a value exactly when it has at most one comma and at least one digit; otherwise the value is None |
| `Amount.NegativeKept` | parsers/parser_cnis.py:24 | a leading minus sign gets a value exactly when the unsigned amount does, and that value is negated |
| `Amount.CommaDecimal` | parsers/parser_cnis.py:36-40 | `1.234,56` reads as the number with integer digits taken from before the comma (points dropped) and fraction digits from after it |
| `Amount.WholeAmount` | parsers/parser_cnis.py:36-40 | an amount without a comma reads as the whole number its digits spell |
| `Patterns.LastBoundary` | parsers/parser_cnis.py:24 | where the greedy `[\d\.\,]+` comes to rest before `\b`: the rightmost word boundary in range, or None if there is none |
| `Patterns.RemunerationAt` | parsers/parser_cnis.py:24 | a match of `RE_REMUN` starts with `MM/AAAA`, group 1 is that text, and group 2 is `-?[\d.,]+` |
| `Patterns.RemunerationMatches` | parsers/parser_cnis.py:24 | `RE_REMUN` matches at a position exactly when the text there reads as `\b`, `MM/AAAA`, whitespace, `-?[\d.,]+` and `\b`; group 2 is the amount from the end of the whitespace to the end of the match |
| `Patterns.RemunerationComplete` | parsers/parser_cnis.py:24 | every reading of `RE_REMUN` at a position is found, and the match's amount ends no earlier than that reading's |
| `Patterns.LabelAt` | parsers/parser_cnis.py:16-17 | a match of `RE_CPF`/`RE_NIT` starts with the label in any case, and its group is a non-empty run of digits, points and dashes |
| `Patterns.LabelSound` | parsers/parser_cnis.py:16-17 | a match of `RE_CPF`/`RE_NIT` is a reading of the pattern: the label between word boundaries, whitespace with at most one `:` or `-`, then the group, which runs to the end of its run of `[\d.\-]` |
| `Patterns.LabelMatches` | parsers/parser_cnis.py:16-17 | `RE_CPF`/`RE_NIT` matches at a position exactly when the pattern can be read there |
| `Patterns.LabelComplete` | parsers/parser_cnis.py:16-17 | every reading of the label pattern at a position is found; the group the matcher reports starts no earlier than that reading's, and ends no earlier when it starts at the same place |
| `Patterns.GroupStartLast` | parsers/parser_cnis.py:16-17 | of all the places where the group could start after the label, the matcher's choice is the rightmost |
| `Patterns.Search` | parsers/parser_cnis.py:50 | `search`: the result matches, nothing before it matches, and None means no position matches |
| `Patterns.NoOverlap` | parsers/parser_cnis.py:20-21 | two date (or month/year) matches never overlap |
| `Patterns.MatchPositions` | parsers/parser_cnis.py:57 | `findall`'s start positions: every one a match, left to right, non-overlapping |
| `Patterns.MatchPositionsComplete` | parsers/parser_cnis.py:65 | `findall` misses no match of a date or month/year |
| `Extract.Occurrences` | parsers/parser_cnis.py:55-57 | the (string, position) pairs of the matches across a list of strings, each a match, in document order |
| `Extract.OccurrencesComplete` | parsers/parser_cnis.py:63-65 | every match in any string of the list is among the occurrences |
| `Extract.TextsAt` | parsers/parser_cnis.py:56-57 | the list built with `extend(findall(...))` has one text per occurrence, and each is the text at that occurrence |
| `Extract.TextsPick` | parsers/parser_cnis.py:62-66 | concatenating each line's `findall` result, taken line by line, gives the same list as the `extend` loop over those lines |
| `Extract.FirstOccurrence` | parsers/parser_cnis.py:58 | the first occurrence comes before every other match |
| `Extract.LastOccurrence` | parsers/parser_cnis.py:66 | every match comes before the last occurrence, or is it |
| `Extract.NothingBetween` | parsers/parser_cnis.py:59 | no match lies strictly between two consecutive occurrences |
| `Extract.FindEmpregadoCol` | parsers/parser_cnis.py:47-52 | true exactly when some column holds the whole word "Empregado", ignoring case |
| `Extract.ExtractDatasFromCols` | parsers/parser_cnis.py:54-60 | the start and end dates are the first and second entries of the dates found across the columns in order, None when missing |
| `Extract.DataInicioIsFirst` | parsers/parser_cnis.py:58 | a start date exists exactly when some column holds a date; it is the first date in document order |
| `Extract.DataFimIsSecond` | parsers/parser_cnis.py:59 | an end date exists exactly when there are two dates; it is the second, with nothing in between the two |
| `Extract.ExtractUltimaRemunFromBlock` | parsers/parser_cnis.py:62-66 | the result is the last month/year found across the block lines, in order |
| `Extract.UltimaIsLast` | parsers/parser_cnis.py:66 | a result exists exactly when the block holds a month/year; it is the text of the last one, and every other one comes before it |
| `Extract.IndicatorPositions` | parsers/parser_cnis.py:71-73 | the indices of the columns that are at most 6 long and upper case: all of them, in increasing order |
| `Extract.IndicadoresAt` | parsers/parser_cnis.py:68-74 | the indicators are exactly those columns, in column order, duplicates kept, each at most 6 long and upper case |
| `Extract.ExtractIndicadores` | parsers/parser_cnis.py:68-74 | the method's list equals the order-preserving filter of the columns |
| `ParserCnis.FirstGroup` | parsers/parser_cnis.py:95-101 | an identifier is present exactly when the labelled pattern matches somewhere; its value comes from the leftmost match |
| `ParserCnis.StripNoSpace` | parsers/parser_cnis.py:97 | `strip` leaves a string without whitespace unchanged |
| `ParserCnis.IdentifierIsCapture` | parsers/parser_cnis.py:95-101 | a CPF/NIT value is the captured group itself: a non-empty run of digits, points and dashes |
| `ParserCnis.BlankIff` | parsers/parser_cnis.py:112-114 | a line is skipped exactly when it is all whitespace |
| `ParserCnis.RemunOfLeftmost` | parsers/parser_cnis.py:143-150 | a block line gives an entry exactly when the remuneration pattern matches in it; the entry is the leftmost match's `MM/AAAA` and the value of its amount |
| `ParserCnis.BlockLinesAt` | parsers/parser_cnis.py:109-142 | the block buffer of an open record is its non-blank lines after the trigger, right-stripped, one for one, in order |
| `ParserCnis.EntriesAt` | parsers/parser_cnis.py:141-150 | the entries of an open record are one per non-blank line after the trigger that has a match, in order |
| `ParserCnis.UltimaOfBlock` | parsers/parser_cnis.py:121-124 | the last month/year the model keeps for a block, from the month/years of each of its lines, is the last one `findall` reports across the block |
| `ParserCnis.Records` | parsers/parser_cnis.py:119-124 | one record per trigger |
| `ParserCnis.RecordsAt` | parsers/parser_cnis.py:119-124 | record `m` is the one opened at trigger `m` and closed at the next trigger or at the end |
| `ParserCnis.LineFlags` | parsers/parser_cnis.py:112-146 | what the loop derives from each line (skipped, trigger, stripped text, entry, record it would open), stated on the line itself |
| `ParserCnis.TriggerLines` | parsers/parser_cnis.py:116-119 | the trigger lines: each a trigger, in increasing order, none missed |
| `ParserCnis.BlockEnd` | parsers/parser_cnis.py:118-138 | a record's block ends at the next trigger line or at the end of the text, with no trigger in between |
| `ParserCnis.NonBlankLines` | parsers/parser_cnis.py:113-114 | the non-blank lines of a stretch of the text: each non-blank and in range, increasing, none missed |
| `ParserCnis.EntryLines` | parsers/parser_cnis.py:141-146 | the non-blank lines of a stretch that hold a remuneration match: increasing, none missed |
| `ParserCnis.EntriesOfLines` | parsers/parser_cnis.py:141-150 | the entries of a block are read off its lines with a match, one each, in line order |
| `ParserCnis.BlockOfLines` | parsers/parser_cnis.py:137-142 | the block buffer is the right-stripped non-blank lines of the block, in line order |
| `ParserCnis.Vinculos` | parsers/parser_cnis.py:111-155 | there are as many records as trigger lines, and none exactly when no line is a trigger |
| `ParserCnis.RecordOf` | parsers/parser_cnis.py:119-155 | record `m` is the record of the `m`-th trigger line, closed where its block ends |
| `ParserCnis.RecordHeader` | parsers/parser_cnis.py:126-136 | every record has type "EMPREGADO" and no registration number; its dates are the first and second dates of its trigger line's columns, and its indicators are that line's short upper-case columns |
| `ParserCnis.RecordRemuneracoes` | parsers/parser_cnis.py:141-150 | a record's entries come one each from the distinct lines of its own block that have a match, in order; lines before the first trigger count for nothing |
| `ParserCnis.Block` | parsers/parser_cnis.py:112-142 | the block of record `m`: as many lines as the non-blank lines after its trigger, up to the next trigger or the end, each of them right-stripped |
| `ParserCnis.RecordUltima` | parsers/parser_cnis.py:121-124 | a record's last month/year is the last one in its own block: the right-stripped non-blank lines after its trigger line, up to the next trigger or the end |
| `ParserCnis.TriggerIdxNext` | parsers/parser_cnis.py:118-119 | reading one more line adds it to the triggers exactly when it is one |
| `ParserCnis.StepBlank` | parsers/parser_cnis.py:113-114 | a skipped line leaves the loop state as it was |
| `ParserCnis.ClosedRecord` | parsers/parser_cnis.py:121-124 | a record is open exactly when a trigger has been read, and closing it with its buffer's last month/year gives the record of that trigger closed at the current line |
| `ParserCnis.StepTrigger` | parsers/parser_cnis.py:119-138 | a trigger closes the open record, if any, at this line and opens the new record with an empty block |
| `ParserCnis.StepBlock` | parsers/parser_cnis.py:141-150 | any other line read with a record open joins the block and adds its entry, if it has one |
| `ParserCnis.StepIgnored` | parsers/parser_cnis.py:141 | before the first trigger, any other line is ignored |
| `ParserCnis.Finish` | parsers/parser_cnis.py:152-155 | at the end of the text, closing the open record gives exactly the records of `Parse` |
| `ParserCnis.SkippedLine` | parsers/parser_cnis.py:113-114 | a line the loop skips is blank and no trigger |
| `ParserCnis.TriggerLine` | parsers/parser_cnis.py:116-136 | a line the loop takes for a trigger is one, and the record it opens is built from its columns |
| `ParserCnis.OtherLine` | parsers/parser_cnis.py:141-146 | any other line is non-blank and no trigger, with the entry that `RE_REMUN.search` gives |
| `ParserCnis.OpenIsEmpregado` | parsers/parser_cnis.py:141 | every open record has type "EMPREGADO", so the test on line 141 holds whenever a record is open |
| `ParserCnis.CloseRecord` | parsers/parser_cnis.py:121-124 | closing appends the open record, if any, with its last month/year taken from the block |
| `ParserCnis.ReadTrigger` | parsers/parser_cnis.py:118-138 | reading a trigger line keeps `LoopState`: the previous record is closed and the new one is open with an empty block |
| `ParserCnis.ReadOther` | parsers/parser_cnis.py:140-150 | reading any other non-blank line keeps `LoopState`: it joins the open record's block and adds its entry, or is ignored before the first trigger |
| `ParserCnis.ReadLine` | parsers/parser_cnis.py:111-150 | one pass of the line loop keeps `LoopState`, so the closed records, the open record and the block are the ones `Parse` assigns to the lines read so far |
| `ParserCnis.ScanLines` | parsers/parser_cnis.py:106-155 | the line loop and the final close return exactly `Vinculos(linhas)`: one record per trigger line, in order, each built from its own block |
| `ParserCnis.ParseCnis` | parsers/parser_cnis.py:80-157 | `parse_cnis` returns exactly `Parse(texto)`: the identification and one record per trigger line, built from its own block |

## Left out

- `main.py` (the FastAPI application and its input model) is not part of this model. It only passes the request text to `parse_cnis` and wraps the result.
- `Amount.ToFloatPtBr` gives the exact decimal value of the amount, not the nearest binary64 `float`. Rounding and the printed form of floats are not modelled.
- `Amount.ToFloatPtBr` requires the remuneration pattern's amount text (`-?[\d.,]+`). That is the only text the parser ever passes to `_to_float_ptbr`, so other inputs are not modelled.
- `Chars.IsDigit` is the ASCII digits only. Python's `\d` on `str` also matches other Unicode decimal digits (Arabic-Indic, full-width and others).
- `Chars.IsWordChar`, `Chars.IsUpperChar` and `Chars.IsLowerChar` cover ASCII and Latin-1 only. Characters above U+00FF count as neither word characters nor cased letters, where Python's `\b`, `\w` and `str.isupper()` use the full Unicode tables.
- `Chars.FoldsTo` covers the letters of "cpf", "nit" and "empregado" only. Among them, only `i` has extra case-insensitive matches (U+0130 and U+0131).
- `vinculo_atual` is a dictionary that the source mutates in place: it appends to its `remuneracoes` list and assigns `ultima_remuneracao` at close. The model holds it as a `Vinculo` value that is rebuilt on each change. No other reference to that dictionary exists during the loop, so no aliasing is lost.
- The result dictionaries are datatypes. A missing `cpf` or `nit` key is `None`, and key order is not modelled.
- The parser does not extract employer code, employer name, sequence number, registration number (`matricula` is always None), or the insured person's name. It does not de-duplicate indicators, guard against header rows, filter phantom records, or compute missing contribution months. The model has none of these either, because the code has none of them.

