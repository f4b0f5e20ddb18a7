# fin-extract and the session hooks, modelled in Dafny

This project models the pure logic of two parts of the claude-config repository.

**The fin-extract pipeline.** It turns quarterly PDF reports of a real-estate trust into a spreadsheet. The stages are:

- a scan builds a page map;
- a batch step picks the financial pages;
- a table extractor cleans the raw grids of those pages;
- a text extractor reports the numbers on a page;
- a workbook builder reads each statement, normalises its labels and values, and aligns them across quarters.

**Four session hooks:**

- the Ralph-loop stop hook, which keeps re-issuing a prompt until an iteration limit or a completion promise;
- the todo enforcer, which refuses to stop while todos are open, up to a safety valve;
- the comment checker, which warns when a written file is mostly comments;
- the keyword detector, which switches on a working mode from the prompt.

## Representation

The PDF reader, the file system, subprocesses, JSON and CSV parsing are not part of this model. What they produce becomes an input: page texts, table counts, raw grids, transcripts and state files.

| Python value | Dafny value |
|---|---|
| cell | `Option<string>` |
| table | `seq<seq<Option<string>>>` |
| regular expression | a concrete recogniser or a small pattern type |
| `Decimal` and float amounts | `real` (exact rationals) |
| ratio tests such as `a / n > 0.7` | integer cross-multiplication |

One module per component, in the repository's order:

| modules | component |
|---|---|
| `Common`, `Strings`, `Cells` | shared helpers |
| `PageRange`, `NumberFormat`, `Artifacts`, `TableRows` | the table extractor |
| `Periods`, `Values`, `Labels`, `Statements`, `Align` | the workbook builder |
| `Batch` | batch orchestration |
| `Scan` | the page scan |
| `TextNumbers` | the text extractor |
| `StopHook`, `TodoEnforcer`, `CheckComments`, `KeywordDetector` | the four hooks |

## Behaviour the model makes explicit

- **Number splitting.** `extract_numbers` reports the plain year "2025" as two numbers, "202" and "5".
  - The pattern's integer part takes at most three digits.
  - The rest of the pattern is optional.
  - `TextNumbers.YearIsSplit` proves this split.
- **A newline inside a cell can survive normalisation.** `normalize_number_string` strips only the ends of the cell and removes only spaces inside it. For `"12\n,"` only the comma goes, and the shape test's `$` matches before the final newline that is left.
  - So `"12\n"` is returned, and `Decimal` reads it as 12.
  - `NumberFormat.FinalNewlineKept` and `TableRows.NewlineRowPasses` prove this.
- **The expense-sign keyword test does nothing.** In `_normalize_expense_signs`, the test `any(kw in lower ...) or in_expense_zone` always holds inside the zone.
  - So every positive amount in the zone is negated, whatever its label.
  - `Statements.SameLabelsSameZone` states the consequence: the sign decision depends on the zone alone.
- **A stop hook that is already continuing is never released by the todo enforcer.** It sees `stop_hook_active` set and resets its own counter first.
  - So the safety valve never fires for such stops.
  - `TodoEnforcer.ContinuationNeverReleased` proves this.
  - For plain stops, `TodoEnforcer.SafetyValve` proves that every tenth consecutive stop is let through.
  - See "## Findings" for the reading that keeps the valve working.
- **One unparseable transcript line silences the todo enforcer.** Only JSON decode errors are skipped line by line.
  - A line with string content, or a JSON value that is not an object, ends the loop in the outer handler, which resets the count and allows exit.
  - `TodoEnforcer.UnwalkableLineAllows` proves this; see "## Findings".
- **Three code paths are dead.**
  - normalize_number_string's dash branch returns "0" for a bare dash. Text without a digit was already rejected, and no later step removes a digit, so the branch never runs. `NumberFormat.NormalizeKeepsDigits` proves that a "0" result only comes from the digits "0".
  - normalize_label's third spelling replacement maps "non operating" to itself; `Labels.ReplaceSelf` proves it is the identity.
  - The comment checker's `.R` entry is never used, because the extension is lower-cased before the lookup.
- **Code over comments.**
  - normalize_label's comment mentions removing "A: " and "L: " prefixes. The code only strips the characters `$•·- ` from the left, and the model follows the code.
  - `classify_table`'s docstring speaks of a confidence value. The code returns a hit count, and the model follows the code.

## Model

| member | source | states |
|---|---|---|
| PageRange.PyInt | shared/skills/fin-extract/scripts/extract_tables.py:106-110 | `int()` of a piece only succeeds on text that holds a digit |
| PageRange.ParseItems | shared/skills/fin-extract/scripts/extract_tables.py:105-110 | one item per comma-separated piece, in order; the whole spec fails when any piece fails to parse |
| PageRange.Range | shared/skills/fin-extract/scripts/extract_tables.py:108 | `range(a, b + 1)` holds exactly the integers from a to b inclusive |
| PageRange.Expand | shared/skills/fin-extract/scripts/extract_tables.py:105-110 | the collected pages are exactly those some item covers: a single page or a point of an inclusive range |
| PageRange.InsertUnique | shared/skills/fin-extract/scripts/extract_tables.py:112 | inserting into a strictly increasing list keeps it strictly increasing and adds exactly the new page |
| PageRange.SortedUnique | shared/skills/fin-extract/scripts/extract_tables.py:112 | `sorted(set(pages))` is strictly increasing and has the same members as its input |
| PageRange.Parse | shared/skills/fin-extract/scripts/extract_tables.py:102-112 | fails exactly when some piece is malformed; otherwise strictly increasing and holding exactly the covered pages |
| PageRange.ParseMembership | shared/skills/fin-extract/scripts/extract_tables.py:102-112 | a page is in the parsed list iff some piece of the spec names it, as a single page or inside its range |
| PageRange.ItemsMembership | shared/skills/fin-extract/scripts/extract_text.py:22-32 | the text extractor's copy of the parser covers a page iff some piece of the spec names it |
| NumberFormat.DigitsDropCurrencyPrefix | shared/skills/fin-extract/scripts/extract_tables.py:156 | removing a currency prefix (Ps., MXN, USD, US$, $) removes no digit |
| NumberFormat.ToDecimal | shared/skills/fin-extract/scripts/extract_tables.py:189-196 | a decimal value exists exactly for present text that has the normalised number shape, a final newline included |
| NumberFormat.NormalizeNumber | shared/skills/fin-extract/scripts/extract_tables.py:141-186 | every result has the shape `-?digits(.digits)?`, optionally followed by one final newline that the `$` of the shape test lets through |
| NumberFormat.NormalizeNeedsDigit | shared/skills/fin-extract/scripts/extract_tables.py:149-154 | absent input and input without a digit give no number |
| NumberFormat.NormalizeKeepsDigits | shared/skills/fin-extract/scripts/extract_tables.py:156-186 | the result's digits are the input's digits, in order, so no precision is lost; "0" only comes from input whose digits are exactly "0" |
| NumberFormat.NormalizeDigits | shared/skills/fin-extract/scripts/extract_tables.py:174-184 | a plain digit string is its own normal form in both formats |
| NumberFormat.ParenthesesNegate | shared/skills/fin-extract/scripts/extract_tables.py:158-162 | `(d)` normalises to `-d` |
| NumberFormat.LeadingMinusNegates | shared/skills/fin-extract/scripts/extract_tables.py:164-167 | a leading hyphen, Unicode minus or en dash becomes a `-` sign |
| NumberFormat.EnglishDropsCommas | shared/skills/fin-extract/scripts/extract_tables.py:174-178 | in English format `a,b.c` becomes `ab.c` |
| NumberFormat.SpanishSwapsSeparators | shared/skills/fin-extract/scripts/extract_tables.py:174-178 | in Spanish format `a.b,c` becomes `ab.c` |
| NumberFormat.FinalNewlineKept | shared/skills/fin-extract/scripts/extract_tables.py:152-186 | `d\n,` in English and `d\n.` in Spanish lose only the grouping mark and come back as `d\n` |
| NumberFormat.NewlineDecimal | shared/skills/fin-extract/scripts/extract_tables.py:180-194 | `d\n` passes the shape test and `Decimal` reads it as the value of `d` |
| NumberFormat.DetectNumberFormat | shared/skills/fin-extract/scripts/extract_tables.py:115-138 | Spanish iff strictly more cells vote Spanish than English; ties and empty input give English |
| NumberFormat.VotesAreExclusive | shared/skills/fin-extract/scripts/extract_tables.py:129-136 | a cell votes at most once, and only present cells vote |
| NumberFormat.EnglishEvidence | shared/skills/fin-extract/scripts/extract_tables.py:126-132 | a cell like `1,234.5` votes English |
| NumberFormat.SpanishEvidence | shared/skills/fin-extract/scripts/extract_tables.py:126-132 | a cell like `1.234,5` votes Spanish |
| Artifacts.RgbArtifactCharset | shared/skills/fin-extract/scripts/extract_tables.py:199-213 | a filled cell judged an RGB artifact consists only of digits, commas and spaces |
| Artifacts.ChannelIsArtifact | shared/skills/fin-extract/scripts/extract_tables.py:199-213 | a single digit string with value at most 255 is an artifact |
| Artifacts.DetectArtifactColumns | shared/skills/fin-extract/scripts/extract_tables.py:216-241 | 0 for an empty table; otherwise the length of the leading run of artifact columns (empty, or more than 70% artifacts), stopping at the first failing column and never past the widest row |
| Artifacts.FinancialCharset | shared/skills/fin-extract/scripts/extract_tables.py:97-99 | a financial cell holds a digit and only sign, currency, digit, separator, space, parenthesis and percent characters |
| Artifacts.DigitsAreFinancial | shared/skills/fin-extract/scripts/extract_tables.py:244-251 | every digit string is a financial cell |
| Artifacts.DetectContinuationColumns | shared/skills/fin-extract/scripts/extract_tables.py:254-281 | a column is chosen iff it is not column 0, lies within the table, has text, has no financial cell and is more than half empty |
| Artifacts.NumbersAreNeverMerged | shared/skills/fin-extract/scripts/extract_tables.py:266-270 | a column with any financial cell is never a continuation column |
| Artifacts.BusyColumnsAreNeverMerged | shared/skills/fin-extract/scripts/extract_tables.py:272-278 | a column at least half filled is never a continuation column |
| Artifacts.Combine | shared/skills/fin-extract/scripts/extract_tables.py:299-309 | an empty fragment leaves the cell alone; a fragment into an empty cell replaces it |
| Artifacts.GluesSplitWord | shared/skills/fin-extract/scripts/extract_tables.py:303-306 | a fragment starting lower-case after text ending in a letter is glued on without a space |
| Artifacts.SpacesOtherFragments | shared/skills/fin-extract/scripts/extract_tables.py:307-308 | any other fragment is appended after one space |
| Artifacts.Target | shared/skills/fin-extract/scripts/extract_tables.py:295-297 | the merge target is the nearest column to the left that is not itself merged (or column 0) |
| Artifacts.MergeFromAbsorbs | shared/skills/fin-extract/scripts/extract_tables.py:290-309 | after the left-to-right pass, every kept cell has absorbed, in order, the merged cells that follow it |
| Artifacts.MergeAbsorbsRun | shared/skills/fin-extract/scripts/extract_tables.py:290-309 | a kept cell ends up as itself combined with the whole run of merged columns after it |
| Artifacts.KeptIndicesCover | shared/skills/fin-extract/scripts/extract_tables.py:311-314 | every column outside the merge set survives |
| Artifacts.KeptIndicesAscend | shared/skills/fin-extract/scripts/extract_tables.py:311-314 | surviving columns keep their left-to-right order |
| Artifacts.MergeRowAbsorbs | shared/skills/fin-extract/scripts/extract_tables.py:288-315 | each output cell is a surviving column's cell with its continuation run absorbed |
| Artifacts.MergeColumns | shared/skills/fin-extract/scripts/extract_tables.py:284-317 | identity for an empty merge set; otherwise the same number of rows, each merged, with exactly the merge-set columns removed (KeptIndices) |
| Artifacts.MergeSingleColumn | shared/skills/fin-extract/scripts/extract_tables.py:284-317 | merging one column c joins it into column c-1 and shifts the rest left |
| Artifacts.DropColumns | shared/skills/fin-extract/scripts/extract_tables.py:326-328 | every row loses the same number of leading artifact columns |
| Artifacts.FilledRows | shared/skills/fin-extract/scripts/extract_tables.py:333-337 | only rows with a filled cell remain, in their original order |
| Artifacts.FilledRowsExact | shared/skills/fin-extract/scripts/extract_tables.py:333-337 | a row is kept iff it was in the table and has a filled cell |
| Artifacts.Tidy | shared/skills/fin-extract/scripts/extract_tables.py:323-329 | dropping artifact columns and merging continuation columns keeps every row |
| Artifacts.CleanPresentationArtifacts | shared/skills/fin-extract/scripts/extract_tables.py:320-339 | the result is exactly the rows of the tidied table (artifact columns dropped, continuation columns merged) that have a filled cell, in their original order and with none lost |
| TableRows.FillFromAt | shared/skills/fin-extract/scripts/extract_tables.py:358-370 | row i is filled with the label carried from the rows before it |
| TableRows.ForwardFillShape | shared/skills/fin-extract/scripts/extract_tables.py:358-370 | forward fill keeps every row's width and every cell after the first, and leaves labelled rows alone |
| TableRows.ForwardFillTakesLastLabel | shared/skills/fin-extract/scripts/extract_tables.py:362-369 | an unlabelled row takes the label of the last labelled row above it |
| TableRows.ForwardFillBeforeFirstLabel | shared/skills/fin-extract/scripts/extract_tables.py:362-369 | rows above the first label are untouched |
| TableRows.ForwardFillLabels | shared/skills/fin-extract/scripts/extract_tables.py:358-370 | every non-empty row at or after the first labelled row has a filled first cell |
| TableRows.ForwardFillKeepsFilled | shared/skills/fin-extract/scripts/extract_tables.py:358-370 | a row with a filled cell still has one |
| TableRows.LetterNeverFootnote | shared/skills/fin-extract/scripts/extract_tables.py:94 | text whose first non-space character is a letter never starts a footnote |
| TableRows.FootnoteExamples | shared/skills/fin-extract/scripts/extract_tables.py:94 | `1)`, ` 12.` and `(3)` start a footnote; a three-digit number followed by a dot does not |
| TableRows.TextCellsIffFilled | shared/skills/fin-extract/scripts/extract_tables.py:342-355 | a row has text cells iff it has a filled cell |
| TableRows.FootnoteText | shared/skills/fin-extract/scripts/extract_tables.py:449-452 | a footnote's text is empty iff its row is empty |
| TableRows.Partition | shared/skills/fin-extract/scripts/extract_tables.py:445-454 | data rows are never footnote rows and keep their order; footnote texts are non-empty |
| TableRows.PartitionData | shared/skills/fin-extract/scripts/extract_tables.py:445-454 | a row is a data row iff it was in the input and is not a footnote row |
| TableRows.PartitionCounts | shared/skills/fin-extract/scripts/extract_tables.py:445-454 | for filled rows, every row goes to exactly one of the two outputs |
| TableRows.ProcessTable | shared/skills/fin-extract/scripts/extract_tables.py:440-456 | on the cleaned, forward-filled rows: the data rows are exactly the rows that are not footnote rows, and the footnotes are exactly the joined text of each footnote row that shows text, both in row order; no footnote is empty |
| TableRows.ProcessTableCounts | shared/skills/fin-extract/scripts/extract_tables.py:440-456 | data rows plus footnotes account for every row left after clean-up |
| TableRows.PartitionSpec | shared/skills/fin-extract/scripts/extract_tables.py:445-454 | the data rows are exactly the rows that are not footnote rows, and the footnotes are exactly the joined text of each footnote row that shows text, both in row order |
| TableRows.PartitionNotes | shared/skills/fin-extract/scripts/extract_tables.py:448-452 | a text is a footnote iff some footnote row showing text joins to it |
| TableRows.CheckAmounts | shared/skills/fin-extract/scripts/extract_tables.py:409-436 | skipped iff fewer than three amounts; otherwise pass iff the sum of all but the last equals the last, and mismatch with diff the absolute difference |
| TableRows.ValidateRowTotals | shared/skills/fin-extract/scripts/extract_tables.py:403-437 | one check per row, in order, numbered by its row index |
| TableRows.DigitsAmount | shared/skills/fin-extract/scripts/extract_tables.py:141-196 | a digit-string cell is read as exactly its integer value |
| TableRows.RowTotalsPass | shared/skills/fin-extract/scripts/extract_tables.py:403-437 | a labelled row x, y, z with x + y = z passes, as [100, 200, 300] does |
| TableRows.RowTotalsMismatch | shared/skills/fin-extract/scripts/extract_tables.py:403-437 | a labelled row with x + y ≠ z is a mismatch by the absolute difference, as [100, 200, 299] is |
| TableRows.NewlineRowPasses | shared/skills/fin-extract/scripts/extract_tables.py:403-437 | a cell broken as `x\n,` still counts as x, so `x\n,`, y, x + y passes |
| TableRows.ScaleFrom | shared/skills/fin-extract/scripts/extract_tables.py:461-475 | the scale of the first phrase, in table order, that occurs in the text; none when no phrase occurs |
| TableRows.DetectScaleIgnoresCase | shared/skills/fin-extract/scripts/extract_tables.py:459-475 | scale detection does not depend on letter case |
| TableRows.MillionsOfPesosFirst | shared/skills/fin-extract/scripts/extract_tables.py:461-475 | "millones de pesos" anywhere means millions of pesos, whatever else appears |
| TableRows.DetectCurrency | shared/skills/fin-extract/scripts/extract_tables.py:478-485 | pesos iff a peso word occurs; dollars iff no peso word and a dollar word occurs; none otherwise |
| TableRows.DetectCurrencyIgnoresCase | shared/skills/fin-extract/scripts/extract_tables.py:478-485 | currency detection does not depend on letter case |
| Periods.PeriodSortKey | skills/fin-extract/scripts/build_workbook.py:36-40 | a quarter name sorts by two-digit year then quarter digit; anything else gets (99, 99) |
| Periods.SortKeyOfQuarterName | skills/fin-extract/scripts/build_workbook.py:36-40 | `dQyy`, `dqyy`, `dTyy` and `dtyy`, followed by anything, all map to (yy, d) |
| Periods.QuartersSortFirst | skills/fin-extract/scripts/build_workbook.py:36-40 | a quarter period sorts before any non-quarter period |
| Periods.SortKeyChronological | skills/fin-extract/scripts/build_workbook.py:36-40 | an earlier quarter sorts first, across the Q and T spellings |
| Periods.FindHeaderRow | skills/fin-extract/scripts/build_workbook.py:103-111 | the first row that is a header row, or none when no row is |
| Periods.HeaderRowSimplified | skills/fin-extract/scripts/build_workbook.py:107-109 | a row is a header iff its joined text names a quarter, or mentions both "thousand" and "pesos" |
| Periods.FindPeriodColumn | skills/fin-extract/scripts/build_workbook.py:114-127 | the first column whose upper-cased, space-free text contains the period or its T variant; none if there is none |
| Periods.EnglishPeriodFindsSpanishColumn | skills/fin-extract/scripts/build_workbook.py:120-125 | an English period `dQyy` finds the Spanish column `dTyy` |
| Periods.SpanishPeriodMissesEnglishColumn | skills/fin-extract/scripts/build_workbook.py:120-125 | a Spanish period `dTyy` does not find an English `dQyy` column: the variant only goes from Q to T |
| Values.ParseNumber | skills/fin-extract/scripts/build_workbook.py:64-72 | only text of the shape `-?digit[digits or dots]%?` parses; a percentage is kept as its text |
| Values.Magnitude | skills/fin-extract/scripts/build_workbook.py:61-72 | a percentage result carries no comma and ends in `%` |
| Values.CleanValue | skills/fin-extract/scripts/build_workbook.py:48-74 | blank input has no value; a percentage result carries no comma and ends in `%` |
| Values.ParenthesesNegate | skills/fin-extract/scripts/build_workbook.py:55-57 | `(x)` is the negation of x |
| Values.DashIsZero | skills/fin-extract/scripts/build_workbook.py:61-63 | "-", "—" and "$-" are zero |
| Values.ParseDigits | skills/fin-extract/scripts/build_workbook.py:66-72 | a digit string parses to its integer value |
| Values.DollarAmount | skills/fin-extract/scripts/build_workbook.py:61-72 | `$a,b` is the number ab: the dollar sign and the comma are dropped |
| Values.PercentParses | skills/fin-extract/scripts/build_workbook.py:66-69 | `d%` is returned as the text `d%` |
| Values.PercentMagnitude | skills/fin-extract/scripts/build_workbook.py:61-69 | a percentage survives the dollar and comma stripping unchanged |
| Values.PercentKeepsNoSign | skills/fin-extract/scripts/build_workbook.py:55-69 | a parenthesised percentage comes back without its minus sign |
| Values.WordParsesToNothing | skills/fin-extract/scripts/build_workbook.py:66-67 | text starting with a letter does not parse |
| Values.WordIsNoValue | skills/fin-extract/scripts/build_workbook.py:48-67 | a cell whose text starts with a letter has no value |
| Values.CleanPlain | skills/fin-extract/scripts/build_workbook.py:50-61 | a cell without a leading parenthesis is the magnitude of its stripped text |
| Values.MagnitudeOfBare | skills/fin-extract/scripts/build_workbook.py:61-67 | without a dollar sign, the magnitude is the parse of the text with its commas removed |
| Labels.DropNumberNote | skills/fin-extract/scripts/build_workbook.py:81 | the note removal only ever cuts a suffix |
| Labels.DropsNumberNote | skills/fin-extract/scripts/build_workbook.py:81 | `label (12)` loses its trailing note |
| Labels.DropNetNote | skills/fin-extract/scripts/build_workbook.py:82 | the "(net)" removal only ever cuts a suffix |
| Labels.DropsNetNote | skills/fin-extract/scripts/build_workbook.py:82 | `label (net)` loses its trailing note |
| Labels.SpellingVariants | skills/fin-extract/scripts/build_workbook.py:84-87 | the four spellings of non-operating all become "non operating" |
| Labels.ReplaceSelf | skills/fin-extract/scripts/build_workbook.py:86 | replacing a word by itself changes nothing |
| Labels.CollapseShape | skills/fin-extract/scripts/build_workbook.py:91 | collapsed text has single spaces only and the same non-space characters in order |
| Labels.CollapseIdempotent | skills/fin-extract/scripts/build_workbook.py:91 | collapsing twice is collapsing once |
| Labels.DropPortfolioChars | skills/fin-extract/scripts/build_workbook.py:95 | qualifier removal only deletes characters |
| Labels.DropsPortfolioQualifier | skills/fin-extract/scripts/build_workbook.py:95 | `label (own portfolio)` and `label (consolidated portfolio)` lose the qualifier |
| Labels.NormalizeLabelLowered | skills/fin-extract/scripts/build_workbook.py:77-96 | a normalised label is already lower case |
| Labels.NormalizeIgnoresCase | skills/fin-extract/scripts/build_workbook.py:77-96 | labels differing only in case normalise alike |
| Statements.ToYearIsPrefixNoise | skills/fin-extract/scripts/build_workbook.py:163-175 | the "to yyyy." fragment test is already covered by the "to " noise prefix |
| Statements.RowLabel | skills/fin-extract/scripts/build_workbook.py:153-159 | the label is the stripped first cell, or the stripped second cell when the first is blank; none iff both are blank |
| Statements.RowItem | skills/fin-extract/scripts/build_workbook.py:150-186 | a row yields an item iff it reaches the period column, has a label, the label is not noise, and the value cell is not narrative; the item pairs the label with the cleaned value |
| Statements.ParseRows | skills/fin-extract/scripts/build_workbook.py:150-186 | at most one item per row, each with an acceptable label |
| Statements.ParseRowsAppend | skills/fin-extract/scripts/build_workbook.py:150-186 | rows are read independently: parsing a concatenation concatenates the results |
| Statements.ParseStandardCsv | skills/fin-extract/scripts/build_workbook.py:130-188 | nothing without a header row or a matching period column; no label longer than 60 characters with a space |
| Statements.KeepsValueRow | skills/fin-extract/scripts/build_workbook.py:150-186 | a row with an acceptable label and a numeric value is kept as is |
| Statements.LabelFromSecondCell | skills/fin-extract/scripts/build_workbook.py:154-157 | with a blank first cell the label comes from the second cell |
| Statements.NegatePositive | skills/fin-extract/scripts/build_workbook.py:245-252 | only a strictly positive number is negated; the label is kept and the result is never positive |
| Statements.StepZone | skills/fin-extract/scripts/build_workbook.py:237-248 | after a row the zone is open iff the row opens it, or it was open and the row does not close it |
| Statements.InZoneShift | skills/fin-extract/scripts/build_workbook.py:235-254 | the zone at a later row is determined by the zone after the first row |
| Statements.SignsFromSpec | skills/fin-extract/scripts/build_workbook.py:235-254 | each item is negated exactly when it lies in the expense zone or closes it |
| Statements.NormalizeExpenseSignsSpec | skills/fin-extract/scripts/build_workbook.py:228-255 | length and labels are kept; a positive amount is negated iff its row is a total-expenses row (inside or outside a zone) or lies in the zone after a total-revenue row, up to the total-expenses row; a total-revenue row itself is never negated; everything else is unchanged |
| Statements.NormalizeExpenseSignsIdempotent | skills/fin-extract/scripts/build_workbook.py:228-255 | normalising twice is normalising once |
| Statements.SameLabelsSameZone | skills/fin-extract/scripts/build_workbook.py:239-252 | the sign decision depends only on the labels, never on the values or on the expense keywords |
| Statements.BalanceSheetLayout | skills/fin-extract/scripts/build_workbook.py:578-594 | no rows, the 1Q21 parser, the compact parser (no row wider than 4) or the side-by-side parser, checked in that order |
| Statements.LowerCase1Q21 | skills/fin-extract/scripts/build_workbook.py:586 | "1q21" selects the 1Q21 parser too |
| Align.FindKey | skills/fin-extract/scripts/build_workbook.py:782-787 | the first master position with the same normalised key, or none iff no entry has it |
| Align.Insert | skills/fin-extract/scripts/build_workbook.py:797-798 | the new label sits at the given position, with entries before it unchanged and entries after it shifted by one |
| Align.InsertKeepsOrder | skills/fin-extract/scripts/build_workbook.py:795-800 | an insertion keeps every existing entry and their relative order |
| Align.InsertDistinct | skills/fin-extract/scripts/build_workbook.py:795-800 | inserting a label with a new key keeps the keys distinct |
| Align.Place | skills/fin-extract/scripts/build_workbook.py:779-800 | a known label reuses its master entry; a new one is inserted right after the last placed position; the period map records the value under the master label |
| Align.PlaceValid | skills/fin-extract/scripts/build_workbook.py:779-800 | placing one label keeps keys distinct and order kept, and afterwards the label's key is in the master list |
| Align.PlaceAllValid | skills/fin-extract/scripts/build_workbook.py:775-802 | after one period every label's key is in the master list, the keys are still distinct and the old entries keep their order |
| Align.AlignFromSpec | skills/fin-extract/scripts/build_workbook.py:771-804 | across all periods the master keys stay distinct, every label's key appears, and every period map is keyed by master labels |
| Align.AlignLabelsSpec | skills/fin-extract/scripts/build_workbook.py:764-804 | no two master labels share a key; every input label's key is present; exactly one period map per input period, keyed only by master labels |
| Align.LaterPeriodsKeepOrder | skills/fin-extract/scripts/build_workbook.py:777-800 | later periods never reorder or drop existing master entries |
| Batch.Stem | shared/skills/fin-extract/scripts/batch_extract.py:84 | the stem is the name, or the name cut before its last dot |
| Batch.StemDropsExtension | shared/skills/fin-extract/scripts/batch_extract.py:84 | `s.e` has stem s |
| Batch.DerivePeriod | shared/skills/fin-extract/scripts/batch_extract.py:82-88 | a leading `dQyy` of the stem, upper-cased, or else the whole stem |
| Batch.QuarterFileName | shared/skills/fin-extract/scripts/batch_extract.py:82-88 | `3q25.pdf` gives the period `3Q25` |
| Batch.OtherFileName | shared/skills/fin-extract/scripts/batch_extract.py:82-88 | a file name without a quarter prefix gives its stem |
| Batch.DerivedPeriodSorts | shared/skills/fin-extract/scripts/batch_extract.py:82-88 | a derived quarter period sorts by its year and quarter digits |
| Batch.Scores | shared/skills/fin-extract/scripts/batch_extract.py:118-119 | one pattern-hit count per statement type, in declaration order |
| Batch.Best | shared/skills/fin-extract/scripts/batch_extract.py:115-124 | none iff every score is 0; otherwise the first type with the highest score |
| Batch.BestFromSpec | shared/skills/fin-extract/scripts/batch_extract.py:118-122 | the scan loop keeps the first strictly highest score seen so far |
| Batch.ClassifyText | shared/skills/fin-extract/scripts/batch_extract.py:110-141 | (none, 0) iff nothing matches; otherwise the earliest type with the highest hit count, and its count |
| Batch.TieGoesToEarlier | shared/skills/fin-extract/scripts/batch_extract.py:120 | of two tied types, the later one is never chosen |
| Batch.WinnerScoresHighest | shared/skills/fin-extract/scripts/batch_extract.py:118-124 | no type scores more than the winner |
| Batch.ClassifyTable | shared/skills/fin-extract/scripts/batch_extract.py:91-124 | an unreadable or empty CSV gives (none, 0); otherwise the classification of its joined non-blank cells |
| Batch.OnlyHeadRowsCount | shared/skills/fin-extract/scripts/batch_extract.py:99-103 | rows after the first 15 do not affect the classification |
| Batch.PageOfTableName | shared/skills/fin-extract/scripts/batch_extract.py:265-267 | `page_N_...` yields page N |
| Batch.Reclassify | shared/skills/fin-extract/scripts/batch_extract.py:264-272 | the scan is only consulted below score 1, and replaces the result only with a strictly higher score |
| Batch.Top | shared/skills/fin-extract/scripts/batch_extract.py:179-182 | exactly min(n, number of pages) pages, by descending score, each from the input, with no higher-scoring page left out; among pages of equal score the earliest in input order come first |
| Batch.SelectPages | shared/skills/fin-extract/scripts/batch_extract.py:162-194 | exactly min(max_pages, available) pages: primary pages (tables and 2+ keywords) by descending 2·keywords + tables when there are any and max_pages > 0, otherwise fallback pages (tables and a keyword) by descending keyword count; no better page is left out, and among equal scores the earliest in input order are chosen |
| Batch.FallbackOnlyWhenPrimaryEmpty | shared/skills/fin-extract/scripts/batch_extract.py:184-192 | when some page qualifies as primary, only primary pages are chosen and the choice is not empty |
| Batch.SelectionStable | shared/skills/fin-extract/scripts/batch_extract.py:179 | sorting keeps, for each score, the pages in document order |
| Batch.PageNumbers | shared/skills/fin-extract/scripts/batch_extract.py:182-192 | the selection is reported as its page numbers, in order |
| Batch.CounterNameInjective | shared/skills/fin-extract/scripts/batch_extract.py:254 | different counters give different names |
| Batch.FreeCounter | shared/skills/fin-extract/scripts/batch_extract.py:252-259 | the smallest counter from the start value whose name is unused |
| Batch.UniqueName | shared/skills/fin-extract/scripts/batch_extract.py:246-259 | an unused name, recorded as used; `base_period.csv` first, else `base_N_period.csv` with the smallest free N ≥ 2 |
| Batch.NameAll | shared/skills/fin-extract/scripts/batch_extract.py:238-283 | within one call no name is produced twice or taken from the used set |
| Batch.RepeatedTypeNumbered | shared/skills/fin-extract/scripts/batch_extract.py:246-259 | three tables of one type are named `t_p.csv`, `t_2_p.csv`, `t_3_p.csv` |
| Batch.TableBaseOfShape | shared/skills/fin-extract/scripts/batch_extract.py:277-278 | an unclassified table keeps its `page_N_table_M` prefix as base |
| Batch.ExtractedNameBase | shared/skills/fin-extract/scripts/batch_extract.py:265-278 | an extractor file name yields its own base and page number |
| Batch.FinalClass | shared/skills/fin-extract/scripts/batch_extract.py:262-272 | the final score is never below the CSV score, and a CSV score of 1 or more is final |
| Batch.Bases | shared/skills/fin-extract/scripts/batch_extract.py:274-279 | one base per CSV, in order |
| Batch.RenameTables | shared/skills/fin-extract/scripts/batch_extract.py:222-285 | one name per CSV, no two alike |
| Batch.PageLookup | shared/skills/fin-extract/scripts/batch_extract.py:232-235 | every scanned page is found by its number, and every entry is a scanned page with that number |
| Scan.TableCount | shared/skills/fin-extract/scripts/scan_pdf.py:52-59 | the larger of the two strategies' table counts |
| Scan.MatchedKeywords | shared/skills/fin-extract/scripts/scan_pdf.py:43-64 | a sublist of the keyword list in declaration order, holding exactly the keywords found case-insensitively in the text |
| Scan.NonBlankLines | shared/skills/fin-extract/scripts/scan_pdf.py:66 | the kept lines are stripped and non-empty |
| Scan.NonBlankLinesMembers | shared/skills/fin-extract/scripts/scan_pdf.py:66 | a line is kept iff it is the stripped form of a non-blank input line |
| Scan.Truncate | shared/skills/fin-extract/scripts/scan_pdf.py:68-69 | up to 300 characters stay as they are; longer text becomes its first 300 characters plus "..." |
| Scan.ScanPage | shared/skills/fin-extract/scripts/scan_pdf.py:47-80 | the page entry: its number, character count, larger table count, keywords found in declaration order, and a bounded preview |
| Scan.FinancialPagesNumbered | shared/skills/fin-extract/scripts/scan_pdf.py:105-113 | financial pages are listed increasing, and are exactly the pages with tables or keywords |
| Scan.ScanPdf | shared/skills/fin-extract/scripts/scan_pdf.py:99-123 | one entry per page; the financial pages in document order; the count equals the list's length |
| Scan.MatchedNonEmpty | shared/skills/fin-extract/scripts/scan_pdf.py:61-64 | the keyword list is non-empty iff some keyword occurs |
| Scan.FinancialPageIff | shared/skills/fin-extract/scripts/scan_pdf.py:105-113 | a page is financial iff either strategy finds a table or some keyword occurs |
| TextNumbers.MatchAt | shared/skills/fin-extract/scripts/extract_text.py:35-39 | a match at i is non-empty and contains a digit |
| TextNumbers.NextMatch | shared/skills/fin-extract/scripts/extract_text.py:45 | the next match start is the first position from pos where the pattern matches |
| TextNumbers.Matches | shared/skills/fin-extract/scripts/extract_text.py:45 | the successive matches are ordered, do not overlap, and each is a match of the pattern |
| TextNumbers.MatchesComplete | shared/skills/fin-extract/scripts/extract_text.py:45 | every position where the pattern matches lies in some reported span |
| TextNumbers.NumbersOf | shared/skills/fin-extract/scripts/extract_text.py:44-54 | every reported number holds a digit, and its raw text is its stripped span |
| TextNumbers.NumbersOfKeepsAll | shared/skills/fin-extract/scripts/extract_text.py:46-53 | spans with a digit are all reported, with their positions |
| TextNumbers.ExtractNumbersSpec | shared/skills/fin-extract/scripts/extract_text.py:42-54 | numbers are ordered, non-overlapping matches with a digit, with raw equal to the stripped span, and every match position is covered |
| TextNumbers.YearIsSplit | shared/skills/fin-extract/scripts/extract_text.py:35-54 | "2025" is reported as "202" at 0-3 and "5" at 3-4 |
| StopHook.LinesBefore | shared/hooks/stop-hook.py:23-27 | the header lines are those before the next fence |
| StopHook.FirstFrom | shared/hooks/stop-hook.py:43-59 | the first fence line at or after a position, or none iff there is none |
| StopHook.ParseLine | shared/hooks/stop-hook.py:29-33 | a line gives an entry iff it contains a colon |
| StopHook.ParseEntry | shared/hooks/stop-hook.py:29-38 | `key: value` splits at the first colon, strips both sides and unquotes the value |
| StopHook.UnquotePlain | shared/hooks/stop-hook.py:34-37 | an unquoted value is kept |
| StopHook.UnquoteQuoted | shared/hooks/stop-hook.py:34-37 | a double-quoted value loses its quotes |
| StopHook.EntryKept | shared/hooks/stop-hook.py:29-38 | a key not set again keeps its value |
| StopHook.LastEntryWins | shared/hooks/stop-hook.py:29-38 | a repeated key takes its last value |
| StopHook.ParseFrontmatter | shared/hooks/stop-hook.py:17-40 | no fields unless the first line is a fence |
| StopHook.HeaderFields | shared/hooks/stop-hook.py:17-40 | for a fenced header followed by a prompt, the fields are those of the lines between the fences |
| StopHook.ExtractPrompt | shared/hooks/stop-hook.py:43-59 | no prompt without a fence |
| StopHook.FewFencesNoPrompt | shared/hooks/stop-hook.py:43-59 | fewer than two fence lines give no prompt |
| StopHook.HeaderThenPrompt | shared/hooks/stop-hook.py:43-59 | for a fenced header followed by a prompt, the prompt is exactly the text after the second fence |
| StopHook.ExtractPromiseText | shared/hooks/stop-hook.py:62-67 | no promise without an opening tag |
| StopHook.UnclosedTagNoPromise | shared/hooks/stop-hook.py:62-67 | an opening tag with no closing tag after it gives no promise, whatever precedes it |
| StopHook.PromiseBetweenTags | shared/hooks/stop-hook.py:62-67 | the text between the first opening tag and the first closing tag after it, with whitespace runs collapsed to single spaces; anything may come before the opening tag and after the closing tag |
| StopHook.FirstMatch | shared/hooks/stop-hook.py:162-168 | the first line start where `iteration:\s*\d+` matches, or none iff it matches nowhere |
| StopHook.BumpIteration | shared/hooks/stop-hook.py:162-168 | only the first `iteration: N` is replaced by `iteration: n`; the text before and after is unchanged, and nothing changes without a match |
| StopHook.BumpSecondLine | shared/hooks/stop-hook.py:162-168 | a state file whose second line is the iteration gets exactly that line replaced |
| StopHook.Promise | shared/hooks/stop-hook.py:147 | a promise is set iff the field is neither empty nor "null" |
| StopHook.StateReadsBack | shared/hooks/stop-hook.py:17-59 | a state file with iteration, limit, promise and prompt reads back as those four values |
| StopHook.BumpState | shared/hooks/stop-hook.py:154-168 | bumping a state file changes its iteration and nothing else |
| StopHook.LastAssistant | shared/hooks/stop-hook.py:125-133 | the last transcript line that is an assistant message, or none iff there is none |
| StopHook.LastOutput | shared/hooks/stop-hook.py:110-145 | a last output exists only for a readable transcript with an assistant message |
| StopHook.Decide | shared/hooks/stop-hook.py:70-187 | leave iff unreadable input or no state file; block only with valid counters below the limit, a transcript output, no kept promise and a non-blank prompt, reporting the prompt, the bumped file and the next iteration |
| StopHook.ContinuesWhen | shared/hooks/stop-hook.py:92-184 | with valid counters below the limit, an output, no kept promise and a prompt, the loop continues |
| StopHook.DecideAtLimit | shared/hooks/stop-hook.py:105-108 | at the limit the loop finishes, whatever the transcript |
| StopHook.DecideBelowLimit | shared/hooks/stop-hook.py:154-184 | below the limit, with a usable transcript and no kept promise, the loop blocks with the prompt and iteration + 1 |
| StopHook.LimitStops | shared/hooks/stop-hook.py:105-108 | a state file at its limit finishes the loop |
| StopHook.LoopTurn | shared/hooks/stop-hook.py:147-184 | a state file below its limit turns into the same file with iteration + 1 and the same prompt, whenever the promise is unset or not met; a limit of 0 never finishes the loop |
| StopHook.PromiseFinishes | shared/hooks/stop-hook.py:147-152 | an output that states the set promise exactly finishes the loop |
| TodoEnforcer.Incomplete | shared/hooks/todo-enforcer.py:123-125 | incomplete counts the pending and in-progress todos |
| TodoEnforcer.LastWrite | shared/hooks/todo-enforcer.py:96-110 | the last TodoWrite call, or none iff there is none |
| TodoEnforcer.LastTodos | shared/hooks/todo-enforcer.py:96-110 | the todo list is that of the last TodoWrite call |
| TodoEnforcer.LaterWriteWins | shared/hooks/todo-enforcer.py:106-109 | a later TodoWrite call overrides every earlier one |
| TodoEnforcer.OtherBlocksIgnored | shared/hooks/todo-enforcer.py:106-109 | other content blocks do not affect the todo list |
| TodoEnforcer.TaskLines | shared/hooks/todo-enforcer.py:153-163 | one task line per incomplete todo |
| TodoEnforcer.TaskLinesOfIncomplete | shared/hooks/todo-enforcer.py:153-163 | the task lines are exactly the incomplete todos, in their original order |
| TodoEnforcer.Continue | shared/hooks/todo-enforcer.py:89-149 | block iff there is a transcript path, open todos and the next count stays below 10; a block stores the count and the session; a missing transcript changes nothing; a transcript that cannot be read, or has a line the parse loop cannot walk, resets the count and allows; any other allow resets the count |
| TodoEnforcer.Run | shared/hooks/todo-enforcer.py:58-176 | disabled, unreadable input or an active Ralph loop allow; a block lists the open todos and stores a count below 10 with the session |
| TodoEnforcer.PlainStop | shared/hooks/todo-enforcer.py:134-149 | a stop with open todos is allowed iff the next count reaches 10, which resets the count; otherwise the count becomes previous + 1 in the same session and 1 in a new one |
| TodoEnforcer.SafetyValve | shared/hooks/todo-enforcer.py:134-149 | repeated plain stops in one session are let through exactly every tenth time |
| TodoEnforcer.ContinuationBlocks | shared/hooks/todo-enforcer.py:83-149 | a stop with `stop_hook_active` and open todos blocks with count 1 |
| TodoEnforcer.ContinuationNeverReleased | shared/hooks/todo-enforcer.py:83-149 | repeated stops with `stop_hook_active` are always blocked |
| TodoEnforcer.RunKeepingCount | shared/hooks/todo-enforcer.py:83-149 | the corrected reading without the reset at lines 84-87: a continued stop is decided as a plain stop |
| TodoEnforcer.KeepingCountIsPlain | shared/hooks/todo-enforcer.py:134-149 | under the corrected reading, repeated continued stops run exactly as repeated plain stops |
| TodoEnforcer.ContinuationReleasedWhenCounted | shared/hooks/todo-enforcer.py:134-149 | under the corrected reading, every tenth continued stop is let through, cycling |
| TodoEnforcer.DisabledAllows | shared/hooks/todo-enforcer.py:63-65 | a disabled config always allows exit |
| TodoEnforcer.UnwalkableLineAllows | shared/hooks/todo-enforcer.py:96-115 | one line the loop cannot walk (a JSON value that is not an object, string content, a content item that is not an object) makes the hook allow, whatever todos the other lines hold |
| TodoEnforcer.PromptThenTodoAllowed | shared/hooks/todo-enforcer.py:96-115 | a prompt line with string content followed by a TodoWrite with a pending todo is allowed, although the rest of the transcript alone has open todos |
| TodoEnforcer.ContinueSkipping | shared/hooks/todo-enforcer.py:89-149 | with unwalkable lines skipped: block iff there is a path, a readable transcript, open todos in the last TodoWrite and a next count below 10; a block lists the todos and stores the count |
| TodoEnforcer.SkippingAgrees | shared/hooks/todo-enforcer.py:96-115 | skipping unwalkable lines changes nothing on transcripts that have none |
| TodoEnforcer.PromptThenTodoBlocksWhenSkipped | shared/hooks/todo-enforcer.py:96-115 | with unwalkable lines skipped, the prompt-then-todo transcript blocks |
| CheckComments.Extension | hooks/check-comments.py:79 | the extension is empty or a final dotted suffix without a slash or further dot |
| CheckComments.ExtensionOfName | hooks/check-comments.py:79 | `name.e` has extension `.e` |
| CheckComments.DotFileHasNoExtension | hooks/check-comments.py:79 | `.e` alone has no extension |
| CheckComments.Target | hooks/check-comments.py:55-76 | only Write, Edit and MultiEdit calls are checked; MultiEdit content is the new strings joined by newlines; a missing or empty path or content gives nothing |
| CheckComments.FlagEntry | hooks/check-comments.py:108 | an entry for a one-line comment is itself one line |
| CheckComments.Flagged | hooks/check-comments.py:90-108 | each entry is a flagged line with its 1-based number and its first 80 characters; no more entries than comments |
| CheckComments.TallyLines | hooks/check-comments.py:86-108 | the loop counts the non-blank lines, the comment lines and the flagged entries |
| CheckComments.TallyStep | hooks/check-comments.py:90-108 | each line adds to the total iff not blank, to the comments iff it starts with a prefix, and to the list iff it is a comment matching no exempt pattern |
| CheckComments.TrailingBlankLinesIgnored | hooks/check-comments.py:93-94 | a blank line changes no count |
| CheckComments.FlaggedListLines | hooks/check-comments.py:117-119 | the list shows the first 10 entries and, beyond that, one "... and k more" line |
| CheckComments.ListWithMore | hooks/check-comments.py:117-119 | more than 10 entries give the first 10 and the "more" line |
| CheckComments.PrefixesFor | hooks/check-comments.py:79-83 | a file is checked iff its lower-cased extension is in the pattern table |
| CheckComments.Check | hooks/check-comments.py:48-141 | a warning iff the call is checked, the language is known, and more than a quarter of the non-blank lines are comments with at least one flagged; the warning carries exactly the text's comment-line and non-blank-line counts the printed percentage is computed from |
| CheckComments.WarningLists | hooks/check-comments.py:115-126 | the warning lists the first 10 flagged lines and a "more" line when there are more |
| KeywordDetector.FirstFound | shared/hooks/keyword-detector.py:87-88 | the first keyword found in the text, or none iff no keyword occurs |
| KeywordDetector.SelectFrom | shared/hooks/keyword-detector.py:86-94 | the first mode from i on with a keyword in the prompt, or none iff there is none |
| KeywordDetector.SelectMode | shared/hooks/keyword-detector.py:84-97 | a chosen mode has a keyword in the lower-cased prompt and no earlier mode has one; none iff no mode's keyword occurs |
| KeywordDetector.EarliestModeWins | shared/hooks/keyword-detector.py:86-94 | the earliest triggering mode is the one chosen |
| KeywordDetector.CaseIgnored | shared/hooks/keyword-detector.py:84 | matching does not depend on the prompt's letter case |
| KeywordDetector.PromptText | shared/hooks/keyword-detector.py:77 | the prompt field if non-empty, else the message field if non-empty, else empty |
| KeywordDetector.Detect | shared/hooks/keyword-detector.py:73-97 | unreadable input or an empty prompt gives no mode; otherwise the selected mode, if any |

## Left out

- The PDF reader and its geometry: `extract_table_with_words`, `extract_tables_from_page`, page text and `find_tables`. Page texts, table counts and raw grids are inputs.
- File and process I/O:
  - CSV and JSON reading and writing, directory listing and `safe_rename`;
  - the subprocess calls `run_scan` and `run_extraction`;
  - the `main` functions' argument handling;
  - todo-enforcer's config and log files, and stop-hook's state-file removal and rewrite.

  Each hook's reads become inputs, and its writes become outputs such as the updated config or the new state text.
- Excel output: `write_model_tab`, `build_workbook`, `discover_csvs` and styling.
- The per-quarter balance-sheet, cash-flow, NOI and FFO parsers, `_parse_split_value` and `_maybe_rescale_to_thousands`. They are ad hoc layout rules on binary floats with Python rounding. Only the `parse_balance_sheet` dispatch is modelled.
- The unused `EXPENSE_KEYWORDS` list. The test that uses it never changes the outcome; see `Statements.SameLabelsSameZone`.
- Regular expressions.
  - `STATEMENT_PATTERNS` and the exempt-comment patterns are abstract searchers or simplified recognisers.
  - `FINANCIAL_CELL`, `FOOTNOTE_PATTERN`, `NUMBER_PATTERN`, `QUARTER_RE` and the iteration pattern are written out as recognisers for exactly the strings they match.
  - `re.IGNORECASE` is modelled as lower-casing the text.
- Text details.
  - `\d` and `isdigit` are ASCII digits.
  - `lower()` and `upper()` act character by character on ASCII and Latin-1 letters. Unicode case maps that change the length are not modelled.
  - `isalpha()` and `islower()` also recognise only ASCII and Latin-1 letters. A word split across lines in another script is therefore joined with a space, where Python would glue the two halves.
  - `int()` does not accept underscores.
- Message texts: the block reasons, system messages, mode instructions and warning boilerplate are represented by the data they carry.
- Hook input. A JSON body that parses but is not an object, which the scripts would crash on, is treated like unreadable input. The transcript is a list of lines with their text parts. For the todo enforcer, a line is not JSON, a line the parse loop cannot walk, or an entry with its content blocks. A todo that is not an object, on which the script crashes at line 123, is not represented. For the stop hook, the last assistant line is either not JSON or a list of content parts. Two crashes are not represented. If that line is not an object, or its content is a string, null, or holds items that are not objects, `shared/hooks/stop-hook.py` raises at lines 133-135 and keeps the state file. If the input body parses but is not an object, the checks at lines 88-108 can still delete the state file before the crash at line 110, while `StopHook.Decide` leaves it.
- The order of the extracted CSV files. `sorted(glob(...))` is given as the input order.
- hooks/slack_notify.py and hooks/explanatory-session-start.py: a network client and a constant message, with no logic to model.
- NumberFormat.ToDecimal: only the shapes `normalize_number_string` produces are accepted, a final newline included. `Decimal`'s exponent, NaN and Infinity spellings, and whitespace other than that newline, are not modelled.
- TableRows.CheckAmounts: sums are exact. `Decimal`'s 28-digit context rounding is not modelled.
- Values.CleanValue: amounts are exact reals where the code uses binary floats.
- Labels.NormalizeLabel: the trailing `.:;` strip and the leading `$•·- ` strip have no lemma of their own. They are covered only by the lower-case and case-insensitivity lemmas.
- Scan.PreviewText: the join of the first five kept lines with " | " has no contract of its own. It is covered by `Scan.NonBlankLinesMembers` and `Scan.Truncate`.
- Batch.SelectPages: `max_pages` is a natural number. Python's slice with a negative bound, which drops pages from the end, is not modelled.

## Findings

| source | as written | input that shows it | evidently intended | confidence | as-written member | corrected member |
|---|---|---|---|---|---|---|
| shared/hooks/todo-enforcer.py:103-115 | the per-line `try` catches only `json.JSONDecodeError`; a line whose content is a string (or a JSON value that is not an object, or a content item that is not an object) raises `AttributeError`, which ends the whole loop in the outer handler: the count is reset and exit is allowed | a transcript whose first line is `{"message": {"content": "fix the bug"}}`, followed by a TodoWrite call with one pending todo | skip that line, as undecodable lines are skipped, and block on the pending todo | medium, not executed | TodoEnforcer.UnwalkableLineAllows, TodoEnforcer.PromptThenTodoAllowed | TodoEnforcer.ContinueSkipping, with TodoEnforcer.SkippingAgrees and TodoEnforcer.PromptThenTodoBlocksWhenSkipped |
| shared/hooks/todo-enforcer.py:84-87 | a stop with `stop_hook_active` set, in the session that was last blocked, resets `block_count` to 0 before counting, so the count never passes 1 and the safety valve at lines 141-145 never opens for such stops | a session with a pending todo that the hook blocks, after which every stop arrives with `stop_hook_active` true: it is blocked on every stop, without end | the valve still lets the session go after ten consecutive blocks | low, not executed | TodoEnforcer.ContinuationNeverReleased | TodoEnforcer.RunKeepingCount, with TodoEnforcer.KeepingCountIsPlain and TodoEnforcer.ContinuationReleasedWhenCounted |

`TodoEnforcer.Run` and `TodoEnforcer.Continue` keep the behaviour as written, since that is what the hook does. `TodoEnforcer.ContinueSkipping` is the corrected reading of the first row, and it agrees with `Continue` on every transcript without such a line. `TodoEnforcer.RunKeepingCount` is the corrected reading of the second row, and on continued stops it behaves exactly as the hook does on plain stops.
