# labman plate grid: row labels, well navigation, plating and pool inputs

A Dafny model of the sequential, pure parts of labman's plate handling:

- **Row labels** (`RowLabels`, row_labels.dfy). The plate viewer labels its
  first row "A" and derives every following row label from the previous one
  with `formatRowId`. That function upper-cases the label and advances its
  last letter. A trailing 'Z' becomes 'A' and carries into the letter before
  it, but the carry goes no further. The model reproduces this behaviour,
  including the cases a plate never reaches. As a reference it defines labels
  as bijective base-26 numerals (`Value`, `Numeral`, and the full-carry
  `Successor`). It then proves exactly when `formatRowId` agrees with that
  reference.
- **Well navigation** (`WellNavigation`, well_navigation.dfy). Pressing Enter
  in a well's input moves the focus one row down. From the last row it goes
  to the top of the next column, and from the last well back to the first.
  The model proves that this is "next well in column-major order, cyclically".
- **Sample plating** (`SamplePlating`, sample_plating.dfy). This is the plating
  loop of the integration test. Sample number idx goes to the 1-based well
  (idx div num_cols + 1, idx mod num_cols + 1), and plating stops once the
  plate is full.
- **Plate pool inputs** (`PlatePooling`, plate_pooling.dfy). This is the
  pooling input list of the integration test. It has one entry per non-empty
  cell of the plate layout, in row-major order, each with input volume 1 and
  percentage of output 1/9.

div_mod.dfy (`DivMod`) holds the facts about Euclidean division that the grid
models share. wrappers.dfy (`Wrappers`) holds the `Option` type for empty
layout cells.

Rows and columns follow the source in each module. The viewer's cells are
0-based. The plating wells are 1-based, as `update_well` receives them.

## Model

| member | source | states |
|---|---|---|
| RowLabels.SameStrChar | labman/gui/static/js/plateViewer.js:174-182 | true exactly when every character of the string is `c`; true for the empty string |
| RowLabels.NextLetterFollowsAlphabet | labman/gui/static/js/plateViewer.js:165-172 | on a capital letter, nextLetter gives the next letter of the alphabet, and 'Z' wraps to 'A' |
| RowLabels.FormatRowId | labman/gui/static/js/plateViewer.js:139-163 | an upper-case label maps to an upper-case label; the length grows by exactly one when the label is all 'Z' (or a single character whose nextLetter is 'A'), and otherwise stays the same |
| RowLabels.FormatRowIdAllZ | labman/gui/static/js/plateViewer.js:141-147 | a label of n 'Z's (either case, n may be 0) becomes n + 1 'A's |
| RowLabels.FormatRowIdAdvancesLast | labman/gui/static/js/plateViewer.js:148-160 | when the last letter is not 'Z', the result is the same prefix followed by the next letter of the alphabet |
| RowLabels.FormatRowIdCarriesOnce | labman/gui/static/js/plateViewer.js:151-158 | a trailing 'Z' on a label that is not all 'Z' becomes 'A', the letter before it goes through nextLetter, and everything before that is unchanged |
| RowLabels.FormatRowIdIgnoresCase | labman/gui/static/js/plateViewer.js:140 | a label and its upper-cased form get the same next label |
| RowLabels.FormatRowIdIsSuccessorIff | labman/gui/static/js/plateViewer.js:139-163 | on upper-case labels, formatRowId equals the true base-26 successor exactly when no carry across two positions is needed |
| RowLabels.FormatRowIdDropsSecondCarry | labman/gui/static/js/plateViewer.js:151-158 | "AZZ" becomes "AAA", whereas the true successor is "BAA" |
| RowLabels.Successor | labman/gui/static/js/plateViewer.js:139-163 | the corrected successor: the label's row number grows by exactly one |
| RowLabels.RowLabelIsNumeral | labman/gui/static/js/plateViewer.js:64-70 | for the first 702 rows, the label shown for row i is the base-26 numeral of i + 1 |
| RowLabels.InitializeRowLabels | labman/gui/static/js/plateViewer.js:64-70 | one label per row (none for a non-positive row count); row i (i < 26) shows the i-th letter of the alphabet, and the first 702 rows show the numerals "A" through "ZZ" |
| WellNavigation.EnterNext | labman/gui/static/js/plateViewer.js:96-106 | Enter from a well of the plate lands on a well of the plate |
| WellNavigation.EnterAdvancesColumnMajor | labman/gui/static/js/plateViewer.js:96-106 | Enter moves from column-major position k to position (k + 1) mod (rows * cols) |
| WellNavigation.WalkFromFirstWell | labman/gui/static/js/plateViewer.js:96-106 | after n presses from the top-left well, the focus is on the well at column-major position n mod (rows * cols) |
| WellNavigation.WalkVisitsEveryWell | labman/gui/static/js/plateViewer.js:96-106 | every well is reached from the top-left one after as many presses as its column-major position |
| SamplePlating.WellOf | labman/db/tests/integration_tests.py:36-37 | sample idx gets a row of at least 1 and a column in 1..num_cols, and reading that well row by row gives back idx |
| SamplePlating.WellOfIndexOf | labman/db/tests/integration_tests.py:36-37 | every well of a num_cols-column plate is the well of its own row-major number |
| SamplePlating.WellOfRowMajor | labman/db/tests/integration_tests.py:36-37 | a later sample goes further along the same row or to a later row |
| SamplePlating.RowFits | labman/db/tests/integration_tests.py:36-41 | the row of sample idx is on the plate exactly when idx is below num_rows * num_cols |
| SamplePlating.PlateSamples | labman/db/tests/integration_tests.py:35-43 | places min(len(samples), num_rows * num_cols) samples in order; sample k goes to row k div num_cols + 1 and column k mod num_cols + 1, inside the plate; wells are pairwise distinct and in row-major order; an unplaced sample means the next row would exceed num_rows |
| PlatePooling.PresentPositions | labman/db/tests/integration_tests.py:121-122 | the positions of the non-empty cells, strictly increasing, covering every non-empty cell; the k-th holds the k-th listed well |
| PlatePooling.FlattenCell | labman/db/tests/integration_tests.py:121 | cell (i, j) of the layout sits at position RowStart(i) + j of the flattened layout |
| PlatePooling.FlattenRowMajor | labman/db/tests/integration_tests.py:121 | flattening keeps the row-major order of the cells |
| PlatePooling.WellListedOnce | labman/db/tests/integration_tests.py:121-123 | every well of the layout is listed, at its row-major position, with its own contents |
| PlatePooling.FlattenPosition | labman/db/tests/integration_tests.py:121 | every position of the flattened layout is the row-major position of some cell (i, j) of the layout |
| PlatePooling.EntryComesFromWell | labman/db/tests/integration_tests.py:121-123 | every listed well comes from a non-empty cell (i, j) of the layout, at that cell's row-major position, so the list holds nothing but the layout's wells |
| PlatePooling.PlatePoolInputs | labman/db/tests/integration_tests.py:119-125 | one entry per non-empty cell of the flattened layout, in order, naming that well's composition, with input volume 1 and percentage of output 1/9 |
| PlatePooling.TotalPercentageOfPlatePool | labman/db/tests/integration_tests.py:123-125 | the declared percentages add up to n/9 for n entries, so they reach 1 exactly when the plate has nine wells |

## Left out

- The DOM, jQuery and AJAX parts of the viewer are not modelled. This covers fetching the layout, drawing the table and the header row, storing `inputTags`, the `focusin`/`change` handlers and the `focus()` call. Only the values the Enter branch computes are modelled.
- The keypress handler's path for keys other than Enter is not modelled; it is DOM plumbing. On that path the hoisted `var`s `row` and `col` stay `undefined`, so `that.inputTags[undefined]` is `undefined` and indexing it with `[col]` throws a `TypeError` on every such keypress in a well (plateViewer.js:92-109).
- WellNavigation.EnterNext takes the row and column as integers. The `parseInt` of the input's attributes is not modelled, because those attributes hold the integers the viewer wrote.
- RowLabels.FormatRowId: `toUpperCase` is modelled for the ASCII letters only. JavaScript's full Unicode case mapping is not modelled; it can change a string's length ('ß' becomes "SS").
- RowLabels.FormatRowId: characters outside the Basic Multilingual Plane count as one element here. JavaScript sees two UTF-16 code units for them. Labels the viewer produces never contain such characters.
- RowLabels.RowLabelIsNumeral is proved for the first 702 rows ("A" to "ZZ"). The viewer's labels stay correct up to row 1378 ("AZZ"), and row 1379 gets "AAA" again. That longer range is not proved.
- SamplePlating.PlateSamples: requires at least one column. With zero columns the loop raises ZeroDivisionError on the first sample. The plate configurations the test loads all have columns.
- SamplePlating.PlateSamples: `int(idx / num_cols)` is a floating-point division truncated to an integer. It is modelled as exact integer division. Float rounding would only matter for indices beyond 2^53.
- The test reads the plate configuration, creates the plating process and calls `update_well` through the database. Here the configuration's row and column counts are parameters. Each `update_well` call is one `Placement` in the result, in call order.
- PlatePooling.PlatePoolInputs: `well.composition` is a database lookup. It is the parameter `compositionOf`. `PoolingProcess.create`, the Echo robot and the pooling function data are not modelled.
- PlatePooling.PlatePoolInputs: `1/9.0` is a binary floating-point number. It is modelled as the exact rational 1/9. For the same reason TotalPercentageOfPlatePool is about exact sums, not float sums.
- The rest of the integration test is not modelled: the other process-creation helpers, the two workflows, and the expected sample-sheet patterns. Their behaviour lives in `labman.db.process`, `composition`, `plate` and `container`, which are not part of this model.
- labman/db/equipment.py and labman/db/reagent.py are not modelled; they are thin SQL wrappers. The same goes for their database-fixture tests and test_container.py.
- The gDNA extraction HTTP handler is not modelled. Its GET formats dates as year/month/day, but its POST parses month/day/year.
- The web server's routes are not modelled, and neither is the plate handler that returns a fixed 8 × 12 layout for plate 1.

## Findings

| source | as written | input that shows it | evidently intended | confidence | as-written member | corrected member |
|---|---|---|---|---|---|---|
| labman/gui/static/js/plateViewer.js:151-158 | a trailing 'Z' carries into the letter before it only, and nextLetter turns a second 'Z' into 'A' without carrying further | "AZZ" gives "AAA" (row 1379 repeats row 703's label) | "BAA": carry through every trailing 'Z', as a bijective base-26 increment | high; not executed | RowLabels.FormatRowIdDropsSecondCarry | RowLabels.Successor |

The viewer's row-label loop (`InitializeRowLabels`) keeps the formula as
written. `FormatRowIdIsSuccessorIff` states exactly which labels it gets
wrong. `RowLabelIsNumeral` shows that every plate up to 702 rows gets the
corrected labels. The first wrong label needs 1379 rows.
