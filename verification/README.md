# puzzlepull grid reconstruction, modelled in Dafny

puzzlepull turns the entry list of a Guardian crossword into the grids and
clue lists of an ipuz v2 document. This project models the part with real
logic:

- `make_blank_puzzle` builds an all-black grid.
- `get_solution` writes each entry's answer into a grid. Across answers run
  rightwards and down answers run downwards.
- `get_layout` builds the numbered blank grid in two passes. The across pass
  stamps every entry's number at its start cell and clears every across
  interior to 0, whatever is there. The down pass stamps every number again
  and turns a down interior cell into 0 only while that cell is still black.
- `get_clues` groups `[number, clue]` pairs under "Across" and "Down" in
  input order.

Modules:

- `Grid` (grid.dfy) holds the cells, grids and `MakeBlankPuzzle`.
- `Entries` (entries.dfy) holds the entry record and the cells an entry
  occupies.
- `Solution` (solution.dfy) models `get_solution`.
- `Layout` (layout.dfy) models `get_layout`.
- `Clues` (clues.dfy) models `get_clues`.
- `Agreement` (agreement.dfy) relates the two grids.
- `Scenarios` (scenarios.dfy) holds worked examples.

A cell is `Black` ("#"), `Empty` (0), `Num(n)` (a clue number) or
`Letter(c)` (a solved letter). A grid is `seq<seq<Cell>>` indexed
`[row][column]`. Each loop over the entries is a fold that still handles
the first entry first. Every grid operation has a reference definition
that needs no grid:

- `SolutionRef`: a cell holds the letter of the last entry whose answer
  covers it, or is black.
- `LayoutRef`: a cell holds the number of the last entry starting there.
  Failing that, it is 0 if it lies inside some across or down entry, and
  black otherwise.

The lemmas prove that the builders agree with these references at every
cell. The listed properties are then derived from them.

The builders are generic in the grid's height and width. `GetSolution` and
`GetLayout` pin both to 15, as the source does. `GetSolutionSized` and
`GetLayoutSized` use the declared dimensions (see Findings).

Preconditions take the place of Python's slice behaviour:

- `Entries.Fits` asks that the start cell is inside the grid, that
  `length >= 1`, and that an across (down) span ends inside its row
  (column).
- `Entries.Spelled` asks that `|solution| == length`.
- The layout needs `Fits` for every entry.
- The solution needs `Fits` and `Spelled` for across and down entries only.
  Entries of any other direction are never written.

Direction tests differ between the builders and the clue index:

- The grid builders compare the direction exactly with "across" and "down".
- `get_clues` capitalises it, so it files an "ACROSS" entry under
  "Across" (`Clues.LabelIgnoresCase`). The solution grid skips that entry.
  The layout only stamps its number at its start cell and leaves the rest
  of its span black (`Layout.UnknownDirectionOnlyStamps`).

Start numbers are safe only in the final layout. The across pass can
overwrite the number of an earlier-listed entry that starts inside an
across span with 0. The down pass stamps every number again, which restores
it (`Scenarios.ClobberedStartRestored`). This is why
`Layout.DownPassFillsOnlyBlack`, which holds for any grid, speaks only of
cells where no entry starts. Run on the across pass's own result, the down
pass never changes a number anywhere (`Layout.DownPassKeepsNumbers`).

## Model

| member | source | states |
|---|---|---|
| Grid.MakeBlankPuzzle | puzzlepull/__init__.py:14-19 | exactly `height` rows of exactly `width` cells, every cell black; a negative count gives no rows or empty rows |
| Solution.WriteColumn | puzzlepull/__init__.py:36-37 | a down answer puts letter `n` in row `y+n` of its column; every other cell is unchanged |
| Solution.WriteEntry | puzzlepull/__init__.py:28-37 | an across entry sets `(y, x+n)` to `solution[n]` and a down entry sets `(y+n, x)` to `solution[n]`; other cells are unchanged, and an entry of any other direction changes nothing |
| Solution.FillCell | puzzlepull/__init__.py:28-37 | after the loop over the entries, each cell holds the letter of the last entry, in list order, whose answer covers it, or black if none does |
| Solution.GetSolution | puzzlepull/__init__.py:23-39 | always a 15 x 15 grid, whatever width and height are passed; every cell equals the last-writer reference |
| Solution.LastWriterWins | puzzlepull/__init__.py:28-37 | if entry k covers a cell and no later entry does, the cell holds entry k's letter |
| Solution.ConsistentAnswersSpelled | puzzlepull/__init__.py:28-37 | when crossing answers agree, every across answer reads left to right from its start and every down answer top to bottom |
| Solution.UncoveredStaysBlack | puzzlepull/__init__.py:25-39 | a cell covered by no entry's answer stays "#" |
| Solution.FillSkipsUnknown | puzzlepull/__init__.py:33-35 | the loop gives the same grid with or without an entry of unknown direction, wherever it stands |
| Solution.UnknownDirectionIgnored | puzzlepull/__init__.py:33-35 | removing an entry that is neither across nor down leaves the solution grid unchanged |
| Solution.ThirteenDeclaredFifteenBuilt | puzzlepull/__init__.py:23-25 | a puzzle declared 13 x 13 gets a grid of 15 rows whose last row is all black |
| Solution.GetSolutionSized | puzzlepull/__init__.py:23-39 | corrected builder: a `height` x `width` grid, every cell equal to the last-writer reference |
| Solution.SizedAgreesOnFifteen | puzzlepull/__init__.py:25 | on 15 x 15 the corrected builder equals the original one |
| Layout.AcrossStep | puzzlepull/__init__.py:48-55 | stamps the entry's number at its start; an across entry sets its other cells to 0 whatever they held; nothing else changes |
| Layout.AcrossPassCell | puzzlepull/__init__.py:48-55 | after the across pass a cell holds what the last entry touching it left: that entry's number at its start, or 0 inside an across span; untouched cells keep their value |
| Layout.ClearColumn | puzzlepull/__init__.py:65-67 | a cell in the cleared run becomes 0 exactly when it was black; every other cell is unchanged |
| Layout.DownStep | puzzlepull/__init__.py:58-67 | stamps the entry's number at its start; a down entry turns only its still-black cells below the start into 0 |
| Layout.DownPassCell | puzzlepull/__init__.py:58-67 | after the down pass a start cell holds the number of the last entry starting there; any other cell keeps its value, except that a black cell inside a down entry becomes 0 |
| Layout.LayoutCell | puzzlepull/__init__.py:43-69 | the two passes from an all-black grid give, at each cell, the last starting entry's number, else 0 inside any across or down entry, else black |
| Layout.GetLayout | puzzlepull/__init__.py:43-69 | always a 15 x 15 grid, whatever width and height are passed; every cell equals the layout reference |
| Layout.StartCellsNumbered | puzzlepull/__init__.py:58-67 | every entry's start cell holds a clue number, never "#" and never 0; it is the number of the last entry, in list order, starting there |
| Layout.InteriorsNeverBlack | puzzlepull/__init__.py:54-67 | no interior cell of an across or down entry is "#"; where no entry starts it is 0 |
| Layout.UntouchedStaysBlack | puzzlepull/__init__.py:44-69 | a cell that is no entry's start and lies inside no across or down entry stays "#" |
| Layout.DownPassFillsOnlyBlack | puzzlepull/__init__.py:64-67 | at a cell where no entry starts, the down pass leaves a 0 or a number untouched and can only turn "#" into 0 |
| Layout.DownPassKeepsNumbers | puzzlepull/__init__.py:47-67 | after the across pass from an all-black grid, the down pass leaves every number untouched, and a 0 changes only at a start cell |
| Layout.UnknownDirectionOnlyStamps | puzzlepull/__init__.py:53-64 | an entry of unknown direction changes no layout cell except its own start cell |
| Layout.ThirteenDeclaredFifteenLaidOut | puzzlepull/__init__.py:43-44 | a puzzle declared 13 x 13 gets a layout of 15 rows whose last row is all black |
| Layout.GetLayoutSized | puzzlepull/__init__.py:43-69 | corrected builder: a `height` x `width` grid, every cell equal to the layout reference |
| Layout.SizedLayoutAgreesOnFifteen | puzzlepull/__init__.py:44 | on 15 x 15 the corrected builder equals the original one |
| Clues.GetClues | puzzlepull/__init__.py:73-87 | succeeds exactly when every capitalised direction is "Across" or "Down"; then both keys are present, even with an empty list, and each list holds the `[number, clue]` pairs of its entries in input order; otherwise KeyError names the first bad entry's key |
| Clues.ListedAppend | puzzlepull/__init__.py:79-85 | the list for a direction over two runs of entries is the first run's list followed by the second's, so interleaved entries never reorder it |
| Clues.ListedPartition | puzzlepull/__init__.py:79-85 | when every entry is filed, the two lists together are as long as the entry list |
| Clues.EveryClueListedOnce | puzzlepull/__init__.py:79-85 | a successful index holds one clue per entry across its two lists |
| Clues.CapitalizeIgnoresCase | puzzlepull/__init__.py:85 | two directions get the same key exactly when they agree up to ASCII case |
| Clues.LabelIgnoresCase | puzzlepull/__init__.py:85 | an entry is filed under "Across" exactly when its direction reads "across" in any case, and likewise for "Down"; exact "across"/"down" entries are always filed |
| Agreement.BlackSquaresAgree | puzzlepull/__init__.py:23-69 | for well-formed across/down entries, a cell is "#" in the layout exactly when it is "#" in the solution |
| Scenarios.SingleAcrossLayout | puzzlepull/__init__.py:43-69 | a lone across entry CAT at (0,0) gives layout row 1, 0, 0, with every other cell black |
| Scenarios.SingleAcrossSolutionRow | puzzlepull/__init__.py:23-39 | the same entry gives solution row C, A, T |
| Scenarios.SingleAcrossSolution | puzzlepull/__init__.py:23-39 | the same entry leaves every solution cell outside its span black |
| Scenarios.SingleAcrossClues | puzzlepull/__init__.py:73-87 | the same entry gives the index {"Across": [[1, "Feline"]], "Down": []} |
| Scenarios.SharedStart | puzzlepull/__init__.py:23-69 | an across and a down entry sharing their start cell leave their letter and their number there, and 0 below it |
| Scenarios.ClobberedStartRestored | puzzlepull/__init__.py:48-67 | a down entry starting inside a later-listed across entry has its number overwritten by 0 in the across pass, and the down pass stamps it back |

## Left out

- `get_guardian_puzzle` and the module-level HTTP client are left out. They cover HTTP fetching, status handling, HTML extraction, JSON decoding, date formatting and file writing, which is all I/O.
- puzzlepull/gnome.py (the sqlite cache, manifests and resource compiler) and puzzlepull/__main__.py (the Flask endpoint) are left out for the same reason.
- Python's resizing slice assignment and negative indexing are not modelled. `Entries.Fits` and `Entries.Spelled` exclude every input that would trigger them.
- The IndexError cases are not modelled as failures; `Entries.Fits` and `Entries.Spelled` exclude them instead. These are a start cell outside the grid (lines 34, 53 and 63), a down span past the last row (lines 37 and 66) and a down answer shorter than its length (line 37).
- Solution.Writable: asks `|solution| == length` of down entries too. The source's down loop would silently ignore extra letters, but an across entry with extra letters would resize its row.
- Entries with `length <= 0` are not modelled; `Entries.Fits` asks for `length >= 1`, as entry lengths are positive. The source would accept them without error: the across slice (line 55) and the down ranges (lines 36 and 65) are then empty, so such an entry only stamps its number in the layout.
- Missing JSON fields are not modelled. `Entry` always carries every field.
- Clues.Capitalize: maps case for ASCII letters only. Python's `str.capitalize` applies Unicode title-case and lower-case mappings.
- The ipuz serialisation is not modelled. A clue number 0 would be written like the empty cell 0, and a letter "#" like a block. The model keeps them apart as `Num(0)` and `Letter('#')`.
- Idempotence is not a separate lemma. Every operation is a pure function of its inputs, so two runs on the same entries give equal grids by construction.

## Findings

| source | as written | input that shows it | evidently intended | confidence | as-written member | corrected member |
|---|---|---|---|---|---|---|
| puzzlepull/__init__.py:25 | `get_solution` builds `make_blank_puzzle(15, 15)` and ignores its `width` and `height` arguments | a quick crossword with declared dimensions 13 x 13 (the batch script puzzlepull/gnome.py fetches quick crosswords) gives a 15-row solution grid whose last row is all black, while the document declares 13 x 13 | `make_blank_puzzle(width, height)` | medium, not executed | Solution.ThirteenDeclaredFifteenBuilt | Solution.GetSolutionSized |
| puzzlepull/__init__.py:44 | `get_layout` builds `make_blank_puzzle(15, 15)` and ignores its `width` and `height` arguments | the same 13 x 13 puzzle gives a 15-row layout grid whose last row is all black, disagreeing with the declared dimensions | `make_blank_puzzle(width, height)` | medium, not executed | Layout.ThirteenDeclaredFifteenLaidOut | Layout.GetLayoutSized |
