# Nonogram constraint encoding and solving, in Dafny

This project models the core of `zogram.py`, a nonogram solver.

- A nonogram is an N by M grid of cells, each filled or blank.
- Each row and each column has a clue: the lengths of its runs of filled cells, left to right (or top to bottom).
- The program creates one Boolean variable per cell.
- For every line, it enumerates each way of placing the clue's blocks (the "placements").
- It adds to the solver the disjunction of the placements' bitmaps (an empty clue gives the all-blank line; a clue that cannot fit gives `False`).
- It asks the solver for a model.
- If uniqueness is requested, it adds a blocking clause ("some cell differs from this model") and asks again: "unsatisfiable" means the solution is unique.

Layout:

- `lines.dfy` (module `Lines`) defines clues, and `Runs`, which decodes a line into the clue it spells. `Runs` is the independent reference the encoder is proved against.
- `placements.dfy` (module `Placements`) holds the placement search:
  - `Enumerate` is the search written as a function.
  - `GeneratePlacements` is the recursive method with its loop over start positions.
  - `FillBitmap` fills an array cell by cell.
  - The lemmas prove the search sound, complete and exact against `Runs`.
- `store.dfy` (module `Store`) holds formulas as data, their meaning over a grid, and the solver object:
  - The solver is a `class` whose formula list `Add` appends to.
  - `Check` asks an engine for a model.
  - The engine is a function parameter that must decide satisfiability correctly for grids of the puzzle's shape.
- `nonogram.dfy` (module `Nonogram`) holds:
  - the per-line encoder and the row/column projection;
  - the blocking clause;
  - `SolveNonogram`, with the three outcomes: no solution, unique, not unique.
- `scenarios.dfy` (module `Scenarios`) proves the outcome of three small puzzles for any correct engine.

## Model

| member | source | states |
|---|---|---|
| Placements.FillBitmap | zogram.py:38-41 | Returns `Bitmap(clue, starts, L)`: L cells, where cell j is filled iff some block k covers it (`starts[k] <= j < starts[k] + clue[k]`). Every array write is in bounds because each block ends inside the line. |
| Placements.GeneratePlacements | zogram.py:36-59 | Appends to the accumulated list, in search order, the bitmap of every placement the search reaches from block k with the cursor at pos. |
| Placements.EnumerateExactly | zogram.py:50-57 | Bounding each start by `max_start` loses no placement and admits no invalid one. The search yields a start list iff it has one start per block, every block ends within the line, and each block starts at least one blank after the previous one ends. |
| Placements.EnumerateSound | zogram.py:50-57 | Every start list the search reaches from block k extends the fixed prefix and places the remaining blocks in order, each at or after the cursor and inside the line. |
| Placements.EnumerateComplete | zogram.py:50-57 | Every valid placement of the remaining blocks from the cursor is reached by the search. |
| Placements.PatternsSpellClue | zogram.py:30-59 | For a clue of positive blocks, every allowed bitmap has the line's length and its runs are exactly the clue. |
| Placements.ClueLinesArePatterns | zogram.py:30-59 | Every line of length L whose runs are the clue is among the allowed bitmaps (completeness). |
| Placements.LinePatternsExactly | zogram.py:30-59 | For positive blocks, a line is an allowed bitmap iff it has length L and spells the clue. |
| Placements.EmptyClueAllBlank | zogram.py:30-32 | The empty clue admits the line iff it has length L and every cell is blank. |
| Placements.FeasibleIffFits | zogram.py:50-64 | For a non-empty clue, some bitmap exists iff blocks plus one separator between each pair fit in L. Otherwise there is none, and the line formula is the constant false. |
| Placements.ZeroSlackSinglePattern | zogram.py:50-57 | When the clue fills the line exactly, the search yields exactly one placement. |
| Store.SatisfiesAllAppend | zogram.py:115 | After adding a formula, the satisfying grids are exactly the previous ones that also satisfy the new formula. |
| Store.Solver.constructor | zogram.py:86 | A fresh solver holds no formula. |
| Store.Solver.Add | zogram.py:62 | Adding appends the formula to the store and changes nothing else. |
| Store.Solver.Check | zogram.py:95-97 | Returns a model iff some n by m grid satisfies every formula added so far. A returned model is such a grid. |
| Nonogram.BuildLineConstraint | zogram.py:30-64 | The line formula is the disjunction of the allowed bitmaps over the line's variables. For positive blocks, its patterns are exactly the lines of that length that spell the clue. |
| Nonogram.AddLineConstraints | zogram.py:7-28 | "row" adds one formula per row and "col" one per column, in line order, over that line's variables. Any other orientation is an error that adds nothing. |
| Nonogram.LineFormulaMeaning | zogram.py:25-28 | The formula over line i's variables holds for a grid iff row i (or column i: the i-th cell of every row) of that grid is one of its patterns. |
| Nonogram.PuzzleFormulasMeaning | zogram.py:85-89 | A grid satisfies all row and column formulas iff every row and every column is an allowed bitmap of its clue. |
| Nonogram.BlockingClauseMeaning | zogram.py:112-114 | The blocking clause holds for a grid of the puzzle's shape iff that grid differs from the model in at least one cell. |
| Nonogram.SolvesIffMatchesClues | zogram.py:88-89 | For positive blocks, a grid satisfies the encoding iff each row and each column spells its clue. |
| Nonogram.SolveNonogram | zogram.py:66-125 | Outcomes:<br>- Empty row or column clue lists are rejected, and only they are.<br>- "No solution" iff no grid satisfies the encoding.<br>- A returned grid satisfies it.<br>- Uniqueness is not checked iff the caller turned it off.<br>- When checked, "unique" iff every grid satisfying the encoding is the returned one. |
| Scenarios.SingleFilledCell | zogram.py:66-125 | A 1 by 1 puzzle with clue `[1]` both ways is solved by the filled cell and by no other grid. |
| Scenarios.BlankTwoByTwo | zogram.py:66-125 | A 2 by 2 puzzle with all clues empty is solved by the blank grid and by no other grid. |
| Scenarios.BlockLongerThanLine | zogram.py:50-64 | A block of 2 in a 1-cell line leaves no grid. |
| Scenarios.SolveSingleFilledCell | zogram.py:66-125 | Solving the 1 by 1 `[1]` puzzle yields the filled cell, classified unique. |
| Scenarios.SolveBlankTwoByTwo | zogram.py:66-125 | Solving the 2 by 2 empty-clue puzzle yields the blank grid, classified unique. |
| Scenarios.SolveBlockLongerThanLine | zogram.py:66-125 | Solving the 1 by 1 puzzle with row clue `[2]` reports no solution. |

## Left out

- The satisfiability engine (z3) is not modelled. It is a parameter assumed to decide satisfiability correctly for n by m grids.
- z3's third answer, "unknown", is not modelled: the engine always decides. In zogram.py an "unknown" on the first query is reported as "no solution" (lines 95 and 124-125), and an "unknown" on the blocking-clause query is reported as "UNIQUE" (lines 117-120). In that case `SolveNonogram`'s `Unique` promises more than zogram.py does.
- Formulas are data (`OneOf`, `Differs`) with a meaning over grids, not solver terms. The pattern `And` and the line `Or` are represented by the list of bitmaps they combine.
- Rendering is not modelled: the 0/255 matrix, PIL resize and save, `img.show()`, and the `filename` and `scale` parameters.
- The status messages printed to the terminal are not modelled. The outcome is returned as a value (`Outcome`) instead.
- The 11 by 8 checkmark puzzle run by the `__main__` block is not modelled. Proving its uniqueness is a large enumeration out of proportion to the rest of the model.
- The `ValueError` raised for a bad orientation is modelled as the result `OrientationError`, not as an exception.
- The nested function's captured list `possible_placements` is modelled as a sequence threaded in and out of `GeneratePlacements`.
- Negative block lengths are not modelled: a clue is a sequence of naturals.
- Placements.LinePatternsExactly: requires positive block lengths. The encoder accepts a zero-length block: it fills no cell but still needs its separating blank (the clue `[1, 0]` on 2 cells allows `[true, false]` only, not `[false, true]`). A line allowed by such a clue therefore does not "spell" it. The same applies to PatternsSpellClue, BuildLineConstraint's second ensures and SolvesIffMatchesClues.
- Nonogram.AddLineConstraints: requires a rectangular grid and at least as many clues as lines. Otherwise zogram.py would raise `IndexError`, but its only caller, `solve_nonogram`, builds an N by M grid from N row clues and M column clues.
- Nonogram.AddLineConstraints: lines with no cells (such as the grid `[[]]` with "row") are not modelled faithfully. zogram.py then builds z3's `And([])`, which raises, while the model adds a formula that always holds. `solve_nonogram` rejects N == 0 and M == 0 first (lines 81-83), so it never makes such a call.
- Nonogram.BuildLineConstraint: uses the number of line variables as the line length. In zogram.py they are equal, because the grid is rectangular.
