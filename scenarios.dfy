/** Small puzzles whose outcome follows from the contracts of the solver:
    whatever engine decides the grids of the right shape, the answer is the
    one stated here. */
module Scenarios {
  import opened Lines
  import opened Placements
  import opened Store
  import opened Nonogram

  /** A one-cell line spells `[1]` iff its cell is filled. */
  lemma OneCellLine(line: seq<bool>)
    requires |line| == 1
    ensures Runs(line) == [1] <==> line == [true]
  {
    if line[0] {
      assert line == [true];
      assert LeadingRun(line) == 1;
      assert line[1..] == [];
    } else {
      assert line[1..] == [];
    }
  }

  /** The 1 by 1 puzzle with clue `[1]` both ways has the filled cell as its
      only solution. */
  lemma SingleFilledCell(g: Grid)
    ensures Solves(g, [[1]], [[1]]) <==> g == [[true]]
  {
    SolvesIffMatchesClues(g, [[1]], [[1]]);
    if IsGrid(g, 1, 1) {
      assert Column(g, 0) == g[0];
      OneCellLine(g[0]);
      assert g == [g[0]];
    }
    if g == [[true]] {
      OneCellLine([true]);
      assert Column(g, 0) == [true];
    }
  }

  /** The 2 by 2 puzzle with empty clues everywhere has the blank grid as its
      only solution. */
  lemma BlankTwoByTwo(g: Grid)
    ensures Solves(g, [[], []], [[], []]) <==> g == [Blank(2), Blank(2)]
  {
    SolvesIffMatchesClues(g, [[], []], [[], []]);
    if IsGrid(g, 2, 2) {
      RunsEmptyIffBlank(g[0]);
      RunsEmptyIffBlank(g[1]);
      RunsEmptyIffBlank(Column(g, 0));
      RunsEmptyIffBlank(Column(g, 1));
      if g[0] == Blank(2) && g[1] == Blank(2) {
        assert Column(g, 0) == Blank(2);
        assert Column(g, 1) == Blank(2);
      }
      assert g == [g[0], g[1]];
    }
  }

  /** A block of two cells cannot fit in a line of one. */
  lemma BlockLongerThanLine(g: Grid)
    ensures !Solves(g, [[2]], [[1]])
  {
    assert MinLength([2]) == 2 by { assert Sum([2]) == 2 + Sum([]); }
    FeasibleIffFits([2], 1);
    if IsGrid(g, 1, 1) {
      assert g[0] !in LinePatterns([[2]][0], |[[1]]|);
    }
  }

  method SolveSingleFilledCell(engine: Engine) returns (outcome: Outcome)
    requires Decides(engine, 1, 1)
    ensures outcome == Solved([[true]], Unique)
  {
    outcome := SolveNonogram([[1]], [[1]], true, engine);
    SingleFilledCell([[true]]);
    SingleFilledCell(outcome.grid);
    forall g | Solves(g, [[1]], [[1]]) ensures g == [[true]] {
      SingleFilledCell(g);
    }
  }

  method SolveBlankTwoByTwo(engine: Engine) returns (outcome: Outcome)
    requires Decides(engine, 2, 2)
    ensures outcome == Solved([Blank(2), Blank(2)], Unique)
  {
    outcome := SolveNonogram([[], []], [[], []], true, engine);
    BlankTwoByTwo([Blank(2), Blank(2)]);
    BlankTwoByTwo(outcome.grid);
    forall g | Solves(g, [[], []], [[], []]) ensures g == [Blank(2), Blank(2)] {
      BlankTwoByTwo(g);
    }
  }

  method SolveBlockLongerThanLine(engine: Engine) returns (outcome: Outcome)
    requires Decides(engine, 1, 1)
    ensures outcome == NoSolution
  {
    outcome := SolveNonogram([[2]], [[1]], true, engine);
    forall g ensures !Solves(g, [[2]], [[1]]) {
      BlockLongerThanLine(g);
    }
  }
}
