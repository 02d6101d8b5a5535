/** Line constraints for a whole grid and the solve / uniqueness protocol.

    The grid holds one decision variable per cell.  Every row and every
    column contributes one formula, "this line equals one of its allowed
    bitmaps"; the solver is asked for a model; when uniqueness is wanted,
    a blocking clause "some cell differs from the model" is added and the
    solver is asked again. */
module Nonogram {
  import opened Lines
  import opened Placements
  import opened Store

  datatype Axis = Rows | Columns

  /** The orientation argument of the line encoder: `"row"` or `"col"`. */
  function ParseOrientation(orientation: string): Option<Axis> {
    if orientation == "row" then Some(Rows)
    else if orientation == "col" then Some(Columns)
    else None
  }

  predicate Rectangular<T>(grid: seq<seq<T>>) {
    forall r :: 0 <= r < |grid| ==> |grid[r]| == |grid[0]|
  }

  /** Number of lines along an axis, as the encoder derives it. */
  function NumLines<T>(grid: seq<seq<T>>, axis: Axis): nat {
    match axis
    case Rows => |grid|
    case Columns => if |grid| > 0 then |grid[0]| else 0
  }

  /** Cells per line along an axis, as the encoder derives it. */
  function LineLength<T>(grid: seq<seq<T>>, axis: Axis): nat {
    match axis
    case Rows => if |grid| > 0 then |grid[0]| else 0
    case Columns => |grid|
  }

  /** Column `j`: the `j`-th cell of every row, top to bottom. */
  function Column<T>(grid: seq<seq<T>>, j: nat): seq<T>
    requires forall r :: 0 <= r < |grid| ==> j < |grid[r]|
  {
    seq(|grid|, r requires 0 <= r < |grid| => grid[r][j])
  }

  /** Line `i` along an axis: row `i` is `grid[i]`, column `i` is the
      column projection. */
  function Line<T>(grid: seq<seq<T>>, axis: Axis, i: nat): seq<T>
    requires Rectangular(grid) && i < NumLines(grid, axis)
  {
    match axis
    case Rows => grid[i]
    case Columns => Column(grid, i)
  }

  /** The `n` by `m` grid of decision variables. */
  function PixelGrid(n: nat, m: nat): seq<seq<Var>> {
    seq(n, r requires 0 <= r < n => seq(m, c requires 0 <= c < m => Pixel(r, c)))
  }

  /** The formula the encoder adds for each line along `axis`, in order. */
  ghost function LineFormulas(allClues: seq<Clue>, grid: seq<seq<Var>>, axis: Axis): seq<Formula>
    requires Rectangular(grid) && NumLines(grid, axis) <= |allClues|
  {
    seq(NumLines(grid, axis), i requires 0 <= i < NumLines(grid, axis) =>
      OneOf(Line(grid, axis, i), LinePatterns(allClues[i], LineLength(grid, axis))))
  }

  /** Encodes one line: the all-blank conjunction for the empty clue,
      otherwise the disjunction of the bitmaps of every placement (the
      constant false when there is none).  The line formula admits exactly
      the lines that spell the clue. */
  method BuildLineConstraint(clue: Clue, lineVars: seq<Var>) returns (f: Formula)
    ensures f == OneOf(lineVars, LinePatterns(clue, |lineVars|))
    ensures Positive(clue) ==>
      forall line :: line in f.patterns <==> |line| == |lineVars| && Runs(line) == clue
  {
    if clue == [] {
      f := OneOf(lineVars, [Blank(|lineVars|)]);
    } else {
      var possiblePlacements := GeneratePlacements(clue, |lineVars|, 0, 0, [], []);
      f := OneOf(lineVars, possiblePlacements);
    }
    if Positive(clue) {
      forall line
        ensures line in f.patterns <==> |line| == |lineVars| && Runs(line) == clue
      {
        LinePatternsExactly(clue, |lineVars|, line);
      }
    }
  }

  datatype Status = Done | OrientationError(message: string)

  /** Adds one formula per row (`"row"`) or per column (`"col"`) to the
      solver, in line order; any other orientation is an error and adds
      nothing. */
  method AddLineConstraints(solver: Solver, allClues: seq<Clue>, grid: seq<seq<Var>>, orientation: string)
    returns (status: Status)
    requires Rectangular(grid)
    requires ParseOrientation(orientation).Some? ==>
      NumLines(grid, ParseOrientation(orientation).value) <= |allClues|
    modifies solver
    ensures status.OrientationError? <==> ParseOrientation(orientation).None?
    ensures status.OrientationError? ==> solver.constraints == old(solver.constraints)
    ensures status == Done ==>
      solver.constraints == old(solver.constraints)
        + LineFormulas(allClues, grid, ParseOrientation(orientation).value)
  {
    var numLines, lineLength;
    if orientation == "row" {
      numLines := |grid|;
      lineLength := if numLines > 0 then |grid[0]| else 0;
    } else if orientation == "col" {
      numLines := if |grid| > 0 then |grid[0]| else 0;
      lineLength := |grid|;
    } else {
      return OrientationError("Orientation must be 'row' or 'col'");
    }
    ghost var axis := ParseOrientation(orientation).value;
    ghost var formulas := LineFormulas(allClues, grid, axis);
    for i := 0 to numLines
      invariant solver.constraints == old(solver.constraints) + formulas[..i]
    {
      var clues := allClues[i];
      var lineVars;
      if orientation == "row" {
        lineVars := grid[i];
      } else {
        lineVars := seq(lineLength, r requires 0 <= r < lineLength => grid[r][i]);
      }
      assert lineVars == Line(grid, axis, i);
      var f := BuildLineConstraint(clues, lineVars);
      solver.Add(f);
      assert formulas[..i + 1] == formulas[..i] + [f];
    }
    assert formulas[..numLines] == formulas;
    return Done;
  }

  /** Python's `for row in grid for var in row`. */
  function Flatten<T>(rows: seq<seq<T>>): seq<T> {
    if rows == [] then [] else rows[0] + Flatten(rows[1..])
  }

  /** `model[var]`: the value the model gives a variable. */
  function ValueIn(model: Grid, v: Var): bool {
    if Assigns(model, v) then model[v.row][v.col] else false
  }

  /** "Some variable of the grid differs from its value in the model." */
  function BlockingClause(grid: seq<seq<Var>>, model: Grid): Formula {
    var vars := Flatten(grid);
    Differs(seq(|vars|, j requires 0 <= j < |vars| => (vars[j], ValueIn(model, vars[j]))))
  }

  datatype Uniqueness = Unique | NotUnique | NotChecked

  /** Result of one solve: the clue lists were empty, no grid meets the
      clues, or a solution with its uniqueness classification. */
  datatype Outcome = EmptyClues | NoSolution | Solved(grid: Grid, uniqueness: Uniqueness)

  /** `g` meets every row and column constraint of the puzzle. */
  ghost predicate Solves(g: Grid, rowClues: seq<Clue>, columnClues: seq<Clue>) {
    && IsGrid(g, |rowClues|, |columnClues|)
    && (forall i :: 0 <= i < |rowClues| ==> g[i] in LinePatterns(rowClues[i], |columnClues|))
    && (forall j :: 0 <= j < |columnClues| ==> Column(g, j) in LinePatterns(columnClues[j], |rowClues|))
  }

  /** The puzzle read directly: every row and column spells its clue. */
  ghost predicate MatchesClues(g: Grid, rowClues: seq<Clue>, columnClues: seq<Clue>) {
    && IsGrid(g, |rowClues|, |columnClues|)
    && (forall i :: 0 <= i < |rowClues| ==> Runs(g[i]) == rowClues[i])
    && (forall j :: 0 <= j < |columnClues| ==> Runs(Column(g, j)) == columnClues[j])
  }

  /** Everything the encoder adds for the puzzle: the row formulas, then the
      column formulas. */
  ghost function PuzzleFormulas(rowClues: seq<Clue>, columnClues: seq<Clue>): seq<Formula>
    requires |rowClues| > 0
  {
    var grid := PixelGrid(|rowClues|, |columnClues|);
    LineFormulas(rowClues, grid, Rows) + LineFormulas(columnClues, grid, Columns)
  }

  /** Solves the puzzle with the given engine and, if asked, checks that the
      solution is the only one with a blocking clause and a second query. */
  method SolveNonogram(rowClues: seq<Clue>, columnClues: seq<Clue>, checkUniqueness: bool, engine: Engine)
    returns (outcome: Outcome)
    requires Decides(engine, |rowClues|, |columnClues|)
    ensures outcome == EmptyClues <==> |rowClues| == 0 || |columnClues| == 0
    ensures outcome == NoSolution <==>
      |rowClues| > 0 && |columnClues| > 0 && !exists g :: Solves(g, rowClues, columnClues)
    ensures outcome.Solved? ==> Solves(outcome.grid, rowClues, columnClues)
    ensures outcome.Solved? ==> (outcome.uniqueness == NotChecked <==> !checkUniqueness)
    ensures outcome.Solved? && checkUniqueness ==>
      (outcome.uniqueness == Unique <==>
         forall g :: Solves(g, rowClues, columnClues) ==> g == outcome.grid)
  {
    var n := |rowClues|;
    var m := |columnClues|;
    if n == 0 || m == 0 {
      return EmptyClues;
    }
    var grid := PixelGrid(n, m);
    var solver := new Solver();
    var status := AddLineConstraints(solver, rowClues, grid, "row");
    status := AddLineConstraints(solver, columnClues, grid, "col");
    ghost var puzzle := solver.constraints;
    assert puzzle == PuzzleFormulas(rowClues, columnClues);

    var model := solver.Check(engine, n, m);
    if model.None? {
      forall g | IsGrid(g, n, m)
        ensures !Solves(g, rowClues, columnClues)
      {
        PuzzleFormulasMeaning(g, rowClues, columnClues);
      }
      return NoSolution;
    }
    var solution := model.value;
    PuzzleFormulasMeaning(solution, rowClues, columnClues);

    var uniqueness := NotChecked;
    if checkUniqueness {
      var blockingClause := BlockingClause(grid, solution);
      solver.Add(blockingClause);
      var second := solver.Check(engine, n, m);
      if second.Some? {
        var other := second.value;
        SatisfiesAllAppend(other, puzzle, blockingClause);
        PuzzleFormulasMeaning(other, rowClues, columnClues);
        BlockingClauseMeaning(other, solution, n, m);
        uniqueness := NotUnique;
      } else {
        forall g | Solves(g, rowClues, columnClues)
          ensures g == solution
        {
          SatisfiesAllAppend(g, puzzle, blockingClause);
          PuzzleFormulasMeaning(g, rowClues, columnClues);
          BlockingClauseMeaning(g, solution, n, m);
        }
        uniqueness := Unique;
      }
    }
    return Solved(solution, uniqueness);
  }

  // ---------------------------------------------------------------------
  // What the formulas mean.

  /** A line formula over the variables of line `i` of the pixel grid holds
      for `g` iff line `i` of `g` is one of its patterns. */
  lemma LineFormulaMeaning(g: Grid, n: nat, m: nat, axis: Axis, i: nat, patterns: seq<seq<bool>>)
    requires IsGrid(g, n, m) && n > 0
    requires i < NumLines(PixelGrid(n, m), axis)
    ensures Rectangular(g) && i < NumLines(g, axis)
    ensures Satisfies(g, OneOf(Line(PixelGrid(n, m), axis, i), patterns)) <==> Line(g, axis, i) in patterns
  {
    var vars := Line(PixelGrid(n, m), axis, i);
    var line := Line(g, axis, i);
    assert |vars| == |line|;
    assert forall j :: 0 <= j < |vars| ==> Assigns(g, vars[j]) && g[vars[j].row][vars[j].col] == line[j];
    forall p | p in patterns
      ensures Matches(g, vars, p) <==> p == line
    {
      if Matches(g, vars, p) {
        assert forall j :: 0 <= j < |p| ==> p[j] == line[j];
      }
    }
  }

  /** A grid meets everything the encoder adds iff it solves the puzzle. */
  lemma PuzzleFormulasMeaning(g: Grid, rowClues: seq<Clue>, columnClues: seq<Clue>)
    requires |rowClues| > 0 && IsGrid(g, |rowClues|, |columnClues|)
    ensures SatisfiesAll(g, PuzzleFormulas(rowClues, columnClues)) <==> Solves(g, rowClues, columnClues)
  {
    var n, m := |rowClues|, |columnClues|;
    var grid := PixelGrid(n, m);
    var rows := LineFormulas(rowClues, grid, Rows);
    var cols := LineFormulas(columnClues, grid, Columns);
    var all := PuzzleFormulas(rowClues, columnClues);
    forall i | 0 <= i < n
      ensures Satisfies(g, all[i]) <==> g[i] in LinePatterns(rowClues[i], m)
    {
      assert all[i] == rows[i];
      LineFormulaMeaning(g, n, m, Rows, i, LinePatterns(rowClues[i], m));
    }
    forall j | 0 <= j < m
      ensures Satisfies(g, all[n + j]) <==> Column(g, j) in LinePatterns(columnClues[j], n)
    {
      assert all[n + j] == cols[j];
      LineFormulaMeaning(g, n, m, Columns, j, LinePatterns(columnClues[j], n));
    }
    if Solves(g, rowClues, columnClues) {
      forall k | 0 <= k < |all| ensures Satisfies(g, all[k]) {
        if k >= n {
          assert all[n + (k - n)] == all[k];
        }
      }
    }
    if SatisfiesAll(g, all) {
      forall j | 0 <= j < m
        ensures Column(g, j) in LinePatterns(columnClues[j], n)
      {
        assert Satisfies(g, all[n + j]);
      }
    }
  }

  lemma {:induction false} InFlatten<T>(rows: seq<seq<T>>, r: nat, x: T)
    requires r < |rows| && x in rows[r]
    ensures x in Flatten(rows)
    decreases r
  {
    if r > 0 {
      assert rows[1..][r - 1] == rows[r];
      InFlatten(rows[1..], r - 1, x);
    }
  }

  lemma {:induction false} FromFlatten<T>(rows: seq<seq<T>>, x: T)
    requires x in Flatten(rows)
    ensures exists r :: 0 <= r < |rows| && x in rows[r]
    decreases |rows|
  {
    if x !in rows[0] {
      FromFlatten(rows[1..], x);
      var r :| 0 <= r < |rows[1..]| && x in rows[1..][r];
      assert x in rows[r + 1];
    }
  }

  /** The variables of the pixel grid are exactly the pixels inside it. */
  lemma PixelsOfGrid(n: nat, m: nat, v: Var)
    ensures v in Flatten(PixelGrid(n, m)) <==> v.row < n && v.col < m
  {
    var grid := PixelGrid(n, m);
    if v in Flatten(grid) {
      FromFlatten(grid, v);
      var r :| 0 <= r < n && v in grid[r];
    }
    if v.row < n && v.col < m {
      assert grid[v.row][v.col] == v;
      InFlatten(grid, v.row, v);
    }
  }

  /** The blocking clause holds for a grid of the same shape as the model
      iff that grid differs from the model in at least one cell. */
  lemma BlockingClauseMeaning(g: Grid, model: Grid, n: nat, m: nat)
    requires IsGrid(g, n, m) && IsGrid(model, n, m)
    ensures Satisfies(g, BlockingClause(PixelGrid(n, m), model)) <==> g != model
  {
    if Satisfies(g, BlockingClause(PixelGrid(n, m), model)) {
      BlockingClauseDiffers(g, model, n, m);
    }
    if g != model {
      BlockingClauseHolds(g, model, n, m);
    }
  }

  lemma BlockingClauseDiffers(g: Grid, model: Grid, n: nat, m: nat)
    requires IsGrid(g, n, m) && IsGrid(model, n, m)
    requires Satisfies(g, BlockingClause(PixelGrid(n, m), model))
    ensures g != model
  {
    var vars := Flatten(PixelGrid(n, m));
    var literals := BlockingClause(PixelGrid(n, m), model).literals;
    var l :| l in literals && Assigns(g, l.0) && g[l.0.row][l.0.col] != l.1;
    var j :| 0 <= j < |vars| && literals[j] == l;
    PixelsOfGrid(n, m, vars[j]);
    assert g[l.0.row][l.0.col] != model[l.0.row][l.0.col];
  }

  lemma BlockingClauseHolds(g: Grid, model: Grid, n: nat, m: nat)
    requires IsGrid(g, n, m) && IsGrid(model, n, m) && g != model
    ensures Satisfies(g, BlockingClause(PixelGrid(n, m), model))
  {
    var vars := Flatten(PixelGrid(n, m));
    var literals := BlockingClause(PixelGrid(n, m), model).literals;
    var r, c := DifferingCell(g, model, n, m);
    PixelsOfGrid(n, m, Pixel(r, c));
    var j :| 0 <= j < |vars| && vars[j] == Pixel(r, c);
    assert literals[j] == (Pixel(r, c), model[r][c]);
  }

  /** Two different grids of one shape differ in some cell. */
  lemma DifferingCell(g: Grid, model: Grid, n: nat, m: nat) returns (r: nat, c: nat)
    requires IsGrid(g, n, m) && IsGrid(model, n, m) && g != model
    ensures r < n && c < m && g[r][c] != model[r][c]
  {
    r :| 0 <= r < n && g[r] != model[r];
    c :| 0 <= c < m && g[r][c] != model[r][c];
  }

  /** With positive block lengths, solving the encoding is solving the
      puzzle: every row and column spells its clue. */
  lemma SolvesIffMatchesClues(g: Grid, rowClues: seq<Clue>, columnClues: seq<Clue>)
    requires forall i :: 0 <= i < |rowClues| ==> Positive(rowClues[i])
    requires forall j :: 0 <= j < |columnClues| ==> Positive(columnClues[j])
    ensures Solves(g, rowClues, columnClues) <==> MatchesClues(g, rowClues, columnClues)
  {
    if IsGrid(g, |rowClues|, |columnClues|) {
      forall i | 0 <= i < |rowClues|
        ensures g[i] in LinePatterns(rowClues[i], |columnClues|) <==> Runs(g[i]) == rowClues[i]
      {
        LinePatternsExactly(rowClues[i], |columnClues|, g[i]);
      }
      forall j | 0 <= j < |columnClues|
        ensures Column(g, j) in LinePatterns(columnClues[j], |rowClues|) <==> Runs(Column(g, j)) == columnClues[j]
      {
        LinePatternsExactly(columnClues[j], |rowClues|, Column(g, j));
      }
    }
  }
}
