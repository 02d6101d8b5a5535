/** The constraint store: formulas over the grid's decision variables, kept
    as data, and the solver object that accumulates them.

    The satisfiability engine itself is not modelled.  It is an `Engine`: a
    function from the formulas added so far to a model or to "unsatisfiable",
    which `Decides` requires to be right about the grids of a given shape. */
module Store {

  datatype Option<T> = None | Some(value: T)

  /** The decision variable `pixel_r_c` of the cell at row `r`, column `c`. */
  datatype Var = Pixel(row: nat, col: nat)

  /** A truth assignment to the pixel variables, row by row. */
  type Grid = seq<seq<bool>>

  /** Formulas the encoder produces.

      `OneOf(vars, patterns)` is the disjunction, over the patterns, of the
      conjunction of one literal per variable: `vars[j]` if `pattern[j]`,
      its negation otherwise.  With no pattern it is the constant false.

      `Differs(literals)` is the disjunction of `v != b` over its pairs. */
  datatype Formula =
    | OneOf(vars: seq<Var>, patterns: seq<seq<bool>>)
    | Differs(literals: seq<(Var, bool)>)

  predicate IsGrid(g: Grid, n: nat, m: nat) {
    |g| == n && forall r :: 0 <= r < n ==> |g[r]| == m
  }

  predicate Assigns(g: Grid, v: Var) {
    v.row < |g| && v.col < |g[v.row]|
  }

  /** The variables take the values of the pattern, one for one. */
  ghost predicate Matches(g: Grid, vars: seq<Var>, pattern: seq<bool>) {
    && |pattern| == |vars|
    && forall j :: 0 <= j < |vars| ==>
         Assigns(g, vars[j]) && g[vars[j].row][vars[j].col] == pattern[j]
  }

  ghost predicate Satisfies(g: Grid, f: Formula) {
    match f
    case OneOf(vars, patterns) => exists p :: p in patterns && Matches(g, vars, p)
    case Differs(literals) =>
      exists l :: l in literals && Assigns(g, l.0) && g[l.0.row][l.0.col] != l.1
  }

  ghost predicate SatisfiesAll(g: Grid, cs: seq<Formula>) {
    forall i :: 0 <= i < |cs| ==> Satisfies(g, cs[i])
  }

  /** Some `n` by `m` grid meets every formula. */
  ghost predicate Satisfiable(cs: seq<Formula>, n: nat, m: nat) {
    exists g :: IsGrid(g, n, m) && SatisfiesAll(g, cs)
  }

  /** The satisfiability engine: given the formulas added so far, a model or
      `None` for "unsatisfiable". */
  type Engine = seq<Formula> -> Option<Grid>

  /** The engine answers correctly for `n` by `m` grids: every model it
      gives meets the formulas, and it says "unsatisfiable" only when no
      grid does. */
  ghost predicate Decides(engine: Engine, n: nat, m: nat) {
    forall cs :: match engine(cs)
      case Some(g) => IsGrid(g, n, m) && SatisfiesAll(g, cs)
      case None => !Satisfiable(cs, n, m)
  }

  /** Adding one more formula keeps exactly the grids that also meet it. */
  lemma SatisfiesAllAppend(g: Grid, cs: seq<Formula>, f: Formula)
    ensures SatisfiesAll(g, cs + [f]) <==> SatisfiesAll(g, cs) && Satisfies(g, f)
  {
    if SatisfiesAll(g, cs + [f]) {
      forall i | 0 <= i < |cs| ensures Satisfies(g, cs[i]) {
        assert (cs + [f])[i] == cs[i];
      }
      assert (cs + [f])[|cs|] == f;
    }
  }

  /** The solver object: an append-only list of formulas. */
  class Solver {
    var constraints: seq<Formula>

    constructor ()
      ensures constraints == []
    {
      constraints := [];
    }

    /** Conjoin `f` into the store. */
    method Add(f: Formula)
      modifies this
      ensures constraints == old(constraints) + [f]
    {
      constraints := constraints + [f];
    }

    /** `check()` followed by `model()`: a model of everything added so far,
        or `None` exactly when no `n` by `m` grid satisfies it. */
    method Check(engine: Engine, ghost n: nat, ghost m: nat) returns (model: Option<Grid>)
      requires Decides(engine, n, m)
      ensures model.Some? <==> Satisfiable(constraints, n, m)
      ensures model.Some? ==> IsGrid(model.value, n, m) && SatisfiesAll(model.value, constraints)
    {
      model := engine(constraints);
    }
  }
}
