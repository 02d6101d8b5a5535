/** Lines of a nonogram and the clue a line spells.

    A line is a sequence of cells, `true` for filled and `false` for blank.
    Its clue is the list of the lengths of its maximal runs of filled cells,
    read left to right.  `Runs` decodes a line into its clue; it is the
    reference against which the placement encoder is proved. */
module Lines {

  /** Block lengths of one row or column, left to right. */
  type Clue = seq<nat>

  /** Every block of the clue has at least one cell. */
  predicate Positive(clue: Clue) {
    forall i :: 0 <= i < |clue| ==> clue[i] > 0
  }

  /** Python's `sum` over a list of block lengths. */
  function Sum(s: seq<nat>): nat {
    if s == [] then 0 else s[0] + Sum(s[1..])
  }

  lemma SumStep(s: seq<nat>, k: nat)
    requires k < |s|
    ensures Sum(s[k..]) == s[k] + Sum(s[k + 1..])
  {
    assert s[k..][1..] == s[k + 1..];
  }

  /** `n` blank cells. */
  function Blank(n: nat): seq<bool> {
    seq(n, _ => false)
  }

  /** `n` filled cells. */
  function Filled(n: nat): seq<bool> {
    seq(n, _ => true)
  }

  /** Length of the run of filled cells at the head of `line`. */
  function LeadingRun(line: seq<bool>): (n: nat)
    ensures n <= |line|
    ensures line != [] && line[0] ==> n > 0
  {
    if line == [] || !line[0] then 0 else 1 + LeadingRun(line[1..])
  }

  /** The leading run is all filled and the cell after it, if any, is
      blank. */
  lemma {:induction false} LeadingRunIsMaximal(line: seq<bool>)
    ensures forall j :: 0 <= j < LeadingRun(line) ==> line[j]
    ensures LeadingRun(line) < |line| ==> !line[LeadingRun(line)]
    decreases |line|
  {
    if line != [] && line[0] {
      LeadingRunIsMaximal(line[1..]);
    }
  }

  /** The clue `line` spells: its maximal runs of filled cells, in order.
      Every run has a positive length. */
  function Runs(line: seq<bool>): (r: Clue)
    ensures Positive(r)
    decreases |line|
  {
    if line == [] then []
    else if !line[0] then Runs(line[1..])
    else
      var n := LeadingRun(line);
      [n] + Runs(line[n..])
  }

  /** Blank cells in front of a line add no run. */
  lemma {:induction false} RunsAfterBlank(a: nat, s: seq<bool>)
    ensures Runs(Blank(a) + s) == Runs(s)
    decreases a
  {
    if a > 0 {
      var t := Blank(a) + s;
      assert t != [] && !t[0];
      assert t[1..] == Blank(a - 1) + s;
      RunsAfterBlank(a - 1, s);
    } else {
      assert Blank(a) + s == s;
    }
  }

  lemma {:induction false} LeadingRunOfBlock(c: nat, s: seq<bool>)
    requires s == [] || !s[0]
    ensures LeadingRun(Filled(c) + s) == c
    decreases c
  {
    var t := Filled(c) + s;
    if c > 0 {
      assert t[1..] == Filled(c - 1) + s;
      LeadingRunOfBlock(c - 1, s);
    } else {
      assert t == s;
    }
  }

  /** A block of `c > 0` filled cells followed by a blank cell (or by the end
      of the line) is one run of length `c`. */
  lemma RunsAfterBlock(c: nat, s: seq<bool>)
    requires c > 0
    requires s == [] || !s[0]
    ensures Runs(Filled(c) + s) == [c] + Runs(s)
  {
    var t := Filled(c) + s;
    LeadingRunOfBlock(c, s);
    assert t[c..] == s;
  }

  /** A line spells the empty clue exactly when every cell is blank. */
  lemma {:induction false} RunsEmptyIffBlank(line: seq<bool>)
    ensures Runs(line) == [] <==> line == Blank(|line|)
    decreases |line|
  {
    if line != [] {
      if !line[0] {
        RunsEmptyIffBlank(line[1..]);
        if line[1..] == Blank(|line| - 1) {
          assert line == [false] + line[1..];
          assert line == Blank(|line|);
        }
        if line == Blank(|line|) {
          assert line[1..] == Blank(|line| - 1);
        }
      } else {
        assert Runs(line) != [];
        assert line != Blank(|line|) by { assert line[0]; }
      }
    }
  }
}
